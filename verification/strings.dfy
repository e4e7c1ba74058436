/** The .NET string operations the adapter relies on, over `seq<char>`:
    trimming a character, joining, splitting without empty entries,
    searching, whitespace trimming and case folding. */
module Strings {

  /** `s.TrimStart(c)`: drop the longest prefix made only of `c`. */
  function TrimStart(s: string, c: char): (r: string)
    ensures |r| <= |s| && r == s[|s| - |r|..]
    ensures r == [] || r[0] != c
    ensures forall i :: 0 <= i < |s| - |r| ==> s[i] == c
    decreases |s|
  {
    if |s| > 0 && s[0] == c then TrimStart(s[1..], c) else s
  }

  /** `s.TrimEnd(c)`: drop the longest suffix made only of `c`. */
  function TrimEnd(s: string, c: char): (r: string)
    ensures |r| <= |s| && r == s[..|r|]
    ensures r == [] || r[|r| - 1] != c
    ensures forall i :: |r| <= i < |s| ==> s[i] == c
    decreases |s|
  {
    if |s| > 0 && s[|s| - 1] == c then TrimEnd(s[..|s| - 1], c) else s
  }

  /** `s.Trim(c)`: trim `c` at both ends. */
  function Trim(s: string, c: char): string {
    TrimEnd(TrimStart(s, c), c)
  }

  /** `s.EndsWith(c)` */
  predicate EndsWith(s: string, c: char) {
    |s| > 0 && s[|s| - 1] == c
  }

  /** TrimStart is determined by where the first non-`c` character sits. */
  lemma TrimStartAt(s: string, c: char, k: nat)
    requires k <= |s|
    requires forall i :: 0 <= i < k ==> s[i] == c
    requires k == |s| || s[k] != c
    ensures TrimStart(s, c) == s[k..]
  {
  }

  /** TrimEnd is determined by where the last non-`c` character sits. */
  lemma TrimEndAt(s: string, c: char, k: nat)
    requires k <= |s|
    requires forall i :: k <= i < |s| ==> s[i] == c
    requires k == 0 || s[k - 1] != c
    ensures TrimEnd(s, c) == s[..k]
  {
  }

  /** `string.Join(sep, parts)` */
  function Join(sep: string, parts: seq<string>): string
    decreases |parts|
  {
    if |parts| == 0 then ""
    else if |parts| == 1 then parts[0]
    else parts[0] + sep + Join(sep, parts[1..])
  }

  /** Joining two parts puts one separator between them. */
  lemma JoinPair(sep: string, a: string, b: string)
    ensures Join(sep, [a, b]) == a + sep + b
  {
    assert [a, b][1..] == [b];
  }

  /** Joining one more part appends the separator and that part. */
  lemma {:induction false} JoinSnoc(sep: string, parts: seq<string>, p: string)
    ensures Join(sep, parts + [p]) == if parts == [] then p else Join(sep, parts) + sep + p
    decreases |parts|
  {
    if |parts| <= 1 {
    } else {
      assert (parts + [p])[1..] == parts[1..] + [p];
      JoinSnoc(sep, parts[1..], p);
    }
  }

  /** Joining a concatenation joins the two halves with one separator between. */
  lemma {:induction false} JoinConcat(sep: string, xs: seq<string>, ys: seq<string>)
    requires xs != [] && ys != []
    ensures Join(sep, xs + ys) == Join(sep, xs) + sep + Join(sep, ys)
    decreases |xs|
  {
    assert (xs + ys)[1..] == xs[1..] + ys;
    if |xs| > 1 {
      JoinConcat(sep, xs[1..], ys);
      var rest := Join(sep, xs[1..]);
      assert xs[0] + sep + (rest + sep + Join(sep, ys)) == (xs[0] + sep + rest) + sep + Join(sep, ys);
    }
  }

  /** `s.LastIndexOf(c)`, or -1 when `c` does not occur. */
  function LastIndexOf(s: string, c: char): (r: int)
    ensures -1 <= r < |s|
    ensures r >= 0 ==> s[r] == c
    ensures forall i :: r < i < |s| ==> s[i] != c
  {
    LastIndexBefore(s, c, |s|)
  }

  /** The last position below `n` holding `c`, or -1. */
  function LastIndexBefore(s: string, c: char, n: nat): (r: int)
    requires n <= |s|
    ensures -1 <= r < n
    ensures r >= 0 ==> s[r] == c
    ensures forall i :: r < i < n ==> s[i] != c
    decreases n
  {
    if n == 0 then -1
    else if s[n - 1] == c then n - 1
    else LastIndexBefore(s, c, n - 1)
  }

  /** `s.IndexOf(c, from)`: first occurrence at or after `from`, or -1. */
  function IndexOfFrom(s: string, c: char, from: nat): (r: int)
    requires from <= |s|
    ensures r == -1 || from <= r < |s|
    ensures r >= 0 ==> s[r] == c
    ensures forall i :: from <= i < |s| && (r < 0 || i < r) ==> s[i] != c
    decreases |s| - from
  {
    if from == |s| then -1
    else if s[from] == c then from
    else IndexOfFrom(s, c, from + 1)
  }

  /** `s.Split(c, StringSplitOptions.RemoveEmptyEntries)`: the maximal runs of
      characters other than `c`, in order. Defined from the right-hand end. */
  function Split(s: string, c: char): (r: seq<string>)
    ensures forall i :: 0 <= i < |r| ==> r[i] != [] && c !in r[i]
    decreases |s|
  {
    if s == [] then []
    else if s[|s| - 1] == c then Split(s[..|s| - 1], c)
    else
      var k := LastIndexOf(s, c) + 1;
      Split(s[..k], c) + [s[k..]]
  }

  /** `parts.LastOrDefault() ?? ""` */
  function LastOrEmpty(parts: seq<string>): string {
    if parts == [] then "" else parts[|parts| - 1]
  }

  /** A string made only of separators has no segments. */
  lemma {:induction false} SplitAllSeparators(s: string, c: char)
    requires forall i :: 0 <= i < |s| ==> s[i] == c
    ensures Split(s, c) == []
    decreases |s|
  {
    if s != [] {
      SplitAllSeparators(s[..|s| - 1], c);
    }
  }

  /** A string holding some other character has at least one segment. */
  lemma {:induction false} SplitNotEmpty(s: string, c: char, i: nat)
    requires i < |s| && s[i] != c
    ensures Split(s, c) != []
    decreases |s|
  {
    if s[|s| - 1] == c {
      SplitNotEmpty(s[..|s| - 1], c, i);
    }
  }

  /** LastIndexOf is determined by the last position holding `c`. */
  lemma LastIndexOfAt(s: string, c: char, r: int)
    requires -1 <= r < |s|
    requires r >= 0 ==> s[r] == c
    requires forall i :: r < i < |s| ==> s[i] != c
    ensures LastIndexOf(s, c) == r
  {
  }

  /** A string has no segments exactly when it is made only of separators. */
  lemma SplitEmptyIff(s: string, c: char)
    ensures Split(s, c) == [] <==> forall i :: 0 <= i < |s| ==> s[i] == c
  {
    if forall i :: 0 <= i < |s| ==> s[i] == c {
      SplitAllSeparators(s, c);
    } else {
      var i :| 0 <= i < |s| && s[i] != c;
      SplitNotEmpty(s, c, i);
    }
  }

  /** Splitting a string that ends in a segment. */
  lemma SplitLastSegment(x: string, c: char, y: string)
    requires y != [] && c !in y
    ensures Split(x + [c] + y, c) == Split(x + [c], c) + [y]
  {
    var s := x + [c] + y;
    assert s[|s| - 1] == y[|y| - 1];
    assert forall i :: |x| < i < |s| ==> s[i] == y[i - |x| - 1];
    LastIndexOfAt(s, c, |x|);
    assert s[..|x| + 1] == x + [c];
    assert s[|x| + 1..] == y;
  }

  /** Splitting a string whose last character is not `c`: the definition's last case. */
  lemma SplitLastRun(s: string, c: char, k: nat)
    requires k < |s| && s[|s| - 1] != c
    requires k > 0 ==> s[k - 1] == c
    requires forall i :: k <= i < |s| ==> s[i] != c
    ensures Split(s, c) == Split(s[..k], c) + [s[k..]]
  {
    LastIndexOfAt(s, c, k - 1);
  }

  /** The last run of `y` is also the last run of `x + [c] + y`. */
  lemma ShiftedLastRun(x: string, c: char, y: string, k: nat)
    requires k < |y| && y[|y| - 1] != c
    requires k > 0 ==> y[k - 1] == c
    requires forall i :: k <= i < |y| ==> y[i] != c
    ensures Split(x + [c] + y, c) == Split(x + [c] + y[..k], c) + [y[k..]]
  {
    var s := x + [c] + y;
    var n := |x| + 1;
    ShiftedRunBounds(x, c, y, k);
    SplitLastRun(s, c, n + k);
    ShiftedSlices(x, c, y, k);
  }

  /** Where the last run of `y` sits in `x + [c] + y`: a `c` just before it,
      none from it on. */
  lemma ShiftedRunBounds(x: string, c: char, y: string, k: nat)
    requires k < |y| && y[|y| - 1] != c
    requires k > 0 ==> y[k - 1] == c
    requires forall i :: k <= i < |y| ==> y[i] != c
    ensures var s := x + [c] + y;
      && s[|s| - 1] != c
      && s[|x| + k] == c
      && forall i :: |x| + 1 + k <= i < |s| ==> s[i] != c
  {
    var s := x + [c] + y;
    var n := |x| + 1;
    forall i | n + k <= i < |s|
      ensures s[i] != c
    {
      assert s[i] == y[i - n];
    }
    if k > 0 {
      assert s[n + k - 1] == y[k - 1];
    }
  }

  /** Cutting `x + [c] + y` where `y` is cut at `k`. */
  lemma ShiftedSlices(x: string, c: char, y: string, k: nat)
    requires k <= |y|
    ensures (x + [c] + y)[..|x| + 1 + k] == x + [c] + y[..k]
    ensures (x + [c] + y)[|x| + 1 + k..] == y[k..]
  {
  }

  /** A trailing separator adds no segment. */
  lemma SplitDropLast(s: string, c: char)
    requires s != [] && s[|s| - 1] == c
    ensures Split(s, c) == Split(s[..|s| - 1], c)
  {
  }

  /** A separator between two strings splits them independently. */
  lemma {:induction false} SplitAroundSeparator(x: string, c: char, y: string)
    ensures Split(x + [c] + y, c) == Split(x, c) + Split(y, c)
    decreases |y|, 1
  {
    if y == [] {
      assert x + [c] + y == x + [c];
      SplitDropLast(x + [c], c);
      assert (x + [c])[..|x|] == x;
    } else if y[|y| - 1] == c {
      SplitAroundTrailingSeparator(x, c, y);
    } else {
      SplitAroundSegment(x, c, y);
    }
  }

  /** SplitAroundSeparator when `y` ends in a separator. */
  lemma {:induction false} SplitAroundTrailingSeparator(x: string, c: char, y: string)
    requires y != [] && y[|y| - 1] == c
    ensures Split(x + [c] + y, c) == Split(x, c) + Split(y, c)
    decreases |y|, 0
  {
    var y' := y[..|y| - 1];
    var s := x + [c] + y;
    SplitDropLast(s, c);
    SplitDropLast(y, c);
    assert s[..|s| - 1] == x + [c] + y';
    SplitAroundSeparator(x, c, y');
  }

  /** SplitAroundSeparator when `y` ends in a segment. */
  lemma {:induction false} SplitAroundSegment(x: string, c: char, y: string)
    requires y != [] && y[|y| - 1] != c
    ensures Split(x + [c] + y, c) == Split(x, c) + Split(y, c)
    decreases |y|, 0
  {
    var k := LastIndexOf(y, c) + 1;
    var front, last := y[..k], y[k..];
    SplitLastRun(y, c, k);
    ShiftedLastRun(x, c, y, k);
    SplitAroundSeparator(x, c, front);
    assert (Split(x, c) + Split(front, c)) + [last] == Split(x, c) + (Split(front, c) + [last]);
  }

  /** Leading separators do not change the segments. */
  lemma SplitTrimStart(s: string, c: char)
    ensures Split(TrimStart(s, c), c) == Split(s, c)
  {
    var r := TrimStart(s, c);
    var j := |s| - |r|;
    if j > 0 {
      var p := s[..j - 1];
      assert s == p + [c] + r;
      SplitAroundSeparator(p, c, r);
      SplitAllSeparators(p, c);
    }
  }

  /** Trailing separators do not change the segments. */
  lemma {:induction false} SplitTrimEnd(s: string, c: char)
    ensures Split(TrimEnd(s, c), c) == Split(s, c)
    decreases |s|
  {
    if s != [] && s[|s| - 1] == c {
      SplitDropLast(s, c);
      SplitTrimEnd(s[..|s| - 1], c);
    }
  }

  /** A non-empty string free of the separator is one segment. */
  lemma SplitSingle(s: string, c: char)
    requires s != [] && c !in s
    ensures Split(s, c) == [s]
  {
    SplitLastRun(s, c, 0);
    assert s[..0] == [];
  }

  /** The segments of `s` without its trailing separators, one separator, and
      `t` without its leading ones: the segments of `s`, then those of `t`. */
  lemma SplitTrimmedJoin(s: string, c: char, t: string)
    ensures Split(TrimEnd(s, c) + [c] + TrimStart(t, c), c) == Split(s, c) + Split(t, c)
  {
    SplitAroundSeparator(TrimEnd(s, c), c, TrimStart(t, c));
    SplitTrimEnd(s, c);
    SplitTrimStart(t, c);
  }

  /** In a non-empty string not ending in `c`, the last segment is what
      follows the last `c`. */
  lemma LastSegmentAfterLastSeparator(rp: string, c: char)
    requires rp != [] && rp[|rp| - 1] != c
    ensures LastOrEmpty(Split(rp, c)) == rp[LastIndexOf(rp, c) + 1..]
  {
    SplitLastRun(rp, c, LastIndexOf(rp, c) + 1);
  }

  /** `r` is the last maximal run of characters other than `c` in `s`: it
      holds no `c`, starts at the beginning or just after a `c`, and only
      `c` follows it; it is empty exactly when `s` is made only of `c`. */
  predicate IsLastRun(s: string, c: char, r: string) {
    && c !in r
    && (r == [] <==> forall i :: 0 <= i < |s| ==> s[i] == c)
    && exists k :: 0 <= k <= |s| && RunAt(s, c, r, k)
  }

  /** `r` sits at position `k` of `s`, after a `c` or at the start, and only
      `c` follows it. */
  predicate RunAt(s: string, c: char, r: string, k: int) {
    && 0 <= k <= |s| - |r| && s[k..k + |r|] == r
    && (k == 0 || s[k - 1] == c)
    && forall i :: k + |r| <= i < |s| ==> s[i] == c
  }

  /** The last segment `Split` gives is the last run. */
  lemma LastSegmentIsLastRun(s: string, c: char)
    ensures IsLastRun(s, c, LastOrEmpty(Split(s, c)))
  {
    var r := LastOrEmpty(Split(s, c));
    var t := TrimEnd(s, c);
    SplitEmptyIff(s, c);
    SplitTrimEnd(s, c);
    if t == [] {
      assert RunAt(s, c, r, 0);
    } else {
      var k := LastIndexOf(t, c) + 1;
      LastSegmentAfterLastSeparator(t, c);
      assert r == t[k..];
      assert s[k..k + |r|] == r;
      assert RunAt(s, c, r, k);
    }
  }

  /** The last run is unique: `IsLastRun` pins the value down. */
  lemma LastRunUnique(s: string, c: char, r1: string, r2: string)
    requires IsLastRun(s, c, r1) && IsLastRun(s, c, r2)
    ensures r1 == r2
  {
    if r1 != [] {
      var k1 :| 0 <= k1 <= |s| && RunAt(s, c, r1, k1);
      var k2 :| 0 <= k2 <= |s| && RunAt(s, c, r2, k2);
      var e1, e2 := k1 + |r1|, k2 + |r2|;
      assert s[e1 - 1] == r1[|r1| - 1];
      assert s[e2 - 1] == r2[|r2| - 1];
      assert e1 == e2;
    }
  }

  /** Splitting undoes joining with the separator, for non-empty parts free of it. */
  lemma {:induction false} SplitJoin(parts: seq<string>, c: char)
    requires forall i :: 0 <= i < |parts| ==> parts[i] != [] && c !in parts[i]
    ensures Split(Join([c], parts), c) == parts
    decreases |parts|
  {
    if parts == [] {
    } else {
      var ps := parts[..|parts| - 1];
      var p := parts[|parts| - 1];
      assert parts == ps + [p];
      JoinSnoc([c], ps, p);
      if ps == [] {
        SplitLastSegment([], c, p);
        assert Split([c], c) == [] by {
          SplitAllSeparators([c], c);
        }
        SplitAroundSeparator([], c, p);
        SplitAllSeparators([], c);
        assert Split([] + [c] + p, c) == Split(p, c);
      } else {
        SplitAroundSeparator(Join([c], ps), c, p);
        SplitJoin(ps, c);
        SplitLastSegment([], c, p);
        SplitAroundSeparator([], c, p);
        SplitAllSeparators([c], c);
        assert Split([] + [c] + p, c) == Split([c], c) + [p];
        assert Split(p, c) == [p];
      }
    }
  }

  /** `string.Replace(from, to)` for single characters. */
  function ReplaceChar(s: string, from: char, to: char): (r: string)
    ensures |r| == |s|
    ensures forall i :: 0 <= i < |s| ==> r[i] == if s[i] == from then to else s[i]
  {
    seq(|s|, i requires 0 <= i < |s| => if s[i] == from then to else s[i])
  }

  /** The characters .NET `String.Trim()` strips (the Latin-1 subset of `char.IsWhiteSpace`). */
  predicate IsWhiteSpace(ch: char) {
    ch == ' ' || ch == '\t' || ch == '\n' || ch == '\r' || ch == '\U{000B}'
    || ch == '\U{000C}' || ch == '\U{0085}' || ch == '\U{00A0}'
  }

  /** `s.TrimStart()` with no arguments: drop leading whitespace. */
  function TrimLeadingWhiteSpace(s: string): (r: string)
    ensures |r| <= |s| && r == s[|s| - |r|..]
    ensures r == [] || !IsWhiteSpace(r[0])
    ensures forall i :: 0 <= i < |s| - |r| ==> IsWhiteSpace(s[i])
    decreases |s|
  {
    if |s| > 0 && IsWhiteSpace(s[0]) then TrimLeadingWhiteSpace(s[1..]) else s
  }

  /** `s.TrimEnd()` with no arguments: drop trailing whitespace. */
  function TrimTrailingWhiteSpace(s: string): (r: string)
    ensures |r| <= |s| && r == s[..|r|]
    ensures r == [] || !IsWhiteSpace(r[|r| - 1])
    ensures forall i :: |r| <= i < |s| ==> IsWhiteSpace(s[i])
    decreases |s|
  {
    if |s| > 0 && IsWhiteSpace(s[|s| - 1]) then TrimTrailingWhiteSpace(s[..|s| - 1]) else s
  }

  /** `s.Trim()`: drop leading and trailing whitespace. */
  function TrimWhiteSpace(s: string): (r: string)
    ensures r == [] || (!IsWhiteSpace(r[0]) && !IsWhiteSpace(r[|r| - 1]))
  {
    TrimTrailingWhiteSpace(TrimLeadingWhiteSpace(s))
  }

  /** Pointwise case folding with the folding function `fold`. */
  function FoldCase(fold: char -> char, s: string): (r: string)
    ensures |r| == |s|
    ensures forall i :: 0 <= i < |s| ==> r[i] == fold(s[i])
  {
    seq(|s|, i requires 0 <= i < |s| => fold(s[i]))
  }

  /** `StringComparison.OrdinalIgnoreCase` equality: equal after folding each character. */
  predicate EqualsIgnoreCase(fold: char -> char, a: string, b: string) {
    FoldCase(fold, a) == FoldCase(fold, b)
  }
}
