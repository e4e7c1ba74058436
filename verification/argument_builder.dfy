/** The ordered command-line builder (SvnArgumentBuilder.cs): plain, quoted
    and sensitive arguments, rendered once for execution and once redacted
    for the log. */
module ArgumentBuilder {
  import opened Common
  import opened Strings

  /** One entry of the list: the nested `SvnArg` class. */
  datatype Arg = Arg(value: string, quoted: bool, sensitive: bool)

  /** The builder is its list of arguments, in insertion order. */
  type Builder = seq<Arg>

  /** What a sensitive argument becomes in the log rendering. */
  const Hidden: string := "(hidden)"

  /** `Append`: a plain argument; a null argument is stored as "". */
  function Append(b: Builder, arg: Option<string>): (r: Builder)
    ensures |r| == |b| + 1 && r[..|b|] == b
    ensures r[|b|].value == OrEmpty(arg) && !r[|b|].quoted && !r[|b|].sensitive
  {
    b + [Arg(OrEmpty(arg), false, false)]
  }

  /** `AppendQuoted`: a quoted, non-sensitive argument. */
  function AppendQuoted(b: Builder, arg: Option<string>): (r: Builder)
    ensures |r| == |b| + 1 && r[..|b|] == b
    ensures r[|b|].value == OrEmpty(arg) && r[|b|].quoted && !r[|b|].sensitive
  {
    b + [Arg(OrEmpty(arg), true, false)]
  }

  /** `AppendSensitive`: a quoted argument that the log rendering hides. */
  function AppendSensitive(b: Builder, arg: Option<string>): (r: Builder)
    ensures |r| == |b| + 1 && r[..|b|] == b
    ensures r[|b|].value == OrEmpty(arg) && r[|b|].quoted && r[|b|].sensitive
  {
    b + [Arg(OrEmpty(arg), true, true)]
  }

  /** `arg.Replace("\"", "\\\"")`: every double quote gets a backslash in front. */
  function Escape(s: string): (r: string)
    ensures |r| >= |s|
    ensures forall i :: 0 <= i < |r| && r[i] == '"' ==> 0 < i && r[i - 1] == '\\'
    decreases |s|
  {
    if s == [] then []
    else
      var tail := Escape(s[1..]);
      var head := if s[0] == '"' then "\\\"" else [s[0]];
      assert forall i :: |head| <= i < |head + tail| ==> (head + tail)[i] == tail[i - |head|];
      head + tail
  }

  /** Reads an escaped value back: `\"` stands for `"`, everything else for itself. */
  function Unescape(t: string): string
    decreases |t|
  {
    if t == [] then []
    else if |t| >= 2 && t[0] == '\\' && t[1] == '"' then "\"" + Unescape(t[2..])
    else [t[0]] + Unescape(t[1..])
  }

  /** Escaping loses nothing: the value can be read back from its escaped form. */
  lemma {:induction false} EscapeRoundTrip(s: string)
    ensures Unescape(Escape(s)) == s
    decreases |s|
  {
    if s != [] {
      var tail := Escape(s[1..]);
      EscapeRoundTrip(s[1..]);
      if s[0] == '"' {
        assert Escape(s) == "\\\"" + tail;
        assert (Escape(s))[2..] == tail;
      } else {
        assert Escape(s) == [s[0]] + tail;
        assert tail == [] || tail[0] != '"';
        assert (Escape(s))[1..] == tail;
      }
    }
  }

  /** A value without double quotes is left as it is. */
  lemma {:induction false} EscapeWithoutQuotes(s: string)
    requires '"' !in s
    ensures Escape(s) == s
    decreases |s|
  {
    if s != [] {
      EscapeWithoutQuotes(s[1..]);
      assert s == [s[0]] + s[1..];
    }
  }

  /** Escaping keeps the last character of a value that does not end in `"`. */
  lemma {:induction false} EscapeKeepsLast(s: string)
    requires s != [] && s[|s| - 1] != '"'
    ensures Escape(s) != [] && Escape(s)[|Escape(s)| - 1] == s[|s| - 1]
    decreases |s|
  {
    var tail := Escape(s[1..]);
    if |s| == 1 {
      assert Escape(s) == [s[0]] + tail;
    } else {
      EscapeKeepsLast(s[1..]);
      assert s[1..][|s| - 2] == s[|s| - 1];
    }
  }

  /** The quoted form of a value: `"` + escaped value + `"`. */
  function Quote(s: string): string {
    "\"" + Escape(s) + "\""
  }

  /** `SvnArg.ToString()`: quoted arguments are wrapped and escaped, others are raw. */
  function Render(a: Arg): (r: string)
    ensures !a.quoted ==> r == a.value
    ensures a.quoted ==> |r| >= 2 && r[0] == '"' && r[|r| - 1] == '"'
    ensures a.quoted ==> Unescape(r[1..|r| - 1]) == a.value
    ensures a.quoted ==> forall i :: 0 < i < |r| - 1 && r[i] == '"' ==> r[i - 1] == '\\'
  {
    if a.quoted then
      EscapeRoundTrip(a.value);
      var q := Quote(a.value);
      assert q[1..|q| - 1] == Escape(a.value);
      q
    else a.value
  }

  /** Only `"` is escaped, not `\`: a quoted value ending in `\` leaves a
      `\` right before the closing delimiter, so a reader that treats `\"`
      as an escaped quote does not see the argument end there. */
  lemma TrailingBackslashBeforeClosingQuote(v: string, sensitive: bool)
    requires v != [] && v[|v| - 1] == '\\'
    ensures var r := Render(Arg(v, true, sensitive));
      |r| >= 3 && r[|r| - 2] == '\\' && r[|r| - 1] == '"'
  {
    EscapeKeepsLast(v);
    var e := Escape(v);
    assert Quote(v) == "\"" + e + "\"";
    assert Quote(v)[|Quote(v)| - 2] == e[|e| - 1];
  }

  /** Example: `C:\w\` followed by the argument `x` renders with `\"`
      just before the space. */
  lemma TrailingBackslashExample()
    ensures ToString([Arg("C:\\w\\", true, false), Arg("x", false, false)]) == "\"C:\\w\\\" x"
  {
    TrailingBackslashParts();
    JoinPair(" ", "\"C:\\w\\\"", "x");
  }

  /** TrailingBackslashExample: the two rendered parts. */
  lemma TrailingBackslashParts()
    ensures Parts([Arg("C:\\w\\", true, false), Arg("x", false, false)]) == ["\"C:\\w\\\"", "x"]
  {
    var v := "C:\\w\\";
    var a1, a2 := Arg(v, true, false), Arg("x", false, false);
    assert Render(a1) == "\"" + v + "\"" by {
      EscapeWithoutQuotes(v);
    }
    assert "\"" + v + "\"" == "\"C:\\w\\\"";
    PartsPair(a1, a2);
  }

  /** `SvnArg.ToSensitiveString()`: a sensitive argument becomes `(hidden)`. */
  function RenderSensitive(a: Arg): (r: string)
    ensures a.sensitive ==> r == Hidden
    ensures !a.sensitive ==> r == Render(a)
  {
    if a.sensitive then Hidden
    else if a.quoted then Quote(a.value)
    else a.value
  }

  /** The execution rendering of each argument, in order. */
  function Parts(b: Builder): (r: seq<string>)
    ensures |r| == |b|
    ensures forall i :: 0 <= i < |b| ==> r[i] == Render(b[i])
  {
    seq(|b|, i requires 0 <= i < |b| => Render(b[i]))
  }

  /** The log rendering of each argument, in order. */
  function SensitiveParts(b: Builder): (r: seq<string>)
    ensures |r| == |b|
    ensures forall i :: 0 <= i < |b| ==> r[i] == RenderSensitive(b[i])
  {
    seq(|b|, i requires 0 <= i < |b| => RenderSensitive(b[i]))
  }

  /** Both renderings work argument by argument. */
  lemma PartsConcat(b1: Builder, b2: Builder)
    ensures Parts(b1 + b2) == Parts(b1) + Parts(b2)
    ensures SensitiveParts(b1 + b2) == SensitiveParts(b1) + SensitiveParts(b2)
  {
  }

  /** The renderings of a two-argument list. */
  lemma PartsPair(a1: Arg, a2: Arg)
    ensures Parts([a1, a2]) == [Render(a1), Render(a2)]
    ensures SensitiveParts([a1, a2]) == [RenderSensitive(a1), RenderSensitive(a2)]
  {
  }

  /** `ToString()`: the command line handed to the process. */
  function ToString(b: Builder): string {
    Join(" ", Parts(b))
  }

  /** `ToSensitiveString()`: the command line written to the log. */
  function ToSensitiveString(b: Builder): string {
    Join(" ", SensitiveParts(b))
  }

  /** Appending an argument extends both renderings by one space-separated
      part at the end; nothing before it changes. */
  lemma RenderAppend(b: Builder, a: Arg)
    ensures ToString(b + [a]) == if b == [] then Render(a) else ToString(b) + " " + Render(a)
    ensures ToSensitiveString(b + [a]) ==
      if b == [] then RenderSensitive(a) else ToSensitiveString(b) + " " + RenderSensitive(a)
  {
    assert Parts(b + [a]) == Parts(b) + [Render(a)];
    assert SensitiveParts(b + [a]) == SensitiveParts(b) + [RenderSensitive(a)];
    JoinSnoc(" ", Parts(b), Render(a));
    JoinSnoc(" ", SensitiveParts(b), RenderSensitive(a));
  }

  /** Rendering a concatenation of two lists joins their renderings with one space. */
  lemma RenderConcat(b1: Builder, b2: Builder)
    requires b1 != [] && b2 != []
    ensures ToString(b1 + b2) == ToString(b1) + " " + ToString(b2)
    ensures ToSensitiveString(b1 + b2) == ToSensitiveString(b1) + " " + ToSensitiveString(b2)
  {
    assert Parts(b1 + b2) == Parts(b1) + Parts(b2);
    assert SensitiveParts(b1 + b2) == SensitiveParts(b1) + SensitiveParts(b2);
    JoinConcat(" ", Parts(b1), Parts(b2));
    JoinConcat(" ", SensitiveParts(b1), SensitiveParts(b2));
  }

  /** One part per argument, in order: when no rendered argument is empty or
      holds a space, splitting the command line at spaces gives the parts back. */
  lemma SplitRecoversParts(b: Builder)
    requires forall i :: 0 <= i < |b| ==> Render(b[i]) != [] && ' ' !in Render(b[i])
    ensures Split(ToString(b), ' ') == Parts(b)
  {
    SplitJoin(Parts(b), ' ');
  }

  /** The list the log rendering shows: each sensitive argument replaced by
      a plain `(hidden)`. */
  function Redact(b: Builder): (r: Builder)
    ensures |r| == |b|
    ensures forall i :: 0 <= i < |b| ==> r[i] == if b[i].sensitive then Arg(Hidden, false, false) else b[i]
  {
    seq(|b|, i requires 0 <= i < |b| => if b[i].sensitive then Arg(Hidden, false, false) else b[i])
  }

  /** The log rendering is the execution rendering of the redacted list: the two
      strings differ exactly at the sensitive positions. */
  lemma SensitiveStringIsRedactedString(b: Builder)
    ensures ToSensitiveString(b) == ToString(Redact(b))
  {
    assert SensitiveParts(b) == Parts(Redact(b));
  }

  /** Without sensitive arguments both renderings coincide. */
  lemma RenderingsAgreeWithoutSecrets(b: Builder)
    requires forall i :: 0 <= i < |b| ==> !b[i].sensitive
    ensures ToSensitiveString(b) == ToString(b)
  {
    assert SensitiveParts(b) == Parts(b);
  }

  /** Two lists that differ only in the values of their sensitive arguments. */
  predicate SameUpToSecrets(b1: Builder, b2: Builder) {
    |b1| == |b2| &&
    forall i :: 0 <= i < |b1| ==>
      b1[i].sensitive == b2[i].sensitive &&
      (!b1[i].sensitive ==> b1[i] == b2[i])
  }

  /** The log rendering never depends on a sensitive value: changing only the
      secrets leaves it unchanged. */
  lemma LogIndependentOfSecrets(b1: Builder, b2: Builder)
    requires SameUpToSecrets(b1, b2)
    ensures ToSensitiveString(b1) == ToSensitiveString(b2)
  {
    assert SensitiveParts(b1) == SensitiveParts(b2);
  }

  /** Redaction works per argument, not on text: a password that was also
      passed as an ordinary quoted argument is still visible in the log rendering. */
  lemma RedactionIsPerArgument()
    ensures ToSensitiveString([Arg("pw", true, false), Arg("pw", true, true)]) == "\"pw\" (hidden)"
  {
    EscapeWithoutQuotes("pw");
    RenderAppend([Arg("pw", true, false)], Arg("pw", true, true));
    RenderAppend([], Arg("pw", true, false));
  }
}
