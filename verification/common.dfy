/** Shared vocabulary: nullable values, results carrying .NET exceptions,
    and first-match search over sequences. */
module Common {

  /** A nullable reference: `None` stands for C# `null`. */
  datatype Option<+T> = None | Some(value: T) {
    function GetOr(default: T): T {
      if Some? then value else default
    }
  }

  /** The exceptions the modelled code raises or lets escape. */
  datatype Exception =
    | ArgumentNullException(paramName: string)
    | InvalidOperationException(message: string)
    | NullReferenceException
    | InvalidCastException
    | IndexOutOfRangeException
    | FormatException
    | OverflowException
    | XmlException

  /** A value, or the exception thrown instead of returning it. */
  datatype Result<+T> = Success(value: T) | Failure(error: Exception)

  /** `s ?? ""` */
  function OrEmpty(s: Option<string>): string {
    s.GetOr("")
  }

  /** `string.IsNullOrEmpty(s)` */
  predicate IsNullOrEmpty(s: Option<string>) {
    s.None? || s.value == ""
  }

  /** Index of the first element satisfying `p` (LINQ `FirstOrDefault` with a predicate). */
  function FirstIndex<T>(s: seq<T>, p: T -> bool): (r: Option<nat>)
    ensures r.Some? ==> r.value < |s| && p(s[r.value])
    ensures r.Some? ==> forall j :: 0 <= j < r.value ==> !p(s[j])
    ensures r.None? ==> forall j :: 0 <= j < |s| ==> !p(s[j])
    decreases |s|
  {
    if s == [] then None
    else if p(s[0]) then Some(0)
    else
      match FirstIndex(s[1..], p)
      case None => None
      case Some(k) => Some(k + 1)
  }

  /** `f` applied to every element in order (a lazily enumerated sequence
      read to the end): all the values, or the error of the first failure. */
  function MapAll<A, B>(xs: seq<A>, f: A -> Result<B>): (r: Result<seq<B>>)
    ensures r.Success? <==> forall i :: 0 <= i < |xs| ==> f(xs[i]).Success?
    ensures r.Success? ==> |r.value| == |xs| && forall i :: 0 <= i < |xs| ==> r.value[i] == f(xs[i]).value
    ensures r.Failure? ==>
      exists i :: 0 <= i < |xs| && f(xs[i]).Failure? && r.error == f(xs[i]).error
        && forall j :: 0 <= j < i ==> f(xs[j]).Success?
    decreases |xs|
  {
    if xs == [] then Success([])
    else
      var head := f(xs[0]);
      if head.Failure? then Failure(head.error)
      else
        var rest := MapAll(xs[1..], f);
        assert forall i :: 1 <= i < |xs| ==> xs[1..][i - 1] == xs[i];
        if rest.Failure? then
          ghost var k :| 0 <= k < |xs| - 1 && f(xs[1..][k]).Failure? && rest.error == f(xs[1..][k]).error
            && forall j :: 0 <= j < k ==> f(xs[1..][j]).Success?;
          assert f(xs[k + 1]).Failure?;
          rest
        else Success([head.value] + rest.value)
  }
}
