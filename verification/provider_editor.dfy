/** The provider editor's save-time check (Subversion15ProviderEditor.cs):
    no repository name may contain `/`. */
module ProviderEditor {
  import opened Common
  import opened SourceControl

  /** How severe a validation finding is; `Valid` is the level nothing was found at. */
  datatype ValidationLevel = Valid | Warning | Error

  /** The parts of the validation event that validation writes. */
  datatype Validation = Validation(message: Option<string>, level: ValidationLevel)

  /** Where the search for a bad repository stops: at a null name (testing it
      throws) or at a name containing `/`. */
  predicate StopsAt(r: SourceRepository) {
    r.name.None? || '/' in r.name.value
  }

  /** The index the search stops at, if any. */
  function FirstBad(rs: seq<SourceRepository>): (r: Option<nat>)
    ensures r.Some? ==> r.value < |rs| && StopsAt(rs[r.value])
    ensures r.Some? ==> forall j :: 0 <= j < r.value ==> !StopsAt(rs[j])
    ensures r.None? ==> forall j :: 0 <= j < |rs| ==> !StopsAt(rs[j])
  {
    FirstIndex(rs, StopsAt)
  }

  /** The message naming the offending repository. */
  function InvalidMessage(name: string): (m: string)
    ensures |m| > |name|
  {
    "Repository " + name + " is invalid because it contains the \"/\" character."
  }

  /** Different names give different messages: the message identifies the repository. */
  lemma InvalidMessageInjective(a: string, b: string)
    requires InvalidMessage(a) == InvalidMessage(b)
    ensures a == b
  {
    var m := InvalidMessage(a);
    assert |a| == |b|;
    assert m[11..11 + |a|] == a;
    assert InvalidMessage(b)[11..11 + |b|] == b;
  }

  /** `SubversionProviderEditorBase_ValidateBeforeSave`: null repositories or
      none with `/` leave the event as it was; the first repository with `/`
      sets the message and the Error level; a null name met first throws. */
  function ValidateBeforeSave(repos: Option<seq<SourceRepository>>, e: Validation): (r: Result<Validation>)
    ensures repos.None? ==> r == Success(e)
    ensures repos.Some? ==>
      var hit := FirstBad(repos.value);
      && (hit.None? ==> r == Success(e))
      && (hit.Some? && repos.value[hit.value].name.None? ==> r == Failure(NullReferenceException))
      && (hit.Some? && repos.value[hit.value].name.Some? ==>
            r == Success(Validation(Some(InvalidMessage(repos.value[hit.value].name.value)), Error)))
  {
    if repos.None? then Success(e)
    else
      match FirstBad(repos.value)
      case None => Success(e)
      case Some(i) =>
        var bad := repos.value[i];
        if bad.name.None? then Failure(NullReferenceException)
        else Success(Validation(Some(InvalidMessage(bad.name.value)), Error))
  }

  /** With every name set, validation never throws; it reports Error exactly
      when some name contains `/`, naming the first such repository, and
      otherwise leaves the event untouched. */
  lemma ValidationFailsIffSlash(repos: seq<SourceRepository>, e: Validation)
    requires forall i :: 0 <= i < |repos| ==> repos[i].name.Some?
    ensures ValidateBeforeSave(Some(repos), e).Success?
    ensures (forall i :: 0 <= i < |repos| ==> '/' !in repos[i].name.value) ==>
      ValidateBeforeSave(Some(repos), e).value == e
    ensures (exists i :: 0 <= i < |repos| && '/' in repos[i].name.value) ==>
      var v := ValidateBeforeSave(Some(repos), e).value;
      && v.level == Error
      && exists i :: 0 <= i < |repos| && '/' in repos[i].name.value
           && v.message == Some(InvalidMessage(repos[i].name.value))
           && forall j :: 0 <= j < i ==> '/' !in repos[j].name.value
  {
    var hit := FirstBad(repos);
    if hit.Some? {
      var i := hit.value;
      assert forall j :: 0 <= j < i ==> !StopsAt(repos[j]);
    } else {
      assert forall i :: 0 <= i < |repos| ==> !StopsAt(repos[i]);
    }
  }
}
