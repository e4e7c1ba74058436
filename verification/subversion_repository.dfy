/** The display name of a configured repository (SubversionRepository.cs). */
module RepositoryNames {
  import opened Common
  import opened Strings

  /** `RepositoryName`: the configured name when set; otherwise the path
      without trailing slashes, from its last `/` (kept) to the end. */
  function RepositoryName(svnRepositoryName: Option<string>, repositoryPath: Option<string>): (r: string)
    ensures !IsNullOrEmpty(svnRepositoryName) ==> r == svnRepositoryName.value
  {
    if !IsNullOrEmpty(svnRepositoryName) then svnRepositoryName.value
    else
      var rp := TrimEnd(OrEmpty(repositoryPath), '/');
      var k := LastIndexOf(rp, '/');
      rp[if k < 0 then 0 else k..]
  }

  /** A derived name is a suffix of the path without its trailing slashes;
      it does not end in `/` and holds no `/` except possibly in front. */
  lemma DerivedNameShape(repositoryPath: Option<string>)
    ensures var r := RepositoryName(None, repositoryPath);
      var rp := TrimEnd(OrEmpty(repositoryPath), '/');
      && |r| <= |rp| && r == rp[|rp| - |r|..]
      && (r == [] || r[|r| - 1] != '/')
      && (forall i :: 0 < i < |r| ==> r[i] != '/')
  {
  }

  /** A derived name is the last segment of the path, with a `/` in front
      when the trimmed path contains a `/`. */
  lemma DerivedNameIsLastSegment(repositoryPath: Option<string>)
    ensures var rp := TrimEnd(OrEmpty(repositoryPath), '/');
      RepositoryName(None, repositoryPath) == (if '/' in rp then "/" else "") + LastOrEmpty(Split(OrEmpty(repositoryPath), '/'))
  {
    var s := OrEmpty(repositoryPath);
    var rp := TrimEnd(s, '/');
    assert Split(rp, '/') == Split(s, '/') by {
      SplitTrimEnd(s, '/');
    }
    assert RepositoryName(None, repositoryPath) == (if '/' in rp then "/" else "") + LastOrEmpty(Split(rp, '/')) by {
      DerivedNameOfTrimmed(rp);
    }
  }

  /** The derivation on the trimmed path. */
  lemma DerivedNameOfTrimmed(rp: string)
    requires rp == [] || rp[|rp| - 1] != '/'
    ensures var k := LastIndexOf(rp, '/');
      rp[if k < 0 then 0 else k..] == (if '/' in rp then "/" else "") + LastOrEmpty(Split(rp, '/'))
  {
    var k := LastIndexOf(rp, '/');
    SeparatorFound(rp);
    if rp != [] {
      LastSegmentAfterLastSeparator(rp, '/');
    }
    if k >= 0 {
      SeparatorThenRest(rp, k);
    }
  }

  /** The text from a `/` on is that `/` and what follows it. */
  lemma SeparatorThenRest(s: string, k: nat)
    requires k < |s| && s[k] == '/'
    ensures s[k..] == "/" + s[k + 1..]
  {
    assert s[k..] == [s[k]] + s[k + 1..];
  }

  /** LastIndexOf finds a `/` exactly when there is one. */
  lemma SeparatorFound(rp: string)
    ensures LastIndexOf(rp, '/') >= 0 <==> '/' in rp
  {
  }

  /** The example of the derivation: `a/b/` is shown as `/b`. */
  lemma DerivedNameExample()
    ensures RepositoryName(None, Some("a/b/")) == "/b"
    ensures RepositoryName(Some(""), Some("trunk")) == "trunk"
  {
    assert TrimEnd("a/b/", '/') == "a/b";
    assert TrimEnd("trunk", '/') == "trunk";
    LastIndexOfAt("a/b", '/', 1);
    LastIndexOfAt("trunk", '/', -1);
  }
}
