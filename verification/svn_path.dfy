/** The immutable repository path (`SvnPath` in both SvnClient.cs copies):
    a repository URL plus a path relative to it. */
module Paths {
  import opened Common
  import opened Strings

  datatype SvnPath = SvnPath(repositoryUrl: string, relativePath: string)

  /** `new SvnPath(repositoryUrl, relativePath)`: the URL must be non-empty; the
      relative path loses its leading slashes and null becomes "". */
  function NewPath(repositoryUrl: Option<string>, relativePath: Option<string>): (r: Result<SvnPath>)
    ensures r.Failure? <==> IsNullOrEmpty(repositoryUrl)
    ensures r.Failure? ==> r.error == ArgumentNullException("repositoryUrl")
    ensures r.Success? ==> r.value.repositoryUrl == repositoryUrl.value
    ensures r.Success? ==> r.value.relativePath == [] || r.value.relativePath[0] != '/'
    ensures r.Success? ==> OrEmpty(relativePath) == TrimStartRemoved(OrEmpty(relativePath)) + r.value.relativePath
  {
    if IsNullOrEmpty(repositoryUrl) then Failure(ArgumentNullException("repositoryUrl"))
    else Success(SvnPath(repositoryUrl.value, TrimStart(OrEmpty(relativePath), '/')))
  }

  /** The slashes TrimStart removes from the front of `s`. */
  function TrimStartRemoved(s: string): (r: string)
    ensures forall i :: 0 <= i < |r| ==> r[i] == '/'
    ensures r + TrimStart(s, '/') == s
  {
    var t := TrimStart(s, '/');
    var k := |s| - |t|;
    assert t == s[k..];
    assert s == s[..k] + s[k..];
    s[..k]
  }

  /** `new SvnPath(other, relativePath)`: same URL; the parent's relative path
      without trailing slashes, one `/`, then the child without leading slashes. */
  function Child(parent: SvnPath, relativePath: Option<string>): (r: SvnPath)
    ensures r.repositoryUrl == parent.repositoryUrl
    ensures r.relativePath == TrimEnd(parent.relativePath, '/') + "/" + TrimStart(OrEmpty(relativePath), '/')
  {
    SvnPath(parent.repositoryUrl, TrimEnd(parent.relativePath, '/') + "/" + TrimStart(OrEmpty(relativePath), '/'))
  }

  /** A child extends its parent by segments: its relative path splits into
      the parent's segments followed by those of the given path. */
  lemma ChildSegments(parent: SvnPath, relativePath: Option<string>)
    ensures Split(Child(parent, relativePath).relativePath, '/')
         == Split(parent.relativePath, '/') + Split(OrEmpty(relativePath), '/')
  {
    SplitTrimmedJoin(parent.relativePath, '/', OrEmpty(relativePath));
  }

  /** `AbsolutePath`: the URL without trailing slashes, `/`, the relative path. */
  function AbsolutePath(p: SvnPath): string {
    TrimEnd(p.repositoryUrl, '/') + "/" + p.relativePath
  }

  /** The segments of the absolute path are the URL's followed by the
      relative path's: the join neither adds nor loses a segment. */
  lemma AbsolutePathSegments(p: SvnPath)
    ensures Split(AbsolutePath(p), '/') == Split(p.repositoryUrl, '/') + Split(p.relativePath, '/')
  {
    SplitAroundSeparator(TrimEnd(p.repositoryUrl, '/'), '/', p.relativePath);
    SplitTrimEnd(p.repositoryUrl, '/');
  }

  /** `IsDirectory`: the relative path ends in `/`. */
  predicate IsDirectory(p: SvnPath) {
    EndsWith(p.relativePath, '/')
  }

  /** `DisplayName`: the last non-empty `/`-separated segment, or "" when the
      relative path is made only of `/`. */
  function DisplayName(p: SvnPath): (r: string)
    ensures IsLastRun(p.relativePath, '/', r)
  {
    LastSegmentIsLastRun(p.relativePath, '/');
    LastOrEmpty(Split(p.relativePath, '/'))
  }

  /** The join inside AbsolutePath: the URL part never ends in `/` and is
      followed by exactly one `/` unless the relative path itself starts with `/`. */
  lemma AbsolutePathJoin(p: SvnPath)
    ensures var u := TrimEnd(p.repositoryUrl, '/');
      var a := AbsolutePath(p);
      && a[..|u|] == u && a[|u|] == '/' && a[|u| + 1..] == p.relativePath
      && (u == [] || u[|u| - 1] != '/')
      && ((|a| > |u| + 1 && a[|u| + 1] == '/') <==> (p.relativePath != [] && p.relativePath[0] == '/'))
  {
    var u := TrimEnd(p.repositoryUrl, '/');
    var a := AbsolutePath(p);
    assert a[|u| + 1..] == p.relativePath;
  }

  /** A path built from a URL and a relative path has exactly one `/` between them. */
  lemma ConstructedPathJoinsOnce(url: Option<string>, rel: Option<string>)
    requires NewPath(url, rel).Success?
    ensures var p := NewPath(url, rel).value;
      var u := TrimEnd(p.repositoryUrl, '/');
      AbsolutePath(p) == u + "/" + p.relativePath && (p.relativePath == [] || p.relativePath[0] != '/')
  {
  }

  /** A child's relative path starts with `/` exactly when the parent's is empty
      or starts with `/`: the root's children carry a leading `/`, and so do
      all their descendants. */
  lemma ChildLeadingSlash(parent: SvnPath, rel: Option<string>)
    ensures var c := Child(parent, rel).relativePath;
      c[0] == '/' <==> (parent.relativePath == [] || parent.relativePath[0] == '/')
  {
    var t := TrimEnd(parent.relativePath, '/');
    if t != [] {
      assert parent.relativePath[0] == t[0];
    }
  }

  /** Observed: the child of a root path has `//` at the join of its AbsolutePath. */
  lemma ChildOfRootHasDoubleSlash()
    ensures Child(SvnPath("http://host/svn", ""), Some("trunk")) == SvnPath("http://host/svn", "/trunk")
    ensures AbsolutePath(Child(SvnPath("http://host/svn", ""), Some("trunk"))) == "http://host/svn//trunk"
  {
    assert TrimEnd("http://host/svn", '/') == "http://host/svn";
    assert TrimStart("trunk", '/') == "trunk";
  }

  /** A child is a directory exactly when the listed entry is empty or ends in `/`. */
  lemma ChildIsDirectory(parent: SvnPath, line: string)
    ensures IsDirectory(Child(parent, Some(line))) <==> (line == [] || line[|line| - 1] == '/')
  {
    var t := TrimStart(line, '/');
    if t != [] {
      assert t[|t| - 1] == line[|line| - 1];
    }
  }

  /** A child shows the last segment of the listed entry as its display name,
      whatever the parent, when the entry holds something other than `/`. */
  lemma ChildDisplayName(parent: SvnPath, line: string)
    requires exists i :: 0 <= i < |line| && line[i] != '/'
    ensures DisplayName(Child(parent, Some(line))) == LastOrEmpty(Split(line, '/'))
  {
    var i :| 0 <= i < |line| && line[i] != '/';
    var t := TrimStart(line, '/');
    var head := TrimEnd(parent.relativePath, '/');
    SplitAroundSeparator(head, '/', t);
    assert head + "/" + t == head + ['/'] + t;
    SplitTrimStart(line, '/');
    SplitNotEmpty(line, '/', i);
  }
  /** An entry made only of `/` adds no segment, so the child shows the
      parent's display name. */
  lemma ChildOfSlashesShowsParent(parent: SvnPath, line: string)
    requires forall i :: 0 <= i < |line| ==> line[i] == '/'
    ensures DisplayName(Child(parent, Some(line))) == DisplayName(parent)
  {
    ChildSegments(parent, Some(line));
    SplitEmptyIff(line, '/');
    assert Split(parent.relativePath, '/') + [] == Split(parent.relativePath, '/');
  }

}
