/** The legacy provider's path resolver (SvnSourceControlContext.cs): a
    source path is normalised, its first segment is matched against the
    configured repositories, and the result fixes the relative path, the
    target URL and the workspace on disk. */
module SourceControl {
  import opened Common
  import opened Strings

  /** A configured repository: its name and its URL relative to the root. */
  datatype SourceRepository = SourceRepository(name: Option<string>, remoteUrl: Option<string>)

  /** The resolved context (the properties the constructor sets). */
  datatype Context = Context(
    splitPath: seq<string>,
    lastSubDirectoryName: string,
    pathSpecifiedRepositoryName: Option<string>,
    repository: Option<SourceRepository>,
    repositoryRelativePath: string,
    workspaceDiskPath: Option<string>,
    svnTargetUrl: string,
    absoluteDiskPath: string)

  /** `CombineSvnPaths`: null is "", then `a` without trailing slashes, one
      `/`, and `b` without leading slashes. */
  function Combine(a: Option<string>, b: Option<string>): string {
    TrimEnd(OrEmpty(a), '/') + "/" + TrimStart(OrEmpty(b), '/')
  }

  /** The join: null is "", then the first part without trailing slashes,
      exactly one `/` (neither neighbour is a `/`), and the second part
      without leading slashes. */
  lemma CombineJoin(a: Option<string>, b: Option<string>)
    ensures var u, r := TrimEnd(OrEmpty(a), '/'), Combine(a, b);
      && |u| < |r| && r[..|u|] == u && r[|u| + 1..] == TrimStart(OrEmpty(b), '/')
      && r[|u|] == '/' && (|u| == 0 || r[|u| - 1] != '/') && (|u| + 1 == |r| || r[|u| + 1] != '/')
  {
    var u, v := TrimEnd(OrEmpty(a), '/'), TrimStart(OrEmpty(b), '/');
    assert Combine(a, b) == u + "/" + v;
    OneSlashBetween(u, v);
  }

  /** Where the parts of `u + "/" + v` sit, for a `u` not ending and a `v`
      not starting in `/`. */
  lemma OneSlashBetween(u: string, v: string)
    requires u == [] || u[|u| - 1] != '/'
    requires v == [] || v[0] != '/'
    ensures var r := u + "/" + v;
      && |u| < |r| && r[..|u|] == u && r[|u| + 1..] == v
      && r[|u|] == '/' && (|u| == 0 || r[|u| - 1] != '/') && (|u| + 1 == |r| || r[|u| + 1] != '/')
  {
    var r := u + "/" + v;
    assert r[|u| + 1..] == v;
    assert |u| == 0 || r[|u| - 1] == u[|u| - 1];
    assert |u| + 1 == |r| || r[|u| + 1] == v[0];
  }

  /** Combining concatenates segments: the segments of the combined path are
      those of the first part followed by those of the second. */
  lemma CombineSegments(a: Option<string>, b: Option<string>)
    ensures Split(Combine(a, b), '/') == Split(OrEmpty(a), '/') + Split(OrEmpty(b), '/')
  {
    SplitTrimmedJoin(OrEmpty(a), '/', OrEmpty(b));
  }

  /** `EnsureStartingSlash`: exactly one leading `/`, the rest of the path as it was. */
  function EnsureStartingSlash(path: Option<string>): (r: string)
    ensures r != [] && r[0] == '/' && (|r| == 1 || r[1] != '/')
    ensures r == "/" + TrimStart(OrEmpty(path), '/')
  {
    TrimEndAt("/", '/', 0);
    var v := TrimStart(OrEmpty(path), '/');
    assert v == [] || ("/" + v)[1] == v[0];
    Combine(Some("/"), path)
  }

  /** Where the first segment of a normalised path ends: the next `/` after
      the leading one, or the end of the path. */
  function SegmentEnd(path: string): (index: nat)
    requires path != [] && path[0] == '/'
    ensures 1 <= index <= |path|
    ensures index < |path| ==> path[index] == '/'
    ensures forall i :: 1 <= i < index ==> path[i] != '/'
  {
    var i := IndexOfFrom(path, '/', 1);
    if i == -1 then |path| else i
  }

  /** The candidate repository name and the rest of the path after it. */
  function CandidateName(path: string): (name: string)
    requires path != [] && path[0] == '/'
  {
    path[1..SegmentEnd(path)]
  }

  /** A normalised path is `/`, the candidate name, then a rest that is empty
      or starts at the next `/`; the name holds no `/`. */
  lemma CandidateDecomposition(path: string)
    requires path != [] && path[0] == '/'
    ensures var name := CandidateName(path);
      var rest := path[SegmentEnd(path)..];
      && "/" + name + rest == path
      && '/' !in name
      && (rest == [] || rest[0] == '/')
  {
    var k := SegmentEnd(path);
    assert path == path[..1] + path[1..k] + path[k..];
  }

  /** The candidate name is empty exactly for "" and for paths made only of `/`. */
  lemma CandidateEmpty(sourcePath: Option<string>)
    ensures CandidateName(EnsureStartingSlash(sourcePath)) == []
        <==> forall i :: 0 <= i < |OrEmpty(sourcePath)| ==> OrEmpty(sourcePath)[i] == '/'
  {
    var path := EnsureStartingSlash(sourcePath);
    var s := OrEmpty(sourcePath);
    var t := TrimStart(s, '/');
    assert path == "/" + t;
    assert CandidateName(path) == [] <==> t == [] by {
      if t != [] {
        assert path[1] == t[0];
      }
    }
    assert t == [] <==> forall i :: 0 <= i < |s| ==> s[i] == '/' by {
      if t != [] {
        assert s[|s| - |t|] == t[0];
      }
    }
  }

  /** Normalising keeps the segments of the source path. */
  lemma NormalisedPathSegments(sourcePath: Option<string>)
    ensures Split(EnsureStartingSlash(sourcePath), '/') == Split(OrEmpty(sourcePath), '/')
  {
    var t := TrimStart(OrEmpty(sourcePath), '/');
    assert EnsureStartingSlash(sourcePath) == [] + ['/'] + t;
    SplitAroundSeparator([], '/', t);
    SplitTrimStart(OrEmpty(sourcePath), '/');
  }

  /** The segments of the source path are the candidate name (when it is not
      empty) followed by the segments of the rest of the normalised path; an
      empty candidate leaves no rest. */
  lemma NormalisedSegments(sourcePath: Option<string>)
    ensures var path := EnsureStartingSlash(sourcePath);
      var name := CandidateName(path);
      var rest := path[SegmentEnd(path)..];
      && Split(OrEmpty(sourcePath), '/') == (if name == [] then [] else [name]) + Split(rest, '/')
      && (name == [] ==> rest == [])
  {
    var path := EnsureStartingSlash(sourcePath);
    var name := CandidateName(path);
    var rest := path[SegmentEnd(path)..];
    CandidateDecomposition(path);
    NormalisedPathSegments(sourcePath);
    SegmentsAfterSlash(path, name, rest);
    if name == [] {
      assert path[1..] == rest;
    }
  }

  /** The segments of `/`, a `/`-free name and an empty or `/`-led rest. */
  lemma SegmentsAfterSlash(path: string, name: string, rest: string)
    requires "/" + name + rest == path && '/' !in name
    requires rest == [] || rest[0] == '/'
    ensures Split(path, '/') == (if name == [] then [] else [name]) + Split(rest, '/')
  {
    assert Split(path, '/') == Split(name + rest, '/') by {
      assert path == [] + ['/'] + (name + rest);
      SplitAroundSeparator([], '/', name + rest);
    }
    NameThenRest(name, rest);
    if name != [] {
      SplitSingle(name, '/');
    }
  }

  /** The segments of a `/`-free name followed by an empty or `/`-led rest. */
  lemma NameThenRest(name: string, rest: string)
    requires rest == [] || rest[0] == '/'
    ensures Split(name + rest, '/') == Split(name, '/') + Split(rest, '/')
  {
    if rest == [] {
      assert name + rest == name;
    } else {
      var tail := rest[1..];
      assert name + rest == name + ['/'] + tail;
      assert rest == [] + ['/'] + tail;
      SplitAroundSeparator(name, '/', tail);
      SplitAroundSeparator([], '/', tail);
    }
  }

  /** The repository search stops at the first repository whose name is
      null (the comparison throws) or equals the candidate ignoring case. */
  predicate Stops(fold: char -> char, name: string, r: SourceRepository) {
    r.name.None? || EqualsIgnoreCase(fold, r.name.value, name)
  }

  /** The index of the repository the search stops at, if any. */
  function FirstMatch(fold: char -> char, name: string, rs: seq<SourceRepository>): (r: Option<nat>)
    ensures r.Some? ==> r.value < |rs| && Stops(fold, name, rs[r.value])
    ensures r.Some? ==> forall j :: 0 <= j < r.value ==> !Stops(fold, name, rs[j])
    ensures r.None? ==> forall j :: 0 <= j < |rs| ==> !Stops(fold, name, rs[j])
  {
    FirstIndex(rs, (x: SourceRepository) => Stops(fold, name, x))
  }

  /** The repository search (`FirstOrDefault` with a case-insensitive name
      comparison): the first repository whose name equals `name` ignoring
      case, or none; it throws when it reaches a repository without a name
      before any match. */
  function FindRepository(fold: char -> char, name: string, rs: seq<SourceRepository>): (r: Result<Option<SourceRepository>>)
    ensures r.Failure? <==>
      exists i :: 0 <= i < |rs| && rs[i].name.None? && forall j :: 0 <= j < i ==> !Stops(fold, name, rs[j])
    ensures r.Failure? ==> r.error == NullReferenceException
    ensures r.Success? && r.value.Some? ==>
      exists i :: 0 <= i < |rs| && r.value.value == rs[i]
        && rs[i].name.Some? && EqualsIgnoreCase(fold, rs[i].name.value, name)
        && forall j :: 0 <= j < i ==> !Stops(fold, name, rs[j])
    ensures r.Success? && r.value.None? ==> forall i :: 0 <= i < |rs| ==> !Stops(fold, name, rs[i])
  {
    var hit := FirstMatch(fold, name, rs);
    if hit.Some? && rs[hit.value].name.None? then
      Failure(NullReferenceException)
    else if hit.Some? then
      Success(Some(rs[hit.value]))
    else
      Success(None)
  }

  /** The constructor's assignments once the repository is known: with a
      repository, the relative path is its remote URL combined with the rest
      of the path and the workspace is the repository's; without one, the
      normalised path is the relative path and the workspace is that of the
      root itself. */
  function ContextFor(root: Option<string>, sourcePath: Option<string>, repo: Option<SourceRepository>,
                      diskPath: SourceRepository -> Option<string>): Context
  {
    var split := Split(OrEmpty(sourcePath), '/');
    var path := EnsureStartingSlash(sourcePath);
    var rel := if repo.Some? then Combine(repo.value.remoteUrl, Some(path[SegmentEnd(path)..])) else path;
    var disk := diskPath(if repo.Some? then repo.value else SourceRepository(None, root));
    Context(split, LastOrEmpty(split), if repo.Some? then Some(CandidateName(path)) else None, repo, rel, disk,
            Combine(root, Some(rel)), Combine(disk, Some(rel)))
  }

  /** The constructor. `root` is the provider's RepositoryRoot, `repos` its
      Repositories (possibly null) and `diskPath` stands for `GetDiskPath`. */
  function Resolve(root: Option<string>, repos: Option<seq<SourceRepository>>, sourcePath: Option<string>,
                   fold: char -> char, diskPath: SourceRepository -> Option<string>): (r: Result<Context>)
    ensures var rs := repos.GetOr([]);
      var name := CandidateName(EnsureStartingSlash(sourcePath));
      && (r.Failure? <==>
            exists i :: 0 <= i < |rs| && rs[i].name.None? && forall j :: 0 <= j < i ==> !Stops(fold, name, rs[j]))
      && (r.Failure? ==> r.error == NullReferenceException)
  {
    var found := FindRepository(fold, CandidateName(EnsureStartingSlash(sourcePath)), repos.GetOr([]));
    if found.Failure? then Failure(found.error)
    else Success(ContextFor(root, sourcePath, found.value, diskPath))
  }

  /** A resolved context is the constructor's assignments for the repository
      the search found. */
  lemma ResolvedIsContextFor(root: Option<string>, repos: Option<seq<SourceRepository>>, sourcePath: Option<string>,
                             fold: char -> char, diskPath: SourceRepository -> Option<string>)
    requires Resolve(root, repos, sourcePath, fold, diskPath).Success?
    ensures var found := FindRepository(fold, CandidateName(EnsureStartingSlash(sourcePath)), repos.GetOr([]));
      && found.Success?
      && Resolve(root, repos, sourcePath, fold, diskPath).value == ContextFor(root, sourcePath, found.value, diskPath)
  {
  }

  /** The split path starts with the candidate repository name, and is empty
      exactly when that name is; the last sub-directory name is the last run
      of the source path between slashes. */
  lemma ResolvedSplitPath(root: Option<string>, repos: Option<seq<SourceRepository>>, sourcePath: Option<string>,
                          fold: char -> char, diskPath: SourceRepository -> Option<string>)
    requires Resolve(root, repos, sourcePath, fold, diskPath).Success?
    ensures var c := Resolve(root, repos, sourcePath, fold, diskPath).value;
      var name := CandidateName(EnsureStartingSlash(sourcePath));
      && (c.splitPath == [] <==> name == [])
      && (c.splitPath != [] ==> c.splitPath[0] == name)
      && IsLastRun(OrEmpty(sourcePath), '/', c.lastSubDirectoryName)
  {
    ResolvedIsContextFor(root, repos, sourcePath, fold, diskPath);
    NormalisedSegments(sourcePath);
    LastSegmentIsLastRun(OrEmpty(sourcePath), '/');
  }

  /** A resolved context has a repository exactly when the path names one,
      and that repository's name equals the candidate ignoring case. */
  lemma ResolvedRepository(root: Option<string>, repos: Option<seq<SourceRepository>>, sourcePath: Option<string>,
                           fold: char -> char, diskPath: SourceRepository -> Option<string>)
    requires Resolve(root, repos, sourcePath, fold, diskPath).Success?
    ensures var c := Resolve(root, repos, sourcePath, fold, diskPath).value;
      var name := CandidateName(EnsureStartingSlash(sourcePath));
      && (c.repository.Some? <==> c.pathSpecifiedRepositoryName.Some?)
      && (c.repository.Some? ==>
            && c.pathSpecifiedRepositoryName == Some(name)
            && c.repository.value.name.Some? && EqualsIgnoreCase(fold, c.repository.value.name.value, name))
  {
    var found := FindRepository(fold, CandidateName(EnsureStartingSlash(sourcePath)), repos.GetOr([]));
    assert Resolve(root, repos, sourcePath, fold, diskPath) == Success(ContextFor(root, sourcePath, found.value, diskPath));
  }

  /** The relative path keeps the source path's segments when no repository
      is named; with a repository, the repository's remote URL segments
      replace the first segment (the repository name). */
  lemma ResolvedPaths(root: Option<string>, repos: Option<seq<SourceRepository>>, sourcePath: Option<string>,
                      fold: char -> char, diskPath: SourceRepository -> Option<string>)
    requires Resolve(root, repos, sourcePath, fold, diskPath).Success?
    ensures var c := Resolve(root, repos, sourcePath, fold, diskPath).value;
      && (c.repository.None? ==> Split(c.repositoryRelativePath, '/') == c.splitPath)
      && (c.repository.Some? && c.splitPath != [] ==>
            Split(c.repositoryRelativePath, '/') == Split(OrEmpty(c.repository.value.remoteUrl), '/') + c.splitPath[1..])
  {
    ResolvedIsContextFor(root, repos, sourcePath, fold, diskPath);
    var found := FindRepository(fold, CandidateName(EnsureStartingSlash(sourcePath)), repos.GetOr([]));
    ContextRelativeSegments(root, sourcePath, found.value, diskPath);
  }

  /** ResolvedPaths for the constructor's assignments. */
  lemma ContextRelativeSegments(root: Option<string>, sourcePath: Option<string>, repo: Option<SourceRepository>,
                                diskPath: SourceRepository -> Option<string>)
    ensures var c := ContextFor(root, sourcePath, repo, diskPath);
      && (repo.None? ==> Split(c.repositoryRelativePath, '/') == c.splitPath)
      && (repo.Some? && c.splitPath != [] ==>
            Split(c.repositoryRelativePath, '/') == Split(OrEmpty(repo.value.remoteUrl), '/') + c.splitPath[1..])
  {
    var path := EnsureStartingSlash(sourcePath);
    var rest := path[SegmentEnd(path)..];
    var split := Split(OrEmpty(sourcePath), '/');
    NormalisedSegments(sourcePath);
    if repo.None? {
      NormalisedPathSegments(sourcePath);
    } else {
      var rel := Combine(repo.value.remoteUrl, Some(rest));
      assert ContextFor(root, sourcePath, repo, diskPath).repositoryRelativePath == rel;
      CombineSegments(repo.value.remoteUrl, Some(rest));
      if split != [] {
        assert split[1..] == Split(rest, '/');
      }
    }
  }

  /** With repositories whose names are all set, resolution never fails, and
      the chosen repository is the first whose name matches. */
  lemma ResolveWithNamedRepositories(root: Option<string>, repos: seq<SourceRepository>, sourcePath: Option<string>,
                                     fold: char -> char, diskPath: SourceRepository -> Option<string>)
    requires forall i :: 0 <= i < |repos| ==> repos[i].name.Some?
    ensures var r := Resolve(root, Some(repos), sourcePath, fold, diskPath);
      var name := CandidateName(EnsureStartingSlash(sourcePath));
      && r.Success?
      && (r.value.repository.Some? ==>
            exists i :: 0 <= i < |repos| && r.value.repository.value == repos[i]
              && EqualsIgnoreCase(fold, repos[i].name.value, name)
              && forall j :: 0 <= j < i ==> !EqualsIgnoreCase(fold, repos[j].name.value, name))
      && (r.value.repository.None? ==>
            forall i :: 0 <= i < |repos| ==> !EqualsIgnoreCase(fold, repos[i].name.value, name))
  {
    var name := CandidateName(EnsureStartingSlash(sourcePath));
    var found := FindRepository(fold, name, repos);
    FoundIsFirstNamed(fold, name, repos);
    ResolvedRepositoryIsFound(root, Some(repos), sourcePath, fold, diskPath);
  }

  /** The context's repository is what the search found. */
  lemma ResolvedRepositoryIsFound(root: Option<string>, repos: Option<seq<SourceRepository>>, sourcePath: Option<string>,
                                  fold: char -> char, diskPath: SourceRepository -> Option<string>)
    ensures var found := FindRepository(fold, CandidateName(EnsureStartingSlash(sourcePath)), repos.GetOr([]));
      var r := Resolve(root, repos, sourcePath, fold, diskPath);
      && (r.Success? <==> found.Success?)
      && (r.Success? ==> r.value.repository == found.value)
  {
    var found := FindRepository(fold, CandidateName(EnsureStartingSlash(sourcePath)), repos.GetOr([]));
    if found.Success? {
      var c := ContextFor(root, sourcePath, found.value, diskPath);
      assert Resolve(root, repos, sourcePath, fold, diskPath) == Success(c);
    }
  }

  /** Among named repositories the search never throws, and what it finds is
      the first repository whose name matches. */
  lemma FoundIsFirstNamed(fold: char -> char, name: string, repos: seq<SourceRepository>)
    requires forall i :: 0 <= i < |repos| ==> repos[i].name.Some?
    ensures var r := FindRepository(fold, name, repos);
      && r.Success?
      && (r.value.Some? ==>
            exists i :: 0 <= i < |repos| && r.value.value == repos[i]
              && EqualsIgnoreCase(fold, repos[i].name.value, name)
              && forall j :: 0 <= j < i ==> !EqualsIgnoreCase(fold, repos[j].name.value, name))
      && (r.value.None? ==>
            forall i :: 0 <= i < |repos| ==> !EqualsIgnoreCase(fold, repos[i].name.value, name))
  {
    var r := FindRepository(fold, name, repos);
    if r.value.Some? {
      var i :| 0 <= i < |repos| && r.value.value == repos[i]
        && repos[i].name.Some? && EqualsIgnoreCase(fold, repos[i].name.value, name)
        && forall j :: 0 <= j < i ==> !Stops(fold, name, repos[j]);
      assert forall j :: 0 <= j < i ==> !EqualsIgnoreCase(fold, repos[j].name.value, name);
    } else {
      assert forall i :: 0 <= i < |repos| ==> !Stops(fold, name, repos[i]);
    }
  }

  /** The target URL lies under the root: its segments are the root's
      followed by the relative path's; likewise the absolute disk path under
      the workspace. */
  lemma TargetUrlUnderRoot(root: Option<string>, repos: Option<seq<SourceRepository>>, sourcePath: Option<string>,
                           fold: char -> char, diskPath: SourceRepository -> Option<string>)
    requires Resolve(root, repos, sourcePath, fold, diskPath).Success?
    ensures var c := Resolve(root, repos, sourcePath, fold, diskPath).value;
      && Split(c.svnTargetUrl, '/') == Split(OrEmpty(root), '/') + Split(c.repositoryRelativePath, '/')
      && Split(c.absoluteDiskPath, '/') == Split(OrEmpty(c.workspaceDiskPath), '/') + Split(c.repositoryRelativePath, '/')
  {
    ResolvedIsContextFor(root, repos, sourcePath, fold, diskPath);
    var c := Resolve(root, repos, sourcePath, fold, diskPath).value;
    CombineSegments(root, Some(c.repositoryRelativePath));
    CombineSegments(c.workspaceDiskPath, Some(c.repositoryRelativePath));
  }

  /** Example: with repository `A` at `/reposA` under
      `http://host/svn`, the path `A/foo` targets `http://host/svn/reposA/foo`. */
  lemma ResolveExample(fold: char -> char, diskPath: SourceRepository -> Option<string>)
    ensures var repo := SourceRepository(Some("A"), Some("/reposA"));
      var r := Resolve(Some("http://host/svn"), Some([repo]), Some("A/foo"), fold, diskPath);
      && r.Success? && r.value.repository == Some(repo)
      && r.value.repositoryRelativePath == "/reposA/foo"
      && r.value.svnTargetUrl == "http://host/svn/reposA/foo"
  {
    var repo := SourceRepository(Some("A"), Some("/reposA"));
    var c := ContextFor(Some("http://host/svn"), Some("A/foo"), Some(repo), diskPath);
    assert Resolve(Some("http://host/svn"), Some([repo]), Some("A/foo"), fold, diskPath) == Success(c) by {
      ExamplePath();
      ExampleSearch(fold);
    }
    assert c.repositoryRelativePath == "/reposA/foo" by {
      ExamplePath();
      ExampleRelative();
    }
    assert c.svnTargetUrl == "http://host/svn/reposA/foo" by {
      ExampleTarget();
    }
  }

  /** A path that names no repository: with the same setting, `B/foo` is
      passed through under the root, when case folding tells `A` from `B`. */
  lemma PassThroughExample(fold: char -> char, diskPath: SourceRepository -> Option<string>)
    requires fold('A') != fold('B')
    ensures var repo := SourceRepository(Some("A"), Some("/reposA"));
      var r := Resolve(Some("http://host/svn"), Some([repo]), Some("B/foo"), fold, diskPath);
      && r.Success? && r.value.repository.None?
      && r.value.repositoryRelativePath == "/B/foo"
      && r.value.svnTargetUrl == "http://host/svn/B/foo"
  {
    var repo := SourceRepository(Some("A"), Some("/reposA"));
    var c := ContextFor(Some("http://host/svn"), Some("B/foo"), None, diskPath);
    assert Resolve(Some("http://host/svn"), Some([repo]), Some("B/foo"), fold, diskPath) == Success(c) by {
      PassThroughPath();
      PassThroughSearch(fold);
    }
    assert c.repositoryRelativePath == "/B/foo" by {
      PassThroughPath();
    }
    assert c.svnTargetUrl == "http://host/svn/B/foo" by {
      PassThroughTarget();
    }
  }

  /** PassThroughExample: the path `B/foo` names `B`. */
  lemma PassThroughPath()
    ensures var path := EnsureStartingSlash(Some("B/foo"));
      path == "/B/foo" && CandidateName(path) == "B"
  {
    var path := EnsureStartingSlash(Some("B/foo"));
    assert path == "/B/foo" by {
      TrimStartAt("B/foo", '/', 0);
    }
    assert path[1] != '/' && path[2] == '/';
  }

  /** PassThroughExample: `B` matches no repository named `A`. */
  lemma PassThroughSearch(fold: char -> char)
    requires fold('A') != fold('B')
    ensures FindRepository(fold, "B", [SourceRepository(Some("A"), Some("/reposA"))]) == Success(None)
  {
    assert FoldCase(fold, "A")[0] != FoldCase(fold, "B")[0];
    assert !Stops(fold, "B", SourceRepository(Some("A"), Some("/reposA")));
  }

  /** PassThroughExample: the target URL. */
  lemma PassThroughTarget()
    ensures Combine(Some("http://host/svn"), Some("/B/foo")) == "http://host/svn/B/foo"
  {
    TrimEndAt("http://host/svn", '/', 15);
    TrimStartAt("/B/foo", '/', 1);
    assert "http://host/svn" + "/" + "B/foo" == "http://host/svn/B/foo";
  }

  /** ResolveExample: the path `A/foo` names `A` and leaves `/foo`. */
  lemma ExamplePath()
    ensures var path := EnsureStartingSlash(Some("A/foo"));
      path == "/A/foo" && SegmentEnd(path) == 2 && CandidateName(path) == "A" && path[2..] == "/foo"
  {
    var path := EnsureStartingSlash(Some("A/foo"));
    assert path == "/A/foo" by {
      TrimStartAt("A/foo", '/', 0);
    }
    assert path[1] != '/' && path[2] == '/';
  }

  /** ResolveExample: `A` matches the repository named `A`. */
  lemma ExampleSearch(fold: char -> char)
    ensures var repo := SourceRepository(Some("A"), Some("/reposA"));
      FindRepository(fold, "A", [repo]) == Success(Some(repo))
  {
    assert Stops(fold, "A", SourceRepository(Some("A"), Some("/reposA")));
  }

  /** ResolveExample: the relative path. */
  lemma ExampleRelative()
    ensures Combine(Some("/reposA"), Some("/foo")) == "/reposA/foo"
  {
    TrimEndAt("/reposA", '/', 7);
    TrimStartAt("/foo", '/', 1);
    assert "/reposA" + "/" + "foo" == "/reposA/foo";
  }

  /** ResolveExample: the target URL. */
  lemma ExampleTarget()
    ensures Combine(Some("http://host/svn"), Some("/reposA/foo")) == "http://host/svn/reposA/foo"
  {
    TrimEndAt("http://host/svn", '/', 15);
    TrimStartAt("/reposA/foo", '/', 1);
    assert "http://host/svn" + "/" + "reposA/foo" == "http://host/svn/reposA/foo";
  }

  /** `TargetUrlMatchesRemoteUrl`: the target URL trimmed of `/` at both ends
      equals, ignoring case, the remote URL trimmed only at its end. */
  predicate TargetUrlMatchesRemoteUrl(fold: char -> char, svnTargetUrl: string, remoteUrl: string) {
    EqualsIgnoreCase(fold, Trim(svnTargetUrl, '/'), TrimEnd(remoteUrl, '/'))
  }

  /** A workspace checked out from the target URL itself (with any number of
      trailing slashes) is recognised as matching, provided the target does
      not start with `/` (CombineKeepsFirst: it does not when the root does not). */
  lemma WorkspaceOfTargetMatches(fold: char -> char, target: string, slashes: string)
    requires target != [] && target[0] != '/'
    requires forall i :: 0 <= i < |slashes| ==> slashes[i] == '/'
    ensures TargetUrlMatchesRemoteUrl(fold, target, target + slashes)
  {
    TrimStartNoop(target);
    TrimEndOfPadded(target, slashes);
  }

  /** A combined path starts where its first part does, when that part does
      not start with `/`. */
  lemma CombineKeepsFirst(a: Option<string>, b: Option<string>)
    requires OrEmpty(a) != [] && OrEmpty(a)[0] != '/'
    ensures Combine(a, b)[0] == OrEmpty(a)[0]
  {
    var u := TrimEnd(OrEmpty(a), '/');
    assert u != [] && u[0] == OrEmpty(a)[0];
  }

  /** Trimming at both ends is trimming at the end when nothing leads with `/`. */
  lemma TrimStartNoop(s: string)
    requires s != [] && s[0] != '/'
    ensures Trim(s, '/') == TrimEnd(s, '/')
  {
    TrimStartAt(s, '/', 0);
    assert s[0..] == s;
  }

  /** Trailing slashes added to a string do not survive TrimEnd. */
  lemma TrimEndOfPadded(s: string, slashes: string)
    requires forall i :: 0 <= i < |slashes| ==> slashes[i] == '/'
    ensures TrimEnd(s + slashes, '/') == TrimEnd(s, '/')
  {
    var t := TrimEnd(s, '/');
    var p := s + slashes;
    assert forall i :: |t| <= i < |p| ==> p[i] == '/';
    assert p[..|t|] == t;
    TrimEndAt(p, '/', |t|);
  }

  /** A remote URL with a leading `/` and something other than `/` in it
      never matches any target, when folding leaves `/` alone: only the
      target is trimmed at the front. */
  lemma LeadingSlashRemoteNeverMatches(fold: char -> char, target: string, remoteUrl: string)
    requires remoteUrl != [] && remoteUrl[0] == '/' && (exists i :: 0 <= i < |remoteUrl| && remoteUrl[i] != '/')
    requires forall c :: fold(c) == '/' <==> c == '/'
    ensures !TargetUrlMatchesRemoteUrl(fold, target, remoteUrl)
  {
    var a := Trim(target, '/');
    var b := TrimEnd(remoteUrl, '/');
    var i :| 0 <= i < |remoteUrl| && remoteUrl[i] != '/';
    assert |b| > i;
    if a == [] {
      assert FoldCase(fold, a) != FoldCase(fold, b);
    } else {
      assert a == TrimStart(target, '/')[..|a|];
      assert FoldCase(fold, a)[0] != '/';
      assert FoldCase(fold, b)[0] == '/';
    }
  }

  /** A listed entry: a file or a directory with its name and full path. */
  datatype SystemEntry =
    | FileEntry(name: string, path: string)
    | DirectoryEntry(name: string, path: string)

  /** `CreateRelativeSystemEntryInfo`: an entry ending in `/` is a directory
      named without its trailing slashes; anything else is a file. */
  function CreateRelativeSystemEntryInfo(repositoryRelativePath: string, relativePath: string): (e: SystemEntry)
    ensures e.DirectoryEntry? <==> EndsWith(relativePath, '/')
    ensures e.path == Combine(Some(repositoryRelativePath), Some(relativePath))
    ensures e.FileEntry? ==> e.name == relativePath
    ensures e.DirectoryEntry? ==> e.name == [] || e.name[|e.name| - 1] != '/'
    ensures e.DirectoryEntry? ==>
      |e.name| < |relativePath| && relativePath[..|e.name|] == e.name
      && forall i :: |e.name| <= i < |relativePath| ==> relativePath[i] == '/'
  {
    var full := Combine(Some(repositoryRelativePath), Some(relativePath));
    if EndsWith(relativePath, '/') then DirectoryEntry(TrimEnd(relativePath, '/'), full)
    else FileEntry(relativePath, full)
  }
}
