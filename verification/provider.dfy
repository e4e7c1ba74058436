/** The legacy source-control provider (Subversion15Provider.cs): the mode it
    runs in, how it runs svn and reads the results, how it chooses between
    checkout and update, and its display strings. The process runner, the XML
    parser and the integer conversion are supplied by the host. */
module LegacyProvider {
  import opened Common
  import opened Strings
  import opened LegacyArguments
  import opened SourceControl

  /** The provider's persistent properties. `settings` carries the user
      name, password and SSH options the argument builder reads. */
  datatype Provider = Provider(
    repositoryRoot: Option<string>,
    settings: ProviderSettings,
    exePath: Option<string>,
    repositories: Option<seq<SourceRepository>>)

  /** What `ExecuteCommandLine` is given. */
  datatype StartInfo = StartInfo(fileName: string, arguments: string)

  /** A finished svn process: exit code, standard output and error lines. */
  datatype ProcessResults = ProcessResults(exitCode: int, output: seq<string>, error: seq<string>)

  /** The parts of an `svn info --xml` document the provider reads: the
      `entry` element, its `url` element and `commit/@revision`. */
  datatype Commit = Commit(revision: Option<string>)
  datatype InfoEntry = InfoEntry(url: Option<string>, commit: Option<Commit>)
  datatype InfoDocument = InfoDocument(entry: Option<InfoEntry>)

  /** The host: the bundled svn.exe path, `Environment.NewLine`, the process
      runner, `XDocument.Parse` (None: malformed) and the integer reading of
      `XmlConvert.ToInt32` before its range check (None: not an integer). */
  datatype Host = Host(
    bundledSvnExePath: string,
    newLine: string,
    run: StartInfo -> ProcessResults,
    parseInfo: string -> Option<InfoDocument>,
    parseInteger: string -> Option<int>)

  /** One svn invocation: what was started, which error lines were logged,
      and what `ExecuteSvn` returned or threw. */
  datatype SvnRun = SvnRun(startInfo: StartInfo, loggedErrors: seq<string>, result: Result<ProcessResults>)

  /** `SvnExePath`: the configured path, or the bundled one when none is set. */
  function SvnExePath(p: Provider, host: Host): (r: string)
    ensures !IsNullOrEmpty(p.exePath) ==> r == p.exePath.value
    ensures IsNullOrEmpty(p.exePath) ==> r == host.bundledSvnExePath
  {
    if IsNullOrEmpty(p.exePath) then host.bundledSvnExePath else p.exePath.value
  }

  /** `EffectivelyUsesRepositories`. */
  predicate EffectivelyUsesRepositories(p: Provider) {
    p.repositories.Some? && |p.repositories.value| > 0 && !IsNullOrEmpty(p.repositories.value[0].remoteUrl)
  }

  /** Every svn run of a provider starts the same program, whatever the
      command, its arguments or the log flag: the configured path when one
      is set, else the bundled one. */
  lemma SameExeForEveryCommand(p: Provider, host: Host, c1: string, a1: SvnArguments, l1: bool,
                               c2: string, a2: SvnArguments, l2: bool)
    ensures ExecuteSvn(p, host, c1, a1, l1).startInfo.fileName == ExecuteSvn(p, host, c2, a2, l2).startInfo.fileName
    ensures !IsNullOrEmpty(p.exePath) ==> ExecuteSvn(p, host, c1, a1, l1).startInfo.fileName == p.exePath.value
    ensures IsNullOrEmpty(p.exePath) ==> ExecuteSvn(p, host, c1, a1, l1).startInfo.fileName == host.bundledSvnExePath
  {
  }

  /** Repository mode is decided by the first repository alone: it holds
      exactly when that one has a remote URL, whatever follows it, and never
      without repositories. */
  lemma RepositoryModeReadsFirstOnly(p: Provider, first: SourceRepository, rest: seq<SourceRepository>)
    ensures EffectivelyUsesRepositories(p.(repositories := Some([first] + rest))) <==> !IsNullOrEmpty(first.remoteUrl)
    ensures !EffectivelyUsesRepositories(p.(repositories := None))
    ensures !EffectivelyUsesRepositories(p.(repositories := Some([])))
  {
  }

  /** `ExecuteSvn(commandName, args, logErrors)`: runs svn with the command
      name, one space and the argument string; logs the error lines only when
      asked; throws with the error lines joined by newlines exactly when the
      exit code is not zero. */
  function ExecuteSvn(p: Provider, host: Host, commandName: string, args: SvnArguments, logErrors: bool): (r: SvnRun)
    ensures r.startInfo.fileName == SvnExePath(p, host)
    ensures args.cached.None? ==> r.startInfo.arguments == commandName + " " + Build(args)
    ensures var results := host.run(r.startInfo);
      && (r.loggedErrors == if logErrors then results.error else [])
      && (r.result.Failure? <==> results.exitCode != 0)
      && (r.result.Failure? ==> r.result.error == InvalidOperationException(Join(host.newLine, results.error)))
      && (r.result.Success? ==> r.result.value == results)
  {
    var info := StartInfo(SvnExePath(p, host), commandName + " " + Value(args).0);
    var results := host.run(info);
    SvnRun(info,
           if logErrors then results.error else [],
           if results.exitCode != 0 then Failure(InvalidOperationException(Join(host.newLine, results.error)))
           else Success(results))
  }

  /** Whether errors are logged changes nothing but the log. */
  lemma LogFlagOnlyAffectsLog(p: Provider, host: Host, commandName: string, args: SvnArguments)
    ensures ExecuteSvn(p, host, commandName, args, true).startInfo == ExecuteSvn(p, host, commandName, args, false).startInfo
    ensures ExecuteSvn(p, host, commandName, args, true).result == ExecuteSvn(p, host, commandName, args, false).result
    ensures ExecuteSvn(p, host, commandName, args, false).loggedErrors == []
  {
  }

  /** A zero exit code is success even when svn wrote error lines. */
  lemma ErrorLinesAloneDoNotFail(p: Provider, host: Host, commandName: string, args: SvnArguments, logErrors: bool)
    requires host.run(ExecuteSvn(p, host, commandName, args, logErrors).startInfo).exitCode == 0
    ensures ExecuteSvn(p, host, commandName, args, logErrors).result.Success?
  {
  }

  /** `ExecuteSvn(commandName, params args)`: quoted arguments, the plain
      password, errors logged. */
  function Run(p: Provider, host: Host, commandName: string, args: seq<Option<string>>): (r: SvnRun)
    ensures r.startInfo.arguments == commandName + " " + UserArgsText(args, true) + Tail(p.settings, false)
    ensures r.loggedErrors == host.run(r.startInfo).error
    ensures r.result.Failure? <==> host.run(r.startInfo).exitCode != 0
    ensures r.result.Success? ==> r.result.value == host.run(r.startInfo)
  {
    ExecuteSvn(p, host, commandName, New(p.settings, args), true)
  }

  /** One quoted argument is written as `"<arg>" `. */
  lemma OneQuotedArgument(a: string)
    ensures UserArgsText([Some(a)], true) == "\"" + a + "\" "
  {
    assert PrefixText([Some(a)], 0, true) == "";
  }

  /** A command with one quoted argument: `<command> "<arg>" ` and the trailer. */
  lemma OneArgumentRun(p: Provider, host: Host, commandName: string, a: string)
    ensures Run(p, host, commandName, [Some(a)]).startInfo.arguments == commandName + " \"" + a + "\" " + Tail(p.settings, false)
  {
    QuotedArgumentLine(commandName, a, Tail(p.settings, false));
  }

  /** The command line text around one quoted argument. */
  lemma QuotedArgumentLine(commandName: string, a: string, t: string)
    ensures commandName + " " + UserArgsText([Some(a)], true) + t == commandName + " \"" + a + "\" " + t
  {
    OneQuotedArgument(a);
    assert " \"" == " " + "\"";
  }

  /** An entry of a directory listing: a configured repository shown as a
      directory, or an entry svn listed. */
  datatype ListedEntry = RepositoryDirectory(name: Option<string>) | Listed(entry: SystemEntry)

  /** `DirectoryEntryInfo`: name, path and entries. */
  datatype DirectoryListing = DirectoryListing(name: string, path: string, entries: seq<ListedEntry>)

  /** The listing and the svn run that produced it, if one was needed. */
  datatype ListingResult = ListingResult(listing: Result<DirectoryListing>, run: Option<SvnRun>)

  /** The synthetic listing of repository mode: each configured repository,
      in order, as a directory named after it. */
  function RepositoryListing(rs: seq<SourceRepository>): (l: DirectoryListing)
    ensures l.name == "" && l.path == "" && |l.entries| == |rs|
    ensures forall i :: 0 <= i < |rs| ==> l.entries[i] == RepositoryDirectory(rs[i].name)
  {
    DirectoryListing("", "", seq(|rs|, i requires 0 <= i < |rs| => RepositoryDirectory(rs[i].name)))
  }

  /** The listing of `svn list` output: one entry of the context per line, in order. */
  function OutputListing(c: Context, output: seq<string>): (l: DirectoryListing)
    ensures l.name == c.lastSubDirectoryName && l.path == c.repositoryRelativePath
    ensures |l.entries| == |output|
    ensures forall i :: 0 <= i < |output| ==>
      l.entries[i] == Listed(CreateRelativeSystemEntryInfo(c.repositoryRelativePath, output[i]))
  {
    var entries := seq(|output|, i requires 0 <= i < |output| => Listed(CreateRelativeSystemEntryInfo(c.repositoryRelativePath, output[i])));
    DirectoryListing(c.lastSubDirectoryName, c.repositoryRelativePath, entries)
  }

  /** `GetDirectoryEntryInfo(context)`: in repository mode, when the path
      names no repository, the configured repositories and no svn run;
      otherwise `svn list` on the target URL, which fails on a non-zero exit
      code and else lists its output lines. */
  function GetDirectoryEntryInfo(p: Provider, host: Host, c: Context): (r: ListingResult)
    ensures r.run.None? <==> EffectivelyUsesRepositories(p) && c.pathSpecifiedRepositoryName.None?
    ensures r.run.None? ==> r.listing == Success(RepositoryListing(p.repositories.value))
    ensures r.run.Some? ==>
      var run := r.run.value;
      var results := host.run(run.startInfo);
      && run.startInfo.arguments == "list" + " \"" + c.svnTargetUrl + "\" " + Tail(p.settings, false)
      && (r.listing.Failure? <==> results.exitCode != 0)
      && (r.listing.Failure? ==> run.result.Failure? && r.listing.error == run.result.error)
      && (r.listing.Success? ==> r.listing.value == OutputListing(c, results.output))
  {
    if EffectivelyUsesRepositories(p) && c.pathSpecifiedRepositoryName.None? then
      ListingResult(Success(RepositoryListing(p.repositories.value)), None)
    else
      var run := Run(p, host, "list", [Some(c.svnTargetUrl)]);
      OneArgumentRun(p, host, "list", c.svnTargetUrl);
      match run.result
      case Failure(e) => ListingResult(Failure(e), Some(run))
      case Success(results) => ListingResult(Success(OutputListing(c, results.output)), Some(run))
  }

  /** In repository mode, a path that names no repository lists the
      configured repositories and runs nothing: as many directories as
      repositories, the first of them the repository that set the mode. */
  lemma SyntheticListingOfRepositories(p: Provider, host: Host, c: Context)
    requires EffectivelyUsesRepositories(p) && c.pathSpecifiedRepositoryName.None?
    ensures var r := GetDirectoryEntryInfo(p, host, c);
      && r.run.None? && r.listing.Success?
      && |r.listing.value.entries| == |p.repositories.value| > 0
      && r.listing.value.entries[0] == RepositoryDirectory(p.repositories.value[0].name)
      && forall i :: 0 <= i < |r.listing.value.entries| ==> r.listing.value.entries[i].RepositoryDirectory?
  {
  }

  /** A listed line is shown as a directory exactly when it ends in `/`. */
  lemma ListedDirectoriesEndInSlash(p: Provider, host: Host, c: Context, i: nat)
    requires GetDirectoryEntryInfo(p, host, c).listing.Success?
    requires GetDirectoryEntryInfo(p, host, c).run.Some?
    requires i < |GetDirectoryEntryInfo(p, host, c).listing.value.entries|
    ensures var r := GetDirectoryEntryInfo(p, host, c);
      var line := host.run(r.run.value.startInfo).output[i];
      && r.listing.value.entries[i].Listed?
      && (r.listing.value.entries[i].entry.DirectoryEntry? <==> EndsWith(line, '/'))
  {
  }

  /** The range of a C# `int`. */
  const Int32Min: int := -0x8000_0000
  const Int32Max: int := 0x7FFF_FFFF

  /** `XmlConvert.ToInt32`: text that is not an integer throws
      `FormatException`; an integer outside the 32-bit range throws
      `OverflowException`. */
  function ToInt32(host: Host, text: string): (r: Result<int>)
    ensures r.Success? <==> host.parseInteger(text).Some? && Int32Min <= host.parseInteger(text).value <= Int32Max
    ensures r.Success? ==> r.value == host.parseInteger(text).value
    ensures r.Failure? ==> r.error == (if host.parseInteger(text).None? then FormatException else OverflowException)
  {
    match host.parseInteger(text)
    case None => Failure(FormatException)
    case Some(n) => if Int32Min <= n <= Int32Max then Success(n) else Failure(OverflowException)
  }

  /** The revision in a parsed `svn info --xml` result: malformed XML throws,
      a missing `entry` or `commit` element throws, a missing `revision`
      attribute gives 0, and an attribute that is not a 32-bit integer throws. */
  function RevisionOf(host: Host, results: ProcessResults): (r: Result<int>)
    ensures var doc := host.parseInfo(Join(host.newLine, results.output));
      && (doc.None? ==> r == Failure(XmlException))
      && (doc.Some? && (doc.value.entry.None? || doc.value.entry.value.commit.None?) ==> r == Failure(NullReferenceException))
      && (doc.Some? && doc.value.entry.Some? && doc.value.entry.value.commit.Some?
          && doc.value.entry.value.commit.value.revision.Some? ==>
            r == ToInt32(host, doc.value.entry.value.commit.value.revision.value))
      && (r == Success(0) <==>
            doc.Some? && doc.value.entry.Some? && doc.value.entry.value.commit.Some?
            && var rev := doc.value.entry.value.commit.value.revision;
               rev.None? || host.parseInteger(rev.value) == Some(0))
    ensures r.Success? ==> Int32Min <= r.value <= Int32Max
  {
    match host.parseInfo(Join(host.newLine, results.output))
    case None => Failure(XmlException)
    case Some(doc) =>
      if doc.entry.None? || doc.entry.value.commit.None? then Failure(NullReferenceException)
      else
        match doc.entry.value.commit.value.revision
        case None => Success(0)
        case Some(text) => ToInt32(host, text)
  }

  /** `GetCurrentRevisionInternal`: `svn info "<target>" "--xml"`, then the
      revision of its output. A failed run throws before anything is parsed. */
  function GetCurrentRevision(p: Provider, host: Host, c: Context): (r: Result<int>)
    ensures var run := Run(p, host, "info", [Some(c.svnTargetUrl), Some("--xml")]);
      && (run.result.Failure? ==> r == Failure(run.result.error))
      && (run.result.Success? ==> r == RevisionOf(host, run.result.value))
      && (r.Failure? && r.error.InvalidOperationException? <==> run.result.Failure?)
    ensures r.Success? ==> Int32Min <= r.value <= Int32Max
  {
    var run := Run(p, host, "info", [Some(c.svnTargetUrl), Some("--xml")]);
    match run.result
    case Failure(e) => Failure(e)
    case Success(results) => RevisionOf(host, results)
  }

  /** The revision defaults to 0 only when the attribute is absent: with the
      `entry` or `commit` element missing, the lookup throws instead. */
  lemma MissingElementIsNotRevisionZero(host: Host, results: ProcessResults)
    requires var doc := host.parseInfo(Join(host.newLine, results.output));
      doc.Some? && (doc.value.entry.None? || doc.value.entry.value.commit.None?)
    ensures RevisionOf(host, results).Failure?
    ensures RevisionOf(host, results) != Success(0)
  {
  }

  /** The three ways `UpdateLocalWorkspace` can go. */
  datatype WorkspaceAction = Checkout | ClearAndCheckout | Update

  /** The remote URL read from `svn info --xml` on the workspace: a failed
      run means an uninitialised workspace (no URL); malformed XML or a
      missing `entry` element escapes the catch. */
  function RemoteUrlOf(host: Host, info: Result<ProcessResults>): (r: Result<Option<string>>)
    ensures info.Failure? && info.error.InvalidOperationException? ==> r == Success(None)
    ensures info.Success? ==>
      var doc := host.parseInfo(Join(host.newLine, info.value.output));
      && (doc.None? ==> r == Failure(XmlException))
      && (doc.Some? && doc.value.entry.None? ==> r == Failure(NullReferenceException))
      && (doc.Some? && doc.value.entry.Some? ==> r == Success(doc.value.entry.value.url))
  {
    match info
    case Failure(e) =>
      if e.InvalidOperationException? then Success(None) else Failure(e)
    case Success(results) =>
      match host.parseInfo(Join(host.newLine, results.output))
      case None => Failure(XmlException)
      case Some(doc) =>
        if doc.entry.None? then Failure(NullReferenceException) else Success(doc.entry.value.url)
  }

  /** The choice: no URL means checkout; a URL that does not match the target
      means clear and checkout; a matching URL means update. */
  function Decide(fold: char -> char, c: Context, remoteUrl: Option<string>): (r: WorkspaceAction)
    ensures r == Checkout <==> remoteUrl.None?
    ensures r == Update <==> remoteUrl.Some? && TargetUrlMatchesRemoteUrl(fold, c.svnTargetUrl, remoteUrl.value)
    ensures r == ClearAndCheckout <==> remoteUrl.Some? && !TargetUrlMatchesRemoteUrl(fold, c.svnTargetUrl, remoteUrl.value)
  {
    if remoteUrl.None? then Checkout
    else if !TargetUrlMatchesRemoteUrl(fold, c.svnTargetUrl, remoteUrl.value) then ClearAndCheckout
    else Update
  }

  /** The svn command each choice ends with. */
  function FinalCommand(action: WorkspaceAction, c: Context): (r: (string, seq<Option<string>>))
    ensures action == Update ==> r == ("update", [c.workspaceDiskPath])
    ensures action != Update ==> r == ("checkout", [Some(c.svnTargetUrl), c.workspaceDiskPath])
  {
    if action == Update then ("update", [c.workspaceDiskPath])
    else ("checkout", [Some(c.svnTargetUrl), c.workspaceDiskPath])
  }

  /** Both checkouts run the same svn command (the clearing is directory
      work, not svn), and every final command ends with the workspace. */
  lemma CheckoutsRunTheSameCommand(c: Context)
    ensures FinalCommand(Checkout, c) == FinalCommand(ClearAndCheckout, c)
    ensures forall a: WorkspaceAction :: var args := FinalCommand(a, c).1;
      args != [] && args[|args| - 1] == c.workspaceDiskPath
    ensures forall a: WorkspaceAction :: a != Update ==> FinalCommand(a, c).1[0] == Some(c.svnTargetUrl)
  {
  }

  /** `UpdateLocalWorkspace(context)`: `svn info` on the workspace without
      logging errors, the choice, then the final command. Clearing and
      re-creating the directory is not modelled. */
  function UpdateLocalWorkspace(p: Provider, host: Host, fold: char -> char, c: Context): (r: Result<WorkspaceAction>)
    ensures var info := ExecuteSvn(p, host, "info", New(p.settings, [c.workspaceDiskPath, Some("--xml")]), false);
      var url := RemoteUrlOf(host, info.result);
      && (url.Failure? ==> r == Failure(url.error))
      && (url.Success? ==>
            var action := Decide(fold, c, url.value);
            var final := Run(p, host, FinalCommand(action, c).0, FinalCommand(action, c).1);
            && (final.result.Failure? ==> r == Failure(final.result.error))
            && (final.result.Success? ==> r == Success(action)))
  {
    var info := ExecuteSvn(p, host, "info", New(p.settings, [c.workspaceDiskPath, Some("--xml")]), false);
    match RemoteUrlOf(host, info.result)
    case Failure(e) => Failure(e)
    case Success(url) =>
      var action := Decide(fold, c, url);
      var (command, args) := FinalCommand(action, c);
      match Run(p, host, command, args).result
      case Failure(e) => Failure(e)
      case Success(_) => Success(action)
  }

  /** A workspace svn cannot describe (non-zero exit code of `info`) is
      checked out, never updated or cleared. */
  lemma UninitializedWorkspaceIsCheckedOut(p: Provider, host: Host, fold: char -> char, c: Context)
    requires host.run(ExecuteSvn(p, host, "info", New(p.settings, [c.workspaceDiskPath, Some("--xml")]), false).startInfo).exitCode != 0
    ensures UpdateLocalWorkspace(p, host, fold, c).Success? ==> UpdateLocalWorkspace(p, host, fold, c).value == Checkout
  {
    var info := ExecuteSvn(p, host, "info", New(p.settings, [c.workspaceDiskPath, Some("--xml")]), false);
    assert info.result.Failure? && info.result.error.InvalidOperationException?;
    assert RemoteUrlOf(host, info.result) == Success(None);
    assert Decide(fold, c, None) == Checkout;
  }

  /** A workspace checked out from the target URL itself, perhaps with
      trailing slashes, is updated in place, when the target does not start
      with `/`. */
  lemma WorkspaceOfTargetIsUpdated(fold: char -> char, c: Context, slashes: string)
    requires c.svnTargetUrl != [] && c.svnTargetUrl[0] != '/'
    requires forall i :: 0 <= i < |slashes| ==> slashes[i] == '/'
    ensures Decide(fold, c, Some(c.svnTargetUrl + slashes)) == Update
  {
    WorkspaceOfTargetMatches(fold, c.svnTargetUrl, slashes);
  }
  /** A target that starts with `/` never matches its own checkout: the
      workspace is cleared and checked out again on every update. */
  lemma LeadingSlashTargetIsCheckedOutAgain(fold: char -> char, c: Context, slashes: string)
    requires c.svnTargetUrl != [] && c.svnTargetUrl[0] == '/'
    requires exists i :: 0 <= i < |c.svnTargetUrl| && c.svnTargetUrl[i] != '/'
    requires forall ch :: fold(ch) == '/' <==> ch == '/'
    ensures Decide(fold, c, Some(c.svnTargetUrl + slashes)) == ClearAndCheckout
  {
    var i :| 0 <= i < |c.svnTargetUrl| && c.svnTargetUrl[i] != '/';
    var remote := c.svnTargetUrl + slashes;
    assert remote[i] == c.svnTargetUrl[i];
    LeadingSlashRemoteNeverMatches(fold, c.svnTargetUrl, remote);
  }


  /** `Util.ConcatNE(a, b, c)`: the concatenation, or "" when any part is
      null or empty. */
  function ConcatNE(a: Option<string>, b: Option<string>, c: Option<string>): (r: string)
    ensures IsNullOrEmpty(a) || IsNullOrEmpty(b) || IsNullOrEmpty(c) ==> r == ""
    ensures !IsNullOrEmpty(a) && !IsNullOrEmpty(b) && !IsNullOrEmpty(c) ==> r == a.value + b.value + c.value
  {
    if IsNullOrEmpty(a) || IsNullOrEmpty(b) || IsNullOrEmpty(c) then "" else a.value + b.value + c.value
  }

  /** The repository root as `ToString` shows it: at most 20 characters, a
      longer root cut to its first 17 followed by `...`. */
  function ShownRoot(root: Option<string>): (r: string)
    ensures |r| <= 20
    ensures |OrEmpty(root)| <= 20 ==> r == OrEmpty(root)
    ensures |OrEmpty(root)| > 20 ==> |r| == 20 && r[..17] == OrEmpty(root)[..17] && r[17..] == "..."
  {
    var s := OrEmpty(root);
    if |s| > 20 then s[..17] + "..." else s
  }

  /** Showing a shown root again changes nothing. */
  lemma ShownRootIdempotent(root: Option<string>)
    ensures ShownRoot(Some(ShownRoot(root))) == ShownRoot(root)
  {
  }

  /** `ToString`: `SVN at <root>`, then ` (Username: <u>)` when a user name is set. */
  function Describe(p: Provider): (r: string)
    ensures IsNullOrEmpty(p.settings.username) ==> r == "SVN at " + ShownRoot(p.repositoryRoot)
    ensures !IsNullOrEmpty(p.settings.username) ==>
      r == "SVN at " + ShownRoot(p.repositoryRoot) + " (Username: " + p.settings.username.value + ")"
  {
    "SVN at " + ShownRoot(p.repositoryRoot) + ConcatNE(Some(" (Username: "), p.settings.username, Some(")"))
  }

  /** `ExecuteClientCommand`: the user's argument text goes in unquoted,
      followed by one space and the tail with the plain password. */
  function ExecuteClientCommand(p: Provider, host: Host, commandName: string, arguments: Option<string>): (r: SvnRun)
    ensures r.startInfo.arguments == commandName + " " + OrEmpty(arguments) + " " + Tail(p.settings, false)
    ensures r.loggedErrors == host.run(r.startInfo).error
    ensures r.result.Failure? <==> host.run(r.startInfo).exitCode != 0
  {
    var args := New(p.settings, [arguments]).(quoteArguments := false);
    PlainArgumentLine(commandName, arguments, Tail(p.settings, false));
    ExecuteSvn(p, host, commandName, args, true)
  }

  /** One unquoted argument between the command name and the tail. */
  lemma PlainArgumentLine(commandName: string, a: Option<string>, t: string)
    ensures commandName + " " + (UserArgsText([a], false) + t) == commandName + " " + OrEmpty(a) + " " + t
  {
    UserArgsSnoc([], a, false);
    assert [] + [a] == [a];
    assert commandName + " " + (OrEmpty(a) + " " + t) == commandName + " " + OrEmpty(a) + " " + t;
  }

  /** `GetClientCommandPreview`: `{command} `, the tail with the password
      obscured, and one space. */
  function GetClientCommandPreview(p: Provider): (r: string)
    ensures r == "{command} " + Tail(p.settings, true) + " "
  {
    var args := New(p.settings, []).(obscurePassword := true);
    assert UserArgsText([], true) == "";
    "{command} " + Value(args).0 + " "
  }

  /** The preview never shows the password: any two non-empty passwords give
      the same preview. */
  lemma PreviewHidesPassword(p: Provider, p1: string, p2: string)
    requires p1 != [] && p2 != []
    ensures GetClientCommandPreview(p.(settings := p.settings.(password := Some(p1))))
         == GetClientCommandPreview(p.(settings := p.settings.(password := Some(p2))))
  {
    TailHidesPassword(p.settings, p1, p2);
  }

  /** A command of the client command list. */
  datatype ClientCommand = ClientCommand(name: string, description: string)

  /** `line.Split(new[] { '\t' }, 2, RemoveEmptyEntries)`: leading tabs are
      skipped, the first piece ends at the next tab, the tabs after it are
      skipped and the rest of the line is the second piece. */
  function CommandPieces(line: string): (r: seq<string>)
    ensures |r| <= 2
    ensures forall i :: 0 <= i < |r| ==> r[i] != [] && r[i][0] != '\t'
    ensures r == [] <==> forall i :: 0 <= i < |line| ==> line[i] == '\t'
    ensures |r| == 2 ==> '\t' !in r[0]
  {
    var s := TrimStart(line, '\t');
    if s == [] then [] else PiecesFrom(s)
  }

  /** The pieces of a line whose leading tabs are already skipped. */
  function PiecesFrom(s: string): (r: seq<string>)
    requires s != [] && s[0] != '\t'
    ensures 1 <= |r| <= 2
    ensures forall i :: 0 <= i < |r| ==> r[i] != [] && r[i][0] != '\t'
    ensures |r| == 2 ==> '\t' !in r[0]
  {
    var k := IndexOfFrom(s, '\t', 0);
    if k < 0 then [s]
    else
      var rest := TrimStart(s[k..], '\t');
      if rest == [] then [s[..k]] else [s[..k], rest]
  }

  /** The first tab of `s` is at `n` when `s[n]` is a tab and nothing before it is. */
  lemma FirstTabAt(s: string, n: nat)
    requires n < |s| && s[n] == '\t'
    requires forall i :: 0 <= i < n ==> s[i] != '\t'
    ensures IndexOfFrom(s, '\t', 0) == n
  {
  }

  /** A line made of tabs, a name, at least one tab and a description splits
      into exactly that name and description. */
  lemma CommandPiecesOfLine(lead: string, name: string, gap: string, description: string)
    requires forall i :: 0 <= i < |lead| ==> lead[i] == '\t'
    requires name != [] && '\t' !in name
    requires gap != [] && forall i :: 0 <= i < |gap| ==> gap[i] == '\t'
    requires description != [] && description[0] != '\t'
    ensures CommandPieces(lead + name + gap + description) == [name, description]
  {
    var line := lead + name + gap + description;
    var s := name + gap + description;
    assert line == lead + s;
    assert TrimStart(line, '\t') == s by {
      SkipLeadingTabs(lead, s);
    }
    assert PiecesFrom(s) == [name, description] by {
      PiecesOfNameAndDescription(name, gap, description);
    }
  }

  /** Leading tabs are skipped up to the first other character. */
  lemma SkipLeadingTabs(lead: string, s: string)
    requires forall i :: 0 <= i < |lead| ==> lead[i] == '\t'
    requires s != [] && s[0] != '\t'
    ensures TrimStart(lead + s, '\t') == s
  {
    TrimStartAt(lead + s, '\t', |lead|);
    assert (lead + s)[|lead|..] == s;
  }

  /** The pieces of `name`, tabs, `description`. */
  lemma PiecesOfNameAndDescription(name: string, gap: string, description: string)
    requires name != [] && '\t' !in name
    requires gap != [] && forall i :: 0 <= i < |gap| ==> gap[i] == '\t'
    requires description != [] && description[0] != '\t'
    ensures PiecesFrom(name + gap + description) == [name, description]
  {
    var s := name + gap + description;
    FirstTabAt(s, |name|);
    assert s[..|name|] == name;
    var tail := gap + description;
    assert s[|name|..] == tail;
    SkipLeadingTabs(gap, description);
  }

  /** One line of the command list: fewer than two pieces throws; otherwise
      the two pieces, each trimmed of white space. */
  function ParseCommandLine(line: string): (r: Result<ClientCommand>)
    ensures r.Failure? ==> r.error == IndexOutOfRangeException
  {
    var pieces := CommandPieces(line);
    if |pieces| < 2 then Failure(IndexOutOfRangeException)
    else Success(ClientCommand(TrimWhiteSpace(pieces[0]), TrimWhiteSpace(pieces[1])))
  }

  /** A well-formed line parses to its name and description, trimmed of
      white space. */
  lemma ParsedCommandOfLine(lead: string, name: string, gap: string, description: string)
    requires forall i :: 0 <= i < |lead| ==> lead[i] == '\t'
    requires name != [] && '\t' !in name
    requires gap != [] && forall i :: 0 <= i < |gap| ==> gap[i] == '\t'
    requires description != [] && description[0] != '\t'
    ensures ParseCommandLine(lead + name + gap + description)
         == Success(ClientCommand(TrimWhiteSpace(name), TrimWhiteSpace(description)))
  {
    CommandPiecesOfLine(lead, name, gap, description);
  }

  /** A line with no tab at all, or only leading and trailing tabs around
      one piece, throws. */
  lemma LineWithoutSeparatorFails(lead: string, piece: string, trail: string)
    requires forall i :: 0 <= i < |lead| ==> lead[i] == '\t'
    requires forall i :: 0 <= i < |trail| ==> trail[i] == '\t'
    requires '\t' !in piece
    ensures ParseCommandLine(lead + piece + trail) == Failure(IndexOutOfRangeException)
  {
    var line := lead + piece + trail;
    if piece == [] {
      assert forall i :: 0 <= i < |line| ==> line[i] == '\t' by {
        assert line == lead + trail;
      }
    } else {
      var s := piece + trail;
      assert line == lead + s;
      SkipLeadingTabs(lead, s);
      PiecesOfPieceAndTabs(piece, trail);
    }
  }

  /** One piece followed only by tabs is a single piece. */
  lemma PiecesOfPieceAndTabs(piece: string, trail: string)
    requires piece != [] && piece[0] != '\t' && '\t' !in piece
    requires forall i :: 0 <= i < |trail| ==> trail[i] == '\t'
    ensures PiecesFrom(piece + trail) == [piece]
  {
    var s := piece + trail;
    if |trail| > 0 {
      FirstTabAt(s, |piece|);
      assert s[..|piece|] == piece;
      assert s[|piece|..] == trail;
      TrimStartAt(trail, '\t', |trail|);
    } else {
      assert s == piece;
    }
  }

  /** `GetAvailableCommands` run to the end: the lines parsed in order, or
      the error of the first line that does not split in two. */
  function AvailableCommands(lines: seq<string>): (r: Result<seq<ClientCommand>>)
    ensures r.Success? <==> forall i :: 0 <= i < |lines| ==> ParseCommandLine(lines[i]).Success?
    ensures r.Success? ==> |r.value| == |lines|
    ensures r.Success? ==> forall i :: 0 <= i < |lines| ==> r.value[i] == ParseCommandLine(lines[i]).value
    ensures r.Failure? ==> r.error == IndexOutOfRangeException
  {
    MapAll(lines, ParseCommandLine)
  }
}
