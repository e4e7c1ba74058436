/** The command layer of the current client
    (Subversion/InedoExtension/Operations/SvnClient.cs): per-command argument
    lists, the standard trailer, the finished process result and the
    post-processing of `ls` output. Launching and awaiting the process is
    outside the model: its outcome is an input. */
module Client {
  import opened Common
  import opened Strings
  import opened ArgumentBuilder
  import opened Paths

  /** The client's user name and password (`SecureString`, null when absent). */
  datatype Credentials = Credentials(userName: Option<string>, password: Option<string>)

  /** The client operations that build a command line. */
  datatype Command =
    | Update(workingCopyDirectory: Option<string>, additionalArguments: Option<string>)
    | Checkout(sourcePath: SvnPath, destinationDirectory: Option<string>, additionalArguments: Option<string>)
    | Export(sourcePath: SvnPath, destinationDirectory: Option<string>, additionalArguments: Option<string>)
    | Copy(sourcePath: SvnPath, destinationPath: SvnPath, message: Option<string>, additionalArguments: Option<string>)
    | Delete(path: SvnPath, message: Option<string>, additionalArguments: Option<string>)
    | List(path: SvnPath)

  /** The svn sub-command each operation runs. */
  function Keyword(cmd: Command): string {
    match cmd
    case Update(_, _) => "update"
    case Checkout(_, _, _) => "checkout"
    case Export(_, _, _) => "export"
    case Copy(_, _, _, _) => "copy"
    case Delete(_, _, _) => "delete"
    case List(_) => "ls"
  }

  /** The arguments each operation appends before the trailer. */
  function ActionArgs(cmd: Command): (r: Builder)
    ensures r != [] && r[0] == Arg(Keyword(cmd), false, false)
    ensures forall i :: 0 <= i < |r| ==> !r[i].sensitive
  {
    var b := Append([], Some(Keyword(cmd)));
    match cmd
    case Update(dir, extra) =>
      Append(AppendQuoted(b, dir), extra)
    case Checkout(src, dest, extra) =>
      Append(AppendQuoted(AppendQuoted(b, Some(AbsolutePath(src))), dest), extra)
    case Export(src, dest, extra) =>
      Append(AppendQuoted(AppendQuoted(b, Some(AbsolutePath(src))), dest), extra)
    case Copy(src, dst, msg, extra) =>
      Append(AppendQuoted(Append(AppendQuoted(AppendQuoted(b, Some(AbsolutePath(src))), Some(AbsolutePath(dst))), Some("-m")), msg), extra)
    case Delete(path, msg, extra) =>
      Append(AppendQuoted(Append(AppendQuoted(b, Some(AbsolutePath(path))), Some("-m")), msg), extra)
    case List(path) =>
      AppendQuoted(b, Some(AbsolutePath(path)))
  }

  /** The trailer `ExecuteCommandLineAsync` appends to every command. */
  function Trailer(creds: Credentials): (r: Builder)
    ensures |r| == 2 + (if IsNullOrEmpty(creds.userName) then 0 else 2) + (if creds.password.Some? then 2 else 0)
    ensures r[0] == Arg("--non-interactive", false, false) && r[1] == Arg("--trust-server-cert", false, false)
    ensures !IsNullOrEmpty(creds.userName) ==>
      r[2] == Arg("--username", false, false) && r[3] == Arg(creds.userName.value, true, false)
    ensures creds.password.Some? ==>
      r[|r| - 2] == Arg("--password", false, false) && r[|r| - 1] == Arg(creds.password.value, true, true)
    ensures forall i :: 0 <= i < |r| ==> (r[i].sensitive <==> creds.password.Some? && i == |r| - 1)
  {
    var b := Append(Append([], Some("--non-interactive")), Some("--trust-server-cert"));
    var b := if IsNullOrEmpty(creds.userName) then b else AppendQuoted(Append(b, Some("--username")), creds.userName);
    if creds.password.Some? then AppendSensitive(Append(b, Some("--password")), creds.password) else b
  }

  /** The words of the command part, as they appear on the command line. */
  function ActionWords(cmd: Command): seq<string> {
    match cmd
    case Update(dir, extra) =>
      ["update", Quote(OrEmpty(dir)), OrEmpty(extra)]
    case Checkout(src, dest, extra) =>
      ["checkout", Quote(AbsolutePath(src)), Quote(OrEmpty(dest)), OrEmpty(extra)]
    case Export(src, dest, extra) =>
      ["export", Quote(AbsolutePath(src)), Quote(OrEmpty(dest)), OrEmpty(extra)]
    case Copy(src, dst, msg, extra) =>
      ["copy", Quote(AbsolutePath(src)), Quote(AbsolutePath(dst)), "-m", Quote(OrEmpty(msg)), OrEmpty(extra)]
    case Delete(path, msg, extra) =>
      ["delete", Quote(AbsolutePath(path)), "-m", Quote(OrEmpty(msg)), OrEmpty(extra)]
    case List(path) =>
      ["ls", Quote(AbsolutePath(path))]
  }

  /** The words of the trailer; `redacted` shows the password as `(hidden)`. */
  function TrailerWords(creds: Credentials, redacted: bool): seq<string> {
    ["--non-interactive", "--trust-server-cert"]
    + (if IsNullOrEmpty(creds.userName) then [] else ["--username", Quote(creds.userName.value)])
    + (if creds.password.None? then [] else ["--password", if redacted then Hidden else Quote(creds.password.value)])
  }

  /** The full command line; `redacted` gives the form written to the log. */
  function CommandLine(cmd: Command, creds: Credentials, redacted: bool): string {
    Join(" ", ActionWords(cmd) + TrailerWords(creds, redacted))
  }

  /** A quoted, non-sensitive argument renders as its quoted value. */
  function QArg(v: string): (a: Arg)
    ensures Render(a) == Quote(v) && RenderSensitive(a) == Quote(v)
  {
    Arg(v, true, false)
  }

  /** A plain argument renders as its value. */
  function PArg(v: string): (a: Arg)
    ensures Render(a) == v && RenderSensitive(a) == v
  {
    Arg(v, false, false)
  }

  /** Arguments that are not sensitive and render as the given words give
      those words in both renderings. */
  lemma PlainWords(b: Builder, words: seq<string>)
    requires |b| == |words|
    requires forall i :: 0 <= i < |b| ==> !b[i].sensitive && Render(b[i]) == words[i]
    ensures Parts(b) == words && SensitiveParts(b) == words
  {
  }

  /** Each command part renders word for word (one lemma per command keeps
      each proof small). */
  lemma UpdateWords(dir: Option<string>, extra: Option<string>)
    ensures Parts(ActionArgs(Update(dir, extra))) == ActionWords(Update(dir, extra))
    ensures SensitiveParts(ActionArgs(Update(dir, extra))) == ActionWords(Update(dir, extra))
  {
    var lit := [PArg("update"), QArg(OrEmpty(dir)), PArg(OrEmpty(extra))];
    assert ActionArgs(Update(dir, extra)) == lit;
    PlainWords(lit, ActionWords(Update(dir, extra)));
  }

  lemma CheckoutWords(src: SvnPath, dest: Option<string>, extra: Option<string>)
    ensures Parts(ActionArgs(Checkout(src, dest, extra))) == ActionWords(Checkout(src, dest, extra))
    ensures SensitiveParts(ActionArgs(Checkout(src, dest, extra))) == ActionWords(Checkout(src, dest, extra))
  {
    var lit := [PArg("checkout"), QArg(AbsolutePath(src)), QArg(OrEmpty(dest)), PArg(OrEmpty(extra))];
    assert ActionArgs(Checkout(src, dest, extra)) == lit;
    PlainWords(lit, ActionWords(Checkout(src, dest, extra)));
  }

  lemma ExportWords(src: SvnPath, dest: Option<string>, extra: Option<string>)
    ensures Parts(ActionArgs(Export(src, dest, extra))) == ActionWords(Export(src, dest, extra))
    ensures SensitiveParts(ActionArgs(Export(src, dest, extra))) == ActionWords(Export(src, dest, extra))
  {
    var lit := [PArg("export"), QArg(AbsolutePath(src)), QArg(OrEmpty(dest)), PArg(OrEmpty(extra))];
    assert ActionArgs(Export(src, dest, extra)) == lit;
    PlainWords(lit, ActionWords(Export(src, dest, extra)));
  }

  lemma CopyWords(src: SvnPath, dst: SvnPath, msg: Option<string>, extra: Option<string>)
    ensures Parts(ActionArgs(Copy(src, dst, msg, extra))) == ActionWords(Copy(src, dst, msg, extra))
    ensures SensitiveParts(ActionArgs(Copy(src, dst, msg, extra))) == ActionWords(Copy(src, dst, msg, extra))
  {
    var lit := [PArg("copy"), QArg(AbsolutePath(src)), QArg(AbsolutePath(dst)), PArg("-m"), QArg(OrEmpty(msg)), PArg(OrEmpty(extra))];
    assert ActionArgs(Copy(src, dst, msg, extra)) == lit;
    PlainWords(lit, ActionWords(Copy(src, dst, msg, extra)));
  }

  lemma DeleteWords(path: SvnPath, msg: Option<string>, extra: Option<string>)
    ensures Parts(ActionArgs(Delete(path, msg, extra))) == ActionWords(Delete(path, msg, extra))
    ensures SensitiveParts(ActionArgs(Delete(path, msg, extra))) == ActionWords(Delete(path, msg, extra))
  {
    var lit := [PArg("delete"), QArg(AbsolutePath(path)), PArg("-m"), QArg(OrEmpty(msg)), PArg(OrEmpty(extra))];
    assert ActionArgs(Delete(path, msg, extra)) == lit;
    PlainWords(lit, ActionWords(Delete(path, msg, extra)));
  }

  lemma ListWords(path: SvnPath)
    ensures Parts(ActionArgs(List(path))) == ActionWords(List(path))
    ensures SensitiveParts(ActionArgs(List(path))) == ActionWords(List(path))
  {
    var lit := [PArg("ls"), QArg(AbsolutePath(path))];
    assert ActionArgs(List(path)) == lit;
    PlainWords(lit, ActionWords(List(path)));
  }

  /** The command part renders word for word; it holds nothing sensitive. */
  lemma ActionArgsWords(cmd: Command)
    ensures Parts(ActionArgs(cmd)) == ActionWords(cmd)
    ensures SensitiveParts(ActionArgs(cmd)) == ActionWords(cmd)
  {
    match cmd
    case Update(dir, extra) => UpdateWords(dir, extra);
    case Checkout(src, dest, extra) => CheckoutWords(src, dest, extra);
    case Export(src, dest, extra) => ExportWords(src, dest, extra);
    case Copy(src, dst, msg, extra) => CopyWords(src, dst, msg, extra);
    case Delete(path, msg, extra) => DeleteWords(path, msg, extra);
    case List(path) => ListWords(path);
  }

  /** The trailer as three consecutive groups: the fixed flags, the user name
      flag when there is a user name, the password flag when there is a password. */
  lemma TrailerGroups(creds: Credentials)
    ensures Trailer(creds) ==
      [PArg("--non-interactive"), PArg("--trust-server-cert")]
      + (if IsNullOrEmpty(creds.userName) then [] else [PArg("--username"), QArg(creds.userName.value)])
      + (if creds.password.None? then [] else [PArg("--password"), Arg(creds.password.value, true, true)])
  {
  }

  /** The trailer renders word for word; only the password word is redacted. */
  lemma TrailerArgsWords(creds: Credentials)
    ensures Parts(Trailer(creds)) == TrailerWords(creds, false)
    ensures SensitiveParts(Trailer(creds)) == TrailerWords(creds, true)
  {
    TrailerGroups(creds);
    var fixed := [PArg("--non-interactive"), PArg("--trust-server-cert")];
    var user := if IsNullOrEmpty(creds.userName) then [] else [PArg("--username"), QArg(creds.userName.value)];
    var pass := if creds.password.None? then [] else [PArg("--password"), Arg(creds.password.value, true, true)];
    assert Trailer(creds) == fixed + user + pass;
    TrailerGroupsWords(fixed, user, pass, creds);
  }

  /** The three groups of the trailer, rendered group by group. */
  lemma TrailerGroupsWords(fixed: Builder, user: Builder, pass: Builder, creds: Credentials)
    requires fixed == [PArg("--non-interactive"), PArg("--trust-server-cert")]
    requires user == if IsNullOrEmpty(creds.userName) then [] else [PArg("--username"), QArg(creds.userName.value)]
    requires pass == if creds.password.None? then [] else [PArg("--password"), Arg(creds.password.value, true, true)]
    ensures Parts(fixed + user + pass) == TrailerWords(creds, false)
    ensures SensitiveParts(fixed + user + pass) == TrailerWords(creds, true)
  {
    PartsConcat(fixed + user, pass);
    PartsConcat(fixed, user);
    PlainWords(fixed, ["--non-interactive", "--trust-server-cert"]);
    if !IsNullOrEmpty(creds.userName) {
      PlainWords(user, ["--username", Quote(creds.userName.value)]);
    }
    if creds.password.Some? {
      PartsPair(pass[0], pass[1]);
    }
  }

  /** What the process host reports once the process has exited: the exit
      code (null when unknown) and the data of each line event, in order. */
  datatype ProcessOutcome = ProcessOutcome(exitCode: Option<int>, outputData: seq<Option<string>>, errorData: seq<Option<string>>)

  /** `SvnClientExecutionResult` */
  datatype ExecutionResult = ExecutionResult(exitCode: int, outputLines: seq<string>, errorLines: seq<string>)

  /** One run: the program and arguments started, the debug log line, the result. */
  datatype Execution = Execution(fileName: string, arguments: string, logLine: string, result: ExecutionResult)

  /** The line handlers keep the data of every event that carries some. */
  function Received(data: seq<Option<string>>): (r: seq<string>)
    ensures |r| <= |data|
    ensures forall x :: x in r <==> Some(x) in data
    decreases |data|
  {
    if data == [] then []
    else
      var last := data[|data| - 1];
      assert data == data[..|data| - 1] + [last];
      match last
      case None => Received(data[..|data| - 1])
      case Some(x) => Received(data[..|data| - 1]) + [x]
  }

  /** Lines are kept in arrival order: what arrives later comes later. */
  lemma {:induction false} ReceivedAppend(a: seq<Option<string>>, b: seq<Option<string>>)
    ensures Received(a + b) == Received(a) + Received(b)
    decreases |b|
  {
    if b != [] {
      var b' := b[..|b| - 1];
      assert a + b == (a + b') + [b[|b| - 1]];
      assert (a + b)[..|a + b| - 1] == a + b';
      ReceivedAppend(a, b');
    } else {
      assert a + b == a;
    }
  }

  /** `ExecuteCommandLineAsync`, once the process has finished: the trailer is
      appended, the process gets the full rendering, the log gets the redacted
      one, and a missing exit code becomes -1. */
  function Execute(svnExePath: string, args: Builder, creds: Credentials, outcome: ProcessOutcome): (r: Execution)
    ensures r.fileName == svnExePath
    ensures r.arguments == Join(" ", Parts(args) + TrailerWords(creds, false))
    ensures r.logLine == "Executing: " + svnExePath + " " + Join(" ", SensitiveParts(args) + TrailerWords(creds, true))
    ensures r.result.exitCode == if outcome.exitCode.None? then -1 else outcome.exitCode.value
    ensures r.result.outputLines == Received(outcome.outputData)
    ensures r.result.errorLines == Received(outcome.errorData)
  {
    var all := args + Trailer(creds);
    PartsConcat(args, Trailer(creds));
    TrailerArgsWords(creds);
    Execution(
      svnExePath,
      ToString(all),
      "Executing: " + svnExePath + " " + ToSensitiveString(all),
      ExecutionResult(outcome.exitCode.GetOr(-1), Received(outcome.outputData), Received(outcome.errorData)))
  }

  /** One client operation run to completion. */
  function ExecuteCommandLine(svnExePath: string, cmd: Command, creds: Credentials, outcome: ProcessOutcome): (r: Execution)
    ensures r.fileName == svnExePath
    ensures r.arguments == CommandLine(cmd, creds, false)
    ensures r.logLine == "Executing: " + svnExePath + " " + CommandLine(cmd, creds, true)
    ensures r.result.exitCode == if outcome.exitCode.None? then -1 else outcome.exitCode.value
  {
    ActionArgsWords(cmd);
    Execute(svnExePath, ActionArgs(cmd), creds, outcome)
  }

  /** The logged command line is the same whatever the password is. */
  lemma LogLineIndependentOfPassword(svnExePath: string, cmd: Command, userName: Option<string>,
                                     p1: string, p2: string, outcome: ProcessOutcome)
    ensures ExecuteCommandLine(svnExePath, cmd, Credentials(userName, Some(p1)), outcome).logLine
         == ExecuteCommandLine(svnExePath, cmd, Credentials(userName, Some(p2)), outcome).logLine
  {
    var c1 := Credentials(userName, Some(p1));
    var c2 := Credentials(userName, Some(p2));
    assert CommandLine(cmd, c1, true) == CommandLine(cmd, c2, true) by {
      assert TrailerWords(c1, true) == TrailerWords(c2, true);
    }
  }

  /** The command line handed to the process is the password-free one followed
      by `--password` and the quoted password. */
  lemma PasswordAppendedLast(cmd: Command, userName: Option<string>, password: string)
    ensures CommandLine(cmd, Credentials(userName, Some(password)), false)
         == CommandLine(cmd, Credentials(userName, None), false) + " --password " + Quote(password)
  {
    PasswordAfterWords(ActionWords(cmd), userName, password);
  }

  /** PasswordAppendedLast for any words in front of the trailer. */
  lemma PasswordAfterWords(words: seq<string>, userName: Option<string>, password: string)
    ensures Join(" ", words + TrailerWords(Credentials(userName, Some(password)), false))
         == Join(" ", words + TrailerWords(Credentials(userName, None), false)) + " --password " + Quote(password)
  {
    var w := words + TrailerWords(Credentials(userName, None), false);
    var q := Quote(password);
    assert words + TrailerWords(Credentials(userName, Some(password)), false) == w + ["--password"] + [q] by {
      assert TrailerWords(Credentials(userName, Some(password)), false)
          == TrailerWords(Credentials(userName, None), false) + ["--password", q];
    }
    JoinSnoc(" ", w, "--password");
    JoinSnoc(" ", w + ["--password"], q);
    var j := Join(" ", w);
    assert j + " " + "--password" + " " + q == j + " --password " + q;
  }

  /** The `where o?.Length > 0` filter: the non-empty lines, in order. */
  function NonEmptyLines(lines: seq<string>): (r: seq<string>)
    ensures |r| <= |lines|
    ensures forall i :: 0 <= i < |r| ==> r[i] != []
    ensures forall x :: x in r <==> x in lines && x != []
    decreases |lines|
  {
    if lines == [] then []
    else
      assert lines == [lines[0]] + lines[1..];
      if lines[0] == [] then NonEmptyLines(lines[1..])
      else [lines[0]] + NonEmptyLines(lines[1..])
  }

  /** The filter looks at one line at a time: a single line is kept exactly
      when it is non-empty. */
  lemma NonEmptyLinesOfOne(line: string)
    ensures NonEmptyLines([line]) == if line == [] then [] else [line]
  {
    assert [line][1..] == [];
  }

  /** The filter works line by line: filtering a concatenation concatenates
      the filtered parts, so the kept lines keep their order and repetitions. */
  lemma {:induction false} NonEmptyLinesAppend(a: seq<string>, b: seq<string>)
    ensures NonEmptyLines(a + b) == NonEmptyLines(a) + NonEmptyLines(b)
    decreases |a|
  {
    if a == [] {
      assert a + b == b;
    } else {
      assert (a + b)[0] == a[0];
      assert (a + b)[1..] == a[1..] + b;
      NonEmptyLinesAppend(a[1..], b);
    }
  }

  /** `EnumerateChildSourcePathsAsync` after the `ls` run: any error line fails
      the call, whatever the exit code; otherwise each non-empty output line
      becomes a child of `path`, in order. */
  function ChildPaths(path: SvnPath, result: ExecutionResult, newLine: string): (r: Result<seq<SvnPath>>)
    ensures r.Failure? <==> result.errorLines != []
    ensures r.Failure? ==> r.error == InvalidOperationException(Join(newLine, result.errorLines))
    ensures r.Success? ==> |r.value| == |NonEmptyLines(result.outputLines)|
    ensures r.Success? ==> forall i :: 0 <= i < |r.value| ==>
      r.value[i] == Child(path, Some(NonEmptyLines(result.outputLines)[i]))
  {
    if result.errorLines != [] then
      Failure(InvalidOperationException(Join(newLine, result.errorLines)))
    else
      var lines := NonEmptyLines(result.outputLines);
      Success(seq(|lines|, i requires 0 <= i < |lines| => Child(path, Some(lines[i]))))
  }

  /** Every enumerated child stays in the parent's repository, is a directory
      exactly when its listed line ends in `/`, and displays that line's last segment. */
  lemma EnumeratedChildren(path: SvnPath, result: ExecutionResult, newLine: string)
    requires ChildPaths(path, result, newLine).Success?
    ensures var children := ChildPaths(path, result, newLine).value;
      var lines := NonEmptyLines(result.outputLines);
      forall i :: 0 <= i < |children| ==>
        && children[i].repositoryUrl == path.repositoryUrl
        && (IsDirectory(children[i]) <==> lines[i][|lines[i]| - 1] == '/')
        && ((exists j :: 0 <= j < |lines[i]| && lines[i][j] != '/') ==>
              DisplayName(children[i]) == LastOrEmpty(Split(lines[i], '/')))
  {
    var children := ChildPaths(path, result, newLine).value;
    var lines := NonEmptyLines(result.outputLines);
    forall i | 0 <= i < |children|
      ensures IsDirectory(children[i]) <==> lines[i][|lines[i]| - 1] == '/'
      ensures (exists j :: 0 <= j < |lines[i]| && lines[i][j] != '/') ==>
              DisplayName(children[i]) == LastOrEmpty(Split(lines[i], '/'))
    {
      ChildIsDirectory(path, lines[i]);
      if exists j :: 0 <= j < |lines[i]| && lines[i][j] != '/' {
        ChildDisplayName(path, lines[i]);
      }
    }
  }

  /** `EnumerateChildSourcePathsAsync` as a whole: the `ls` run, then its result. */
  function EnumerateChildSourcePaths(svnExePath: string, path: SvnPath, creds: Credentials,
                                     outcome: ProcessOutcome, newLine: string): (r: (Execution, Result<seq<SvnPath>>))
    ensures r.0.arguments == Join(" ", ["ls", Quote(AbsolutePath(path))] + TrailerWords(creds, false))
    ensures r.1 == ChildPaths(path, r.0.result, newLine)
    ensures r.1.Failure? <==> Received(outcome.errorData) != []
  {
    var e := ExecuteCommandLine(svnExePath, List(path), creds, outcome);
    (e, ChildPaths(path, e.result, newLine))
  }
}
