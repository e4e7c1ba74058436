/** The older copy of the client (Operations/SvnClient.cs). It has no delete
    operation and receives the password already unprotected; everything else
    is written the same way as the current client, which this module proves. */
module LegacyClient {
  import opened Common
  import opened ArgumentBuilder
  import opened Paths
  import Client

  /** The operations the older client offers. */
  datatype LegacyCommand =
    | Update(workingCopyDirectory: Option<string>, additionalArguments: Option<string>)
    | Checkout(sourcePath: SvnPath, destinationDirectory: Option<string>, additionalArguments: Option<string>)
    | Export(sourcePath: SvnPath, destinationDirectory: Option<string>, additionalArguments: Option<string>)
    | Copy(sourcePath: SvnPath, destinationPath: SvnPath, message: Option<string>, additionalArguments: Option<string>)
    | List(path: SvnPath)

  /** The arguments each older operation appends before the trailer. */
  function ActionArgs(cmd: LegacyCommand): (r: Builder)
    ensures r != [] && !r[0].quoted && !r[0].sensitive
    ensures forall i :: 0 <= i < |r| ==> !r[i].sensitive
  {
    match cmd
    case Update(dir, extra) =>
      Append(AppendQuoted(Append([], Some("update")), dir), extra)
    case Checkout(src, dest, extra) =>
      Append(AppendQuoted(AppendQuoted(Append([], Some("checkout")), Some(AbsolutePath(src))), dest), extra)
    case Export(src, dest, extra) =>
      Append(AppendQuoted(AppendQuoted(Append([], Some("export")), Some(AbsolutePath(src))), dest), extra)
    case Copy(src, dst, msg, extra) =>
      Append(AppendQuoted(Append(AppendQuoted(AppendQuoted(Append([], Some("copy")), Some(AbsolutePath(src))), Some(AbsolutePath(dst))), Some("-m")), msg), extra)
    case List(path) =>
      AppendQuoted(Append([], Some("ls")), Some(AbsolutePath(path)))
  }

  /** Each older operation as the current client's operation of the same name. */
  function AsCurrent(cmd: LegacyCommand): (c: Client.Command)
    ensures !c.Delete?
  {
    match cmd
    case Update(dir, extra) => Client.Update(dir, extra)
    case Checkout(src, dest, extra) => Client.Checkout(src, dest, extra)
    case Export(src, dest, extra) => Client.Export(src, dest, extra)
    case Copy(src, dst, msg, extra) => Client.Copy(src, dst, msg, extra)
    case List(path) => Client.List(path)
  }

  /** The older client builds the same argument list as the current one. */
  lemma ActionArgsMatchCurrent(cmd: LegacyCommand)
    ensures ActionArgs(cmd) == Client.ActionArgs(AsCurrent(cmd))
  {
  }

  /** The older `ExecuteCommandLineAsync`: the same trailer, renderings, log
      line and exit-code default as the current client. */
  function ExecuteCommandLine(svnExePath: string, cmd: LegacyCommand, creds: Client.Credentials,
                              outcome: Client.ProcessOutcome): (r: Client.Execution)
    ensures r == Client.ExecuteCommandLine(svnExePath, AsCurrent(cmd), creds, outcome)
  {
    ActionArgsMatchCurrent(cmd);
    Client.Execute(svnExePath, ActionArgs(cmd), creds, outcome)
  }

  /** The current operations the older client also offers: all but `delete`. */
  function FromCurrent(c: Client.Command): (r: Option<LegacyCommand>)
    ensures r.Some? <==> !c.Delete?
    ensures r.Some? ==> AsCurrent(r.value) == c
  {
    match c
    case Update(dir, extra) => Some(Update(dir, extra))
    case Checkout(src, dest, extra) => Some(Checkout(src, dest, extra))
    case Export(src, dest, extra) => Some(Export(src, dest, extra))
    case Copy(src, dst, msg, extra) => Some(Copy(src, dst, msg, extra))
    case Delete(_, _, _) => None
    case List(path) => Some(List(path))
  }

  /** No two older operations map to the same current one. */
  lemma AsCurrentRoundTrip(cmd: LegacyCommand)
    ensures FromCurrent(AsCurrent(cmd)) == Some(cmd)
  {
  }
}
