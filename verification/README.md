# Subversion adapter model

A Dafny model of the string and path logic that the Inedo Subversion extension
wraps around the `svn` command-line client, with proofs of what that logic
guarantees. Running processes, the network, the file system and the web UI are
not part of the model. The model works on the finished results of those steps,
which it takes as inputs.

Modules, one per source component:

- `ArgumentBuilder` (argument_builder.dfy) covers `SvnArgumentBuilder`. It is an ordered list of
  plain, quoted and sensitive arguments with two renderings: one for execution,
  and one for the log where sensitive arguments show as `(hidden)`.
- `Paths` (svn_path.dfy) covers the immutable `SvnPath`. Both copies of `SvnClient.cs` write it
  identically, so it is modelled once: the two constructors, `AbsolutePath`,
  `IsDirectory` and `DisplayName`.
- `Client` (svn_client.dfy) covers the current `SvnClient`:
  - the argument list of each command (update, checkout, export, copy, delete, ls);
  - the standard trailer;
  - the finished execution, including the redacted log line and the -1 exit-code default;
  - the post-processing of `ls` output into child paths.
- `LegacyClient` (legacy_svn_client.dfy) covers the older `SvnClient`. It has no delete, and it is
  proved to build the same argument lists and executions as the current one.
- `LegacyArguments` (svn_arguments.dfy) covers `SvnArguments`, the legacy provider's string
  builder: argument quoting, the fixed trailer, credentials with an obscured
  password, the SSH tunnel option, and the value that is built once and then cached.
- `SourceControl` (source_control_context.dfy) covers `SvnSourceControlContext`:
  - `CombineSvnPaths`;
  - leading-slash normalisation;
  - the first-segment, case-insensitive repository match;
  - the target URL, the remote-URL comparison and the classification of listed entries.
- `LegacyProvider` (provider.dfy) covers the decision logic of `Subversion15Provider`:
  - repository mode and the synthetic root listing;
  - the exit-code policy of `ExecuteSvn`;
  - revision extraction, and the checkout / clear-and-checkout / update choice;
  - `ToString` truncation and the client-command preview;
  - the split of each command-list line.
- `ProviderEditor` (provider_editor.dfy) covers the repository-name check run before saving.
- `RepositoryNames` (subversion_repository.dfy) covers the display name derived for a repository.
- `SvnConfiguration` (svn_configuration.dfy) covers the merge of an operation's own settings with
  a stored secure resource or legacy credential.
- `RepositoryState` (repository_state.dfy) covers equality, hash and description of the
  monitor's revision state.
- `Common` (common.dfy) and `Strings` (strings.dfy) hold shared vocabulary:
  - C# `null` is `None`;
  - a thrown exception is `Failure`;
  - the .NET string operations used are `Trim*`, `Split` without empty entries, `Join`,
    `LastIndexOf` and `IndexOf`, all over `seq<char>`.

Inputs supplied from outside:

- case folding for `OrdinalIgnoreCase` is a parameter `fold: char -> char`;
- the case-insensitive string hash is a parameter `hash`;
- the process runner, `XDocument.Parse`, the integer reading inside `XmlConvert.ToInt32`, `Environment.NewLine`,
  the workspace disk-path lookup and the credential-store lookups are all parameters.

## Model

| member | source | states |
|---|---|---|
| ArgumentBuilder.Append | SvnArgumentBuilder.cs:14 | one plain, non-sensitive argument is added at the end; earlier arguments are untouched; null is stored as "" |
| ArgumentBuilder.AppendQuoted | SvnArgumentBuilder.cs:15 | one quoted, non-sensitive argument is added at the end; earlier arguments are untouched; null is stored as "" |
| ArgumentBuilder.AppendSensitive | SvnArgumentBuilder.cs:16 | one quoted, sensitive argument is added at the end; earlier arguments are untouched; null is stored as "" |
| ArgumentBuilder.Render | SvnArgumentBuilder.cs:34-40 | an unquoted argument renders as its raw value; a quoted one is wrapped in `"` delimiters with every inner `"` preceded by `\`, and escaping is injective: `Unescape` of the inner text gives the value back |
| ArgumentBuilder.EscapeRoundTrip | SvnArgumentBuilder.cs:37 | escaping is injective: `Unescape` inverts it for every value (this does not make the command line unambiguous, see `TrailingBackslashBeforeClosingQuote`) |
| ArgumentBuilder.Escape | SvnArgumentBuilder.cs:37 | the escaped value is never shorter than the value, and every `"` in it has a `\` in front; `EscapeRoundTrip` is its inverse |
| ArgumentBuilder.TrailingBackslashBeforeClosingQuote | SvnArgumentBuilder.cs:37 | only `"` is escaped, not `\`: a quoted value ending in `\` renders ending in `\"`, so a reader that takes `\"` for an escaped quote does not see the argument end |
| ArgumentBuilder.TrailingBackslashExample | SvnArgumentBuilder.cs:18 | the quoted value `C:\w\` followed by the plain argument `x` gives the command line `"C:\w\" x` |
| ArgumentBuilder.EscapeWithoutQuotes | SvnArgumentBuilder.cs:37 | a value without `"` is rendered inside the quotes unchanged |
| ArgumentBuilder.RenderSensitive | SvnArgumentBuilder.cs:42-50 | a sensitive argument shows as `(hidden)` in the log; any other argument shows exactly as it is executed |
| ArgumentBuilder.Parts | SvnArgumentBuilder.cs:18 | the execution rendering has one part per argument, in insertion order |
| ArgumentBuilder.SensitiveParts | SvnArgumentBuilder.cs:19 | the log rendering has one part per argument, in insertion order |
| ArgumentBuilder.ToString | SvnArgumentBuilder.cs:18 | the executed command line; `RenderAppend`, `RenderConcat` and `SplitRecoversParts` state that it is the parts in order, one space apart |
| ArgumentBuilder.ToSensitiveString | SvnArgumentBuilder.cs:19 | the logged command line; `SensitiveStringIsRedactedString` states that it is the executed line of the redacted list |
| ArgumentBuilder.PartsConcat | SvnArgumentBuilder.cs:18-19 | both renderings work argument by argument: a concatenated list renders as the concatenation |
| ArgumentBuilder.RenderAppend | SvnArgumentBuilder.cs:14-19 | appending an argument extends both strings by one space and its part; the text before is unchanged |
| ArgumentBuilder.RenderConcat | SvnArgumentBuilder.cs:18-19 | two non-empty lists render as their two renderings joined by exactly one space |
| ArgumentBuilder.SplitRecoversParts | SvnArgumentBuilder.cs:18 | nothing is reordered, merged or dropped: when no part is empty or holds a space, splitting the command line at spaces gives the parts back |
| ArgumentBuilder.Redact | SvnArgumentBuilder.cs:44-45 | the list the log shows has the same length, with each sensitive argument replaced by a plain `(hidden)` and every other argument kept |
| ArgumentBuilder.SensitiveStringIsRedactedString | SvnArgumentBuilder.cs:18-19 | the log string is the execution string of the redacted list, so the two differ only at sensitive positions |
| ArgumentBuilder.RenderingsAgreeWithoutSecrets | SvnArgumentBuilder.cs:34-50 | without sensitive arguments, the log string equals the executed string |
| ArgumentBuilder.LogIndependentOfSecrets | SvnArgumentBuilder.cs:42-45 | changing only the values of sensitive arguments never changes the log string |
| ArgumentBuilder.RedactionIsPerArgument | SvnArgumentBuilder.cs:18-19 | redaction is per argument: a password also passed as an ordinary quoted argument stays visible in the log string |
| Paths.NewPath | Subversion/InedoExtension/Operations/SvnClient.cs:167-174 | fails with `ArgumentNullException` exactly when the URL is null or empty; otherwise keeps the URL; the relative path is the given one without its leading `/` run (null gives ""), so it never starts with `/` |
| Paths.Child | Subversion/InedoExtension/Operations/SvnClient.cs:176-183 | a child keeps its parent's URL, and its relative path is the parent's without trailing `/`, one `/`, then the given path without leading `/`; `ChildSegments` states what that join means |
| Paths.ChildSegments | Subversion/InedoExtension/Operations/SvnClient.cs:182 | a child's segments are the parent's segments followed by those of the given path: the join adds and drops no segment |
| Paths.AbsolutePath | Subversion/InedoExtension/Operations/SvnClient.cs:187 | the URL and the relative path joined by `/`; `AbsolutePathJoin` and `AbsolutePathSegments` state the join |
| Paths.AbsolutePathSegments | Subversion/InedoExtension/Operations/SvnClient.cs:187 | the segments of the absolute path are the URL's followed by the relative path's |
| Paths.IsDirectory | Subversion/InedoExtension/Operations/SvnClient.cs:188 | the relative path ends in `/`; `ChildIsDirectory` states what that means for a listed child |
| Paths.DisplayName | Subversion/InedoExtension/Operations/SvnClient.cs:190 | the last run of non-`/` characters of the relative path: it holds no `/`, starts at the beginning or just after a `/`, only `/` follows it, and it is empty exactly when the path is made only of `/` |
| Strings.LastSegmentIsLastRun | Subversion/InedoExtension/Operations/SvnClient.cs:190 | the last element of a split without empty entries, or "" when there is none, is the last run between separators |
| Strings.LastRunUnique | Subversion/InedoExtension/Operations/SvnClient.cs:190 | a string has only one last run, so that property determines the display name and `LastSubDirectoryName` completely |
| Paths.AbsolutePathJoin | Subversion/InedoExtension/Operations/SvnClient.cs:187 | `AbsolutePath` is the URL without trailing slashes, one `/`, then the relative path; there is a second `/` at the join exactly when the relative path starts with `/` |
| Paths.ConstructedPathJoinsOnce | Subversion/InedoExtension/Operations/SvnClient.cs:167-174 | a path built from a URL has exactly one `/` at the `AbsolutePath` join |
| Paths.ChildLeadingSlash | Subversion/InedoExtension/Operations/SvnClient.cs:176-183 | a child's relative path starts with `/` exactly when the parent's is empty or starts with `/` |
| Paths.ChildOfRootHasDoubleSlash | Subversion/InedoExtension/Operations/SvnClient.cs:182-187 | a child of a root path gets a leading `/`, so its `AbsolutePath` holds `//` |
| Paths.ChildIsDirectory | Subversion/InedoExtension/Operations/SvnClient.cs:188 | a child is a directory exactly when the listed entry is empty or ends in `/` |
| Paths.ChildDisplayName | Subversion/InedoExtension/Operations/SvnClient.cs:190 | for a listed entry holding some character other than `/`, the child shows the entry's last segment, whatever its parent |
| Paths.ChildOfSlashesShowsParent | Subversion/InedoExtension/Operations/SvnClient.cs:182-190 | for an entry made only of `/` (or empty), the child adds no segment and shows the parent's display name |
| Client.ActionArgs | Subversion/InedoExtension/Operations/SvnClient.cs:51-110 | every command's list starts with its plain sub-command keyword, and no command argument is sensitive |
| Client.UpdateWords | Subversion/InedoExtension/Operations/SvnClient.cs:49-57 | update renders as `update "<dir>" <extra>` in both renderings |
| Client.CheckoutWords | Subversion/InedoExtension/Operations/SvnClient.cs:59-68 | checkout renders as `checkout "<src>" "<dest>" <extra>` in both renderings |
| Client.ExportWords | Subversion/InedoExtension/Operations/SvnClient.cs:70-79 | export renders as `export "<src>" "<dest>" <extra>` in both renderings |
| Client.CopyWords | Subversion/InedoExtension/Operations/SvnClient.cs:81-92 | copy renders as `copy "<src>" "<dst>" -m "<msg>" <extra>` in both renderings |
| Client.DeleteWords | Subversion/InedoExtension/Operations/SvnClient.cs:94-104 | delete renders as `delete "<url>" -m "<msg>" <extra>` in both renderings |
| Client.ListWords | Subversion/InedoExtension/Operations/SvnClient.cs:106-110 | ls renders as `ls "<url>"` in both renderings |
| Client.ActionArgsWords | Subversion/InedoExtension/Operations/SvnClient.cs:49-110 | every command's part renders word for word, the same in both renderings |
| Client.Trailer | Subversion/InedoExtension/Operations/SvnClient.cs:124-136 | the trailer is `--non-interactive` and `--trust-server-cert`, then `--username` and the quoted name only for a non-empty user name, then `--password` and a sensitive token whenever the password is not null; the password token is the only sensitive argument and comes last |
| Client.TrailerGroups | Subversion/InedoExtension/Operations/SvnClient.cs:124-136 | the trailer is three consecutive groups: fixed flags, the optional user name and the optional password |
| Client.TrailerArgsWords | Subversion/InedoExtension/Operations/SvnClient.cs:124-136 | the trailer renders word for word; only the password word differs between execution and log |
| Client.Received | Subversion/InedoExtension/Operations/SvnClient.cs:153-154 | the line handlers keep exactly the data of the events that carry some, and never more lines than events |
| Client.ReceivedAppend | Subversion/InedoExtension/Operations/SvnClient.cs:153-154 | lines are kept in arrival order: events that arrive later come later |
| Client.Execute | Subversion/InedoExtension/Operations/SvnClient.cs:122-162 | the process gets the execution rendering of the arguments plus the trailer; the log line is `Executing: `, the path and the redacted rendering; a missing exit code becomes -1; output and error lines are as received |
| Client.ExecuteCommandLine | Subversion/InedoExtension/Operations/SvnClient.cs:138-160 | a command runs with its word list plus the trailer; the log shows `(hidden)` for the password; the exit code defaults to -1 |
| Client.LogLineIndependentOfPassword | Subversion/InedoExtension/Operations/SvnClient.cs:145 | the logged command line is the same whatever the password is |
| Client.PasswordAppendedLast | Subversion/InedoExtension/Operations/SvnClient.cs:132-136 | with a password, the executed line is the password-free line followed by ` --password "<p>"` |
| Client.NonEmptyLines | Subversion/InedoExtension/Operations/SvnClient.cs:115-117 | no kept line is empty, and membership matches both ways; `NonEmptyLinesAppend` states order and repetition |
| Client.NonEmptyLinesOfOne | Subversion/InedoExtension/Operations/SvnClient.cs:115-117 | a single line is kept exactly when it is non-empty |
| Client.NonEmptyLinesAppend | Subversion/InedoExtension/Operations/SvnClient.cs:115-117 | the filter works line by line: filtering a concatenation concatenates the filtered parts, so kept lines keep their order and their repetitions |
| Client.ChildPaths | Subversion/InedoExtension/Operations/SvnClient.cs:112-119 | fails exactly when there are error lines, whatever the exit code, with those lines joined by the newline; otherwise each non-empty output line becomes a child of the path, in order |
| Client.EnumeratedChildren | Subversion/InedoExtension/Operations/SvnClient.cs:115-119 | every enumerated child keeps the parent's URL; it is a directory exactly when its line ends in `/`; unless the line is made only of `/`, it displays that line's last segment |
| Client.EnumerateChildSourcePaths | Subversion/InedoExtension/Operations/SvnClient.cs:106-120 | runs `ls "<url>"` plus the trailer, and fails exactly when an error line was received |
| LegacyClient.ActionArgs | Operations/SvnClient.cs:39-88 | every older command's list starts with a plain argument, and nothing in it is sensitive |
| LegacyClient.AsCurrent | Operations/SvnClient.cs:39-88 | no older operation is a delete |
| LegacyClient.ActionArgsMatchCurrent | Operations/SvnClient.cs:39-88 | the older client builds the same argument list as the current client for the same command |
| LegacyClient.ExecuteCommandLine | Operations/SvnClient.cs:100-140 | the older execution equals the current one: same trailer (password whenever non-null, even ""), same redacted log line, same -1 default |
| LegacyClient.FromCurrent | Operations/SvnClient.cs:39-98 | the older client offers exactly the current operations other than delete |
| LegacyClient.AsCurrentRoundTrip | Operations/SvnClient.cs:39-98 | no two older operations map to the same current one |
| LegacyArguments.New | SvnArguments.cs:12-19 | a new object quotes arguments, does not obscure the password, and has built nothing yet |
| LegacyArguments.UserArgsText | SvnArguments.cs:34-40 | the user arguments, each followed by a space; `UserArgsSnoc` and `UserArgsConcat` state their order |
| LegacyArguments.UserArgsSnoc | SvnArguments.cs:34-40 | each argument adds its text and exactly one space at the end |
| LegacyArguments.UserArgsConcat | SvnArguments.cs:34-40 | arguments are written in order: the text of a concatenation is the concatenation of the texts |
| LegacyArguments.QuotedArgumentsCanCollide | SvnArguments.cs:36-37 | quoting escapes nothing: one argument `a" "b` is written exactly like the two arguments `a` and `b` |
| LegacyArguments.SshText | SvnArguments.cs:49-56 | the SSH option is present only with `UseSSH`, and then ends with the closing `"` |
| LegacyArguments.SshKeyOnlyWhenSet | SvnArguments.cs:49-56 | an empty key path writes the same as none; a key path inserts ` -i <key>`, with `\` written as `/`, just before the closing quote |
| LegacyArguments.Tail | SvnArguments.cs:42-56 | after the user arguments comes `--non-interactive --trust-server-cert `; the string ends in `"` exactly when SSH is used, and otherwise in a space |
| LegacyArguments.Build | SvnArguments.cs:30-59 | the built string is non-empty and ends in `"` exactly when SSH is used, otherwise in a space |
| LegacyArguments.CredentialText | SvnArguments.cs:44-47 | the credential options are empty or end in a space; `EmptyUserOmitted`, `EmptyPasswordOmitted` and `ObscuredIsPlaceholder` state their contents |
| LegacyArguments.EmptyUserOmitted | SvnArguments.cs:44-45 | an empty user name writes the same as a missing one: no `--username` |
| LegacyArguments.EmptyPasswordOmitted | SvnArguments.cs:46-47 | an empty password writes the same as a missing one: no `--password` |
| LegacyArguments.ObscuredIsPlaceholder | SvnArguments.cs:46-47 | obscuring writes exactly what the plain rendering writes for the password `xxxxx` |
| LegacyArguments.TailHidesPassword | SvnArguments.cs:46-47 | the obscured tail is the same for any two non-empty passwords |
| LegacyArguments.ObscuredPasswordHidden | SvnArguments.cs:46-47 | with `ObscurePassword` set, the built string does not depend on the non-empty password |
| LegacyArguments.Value | SvnArguments.cs:18-28 | the first read builds the string and caches it; later reads return the cache; nothing else in the object changes |
| LegacyArguments.ValueIsStable | SvnArguments.cs:18-28 | once read, the value no longer follows `QuoteArguments` or `ObscurePassword` |
| SourceControl.CombineJoin | SvnSourceControlContext.cs:55-60 | the first part without trailing slashes, exactly one `/` (neither neighbour is a `/`), then the second part without leading slashes; null counts as "" |
| SourceControl.Combine | SvnSourceControlContext.cs:55-60 | `CombineSvnPaths`; `CombineJoin` states the join and `CombineSegments` its segments |
| SourceControl.CombineSegments | SvnSourceControlContext.cs:55-60 | the segments of the combined path are those of the first part followed by those of the second; null counts as "" |
| SourceControl.CombineKeepsFirst | SvnSourceControlContext.cs:55-60 | a combined path starts where its first part does, when that part does not start with `/` |
| SourceControl.EnsureStartingSlash | SvnSourceControlContext.cs:62-65 | the normalised path starts with exactly one `/`, followed by the path without its leading slashes |
| SourceControl.NormalisedPathSegments | SvnSourceControlContext.cs:62-65 | normalising the leading slash keeps the segments of the source path |
| SourceControl.SegmentEnd | SvnSourceControlContext.cs:25-27 | the first segment ends at the next `/` after index 0, or at the end of the path |
| SourceControl.CandidateDecomposition | SvnSourceControlContext.cs:23-29 | the normalised path is `/`, the candidate name (no `/` in it), then a rest that is empty or starts with `/` |
| SourceControl.CandidateEmpty | SvnSourceControlContext.cs:23-29 | the candidate name is empty exactly for "", null and paths made only of `/` |
| SourceControl.NormalisedSegments | SvnSourceControlContext.cs:20-29 | the source path's segments are the candidate name, when it is not empty, followed by the segments of the rest; an empty candidate leaves no rest |
| SourceControl.FindRepository | SvnSourceControlContext.cs:31 | finds the first repository whose name equals the candidate ignoring case, or none; throws exactly when a nameless repository comes before any match |
| SourceControl.FoundIsFirstNamed | SvnSourceControlContext.cs:31 | among named repositories the search never throws and finds the first match |
| SourceControl.Resolve | SvnSourceControlContext.cs:18-48 | the constructor fails, with `NullReferenceException`, exactly when the search reaches a nameless repository before a match |
| SourceControl.ResolvedSplitPath | SvnSourceControlContext.cs:20-29 | `SplitPath` starts with the candidate repository name and is empty exactly when that name is; `LastSubDirectoryName` is the last run of the source path between slashes |
| SourceControl.ResolvedRepository | SvnSourceControlContext.cs:31-38 | `PathSpecifiedRepositoryName` is set exactly on a match, to the candidate, and the matched name equals it ignoring case |
| SourceControl.ResolvedPaths | SvnSourceControlContext.cs:32-44 | with no match the relative path has exactly the segments of the source path; on a match, the repository's remote URL segments take the place of the first segment, the repository name |
| SourceControl.ResolveWithNamedRepositories | SvnSourceControlContext.cs:31-44 | with all names set, resolution succeeds and picks the first case-insensitive match, or none when nothing matches |
| SourceControl.TargetUrlUnderRoot | SvnSourceControlContext.cs:46-47 | the target URL's segments are the root's followed by the relative path's, and the absolute disk path's are the workspace's followed by the relative path's |
| SourceControl.ResolveExample | SvnSourceControlContext.cs:18-47 | with repository `A` at `/reposA` under `http://host/svn`, the path `A/foo` selects `A`, with relative path `/reposA/foo` and target `http://host/svn/reposA/foo` |
| SourceControl.PassThroughExample | SvnSourceControlContext.cs:39-46 | with the same setting, `B/foo` names no repository and targets `http://host/svn/B/foo` |
| SourceControl.TargetUrlMatchesRemoteUrl | SvnSourceControlContext.cs:50-53 | the target trimmed of `/` at both ends equals the remote URL trimmed at its end, ignoring case; `WorkspaceOfTargetMatches` and `LeadingSlashRemoteNeverMatches` state its consequences |
| SourceControl.WorkspaceOfTargetMatches | SvnSourceControlContext.cs:50-53 | a remote URL equal to the target, plus any trailing slashes, matches when the target does not start with `/` |
| SourceControl.LeadingSlashRemoteNeverMatches | SvnSourceControlContext.cs:50-53 | when folding maps only `/` to `/`, a remote URL that starts with `/` and holds some other character never matches any target, since only the target is trimmed at the front |
| SourceControl.CreateRelativeSystemEntryInfo | SvnSourceControlContext.cs:67-73 | an entry ending in `/` becomes a directory named without its trailing slashes, otherwise a file named as listed; both get the combined full path |
| LegacyProvider.SvnExePath | Subversion15Provider.cs:46-55 | the configured exe path unless null or empty, else the bundled one; `SameExeForEveryCommand` states that every run starts this program |
| LegacyProvider.SameExeForEveryCommand | Subversion15Provider.cs:46-55 | every svn run of a provider starts the same program, whatever the command, arguments or log flag: the configured path when set, else the bundled one |
| LegacyProvider.EffectivelyUsesRepositories | Subversion15Provider.cs:41-44 | repository mode; `RepositoryModeReadsFirstOnly` states that only the first repository decides it |
| LegacyProvider.RepositoryModeReadsFirstOnly | Subversion15Provider.cs:41-44 | repository mode holds exactly when the first repository has a non-empty remote URL, whatever follows; never with no or null repositories |
| LegacyProvider.ExecuteSvn | Subversion15Provider.cs:248-268 | runs `<command> <args>`; error lines are logged only when asked; it fails exactly on a non-zero exit code, with the error lines joined by the newline; otherwise it returns the results |
| LegacyProvider.LogFlagOnlyAffectsLog | Subversion15Provider.cs:258-262 | whether errors are logged changes nothing but the log |
| LegacyProvider.ErrorLinesAloneDoNotFail | Subversion15Provider.cs:264-267 | exit code 0 succeeds even when error lines were written |
| LegacyProvider.Run | Subversion15Provider.cs:238-246 | the argument form runs with quoted arguments, the plain password and error logging on |
| LegacyProvider.RepositoryListing | Subversion15Provider.cs:97-104 | one directory per configured repository, in order, named after it; `SyntheticListingOfRepositories` states when it is shown and what it holds |
| LegacyProvider.SyntheticListingOfRepositories | Subversion15Provider.cs:97-104 | in repository mode a path naming no repository runs nothing and lists as many directories as repositories, all of them repository directories, the first being the repository that set the mode |
| LegacyProvider.OutputListing | Subversion15Provider.cs:108-115 | a `list` run gives one entry per output line, in order, under the context's name and relative path |
| LegacyProvider.GetDirectoryEntryInfo | Subversion15Provider.cs:95-117 | no svn run happens exactly in repository mode with no path-specified repository, and then the listing is synthetic; otherwise `list "<target>"` runs and its failure or output decides the listing |
| LegacyProvider.ListedDirectoriesEndInSlash | Subversion15Provider.cs:114 | a listed line is shown as a directory exactly when it ends in `/` |
| LegacyProvider.ToInt32 | Subversion15Provider.cs:227 | succeeds exactly for integer text within the 32-bit range, giving its value; otherwise `FormatException` for text that is not an integer and `OverflowException` for one out of range |
| LegacyProvider.RevisionOf | Subversion15Provider.cs:226-227 | malformed XML throws `XmlException`; a missing `entry` or `commit` throws `NullReferenceException`; a present attribute is read as a 32-bit integer with its format and overflow errors; the revision is 0 exactly when the attribute is absent or reads as 0, and always within the 32-bit range |
| LegacyProvider.GetCurrentRevision | Subversion15Provider.cs:222-230 | a failed `info` run throws before anything is parsed, and the result is an `InvalidOperationException` exactly when the run failed; a returned revision is within the 32-bit range |
| LegacyProvider.MissingElementIsNotRevisionZero | Subversion15Provider.cs:227 | a missing element is an error, never revision 0 |
| LegacyProvider.RemoteUrlOf | Subversion15Provider.cs:319-332 | a failed `info` means no URL; malformed XML or a missing `entry` escapes as an error; otherwise the `url` element |
| LegacyProvider.Decide | Subversion15Provider.cs:334-355 | exactly one of three outcomes: checkout with no URL, clear and checkout for a URL that does not match the target, update for a matching URL |
| LegacyProvider.FinalCommand | Subversion15Provider.cs:334-355 | `update` on the workspace, or `checkout` from the target URL into it; `CheckoutsRunTheSameCommand` states that both checkouts run the same command |
| LegacyProvider.CheckoutsRunTheSameCommand | Subversion15Provider.cs:334-355 | both checkouts run the same svn command from the target URL; every final command ends with the workspace |
| LegacyProvider.UpdateLocalWorkspace | Subversion15Provider.cs:315-356 | `info` runs without logging errors, then the choice, then its command; an escaping error or a failed final command is the result |
| LegacyProvider.UninitializedWorkspaceIsCheckedOut | Subversion15Provider.cs:319-338 | a workspace whose `info` exits non-zero is checked out, never updated or cleared |
| LegacyProvider.WorkspaceOfTargetIsUpdated | Subversion15Provider.cs:339-354 | for a target URL that does not start with `/`, a workspace checked out from that URL, with any trailing slashes, is updated in place |
| LegacyProvider.LeadingSlashTargetIsCheckedOutAgain | Subversion15Provider.cs:339-349 | for a target URL that starts with `/` and holds some other character, when folding maps only `/` to `/`, a workspace checked out from that URL is cleared and checked out again |
| LegacyProvider.ShownRoot | Subversion15Provider.cs:176-178 | at most 20 characters; a longer root is cut to its first 17 characters followed by `...` |
| LegacyProvider.ShownRootIdempotent | Subversion15Provider.cs:176-178 | truncating an already shown root changes nothing |
| LegacyProvider.Describe | Subversion15Provider.cs:174-183 | `SVN at <root>`, followed by ` (Username: <u>)` only when a user name is set |
| LegacyProvider.ExecuteClientCommand | Subversion15Provider.cs:185-188 | the user's argument text goes in unquoted, followed by one space and the tail with the plain password |
| LegacyProvider.GetClientCommandPreview | Subversion15Provider.cs:218 | `{command} `, the tail with the password obscured, then one space |
| LegacyProvider.PreviewHidesPassword | Subversion15Provider.cs:218 | any two non-empty passwords give the same preview |
| LegacyProvider.CommandPieces | Subversion15Provider.cs:198 | at most two non-empty pieces, none starting with a tab; none exactly for lines made only of tabs; the first of two pieces holds no tab |
| LegacyProvider.CommandPiecesOfLine | Subversion15Provider.cs:198 | tabs, a name, tabs and a description split into exactly that name and description |
| LegacyProvider.ParsedCommandOfLine | Subversion15Provider.cs:198-199 | a well-formed line parses to its name and description, each trimmed of white space |
| LegacyProvider.LineWithoutSeparatorFails | Subversion15Provider.cs:198-199 | a line whose one piece has only tabs around it throws `IndexOutOfRangeException` |
| LegacyProvider.ParseCommandLine | Subversion15Provider.cs:198-199 | a line can only fail with `IndexOutOfRangeException` |
| LegacyProvider.AvailableCommands | Subversion15Provider.cs:190-204 | all lines parse, in order, one command per line; otherwise the error is that of a line that does not split in two |
| ProviderEditor.FirstBad | Subversion15ProviderEditor.cs:28 | the search stops at the first repository whose name is null or contains `/`, and at none when there is no such repository |
| ProviderEditor.InvalidMessage | Subversion15ProviderEditor.cs:31 | the message is longer than the name it holds; `InvalidMessageInjective` states that it identifies the repository |
| ProviderEditor.InvalidMessageInjective | Subversion15ProviderEditor.cs:31 | different names give different messages, so the message identifies the repository |
| ProviderEditor.ValidateBeforeSave | Subversion15ProviderEditor.cs:23-36 | null repositories or no bad name leave the event as it was; the first name with `/` sets the exact message and the Error level; a null name met first throws |
| ProviderEditor.ValidationFailsIffSlash | Subversion15ProviderEditor.cs:26-34 | with all names set, validation never throws; it reports Error exactly when some name contains `/`, naming the first such repository |
| RepositoryNames.RepositoryName | SubversionRepository.cs:18 | a non-empty configured name is returned as it is |
| RepositoryNames.DerivedNameShape | SubversionRepository.cs:19-20 | a derived name is a suffix of the path without trailing slashes; it never ends in `/`, and holds `/` only possibly in front |
| RepositoryNames.DerivedNameIsLastSegment | SubversionRepository.cs:19-20 | a derived name is the last segment of the path, preceded by `/` when the trimmed path holds a `/` |
| RepositoryNames.DerivedNameExample | SubversionRepository.cs:18-20 | `a/b/` gives `/b`; an empty configured name falls back to the path |
| SvnConfiguration.CoalesceString | Subversion/InedoExtension/ISvnConfiguration.cs:46-48 | the first value that is neither null nor empty; null or empty only when both are |
| SvnConfiguration.Stored | Subversion/InedoExtension/ISvnConfiguration.cs:28-43 | the stored credentials and resource for a resource name: the secure resource first, the legacy credential as fallback; `SecureResourceShadowsLegacy` and `EmptyResourceNameIgnoresStore` state what the lookup order means |
| SvnConfiguration.SecureResourceShadowsLegacy | Subversion/InedoExtension/ISvnConfiguration.cs:28-43 | a secure resource shadows a legacy credential of the same name: stores that agree on the resource and its credentials give the same result, whatever legacy credentials they hold |
| SvnConfiguration.GetCredentialsAndResource | Subversion/InedoExtension/ISvnConfiguration.cs:26-56 | credentials are returned exactly when the coalesced user name is non-empty; the configured password wins unless null; the configured URL wins unless null; with neither URL it throws |
| SvnConfiguration.EmptyResourceNameIgnoresStore | Subversion/InedoExtension/ISvnConfiguration.cs:30 | with no resource name the store is never consulted |
| SvnConfiguration.PasswordAloneIsDiscarded | Subversion/InedoExtension/ISvnConfiguration.cs:46 | a password without any user name is dropped |
| SvnConfiguration.ConfiguredUserWins | Subversion/InedoExtension/ISvnConfiguration.cs:48 | the configured user name wins over a stored one |
| SvnConfiguration.EmptyConfiguredUrlIsKept | Subversion/InedoExtension/ISvnConfiguration.cs:53 | an empty configured URL is kept rather than replaced by the resource's |
| RepositoryState.StateEquals | Subversion/InedoExtension/RepositoryMonitors/SvnRepositoryCommit.cs:14-20 | another Subversion state with the same revision ignoring case, null equal only to null; `StateEqualsIsEquivalence`, `OtherKindNeverEqual` and `NullIsNotEmpty` state its properties |
| RepositoryState.HashCode | Subversion/InedoExtension/RepositoryMonitors/SvnRepositoryCommit.cs:24-27 | the case-insensitive hash of the revision or ""; `EqualStatesHashAlike` states that it agrees with equality |
| RepositoryState.Description | Subversion/InedoExtension/RepositoryMonitors/SvnRepositoryCommit.cs:22 | the revision, or "" when it is null; `DescriptionAgreesWithEquality` states how it relates to equality and hashing |
| RepositoryState.DescriptionAgreesWithEquality | Subversion/InedoExtension/RepositoryMonitors/SvnRepositoryCommit.cs:19-26 | states with the same description hash alike, and when both revisions are set they are equal |
| RepositoryState.OtherKindNeverEqual | Subversion/InedoExtension/RepositoryMonitors/SvnRepositoryCommit.cs:16-17 | a state of another kind is never equal |
| RepositoryState.StateEqualsIsEquivalence | Subversion/InedoExtension/RepositoryMonitors/SvnRepositoryCommit.cs:19 | equality is reflexive, symmetric and transitive |
| RepositoryState.NullIsNotEmpty | Subversion/InedoExtension/RepositoryMonitors/SvnRepositoryCommit.cs:19 | two null revisions are equal; null and "" are not |
| RepositoryState.EqualStatesHashAlike | Subversion/InedoExtension/RepositoryMonitors/SvnRepositoryCommit.cs:19-26 | equal states have equal hash codes, whatever the case-insensitive hash is |
| RepositoryState.NullAndEmptyHashAlike | Subversion/InedoExtension/RepositoryMonitors/SvnRepositoryCommit.cs:26 | a null revision and "" hash alike but are not equal |

The older `SvnClient` (Operations/SvnClient.cs:143-172) writes `SvnPath` the same
way as the current client, so the `Paths` rows hold for it too. Its enumeration
(Operations/SvnClient.cs:84-98) is the current client's `ChildPaths`.

Where the code differs from what a reader might expect of such an adapter, the
model follows the code:

- Extending a root path gives `//` in `AbsolutePath` (`Paths.ChildOfRootHasDoubleSlash`).
- Redaction hides arguments, not text (`ArgumentBuilder.RedactionIsPerArgument`).
- Quoting escapes `"` but not `\`. A quoted value ending in `\` leaves `\"` at its close, so the
  closing quote reads as an escaped one under the usual Windows argument splitting
  (`ArgumentBuilder.TrailingBackslashBeforeClosingQuote`, `ArgumentBuilder.TrailingBackslashExample`).
- The legacy provider fails on the exit code alone, and error lines with exit code 0
  are not an error (`LegacyProvider.ErrorLinesAloneDoNotFail`). The client's
  enumeration, by contrast, fails on error lines alone (`Client.ChildPaths`).
- A missing `revision` attribute gives revision 0. A missing `entry` or `commit`
  element throws a null dereference rather than a dedicated parse error.
  A revision outside the 32-bit range throws `OverflowException` (`LegacyProvider.ToInt32`).
- The synthetic root listing is used when repositories are configured and the path
  names none, not when there are no repositories.
- No command checks for required arguments before running. A null message or
  directory is written as `""`.
- The current client writes `--password` for an empty password. The legacy
  `SvnArguments` writes it only for a non-empty one.

## Left out

- Launching the process, capturing output events, waiting and cancellation in both `SvnClient.cs` files. The finished outcome (exit code and line events) is an input.
- The operation classes (`Svn*Operation.cs`, `SvnOperation.cs`), the repository monitor, the path browsers, `RemoteMethods.cs` and the credential data holders. They are glue around the client, network access or credential-store access.
- File-system work in `Subversion15Provider.cs`:
  - `EnsureLocalWorkspace`, `DeleteWorkspace` and `GetFileContents`;
  - reading the embedded command-list stream;
  - clearing and re-creating the workspace inside `UpdateLocalWorkspace`.
  
  The decision and the svn commands are modelled; the directory operations are not.
- `GetLatest`, `ExportFiles`, `Branch`, `ValidateConnection`, `GetClientCommandHelp` and `SvnHelp` in `Subversion15Provider.cs`. Each only chains `ExecuteSvn` calls (modelled) with file-system work or exception wrapping.
- Debug and error log messages other than the executed command line.
- `XDocument.Parse`, the integer reading inside `XmlConvert.ToInt32`, `Environment.NewLine`, `GetDiskPath`, the bundled svn.exe and plink.exe paths, and the secure resource and credential lookups are parameters, not implementations.
- `Util.ConcatNE`, `Util.CoalesceStr` and `AH.CoalesceString` are not part of this model's sources. They are modelled by their documented behaviour: `ConcatNE` gives "" when any part is null or empty; the coalesce functions pick the first value that is neither null nor empty.
- The casts `(SvnSourceControlContext)`, `(SubversionSecureResource)` and `(UsernamePasswordCredentials)` are assumed to succeed. The store lookups return values of the right type.
- The null check on the parent in `new SvnPath(other, …)`: a parent path is always present in the model.
- Null elements of a `Repositories` array. The model's repository lists hold no null entries, so the `NullReferenceException` that a null element raises at Subversion15Provider.cs:43 and :102, SvnSourceControlContext.cs:31 and Subversion15ProviderEditor.cs:28 is not modelled. A null `Name` of a present repository is modelled.
- A null remote URL passed to `TargetUrlMatchesRemoteUrl` cannot occur, because the caller tests for null first.
- Exit codes are unbounded integers. Reading an integer from text is the `parseInteger` parameter; the 32-bit range check after it is modelled by `ToInt32`.
- `IsWhiteSpace` covers the Latin-1 white-space characters `String.Trim()` strips, not the other Unicode space separators.
- RepositoryNames.RepositoryName: the contract states only the configured-name case. The derived case is stated by `DerivedNameShape`, `DerivedNameIsLastSegment` and `DerivedNameExample`.
- LegacyProvider.ParseCommandLine: the contract states only the kind of error. What a line parses to is stated by `ParsedCommandOfLine` and `LineWithoutSeparatorFails`. Lines of other shapes, such as tabs inside the description, are covered only by `CommandPieces`.
- LegacyProvider.AvailableCommands: the result is the whole list or the first error. A lazily enumerated prefix before a failing line is not modelled.
- SourceControl.Resolve: the contract states only when it fails. The resolved fields are stated by `ResolvedSplitPath`, `ResolvedRepository`, `ResolvedPaths`, `TargetUrlUnderRoot`, `ResolveExample` and `PassThroughExample`.
- Client.ExecuteCommandLine: output and error lines are stated by `Client.Execute`, which it calls, not repeated in its own contract.
