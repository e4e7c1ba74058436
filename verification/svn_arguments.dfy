/** The legacy provider's argument string (SvnArguments.cs): the user
    arguments, each followed by one space and optionally wrapped in double
    quotes, then the fixed trailer, the credentials and the SSH tunnel
    option. The string is built on first read and cached. */
module LegacyArguments {
  import opened Common
  import opened Strings

  /** The provider settings the builder reads. `plinkExePath` is the agent's
      plink.exe path, already written with forward slashes. */
  datatype ProviderSettings = ProviderSettings(
    username: Option<string>,
    password: Option<string>,
    useSsh: bool,
    privateKeyPath: Option<string>,
    plinkExePath: string)

  /** An `SvnArguments` object: its arguments, its two flags and the cached
      value of the lazy string (None until the first read). */
  datatype SvnArguments = SvnArguments(
    provider: ProviderSettings,
    args: seq<Option<string>>,
    quoteArguments: bool,
    obscurePassword: bool,
    cached: Option<string>)

  /** The always-present part after the user arguments. */
  const FixedTrailer: string := "--non-interactive --trust-server-cert "

  /** What an obscured password is shown as. */
  const ObscuredPassword: string := "xxxxx"

  /** The constructor: quoting on, obscuring off, nothing built yet. */
  function New(provider: ProviderSettings, args: seq<Option<string>>): (r: SvnArguments)
    ensures r.provider == provider && r.args == args
    ensures r.quoteArguments && !r.obscurePassword && r.cached.None?
  {
    SvnArguments(provider, args, true, false, None)
  }

  /** One argument as `AppendFormat` writes it: a null argument formats as "",
      quoting adds the two delimiters and escapes nothing. */
  function ArgText(arg: Option<string>, quote: bool): string {
    if quote then "\"" + OrEmpty(arg) + "\"" else OrEmpty(arg)
  }

  /** The user arguments, in order, each followed by one space. */
  function UserArgsText(args: seq<Option<string>>, quote: bool): string {
    PrefixText(args, |args|, quote)
  }

  /** The text of the first `n` arguments. */
  function PrefixText(args: seq<Option<string>>, n: nat, quote: bool): string
    requires n <= |args|
    decreases n
  {
    if n == 0 then "" else PrefixText(args, n - 1, quote) + ArgText(args[n - 1], quote) + " "
  }

  /** The text of the first `n` arguments depends on those arguments only. */
  lemma {:induction false} PrefixTextAgrees(a: seq<Option<string>>, b: seq<Option<string>>, n: nat, quote: bool)
    requires n <= |a| && n <= |b|
    requires forall i :: 0 <= i < n ==> a[i] == b[i]
    ensures PrefixText(a, n, quote) == PrefixText(b, n, quote)
    decreases n
  {
    if n > 0 {
      PrefixTextAgrees(a, b, n - 1, quote);
    }
  }

  /** One more argument adds its text and one space at the end. */
  lemma UserArgsSnoc(args: seq<Option<string>>, a: Option<string>, quote: bool)
    ensures UserArgsText(args + [a], quote) == UserArgsText(args, quote) + ArgText(a, quote) + " "
  {
    PrefixTextAgrees(args + [a], args, |args|, quote);
  }

  /** The arguments are written in order: the text of a concatenation is the
      concatenation of the texts. */
  lemma UserArgsConcat(xs: seq<Option<string>>, ys: seq<Option<string>>, quote: bool)
    ensures UserArgsText(xs + ys, quote) == UserArgsText(xs, quote) + UserArgsText(ys, quote)
  {
    ConcatPrefixText(xs, ys, |ys|, quote);
  }

  /** UserArgsConcat for the first `n` arguments of `ys`. */
  lemma {:induction false} ConcatPrefixText(xs: seq<Option<string>>, ys: seq<Option<string>>, n: nat, quote: bool)
    requires n <= |ys|
    ensures PrefixText(xs + ys, |xs| + n, quote) == UserArgsText(xs, quote) + PrefixText(ys, n, quote)
    decreases n
  {
    if n == 0 {
      PrefixTextAgrees(xs + ys, xs, |xs|, quote);
    } else {
      ConcatPrefixText(xs, ys, n - 1, quote);
      assert (xs + ys)[|xs| + n - 1] == ys[n - 1];
      var a, b, t := UserArgsText(xs, quote), PrefixText(ys, n - 1, quote), ArgText(ys[n - 1], quote);
      assert (a + b) + t + " " == a + (b + t + " ");
    }
  }

  /** Quoting does not escape: one argument holding `a" "b` is written exactly
      like the two arguments `a` and `b`. */
  lemma QuotedArgumentsCanCollide()
    ensures UserArgsText([Some("a\" \"b")], true) == UserArgsText([Some("a"), Some("b")], true)
  {
    var two := [Some("a"), Some("b")];
    assert PrefixText(two, 1, true) == "\"a\" ";
    assert UserArgsText([Some("a\" \"b")], true) == "\"a\" \"b\" ";
  }

  /** `--username "<u>" ` when the user name is non-empty, then `--password "<p>" `
      (or `"xxxxx"` when obscured) when the password is non-empty. */
  function CredentialText(p: ProviderSettings, obscure: bool): (r: string)
    ensures r == [] || r[|r| - 1] == ' '
  {
    (if IsNullOrEmpty(p.username) then "" else "--username \"" + p.username.value + "\" ")
    + (if IsNullOrEmpty(p.password) then ""
       else "--password \"" + (if obscure then ObscuredPassword else p.password.value) + "\" ")
  }

  /** The SSH tunnel option, with `-i <key>` when a key path is set; the key
      path has its backslashes turned into slashes. */
  function SshText(p: ProviderSettings): (r: string)
    ensures p.useSsh ==> r != [] && r[|r| - 1] == '"'
    ensures !p.useSsh ==> r == []
  {
    if !p.useSsh then ""
    else
      "--config-option=config:tunnels:ssh=\"" + p.plinkExePath + " -batch"
      + (if IsNullOrEmpty(p.privateKeyPath) then "" else " -i " + ReplaceChar(p.privateKeyPath.value, '\\', '/'))
      + "\""
  }

  /** Everything `BuildArguments` writes after the user arguments: the fixed
      trailer, the credentials and the SSH option. */
  function Tail(p: ProviderSettings, obscure: bool): (r: string)
    ensures |r| >= |FixedTrailer| && r[..|FixedTrailer|] == FixedTrailer
    ensures r[|r| - 1] == '"' <==> p.useSsh
    ensures !p.useSsh ==> r[|r| - 1] == ' '
  {
    var c, ssh := CredentialText(p, obscure), SshText(p);
    TailParts(c, ssh);
    FixedTrailer + c + ssh
  }

  /** The trailer, credentials ending in a space and an SSH option ending in
      a quote: the trailer comes first and the last character tells whether
      the SSH option is there. */
  lemma TailParts(c: string, ssh: string)
    requires c == [] || c[|c| - 1] == ' '
    requires ssh == [] || ssh[|ssh| - 1] == '"'
    ensures var r := FixedTrailer + c + ssh;
      && |r| >= |FixedTrailer| && r[..|FixedTrailer|] == FixedTrailer
      && (r[|r| - 1] == '"' <==> ssh != [])
      && (ssh == [] ==> r[|r| - 1] == ' ')
  {
    var prefix := FixedTrailer + c;
    assert prefix[|prefix| - 1] == ' ' by {
      if c != [] {
        assert prefix[|prefix| - 1] == c[|c| - 1];
      }
    }
    assert (prefix + ssh)[..|FixedTrailer|] == FixedTrailer;
  }

  /** `BuildArguments`: the user arguments, then the tail. */
  function Build(a: SvnArguments): (r: string)
    ensures r != []
    ensures r[|r| - 1] == '"' <==> a.provider.useSsh
    ensures !a.provider.useSsh ==> r[|r| - 1] == ' '
  {
    UserArgsText(a.args, a.quoteArguments) + Tail(a.provider, a.obscurePassword)
  }

  /** `Value`: the first read builds the string and caches it; later reads
      return the cached string. The object after the read is the second component. */
  function Value(a: SvnArguments): (r: (string, SvnArguments))
    ensures a.cached.Some? ==> r.0 == a.cached.value
    ensures a.cached.None? ==> r.0 == Build(a)
    ensures r.1.cached == Some(r.0)
    ensures r.1.provider == a.provider && r.1.args == a.args
    ensures r.1.quoteArguments == a.quoteArguments && r.1.obscurePassword == a.obscurePassword
  {
    var v := if a.cached.Some? then a.cached.value else Build(a);
    (v, a.(cached := Some(v)))
  }

  /** Once read, the value no longer follows the flags: changing
      `QuoteArguments` or `ObscurePassword` afterwards leaves it as it was. */
  lemma ValueIsStable(a: SvnArguments, quote: bool, obscure: bool)
    ensures var (v, a1) := Value(a);
      Value(a1.(quoteArguments := quote, obscurePassword := obscure)).0 == v
  {
  }

  /** With the password obscured, the string does not depend on what the
      (non-empty) password is. */
  lemma ObscuredPasswordHidden(a: SvnArguments, p1: string, p2: string)
    requires a.obscurePassword && p1 != [] && p2 != []
    ensures Build(a.(provider := a.provider.(password := Some(p1))))
         == Build(a.(provider := a.provider.(password := Some(p2))))
  {
    TailHidesPassword(a.provider, p1, p2);
  }

  /** The obscured tail does not depend on what the (non-empty) password is. */
  lemma TailHidesPassword(p: ProviderSettings, p1: string, p2: string)
    requires p1 != [] && p2 != []
    ensures Tail(p.(password := Some(p1)), true) == Tail(p.(password := Some(p2)), true)
  {
    assert CredentialText(p.(password := Some(p1)), true) == CredentialText(p.(password := Some(p2)), true);
  }

  /** An empty user name is treated like a missing one: no `--username` is written. */
  lemma EmptyUserOmitted(a: SvnArguments)
    ensures Build(a.(provider := a.provider.(username := Some(""))))
         == Build(a.(provider := a.provider.(username := None)))
  {
    var p1, p2 := a.provider.(username := Some("")), a.provider.(username := None);
    assert Tail(p1, a.obscurePassword) == Tail(p2, a.obscurePassword) by {
      assert CredentialText(p1, a.obscurePassword) == CredentialText(p2, a.obscurePassword);
    }
  }

  /** Obscuring writes what the plain rendering would write for the password
      `xxxxx`: only the value changes, not the option around it. */
  lemma ObscuredIsPlaceholder(p: ProviderSettings)
    requires !IsNullOrEmpty(p.password)
    ensures Tail(p, true) == Tail(p.(password := Some(ObscuredPassword)), false)
  {
    assert CredentialText(p, true) == CredentialText(p.(password := Some(ObscuredPassword)), false);
  }

  /** The key option is optional: an empty key path writes the same as none,
      and a key path inserts ` -i <key>` (backslashes as slashes) just before
      the closing quote. */
  lemma SshKeyOnlyWhenSet(p: ProviderSettings)
    requires p.useSsh
    ensures SshText(p.(privateKeyPath := Some(""))) == SshText(p.(privateKeyPath := None))
    ensures !IsNullOrEmpty(p.privateKeyPath) ==>
      var bare := SshText(p.(privateKeyPath := None));
      SshText(p) == bare[..|bare| - 1] + " -i " + ReplaceChar(p.privateKeyPath.value, '\\', '/') + "\""
  {
    var head := "--config-option=config:tunnels:ssh=\"" + p.plinkExePath + " -batch";
    var bare := SshText(p.(privateKeyPath := None));
    assert bare == head + "\"";
    assert bare[..|bare| - 1] == head;
  }

  /** An empty password is treated like a missing one: no `--password` is written. */
  lemma EmptyPasswordOmitted(a: SvnArguments)
    ensures Build(a.(provider := a.provider.(password := Some(""))))
         == Build(a.(provider := a.provider.(password := None)))
  {
    var p1, p2 := a.provider.(password := Some("")), a.provider.(password := None);
    assert Tail(p1, a.obscurePassword) == Tail(p2, a.obscurePassword) by {
      assert CredentialText(p1, a.obscurePassword) == CredentialText(p2, a.obscurePassword);
    }
  }
}
