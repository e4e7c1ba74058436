/** Merging an operation's own settings with a stored secure resource or
    legacy credential (`SvnExtensions.GetCredentialsAndResource` in
    ISvnConfiguration.cs). The credential store is supplied as lookups. */
module SvnConfiguration {
  import opened Common

  /** A user name and password (the password's secure string as text). */
  datatype UsernamePasswordCredentials = UsernamePasswordCredentials(userName: Option<string>, password: Option<string>)

  /** A `SubversionSecureResource`. */
  datatype SecureResource = SecureResource(repositoryUrl: Option<string>)

  /** A `SubversionLegacyCredentials`: URL, user name and password in one. */
  datatype LegacyCredentials = LegacyCredentials(repositoryUrl: Option<string>, userName: Option<string>, password: Option<string>)

  /** The operation's settings (`ISvnConfiguration`). */
  datatype Config = Config(resourceName: Option<string>, repositoryUrl: Option<string>, userName: Option<string>, password: Option<string>)

  /** The store: `SecureResource.TryCreate`, the resource's `GetCredentials`,
      and `SecureCredentials.TryCreate ... as SubversionLegacyCredentials`. */
  datatype Store = Store(
    resource: string -> Option<SecureResource>,
    resourceCredentials: SecureResource -> Option<UsernamePasswordCredentials>,
    legacy: string -> Option<LegacyCredentials>)

  /** `AH.CoalesceString(a, b)`: the first value that is neither null nor empty. */
  function CoalesceString(a: Option<string>, b: Option<string>): (r: Option<string>)
    ensures !IsNullOrEmpty(a) ==> r == a
    ensures IsNullOrEmpty(a) && !IsNullOrEmpty(b) ==> r == b
    ensures IsNullOrEmpty(r) <==> IsNullOrEmpty(a) && IsNullOrEmpty(b)
  {
    if !IsNullOrEmpty(a) then a else if !IsNullOrEmpty(b) then b else None
  }

  /** `ToSecureResource` and `ToSecureCredentials` of a legacy credential. */
  function LegacyResource(l: LegacyCredentials): SecureResource {
    SecureResource(l.repositoryUrl)
  }
  function LegacyUser(l: LegacyCredentials): UsernamePasswordCredentials {
    UsernamePasswordCredentials(l.userName, l.password)
  }

  /** The stored credentials and resource found for a resource name: the
      secure resource first, the legacy credential as the fallback, nothing
      when the name is empty. */
  function Stored(config: Config, store: Store): (r: (Option<UsernamePasswordCredentials>, Option<SecureResource>))
    ensures IsNullOrEmpty(config.resourceName) ==> r == (None, None)
    ensures !IsNullOrEmpty(config.resourceName) ==>
      var name := config.resourceName.value;
      && (store.resource(name).Some? ==>
            r == (store.resourceCredentials(store.resource(name).value), store.resource(name)))
      && (store.resource(name).None? && store.legacy(name).Some? ==>
            r == (Some(LegacyUser(store.legacy(name).value)), Some(LegacyResource(store.legacy(name).value))))
      && (store.resource(name).None? && store.legacy(name).None? ==> r == (None, None))
  {
    if IsNullOrEmpty(config.resourceName) then (None, None)
    else
      var name := config.resourceName.value;
      match store.resource(name)
      case Some(res) => (store.resourceCredentials(res), Some(res))
      case None =>
        match store.legacy(name)
        case Some(l) => (Some(LegacyUser(l)), Some(LegacyResource(l)))
        case None => (None, None)
  }

  /** A secure resource shadows a legacy credential of the same name: two
      stores that agree on the resource and its credentials give the same
      result, whatever legacy credentials they hold. */
  lemma SecureResourceShadowsLegacy(config: Config, s1: Store, s2: Store)
    requires !IsNullOrEmpty(config.resourceName)
    requires s1.resource(config.resourceName.value).Some?
    requires s1.resource(config.resourceName.value) == s2.resource(config.resourceName.value)
    requires s1.resourceCredentials(s1.resource(config.resourceName.value).value)
          == s2.resourceCredentials(s2.resource(config.resourceName.value).value)
    ensures Stored(config, s1) == Stored(config, s2)
    ensures GetCredentialsAndResource(config, s1) == GetCredentialsAndResource(config, s2)
  {
  }

  /** `GetCredentialsAndResource`: credentials only when some user name is
      known (the configured one first); the configured password unless it is
      null; the configured URL unless it is null, otherwise the resource's,
      which throws when there is no resource. */
  function GetCredentialsAndResource(config: Config, store: Store): (r: Result<(Option<UsernamePasswordCredentials>, SecureResource)>)
    ensures var (creds, res) := Stored(config, store);
      var user := CoalesceString(config.userName, if creds.Some? then creds.value.userName else None);
      && (r.Failure? <==> config.repositoryUrl.None? && res.None?)
      && (r.Failure? ==> r.error == NullReferenceException)
      && (r.Success? ==>
            && (r.value.0.None? <==> IsNullOrEmpty(user))
            && (r.value.0.Some? ==> r.value.0.value.userName == user)
            && (r.value.0.Some? && config.password.Some? ==> r.value.0.value.password == config.password)
            && (r.value.0.Some? && config.password.None? ==>
                  r.value.0.value.password == if creds.Some? then creds.value.password else None)
            && (config.repositoryUrl.Some? ==> r.value.1.repositoryUrl == config.repositoryUrl)
            && (config.repositoryUrl.None? ==> r.value.1.repositoryUrl == res.value.repositoryUrl))
  {
    var (creds, res) := Stored(config, store);
    var user := CoalesceString(config.userName, if creds.Some? then creds.value.userName else None);
    var password := if config.password.Some? then config.password else if creds.Some? then creds.value.password else None;
    var outCreds := if IsNullOrEmpty(user) then None else Some(UsernamePasswordCredentials(user, password));
    if config.repositoryUrl.Some? then Success((outCreds, SecureResource(config.repositoryUrl)))
    else if res.None? then Failure(NullReferenceException)
    else Success((outCreds, SecureResource(res.value.repositoryUrl)))
  }

  /** With no resource name the store is never consulted: any two stores give
      the same result. */
  lemma EmptyResourceNameIgnoresStore(config: Config, s1: Store, s2: Store)
    requires IsNullOrEmpty(config.resourceName)
    ensures GetCredentialsAndResource(config, s1) == GetCredentialsAndResource(config, s2)
  {
  }

  /** A password without any user name is dropped. */
  lemma PasswordAloneIsDiscarded(config: Config, store: Store)
    requires IsNullOrEmpty(config.resourceName) && IsNullOrEmpty(config.userName)
    requires config.repositoryUrl.Some?
    ensures GetCredentialsAndResource(config, store) == Success((None, SecureResource(config.repositoryUrl)))
  {
  }

  /** The configured user name wins over a stored one. */
  lemma ConfiguredUserWins(config: Config, store: Store)
    requires !IsNullOrEmpty(config.userName)
    requires GetCredentialsAndResource(config, store).Success?
    ensures GetCredentialsAndResource(config, store).value.0.Some?
    ensures GetCredentialsAndResource(config, store).value.0.value.userName == config.userName
  {
  }

  /** An empty configured URL is kept rather than replaced by the resource's. */
  lemma EmptyConfiguredUrlIsKept(config: Config, store: Store)
    requires config.repositoryUrl == Some("")
    ensures GetCredentialsAndResource(config, store).Success?
    ensures GetCredentialsAndResource(config, store).value.1.repositoryUrl == Some("")
  {
  }
}
