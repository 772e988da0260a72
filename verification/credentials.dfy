/** The credential decision of the WCF endpoint behaviour
    `WindowsCredentialsBehaviour`: its configuration, the client credentials
    and binding parameters it reads and writes, and `AddBindingParameters`
    as a pure function from the state before the call to the state after
    it, or to the exception it throws. */
module Credentials {
  import opened Wrappers
  import opened Text

  /** `System.Security.Principal.TokenImpersonationLevel`. */
  datatype TokenImpersonationLevel = None | Anonymous | Identification | Impersonation | Delegation

  /** The behaviour's configuration properties, read once per call. */
  datatype Config = Config(
    username: string,
    password: string,
    domain: string,
    impersonationLevel: TokenImpersonationLevel,
    enable: bool)

  /** The value every property has when configuration does not set it. */
  const DefaultConfig: Config := Config("", "", "", Identification, true)

  /** The generic user-name/password slot (`ClientCredentials.UserName`);
      both fields may be null. */
  datatype UserNameCredential = UserNameCredential(userName: Nullable<string>, password: Nullable<string>)

  /** The Windows slot: `ClientCredentials.Windows.ClientCredential` and
      `ClientCredentials.Windows.AllowedImpersonationLevel`. */
  datatype WindowsCredential = WindowsCredential(
    userName: string,
    password: string,
    domain: string,
    allowedImpersonationLevel: TokenImpersonationLevel)

  /** The `ClientCredentials` behaviour found on the endpoint. */
  datatype ClientCredentials = ClientCredentials(userName: UserNameCredential, windows: WindowsCredential)

  /** An entry of the binding-parameter collection, told apart only by what
      the behaviour looks for and what it adds. */
  datatype BindingParameter =
    | ClientCredentialsParameter
    | WindowsCredentialsBehaviourParameter
    | OtherParameter(name: string)

  /** Everything the call reads besides its configuration: the endpoint's
      client credentials and the (possibly null) binding-parameter
      collection. */
  datatype State = State(credentials: ClientCredentials, bindingParameters: Nullable<seq<BindingParameter>>)

  /** The exceptions the call throws. */
  datatype Error =
    | ArgumentNull(paramName: string)
    | DomainClash(domain: string, username: string)

  /** What the user-name branch decides: the generic slot afterwards and the
      user name and domain the Windows slot is to receive. */
  datatype Resolution = Resolution(generic: UserNameCredential, userName: string, domain: string)

  /** The generic user name used when the configured user name carries no
      domain: the domain and a separator in front of the user name, unless
      the domain is blank, in which case the separator is dropped but the
      (whitespace) domain is still prepended. */
  function Qualified(domain: string, username: string): (r: string)
    // one character between domain and user name exactly when the domain is not blank ...
    ensures |r| == |domain| + |username| + (if IsBlank(domain) then 0 else 1)
    // ... with the domain first and the user name last
    ensures r[..|domain|] == domain && r[|r| - |username|..] == username
    ensures !IsBlank(domain) ==> r[|domain|] == DomainSeparator
  {
    domain + (if IsBlank(domain) then "" else [DomainSeparator]) + username
  }

  /** The user-name branch of the call: domain parsing, clash detection and
      the generic slot, given the generic slot as the call found it. */
  function Resolve(cfg: Config, generic: UserNameCredential): (r: Result<Resolution, Error>)
    // a clash is the only failure, and needs a separator and a non-blank domain
    ensures r.Failure? ==>
      && r.error == DomainClash(cfg.domain, cfg.username)
      && DomainSeparator in cfg.username
      && !IsBlank(cfg.domain)
    // a generic slot that already holds a user name is left alone
    ensures r.Success? && !IsNullOrWhiteSpace(generic.userName) ==> r.value.generic == generic
    // without a separator the Windows user and domain are the configured ones
    ensures DomainSeparator !in cfg.username ==>
      r.Success? && r.value.userName == cfg.username && r.value.domain == cfg.domain
    // with a separator the Windows domain is the lower-cased text before it
    ensures r.Success? && DomainSeparator in cfg.username ==>
      && DomainSeparator !in r.value.domain
      && ToLower(cfg.username) == r.value.domain + [DomainSeparator] + r.value.userName
  {
    var username := cfg.username;
    var domain := cfg.domain;
    if IsBlank(username) then
      Success(Resolution(generic, username, domain))
    else
      var domainSlashIndex := IndexOf(username, DomainSeparator);
      var setCredentials := IsNullOrWhiteSpace(generic.userName);
      if domainSlashIndex >= 0 then
        var prefix := username[..domainSlashIndex];
        var rest := username[domainSlashIndex + 1..];
        if IsBlank(domain) || ToLower(domain) == ToLower(prefix) then
          var generic' := if setCredentials then UserNameCredential(NonNull(username), NonNull(cfg.password)) else generic;
          LowerSplit(username, domainSlashIndex);
          ToLowerKeepsSeparator(prefix);
          Success(Resolution(generic', ToLower(rest), ToLower(prefix)))
        else
          Failure(DomainClash(domain, username))
      else
        var generic' := if setCredentials then UserNameCredential(NonNull(Qualified(domain, username)), NonNull(cfg.password)) else generic;
        Success(Resolution(generic', username, domain))
  }

  /** The registration guard: the behaviour adds itself unless the
      collection already holds a `ClientCredentials` entry. */
  function Register(items: seq<BindingParameter>): (r: seq<BindingParameter>)
    // every entry is kept in place, and at most the behaviour is added after them
    ensures items <= r && |r| <= |items| + 1
    ensures |r| == |items| + 1 ==> r[|items|] == WindowsCredentialsBehaviourParameter
    // the collection grows exactly when it held no ClientCredentials entry
    ensures r != items <==> ClientCredentialsParameter !in items
    // the guard never adds the entry it looks for
    ensures ClientCredentialsParameter in r <==> ClientCredentialsParameter in items
  {
    if ClientCredentialsParameter in items then items else items + [WindowsCredentialsBehaviourParameter]
  }

  /** `WindowsCredentialsBehaviour.AddBindingParameters`. */
  function AddBindingParameters(cfg: Config, s: State): (r: Result<State, Error>)
    // the only exceptions: a null collection, or a domain clash
    ensures r.Failure? ==>
      && cfg.enable
      && (r.error.ArgumentNull? <==> s.bindingParameters.Null?)
      && (r.error.DomainClash? ==> r.error == DomainClash(cfg.domain, cfg.username))
    // an enabled call that returns has found a collection, passed the
    // password and impersonation level through to the Windows slot, and
    // kept every entry the collection held
    ensures r.Success? && cfg.enable ==>
      && s.bindingParameters.NonNull?
      && r.value.bindingParameters.NonNull?
      && r.value.credentials.windows.password == cfg.password
      && r.value.credentials.windows.allowedImpersonationLevel == cfg.impersonationLevel
      && s.bindingParameters.value <= r.value.bindingParameters.value
    // a generic slot that already holds a user name is never overwritten
    ensures r.Success? && !IsNullOrWhiteSpace(s.credentials.userName.userName) ==>
      r.value.credentials.userName == s.credentials.userName
  {
    if !cfg.enable then
      Success(s)
    else if s.bindingParameters.Null? then
      Failure(ArgumentNull("bindingParameters"))
    else
      var resolution :- Resolve(cfg, s.credentials.userName);
      var windows := WindowsCredential(resolution.userName, cfg.password, resolution.domain, cfg.impersonationLevel);
      Success(State(
        ClientCredentials(resolution.generic, windows),
        NonNull(Register(s.bindingParameters.value))))
  }
}
