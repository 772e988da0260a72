# WindowsCredentialsBehaviour — a Dafny model of the credential decision

`WindowsCredentialsBehaviour` is a WCF endpoint behaviour that lets a client
authenticate with NTLM against services in foreign Windows domains. Its only
logic is `AddBindingParameters`: from a configured user name (which may carry
an embedded domain, `DOMAIN\user`), an optional configured domain, a password,
an impersonation level and an enable flag, it decides what to write into the
endpoint's generic user-name/password slot and into its Windows slot, whether
to register itself in the binding-parameter collection, and when to throw
instead (a domain clash, or a null collection).

The model states that call as one pure function,
`Credentials.AddBindingParameters(cfg, s): Result<State, Error>`:

- `Config` holds the configuration properties (defaults `""` and
  `Identification`, `Enable` true);
- `State` holds what the call reads and writes besides its configuration:
  the endpoint's `ClientCredentials` (generic slot, whose fields may be null,
  and Windows slot) and the possibly null binding-parameter collection;
- a thrown exception is a `Failure` carrying an `Error`
  (`ArgumentNull("bindingParameters")` or `DomainClash(domain, username)`).
  Both are thrown before anything is written, so a failure carries no state.

Modules:

- `Wrappers` — `Nullable` and `Result`.
- `Text` — the .NET string primitives the call uses: `char.IsWhiteSpace`,
  `string.IsNullOrWhiteSpace` (`IsBlank`), lower-casing (`ToLower`) and
  `IndexOf`, each with a contract that says what it computes.
- `Credentials` — the data model, the user-name branch (`Resolve`), the
  registration guard and `AddBindingParameters`.
- `CredentialSpec` — a second, declarative description of the call's
  outcome (`Expected`), which cuts the user name with `SplitsAt` instead of a
  computed index, proved equal to the call in both directions; one lemma per
  path; and what repeating the call does.

Points worth noting about what the code does:

- the user name is cut at its FIRST backslash only, so the Windows user name
  can still contain backslashes (`CredentialSpec.LaterSeparatorsKept`); it is
  not true that the resolved user name is always free of separators;
- "blank" means `string.IsNullOrWhiteSpace`, not emptiness; a whitespace-only
  domain is still prepended to the generic user name, only the backslash is
  dropped (`Credentials.Qualified`);
- the impersonation level has the five values of `TokenImpersonationLevel`,
  including `None`;
- the registration guard looks for a `ClientCredentials` entry but adds the
  behaviour itself, so it does not make registration idempotent: a
  collection that already holds the behaviour but no `ClientCredentials`
  entry gets the behaviour appended again (`CredentialSpec.RegistrationGuard`).
  What the collection itself does with a second entry of the same type is
  outside the model (see below).

## Model

| member | source | states |
|---|---|---|
| Text.IsWhiteSpace | WindowsCredentialsBehaviour.cs:161 | `char.IsWhiteSpace`: below U+0080 exactly space and tab to carriage return; no whitespace character is a backslash or an ASCII letter |
| Text.IsNullOrWhiteSpace | WindowsCredentialsBehaviour.cs:169 | `string.IsNullOrWhiteSpace` on a possibly null string: null, or every character whitespace |
| Text.IsBlank | WindowsCredentialsBehaviour.cs:161 | `string.IsNullOrWhiteSpace` on a non-null string holds exactly when every character is whitespace (so also for the empty string) |
| Text.BlankConcat | WindowsCredentialsBehaviour.cs:196-199 | a concatenation is blank exactly when both parts are; hence a domain-qualified non-blank user name is non-blank |
| Text.ToLower | WindowsCredentialsBehaviour.cs:174 | lower-casing keeps the length and lower-cases each character in place |
| Text.LowerSplit | WindowsCredentialsBehaviour.cs:181-182 | lower-casing the parts around a separator gives the lower-cased whole |
| Text.ToLowerKeepsSeparator | WindowsCredentialsBehaviour.cs:181-182 | lower-casing neither creates nor removes a backslash |
| Text.IndexOf | WindowsCredentialsBehaviour.cs:163 | the result is -1 exactly when the character is absent; otherwise it is the position of the character with no earlier occurrence |
| Text.SplitAtFirst | WindowsCredentialsBehaviour.cs:163 | for `prefix + [c] + rest` with no `c` in `prefix`, the first `c` sits right after `prefix`, whatever `rest` holds |
| Credentials.Resolve | WindowsCredentialsBehaviour.cs:159-207 | the user-name branch fails only with a clash, which needs a backslash and a non-blank domain; a filled generic slot is kept; without a backslash the Windows user and domain are as configured; with one, the Windows domain holds no backslash and domain, backslash and user together are the lower-cased configured user name |
| Credentials.Qualified | WindowsCredentialsBehaviour.cs:196-199 | the domain-qualified generic user name starts with the domain, ends with the user name, and has exactly one character, a backslash, between them when the domain is not blank and none otherwise |
| Credentials.Register | WindowsCredentialsBehaviour.cs:215-218 | the guard keeps every entry in place, grows the collection by the behaviour exactly when it held no `ClientCredentials` entry, and never adds the entry it looks for |
| Credentials.AddBindingParameters | WindowsCredentialsBehaviour.cs:146-224 | the call throws only when enabled: `ArgumentNull` exactly when the collection is null, otherwise the clash with the configured domain and user name; an enabled call that returns found a collection, keeps every entry it held, and passes password and impersonation level through to the Windows slot; a generic slot that already held a user name is never overwritten |
| CredentialSpec.SplitsAtUnique | WindowsCredentialsBehaviour.cs:163 | a user name has only one cut at a first backslash |
| CredentialSpec.SplitsAtFirstSeparator | WindowsCredentialsBehaviour.cs:163-182 | the substrings before and after `IndexOf` form that cut |
| CredentialSpec.CallIsExpected | WindowsCredentialsBehaviour.cs:146-224 | the call's outcome meets the path-by-path description |
| CredentialSpec.ExpectedIsCall | WindowsCredentialsBehaviour.cs:146-224 | the path-by-path description admits no outcome other than the call's |
| CredentialSpec.AddBindingParametersIsExpected | WindowsCredentialsBehaviour.cs:146-224 | an outcome meets the path-by-path description if and only if it is the call's |
| CredentialSpec.SeparatorIsNotBlank | WindowsCredentialsBehaviour.cs:161-163 | a user name that holds a backslash is never blank, so the separator branch is always reached |
| CredentialSpec.Disabled | WindowsCredentialsBehaviour.cs:148-151 | with `Enable` false the call returns and changes nothing, even with a null collection |
| CredentialSpec.NullCollection | WindowsCredentialsBehaviour.cs:155-222 | enabled with a null collection, the call throws `ArgumentNullException("bindingParameters")` and applies nothing |
| CredentialSpec.SeparatorAgrees | WindowsCredentialsBehaviour.cs:171-182 | with a backslash and a blank or case-insensitively equal domain, the Windows domain and user are the lower-cased texts before and after the first backslash, and a blank generic slot receives the configured user name as written, with the password |
| CredentialSpec.SeparatorClashes | WindowsCredentialsBehaviour.cs:173-190 | with a backslash and a non-blank domain that differs up to case from the text before it, the call throws `DomainClash` with the configured domain and user name and applies nothing |
| CredentialSpec.ClashIff | WindowsCredentialsBehaviour.cs:171-190 | an enabled call with a collection fails exactly when some first-backslash cut has a disagreeing domain |
| CredentialSpec.NoSeparator | WindowsCredentialsBehaviour.cs:192-212 | without a backslash, a non-blank user name fills a blank generic slot with the domain-qualified user name and the password, and the Windows user and domain are as configured |
| CredentialSpec.QualifiedForm | WindowsCredentialsBehaviour.cs:196-199 | an empty domain leaves the user name alone, a blank domain is prepended without a backslash, any other domain is prepended with one |
| CredentialSpec.Defaults | WindowsCredentialsBehaviour.cs:37-117 | with every property at its default and a collection present, the call leaves the generic slot alone, writes an empty Windows user, password and domain with `Identification`, and registers the behaviour when no `ClientCredentials` entry is present |
| CredentialSpec.BlankUsername | WindowsCredentialsBehaviour.cs:161-212 | a blank user name leaves the generic slot alone and the Windows user and domain are as configured |
| CredentialSpec.RegistrationGuard | WindowsCredentialsBehaviour.cs:215-218 | with a `ClientCredentials` entry the collection is unchanged; without one exactly the behaviour is appended and nothing else changes |
| CredentialSpec.WindowsSlotFromConfigOnly | WindowsCredentialsBehaviour.cs:209-213 | after an enabled call that returns, the Windows slot depends on the configuration alone |
| CredentialSpec.CredentialsSettle | WindowsCredentialsBehaviour.cs:165-213 | repeating a call that returned, with the same configuration, raises no domain clash and leaves both credential slots as the first call left them (that it cannot fail at all rests on `Add` being an append; see Left out) |
| CredentialSpec.RepeatIsNoOp | WindowsCredentialsBehaviour.cs:165-218 | with a `ClientCredentials` entry present, repeating a call that returned changes nothing at all |
| CredentialSpec.LaterSeparatorsKept | WindowsCredentialsBehaviour.cs:163-182 | `A\b\c` with no domain gives Windows domain `a` and Windows user `b\c`: later backslashes survive |
| CredentialSpec.CorpAlice | WindowsCredentialsBehaviour.cs:171-182 | `CORP\alice`, no domain, blank generic slot: generic `CORP\alice`/`p`, Windows `alice`/`p`/`corp`/`Impersonation` |
| CredentialSpec.CorpAliceClash | WindowsCredentialsBehaviour.cs:184-190 | `CORP\alice` with domain `OTHER` throws `DomainClash("OTHER", "CORP\alice")` |

## Left out

- Configuration-property storage (lines 37-117) is replaced by the immutable
  `Config` record; the values are read once per call as the getters would be.
  Config strings are never null in the model: their defaults are `""`.
- `CreateBehavior`, `BehaviorType` (lines 125-139) and the empty
  `IEndpointBehavior` hooks (lines 231-250) are framework registration with
  no logic.
- Finding `ClientCredentials` on the endpoint (line 157) is assumed to
  succeed: the state always holds one. The code would throw a
  `NullReferenceException` otherwise, which is not part of its contract.
- Text.ToLower: lower-cases ASCII letters only; the culture-sensitive case
  table of .NET's `ToLower` is not modelled.
- Text.IsBlank: characters are Unicode scalar values, not UTF-16 code units,
  and the whitespace set is the one of current Unicode versions.
- The message text of the clash exception (a resource string formatted with
  domain and user name, line 189) is replaced by the structured
  `DomainClash(domain, username)` error.
- `BindingParameterCollection` is a sequence and `Add` appends; the
  collection's own rejection of a second entry of the same type is framework
  code and is not modelled.
- CredentialSpec.CredentialsSettle: that the repeated call cannot fail
  rests on `Add` being modelled as an append. In the program, when the
  collection holds no `ClientCredentials` entry, the repeat calls `Add`
  again (line 217) after writing the slots (lines 210-213), and the
  collection throws `ArgumentException` for the second behaviour entry. The
  model promises only that no domain clash arises and that the slots are as
  the first call left them; `CredentialSpec.RepeatIsNoOp` covers the case
  where `Add` is not reached.
- The WCF binding and transport layers and NTLM/Kerberos negotiation are
  framework code the behaviour only hands its credentials to.
