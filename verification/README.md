# Verified model of the RPC core and its codecs

This project models the deterministic parts of the Marvi/OpenHuman core in Dafny 4.11 and proves
what they are for: the front door of the Rust binary (bind tokens, controller registry, method
routing, parameter checking, command-line parsing, bearer tokens), and the codecs and selectors
around it (handoff decryption, locale files, HTML escaping, log redaction, message paths, keyword
diagnostics). `dafny verify dfyconfig.toml` checks everything.

## What is modelled

- **Bind tokens** (`BindTokens`, `BindTokenRuns`, `EventsEndpoint`). The store is a class whose map is purged
  lazily on every access. Its specification is a ledger that never forgets a token. One atomic step refines one
  ledger step, so every answer over every run is the ledger's; the answers are then read off the history of the
  run alone. `issue` reads the clock before it takes the lock (`started`) and again under it (`now`); any steps may
  lie between. Clock readings and random tokens are inputs; tokens are assumed new. Minting and opening the
  stream are methods over that store, and `MintRoute` follows a subscription request through the routes to the ledger.
- **Registry and routing** (`Registry`, `Lookup`, `LegacyAliases`, `Routing`). The validator reports exactly the problems
  that are present. The routes take any alias table that rewrites no name twice; the core's own is shown to be one.
  Handlers are arbitrary functions on an arbitrary world, and an outcome records the
  handlers that ran, so "same outcome" covers result, effect and calls.
- **Parameters** (`Schema`, `TypeInclusion`, `CliParams`, `Decimal`, `CliDrift`, `CliCall`). The type checker is compared
  with a relation over paths into the value, and inclusion between two types is decided; the argument parser is compared
  with the writing of flags and values. A command line is parsed with the declared schema and checked again with the
  registered one, and `CliDrift` says when the two cannot disagree.
- **Codecs** (`Base64`, `Utf8`, `Handoff`, `JsLiteral`, `Surrogates`, `LocaleFile`, `ApplyLocale`, `HtmlEscape`, `RpcLog`,
  `MessagePath`). The cipher, the script engine that loads a locale file, and the float and JSON readers are
  function parameters.
- **Bearer tokens** (`Auth`, `RpcToken`) and **keyword diagnostics** (`KwsDiagnostics`).

JSON objects are unordered maps; where iteration order shows (the unknown parameter that is reported, the
order of registry problems) it is the order of a `BTreeMap`, as `src/openhuman/agent/pformat.rs:118` records for this build.

## What turned out false, and what holds instead

- Minting trims the `client_id`, opening `/events` does not. Mint-then-open under the same id works exactly
  when the id has no surrounding whitespace (`EventsEndpoint.SubscribeThenOpen`, `EventsEndpoint.PaddedIdIsRefused`).
- The transport's fast path and the dispatcher agree on all inputs exactly for methods that are not both an
  alias and registered (`Routing.FastPathRefinesExactlyWhen`).
- A validated registry may still not find a declared controller by its parts, because the dotted key is also a
  non-injective join (`Lookup.DottedNamespaceCanBeLost`); it does exactly when the registered handler splits
  the key alike (`Lookup.DeclaredPartsAreFoundExactlyWhen`). The internal list is never validated
  (`Lookup.InternalReachedExactlyWhen`).
- The command line is parsed with the declared schema, the call checked with the registered one, and the validator compares
  the two by key only. A parsed call can therefore be refused (`CliCall.DriftIsRefused`). Every parsed call reaches its handler
  exactly when the key is split alike and the registered inputs cover the declared ones, or when no command line parses
  (`CliCall.EveryCallReachesExactlyWhen`); with distinct names the two input lists decide it (`CliDrift.CallsSatisfyByTypes`).
- A value parsed from the command line need not pass its type check for arrays and enums, and only for those
  (`CliParams.ParsedValuePassesExactlyWhen`).
- The comment in `init_rpc_token` promises that the token file never differs from the token in memory. That holds
  for calls that do not overlap (`RpcToken.FileAgreesWhenSerial`). A handoff between the check and the set breaks it
  (`RpcToken.OverlapSplitsFileFromMemory`), and so do two writers, although the first finds its cell free
  (`RpcToken.TwoWritersSplitFileFromMemory`). After a finished run that leaves a completely written file, file and memory
  agree exactly when the cell was free, or held that very token, just before the writer of the last completed write set it
  (`RpcToken.FileAgreesExactlyWhen`). A failed write may leave any content, even over a file completed before
  (`RpcToken.LastChangeDecides`, `RpcToken.TornAfterComplete`).
- A message path does not survive the join to the base URL when the channel or the message id is `.` or `..`, and does
  otherwise (`MessagePath.BuiltPathIsRecognised`).
- Applying the same translations again reports no update exactly when every supplied value is free of
  unpaired surrogates, since a UTF-8 file cannot hold them (`ApplyLocale.ApplyAgain`, `ApplyLocale.SurrogateIsReportedAgain`),
  and, if any is supplied, the title is on one line (`ApplyLocale.NothingReportedExactlyWhen`).
- A locale file can be split back into its entries exactly when its title is on one line (`LocaleFile.LocaleRoundTrip`).
- A message path under a base path is recognised exactly when no window of the base path comes first
  (`MessagePath.PrefixedPathExactlyWhen`, `MessagePath.BasePathCanMislead`).

Where comments and code differ the model follows the code: `key_bytes_from_string` tries the raw form first although
its comment lists it last, and the token store evicts every expired entry on each access, not only when full.

## Model

| member | source | states |
|---|---|---|
| BindTokens.EffectiveTtl | src/core/event_bind_tokens.rs:71 | the requested lifetime, capped at the maximum; the default if none is requested |
| BindTokens.PurgedIsLive | src/core/event_bind_tokens.rs:132-135 | a purge leaves exactly the ledger's live unused tokens, never more than the ceiling |
| BindTokens.StepRefines | src/core/event_bind_tokens.rs:70-135 | one access to the store answers as the ledger that never deletes, and stays its refinement |
| BindTokens.BindTokenStore.PurgeExpiredLocked | src/core/event_bind_tokens.rs:132-135 | keeps the entries valid strictly after now, changes no other field |
| BindTokens.BindTokenStore.Issue | src/core/event_bind_tokens.rs:70-92 | mints exactly when fewer than the ceiling are live in the ledger; records the token for its client |
| BindTokens.BindTokenStore.Consume | src/core/event_bind_tokens.rs:101-130 | accepts exactly a live unused token of this client and marks it used; otherwise the ledger is unchanged |
| BindTokenRuns.RunRefinesLedger | src/core/event_bind_tokens.rs:45-55 | over every run the store holds at most the ceiling and all that is live in the ledger |
| BindTokenRuns.RepliesAreTheLedgers | src/core/event_bind_tokens.rs:70-135 | every answer in every run is the ledger's answer |
| BindTokenRuns.LedgerRecordsHistory | src/core/event_bind_tokens.rs:70-135 | a ledger entry is fixed by the step that minted the token and by whether a step accepted it |
| BindTokenRuns.AcceptedExactlyWhen | src/core/event_bind_tokens.rs:94-130 | consume succeeds iff an earlier step minted the token for this client, it is unexpired, and nothing accepted it since |
| BindTokenRuns.RefusedExactlyWhen | src/core/event_bind_tokens.rs:80-88 | a mint is refused iff at least the ceiling of tokens are minted, unexpired and not accepted |
| BindTokenRuns.SingleShot | src/core/event_bind_tokens.rs:16-17 | no token is accepted twice in a run |
| BindTokenRuns.AcceptedOnlyForItsClientInTime | src/core/event_bind_tokens.rs:37-39 | an accepted token was minted for the same client less than the maximal lifetime before |
| BindTokenRuns.FailedProbesAreInvisible | src/core/event_bind_tokens.rs:106-117 | erasing any set of rejected consumes from a run changes no later answer |
| EventsEndpoint.SecondsLeft | src/core/dispatch.rs:210-214 | the remaining lifetime in whole seconds, rounded down, zero when expired |
| EventsEndpoint.HandleSubscribeToken | src/core/dispatch.rs:181-226 | refuses a missing or blank client id without touching the ledger; otherwise mints for the trimmed id or reports capacity |
| EventsEndpoint.EventsHandler | src/core/jsonrpc.rs:1367-1417 | opens without consuming anything iff the header is the scheme and the token in memory with whitespace around it, else for a live token of this client, which it uses up |
| EventsEndpoint.VerdictExactly | src/core/jsonrpc.rs:1377-1416 | opens iff the bearer is right or the trimmed query token is live and this client's; credentials are missing iff the bearer is not right and there is no query token |
| EventsEndpoint.BearerOpens | src/core/jsonrpc.rs:1371-1379 | the scheme and the token in memory, with any whitespace around it, opens the stream |
| EventsEndpoint.SuppliedTokenExactly | src/core/jsonrpc.rs:1382-1386 | the query token that counts is the trimmed one, unless blank |
| EventsEndpoint.RequestedClientExactly | src/core/dispatch.rs:182-194 | the client named is the text of `client_id` without the whitespace around it, if any is left |
| EventsEndpoint.ExpiryExactly | src/core/dispatch.rs:195-206 | a new token expires `ttl_secs` seconds after the request, a minute without a natural number there, half an hour at most |
| EventsEndpoint.SubscribeThenOpen | src/core/dispatch.rs:183-194 | mint then open under the same id works iff the id is trimmed |
| EventsEndpoint.PaddedIdIsRefused | src/core/jsonrpc.rs:1381-1416 | a concrete id with a leading space that is minted for and then refused |
| EventsEndpoint.SubscribeThenOpenTrimmed | src/core/jsonrpc.rs:1381-1416 | under the trimmed id it works in time, and once |
| MintRoute.SubscribeThroughTheRoutes | src/core/dispatch.rs:160-226 | whatever is registered, a subscription request runs no handler; it mints for the trimmed id and replies with the token, or leaves the ledger and fails with the error for a missing id or a full store |
| MintRoute.SubscribeIsNoAlias | src/core/legacy_aliases.rs:23-203 | no row of the table rewrites the subscription method |
| MintRoute.ReplyOpensTheStream | src/core/jsonrpc.rs:1367-1417 | the token in that reply opens the stream for the trimmed id in time, and once |
| Auth.ConstantTimeEq | src/core/auth.rs:356-370 | the zero-padded XOR/OR loop is true iff the byte strings are equal |
| Auth.BearerMatches | src/core/auth.rs:352-354 | true iff the supplied bearer is non-empty and equal to the expected one |
| RpcToken.RpcTokenCell.InitRpcToken | src/core/auth.rs:185-219 | no-op when set; trimmed operator token without a file; generated token in file and memory; a failed write leaves the token unset |
| RpcToken.RpcTokenCell.InitRpcTokenWithValue | src/core/auth.rs:239-251 | rejects blank values, never replaces a set token, stores the trimmed value, leaves the file alone |
| RpcToken.OneByOneIsTheClass | src/core/auth.rs:185-251 | the interleaved machine, run one call after another, leaves what the two methods leave |
| RpcToken.TokenIsGood | src/core/auth.rs:185-251 | in every interleaving the token is non-empty and trimmed |
| RpcToken.WriteOnce | src/core/auth.rs:186-193 | in every interleaving a token once set never changes |
| RpcToken.FileAgreesWhenSerial | src/core/auth.rs:185-251 | in runs without overlap a completely written file holds the token in memory |
| RpcToken.OverlapSplitsFileFromMemory | src/core/auth.rs:190-213 | a concrete interleaving after which file and memory differ |
| RpcToken.TwoWritersSplitFileFromMemory | src/core/auth.rs:190-213 | two writers after which the file holds the second token and memory the first |
| RpcToken.TornAfterComplete | src/core/auth.rs:209-213 | a failed write spoils a file that was completed before |
| RpcToken.LastChangeDecides | src/core/auth.rs:209-213 | in any interleaving the last write that takes effect decides the file: its whole token, or what a failed write left |
| RpcToken.WrittenTokenPrevailsExactlyWhen | src/core/auth.rs:209-213 | when the last such write was complete, the file holds its token, and memory ever after holds it iff the cell was free or held it just before that writer set it |
| RpcToken.FileAgreesExactlyWhen | src/core/auth.rs:185-213 | every finished run with a completely written file has such a last writer, so file and memory agree iff that condition holds |
| Schema.CheckTypeExact | src/core/all.rs:684-748 | the checker accepts exactly the values whose every array-reachable part fits: null anywhere, scalars and enum members recognised, the rest opaque |
| Schema.ExpectedExactly | src/core/all.rs:684-748 | what a refusal says was expected, for an array that of its first unfit item |
| Schema.ValidateParamsExact | src/core/all.rs:621-663 | accepts exactly the maps with all required inputs, no unknown key and well-typed values |
| Schema.ValidateParamsReports | src/core/all.rs:625-662 | missing before unknown before mistyped, each the first of its kind, with all its text fields |
| TypeInclusion.IncludedExactly | src/core/all.rs:684-748 | the decision procedure says yes iff every value the one type accepts is accepted by the other |
| Decimal.I64RoundTrip | src/core/cli.rs:501-504 | parsing inverts decimal rendering on the signed range and fails outside it |
| Decimal.U64RoundTrip | src/core/cli.rs:505-508 | parsing inverts decimal rendering on the unsigned range and fails above it |
| Decimal.I64Exactly | src/core/cli.rs:501-504 | a text is read as a signed number iff it is an optional sign and digits, with any leading zeros, that spell it within range |
| Decimal.U64Exactly | src/core/cli.rs:505-508 | the same for unsigned numbers, with at most a plus sign |
| CliParams.ParseFunctionParams | src/core/cli.rs:448-483 | the index loop computes the parse of the whole argument list, error cases included |
| CliParams.ReadsExactly | src/core/cli.rs:494-526 | for every type, a text is read as a value iff it denotes it |
| CliParams.RefusalNamesTheText | src/core/cli.rs:494-526 | a text that denotes nothing is refused with its kind and itself, or the message of the JSON reader |
| CliParams.ParsedExactly | src/core/cli.rs:448-483 | arguments parse to parameters iff they are pairs of known flags and read values whose last values are the parameters and satisfy the schema |
| CliParams.FirstFaultDecides | src/core/cli.rs:455-476 | the first argument outside such pairs decides the error: stray, unknown, without a value, or unreadable |
| CliParams.ParsedValuePassesExactlyWhen | src/core/cli.rs:494-526 | whatever the readers do, parsed values pass their type check iff the type is no array or enum below its options |
| CliParams.KeyOfSpelling | src/core/cli.rs:460 | a flag spelled behind any number of double dashes, with any mix of hyphens and underscores, reads as its name |
| CliParams.PairReadsBack | src/core/cli.rs:456-478 | a written flag and value read back, unless the value itself reads as a known flag |
| CliParams.RoundTripExactlyWhen | src/core/cli.rs:448-526 | writing parameters of any type in any order with repeats and parsing gives the last value of each name, iff no value reads as a known flag |
| CliParams.ListingDenotesMap | src/core/cli.rs:477 | any listing of a map denotes that map |
| CliDrift.CallsSatisfyExactlyWhen | src/core/cli.rs:391-432 | every command line that parses with the declared inputs satisfies the registered ones iff none parses, or what the registered schema requires the declared one requires too and every value a pair can give is accepted |
| CliDrift.CallsSatisfyByTypes | src/core/cli.rs:448-526 | with distinct declared names that is decided from the two input lists |
| CliCall.CallReachesItsHandler | src/core/cli.rs:419-432 | the method is found iff both schemas split the key alike; the call is then the registered controller's, and runs its handler once, on exactly the parsed parameters, iff they satisfy the registered schema |
| CliCall.EveryCallReachesExactlyWhen | src/core/cli.rs:391-432 | every command line that parses reaches its handler iff none parses, or the key is split alike and the registered schema covers the declared one |
| CliCall.DriftIsRefused | src/core/cli.rs:529-532 | a validated registry with a declared input that is not registered: the command line parses and the call is refused |
| Registry.RequiredDuplicates | src/core/all.rs:816-822 | finds exactly the names required twice |
| Registry.CheckDeclared | src/core/all.rs:794-829 | reports exactly the problems among the declared schemas, in order and with repetitions |
| Registry.CheckRegistered | src/core/all.rs:831-844 | reports exactly the duplicates among the registered controllers, in order and with repetitions |
| Registry.CheckAgreement | src/core/all.rs:846-855 | reports exactly the keys present on one side only, in key order |
| Registry.ReportExact | src/core/all.rs:782-862 | the report holds every problem present and no other, and is empty iff the registry is well-formed |
| Registry.ValidateRegistry | src/core/all.rs:782-862 | Ok iff the registry is well-formed; otherwise the joined text of the report |
| Registry.MessageHolds | src/core/all.rs:857-861 | in the text of a report each problem's text stands between those before it and those after it |
| Registry.AddedInOrder | src/core/all.rs:794-844 | at each controller a repeated key comes before a repeated RPC name, blank parts and repeated inputs, those by name |
| Registry.AgreementInOrder | src/core/all.rs:846-855 | keys without a handler come before keys without a schema, each in key order |
| Registry.TextTellsKind | src/core/all.rs:796-855 | the kind of a problem can be read off its text |
| Registry.WellFormedIffNoProblem | src/core/all.rs:774-781 | the declarative well-formedness holds iff no problem is present |
| Lookup.SchemaIsTheHandlers | src/core/all.rs:608-614 | the schema found for a name is that of the controller whose handler runs, or both are absent |
| Lookup.FirstNamedExact | src/core/all.rs:757-772 | a lookup finds the first controller with the name and fails only if there is none |
| Lookup.HandlerIsReached | src/core/all.rs:757-772 | a lookup stops at one position of the public list followed by the internal one, or the name is in neither |
| Lookup.InternalReachedExactlyWhen | src/core/all.rs:761-770 | the lookup stops at an internal controller iff no public one and no earlier internal one has its name |
| Lookup.JoinIsAmbiguous | src/core/all.rs:453-455 | two different controllers with one RPC name |
| Lookup.DeclaredAndRegisteredPairUp | src/core/all.rs:774-781 | on a valid registry keys pair the declared and registered lists one to one |
| Lookup.PartsAndNameAgree | src/core/all.rs:597-614 | on a valid registry, parts to name to lookup returns the same controller and schema |
| Lookup.DeclaredPartsAreFoundExactlyWhen | src/core/all.rs:597-602 | a declared controller is found by its parts, under its own RPC name, iff the registered one splits the key alike, and else nothing is found |
| Lookup.DotFreePartsAreFound | src/core/all.rs:597-602 | with dot-free namespaces every declared controller is found |
| Lookup.DottedNamespaceCanBeLost | src/core/all.rs:795-855 | a validated registry whose declared controller is not found |
| LegacyAliases.TableHasNoChain | src/core/legacy_aliases.rs:23-203 | no canonical name of the table is a legacy name |
| LegacyAliases.ResolveInFindsRow | src/core/legacy_aliases.rs:221-228 | the scan returns the canonical name of a row for this alias, and any other name unchanged |
| LegacyAliases.CanonicalIsNotAlias | src/core/legacy_aliases.rs:221-228 | in a table without chains a resolved name is never an alias; a name changes iff it is one |
| LegacyAliases.ResolveLegacyIsIdempotent | src/core/legacy_aliases.rs:210-228 | resolving twice is resolving once, for every string |
| Routing.InvokeRuns | src/core/jsonrpc.rs:356-377 | a registered name runs its own controller; the fallback after a found schema is never taken |
| Routing.RegisteredCall | src/core/jsonrpc.rs:356-394 | a registered call with null is the call with no parameters; an object reaches the handler once and unchanged iff it satisfies the schema; any other shape is refused by its kind; refused calls change nothing |
| Routing.RefusalText | src/core/all.rs:621-663 | the text of a refused call names the first missing input, else the least unknown key, else the first mistyped input with both types |
| Routing.CoreAnswers | src/core/dispatch.rs:157-169 | ping and version are answered by the core, whatever is registered and whatever the parameters |
| Routing.LegacyTierAnswers | src/core/dispatch.rs:75-81 | what neither the core nor a controller answers has the legacy dispatcher's world and result, under the resolved name |
| Routing.SubscribeIsMinted | src/core/dispatch.rs:153-169 | whatever is registered, the subscription method reaches the minting body and no handler |
| Routing.FastPathAgrees | src/core/jsonrpc.rs:361-376 | outside registered aliases the fast path is the dispatcher, in result, effect and calls |
| Routing.FastPathRefinesExactlyWhen | src/core/dispatch.rs:29-106 | both routes agree on all worlds and parameters iff the method is not both alias and registered |
| Routing.AtMostOneHandlerRuns | src/core/dispatch.rs:228-241 | at most one handler runs, of the name given or its canonical form, on parameters satisfying its schema |
| Routing.AliasMeansCanonical | src/core/dispatch.rs:40-57 | an unregistered alias and its canonical name have the same outcome |
| Routing.UnknownMethodRoundTrip | src/core/dispatch.rs:105-148 | an unknown method fails without effect, and its error text gives the resolved name back |
| Routing.ClassedAsValidationExactly | src/core/jsonrpc.rs:344-348 | of the pre-handler errors exactly missing, unknown and wrong-shape parameters are classed as validation |
| Routing.RefusedCallsAreClassed | src/core/jsonrpc.rs:316-348 | a refused call changes nothing and is classed so unless mistyped values are its only fault |
| Utf8.DecodeEncode | src/api/rest.rs:1061 | decoding inverts encoding for every string |
| Utf8.EncodeDecode | src/api/rest.rs:1061 | only shortest-form encodings of scalar values decode |
| Utf8.Example | src/api/rest.rs:1061 | an example of the standard |
| Base64.DecodeEncode | src/api/rest.rs:1091-1108 | for every engine and all bytes, decoding inverts encoding |
| Base64.EncodeDecode | src/api/rest.rs:1091-1108 | only the one canonical encoding of its result decodes |
| Base64.EnginesNeverDisagree | src/api/rest.rs:1066-1074 | a text two engines accept decodes to the same bytes |
| Base64.Vectors | src/api/rest.rs:1091-1108 | test vectors of the standard, and the two symbols in which the alphabets differ |
| Handoff.KeyBytesExact | src/api/rest.rs:1083-1114 | a key string means a key iff that has 32 bytes and the trimmed string is its bytes without base-64 punctuation or one of its four encodings |
| Handoff.KeyRoundTrip | src/api/rest.rs:1064-1076 | each of the four encodings of a 32-byte key, with whitespace around, gives the key back |
| Handoff.RawKeyMeansItself | src/api/rest.rs:1086-1089 | a raw key with whitespace around it means its own bytes |
| Handoff.OtherTextsAreNoRawKeys | src/api/rest.rs:1086-1089 | a text of another length, or with base-64 punctuation, never means its own bytes |
| Handoff.DecryptHandoffBlob | src/api/rest.rs:1031-1062 | computes the opening of the blob, error cases included |
| Handoff.OpenedExactly | src/api/rest.rs:1030-1062 | a blob opens to a text iff it packs parts that the cipher opens to its bytes under the key meant |
| Handoff.HandoffRoundTrip | src/api/rest.rs:1030-1062 | sealing, packing as vector, tag, ciphertext and opening gives every text back |
| Handoff.RawKeyHandoffRoundTrip | src/api/rest.rs:1030-1062 | the same under a raw key |
| Handoff.BadKeyExactly | src/api/rest.rs:1032 | a string that means no key is refused first, any other leaves the result to the blob |
| Handoff.BadBase64Exactly | src/api/rest.rs:1033-1035 | a blob is refused as base 64 iff it is no standard encoding |
| Handoff.EncodedFailsExactly | src/api/rest.rs:1036-1061 | an encoded blob fails iff it is too short, the cipher refuses, or the plain text is not UTF-8 |
| JsLiteral.LiteralRoundTrip | scripts/apply-i18n-translations.ts:51-72 | reading a printed literal by the ECMA-262 rules gives the string back and stops at its closing quote |
| JsLiteral.LiteralHasNoLineBreak | scripts/apply-i18n-translations.ts:52-54 | a printed literal holds no line terminator |
| JsLiteral.EscapeUnitExactly | scripts/apply-i18n-translations.ts:55-70 | which units stand for themselves, which have an escape of one letter and which are written as four digits |
| Surrogates.StoredOfLiteral | scripts/apply-i18n-translations.ts:107 | storing a literal in a UTF-8 file stores the string inside it |
| LocaleFile.WriteLocale | scripts/apply-i18n-translations.ts:83-108 | pushing and joining the lines yields header, one line per valued key in order, trailer |
| LocaleFile.LocaleRoundTrip | scripts/apply-i18n-translations.ts:83-108 | splitting a written file recovers exactly the key/value list in order if the title is on one line, and nothing otherwise |
| LocaleFile.StoredLocaleRoundTrip | scripts/apply-i18n-translations.ts:106-107 | from disk the same list comes back with unpaired surrogates replaced, under the same condition |
| LocaleFile.FrameIsValid | scripts/apply-i18n-translations.ts:90-105 | the fixed texts of the script meet what the layout theorems need |
| ApplyLocale.MergeAll | scripts/apply-i18n-translations.ts:125-137 | exactly the given keys, each with the supplied value, else the existing one, else the English one; counts the keys whose supplied value differs from an existing one or has none |
| ApplyLocale.LocaleDir.Apply | scripts/apply-i18n-translations.ts:110-140 | refuses English; rewrites only this locale's file with the merged values and reports the counts |
| ApplyLocale.AppliedMessages | scripts/apply-i18n-translations.ts:110-140 | loading the rewritten file gives exactly the English keys, each with the stored supplied value, else that of the old file, else the English one |
| ApplyLocale.AppliedTitle | scripts/apply-i18n-translations.ts:88-91 | the rewritten file starts with the title of the table, or else the name of the locale |
| ApplyLocale.ApplyAgain | scripts/apply-i18n-translations.ts:110-140 | under a one-line title a second application leaves the same file; it reports 0 updated iff the supplied values survive a UTF-8 file |
| ApplyLocale.NothingReportedExactlyWhen | scripts/apply-i18n-translations.ts:110-140 | for every loader it reports 0 updated iff the supplied values survive and, if there are any, the title is on one line |
| ApplyLocale.SurrogateIsReportedAgain | scripts/apply-i18n-translations.ts:110-140 | a concrete value that is reported as an update again |
| HtmlEscape.EscapeIsOnePass | src/core/jsonrpc.rs:466-472 | the five replacements equal one per-character mapping |
| HtmlEscape.EscapedIsSafe | src/core/jsonrpc.rs:465-472 | no markup character remains and every ampersand starts one of the five entities |
| HtmlEscape.UnescapeEscape | src/core/jsonrpc.rs:465-472 | resolving the entities gives the message back |
| RpcLog.RedactValue | src/core/rpc_log.rs:52-68 | the recursive rebuild computes the redaction of the whole tree |
| RpcLog.CleanPathsAreKept | src/core/rpc_log.rs:48-68 | nothing on a path without a sensitive key changes |
| RpcLog.SecretsShowTheMarker | src/core/rpc_log.rs:57-58 | a sensitive key shows the marker and nothing below it |
| RpcLog.NineNamesAreHidden | src/core/rpc_log.rs:71-84 | an object shows the marker for each of the nine names and for no other |
| RpcLog.RedactionHidesExactlySecrets | src/core/rpc_log.rs:48-84 | two values redact alike iff they agree everywhere except below sensitive keys |
| RpcLog.RedactionIsIdempotent | src/core/rpc_log.rs:52-68 | redacting again changes nothing |
| MessagePath.EncodedIsSegment | src/api/rest.rs:883-884 | percent encoding is invertible and yields one non-empty segment |
| MessagePath.EncodedByteExactly | src/api/rest.rs:883-884 | letters, digits and four marks stand for themselves, any other byte is a percent sign and two upper-case digits |
| MessagePath.SegmentsSplit | src/api/rest.rs:83 | a slash separates wherever it stands, and adds nothing at the ends or next to another |
| MessagePath.ParsesExactly | src/api/rest.rs:82-95 | a path is recognised iff some window matches, and the first one decides |
| MessagePath.PaddedChannel | src/api/rest.rs:880-888 | whitespace and slashes around a channel make no difference to the path, and without a channel or an id there is none |
| MessagePath.TrimSlashesExactly | src/api/rest.rs:880 | trimming slashes undoes padding with slashes and nothing else |
| MessagePath.BuiltPathIsRecognised | src/api/rest.rs:880-889 | a built edit or delete path, joined to the base URL (lines 507-509) and parsed again (line 605), is recognised iff neither the channel nor the id is a dot segment, and then gives both back |
| MessagePath.JoinedUndoes | src/api/rest.rs:507-509 | in a join a double dot undoes the plain segment before it, and has nothing to undo at the start |
| MessagePath.PrefixedPathExactlyWhen | src/api/rest.rs:77-81 | under a base path this holds for every message iff the base path does not match first |
| MessagePath.BasePathCanMislead | src/api/rest.rs:77-95 | a concrete base path that hides the message behind it |
| KwsDiagnostics.SameExactly | scripts/voice/kws_diagnostics.py:22-23 | two tokens match iff they differ only in how they write a space |
| KwsDiagnostics.PrefixMatches | scripts/voice/kws_diagnostics.py:13-19 | the length of the longest common canonical prefix |
| KwsDiagnostics.BuildDiagnostics | scripts/voice/kws_diagnostics.py:26-59 | reports the one variant with the longest prefix, then fewest tokens, then earliest; empty iff no variant begins with the first observed token |
| KwsDiagnostics.RankIsBetter | scripts/voice/kws_diagnostics.py:43-45 | the rank order is more matched tokens, then fewer tokens |
| KwsDiagnostics.ReportedProgress | scripts/voice/kws_diagnostics.py:43-59 | a report names the variant and its counts; progress and confidence are the matched share, in (0, 1], 1 iff the whole variant is a prefix |

## Left out

- LocaleFile.LocaleRoundTrip: the table of titles is a parameter.
- JsLiteral.LiteralRoundTrip: the reader does not know the braced form of unicode escapes, which the printer never emits.
- ApplyLocale.ApplyAgain: requires English keys without unpaired surrogates, as any text file gives them, and a one-line title, since what the script engine makes of a broken title line is not modelled; nor is the key `__proto__`, since assigning it on a plain script object does not create a property.
- KwsDiagnostics.BuildDiagnostics: progress is an exact fraction; floating-point rounding is not modelled.
- CliDrift.CallsSatisfyByTypes: requires distinct declared names, which the validator checks for required inputs only; without that `CliDrift.CallsSatisfyExactlyWhen` holds, whose condition speaks of the values a single pair can give.
- CliParams.ParseFunctionParams: float and JSON texts are read by arbitrary readers, and the wording of reader errors is not modelled.
- Controller handlers and the tier-3 dispatcher are arbitrary functions; their own behaviour is not modelled.
- Lock poisoning, file permissions, randomness and timing side channels are not modelled; a new random token is an input that differs from earlier ones.
- HTTP middleware, event and web-socket streams, backend requests, URL parsing other than dot segments, structured error envelopes and the error reporter are not modelled.
- Help output, the `run` and `call` subcommands, logging, key-word worker protocol and the user interface would add only wrappers.
