# Raziel secret server — a Dafny model of its access-control core

Raziel is a small Go web application that stores encrypted secrets and hands
each one out to "consumers" (machines holding a consumer URL) when a set of
per-consumer *restrictions* allows it. Administrators log in with a session
cookie and manage secrets, consumers, restrictions and users through HTML
forms.

This project models, as pure Dafny functions over in-memory tables:

- **delivery** (`Delivery`): resolving consumer and secret, evaluating every
  enabled restriction, logging, and decrypting (`deliverSecretAction`);
- **restriction and authentication handlers**: one module per handler file
  (`DateRestriction`, `ThrottleRestriction`, `HitLimitRestriction`,
  `FileRestriction`, `OriginIpRestriction`, `TimeRestriction`,
  `ApiKeyRestriction`, `TlsCertRestriction`, `ApiKeyAuthentication`,
  `TlsCertAuthentication`) over one tagged union of contexts (`Contexts`),
  dispatched by `Handlers`, registered by `Registry`;
- **restriction and authentication records** (`Restrictions`,
  `Authentications`): lookup, save-or-delete, handler dispatch, unpacking;
- **the session table** (`Sessions`) as a map from id to session, with the
  login and CSRF gates, and the **login/logout** and **profile** controllers
  (`Login`, `Profile`);
- **ciphertext framing** (`Crypto`): salt, time-stamped nonce and secretbox,
  with PBKDF2 (section 5.2 of RFC 8018) and NaCl secretbox as parameters
  that obey `Open(Seal(m)) == m` and a 16-byte overhead;
- **the admin forms** for secrets, users and consumers (`Secrets`, `Users`,
  `Consumers`) and their validation ladders;
- **the string builders**: `validateSafeString` and the list helpers
  (`Utils`), the audit- and access-log WHERE/LIMIT builders (`AuditLog`,
  `AccessLog`), the TLS cipher-suite table (`Config`) and the Martini return
  handler (`ReturnHandler`).

Go facilities the core leans on are modelled where their behaviour matters:
`strings.TrimSpace` with Go's exact `unicode.IsSpace` set, `strings.ToLower`
on the runes that matter for validation, `strconv.Atoi`/`Itoa` with the
int64 range and the text of Atoi's errors (the input quoted as
`strconv.Quote` writes it; a syntax or range error in the order Go's scan
meets them), UTF-8 byte length, `strings.Join` (`Strings`); form values and
headers (`Http`). A Go panic is the `Panicked` case of `Base.Outcome`; an
error return is `Base.Result`. Database tables are sequences of rows in
insertion order, with the next auto-increment id.

## Model

| member | source | states |
|---|---|---|
| Utils.ValidateSafeString | utils.go:55-71 | succeeds exactly when the lower-cased input is non-empty, uses only a-z, 0-9, `-` and `_`, starts with a letter and ends with a letter or digit; the result is that lower-cased string; an empty input gives "The <name> cannot be empty." |
| Utils.ValidateSafeStringIdempotent | utils.go:55-71 | validating a validated value again returns it unchanged, under any field name |
| Utils.ValidateSafeStringRejectsForeign | utils.go:62-64 | any rune outside the allowed class gives the "may only contain" error |
| Utils.IsInIntList | utils.go:101-109 | the loop answers true exactly when the needle occurs in the list |
| Utils.IsInStringList | utils.go:111-119 | the loop answers true exactly when the needle occurs in the list |
| Utils.GetStringList | utils.go:121-128 | the query values under the name, or the empty list when the name is absent |
| Utils.ParseIntsOfItoa | utils.go:130-142 | parsing the decimals of int64 values gives the values back, in order |
| Utils.ParseIntsSkipsGarbage | utils.go:134-139 | an entry that does not parse is dropped and the rest is unaffected |
| Utils.ParseInts | utils.go:134-139 | keeps at most one value per entry, each within the int64 range `strconv.Atoi` accepts |
| Utils.GetIntList | utils.go:130-142 | every value read from the query list lies within the int64 range |
| Utils.GetIntListOfItoa | utils.go:130-142 | a query list holding decimals of int64 values reads back as exactly those values |
| Utils.ConcatIntList | utils.go:154-162 | the joined list is empty exactly when there are no values |
| Utils.ConcatIntListSplits | utils.go:154-162 | splitting the result at its commas gives each decimal, and parsing them gives the values back |
| Utils.ConcatStringList | utils.go:164-172 | the joined list is empty exactly when there are no values |
| Utils.ConcatStringListSplits | utils.go:164-172 | for comma-free items, splitting the result and removing the quotes gives each item back |
| Crypto.DeriveKeyWithSalt | crypto.go:101-107 | the key is PBKDF2 of password and salt with 8192 iterations and 32 bytes, a deterministic function of both |
| Crypto.CreateNonce | crypto.go:109-121 | the nonce fails exactly when the random read fails; its first 8 bytes read back big-endian as the time modulo 2^64, its last 16 are the random bytes |
| Crypto.PutUint64BERoundTrip | crypto.go:113 | reading the written 8 bytes big-endian gives the int64 time as uint64, and the time itself when it is non-negative |
| Crypto.PutUint64BE | crypto.go:113 | writes exactly the 8 bytes of the nonce's time prefix |
| Crypto.Encrypt | crypto.go:20-41 | a failed salt read and a failed nonce read give their own error messages; a success is the salt, then the nonce (time stamp, random tail), then the box |
| Crypto.Decrypt | crypto.go:43-69 | an input shorter than 49 bytes gives the "too short" error with both lengths; otherwise the salt is bytes 0-7, the nonce bytes 8-31, the box the rest, and a box that does not open gives the "wrong password" error and no plaintext |
| Crypto.DecryptEncrypt | crypto.go:20-69 | with lawful primitives, decrypting what was encrypted under the same password returns the non-empty plaintext, and the ciphertext is 48 bytes longer |
| Crypto.EmptyPlaintextIsRejected | crypto.go:20-48 | an empty plaintext encrypts to 48 bytes, which decryption rejects as too short |
| Crypto.CompareHashed | crypto.go:71-82 | a lawful bcrypt verifies the hash it made of a password against that password |
| AccessLog.UnfilteredIsOne | access_log.go:45-56 | with no positive id the WHERE clause is exactly "1", and `Find` returns every row, newest first |
| AccessLog.Select | access_log.go:45-56 | a row is selected exactly when it matches every positive id filter |
| AccessLog.SelectAll | access_log.go:45-56 | without positive ids nothing is filtered out |
| AccessLog.CountIsFindLength | access_log.go:27-43 | `Count` is the length of `Find`, and both select by the same filter |
| AccessLog.FindNewestFirst | access_log.go:31 | `Find` lists rows by descending id |
| AccessLog.SelectKeepsOrder | access_log.go:31 | filtering keeps the rows' id order |
| AccessLog.ReadEqualsPresent | access_log.go:48-54 | an `AND column = id` condition reads back as the id and what follows |
| AccessLog.ReadEqualsAbsent | access_log.go:48-54 | a condition on another column is not read as this column's |
| AccessLog.ReadWhereOf | access_log.go:45-56 | the clause reads back as the secret id and then the consumer id, a non-positive id as no filter |
| AccessLog.WhereStatementReadsBack | access_log.go:45-56 | parsing the built clause gives back both filters, secret first, each non-positive id read as none |
| AccessLog.WhereStatementInjective | access_log.go:45-56 | two clauses are equal exactly when they filter on the same ids |
| AuditLog.IdOrNull | audit_log.go:225-240 | an id column holds the id exactly when it is positive, SQL NULL otherwise |
| AuditLog.LogAction | audit_log.go:224-261 | each of secret, consumer and user is stored exactly when its id is positive; creator, action and context are kept; the user agent is NULL exactly when the header is empty |
| AuditLog.Append | audit_log.go:253-256 | inserting keeps the old rows, gives each record the next auto-increment id in turn, and keeps ids increasing |
| AuditLog.ValidActions | audit_log.go:282-290 | the kept actions are exactly those matching `^[a-z0-9_-]+$`; when none matches, nothing is kept |
| AuditLog.Select | audit_log.go:131-137 | a row is returned exactly when it lies in every given filter list, NULL matching no list |
| AuditLog.Window | audit_log.go:320-331 | a non-positive limit means the first 10 rows; otherwise `limit` rows after `offset` rows, a non-positive offset meaning none |
| AuditLog.Slice | audit_log.go:320-331 | the page is the run of rows after the skipped ones, at most the limit long, and exactly that long when enough rows remain |
| AuditLog.Wrap64 | audit_log.go:391 | the product is an int64, and equal to the mathematical one when that fits |
| AuditLog.Page | audit_log.go:381-388 | the page number is never negative: a value that does not parse or is negative counts as page 0 |
| AuditLog.NoFilterIsOne | audit_log.go:263-264 | with no filter list the WHERE clause is exactly "1" |
| AuditLog.InvalidActionsAreIgnored | audit_log.go:282-295 | a list of actions none of which matches the pattern changes neither the clause nor the selection |
| AuditLog.FindWithinCount | audit_log.go:131-182 | every row on a page matches the filter, and a page is never longer than the count |
| AuditLog.FindNewestFirst | audit_log.go:136 | a page lists rows by strictly decreasing id |
| AuditLog.SelectKeepsOrder | audit_log.go:136 | filtering keeps the rows' increasing id order |
| AuditLog.FindBySecretsFilters | audit_log.go:106-109 | every row `FindBySecrets` returns belongs to one of the given secrets, and no more than `CountBySecrets` |
| AuditLog.PageOffsetExact | audit_log.go:390-394 | a page up to int64 / 25 skips exactly 25 rows per page |
| AuditLog.PageOffsetWraps | audit_log.go:390-394 | page 368934881474191033 wraps to a negative offset, and the limit clause then shows the first 25 rows |
| AuditLog.LimitFallback | audit_log.go:322-324 | a limit of zero or below falls back to "LIMIT 10", the first 10 rows, whatever the offset |
| AuditLog.ReadClause | audit_log.go:263-298 | reading no clause leaves the input untouched |
| AuditLog.ReadClauses | audit_log.go:263-298 | a successful read yields one entry per column |
| AuditLog.HeadTag | audit_log.go:263-298 | a clause starts with the first two letters of its column |
| AuditLog.ReadPart | audit_log.go:266-294 | a written clause reads back as its list, an absent one as nothing, with the rest untouched |
| AuditLog.TagOfRender | audit_log.go:263-298 | written clauses start with nothing or with the tag of one of their columns |
| AuditLog.ReadRender | audit_log.go:263-298 | reading the written clauses back gives each given list and nothing for each absent one |
| AuditLog.ColumnsHaveDistinctTags | audit_log.go:266-293 | the five columns are told apart by their first two letters |
| AuditLog.NoParenInInts | audit_log.go:300-308 | a list of decimals never closes the clause early |
| AuditLog.NoParenInActions | audit_log.go:310-318 | a list of valid actions never closes the clause early and holds no commas |
| AuditLog.ReadIntsOf | audit_log.go:300-308 | a written list of int64 ids reads back as those ids |
| AuditLog.ParseRendered | audit_log.go:263-298 | reading "1" followed by the five written clauses gives back each given list |
| AuditLog.WhereStatementReadsBack | audit_log.go:263-298 | the WHERE clause determines the filter: reading it back gives every id list unchanged and the actions that match the pattern |
| AuditLog.ReadActionsOf | audit_log.go:282-294 | the quoted list of valid actions reads back as those actions |
| Restrictions.Lookup | restriction.go:27-43 | a found row has the asked key and comes from the table; nothing is found only when no row has that key |
| Restrictions.FindRestriction | restriction.go:27-43 | consumer id 0 is never found; a found row has the asked key, and no context unless it was asked for |
| Restrictions.FindRestrictionsByConsumer | restriction.go:45-60 | exactly the consumer's rows, each with or without its context as asked |
| Restrictions.ByConsumerHasDistinctTypes | restriction.go:45-60 | with (consumer, type) as the key, one consumer's restrictions never share a type |
| Restrictions.GetHandler | restriction.go:95-102 | the registered handler of the type, or a panic naming the unknown type exactly when it is not registered |
| Restrictions.UnpackContext | restriction.go:104-112 | the stored context, or the handler's null context when none is stored; a panic for an unknown type |
| Restrictions.IsEmpty | restriction.go:114-123 | an enabled restriction is never empty; a disabled one needs its handler |
| Restrictions.Check | restriction.go:125-130 | the check runs exactly for a registered type and otherwise panics with the unknown-type message |
| Restrictions.Remove | restriction.go:86-93 | exactly the rows with another key remain, and keys stay unique |
| Restrictions.Save | restriction.go:62-84 | keys stay unique and every row with another key is untouched; an unknown type panics before anything is written, and a row with a context panics only then |
| Restrictions.LookupFinds | restriction.go:27-43 | under unique keys, looking up a stored row's key finds that row |
| Restrictions.SaveThenFind | restriction.go:62-84 | after a save, its key finds nothing if the restriction was empty and the saved row otherwise; other keys find what they found before |
| Restrictions.EnabledIsNeverEmpty | restriction.go:62-84 | an enabled restriction is never empty, so saving it writes its row |
| Restrictions.DisabledEmptyIffNull | restriction.go:114-123 | a disabled restriction is empty exactly when its handler calls its unpacked context null |
| Restrictions.UnknownTypePanics | restriction.go:95-130 | an unregistered type panics in `Check`, `UnpackContext` and, when disabled, `IsEmpty`; it is never read as allowed |
| Restrictions.CheckIsHandlerCheck | restriction.go:125-130 | with a registered type, `Check` is the handler's `CheckAccess` on the stored context, or on the null context when none is stored |
| Authentications.Lookup | authentication.go:24-40 | a found row has the consumer id and comes from the table; nothing is found only when no row has that id |
| Authentications.FindAuthenticationByConsumer | authentication.go:24-40 | consumer id 0 is never found; a found row is the consumer's, without its context unless asked for |
| Authentications.SaveColumns | authentication.go:42-63 | without a context only consumer and type are written; with one, the context is written as well |
| Authentications.RemoveConsumer | authentication.go:65-72 | exactly the rows of other consumers remain, and keys stay unique |
| Authentications.Save | authentication.go:42-63 | REPLACE leaves one row for the consumer, with the written columns, and every other consumer's row untouched |
| Authentications.Delete | authentication.go:65-72 | exactly the rows of other consumers remain |
| Authentications.GetHandler | authentication.go:74-81 | the registered handler, or a panic naming the unknown type exactly when it is not registered |
| Authentications.UnpackContext | authentication.go:83-92 | the stored context, or the handler's null context; an unknown type dereferences the nil handler and panics |
| Authentications.Check | authentication.go:94-99 | the check runs exactly for a registered type and otherwise panics with the unknown-type message |
| Authentications.LookupFinds | authentication.go:24-40 | under unique consumer ids, looking up a stored row's consumer finds that row |
| Authentications.SaveThenFind | authentication.go:24-63 | after a save, finding the consumer's authentication gives the saved one, without its context when not asked for |
| Authentications.UnknownTypePanics | authentication.go:74-99 | an unregistered type panics in `GetHandler` and in `Check` |
| Authentications.CheckIsHandlerCheck | authentication.go:94-99 | with a registered type, `Check` is the handler's `CheckAccess` on the stored or null context |
| DateRestriction.Week | restriction_date.go:120-130 | seven days, Monday to Sunday, numbered as Go's `time.Weekday` (Sunday is 0) |
| DateRestriction.CheckAccess | restriction_date.go:55-69 | a grant carries no diagnostic |
| DateRestriction.WeekCoversEveryDay | restriction_date.go:120-130 | every weekday appears in the week exactly once, with its name and flag |
| DateRestriction.NewDateContextIndexing | restriction_date.go:85-130 | the flags passed Monday-first come back Monday-first from the week, under the English day names, although they are stored Sunday-first |
| DateRestriction.IsNullContextIffNoDay | restriction_date.go:23-36 | a context is null exactly when it is a date context with no day enabled |
| DateRestriction.NullContextIsNull | restriction_date.go:19-21 | the null context enables no day and is null |
| DateRestriction.ReadWeekSets | restriction_date.go:41-46 | reading the form sets a listed day to whether its field is "1" and leaves any other day alone |
| DateRestriction.SerializeFormReadsEachDay | restriction_date.go:38-49 | the form always succeeds; each day is enabled exactly when `restriction_date_<n>` is "1"; neither the enabled flag nor the old context matters |
| DateRestriction.CheckAccessIffDayEnabled | restriction_date.go:55-69 | access is granted exactly on an enabled day; a foreign context is denied as invalid |
| ThrottleRestriction.SerializeForm | restriction_throttle.go:41-58 | accepted exactly when the count parses as a non-negative int and the unit parses within second..day, giving exactly that (count, unit); otherwise, checked in that order, "Malformed number given for the request limit.", "Malformed throttle unit given." or "Invalid throttle unit given." |
| ThrottleRestriction.Units | restriction_throttle.go:72-79 | four options, numbered 0 to 3 |
| ThrottleRestriction.UnitsSelectsOwnUnit | restriction_throttle.go:72-79 | an option is selected exactly when it is the context's unit; one is selected exactly when the unit is valid |
| ThrottleRestriction.SerializeFormAccepts | restriction_throttle.go:41-58 | any non-negative int64 count and valid unit give exactly that context |
| ThrottleRestriction.SerializeFormReadsAnySpelling | restriction_throttle.go:42-53 | every spelling `strconv.Atoi` accepts is read, such as "+007" and "01" |
| ThrottleRestriction.SerializeFormRejectsMalformedUnit | restriction_throttle.go:47-50 | with a valid count, a unit that is not a decimal gives "Malformed throttle unit given." |
| ThrottleRestriction.SerializeFormRejectsUnit | restriction_throttle.go:52-55 | a unit outside second..day gives "Invalid throttle unit given." |
| ThrottleRestriction.SerializeFormRejectsNegative | restriction_throttle.go:42-45 | a negative count gives the malformed-number error |
| ThrottleRestriction.NullContextIsNull | restriction_throttle.go:32-39 | the null context is null, and a context allowing hits is not |
| HitLimitRestriction.SerializeForm | restriction_limit.go:28-50 | the form is accepted exactly when the trimmed field parses and the limit is positive or the restriction disabled; an enabled limit of zero or less gets "The request limit must be greater than zero."; the new limit is the parsed one, and the remaining hits are carried over unclamped from a non-null old hit-limit context, else start at the limit |
| HitLimitRestriction.SerializeFormPassesParseError | restriction_limit.go:29-32 | a limit that does not parse is rejected with exactly the error `strconv.Atoi` returns for the trimmed field, which is its syntax or its range error |
| HitLimitRestriction.SerializeFormReportsOverflowFirst | restriction_limit.go:29-32 | twenty nines followed by a letter are refused with the range error, because the digits overflow before the scan reaches the letter |
| Strings.Atoi | restriction_limit.go:29-32 | succeeds exactly for an optional sign and digits whose value fits int64, with that value; such digits outside int64 give the range error and no digits give the syntax error; every error quotes the input |
| Strings.AtoiSyntaxAt | restriction_limit.go:29-32 | a non-digit reached while the digits before it fit uint64 gives the syntax error, whatever follows |
| Strings.AtoiRangeAt | restriction_limit.go:29-32 | leading digits beyond uint64 give the range error, even when a non-digit follows |
| Strings.AtoiEscapesQuote | restriction_limit.go:29-32 | a double quote in the input appears backslash-escaped in the error |
| HitLimitRestriction.SerializeFormLimit | restriction_limit.go:28-50 | for every field the trimmed parse reads as n: an enabled restriction with n of zero or less is refused; otherwise a non-null old context keeps its remaining hits and anything else starts with the full limit n |
| HitLimitRestriction.SerializeFormReadsAnySpelling | restriction_limit.go:29 | the field is trimmed before it is parsed, and a sign and leading zeros are accepted: " +007\t" is a limit of seven |
| HitLimitRestriction.SerializeFormReadsItoa | restriction_limit.go:29 | the decimal of any int64 limit is read back as that limit |
| HitLimitRestriction.NullContextIsNull | restriction_limit.go:19-26 | the null context is null and has no hits left |
| FileRestriction.SerializeForm | restriction_file.go:28-36 | the stored filename is the trimmed form value; the form fails exactly when the restriction is enabled and that value is blank |
| FileRestriction.CheckAccess | restriction_file.go:42-65 | a grant carries no diagnostic and a denial always does |
| FileRestriction.CheckAccessIffReadableNonEmpty | restriction_file.go:42-65 | access is granted exactly when a filename is configured and that file reads without error and is non-empty |
| FileRestriction.CheckAccessDiagnostics | restriction_file.go:48-62 | no filename, a missing file and an empty file each give their own message, the missing one carrying Go's `open` error text |
| FileRestriction.SerializeFormNullness | restriction_file.go:23-36 | an enabled restriction never stores the null context; a disabled one is always accepted |
| OriginIpRestriction.SerializeForm | restriction_originip.go:25-33 | an accepted context holds the trimmed ruleset; a refusal says "No rules given." |
| OriginIpRestriction.SerializeFormErrIff | restriction_originip.go:25-33 | the form is refused exactly when the restriction is enabled and the ruleset is all white space |
| OriginIpRestriction.SerializeFormTrims | restriction_originip.go:26 | a stored ruleset neither starts nor ends with white space |
| TimeRestriction.SerializeForm | restriction_time.go:25-33 | an accepted context holds the trimmed ruleset; a refusal says "No rules given." |
| TimeRestriction.SerializeFormErrIff | restriction_time.go:25-33 | the form is refused exactly when the restriction is enabled and the ruleset is all white space |
| TimeRestriction.DisabledBlankIsNull | restriction_time.go:16-33 | a disabled restriction with a blank ruleset stores the null context |
| ApiKeyRestriction.SerializeKey | restriction_apikey.go:31-43 | a blank key keeps the old context, or is refused when there is none |
| ApiKeyRestriction.SerializeForm | restriction_apikey.go:31-43 | a non-blank key is stored only as the bcrypt hash of its trimmed value |
| ApiKeyRestriction.ProvidedKey | restriction_apikey.go:55-62 | the client's key is the `raziel_key` form value, or the `X-Raziel-Key` header when that is empty |
| ApiKeyRestriction.CheckAccess | restriction_apikey.go:49-69 | a grant carries no diagnostic |
| ApiKeyRestriction.CheckAccessIffKeyVerifies | restriction_apikey.go:49-69 | access is granted exactly when the context is an API-key context and a non-empty presented key verifies against its hash; no key at all gives "No API key provided." |
| ApiKeyRestriction.FormKeyTakesPrecedence | restriction_apikey.go:55-66 | a wrong form key is refused even when the header holds the right one |
| ApiKeyRestriction.ConfiguredKeyOpens | restriction_apikey.go:31-69 | with a lawful bcrypt, a client presenting the key an administrator configured is granted access |
| ApiKeyRestriction.BlankKeepsOld | restriction_apikey.go:34-40 | a blank key keeps the old context, or gives "No API key given." when there is none |
| TlsCertRestriction.SerializePlaceholder | restriction_tlscert.go:31-43 | a blank `auth_api_key_key` keeps the old context, or is refused when there is none |
| TlsCertRestriction.CheckAccess | restriction_tlscert.go:49-56 | access is always refused, without a diagnostic |
| TlsCertRestriction.NonBlankGivesPlaceholder | restriction_tlscert.go:31-43 | any non-blank value stores the same placeholder (issuer "", serial 42), which is not null, whatever the flag or old context |
| TlsCertRestriction.NullContextIsNull | restriction_tlscert.go:18-29 | the null context is exactly the one with empty issuer and serial 0 |
| ApiKeyAuthentication.SerializeForm | auth_apikey.go:26-38 | a non-blank key is stored as the bcrypt hash of its trimmed value; a blank one keeps the old context or is refused when there is none |
| ApiKeyAuthentication.StoresVerifiableHash | auth_apikey.go:26-50 | with a lawful bcrypt, the stored hash verifies the trimmed key that was typed |
| TlsCertAuthentication.SerializeForm | auth_tlscert.go:22-34 | a non-blank `auth_api_key_key` stores the placeholder (issuer "", serial 42); a blank one keeps the old context or is refused when there is none |
| TlsCertAuthentication.BlankKeepsAnyOldContext | auth_tlscert.go:25-31 | a blank field hands back whatever old context it was given, of any kind |
| Handlers.RestrictionIdentifierInjective | main.go:144-146 | the eight restriction handlers answer to eight different identifiers, so a registry keyed by identifier loses none |
| Handlers.AuthIdentifierInjective | main.go:148-150 | the two authentication handlers answer to different identifiers |
| Handlers.NullContextIsNull | restriction.go:9-16 | every handler calls its own null context null, and never the null context of another handler |
| Handlers.OwnNullContextIsNull | restriction.go:12-13 | every handler calls its own null context null |
| Handlers.ForeignNullContextIsNot | restriction.go:12-13 | no handler calls another handler's null context null, since each asserts its own context type first |
| Handlers.GrantHasNoDiagnostic | restriction.go:15 | a granting check reports no diagnostic; exactly the origin_ip, time, hit_limit and throttle handlers define no `CheckAccess` method |
| Registry.AddRestrictionHandler | main.go:144-146 | the handler is found under its identifier, every other entry is kept, and the registry stays keyed by identifier |
| Registry.AddAuthenticationHandler | main.go:148-150 | the handler is found under its identifier, every other entry is kept, and the registry stays keyed by identifier |
| Registry.AddRestrictionHandlersSpec | main.go:26-32 | registering a list adds exactly the listed identifiers and keeps every entry under its own handler's identifier |
| Registry.AddAuthenticationHandlersSpec | main.go:34-36 | registering a list adds exactly the listed identifiers and keeps every entry under its own handler's identifier |
| Registry.RegisteredRestrictionIds | main.go:27-32 | the six handlers `main` registers answer to origin_ip, date, time, file, hit_limit and throttle |
| Registry.DefaultRestrictionRegistrySpec | main.go:26-32 | the restriction registry holds exactly origin_ip, date, time, file, hit_limit and throttle, each under its own handler |
| Registry.DefaultAuthRegistryIs | main.go:34-36 | the authentication registry maps api_key and tls_cert to their handlers and nothing else |
| Registry.DefaultAuthRegistrySpec | main.go:34-36 | the authentication registry holds exactly api_key and tls_cert, each under its own handler |
| Registry.RunInTransaction | main.go:51-68 | a panic rolls the database back and passes the panic on; the request succeeds exactly when the chain finished and the commit did not fail, and then its writes are kept |
| Contexts.Deny | restriction.go:15 | a denial is not a grant and carries a diagnostic |
| Contexts.ReadFile | restriction_file.go:54 | a file that does not exist gives Go's `open ...: no such file or directory` error; any other read gives the file's own result |
| Config.CipherNameOfValue | config.go:30-62 | every name the switch accepts maps to a suite whose name is that name again |
| Config.CipherValueOfName | config.go:30-62 | every suite of the table is reached from its own name |
| Config.CipherValueOfNameBelow | config.go:30-62 | the suites numbered below 0xC011 are reached from their names |
| Config.CipherValueOfNameAbove | config.go:30-62 | the suites numbered from 0xC011 on are reached from their names |
| Config.CipherValueInjective | config.go:30-62 | no two accepted names map to the same suite |
| Config.Translate | config.go:24-71 | translating a list succeeds exactly when every name is known, keeping length and order; otherwise it panics naming the first unknown one |
| Config.CipherSuites | config.go:24-71 | the configured names become their suites in order, none for none; the first unknown name panics with "Unknown cipher '<name>' configured." |
| Config.CipherSuitesNamesBack | config.go:24-71 | every translated suite names the configured cipher at its position |
| ReturnHandler.CanDeref | return_handler.go:44-46 | exactly pointers and interfaces are dereferenced |
| ReturnHandler.Write | return_handler.go:26-40 | the status is written as given; a 302 sets Location to the target with a plain-text content type, any other status is HTML |
| ReturnHandler.Handle | return_handler.go:12-41 | a value that is not a response panics with "Controller must return a response." |
| ReturnHandler.HandleDerefs | return_handler.go:15-21 | a response is written the same whether returned directly, through a pointer or through an interface |
| ReturnHandler.HandleRejects | return_handler.go:17-24 | anything else, even after one dereference, panics with the not-a-response message |
| ReturnHandler.RedirectSetsLocation | return_handler.go:31-36 | a redirect sets Location to the target and writes "You are being redirected to <target>" as plain text |
| ReturnHandler.NonRedirectIsVerbatim | return_handler.go:28-40 | any other status writes the content unchanged as UTF-8 HTML |
| Secrets.RowWithId | secret.go:44-60 | a found row carries the id and comes from the table; nothing is found exactly when no row has the id |
| Secrets.RowWithSlug | secret.go:62-83 | a found row carries the slug and comes from the table; nothing is found exactly when no row has the slug |
| Secrets.FindSecret | secret.go:44-60 | nothing is found exactly for id 0 or an id no row has; otherwise that row, with its ciphertext only when asked for |
| Secrets.FindSecretBySlug | secret.go:62-83 | a slug that fails validation finds nothing; otherwise the row whose slug is the lower-cased one, and in a valid table nothing exactly when no row has it |
| Secrets.Save | secret.go:85-124 | a new secret is appended under the next id with no updater; an existing one keeps its id and position, other rows unchanged |
| Secrets.Without | secret.go:126-133 | exactly the rows with another id remain |
| Secrets.Create | secret.go:187-242 | a refused form changes nothing and audits nothing; a success redirects to /secrets and writes one audit record |
| Secrets.Edit | secret.go:244-259 | 400 "Invalid ID given." for an unreadable id, 404 for an unknown secret; otherwise the form with that secret's id, name and slug and no errors |
| Secrets.Update | secret.go:261-321 | 400, 404, then the name, slug validity, a slug held by another secret ("This slug is already in use.") and a failed encryption, in that order; success exactly when all pass; a refusal changes nothing, a success writes one audit record |
| Secrets.UpdateStoresBody | secret.go:301-309 | a successful update with a body stores its new encryption, which decrypts back to the body |
| Secrets.Remove | secret.go:340-363 | the secret is deleted and the deletion audited exactly when the id parses and a secret has it; otherwise nothing changes |
| Secrets.InsertThenFind | secret.go:85-101 | an inserted secret gets the next id, keeps the table valid, and is found under that id |
| Secrets.UpdateThenFind | secret.go:102-121 | an updated secret keeps the table valid and is found with the new name, slug and updater, and the new ciphertext only when one was given |
| Secrets.DeleteRemovesOnlyThat | secret.go:126-133 | after deletion the id finds nothing, and every other row remains |
| Secrets.CreateRejects | secret.go:196-222 | each step of the ladder (empty name, bad slug, slug in use, empty body, encryption failure) gives its own status and message |
| Secrets.SlugLookupIsCaseBlind | secret.go:62-83 | a slug as typed and its validated form find the same secret |
| Secrets.CreateSucceedsIff | secret.go:187-242 | a secret is created exactly when the name is non-empty, the slug valid and unused, the body non-empty and its encryption succeeds |
| Secrets.CreateAppends | secret.go:218-240 | a creation appends one row with the next id, the lower-cased slug and the encrypted body, and audits it under that id |
| Secrets.AppendedFoundBySlug | secret.go:62-101 | in a valid table without the slug, the row appended under the next id is the one its slug finds |
| Secrets.CreateStores | secret.go:187-242 | with lawful primitives, the created secret is found by its slug and its stored ciphertext decrypts to the typed body |
| Secrets.UpdateKeepsCiphertext | secret.go:298-310 | an update with an empty body keeps the stored ciphertext and changes name, slug and updater |
| Users.RowWithId | user.go:39-55 | a found row carries the id and comes from the table; nothing is found exactly when no row has the id |
| Users.ActiveWithLogin | user.go:57-78 | a found user is not deleted and holds the login; nothing is found exactly when no such user exists |
| Users.FindUser | user.go:39-55 | nothing is found exactly for id 0 or an id no row has; otherwise that row, deleted or not, with its password only when asked for |
| Users.FindUserByLogin | user.go:57-78 | an invalid login finds nothing; otherwise the active user holding the lower-cased login, and in a valid table nothing exactly when no active user holds it |
| Users.Save | user.go:80-120 | a new user is appended under the next id, not yet logged in; an existing one keeps its id and position, other rows unchanged |
| Users.MapId | user.go:122-134 | a stamp changes exactly the rows with the id |
| Users.Create | user.go:227-275 | a refused form is a 400 that changes nothing and audits nothing; a success redirects to /users |
| Users.CreateWith | user.go:227-275 | a refused form is a 400 that changes nothing and audits nothing; a success redirects to /users, whatever is done to the password before storing |
| Users.CreateHashed | user.go:227-275 | a refused form changes nothing and audits nothing |
| Users.Edit | user.go:277-292 | 400 "Invalid ID given." for an unreadable id, 404 for an unknown user; otherwise the form filled from that user (id, name, login, last login, deletion) with no errors |
| Users.Update | user.go:294-356 | 400, 404, 403 for oneself, 409 for a deleted subject, then the name, login validity and a login held by another user ("This login is already in use."), in that order; success exactly when all pass; a refusal changes nothing, a success writes one audit record |
| Users.UpdateHashed | user.go:294-356 | the same answers as the update as written; a refusal changes nothing |
| Users.UpdateWith | user.go:294-356 | the same answers whatever is stored as the password: 400, 404, 403, 409, name, login, login in use; a refusal changes nothing, a success writes one audit record |
| Users.DeleteCheck | user.go:383-400 | 400 for an unreadable id, 404 for an unknown user, 403 for oneself, 409 for a user already deleted; otherwise that user, found by the id |
| Users.DeleteConfirm | user.go:358-381 | the confirmation is shown exactly when the delete checks pass, and a refusal answers with its status and message |
| Users.Remove | user.go:383-414 | the user is deleted exactly when the delete checks pass; a refusal answers with its status and message (409 for a user already deleted) and changes nothing |
| Users.LoginLookupIsCaseBlind | user.go:57-78 | a login as typed and its validated form find the same user |
| Users.CreateSucceedsIff | user.go:227-275 | a user is created exactly when the name is non-empty, the login valid and free, and the password at least 4 bytes long |
| Users.CreateAppends | user.go:258-272 | a creation appends one active user under the next id with the lower-cased login and the stored form of the password, and audits it |
| Users.AppendedFoundByLogin | user.go:57-96 | in a valid table where no active user holds the login, the user appended under the next id is the one it finds |
| Users.CreateThenFindByLogin | user.go:227-275 | after a creation the typed login finds the new user, holding the stored form of the typed password |
| Users.UpdateSelfIsForbidden | user.go:305-307 | nobody can edit themselves: the answer is 403 and nothing changes |
| Users.SaveActiveThenFind | user.go:97-117 | saving a stored, active user rewrites exactly its row with the new values, and the password only when one is given |
| Users.UpdateSaves | user.go:340-347 | a successful update saves the subject with the new name and validated login, and a new password only when one was typed |
| Users.UpdateKeepsPassword | user.go:343-345 | an update with an empty password keeps the stored password while name and login change |
| Users.DeleteThenFind | user.go:122-129 | a soft delete keeps the row, stamped with the deletion time |
| Users.DeletedNotFoundByLogin | user.go:72 | after a soft delete no login, in any case, finds the deleted user |
| Users.RemoveIsSoft | user.go:383-414 | deleting through the controller keeps the user findable by id, stamped deleted, but by no login |
| Users.RemoveSelfIsForbidden | user.go:394-396 | nobody can delete themselves: the answer is 403 and nothing changes |
| Sessions.WriteCookie | session.go:28-38 | the cookie carries the session id under the configured name and expires one max-age from now |
| Sessions.DeleteCookie | session.go:40-48 | the cookie's value is "-" with a negative max-age, so the browser drops it |
| Sessions.Destroy | session.go:184-186 | exactly the entry under the session's id goes; the others are untouched |
| Sessions.Resolve | session.go:67-111 | the request is either anonymous, with the anonymous session and no cookie, or belongs to an active user with a refreshed cookie; the resolved user never carries a password |
| Sessions.RequireLogin | session.go:113-117 | the chain goes on exactly for a user with a positive id who is not deleted; anyone else is redirected to /login |
| Sessions.RequireCsrfToken | session.go:119-135 | the chain goes on exactly when there is a session and the non-empty `_csrf` field equals its token; no session gives 401, no token 400, a wrong token 403 |
| Sessions.Guard | session.go:113-135 | both gates pass exactly for an active logged-in user sending the session's token; the login gate answers first |
| Sessions.NewSession | session.go:148-175 | a session is made exactly when both random reads succeed; it carries the user's id (or 0), the first read as CSRF token, the second as id, no flashes, expiry one max-age away, and is filed under its id |
| Sessions.StartSession | session.go:137-146 | a started session is filed under its id, belongs to the user, and its cookie carries that id |
| Sessions.EndSession | session.go:177-182 | the session's entry goes, every other entry stays, and the cookie is deleted |
| Sessions.Live | session.go:188-196 | exactly the sessions whose expiry has not passed remain, unchanged |
| Sessions.Sweep | session.go:188-200 | one cleanup pass, in whatever order the map is visited, leaves exactly the live sessions |
| Sessions.KeyedIsKept | session.go:67-186 | resolving, starting and ending sessions keep every session filed under its own id |
| Sessions.AnonymousFailsCsrf | session.go:104-135 | the anonymous session never passes the CSRF gate, whatever the form says |
| Sessions.ResolveCases | session.go:67-111 | no known session leaves the table alone and is anonymous; an expired session or one whose user is missing or deleted is removed; a live session of an active user is extended in place and its cookie re-sent |
| Sessions.SweepIsIdempotent | session.go:188-200 | sweeping twice at the same time removes nothing more |
| Login.LoginAction | login.go:19-53 | a refusal (403, or 500 when a random read fails) changes nothing and sets no cookie; an invalid login is refused with an empty name; a success redirects to / with a new session for the user the login finds, stamps that user's last login and writes one login audit entry |
| Login.Logout | login.go:55-64 | when the gates pass, the session is gone and the browser is sent to / |
| Login.LoginSucceedsIff | login.go:19-53 | a login succeeds exactly when the name belongs to an active user whose stored hash verifies the password and both random reads work; it panics exactly when that user's password is missing |
| Login.LoginStampsOnlyTheUser | login.go:42-50 | a successful login stamps the last-login time of that user and no one else, and logs it |
| Login.LogoutIsGuarded | login.go:55-64 | logging out happens exactly for a logged-in user sending the session's CSRF token, and removes only that session |
| Login.PrefixedIsLawful | login.go:33 | the example bcrypt verifies exactly the password it hashed |
| Login.CreatedUserCannotLogIn | user.go:258-264 | as written, a user created through the admin form is refused at login with the very password given at creation |
| Login.CreatedHashedUserLogsIn | login.go:19-53 | with the password stored as its hash, the new user logs in with the password given at creation and gets a session of their own |
| Profile.Show | profile.go:22-30 | the form shows the user's own name and login |
| Profile.UpdateProfile | profile.go:32-75 | a refusal is a 400 that changes nothing; a success redirects to /profile and audits the user updating themselves |
| Profile.ChangePassword | profile.go:77-109 | a non-empty password for a user whose password was not loaded panics; a refusal changes nothing |
| Profile.ChangePasswordLoaded | profile.go:77-109 | a refusal changes nothing and audits nothing |
| Profile.UpdateRoute | profile.go:113 | once the gates pass, the update runs |
| Profile.PasswordRoute | profile.go:114 | once the gates pass, the password change runs |
| Profile.RoutesAreGuarded | profile.go:111-115 | both routes run their action exactly for a logged-in user sending the session's token; anyone else is sent to /login first |
| Profile.UpdateProfileSucceedsIff | profile.go:32-75 | an update succeeds exactly for a non-empty name and a valid login that no other active user holds |
| Profile.UpdateProfileThenFind | profile.go:62-65 | a successful update renames the user and sets the validated login, keeping the password |
| Profile.SessionUserCannotChangePassword | profile.go:91 | as written, the user the session resolved has no password loaded, so every non-empty submission panics |
| Profile.ChangePasswordLoadedWorks | profile.go:77-109 | with the row re-read, the change succeeds exactly when the typed password verifies against the stored hash, and afterwards the stored hash verifies the typed password |
| Consumers.RowWithId | consumer.go:43-53 | the first row with the id, and none exactly when no row carries it |
| Consumers.FindConsumer | consumer.go:43-53 | a consumer is found, deleted or not, exactly when a row carries the non-zero id |
| Consumers.Save | consumer.go:55-85 | a new consumer is appended under the next id with no updater; a stored one has its columns rewritten only while it is not deleted, every other row unchanged |
| Consumers.Delete | consumer.go:87-94 | deleting marks the rows with the id as deleted and changes nothing else |
| Consumers.Unlinked | consumer.go:145 | what remains of the links is exactly the links of every other consumer |
| Consumers.CheckedLinks | consumer.go:150-157 | the inserted links are exactly one per checked secret, for this consumer |
| Consumers.WriteSecrets | consumer.go:144-160 | afterwards a link exists exactly when it belongs to another consumer and existed before, or names this consumer and a checked secret |
| Consumers.Listing | consumer.go:291 | the form lists every secret of the table once (the same multiset), in name order, each checked exactly when the consumer is linked to it |
| Consumers.SortByName | consumer.go:291 | `ORDER BY s.name`: the result is in name order and a permutation of its input |
| Consumers.ByNameSorted | consumer.go:291 | in name order every earlier name sorts no later than every later one, not just its neighbour |
| Consumers.IsNullContext | consumer.go:216-223 | an entry of an unregistered type never holds the null context |
| Consumers.PrimeRestrictions | consumer.go:253-259 | the form starts with one disabled entry per registered type, holding that type's null context |
| Consumers.WriteRestrictions | consumer.go:162-179 | saving panics exactly when some entry's emptiness test panics; otherwise each entry is stored (or, being empty, removed) under its type for the consumer, keys stay unique and every other consumer's or type's row is untouched |
| Consumers.Overlay | consumer.go:293-296 | laying the stored rows over the form panics exactly on a row of an unregistered type; it adds the stored types, keeps the entries of every other type and changes no other field |
| Consumers.FromConsumer | consumer.go:274-297 | the form carries the consumer's id, name, flag and info token and lists every secret with its link state |
| Consumers.CheckSecrets | consumer.go:319-321 | each secret keeps its place and is checked exactly when its `secret_<id>` field is "1" |
| Consumers.SerializeRestriction | consumer.go:353-375 | the enabled flag follows `restriction_<type>`; a handler error is kept on the entry with the old context, otherwise the new context replaces it |
| Consumers.SerializeRestrictions | consumer.go:353-375 | the same types stay in the form; unregistered ones are left as they were; the loop succeeds exactly when every registered entry serializes |
| Consumers.SerializeAuth | consumer.go:323-351 | an unregistered type gives the type error and failure; otherwise the type is set, success follows the handler, and on error the handler's null context is shown with the error filed under the type |
| Consumers.SerializeBasics | consumer.go:299-321 | the enabled flag follows the form; a blank trimmed name keeps the old name and sets the name error; a non-empty info token replaces the old one |
| Consumers.SerializeForm | consumer.go:299-378 | as written: the restrictions end up as the loop left them and the name error is the one the name check set |
| Consumers.SerializeFormIntended | consumer.go:299-378 | as intended: an accepted form carries no new name error |
| Consumers.InsertThenFind | consumer.go:55-71 | a new consumer is found under the id it was given and the table stays valid |
| Consumers.UpdateThenFind | consumer.go:72-82 | an update is visible by id, except on a deleted row, which stays as it was |
| Consumers.DeleteThenFind | consumer.go:87-94 | a deleted consumer is still found by id, marked deleted |
| Consumers.OverlayPlaces | consumer.go:294-296 | for stored rows of distinct types, each type's entry holds the row's unpacked context and enabled flag and no error |
| Consumers.SerializeFormOkayIff | consumer.go:299-378 | as written the form is accepted exactly when the authentication and every registered restriction serialize, whatever the name |
| Consumers.SerializeFormIntendedOkayIff | consumer.go:299-378 | as intended the form is accepted exactly when additionally the trimmed name is not empty, with the old context handed over only for an unchanged type |
| Consumers.BlankNameSteps | consumer.go:308-351 | a request with a blank name and a valid TLS-certificate key sets the name error, then authenticates successfully |
| Consumers.NameErrorIsLost | consumer.go:324 | as written that request is accepted although the form shows a name error |
| Consumers.NameErrorIsKept | consumer.go:308-313 | as intended that request is refused |
| Consumers.SwitchSteps | consumer.go:329-339 | switching a form from an API-key to a TLS-certificate authentication with a blank key reaches the handler with the API-key context in the form |
| Consumers.SwitchKeepsForeignContext | consumer.go:329-335 | as written the switch is accepted and stores the API-key context as the certificate context |
| Consumers.SwitchStartsFresh | consumer.go:334-348 | as intended the switch starts without a context, so a blank key is refused and the certificate null context shown |
| Consumers.IntendedSwitchIgnoresOldContext | consumer.go:334-350 | as intended, a changed authentication type never sees the previous context, for every form and request |
| Delivery.CheckRestrictions | delivery.go:34-50 | the loop computes the same as folding the restrictions in order: disabled ones skipped, verdicts and-ed, non-nil diagnostics kept under the type |
| Delivery.AbortSticks | delivery.go:34-50 | once a check has panicked or hit an unchecked type, the remaining restrictions change nothing |
| Delivery.Deliver | delivery.go:11-77 | exactly one log entry per request; the answer is 404 exactly when the consumer or the secret is not found, and the entry is an access entry exactly when it is not 404 |
| Delivery.EvaluateMeaning | delivery.go:34-52 | the loop completes exactly when every enabled restriction has a registered type with a check, and it then grants exactly when every enabled one grants |
| Delivery.StepMeaning | delivery.go:35-49 | one turn keeps the loop running exactly when the restriction is runnable, and and-s in its verdict |
| Delivery.EvaluateDiagnostics | delivery.go:46-49 | the collected diagnostics are keyed by exactly the types whose check gave one, and for distinct types each holds that check's diagnostic |
| Delivery.EnabledOnly | delivery.go:35-37 | keeps exactly the enabled restrictions |
| Delivery.DisabledAreSkipped | delivery.go:35-37 | disabled restrictions have no effect on the outcome |
| Delivery.OrderIrrelevant | delivery.go:34-52 | the storage order of the restrictions changes neither whether the loop completes nor the verdict |
| Delivery.OrderIrrelevantDiagnostics | delivery.go:46-49 | for distinct types, the order does not change the logged diagnostics either |
| Delivery.DisablingKeepsGrant | delivery.go:35-42 | disabling one restriction of a granting set keeps the grant |
| Delivery.NotFoundIsUniform | delivery.go:22-26 | a missing consumer or secret gives 404 and a not-found log entry, whatever the restrictions, registry and request |
| Delivery.SlugThenId | delivery.go:69 | the secret found by slug is found again by id with its body, as the row stored under the lower-cased slug |
| Delivery.DeliverDecision | delivery.go:28-76 | once all restrictions run: access is granted exactly for an enabled, undeleted consumer whose every restriction passes; the log records 200 or 403 with the diagnostics; a denial is 403 without loading the body; a grant serves the decryption or 500 |
| Delivery.GrantNeedsEverything | delivery.go:28-58 | a 200 answer implies the consumer exists, is enabled and not deleted, and every enabled restriction has a registered type whose check granted |
| Delivery.UnknownTypeNeverAllows | delivery.go:41 | an enabled restriction of an unregistered type never lets the request through |
| Delivery.DeliversPlaintext | delivery.go:11-77 | end to end: a secret stored as the encryption of a non-empty message is served as exactly that message to an admitted consumer |

## Left out

- SQL and `sqlx`: tables are in-memory row sequences. A failing `Exec` or `LastInsertId` is not modelled; only the transaction of main.go:51-68 around each request is (`Registry.RunInTransaction`).
- Timestamps written with `NOW()` (`created_at`, `updated_at`) are kept out of the rows. The user's `deleted` and `last_login_at` stamps and the session expiry take the time as a parameter.
- The clock, `crypto/rand`, bcrypt, PBKDF2 and NaCl secretbox are parameters: `Instant` values, `Result`s for the random reads, and records of functions with stated laws. Their real algorithms are not modelled.
- JSON: `PackContext` and `UnpackContext` map a context to itself. Decoding a malformed stored context is not modelled; the date context always holds exactly seven flags.
- HTTP and Martini: routing, dependency injection, `gzip`, static files, `method.Override` and the template renderer are left out. `renderTemplate` and `renderError` become a `Page` or `ErrorPage` reply with the template name and data. Cookies are reduced to their name, value and options, without serialization.
- `getIP`: the client address is `Request.remoteIp`, which `AuditLog.LogAction` stores. The panic on a `RemoteAddr` that `net.SplitHostPort` cannot split (one without a port) is not modelled.
- Consumers.Listing: names are compared by code point. MySQL sorts `ORDER BY s.name` under the column's collation, which may ignore case; the order of secrets with equal names is unspecified there, and the model keeps their table order.
- The session `cleanup` goroutine and its locking are left out; one pass of its loop is `Sessions.Sweep`.
- The main.go user middleware (main.go:83-98) and the CSRF middleware options (main.go:111-118) belong to a `sessionauth` setup that the session, login and profile controllers do not use; they are not modelled.
- main.go wires neither the login and profile controllers nor the delivery controller; the model follows the routes those files declare.
- Hashids (`GetIdentifier`, `DecodeConsumerIdentifier`): the delivery controller receives the consumer id already decoded.
- `LogAccess` and `LogNotFound` are not written out: delivery returns the entries as a `LogEntry` datatype.
- The `fmt.Printf` of each restriction context in delivery.go:44 and the warning `log.Println` in consumer.go:358 are output only.
- Real file access for the file restriction: the filesystem is a map from path to contents in the environment.
- The restriction handlers of restriction_originip.go, restriction_time.go, restriction_limit.go and restriction_throttle.go define no `CheckAccess`, and neither authentication handler defines a `Check`. Reaching one of these checks ends delivery in `Delivery.NoCheckFor` instead of a verdict.
- The API-key and TLS-certificate restriction handlers exist but main.go does not register them; they are modelled, and the default registry leaves them out as main.go does.
- The list and index pages are left out because they only fill templates: `findAllSecrets`, `findAllUsers`, `findAllConsumers`, the index and add actions of secrets, users and consumers, `loginFormAction`, `secretsDeleteConfirmAction`, the audit-log index template data and `addIntsToUrl`. Also left out are `GetCreator`/`GetUpdater`, `primeSecrets` and `GetSecrets`.
- The consumer controllers' add, edit and delete actions are not modelled as controllers. Their building blocks are modelled: `FromConsumer`, `SerializeForm`, `Save`, `WriteSecrets`, `WriteRestrictions` and `Delete`.
- overview.go, dashboard.go, ctrl_overview.go, templates.go and storage.go serve pages and assets and are not part of this model.
- Strings.IsPrint: exact below U+0100 and for the white-space runes; other runes above U+00FF count as printable. Go's tables of unassigned, format and private-use runes are not modelled, so an Atoi error copies such a rune into the quoted input where Go writes a `\u` escape.
- Utils.ParseInts: its contract bounds the length and the range; which values it keeps is stated by `Utils.ParseIntsOfItoa` and `Utils.ParseIntsSkipsGarbage`.
- Utils.GetIntList: its contract bounds the range only; the values read are stated by `Utils.GetIntListOfItoa`.
- Crypto.PutUint64BE: its contract gives the length only; the byte order is stated by `Crypto.PutUint64BERoundTrip`.
- Consumers.FromConsumer: its contract covers the consumer's own fields and the secret list. The restrictions it overlays are stated by `Consumers.Overlay` and `Consumers.OverlayPlaces`. The unpacked authentication context is not stated.
- Consumers.SerializeForm: its contract covers only the restrictions and the name error. Acceptance is stated by `Consumers.SerializeFormOkayIff`, and the authentication part by `Consumers.SerializeAuth`.
- Delivery.Deliver: its contract covers the 404 case and the single log entry. The granted and denied cases are stated by `Delivery.DeliverDecision` and `Delivery.GrantNeedsEverything`.

## Findings

| source | as written | input that shows it | evidently intended | confidence | as-written member | corrected member |
|---|---|---|---|---|---|---|
| consumer.go:324 | `authHandler, okay := ...` assigns `okay` afresh, so the `false` set by an empty name is overwritten | an empty `name` with `authentication=tls_cert` and a key: the form is accepted and saved with the name error showing | an empty name makes the form invalid | not executed | Consumers.NameErrorIsLost | Consumers.NameErrorIsKept |
| consumer.go:329-335 | `data.AuthType` is set to the new type before it is compared with it, so the comparison always holds | a form holding an API-key context, switched to `tls_cert` with a blank key: accepted, and the API-key context is stored as the certificate context | the previous context is handed over only when the type is unchanged | not executed | Consumers.SwitchKeepsForeignContext | Consumers.SwitchStartsFresh |
| user.go:262 | a new user's password is stored as typed, but login checks it with bcrypt (login.go:33); user.go:344 does the same on edit | a user created with password `pw`: login with `pw` fails under any bcrypt whose hashes carry a prefix | the password is stored bcrypt-hashed | not executed | Login.CreatedUserCannotLogIn | Login.CreatedHashedUserLogsIn |
| profile.go:91 | the password is read through `*user.Password`, but the session middleware loads the user without the password (session.go:88) | any non-empty `password` sent to `PUT /profile/password` by a logged-in user: nil dereference | the user is re-read with the password before it is compared | not executed | Profile.SessionUserCannotChangePassword | Profile.ChangePasswordLoadedWorks |
