# zolinga-rms user and rights management, modelled in Dafny

The Zolinga RMS module keeps user accounts in the `rmsUsers` table, rights in
`rmsRights`, a dictionary of command texts keyed by their SHA-1 in
`rmsCommands`, and per-user JSON metadata in `rmsMeta`. The `User` class
loads, changes, saves, creates, soft-removes and wipes one account. It checks
and changes passwords, and grants, revokes, filters and lists rights. The
`Service` registry (`$api->rms`) hands out User instances through a weak cache.
`UserService` restores the session user, logs in and out, and answers
authorization queries. Three request handlers build on these:

- `rms:login`, `rms:register` and `rms:logout`;
- `rms:settings`;
- the `rms:user` command-line request.

The `GoogleJwt` helpers decode and check Google ID tokens.

The model is functional:

- The database is a `Store` value.
- The registry is an `Env` holding the store, a heap of User instances and the cache.
- A request handler maps a `World` (the registry and the current visitor) to a new world and a result.
- PHP exceptions become `Err` values. A `Step` carries the state the code had reached when it threw.
- PHP scalars are the `Value` datatype, with PHP's truthiness.
- PHP's loose `==` is `Comparison.LooseEquals`.
- Strict-types `TypeError`s are the `TypeMismatch` error.
- `strlen` is the UTF-8 byte length.

Modules:

- `Outcomes`: results, options and errors.
- `Values`: scalars, rows and JSON.
- `Digests` and `Syntax`: SHA-1, `password_hash`, and e-mail and number syntax.
- `Ordering`: least elements and sorted id lists, standing in for SQL result order.
- `Storage`: the tables.
- `Commands`, `Metas`, `Users`, `Rights`: `Command.php`, `Meta.php`, and `User.php` split in two.
- `Registry`: `Service.php`.
- `Sessions`: `UserService.php`.
- `GoogleJwt`.
- `Comparison`: loose comparison.
- `Events`: what the handlers share.
- `UserApi`, `SettingsApi`, `UserCliApi`: the three handlers.
- `Scenarios`: the sequences the unit tests walk through, stated for all inputs.

## Model

| member | source | states |
|---|---|---|
| Commands.New | src/Command.php:21-25 | a command keeps its text and its hash is the SHA-1 of that text |
| Commands.SameHashSameText | src/Command.php:21-25 | two commands have equal hashes exactly when their texts are equal, and then they are the same command |
| Commands.Create | src/Command.php:35-39 | `INSERT IGNORE`: the dictionary gains the hash, an existing entry keeps its text, no other table changes |
| Commands.CreateIdempotent | src/Command.php:35-39 | creating the same command twice leaves the store as creating it once |
| Commands.StringFormsRoundTrip | src/Command.php:41-49 | a command rebuilt from its string form or its JSON form is the same command |
| Commands.CreateKeepsConsistent | src/Command.php:35-39 | every dictionary entry stays keyed by the digest of its own text |
| Digests.VerifyHash | src/User.php:227-252 | a password hash verifies its own plaintext and no other string |
| Digests.Sha1Injective | src/Command.php:21-25 | two texts have equal digests exactly when they are equal |
| Syntax.Intval | src/Service.php:103-104 | `intval` of a numeric string: its value, saturated at `PHP_INT_MIN` and `PHP_INT_MAX` |
| Syntax.DigitsValueAtLeast | src/Service.php:103-104 | a digit string without a leading zero is at least ten to the power of its length less one |
| Syntax.EmailIsNotNumeric | src/Service.php:98-131 | a valid e-mail address is never numeric, so `findUser` never reads a username as an id |
| Comparison.LooseEqualsIsSymmetric | src/Api/SettingsApi.php:21-28 | `==` is reflexive and symmetric on the scalars the handlers compare |
| Comparison.NonNumericStringsCompareExactly | src/Api/SettingsApi.php:63 | two strings, at least one of them non-numeric, are loosely equal only when identical |
| Comparison.SignedDigitsLooselyEqual | src/Api/SettingsApi.php:78 | a run of digits with a leading `+` is a different string that is still loosely equal to the digits |
| Metas.GetMeta | src/Meta.php:37-56 | an owner without an id reads null; a cached property is returned unchanged; an uncached one is read from the store and cached; other cached properties are kept |
| Metas.GetMetaIgnoresStore | src/Meta.php:37-56 | once a property is cached, or when the owner has no id, the store is not consulted |
| Metas.GetMetaTwice | src/Meta.php:37-56 | reading a property again returns the same value and cache, whatever the store holds by then |
| Metas.SetMeta | src/Meta.php:58-80 | fails without an owner id; setting null is deleting; otherwise the cache and the owner's row hold the new value and only `rmsMeta` changes |
| Metas.SetThenGet | src/Meta.php:37-80 | a value just set is what the next read returns, from any store |
| Metas.SetThenReload | src/Meta.php:37-80 | a fresh instance reading the property from the updated store gets the value set |
| Metas.DeleteMeta | src/Meta.php:82-97 | fails without an owner id; otherwise exactly the owner's row for that property is deleted and the cache reads null |
| Metas.OffsetExists | src/Meta.php:99-101 | `isset($meta[$p])` holds exactly when the read value is not null |
| Metas.UnsetThenNotExists | src/Meta.php:99-113 | after `unset($meta[$p])` the property is absent from the cache and from the stored rows |
| Metas.MatchingOwners | src/Meta.php:123-147 | the owners whose property equals the value, ascending, each once |
| Metas.SearchIds | src/Meta.php:123-147 | a negative limit fails; otherwise the result is a prefix of the matching owners in ascending order, either all of them or exactly `limit` many; every id returned has the matching property |
| Users.Reset | src/User.php:626-632 | every column null, nothing modified, no id, a fresh empty meta object |
| Users.LoadedCheck | src/User.php:668-673 | succeeds exactly when the instance has a truthy id |
| Users.Property | src/User.php:160-173 | `isModified` and `canLogin` read as booleans; a known column reads its value; any other name fails |
| Users.SetPassword | src/User.php:227-235 | fails below six bytes; otherwise stores a hash that verifies the plaintext and marks only the password modified |
| Users.LocaleParts | src/User.php:180-219 | an accepted locale has a 2-3 letter language and a 2 letter region |
| Users.CanonicalLocaleFixpoint | src/User.php:180-219 | a canonicalised locale parses back to the same parts |
| Users.SetField | src/User.php:180-219 | an identical non-null value changes nothing; `id` and `removed` are read-only; unknown names fail; username must be an e-mail address; password goes through `setPassword`; canLogin accepts booleans and integers with the same truthiness; exactly the named column becomes modified |
| Users.SetFieldIdempotent | src/User.php:180-219 | assigning the same username or login data twice is the same as once |
| Users.ValidatePassword | src/User.php:243-252 | true exactly when login is allowed, the password is at least six bytes and a stored hash verifies it |
| Users.ValidatePasswordAsWritten | src/User.php:243-252 | as written, a user without a stored hash makes the check throw for any long enough password |
| Users.ValidatePasswordAgrees | src/User.php:243-252 | with a stored hash both versions give the same answer |
| Users.NullHashCounterexample | src/User.php:243-252 | an id-1 user that may log in but has no hash: the as-written check throws, the corrected one says false |
| Users.SetPasswordThenValidate | src/User.php:227-252 | after setting a password on a user who may log in, that password validates and every other one fails |
| Users.LoadById | src/User.php:261-279 | refuses unsaved changes; finds any row with the id, removed or not; the instance then equals the row, unmodified, with fresh metadata |
| Users.LoadByUsername | src/User.php:291-313 | refuses a loaded or modified instance and a non-e-mail name; succeeds exactly when an active row has that username, and then equals it |
| Users.LoadFromArray | src/User.php:330-339 | known keys of the record overwrite the columns, others are kept; nothing modified |
| Users.Load | src/User.php:135-152 | a loaded instance is reset first, and on failure stays reset; an id load succeeds exactly when the row exists; a record load always succeeds |
| Users.LoadByName | src/User.php:135-152 | loading by name is `loadByUsername` for an instance without id |
| Users.LoadResetsFirst | src/User.php:135-152 | loading into a loaded instance is loading into its reset |
| Users.LoadedHasMeta | src/User.php:135-152 | every successful load leaves an empty meta object in place |
| Users.MetaOf | src/User.php:97 | reading `$meta` of a never-loaded instance fails as an uninitialised property |
| Users.Construct | src/User.php:113-118 | `new User()` is blank; `new User($who)` is the outcome of loading `$who` into a blank instance |
| Users.Save | src/User.php:346-358 | fails without id; otherwise writes exactly the modified columns to the user's row, no other row or table changes, and nothing stays modified |
| Users.SaveThenReload | src/User.php:346-358 | saving an instance whose unmodified columns match its row makes the row equal the instance |
| Users.Create | src/User.php:367-388 | fails without a username or on a taken id; otherwise one new row with the non-null columns and table defaults, the instance reloaded from it, other rows untouched |
| Users.Wipe | src/User.php:406-417 | fails without id; otherwise deletes the row and leaves a reset instance with only the removal time set |
| Users.MarkAsRemoved | src/User.php:429-440 | fails without id; otherwise the row gets the removal time and loses the login flag, so it is no longer active |
| Users.MarkedRowIsInactive | src/User.php:429-440 | after soft removal no lookup of active rows selects that user |
| Users.DisableLogin | src/User.php:429-440 | the login flag cleared through the setter |
| Rights.FoundHashes | src/User.php:524-553 | the digests the rights query returns: only for a user with an integer id, only rows of that user |
| Rights.KeptFrom | src/User.php:524-553 | the kept (index, command) pairs in index order, exactly the entries the test keeps |
| Rights.FilterRights | src/User.php:524-553 | exactly the requested commands the user holds, with their original keys, in order; every loaded user holds "member of users", every instance without id "member of guests" |
| Rights.HasRight | src/User.php:563-566 | true exactly when at least one command is held |
| Rights.HasRightsAll | src/User.php:574-577 | true exactly when every command is held |
| Rights.IsAdministrator | src/User.php:584-587 | true exactly when "member of administrators" is stored for a loaded user |
| Rights.IsGuest | src/User.php:594-597 | true for every instance without id, and for a loaded user only when "member of guests" is stored |
| Rights.GrantEach | src/User.php:477-490 | the loop adds each command to the dictionary and one right row per command |
| Rights.Grant | src/User.php:477-490 | fails without id; otherwise the rights gain exactly the user's rows for the commands, the dictionary gains their texts, nothing else changes |
| Rights.GrantIdempotent | src/User.php:477-490 | granting the same commands again changes nothing |
| Rights.GrantThenHolds | src/User.php:477-490 | after granting, every granted command is held |
| Rights.GrantKeepsReferences | src/User.php:477-490 | every right row still refers to a dictionary entry |
| Rights.RevokeEach | src/User.php:502-514 | the loop deletes exactly the user's rows for the commands |
| Rights.Revoke | src/User.php:502-514 | fails without id; otherwise only those right rows disappear |
| Rights.RevokeAbsentIsNoop | src/User.php:502-514 | revoking a command that is not stored changes nothing |
| Rights.RevokeUndoesGrant | src/User.php:477-514 | revoking a freshly granted command restores the rights table |
| Rights.MemberOfUsersSurvivesRevoke | src/User.php:502-566 | a loaded user still has "member of users" after revoking it |
| Rights.GrantAdministrator | src/User.php:606-609 | fails without id; otherwise the user is an administrator |
| Rights.RevokeAdministrator | src/User.php:616-619 | fails without id; otherwise the user is not an administrator |
| Rights.ListPermissions | src/User.php:449-465 | fails without id; every right row of the user appears as the command built from its stored text, and nothing else does |
| Rights.GrantThenListed | src/User.php:449-490 | a granted command shows up in the permission list |
| Registry.PruneKeeps | src/Service.php:32-50 | the scan drops exactly the dead entries and those of removed users |
| Registry.ScanCache | src/Service.php:32-50 | the scan returns the first live, non-removed cached user matching the id or username, and nothing before it matches |
| Registry.ScanKeeps | src/Service.php:32-50 | the cache after the scan is the pruned scanned prefix followed by the unscanned rest |
| Registry.ScanFindsFirstHit | src/Service.php:32-50 | a matching entry after only live non-matching ones is the one found |
| Registry.Track | src/Service.php:52-55 | a new instance gets an unused handle and a live entry at the end of the cache |
| Registry.ConstructMatches | src/Service.php:80-88 | an instance constructed for a key matches that key |
| Registry.GetUser | src/Service.php:80-88 | a cache hit is returned as is; otherwise a new instance is constructed (or the construction fails) and cached; the store is not changed |
| Registry.Coerce | src/Service.php:98-131 | a numeric string becomes the integer id `intval` gives, saturated at the 64-bit bounds; any other string stays a username |
| Registry.LongIdSaturates | src/Service.php:103-104 | a username of twenty or more digits, not starting with zero, is looked up as the id `PHP_INT_MAX` |
| Registry.SelectedMatches | src/Service.php:98-131 | the row the query selects is active, matches the key, and loads back exactly |
| Registry.FindKey | src/Service.php:98-131 | a found instance is live, matches the key and is not removed; a new one equals the first active matching row; nothing is found only when neither cache nor store matches |
| Registry.FindUser | src/Service.php:98-131 | a falsy coerced key finds nothing and reads nothing; any other key is looked up |
| Registry.FindUserAgain | src/Service.php:98-131 | a second lookup with the same key returns the same instance |
| Registry.FindKeyHit | src/Service.php:32-50 | a cache hit is what the lookup returns |
| Registry.RescanHits | src/Service.php:98-131 | after a successful lookup the cache scan alone finds the same instance |
| Registry.FindKeyAgain | src/Service.php:98-131 | a repeated lookup of a found key returns the same instance |
| Registry.FindUserIdsByRight | src/Service.php:144-159 | the ids holding any of the rights, ascending, each once |
| Registry.NewUser | src/Service.php:177-188 | the instance built from the record; a given password must be a string of at least six bytes, and is then hashed |
| Registry.CreateUser | src/Service.php:177-188 | an exception leaves the registry unchanged; otherwise the created user is stored, cached and placed in the heap under a new handle |
| Registry.CreateUserStores | src/Service.php:177-188 | the created row is new, holds the record's columns or the table defaults and the hash of the given password, and no other row changes |
| Registry.ShortPasswordCreatesNothing | src/Service.php:177-188 | a short password throws before anything is stored |
| Registry.FirstDeadOrSame | src/Service.php:57-68 | the first cache entry that is dead or the user's own, with all earlier entries live and other users' |
| Registry.RemoveUserFromCache | src/Service.php:57-68 | removes that one entry and reports whether there was one |
| Registry.LeadingDeadEntry | src/Service.php:57-68 | a dead first entry is removed instead of the user's own entry |
| Registry.RemoveUser | src/Service.php:195-202 | fails for an instance without id; otherwise the cache entry is removed, the row wiped and the instance reset; no other row changes |
| Registry.RemovedNotCached | src/Service.php:195-202 | after removal no cache scan finds the username |
| Registry.RemovedNotStored | src/Service.php:195-202 | after removal no active row has the username |
| Registry.RemovedUserNotFound | src/Service.php:195-202 | after removal `findUser` with the username finds nothing |
| Registry.MarkInstance | src/User.php:429-440 | soft removal applied to an instance of the registry: that instance is removed, the other instances and the cache are kept |
| Registry.MarkedNotCached | src/Service.php:32-50 | after soft removal no cache scan finds the user under a key no other cached instance matches |
| Registry.MarkedIdNotStored | src/Service.php:98-131 | after soft removal no active row has the user's id |
| Registry.MarkedNameNotStored | src/Service.php:98-131 | after soft removal no active row has the username, when that user's row was the only active one with it |
| Registry.MarkedUserNotFound | tests/Unit/ServiceTest.php:98-111 | after `markAsRemoved` `findUser` finds nothing, neither by the user's id nor by the username |
| Registry.GetUsers | src/User.php:712-718 | one instance per id, each matching its id |
| Registry.SearchMeta | src/Service.php:214-223 | the i-th returned instance is the user of the i-th matching owner, whose property holds the value, in ascending id order; with `returnFirst` exactly one when any user matches; otherwise one per matching user |
| Sessions.SessionWho | src/UserService.php:17-24 | no session entry or null restores nobody; a boolean entry is a type error |
| Sessions.Start | src/UserService.php:17-24 | no session array gives a guest; an integer id restores that user's row exactly when it exists |
| Sessions.StartRestores | src/UserService.php:17-24 | an existing id in the session restores that user |
| Sessions.LoginStart | src/UserService.php:26-47 | a loaded current user is reset before logging in |
| Sessions.Login | src/UserService.php:26-47 | success exactly when the name is an e-mail, an active row has it and the password validates for that row; then the session holds the id and the user is that row; on failure the user has no id |
| Sessions.LoginAccepts | src/UserService.php:26-47 | a row that may log in, has the name and a hash verifying the password, is logged into |
| Sessions.LoginAsWritten | src/UserService.php:26-47 | as written, logging in uses the throwing password check |
| Sessions.FederatedLoginThrows | src/UserService.php:26-47 | for a user signed up through Google (no hash) the as-written login throws; the corrected one refuses |
| Sessions.Logout | src/UserService.php:49-53 | the session is cleared and the user has no id and no data |
| Sessions.LogoutMakesGuest | src/UserService.php:49-53 | after logout the visitor is a guest, not an administrator, and holds only "member of guests" |
| Sessions.LoginThenLogout | src/UserService.php:26-53 | whatever the login did, logout leaves a guest with no session |
| Sessions.SecondsAreHeld | src/UserService.php:55-63 | the commands taken from the filtered pairs are exactly the requested ones the user holds |
| Sessions.OnAuthorize | src/UserService.php:55-63 | a visitor without id is granted nothing; a loaded user exactly the requested rights they hold |
| GoogleJwt.Explode | src/Api/Google/GoogleJwt.php:58 | `explode(".")` gives at least one part and no part contains a dot |
| GoogleJwt.JoinExplode | src/Api/Google/GoogleJwt.php:58 | joining the parts with dots gives back the token |
| GoogleJwt.ExplodeJoin | src/Api/Google/GoogleJwt.php:58 | splitting dot-free parts joined with dots gives back the parts |
| GoogleJwt.DecodePart | src/Api/Google/GoogleJwt.php:59-61 | a part decodes when it exists, is base64 and its JSON is a non-empty array |
| GoogleJwt.Parse | src/Api/Google/GoogleJwt.php:54-62 | the token parses exactly when header and payload decode to non-empty arrays and the signature to a truthy string |
| GoogleJwt.Find | src/Api/Google/GoogleJwt.php:102 | the first position holding one of the stop characters, or the length |
| GoogleJwt.LastIndex | src/Api/Google/GoogleJwt.php:102 | the position of the last occurrence of a character, none when it does not occur |
| GoogleJwt.AfterLastAt | src/Api/Google/GoogleJwt.php:102 | the text after the last `@`: it has no `@`, its characters come from the input, and it is the whole input when there is no `@` |
| GoogleJwt.HostStart | src/Api/Google/GoogleJwt.php:102 | where `parse_url` starts reading the host, within the URL; a string with neither `:` nor a leading `//` has none |
| GoogleJwt.PortColon | src/Api/Google/GoogleJwt.php:102 | the colon before the port is the last colon, none in a bracketed IPv6 address |
| GoogleJwt.HostIn | src/Api/Google/GoogleJwt.php:102 | a host read from an authority is nonempty and has no `/`, `?`, `#`, `@` or control character |
| GoogleJwt.UrlHost | src/Api/Google/GoogleJwt.php:102 | a host is nonempty and has no `/`, `?`, `#`, `@` or control character; a string with neither `:` nor a leading `//` has no host |
| GoogleJwt.SchemeHost | src/Api/Google/GoogleJwt.php:102 | `scheme://host` has that host |
| GoogleJwt.SchemeHostPort | src/Api/Google/GoogleJwt.php:102 | `scheme://host:port` with a port of at most 65535 has the host before the last colon |
| GoogleJwt.SchemeHostBadPort | src/Api/Google/GoogleJwt.php:102 | `scheme://host:text` is rejected when the text is longer than five characters or `strtol` reads no port of at most 65535 from it |
| GoogleJwt.HostPort | src/Api/Google/GoogleJwt.php:102 | `host:port` without a scheme or `//` is read as a host and a port |
| GoogleJwt.BareHost | src/Api/Google/GoogleJwt.php:102 | a bare host name without a scheme, `//` or colon has no host |
| GoogleJwt.IsValidIssuerAsWritten | src/Api/Google/GoogleJwt.php:100-108 | a non-string issuer throws; otherwise valid exactly when its URL host is `accounts.google.com` |
| GoogleJwt.IsValidIssuer | src/Api/Google/GoogleJwt.php:72 | valid exactly when the issuer is `accounts.google.com` or a URL with that host |
| GoogleJwt.BareIssuerRejected | src/Api/Google/GoogleJwt.php:100-108 | as written, the bare issuer `accounts.google.com` is rejected |
| GoogleJwt.IssuerWithPortAccepted | src/Api/Google/GoogleJwt.php:100-108 | as written, `accounts.google.com:443` is accepted, being read as a host and a port |
| GoogleJwt.NonNumericPortRejected | src/Api/Google/GoogleJwt.php:100-108 | `https://accounts.google.com:abc` is rejected by both issuer checks |
| GoogleJwt.BothIssuerFormsAccepted | src/Api/Google/GoogleJwt.php:72 | both `accounts.google.com` and `https://accounts.google.com` are accepted |
| GoogleJwt.IssuerChecksAgree | src/Api/Google/GoogleJwt.php:100-108 | for every other issuer both checks agree |
| GoogleJwt.IsValidAudienceAsWritten | src/Api/Google/GoogleJwt.php:91-98 | as written, any truthy client id is called as a function and throws |
| GoogleJwt.IsValidAudience | src/Api/Google/GoogleJwt.php:91-98 | with no or a falsy client id, valid; otherwise valid exactly when `aud` equals it |
| GoogleJwt.AudienceCheckThrows | src/Api/Google/GoogleJwt.php:91-98 | a token issued to the client is refused by an exception as written and accepted by the corrected check |
| GoogleJwt.AudienceChecksAgree | src/Api/Google/GoogleJwt.php:91-98 | without a truthy client id both checks accept |
| GoogleJwt.IsValidExpiration | src/Api/Google/GoogleJwt.php:110-117 | a numeric `exp` is valid exactly when not before now; a missing one is expired |
| GoogleJwt.ExpirationMonotone | src/Api/Google/GoogleJwt.php:110-117 | a token valid at a later time was valid earlier |
| GoogleJwt.IsValidAsWritten | src/Api/Google/GoogleJwt.php:82-89 | a rejected issuer gives false; true needs an accepted issuer, no truthy client id and a good signature |
| GoogleJwt.IsValid | src/Api/Google/GoogleJwt.php:82-89 | true exactly when issuer, audience and signature are all accepted; the expiry check is not part of it |
| GoogleJwt.IssuerFailureSkipsSignature | src/Api/Google/GoogleJwt.php:82-89 | a rejected issuer decides the answer whatever the signature check would say |
| GoogleJwt.Strtr | src/Api/Google/GoogleJwt.php:193 | translation keeps the length |
| GoogleJwt.StrtrKeepsByteLength | src/Api/Google/GoogleJwt.php:193 | translation keeps the byte length |
| GoogleJwt.PadCount | src/Api/Google/GoogleJwt.php:188-192 | fewer than four padding bytes, bringing the length to a multiple of four, none when it already is |
| GoogleJwt.PadToQuad | src/Api/Google/GoogleJwt.php:188-192 | the input followed by only `=` up to a multiple of four bytes |
| GoogleJwt.ConvertBase64UrlToBase64 | src/Api/Google/GoogleJwt.php:186-194 | each input character translated from the URL-safe alphabet, then `=` padding to a multiple of four bytes; no `-` or `_` remains |
| GoogleJwt.ConvertKeepsStandard | src/Api/Google/GoogleJwt.php:186-194 | padded standard base64 is left unchanged |
| GoogleJwt.ConvertIdempotent | src/Api/Google/GoogleJwt.php:186-194 | converting twice is converting once |
| UserApi.OnLogin | src/Api/UserApi.php:28-58 | with the corrected password check: the registry is untouched; missing credentials give Bad Request; non-string credentials throw; a failed login gives Unauthorized with no user; success reports the username and id of the active row logged into, whose hash verifies the password |
| UserApi.LoginSucceedsIff | src/Api/UserApi.php:28-58 | a login request succeeds exactly when the name is an e-mail of an active row whose password validates |
| UserApi.RegistrationInstance | src/Api/UserApi.php:86-89 | the instance built for registration holds the name and a hash of the password, and fails exactly for a non-string or short password |
| UserApi.RegistrationCreate | src/Api/UserApi.php:86-89 | creating the registered user fails exactly for a non-string or short password |
| UserApi.Enrol | src/Api/UserApi.php:86-96 | a bad password throws with nothing changed; otherwise Success means the session holds the new row, which has the name and validates the password |
| UserApi.OnRegister | src/Api/UserApi.php:60-97 | failed input checks give Bad Request with nothing changed; a taken name gives Conflict with nothing stored; success logs into a stored row with that name and password |
| UserApi.RegisteredRow | src/Api/UserApi.php:86-89 | the created row is active, may log in, and keeps the name and the password hash |
| UserApi.RegisteredRecord | src/Service.php:177-188 | registration adds exactly one new active row with the name and a verifying hash and keeps every other row |
| UserApi.UnknownNameHasNoRow | src/Api/UserApi.php:81-84 | when `findUser` finds nothing, no active row has the name and the store is unchanged |
| UserApi.RegisterLogsIn | src/Api/UserApi.php:60-97 | a valid registration of an unknown e-mail with a long enough password ends in Success |
| UserApi.EnrolLogsIn | src/Api/UserApi.php:86-96 | after creating the user the login step succeeds |
| UserApi.RegisterTakenName | src/Api/UserApi.php:81-84 | a name an active row already has gives Conflict |
| UserApi.OnLogout | src/Api/UserApi.php:107-111 | Success, no session, a guest who is not an administrator, registry untouched |
| SettingsApi.OnSettings | src/Api/SettingsApi.php:19-39 | `get` reports the current username; an unknown operation sets no status and changes nothing; only `set` can change the store, and only with Success |
| SettingsApi.SetSettings | src/Api/SettingsApi.php:41-72 | with the strict password confirmation: a missing current password is refused; a stored hash must validate it; any exception leaves the store unchanged; Success needs a loaded user and an accepted current password; a new password is stored only when confirmed and then verifies |
| SettingsApi.NullHashSkipsCheck | src/Api/SettingsApi.php:49-52 | a user signed in through Google has any truthy current password accepted |
| SettingsApi.ChangePassword | src/Api/SettingsApi.php:74-87 | strict confirmation: non-strings throw, differing strings are refused, short ones too; otherwise the new hash verifies it and only the password changes |
| SettingsApi.ChangePasswordAsWritten | src/Api/SettingsApi.php:74-87 | as written, the confirmation only has to be loosely equal |
| SettingsApi.ChangePasswordsAgree | src/Api/SettingsApi.php:78 | unless both strings are numeric the loose and strict confirmations agree |
| SettingsApi.LooseConfirmationAccepted | src/Api/SettingsApi.php:78 | as written `+123456` confirmed by `123456` is accepted and the stored hash does not verify the confirmation; strictly it is refused |
| SettingsApi.Persist | src/Api/SettingsApi.php:70-71 | saving fails for a guest and keeps the changed instance; otherwise the store is the saved one and nothing stays modified |
| SettingsApi.AssignUsername | src/Api/SettingsApi.php:67 | the new username must be an e-mail address and then is the only column changed |
| SettingsApi.Rename | src/Api/SettingsApi.php:61-71 | a username loosely equal to the current one is left alone; a taken one is refused; otherwise it is set; errors leave the store unchanged |
| SettingsApi.RenamePersisted | src/Api/SettingsApi.php:61-71 | after the rename and save the user's row equals the instance |
| SettingsApi.SettingsPersisted | src/Api/SettingsApi.php:41-72 | for a visitor loaded from the store, after a successful save the row equals the visitor's instance |
| UserCliApi.CheckRight | src/Api/UserCliApi.php:20-36 | reports whether the right is held, and throws exactly when an expectation is given and contradicted |
| UserCliApi.GrantStage | src/Api/UserCliApi.php:59-62 | with `--grant`, a non-string throws; success means the right is held and reported held; users and meta are untouched |
| UserCliApi.RevokeStage | src/Api/UserCliApi.php:63-66 | with `--revoke`, a non-string throws; success means the right is no longer held; only the rights table can change |
| UserCliApi.QueryStage | src/Api/UserCliApi.php:67-69 | with `--hasRight`, reports whether the right is held, never throws for a string |
| UserCliApi.ListStage | src/Api/UserCliApi.php:70-73 | with `--list`, every stored right of the user is listed as its command; a loaded user with a consistent dictionary never fails |
| UserCliApi.PasswordStage | src/Api/UserCliApi.php:74-78 | with `--setPassword`, the saved instance's hash verifies the new password; an exception leaves the store unchanged |
| UserCliApi.Stages | src/Api/UserCliApi.php:55-80 | the stages keep the cache and the set of instances; the reply names the user found |
| UserCliApi.OnRequest | src/Api/UserCliApi.php:48-81 | a boolean user throws a type error; a user that is not found, including the default, throws with the store unchanged; success reports the found user's id |
| UserCliApi.GrantCheckPasses | src/Api/UserCliApi.php:59-62 | for a user with an integer id the check after granting passes |
| UserCliApi.RevokeCheckPasses | src/Api/UserCliApi.php:63-66 | for a loaded user the check after revoking passes exactly unless the right is "member of users", which then throws |
| UserCliApi.GrantRequestHolds | src/Api/UserCliApi.php:48-81 | a grant-only request succeeds and leaves the right held |
| UserCliApi.RevokeMemberOfUsersThrows | src/Api/UserCliApi.php:63-66 | revoking "member of users" from a loaded user always throws |
| Scenarios.GrantKeepsAbsent | src/User.php:477-490 | granting other rights leaves an absent explicit right absent |
| Scenarios.RevokeRemoves | src/User.php:502-514 | a revoked explicit right is no longer held |
| Scenarios.RevokeKeepsOthers | src/User.php:502-514 | revoking other rights keeps a held right |
| Scenarios.HeldAnswers | src/User.php:524-577 | for three rights, `hasRight`, `hasRightsAll` and an empty filter answer from which of them are held |
| Scenarios.GrantTwoRevokeOne | tests/Unit/ServiceTest.php:162-180 | the first half of the rights test: the expected answers before granting, after granting two and after revoking one |
| Scenarios.GrantRestRevokeAll | tests/Unit/ServiceTest.php:182-192 | the second half: all held after granting the rest, none after revoking all, three after granting all |
| Scenarios.AssignPassword | src/User.php:180-235 | assigning a long enough password other than the stored column goes through `setPassword` |
| Scenarios.ForbidLogin | src/User.php:243-252 | after clearing the login flag no password validates |
| Scenarios.PasswordSequence | tests/Unit/ServiceTest.php:127-160 | the password test: the set password validates and the wrong, empty and short ones do not; a new password replaces the old one; forbidding login makes it fail again |

## Left out

- Sessions and cookies: the PHP session is a parameter (`Sessions.Bag`) and the result carries the new session entry.
- Logging and `trigger_error` warnings, the report messages of `rms:user` and the status messages of the handlers are left out: they carry no decisions.
- `remember()` and the `remember` flag of `rms:login`: the method is not part of this model.
- `onContent` in `UserApi.php` only wakes the user object. `CmsIntegration.php`, `GoogleApi.php` and the JavaScript components are not part of this model.
- `getPublicUserData`, `__toString`, `__isset` and `__destruct` produce display data or warnings only.
- The `landingPage` and `referrerPage` metadata `create()` copies from analytics come from a service that is not part of this model.
- The static `User::getUser`, `User::createUser` and `User::searchMeta` forward to the registry, and `remove()` forwards to `Registry.RemoveUser`. They are modelled by those members.
- JWT signature verification (`isValidSignature`) needs RSA, Google's published keys and the network. It is a parameter `signature` of `GoogleJwt.IsValid`. The base64 and JSON decoders are parameters of `GoogleJwt.Parse`. `jsonSerialize` only re-encodes.
- The clock (`time()`) is a parameter `now`.
- Weak references: the collector is not modelled. A cache entry's liveness is a flag, and any entry may be dead.
- MySQL: collation (case-insensitive usernames), unique indexes and the result order of queries without `ORDER BY` are not modelled. Results are taken in ascending id order, and the first active row wins.
- Table defaults on insert are assumed: `removed` 0 and `canLogin` 1.
- User ids are integers. A non-integer id matches no row.
- Syntax.IsEmail: simplified. One `@`, a non-empty local part, a dotted domain and no spaces, not the full `FILTER_VALIDATE_EMAIL` grammar.
- Syntax.IsNumeric: an optional sign and decimal digits only. No decimals, exponents or surrounding whitespace.
- Comparison.LooseEquals: built on the simplified `is_numeric`. Floats are not modelled, so two numeric strings past the 64-bit range compare by their exact values rather than as floats.
- User ids and other integers are unbounded. The one `intval` call, in `findUser`, is saturated explicitly (`Syntax.Intval`); 64-bit overflow elsewhere is not modelled.
- UserApi.OnLogin: built on the corrected `Sessions.Login` of the first Findings row, which refuses a user without a password hash instead of throwing. So are `UserApi.LoginSucceedsIff`, `UserApi.Enrol`, `UserApi.EnrolLogsIn`, `UserApi.OnRegister` and `UserApi.RegisterLogsIn`. As written, the handler ends in the TypeError for such a user, as `Sessions.LoginAsWritten` and `Sessions.FederatedLoginThrows` show.
- SettingsApi.SetSettings: built on the corrected `SettingsApi.ChangePassword` of the last Findings row, which demands a strictly equal confirmation. So are `SettingsApi.OnSettings` and `SettingsApi.SettingsPersisted`. As written, a loosely equal confirmation such as `+123456` for `123456` is accepted, as `SettingsApi.LooseConfirmationAccepted` shows.
- GoogleJwt.UrlHost: follows `parse_url`'s host path: the scheme and `host:port` decisions, `file:///`, user info, the last colon before the port, bracketed IPv6 hosts, the port bounds, and control characters becoming `_`. It leaves out the whitespace and sign `strtol` accepts before a port, and it does not parse the path, query or fragment, which the host does not depend on.
- Users.LocaleParts: accepts `ll_RR`-style locales with ASCII letters. ICU's locale canonicalisation is not modelled.
- GoogleJwt.IsValidExpiration: an `exp` claim of a type other than number, null or boolean is a type error, without modelling PHP's conversions.
- `Values.Json` numbers are integers.
- Digests.PasswordHash: `password_hash` is a salted bcrypt. The model is the deterministic `"$2y$" + plain`, which keeps only the property that a hash verifies exactly its own plaintext.
- Salt, cost and rehashing are not modelled. Neither is setting the password column to exactly the current hash string, which the setter's identity check turns into a no-op; `Scenarios.PasswordSequence` excludes it.

## Findings

| source | as written | input that shows it | evidently intended | confidence | as-written member | corrected member |
|---|---|---|---|---|---|---|
| src/User.php:243-252 | `password_verify` is called with the stored hash even when it is null; under strict types that throws a TypeError | a user created through Google sign-in (no password, `canLogin` 1) and any password of six or more bytes | refuse the password, as the null-hash comment in `SettingsApi.php:49` expects | not executed | Users.ValidatePasswordAsWritten, Users.NullHashCounterexample, Sessions.LoginAsWritten, Sessions.FederatedLoginThrows | Users.ValidatePassword, Sessions.Login |
| src/Api/Google/GoogleJwt.php:93 | `$googleClientId()` calls the client id string as a function | any truthy client id, e.g. a token with `aud` equal to that id | compare `aud` with `$googleClientId` | not executed | GoogleJwt.IsValidAudienceAsWritten, GoogleJwt.AudienceCheckThrows | GoogleJwt.IsValidAudience |
| src/Api/Google/GoogleJwt.php:102-103 | the issuer must have the URL host `accounts.google.com`; a bare `accounts.google.com` has no host | `iss` = `accounts.google.com` | accept both `accounts.google.com` and `https://accounts.google.com`, as the doc comment at line 72 states | not executed | GoogleJwt.IsValidIssuerAsWritten, GoogleJwt.BareIssuerRejected | GoogleJwt.IsValidIssuer, GoogleJwt.BothIssuerFormsAccepted |
| src/Api/SettingsApi.php:78 | the new password and its confirmation are compared with the loose `!=` | `password` = `+123456`, `confirmPassword` = `123456` | refuse a confirmation that differs from the password | not executed | SettingsApi.ChangePasswordAsWritten, SettingsApi.LooseConfirmationAccepted | SettingsApi.ChangePassword |
