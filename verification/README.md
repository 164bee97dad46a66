# Verified models of the go.webapp components

This project models, in Dafny 4.11, the parts of the cloudengio/go.webapp repository that carry
their own semantics, and proves what their documentation and tests rely on. `dafny verify
dfyconfig.toml` verifies everything.

| files | component |
|---|---|
| `Permissions.dfy` | wildcard permission patterns and permission sets |
| `Relay.dfy`, `RelayRuns.dfy` | the webhook relay, and every interleaving of its handlers, scans and clock |
| `Certs.dfy`, `ServingCache.dfy`, `ServingOrder.dfy` | PEM files, chains, the TTL cache that serves certificates to concurrent calls, and which file it serves when loads overlap |
| `CertCache.dfy` | the ACME caching store over a local and a backing store |
| `Base64.dfy`, `Passkeys.dfy`, `PasskeyLogins.dfy`, `PasskeyStore.dfy` | passkey identifiers, the begin/finish protocol, overlapping handlers, and all of it on shared arrays |
| `Serials.dfy`, `Hex.dfy` | serial numbers as text, hexadecimal text |
| `Secrets.dfy`, `Signature.dfy` | webhook secrets, signed payloads |
| `Css.dfy` | class collection and the Tailwind directive |
| `TlsValidate.dfy` | the verdict of the TLS validator on a host and on the connections made to it |
| `Common.dfy` | shared vocabulary |

How the source's behaviour is represented:

- **Objects that are updated in place** (the relay, both certificate caches, the passkey store, the
  secrets configuration, tokens) are classes; each method is proved against a function of the old
  state. Loops stay loops.
- **Concurrency** is a state machine. A run is any sequence of events; an event that is not enabled
  changes nothing, so a statement about all event sequences is a statement about all
  interleavings. The relay and the serving cache have lemmas saying that the steps of one call,
  taken without interruption, do what the sequential method does, and so have the passkey handlers.
- **Atomic steps** are the critical sections and channel operations of the source. `UpdateCredential`
  (webauth/webauthn/passkeys/user.go:106-114) holds no lock; the model takes one call of it as
  atomic, so interleavings inside its loop are not covered.
- **History** that only records (tickets and fates of deliveries, the log of insertions, the step
  number of a store read) is part of a state but read by no step.
- **I/O, clocks, randomness and cryptography** are arguments: function-valued fields (x509, HMAC,
  IDNA, header canonicalisation), outcomes of locks, stores and ceremonies, clock readings, random
  bytes, map iteration orders.

Where the code and its documentation differ, the model follows the code:

- `TailwindSourceInline` also drops classes with a backslash; its comment names only `"` and `)`.
- `WithCheckZeroSerialNumbers` speaks of all addresses; the code examines the first connection.
  `ZeroCheckCoversAllExactly` and `VerdictInAnyOrder` say exactly what follows, and
  `OrderChangesVerdict` gives two connections whose order decides.
- `Delete` of an ACME account key saved under another name reaches the local store only
  (`DeleteThenGet`, `DeletedKeySurvives`).
- The serving cache bounds the age of the insertion, not of the verification or of the file read,
  and a load may insert a file after a newer one was inserted. `CacheIsNewestExactly` says exactly
  when every entry is the newest-read file, `HitAge` what the age of a hit is bounded by, and
  `SupersededCertificateServed` and `OvertakenLoadServed` give the run.
- Of two overlapping logins with one passkey the earlier credential update is lost
  (`OverlappingUpdateLost`); `UpdateSurvivesExactly` says which updates stay.
- A user identifier text of more than 86 valid characters makes the parser panic instead of
  failing (`UnmarshalTextExactly`, `CrashingText`).
- A host that leaves no address to dial makes the TLS validator panic instead of failing
  (`NothingToDial`, `UnexpandedNameCrashes`).
- The two serial number printers agree only on positive numbers (`PrintersAgreeExactly`), and a
  text that parses to a user identifier need not be its text (`CanonicalIdText`, `NonCanonicalIdText`).

## Model

| member | source | states |
|---|---|---|
| `Permissions.Allowed` | webauth/permissions/permissions_spec.go:32-80 | for all strings and any limit, the shortcuts and the loop decide exactly the plain component meaning, and no index is out of range |
| `Permissions.SplitSize` | webauth/permissions/permissions_spec.go:36-37 | counting separators gives the number of split components |
| `Permissions.SuffixIsTrailingWildcard` | webauth/permissions/permissions_spec.go:47 | the raw suffix test holds exactly when there are two or more components and the last is the wildcard |
| `Permissions.PrefixShortcut` | webauth/permissions/permissions_spec.go:48-55 | the prefix shortcut accepts only what the component meaning accepts |
| `Permissions.MatchesTransitive` | webauth/permissions/permissions_spec.go:32-80 | matching chains, although wildcards in a requirement are literal |
| `Permissions.MutualMatchIsEquality` | webauth/permissions/permissions_spec.go:32-80 | two patterns allow each other exactly when they are the same string within the limit: reflexive and antisymmetric |
| `Permissions.MatchesIsContainment` | webauth/permissions/permissions_spec.go:22-31 | one pattern allows another exactly when it allows every wildcard-free requirement that the other allows |
| `Permissions.Satisfies` | webauth/permissions/permissions.go:44-57 | true exactly when all four fields of the requirement are set and some permission has its role and method and allows its action by ':' and its resource by '/' |
| `Permissions.MemberIsSatisfied` | webauth/permissions/permissions.go:38-57 | a set satisfies its own member within the limit exactly when role and method are set |
| `Permissions.OtherRolesAreNot` | webauth/permissions/permissions.go:49-50 | no permission of another role or method satisfies a requirement |
| `Permissions.WildcardsGrantBelow` | webauth/permissions/permissions.go:51-52 | a trailing wildcard after ':' in the action and after '/' in the resource grants exactly what lies below and is within the limit |
| `Permissions.SatisfiesComposes` | webauth/permissions/permissions.go:44-57 | if A satisfies every spec of B and B satisfies a requirement, A satisfies it |
| `Permissions.SatisfiesMonotone` | webauth/permissions/permissions.go:44-57 | adding permissions never removes a satisfied requirement |
| `Relay.NewConfig` | webhooks/relay.go:155-187 | an option that was set is kept, an empty header list included; an unset queue size, payload limit or header list becomes the default |
| `Relay.Relay.ForwardedHeaders` | webhooks/relay.go:296-307 | the result is the request header restricted to configured names that carry a value, whatever their order or repetition |
| `Relay.Relay.Prepare` | webhooks/relay.go:220-252 | the checks in order, which failures count as denied, and the stamped delivery; the fields that decide are the next row |
| `Relay.ScreenExactly` | webhooks/relay.go:221-250 | a request passes exactly when its length, content type, method, body, validator status 200 and context are all as required; the first that is not decides the status; denied exactly for validator statuses 400 to 499 |
| `Relay.StampedExactly` | webhooks/relay.go:252 | a delivery is the validated payload with the configured headers that carry values, and expires one ttl after the stamp |
| `Relay.Relay.Send` | webhooks/relay.go:251-254 | a full queue loses exactly its oldest delivery |
| `Relay.Relay.Receive` | webhooks/relay.go:273-277 | the oldest delivery is handed out and removed |
| `Relay.Relay.Scan` | webhooks/relay.go:191-208 | the scan keeps exactly what is unexpired when examined, in order; nothing is dropped when the ttl is not positive |
| `Relay.Relay.ServeWebhook` | webhooks/relay.go:220-261 | response, queue and counters of one delivery, for every screening outcome and cancellation |
| `Relay.Relay.WaitForWebhook` | webhooks/relay.go:268-291 | response, queue and read counter of one poll for every verb and every end of the wait: a delivery, a closed FIFO, a cancelled request |
| `Relay.Relay.PollResponse` | webhooks/relay.go:278-283 | the header written to the client is the forwarded header with the content type replaced, for every iteration order |
| `Relay.ForwardedIsCanonical` | webhooks/relay.go:296-307 | forwarded headers have canonical names and carry values, which is what the poll response relies on |
| `RelayRuns.PolledIsSubsequence` | webhooks/relay.go:220-291 | in every interleaving polled deliveries are accepted ones in order, each held by at most one handler |
| `RelayRuns.AcceptedSplits` | webhooks/relay.go:251-291 | accepted splits exactly into polled, overflowed, expired and queued, and the queue never exceeds its size |
| `RelayRuns.LosslessIsFifo` | webhooks/relay.go:19-27 | polled followed by queued is what was accepted exactly when nothing overflowed or expired |
| `RelayRuns.CountersBalance` | webhooks/relay.go:251-254 | relayed and read plus the handlers between channel operation and increment equal accepted and polled; denied counts the denied requests |
| `RelayRuns.AcceptedWereServed` | webhooks/relay.go:220-254 | in every interleaving each accepted delivery comes from a request of its own that the validator answered with 200 and that met every other check, carries its payload and configured headers, and expires one ttl after it was served; all stated on the fields |
| `RelayRuns.PolledWereServed` | webhooks/relay.go:220-291 | so is each polled delivery, and no two come from one request |
| `RelayRuns.DeniedWereRefused` | webhooks/relay.go:240-245 | a handler counts as denied exactly when its request reached the validator and was answered with 400 to 499 |
| `RelayRuns.DeliveryExpires` | webhooks/relay.go:200-206 | a delivery alone in the queue is removed by a scan exactly when the clock has moved more than one ttl since it was served |
| `RelayRuns.UnansweredPolls` | webhooks/relay.go:273-290 | a poll ends without an answer only when it was cancelled or the relay was stopped |
| `RelayRuns.LossesAreJustified` | webhooks/relay.go:101-106 | overflow only after a queue's worth of newer deliveries, expiry only with a positive ttl and a stamp in the past |
| `RelayRuns.ScanRemovesExpired` | webhooks/relay.go:191-208 | in every reachable state a scan removes exactly the elements whose stamp has passed as they are examined and keeps the order of the rest, sorted stamps or not |
| `RelayRuns.UninterruptedServe` | webhooks/relay.go:220-261 | the steps of one delivery give the response, queue and counters of ServeWebhook, for every screening outcome and cancellation |
| `RelayRuns.UninterruptedPoll` | webhooks/relay.go:268-291 | the steps of one poll give the response, queue and counter of WaitForWebhook, for every verb and every end of the wait |
| `RelayRuns.SweepIsScan` | webhooks/relay.go:200-207 | the scan step removes what the relay's scan removes |
| `Certs.ParsePEM` | certs.go:113-131 | each list is the blocks of its kind in file order |
| `Certs.KindsExclusive` | certs.go:121-128 | no block belongs to two of the lists |
| `Certs.PEMTypes` | certs.go:121-128 | the lists hold exactly the blocks of type CERTIFICATE and those whose type ends in PRIVATE KEY and PUBLIC KEY |
| `Certs.ParseCertsPEM` | certs.go:96-109 | all blocks parsed in order, or an error for an empty list or any bad block |
| `Certs.VerifyCertChain` | certs.go:40-65 | succeeds exactly when there is one non-CA certificate and it verifies against all CA certificates of the list |
| `Certs.LoadCertificate` | servingcache.go:145-185 | a file loads exactly when it has certificates and a key, the chain verifies for the name, its first certificate is not a CA and the key matches |
| `Certs.LoadedChainShape` | servingcache.go:146-185 | a loaded chain keeps all CERTIFICATE blocks in order, with exactly one non-CA certificate, first, verified for the name against the rest |
| `Certs.LoadedKey` | servingcache.go:150-185 | the key that is served is that of the first PRIVATE KEY block of the file, and it matches the chain |
| `ServingCache.CertServingCache.Get` | servingcache.go:96-105 | the entry of the name when its expiry lies after the given time, else nothing |
| `ServingCache.CertServingCache.Put` | servingcache.go:107-114 | only the entry of the name changes |
| `ServingCache.CertServingCache.GetCertificate` | servingcache.go:117-189 | answer and cache of a call with nothing interleaved, error paths included |
| `ServingCache.AdmittedExactly` | servingcache.go:119-133 | a call works under a name exactly when its server name has a dot between two other characters, converts to that name, and the name is permitted |
| `ServingCache.QualifiedNames` | servingcache.go:123-133 | a two-part name is admitted, a name without dots is not |
| `ServingCache.CallsBegan` | servingcache.go:117-136 | in every interleaving a call works, and is answered, under the name its own server name is admitted as, with the clock reading of its beginning |
| `ServingCache.UnreadableCall` | servingcache.go:140-143 | a call that misses and cannot read its file, removed or unreadable, is refused and changes nothing |
| `ServingCache.ReturnedCertificates` | servingcache.go:96-189 | in every interleaving a returned certificate was verified for that name at load, from what the store held under it at a step between verification clock and insertion, and was loaded by this call or inserted under that name less than one ttl before its clock reading |
| `ServingCache.ReturnedChains` | servingcache.go:169-188 | every returned chain has its one non-CA certificate at position 0, verified for the name against the rest of the chain |
| `ServingCache.OnlyAllowedNames` | servingcache.go:131-133 | names outside a non-empty allowed list never reach the cache, the store or a load |
| `ServingCache.OnlyLoadsChangeCache` | servingcache.go:140-187 | the cache changes only when a load succeeds, and then in the one entry of its name |
| `ServingCache.UninterruptedCall` | servingcache.go:117-189 | the four steps of a call, uninterrupted, do what the sequential method does |
| `ServingCache.SupersededCertificateServed` | servingcache.go:135-188 | a reachable run in which a hit serves a file verified any time ago and superseded by a newer insertion; the exact condition is the next row |
| `ServingOrder.CacheIsNewestExactly` | servingcache.go:135-188 | throughout a run every entry is the newest-read file inserted under its name exactly when no load was overtaken: read the store before, and inserted after, another load of the name |
| `ServingOrder.EntryNewestExactly` | servingcache.go:107-188 | in every reachable state an entry is superseded exactly when the load that wrote it was overtaken |
| `ServingOrder.HitServesNewestExactly` | servingcache.go:96-143 | a hit returns the newest-read file inserted so far under its name exactly when the load that wrote the entry was not overtaken |
| `ServingOrder.SerialisedLoadsServeNewest` | servingcache.go:135-188 | when nothing of a name is inserted between a load's store read and its insertion, insertions are in read order and the cache always serves the newest-read file |
| `ServingOrder.HitAge` | servingcache.go:96-188 | a hit was verified, and its file read, less than one ttl plus the duration of its load before; within ttl + d when no load takes longer than d |
| `ServingOrder.OvertakenLoadServed` | servingcache.go:135-188 | the condition is needed: a reachable hit that serves an overtaken load of any age |
| `CertCache.CachingStore.Put` | webauth/acme/certcache/cache.go:277-306 | error of every path, and the change of exactly the routed cell |
| `CertCache.CachingStore.Get` | webauth/acme/certcache/cache.go:231-264 | data of the routed cell, miss exactly when it is empty, and the error of every failing lock or store |
| `CertCache.CachingStore.Delete` | webauth/acme/certcache/cache.go:198-221 | error of every path, and the removal of exactly the deleted cell |
| `CertCache.RoutedExactly` | webauth/acme/certcache/cache.go:176-181 | which cell every name is read, written and deleted in, on the text of the name: local exactly for names that end in +token, hold http-01, end in +rsa without RSA allowed, or are an account key that is not saved |
| `CertCache.ChallengesAreLocal` | webauth/acme/certcache/cache.go:176-181 | challenge tokens and http-01 names of any form, and RSA names when not allowed, stay local for every operation |
| `CertCache.PutErrorExactly` | webauth/acme/certcache/cache.go:277-306 | a Put is refused for its name exactly when it ends in +rsa and RSA is not allowed, then for a readonly instance, else it fails with its cell |
| `CertCache.DeleteErrorExactly` | webauth/acme/certcache/cache.go:198-221 | a Delete is refused exactly on a readonly instance and else fails with its cell |
| `CertCache.AccessFailsExactly` | webauth/acme/certcache/cache.go:252-262 | only local cells need the lock; which error each failure gives |
| `CertCache.CellHoldsLatestWrite` | webauth/acme/certcache/cache.go:198-306 | after any history a cell holds data exactly when the latest successful call that reached it was a Put of that data |
| `CertCache.DeleteReachesCell` | webauth/acme/certcache/cache.go:204-219 | Delete reaches the cell Get reads for every name but a renamed account key |
| `CertCache.DeleteThenGet` | webauth/acme/certcache/cache.go:198-274 | a successful Delete makes the name a miss exactly when it is not a renamed account key or was a miss before |
| `CertCache.DeletedKeySurvives` | webauth/acme/certcache/cache.go:198-306 | from empty stores, an account key saved under another name, put and then deleted with success, is still returned |
| `CertCache.AliasedNames` | webauth/acme/certcache/cache.go:266-274 | two names share a cell exactly when equal or both stand for the saved account key |
| `CertCache.NamesStayConfined` | webauth/acme/certcache/cache.go:176-195 | from empty stores the backing store holds only non-local names and the account key name; the local store only local names, no disallowed RSA name and no saved account key |
| `CertCache.SecretsStayLocal` | webauth/acme/certcache/cache.go:172-195 | after any history no challenge and no account key is in the backing store under its own name, unless that is the configured account key name; the local store holds nothing else |
| `CertCache.ReadonlyChangesNothing` | webauth/acme/certcache/cache.go:282-285 | a readonly instance changes neither store |
| `Base64.RoundTrip` | webauth/webauthn/passkeys/user.go:28-47 | every byte string is decoded from its text |
| `Base64.Alphabet` | webauth/webauthn/passkeys/user.go:28-47 | characters are those of the table of section 5 of RFC 4648, in both directions |
| `Base64.SameNumber` | webauth/webauthn/passkeys/user.go:28-36 | the text says the number that the bytes say, moved up by the zero bits that fill the last group |
| `Base64.LineBreaksAreSkipped` | webauth/webauthn/passkeys/user.go:38-39 | line breaks of either kind do not matter, wherever they are |
| `Base64.TextRoundTrip` | webauth/webauthn/passkeys/user.go:38-47 | a text that decodes is the text of its bytes exactly when it has no line breaks and zero trailing bits |
| `Base64.DecodeIntoDone` | webauth/webauthn/passkeys/user.go:38-39 | decoding into a slice yields bytes exactly when plain decoding does and they fit |
| `Base64.OverrunsExactly` | webauth/webauthn/passkeys/user.go:38-39 | decoding writes beyond a slice of any length exactly when the text goes on and is valid to the end of the first group that does not fit |
| `Base64.SessionKeyShowsThreeQuarters` | webauth/webauthn/passkeys/session.go:38-45 | two session keys are equal exactly when the first three quarters of their random bytes are |
| `Passkeys.IdRoundTrip` | webauth/webauthn/passkeys/user.go:28-55 | the text of a 64-byte id parses back to it, and no two ids share a text |
| `Passkeys.UnmarshalTextExactly` | webauth/webauthn/passkeys/user.go:38-47 | on which texts the parser returns an identifier, an error, or panics because it decodes into 64 bytes; webauth/webauthn/passkeys/middleware.go:99 passes it a token's subject |
| `Passkeys.CrashingText` | webauth/webauthn/passkeys/user.go:38-39 | one character after the text of any identifier makes the parser panic |
| `Passkeys.CanonicalIdText` | webauth/webauthn/passkeys/user.go:38-47 | exactly which texts that parse are the text of their id |
| `Passkeys.NonCanonicalIdText` | webauth/webauthn/passkeys/user.go:38-47 | every identifier has a text that parses to it and is not its own |
| `Passkeys.StoreThenLookup` | webauth/webauthn/passkeys/user_db.go:44-59 | the string-keyed database is a map keyed by id |
| `Passkeys.RedemptionYieldsIssued` | webauth/webauthn/passkeys/session.go:47-67 | a redemption yields exactly the user and session data of the latest begin for its key, untouched since |
| `Passkeys.IssuedBetweenRedemptions` | webauth/webauthn/passkeys/session.go:47-89 | with no assumption on keys, a key is issued anew between two redemptions of it |
| `Passkeys.RedeemedAtMostOnce` | webauth/webauthn/passkeys/session.go:58-89 | with fresh keys each key is redeemed at most once in any run |
| `Passkeys.AuthenticationKeyCannotRegister` | webauth/webauthn/passkeys/passkeys.go:206-217 | a key issued for authentication and presented to FinishRegistration is consumed and stores nobody |
| `Passkeys.EntriesNameTheirUser` | webauth/webauthn/passkeys/passkeys.go:225-231 | in every reachable state each entry's key is the text of its own user's id and the user has a credential |
| `Passkeys.UsersAreTraced` | webauth/webauthn/passkeys/passkeys.go:196-234 | with fresh keys every stored user was begun in the run with the same details under a key no longer live |
| `Passkeys.RegisteredUserIsStable` | webauth/webauthn/passkeys/passkeys.go:274-336 | with fresh keys and ids a stored user keeps its id, details and list of credential IDs through every later step |
| `Passkeys.LoginStep` | webauth/webauthn/passkeys/passkeys.go:274-336 | a login is recorded in exactly the steps that redeem a live session for a stored user and a known credential and that the login manager accepts |
| `Passkeys.LoginWasEarned` | webauth/webauthn/passkeys/passkeys.go:274-336 | every recorded login, in order, is that of such a step |
| `Passkeys.LoginNeedsRegistration` | webauth/webauthn/passkeys/passkeys.go:196-336 | with fresh keys every recorded login comes after a begun and a finished registration of that user and after the begin that issued its session key |
| `PasskeyStore.User.AddCredential` | webauth/webauthn/passkeys/user.go:149-151 | the credential is appended, in place or in a larger copy |
| `PasskeyStore.User.UpdateCredential` | webauth/webauthn/passkeys/user.go:106-114 | the first credential with the ID is overwritten in the array, found or not is reported, IDs are kept |
| `PasskeyStore.RAMUserDatabase.Lookup` | webauth/webauthn/passkeys/user_db.go:51-59 | a fresh copy of the entry that shares its array |
| `PasskeyStore.RAMUserDatabase.Store` | webauth/webauthn/passkeys/user_db.go:44-49 | the struct is copied under the text of its id |
| `PasskeyStore.RAMUserDatabase.Redeem` | webauth/webauthn/passkeys/session.go:58-89 | the session is handed out once and forgotten |
| `PasskeyStore.RAMUserDatabase.WriteThrough` | webauth/webauthn/passkeys/passkeys.go:317 | updating a looked-up copy changes that entry of the database and no other |
| `PasskeyStore.RAMUserDatabase.BeginRegistration` | webauth/webauthn/passkeys/passkeys.go:146-165 | on the heap, the protocol's step on values |
| `PasskeyStore.RAMUserDatabase.BeginAuthentication` | webauth/webauthn/passkeys/passkeys.go:245-256 | on the heap, the protocol's step on values |
| `PasskeyStore.RAMUserDatabase.FinishRegistration` | webauth/webauthn/passkeys/passkeys.go:196-234 | on the heap, the protocol's step on values |
| `PasskeyStore.RAMUserDatabase.FinishAuthentication` | webauth/webauthn/passkeys/passkeys.go:274-336 | on the heap, despite the shared arrays, the protocol's step on values |
| `PasskeyStore.RAMUserDatabase.InterleavedHandlers` | webauth/webauthn/passkeys/passkeys.go:146-323 | in any interleaving of the accesses of any number of begins, registrations and logins, registrations of new users included, sessions and users go through the accesses as on values: a stale copy that is stored late undoes nothing |
| `PasskeyLogins.FreshIdsAreNew` | webauth/webauthn/passkeys/user.go:84-97 | distinct fresh identifiers at the begins are enough for every registration to be of a new user, however handlers overlap |
| `PasskeyLogins.RecordIsLatestWrite` | webauth/webauthn/passkeys/passkeys.go:291-323 | after any accesses the record of a credential ID in an entry is that of the latest access that wrote it, else the one at the start |
| `PasskeyLogins.UpdateSurvivesExactly` | webauth/webauthn/passkeys/passkeys.go:304-323 | an update survives exactly when no later access writes another record of its ID to that entry last |
| `PasskeyLogins.OverlappingUpdateLost` | webauth/webauthn/passkeys/passkeys.go:304-323 | two overlapping logins with one passkey, after which the first update is gone |
| `PasskeyLogins.EntriesKeepTheirIds` | webauth/webauthn/passkeys/user.go:106-114 | with new identifiers no interleaving removes an entry or changes its details or list of credential IDs |
| `PasskeyLogins.UninterruptedRegistration` | webauth/webauthn/passkeys/passkeys.go:206-231 | the accesses of a registration, uninterrupted, take the protocol's step |
| `PasskeyLogins.UninterruptedLogin` | webauth/webauthn/passkeys/passkeys.go:284-327 | the accesses of a login, uninterrupted, take the protocol's step |
| `Serials.SerialNumberOpenSSL` | certs.go:191-206 | the loop writes the bytes of the absolute value as hex pairs separated by colons |
| `Serials.PrintersAgreeExactly` | certs.go:191-214 | the two forms agree up to colons exactly on positive serials |
| `Serials.PositiveSerialRoundTrip` | certs.go:191-214 | a positive serial prints with even length and parses back from both forms |
| `Serials.HexInjective` | certs.go:209-214 | the hex form tells all integers apart |
| `Serials.HexOfNil` | certs.go:209-214 | the hex form is empty exactly for a missing serial and starts with a minus exactly for a negative one |
| `Serials.OpenSSLInjectiveUpToSign` | certs.go:191-206 | the OpenSSL form loses exactly the sign |
| `Hex.DecodesExactly` | webhooks/signature.go:34-37 | a text decodes to bytes exactly when, up to letter case, it is their encoding |
| `Hex.DigitTable` | webhooks/signature.go:34-37 | the digits written and the digits read, in both letter cases |
| `Secrets.SecretsConfig.UnmarshalYAML` | webhooks/webhook_config.go:91-108 | on success the flattened specs in visiting order, on a decode error no change |
| `Secrets.SecretsConfig.MarshalYAML` | webhooks/webhook_config.go:110-123 | the map if present, else the specs grouped by user |
| `Secrets.GroupFlatten` | webhooks/webhook_config.go:102-121 | for every visiting order, grouping the flattened specs returns the map less its empty lists |
| `Secrets.FlattenGroup` | webhooks/webhook_config.go:102-121 | flattening a grouping is a permutation that keeps each user's order |
| `Signature.SignedHeaderDecodes` | webhooks/signature.go:84-94 | the signed header decodes to the MAC exactly when it is not the Content-Length header |
| `Signature.SignedHeaders` | webhooks/signature.go:84-94 | a signed request carries "sha256=" and the MAC in hexadecimal, its Content-Length reads back as the payload length, and other headers are kept |
| `Signature.SignatureReadExactly` | webhooks/signature.go:22-41 | a signature is read exactly from a header that says "sha256=" and hexadecimal digits; anything else is 400 |
| `Signature.Validate` | webhooks/signature.go:53-80 | status of every path, the signature function's own included; 200 with the payload exactly when some token's MAC equals the signature; exactly the examined tokens are cleared |
| `Signature.SignedRequestIsAccepted` | webhooks/signature.go:22-94 | a request signed with one of the tokens is accepted with its payload |
| `Css.Walk` | cssutil/cssutil.go:29-45 | the stack walk ends and adds exactly the class tokens of element nodes |
| `Css.ParseHTMLClasses` | cssutil/cssutil.go:22-53 | an error exactly when a document fails to parse, else a strictly sorted list of exactly the class tokens |
| `Css.SortedUnique` | cssutil/cssutil.go:47-51 | the sorted list does not depend on map iteration order |
| `Css.LessExactly` | cssutil/cssutil.go:47-51 | the order of the list is decided by the first position at which two classes differ |
| `Css.ClassAttribute` | cssutil/cssutil.go:29-45 | only class attributes of elements count, at any depth |
| `Css.FieldsSplit` | cssutil/cssutil.go:29-45 | class values are split at every white space character |
| `Css.SpacesListed` | cssutil/cssutil.go:29-45 | the white space characters are those of Unicode |
| `Css.TailwindSourceInline` | cssutil/cssutil.go:82-91 | the directive around the joined classes free of quote, parenthesis and backslash |
| `Css.DirectiveIsClosed` | cssutil/cssutil.go:76-91 | no class closes the quotation early |
| `Css.DirectiveRoundTrip` | cssutil/cssutil.go:82-91 | splitting the quoted part returns the safe classes exactly when all of them are tokens |
| `Css.ParsedClassesRoundTrip` | cssutil/cssutil.go:22-91 | for the classes of parsed documents it always does |
| `TlsValidate.ValidateConnectionState` | tlsvalidate/tls_validate.go:417-465 | the conjunction of the per-connection conditions |
| `TlsValidate.EnsureNonZeroSerialNumbers` | tlsvalidate/tls_validate.go:404-415 | all serials of the connection are present and non-zero, when enabled |
| `TlsValidate.VerifyAcrossHosts` | tlsvalidate/tls_validate.go:295-337 | when it reports nothing, an error, or dereferences a missing serial |
| `TlsValidate.ValidateStates` | tlsvalidate/tls_validate.go:359-369 | success and crash exactly characterised on the collected states |
| `TlsValidate.ExpandHost` | tlsvalidate/tls_validate.go:488-496 | the addresses looked up when expansion is on, otherwise the host itself |
| `TlsValidate.IgnoreIPv6` | tlsvalidate/tls_validate.go:475-486 | restricted to IPv4, exactly the IPv4 addresses in order; otherwise all |
| `TlsValidate.GetStates` | tlsvalidate/tls_validate.go:263-293 | one state for every address in order of completion, or an error when any dial fails |
| `TlsValidate.Validate` | tlsvalidate/tls_validate.go:341-370 | success, error and crash of a host, for every outcome of lookup and dials and every completion order |
| `TlsValidate.NothingToDial` | tlsvalidate/tls_validate.go:353-365 | no state is collected, and the first one is indexed, exactly when every address found is ignored |
| `TlsValidate.UnexpandedNameCrashes` | tlsvalidate/tls_validate.go:475-496 | without expansion and restricted to IPv4, that is exactly when the host is not an IPv4 address |
| `TlsValidate.ConsistentIsPairwise` | tlsvalidate/tls_validate.go:295-337 | with serials present, no error exactly when every connection passes alone and all pairs agree |
| `TlsValidate.ConsistentInAnyOrder` | tlsvalidate/tls_validate.go:263-292 | these checks do not depend on the order in which dials complete |
| `TlsValidate.VerdictInAnyOrder` | tlsvalidate/tls_validate.go:360-369 | the whole verdict is order independent exactly when the zero check is off, something else fails, or the states agree on it |
| `TlsValidate.OrderChangesVerdict` | tlsvalidate/tls_validate.go:360-369 | without the serial check, two connections whose order decides the verdict |
| `TlsValidate.SuccessMeansNonZero` | tlsvalidate/tls_validate.go:404-415 | with serial and zero checks on, success implies every leaf serial is non-zero |
| `TlsValidate.ZeroCheckCoversAllExactly` | tlsvalidate/tls_validate.go:173-181 | the zero check covers every address's leaf exactly when the serial check is on |

## Left out

- HTTP serving and clients, TLS dialing, DNS, file locking, directory creation and AWS stores: their outcomes are arguments.
- Cryptography: x509 verification, HMAC, JWT and the WebAuthn ceremonies are arbitrary functions or outcomes.
- The internals of the FIFO, html.Parse, autocert and YAML libraries; a queue size below zero, and what becomes of queued deliveries after `Stop`, whose meaning is the FIFO's own.
- File name cleaning in the directory stores of certcache: stores are maps keyed by name, and a failed operation leaves them unchanged.
- Separators of `Allowed` other than one character different from the wildcard: the callers pass ":" and "/".
- HTTP statuses and cookies of the passkey handlers, and VerifyAuthentication, which changes nothing.
- `PasskeyStore.RAMUserDatabase.InterleavedHandlers`: a registration under an identifier that is already stored, which takes a collision of 64 random bytes, is excluded; so are interleavings inside one `UpdateCredential`.
- Time arithmetic is on unbounded integers; overflow of durations is not modelled.
- `TokensFromContext`, `FindLeafPEM`, `ParsePrivateKeyDER`, option parsing, ipacl, cookies, redirects, jsonapi and webassets: easy members only.
- Repeated values of the signature header: one value per header name.
