# AuthKit, verified

A Dafny model of AuthKit's five stateful or parsing cores, with proofs of what
they guarantee over all inputs and all runs. `dafny verify dfyconfig.toml` checks
the whole project.

| part of AuthKit | modules |
|---|---|
| TTL and capacity session store | `SessionStore`, `SessionStoreRuns` |
| OAuth callback gate | `CallbackGate`, `CookieHeader` |
| HOTP/TOTP, base32 import, `otpauth` enrolment | `Totp`, `Base32`, `Enrollment`, `Percent` |
| WebAuthn verifier | `WebAuthn`, `WebAuthnAnswers`, `WebAuthnRuns`, `WebAuthnChallenges`, `WebAuthnUniqueness` |
| JWKS cache | `JwksCache` |
| shared foundations | `Numerals`, `Decimal`, `Utf8`, `Text`, `Bits`, `Wrappers` |

## How the model is built

- What the sources change in place is a class: `InMemorySessionStore`,
  `WebAuthnVerifier` and `DiscoveryClient`. Their methods are tied to functions on
  values, and the theorems are about those functions and the runs they make.
  The first and the last keep a ghost history of calls. Loops of the sources
  (`urlencoding`, `constant_time_eq`, the drift window, the credential scans) are
  methods with loops.
- A clock reading is a parameter of the call that makes it; `bind_state` makes two.
  Instants, durations and TTLs are integers of one unit.
- A Rust `str` is a Dafny `string` of Unicode scalar values, and `Utf8` ties it to
  its bytes.
- HMAC is any function with the right output length, SHA-256 of the relying party
  id is a field of the configuration, random challenges and fetched documents are
  parameters.
- Concurrency is interleaving: the WebAuthn verifier and the JWKS cache are split
  into the sections their locks make atomic, and the theorems quantify over every
  sequence of sections of any number of calls. The session store holds its mutex
  for the whole of each call, so there a call is one step.
- The WebAuthn verifier calls a five-argument, TTL-taking, consuming challenge
  store that is not the trait of `src/domain/session_store.rs`. Its contract here
  is taken from the verifier's own lines: a bind replaces the entry of its key, a
  verify succeeds exactly on the stored, unexpired challenge and then removes it,
  and a failed verify may keep the entry or drop it.

## Where the code and its documentation disagree

- `src/webauthn.rs:20` promises unique credential ids. The scan and the push hold
  the lock separately, so two overlapping registrations of one id both succeed
  (`OverlapCanDuplicate`); `UniqueExactly` says exactly when ids stay unique.
- `src/webauthn.rs:435-440` moves the counter before it looks at the signature, so
  an authentication that is then refused has still moved it (`RefusalCanMoveCounter`).
  `AuthenticationMovesCounterExactly` says when, and `SignatureOkExactly` which
  credentials that happens to over whole runs. Lines 437-440 also use
  the credential after releasing the lock it is borrowed from; the model takes the
  key of the credential that was found.
- `src/webauthn.rs:282` says an operation is "create" or "get". The function takes
  any text, and an operation that holds a ':' can reach another operation's key
  (`OperationsCollideExactly`), which even lets one user register on another user's
  challenge (`NestedOperationRegisters`). `CompletionHasChallenge` says exactly when a
  completed call rests on a challenge of its own user and operation.
- `src/totp.rs:162` verifies six digits only, so the eight-digit codes of the tests
  at lines 392-413 are never accepted (`CodeAcceptedExactly`). The tests at lines
  327-337 contradict each other.
- `src/totp.rs:21-22` shows a `counter` field that `enrollment_uri` does not write.
- The JWKS slot is not keyed by URI (`SecondUriGetsFirstKeys`);
  `HitServesOwnUriExactly` says which hits are served from their own URI. Overlapping
  calls can replace a snapshot by an older one (`SlotCanGoBack`);
  `NeverGoesBackExactly` says in which runs that does not happen.
- The session store reads the system clock, which may go back. The refinement needs
  that it does not (`ClockRollbackLosesBinding`); `VerifyExactly`, `RefusedExactly` and
  `GatePassesExactly` are the exact rules without that premise.

## Model

| member | source | states |
|---|---|---|
| `SessionStore.InMemorySessionStore.BindState` | src/domain/session_store.rs:108-125 | a bind evicts, refuses or inserts in place; the new map and the answer are those of the replayed history with this call appended |
| `SessionStore.InMemorySessionStore.VerifyState` | src/domain/session_store.rs:127-140 | a verify evicts in place and answers as the replayed history does, comparing the bytes of the session ids |
| `SessionStore.InMemorySessionStore.RevokeState` | src/domain/session_store.rs:142-146 | a revoke removes the token and always succeeds |
| `SessionStore.InMemorySessionStore.EvictExpired` | src/domain/session_store.rs:95-98 | in place, a token is kept if and only if its entry expires after the reading, and a kept entry is unchanged |
| `SessionStoreRuns.AnswersMatchLog` | src/domain/session_store.rs:95-146 | refinement: in every run whose clock never goes back, every bind, verify and revoke is answered as by an append-only log that never evicts, capacity refusals included |
| `SessionStoreRuns.EvictedIsLive` | src/domain/session_store.rs:95-98 | in a run whose clock never goes back, eviction leaves exactly the tokens whose last log event is a bind within its TTL, with that bind's session and expiry |
| `SessionStoreRuns.StateExactly` | src/domain/session_store.rs:95-146 | with any clock, a token is in the map if and only if some accepted bind of it has been neither replaced, revoked nor outlived by an eviction reading since, and then with that session and expiry |
| `SessionStoreRuns.VerifyExactly` | src/domain/session_store.rs:127-140 | with any clock, a verify is true if and only if such a bind to that session holds and is not yet due |
| `SessionStoreRuns.RefusedExactly` | src/domain/session_store.rs:108-116 | with any clock, a bind is refused if and only if there is a ceiling, at least that many tokens have such a bind that is not yet due, and its own is not one of them |
| `SessionStoreRuns.ClockRollbackLosesBinding` | src/domain/session_store.rs:95-98 | a concrete run whose clock jumps ahead and back, where the log has a live binding and the store has lost it |
| `SessionStoreRuns.IdleCallsAreUnobservable` | src/domain/session_store.rs:108-140 | deleting any set of verify calls and refused binds, all of which may evict, from a run whose clock never goes back leaves every later answer unchanged |
| `SessionStoreRuns.VerifiesAreUnobservable` | src/domain/session_store.rs:127-140 | the same for verify calls alone: deleting any set of them from such a run leaves every later answer unchanged |
| `SessionStoreRuns.CapacityNeverExceeded` | src/domain/session_store.rs:111-116 | with a nonzero ceiling no reachable map is larger than it, whatever the clock does |
| `SessionStoreRuns.RefusedBindDropsNothingLive` | src/domain/session_store.rs:108-116 | a refused bind keeps every entry that is live when it is made, unchanged |
| `SessionStoreRuns.CapacityRecovers` | src/domain/session_store.rs:108-125 | once everything accepted before has run out, no bind of a further run with at most `max_entries` distinct tokens is refused, whatever other calls that run makes |
| `CallbackGate.EnforcePkceStateSession` | src/middleware/pkce_state_session.rs:89-117 | the gate's answer is a function of the request and the store's history, and the store is asked at most once; without a state or a session id the answer is a rejection and the store is left alone |
| `CallbackGate.GateSafeAndComplete` | src/middleware/pkce_state_session.rs:70-117 | a callback passes if and only if its decoded state and its session cookie are present and the last accepted bind or revoke of that state, in the whole history, bound it to that session less than a TTL ago |
| `CallbackGate.GatePassesExactly` | src/middleware/pkce_state_session.rs:70-117 | with any clock, a callback passes if and only if some accepted bind of its decoded state to its session cookie has been neither replaced, revoked nor outlived since, and is not yet due |
| `CallbackGate.HonestCallbackPasses` | src/middleware/pkce_state_session.rs:41-117 | a client that sends its percent-encoded token and its cookie passes exactly while the binding lasts and the token fits in 1024 bytes |
| `CallbackGate.NamedParamExactly` | src/middleware/pkce_state_session.rs:41-46 | a query pair carries a value under a name if and only if it is the name, '=' and that value; a pair without '=' carries none |
| `CallbackGate.QueryParamFirst` | src/middleware/pkce_state_session.rs:41-46 | a query answers with what follows the first piece that starts with the name and '='; pieces without '=' are skipped |
| `CallbackGate.StateRoundTrip` | src/middleware/pkce_state_session.rs:70-86 | a percent-encoded token behind the first "state=" among any other pairs is extracted unchanged up to 1024 bytes and refused beyond |
| `CallbackGate.StateTokenExactly` | src/middleware/pkce_state_session.rs:70-86 | a token is extracted if and only if its UTF-8 bytes, at most 1024 of them, are what the first `state` value of the query percent-decodes to |
| `CallbackGate.CookieOrderExactly` | src/middleware/pkce_state_session.rs:48-66 | the session id is the same for every order of the cookie pairs if and only if no two pairs give the chosen cookie different values |
| `CallbackGate.CookieValueExactly` | src/middleware/pkce_state_session.rs:48-53 | a cookie has a value if and only if the first piece of its name does: of repeated names the first wins |
| `CallbackGate.NamedCookieExactly` | src/middleware/pkce_state_session.rs:48-53 | a piece of a header line carries a cookie if and only if it is the name, '=' and a value that begins and ends visibly, with any spaces and tabs around the two |
| `CallbackGate.SpacedCookieParses` | src/middleware/pkce_state_session.rs:50-51 | spaces and tabs around a name and a value that begin and end visibly are dropped; the value may hold '=' |
| `CookieHeader.SentCookiesAreRead` | src/middleware/pkce_state_session.rs:48-68 | of a header of pairs joined by a semicolon and a space, the session id is the first value under the best-ranked of the four names present, and there is none if none of the four is |
| `CookieHeader.SentValue` | src/middleware/pkce_state_session.rs:48-53 | such a header gives under each name the first value sent under it, and nothing under a name not sent |
| `CallbackGate.SessionIdExactly` | src/middleware/pkce_state_session.rs:48-68 | a session id is extracted if and only if the first Cookie header is ASCII text of visible characters, spaces and tabs, and the first of its pieces that carries the best-ranked name present has that value |
| `CallbackGate.BestRankedCookieIsChosen` | src/middleware/pkce_state_session.rs:48-66 | with distinct names, any optional whitespace and any order, the session id is the value of the first of session_id, authkit_session, authvault_session, sid that is present |
| `CallbackGate.PaddedCookieParses` | src/middleware/pkce_state_session.rs:48-53 | whitespace around a cookie's name and value is invisible; the value may hold '=' |
| `Text.WhitespaceExactly` | src/middleware/pkce_state_session.rs:50-51 | what trimming removes is exactly the 25 characters of the Unicode White_Space property |
| `Text.SplitOnceExactly` | src/middleware/pkce_state_session.rs:43 | without the separator there is nothing; otherwise the two parts are those around the first separator |
| `CallbackGate.SessionIdRoundTrip` | src/middleware/pkce_state_session.rs:55-66 | a visible-ASCII session id sent as the session_id cookie is extracted unchanged |
| `Percent.UrlEncoding` | src/totp.rs:261-274 | the byte loop writes the percent-encoding of the text's UTF-8 bytes |
| `Percent.UrlDecodeEncode` | src/totp.rs:261-274 | the middleware's percent-decoding restores every encoded string, and the encoder emits only unreserved characters, '%' and hex digits |
| `Percent.DecodeEncodeBytes` | src/totp.rs:261-274 | the same on arbitrary bytes |
| `Percent.PlainTextIsKept` | src/totp.rs:261-274 | text of letters, digits and -_.~ is written as it is |
| `Percent.OtherBytesAreEscaped` | src/totp.rs:261-274 | every other byte is written as '%' and its two upper-case hexadecimal digits |
| `Percent.PlainBytesAreKept` | src/middleware/pkce_state_session.rs:76-79 | in any text to decode, bytes other than '%', '+' among them, stand for themselves |
| `Percent.EscapeIsRead` | src/middleware/pkce_state_session.rs:76-79 | a '%' with two hexadecimal digits of either case stands for the byte they spell |
| `Percent.StrayPercentIsKept` | src/middleware/pkce_state_session.rs:76-79 | a '%' without two hexadecimal digits stands for itself |
| `Utf8.DecodeEncode` | src/middleware/pkce_state_session.rs:76-79 | UTF-8 decoding restores every encoded string |
| `Utf8.EncodeExample` | src/middleware/pkce_state_session.rs:76-79 | the first example of section 7 of RFC 3629 |
| `Totp.ModulusFits` | src/totp.rs:254 | 10^min(digits, 10) fits 32 bits if and only if at most nine digits are asked for |
| `Totp.CounterBytesDetermineCounter` | src/totp.rs:214 | the eight big-endian bytes fed to the hash read back as the counter |
| `Totp.TruncationIsLast31Bits` | src/totp.rs:242-252 | for every digest length the four indices are in range and the code word is the last 31 bits of those four bytes (section 5.3 of RFC 4226) |
| `Totp.TruncationExample` | src/totp.rs:245-252 | the worked example of section 5.4 of RFC 4226: its digest truncates to 0x50ef7f19, and to 872921 in six digits |
| `Totp.HotpPrintsExactly` | src/totp.rs:242-256 | for 1 to 9 digits a code is exactly that many decimal characters and reads back as the last 31 bits of the four bytes the digest of the counter's eight bytes points at, modulo 10^digits |
| `Totp.ZeroDigitsPrintsZero` | src/totp.rs:254-256 | with no digits asked for, the code is "0" |
| `Totp.ShorterCodeIsSuffix` | src/totp.rs:245-256 | for the same secret, counter and algorithm, the shorter code is the tail of the longer one |
| `Totp.ConstantTimeEq` | src/totp.rs:276-285 | the XOR/OR loop answers true if and only if the byte strings are equal |
| `Totp.CounterExactly` | src/totp.rs:142-145 | the counter of a time is c if and only if the time lies in the c-th period |
| `Totp.AtExactly` | src/totp.rs:142-145 | the code of a time in the c-th period is the SHA-1 code of counter c |
| `Totp.SearchWindow` | src/totp.rs:163-173 | the loop answers true if and only if some counter within the window, clipped to 64 bits, has the candidate as its six-digit code |
| `Totp.VerifyWithWindow` | src/totp.rs:154-174 | for the c-th period, the candidate is accepted if and only if some 64-bit counter within the window of c has it as its six-digit SHA-1 code |
| `Totp.Verify` | src/totp.rs:150-152 | the same with a window of one step |
| `Totp.WiderWindowAcceptsMore` | src/totp.rs:154-174 | acceptance is monotone in the window |
| `Totp.OnlySixDigitsAccepted` | src/totp.rs:162-173 | every accepted candidate is six decimal digits |
| `Totp.DriftWithinWindowAccepted` | src/totp.rs:142-174 | a six-digit code is accepted at every time at most window * period seconds away, before or after |
| `Totp.CodeAcceptedExactly` | src/totp.rs:142-174 | of the codes of 0 to 9 digits printed at one time, checked at any time within the window, exactly the six-digit one is accepted |
| `Totp.DriftBeyondWindowNotTried` | src/totp.rs:161-167 | from (window + 1) * period seconds away the code's counter is outside the window |
| `Totp.DriftBeyondWindowNeedsCollision` | src/totp.rs:154-174 | a code that old is accepted if and only if a different counter within the window has the same code |
| `Totp.CountdownReachesNextCounter` | src/totp.rs:178-180 | for a time in the c-th period the countdown is between 1 and the period, every earlier second is still in the c-th, and the second it ends at is the first of the next |
| `Base32.DecodeEncode` | src/totp.rs:109-111 | base32 of whole five-byte groups uses only the alphabet and decodes to the same bytes |
| `Base32.GroupExample` | src/totp.rs:109-111 | the five bytes of the test vector "fooba" in section 10 of RFC 4648 encode as MZXW6YTB |
| `Base32.GroupCharsExactly` | src/totp.rs:109-111 | each character of a group is the letter of A-Z2-7 for the group's next five bits |
| `Base32.EncodeIsGroupwise` | src/totp.rs:109-111 | a text is the texts of its five-byte groups in order |
| `Base32.ImportExactly` | src/totp.rs:115-129 | for every text and every answer of the decoders: empty exactly if nothing is left, invalid exactly if both decoders refuse, wrong length exactly if the first that does not refuse gives other than 20 bytes, and otherwise those bytes |
| `Base32.NormalizeExactly` | src/totp.rs:116 | any spelling of a visible-ASCII text, with letters in either case, spaces anywhere and blanks around, is normalized to that text in upper case |
| `Base32.ImportOfSpelled` | src/totp.rs:115-129 | what import answers for base32 of any whole groups with letters lower-cased, spaces inserted and whitespace around: empty, wrong length, or the bytes |
| `Base32.ImportUndoesExport` | src/totp.rs:109-129 | for every 160-bit secret, import of any such spelling of its export is the secret |
| `Base32.ToBase32Injective` | src/totp.rs:109-111 | secrets with the same export are the same |
| `Enrollment.EnrollmentReadsBack` | src/totp.rs:193-208 | for every issuer and account, the URI's label splits at its first ':' and the query returns secret, issuer, period, digits and algorithm, each restored exactly |
| `Enrollment.EnrollmentInjective` | src/totp.rs:193-208 | equal URIs come from equal secrets, accounts, issuers, periods and digits |
| `Enrollment.FieldReadsBack` | src/totp.rs:200-207 | in a query of fields with distinct names each field is read back by its own name |
| `Enrollment.UriIsWritten` | src/totp.rs:200-207 | the URI is written in full: its literal prefix, label, and the five fields in their order |
| `WebAuthn.WebAuthnVerifier.GenerateChallenge` | src/webauthn.rs:284-300 | under its key the new challenge matches exactly before its TTL runs out and no other matches at any time; every other key is untouched |
| `WebAuthn.WebAuthnVerifier.ScanForId` | src/webauthn.rs:353-361 | the nested scan finds the id if and only if some user has it |
| `WebAuthn.WebAuthnVerifier.PushCredential` | src/webauthn.rs:371-376 | the credential is appended to its user's list and nothing else changes |
| `WebAuthn.WebAuthnVerifier.AdvanceCounter` | src/webauthn.rs:423-435 | the first credential with the id gets the new counter if and only if that is greater; otherwise nothing changes |
| `WebAuthn.WebAuthnVerifier.VerifyRegistration` | src/webauthn.rs:308-379 | a whole registration: the order of its checks, the error of each, the consumed challenge and the new table |
| `WebAuthn.WebAuthnVerifier.VerifyAuthentication` | src/webauthn.rs:382-443 | a whole authentication, with the counter moved before the signature is looked at |
| `WebAuthn.RegistrationErrorExactly` | src/webauthn.rs:316-343 | a registration's own checks pass if and only if hash, both flags, type, challenge and origin are right; each error belongs to the first check that fails |
| `WebAuthn.AuthenticationErrorExactly` | src/webauthn.rs:390-413 | the same for an authentication, whatever its user verification flag |
| `WebAuthnAnswers.RegistrationAnswersExactly` | src/webauthn.rs:308-379 | a registration succeeds if and only if its checks pass, the stored challenge is that one and unexpired, and no list of any user holds the id; the condition of each error, the new table and the consumed challenge |
| `WebAuthnAnswers.AuthenticationAnswersExactly` | src/webauthn.rs:382-443 | an authentication succeeds if and only if its checks pass, the stored challenge is that one and unexpired, and the user's first credential with the id has a smaller counter and a key; the condition of each error, the new table and the consumed challenge |
| `WebAuthnAnswers.KeysAreWritten` | src/webauthn.rs:345 | the keys a registration and an authentication look their challenge up under, in full |
| `WebAuthn.OperationsCollideExactly` | src/webauthn.rs:293 | two operations give some users the same key if and only if one key prefix begins with the other |
| `WebAuthn.PlainOperationsNeverCollide` | src/webauthn.rs:293 | for operations without a ':', keys tell both operation and user apart |
| `WebAuthn.KeyTellsUsersApart` | src/webauthn.rs:293 | for one operation, keys tell users apart |
| `WebAuthnRuns.RegistrationIsItsSections` | src/webauthn.rs:316-379 | a registration nothing interrupts is its challenge check, scan and push taken in order |
| `WebAuthnRuns.AuthenticationIsItsSections` | src/webauthn.rs:390-443 | an authentication nothing interrupts is its challenge check and counter update taken in order |
| `WebAuthnRuns.AuthenticationMovesCounterExactly` | src/webauthn.rs:390-443 | an authentication changes the table if and only if its own checks pass, its challenge matches and its counter is greater; it does so and is refused if and only if besides the found key is empty |
| `WebAuthnRuns.RefusalCanMoveCounter` | src/webauthn.rs:435-440 | a concrete authentication that is refused and has moved the counter |
| `WebAuthnRuns.SignatureOkExactly` | src/webauthn.rs:423-440 | in every interleaving an accepted counter is followed by an accepted signature if and only if the user's first registration of that id carried a key that is not empty |
| `WebAuthnRuns.TableOnlyGrows` | src/webauthn.rs:371-376 | in every interleaving lists keep their entries in place, ids and public keys never change and counters never fall |
| `WebAuthnRuns.AcceptedCountersIncrease` | src/webauthn.rs:432-435 | in every interleaving the counters accepted for one user and credential id strictly increase |
| `WebAuthnRuns.AcceptedAboveRegistered` | src/webauthn.rs:432-435 | each accepted counter comes after, and exceeds the counter of, the registration that first gave the user that id |
| `WebAuthnRuns.AcceptedCountersAreFew` | src/webauthn.rs:432-435 | at most 2^32 - 1 minus the registered counter are accepted over any run |
| `WebAuthnRuns.CounterAcceptedExactly` | src/webauthn.rs:423-435 | in every interleaving a counter is accepted if and only if the user registered the id before and it exceeds the first registration's counter and every counter accepted since |
| `WebAuthnChallenges.ChallengeAcceptedExactly` | src/webauthn.rs:334-350 | a new call gets past the challenge check if and only if its hash, flags, type, challenge and origin are right and its challenge was issued for its key, is the latest there, has been neither consumed nor dropped, and is within its TTL |
| `WebAuthnChallenges.IssuersAreDistinct` | src/webauthn.rs:346-350 | no issued challenge lets two calls past the check |
| `WebAuthnChallenges.CompletionHasChallenge` | src/webauthn.rs:316-350 | in every run a completed registration or authentication goes back to a begin that carried the relying party's id hash, the required flags, the right type and an allowed origin, and to such a challenge; the outcome is about exactly the credential that begin presented; and the challenge was issued for the same user and operation if and only if the operation it was issued for holds no ':', which is to say is "create" or "get" |
| `WebAuthnChallenges.NestedOperationRegisters` | src/webauthn.rs:293-297 | a concrete run in which a user registers on a challenge issued to another user for another operation |
| `WebAuthnChallenges.ChallengesServeOnce` | src/webauthn.rs:416-420 | that correspondence is injective |
| `WebAuthnUniqueness.UniqueExactly` | src/webauthn.rs:352-376 | no id stands twice in the table if and only if no push of an id ever fell between another call's scan for it and that call's push |
| `WebAuthnUniqueness.ScanRefusesExactly` | src/webauthn.rs:352-361 | in every interleaving a scan refuses its id if and only if some call has pushed it before, for whichever user, and finds it new otherwise |
| `WebAuthnUniqueness.PushRegisters` | src/webauthn.rs:371-379 | the push that follows always registers what the call has waited with, at the end of its user's list and of no other |
| `WebAuthnUniqueness.SerialRegistrationsAreUnique` | src/webauthn.rs:352-376 | where registrations do not overlap, ids are unique across all users, whatever else is interleaved |
| `WebAuthnUniqueness.OverlapCanDuplicate` | src/webauthn.rs:352-376 | a concrete run of two overlapping registrations that leaves one id with two users |
| `WebAuthnUniqueness.PushKeepsUniqueExactly` | src/webauthn.rs:371-375 | a push keeps ids unique if and only if its id was not in the table |
| `JwksCache.DiscoveryClient.Jwks` | src/oidc.rs:236-266 | one uninterrupted call serves the slot, fetches into it, or fails and leaves it |
| `JwksCache.LookupIsLastKey` | src/oidc.rs:107-109 | a lookup finds a key if and only if the fetched document has one with that id, and then the last one |
| `JwksCache.ReturnedIsFreshOrOwn` | src/oidc.rs:236-266 | in every interleaving a returned snapshot was younger than the TTL when checked, or was fetched by the call that returns it from the URI that call was asked for |
| `JwksCache.Provenance` | src/oidc.rs:246-264 | in every interleaving the slot holds what some call fetched, and a call about to store holds what it fetched itself, from the URI it was asked for |
| `JwksCache.SlotExactly` | src/oidc.rs:236-266 | in every interleaving the slot holds a snapshot if and only if that is the one fetched by the call whose storing section came last |
| `JwksCache.CheckHitsExactly` | src/oidc.rs:238-245 | in every interleaving a new call is served from the slot if and only if the slot holds a snapshot less than a TTL old, and otherwise goes on to fetch |
| `JwksCache.HitServesOwnUriExactly` | src/oidc.rs:238-245 | in every interleaving a call served from the slot gets the fetch stored last, and that is a fetch of its own URI if and only if the call that stored last was asked for the same URI |
| `JwksCache.OneUriIsServed` | src/oidc.rs:236-266 | a client used with one URI only returns, and its slot only holds, snapshots fetched from it |
| `JwksCache.SecondUriGetsFirstKeys` | src/oidc.rs:238-245 | a concrete run in which a second URI is answered with the first one's keys |
| `JwksCache.SlotCanGoBack` | src/oidc.rs:260-264 | a concrete run of overlapping calls that replaces a snapshot by an older one |
| `JwksCache.GoesBackExactly` | src/oidc.rs:260-264 | a section replaces the slot's snapshot by one stamped earlier if and only if it stores its own call's fetch over one stored before it and stamped after it |
| `JwksCache.NeverGoesBackExactly` | src/oidc.rs:236-266 | over a whole run the slot never goes back if and only if no fetch is stored before another that was stamped earlier |
| `JwksCache.OvertakingOverlaps` | src/oidc.rs:246-264 | with stamps in order, a pair that takes the slot back belongs to two calls in flight at once, of which the overtaken one fetched first |
| `JwksCache.SerialCallsNeverGoBack` | src/oidc.rs:236-266 | with stamps in order, calls that do not overlap never take the slot back |
| `JwksCache.CallIsItsSections` | src/oidc.rs:236-266 | an uninterrupted call is its locked and unlocked sections taken in order, whatever other calls are in flight |
| `JwksCache.FetchesAreTtlApart` | src/oidc.rs:238-264 | without overlap, the i-th and j-th successful fetches are at least (j - i) TTLs apart |
| `JwksCache.HitsExactlyWhileFresh` | src/oidc.rs:111-113 | without overlap, a call is served from the slot if and only if the last successful fetch is less than a TTL old |

## Left out

- Mutex poisoning, and the store errors it would raise: every lock is taken.
- Overflow of `Utc::now() + ttl`, and the default TTL and capacity of `InMemorySessionStore::new`.
- Ten or more digits in `hotp`: the modulus overflows 32 bits, which panics or wraps by build mode; `ModulusFits` marks the border.
- HMAC and SHA internals, random generation and the timing side of constant-time comparison.
- `to_base64`, `TotpSecret::generate`, and the `Display` and `Debug` implementations.
- Base32 text that is not whole groups of the alphabet: its decoding belongs to the base32 crate, which is not part of this model.
- Upper-casing outside ASCII: any mapping that is right on ASCII is allowed.
- `AuthenticatorData::parse` and the flags byte: finite and easy.
- JSON parsing of client data, discovery documents and key sets: taken as parsed values.
- A challenge store that refuses to bind: `generate_challenge` then returns its error and nothing changes.
- Credential labels and timestamps: no check reads them.
- Which of two credentials in one list is meant when an id is duplicated: `find` takes the first, and so does the model.
- `discover`, URL handling, HTTP, the 401 body, logging and the feature-off stubs.
- `with_cache_ttl`: the TTL of a client is fixed here.
