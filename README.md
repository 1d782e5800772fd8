# nila backend core, modelled in Dafny

This project models the domain services of the nila backend and the client-side handle check of its mobile app:

- **Friendships.** A request, its acceptance, the friend and pending lists, and removal. They rest on a friendship table whose pair lookup ignores direction.
- **Invitation codes.** A code is eight upper-case hex digits made from four random bytes. Issuing one retries on a code collision, up to three times. Redeeming one runs an ordered ladder of refusals. It then promotes or creates an accepted friendship and marks the invitation used with a conditional update, which succeeds at most once.
- **Refresh-token sessions.** Issuing a token pair, rotating the refresh token on refresh, and logging out.
- **Users.** Find-or-create by `(provider, providerId)`, lookups, and profile updates that claim a handle. A handle is trimmed, lower-cased, length- and charset-checked, and must not belong to another user.
- **Notes.** Reads and writes gated by ownership.
- **The mobile handle form.** The order-sensitive `validate` check and the values derived from it: the counter text, the error state, and whether submit is disabled.

Each table of the database is a class. It holds a `map` from the table's key to the row: the row id for most tables, the token string for refresh tokens. A table keyed by row id also keeps a counter that assigns new ids. Its `Valid()` predicate states the keys and unique constraints the database keeps. The services are methods over these classes. Every failure is a `Result` value:

- an HTTP error with a status and message;
- a plain `Error`;
- a value a collaborator threw, propagated unchanged.

Clocks, random bytes and the JWT signer are parameters:

- `now` is an integer in milliseconds;
- a `Draw` is four bytes;
- `sign` is a function from claims to a string.

The friendship and invitation inserts take an injected `fault`: a store failure the model cannot derive from its own tables. That covers any store error on those inserts, and also a unique-constraint violation caused by a concurrent insert, such as a friendship row for the same pair written between the existence check and the insert. A concurrent redemption that wins the race is a `rival`.

Modules, one per source file: `Common`, `FriendRepo`, `FriendService`, `InvitationRepo`, `InvitationService`, `UserRepo`, `UserService`, `Handle`, `HandleForm`, `AuthService`, `NoteService`.

The server imports its handle pattern from a shared schema that is not part of this model. Two readings are possible: `^[a-z0-9._]+$` (packages/types/src/schemas/handle.schema.ts:3) or `^[a-z0-9._]{3,30}$` (apps/server/src/types/schemas/user.schema.ts:27). Both accept the same handles once the 3..30 length check has passed, and the model uses the first.

## Model

| member | source | states |
|---|---|---|
| Common.UniqueConstraintErrorShape | apps/server/src/plugins/friend/friend.service.ts:6-13 | the store's P2002 error is recognised; an object whose `code` is anything other than the string "P2002", a primitive, null and an object without `code` are not |
| FriendRepo.JoinsIsSymmetric | apps/server/src/plugins/friend/friend.repository.ts:23-35 | the pair condition of `findExistingFriendship` is symmetric in its two user arguments |
| FriendRepo.ExistingRowIsUnique | apps/server/src/plugins/friend/friend.repository.ts:23-35 | with at most one row per unordered pair, the row the lookup finds is the only candidate, so scan order does not matter |
| FriendRepo.InsertKeepsPairUnique | apps/server/src/plugins/friend/friend.repository.ts:13-17 | inserting a row for a pair that has none keeps at most one row per pair |
| FriendRepo.RestatusKeepsPairUnique | apps/server/src/plugins/friend/friend.repository.ts:53-61 | changing one row's status keeps at most one row per pair |
| FriendRepo.FindFriendshipById | apps/server/src/plugins/friend/friend.repository.ts:19-21 | a row is found exactly when one is stored under the id, and it is that row |
| FriendRepo.FindExistingFriendship | apps/server/src/plugins/friend/friend.repository.ts:23-35 | the result is a stored row joining the two users in either direction; it is none exactly when no such row exists |
| FriendRepo.FindManyFriendships | apps/server/src/plugins/friend/friend.repository.ts:37-51 | the result holds exactly the stored rows where the user is requester or addressee and, when a status is given, with that status; each appears once |
| FriendRepo.FriendRepository.CreateFriendship | apps/server/src/plugins/friend/friend.repository.ts:13-17 | with no fault, exactly one new row with the given requester, addressee and status is added; on a fault the error propagates and nothing changes |
| FriendRepo.FriendRepository.UpdateFriendshipStatus | apps/server/src/plugins/friend/friend.repository.ts:53-61 | only the status of row `id` changes; an unknown id is P2025 with no change |
| FriendRepo.FriendRepository.DeleteFriendship | apps/server/src/plugins/friend/friend.repository.ts:63-65 | only row `id` is removed and it is returned; an unknown id is P2025 with no change |
| FriendService.Counterpart | apps/server/src/plugins/friend/friend.service.ts:80-81 | for a row the user belongs to, the result together with the user are the row's two parties; with no self-rows it is the other user |
| FriendService.FriendViews | apps/server/src/plugins/friend/friend.service.ts:80-89 | one view per row, same length and order, same id and status, and the friend is the user's counterpart |
| FriendService.PendingViews | apps/server/src/plugins/friend/friend.service.ts:98-106 | the views are exactly those of the rows addressed to the user, each with the requester as the friend; rows with distinct ids give views with distinct ids |
| FriendService.SendFriendRequest | apps/server/src/plugins/friend/friend.service.ts:19-51 | the guards in order: self is 400, unknown addressee is 404, an existing row either way is 409 "already friends" or "pending"; then exactly one PENDING row requester→addressee is inserted; a P2002 on insert is 409 and other errors propagate; every error leaves the table unchanged; the pair and no-self invariants are kept |
| FriendService.AcceptFriendRequest | apps/server/src/plugins/friend/friend.service.ts:54-72 | missing is 404, not the addressee is 403, already accepted is 400; it succeeds exactly for a PENDING row addressed to the caller, and then only that row's status becomes ACCEPTED |
| FriendService.GetFriends | apps/server/src/plugins/friend/friend.service.ts:74-90 | every ACCEPTED row the user is party to appears once, each view names the row's other party, and nothing else appears |
| FriendService.GetPendingRequests | apps/server/src/plugins/friend/friend.service.ts:92-107 | a view is listed exactly when it is a PENDING row addressed to the user, with the requester as the friend; requests the user sent are not listed; each appears once |
| FriendService.RemoveFriendship | apps/server/src/plugins/friend/friend.service.ts:109-123 | missing is 404, not a party is 403; otherwise that row is deleted whatever its status and nothing else changes |
| InvitationRepo.WithCode | apps/server/src/plugins/invitation/invitation.repository.ts:18-27 | the row carrying a taken code is a stored row with that code |
| InvitationRepo.InsertFailure | apps/server/src/plugins/invitation/invitation.repository.ts:12-16 | without an injected fault, an insert fails exactly when the code is taken, and then with P2002 |
| InvitationRepo.ConditionalConsume | apps/server/src/plugins/invitation/invitation.repository.ts:40-65 | it returns a row exactly when the row exists with `usedAt` null; then only `usedById` and `usedAt` of that row change and the updated row is returned; otherwise null and no change |
| InvitationRepo.SecondConsumeFails | apps/server/src/plugins/invitation/invitation.repository.ts:45-63 | after one conditional consume of an id, a second one on the same id returns null, whoever asks and whenever |
| InvitationRepo.ConsumeKeepsInvariants | apps/server/src/plugins/invitation/invitation.repository.ts:45-56 | the conditional consume keeps rows keyed by id and codes unique |
| InvitationRepo.InvitationRepository.CreateInvitation | apps/server/src/plugins/invitation/invitation.repository.ts:12-16 | one new unused row with the given inviter, code and expiry, or the insert failure with no change |
| InvitationRepo.InvitationRepository.FindInvitationByCode | apps/server/src/plugins/invitation/invitation.repository.ts:18-27 | a row is found exactly when the code is taken, and it is the unique row with that code |
| InvitationRepo.InvitationRepository.UpdateInvitationUsed | apps/server/src/plugins/invitation/invitation.repository.ts:29-38 | unconditionally sets `usedById` and `usedAt` of row `id`; an unknown id is P2025 with no change |
| InvitationRepo.InvitationRepository.ConsumeInvitationIfAvailable | apps/server/src/plugins/invitation/invitation.repository.ts:40-65 | the result and the new table are those of the conditional consume |
| InvitationService.HexDigit | apps/server/src/plugins/invitation/invitation.service.ts:17 | a nibble becomes a lower-case hex digit |
| InvitationService.ToHex | apps/server/src/plugins/invitation/invitation.service.ts:17 | hex encoding has two lower-case hex digits per byte |
| InvitationService.UpperCase | apps/server/src/plugins/invitation/invitation.service.ts:17 | upper-casing keeps the length, leaves no a–z letter behind and keeps every character that is not one |
| InvitationService.CreateInvitationCode | apps/server/src/plugins/invitation/invitation.service.ts:16-18 | a code is exactly 8 characters, all from `[0-9A-F]` |
| InvitationService.ToHexAt | apps/server/src/plugins/invitation/invitation.service.ts:17 | byte `k` is written at positions 2k and 2k+1, high nibble first |
| InvitationService.CodeRoundTrip | apps/server/src/plugins/invitation/invitation.service.ts:16-18 | reading the code back gives the bytes it was made from |
| InvitationService.CodeIsInjective | apps/server/src/plugins/invitation/invitation.service.ts:16-18 | two draws give the same code only if they are the same bytes |
| InvitationService.IssueFrom | apps/server/src/plugins/invitation/invitation.service.ts:27-44 | the retry loop ends in an insert at the first attempt that does not fail, after only collisions; or in a non-P2002 error at the first attempt that has one; or it is exhausted exactly when every attempt collides |
| InvitationService.ForeignErrorIsNotRetried | apps/server/src/plugins/invitation/invitation.service.ts:36-41 | a non-P2002 error at attempt k, after only collisions, ends the loop at k with that error |
| InvitationService.CreateInvitation | apps/server/src/plugins/invitation/invitation.service.ts:24-45 | an issued invitation has the first non-colliding attempt's code and expires exactly 7 days after `now`; three collisions are 503 and a foreign error propagates, both leaving the table unchanged |
| InvitationService.Refusal | apps/server/src/plugins/invitation/invitation.service.ts:48-64 | the checks in order: unknown code 404, used 410, expired (strictly before `now`) 410, own code 400; no refusal exactly when the invitation is redeemable |
| InvitationService.FriendStepBefriends | apps/server/src/plugins/invitation/invitation.service.ts:66-85 | a friendship step that goes through leaves the two users linked by an ACCEPTED row |
| InvitationService.FriendStepKeepsInvariants | apps/server/src/plugins/invitation/invitation.service.ts:66-85 | the friendship writes of a redemption keep one row per pair and no self-rows |
| InvitationService.Befriend | apps/server/src/plugins/invitation/invitation.service.ts:66-85 | an ACCEPTED row either way is 409 with no write; a PENDING row is promoted; otherwise one ACCEPTED row inviter→redeemer is created, or the insert error propagates |
| InvitationService.ConsumeInvitation | apps/server/src/plugins/invitation/invitation.service.ts:47-98 | a refusal writes nothing; otherwise the friendship step, then the conditional consume; the invitation is returned marked used by the caller at `now`, or when a rival consumed it first the call is 410 with the friendship written and the invitation marked by the rival |
| UserRepo.Patched | apps/server/src/plugins/user/user.repository.ts:17-19 | an update overwrites exactly the columns it carries and keeps the id, the identity, the email and the profile image |
| UserRepo.KeyNamesOneUser | apps/server/src/plugins/user/user.repository.ts:9-11 | under the unique constraints, an id, an email, an identity or a normalised handle names at most one user |
| UserRepo.InsertKeepsUnique | apps/server/src/plugins/user/user.service.ts:45-52 | inserting a user whose identity and email are free, and who has no handle, keeps every unique constraint |
| UserRepo.UserRepository.FindUnique | apps/server/src/plugins/user/user.repository.ts:9-11 | an identity key with its providerId missing is refused by the store; otherwise a user is found exactly when one matches the key, and it is a stored row matching it |
| UserRepo.UserRepository.Create | apps/server/src/plugins/user/user.service.ts:45-52 | a taken identity or email is P2002 with no change; otherwise exactly one new user with the six given fields and no handle |
| UserRepo.UserRepository.Update | apps/server/src/plugins/user/user.repository.ts:17-19 | unknown id is P2025; a normalised handle another user owns is P2002; otherwise the row becomes the patched row and nothing else changes |
| UserService.GetUserById | apps/server/src/plugins/user/user.service.ts:19-21 | a user is found exactly when the id is stored, and it is the stored row |
| UserService.GetUserByEmail | apps/server/src/plugins/user/user.service.ts:23-25 | found exactly when some user has the email, and it is the only such user |
| UserService.FindOrCreateByProvider | apps/server/src/plugins/user/user.service.ts:27-53 | an existing identity returns that user with no write; with neither email nor phone number it throws and writes nothing; otherwise it creates a user with exactly the six fields, or fails with P2002 on a taken email; a missing providerId is the store's error |
| UserService.UpdateUser | apps/server/src/plugins/user/user.service.ts:55-57 | an unknown id is P2025; a normalised handle another row holds is P2002; otherwise the update succeeds and only row `id` becomes the patched row; every error leaves the table unchanged |
| UserService.UpdateData | apps/server/src/plugins/user/user.service.ts:59-68 | only the properties present in the request appear in the update, and the normalised handle appears exactly when a handle does; that normalised handle is its own normal form |
| UserService.AbsentMeansUnchanged | apps/server/src/plugins/user/user.service.ts:59-68 | an absent property leaves its column unchanged, and an empty request changes nothing |
| UserService.UpdateProfile | apps/server/src/plugins/user/user.service.ts:59-94 | an invalid normalised handle is 400 and one owned by another user is 409, both with no write; otherwise the present fields, the raw handle and the normalised handle are written, and the caller may keep their own handle |
| Handle.Utf16Length | apps/server/src/plugins/user/user.service.ts:74-75 | the JavaScript length is at least the number of characters, and equal when all lie in the Basic Multilingual Plane |
| Handle.PatternMeansAscii | packages/types/src/schemas/handle.schema.ts:3 | a string matching the handle pattern has a JavaScript length equal to its number of characters |
| Handle.TrimStart | apps/server/src/plugins/user/user.service.ts:71 | the result is a suffix, everything dropped is white space, and it does not start with white space |
| Handle.TrimEnd | apps/server/src/plugins/user/user.service.ts:71 | the result is a prefix, everything dropped is white space, and it does not end with white space |
| Handle.Trim | apps/server/src/plugins/user/user.service.ts:71 | the trimmed string neither starts nor ends with white space |
| Handle.TrimOfTrimmed | apps/server/src/plugins/user/user.service.ts:71 | a string without white space at either end is its own trim |
| Handle.TrimIsMiddle | apps/server/src/plugins/user/user.service.ts:71 | trimming keeps a contiguous middle and drops only white space around it |
| Handle.TrimOfPadded | apps/server/src/plugins/user/user.service.ts:71 | white-space padding on either side of a trimmed core is exactly what trimming removes |
| Handle.TrimStartOfPadded | apps/server/src/plugins/user/user.service.ts:71 | leading white-space padding is exactly what the start trim removes |
| Handle.TrimEndOfPadded | apps/server/src/plugins/user/user.service.ts:71 | trailing white-space padding is exactly what the end trim removes |
| Handle.LowerChar | apps/server/src/plugins/user/user.service.ts:71 | a lower-cased character lies in the handle class only if it was in it, was A–Z, or was the Kelvin sign; white space stays white space and every other character stays outside white space |
| Handle.ToLowerCase | apps/server/src/plugins/user/user.service.ts:71 | lower-casing keeps the length (in this model only; see `Handle.LowerChar` under "## Left out") and leaves no A–Z letter behind; a result character in the handle class comes from one in the class, from A–Z or from the Kelvin sign |
| Handle.LowerCaseIsIdempotent | apps/server/src/plugins/user/user.service.ts:71 | lower-casing twice equals lower-casing once |
| Handle.NormalizeHandle | apps/server/src/plugins/user/user.service.ts:71 | the result leaves no white space at either end and, with the lower-casing this model keeps, is never longer than the input |
| Handle.NormalizeIsIdempotent | apps/server/src/plugins/user/user.service.ts:71 | normalising twice equals normalising once |
| Handle.ValidHandleIsNormal | apps/server/src/plugins/user/user.service.ts:71-79 | a valid handle is already in normal form |
| Handle.NormalizeExample | apps/server/src/plugins/user/user.service.ts:71 | " Nila.Dev\n" normalises to "nila.dev" |
| Handle.ValidExample | apps/server/src/plugins/user/user.service.ts:73-79 | "nila.dev" passes the server check |
| Handle.LowerExample | apps/server/src/plugins/user/user.service.ts:71 | "Nila.Dev" lower-cases to "nila.dev" |
| Handle.KelvinSignExample | apps/server/src/plugins/user/user.service.ts:71 | a Kelvin sign followed by "im" normalises to "kim" |
| Handle.KelvinLower | apps/server/src/plugins/user/user.service.ts:71 | the Kelvin sign lower-cases to `k` |
| HandleForm.NatToString | apps/mobile/src/hooks/use-handle-form.ts:48 | a number is written as a non-empty run of decimal digits with no leading zero |
| HandleForm.NatToStringRoundTrip | apps/mobile/src/hooks/use-handle-form.ts:48 | reading the numeral back gives the number |
| HandleForm.BoundNumerals | apps/mobile/src/hooks/use-handle-form.ts:30-38 | the bounds are written "30" and "3" in the messages |
| HandleForm.Validate | apps/mobile/src/hooks/use-handle-form.ts:28-42 | valid exactly when the server's check accepts the value; otherwise one of the three messages |
| HandleForm.ValidateAcceptsExactly | apps/mobile/src/hooks/use-handle-form.ts:28-42 | valid exactly when the value has 3 to 30 characters, all from `[a-z0-9._]` |
| HandleForm.ValidateOrder | apps/mobile/src/hooks/use-handle-form.ts:29-39 | too long comes first whatever the characters; any other value outside the pattern gets the charset message, so the empty string and upper-case input do; a value inside the pattern that is too short gets the too-short one, as "ab" does |
| HandleForm.FormAgreesWithServer | apps/mobile/src/hooks/use-handle-form.ts:28-42 | a handle the form accepts is one the server accepts and stores unchanged |
| HandleForm.CountText | apps/mobile/src/hooks/use-handle-form.ts:48 | the counter is the length's numeral followed by a slash |
| HandleForm.CountTextReadsBack | apps/mobile/src/hooks/use-handle-form.ts:48 | the counter reads back as the input's length, a slash and "30" |
| HandleForm.ErrorMessage | apps/mobile/src/hooks/use-handle-form.ts:47 | a message is present exactly when validation fails, and absent exactly when the value has 3 to 30 characters, all from [a-z0-9._] |
| HandleForm.DerivedStateMatchesValidation | apps/mobile/src/hooks/use-handle-form.ts:49-50 | the field is in the error state exactly when validation fails, and submit is disabled exactly when the server would refuse the handle |
| AuthService.TokenStore.Create | apps/server/src/plugins/auth/auth.repository.ts:8-10 | a stored token string is P2002 with no change; otherwise exactly that row is added |
| AuthService.TokenStore.FindUnique | apps/server/src/plugins/auth/auth.repository.ts:12-14 | a row is found exactly when the token is stored |
| AuthService.TokenStore.Delete | apps/server/src/plugins/auth/auth.repository.ts:16-18 | removes exactly that token's row; a missing token is P2025 with no change |
| AuthService.TokenStore.DeleteByUserId | apps/server/src/plugins/auth/auth.repository.ts:20-22 | exactly the user's tokens are removed, the rest are unchanged, and the count is the number removed |
| AuthService.IssuedAt | apps/server/src/plugins/auth/auth.service.ts:17-21 | the issue time is `now` rounded down to whole seconds |
| AuthService.SameSecondSameRefreshToken | apps/server/src/plugins/auth/auth.service.ts:21 | two issues for one user within the same second sign the same refresh token |
| AuthService.IssueTokens | apps/server/src/plugins/auth/auth.service.ts:16-30 | it signs both tokens and stores exactly one refresh-token row expiring 7 days after `now`, returning both tokens and the user; a refresh token already stored is P2002 with no change |
| AuthService.ExpiryBoundary | apps/server/src/plugins/auth/auth.service.ts:42 | a token is still valid at its expiry instant and expired one millisecond later |
| AuthService.Refresh | apps/server/src/plugins/auth/auth.service.ts:39-57 | unknown token: fails, nothing deleted; expired: deleted, then fails; user gone: "User not found", token kept; otherwise the presented token is deleted and a new pair issued, so the old token is gone unless it was re-signed identically |
| AuthService.SameSecondRefreshRevives | apps/server/src/plugins/auth/auth.service.ts:16-57 | a pair issued at `now` and refreshed at the same `now` returns the same refresh token, and that token is stored again afterwards |
| AuthService.RefreshIssueFirst | apps/server/src/plugins/auth/auth.service.ts:39-57 | the refusals of `refresh` unchanged; then the new pair is issued before the presented token is deleted, so a successful refresh returns a token different from the presented one and leaves the presented one absent |
| AuthService.Logout | apps/server/src/plugins/auth/auth.service.ts:59-65 | never fails and leaves the token absent, whether or not it was stored |
| AuthService.LoginWith | apps/server/src/plugins/auth/auth.service.ts:33-37 | find-or-create, then issue. An existing identity with a free refresh token logs in as that user. A new identity with neither a truthy email nor a truthy phone number is refused with ContactRequired, and one whose email is taken gets P2002; neither writes anything. Otherwise exactly one new user with the six given fields is inserted under a fresh id, and that user logs in unless the refresh token is already stored (then P2002). Success stores exactly one refresh token row expiring in seven days |
| AuthService.Login | apps/server/src/plugins/auth/auth.service.ts:33-37 | as written, the id token is never checked. A body with only the schema's `provider` and `idToken` fails with the store's missing-providerId error and writes nothing. A body that also carries a `providerId` logs in as the stored user with that identity when its refresh token is free. With a new `providerId` and a free email it creates that user and logs in. Success stores exactly one refresh token row |
| AuthService.LoginWithIdentity | apps/server/src/plugins/auth/auth.service.ts:33-37 | with a verified identity: an existing user logs in as that user; a new identity without a truthy email is refused with ContactRequired, and one with a taken email gets P2002, neither writing anything; otherwise one new user is inserted under a fresh id and logs in. Success stores exactly one refresh token row for the returned user, expiring in seven days |
| NoteService.Applied | apps/server/src/plugins/note/note.repository.ts:21-26 | an update overwrites exactly the present properties, the owner `userId` included when the body carries it, and keeps the id |
| NoteService.NoteStore.Create | apps/server/src/plugins/note/note.repository.ts:4-6 | exactly one new row with the given fields |
| NoteService.NoteStore.FindAllByUserId | apps/server/src/plugins/note/note.repository.ts:8-13 | exactly the user's notes, each once |
| NoteService.NoteStore.Update | apps/server/src/plugins/note/note.repository.ts:21-26 | only row `id` changes, to the updated note; a missing row is P2025 with no change |
| NoteService.NoteStore.Delete | apps/server/src/plugins/note/note.repository.ts:28-32 | only row `id` is removed and it is returned; a missing row is P2025 with no change |
| NoteService.CheckOwnership | apps/server/src/plugins/note/note.service.ts:9-18 | a missing note is 404 and a different owner is 403; it succeeds exactly for the caller's own note and returns it |
| NoteService.OwnerIsUnique | apps/server/src/plugins/note/note.service.ts:9-18 | a note passes the check for one user only |
| NoteService.CreateNote | apps/server/src/plugins/note/note.service.ts:21-26 | one new note with the request's title and content, owned by the caller |
| NoteService.GetNotes | apps/server/src/plugins/note/note.service.ts:28-30 | every note of the caller and only those, each once |
| NoteService.GetNote | apps/server/src/plugins/note/note.service.ts:32-34 | the result is exactly the ownership check's result |
| NoteService.UpdateNote | apps/server/src/plugins/note/note.service.ts:36-39 | a failed ownership check returns its error with no write; otherwise only that note's present properties change; its owner stays the caller unless the body names another `userId` |
| NoteService.UpdateCanTransfer | apps/server/src/plugins/note/note.service.ts:36-39 | an owner's update that names another `userId` hands the note over: the caller then gets 403 and the named user passes the ownership check |
| NoteService.DeleteNote | apps/server/src/plugins/note/note.service.ts:41-44 | a failed ownership check returns its error with no write; otherwise only that note is removed |

## Left out

- Timestamps (`createdAt`, `updatedAt`) and every column the services never read or write are not modelled. This includes the user's consent and push-notification flags.
- Ordering is not modelled. `findMany` results come in no particular order, and `orderBy createdAt desc` in `findAllByUserId` is not captured. The lists carry their members, each once.
- The `include` joins (`requester`/`addressee` on friendships, `inviter` on invitations) are not modelled. Views name the other user by id.
- Store calls other than the friendship and invitation inserts fail only with the unique-constraint and missing-record errors the model derives from its tables. A connection failure or timeout on a read, update, delete, on the user, token or note inserts, or on the consume transaction is not modelled.
- NoteService.UpdateNote: of the properties a client may add to the update body, only `userId` is modelled. A client `id` (which would rename the row and can meet the primary key's unique constraint) and the foreign-key error for a `userId` naming no user are not modelled, because the note table is modelled without the user table.
- NoteService.CreateNote: the request is spread into the insert, so a client-added `id` would choose the row id and could fail with P2002. The model always assigns a fresh id. The service writes `userId` after the spread, so the owner is always the caller, as modelled.
- Real concurrency is not modelled. It appears only as an injected store fault on inserts and as one `rival` redemption whose conditional update lands between the checks and the caller's own update.
- `consumeInvitation` reads the clock twice (the expiry check and the consume time). The model uses one `now` for both.
- `issueTokens`, `refresh` and `logout` read the clock separately: the signer's `iat`, the new token's expiry and the expiry check each take their own reading. The model uses one `now` for all of them within a call.
- A client-added property of the login body is a string or absent in the model. A value of another JSON type (a number, an object) is not modelled.
- InvitationService.Befriend: the promotion's `updateFriendshipStatus` cannot fail in the model, because the row was just read. A store failure there is not modelled.
- AuthService.IssueTokens: the `user.connect` of the refresh-token insert is assumed to succeed. A user deleted in between is not modelled, and neither is an exception thrown by the signer.
- The signer is a pure function of its claims. JWT encoding, keys and the provider token verifier (`token-verifier.ts`) are not part of this model.
- The conversion of errors into HTTP responses, and all routing and controllers, are not modelled.
- The letter feature is not part of this model; its service only throws 501.
- The form's react-hook-form plumbing (`register`, `watch`, `onChange` mode, `setValue`, `handleSubmit`) is not modelled. Only `validate` and the values derived from the current value are.
- Handle.LowerChar: lower-cases only A–Z and the Kelvin sign. These are the only characters whose lower-case form can satisfy the handle pattern. Every other character is kept as it is, and its real lower-case form lies outside the pattern as well, so validity and the stored normalised handle are unaffected (the raw handle is stored as typed either way). What the simplification does change is length: JavaScript lower-cases U+0130 to "i" followed by U+0307, two code units, so `Handle.ToLowerCase`'s "keeps the length" and `Handle.NormalizeHandle`'s "never longer than the input" hold of this model only.
- InvitationService.UpperCase: upper-cases only a–z, the only characters a hex string can hold.
- UserService.UpdateUser: writes only the columns this model keeps (name, phone number, handle, normalised handle). The source passes through any column of the user.

## Findings

| source | as written | input that shows it | evidently intended | confidence | as-written member | corrected member |
|---|---|---|---|---|---|---|
| apps/server/src/plugins/auth/auth.service.ts:33-37 | `login` hands the request body straight to find-or-create and never checks the id token. The route schema keeps properties beyond `provider` and `idToken`. So a body with only the schema's two fields always fails on the missing `providerId`, and a body that adds a `providerId` logs in as whoever holds it. | `{ provider: GOOGLE, idToken: "x", providerId: <a stored user's provider id> }` returns that user's tokens; `{ provider: GOOGLE, idToken: "x" }` always fails | verify the id token with the provider, then find-or-create by the verified identity (subject, email, name, picture) | not executed; high, from reading the code | AuthService.Login | AuthService.LoginWithIdentity |
| apps/server/src/plugins/auth/auth.service.ts:16-57 | the refresh token is signed over the user id and the issue second only. A refresh within the second its token was issued deletes that token and then stores the identical string again, so the consumed token stays valid | issue a pair for a user at `now`, then refresh its refresh token at the same `now` | a successful refresh leaves the presented token invalid; issuing the new pair before deleting the old one makes an identical re-sign meet the unique constraint instead | not executed; medium, from reading the code | AuthService.SameSecondRefreshRevives | AuthService.RefreshIssueFirst |
