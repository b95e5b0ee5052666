# Workspace messaging core, modelled in Dafny

This project models the membership, messaging and statistics engine of a
messaging-workspace backend written in TypeScript, and proves properties of it.
The backend keeps one in-memory store. It holds:

- the users;
- the channels, each with owner and member lists and a message log;
- the direct-message conversations (DMs), each with an owner, a member list and a log;
- a statistics record per user and one for the workspace.

Every endpoint is modelled as a pure function from a store to a `Result`.
Success carries the new store and the payload. Failure carries one of three error kinds, and no store:

- `Invalid`: the `{ error }` return value;
- `BadRequest`: HTTP 400;
- `Forbidden`: HTTP 403.

So a failing call leaves the store as it was.

Modules:

- `DataStore` (`datastore.dfy`) holds the records of the store and the lookups the endpoints share.
  Lookups by token, uId and DM id resolve to the first match. For tokens the source shows
  this as an `Array.find` (channel.ts:38). For the other lookup helpers it is an assumption,
  listed under "## Left out".
  It also defines the store invariant `StatsReady`:
  - every user has a statistics record;
  - every series in those records is non-empty;
  - the workspace series are non-empty once a user exists.

  The tracker and the rates index the last point of a series, so the source needs this invariant not to crash.
- `Text` (`text.dfy`) holds the string order JavaScript's `<`, `>` and default `sort` use, a stable sort, `join`, and the ASCII character helpers. That order compares strings by their UTF-16 code units, so the model encodes each string in UTF-16 (`Text.Utf16`) before comparing.
- `Users` (`users.dfy`) covers `statTracker`, `createStatKey`, `getTotalMsgs`, `calcRates`, the two stats endpoints and the profile setters.
- `Auth` (`auth.dfy`) covers the acceptance rule and stat seeding of registration, and logout.
- `Channels` (`channels.dfy`) covers channel creation and the two channel listings.
- `Dms` (`dms.dfy`) covers DM create, list, remove, details, leave, and the paginated message view.
- `Messages` (`messages.dfy`) covers sending to channels and DMs, editing and removing.

Values that the backend gets from its id, handle, token and clock helpers, which are outside this model, are parameters of the operations:

- fresh user, channel, DM and message ids;
- handles, suffixed channel names and tokens;
- the clock reading `now`.

A statistics series is a sequence of `Point(count, timeStamp)`. The tracker's effect is stated by three predicates:

- `Grown`: a series gains points, each `change` above the one before and stamped `now`, and its old points are kept;
- `UsersGrown`: one user series grows by one point for each time the user appears in a list of ids, and every other series and rate is unchanged;
- `WorkspaceGrown`: the same for one workspace series.

The model reproduces several behaviours of the code as they are:

- Removing a DM empties its member list before the decrement loop. Only the owner loses a joined DM.
- Deleting a DM message records no workspace event.
- A creator who lists themself among the invitees is counted twice.
- The involvement rate is capped at 1 but not at 0. An owner who leaves a DM and then removes it ends with a joined-DM count of -1.
- The message total includes the logs of removed DMs.
- Asking a DM member for the page that starts just past the oldest message (start equal to a non-zero log length) answers 400 (dm.ts:176, dm.ts:202-209). One might expect an empty page with end -1 there; the code gives that page only when the log is empty and start is 0.

## Model

| member | source | states |
|---|---|---|
| DataStore.TokenOwner | channel.ts:38 | the user holding a token is the first user whose token list contains it |
| DataStore.UserIndex | dm.ts:35 | a valid uId resolves to the first user carrying it |
| DataStore.DmIndex | dm.ts:100 | a DM id resolves to the first DM carrying it |
| Text.SortBy | dm.ts:47 | the result is ordered by the key in UTF-16 code-unit order, is a permutation of the input, and keeps the input order among elements with equal keys (a stable sort, as `Array.prototype.sort`) |
| Text.InsertKeepsKeyOrder | dm.ts:87 | inserting an element puts it ahead of the elements with its key and changes the relative order of no other equal-key elements |
| Text.BelowTotal | dm.ts:87 | any two strings compare: one is below the other, or they are equal, so the comparator returns 0 only for equal names |
| Text.AtMostTransitive | dm.ts:47 | the code-unit order is transitive, so sorting by it is well defined |
| Text.SortedUnique | dm.ts:47 | two sequences of strings that are both in code-unit order and hold the same strings with the same multiplicities are equal, so the sorted handles are determined |
| Text.Utf16Injective | dm.ts:87 | two strings with the same UTF-16 code units are the same string |
| Users.Record | users.ts:283-290 | one point is appended whose count is the last count plus the change; earlier points are kept |
| Users.StatTracker | users.ts:275-310 | with a user series and a uId other than -1, exactly that user's series gains one point (last + change); with `''` or uId -1 every user record is unchanged; with a workspace series that series gains one point, otherwise the workspace record is unchanged; users, channels and DMs are untouched; the store invariant is kept |
| Users.GrownCompose | users.ts:283-289 | two rounds of appends compose into one, with the counts adding up |
| Users.UsersGrownCompose | dm.ts:65-68 | consecutive tracker calls compose: their id lists concatenate |
| Users.TrackEach | dm.ts:66-68 | the per-invitee loop appends one point per occurrence of each id and no workspace point |
| Users.RecordAllHistory | users.ts:275-291 | a series tracked through several changes gains one point per change, keeps its prefix, and ends at the old last count plus their sum |
| Users.CreateStatKey | users.ts:312-316 | the key is "num" followed by the stat name with its first character upper-cased |
| Users.StatKeyRoundTrip | users.ts:312-316 | for names starting with a lower-case letter, the stat name can be recovered from its key |
| Users.StatKeyInjective | users.ts:312-316 | different stat names starting with a lower-case letter give different keys |
| Users.UserStatKeysMatchFields | auth.ts:17-30 | the key derived for each user series is exactly the count field its record type declares |
| Users.WorkspaceStatKeysMatchFields | auth.ts:32-45 | the key derived for each workspace series is exactly the count field its record type declares |
| Users.TotalMsgs | users.ts:212-225 | definition without a contract: the lengths of every DM log, removed DMs included, plus every channel log; Users.NoMessagesIffEmptyLogs and the count clauses of the Send, SendDm, Remove and Dms.Remove rows state its behaviour |
| Users.NoMessagesIffEmptyLogs | users.ts:212-225 | `getTotalMsgs` is 0 exactly when every DM log, removed DMs included, and every channel log is empty |
| Users.Involvement | users.ts:230-248 | the rate is the latest-counts sum over channels + DMs + total messages; 0 on an empty workspace, capped at 1, non-negative when the numerator is |
| Users.InvolvementCanBeNegative | users.ts:234-246 | a negative numerator gives a negative rate, because only the upper cap exists |
| Users.JoinedUsers | users.ts:253-262 | the count is 0 exactly when nobody has a positive latest channel or DM count, and all users exactly when everybody has |
| Users.JoinedUsersCountsJoiners | users.ts:253-262 | the counting loop counts exactly the users whose latest channel or DM count is positive (the size of the set of their positions) |
| Users.Utilization | users.ts:250-265 | the rate lies in [0,1], and is 0 exactly when nobody has joined a channel or DM and 1 exactly when everybody has; its value as a ratio is stated by Users.UtilizationIsShareOfJoiners |
| Users.UtilizationIsShareOfJoiners | users.ts:250-265 | the rate equals the size of the set of users who have joined some channel or DM, divided by the number of users |
| Users.Share | users.ts:264 | a part n of a positive whole d gives a quotient whose product with d is n, lying in [0,1], 0 exactly when n is 0 and 1 exactly when n is d |
| Users.UserStatsV1 | users.ts:185-196 | 403 on an invalid token; otherwise the caller's series are unchanged, the store invariant is kept, and the stored rate is the freshly computed involvement |
| Users.UsersStatsV1 | users.ts:198-208 | 403 on an invalid token; otherwise the workspace series are unchanged, the store invariant is kept, and the stored utilisation is the share of users who have joined something, which lies in [0,1] |
| Users.SetName | users.ts:65-89 | succeeds exactly when the token is valid and both names have length 1..50; only that user's names change |
| Users.SetHandle | users.ts:113-134 | succeeds exactly when the token is valid, the handle is unused, of length 3..20 and alphanumeric; only that user's handle changes |
| Users.SetHandleKeepsHandlesUnique | users.ts:119-121 | handles that are distinct before a handle change stay distinct after it |
| Users.SetHandleKeepsStore | users.ts:113-134 | a successful handle change keeps the store invariant, every token's validity, distinct handles and distinct emails, and the new handle is then taken |
| Users.SetEmail | users.ts:91-111 | succeeds exactly when the token is valid, the email is unused and passes the validator; only that user's email changes |
| Users.ProfileEditKeepsStore | users.ts:65-134 | a profile change to one user that keeps their uId and tokens keeps the store invariant and the validity of every token |
| Users.SetNameKeepsStore | users.ts:65-89 | a name change keeps the store invariant, every token's validity, and handles and emails distinct |
| Users.SetEmailKeepsStore | users.ts:91-111 | an email change keeps the store invariant, every token's validity and distinct handles and emails; the new email is then taken and, with distinct emails, the old one is free and no other email changes status |
| Auth.Register | auth.ts:98-182 | succeeds exactly when the email is unused and valid, the password has at least 6 characters and both names 1..50; exactly one user record is appended, holding the given id, email, password, names, handle and token, with permission 1 for the first user and 2 otherwise; the email is then taken and the token valid, naming the new user when it was fresh; three single 0-count series and rate 0; workspace seeded only for the first user |
| Auth.RegisterKeepsStatsReady | auth.ts:158-176 | registration keeps every user's series and the workspace series non-empty |
| Auth.NewUserInvolvementIsZero | auth.ts:158-163 | a new user's involvement computed from the seeded series is 0 |
| Auth.IndexOf | auth.ts:88 | `indexOf` finds the first occurrence |
| Auth.Logout | auth.ts:80-92 | an invalid token is an error; otherwise exactly one occurrence of the token, the first, leaves that user's list, nothing else changes, and the store invariant is kept |
| Auth.LogoutInvalidatesOnlyThatToken | auth.ts:83-91 | a token held once stops being valid, and every other token keeps its validity |
| Channels.Create | channel.ts:29-61 | succeeds exactly when the name has length 1..50 and the token is valid; one channel with the creator as sole owner and member and an empty log is appended; the creator's joined-channels series and the channels-exist series each gain one point |
| Channels.Occurrences | channel.ts:75-81 | the number of entries for a user is positive exactly when the user is a member |
| Channels.Visible | channel.ts:74-83 | holds exactly the (id, name) pairs of channels whose members include the user |
| Channels.ListFor | channel.ts:74-83 | the nested loop lists the same channels as the member filter, and in store order with no repeats when no member entry is duplicated |
| Channels.ListChannels | channel.ts:63-86 | 403 on an invalid token; otherwise exactly the caller's channels |
| Channels.ListAllChannels | channel.ts:90-107 | 403 on an invalid token; otherwise every channel, in store order, regardless of membership |
| Channels.ListIsPartOfListAll | channel.ts:63-107 | everything the caller can list is in the full listing |
| Dms.DmName | dm.ts:44-47 | a DM name is the handles, sorted in UTF-16 code-unit order, joined by ", " |
| Dms.DmNameIgnoresOrder | dm.ts:44-47 | two member lists holding the same handles, in any order, give the same DM name |
| Dms.Create | dm.ts:24-70 | fails exactly on an invalid token, an unknown uId or a uId listed earlier; otherwise one DM is appended with the creator as owner, the member records of the invitees in list order then the creator's as members, the name built from their handles, and an empty log; creator plus invitees each gain a joined-DM point, with one DMs-exist point; a creator who also lists themself gains two joined-DM points |
| Dms.ListedTwiceGrowsTwice | dm.ts:65-68 | a user appearing as creator and as one invitee gains two points |
| Dms.MemberDms | dm.ts:79-86 | exactly the DMs whose member list contains the user |
| Dms.List | dm.ts:72-89 | an invalid token is an error; otherwise exactly the caller's DMs, sorted by name, with DMs of equal name in store order |
| Dms.Remove | dm.ts:91-118 | fails on an invalid token, an unknown DM or a non-owner; otherwise the member list is emptied while the DM and its log stay; only the owner loses a joined-DM point, with one DMs-exist decrement; the removed log still counts in the message total |
| Dms.Details | dm.ts:120-136 | 403 on an invalid token, 400 on an unknown DM, 403 for a non-member; a valid token of a member of an existing DM always succeeds, with the name and members |
| Dms.DetailsAgreeWithList | dm.ts:128-130 | with distinct DM ids, a caller can read a DM's details exactly when the DM is in their list |
| Dms.ReadableIffListed | dm.ts:128-130 | with distinct DM ids, any list holding exactly the summaries of a user's DMs names a DM exactly when that user is a member of it |
| Dms.MemberIndex | dm.ts:149 | the caller's first entry in the member list |
| Dms.Leave | dm.ts:138-159 | same errors as details, and a valid token of a member of an existing DM always succeeds; then only the caller's first entry is removed and the caller loses a joined-DM point, with no workspace point; a caller listed once is then no longer a member and every other member stays |
| Dms.DropEntry | dm.ts:150 | dropping the entry of a user listed once leaves that user out and keeps every other entry |
| Dms.LeftOnce | dm.ts:147-153 | after leaving, a caller listed once is no longer a member, the DM keeps its position and every other member remains |
| Dms.NewestFirst | dm.ts:181-191 | the log reversed, each message with reacts emptied and unpinned |
| Dms.PageOf | dm.ts:176-192 | element i is the message n-1-(start+i), and the page has min(50, n-start) elements |
| Dms.EndMarksMore | dm.ts:193 | the end sentinel is -1 exactly when no message remains after the page, and start+50 otherwise |
| Dms.CollectPage | dm.ts:177-193 | the collecting loop returns exactly the page and the end sentinel |
| Dms.Messages | dm.ts:161-211 | 403 on an invalid token, 400 on an unknown DM, 403 for a non-member before start is checked; the page when start < n; an empty page with end -1 when n = 0 and start = 0; 400 for any other start >= n |
| Dms.PagesCoverLog | dm.ts:176-199 | following the end values from a start concatenates to the rest of the reversed log, each message once |
| Dms.ThreePagesOf124 | dm.ts:181-193 | 124 messages give pages of 50, 50 and 24 with ends 50, 100, -1, which together are the reversed log |
| Messages.Send | message.ts:17-72 | succeeds exactly when the token is valid, the caller is in the channel's members and the body has 1..1000 characters; the message is appended, with the caller as author, to the log of every channel carrying the id; one messages-sent and one messages-exist point; one message per channel carrying the id is added, and the new id gains as many copies |
| Messages.PostToCounts | message.ts:37-41 | posting to every channel with an id adds, per such channel, one message and one copy of the message id |
| Messages.SendDm | message.ts:267-318 | fails on a bad token, unknown DM, bad length or non-member; otherwise the message is appended to the DM's log with one messages-sent and one messages-exist point; the store gains exactly one message and one copy of its id |
| Messages.CanModerate | message.ts:97-111 | definition without a contract: the caller wrote the message or owns the channel or DM holding it; Messages.ModeratedIsPresent and the Edit and Remove rows state its consequences |
| Messages.ModeratedIsPresent | message.ts:97-111 | a message someone may moderate is somewhere in the store |
| Messages.FirstIndex | message.ts:129 | `findIndex` gives the first message carrying the id |
| Messages.Find | message.ts:219-241 | channels are searched first, in order; the DMs only when no channel holds the id |
| Messages.Drop | message.ts:130 | `splice(k, 1)` keeps the messages before k and shifts the rest down by one |
| Messages.Delete | message.ts:219-241 | deleting from a channel removes the message and records one messages-exist decrement; deleting from a DM removes it and records nothing; user series are untouched |
| Messages.Edit | message.ts:86-176 | succeeds exactly when the token is valid, the caller is the author or an owner of the containing channel or DM, and the body has at most 1000 characters; a non-empty body rewrites every channel copy of the id, or every DM copy when no channel holds it (Messages.EditWritesBody), and changes no statistics; an empty one deletes |
| Messages.EditWritesBody | message.ts:121-172 | a successful non-empty edit leaves users and statistics alone and gives some copy the new body; if a channel holds the id, the DMs are unchanged and each channel log keeps its length, with every message carrying the id given the new body and every other message unchanged; otherwise the channels are unchanged and the same holds for each DM log |
| Messages.Remove | message.ts:188-265 | same authorisation as edit; the message is deleted, taking away one message and one copy of its id, so a message held once is then gone |
| Messages.EmptyEditIsRemove | message.ts:126-132 | editing to the empty body is the same as removing |
| Messages.DeleteDropsOneCopy | message.ts:219-241 | a deletion takes away exactly one message and one copy of its id |
| Messages.RewriteKeepsCounts | message.ts:126-127 | an edit changes neither the message total nor the number of copies of any id |
| Messages.RewriteIdempotent | message.ts:121-172 | rewriting twice with the same body is rewriting once, and the same users may still moderate |
| Messages.EditIsStable | message.ts:121-172 | after an edit, the same edit again changes nothing; counts and the store invariant are kept |
| Messages.EditToCurrentBodyChangesNothing | message.ts:126-127 | editing a message to the body it already has leaves the store unchanged |

## Left out

- HTTP routing, middleware, server start and stop, and console logging are not modelled.
- JSON-file persistence is not modelled. The statistics records live in the store as a map keyed by uId, plus one workspace record.
- Photo upload and the default-avatar download done during registration are not modelled. They are network fetches, image processing and file writes.
- Login, `userProfileV2` and `usersAllV1` are not part of this model.
- The channel join, invite and leave endpoints are not part of this model.
- The id, handle, channel-name and token generators are not part of this model. Their results are parameters, and their suffixing rules are not stated.
- The clock is a parameter `now`.
  - One call uses one reading, where the source asks the clock once per point.
  - Monotonicity of the clock is not used by any property.
- The email validator is an uninterpreted predicate `isEmail`.
- The helpers `isAlphaNumeric`, `isUserMemberOfDm`, `isFeatureValid`, `getFeatureIndex`, `getFeatureMemberIndex`, `getUserIndex`, `getUserPropertyFromToken` and `isUserPropertyValid` are not part of this model. These helpers live outside the modelled core; the model assumes:
  - `isAlphaNumeric`: ASCII letters and digits;
  - `isUserPropertyValid('uId' | 'email' | 'handleStr' | 'token', v)`: some user carries `v` in that field (for tokens, in their token list);
  - `isFeatureValid('dms', id)`: some DM carries the id;
  - `getUserIndex` and `getUserPropertyFromToken`: the first user carrying the uId or token, as `Array.find` at channel.ts:38 does for tokens;
  - `getFeatureIndex` and `getFeatureMemberIndex`: the first DM with the id, and the first member entry with the uId;
  - `isUserMemberOfDm`: the members of the first DM with the id include the user.
- The two token-validity helpers are modelled as one predicate: the token is in some user's token list.
- Dms.Create: the source returns the new id under the key `dmID` (dm.ts:69). The tests in dm.test.ts expect `dmId`, while users.test.ts reads `dmID`. The model returns the bare id, and the key names of response payloads are not modelled.
- JavaScript numbers are modelled as exact values. Ids, counts and `start` are integers. A fractional or NaN `start` can reach the DM message view through `Number(start)` (server.ts:249), and it is not modelled. The involvement and utilisation rates are exact rational quotients (`real`), with no floating-point rounding.
- Dms.Messages: `start` is a natural number. A negative start reads outside the log in the source, and that is not modelled.
- Messages.Delete: it removes the first located copy only. The source splices while iterating, so with duplicate message ids it can delete further copies, each with its own workspace event. Message ids come from a generator meant to make them unique, and with unique ids the two agree.
- Text.ToUpper and Text.ToLower: they cover ASCII letters only, where `toUpperCase` covers all of Unicode. The stat names the tracker uses are ASCII.
- String length is modelled as the number of characters. JavaScript counts UTF-16 code units.
- Users.Utilization: it requires at least one user. With no users the source divides 0 by 0, which is NaN; the endpoint that calls it always has a valid caller.
- The utilisation clamp at users.ts:265-269 runs after the rate is stored, so it has no effect. The model stores the unclamped ratio, which is proved to lie in [0,1].
