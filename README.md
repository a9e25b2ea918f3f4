# Facebook group member check: a verified model

This project models the core of a browser extension. The extension checks whether Facebook users belong to a list of Facebook groups. The model covers:

- **Identifier normalisation** (`extractFacebookIdentifier`). A raw id, a username or a profile URL is reduced to one identifier.
- **Profile resolution** (`findFacebookInfo`, `findFacebookIdFallback`, `findFacebookId`). A profile is read out of the text of a fetched profile page:
  - first by isolating the JSON user object next to the `XFBProfileEntityConvergenceHeaderRenderer` marker with a brace-counting scan;
  - otherwise by three id patterns tried in order.

  The resolver is modelled as the program is written, including what it does when `"user":` is missing (see "## Findings"). `ResolveProfileIntended` is the corrected resolver.
- **Membership classification** (`getMembershipRole`, `isMemberOfGroup`). The text of a group-member page decides a role from Vietnamese phrases in the profile intro card, or from membership data elsewhere on the page.
- **The application store.** This is one object holding the configured groups, the check queue, the recent checks, the `isProcessing` flag and the cap on recent checks. It has these actions:
  - the group actions;
  - `addToQueue`;
  - `processQueue`, with its batches of five and its PENDING → PROCESSING → COMPLETED item life cycle;
  - `removeFromQueue`;
  - `addRecentCheck`, which keeps the newest check first and one check per (user, group) pair;
  - `checkSingleMembership`;
  - `checkUserMembership`, with its CHECKING placeholders;
  - `addMultipleUsersToQueue`.
- **The background page's retry loop** (`safeSendTabMessage`), with exponential backoff.
- **The content script's id extraction** from the page URL.
- **The text the user and group cards derive:** initials, badge labels, display names and links.

Nothing that touches the outside world is modelled directly. Each becomes an input:

- fetched page texts are strings;
- `new URL` and `JSON.parse` are parameters returning `Option`;
- the clock is an integer argument;
- the outcome of each network call is an argument;
- the order in which the items of a batch settle under `Promise.all` is a permutation argument.

Module layout follows the source files:

| module | source |
|---|---|
| `Base` | JavaScript string operations the code relies on: `trim`, `split`, `indexOf`, `includes`, `\d`, `\s` |
| `Types` | `src/lib/types.ts` |
| `GroupUserPattern` | the `groups/(\d+)/user/(\d+)` regular expression shared by two files |
| `IdentifierExtractor` | `src/lib/extract-facebook-identifier.ts` |
| `IdPatterns` | the three id regular expressions of both resolvers |
| `ProfileResolver` | `src/utils/find-facebook-info.ts` |
| `FacebookId` | `src/utils/find-facebook-id.ts` |
| `MembershipClassifier` | `src/lib/is-member-of-groups.ts` |
| `MemberCheck` | `src/utils/is-member-of-groups.ts` |
| `StoreGroups`, `StoreQueue`, `StoreRecent` | the new-value computations of `src/store/app-store.ts` |
| `AppStore` | the store object of `src/store/app-store.ts`, as class `Store` |
| `TabMessenger` | `src/pages/background/index.ts` |
| `ContentIds` | `src/content/content.ts` |
| `Initials`, `UserCard`, `GroupCard` | `src/components/UserCard.tsx`, `src/components/GroupCard.tsx` |

## Model

| member | source | states |
|---|---|---|
| IdentifierExtractor.UrlCandidate | src/lib/extract-facebook-identifier.ts:24-26 | input that starts with "http" goes to the URL parser unchanged; anything else gets "https://" prepended |
| IdentifierExtractor.FirstSegment | src/lib/extract-facebook-identifier.ts:40-42 | the first non-empty path segment is non-empty and holds no '/' |
| IdentifierExtractor.FromUrl | src/lib/extract-facebook-identifier.ts:28-50 | a non-facebook.com host yields nothing; anything yielded is non-empty |
| IdentifierExtractor.ResultIsTrimmedOrFromUrl | src/lib/extract-facebook-identifier.ts:19-57 | the result is the trimmed input or a non-empty identifier taken from the parsed URL |
| IdentifierExtractor.ParseFailureYieldsTrimmed | src/lib/extract-facebook-identifier.ts:51-56 | when the URL parser throws, the trimmed input is returned |
| IdentifierExtractor.ForeignHostYieldsTrimmed | src/lib/extract-facebook-identifier.ts:28-56 | a host without "facebook.com" yields the trimmed input, whatever the path |
| IdentifierExtractor.BlankInputYieldsEmpty | src/lib/extract-facebook-identifier.ts:20-26 | blank input gives "" because "https://" does not parse |
| IdentifierExtractor.GroupUserPathWins | src/lib/extract-facebook-identifier.ts:29-31 | a `/groups/<digits>/user/<digits>` path yields the user digits before any other rule applies |
| IdentifierExtractor.ProfilePhpYieldsId | src/lib/extract-facebook-identifier.ts:33-37 | `/profile.php` with a non-empty `id` parameter yields that parameter |
| IdentifierExtractor.ProfilePhpWithoutIdYieldsTrimmed | src/lib/extract-facebook-identifier.ts:34-56 | `/profile.php` without an id falls through; its segment holds ".php", so the trimmed input comes back |
| IdentifierExtractor.FirstSegmentRule | src/lib/extract-facebook-identifier.ts:39-49 | with no earlier rule applying, the first segment is returned iff it is not an excluded slug and holds no ".php" |
| IdentifierExtractor.FirstSegmentOf | src/lib/extract-facebook-identifier.ts:40 | leading slashes are skipped and the first segment runs up to the next slash |
| IdentifierExtractor.NoGroupUserMatchWithoutLead | src/lib/extract-facebook-identifier.ts:30 | a path without `/groups/` cannot match the group-user pattern |
| GroupUserPattern.MatchAt | src/lib/extract-facebook-identifier.ts:30 | a match at a position spells out the lead, non-empty group digits, "/user/" and non-empty user digits there |
| GroupUserPattern.MatchPos | src/content/content.ts:2 | the reported match position is a match, and no earlier position matches (leftmost match) |
| GroupUserPattern.MatchAtSpelledOut | src/content/content.ts:2 | completeness: text spelling out the pattern with maximal digit runs matches with exactly those captures |
| IdPatterns.KeyDigitsAt | src/utils/find-facebook-info.ts:24-31 | a match of `<key>(\d+)"` at a position spells the key, a non-empty digit capture and a closing quote |
| IdPatterns.KeyDigitsPos | src/utils/find-facebook-info.ts:24-31 | the leftmost match of a key pattern: a match there and none before |
| IdPatterns.KeyDigits | src/utils/find-facebook-info.ts:24-31 | the capture is a non-empty digit string |
| IdPatterns.PropsUserIdFrom | src/utils/find-facebook-info.ts:17 | the lazy `[^{}]*?` scan yields a non-empty digit capture or nothing |
| IdPatterns.PropsMatchAt | src/utils/find-facebook-info.ts:17 | a props match starts with `"props":{` and captures digits |
| IdPatterns.PropsPos | src/utils/find-facebook-info.ts:17 | the leftmost props match: a match there and none before |
| IdPatterns.PropsUserId | src/utils/find-facebook-info.ts:17 | the props capture is a non-empty digit string |
| IdPatterns.LeftmostOccurrenceDecides | src/utils/find-facebook-info.ts:24-25 | only the leftmost match of a key is seen; later occurrences never matter |
| ProfileResolver.ScanObject | src/utils/find-facebook-info.ts:64-75 | the brace-counting loop stops at the first point where the braces balance, or at the end of the text with the count still positive |
| ProfileResolver.CloseFrom | src/utils/find-facebook-info.ts:64-73 | the closing point found is the first one at which the object's braces balance |
| ProfileResolver.UserObjectStart | src/utils/find-facebook-info.ts:59-61 | (corrected) the user object starts at a `{` after `"user":`; there is no start when the key is missing |
| ProfileResolver.UserObjectStartAsWritten | src/utils/find-facebook-info.ts:59-61 | (as written) the start found is always a `{` of the page |
| ProfileResolver.OpenBraceFrom | src/utils/find-facebook-info.ts:61 | `indexOf("{", from)` finds a brace at or after `from` |
| ProfileResolver.IsolatedObjectIsBalanced | src/utils/find-facebook-info.ts:63-76 | the isolated user JSON starts with `{`, ends with its matching `}`, balances, and every proper prefix is still open |
| ProfileResolver.ObjectShape | src/utils/find-facebook-info.ts:64-76 | the text from an opening brace to its closing point is a balanced object |
| ProfileResolver.StaysOpen | src/utils/find-facebook-info.ts:66 | the depth stays positive until it first reaches zero |
| ProfileResolver.FindFacebookIdFallback | src/utils/find-facebook-info.ts:15-39 | the three patterns are tried in order; a result is an accepted (digits only, longer than 5, not "0") leftmost capture; nothing iff no pattern's capture is accepted |
| ProfileResolver.FindFacebookInfo | src/utils/find-facebook-info.ts:41-123 | the method agrees with the resolver as written, including the scan from the page's first `{` when `"user":` is missing, and any profile it returns has a non-empty id |
| ProfileResolver.NoMarkerMeansFallback | src/utils/find-facebook-info.ts:50-122 | without the renderer marker only the fallback can produce a profile |
| ProfileResolver.PrimaryHitCopiesFields | src/utils/find-facebook-info.ts:79-92 | a parsed object with a truthy id is returned with that id; each of name, alternate name, gender, url, cover and avatar is null exactly when absent or empty, and otherwise the parsed value |
| ProfileResolver.FallbackHitIsIdOnly | src/utils/find-facebook-info.ts:103-122 | when the primary path fails, a fallback id gives an id-only profile and no id gives null |
| ProfileResolver.AsWrittenTakesFirstObject | src/utils/find-facebook-info.ts:56-92 | (as written) with `"user":` missing after the renderer's brace, the scan starts at the page's first `{`, at or before that brace, and the object opening there is returned whenever the parser gives it a truthy id |
| ProfileResolver.IntendedFallsBack | src/utils/find-facebook-info.ts:56-61 | (corrected) with `"user":` missing after the renderer's brace, only the fallback patterns can produce a profile |
| ProfileResolver.AnchorsAgreeWithUserKey | src/utils/find-facebook-info.ts:56-61 | when the key follows the renderer's brace, or there is no renderer brace, the program and the corrected resolver return the same profile |
| ProfileResolver.AsWrittenDiffersFromIntended | src/utils/find-facebook-info.ts:60-61 | a page whose first object parses with a truthy id, without `"user":` after the renderer's brace and without a fallback id, gives a profile as written and null as intended |
| ProfileResolver.AsWrittenAnchorIgnoresMissingUserKey | src/utils/find-facebook-info.ts:60-61 | with `"user":` missing, the as-written anchor still picks a brace at or before the renderer's; the corrected one gives up |
| FacebookId.FindFacebookId | src/utils/find-facebook-id.ts:10-34 | a result is digits only, longer than 5 characters and not "0" |
| FacebookId.PatternPrecedence | src/utils/find-facebook-id.ts:12-34 | an accepted props capture wins, then the first `userID`, then the first `actorID` |
| FacebookId.ShortFirstUserIdIsSkipped | src/utils/find-facebook-id.ts:19-31 | a too-short first `userID` moves on to `actorID`, never to a later `userID` occurrence |
| FacebookId.AgreesWithFallback | src/utils/find-facebook-id.ts:10-34 | on the same page text it returns what the profile resolver's fallback returns |
| MembershipClassifier.NotMemberPhraseWins | src/lib/is-member-of-groups.ts:24-31 | the not-member phrase in either encoding gives NOT_MEMBER, whatever else the page holds |
| MembershipClassifier.RolePrecedence | src/lib/is-member-of-groups.ts:33-53 | inside the card ADMIN comes before MODERATOR, which comes before MEMBER, and each phrase counts in either encoding |
| MembershipClassifier.FallbackDecides | src/lib/is-member-of-groups.ts:56-64 | with no card, or a card naming no phrase, the membership match alone decides MEMBER or NOT_MEMBER |
| MembershipClassifier.RoleHasEvidence | src/lib/is-member-of-groups.ts:17-64 | every role other than NOT_MEMBER is backed by its phrase in the card, or for MEMBER by the membership match |
| MemberCheck.AgreesWithRole | src/utils/is-member-of-groups.ts:17-73 | the boolean classifier says "member" exactly when the role classifier's answer is not NOT_MEMBER |
| MemberCheck.Decision | src/utils/is-member-of-groups.ts:26-73 | the not-member phrase gives false; otherwise any role phrase gives true; otherwise the membership match decides |
| StoreGroups.HasIdIffInIds | src/store/app-store.ts:146 | a group with an id exists iff the id is among the groups' ids |
| StoreGroups.WithoutGroup | src/store/app-store.ts:149-152 | `removeGroup` keeps exactly the groups with another id |
| StoreGroups.WithoutGroupConcat | src/store/app-store.ts:151 | removal keeps the relative order of what stays |
| StoreGroups.WithoutAbsentId | src/store/app-store.ts:151 | removing an id no group has changes nothing |
| StoreGroups.WithoutGroupUnique | src/store/app-store.ts:151 | removal keeps ids unique |
| StoreGroups.WithGroup | src/store/app-store.ts:144-147 | `addGroup` puts the group last, after the other groups in order, and no other group keeps its id |
| StoreGroups.WithGroupUnique | src/store/app-store.ts:146 | adding keeps ids unique |
| StoreGroups.EmptyPatchIsIdentity | src/store/app-store.ts:166 | an empty patch changes nothing |
| StoreGroups.UpdateGroupUnique | src/store/app-store.ts:163-168 | a patch that keeps the id, or renames to an unused id, keeps ids unique |
| StoreGroups.UpdateAbsentId | src/store/app-store.ts:165 | updating an id no group has changes nothing |
| StoreGroups.IndexOfId | src/store/app-store.ts:158 | the first position holding an id, and none iff no group has it |
| StoreGroups.UpsertIds | src/store/app-store.ts:159 | `Map.set` keeps an existing key's position and appends a new key |
| StoreGroups.UpsertAllIds | src/store/app-store.ts:158-160 | after the import the id order is the old ids, then the new ids in order of first appearance |
| StoreGroups.UpsertAllUnique | src/store/app-store.ts:158-160 | an import never yields two groups with the same id |
| StoreGroups.LastDuplicateWins | src/store/app-store.ts:159 | of several imported groups with one id, the last is kept |
| StoreGroups.UpsertAllFrom | src/store/app-store.ts:158-160 | every resulting group is an existing or an imported one |
| StoreGroups.RebuildUnique | src/store/app-store.ts:158 | building the map from groups with unique ids gives them back unchanged |
| StoreGroups.UpsertAllKeepsOthers | src/store/app-store.ts:158-160 | a group the import does not mention keeps its position and value |
| StoreGroups.ImportGroupsSpec | src/store/app-store.ts:156-161 | for groups with unique ids, the import keeps ids unique, appends new ids in order, keeps the last duplicate and leaves unmentioned groups in place; nothing else appears |
| StoreQueue.DistinctPairsGiveUniqueKeys | src/store/app-store.ts:189-195 | items keyed by their own pair, one per pair, have unique keys |
| StoreQueue.NewItemsSpec | src/store/app-store.ts:187-204 | each new item is a PENDING, priority-0 item for a configured group the queue lacks for this user; every such group gets one |
| StoreQueue.NewItemsDistinct | src/store/app-store.ts:187-204 | for groups with unique ids, no two new items share a group |
| StoreQueue.EnqueueKeepsPairsDistinct | src/store/app-store.ts:207 | appending the new items keeps one item per pair, each keyed by its pair |
| StoreQueue.PendingItems | src/store/app-store.ts:223-225 | exactly the PENDING items |
| StoreQueue.Batch | src/store/app-store.ts:230-231 | the batch is the first min(5, #pending) pending items |
| StoreQueue.SetStatus | src/store/app-store.ts:234-240 | the items with a selected key get the new status; all others are unchanged and in place |
| StoreQueue.SetStatusTwice | src/store/app-store.ts:250-254 | two writes of one status compose into one |
| StoreQueue.MarkPrefixProcessing | src/store/app-store.ts:231-240 | marking the first n pending items PROCESSING leaves exactly the later pending items pending |
| StoreQueue.StartBatchSpec | src/store/app-store.ts:228-240 | starting a cycle marks exactly the batch PROCESSING, and the pending items left are those after the batch |
| StoreQueue.Purge | src/store/app-store.ts:269 | exactly the items that are not COMPLETED |
| StoreQueue.Remaining | src/store/app-store.ts:250-269 | exactly the items neither settled in this cycle nor COMPLETED |
| StoreQueue.PurgeAfterSettle | src/store/app-store.ts:250-269 | marking the settled items COMPLETED and purging leaves exactly the remaining items |
| StoreQueue.WithoutItem | src/store/app-store.ts:214-217 | `removeFromQueue` keeps exactly the items with another key |
| StoreQueue.WithoutItemKeepsInvariant | src/store/app-store.ts:216 | removing an item keeps one item per pair |
| StoreQueue.SetStatusKeeps | src/store/app-store.ts:235-237 | a status write keeps keys and pairs, and adds no COMPLETED item unless it writes COMPLETED |
| StoreQueue.RemainingKeepsInvariant | src/store/app-store.ts:269 | after the purge, one item per pair and no COMPLETED item |
| StoreQueue.RemainingIgnoresMarked | src/store/app-store.ts:234-269 | the PROCESSING write to the batch does not change what survives the cycle |
| StoreQueue.ExtendsTrans | src/store/app-store.ts:207-240 | queue growth by appending and PROCESSING writes composes |
| StoreQueue.EnqueueExtends | src/store/app-store.ts:207 | appending new items only adds items for pairs the queue lacked |
| StoreQueue.MarkProcessingExtends | src/store/app-store.ts:234-240 | a PROCESSING write changes only statuses |
| StoreRecent.WithoutPair | src/store/app-store.ts:281-283 | exactly the checks for another (user, group) pair are kept |
| StoreRecent.WithoutPairConcat | src/store/app-store.ts:281-283 | the filter keeps the relative order of what stays |
| StoreRecent.WithoutPairDistinct | src/store/app-store.ts:281-283 | the filter keeps one entry per pair |
| StoreRecent.SliceEnd | src/store/app-store.ts:284-286 | `slice(0, end)` never cuts beyond the list's length, whatever the end |
| StoreRecent.AddRecentSpec | src/store/app-store.ts:279-289 | the new check comes first (cap at least 1); no other entry keeps its pair; the others keep their order; nothing new appears; the length is capped by a non-negative cap |
| StoreRecent.AddRecentDistinct | src/store/app-store.ts:279-289 | one entry per pair is kept up |
| StoreRecent.RecordAllSupersedes | src/store/app-store.ts:281-283 | after recording several checks, an entry sharing a pair with one of them is one of them |
| StoreRecent.RecordAllFront | src/store/app-store.ts:284 | checks for distinct pairs recorded under a large enough cap lead the list, newest first |
| StoreRecent.RecordAllDistinct | src/store/app-store.ts:279-289 | recording keeps one entry per pair |
| AppStore.FindGroup | src/store/app-store.ts:318 | `groups.find` yields the first group with the id, and nothing iff none has it |
| AppStore.OrderCoversBatch | src/store/app-store.ts:242-264 | settling in an order that lists every index settles every item of the batch |
| AppStore.FinalsSupersedePlaceholders | src/store/app-store.ts:375-409 | after the placeholders and then the finals are recorded, no entry for the user and one of the groups is CHECKING |
| AppStore.FinalsInFront | src/store/app-store.ts:399-409 | with unique group ids and a cap of at least the number of groups, the final statuses lead the list |
| AppStore.Store.constructor | src/store/app-store.ts:136-141 | the initial state: no groups, queue or checks, not processing, cap 200 |
| AppStore.Store.AddGroup | src/store/app-store.ts:144-147 | the new state is the old groups without the id, then the group; unique ids are kept |
| AppStore.Store.RemoveGroup | src/store/app-store.ts:149-152 | exactly the groups with another id remain |
| AppStore.Store.ClearGroups | src/store/app-store.ts:154 | no groups remain |
| AppStore.Store.ImportGroups | src/store/app-store.ts:156-161 | the new groups are the import result; unique ids are kept and the id order is the old one, then the new ids |
| AppStore.Store.UpdateGroup | src/store/app-store.ts:163-168 | the new groups are the patched ones; a patch that keeps ids unused keeps them unique |
| AppStore.Store.StartCycle | src/store/app-store.ts:219-240 | the batch is the planned one; an empty batch changes nothing; otherwise the flag is raised and exactly the batch is PROCESSING |
| AppStore.Store.Enqueue | src/store/app-store.ts:183-207 | the queue gains exactly the new items at its end, and any new item is pending |
| AppStore.Store.AddToQueue | src/store/app-store.ts:170-212 | an unresolved user changes nothing; new items are appended; a cycle starts only when items were added and none was running |
| AppStore.Store.RemoveFromQueue | src/store/app-store.ts:214-217 | exactly the items with another key remain |
| AppStore.Store.AddRecentCheck | src/store/app-store.ts:279-289 | the check comes first, no other entry keeps its pair, the others come from the old list, the cap bounds the length |
| AppStore.Store.SetMaxRecentChecks | src/store/app-store.ts:295 | only the cap changes; the list is not trimmed |
| AppStore.Store.CheckSingleMembership | src/store/app-store.ts:305-343 | a resolved role is recorded with the cached or fetched profile and the group found; a failure is recorded as ERROR with the queued profile and no group; one check is recorded either way |
| AppStore.Store.SettleItem | src/store/app-store.ts:244-254 | one batch item's check is recorded and the item becomes COMPLETED |
| AppStore.Store.SettleBatch | src/store/app-store.ts:242-254 | every batch item's check is recorded in settlement order, every batch item becomes COMPLETED, nothing else in the queue changes, and one entry per pair is kept up |
| AppStore.Store.CompleteCycle | src/store/app-store.ts:242-277 | after every batch item settles, the flag is down, exactly the remaining items stay, the checks are recorded in settlement order, and a follow-up is scheduled iff something is pending |
| AppStore.Store.ProcessQueue | src/store/app-store.ts:219-277 | a running cycle or an empty pending list changes nothing; otherwise the batch is settled, purged, and a follow-up is scheduled iff something is still pending |
| AppStore.Store.AddMultipleUsersToQueue | src/store/app-store.ts:297-303 | one `addToQueue` per (user, group id) combination; the queue only grows by items for new pairs and status writes |
| AppStore.Store.CheckUserMembership | src/store/app-store.ts:345-433 | with no groups nothing changes and null comes back; otherwise the flag ends down and the resolved profile comes back; an unresolved user records nothing; a resolved one records placeholders then finals, so no entry for the user and a group stays CHECKING; with unique group ids and a cap of at least their number, the finals lead the list |
| TabMessenger.Backoff | src/pages/background/index.ts:33 | each delay lies between 1000 and 5000 ms |
| TabMessenger.BackoffSchedule | src/pages/background/index.ts:31-34 | the delays after attempts 1, 2, 3 and later are 1000, 2000, 4000 and 5000 ms |
| TabMessenger.RunStep | src/pages/background/index.ts:25-47 | after a failed, non-final attempt with the tab present, the backoff (and 1000 ms more if the tab is loading) precedes the next attempt |
| TabMessenger.SafeSendTabMessage | src/pages/background/index.ts:5-55 | the retry loop returns exactly the flag, attempt count and waits of the specification |
| TabMessenger.InvalidContextSkips | src/pages/background/index.ts:10-16 | an invalid extension context gives false after no attempt |
| TabMessenger.DefaultRunBound | src/pages/background/index.ts:8-54 | with the default of 3 retries a send makes at most three attempts and at most four waits, none longer than 2000 ms |
| TabMessenger.AttemptsBound | src/pages/background/index.ts:8-18 | never more than `retries` attempts |
| TabMessenger.RunSucceedsIff | src/pages/background/index.ts:18-47 | the run succeeds iff some attempt within the budget succeeds with every earlier one failed and the tab still there |
| TabMessenger.RunStopsAtSuccess | src/pages/background/index.ts:20-24 | a successful run stops at its successful attempt |
| TabMessenger.FirstSuccessStops | src/pages/background/index.ts:18-24 | true comes from the first successful send, and no attempt follows it |
| TabMessenger.RunAllFail | src/pages/background/index.ts:18-54 | when every send fails with the tab loaded, every attempt is made and the waits follow the backoff schedule |
| TabMessenger.AllFailSchedule | src/pages/background/index.ts:31-54 | all attempts failing gives false after `retries` attempts, with `retries - 1` waits: no wait follows the final attempt |
| TabMessenger.AfterFailedAttempt | src/pages/background/index.ts:31-46 | a vanished tab ends the run with false; a loading tab adds 1000 ms |
| TabMessenger.LastAttemptFails | src/pages/background/index.ts:31-54 | a failed final attempt ends with false, with no wait and no tab lookup |
| ContentIds.ExtractIdsFromUrl | src/content/content.ts:1-10 | the ids come from the leftmost `groups/<digits>/user/<digits>` occurrence and are non-empty digit strings; nothing iff there is no occurrence |
| ContentIds.SendIds | src/content/content.ts:12-17 | a message is sent iff the URL holds an occurrence, carrying the extracted ids |
| ContentIds.SpelledOutUrl | src/content/content.ts:1-8 | a URL spelling out `groups/<g>/user/<u>` after a prefix without 'g' yields exactly g and u |
| Initials.Heads | src/components/GroupCard.tsx:18 | one upper-cased first character per word |
| Initials.Abbreviate | src/components/GroupCard.tsx:15-22 | at most two characters: the upper-cased first characters of the first words, in order |
| Initials.WordsAcrossSpace | src/components/GroupCard.tsx:17 | a space separates words, and runs of spaces add no empty word |
| Initials.WordsOfOneWord | src/components/GroupCard.tsx:17 | text without a space is one word |
| Initials.BlankWords | src/components/UserCard.tsx:40-42 | spaces alone hold no word |
| Initials.AbbreviateTwoWords | src/components/UserCard.tsx:39-44 | two words give the upper-cased first characters of both |
| UserCard.StatusName | src/lib/types.ts:20-25 | every status has a non-empty stored name |
| UserCard.StatusNameInjective | src/lib/types.ts:20-25 | distinct statuses have distinct stored names |
| UserCard.StatusBadge | src/components/UserCard.tsx:13-35 | an "Unknown" badge is the fallback badge and comes only from a value that is none of the six statuses |
| UserCard.BadgesDistinct | src/components/UserCard.tsx:13-31 | the six statuses get six different labels, none "Unknown" |
| UserCard.UnknownOtherwise | src/components/UserCard.tsx:32-33 | any other value gives the "Unknown" badge |
| UserCard.UserInitials | src/components/UserCard.tsx:37-45 | "?" for a missing or empty name; otherwise at most two initials of the name |
| UserCard.BlankNameHasNoInitials | src/components/UserCard.tsx:37-45 | a name of spaces only gets neither "?" nor an initial |
| UserCard.DisplayName | src/components/UserCard.tsx:85 | the user's name when present and non-empty, otherwise "User {userId}" |
| UserCard.AvatarFallback | src/components/UserCard.tsx:69-71 | the avatar fallback shows the initials of the profile's name, "?" without a profile |
| UserCard.MemberUrlRoundTrip | src/components/UserCard.tsx:49 | for digit ids, the identifier extractor turns a member link back into the user id |
| UserCard.MemberUrlIsParsedAsIs | src/lib/extract-facebook-identifier.ts:20-26 | a member link reaches the URL parser unchanged |
| UserCard.MemberPathMatches | src/lib/extract-facebook-identifier.ts:30 | the member link's path matches the group-user pattern with its own ids |
| GroupCard.GroupInitials | src/components/GroupCard.tsx:15-22 | at most two characters: the upper-cased first characters of the first words |
| GroupCard.EmptyNameHasNoInitials | src/components/GroupCard.tsx:15-22 | an empty name gives "", with no "?" fallback |
| GroupCard.OneWordGivesOneInitial | src/components/GroupCard.tsx:15-22 | a one-word name gives exactly one character |

## Left out

- Network fetches (`originFetch`) are left out. The fetched page text is an input string.
- The WHATWG URL parser behind `new URL` is a parameter. It returns the host name, the path name and the `id` query parameter, or `None` where it throws.
- `JSON.parse` is a parameter. It returns the fields the resolver reads, or `None` where it throws. JSON numbers in the `id` field are not modelled: `id` is a string or absent.
- The two regular expressions of the membership classifiers are inputs: the intro-card span and whether the membership pattern matched. Their `[\s\S]*?` spans are not modelled. The id patterns and the group-user pattern are modelled concretely.
- Storage is left out: the chrome and localStorage adapter and zustand persistence and rehydration are I/O.
- Messaging is left out: chrome runtime messages, notifications, alarms and the side panel. `sendIds` returns the message it would send.
- Timers are left out. `setTimeout` rescheduling is a boolean result, and the waits of `safeSendTabMessage` are a list of delays.
- `Date.now` is an argument. One call of `addToQueue` uses one time for every item it creates.
- Concurrency is left out. `processQueue` is split into its synchronous start (`StartCycle`) and its awaited rest (`CompleteCycle`). Actions that could run between the two are not interleaved. The batch items settle one after another, in an order given as an argument.
- AppStore.Store.AddMultipleUsersToQueue: the `addToQueue` calls are not awaited in the source, so their lookups could resolve in any order. The model takes them in call order and states only what every order keeps: the queue grows only by items for new pairs and by status writes.
- AppStore.Store.CheckUserMembership: a rejection of `findFacebookInfo` is treated like null. Both return null after lowering the flag. The flag is lowered even when a queue cycle is in flight, as in the source.
- AppStore.Store.CheckUserMembership: the source calls `Date.now()` once per record. The model gives all CHECKING placeholders one time (`started`) and all final records another (`finished`), so times that differ between records of one batch are not modelled.
- AppStore.Store.CheckUserMembership: the statuses are stated for `resolved` and `roles`. Each per-group call that rejects is already turned into ERROR in the source, so `roles` holds `None` for it.
- The queue item id is the structured key (user id, group id, creation time). The source concatenates these into one string, so ids that collide after concatenation are not modelled.
- The ERROR queue status of `processQueue` is unreachable: `checkSingleMembership` catches every error. The model always marks a settled item COMPLETED.
- `setAutoDetect`, `autoDetectEnabled` and `clearRecentChecks` are not modelled. They are single field writes with no logic.
- `maxRecentChecks` is an integer. Fractional and NaN caps are not modelled.
- A `Partial<GroupInfo>` patch that explicitly sets a required field to `undefined` is not modelled.
- Unicode is treated as follows. Strings are sequences of characters, not UTF-16 code units. `toUpperCase` is ASCII-only, so expansions such as "ß" → "SS" are not modelled.
- React rendering, the JSX of the cards, the build configuration and logging are left out.
- TabMessenger.SafeSendTabMessage: a send that never settles is not modelled. Each attempt succeeds or fails.

## Findings

| source | as written | input that shows it | evidently intended | confidence | as-written member | corrected member |
|---|---|---|---|---|---|---|
| src/utils/find-facebook-info.ts:60-61 | When `"user":` does not occur after the renderer's opening brace, `indexOf` returns -1. `html.indexOf("{", -1)` then searches from the start of the page, and the scan isolates whatever object opens first and returns it as the profile. | a page with no `"user":` key after the renderer's brace, whose first object parses with a truthy `id`, and on which no fallback pattern is accepted | give up on the primary path when `"user":` is missing, and fall back to the id patterns | high, not executed | ProfileResolver.AsWrittenDiffersFromIntended | ProfileResolver.IntendedFallsBack |
