# nulltalk server core, modelled in Dafny

nulltalk is an anonymous confession board. Visitors submit short confessions. Profane ones are held for review, and approved ones are pushed live to open feeds over server-sent events. Visitors vote each confession up or down, and read a newest-first feed and a time-decayed trending list. An administrator lists the moderation queue, approves, and soft-deletes.

This project models the server side of that system as pure Dafny functions over immutable data:

- **Rate limiter** (`RateLimiter`). A fixed-window limiter: a map from identifier to `{count, resetTime}`. The clock is an explicit `now` argument, and the five-minute sweep is the explicit operation `Cleanup`.
- **Event broadcaster** (`SseEvents`). A registry from client id to its stream and optional category filter. `Broadcast` is a loop over the registry. Which streams throw when written is an oracle: a set of closed client ids. The message is a server-sent-event frame as in section 9.2, "Server-sent events", of the HTML Living Standard.
- **Database** (`Store`). Stands in for the Prisma client:
  - confession rows in insertion order, each carrying its one-to-one moderation-queue entry;
  - users keyed by alias;
  - votes keyed by `(userId, confessionId)`.

  `Store.Valid` is the invariant every write path keeps: ids are unique, votes are well formed, and every row's `upvotes`/`downvotes` equal the tallies of its current votes.
- **Route handlers**: `VoteRoute`, `VotesRoute`, `ConfessionRoute`, `ApproveRoute`, `AdminConfessionsRoute`, `ConfessionsRoute`, `TrendingRoute`, `PendingRoute` and `VerifyKeyRoute`. Each handler maps a store and a request to a new store and a reply. Approve also returns the broadcasts it emits.
  - A request body is `Option<Body>`, where `None` is a body `req.json()` cannot parse. Its fields are JavaScript values (`Js.Value`), so truthiness and `typeof` tests behave as in the source.
  - A Prisma call that throws becomes the handler's 500 reply. Writes awaited before it stay in the store.
  - leo-profanity, the sentiment library and nanoid are uninterpreted functions or fresh-id arguments.
- **Composition** (`Platform`). An approval handed to the broadcaster, and the path of a submission through the feed to approval.

Supporting modules:
- `Common`: `Option` and `Reply`.
- `Js`: truthiness, `||` defaults, `trim`, and `.length` as UTF-16 code units.
- `Sorting`: filter, take, and a stable descending insertion sort with its top-N lemma.
- `NanoId`: id alphabets and lengths.

Behaviours of the code that a reader might not expect, all of which the model follows:

- **Submit**: the submit handler neither consults the rate limiter nor broadcasts. The limiter instance `confessionRateLimiter` is created but never used by a route.
- **Broadcasts**: only approve broadcasts. The event is named `confession:new`.
- **Approve**: it does not check that the confession was pending or that it is not deleted. It broadcasts even when there is no queue entry.
- **Queue reason**: the text is `"Profanity detected"`.
- **Admin routes**: none of them checks an admin credential. Only `verify-key` compares a key.
- **Limiter window**: the limiter uses fixed windows, not sliding ones.

## Model

| member | source | states |
|---|---|---|
| `RateLimiter.Check` | lib/rate-limiter.ts:30-70 | No running window: admits with a fresh window of one request, `remaining = max - 1`. Full running window: rejects with `remaining = 0` and changes nothing. Otherwise: counts one more and returns `max - newCount`. Only `id`'s entry changes. |
| `RateLimiter.Cleanup` | lib/rate-limiter.ts:75-82 | Keeps exactly the entries whose window is still running at `now`, unchanged. |
| `RateLimiter.Reset` | lib/rate-limiter.ts:87-89 | Removes only `id`'s entry. |
| `RateLimiter.GetStatus` | lib/rate-limiter.ts:94-114 | `null` iff the entry is absent or expired. Otherwise returns the stored count and reset time, with `remaining = max(0, max - count)`. |
| `RateLimiter.CheckKeepsBounded` | lib/rate-limiter.ts:39-69 | With `maxRequests >= 1`, a stored count stays in `1..maxRequests`. An admitted request sees `0 <= remaining < max`. |
| `RateLimiter.ForgettingKeepsBounded` | lib/rate-limiter.ts:75-89 | Cleanup and reset keep the count bound. |
| `RateLimiter.CleanupInvisibleToCheck` | lib/rate-limiter.ts:75-82 | A sweep at any earlier or equal time leaves every later check's decision unchanged. The resulting table is the swept version of the unswept result. |
| `RateLimiter.CleanupInvisibleToStatus` | lib/rate-limiter.ts:94-114 | A sweep never changes what `getStatus` reports later. |
| `RateLimiter.ResetThenCheckAdmits` | lib/rate-limiter.ts:87-89 | After `reset(id)`, the next check of `id` is admitted with a fresh one-request window. |
| `RateLimiter.StatusAfterCheck` | lib/rate-limiter.ts:94-114 | Right after a check, `getStatus` reports the remaining quota and reset time that the check returned. |
| `RateLimiter.CheckAll` | lib/rate-limiter.ts:30-44 | A run of checks returns one decision per call. Afterwards the identifier has an entry. |
| `RateLimiter.WindowAdmitsAtMostBudget` | lib/rate-limiter.ts:39-69 | Over any run of checks, one window admits no more than the budget left in it when the run starts. |
| `RateLimiter.ConfessionLimitAdmitsFivePerWindow` | lib/rate-limiter.ts:119-122 | With the `confessionRateLimiter` configuration (5 per hour), no window admits more than five requests. |
| `RateLimiter.AtMostMaxPerWindow` | lib/rate-limiter.ts:39-69 | From an empty table, no window admits more than `maxRequests` requests. |
| `SseEvents.AddClient` | lib/sse-events.ts:13-20 | Maps `id` to the new client. Re-adding an id replaces its entry. No other entry changes. |
| `SseEvents.RemoveClient` | lib/sse-events.ts:23-28 | Removes only `id`. Removing an absent id changes nothing. |
| `SseEvents.ClientCount` | lib/sse-events.ts:67-69 | The number of registered clients. How it moves is stated by `CountAfterAdd`, `CountAfterRemove` and `Broadcast`. |
| `SseEvents.CountAfterAdd` | lib/sse-events.ts:13-20 | Registering a new id raises the count by one. Registering a known id again leaves it unchanged. |
| `SseEvents.CountAfterRemove` | lib/sse-events.ts:23-28 | Unregistering a known id lowers the count by one. An unknown id leaves it unchanged. |
| `SseEvents.DroppedCount` | lib/sse-events.ts:46-60 | A registry that lost exactly the addressed closed clients is smaller by exactly their number. |
| `SseEvents.Addressed` | lib/sse-events.ts:46 | A client is addressed iff the broadcast has no category, or the client has no filter, or the two are equal. |
| `SseEvents.Frame` | lib/sse-events.ts:32 | The frame `event: <name>\ndata: <json>\n\n` is 16 characters longer than its two fields. |
| `SseEvents.ParseFrame` | lib/sse-events.ts:32 | Whatever it reads back rebuilds the same frame. |
| `SseEvents.FrameRoundTrip` | lib/sse-events.ts:32 | A frame whose name and data contain no line feed parses back to the same name and data. |
| `SseEvents.Broadcast` | lib/sse-events.ts:31-64 | Every recipient gets the one frame. Delivered is exactly addressed and not closed. Exactly the addressed clients whose stream throws are removed, and the others stay unchanged. `sentCount` equals the number delivered, which is at most the registry size. Afterwards the client count is the old count minus the number of addressed closed clients. |
| `SseEvents.FilteredClientSkipsOtherTopics` | lib/sse-events.ts:46 | A client filtered on category A is never addressed by a broadcast tagged B, for B not equal to A. |
| `SseEvents.UnfilteredClientGetsEverything` | lib/sse-events.ts:46 | A client without a filter, or any client for an untagged broadcast, is addressed. |
| `Store.IndexOf` | app/api/admin/approve/route.ts:17-24 | Finds a row with the given id, or reports that none has it. |
| `Store.Newest` | app/api/confessions/route.ts:10-31 | A reordering (same multiset) of the rows a filter admits, ordered newest first. |
| `Store.CategoryName` | app/api/confessions/route.ts:43 | `Category?.name \|\| null`: present iff the row has a non-empty category name, and then it is that name. |
| `Store.Voters` | app/api/vote/route.ts:49-56 | The keys of exactly the votes of one value on one confession. |
| `Store.TallyAfterWrite` | app/api/vote/route.ts:58-109 | Writing one vote changes a tally by at most the vote removed and the vote added. |
| `Store.NetIsSumOfCurrentVotes` | app/api/vote/route.ts:58-109 | In a valid store a row's net score is its +1 votes minus its -1 votes, and both counters are non-negative. |
| `Store.AppendKeepsValid` | app/api/confession/route.ts:40-54 | Appending a fresh row with zero counters keeps the store valid. |
| `Store.ReplaceKeepsValid` | app/api/admin/approve/route.ts:34-39 | Rewriting a row without touching its id or counters keeps the store valid. |
| `Sorting.Filter` | app/api/confessions/route.ts:35-37 | Keeps exactly the elements satisfying the predicate, and no more elements than it was given. |
| `Sorting.Take` | app/api/trending/route.ts:73 | `slice(0, n)`: a prefix of length `min(n, len)`. |
| `Sorting.Drop` | app/api/admin/confessions/route.ts:16 | `skip`: the suffix after the first `n` elements. |
| `Sorting.SortDesc` | app/api/trending/route.ts:72 | A permutation of its input whose keys never increase. |
| `Sorting.FilterPreservesSorted` | app/api/confessions/route.ts:29-37 | Filtering a newest-first list keeps it newest first. |
| `Sorting.TakePreservesSorted` | app/api/confessions/route.ts:10-31 | A prefix of a sorted list is sorted. |
| `Sorting.TakeOfSortedIsTop` | app/api/trending/route.ts:71-77 | No element left out of the top n of a sort has a larger key than one kept. |
| `Sorting.TopOfFilter` | app/api/confessions/route.ts:10-31 | Of the elements a filter admits, none left out of the top n of the sort has a larger key than one kept. |
| `Js.OrAbsent` | app/api/confessions/route.ts:8 | `x \|\| undefined`: absent iff the value is absent or empty. |
| `Js.OrElse` | app/api/confessions/route.ts:46 | `x \|\| fallback` for an optional string. |
| `Js.Utf16Length` | app/api/admin/verify-key/route.ts:8 | `.length` counts UTF-16 code units: between `n` and `2n` for `n` characters, and exactly `n` inside the BMP. |
| `Js.Trim` | app/api/confession/route.ts:15 | The slice left after dropping leading and trailing white space. It neither starts nor ends with white space. |
| `VoteRoute.Session` | app/api/vote/route.ts:24-36 | The session is the `sessionId` cookie when set, else a fresh `nanoid(12)`. |
| `VoteRoute.UpsertUser` | app/api/vote/route.ts:39-46 | An existing alias keeps its user. A new alias gets one user with a fresh id. |
| `VoteRoute.Bump` | app/api/vote/route.ts:67-81 | Moves only the target row's counters by the deltas. A row id that no row has makes the update throw, which becomes a 500. |
| `VoteRoute.Post` | app/api/vote/route.ts:6-125 | A missing `confessionId` or value gives 400; a value other than ±1 gives 400; in both cases nothing is written. A cookie is issued iff validation passed and the request had none. A successful reply is the stored vote of the session user on that confession. |
| `VoteRoute.WriteAndBumpKeepsValid` | app/api/vote/route.ts:58-109 | Writing a vote and bumping its row by the difference keeps every counter equal to its tally. |
| `VoteRoute.BumpMatchesTallies` | app/api/vote/route.ts:67-108 | The counter deltas equal the tally changes of the vote written. |
| `VoteRoute.RecordKeepsValid` | app/api/vote/route.ts:48-109 | Create, flip, or leave alone: each path keeps the store valid. |
| `VoteRoute.UpsertKeepsValid` | app/api/vote/route.ts:39-46 | The user upsert keeps the store valid. |
| `VoteRoute.PostKeepsValid` | app/api/vote/route.ts:6-125 | From a valid store, every outcome, including a 500 after the upsert, leaves the store valid. So there is one vote per (user, confession) and the counters equal the tallies. |
| `VoteRoute.FirstVoteCounts` | app/api/vote/route.ts:86-108 | A first vote creates one record and adds 1 to `upvotes` (value 1) or to `downvotes` (value -1). Nothing else changes. |
| `VoteRoute.RepeatVoteChangesNothing` | app/api/vote/route.ts:82-85 | Repeating the same value changes neither the votes nor any counter. It returns the existing vote. |
| `VoteRoute.PostIsRecord` | app/api/vote/route.ts:39-109 | Past validation, the handler is the user upsert followed by the vote write. |
| `VoteRoute.RecordFlip` | app/api/vote/route.ts:59-81 | A flip updates the vote in place and moves one count from one counter to the other. |
| `VoteRoute.FlipMovesOneCount` | app/api/vote/route.ts:59-81 | Through the handler: `upvotes += value` and `downvotes -= value`, and no other row changes. |
| `VoteRoute.SameSessionSameUser` | app/api/vote/route.ts:39-46 | Two calls with the same cookie act for the same user. The second call creates no user. |
| `VotesRoute.Get` | app/api/votes/route.ts:6-39 | With no cookie, or an alias with no user, the list is empty. Otherwise it holds exactly `{confessionId, value}` of the user's votes. |
| `VotesRoute.OneItemPerConfession` | app/api/votes/route.ts:26-32 | In a valid store no confession is listed twice for a user. |
| `VotesRoute.RecordedVoteIsListed` | app/api/votes/route.ts:17-32 | A vote just recorded is listed for the same session with its value. |
| `ConfessionRoute.Normalize` | app/api/confession/route.ts:27-31 | Sentiment `max(-1, min(1, score/10))` lies in [-1, 1]. It is `score/10` inside that range and clamped outside it. |
| `ConfessionRoute.Alias` | app/api/confession/route.ts:37 | The author alias is `anon_` followed by the six nanoid characters. |
| `ConfessionRoute.ConnectAuthor` | app/api/confession/route.ts:47-52 | `connectOrCreate` adds the alias's user only if it is missing, and keeps every existing user. |
| `ConfessionRoute.Accept` | app/api/confession/route.ts:22-74 | On success the reply is 201. One row is appended and votes are untouched. The stored content is `clean(content)` iff profane. Status is `pending` with flags `["profanity"]` iff profane, else `approved` with `[]`. A `Profanity detected` queue entry is created iff profane. The category is as given or `OTHER`. The session is the `x-session-id` header or a fresh id. |
| `ConfessionRoute.Post` | app/api/confession/route.ts:11-82 | Missing content, or trimmed length < 5, gives 400. An unreadable body gives 500. Every failure leaves the store unchanged. Success is exactly the accept path. |
| `ConfessionRoute.PostKeepsValid` | app/api/confession/route.ts:40-64 | Submitting keeps the store valid. |
| `ConfessionRoute.HiddenIffProfane` | app/api/confession/route.ts:57-64 | The new confession is hidden from the public read paths iff it is profane. |
| `ApproveRoute.MarkReviewed` | app/api/admin/approve/route.ts:34-39 | An existing entry becomes `reviewed`. A missing entry stays missing. |
| `ApproveRoute.Announce` | app/api/admin/approve/route.ts:41-54 | The `confession:new` payload carries the row's id and content. Its category is the row's category name or null, and the topic equals it. `anonId` is the alias or `"unknown"`. |
| `ApproveRoute.Post` | app/api/admin/approve/route.ts:5-71 | A missing id gives 400 and an unknown id gives 404; both change nothing and emit nothing. On success only the row's queue entry changes, and exactly one broadcast is emitted, with or without a queue entry. |
| `ApproveRoute.PostKeepsValid` | app/api/admin/approve/route.ts:33-39 | Approving keeps the store valid. |
| `ApproveRoute.ApprovedIsNotPending` | app/api/admin/approve/route.ts:33-54 | After approval the row is not pending, and it is public iff it was not deleted. One broadcast went out. |
| `AdminConfessionsRoute.ToItem` | app/api/admin/confessions/route.ts:35-47 | Copies id, content, sentiment, time, counters and the deleted flag. `category` is `Category?.name \|\| null` and `author` is `User?.alias \|\| null`. `isPending` holds iff a queue entry exists and is unreviewed. |
| `AdminConfessionsRoute.Items` | app/api/admin/confessions/route.ts:35-47 | One listing item per row, in order. |
| `AdminConfessionsRoute.ItemsKeepOrder` | app/api/admin/confessions/route.ts:23-25 | Listing live rows newest first yields non-deleted items newest first. |
| `AdminConfessionsRoute.CeilDiv` | app/api/admin/confessions/route.ts:52 | `totalPages = ceil(total/limit)`: the fewest pages that hold `total` rows. |
| `AdminConfessionsRoute.Ordered` | app/api/admin/confessions/route.ts:12-26 | Exactly the non-deleted rows, newest first. |
| `AdminConfessionsRoute.Window` | app/api/admin/confessions/route.ts:16-17 | Rows `skip` to `skip + limit - 1` of the listing, cut at its end. |
| `AdminConfessionsRoute.WindowKeepsOrder` | app/api/admin/confessions/route.ts:23-25 | A window of a newest-first listing is newest first. |
| `AdminConfessionsRoute.Get` | app/api/admin/confessions/route.ts:4-62 | Defaults are page 1 and limit 50. The page holds rows `skip..` of the live listing, with `skip = (page - 1) * limit`, at most `limit` of them. `total` counts the live rows and `totalPages` is `ceil(total/limit)`. |
| `AdminConfessionsRoute.PageIsLiveAndNewestFirst` | app/api/admin/confessions/route.ts:13-25 | A page shows no deleted confession and is ordered by `createdAt`, newest first. |
| `AdminConfessionsRoute.EveryLiveConfessionIsOnAPage` | app/api/admin/confessions/route.ts:9-17 | Every live confession appears on some page, at the matching offset. That page is within `totalPages`. |
| `AdminConfessionsRoute.PageOfPosition` | app/api/admin/confessions/route.ts:9-17 | Page `page` covers position `k` iff `page == k / limit + 1`, so pages neither overlap nor leave gaps. |
| `AdminConfessionsRoute.PageArithmetic` | app/api/admin/confessions/route.ts:9 | Position `k` is on page `k / limit + 1`, at offset `k % limit`, and that page is within `totalPages`. |
| `AdminConfessionsRoute.Delete` | app/api/admin/confessions/route.ts:64-99 | A missing id gives 400 and an unreadable body gives 500. It succeeds iff the id is a non-empty string naming an existing row. Every error changes nothing. On success only the target row changes: `isDeleted = true` and its queue entry is removed. |
| `AdminConfessionsRoute.DeleteIdempotent` | app/api/admin/confessions/route.ts:76-84 | Deleting twice gives the same store and reply as deleting once. |
| `AdminConfessionsRoute.DeleteKeepsValid` | app/api/admin/confessions/route.ts:76-84 | Deleting keeps the store valid, and the deleted row is no longer public. |
| `ConfessionsRoute.ToItem` | app/api/confessions/route.ts:40-47 | A feed item carries the row's id, content, sentiment and time. `category` is `Category?.name \|\| null` and `anonId` is `User?.alias \|\| "unknown"`, so they are null and `"unknown"` when the relation is absent. |
| `ConfessionsRoute.Fetched` | app/api/confessions/route.ts:10-32 | Exactly `min(limit, m)` rows for `m` matching live rows, drawn from them without repetition and newest first. No matching row left out is newer than one fetched. When `m <= limit`, all of them are fetched. |
| `ConfessionsRoute.FetchedIsNewest` | app/api/confessions/route.ts:10-32 | `take` after `orderBy createdAt desc`: no live confession of the category left out is newer than one fetched. |
| `ConfessionsRoute.Items` | app/api/confessions/route.ts:40-47 | One item per row, in the same order. |
| `ConfessionsRoute.Shown` | app/api/confessions/route.ts:34-37 | Exactly the fetched rows without an unreviewed queue entry, in fetch order, so still newest first. |
| `ConfessionsRoute.ShownItemsShow` | app/api/confessions/route.ts:34-47 | Every item built from the shown rows is a public confession of the category. |
| `ConfessionsRoute.FetchedItemsShown` | app/api/confessions/route.ts:34-47 | Every fetched row that is not pending has its item in the reply. |
| `ConfessionsRoute.Get` | app/api/confessions/route.ts:4-48 | At most `limit` items (default 50). Each shows a public confession of the category: not deleted, not pending. Every fetched confession that is not pending is shown. Items are newest first. |
| `ConfessionsRoute.InFeedIffFetched` | app/api/confessions/route.ts:10-37 | With unique ids, a public confession of the category is in the feed iff it is among the `limit` newest live ones fetched. The take comes before the pending filter, so a pending row can take a place that an older public row then loses. |
| `ConfessionsRoute.SameItemSameRow` | app/api/confessions/route.ts:40-47 | With unique ids, equal feed items come from the same stored row. |
| `ConfessionsRoute.FeedHonoursCategory` | app/api/confessions/route.ts:14-19 | Given a category other than `"all"`, every item has that category. |
| `TrendingRoute.ScoreSign` | app/api/trending/route.ts:10-14 | With a positive denominator the score's sign is the sign of `upvotes - downvotes`. Equal counts give 0. |
| `TrendingRoute.FresherRanksHigher` | app/api/trending/route.ts:10-14 | With a positive net, a smaller denominator scores strictly higher. |
| `TrendingRoute.Candidates` | app/api/trending/route.ts:24-49 | Exactly the rows among the first `2 * limit` live rows of the category that are not pending. Each is public and of the category. |
| `TrendingRoute.RankAll` | app/api/trending/route.ts:52-68 | Each candidate is paired with its own score. |
| `TrendingRoute.Top` | app/api/trending/route.ts:71-77 | Exactly `min(limit, number of candidates)` ranked rows, drawn from the ranked candidates without repetition, scores non-increasing. |
| `TrendingRoute.ToItem` | app/api/trending/route.ts:52-68 | A trending item carries the row's id, content, sentiment, time and both counters. `category` is `Category?.name \|\| null`, `anonId` is `User?.alias \|\| "unknown"`, and `trendingScore` is the score the row was ranked by. |
| `TrendingRoute.Items` | app/api/trending/route.ts:74-77 | One item per ranked row, carrying its score. A sorted input yields a non-increasing `trendingScore`. |
| `TrendingRoute.Get` | app/api/trending/route.ts:17-81 | Exactly `min(limit, number of candidates)` items (limit default 10), in non-increasing `trendingScore` order. |
| `TrendingRoute.TrendingItemsAreSound` | app/api/trending/route.ts:52-77 | Each item is a public confession of the category, scored by its own votes and age. |
| `TrendingRoute.TrendingIsTopOfCandidates` | app/api/trending/route.ts:71-77 | No candidate left out outranks one that is kept. |
| `TrendingRoute.TrendingHonoursCategory` | app/api/trending/route.ts:28-33 | Given a category other than `"all"`, every item has that category. |
| `PendingRoute.ToItem` | app/api/admin/pending/route.ts:27-40 | The entry's id, reason and time, and `confessionId` equal to the nested `confession.id`. The summary copies content, sentiment and time, with `category` as `Category?.name \|\| null` and `author` as `User?.alias \|\| null`. |
| `PendingRoute.Items` | app/api/admin/pending/route.ts:27-40 | One item per queued row. A sorted input yields items newest entry first. |
| `PendingRoute.Queue` | app/api/admin/pending/route.ts:6-24 | Exactly the rows with an unreviewed entry that are not deleted, ordered by entry `createdAt`, newest first. |
| `PendingRoute.Get` | app/api/admin/pending/route.ts:4-41 | Items are ordered by the entry's `createdAt`, newest first. |
| `PendingRoute.ListedEntriesAwaitReview` | app/api/admin/pending/route.ts:7-12 | Every listed entry is unreviewed and its confession is not deleted. |
| `PendingRoute.EveryAwaitingEntryIsListed` | app/api/admin/pending/route.ts:6-24 | Every unreviewed entry of a confession that is not deleted is listed. |
| `VerifyKeyRoute.Post` | app/api/admin/verify-key/route.ts:4-31 | A missing, non-string, or non-32-unit key gives 400. A key equal to `ADMIN_KEY` gives `{valid: true}`, and that is the only success. A well-formed key that differs gives 401. An unreadable body gives 500. |
| `VerifyKeyRoute.MisconfiguredKeyAcceptsNothing` | app/api/admin/verify-key/route.ts:8-17 | If `ADMIN_KEY` is not 32 code units long, no key is ever accepted. |
| `VerifyKeyRoute.BmpKeyOfLength32IsWellFormed` | app/api/admin/verify-key/route.ts:8 | A 32-character key from the BMP passes the format check. |
| `VerifyKeyRoute.KeyLengthOutsideRangeIsRefused` | app/api/admin/verify-key/route.ts:8-13 | A key of fewer than 16 or more than 32 characters is refused for its format. |
| `Platform.ApproveAndDeliver` | app/api/admin/approve/route.ts:41-54 | A successful approval leads to exactly one broadcast. That broadcast reaches exactly the open clients addressed by the confession's category, and closed addressed clients are dropped. A failed approval leads to none. |
| `Platform.OtherCategoryIsNotDelivered` | app/api/admin/approve/route.ts:42-53 | A client filtered on another category is not addressed by the approval's broadcast. |
| `Platform.HiddenRowIsNotInFeed` | app/api/confessions/route.ts:34-37 | In a store with unique ids, no feed item carries the id of a row that is not public. |
| `Platform.ProfaneSubmissionIsNotInFeed` | app/api/confession/route.ts:57-64 | A profane submission never appears in the public feed. |
| `Platform.SubmittedRow` | app/api/confession/route.ts:40-54 | A submit appends one live row carrying the fresh id, which was not in use. |
| `Platform.ApproveAppendedRow` | app/api/admin/approve/route.ts:33-39 | Approving the newly appended row by its id makes it public, profane or not. |

## Left out

- The React pages and components are UI and fetch glue: `app/page.tsx`, `app/feed/page.tsx`, `app/trending/page.tsx`, `app/post/page.tsx`, `app/admin/page.tsx` and `app/components/*`.
- app/api/events/route.ts is not part of this model. Its stream set-up, 30-second heartbeat and abort listener are I/O. Its registry effects are `SseEvents.AddClient` and `SseEvents.RemoveClient`.
- lib/prisma.ts, lib/admin-key.ts and next.config.ts are client construction, environment reads and build configuration. `ADMIN_KEY` is a parameter of `VerifyKeyRoute.Post`.
- The Prisma schema is not part of this model:
  - A confession's category is the optional name of its related Category.
  - Submit stores `category || "OTHER"` as that name.
  - Enum validation of the category and `updatedAt` are not modelled.
  - Database-generated ids (confession, queue entry, user) are fresh-id arguments. The submit handler's duplicate-id case is a 500.
- `VoteRoute.Post`: a `vote.create` for a confession id that does not exist fails on the foreign key. The model gives that request the 500 reply and keeps the user upsert done before it, as the source does; it does not model the database's constraint itself.
- `ConfessionRoute.Accept` gives the queue entry the same `createdAt` as its confession. In the source the two are separate database-default timestamps, one per insert. The model also takes the queue insert to succeed whenever the confession insert does.
- Queue-entry, user and vote ids are assumed not to collide. The model stores their ids but does not check uniqueness for them.
- `leoProfanity.check`/`clean` and `sentiment.analyze` are uninterpreted functions (`ConfessionRoute.Screener`). nanoid is a fresh-id argument of the right length and alphabet.
- `TrendingRoute.Score`: the denominator `(ageHours + 2)^1.8` is an arbitrary positive real per creation time, because it is floating point and reads `Date.now()`. Scores are exact reals, so NaN, infinities and rounding are not modelled.
- JavaScript numbers are exact reals or integers. NaN is not a value here, so `parseInt` returning NaN is not modelled.
- `AdminConfessionsRoute.Get`: `page` and `limit` are already-parsed integers of at least 1. Zero, negative and NaN values, which Prisma rejects or reads differently, are not modelled.
- `ConfessionsRoute.Get`: `limit` is an already-parsed natural number. Prisma's negative `take` (counting from the end) is not modelled.
- `TrendingRoute.Get`: `limit` is an already-parsed natural number; the same gap applies.
- `TrendingRoute.Candidates`: the query has no `orderBy`, so the database may return rows in any order. The model takes the first `2 * limit` matching rows in insertion order.
- `VotesRoute.Get`: the reply is a set, because the query has no `orderBy`. The order of the items is not modelled.
- Concurrency and atomicity are not modelled: every handler is one sequential step. This covers the read-then-write of the vote handler, the parallel `findMany`/`count` of the admin listing, and the timer-driven sweep.
- The five-minute `setInterval` becomes the explicit `RateLimiter.Cleanup(now)`. `Date.now()` is the argument `now`.
- Logging is left out because it has no effect on results.
- `JSON.stringify` of a payload is an opaque parameter (`encode` in `Platform.ApproveAndDeliver`), and so is `TextEncoder`. HTTP headers and cookie attributes are left out; only the cookie and header values the handlers branch on are modelled.
- `SseEvents.FrameRoundTrip` requires a data line without line feeds. `JSON.stringify` escapes them, so this holds for every real payload.
- A stream that throws on `enqueue` is the set of closed client ids passed to `SseEvents.Broadcast`. The order in which `Map.forEach` visits clients has no effect on the result, so the loop takes them in any order.
