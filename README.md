# Reader core services in Dafny

This project models the core services of the Reader document platform and
proves properties of them. Each Dafny module corresponds to one part of the
Python backend:

- `VersionModel` (version_model.dfy) models the `DocumentVersion` table and
  the queries that both version services run against it. These are filtering by
  document, finding the latest row, the next version number, lookup by id, and
  listing newest first with offset and limit.
- `Versioning` (versioning_service.dfy) models `VersioningService`
  (backend/app/services/versioning.py). It creates, lists, fetches, restores and
  compares document versions. A restore is a new version numbered with the
  document's next number.
- `Version` (version_service.dfy) models the second service, `VersionService`
  (backend/app/services/version.py). It stores metadata as given. Its restore
  numbers the copy one past the restored version and credits that version's
  author. Its comparison returns the formatted line diff.
- `LineDiff` (line_diff.dfy) models `generate_diff` (backend/app/utils/diff.py).
  Both texts are split into lines and aligned line by line. The alignment is then
  rendered the way `difflib.Differ` renders it, and formatted as HTML spans for
  added and deleted lines.
- `Chunking` (chunking.dfy) models `ChunkingService`. It splits text into
  overlapping windows, fetches a chunk, runs a case-insensitive search, and
  merges chunks back in index order.
- `RateLimit` (rate_limit.dfy) models `RateLimitMiddleware`
  (middleware/rate_limit.py). This is a per-IP sliding window that prunes every
  IP on each request and answers 429 with a retry delay.
- `RateLimiter` (rate_limiter.dfy) models `RateLimiterMiddleware`
  (middleware.py). This is a second sliding window that prunes only the calling
  IP.
- `Permissions` (permissions.dfy) models `PermissionService`. It covers
  per-document grants, the read < write < admin hierarchy and share links with
  expiry and password.
- `Collaboration` (collaboration.dfy) models `CollaborationService`. It covers
  live sessions per document, presence records, the change log and idle
  cleanup.
- `Sessions` (session.dfy) models the in-memory `SessionManager` of
  auth/session.py.
- `ApiVersioning` (api_versioning.dfy) models `VersioningMiddleware`
  (middleware/versioning.py), which negotiates the API version.
- `Common` (common.dfy) holds `Option`, `Result`, `Min` and `Max`.

Objects whose methods update their own dictionaries are classes. This covers the
services, the middlewares and the session manager. The dictionaries are `map`
fields, the version table is a `seq` field, and each method states the whole new
state. Computations without state are functions: the diff, the window
arithmetic, the version queries and the version negotiation. The source's
loops are methods with loop invariants, proved equal to those functions. These
loops are the chunking loop, the total-count loop, the search filter, the merge,
the diff formatting loop, the permission scan and the cleanup loops. Clock
readings are whole seconds passed in as `now`. Identifiers the source draws at
random (uuid, `secrets.token_urlsafe`) or from the database come from a counter
or are passed in.

## Model

| member | source | states |
|---|---|---|
| VersionModel.ForDocument | Reader/backend/app/services/versioning.py:39-41 | the rows of one document, in table order: every row it returns belongs to the document and every row of the document is returned |
| VersionModel.ForDocumentOfOwnRows | Reader/backend/app/services/versioning.py:39-41 | filtering a table that holds only the document's rows returns it unchanged |
| VersionModel.Latest | Reader/backend/app/services/versioning.py:15-17 | the row with the largest version number for the document; absent exactly when the document has no rows |
| VersionModel.NextNumber | Reader/backend/app/services/versioning.py:19 | 1 for a document without versions; otherwise one past some existing number, and larger than every number the document has |
| VersionModel.FindVersion | Reader/backend/app/services/versioning.py:45-51 | the row with the id only if it belongs to the document; absent exactly when no such row exists |
| VersionModel.InsertDescendingElements | Reader/backend/app/services/versioning.py:41 | inserting into the listing adds exactly that row |
| VersionModel.InsertDescendingSorted | Reader/backend/app/services/versioning.py:41 | inserting keeps the listing in descending version-number order |
| VersionModel.SortDescending | Reader/backend/app/services/versioning.py:41 | `order_by(version_number.desc())`: the result is descending and a permutation of the input, of the same length |
| VersionModel.Page | Reader/backend/app/services/versioning.py:41 | `offset(skip).limit(limit)`: the elements from position `skip` on, at most `limit` of them, in order |
| VersionModel.ListVersions | Reader/backend/app/services/versioning.py:38-43 | a page of the document's own rows, newest number first, of length min(limit, rows - skip); position k holds the document's (skip + k)-th row in newest-first order |
| VersionModel.NumberedAppend | Reader/backend/app/services/versioning.py:19 | appending a row numbered one past the document's row count keeps every document numbered 1, 2, 3, ... in creation order |
| VersionModel.NumberedForDocument | Reader/backend/app/services/versioning.py:19 | in a table built that way, the k-th row of each document has number k + 1 |
| VersionModel.NumberedNext | Reader/backend/app/services/versioning.py:19 | in such a table the next number is the document's row count plus one |
| VersionModel.SortDescendingIsReversed | Reader/backend/app/services/versioning.py:41 | sorting rows numbered 1..n newest-first reverses them |
| VersionModel.SortDescendingOfAscending | Reader/backend/app/services/versioning.py:41 | position k of the sorted listing of rows 1..n holds row n - k |
| VersionModel.FullListingCountsDown | Reader/backend/app/services/versioning.py:38-43 | a page large enough to hold the whole history lists numbers n, n-1, ..., 1 |
| VersionModel.PagedListingCountsDown | Reader/backend/app/services/versioning.py:38-43 | in a gap-free history of n versions, a page skipping `skip` rows lists numbers n - skip, n - skip - 1, ... |
| Versioning.VersioningService.constructor | Reader/backend/app/services/versioning.py:10-11 | starts with an empty version table |
| Versioning.VersioningService.CreateVersion | Reader/backend/app/services/versioning.py:13-36 | appends one row with a fresh id, the document's next number (its row count plus one), the content, the metadata or `{}` when absent, the author and the time; the per-document numbering invariant is kept |
| Versioning.VersioningService.GetVersions | Reader/backend/app/services/versioning.py:38-43 | only the document's rows, newest first, page length min(limit, rows - skip), limit 10 by default; position k holds the (skip + k)-th row newest first |
| Versioning.VersioningService.GetVersion | Reader/backend/app/services/versioning.py:45-51 | the row with the id if it belongs to the document, otherwise none |
| Versioning.VersioningService.RestoreVersion | Reader/backend/app/services/versioning.py:53-71 | "Version not found" with no change for an id outside the document; otherwise a new row with a fresh id, the target's content and metadata, the restoring user as author, the current time, and the document's next number |
| Versioning.VersioningService.CompareVersions | Reader/backend/app/services/versioning.py:73-95 | "One or both versions not found" exactly when either id is not a row of the document; otherwise a line alignment whose old side is the first content's lines and whose new side is the second's |
| Versioning.RestoreLatestNumber | Reader/backend/app/services/versioning.py:53-71 | restoring into a numbered history numbers the copy one past the highest version |
| Versioning.ListingOfThree | Reader/backend/app/services/versioning.py:38-43 | three versions numbered 1, 2, 3 are listed as 3, 2, 1 |
| Versioning.ListingOfOwnRows | Reader/backend/app/services/versioning.py:38-43 | with no paging cut, listing a document's rows is sorting them newest first |
| Versioning.CreateThenRestore | Reader/backend/app/services/versioning.py:53-71 | create "hello", create "hello world", restore the first: the listing is 3 "hello" by the restorer, 2 "hello world", 1 "hello" by the original author |
| Version.VersionService.constructor | Reader/backend/app/services/version.py:9-10 | starts with an empty version table |
| Version.VersionService.CreateVersion | Reader/backend/app/services/version.py:12-34 | appends exactly one row: a fresh id, the document's next number, the content, the metadata as given, the author and the time |
| Version.VersionService.GetVersions | Reader/backend/app/services/version.py:36-41 | only the document's rows, newest first, page length min(limit, rows - skip); position k holds the (skip + k)-th row newest first |
| Version.VersionService.GetVersion | Reader/backend/app/services/version.py:43-49 | the row with the id if it belongs to the document, otherwise none |
| Version.VersionService.RestoreVersion | Reader/backend/app/services/version.py:51-74 | as written: "Version not found" with no change for an unknown id; otherwise a copy numbered one past the TARGET's number and credited to the target's author |
| Version.VersionService.RestoreVersionAsNext | Reader/backend/app/services/version.py:51-74 | as evidently intended: the copy takes the document's next number, larger than every number the document already has |
| Version.VersionService.CompareVersions | Reader/backend/app/services/version.py:76-97 | fails exactly when either id is missing; otherwise the formatted line diff from the first content to the second, with both ids and the document id |
| Version.RestoredNumberIsNextIffLatest | Reader/backend/app/services/version.py:63 | the as-written restore number equals the next number if and only if the restored version holds the document's largest number |
| Version.RestoreOfOlderVersionDuplicatesNumber | Reader/backend/app/services/version.py:63 | with versions 1, 2, 3, restoring version 1 as written yields number 2, a duplicate, where the next number is 4 |
| Version.NextNumberKeepsNumbering | Reader/backend/app/services/version.py:12-34 | a row given the next number keeps the history numbered 1, 2, 3, ... per document |
| LineDiff.Segments | Reader/backend/app/utils/diff.py:11-12 | the pieces between newlines: none contains a newline and joining them with newlines gives back the text |
| LineDiff.SplitLines | Reader/backend/app/utils/diff.py:11-12 | `splitlines()` on newline: no line contains a newline, the empty text has no lines, and joining the lines restores the text up to one trailing newline |
| LineDiff.Compare | Reader/backend/app/utils/diff.py:9-13 | `Differ.compare` as an alignment: its old side is the first text's lines and its new side the second's, with no hint lines |
| LineDiff.CompareSelf | Reader/backend/app/utils/diff.py:9-13 | comparing a text with itself marks every line unchanged |
| LineDiff.Invert | Reader/backend/app/utils/diff.py:9-13 | swapping additions and deletions keeps the length |
| LineDiff.InvertAligns | Reader/backend/app/utils/diff.py:9-13 | an inverted alignment of a to b aligns b to a, with additions and deletions swapped line for line |
| LineDiff.CompareInverted | Reader/backend/app/utils/diff.py:9-13 | the comparison of a with b, inverted, is a comparison of b with a, with additions and deletions swapped line for line |
| LineDiff.RenderAll | Reader/backend/app/utils/diff.py:10-13 | each op becomes one Differ line carrying its two-character tag |
| LineDiff.FormatLineOfRender | Reader/backend/app/utils/diff.py:17-25 | formatting a rendered line gives the addition span, the deletion span, the bare line, or nothing for a hint line |
| LineDiff.FormatRendered | Reader/backend/app/utils/diff.py:17-25 | formatting a rendered alignment gives one entry per non-hint op, in order |
| LineDiff.FormatDiff | Reader/backend/app/utils/diff.py:16-27 | the formatting loop yields exactly the formatting of every line, skipping `? ` lines |
| LineDiff.GenerateDiff | Reader/backend/app/utils/diff.py:4-27 | the result is the formatted entries of an alignment of the two texts' lines |
| LineDiff.DiffOfSelf | Reader/backend/app/utils/diff.py:4-27 | the diff of a text with itself is its lines, unmarked |
| LineDiff.EntriesOfSames | Reader/backend/app/utils/diff.py:24-25 | an alignment of unchanged lines formats to those lines |
| LineDiff.DiffOfEmpty | Reader/backend/app/utils/diff.py:4-27 | two empty texts have an empty diff |
| Chunking.OrDefault | Reader/backend/app/services/chunking.py:31-32 | Python `x or default`: an absent or zero argument falls back to the default |
| Chunking.ChunksFromLength | Reader/backend/app/services/chunking.py:39-60 | the loop makes one chunk per window of `chunk_size` new characters |
| Chunking.ChunksFromTotal | Reader/backend/app/services/chunking.py:62-64 | the recorded total changes only the `total_chunks` field |
| Chunking.ChunksFromWellFormed | Reader/backend/app/services/chunking.py:39-60 | chunk k covers `content[start:end]` with start = max(0, c - overlap) and end = min(len, c + size), id `<doc>_<k>`, index k, and length end - start |
| Chunking.ChunksFromLastEnd | Reader/backend/app/services/chunking.py:39-60 | non-empty content yields at least one chunk, and the last ends at the content's end |
| Chunking.ChunkedShape | Reader/backend/app/services/chunking.py:19-66 | empty content gives no chunks; otherwise every chunk is a well-formed window numbered in order with the total recorded, and the last reaches the end |
| Chunking.RecordTotal | Reader/backend/app/services/chunking.py:63-64 | the loop sets every chunk's total to the chunk count and changes nothing else |
| Chunking.ChunkDocument | Reader/backend/app/services/chunking.py:19-66 | the loop produces exactly the window specification with the effective size (default 1000) and overlap (default 100) |
| Chunking.GetChunk | Reader/backend/app/services/chunking.py:70-82 | the chunk at the index when 0 <= index < count, otherwise none |
| Chunking.Lower | Reader/backend/app/services/chunking.py:95 | `.lower()` character by character |
| Chunking.ContainsOccurs | Reader/backend/app/services/chunking.py:95 | the substring test holds if and only if the needle occurs at some position |
| Chunking.Matching | Reader/backend/app/services/chunking.py:94-96 | exactly the chunks whose lowered content contains the lowered query, in chunk order |
| Chunking.SearchChunks | Reader/backend/app/services/chunking.py:84-100 | the search loop returns exactly the matching chunks of the default chunking |
| Chunking.InsertByIndexElements | Reader/backend/app/services/chunking.py:109 | inserting adds exactly that chunk |
| Chunking.InsertByIndexSorted | Reader/backend/app/services/chunking.py:109 | inserting keeps the chunks ordered by index |
| Chunking.SortByIndex | Reader/backend/app/services/chunking.py:109 | `sorted(chunks, key=index)`: ordered by index and a permutation of the input |
| Chunking.SortedUnique | Reader/backend/app/services/chunking.py:109 | when the index determines the chunk, two sorted permutations of the same chunks are equal |
| Chunking.MergeFromStep | Reader/backend/app/services/chunking.py:115-127 | each chunk adds its content less the part before the previous end |
| Chunking.MergeChunks | Reader/backend/app/services/chunking.py:102-131 | the merge loop returns exactly the merge of the chunks sorted by index |
| Chunking.MergeIgnoresOrder | Reader/backend/app/services/chunking.py:109 | merging does not depend on the order in which chunks are passed |
| Chunking.MergeChunksFrom | Reader/backend/app/services/chunking.py:115-127 | merging the windows produced from position c gives back the content from c |
| Chunking.ChunkedIndexed | Reader/backend/app/services/chunking.py:47-50 | chunking yields chunks ordered by index, one per index |
| Chunking.ChunkRoundTrip | Reader/backend/app/services/chunking.py:19-131 | for any positive size and non-negative overlap, merging any reordering of a document's chunks gives back the document |
| RateLimit.Recent | Reader/middleware/rate_limit.py:47-50 | the timestamps still inside the window, in order: each kept one is newer than the window and every such one is kept |
| RateLimit.RecentAppend | Reader/middleware/rate_limit.py:47-50 | pruning distributes over appending |
| RateLimit.RecentOfRecent | Reader/middleware/rate_limit.py:47-50 | pruning again later is the same as pruning once later |
| RateLimit.RecentShrinks | Reader/middleware/rate_limit.py:47-50 | the pruned list never grows as time advances |
| RateLimit.Cleaned | Reader/middleware/rate_limit.py:44-52 | every IP's list pruned to the window, with emptied IPs removed |
| RateLimit.Minimum | Reader/middleware/rate_limit.py:70 | `min()`: an element no larger than any other |
| RateLimit.RetryAfter | Reader/middleware/rate_limit.py:66-71 | for in-window timestamps, the delay `int(window - (now - oldest))` is between 1 and the window |
| RateLimit.Step | Reader/middleware/rate_limit.py:16-42 | one request: accepted if and only if the IP has fewer than the maximum timestamps in the window; only an accepted request adds `now`; every other IP is only pruned |
| RateLimit.RateLimitMiddleware.constructor | Reader/middleware/rate_limit.py:10-14 | limits 5 requests per 60 seconds by default, no IP tracked |
| RateLimit.RateLimitMiddleware.Dispatch | Reader/middleware/rate_limit.py:16-42 | the new table and decision are one `Step`; a rejection carries the retry delay |
| RateLimit.RateLimitMiddleware.CleanupOldRequests | Reader/middleware/rate_limit.py:44-52 | the cleanup loop leaves exactly the cleaned table |
| RateLimit.RateLimitMiddleware.CheckRateLimit | Reader/middleware/rate_limit.py:54-58 | an untracked IP is allowed; a tracked one while it holds fewer than the maximum |
| RateLimit.RateLimitMiddleware.AddRequest | Reader/middleware/rate_limit.py:60-64 | appends `now` to the IP's list, creating the list when absent |
| RateLimit.RateLimitMiddleware.GetRetryAfter | Reader/middleware/rate_limit.py:66-71 | 0 for an untracked IP; otherwise between 1 and the window for in-window timestamps |
| RateLimit.FiveThenReject | Reader/middleware/rate_limit.py:10-42 | with the defaults, one client's requests at seconds 0..4 are accepted and the sixth, at second 5, gets a retry delay of 55 |
| RateLimit.TimesOfAppend | Reader/middleware/rate_limit.py:60-64 | an IP's accepted times grow only by that IP's requests |
| RateLimit.StepKeepsLimit | Reader/middleware/rate_limit.py:16-42 | one step keeps the table in agreement with the accepted requests and each IP within the limit |
| RateLimit.RunWithinLimit | Reader/middleware/rate_limit.py:16-42 | for requests in time order, after every request no IP has more than `max_requests` accepted requests (at least one) in the window ending then |
| RateLimiter.PruneStep | Reader/middleware.py:60-84 | one request: rejected exactly when the IP is tracked and still holds at least the maximum timestamps in the window; only that IP's list changes, and no IP is removed |
| RateLimiter.RateLimiterMiddleware.constructor | Reader/middleware.py:54-58 | given limits, no IP tracked |
| RateLimiter.RateLimiterMiddleware.Dispatch | Reader/middleware.py:60-84 | the new table and the verdict are one `PruneStep` |
| RateLimiter.PruneStepAgrees | Reader/middleware.py:65-81 | one step keeps the table in agreement with the accepted requests |
| RateLimiter.PrunedListAgrees | Reader/middleware.py:65-69 | the calling IP's pruned and extended list still matches its accepted times later |
| RateLimiter.PruneStepBounded | Reader/middleware.py:72-81 | one step keeps each IP within the limit |
| RateLimiter.PruneStepKeepsLimit | Reader/middleware.py:60-84 | one step keeps both agreement and the limit |
| RateLimiter.RunPrunedWithinLimit | Reader/middleware.py:60-84 | for requests in time order, no IP ever has more than the maximum (at least one) accepted requests in any window |
| Permissions.Rank | Reader/backend/app/services/permissions.py:130-135 | admin 3, write 2, read 1, anything else 0 |
| Permissions.LevelHierarchy | Reader/backend/app/services/permissions.py:128-135 | sufficiency is reflexive, transitive and total; admin suffices for everything; read does not suffice for write, nor write for admin; unknown levels rank 0 |
| Permissions.FirstGrant | Reader/backend/app/services/permissions.py:79-84 | the first grant to the user in grant order, or none exactly when the user has no grant |
| Permissions.Without | Reader/backend/app/services/permissions.py:55-58 | every grant not to the user, and only those |
| Permissions.WithoutAppend | Reader/backend/app/services/permissions.py:55-58 | the filter keeps the other users' grants in their order and multiplicity: a new grant is kept last exactly when it is not the user's |
| Permissions.LaterGrantDoesNotUpgrade | Reader/backend/app/services/permissions.py:42-85 | once a user has a grant, a later grant to them changes neither the deciding grant nor the answer |
| Permissions.FirstGrantDecides | Reader/backend/app/services/permissions.py:42-85 | a user's first grant decides their access by its level |
| Permissions.RevokedDenies | Reader/backend/app/services/permissions.py:48-85 | after a revoke the user has no grant and is denied every level |
| Permissions.RevokeKeepsOthers | Reader/backend/app/services/permissions.py:55-58 | a revoke leaves every other user's deciding grant unchanged |
| Permissions.FirstAt | Reader/backend/app/services/permissions.py:79-84 | the grant at the first position holding the user is the deciding one |
| Permissions.ValidateLink | Reader/backend/app/services/permissions.py:107-126 | a link validates if and only if the token is known, it has not expired (`expires_at < now` rejects), and it has no password or the given one matches; a valid result is the stored link |
| Permissions.CreatedLinkValidates | Reader/backend/app/services/permissions.py:87-126 | a fresh link validates before its expiry with its own password, and not with a different one when it has one |
| Permissions.PermissionService.constructor | Reader/backend/app/services/permissions.py:22-24 | no grants and no links |
| Permissions.PermissionService.GrantPermission | Reader/backend/app/services/permissions.py:26-46 | appends the grant to the document's list, creating the list when absent; links unchanged |
| Permissions.PermissionService.RevokePermission | Reader/backend/app/services/permissions.py:48-60 | true exactly when the document has a list, which then loses the user's grants; otherwise nothing changes |
| Permissions.PermissionService.GetPermissions | Reader/backend/app/services/permissions.py:62-67 | the document's list, or empty |
| Permissions.PermissionService.CheckPermission | Reader/backend/app/services/permissions.py:69-85 | the scan answers whether the user's first grant on the document is sufficient; false without one |
| Permissions.PermissionService.CreateShareLink | Reader/backend/app/services/permissions.py:87-105 | stores the link under its token, replacing any previous one; grants unchanged |
| Permissions.PermissionService.ValidateShareLink | Reader/backend/app/services/permissions.py:107-126 | the stored link is returned if and only if the token is known, the link has not expired at `now`, and it has no password or the given one matches; otherwise none |
| Permissions.ReadThenAdmin | Reader/backend/app/services/permissions.py:26-85 | a user granted read and then admin is still refused write: the first grant, read, decides |
| Collaboration.ChangesAfter | Reader/backend/app/services/collaboration.py:129-133 | exactly the changes stamped strictly after `since`, from the log |
| Collaboration.ChangesAfterAppend | Reader/backend/app/services/collaboration.py:116-133 | a newly logged change shows up to a reader exactly when it is newer than `since`, after the earlier ones |
| Collaboration.IdleSessions | Reader/backend/app/services/collaboration.py:140-143 | exactly the sessions idle for more than the timeout |
| Collaboration.IdlePresence | Reader/backend/app/services/collaboration.py:150-153 | exactly the presence records unseen for more than the timeout |
| Collaboration.ActiveSessionsKept | Reader/backend/app/services/collaboration.py:137-147 | removing idle sessions keeps exactly the others, unchanged |
| Collaboration.CollaborationService.constructor | Reader/backend/app/services/collaboration.py:21-23 | no sessions and no presence |
| Collaboration.CollaborationService.JoinSession | Reader/backend/app/services/collaboration.py:25-51 | opens an empty session when none exists, adds the user, stamps the activity, and marks the user active; every session keeps a member |
| Collaboration.CollaborationService.LeaveSession | Reader/backend/app/services/collaboration.py:53-72 | true exactly when a session exists; the user leaves it, their presence goes, and an emptied session is closed |
| Collaboration.CollaborationService.UpdatePresence | Reader/backend/app/services/collaboration.py:74-92 | updates the status and last-seen time of an existing record, or creates one; sessions unchanged |
| Collaboration.CollaborationService.GetSessionUsers | Reader/backend/app/services/collaboration.py:94-102 | exactly the presence records on the document |
| Collaboration.CollaborationService.ApplyChange | Reader/backend/app/services/collaboration.py:104-119 | applied exactly when a session exists and the user is a member; the change is then stamped and logged last and the session touched; otherwise nothing changes |
| Collaboration.CollaborationService.GetChanges | Reader/backend/app/services/collaboration.py:121-135 | nothing without a session; the whole log without `since`; otherwise exactly the newer changes |
| Collaboration.CollaborationService.CleanupInactiveSessions | Reader/backend/app/services/collaboration.py:137-154 | removes exactly the idle sessions and exactly the idle presence records |
| Collaboration.JoinThenEdit | Reader/backend/app/services/collaboration.py:25-135 | a member's change is the whole log and is seen by a reader asking after an earlier time |
| Sessions.ExpiredIds | Reader/auth/session.py:104-108 | exactly the sessions whose expiry is strictly before `now` |
| Sessions.SessionManager.constructor | Reader/auth/session.py:9-11 | no active sessions |
| Sessions.SessionManager.ExpiryFrom | Reader/auth/session.py:27 | expiry is `SESSION_EXPIRE_HOURS` hours after `now` |
| Sessions.SessionManager.CreateSession | Reader/auth/session.py:33-41 | stores the user, email, provider, creation time and expiry under the new id |
| Sessions.SessionManager.ValidateSession | Reader/auth/session.py:51-67 | none for an unknown id; none, with eviction, for an expired one; otherwise the stored data, with no change |
| Sessions.SessionManager.RefreshSession | Reader/auth/session.py:69-86 | none for an unknown id; otherwise only the expiry moves |
| Sessions.SessionManager.InvalidateSession | Reader/auth/session.py:88-99 | true exactly when the id was present; it is absent afterwards |
| Sessions.SessionManager.CleanupExpiredSessions | Reader/auth/session.py:101-116 | removes exactly the expired sessions |
| Sessions.CleanupLeavesLive | Reader/auth/session.py:101-116 | after cleanup no session is expired and every live one is kept unchanged |
| Sessions.DayLongSession | Reader/auth/session.py:13-99 | a one-day session validates at its expiry second and not after; an evicted id cannot be refreshed; a second invalidation answers false |
| ApiVersioning.OrElse | Reader/middleware/versioning.py:18-22 | Python `or`: an absent or empty value falls through |
| ApiVersioning.Join | Reader/middleware/versioning.py:36 | `", ".join`: a single element is the element, and two or more are the first, the separator, and the join of the rest |
| ApiVersioning.SelectVersion | Reader/middleware/versioning.py:18-26 | a supported header wins; with no header a supported query parameter wins; an unsupported header, or no header with an absent, empty or unsupported query parameter, gets the default; the result is supported or the default |
| ApiVersioning.SetHeader | Reader/middleware/versioning.py:35-36 | `response.headers[key] = value`: afterwards exactly one header is stored under the lower-cased key, holding the value; headers under every other name are unchanged and in order; with none before, the header is appended |
| ApiVersioning.SetFromFilters | Reader/middleware/versioning.py:35-36 | the replacing scan leaves one header under the name (none when already placed) and every other name's headers unchanged |
| ApiVersioning.SetFromAppends | Reader/middleware/versioning.py:35-36 | with no header under the name, the scan appends the new one at the end |
| ApiVersioning.HeaderNamesLowered | Reader/middleware/versioning.py:35-36 | `X-API-Version` and `X-API-Supported-Versions` are stored as `x-api-version` and `x-api-supported-versions` |
| ApiVersioning.Dispatch | Reader/middleware/versioning.py:14-38 | the negotiated version is on the request state; the response holds exactly one `x-api-version` header with it and exactly one `x-api-supported-versions` header with "1.0.0, 1.1.0", whatever the handler set under any spelling of those names; the handler's headers under other names are kept in order |
| ApiVersioning.HandlerVersionReplaced | Reader/middleware/versioning.py:35 | a handler's own `x-api-version: 0.9` is replaced by the negotiated version, not kept beside it |
| ApiVersioning.SupportedDefaultIsClosed | Reader/middleware/versioning.py:11-26 | with a supported default, every response names a supported version |
| ApiVersioning.UnsupportedDefaultLeaks | Reader/middleware/versioning.py:12-26 | with an unsupported default, an unsupported request is served that unsupported default |
| ApiVersioning.HeaderBeatsQuery | Reader/middleware/versioning.py:18-22 | the header beats the query parameter, and an empty header falls through to it |

## Left out

- The database session, ORM queries, commits and response schemas are modelled as a sequence of rows. Row ids come from a counter instead of `uuid4`, and `version.py` never assigns one.
- `difflib` is abstracted. `LineDiff.Compare` is one alignment of the two line lists (a longest-common-subsequence alignment). It is not difflib's junk-heuristic matching, and it emits no `? ` hint lines. The formatting of hint lines is still modelled.
- Versioning.VersioningService.CompareVersions: returns the alignment that `unified_diff` prints, not the unified-diff text. Hunk headers and context-line grouping are not modelled.
- `splitlines()` splits on `'\n'` only. Other line breaks (`\r`, `\r\n`, form feeds, Unicode separators) are not modelled. `.lower()` is ASCII-only.
- Time is a whole number of seconds. `datetime.utcnow()`, `time.time()` fractions and ISO-format round-trips are not modelled. `int()` truncation in the retry delay is exact on whole seconds.
- Asynchronous execution and concurrent requests are not modelled. Each operation runs to completion.
- `call_next` and the response objects of the middlewares are parameters or left out: only the decision and the headers set are modelled.
- ApiVersioning.SetHeader: Starlette's `MutableHeaders` is not part of this model. Its raw header list and its `__setitem__` (lower-case the key, overwrite the first header stored under it, delete the others, else append) are modelled from Starlette's behaviour. Names are lower-cased ASCII-only, and header bytes are characters.
- Logging, monitoring and exceptions raised by logging are not modelled. The `try/except` wrappers in chunking and sessions never fire in the model.
- `_get_document_content` is a placeholder in the source. The content is a parameter of the chunking operations.
- Chunking.ChunkRoundTrip: needs overlap >= 0. A negative overlap makes windows skip characters, and the source does not reject it.
- Chunking.ChunkDocument: requires a positive chunk size for non-empty content. A negative size never advances the source's loop.
- Chunk metadata (`start`, `end`, `length`) is modelled as fields, not a dict.
- `secrets.token_urlsafe` and `datetime.utcnow` in permissions.py are used but not imported. The token and the time are parameters.
- The source compares ISO expiry strings after parsing them. The model compares whole seconds.
- Python objects handed out by the services are shared with the stored state. Later updates show through them. The model returns values. This covers sessions, presence records, session dicts and the change dict that `apply_change` stamps in place.
- Collaboration.CollaborationService.GetSessionUsers: returns a set, not a list in dictionary order.
- Presence keys `"<user>:<document>"` can collide when ids contain ':'. The model keeps the same key function and inherits the collision.
- Sessions.SessionManager.RefreshSession: does not check expiry, matching the source. An expired but not yet evicted session can be refreshed.
- `RATE_LIMIT_REQUESTS`, `RATE_LIMIT_WINDOW` and `SESSION_EXPIRE_HOURS` are not defined by the configuration (config.py defines `RATE_LIMIT_MAX_REQUESTS`). They are constructor parameters.
- `settings.API_VERSION` is "1.0.0" in config.py:19 but "0.1.0" in config/default.py:17. The default is a parameter. `ApiVersioning.UnsupportedDefaultLeaks` shows what an unsupported default does.
- Version.VersionService.GetVersions: lists newest first, as the explicit `.desc()` ordering in version.py:39 and versioning.py:41 says. The integration test backend/tests/integration/test_version_integration.py:59-77 expects the numbers 1, 2, 3 (oldest first) through the router, which passes the service's list on unchanged. The model follows the code; `Versioning.ListingOfThree` shows the 3, 2, 1 order the code gives.
- The service tests call `get_version_count`, `delete_version` and `get_latest_version` (backend/tests/services/test_version.py:117-151). They also expect a `changes` field on the comparison. None of these exist in version.py, so they are not modelled.

## Findings

| source | as written | input that shows it | evidently intended | confidence | as-written member | corrected member |
|---|---|---|---|---|---|---|
| Reader/backend/app/services/version.py:63 | restore numbers the copy `version.version_number + 1`, one past the restored version | a document with versions 1, 2, 3; restoring version 1 gives the copy number 2, which version 2 already has | the copy takes the document's next number, 4 (backend/tests/services/test_version.py:85-99 expects 4) | not executed | Version.RestoreOfOlderVersionDuplicatesNumber | Version.VersionService.RestoreVersionAsNext |
