# youtube-clone core, modelled in Dafny

This project models the server-side rules of a YouTube-style video site:
- the tRPC procedures that list and change playlists, comments, comment reactions and subscriptions;
- the two string helpers used to render video lengths and enum labels.

Database tables become Dafny values:
- a `seq` of rows where the procedures insert and delete rows;
- a `set` for the playlist-membership pairs;
- a `map` where a table has one row per key (reactions, views).

The procedures become functions over those values. The procedures that change a table also appear as methods of a class that owns the table:
- `ReactionTable.React`, `PlaylistTables.AddVideo`, `PlaylistTables.RemoveVideo`, `SubscriptionTable.Create` and `SubscriptionTable.Remove` are proved equal to the function that states their rules;
- `CommentTable.Create`, `CommentTable.Remove` and `PlaylistTables.Create` state their answer and the new table directly in their own contracts, and keep the table's `Valid()` invariant.

Modules:

- `Common`: ids and timestamps (`int`), `Option`, `Result` with the tRPC error codes, the like/dislike type, and counting and filtering over sequences.
- `Keyset`: one generic cursor-pagination engine shared by every listing. The steps are:
  1. scope the table;
  2. seek strictly past the cursor, meaning `at < c.at`, or `at = c.at` and `id < c.id`;
  3. order by `(at DESC, id DESC)`, or by `at` alone;
  4. fetch `limit + 1` rows;
  5. drop the extra row and hand out the last kept row's position as `nextCursor`.

  A `limit` outside 1..100 is a validation error. The engine also proves what it means to walk the pages: when the order is `(at DESC, id DESC)` and no two rows in scope share a position (`(at, id)` with a unique id), following `nextCursor` from the first page until it is null lists every row in scope exactly once, in order. The comment listing as written orders by `at` alone, and there tied rows can be skipped (see "## Findings"). For n rows in scope the walk takes ⌈n/limit⌉ pages, or one empty page when n is 0.
- `CommentReactions`: the like/dislike toggle over the (user, comment) reaction table.
- `Comments`: comment creation with the one-level nesting rule, owner-only deletion, and the decorated `getMany` listing.
- `Playlists`: the four playlist listings and the membership mutations.
- `Subscriptions`: subscribe and unsubscribe with the self-subscription guard, and the listing keyed on `(updatedAt, creatorId)`.
- `Utils`: `formatDuration` and `snakeCaseToTitle`.

Inputs the procedures get from their environment are parameters of the model:
- the authenticated caller (`userId`, or `Option<Id>` for the public comment listing);
- the id the database generates for a new row (`newId`, required fresh);
- the current time (`now`).

## Model

| member | source | states |
|---|---|---|
| Keyset.Select | src/modules/playlists/server/procedures.tsx:74-78 | scoping keeps at most the table's rows; every entry comes from a row the scope filter accepts, and every accepted row's entry is present |
| Keyset.Seek | src/modules/playlists/server/procedures.tsx:79-88 | the seek never yields more rows than the table holds; which rows survive is stated by SeekMembers |
| Keyset.SeekMembers | src/modules/playlists/server/procedures.tsx:79-88 | a row survives the seek exactly when it lies strictly after the cursor under (updatedAt DESC, id DESC); with no cursor every row survives |
| Keyset.Sort | src/modules/playlists/server/procedures.tsx:90 | the ORDER BY yields as many rows as it is given; its order and its contents are stated by SortSorted and SortPermutes |
| Keyset.SortSorted | src/modules/playlists/server/procedures.tsx:90 | the ORDER BY yields rows ordered by the sort key, descending |
| Keyset.SortPermutes | src/modules/playlists/server/procedures.tsx:90 | the ORDER BY only rearranges rows: same multiset |
| Keyset.Trim | src/modules/playlists/server/procedures.tsx:93-103 | of the limit+1 fetched rows, the first `limit` are kept when there are more; nextCursor is present exactly when there were more, and is then the last kept row's position, not the dropped row's |
| Keyset.Fetch | src/modules/playlists/server/procedures.tsx:76-103 | a page holds at most `limit` rows, each from the table and strictly after the cursor; it is a sorted prefix of the rows past the cursor; nextCursor is present iff more than `limit` rows lie past the cursor, and then equals the last item's position; without nextCursor the page holds every row past the cursor |
| Keyset.Query | src/modules/playlists/server/procedures.tsx:50 | a limit outside 1..100 fails with a validation error before any query; otherwise the page is fetched |
| Keyset.SelectDistinct | src/modules/playlists/server/procedures.tsx:76-89 | scoping rows whose keys are pairwise different gives rows with pairwise different positions |
| Keyset.SeekSort | src/modules/playlists/server/procedures.tsx:79-90 | seeking and ordering commute |
| Keyset.SeekTwice | src/modules/playlists/server/procedures.tsx:79-88 | seeking past a cursor, then past a later position, is seeking past the later position |
| Keyset.SeekAtRow | src/modules/playlists/server/procedures.tsx:79-103 | on sorted distinct rows, seeking past row k's position leaves exactly the rows after k |
| Keyset.SeekNarrows | src/modules/playlists/server/procedures.tsx:79-103 | handing out a listed row as the next cursor strictly shrinks what is left, so the walk ends |
| Keyset.Pages | src/modules/playlists/server/procedures.tsx:93-103 | following nextCursor until it is null always yields at least one page (the first query always answers); what the pages hold is stated by PagesCoverRest, PageCount and ListsEveryRowOnce |
| Keyset.PagesCoverRest | src/modules/playlists/server/procedures.tsx:76-103 | the pages obtained by following nextCursor, concatenated, are exactly the ordered rows past the starting cursor: nothing skipped, nothing repeated |
| Keyset.PageCount | src/modules/playlists/server/procedures.tsx:93-103 | the walk from a cursor takes `PagesNeeded(n)` pages for the n rows past it: one page when n ≤ limit, else one more than for n − limit |
| Keyset.PagesNeededFits | src/modules/playlists/server/procedures.tsx:93-103 | for n > 0 that page count k is ⌈n/limit⌉: (k−1)·limit < n ≤ k·limit, so every page but the last is full and the last is not empty |
| Keyset.ListsEveryRowOnce | src/modules/playlists/server/procedures.tsx:76-103 | from no cursor, the walk lists every row of the table once (same multiset), sorted, with no position repeated |
| Common.CountIf | src/modules/comments/server/procedures.ts:122-139 | a count is the number of rows that qualify (the length of the table filtered by the predicate, whose multiplicities Filter fixes); it is at most the number of rows, and zero exactly when no row qualifies |
| Common.Filter | src/modules/comments/server/procedures.ts:72-75 | a delete leaves only rows of the table that fail the delete predicate, keeps every such row, and keeps each of them exactly as many times as the table held it (no row duplicated or lost) |
| Common.FilterKeepsAll | src/modules/subscriptions/server/procedures.ts:46-54 | a delete that matches no row leaves the table as it was |
| Common.FilterPairwise | src/modules/comments/server/procedures.ts:72-75 | deleting rows keeps any relation that held between earlier and later rows |
| CommentReactions.Toggle | src/modules/comment-reactions/server/procedures.ts:19-57 | a caller who already has a reaction of the requested kind ends with none; otherwise the caller's entry becomes that kind; no other entry changes |
| CommentReactions.ReactionTable.React | src/modules/comment-reactions/server/procedures.ts:19-57 | the table after one request is the toggle of the table before, and the returned row carries the caller, the comment and the kind |
| CommentReactions.ReactionTable.Like | src/modules/comment-reactions/server/procedures.ts:9-58 | `like` is the toggle with kind like |
| CommentReactions.ReactionTable.Dislike | src/modules/comment-reactions/server/procedures.ts:59-108 | `dislike` is the toggle with kind dislike |
| CommentReactions.ToggleKeepsOthers | src/modules/comment-reactions/server/procedures.ts:30-55 | reactions of other users and on other comments are untouched |
| CommentReactions.SecondKindWins | src/modules/comment-reactions/server/procedures.ts:19-107 | like then dislike ends in dislike (and dislike then like in like), whatever came before |
| CommentReactions.ToggleTwiceRestores | src/modules/comment-reactions/server/procedures.ts:19-57 | like twice from no reaction returns to no reaction: the table is as before |
| Comments.ReactionCount | src/modules/comments/server/procedures.ts:147-160 | likeCount/dislikeCount is zero exactly when no user reacted to the comment with that kind |
| Comments.ViewerReaction | src/modules/comments/server/procedures.ts:101-120 | viewerReaction is none for an anonymous caller; otherwise it is present exactly when the caller reacted, and is the caller's own kind |
| Comments.ToggleCount | src/modules/comment-reactions/server/procedures.ts:19-57 | a toggle moves the requested kind's count down by one when the caller had that kind and up by one otherwise |
| Comments.ToggleOtherCount | src/modules/comment-reactions/server/procedures.ts:44-57 | a request for one kind lowers the other kind's count by one when the caller had the other kind (the upsert overwrites it), and leaves it unchanged otherwise |
| Comments.ToggleKeepsOtherCounts | src/modules/comment-reactions/server/procedures.ts:30-55 | counts on other comments do not move |
| Comments.ToggleViewerReaction | src/modules/comment-reactions/server/procedures.ts:19-57 | after a toggle the caller's viewerReaction is none if it was the requested kind and that kind otherwise; other viewers see no change |
| Comments.ReplyCount | src/modules/comments/server/procedures.ts:122-131 | replyCount is null exactly when no comment replies to this one, and otherwise the number of comments whose parentId is this comment (between 1 and the number of comments) |
| Comments.TotalCount | src/modules/comments/server/procedures.ts:133-139 | totalCount is the number of comments on the video, replies included, and is zero exactly when the video has none |
| Comments.ListComments | src/modules/comments/server/procedures.ts:165-207 | a limit outside 1..100 fails; otherwise the page is the engine's page over the scoped comments: the first rows past the cursor in the query's order, at most `limit`, each a comment on the video with the requested parent (none means top-level), decorated with its counts and the viewer's reaction; nextCursor is present iff more than `limit` rows lie past the cursor; without it the page holds every remaining row; totalCount ignores cursor and parent |
| Comments.GetMany | src/modules/comments/server/procedures.ts:83-208 | the listing as written, ordered by updatedAt alone: a valid limit gives the engine's page under that order (first rows past the cursor, nextCursor iff more remain) plus totalCount; items are non-increasing in updatedAt |
| Comments.GetManyOrdered | src/modules/comments/server/procedures.ts:165-186 | the listing ordered by (updatedAt, id), the order the seek predicate assumes; a valid limit gives the engine's page plus totalCount |
| Comments.CommentsListedOnce | src/modules/comments/server/procedures.ts:165-201 | with the corrected order, following nextCursor lists every comment in scope exactly once |
| Comments.TiedCommentSkipped | src/modules/comments/server/procedures.ts:168-185 | as written, two comments tied on updatedAt and listed in ascending id order lose the second one: page one hands out the first's cursor, page two is empty |
| Comments.Find | src/modules/comments/server/procedures.ts:37-40 | the parent lookup returns a stored comment with that id, or none when no comment has it |
| Comments.CommentTable.Create | src/modules/comments/server/procedures.ts:25-61 | empty text fails validation; a parentId naming no comment fails NOT_FOUND; a parentId naming a reply fails BAD_REQUEST; failures leave the table unchanged; otherwise exactly the new comment is appended; unique ids and one-level nesting are kept |
| Comments.CommentTable.Remove | src/modules/comments/server/procedures.ts:62-82 | NOT_FOUND, with the table unchanged, exactly when the caller has no comment with that id; otherwise that comment is returned and only it is deleted |
| Comments.UniqueIdFind | src/modules/comments/server/procedures.ts:72-75 | with unique ids, the comment found by id is the only one with that id |
| Comments.AppendKeepsValid | src/modules/comments/server/procedures.ts:42-58 | inserting a top-level comment, or a reply to a top-level comment, under a fresh id keeps ids unique and every reply's parent top-level |
| Comments.RemoveKeepsValid | src/modules/comments/server/procedures.ts:72-75 | deleting a comment keeps ids unique and nesting one level |
| Playlists.VideoCount | src/modules/playlists/server/procedures.tsx:60-63 | videoCount is zero exactly when no membership row names the playlist |
| Playlists.ContainsVideo | src/modules/playlists/server/procedures.tsx:299-307 | containsVideo is true exactly when a membership row links the playlist and the video |
| Playlists.ViewCount | src/modules/playlists/server/procedures.tsx:142 | viewCount is zero exactly when no view row names the video |
| Playlists.ViewCounts | src/modules/playlists/server/procedures.tsx:142 | viewCount counts one per viewer row: recording a view raises it by one exactly when the viewer had no row, and leaves it when the viewer's row is only re-timed; other videos' counts do not move |
| Playlists.VideoLikeCount | src/modules/playlists/server/procedures.tsx:143-149 | likeCount is zero exactly when no reaction to the video is a like |
| Playlists.LikeUpsertCounts | src/modules/playlists/server/procedures.tsx:143-149 | likeCount counts one per like row: upserting a user's reaction removes the like it overwrites, if any, and adds one if it stores a like; other videos' counts do not move |
| Playlists.LikeDeleteCounts | src/modules/playlists/server/procedures.tsx:143-149 | deleting a user's reaction lowers likeCount by one exactly when it was a like; other videos' counts do not move |
| Playlists.GetMany | src/modules/playlists/server/procedures.tsx:41-109 | a limit outside 1..100 fails; otherwise the first at most `limit` of the caller's playlists past the cursor, ordered by (updatedAt, id) descending, with its videoCount; nextCursor is present iff more than `limit` lie past the cursor, and then is the last item's (updatedAt, id); without it the page holds every remaining playlist |
| Playlists.GetManyForVideo | src/modules/playlists/server/procedures.tsx:274-344 | as getMany (first rows past the cursor, nextCursor iff more remain, complete last page), with containsVideo true exactly when the playlist holds the video |
| Playlists.GetManyHistory | src/modules/playlists/server/procedures.tsx:110-187 | a limit outside 1..100 fails; otherwise the first at most `limit` public videos the caller viewed past the cursor, keyed and ordered by (viewedAt, id), with viewCount and likeCount; nextCursor iff more than `limit` remain; without it the page holds every remaining video |
| Playlists.GetManyLiked | src/modules/playlists/server/procedures.tsx:188-273 | a limit outside 1..100 fails; otherwise the first at most `limit` public videos the caller likes past the cursor, keyed and ordered by (likedAt, id), with viewCount and likeCount; nextCursor iff more than `limit` remain; without it the page holds every remaining video |
| Playlists.PlaylistsListedOnce | src/modules/playlists/server/procedures.tsx:76-103 | following nextCursor lists each of the caller's playlists exactly once, in order |
| Playlists.HistoryListedOnce | src/modules/playlists/server/procedures.tsx:153-181 | the history pages list each viewed public video exactly once, in order |
| Playlists.LikedListedOnce | src/modules/playlists/server/procedures.tsx:236-267 | the liked pages list each liked public video exactly once, in order |
| Playlists.FindOwned | src/modules/playlists/server/procedures.tsx:356-363 | the lookup returns the playlist with that id and owner, or none when the caller owns no such playlist |
| Playlists.FindVideo | src/modules/playlists/server/procedures.tsx:365-372 | the lookup returns a video with that id, or none when there is none |
| Playlists.AddVideoOutcome | src/modules/playlists/server/procedures.tsx:345-394 | NOT_FOUND when the playlist is missing or not the caller's, or the video is missing; CONFLICT when the pair exists; success exactly otherwise, inserting exactly that pair; failures leave the table unchanged |
| Playlists.RemoveVideoOutcome | src/modules/playlists/server/procedures.tsx:395-449 | NOT_FOUND unless the caller owns the playlist, the video exists and the pair exists; otherwise exactly that pair is deleted |
| Playlists.AddThenRemoveRestores | src/modules/playlists/server/procedures.tsx:388-448 | a successful add followed by remove of the same pair succeeds and restores the membership table |
| Playlists.AddVideoCounts | src/modules/playlists/server/procedures.tsx:388-393 | a successful add raises the playlist's videoCount by one and makes containsVideo true; other playlists' counts do not move |
| Playlists.RemoveVideoCounts | src/modules/playlists/server/procedures.tsx:438-448 | a successful remove lowers the playlist's videoCount by one and makes containsVideo false; other playlists' counts do not move |
| Playlists.PlaylistTables.Create | src/modules/playlists/server/procedures.tsx:17-40 | an empty name fails validation; otherwise exactly the new playlist is appended; the other tables are untouched; playlist ids stay unique |
| Playlists.PlaylistTables.AddVideo | src/modules/playlists/server/procedures.tsx:345-394 | the answer and the new membership table are those of the addVideo rules; playlists and videos are untouched |
| Playlists.PlaylistTables.RemoveVideo | src/modules/playlists/server/procedures.tsx:395-449 | the answer and the new membership table are those of the removeVideo rules; playlists and videos are untouched |
| Subscriptions.FindPair | src/modules/subscriptions/server/procedures.ts:46-54 | the lookup returns a row of the pair (viewer, creator), or none when there is none |
| Subscriptions.Subscribe | src/modules/subscriptions/server/procedures.ts:10-32 | subscribing to oneself fails BAD_REQUEST; an existing pair violates the table's key; success exactly otherwise, appending the row (viewer = caller, creator = userId) |
| Subscriptions.Unsubscribe | src/modules/subscriptions/server/procedures.ts:33-57 | unsubscribing from oneself fails BAD_REQUEST; otherwise the rows of the pair (caller, userId) are deleted and every other row stays, as many times as before; the deleted row is returned when there was one |
| Subscriptions.UnsubscribeKeepsUnique | src/modules/subscriptions/server/procedures.ts:46-54 | remove keeps at most one row per (viewer, creator) |
| Subscriptions.SubscribeKeepsUnique | src/modules/subscriptions/server/procedures.ts:23-29 | create keeps at most one row per (viewer, creator) |
| Subscriptions.SubscribeThenUnsubscribeRestores | src/modules/subscriptions/server/procedures.ts:23-29 | create of an absent pair then remove of the same pair restores the table |
| Subscriptions.SubscriberCount | src/modules/subscriptions/server/procedures.ts:79-82 | the number of rows whose creator is the given user, zero exactly when there are none |
| Subscriptions.GetMany | src/modules/subscriptions/server/procedures.ts:58-120 | a limit outside 1..100 fails; otherwise the first at most `limit` of the caller's subscriptions past the cursor under (updatedAt, creatorId) descending; nextCursor is present iff more than `limit` remain, and is then the last item's (updatedAt, creatorId); without it the page holds every remaining subscription; every item's subscriberCount is the caller's own count, as written |
| Subscriptions.SubscriptionsListedOnce | src/modules/subscriptions/server/procedures.ts:87-114 | following nextCursor lists each of the caller's subscriptions exactly once, in order |
| Subscriptions.SubscriptionTable.Create | src/modules/subscriptions/server/procedures.ts:10-32 | the answer and the new table are those of the create rules; at most one row per (viewer, creator) is kept |
| Subscriptions.SubscriptionTable.Remove | src/modules/subscriptions/server/procedures.ts:33-57 | the answer and the new table are those of the remove rules; at most one row per (viewer, creator) is kept |
| Utils.Digits | src/lib/utils.ts:12-14 | `toString` of a non-negative integer is a non-empty digit string with no leading zero |
| Utils.ValueOfDigits | src/lib/utils.ts:12-14 | the digit string reads back as the number |
| Utils.PadStartShape | src/lib/utils.ts:12-14 | padStart yields the string behind a run of fill characters (none when the string is already wide enough) |
| Utils.PadStartValue | src/lib/utils.ts:12-14 | zero-padding a digit string keeps its value |
| Utils.Minutes | src/lib/utils.ts:10 | the minutes field is the number of whole minutes: m·60000 ≤ d < (m+1)·60000 |
| Utils.Seconds | src/lib/utils.ts:9 | the seconds field is below 60 and is the number of whole seconds in the part of d below a minute |
| Utils.DurationFields | src/lib/utils.ts:9-10 | the seconds field is at most 59, and minutes·60000 + seconds·1000 ≤ d < that + 1000 |
| Utils.FormatDuration | src/lib/utils.ts:8-15 | the result has at least five characters, with ':' third from the end |
| Utils.FormatDurationShort | src/lib/utils.ts:12-14 | for d < 6,000,000 the result has exactly five characters |
| Utils.FormatDurationParses | src/lib/utils.ts:8-15 | reading `MM:SS` back gives d rounded down to whole seconds |
| Utils.Upper | src/lib/utils.ts:18 | toUpperCase turns ASCII lowercase letters into capitals and leaves other characters alone |
| Utils.SnakeCaseToTitle | src/lib/utils.ts:17-19 | the title has as many characters as the input; which characters change is stated by SnakeCaseToTitleAt |
| Utils.SnakeCaseToTitleAt | src/lib/utils.ts:18 | each '_' becomes ' '; a lowercase letter at the start of a word is capitalised; every other character is unchanged |
| Utils.SnakeCaseToTitleNoUnderscore | src/lib/utils.ts:18 | the result contains no '_' |
| Utils.SnakeCaseToTitleIdempotent | src/lib/utils.ts:18 | applying it twice equals applying it once |

## Left out

- `cn` (src/lib/utils.ts:4-6) only calls class-merging libraries that are not part of this model.
- React components, views, hooks, the user webhook and the third-party client setup are not modelled. They do rendering, I/O and signature checks through external libraries.
- The database schema file is not part of this model. Its primary keys are assumed: one view row and one reaction row per (user, video); one subscription row per (viewer, creator).
- Comments.CommentTable.Remove: deleting a comment does not delete its replies; a cascading delete from the schema is not modelled, so replies to a deleted comment stay in the table.
- Comments.CommentTable.Create: a `videoId` naming no video, or a caller with no user row, is accepted; foreign-key violations are not modelled.
- CommentReactions.ReactionTable.React: a `commentId` naming no comment is accepted; foreign-key violations are not modelled.
- Subscriptions.Subscribe: a `userId` naming no user is accepted; foreign-key violations are not modelled.
- Each inner join to `users` is taken as always matching (referential integrity), so it drops no row.
- The `thumbnailUrl` subquery of the playlist listing is not modelled; it is display data.
- The model counts `totalCount` and reads the page of comments as two independent reads of the same table. The concurrency of the `Promise.all` that runs them is not modelled.
- Resolving the caller from the session (and, for the public comment listing, from the Clerk id) is not modelled. The caller is a parameter.
- uuid and date format checks are not modelled. Ids and timestamps are integers, totally ordered.
- The database's generated ids and `now()` are parameters. A new id is required to be unused.
- Playlists.PlaylistTables.Create: the BAD_REQUEST branch for an insert that returns no row (src/modules/playlists/server/procedures.tsx:35-37) is not modelled, because an insert without a conflict always returns its row.
- Subscriptions.Subscribe: a second subscription to the same creator fails with `UniqueViolation`, standing for the database error that the assumed primary key on (viewer, creator) raises. The procedure itself does not check for it.
- Comments.GetMany: the ties that `ORDER BY updatedAt DESC` leaves are broken in table order, one of the orders a database may choose.
- Utils.FormatDuration: only non-negative integer millisecond counts are modelled. Fractional, negative and non-finite numbers are not, and neither is JavaScript's exponent notation for very large numbers.
- Utils.SnakeCaseToTitle: word characters and upper-casing cover ASCII only, which is what `\w` and `\b` match. The upper-casing of other scripts is not modelled.

## Findings

| source | as written | input that shows it | evidently intended | confidence | as-written member | corrected member |
|---|---|---|---|---|---|---|
| src/modules/comments/server/procedures.ts:168-185 | the seek predicate breaks `updatedAt` ties by `id` (`id < cursor.id`), but the query orders by `updatedAt DESC` only, so tied comments may come back in ascending id order | two top-level comments on one video with the same `updatedAt` and ids 1 and 2, returned in that order, and `limit` 1: page one lists comment 1 with cursor (updatedAt, 1); page two seeks `id < 1` among the tied rows and finds nothing, so comment 2 is never listed | `ORDER BY updatedAt DESC, id DESC`, as the other listings do, so that following the cursor lists every comment once | not executed | Comments.TiedCommentSkipped | Comments.GetManyOrdered, Comments.CommentsListedOnce |
