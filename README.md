# Blog service layer, modelled in Dafny

This project models the document-store service layer of a small blog. It
covers the four service modules under `src/services`:

- **posts** (`postService.js`): summary, reading time and tag helpers,
  saving a post with a revision history, reading a post (which counts a
  view), the drafts and published-posts queries, status changes, and likes
  and bookmarks on posts;
- **comments** (`commentService.js`): creating, editing and soft-deleting
  comments while keeping the post's `commentCount` and the parent's
  `replyCount` up to date, the two paged readers, and likes on comments;
- **interactions** (`interactionService.js`): a user's bookmarks, likes and
  history page by page, whether a user has an active record, and a post's
  active like and bookmark counts;
- **stats** (`statsService.js`): merging counters into a post and its
  `post_stats` record, the hot-posts query over a time window, per-user
  counts, and the periodic hot-score batch.

The hosted database is the class `Store.Database`, with one map per
collection (`posts`, `post_revisions`, `post_interactions`, `comments`,
`comment_interactions`, `post_stats`, `system`). Each service operation
that writes is a module-level method that takes the `Database` and names
in its `modifies` clause the collections it may change. It states the
whole new state of those collections and keeps the invariant `Valid()`. That invariant says documents are stored
under their own id, every revision names a stored post, every interaction
is stored under its `${subject}_${user}_${type}` key, and a published post
has a publication time.

Each read-only query is a ghost function over a collection map. It means
the same as the store query: filter by the `where` clauses and the
`startAfter` cursor, order by the `orderBy` fields, then apply the
`limit`. `Query.SelectFrom` does this over an unspecified listing order of
the map, and its contract is what every page's contract is proved from.
A page lists no document twice once no document is stored under two keys
(`Query.Injective`), which `Store.StoredOnce` derives from `Valid()`. Each
page is a function whose own contract gives its size bound and this
each-once property. Lemmas named after it (`...Selected`, `...LeftOut`)
say which documents it holds and in what order.

Things the model takes as parameters:

- the server timestamp is `now`;
- the rendered Markdown is `html`;
- the uploaded cover's URL is `coverUrl`;
- the hot-score formula is `score`;
- fresh document ids come from `Store.NewKey`.

Properties the model proves about the source's behaviour:

- **An interaction is decided by existence alone.** `handlePostInteraction` and
  `handleCommentInteraction` look only at whether a record exists, never at
  its `active` flag. From no record, the first call adds a like. Every
  later call removes one, with no floor at zero, and leaves the record
  inactive for good (`InteractionRule.RepeatFromAbsent`,
  `InteractionRule.RepeatOnExisting`, `PostService.LikeThreeTimes`).
- **Editing a post resets its counters.** Saving an existing post writes
  the built record over the stored one. Views, likes and comments go back
  to 0, and the creation time is dropped (`PostService.EditResetsCounters`).
- **Deleting twice counts twice.** Deleting an already deleted comment
  lowers the post's `commentCount` again (`CommentService.DeleteComment`).

## Model

| member | source | states |
|---|---|---|
| Text.TrimIsTrim | src/services/postService.js:22 | `trim()` removes white space at the two ends only: the result is a slice of the input, with nothing but white space before and after it, and no white space at its own ends |
| Text.TrimChars | src/services/postService.js:22 | trimming keeps only characters of the original |
| Text.TrimKeeps | src/services/postService.js:49 | text with no white space at its ends is left alone by `trim()` |
| Text.StripMarkupChars | src/services/postService.js:22 | `replace(/[#*`]/g, '')` keeps exactly the characters that are not `#`, `*` or a backquote |
| Text.StripMarkupKeeps | src/services/postService.js:22 | text without markers is left alone |
| Text.SplitPieces | src/services/postService.js:48 | no piece of `split(',')` holds a comma, and joining the pieces with commas gives the string back |
| Text.SplitJoin | src/services/postService.js:48 | splitting a comma-join of comma-free pieces gives the pieces back |
| Text.SplitPiece | src/services/postService.js:48 | a string with no separator splits into itself alone |
| Text.SplitPrefix | src/services/postService.js:48 | splitting `p + sep + t` with no separator in `p` gives `p` first, then the pieces of `t` |
| Text.SplitSpaceCountIsWords | src/services/postService.js:28 | for trimmed non-empty text the number of pieces of `split(/\s+/)` is its number of words; the empty text gives one piece |
| Text.RunsAlternate | src/services/postService.js:28 | in text that starts with a word, every run of white space is followed by a word unless it ends the text |
| PostService.PlainTextIsPlain | src/services/postService.js:22 | the text a summary is cut from has no markers and no white space at its ends |
| PostService.SummaryShape | src/services/postService.js:21-24 | a summary has at most `length + 3` characters, no markers and no edge white space; text up to `length` characters is kept whole; longer text gives its first `length` characters followed by `...` |
| PostService.SummaryIsStable | src/services/postService.js:21-24 | the summary of a summary, with room for the `...`, is the same summary |
| PostService.Minutes | src/services/postService.js:29 | a reading time is at least one minute |
| PostService.MinutesIsCeiling | src/services/postService.js:29 | `Math.ceil(n / 300)`: the least whole number of minutes m with n <= 300 m |
| PostService.ReadingTime | src/services/postService.js:27-30 | a reading time is at least one minute |
| PostService.ReadingTimeCountsWords | src/services/postService.js:27-30 | the reading time is the ceiling of the number of words of the trimmed content over 300, and one minute for empty content |
| PostService.CleanTagsTrimmed | src/services/postService.js:48-50 | every cleaned tag is non-empty and has no white space at its ends |
| PostService.CleanTagsAvoid | src/services/postService.js:48-50 | a character that is in no piece is in no cleaned tag |
| PostService.CleanTagsKeeps | src/services/postService.js:49-50 | well-formed tags pass the trim-and-filter step unchanged |
| PostService.ParseTagsWellFormed | src/services/postService.js:48-50 | every parsed tag is non-empty, trimmed and comma-free |
| PostService.ParseJoinedTags | src/services/postService.js:48-50 | parsing the comma-join of well-formed tags gives the same tags back |
| PostService.ParseTagsIdempotent | src/services/postService.js:48-50 | parsing the comma-join of parsed tags changes nothing |
| PostService.BuiltShape | src/services/postService.js:56-99 | the built post has the chosen id and status, zero views, likes and comments, a creation time iff it is new, a publication time iff it is published, both edit times set to now, SEO keywords equal to the tags followed by the category, and it keeps the store invariant |
| PostService.EditResetsCounters | src/services/postService.js:104-110 | saving over an existing post sets views, likes and comments to 0 and drops its creation and hot-score times; only the hot score and the bookmark count survive |
| PostService.WritePost | src/services/postService.js:101-124 | no id: the record is inserted and no revision is written; an unknown id: the store rejects the write and nothing changes; a known id: the stored post is overwritten and exactly one revision is added under a fresh key |
| PostService.SavePost | src/services/postService.js:41-125 | the returned record is the built one; a new post gets a fresh id and no revision; an edit of a missing post is rejected with nothing changed; an edit of a stored post overwrites it and adds one revision with the "save draft" or "update published" reason |
| PostService.GetPost | src/services/postService.js:128-142 | an unknown id is rejected and nothing changes; otherwise the post as it was read is returned and its view count goes up by one |
| PostService.GetDrafts | src/services/postService.js:145-155 | exactly the user's drafts, each once, latest update first |
| PostService.GetPublishedPosts | src/services/postService.js:158-168 | exactly the user's published posts, each once, latest publication first |
| PostService.UpdatePostStatus | src/services/postService.js:171-179 | an unknown post is rejected; otherwise the status is set and the publication time is set to now exactly when the new status is published; nothing else changes |
| PostService.HandlePostInteraction | src/services/postService.js:182-217 | the interaction record is written as active iff none existed; for a like, the post's `likeCount` moves by +1 if none existed and by -1 otherwise; a like on a missing post is rejected after the record is written |
| PostService.LikeThreeTimes | src/services/postService.js:182-217 | three like calls from one user on a never-liked post leave its `likeCount` one lower than before, with an inactive record |
| InteractionRule.Interact | src/services/postService.js:186-216 | only the record under the key is written; it is active iff the key was absent; the change to `likeCount` is 0 for other types, -1 when the key existed and +1 otherwise |
| InteractionRule.RepeatOnExisting | src/services/postService.js:186-200 | once a record exists, every further call leaves it inactive and lowers a like count by one per call |
| InteractionRule.RepeatFromAbsent | src/services/postService.js:186-216 | from no record, n >= 1 calls change a like count by 2 - n and leave the record active only when n = 1 |
| InteractionRule.InteractKeepsCountInStep | src/services/postService.js:196-215 | a like call moves the stored counter in step with the number of active like records exactly when it does not land on an already inactive record |
| CommentService.CreateComment | src/services/commentService.js:19-51 | a new active comment with zero counts is stored under a fresh key; then the post's `commentCount` goes up by one, or a missing post is reported; then a reply raises the parent's `replyCount`, or a missing parent is reported |
| CommentService.UpdateComment | src/services/commentService.js:91-98 | a missing comment is rejected; otherwise content, update time and the edited mark are set and nothing else changes |
| CommentService.DeleteComment | src/services/commentService.js:101-130 | an unknown comment is rejected with nothing changed; otherwise it is kept, marked deleted, the post's `commentCount` drops by one, and a reply's parent `replyCount` drops by one, each step reporting a missing document |
| CommentService.HandleCommentInteraction | src/services/commentService.js:133-168 | the same existence rule as for posts, on the comment's `likeCount` |
| CommentService.CreateThenDelete | src/services/commentService.js:19-130 | creating a comment and then deleting it leaves the post's `commentCount` and the parent's `replyCount` where they were, and keeps the comment marked deleted |
| CommentService.TopLevelPage | src/services/commentService.js:55-66 | at most `n` comments, none twice when no comment is stored twice |
| CommentService.TopLevelSelected | src/services/commentService.js:55-66 | the top-level page holds stored active top-level comments of the post, older than the cursor, newest first |
| CommentService.TopLevelLeftOut | src/services/commentService.js:55-66 | an active top-level comment of the post after the cursor that the page leaves out is no newer than every comment on it, and the page is full |
| CommentService.ReplyPage | src/services/commentService.js:74-84 | at most `n` comments, none twice when no comment is stored twice |
| CommentService.ReplySelected | src/services/commentService.js:74-84 | the reply page holds stored active replies to the comment, newer than the cursor, oldest first |
| CommentService.ReplyLeftOut | src/services/commentService.js:74-84 | an active reply after the cursor that the page leaves out is no older than every reply on it, and the page is full |
| CommentService.GetPostComments | src/services/commentService.js:54-70 | a page size below one is rejected; otherwise the result is the top-level page with the default size 20, which lists no comment twice when none is stored twice |
| CommentService.GetCommentReplies | src/services/commentService.js:73-88 | a page size below one is rejected; otherwise the result is the reply page with the default size 10, which lists no reply twice when none is stored twice |
| InteractionService.UserPage | src/services/interactionService.js:18-29 | at most `n` records, none twice when no record is stored twice |
| InteractionService.UserSelected | src/services/interactionService.js:18-29 | the page holds stored active records of the user, of the type when one is given, older than the cursor, newest first |
| InteractionService.UserLeftOut | src/services/interactionService.js:18-29 | a matching record the page leaves out is no newer than every record on it, and the page is full |
| InteractionService.UserRoom | src/services/interactionService.js:18-29 | a page with room for every matching record, or one that is not full, holds them all |
| InteractionService.GetUserBookmarks | src/services/interactionService.js:17-32 | a page size below one is rejected; otherwise only the user's active bookmarks, as the page above, 20 by default, and none twice when no record is stored twice |
| InteractionService.GetUserLikes | src/services/interactionService.js:36-51 | the same for the user's active likes, none twice when no record is stored twice |
| InteractionService.GetUserInteractionHistory | src/services/interactionService.js:90-104 | the same for the user's active records of any type, none twice when no record is stored twice |
| InteractionService.HistoryHoldsBookmarksAndLikes | src/services/interactionService.js:90-98 | a history page with room for all of the user's active records holds every active like and bookmark of the user |
| InteractionService.CursorPageAsWritten | src/services/interactionService.js:27-29 | as written: a bad page size is rejected by `limit` first; any call with a cursor then fails on the unimported `startAfter` |
| InteractionService.CursorPageThrows | src/services/interactionService.js:2-14 | as written, no page after the first can be fetched, while the first pages equal the corrected readers' |
| InteractionService.CheckUserInteraction | src/services/interactionService.js:55-60 | a yes needs a record under the user's key for the post and type |
| InteractionService.CheckAfterInteract | src/services/interactionService.js:55-60 | about `CheckUserInteraction`: right after a call of `handlePostInteraction`, `checkUserInteraction` says yes iff no record existed before it |
| InteractionService.CheckAfterRepeat | src/services/interactionService.js:55-60 | from no record, the answer after n >= 1 calls is yes iff n = 1; once a record exists it is no after any call |
| InteractionService.GetPostInteractionStats | src/services/interactionService.js:63-86 | the like and bookmark counts together are at most the number of records, since no record is both |
| InteractionService.CheckedIsCounted | src/services/interactionService.js:63-86 | about `GetPostInteractionStats`: an active record found by `checkUserInteraction` is counted: the post's count of that type is at least one |
| InteractionService.StatsAfterInteract | src/services/interactionService.js:63-86 | about `GetPostInteractionStats`: one interaction call moves its type's count by +1 from no record, by -1 on an active record and by 0 on an inactive one, and leaves the other type's count alone |
| StatsService.MergeKeepsOthers | src/services/statsService.js:17-27 | the post takes every counter given and keeps every field not given; the stats record takes every counter given, keeps every stored counter not given, and is stamped with `now` |
| StatsService.MergeIdempotent | src/services/statsService.js:21-27 | merging the same counters twice gives the same post, and the same stats record up to the later time |
| StatsService.UpdatePostStats | src/services/statsService.js:17-27 | the stats record is merged whether or not the post exists; the post is merged when it exists, and a missing post is reported |
| StatsService.TimeWindowStart | src/services/statsService.js:35-47 | the window always starts before now |
| StatsService.TimeWindows | src/services/statsService.js:35-47 | `24h` starts 86,400,000 ms back, `7d` and any unknown range 604,800,000 ms back, `30d` 2,592,000,000 ms back; the windows are nested |
| StatsService.HotPage | src/services/statsService.js:49-56 | at most `n` posts, none twice when no post is stored twice |
| StatsService.HotSelected | src/services/statsService.js:49-56 | the page holds stored published posts of the window, newest publication first and then most viewed |
| StatsService.HotLeftOut | src/services/statsService.js:49-56 | a published post of the window that the page leaves out comes no earlier in that order than every post on it, and the page is full |
| StatsService.GetHotPosts | src/services/statsService.js:31-59 | a page size below one is rejected; otherwise only published posts published at or after the window start, as the page above (7 days and 10 posts by default), none twice when no post is stored twice |
| StatsService.GetUserStats | src/services/statsService.js:63-94 | each of the three counts is at most the size of the collection it counts |
| StatsService.PostCountAfterStatus | src/services/statsService.js:64-68 | about `GetUserStats`: a status change raises the author's published-post count by one when it publishes an unpublished post, lowers it by one when it unpublishes a published post, and leaves it otherwise |
| StatsService.LikeCountAfterInteract | src/services/statsService.js:70-75 | about `GetUserStats`: a like call moves the user's like count by +1, -1 or 0 (no record, active, inactive); likes are counted for the user who made them |
| StatsService.CommentCountAfterCreate | src/services/statsService.js:77-81 | about `GetUserStats`: a new comment raises its author's comment count by one |
| StatsService.CommentCountAfterDelete | src/services/statsService.js:77-81 | about `GetUserStats`: deleting a comment lowers its author's count by one if it was active, and not at all if it was already deleted |
| StatsService.WithScores | src/services/statsService.js:129-133 | every considered post, in order, with its score |
| StatsService.RankHot | src/services/statsService.js:134-135 | at most 100 of the scored posts, each from the input, by non-increasing score; one left out scores no higher than any that is kept, and then 100 are kept |
| StatsService.Ids | src/services/statsService.js:151 | the ids of the kept posts, in order |
| StatsService.Candidates | src/services/statsService.js:115-120 | at most 1000 published posts of the listing, newest publication first; one left out is no newer than all that are in, and then 1000 are taken |
| StatsService.RecentPublished | src/services/statsService.js:115-126 | the same, stated over the stored posts, and no post is considered twice when none is stored twice |
| StatsService.CandidatesOnce | src/services/statsService.js:115-126 | a selection from the listing of a collection that stores no post twice has no repeats |
| StatsService.HotIdsDistinct | src/services/statsService.js:128-150 | when the considered posts are distinct stored posts, the kept ids have no repeats |
| StatsService.CandidatesStored | src/services/statsService.js:122-126 | every post the query over a full listing selects is a stored post |
| StatsService.CandidatesComplete | src/services/statsService.js:122-126 | a stored published post the query leaves out is no newer than every post taken, and then the page is full |
| StatsService.RescoredKeys | src/services/statsService.js:138-147 | the batch adds no post |
| StatsService.RescoredOther | src/services/statsService.js:138-147 | a post the batch does not name is left as it was |
| StatsService.RescoredNamed | src/services/statsService.js:139-145 | each named, stored post ends with its entry's score and the update time |
| StatsService.ApplyHotScores | src/services/statsService.js:138-147 | the posts after the batch are the posts with each ranked post rescored |
| StatsService.RankedEntry | src/services/statsService.js:123-135 | each kept entry is a stored, considered post with its own score |
| StatsService.RankedStored | src/services/statsService.js:123-135 | every kept entry names a stored post, so no update of the batch fails |
| StatsService.HotPostsRescored | src/services/statsService.js:138-147 | after the batch each kept post carries its own score and the time, and every other post is unchanged |
| StatsService.HotIdsRanked | src/services/statsService.js:150-153 | the stored ids are at most 100, name considered posts, and are in non-increasing score order |
| StatsService.HotIdsTop | src/services/statsService.js:134-135 | a considered post not among the stored ids scores no higher than any that is, and then 100 are stored |
| StatsService.UpdateHotPosts | src/services/statsService.js:114-154 | the considered posts are the at most 1000 newest published ones; the kept posts are the 100 best of them by score; the posts end rescored and `system/hotPosts` holds the kept ids with the time; no post is considered twice and no id is stored twice |
| Query.Select | src/services/commentService.js:55-62 | a query over a listing returns `min(limit, passing)` passing documents, drawn from the listing, ordered; a passing document left out ranks at or below all that are in and the page is full; with room, all passing documents are in |
| Query.SortDesc | src/services/statsService.js:134 | the result is ordered, highest key first, and is a permutation of the input |
| Query.Take | src/services/statsService.js:135 | `slice(0, n)`: the first `min(n, length)` elements |
| Query.SelectFrom | src/services/commentService.js:55-62 | `Select` stated over a collection map: as many documents as pass, up to the limit, each stored and passing, ordered, top-ranked, all of them with room, and none twice when no document is stored under two keys |
| Query.SnapshotDistinct | src/services/commentService.js:55-62 | the listing of a collection that stores no document twice has no repeats |
| Query.DistinctSub | src/services/commentService.js:55-62 | a selection drawn from a listing without repeats has none |
| Query.KeyedInjective | src/services/statsService.js:124 | a collection whose documents carry their own key stores no document twice |
| Query.DisjointCounts | src/services/interactionService.js:63-86 | two filters no document passes together count at most the collection between them |
| Query.SelectAllFrom | src/services/postService.js:146-154 | a query without a limit returns every passing document of the collection, ordered, as many as pass, and each once when none is stored twice |
| Query.CountAfterWrite | src/services/interactionService.js:83-86 | after one key is written, a query's `size` loses the old document if it passed and gains the new one if it passes |
| Query.PageLimit | src/services/commentService.js:61 | `limit(n)` accepts exactly n >= 1 |
| Store.NewKey | src/services/commentService.js:20 | a generated document id is not already in use |
| Store.StoredOnce | src/services/statsService.js:124 | a database that keeps its invariant stores no post, comment or interaction under two keys |
| Store.ListDocuments | src/services/statsService.js:122-126 | the listing holds each stored document exactly once, with its key |

## Left out

- Cover upload and Markdown rendering are not modelled. The uploaded URL (`coverUrl`) and the sanitised HTML (`html`) are inputs to `PostService.SavePost`.
- Server timestamps, `new Date()` and auto-generated ids are not modelled. They are the parameters `now` and `Store.NewKey`.
- `calculateHotScore` is left out: it is floating-point arithmetic over the current time. `StatsService.UpdateHotPosts` takes the score as an abstract function to `int`, and a post's `hotScore` is an `int`.
- `await` interleavings and `Promise.all` are not modelled. Each operation runs its writes in source order as atomic steps, and there are no concurrent callers.
- Firestore orders documents with equal sort keys by document id. The model leaves the tie order open: the queries sort stably over an arbitrary listing, which includes that order, and no contract depends on it.
- Firestore rejects `limit` with a page size below one. It is modelled as the error `InvalidLimit`.
- `updateDoc` with dotted field paths and `increment` are written out as record updates on the stored document.
- `String.length` counts UTF-16 code units. The model counts characters of a `seq<char>`, so `wordCount` and summary cuts differ for characters outside the Basic Multilingual Plane.
- The `Stats` argument of `updatePostStats` is limited to the four counters `viewCount`, `likeCount`, `commentCount` and `bookmarkCount`. Any other field a caller might pass is not modelled.
- A comment created by `createComment` has no `isEdited` field. The model stores `false` for it.
- `commentService.js` calls `updateDoc` and `statsService.js` calls `updateDoc` and `writeBatch`, but neither file imports them. The model follows the evident intent, the Firestore functions of those names, instead of the `ReferenceError` those calls would raise.
- A `parentId` of `""` is stored as given. It is neither a top-level comment (`parentId == null`) nor a reply (the truthiness test).
- Interaction keys are joined with `_`. If an id itself holds `_`, two different (post, user, type) triples can share a key. The interaction lemmas therefore require that a stored record under the key belongs to the subject, user and type asked about.
- The source's comments name the two branches of an interaction 取消互动 ('cancel the interaction') and 添加互动 ('add the interaction') (src/services/postService.js:187 and 202, src/services/commentService.js:138 and 153). The code picks the branch by whether a record exists, not by whether it is active, and the model follows the code.

## Findings

| source | as written | input that shows it | evidently intended | confidence | as-written member | corrected member |
|---|---|---|---|---|---|---|
| src/services/interactionService.js:2-14 | `startAfter` is used at lines 28, 47 and 100 but never imported, so each paged reader throws whenever a cursor is passed | `getUserBookmarks(u, lastBookmark, 20)` with any non-null `lastBookmark` | the next page: the user's matching records strictly older than the cursor, newest first | high: not executed | InteractionService.CursorPageAsWritten, InteractionService.CursorPageThrows | InteractionService.GetUserBookmarks, InteractionService.GetUserLikes, InteractionService.GetUserInteractionHistory |
