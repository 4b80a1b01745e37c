/** Post counters, hot posts and per-user statistics. */
module StatsService {
  import opened Records
  import Query
  import opened Store
  import CommentService
  import PostService
  import InteractionRule

  // ----- updatePostStats ----------------------------------------------------

  /** `updateDoc(post, stats)`: the counters the caller gave replace the
      post's; the others stay. */
  function MergedPost(p: Post, s: Stats): Post {
    p.(viewCount := if s.viewCount.Some? then s.viewCount.value else p.viewCount,
       likeCount := if s.likeCount.Some? then s.likeCount.value else p.likeCount,
       commentCount := if s.commentCount.Some? then s.commentCount.value else p.commentCount,
       bookmarkCount := if s.bookmarkCount.Some? then s.bookmarkCount else p.bookmarkCount)
  }

  /** A field given in the stats wins over the stored one. */
  function Over(given: Option<int>, stored: Option<int>): Option<int> {
    if given.Some? then given else stored
  }

  /** `setDoc(post_stats, {...stats, updatedAt}, {merge: true})`: the given
      counters and the time are written over the stored record, if any. */
  function MergedStats(stored: Option<StatsRecord>, s: Stats, now: int): StatsRecord {
    match stored
    case None => StatsRecord(s.viewCount, s.likeCount, s.commentCount, s.bookmarkCount, Some(now))
    case Some(x) =>
      StatsRecord(Over(s.viewCount, x.viewCount), Over(s.likeCount, x.likeCount),
                  Over(s.commentCount, x.commentCount), Over(s.bookmarkCount, x.bookmarkCount), Some(now))
  }

  /** The merge keeps every counter the caller did not give and stores every
      one it did; the post keeps everything but the given counters. */
  lemma MergeKeepsOthers(p: Post, stored: Option<StatsRecord>, s: Stats, now: int)
    ensures var q := MergedPost(p, s);
      && q.(viewCount := p.viewCount, likeCount := p.likeCount, commentCount := p.commentCount,
            bookmarkCount := p.bookmarkCount) == p
      && (s.viewCount.Some? ==> q.viewCount == s.viewCount.value)
      && (s.likeCount.Some? ==> q.likeCount == s.likeCount.value)
      && (s.commentCount.Some? ==> q.commentCount == s.commentCount.value)
      && (s.bookmarkCount.Some? ==> q.bookmarkCount == s.bookmarkCount)
      && (s == Stats(None, None, None, None) ==> q == p)
    ensures var x := MergedStats(stored, s, now);
      && x.updatedAt == Some(now)
      && (s.viewCount.Some? ==> x.viewCount == s.viewCount)
      && (s.likeCount.Some? ==> x.likeCount == s.likeCount)
      && (s.commentCount.Some? ==> x.commentCount == s.commentCount)
      && (s.bookmarkCount.Some? ==> x.bookmarkCount == s.bookmarkCount)
      && (stored.Some? && s.viewCount.None? ==> x.viewCount == stored.value.viewCount)
      && (stored.Some? && s.likeCount.None? ==> x.likeCount == stored.value.likeCount)
      && (stored.Some? && s.commentCount.None? ==> x.commentCount == stored.value.commentCount)
      && (stored.Some? && s.bookmarkCount.None? ==> x.bookmarkCount == stored.value.bookmarkCount)
      && (stored.None? ==> x == StatsRecord(s.viewCount, s.likeCount, s.commentCount, s.bookmarkCount, Some(now)))
  {
  }

  /** Writing the same stats again changes only the time. */
  lemma MergeIdempotent(p: Post, stored: Option<StatsRecord>, s: Stats, t1: int, t2: int)
    ensures MergedPost(MergedPost(p, s), s) == MergedPost(p, s)
    ensures MergedStats(Some(MergedStats(stored, s, t1)), s, t2) == MergedStats(stored, s, t2)
  {
  }

  /** updatePostStats: both writes are started together. The stats record
      is merged whether or not the post exists; the post is updated only
      when it exists, and an absent post is reported. */
  method UpdatePostStats(db: Database, postId: string, stats: Stats, now: int) returns (r: Outcome)
    requires db.Valid()
    modifies db`posts, db`postStats
    ensures db.Valid()
    ensures db.postStats ==
            old(db.postStats)[postId := MergedStats(if postId in old(db.postStats) then Some(old(db.postStats)[postId]) else None, stats, now)]
    ensures postId in old(db.posts) ==> r == Done && db.posts == old(db.posts)[postId := MergedPost(old(db.posts)[postId], stats)]
    ensures postId !in old(db.posts) ==> r == Fail(NoDocumentToUpdate("posts", postId)) && db.posts == old(db.posts)
  {
    var stored := if postId in db.postStats then Some(db.postStats[postId]) else None;
    db.PutStats(postId, MergedStats(stored, stats, now));
    if postId in db.posts {
      db.PutPost(postId, MergedPost(db.posts[postId], stats));
      r := Done;
    } else {
      r := Fail(NoDocumentToUpdate("posts", postId));
    }
  }

  // ----- getHotPosts --------------------------------------------------------

  /** One day in milliseconds. */
  const DAY_MS := 24 * 60 * 60 * 1000

  /** The start of the window `getHotPosts` looks at: one day back for
      `24h`, thirty for `30d`, and seven for `7d` or anything else. */
  function TimeWindowStart(timeRange: string, now: int): (r: int)
    ensures r < now
  {
    if timeRange == "24h" then now - DAY_MS
    else if timeRange == "30d" then now - 30 * DAY_MS
    else now - 7 * DAY_MS
  }

  /** The three windows in milliseconds, nested; an unknown range is the
      seven-day one. */
  lemma TimeWindows(timeRange: string, now: int)
    ensures TimeWindowStart("24h", now) == now - 86400000
    ensures TimeWindowStart("7d", now) == now - 604800000
    ensures TimeWindowStart("30d", now) == now - 2592000000
    ensures timeRange != "24h" && timeRange != "30d" ==> TimeWindowStart(timeRange, now) == TimeWindowStart("7d", now)
    ensures TimeWindowStart("30d", now) < TimeWindowStart("7d", now) < TimeWindowStart("24h", now)
  {
  }

  /** A published post with a publication time at or after `start`. */
  predicate HotCandidate(p: Post, start: int) {
    p.status == PUBLISHED && p.metadata.publishedAt.Some? && p.metadata.publishedAt.value >= start
  }

  /** Newest publication first, then most viewed. */
  predicate HotOrder(p: Post, q: Post) {
    || PostService.PublishedTime(p) > PostService.PublishedTime(q)
    || (PostService.PublishedTime(p) == PostService.PublishedTime(q) && p.viewCount >= q.viewCount)
  }

  /** The rank of the query's two `orderBy` fields. */
  function HotRank(p: Post): Query.Key {
    Query.Key(PostService.PublishedTime(p), p.viewCount)
  }

  /** The filter of getHotPosts. */
  function HotFilter(start: int): Post -> bool {
    (p: Post) => HotCandidate(p, start)
  }

  /** The query of getHotPosts: at most `n` published posts of the window,
      and none twice when no post is stored twice. HotSelected and HotLeftOut
      say which. */
  ghost function HotPage(posts: map<string, Post>, start: int, n: nat): (r: seq<Post>)
    ensures |r| <= n
    ensures Query.Injective(posts) ==> Query.Distinct(r)
  {
    Query.SelectFrom(posts, HotFilter(start), HotRank, n)
  }

  /** The page holds stored published posts of the window, in hot order. */
  lemma HotSelected(posts: map<string, Post>, start: int, n: nat)
    ensures var r := HotPage(posts, start, n);
      && (forall i :: 0 <= i < |r| ==> r[i] in posts.Values && HotCandidate(r[i], start))
      && (forall i, j :: 0 <= i < j < |r| ==> HotOrder(r[i], r[j]))
  {
    var r := HotPage(posts, start, n);
    assert r == Query.SelectFrom(posts, HotFilter(start), HotRank, n);
    forall i | 0 <= i < |r| ensures r[i] in posts.Values && HotCandidate(r[i], start) {
      assert HotFilter(start)(r[i]);
    }
    forall i, j | 0 <= i < j < |r| ensures HotOrder(r[i], r[j]) {
      assert Query.Geq(HotRank(r[i]), HotRank(r[j]));
    }
  }

  /** A published post of the window that the page leaves out comes no
      earlier in hot order than every post on it, and the page is full. */
  lemma HotLeftOut(posts: map<string, Post>, start: int, n: nat)
    ensures var r := HotPage(posts, start, n);
      forall k :: k in posts && HotCandidate(posts[k], start) && posts[k] !in r ==>
        |r| == n && forall i :: 0 <= i < |r| ==> HotOrder(r[i], posts[k])
  {
    var r := HotPage(posts, start, n);
    assert r == Query.SelectFrom(posts, HotFilter(start), HotRank, n);
    forall k | k in posts && HotCandidate(posts[k], start) && posts[k] !in r
      ensures |r| == n && forall i :: 0 <= i < |r| ==> HotOrder(r[i], posts[k])
    {
      var p := posts[k];
      assert HotFilter(start)(p);
      forall i | 0 <= i < |r| ensures HotOrder(r[i], p) {
        assert Query.Geq(HotRank(r[i]), HotRank(p));
      }
    }
  }

  /** getHotPosts: a page of at most `pageSize` hot posts of the chosen
      window; a page size below one is rejected. */
  ghost function GetHotPosts(posts: map<string, Post>, now: int, timeRange: string := "7d", pageSize: int := 10)
    : (r: Result<seq<Post>>)
    ensures r.Success? <==> pageSize >= 1
    ensures r.Success? ==> r.value == HotPage(posts, TimeWindowStart(timeRange, now), pageSize)
    ensures r.Success? && Query.Injective(posts) ==> Query.Distinct(r.value)
    ensures r.Success? ==> forall i :: 0 <= i < |r.value| ==>
              r.value[i].status == PUBLISHED && r.value[i].metadata.publishedAt.Some? &&
              r.value[i].metadata.publishedAt.value >= TimeWindowStart(timeRange, now)
  {
    match Query.PageLimit(pageSize)
    case Failure(e) => Failure(e)
    case Success(n) =>
      HotSelected(posts, TimeWindowStart(timeRange, now), n);
      Success(HotPage(posts, TimeWindowStart(timeRange, now), n))
  }

  // ----- getUserStats -------------------------------------------------------

  /** The three counts `getUserStats` returns. */
  datatype UserStats = UserStats(postCount: nat, likeCount: nat, commentCount: nat)

  predicate PublishedBy(p: Post, userId: string) {
    p.authorId == userId && p.status == PUBLISHED
  }

  predicate LikedBy(x: Interaction, userId: string) {
    x.userId == userId && x.kind == LIKE && x.active
  }

  predicate CommentedBy(c: Comment, userId: string) {
    c.userId == userId && c.status == ACTIVE
  }

  /** getUserStats: the user's published posts, the active likes the user
      made (not received), and the user's active comments. */
  function GetUserStats(posts: map<string, Post>, interactions: map<string, Interaction>,
                        comments: map<string, Comment>, userId: string): (r: UserStats)
    ensures r.postCount <= |posts| && r.likeCount <= |interactions| && r.commentCount <= |comments|
  {
    UserStats(Query.MapCount(posts, (p: Post) => PublishedBy(p, userId)),
              Query.MapCount(interactions, (x: Interaction) => LikedBy(x, userId)),
              Query.MapCount(comments, (c: Comment) => CommentedBy(c, userId)))
  }

  /** A status change (updatePostStatus) moves the author's published-post
      count by +1 when it publishes a post that was not published, by -1 when
      it takes a published post out of publication, and not at all
      otherwise. */
  lemma PostCountAfterStatus(posts: map<string, Post>, interactions: map<string, Interaction>,
                             comments: map<string, Comment>, postId: string, status: string, now: int)
    requires postId in posts
    ensures var p := posts[postId];
      var after := posts[postId := p.(
        status := status,
        metadata := if status == PUBLISHED then p.metadata.(publishedAt := Some(now)) else p.metadata)];
      GetUserStats(after, interactions, comments, p.authorId).postCount ==
        GetUserStats(posts, interactions, comments, p.authorId).postCount +
        (if status == PUBLISHED && p.status != PUBLISHED then 1
         else if status != PUBLISHED && p.status == PUBLISHED then -1 else 0)
  {
    var p := posts[postId];
    var q := p.(status := status,
                metadata := if status == PUBLISHED then p.metadata.(publishedAt := Some(now)) else p.metadata);
    Query.CountAfterWrite(posts, postId, q, (x: Post) => PublishedBy(x, p.authorId));
  }

  /** A like call by the user moves the user's like count by +1 when no
      record existed, by -1 when an active one existed and not at all when an
      inactive one existed; the like is counted for the user who made it,
      whoever wrote the post. */
  lemma LikeCountAfterInteract(posts: map<string, Post>, interactions: map<string, Interaction>,
                               comments: map<string, Comment>, postId: string, userId: string, now: int)
    requires var key := InteractionKey(postId, userId, LIKE);
      key in interactions ==> interactions[key].userId == userId && interactions[key].kind == LIKE
    ensures var key := InteractionKey(postId, userId, LIKE);
      var after := InteractionRule.Interact(interactions, postId, userId, LIKE, now).0;
      GetUserStats(posts, after, comments, userId).likeCount ==
        GetUserStats(posts, interactions, comments, userId).likeCount +
        (if key !in interactions then 1 else if interactions[key].active then -1 else 0)
  {
    var key := InteractionKey(postId, userId, LIKE);
    var after := InteractionRule.Interact(interactions, postId, userId, LIKE, now).0;
    assert after == interactions[key := after[key]];
    Query.CountAfterWrite(interactions, key, after[key], (x: Interaction) => LikedBy(x, userId));
  }

  /** A new comment raises its author's comment count by one. */
  lemma CommentCountAfterCreate(posts: map<string, Post>, interactions: map<string, Interaction>,
                                comments: map<string, Comment>, k: string, postId: string, userId: string,
                                content: string, parentId: Option<string>, now: int)
    requires k !in comments
    ensures var c := CommentService.NewComment(k, postId, userId, content, parentId, now);
      GetUserStats(posts, interactions, comments[k := c], userId).commentCount ==
        GetUserStats(posts, interactions, comments, userId).commentCount + 1
  {
    var c := CommentService.NewComment(k, postId, userId, content, parentId, now);
    Query.CountAfterWrite(comments, k, c, (c: Comment) => CommentedBy(c, userId));
  }

  /** Deleting a comment lowers its author's comment count by one if it was
      active, and leaves it as it was for a comment already deleted. */
  lemma CommentCountAfterDelete(posts: map<string, Post>, interactions: map<string, Interaction>,
                                comments: map<string, Comment>, k: string, now: int)
    requires k in comments
    ensures var c := comments[k];
      GetUserStats(posts, interactions, comments[k := CommentService.SoftDeleted(c, now)], c.userId).commentCount ==
        GetUserStats(posts, interactions, comments, c.userId).commentCount - (if c.status == ACTIVE then 1 else 0)
  {
    var c := comments[k];
    Query.CountAfterWrite(comments, k, CommentService.SoftDeleted(c, now), (d: Comment) => CommentedBy(d, c.userId));
  }

  // ----- updateHotPosts -----------------------------------------------------

  /** How many recently published posts are scored, and how many are kept. */
  const CONSIDERED := 1000
  const KEPT := 100

  /** A published post that has a publication time (the ordering field). */
  predicate Listed(p: Post) {
    p.status == PUBLISHED && p.metadata.publishedAt.Some?
  }

  function PublishedRank(p: Post): Query.Key {
    Query.Key(PostService.PublishedTime(p), 0)
  }

  /** The stored hot score, 0 when absent. */
  function ScoreOf(p: Post): int {
    if p.hotScore.Some? then p.hotScore.value else 0
  }

  function ScoreRank(p: Post): Query.Key {
    Query.Key(ScoreOf(p), 0)
  }

  /** `{ ...post, hotScore: calculateHotScore(post) }`. */
  function Scored(p: Post, score: Post -> int): Post {
    p.(hotScore := Some(score(p)))
  }

  /** Each post with its score. */
  function WithScores(ps: seq<Post>, score: Post -> int): (r: seq<Post>)
    ensures |r| == |ps|
    ensures forall i :: 0 <= i < |r| ==> r[i] == Scored(ps[i], score)
  {
    if ps == [] then [] else [Scored(ps[0], score)] + WithScores(ps[1..], score)
  }

  /** The scored posts sorted by score, highest first, cut to `KEPT`; a
      scored post left out scores no higher than all that are kept, and then
      `KEPT` are kept. */
  function RankHot(scored: seq<Post>): (r: seq<Post>)
    ensures |r| <= KEPT
    ensures multiset(r) <= multiset(scored)
    ensures forall i, j :: 0 <= i < j < |r| ==> ScoreOf(r[i]) >= ScoreOf(r[j])
    ensures forall j :: 0 <= j < |scored| && scored[j] !in r ==>
              |r| == KEPT && forall i :: 0 <= i < |r| ==> ScoreOf(r[i]) >= ScoreOf(scored[j])
  {
    var all := (p: Post) => true;
    var r := Query.Select(scored, all, ScoreRank, KEPT);
    forall i, j | 0 <= i < j < |r| ensures ScoreOf(r[i]) >= ScoreOf(r[j]) {
      assert Query.Geq(ScoreRank(r[i]), ScoreRank(r[j]));
    }
    forall j | 0 <= j < |scored| && scored[j] !in r
      ensures |r| == KEPT && forall i :: 0 <= i < |r| ==> ScoreOf(r[i]) >= ScoreOf(scored[j])
    {
      assert all(scored[j]);
      forall i | 0 <= i < |r| ensures ScoreOf(r[i]) >= ScoreOf(scored[j]) {
        assert Query.Geq(ScoreRank(r[i]), ScoreRank(scored[j]));
      }
    }
    r
  }

  /** The ids of a list of posts. */
  function Ids(ps: seq<Post>): (r: seq<string>)
    ensures |r| == |ps| && forall i :: 0 <= i < |ps| ==> r[i] == ps[i].id
  {
    if ps == [] then [] else [ps[0].id] + Ids(ps[1..])
  }

  /** The post with its new score and the time of the update. */
  function Rescore(p: Post, hotScore: Option<int>, now: int): Post {
    p.(hotScore := hotScore, metadata := p.metadata.(lastHotScoreUpdate := Some(now)))
  }

  /** The posts after the batch has updated each post of `s`, one after the
      other, with that entry's score. */
  function Rescored(posts: map<string, Post>, s: seq<Post>, now: int): map<string, Post>
    decreases |s|
  {
    if s == [] then posts
    else
      var before := Rescored(posts, s[..|s| - 1], now);
      var p := s[|s| - 1];
      if p.id in before then before[p.id := Rescore(before[p.id], p.hotScore, now)] else before
  }

  /** The batch adds no key. */
  lemma {:induction false} RescoredKeys(posts: map<string, Post>, s: seq<Post>, now: int)
    ensures Rescored(posts, s, now).Keys == posts.Keys
    decreases |s|
  {
    if s != [] {
      RescoredKeys(posts, s[..|s| - 1], now);
    }
  }

  /** A post the batch does not name is left as it was. */
  lemma {:induction false} RescoredOther(posts: map<string, Post>, s: seq<Post>, now: int, k: string)
    requires k in posts
    requires forall i :: 0 <= i < |s| ==> s[i].id != k
    ensures k in Rescored(posts, s, now) && Rescored(posts, s, now)[k] == posts[k]
    decreases |s|
  {
    if s != [] {
      var init := s[..|s| - 1];
      assert forall i :: 0 <= i < |init| ==> init[i] == s[i];
      RescoredOther(posts, init, now, k);
    }
  }

  /** When entries with the same id are the same, each named post that is
      stored ends up with its entry's score. */
  lemma {:induction false} RescoredNamed(posts: map<string, Post>, s: seq<Post>, now: int, i: nat)
    requires forall i, j :: 0 <= i < |s| && 0 <= j < |s| && s[i].id == s[j].id ==> s[i] == s[j]
    requires i < |s| && s[i].id in posts
    ensures s[i].id in Rescored(posts, s, now)
    ensures Rescored(posts, s, now)[s[i].id] == Rescore(posts[s[i].id], s[i].hotScore, now)
    decreases |s|
  {
    var init := s[..|s| - 1];
    var last := s[|s| - 1];
    RescoredKeys(posts, init, now);
    if s[i].id == last.id {
      assert s[i] == last;
      if j :| 0 <= j < |init| && init[j].id == last.id {
        assert init[j] == s[j] == last;
        RescoredNamed(posts, init, now, j);
      } else {
        RescoredOther(posts, init, now, last.id);
      }
    } else {
      assert init[i] == s[i];
      RescoredNamed(posts, init, now, i);
    }
  }

  /** The batch of `updateHotPosts`: for each ranked post, in order, a new
      `hotScore` and `metadata.lastHotScoreUpdate`. Every ranked post is
      stored, so no update of the batch fails. */
  method ApplyHotScores(db: Database, ranked: seq<Post>, now: int)
    requires db.Valid()
    requires forall i :: 0 <= i < |ranked| ==> ranked[i].id in db.posts
    modifies db`posts
    ensures db.Valid()
    ensures db.posts == Rescored(old(db.posts), ranked, now)
  {
    for i := 0 to |ranked|
      invariant db.Valid()
      invariant db.posts == Rescored(old(db.posts), ranked[..i], now)
      invariant db.posts.Keys == old(db.posts).Keys
    {
      var p := ranked[i];
      assert ranked[..i + 1][..i] == ranked[..i];
      db.PutPost(p.id, Rescore(db.posts[p.id], p.hotScore, now));
    }
    assert ranked[..|ranked|] == ranked;
  }

  /** The at most `CONSIDERED` most recently published posts of a listing,
      newest first. */
  function Candidates(docs: seq<Post>): (r: seq<Post>)
    ensures |r| <= CONSIDERED
    ensures multiset(r) <= multiset(docs)
    ensures forall i :: 0 <= i < |r| ==> Listed(r[i])
    ensures forall i, j :: 0 <= i < j < |r| ==> PostService.PublishedTime(r[i]) >= PostService.PublishedTime(r[j])
    ensures forall j :: 0 <= j < |docs| && Listed(docs[j]) && docs[j] !in r ==>
              |r| == CONSIDERED && forall i :: 0 <= i < |r| ==> PostService.PublishedTime(r[i]) >= PostService.PublishedTime(docs[j])
  {
    var keep := (p: Post) => Listed(p);
    var r := Query.Select(docs, keep, PublishedRank, CONSIDERED);
    forall i | 0 <= i < |r| ensures Listed(r[i]) {
      assert keep(r[i]);
    }
    forall i, j | 0 <= i < j < |r| ensures PostService.PublishedTime(r[i]) >= PostService.PublishedTime(r[j]) {
      assert Query.Geq(PublishedRank(r[i]), PublishedRank(r[j]));
    }
    forall j | 0 <= j < |docs| && Listed(docs[j]) && docs[j] !in r
      ensures |r| == CONSIDERED && forall i :: 0 <= i < |r| ==> PostService.PublishedTime(r[i]) >= PostService.PublishedTime(docs[j])
    {
      assert keep(docs[j]);
      forall i | 0 <= i < |r| ensures PostService.PublishedTime(r[i]) >= PostService.PublishedTime(docs[j]) {
        assert Query.Geq(PublishedRank(r[i]), PublishedRank(docs[j]));
      }
    }
    r
  }

  /** Posts stored under their own id: what `{ id: doc.id, ...doc.data() }`
      relies on. */
  predicate KeyedById(posts: map<string, Post>) {
    forall k :: k in posts ==> posts[k].id == k
  }

  /** Every entry of the ranked list is a stored, considered post with its
      own score. */
  lemma RankedEntry(posts: map<string, Post>, considered: seq<Post>, score: Post -> int, i: nat)
    requires KeyedById(posts)
    requires forall j :: 0 <= j < |considered| ==> considered[j] in posts.Values
    requires i < |RankHot(WithScores(considered, score))|
    ensures var e := RankHot(WithScores(considered, score))[i];
      && e.id in posts && posts[e.id] in considered
      && e == Scored(posts[e.id], score)
  {
    var scored := WithScores(considered, score);
    var e := RankHot(scored)[i];
    assert e in multiset(scored);
    var j :| 0 <= j < |scored| && scored[j] == e;
    var c := considered[j];
    assert e == Scored(c, score);
    var k :| k in posts && posts[k] == c;
    assert c.id == k;
  }

  /** Every ranked post is stored. */
  lemma RankedStored(posts: map<string, Post>, considered: seq<Post>, score: Post -> int)
    requires KeyedById(posts)
    requires forall j :: 0 <= j < |considered| ==> considered[j] in posts.Values
    ensures forall i :: 0 <= i < |RankHot(WithScores(considered, score))| ==>
              RankHot(WithScores(considered, score))[i].id in posts
  {
    forall i | 0 <= i < |RankHot(WithScores(considered, score))|
      ensures RankHot(WithScores(considered, score))[i].id in posts
    {
      RankedEntry(posts, considered, score, i);
    }
  }

  /** After the batch, each ranked post carries its own score and the time;
      every other post is as it was. */
  lemma HotPostsRescored(posts: map<string, Post>, considered: seq<Post>, score: Post -> int, now: int)
    requires KeyedById(posts)
    requires forall j :: 0 <= j < |considered| ==> considered[j] in posts.Values
    ensures var ranked := RankHot(WithScores(considered, score));
      var after := Rescored(posts, ranked, now);
      && after.Keys == posts.Keys
      && (forall i :: 0 <= i < |ranked| ==>
            ranked[i].id in posts && posts[ranked[i].id] in considered &&
            after[ranked[i].id] == Rescore(posts[ranked[i].id], Some(score(posts[ranked[i].id])), now))
      && (forall k :: k in posts && k !in Ids(ranked) ==> after[k] == posts[k])
  {
    var ranked := RankHot(WithScores(considered, score));
    RescoredKeys(posts, ranked, now);
    forall i, j | 0 <= i < |ranked| && 0 <= j < |ranked| && ranked[i].id == ranked[j].id
      ensures ranked[i] == ranked[j]
    {
      RankedEntry(posts, considered, score, i);
      RankedEntry(posts, considered, score, j);
    }
    forall i | 0 <= i < |ranked|
      ensures ranked[i].id in posts && posts[ranked[i].id] in considered
      ensures Rescored(posts, ranked, now)[ranked[i].id] ==
              Rescore(posts[ranked[i].id], Some(score(posts[ranked[i].id])), now)
    {
      RankedEntry(posts, considered, score, i);
      RescoredNamed(posts, ranked, now, i);
    }
    forall k | k in posts && k !in Ids(ranked) ensures Rescored(posts, ranked, now)[k] == posts[k] {
      forall i | 0 <= i < |ranked| ensures ranked[i].id != k {
        assert Ids(ranked)[i] == ranked[i].id;
      }
      RescoredOther(posts, ranked, now, k);
    }
  }

  /** The stored ids are those of considered posts, each with the score
      of the stored post, by non-increasing score, and at most `KEPT`. */
  lemma HotIdsRanked(posts: map<string, Post>, considered: seq<Post>, score: Post -> int)
    requires KeyedById(posts)
    requires forall j :: 0 <= j < |considered| ==> considered[j] in posts.Values
    ensures var ids := Ids(RankHot(WithScores(considered, score)));
      && |ids| <= KEPT
      && (forall i :: 0 <= i < |ids| ==> ids[i] in posts && posts[ids[i]] in considered)
      && (forall i, j :: 0 <= i < j < |ids| ==> score(posts[ids[i]]) >= score(posts[ids[j]]))
  {
    var ranked := RankHot(WithScores(considered, score));
    var ids := Ids(ranked);
    forall i | 0 <= i < |ids|
      ensures ids[i] in posts && posts[ids[i]] in considered && ScoreOf(ranked[i]) == score(posts[ids[i]])
    {
      RankedEntry(posts, considered, score, i);
    }
  }

  /** A considered post that is not among the stored ids scores no higher
      than any that is, and then `KEPT` are stored. */
  lemma HotIdsTop(posts: map<string, Post>, considered: seq<Post>, score: Post -> int, j: nat)
    requires KeyedById(posts)
    requires forall j :: 0 <= j < |considered| ==> considered[j] in posts.Values
    requires j < |considered| && considered[j].id !in Ids(RankHot(WithScores(considered, score)))
    ensures var ids := Ids(RankHot(WithScores(considered, score)));
      && |ids| == KEPT
      && forall i :: 0 <= i < |ids| ==> ids[i] in posts && score(posts[ids[i]]) >= score(considered[j])
  {
    var scored := WithScores(considered, score);
    var ranked := RankHot(scored);
    var ids := Ids(ranked);
    assert scored[j].id == considered[j].id;
    assert ScoreOf(scored[j]) == score(considered[j]);
    forall i | 0 <= i < |ids| ensures ids[i] in posts && score(posts[ids[i]]) >= score(considered[j]) {
      RankedEntry(posts, considered, score, i);
      assert ScoreOf(ranked[i]) == score(posts[ids[i]]);
    }
  }

  /** Every considered post of a listing is a stored post. */
  lemma CandidatesStored(posts: map<string, Post>, keys: seq<string>, docs: seq<Post>, c: seq<Post>)
    requires |keys| == |docs|
    requires forall i :: 0 <= i < |keys| ==> keys[i] in posts && docs[i] == posts[keys[i]]
    requires multiset(c) <= multiset(docs)
    ensures forall i :: 0 <= i < |c| ==> c[i] in posts.Values
  {
    forall i | 0 <= i < |c| ensures c[i] in posts.Values {
      assert c[i] in multiset(docs);
      var j :| 0 <= j < |docs| && docs[j] == c[i];
      assert posts[keys[j]] == c[i];
    }
  }

  /** A stored published post that is not considered is no newer than any
      considered one, and the listing was cut at `CONSIDERED`. */
  lemma CandidatesComplete(posts: map<string, Post>, keys: seq<string>, docs: seq<Post>, c: seq<Post>)
    requires |keys| == |docs|
    requires forall k :: k in posts <==> k in keys
    requires forall i :: 0 <= i < |keys| ==> keys[i] in posts && docs[i] == posts[keys[i]]
    requires forall j :: 0 <= j < |docs| && Listed(docs[j]) && docs[j] !in c ==>
               |c| == CONSIDERED && forall i :: 0 <= i < |c| ==> PostService.PublishedTime(c[i]) >= PostService.PublishedTime(docs[j])
    ensures forall k :: k in posts && Listed(posts[k]) && posts[k] !in c ==>
              |c| == CONSIDERED &&
              forall i :: 0 <= i < |c| ==> PostService.PublishedTime(c[i]) >= PostService.PublishedTime(posts[k])
  {
    forall k | k in posts && Listed(posts[k]) && posts[k] !in c
      ensures |c| == CONSIDERED
      ensures forall i :: 0 <= i < |c| ==> PostService.PublishedTime(c[i]) >= PostService.PublishedTime(posts[k])
    {
      var j :| 0 <= j < |keys| && keys[j] == k;
      assert docs[j] == posts[k];
    }
  }

  /** A listing of a collection that stores no post twice has no repeats,
      and neither has any selection from it. */
  lemma CandidatesOnce(posts: map<string, Post>, keys: seq<string>, docs: seq<Post>, c: seq<Post>)
    requires |keys| == |docs|
    requires forall i, j :: 0 <= i < j < |keys| ==> keys[i] != keys[j]
    requires forall i :: 0 <= i < |keys| ==> keys[i] in posts && docs[i] == posts[keys[i]]
    requires Query.Injective(posts)
    requires multiset(c) <= multiset(docs)
    ensures Query.Distinct(c)
  {
    forall i, j | 0 <= i < j < |docs| ensures docs[i] != docs[j] {
      assert keys[i] != keys[j];
    }
    Query.DistinctSub(c, docs);
  }

  /** When the considered posts are distinct stored posts, so are the ranked
      ones, and their ids: `system/hotPosts` names no post twice. */
  lemma HotIdsDistinct(posts: map<string, Post>, considered: seq<Post>, score: Post -> int)
    requires KeyedById(posts)
    requires forall j :: 0 <= j < |considered| ==> considered[j] in posts.Values
    requires Query.Distinct(considered)
    ensures Query.Distinct(Ids(RankHot(WithScores(considered, score))))
  {
    var scored := WithScores(considered, score);
    var ranked := RankHot(scored);
    forall a, b | 0 <= a < b < |scored| ensures scored[a] != scored[b] {
      var ka :| ka in posts && posts[ka] == considered[a];
      var kb :| kb in posts && posts[kb] == considered[b];
      assert ka != kb;
      assert scored[a].id == ka && scored[b].id == kb;
    }
    Query.DistinctSub(ranked, scored);
    forall i, j | 0 <= i < j < |ranked| ensures Ids(ranked)[i] != Ids(ranked)[j] {
      RankedEntry(posts, considered, score, i);
      RankedEntry(posts, considered, score, j);
    }
  }

  /** The query of `updateHotPosts`: at most `CONSIDERED` stored published
      posts, newest first; a published post left out is no newer than all of
      them, and then `CONSIDERED` are taken. */
  method RecentPublished(posts: map<string, Post>) returns (considered: seq<Post>)
    ensures |considered| <= CONSIDERED
    ensures forall i :: 0 <= i < |considered| ==> considered[i] in posts.Values && Listed(considered[i])
    ensures forall i, j :: 0 <= i < j < |considered| ==>
              PostService.PublishedTime(considered[i]) >= PostService.PublishedTime(considered[j])
    ensures forall k :: k in posts && Listed(posts[k]) && posts[k] !in considered ==>
              |considered| == CONSIDERED &&
              forall i :: 0 <= i < |considered| ==>
                PostService.PublishedTime(considered[i]) >= PostService.PublishedTime(posts[k])
    ensures Query.Injective(posts) ==> Query.Distinct(considered)
  {
    var keys, docs := ListDocuments(posts);
    considered := Candidates(docs);
    CandidatesStored(posts, keys, docs, considered);
    CandidatesComplete(posts, keys, docs, considered);
    if Query.Injective(posts) {
      CandidatesOnce(posts, keys, docs, considered);
    }
  }

  /** updateHotPosts: takes the `CONSIDERED` most recently published posts,
      scores them, keeps the `KEPT` best, writes each kept post's score in
      one batch and stores the kept ids in `system/hotPosts`. Returns what
      the source holds in `posts` and `scoredPosts`. */
  method UpdateHotPosts(db: Database, score: Post -> int, now: int) returns (considered: seq<Post>, ranked: seq<Post>)
    requires db.Valid()
    modifies db`posts, db`system
    ensures db.Valid()
    ensures |considered| <= CONSIDERED
    ensures forall i :: 0 <= i < |considered| ==> considered[i] in old(db.posts).Values && Listed(considered[i])
    ensures forall i, j :: 0 <= i < j < |considered| ==>
              PostService.PublishedTime(considered[i]) >= PostService.PublishedTime(considered[j])
    ensures forall k :: k in old(db.posts) && Listed(old(db.posts)[k]) && old(db.posts)[k] !in considered ==>
              |considered| == CONSIDERED &&
              forall i :: 0 <= i < |considered| ==>
                PostService.PublishedTime(considered[i]) >= PostService.PublishedTime(old(db.posts)[k])
    ensures ranked == RankHot(WithScores(considered, score))
    ensures db.posts == Rescored(old(db.posts), ranked, now)
    ensures db.system == old(db.system)["hotPosts" := HotPosts(Ids(ranked), now)]
    ensures Query.Distinct(considered) && Query.Distinct(Ids(ranked))
  {
    Query.KeyedInjective(db.posts, (p: Post) => p.id);
    considered := RecentPublished(db.posts);
    ranked := RankHot(WithScores(considered, score));
    assert KeyedById(db.posts);
    RankedStored(db.posts, considered, score);
    HotIdsDistinct(db.posts, considered, score);
    ApplyHotScores(db, ranked, now);
    db.PutSystem("hotPosts", HotPosts(Ids(ranked), now));
  }
}
