/** The read side of `post_interactions`: a user's bookmarks, likes and
    history, one page at a time, whether a user has an active record, and a
    post's active like and bookmark counts. */
module InteractionService {
  import opened Records
  import Query
  import InteractionRule

  /** An active record of `userId`, of type `kind` when one is given, after
      the cursor if one is given (newest first, so strictly older than it). */
  predicate UserActive(x: Interaction, userId: string, kind: Option<string>, cursor: Option<Interaction>) {
    && x.userId == userId && (kind.Some? ==> x.kind == kind.value) && x.active
    && (cursor.Some? ==> x.createdAt < cursor.value.createdAt)
  }

  /** The filter of the three paged readers. */
  function UserFilter(userId: string, kind: Option<string>, cursor: Option<Interaction>): Interaction -> bool {
    (x: Interaction) => UserActive(x, userId, kind, cursor)
  }

  /** `orderBy('createdAt', 'desc')`. */
  function LatestFirst(x: Interaction): Query.Key {
    Query.Key(x.createdAt, 0)
  }

  /** The query of the three paged readers: at most `n` of the user's
      matching records, and none twice when no record is stored twice.
      UserSelected, UserLeftOut and UserRoom say which. */
  ghost function UserPage(m: map<string, Interaction>, userId: string, kind: Option<string>,
                          cursor: Option<Interaction>, n: nat)
    : (r: seq<Interaction>)
    ensures |r| <= n
    ensures Query.Injective(m) ==> Query.Distinct(r)
  {
    Query.SelectFrom(m, UserFilter(userId, kind, cursor), LatestFirst, n)
  }

  /** The page holds stored matching records of the user, newest first. */
  lemma UserSelected(m: map<string, Interaction>, userId: string, kind: Option<string>,
                     cursor: Option<Interaction>, n: nat)
    ensures var r := UserPage(m, userId, kind, cursor, n);
      && (forall i :: 0 <= i < |r| ==> r[i] in m.Values && UserActive(r[i], userId, kind, cursor))
      && (forall i, j :: 0 <= i < j < |r| ==> r[i].createdAt >= r[j].createdAt)
  {
    var r := UserPage(m, userId, kind, cursor, n);
    assert r == Query.SelectFrom(m, UserFilter(userId, kind, cursor), LatestFirst, n);
    forall i | 0 <= i < |r| ensures r[i] in m.Values && UserActive(r[i], userId, kind, cursor) {
      assert UserFilter(userId, kind, cursor)(r[i]);
    }
    forall i, j | 0 <= i < j < |r| ensures r[i].createdAt >= r[j].createdAt {
      assert Query.Geq(LatestFirst(r[i]), LatestFirst(r[j]));
    }
  }

  /** A matching record the page leaves out is no newer than every record on
      it, and the page is full. */
  lemma UserLeftOut(m: map<string, Interaction>, userId: string, kind: Option<string>,
                    cursor: Option<Interaction>, n: nat)
    ensures var r := UserPage(m, userId, kind, cursor, n);
      forall k :: k in m && UserActive(m[k], userId, kind, cursor) && m[k] !in r ==>
        |r| == n && forall i :: 0 <= i < |r| ==> r[i].createdAt >= m[k].createdAt
  {
    var r := UserPage(m, userId, kind, cursor, n);
    assert r == Query.SelectFrom(m, UserFilter(userId, kind, cursor), LatestFirst, n);
    forall k | k in m && UserActive(m[k], userId, kind, cursor) && m[k] !in r
      ensures |r| == n && forall i :: 0 <= i < |r| ==> r[i].createdAt >= m[k].createdAt
    {
      var x := m[k];
      assert UserFilter(userId, kind, cursor)(x);
      forall i | 0 <= i < |r| ensures r[i].createdAt >= x.createdAt {
        assert Query.Geq(LatestFirst(r[i]), LatestFirst(x));
      }
    }
  }

  /** A page with room for every matching record, or one that is not full,
      holds every matching record. */
  lemma UserRoom(m: map<string, Interaction>, userId: string, kind: Option<string>,
                 cursor: Option<Interaction>, n: nat)
    ensures var r := UserPage(m, userId, kind, cursor, n);
      && (n >= Query.MapCount(m, UserFilter(userId, kind, cursor)) ==>
            forall k :: k in m && UserActive(m[k], userId, kind, cursor) ==> m[k] in r)
      && (n > |r| ==> forall k :: k in m && UserActive(m[k], userId, kind, cursor) ==> m[k] in r)
  {
    var r := UserPage(m, userId, kind, cursor, n);
    assert r == Query.SelectFrom(m, UserFilter(userId, kind, cursor), LatestFirst, n);
    forall k | k in m && UserActive(m[k], userId, kind, cursor)
      ensures n >= Query.MapCount(m, UserFilter(userId, kind, cursor)) ==> m[k] in r
      ensures n > |r| ==> m[k] in r
    {
      assert UserFilter(userId, kind, cursor)(m[k]);
    }
  }

  /** getUserBookmarks: a page of at most `pageSize` of the user's active
      bookmarks, newest first; a page size below one is rejected. */
  ghost function GetUserBookmarks(m: map<string, Interaction>, userId: string,
                                  lastBookmark: Option<Interaction> := None, pageSize: int := 20)
    : (r: Result<seq<Interaction>>)
    ensures r.Success? <==> pageSize >= 1
    ensures r.Success? ==> r.value == UserPage(m, userId, Some(BOOKMARK), lastBookmark, pageSize)
    ensures r.Success? && Query.Injective(m) ==> Query.Distinct(r.value)
    ensures r.Success? ==> forall i :: 0 <= i < |r.value| ==>
              r.value[i].kind == BOOKMARK && r.value[i].userId == userId && r.value[i].active
  {
    match Query.PageLimit(pageSize)
    case Failure(e) => Failure(e)
    case Success(n) =>
      UserSelected(m, userId, Some(BOOKMARK), lastBookmark, n);
      Success(UserPage(m, userId, Some(BOOKMARK), lastBookmark, n))
  }

  /** getUserLikes: the same for the user's active likes. */
  ghost function GetUserLikes(m: map<string, Interaction>, userId: string,
                              lastLike: Option<Interaction> := None, pageSize: int := 20)
    : (r: Result<seq<Interaction>>)
    ensures r.Success? <==> pageSize >= 1
    ensures r.Success? ==> r.value == UserPage(m, userId, Some(LIKE), lastLike, pageSize)
    ensures r.Success? && Query.Injective(m) ==> Query.Distinct(r.value)
    ensures r.Success? ==> forall i :: 0 <= i < |r.value| ==>
              r.value[i].kind == LIKE && r.value[i].userId == userId && r.value[i].active
  {
    match Query.PageLimit(pageSize)
    case Failure(e) => Failure(e)
    case Success(n) =>
      UserSelected(m, userId, Some(LIKE), lastLike, n);
      Success(UserPage(m, userId, Some(LIKE), lastLike, n))
  }

  /** getUserInteractionHistory: the same for the user's active records of
      any type. */
  ghost function GetUserInteractionHistory(m: map<string, Interaction>, userId: string,
                                           lastInteraction: Option<Interaction> := None, pageSize: int := 20)
    : (r: Result<seq<Interaction>>)
    ensures r.Success? <==> pageSize >= 1
    ensures r.Success? ==> r.value == UserPage(m, userId, None, lastInteraction, pageSize)
    ensures r.Success? && Query.Injective(m) ==> Query.Distinct(r.value)
    ensures r.Success? ==> forall i :: 0 <= i < |r.value| ==> r.value[i].userId == userId && r.value[i].active
  {
    match Query.PageLimit(pageSize)
    case Failure(e) => Failure(e)
    case Success(n) =>
      UserSelected(m, userId, None, lastInteraction, n);
      Success(UserPage(m, userId, None, lastInteraction, n))
  }

  /** The three readers as written: `startAfter` is called but never
      imported, so a call with a cursor throws once the query is built
      (after `limit` has checked the page size). */
  ghost function CursorPageAsWritten(m: map<string, Interaction>, userId: string, kind: Option<string>,
                                     cursor: Option<Interaction>, pageSize: int)
    : (r: Result<seq<Interaction>>)
    ensures pageSize < 1 ==> r == Failure(InvalidLimit(pageSize))
  {
    match Query.PageLimit(pageSize)
    case Failure(e) => Failure(e)
    case Success(n) =>
      if cursor.Some? then Failure(Unbound("startAfter")) else Success(UserPage(m, userId, kind, None, n))
  }

  /** As written, no page after the first can be fetched, while the first
      page is the one the corrected readers return. */
  lemma CursorPageThrows(m: map<string, Interaction>, userId: string, last: Interaction, pageSize: int)
    requires pageSize >= 1
    ensures CursorPageAsWritten(m, userId, Some(BOOKMARK), Some(last), pageSize) == Failure(Unbound("startAfter"))
    ensures GetUserBookmarks(m, userId, Some(last), pageSize).Success?
    ensures CursorPageAsWritten(m, userId, Some(BOOKMARK), None, pageSize) == GetUserBookmarks(m, userId, None, pageSize)
    ensures CursorPageAsWritten(m, userId, Some(LIKE), None, pageSize) == GetUserLikes(m, userId, None, pageSize)
    ensures CursorPageAsWritten(m, userId, None, None, pageSize) == GetUserInteractionHistory(m, userId, None, pageSize)
  {
  }

  /** Bookmarks and likes are both part of the history: a history page that
      has room holds every bookmark and every like of the user. */
  lemma HistoryHoldsBookmarksAndLikes(m: map<string, Interaction>, userId: string, n: nat, k: string)
    requires k in m && m[k].userId == userId && m[k].active && (m[k].kind == LIKE || m[k].kind == BOOKMARK)
    requires n >= Query.MapCount(m, UserFilter(userId, None, None))
    ensures m[k] in UserPage(m, userId, None, None, n)
  {
    UserRoom(m, userId, None, None, n);
    assert UserActive(m[k], userId, None, None);
  }

  /** checkUserInteraction: a record exists under the user's key for the post
      and type, and it is active. */
  function CheckUserInteraction(m: map<string, Interaction>, postId: string, userId: string, kind: string): (r: bool)
    ensures r ==> InteractionKey(postId, userId, kind) in m
  {
    var key := InteractionKey(postId, userId, kind);
    key in m && m[key].active
  }

  /** The answer right after a `handlePostInteraction` call for the same
      post, user and type: yes exactly when no record existed before it. */
  lemma CheckAfterInteract(m: map<string, Interaction>, postId: string, userId: string, kind: string, now: int)
    ensures CheckUserInteraction(InteractionRule.Interact(m, postId, userId, kind, now).0, postId, userId, kind)
            <==> InteractionKey(postId, userId, kind) !in m
  {
  }

  /** After n >= 1 calls starting from no record the answer is yes only for
      n == 1; once a record exists, any further call makes it no. */
  lemma CheckAfterRepeat(m: map<string, Interaction>, postId: string, userId: string, kind: string, times: seq<int>)
    requires |times| >= 1
    ensures InteractionKey(postId, userId, kind) !in m ==>
              (CheckUserInteraction(InteractionRule.Repeat(m, postId, userId, kind, times).0, postId, userId, kind)
               <==> |times| == 1)
    ensures InteractionKey(postId, userId, kind) in m ==>
              !CheckUserInteraction(InteractionRule.Repeat(m, postId, userId, kind, times).0, postId, userId, kind)
  {
    if InteractionKey(postId, userId, kind) !in m {
      InteractionRule.RepeatFromAbsent(m, postId, userId, kind, times);
    } else {
      InteractionRule.RepeatOnExisting(m, postId, userId, kind, times);
    }
  }

  /** The two counts `getPostInteractionStats` returns. */
  datatype InteractionStats = InteractionStats(likeCount: nat, bookmarkCount: nat)

  /** getPostInteractionStats: the number of active `like` and of active
      `bookmark` records of the post. */
  function GetPostInteractionStats(m: map<string, Interaction>, postId: string): (r: InteractionStats)
    ensures r.likeCount + r.bookmarkCount <= |m|
  {
    Query.DisjointCounts(m, InteractionRule.ActiveOn(postId, LIKE), InteractionRule.ActiveOn(postId, BOOKMARK));
    InteractionStats(Query.MapCount(m, InteractionRule.ActiveOn(postId, LIKE)),
                     Query.MapCount(m, InteractionRule.ActiveOn(postId, BOOKMARK)))
  }

  /** The count of `kind` in the stats. */
  function CountOf(s: InteractionStats, kind: string): nat {
    if kind == LIKE then s.likeCount else s.bookmarkCount
  }

  /** An active record found by `checkUserInteraction` is counted: the
      post's count of that type is at least one. */
  lemma CheckedIsCounted(m: map<string, Interaction>, postId: string, userId: string, kind: string)
    requires kind == LIKE || kind == BOOKMARK
    requires var key := InteractionKey(postId, userId, kind);
      key in m ==> m[key].subjectId == postId && m[key].kind == kind
    requires CheckUserInteraction(m, postId, userId, kind)
    ensures CountOf(GetPostInteractionStats(m, postId), kind) >= 1
  {
    var key := InteractionKey(postId, userId, kind);
    var keep := InteractionRule.ActiveOn(postId, kind);
    assert keep(m[key]);
    Query.CountSplit(m, key, keep);
  }

  /** One `handlePostInteraction` call of a like or bookmark type moves that
      type's count by +1 when no record existed, by -1 when an active one
      existed and not at all when an inactive one existed; the other type's
      count does not move. */
  lemma StatsAfterInteract(m: map<string, Interaction>, postId: string, userId: string, kind: string, now: int)
    requires kind == LIKE || kind == BOOKMARK
    requires var key := InteractionKey(postId, userId, kind);
      key in m ==> m[key].subjectId == postId && m[key].kind == kind
    ensures var key := InteractionKey(postId, userId, kind);
      var before := GetPostInteractionStats(m, postId);
      var after := GetPostInteractionStats(InteractionRule.Interact(m, postId, userId, kind, now).0, postId);
      && CountOf(after, kind) == CountOf(before, kind) + (if key !in m then 1 else if m[key].active then -1 else 0)
      && CountOf(after, if kind == LIKE then BOOKMARK else LIKE) == CountOf(before, if kind == LIKE then BOOKMARK else LIKE)
  {
    var key := InteractionKey(postId, userId, kind);
    var m1 := InteractionRule.Interact(m, postId, userId, kind, now).0;
    var other := if kind == LIKE then BOOKMARK else LIKE;
    assert m1 == m[key := m1[key]];
    Query.CountAfterWrite(m, key, m1[key], InteractionRule.ActiveOn(postId, kind));
    Query.CountAfterWrite(m, key, m1[key], InteractionRule.ActiveOn(postId, other));
  }
}
