/** The comment repository: creating, editing and soft-deleting comments
    with the post's `commentCount` and the parent's `replyCount` kept up to
    date, the two paged readers, and likes on comments. */
module CommentService {
  import opened Records
  import Query
  import opened Store
  import InteractionRule

  /** The record createComment stores (`commentData`). */
  function NewComment(id: string, postId: string, userId: string, content: string,
                      parentId: Option<string>, now: int): Comment
  {
    Comment(id, postId, userId, content, parentId, 0, 0, now, now, ACTIVE, false)
  }

  /** A comment is a reply when its `parentId` is truthy. */
  predicate IsReply(c: Comment) {
    Present(c.parentId)
  }

  /** `comments` with the `replyCount` of `parentId` moved by `delta`. */
  function BumpReplies(comments: map<string, Comment>, parentId: string, delta: int): map<string, Comment>
    requires parentId in comments
  {
    comments[parentId := comments[parentId].(replyCount := comments[parentId].replyCount + delta)]
  }

  /** `posts` with the `commentCount` of `postId` moved by `delta`. */
  function BumpComments(posts: map<string, Post>, postId: string, delta: int): map<string, Post>
    requires postId in posts
  {
    posts[postId := posts[postId].(commentCount := posts[postId].commentCount + delta)]
  }

  /** createComment: stores the new comment under a fresh key, then raises
      the post's `commentCount`, then, for a reply, the parent's
      `replyCount`. Each step runs only when the one before succeeded; the
      store rejects an update of a missing post or parent. `c` is the stored
      record. */
  method CreateComment(db: Database, now: int, postId: string, userId: string, content: string,
                       parentId: Option<string> := None)
    returns (c: Comment, r: Outcome)
    requires db.Valid()
    modifies db`comments, db`posts
    ensures db.Valid()
    ensures c.id !in old(db.comments)
    ensures c == NewComment(c.id, postId, userId, content, parentId, now)
    ensures postId !in old(db.posts) ==>
              && r == Fail(NoDocumentToUpdate("posts", postId))
              && db.posts == old(db.posts)
              && db.comments == old(db.comments)[c.id := c]
    ensures postId in old(db.posts) ==> db.posts == BumpComments(old(db.posts), postId, 1)
    ensures postId in old(db.posts) && !Present(parentId) ==>
              r == Done && db.comments == old(db.comments)[c.id := c]
    ensures postId in old(db.posts) && Present(parentId) && parentId.value !in old(db.comments)[c.id := c] ==>
              && r == Fail(NoDocumentToUpdate("comments", parentId.value))
              && db.comments == old(db.comments)[c.id := c]
    ensures postId in old(db.posts) && Present(parentId) && parentId.value in old(db.comments)[c.id := c] ==>
              r == Done && db.comments == BumpReplies(old(db.comments)[c.id := c], parentId.value, 1)
  {
    ghost var posts0 := db.posts;
    var id := NewKey(db.comments.Keys);
    c := NewComment(id, postId, userId, content, parentId, now);
    db.PutComment(id, c);
    ghost var comments1 := db.comments;
    if postId !in db.posts {
      return c, Fail(NoDocumentToUpdate("posts", postId));
    }
    db.PutPost(postId, db.posts[postId].(commentCount := db.posts[postId].commentCount + 1));
    assert db.posts == BumpComments(posts0, postId, 1);
    if Present(parentId) {
      var pid := parentId.value;
      if pid !in db.comments {
        return c, Fail(NoDocumentToUpdate("comments", pid));
      }
      db.PutComment(pid, db.comments[pid].(replyCount := db.comments[pid].replyCount + 1));
      assert db.comments == BumpReplies(comments1, pid, 1);
    }
    r := Done;
  }

  /** updateComment: replaces the content, stamps `updatedAt` and marks the
      comment edited; a missing comment is rejected by the store. */
  method UpdateComment(db: Database, now: int, commentId: string, content: string) returns (r: Outcome)
    requires db.Valid()
    modifies db`comments
    ensures db.Valid()
    ensures commentId !in old(db.comments) ==>
              r == Fail(NoDocumentToUpdate("comments", commentId)) && db.comments == old(db.comments)
    ensures commentId in old(db.comments) ==>
              && r == Done
              && db.comments == old(db.comments)[commentId :=
                   old(db.comments)[commentId].(content := content, updatedAt := now, isEdited := true)]
  {
    if commentId !in db.comments {
      return Fail(NoDocumentToUpdate("comments", commentId));
    }
    var c := db.comments[commentId];
    db.PutComment(commentId, c.(content := content, updatedAt := now, isEdited := true));
    r := Done;
  }

  /** The comment after deleteComment's first write. */
  function SoftDeleted(c: Comment, now: int): Comment {
    c.(status := DELETED, updatedAt := now)
  }

  /** deleteComment: a soft delete. An unknown comment is rejected and
      nothing changes. Otherwise the record is kept with status `deleted`,
      then the post's `commentCount` drops by one, then, for a reply, the
      parent's `replyCount` drops by one. Nothing checks whether the comment
      was already deleted. */
  method DeleteComment(db: Database, now: int, commentId: string) returns (r: Outcome)
    requires db.Valid()
    modifies db`comments, db`posts
    ensures db.Valid()
    ensures commentId !in old(db.comments) ==>
              r == Fail(CommentNotFound) && db.comments == old(db.comments) && db.posts == old(db.posts)
    ensures commentId in old(db.comments) ==>
              var c := old(db.comments)[commentId];
              var after := old(db.comments)[commentId := SoftDeleted(c, now)];
              && (c.postId !in old(db.posts) ==>
                    r == Fail(NoDocumentToUpdate("posts", c.postId)) && db.posts == old(db.posts) && db.comments == after)
              && (c.postId in old(db.posts) ==> db.posts == BumpComments(old(db.posts), c.postId, -1))
              && (c.postId in old(db.posts) && !IsReply(c) ==> r == Done && db.comments == after)
              && (c.postId in old(db.posts) && IsReply(c) && c.parentId.value !in after ==>
                    r == Fail(NoDocumentToUpdate("comments", c.parentId.value)) && db.comments == after)
              && (c.postId in old(db.posts) && IsReply(c) && c.parentId.value in after ==>
                    r == Done && db.comments == BumpReplies(after, c.parentId.value, -1))
  {
    if commentId !in db.comments {
      return Fail(CommentNotFound);
    }
    var c := db.comments[commentId];
    db.PutComment(commentId, SoftDeleted(c, now));
    if c.postId !in db.posts {
      return Fail(NoDocumentToUpdate("posts", c.postId));
    }
    db.PutPost(c.postId, db.posts[c.postId].(commentCount := db.posts[c.postId].commentCount - 1));
    if IsReply(c) {
      var pid := c.parentId.value;
      if pid !in db.comments {
        return Fail(NoDocumentToUpdate("comments", pid));
      }
      db.PutComment(pid, db.comments[pid].(replyCount := db.comments[pid].replyCount - 1));
    }
    r := Done;
  }

  /** handleCommentInteraction: the same existence rule as for posts, on the
      comment's `likeCount`. */
  method HandleCommentInteraction(db: Database, now: int, commentId: string, userId: string, kind: string)
    returns (r: Outcome)
    requires db.Valid()
    modifies db`commentInteractions, db`comments
    ensures db.Valid()
    ensures var (m, delta) := InteractionRule.Interact(old(db.commentInteractions), commentId, userId, kind, now);
      && db.commentInteractions == m
      && (kind != LIKE ==> r == Done && db.comments == old(db.comments))
      && (kind == LIKE && commentId !in old(db.comments) ==>
            r == Fail(NoDocumentToUpdate("comments", commentId)) && db.comments == old(db.comments))
      && (kind == LIKE && commentId in old(db.comments) ==>
            r == Done &&
            db.comments == old(db.comments)[commentId :=
              old(db.comments)[commentId].(likeCount := old(db.comments)[commentId].likeCount + delta)])
  {
    var delta := InteractionRule.Delta(db.commentInteractions, commentId, userId, kind);
    db.PutCommentInteraction(InteractionRule.Written(db.commentInteractions, commentId, userId, kind, now));
    if kind == LIKE {
      if commentId !in db.comments {
        return Fail(NoDocumentToUpdate("comments", commentId));
      }
      var c := db.comments[commentId];
      db.PutComment(commentId, c.(likeCount := c.likeCount + delta));
    }
    r := Done;
  }

  /** Creating a comment on a post and then deleting it leaves the post's
      `commentCount`, and the parent's `replyCount` for a reply, where they
      were; the comment itself stays, marked deleted. */
  method CreateThenDelete(db: Database, t1: int, t2: int, postId: string, userId: string, content: string,
                          parentId: Option<string>)
    requires db.Valid()
    requires postId in db.posts
    requires Present(parentId) ==> parentId.value in db.comments
    modifies db`comments, db`posts
    ensures db.Valid()
    ensures postId in db.posts && db.posts[postId].commentCount == old(db.posts)[postId].commentCount
    ensures Present(parentId) ==>
              parentId.value in db.comments &&
              db.comments[parentId.value].replyCount == old(db.comments)[parentId.value].replyCount
    ensures exists k :: k in db.comments && k !in old(db.comments) && db.comments[k].status == DELETED
  {
    var c, r1 := CreateComment(db, t1, postId, userId, content, parentId);
    var r2 := DeleteComment(db, t2, c.id);
    assert db.comments[c.id].status == DELETED;
  }

  // ----- Readers ------------------------------------------------------------

  /** An active top-level comment of `postId`, after the cursor if one is
      given (newest first, so strictly older than it). */
  predicate TopLevelOf(c: Comment, postId: string, cursor: Option<Comment>) {
    && c.postId == postId && c.parentId.None? && c.status == ACTIVE
    && (cursor.Some? ==> c.createdAt < cursor.value.createdAt)
  }

  /** An active reply to `commentId`, after the cursor if one is given
      (oldest first, so strictly newer than it). */
  predicate ReplyOf(c: Comment, commentId: string, cursor: Option<Comment>) {
    && c.parentId == Some(commentId) && c.status == ACTIVE
    && (cursor.Some? ==> c.createdAt > cursor.value.createdAt)
  }

  /** The filter of getPostComments. */
  function TopLevelFilter(postId: string, cursor: Option<Comment>): Comment -> bool {
    (c: Comment) => TopLevelOf(c, postId, cursor)
  }

  /** The filter of getCommentReplies. */
  function ReplyFilter(commentId: string, cursor: Option<Comment>): Comment -> bool {
    (c: Comment) => ReplyOf(c, commentId, cursor)
  }

  /** `orderBy('createdAt', 'desc')`. */
  function NewestFirst(c: Comment): Query.Key {
    Query.Key(c.createdAt, 0)
  }

  /** `orderBy('createdAt', 'asc')`. */
  function OldestFirst(c: Comment): Query.Key {
    Query.Key(-c.createdAt, 0)
  }

  /** The query of getPostComments: at most `n` of the post's active
      top-level comments after the cursor, and none twice when no comment is
      stored twice. TopLevelSelected and TopLevelLeftOut say which. */
  ghost function TopLevelPage(comments: map<string, Comment>, postId: string, cursor: Option<Comment>, n: nat)
    : (r: seq<Comment>)
    ensures |r| <= n
    ensures Query.Injective(comments) ==> Query.Distinct(r)
  {
    Query.SelectFrom(comments, TopLevelFilter(postId, cursor), NewestFirst, n)
  }

  /** The page holds stored active top-level comments of the post after the
      cursor, newest first. */
  lemma TopLevelSelected(comments: map<string, Comment>, postId: string, cursor: Option<Comment>, n: nat)
    ensures var r := TopLevelPage(comments, postId, cursor, n);
      && (forall i :: 0 <= i < |r| ==> r[i] in comments.Values && TopLevelOf(r[i], postId, cursor))
      && (forall i, j :: 0 <= i < j < |r| ==> r[i].createdAt >= r[j].createdAt)
  {
    var r := TopLevelPage(comments, postId, cursor, n);
    assert r == Query.SelectFrom(comments, TopLevelFilter(postId, cursor), NewestFirst, n);
    forall i | 0 <= i < |r| ensures r[i] in comments.Values && TopLevelOf(r[i], postId, cursor) {
      assert TopLevelFilter(postId, cursor)(r[i]);
    }
    forall i, j | 0 <= i < j < |r| ensures r[i].createdAt >= r[j].createdAt {
      assert Query.Geq(NewestFirst(r[i]), NewestFirst(r[j]));
    }
  }

  /** An active top-level comment of the post after the cursor that the page
      leaves out is no newer than every comment on it, and the page is full. */
  lemma TopLevelLeftOut(comments: map<string, Comment>, postId: string, cursor: Option<Comment>, n: nat)
    ensures var r := TopLevelPage(comments, postId, cursor, n);
      forall k :: k in comments && TopLevelOf(comments[k], postId, cursor) && comments[k] !in r ==>
        |r| == n && forall i :: 0 <= i < |r| ==> r[i].createdAt >= comments[k].createdAt
  {
    var r := TopLevelPage(comments, postId, cursor, n);
    assert r == Query.SelectFrom(comments, TopLevelFilter(postId, cursor), NewestFirst, n);
    forall k | k in comments && TopLevelOf(comments[k], postId, cursor) && comments[k] !in r
      ensures |r| == n && forall i :: 0 <= i < |r| ==> r[i].createdAt >= comments[k].createdAt
    {
      var c := comments[k];
      assert TopLevelFilter(postId, cursor)(c);
      forall i | 0 <= i < |r| ensures r[i].createdAt >= c.createdAt {
        assert Query.Geq(NewestFirst(r[i]), NewestFirst(c));
      }
    }
  }

  /** The query of getCommentReplies: at most `n` of the comment's active
      replies after the cursor, and none twice when no comment is stored
      twice. ReplySelected and ReplyLeftOut say which. */
  ghost function ReplyPage(comments: map<string, Comment>, commentId: string, cursor: Option<Comment>, n: nat)
    : (r: seq<Comment>)
    ensures |r| <= n
    ensures Query.Injective(comments) ==> Query.Distinct(r)
  {
    Query.SelectFrom(comments, ReplyFilter(commentId, cursor), OldestFirst, n)
  }

  /** The page holds stored active replies to the comment after the cursor,
      oldest first. */
  lemma ReplySelected(comments: map<string, Comment>, commentId: string, cursor: Option<Comment>, n: nat)
    ensures var r := ReplyPage(comments, commentId, cursor, n);
      && (forall i :: 0 <= i < |r| ==> r[i] in comments.Values && ReplyOf(r[i], commentId, cursor))
      && (forall i, j :: 0 <= i < j < |r| ==> r[i].createdAt <= r[j].createdAt)
  {
    var r := ReplyPage(comments, commentId, cursor, n);
    assert r == Query.SelectFrom(comments, ReplyFilter(commentId, cursor), OldestFirst, n);
    forall i | 0 <= i < |r| ensures r[i] in comments.Values && ReplyOf(r[i], commentId, cursor) {
      assert ReplyFilter(commentId, cursor)(r[i]);
    }
    forall i, j | 0 <= i < j < |r| ensures r[i].createdAt <= r[j].createdAt {
      assert Query.Geq(OldestFirst(r[i]), OldestFirst(r[j]));
    }
  }

  /** An active reply after the cursor that the page leaves out is no older
      than every reply on it, and the page is full. */
  lemma ReplyLeftOut(comments: map<string, Comment>, commentId: string, cursor: Option<Comment>, n: nat)
    ensures var r := ReplyPage(comments, commentId, cursor, n);
      forall k :: k in comments && ReplyOf(comments[k], commentId, cursor) && comments[k] !in r ==>
        |r| == n && forall i :: 0 <= i < |r| ==> r[i].createdAt <= comments[k].createdAt
  {
    var r := ReplyPage(comments, commentId, cursor, n);
    assert r == Query.SelectFrom(comments, ReplyFilter(commentId, cursor), OldestFirst, n);
    forall k | k in comments && ReplyOf(comments[k], commentId, cursor) && comments[k] !in r
      ensures |r| == n && forall i :: 0 <= i < |r| ==> r[i].createdAt <= comments[k].createdAt
    {
      var c := comments[k];
      assert ReplyFilter(commentId, cursor)(c);
      forall i | 0 <= i < |r| ensures r[i].createdAt <= c.createdAt {
        assert Query.Geq(OldestFirst(r[i]), OldestFirst(c));
      }
    }
  }

  /** getPostComments: a page of at most `pageSize` comments; a page size
      below one is rejected. */
  ghost function GetPostComments(comments: map<string, Comment>, postId: string,
                                 lastComment: Option<Comment> := None, pageSize: int := 20)
    : (r: Result<seq<Comment>>)
    ensures r.Success? <==> pageSize >= 1
    ensures r.Success? ==> r.value == TopLevelPage(comments, postId, lastComment, pageSize)
    ensures r.Success? && Query.Injective(comments) ==> Query.Distinct(r.value)
  {
    match Query.PageLimit(pageSize)
    case Failure(e) => Failure(e)
    case Success(n) => Success(TopLevelPage(comments, postId, lastComment, n))
  }

  /** getCommentReplies: a page of at most `pageSize` replies; a page size
      below one is rejected. */
  ghost function GetCommentReplies(comments: map<string, Comment>, commentId: string,
                                   lastReply: Option<Comment> := None, pageSize: int := 10)
    : (r: Result<seq<Comment>>)
    ensures r.Success? <==> pageSize >= 1
    ensures r.Success? ==> r.value == ReplyPage(comments, commentId, lastReply, pageSize)
    ensures r.Success? && Query.Injective(comments) ==> Query.Distinct(r.value)
  {
    match Query.PageLimit(pageSize)
    case Failure(e) => Failure(e)
    case Success(n) => Success(ReplyPage(comments, commentId, lastReply, n))
  }
}
