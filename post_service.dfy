/** The post repository: summary, reading time and tag helpers, saving a
    post (insert, or overwrite plus a revision), reading a post (which counts
    a view), the draft and published listings, status changes, and likes and
    bookmarks on posts. */
module PostService {
  import opened Records
  import opened Text
  import Query
  import opened Store
  import InteractionRule

  // ----- Pure helpers -------------------------------------------------------

  /** The content with Markdown markers removed, then trimmed. */
  function PlainText(content: string): string {
    Trim(StripMarkup(content))
  }

  /** The plain text has no markers and no white space at its ends. */
  lemma PlainTextIsPlain(content: string)
    ensures NoEdgeSpace(PlainText(content))
    ensures forall i :: 0 <= i < |PlainText(content)| ==> !IsMarkup(PlainText(content)[i])
  {
    var s := StripMarkup(content);
    var r := Trim(s);
    forall i | 0 <= i < |r| ensures !IsMarkup(r[i]) {
      TrimChars(s, r[i]);
      StripMarkupChars(content, r[i]);
    }
  }

  /** generateSummary: the plain text, cut to its first `limit` characters
      followed by "..." when it is longer than `limit`. */
  function Summary(content: string, limit: nat := 200): string {
    var text := PlainText(content);
    if |text| > limit then text[..limit] + "..." else text
  }

  /** A summary fits in `limit + 3` characters, has no markers and no white
      space at its ends, and is the plain text itself or its first `limit`
      characters marked as cut. */
  lemma SummaryShape(content: string, limit: nat)
    ensures var r := Summary(content, limit);
      && |r| <= limit + 3
      && (forall i :: 0 <= i < |r| ==> !IsMarkup(r[i]))
      && NoEdgeSpace(r)
      && (|PlainText(content)| <= limit ==> r == PlainText(content))
      && (|PlainText(content)| > limit ==>
            |r| == limit + 3 && r[..limit] == PlainText(content)[..limit] && r[limit..] == "...")
  {
    PlainTextIsPlain(content);
    var text := PlainText(content);
    if |text| > limit {
      CutShape(text, limit);
    }
  }

  /** The cut form of a plain text: its first `limit` characters then "...",
      which keeps the text free of markers and of white space at its ends. */
  lemma CutShape(text: string, limit: nat)
    requires |text| > limit
    requires NoEdgeSpace(text)
    requires forall i :: 0 <= i < |text| ==> !IsMarkup(text[i])
    ensures var r := text[..limit] + "...";
      && |r| == limit + 3 && r[..limit] == text[..limit] && r[limit..] == "..."
      && (forall i :: 0 <= i < |r| ==> !IsMarkup(r[i]))
      && NoEdgeSpace(r)
  {
    var r := text[..limit] + "...";
    forall i | 0 <= i < |r| ensures !IsMarkup(r[i]) {
      if i < limit {
        assert r[i] == text[i];
      } else {
        assert r[i] == '.';
      }
    }
    assert r[|r| - 1] == '.';
    if limit > 0 {
      assert r[0] == text[0];
    } else {
      assert r[0] == '.';
    }
  }

  /** A summary is its own summary. */
  lemma SummaryIsStable(content: string, limit: nat)
    ensures Summary(Summary(content, limit), limit + 3) == Summary(content, limit)
  {
    var r := Summary(content, limit);
    SummaryShape(content, limit);
    StripMarkupKeeps(r);
    TrimKeeps(r);
    assert PlainText(r) == r;
  }

  /** `Math.ceil(n / 300)` for n >= 1, counted out in steps of 300. */
  function Minutes(n: nat): (r: nat)
    ensures r >= 1
  {
    if n <= 300 then 1 else 1 + Minutes(n - 300)
  }

  /** Minutes rounds the division by 300 up. */
  lemma {:induction false} MinutesIsCeiling(n: nat)
    requires n >= 1
    ensures (Minutes(n) - 1) * 300 < n <= Minutes(n) * 300
  {
    if n > 300 {
      MinutesIsCeiling(n - 300);
    }
  }

  /** calculateReadingTime: `Math.ceil(n / 300)` where n is the number of
      pieces `content.trim().split(/\s+/)` yields, never below one. */
  function ReadingTime(content: string): (r: nat)
    ensures r >= 1
  {
    Minutes(SplitSpaceCount(Trim(content)))
  }

  /** Reading time is a minute per started 300 words, and one minute when the
      content is empty or blank. */
  lemma ReadingTimeCountsWords(content: string)
    ensures var words := WordRuns(Trim(content));
      && (words == 0 ==> ReadingTime(content) == 1)
      && (words > 0 ==> (ReadingTime(content) - 1) * 300 < words <= ReadingTime(content) * 300)
  {
    var t := Trim(content);
    SplitSpaceCountIsWords(t);
    MinutesIsCeiling(SplitSpaceCount(t));
    if t != [] {
      assert !IsSpace(t[0]);
      RunsAlternate(t);
    }
  }

  /** The non-empty trimmed pieces, in order. */
  function CleanTags(pieces: seq<string>): seq<string> {
    if pieces == [] then []
    else
      var t := Trim(pieces[0]);
      (if t == "" then [] else [t]) + CleanTags(pieces[1..])
  }

  /** Every cleaned tag is non-empty and has no white space at its ends. */
  lemma {:induction false} CleanTagsTrimmed(pieces: seq<string>)
    ensures forall i :: 0 <= i < |CleanTags(pieces)| ==> CleanTags(pieces)[i] != "" && NoEdgeSpace(CleanTags(pieces)[i])
  {
    if pieces != [] {
      CleanTagsTrimmed(pieces[1..]);
      TrimmedCons(Trim(pieces[0]), CleanTags(pieces[1..]), CleanTags(pieces));
    }
  }

  /** Putting a trimmed piece, if non-empty, in front of non-empty trimmed
      tags gives non-empty trimmed tags. */
  lemma TrimmedCons(t: string, rest: seq<string>, r: seq<string>)
    requires NoEdgeSpace(t)
    requires forall i :: 0 <= i < |rest| ==> rest[i] != "" && NoEdgeSpace(rest[i])
    requires r == (if t == "" then [] else [t]) + rest
    ensures forall i :: 0 <= i < |r| ==> r[i] != "" && NoEdgeSpace(r[i])
  {
    var head: seq<string> := if t == "" then [] else [t];
    forall i | 0 <= i < |r| ensures r[i] != "" && NoEdgeSpace(r[i]) {
      if i < |head| {
        assert r[i] == t;
      } else {
        assert r[i] == rest[i - |head|];
      }
    }
  }

  /** A character no piece holds is in no cleaned tag. */
  lemma {:induction false} CleanTagsAvoid(pieces: seq<string>, c: char)
    requires forall j :: 0 <= j < |pieces| ==> c !in pieces[j]
    ensures forall i :: 0 <= i < |CleanTags(pieces)| ==> c !in CleanTags(pieces)[i]
  {
    if pieces != [] {
      var t := Trim(pieces[0]);
      assert c !in pieces[0];
      TrimChars(pieces[0], c);
      AvoidTail(pieces, c);
      CleanTagsAvoid(pieces[1..], c);
      AvoidCons(t, CleanTags(pieces[1..]), CleanTags(pieces), c);
    }
  }

  /** The tail of a list of pieces that avoid a character avoids it too. */
  lemma AvoidTail(pieces: seq<string>, c: char)
    requires pieces != []
    requires forall j :: 0 <= j < |pieces| ==> c !in pieces[j]
    ensures forall j :: 0 <= j < |pieces[1..]| ==> c !in pieces[1..][j]
  {
    forall j | 0 <= j < |pieces[1..]| ensures c !in pieces[1..][j] {
      assert pieces[1..][j] == pieces[j + 1];
    }
  }

  /** Putting a piece without the character, if non-empty, in front of a
      list of pieces without it gives a list of pieces without it. */
  lemma AvoidCons(t: string, rest: seq<string>, r: seq<string>, c: char)
    requires c !in t
    requires forall i :: 0 <= i < |rest| ==> c !in rest[i]
    requires r == (if t == "" then [] else [t]) + rest
    ensures forall i :: 0 <= i < |r| ==> c !in r[i]
  {
    var head: seq<string> := if t == "" then [] else [t];
    forall i | 0 <= i < |head| ensures c !in head[i] {
      assert head[i] == t;
    }
    AvoidConcat(head, rest, c);
  }

  /** Two lists of pieces that avoid a character concatenate to one that does. */
  lemma AvoidConcat(a: seq<string>, b: seq<string>, c: char)
    requires forall i :: 0 <= i < |a| ==> c !in a[i]
    requires forall i :: 0 <= i < |b| ==> c !in b[i]
    ensures forall i :: 0 <= i < |a + b| ==> c !in (a + b)[i]
  {
    forall i | 0 <= i < |a + b| ensures c !in (a + b)[i] {
      if i < |a| {
        assert (a + b)[i] == a[i];
      } else {
        assert (a + b)[i] == b[i - |a|];
      }
    }
  }

  /** The tag chain of savePost: `tags.split(',').map(trim).filter(nonempty)`.
      Every tag is non-empty, has no white space at its ends and no comma. */
  function ParseTags(tags: string): seq<string> {
    CleanTags(Split(tags, ','))
  }

  /** Every parsed tag is non-empty, has no white space at its ends and no
      comma. */
  lemma ParseTagsWellFormed(tags: string)
    ensures forall i :: 0 <= i < |ParseTags(tags)| ==>
              ParseTags(tags)[i] != "" && NoEdgeSpace(ParseTags(tags)[i]) && ',' !in ParseTags(tags)[i]
  {
    var pieces := Split(tags, ',');
    SplitPieces(tags, ',');
    CleanTagsTrimmed(pieces);
    CleanTagsAvoid(pieces, ',');
  }

  /** Well-formed tags are a fixed point of CleanTags. */
  lemma {:induction false} CleanTagsKeeps(tags: seq<string>)
    requires forall i :: 0 <= i < |tags| ==> tags[i] != "" && NoEdgeSpace(tags[i])
    ensures CleanTags(tags) == tags
  {
    if tags != [] {
      TrimKeeps(tags[0]);
      CleanTagsKeeps(tags[1..]);
    }
  }

  /** Joining well-formed tags with commas and parsing the result gives the
      same tags, in the same order. */
  lemma ParseJoinedTags(tags: seq<string>)
    requires forall i :: 0 <= i < |tags| ==> tags[i] != "" && NoEdgeSpace(tags[i]) && ',' !in tags[i]
    ensures ParseTags(Join(tags, ',')) == tags
  {
    if tags == [] {
      assert Join(tags, ',') == "";
      assert CleanTags([""]) == [];
    } else {
      SplitJoin(tags, ',');
      CleanTagsKeeps(tags);
      assert ParseTags(Join(tags, ',')) == CleanTags(tags);
    }
  }

  /** Parsing is idempotent: parsing the comma-join of parsed tags changes nothing. */
  lemma ParseTagsIdempotent(tags: string)
    ensures ParseTags(Join(ParseTags(tags), ',')) == ParseTags(tags)
  {
    ParseTagsWellFormed(tags);
    ParseJoinedTags(ParseTags(tags));
  }

  // ----- Saving a post ------------------------------------------------------

  /** The fields savePost reads from `postData`. `coverUrl` stands for the
      URL the cover upload returned (None when there was no cover file). */
  datatype PostInput = PostInput(
    id: Option<string>,
    title: string,
    content: string,
    category: string,
    tags: string,
    coverUrl: Option<string>)

  /** The record savePost builds (`postToSave`). `html` is the rendered and
      sanitised Markdown of the content. */
  function Built(postId: string, data: PostInput, html: string, userId: string, isDraft: bool, now: int): Post {
    var tags := ParseTags(data.tags);
    Post(
      id := postId,
      title := data.title,
      content := data.content,
      contentHtml := html,
      summary := Summary(data.content),
      category := data.category,
      tags := tags,
      authorId := userId,
      status := if isDraft then DRAFT else PUBLISHED,
      coverImage := data.coverUrl,
      metadata := Metadata(
        wordCount := |data.content|,
        readingTime := ReadingTime(data.content),
        lastEditedAt := now,
        updatedAt := now,
        createdAt := if Present(data.id) then None else Some(now),
        publishedAt := if isDraft then None else Some(now),
        lastHotScoreUpdate := None),
      viewCount := 0,
      likeCount := 0,
      commentCount := 0,
      featured := false,
      seo := Seo(Summary(data.content, 160), tags + [data.category], data.coverUrl),
      hotScore := None,
      bookmarkCount := None)
  }

  /** A built post starts with no views, likes or comments; it is a draft
      or published as asked, carries a creation time only when it is new and
      a publication time only when published, and its SEO keywords are its
      tags followed by its category. */
  lemma BuiltShape(postId: string, data: PostInput, html: string, userId: string, isDraft: bool, now: int)
    ensures var p := Built(postId, data, html, userId, isDraft, now);
      && p.id == postId
      && p.status == (if isDraft then DRAFT else PUBLISHED)
      && p.viewCount == 0 && p.likeCount == 0 && p.commentCount == 0
      && (p.metadata.createdAt.Some? <==> !Present(data.id))
      && (p.metadata.publishedAt.Some? <==> !isDraft)
      && p.metadata.updatedAt == now && p.metadata.lastEditedAt == now
      && p.seo.keywords == p.tags + [data.category]
      && PublishDated(p)
  {
  }

  /** `updateDoc(postRef, updateData)` writes every field of `saved` but `id`;
      the fields it does not name keep their stored values. */
  function Overwritten(stored: Post, saved: Post): Post {
    saved.(id := stored.id, hotScore := stored.hotScore, bookmarkCount := stored.bookmarkCount)
  }

  /** Saving an existing post writes the built record's zero counters and
      its whole `metadata` over the stored ones: views, likes and comments
      go back to 0 and the creation time is dropped; only the hot score and
      bookmark count survive. */
  lemma EditResetsCounters(stored: Post, postId: string, data: PostInput, html: string, userId: string,
                           isDraft: bool, now: int)
    requires Present(data.id)
    ensures var q := Overwritten(stored, Built(postId, data, html, userId, isDraft, now));
      && q.viewCount == 0 && q.likeCount == 0 && q.commentCount == 0
      && q.metadata.createdAt.None? && q.metadata.lastHotScoreUpdate.None?
      && q.hotScore == stored.hotScore && q.bookmarkCount == stored.bookmarkCount
      && q.id == stored.id
  {
  }

  /** `after` is `before` with exactly one revision added, under a fresh key. */
  ghost predicate OneNewRevision(before: map<string, Revision>, after: map<string, Revision>,
                                 postId: string, content: string, userId: string, now: int, reason: string)
  {
    exists k :: k in after && k !in before && after == before[k := after[k]]
                && after[k] == Revision(k, postId, content, userId, now, reason)
  }

  /** The writes of savePost for the record `saved` it built: an insert when
      there is no id, otherwise an overwrite (rejected when the post is
      missing) followed by one new revision. */
  method WritePost(db: Database, id: Option<string>, saved: Post, content: string, userId: string, now: int, reason: string)
    returns (r: Result<Post>)
    requires db.Valid()
    requires PublishDated(saved)
    requires Present(id) ==> saved.id == id.value
    requires !Present(id) ==> saved.id !in db.posts
    modifies db`posts, db`revisions
    ensures db.Valid()
    ensures r.Success? ==> r.value == saved
    ensures !Present(id) ==>
              && r.Success?
              && db.posts == old(db.posts)[saved.id := saved]
              && db.revisions == old(db.revisions)
    ensures Present(id) && id.value !in old(db.posts) ==>
              && r == Failure(NoDocumentToUpdate("posts", id.value))
              && db.posts == old(db.posts) && db.revisions == old(db.revisions)
    ensures Present(id) && id.value in old(db.posts) ==>
              && r.Success?
              && db.posts == old(db.posts)[id.value := Overwritten(old(db.posts)[id.value], saved)]
              && OneNewRevision(old(db.revisions), db.revisions, id.value, content, userId, now, reason)
  {
    if !Present(id) {
      db.PutPost(saved.id, saved);
    } else {
      if saved.id !in db.posts {
        return Failure(NoDocumentToUpdate("posts", saved.id));
      }
      db.PutPost(saved.id, Overwritten(db.posts[saved.id], saved));
      var revisionId := db.AddRevision(saved.id, content, userId, now, reason);
      assert db.revisions[revisionId] == Revision(revisionId, saved.id, content, userId, now, reason);
    }
    r := Success(saved);
  }

  /** savePost. Without an id, inserts the built record under a fresh key and
      writes no revision. With an id, overwrites the stored post (the store
      rejects this when there is none) and appends one revision. */
  method SavePost(db: Database, now: int, html: string, data: PostInput, userId: string, isDraft: bool := true)
    returns (r: Result<Post>)
    requires db.Valid()
    modifies db`posts, db`revisions
    ensures db.Valid()
    ensures r.Success? ==> r.value == Built(r.value.id, data, html, userId, isDraft, now)
    ensures !Present(data.id) ==>
              && r.Success?
              && r.value.id !in old(db.posts)
              && db.posts == old(db.posts)[r.value.id := r.value]
              && db.revisions == old(db.revisions)
    ensures Present(data.id) && data.id.value !in old(db.posts) ==>
              && r == Failure(NoDocumentToUpdate("posts", data.id.value))
              && db.posts == old(db.posts) && db.revisions == old(db.revisions)
    ensures Present(data.id) && data.id.value in old(db.posts) ==>
              && r.Success? && r.value.id == data.id.value
              && db.posts == old(db.posts)[data.id.value := Overwritten(old(db.posts)[data.id.value], r.value)]
              && OneNewRevision(old(db.revisions), db.revisions, data.id.value, data.content, userId, now,
                                if isDraft then REASON_DRAFT else REASON_PUBLISH)
  {
    var postId: string;
    if Present(data.id) {
      postId := data.id.value;
    } else {
      postId := NewKey(db.posts.Keys);
    }
    var saved := Built(postId, data, html, userId, isDraft, now);
    BuiltShape(postId, data, html, userId, isDraft, now);
    r := WritePost(db, data.id, saved, data.content, userId, now, if isDraft then REASON_DRAFT else REASON_PUBLISH);
  }

  // ----- Reading posts ------------------------------------------------------

  /** getPost: the stored post as it was read, before its view is counted;
      an unknown id is rejected and nothing changes. */
  method GetPost(db: Database, postId: string) returns (r: Result<Post>)
    requires db.Valid()
    modifies db`posts
    ensures db.Valid()
    ensures postId !in old(db.posts) ==> r == Failure(PostNotFound) && db.posts == old(db.posts)
    ensures postId in old(db.posts) ==>
              && r == Success(old(db.posts)[postId])
              && db.posts == old(db.posts)[postId := r.value.(viewCount := r.value.viewCount + 1)]
  {
    if postId !in db.posts {
      return Failure(PostNotFound);
    }
    var post := db.posts[postId];
    db.PutPost(postId, post.(viewCount := post.viewCount + 1));
    r := Success(post);
  }

  predicate DraftOf(p: Post, userId: string) {
    p.authorId == userId && p.status == DRAFT
  }

  /** `metadata.publishedAt`, for ordering; 0 when absent. */
  function PublishedTime(p: Post): int {
    if p.metadata.publishedAt.Some? then p.metadata.publishedAt.value else 0
  }

  /** A published post of the user that has the ordering field. */
  predicate PublishedOf(p: Post, userId: string) {
    p.authorId == userId && p.status == PUBLISHED && p.metadata.publishedAt.Some?
  }

  /** getDrafts: every draft of the user, each once, latest update first. */
  ghost function GetDrafts(posts: map<string, Post>, userId: string): (r: seq<Post>)
    ensures forall i :: 0 <= i < |r| ==> r[i] in posts.Values && DraftOf(r[i], userId)
    ensures forall i, j :: 0 <= i < j < |r| ==> r[i].metadata.updatedAt >= r[j].metadata.updatedAt
    ensures forall k :: k in posts && DraftOf(posts[k], userId) ==> posts[k] in r
    ensures |r| == Query.MapCount(posts, (p: Post) => DraftOf(p, userId))
  {
    Query.SelectAllFrom(posts, (p: Post) => DraftOf(p, userId), (p: Post) => Query.Key(p.metadata.updatedAt, 0))
  }

  /** getPublishedPosts: every published post of the user, each once, latest
      publication first. */
  ghost function GetPublishedPosts(posts: map<string, Post>, userId: string): (r: seq<Post>)
    ensures forall i :: 0 <= i < |r| ==> r[i] in posts.Values && PublishedOf(r[i], userId)
    ensures forall i, j :: 0 <= i < j < |r| ==> PublishedTime(r[i]) >= PublishedTime(r[j])
    ensures forall k :: k in posts && PublishedOf(posts[k], userId) ==> posts[k] in r
    ensures |r| == Query.MapCount(posts, (p: Post) => PublishedOf(p, userId))
  {
    Query.SelectAllFrom(posts, (p: Post) => PublishedOf(p, userId), (p: Post) => Query.Key(PublishedTime(p), 0))
  }

  // ----- Status and interactions --------------------------------------------

  /** updatePostStatus: sets `status`, and `metadata.publishedAt` only when the
      new status is published; nothing else changes. */
  method UpdatePostStatus(db: Database, postId: string, status: string, now: int) returns (r: Outcome)
    requires db.Valid()
    modifies db`posts
    ensures db.Valid()
    ensures postId !in old(db.posts) ==>
              r == Fail(NoDocumentToUpdate("posts", postId)) && db.posts == old(db.posts)
    ensures postId in old(db.posts) ==>
              var p := old(db.posts)[postId];
              && r == Done
              && db.posts == old(db.posts)[postId := p.(
                   status := status,
                   metadata := if status == PUBLISHED then p.metadata.(publishedAt := Some(now)) else p.metadata)]
  {
    if postId !in db.posts {
      return Fail(NoDocumentToUpdate("posts", postId));
    }
    var p := db.posts[postId];
    var metadata := if status == PUBLISHED then p.metadata.(publishedAt := Some(now)) else p.metadata;
    db.PutPost(postId, p.(status := status, metadata := metadata));
    r := Done;
  }

  /** handlePostInteraction: writes the interaction record (active only if
      none existed), then for a like moves the post's `likeCount` by the
      rule's change; the store rejects that step for a missing post, after
      the record is written. */
  method HandlePostInteraction(db: Database, postId: string, userId: string, kind: string, now: int)
    returns (r: Outcome)
    requires db.Valid()
    modifies db`postInteractions, db`posts
    ensures db.Valid()
    ensures var (m, delta) := InteractionRule.Interact(old(db.postInteractions), postId, userId, kind, now);
      && db.postInteractions == m
      && (kind != LIKE ==> r == Done && db.posts == old(db.posts))
      && (kind == LIKE && postId !in old(db.posts) ==>
            r == Fail(NoDocumentToUpdate("posts", postId)) && db.posts == old(db.posts))
      && (kind == LIKE && postId in old(db.posts) ==>
            r == Done &&
            db.posts == old(db.posts)[postId := old(db.posts)[postId].(likeCount := old(db.posts)[postId].likeCount + delta)])
  {
    var delta := InteractionRule.Delta(db.postInteractions, postId, userId, kind);
    db.PutPostInteraction(InteractionRule.Written(db.postInteractions, postId, userId, kind, now));
    if kind == LIKE {
      if postId !in db.posts {
        return Fail(NoDocumentToUpdate("posts", postId));
      }
      var p := db.posts[postId];
      db.PutPost(postId, p.(likeCount := p.likeCount + delta));
    }
    r := Done;
  }

  /** Three likes by one user on a post they had never liked leave its
      `likeCount` one below where it started, and the record inactive. */
  method LikeThreeTimes(db: Database, postId: string, userId: string, t1: int, t2: int, t3: int)
    requires db.Valid()
    requires postId in db.posts
    requires InteractionKey(postId, userId, LIKE) !in db.postInteractions
    modifies db`postInteractions, db`posts
    ensures db.Valid()
    ensures postId in db.posts && db.posts[postId].likeCount == old(db.posts)[postId].likeCount - 1
    ensures InteractionKey(postId, userId, LIKE) in db.postInteractions
    ensures !db.postInteractions[InteractionKey(postId, userId, LIKE)].active
  {
    var key := InteractionKey(postId, userId, LIKE);
    var r1 := HandlePostInteraction(db, postId, userId, LIKE, t1);
    var r2 := HandlePostInteraction(db, postId, userId, LIKE, t2);
    var r3 := HandlePostInteraction(db, postId, userId, LIKE, t3);
  }
}
