/** The documents the services store, one datatype per collection, and the
    error values the services raise. Field names follow the stored documents. */
module Records {

  datatype Option<+T> = None | Some(value: T)

  /** Why an operation was rejected. */
  datatype Error =
    | PostNotFound                                      // getPost on an unknown id
    | CommentNotFound                                   // deleteComment on an unknown id
    | NoDocumentToUpdate(collection: string, key: string) // updateDoc on an absent document
    | InvalidLimit(pageSize: int)                       // query limit(n) with n < 1
    | Unbound(name: string)                             // a call of a name the module never imports

  datatype Result<+T> = Success(value: T) | Failure(error: Error)

  /** The outcome of an operation that returns nothing on success. */
  datatype Outcome = Done | Fail(error: Error)

  const DRAFT := "draft"
  const PUBLISHED := "published"
  const ACTIVE := "active"
  const DELETED := "deleted"
  const LIKE := "like"
  const BOOKMARK := "bookmark"

  /** Revision reasons: "save draft" and "update published post". */
  const REASON_DRAFT := "保存草稿"
  const REASON_PUBLISH := "更新发布"

  /** `metadata` of a post. Absent optional fields are `None`. */
  datatype Metadata = Metadata(
    wordCount: nat,
    readingTime: nat,
    lastEditedAt: int,
    updatedAt: int,
    createdAt: Option<int>,
    publishedAt: Option<int>,
    lastHotScoreUpdate: Option<int>)

  datatype Seo = Seo(description: string, keywords: seq<string>, ogImage: Option<string>)

  /** A document of `posts`. `hotScore` and `bookmarkCount` are only ever
      written by the stats service; the score is kept abstract as an int. */
  datatype Post = Post(
    id: string,
    title: string,
    content: string,
    contentHtml: string,
    summary: string,
    category: string,
    tags: seq<string>,
    authorId: string,
    status: string,
    coverImage: Option<string>,
    metadata: Metadata,
    viewCount: int,
    likeCount: int,
    commentCount: int,
    featured: bool,
    seo: Seo,
    hotScore: Option<int>,
    bookmarkCount: Option<int>)

  /** A document of `post_revisions`. */
  datatype Revision = Revision(
    id: string,
    postId: string,
    content: string,
    authorId: string,
    createdAt: int,
    reason: string)

  /** A document of `post_interactions` (subject = postId) or of
      `comment_interactions` (subject = commentId). */
  datatype Interaction = Interaction(
    subjectId: string,
    userId: string,
    kind: string,
    createdAt: int,
    active: bool)

  /** A document of `comments`. `isEdited` is false until updateComment. */
  datatype Comment = Comment(
    id: string,
    postId: string,
    userId: string,
    content: string,
    parentId: Option<string>,
    likeCount: int,
    replyCount: int,
    createdAt: int,
    updatedAt: int,
    status: string,
    isEdited: bool)

  /** The counters a caller of updatePostStats may pass. */
  datatype Stats = Stats(
    viewCount: Option<int>,
    likeCount: Option<int>,
    commentCount: Option<int>,
    bookmarkCount: Option<int>)

  /** A document of `post_stats`. */
  datatype StatsRecord = StatsRecord(
    viewCount: Option<int>,
    likeCount: Option<int>,
    commentCount: Option<int>,
    bookmarkCount: Option<int>,
    updatedAt: Option<int>)

  /** The document `system/hotPosts`. */
  datatype SystemRecord = HotPosts(posts: seq<string>, updatedAt: int)

  /** The document key of an interaction: `${subject}_${user}_${type}`. */
  function InteractionKey(subjectId: string, userId: string, kind: string): string {
    subjectId + "_" + userId + "_" + kind
  }

  /** The key a stored interaction belongs under. */
  function KeyOf(i: Interaction): string {
    InteractionKey(i.subjectId, i.userId, i.kind)
  }

  /** JavaScript truthiness of an optional id: null and "" are both false. */
  predicate Present(id: Option<string>) {
    id.Some? && id.value != ""
  }
}
