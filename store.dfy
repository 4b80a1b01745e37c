/** The hosted document database as the services see it: one map per
    collection, keyed by document id. */
module Store {
  import opened Records
  import Query

  /** A post that is published carries the time it was published. */
  predicate PublishDated(p: Post) {
    p.status == PUBLISHED ==> p.metadata.publishedAt.Some?
  }

  /** A database that keeps its invariant stores no post, comment or
      interaction twice, so no query over it lists one twice. */
  lemma StoredOnce(db: Database)
    requires db.Valid()
    ensures Query.Injective(db.posts) && Query.Injective(db.comments)
    ensures Query.Injective(db.postInteractions) && Query.Injective(db.commentInteractions)
  {
    Query.KeyedInjective(db.posts, (p: Post) => p.id);
    Query.KeyedInjective(db.comments, (c: Comment) => c.id);
    Query.KeyedInjective(db.postInteractions, KeyOf);
    Query.KeyedInjective(db.commentInteractions, KeyOf);
  }

  class Database {
    var posts: map<string, Post>
    var revisions: map<string, Revision>
    var postInteractions: map<string, Interaction>
    var comments: map<string, Comment>
    var commentInteractions: map<string, Interaction>
    var postStats: map<string, StatsRecord>
    var system: map<string, SystemRecord>

    /** What every service operation keeps: posts, revisions and comments carry
        their own key as `id`, every revision names a stored post, every
        interaction is stored under its own key, and a published post has a
        publication time. */
    ghost predicate Valid()
      reads this
    {
      && (forall k :: k in posts ==> posts[k].id == k && PublishDated(posts[k]))
      && (forall k :: k in revisions ==> revisions[k].id == k && revisions[k].postId in posts)
      && (forall k :: k in comments ==> comments[k].id == k)
      && (forall k :: k in postInteractions ==> KeyOf(postInteractions[k]) == k)
      && (forall k :: k in commentInteractions ==> KeyOf(commentInteractions[k]) == k)
    }

    /** An empty database. */
    constructor ()
      ensures Valid()
      ensures posts == map[] && revisions == map[] && postInteractions == map[]
      ensures comments == map[] && commentInteractions == map[]
      ensures postStats == map[] && system == map[]
    {
      posts, revisions, postInteractions := map[], map[], map[];
      comments, commentInteractions := map[], map[];
      postStats, system := map[], map[];
    }

    /** `setDoc` or `updateDoc` of a whole post under its own key. */
    method PutPost(k: string, p: Post)
      requires Valid()
      requires p.id == k && PublishDated(p)
      modifies this`posts
      ensures posts == old(posts)[k := p]
      ensures Valid()
    {
      posts := posts[k := p];
    }

    /** `setDoc` or `updateDoc` of a whole comment under its own key. */
    method PutComment(k: string, c: Comment)
      requires Valid()
      requires c.id == k
      modifies this`comments
      ensures comments == old(comments)[k := c]
      ensures Valid()
    {
      comments := comments[k := c];
    }

    /** `setDoc` of a post interaction under its key. */
    method PutPostInteraction(x: Interaction)
      requires Valid()
      modifies this`postInteractions
      ensures postInteractions == old(postInteractions)[KeyOf(x) := x]
      ensures Valid()
    {
      postInteractions := postInteractions[KeyOf(x) := x];
    }

    /** `setDoc` of a comment interaction under its key. */
    method PutCommentInteraction(x: Interaction)
      requires Valid()
      modifies this`commentInteractions
      ensures commentInteractions == old(commentInteractions)[KeyOf(x) := x]
      ensures Valid()
    {
      commentInteractions := commentInteractions[KeyOf(x) := x];
    }

    /** `setDoc` of a `post_stats` record. */
    method PutStats(k: string, x: StatsRecord)
      requires Valid()
      modifies this`postStats
      ensures postStats == old(postStats)[k := x]
      ensures Valid()
    {
      postStats := postStats[k := x];
    }

    /** `setDoc` of a `system` record. */
    method PutSystem(k: string, x: SystemRecord)
      requires Valid()
      modifies this`system
      ensures system == old(system)[k := x]
      ensures Valid()
    {
      system := system[k := x];
    }

    /** `addDoc` on `post_revisions`: a new revision of a stored post under a
        fresh key. */
    method AddRevision(postId: string, content: string, authorId: string, createdAt: int, reason: string)
      returns (k: string)
      requires Valid()
      requires postId in posts
      modifies this`revisions
      ensures k !in old(revisions)
      ensures revisions == old(revisions)[k := Revision(k, postId, content, authorId, createdAt, reason)]
      ensures Valid()
    {
      k := NewKey(revisions.Keys);
      revisions := revisions[k := Revision(k, postId, content, authorId, createdAt, reason)];
    }
  }

  /** An id the store has not used in a collection with the given keys: the
      store generates document ids that do not collide with existing ones.
      This one is longer than every existing key. */
  method NewKey(keys: set<string>) returns (k: string)
    ensures k !in keys
  {
    var rest := keys;
    var n: nat := 0;
    while rest != {}
      invariant rest <= keys
      invariant forall y :: y in keys - rest ==> |y| < n
      decreases rest
    {
      var y :| y in rest;
      if |y| >= n {
        n := |y| + 1;
      }
      rest := rest - {y};
    }
    k := seq(n, _ => 'k');
    assert |k| == n;
  }

  /** The documents of a collection, each once, in the order the store lists
      them (left unspecified), with their keys. */
  method ListDocuments<V>(m: map<string, V>) returns (keys: seq<string>, docs: seq<V>)
    ensures |keys| == |docs|
    ensures forall i, j :: 0 <= i < j < |keys| ==> keys[i] != keys[j]
    ensures forall k :: k in m <==> k in keys
    ensures forall i :: 0 <= i < |keys| ==> keys[i] in m && docs[i] == m[keys[i]]
  {
    keys, docs := [], [];
    var rest := m.Keys;
    while rest != {}
      invariant rest <= m.Keys
      invariant |keys| == |docs|
      invariant forall i, j :: 0 <= i < j < |keys| ==> keys[i] != keys[j]
      invariant forall k :: k in m ==> (k in keys <==> k !in rest)
      invariant forall i :: 0 <= i < |keys| ==> keys[i] in m && docs[i] == m[keys[i]]
      decreases rest
    {
      var k :| k in rest;
      keys, docs := keys + [k], docs + [m[k]];
      rest := rest - {k};
    }
  }
}
