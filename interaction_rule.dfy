/** The rule both `handlePostInteraction` and `handleCommentInteraction`
    follow: they look only at whether a record exists under
    `${subject}_${user}_${type}`, never at its `active` flag. */
module InteractionRule {
  import opened Records
  import Query

  /** The record `setDoc` writes: active only when no record existed. */
  function Written(m: map<string, Interaction>, subjectId: string, userId: string, kind: string, now: int)
    : Interaction
  {
    Interaction(subjectId, userId, kind, now, InteractionKey(subjectId, userId, kind) !in m)
  }

  /** The change to the subject's `likeCount`: 0 for any type other than
      `like`, -1 when a record existed, +1 otherwise. */
  function Delta(m: map<string, Interaction>, subjectId: string, userId: string, kind: string): int {
    if kind != LIKE then 0 else if InteractionKey(subjectId, userId, kind) in m then -1 else 1
  }

  /** The collection after the write, and the change applied to the subject's
      `likeCount`. */
  function Interact(m: map<string, Interaction>, subjectId: string, userId: string, kind: string, now: int)
    : (r: (map<string, Interaction>, int))
    ensures var key := InteractionKey(subjectId, userId, kind);
      && r.0.Keys == m.Keys + {key}
      && (forall k :: k in m && k != key ==> r.0[k] == m[k])
      && r.0[key].subjectId == subjectId && r.0[key].userId == userId && r.0[key].kind == kind
      && r.0[key].createdAt == now
      && (r.0[key].active <==> key !in m)
      && r.1 == (if kind != LIKE then 0 else if key in m then -1 else 1)
  {
    var x := Written(m, subjectId, userId, kind, now);
    (m[KeyOf(x) := x], Delta(m, subjectId, userId, kind))
  }

  /** Successive calls for the same subject, user and type, at the given
      times: the final collection and the summed change to `likeCount`. */
  function Repeat(m: map<string, Interaction>, subjectId: string, userId: string, kind: string, times: seq<int>)
    : (map<string, Interaction>, int)
    decreases |times|
  {
    if times == [] then (m, 0)
    else
      var (m1, d1) := Interact(m, subjectId, userId, kind, times[0]);
      var (m2, d2) := Repeat(m1, subjectId, userId, kind, times[1..]);
      (m2, d1 + d2)
  }

  /** Once a record exists, every further call lowers a like count by one and
      leaves the record inactive: there is no way back to active, and no
      floor at zero. */
  lemma {:induction false} RepeatOnExisting(m: map<string, Interaction>, subjectId: string, userId: string, kind: string, times: seq<int>)
    requires InteractionKey(subjectId, userId, kind) in m
    ensures var r := Repeat(m, subjectId, userId, kind, times);
      && InteractionKey(subjectId, userId, kind) in r.0
      && (times != [] ==> !r.0[InteractionKey(subjectId, userId, kind)].active)
      && (times == [] ==> r.0 == m)
      && r.1 == (if kind == LIKE then -|times| else 0)
    decreases |times|
  {
    if times != [] {
      var (m1, d1) := Interact(m, subjectId, userId, kind, times[0]);
      RepeatOnExisting(m1, subjectId, userId, kind, times[1..]);
    }
  }

  /** From no record, n >= 1 calls change a like count by 2 - n in total: +1,
      then -1 per later call. So two calls cancel out, but three calls give -1
      where one call gave +1; the record is active only after the first. */
  lemma {:induction false} RepeatFromAbsent(m: map<string, Interaction>, subjectId: string, userId: string, kind: string, times: seq<int>)
    requires InteractionKey(subjectId, userId, kind) !in m
    requires |times| >= 1
    ensures var r := Repeat(m, subjectId, userId, kind, times);
      && InteractionKey(subjectId, userId, kind) in r.0
      && (r.0[InteractionKey(subjectId, userId, kind)].active <==> |times| == 1)
      && r.1 == (if kind == LIKE then 2 - |times| else 0)
  {
    var (m1, d1) := Interact(m, subjectId, userId, kind, times[0]);
    RepeatOnExisting(m1, subjectId, userId, kind, times[1..]);
  }

  /** Records of `subjectId` and `kind` that are active: what
      `getPostInteractionStats` counts. */
  function ActiveOn(subjectId: string, kind: string): Interaction -> bool {
    (x: Interaction) => x.subjectId == subjectId && x.kind == kind && x.active
  }

  /** The number of active `like` records of a subject. */
  function ActiveLikes(m: map<string, Interaction>, subjectId: string): nat {
    Query.MapCount(m, ActiveOn(subjectId, LIKE))
  }

  /** A like call moves the stored counter and the number of active like
      records together exactly when it does not hit an already inactive
      record; on such a record the counter drops but the active count stays. */
  lemma InteractKeepsCountInStep(m: map<string, Interaction>, subjectId: string, userId: string, now: int)
    requires var key := InteractionKey(subjectId, userId, LIKE);
      key in m ==> m[key].subjectId == subjectId && m[key].kind == LIKE
    ensures var key := InteractionKey(subjectId, userId, LIKE);
      var r := Interact(m, subjectId, userId, LIKE, now);
      (ActiveLikes(r.0, subjectId) == ActiveLikes(m, subjectId) + r.1) <==> !(key in m && !m[key].active)
  {
    var key := InteractionKey(subjectId, userId, LIKE);
    var r := Interact(m, subjectId, userId, LIKE, now);
    assert r.0 == m[key := r.0[key]];
    Query.CountAfterWrite(m, key, r.0[key], ActiveOn(subjectId, LIKE));
  }
}
