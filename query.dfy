/** What a document-store query does to a collection: keep the documents
    that pass every `where` (and the `startAfter` cursor), order them by the
    `orderBy` fields, and keep the first `limit`. */
module Query {
  import opened Records

  /** The value of up to two `orderBy` fields; a query on one field leaves
      `minor` at 0. Compared lexicographically. */
  datatype Key = Key(major: int, minor: int)

  predicate Geq(a: Key, b: Key) {
    a.major > b.major || (a.major == b.major && a.minor >= b.minor)
  }

  /** Ordered by `rank`, first field descending, ties by the second descending. */
  predicate SortedDesc<T>(s: seq<T>, rank: T -> Key) {
    forall i, j :: 0 <= i < j < |s| ==> Geq(rank(s[i]), rank(s[j]))
  }

  function Min(a: nat, b: nat): nat {
    if a <= b then a else b
  }

  /** The documents of `s` that pass `keep`, in their order. */
  function Filter<T>(s: seq<T>, keep: T -> bool): (r: seq<T>)
    ensures forall i :: 0 <= i < |r| ==> keep(r[i])
    ensures multiset(r) <= multiset(s)
  {
    if s == [] then []
    else
      assert s == [s[0]] + s[1..];
      (if keep(s[0]) then [s[0]] else []) + Filter(s[1..], keep)
  }

  /** Every passing document of `s` is kept. */
  lemma {:induction false} FilterKeeps<T>(s: seq<T>, keep: T -> bool, j: nat)
    requires j < |s| && keep(s[j])
    ensures s[j] in Filter(s, keep)
  {
    if j > 0 {
      FilterKeeps(s[1..], keep, j - 1);
    }
  }

  /** Inserts `x` before the first element it is not below, so that among
      equal keys the earlier input comes first. */
  function Insert<T>(x: T, s: seq<T>, rank: T -> Key): (r: seq<T>)
    requires SortedDesc(s, rank)
    ensures SortedDesc(r, rank)
    ensures multiset(r) == multiset(s) + multiset{x}
  {
    if s == [] || Geq(rank(x), rank(s[0])) then
      [x] + s
    else
      var t := Insert(x, s[1..], rank);
      assert s == [s[0]] + s[1..];
      AboveAll(s[0], x, s[1..], t, rank);
      [s[0]] + t
  }

  /** A key at or above `x` and every element of `s` is at or above every
      element of a permutation of `s + [x]`. */
  lemma AboveAll<T>(h: T, x: T, s: seq<T>, t: seq<T>, rank: T -> Key)
    requires Geq(rank(h), rank(x))
    requires forall i :: 0 <= i < |s| ==> Geq(rank(h), rank(s[i]))
    requires multiset(t) == multiset(s) + multiset{x}
    ensures forall j :: 0 <= j < |t| ==> Geq(rank(h), rank(t[j]))
  {
    forall j | 0 <= j < |t| ensures Geq(rank(h), rank(t[j])) {
      assert t[j] in multiset(t);
      if t[j] != x {
        assert t[j] in multiset(s);
        var i :| 0 <= i < |s| && s[i] == t[j];
      }
    }
  }

  /** A stable sort, highest key first (a JavaScript `Array.prototype.sort`
      with a descending comparator, or a store `orderBy(..., 'desc')`). */
  function SortDesc<T>(s: seq<T>, rank: T -> Key): (r: seq<T>)
    ensures SortedDesc(r, rank)
    ensures multiset(r) == multiset(s)
  {
    if s == [] then []
    else
      assert s == [s[0]] + s[1..];
      Insert(s[0], SortDesc(s[1..], rank), rank)
  }

  /** `slice(0, n)` / `limit(n)`. */
  function Take<T>(s: seq<T>, n: nat): (r: seq<T>)
    ensures |r| == Min(n, |s|) && r == s[..|r|]
  {
    if n >= |s| then s else s[..n]
  }

  /** The query over a listing `docs`: filter, order, limit. The result is the
      `limit` highest-ranked documents that pass `keep`, ordered. */
  function Select<T>(docs: seq<T>, keep: T -> bool, rank: T -> Key, limit: nat): (r: seq<T>)
    ensures |r| == Min(limit, |Filter(docs, keep)|)
    ensures forall i :: 0 <= i < |r| ==> keep(r[i])
    ensures SortedDesc(r, rank)
    ensures multiset(r) <= multiset(docs)
    ensures forall j :: 0 <= j < |docs| && keep(docs[j]) && docs[j] !in r ==>
              |r| == limit && forall i :: 0 <= i < |r| ==> Geq(rank(r[i]), rank(docs[j]))
    ensures limit >= |Filter(docs, keep)| ==> forall j :: 0 <= j < |docs| && keep(docs[j]) ==> docs[j] in r
  {
    var f := Filter(docs, keep);
    var sorted := SortDesc(f, rank);
    var r := Take(sorted, limit);
    assert |sorted| == |f| by {
      assert |multiset(sorted)| == |multiset(f)|;
    }
    PrefixOfPermutation(f, sorted, r, keep);
    SelectTop(docs, keep, rank, limit, f, sorted);
    TakeAll(docs, keep, limit, f, sorted);
    r
  }

  /** With room for all, every passing document is selected. */
  lemma TakeAll<T>(docs: seq<T>, keep: T -> bool, limit: nat, f: seq<T>, sorted: seq<T>)
    requires f == Filter(docs, keep)
    requires multiset(sorted) == multiset(f) && |sorted| == |f|
    ensures limit >= |f| ==> forall j :: 0 <= j < |docs| && keep(docs[j]) ==> docs[j] in Take(sorted, limit)
  {
    if limit >= |f| {
      assert Take(sorted, limit) == sorted;
      forall j | 0 <= j < |docs| && keep(docs[j]) ensures docs[j] in sorted {
        FilterKeeps(docs, keep, j);
        assert docs[j] in multiset(sorted);
      }
    }
  }

  /** Whatever passes but is not selected ranks at or below all that is. */
  lemma SelectTop<T>(docs: seq<T>, keep: T -> bool, rank: T -> Key, limit: nat, f: seq<T>, sorted: seq<T>)
    requires f == Filter(docs, keep)
    requires SortedDesc(sorted, rank) && multiset(sorted) == multiset(f)
    ensures forall j :: 0 <= j < |docs| && keep(docs[j]) && docs[j] !in Take(sorted, limit) ==>
              |Take(sorted, limit)| == limit &&
              forall i :: 0 <= i < |Take(sorted, limit)| ==> Geq(rank(Take(sorted, limit)[i]), rank(docs[j]))
  {
    forall j | 0 <= j < |docs| && keep(docs[j]) && docs[j] !in Take(sorted, limit)
      ensures |Take(sorted, limit)| == limit
      ensures forall i :: 0 <= i < |Take(sorted, limit)| ==> Geq(rank(Take(sorted, limit)[i]), rank(docs[j]))
    {
      var t := Take(sorted, limit);
      FilterKeeps(docs, keep, j);
      assert docs[j] in multiset(sorted);
      BelowPrefix(sorted, limit, docs[j], rank);
      forall i | 0 <= i < |t| ensures Geq(rank(t[i]), rank(docs[j])) {
        assert t[i] == sorted[i];
      }
    }
  }

  /** A prefix of a permutation of passing documents holds only passing ones. */
  lemma PrefixOfPermutation<T>(f: seq<T>, sorted: seq<T>, r: seq<T>, keep: T -> bool)
    requires forall i :: 0 <= i < |f| ==> keep(f[i])
    requires multiset(sorted) == multiset(f)
    requires |r| <= |sorted| && r == sorted[..|r|]
    ensures multiset(r) <= multiset(f)
    ensures forall i :: 0 <= i < |r| ==> keep(r[i])
  {
    assert sorted == r + sorted[|r|..];
    forall i | 0 <= i < |r| ensures keep(r[i]) {
      assert r[i] in multiset(f);
      var j :| 0 <= j < |f| && f[j] == r[i];
    }
  }

  /** An element of a sorted sequence left out of its first `n` ranks at or
      below all of them. */
  lemma BelowPrefix<T>(sorted: seq<T>, n: nat, x: T, rank: T -> Key)
    requires SortedDesc(sorted, rank)
    requires x in multiset(sorted)
    requires x !in Take(sorted, n)
    ensures |Take(sorted, n)| == n
    ensures forall i :: 0 <= i < n ==> Geq(rank(sorted[i]), rank(x))
  {
    var j :| 0 <= j < |sorted| && sorted[j] == x;
  }

  /** The number of documents of a collection that pass `keep`: a query's `size`. */
  function MapCount<T>(m: map<string, T>, keep: T -> bool): (r: nat)
    ensures r <= |m|
  {
    var passing := set k | k in m.Keys && keep(m[k]);
    assert passing <= m.Keys;
    SubsetSize(passing, m.Keys);
    |passing|
  }

  /** Two filters no document passes together count at most the whole
      collection between them. */
  lemma DisjointCounts<T>(m: map<string, T>, a: T -> bool, b: T -> bool)
    requires forall k :: k in m ==> !(a(m[k]) && b(m[k]))
    ensures MapCount(m, a) + MapCount(m, b) <= |m|
  {
    var pa := set k | k in m.Keys && a(m[k]);
    var pb := set k | k in m.Keys && b(m[k]);
    assert pa * pb == {};
    assert |pa + pb| == |pa| + |pb|;
    SubsetSize(pa + pb, m.Keys);
  }

  /** A subset is no larger than its superset. */
  lemma {:induction false} SubsetSize<K>(a: set<K>, b: set<K>)
    requires a <= b
    ensures |a| <= |b|
    decreases b
  {
    if a != {} {
      var x :| x in a;
      SubsetSize(a - {x}, b - {x});
    }
  }

  /** Some key of a non-empty collection. */
  ghost function Pick<T>(m: map<string, T>): string
    requires m != map[]
  {
    var k :| k in m; k
  }

  /** The documents of a collection in the order the store lists them; the
      order is left unspecified. */
  ghost function Snapshot<T>(m: map<string, T>): (r: seq<T>)
    ensures |r| == |m|
    ensures forall i :: 0 <= i < |r| ==> r[i] in m.Values
    decreases m.Keys
  {
    if m == map[] then []
    else
      var k := Pick(m);
      var rest := m - {k};
      assert rest.Keys < m.Keys;
      [m[k]] + Snapshot(rest)
  }

  /** Counting the passing documents of a listing counts the passing keys. */
  lemma {:induction false} SnapshotCount<T>(m: map<string, T>, keep: T -> bool)
    ensures |Filter(Snapshot(m), keep)| == MapCount(m, keep)
    decreases m.Keys
  {
    if m != map[] {
      var k := Pick(m);
      var rest := m - {k};
      assert rest.Keys < m.Keys;
      calc {
        |Filter(Snapshot(m), keep)|;
        == { SnapshotUnfold(m); FilterCons(Snapshot(m), keep); }
        (if keep(m[k]) then 1 else 0) + |Filter(Snapshot(rest), keep)|;
        == { SnapshotCount(rest, keep); }
        (if keep(m[k]) then 1 else 0) + MapCount(rest, keep);
        == { CountAfterWrite(rest, k, m[k], keep); assert rest[k := m[k]] == m; }
        MapCount(m, keep);
      }
    }
  }

  /** Every document of the collection is listed. */
  lemma {:induction false} SnapshotHas<T>(m: map<string, T>, k: string)
    requires k in m
    ensures m[k] in Snapshot(m)
    decreases m.Keys
  {
    var p := Pick(m);
    SnapshotUnfold(m);
    if k != p {
      var rest := m - {p};
      assert rest.Keys < m.Keys;
      SnapshotHas(rest, k);
      assert rest[k] == m[k];
      assert Snapshot(m) == [m[p]] + Snapshot(rest);
    }
  }

  lemma SnapshotUnfold<T>(m: map<string, T>)
    requires m != map[]
    ensures Snapshot(m) != [] && Snapshot(m)[0] == m[Pick(m)]
    ensures Snapshot(m)[1..] == Snapshot(m - {Pick(m)})
  {
  }

  lemma FilterCons<T>(s: seq<T>, keep: T -> bool)
    requires s != []
    ensures |Filter(s, keep)| == (if keep(s[0]) then 1 else 0) + |Filter(s[1..], keep)|
  {
  }

  /** No element occurs twice. */
  ghost predicate Distinct<T>(s: seq<T>) {
    forall i, j :: 0 <= i < j < |s| ==> s[i] != s[j]
  }

  /** No document is stored under two keys; it holds wherever a document
      carries its own key. */
  ghost predicate Injective<T>(m: map<string, T>) {
    forall k1, k2 :: k1 in m && k2 in m && m[k1] == m[k2] ==> k1 == k2
  }

  /** A collection whose documents name their own key stores no document
      twice. */
  lemma KeyedInjective<T>(m: map<string, T>, key: T -> string)
    requires forall k :: k in m ==> key(m[k]) == k
    ensures Injective(m)
  {
    forall k1, k2 | k1 in m && k2 in m && m[k1] == m[k2] ensures k1 == k2 {
      assert key(m[k1]) == k1 && key(m[k2]) == k2;
    }
  }

  /** An element of a sequence without repeats occurs in it once. */
  lemma {:induction false} DistinctOnce<T>(s: seq<T>, x: T)
    requires Distinct(s)
    ensures multiset(s)[x] <= 1
  {
    if s != [] {
      assert s == [s[0]] + s[1..];
      assert Distinct(s[1..]) by {
        forall i, j | 0 <= i < j < |s[1..]| ensures s[1..][i] != s[1..][j] {
          assert s[1..][i] == s[i + 1] && s[1..][j] == s[j + 1];
        }
      }
      DistinctOnce(s[1..], x);
      if s[0] == x {
        assert x !in s[1..] by {
          forall j | 0 <= j < |s[1..]| ensures s[1..][j] != x {
            assert s[1..][j] == s[j + 1];
          }
        }
      }
    }
  }

  /** An element at two positions occurs at least twice. */
  lemma RepeatTwice<T>(s: seq<T>, i: nat, j: nat)
    requires i < j < |s| && s[i] == s[j]
    ensures multiset(s)[s[i]] >= 2
  {
    assert s == s[..i] + [s[i]] + s[i + 1..j] + [s[j]] + s[j + 1..];
  }

  /** Drawing from a sequence without repeats gives one without repeats. */
  lemma DistinctSub<T>(r: seq<T>, docs: seq<T>)
    requires Distinct(docs)
    requires multiset(r) <= multiset(docs)
    ensures Distinct(r)
  {
    forall i, j | 0 <= i < j < |r| ensures r[i] != r[j] {
      if r[i] == r[j] {
        RepeatTwice(r, i, j);
        DistinctOnce(docs, r[i]);
        assert false;
      }
    }
  }

  /** The listing of a collection that stores no document twice has no
      repeats. */
  lemma {:induction false} SnapshotDistinct<T>(m: map<string, T>)
    requires Injective(m)
    ensures Distinct(Snapshot(m))
    decreases m.Keys
  {
    if m != map[] {
      var k := Pick(m);
      var rest := m - {k};
      assert rest.Keys < m.Keys;
      SnapshotUnfold(m);
      var s := Snapshot(m);
      var t := Snapshot(rest);
      assert Injective(rest);
      SnapshotDistinct(rest);
      forall j | 0 <= j < |t| ensures t[j] != m[k] {
        var k2 :| k2 in rest && rest[k2] == t[j];
      }
      forall i, j | 0 <= i < j < |s| ensures s[i] != s[j] {
        assert s[j] == t[j - 1];
        if i > 0 {
          assert s[i] == t[i - 1];
        }
      }
    }
  }

  /** A query run against a whole collection: at most `limit` passing
      documents, ranked; one left out ranks at or below every selected one
      and the page is full; with room, every passing document is there; and
      when no document is stored twice, none is selected twice. */
  ghost function SelectFrom<T>(m: map<string, T>, keep: T -> bool, rank: T -> Key, limit: nat): (r: seq<T>)
    ensures |r| == Min(limit, MapCount(m, keep))
    ensures forall i :: 0 <= i < |r| ==> r[i] in m.Values && keep(r[i])
    ensures SortedDesc(r, rank)
    ensures forall k :: k in m && keep(m[k]) && m[k] !in r ==>
              |r| == limit && forall i :: 0 <= i < |r| ==> Geq(rank(r[i]), rank(m[k]))
    ensures limit >= MapCount(m, keep) ==> forall k :: k in m && keep(m[k]) ==> m[k] in r
    ensures Injective(m) ==> Distinct(r)
  {
    SnapshotCount(m, keep);
    SelectsStored(m, keep, rank, limit);
    SelectsTopListed(m, keep, rank, limit);
    SelectsAllListed(m, keep, rank, limit);
    assert Injective(m) ==> Distinct(Select(Snapshot(m), keep, rank, limit)) by {
      if Injective(m) {
        SnapshotDistinct(m);
        DistinctSub(Select(Snapshot(m), keep, rank, limit), Snapshot(m));
      }
    }
    Select(Snapshot(m), keep, rank, limit)
  }

  /** A query over the listing selects stored documents only. */
  lemma SelectsStored<T>(m: map<string, T>, keep: T -> bool, rank: T -> Key, limit: nat)
    ensures forall i :: 0 <= i < |Select(Snapshot(m), keep, rank, limit)| ==>
              Select(Snapshot(m), keep, rank, limit)[i] in m.Values
  {
    var docs := Snapshot(m);
    var r := Select(docs, keep, rank, limit);
    forall i | 0 <= i < |r| ensures r[i] in m.Values {
      assert r[i] in multiset(docs);
    }
  }

  /** A stored passing document left out of a query over the listing ranks at
      or below every selected one, and the page is full. */
  lemma SelectsTopListed<T>(m: map<string, T>, keep: T -> bool, rank: T -> Key, limit: nat)
    ensures var r := Select(Snapshot(m), keep, rank, limit);
      forall k :: k in m && keep(m[k]) && m[k] !in r ==>
        |r| == limit && forall i :: 0 <= i < |r| ==> Geq(rank(r[i]), rank(m[k]))
  {
    var docs := Snapshot(m);
    var r := Select(docs, keep, rank, limit);
    forall k | k in m && keep(m[k]) && m[k] !in r
      ensures |r| == limit && forall i :: 0 <= i < |r| ==> Geq(rank(r[i]), rank(m[k]))
    {
      SnapshotHas(m, k);
      var j :| 0 <= j < |docs| && docs[j] == m[k];
    }
  }

  /** With room for all, a query over the listing selects every passing document. */
  lemma SelectsAllListed<T>(m: map<string, T>, keep: T -> bool, rank: T -> Key, limit: nat)
    ensures limit >= MapCount(m, keep) ==>
              forall k :: k in m && keep(m[k]) ==> m[k] in Select(Snapshot(m), keep, rank, limit)
  {
    var docs := Snapshot(m);
    SnapshotCount(m, keep);
    forall k | limit >= MapCount(m, keep) && k in m && keep(m[k])
      ensures m[k] in Select(docs, keep, rank, limit)
    {
      SnapshotHas(m, k);
      var j :| 0 <= j < |docs| && docs[j] == m[k];
    }
  }

  /** A query without a limit: every passing document of the collection, in
      order. */
  ghost function SelectAllFrom<T>(m: map<string, T>, keep: T -> bool, rank: T -> Key): (r: seq<T>)
    ensures |r| == MapCount(m, keep)
    ensures forall i :: 0 <= i < |r| ==> r[i] in m.Values && keep(r[i])
    ensures SortedDesc(r, rank)
    ensures forall k :: k in m && keep(m[k]) ==> m[k] in r
    ensures Injective(m) ==> Distinct(r)
  {
    SelectFrom(m, keep, rank, MapCount(m, keep))
  }

  /** The passing keys of a collection other than `k`. */
  function OthersPassing<T>(m: map<string, T>, k: string, keep: T -> bool): set<string> {
    set k' | k' in m.Keys && k' != k && keep(m[k'])
  }

  /** A count splits into key `k` and the others. */
  lemma CountSplit<T>(m: map<string, T>, k: string, keep: T -> bool)
    ensures MapCount(m, keep) == |OthersPassing(m, k, keep)| + (if k in m && keep(m[k]) then 1 else 0)
  {
    var all := set k' | k' in m.Keys && keep(m[k']);
    var others := OthersPassing(m, k, keep);
    if k in m && keep(m[k]) {
      assert all == others + {k};
    } else {
      assert all == others;
    }
  }

  /** A collection's count after one key is written. */
  lemma CountAfterWrite<T>(m: map<string, T>, k: string, v: T, keep: T -> bool)
    ensures MapCount(m[k := v], keep) ==
            MapCount(m, keep) - (if k in m && keep(m[k]) then 1 else 0) + (if keep(v) then 1 else 0)
  {
    var m' := m[k := v];
    assert OthersPassing(m', k, keep) == OthersPassing(m, k, keep);
    CountSplit(m, k, keep);
    CountSplit(m', k, keep);
  }

  /** The page size a query is given must be at least 1. */
  function PageLimit(pageSize: int): (r: Result<nat>)
    ensures r.Success? <==> pageSize >= 1
    ensures r.Success? ==> r.value == pageSize
  {
    if pageSize < 1 then Failure(InvalidLimit(pageSize)) else Success(pageSize)
  }
}
