/** The "max-heap" index of a column: what a lookup yields are rows with the key, each once, and
    all of them exactly if it finds everything. */
module HeapIndex {
  import opened HeapNodes
  import opened HeapBuckets
  import opened MaxHeap
  import opened MaxHeapLookup
  import opened MaxHeapRange
  import opened RowVisits

  /** The values of the column are keys, and the row numbers fit into a value. */
  predicate Keys(column: seq<int>) {
    |column| <= KEY_MAX + 1 && forall r :: 0 <= r < |column| ==> 0 <= column[r] <= KEY_MAX
  }

  function Entries(column: seq<int>): seq<Pair>
    requires Keys(column)
  {
    seq(|column|, r requires 0 <= r < |column| => Pair(column[r], r))
  }

  /** The index holds a pair for every row and nothing else. */
  ghost predicate Indexes(hash: Key -> Key, ns: Nodes, bs: Buckets, column: seq<int>) {
    Keys(column) && Shape(ns) && Placed(hash, ns, bs) && Pool(bs) == multiset(Entries(column))
  }

  // ----- counting -----

  lemma {:induction false} OnceEach<T>(s: seq<T>)
    requires forall i, j :: 0 <= i < j < |s| ==> s[i] != s[j]
    ensures forall x :: multiset(s)[x] <= 1
  {
    if s != [] {
      var n := |s| - 1;
      OnceEach(s[..n]);
      assert s == s[..n] + [s[n]];
      assert s[n] !in s[..n];
    }
  }

  lemma Twice(s: seq<nat>, i: nat, j: nat)
    requires i < j < |s| && s[i] == s[j]
    ensures multiset(s)[s[i]] > 1
  {
    assert s == s[..j] + s[j..];
    assert s[..j][i] == s[i] && s[j..][0] == s[i];
    assert multiset(s)[s[i]] == multiset(s[..j])[s[i]] + multiset(s[j..])[s[i]];
  }

  lemma DistinctIf(s: seq<nat>)
    requires forall x :: multiset(s)[x] <= 1
    ensures Distinct(s)
  {
    if !Distinct(s) {
      var i, j :| 0 <= i < j < |s| && s[i] == s[j];
      Twice(s, i, j);
    }
  }

  lemma {:induction false} PoolUpdate(bs: seq<seq<Pair>>, b: nat, x: seq<Pair>, p: Pair)
    requires b < |bs|
    ensures Pool(bs[b := x])[p] + multiset(bs[b])[p] == Pool(bs)[p] + multiset(x)[p]
  {
    var n, cs := |bs| - 1, bs[b := x];
    if b < n {
      assert cs[..n] == bs[..n][b := x];
      PoolUpdate(bs[..n], b, x, p);
    } else {
      assert cs[..n] == bs[..n];
    }
  }

  predicate DistinctNodes(path: seq<NodeId>) {
    forall i, j :: 0 <= i < j < |path| ==> path[i] != path[j]
  }

  /** Different buckets hold different pairs of the pool. */
  lemma {:induction false} PoolAlong(bs: Buckets, path: seq<NodeId>, p: Pair)
    requires DistinctNodes(path)
    ensures Pool(Along(bs, path))[p] <= Pool(bs)[p]
    decreases |path|
  {
    if path != [] {
      var n, along := |path| - 1, Along(bs, path);
      var rest := bs[path[n] := []];
      PoolAlong(rest, path[..n], p);
      PoolUpdate(bs, path[n], [], p);
      assert along[..n] == Along(rest, path[..n]) && along[n] == bs[path[n]];
    }
  }

  lemma PathDistinct(ns: Nodes, x: Key)
    ensures DistinctNodes(Path(ns, 0, x))
  {
    var path := Path(ns, 0, x);
    PathIsChain(ns, 0, x);
    forall i, j | 0 <= i < j < |path| ensures path[i] != path[j] {
      assert Level(path[i]) == i && Level(path[j]) == j;
    }
  }

  lemma {:induction false} HitsCount(bucket: Bucket, key: Key, i: nat, v: Key)
    requires i <= |bucket|
    ensures multiset(Hits(bucket, key, i))[v] == multiset(bucket[i..])[Pair(key, v)]
    decreases |bucket| - i
  {
    if i < |bucket| {
      HitsCount(bucket, key, i + 1, v);
      assert bucket[i..] == [bucket[i]] + bucket[i + 1..];
    }
  }

  lemma {:induction false} AllHitsCount(buckets: seq<Bucket>, key: Key, level: int, v: Key)
    requires -1 <= level < |buckets|
    ensures multiset(AllHits(buckets, key, level, 0))[v] == Pool(buckets[..level + 1])[Pair(key, v)]
    decreases level
  {
    if level >= 0 {
      AllHitsCount(buckets, key, level - 1, v);
      HitsCount(buckets[level], key, 0, v);
      assert buckets[level][0..] == buckets[level];
      assert buckets[..level + 1][..level] == buckets[..level];
    }
  }

  // ----- what is stored under a key -----

  function StoredIds(hash: Key -> Key, ns: Nodes, bs: Buckets, key: Key): seq<Key> {
    var buckets := Along(bs, Path(ns, 0, hash(key)));
    AllHits(buckets, key, |buckets| - 1, 0)
  }

  lemma StoredOnce(hash: Key -> Key, ns: Nodes, bs: Buckets, column: seq<int>, key: Key, r: Key)
    requires Indexes(hash, ns, bs, column)
    ensures multiset(StoredIds(hash, ns, bs, key))[r] == if r < |column| && column[r] == key then 1 else 0
  {
    var path := Path(ns, 0, hash(key));
    var buckets := Along(bs, path);
    AllHitsCount(buckets, key, |buckets| - 1, r);
    assert buckets[..|buckets|] == buckets;
    PathDistinct(ns, hash(key));
    PoolAlong(bs, path, Pair(key, r));
    InPool(hash, ns, bs, buckets, Pair(key, r));
    EntryOnce(column, key, r);
  }

  lemma InPool(hash: Key -> Key, ns: Nodes, bs: Buckets, buckets: seq<Bucket>, p: Pair)
    requires Shape(ns) && Placed(hash, ns, bs) && buckets == Along(bs, Path(ns, 0, hash(p.key)))
    ensures p in Pool(buckets) <==> p in Pool(bs)
  {
    StoredAlong(hash, ns, bs, p);
    PoolMember(buckets, p);
  }

  lemma EntryOnce(column: seq<int>, key: Key, r: Key)
    requires Keys(column)
    ensures multiset(Entries(column))[Pair(key, r)] == if r < |column| && column[r] == key then 1 else 0
  {
    var entries := Entries(column);
    OnceEach(entries);
    if r < |column| && column[r] == key {
      assert entries[r] == Pair(key, r);
    } else {
      assert Pair(key, r) !in entries;
    }
  }

  /** The values stored under a key are the numbers of the rows that have it, each once. */
  lemma StoredExactly(hash: Key -> Key, ns: Nodes, bs: Buckets, column: seq<int>, key: Key)
    requires Indexes(hash, ns, bs, column)
    ensures var ids := StoredIds(hash, ns, bs, key);
            Distinct(ids) && forall r: Key :: r in ids <==> r < |column| && column[r] == key
  {
    var ids: seq<nat> := StoredIds(hash, ns, bs, key);
    forall r: Key ensures multiset(ids)[r] <= 1 && (r in ids <==> r < |column| && column[r] == key) {
      StoredOnce(hash, ns, bs, column, key, r);
      assert r in ids <==> r in multiset(ids);
    }
    forall x: nat ensures multiset(ids)[x] <= 1 {
      if x > KEY_MAX {
        assert x !in ids;
      }
    }
    DistinctIf(ids);
  }

  // ----- what a lookup yields -----

  lemma {:induction false} HitsFrom(bucket: Bucket, key: Key, i: nat, j: nat)
    requires i <= j
    ensures multiset(Hits(bucket, key, j)) <= multiset(Hits(bucket, key, i))
    decreases j - i
  {
    if i < j {
      HitsFrom(bucket, key, i + 1, j);
    }
  }

  /** A lookup yields nothing that is not stored, and nothing twice. */
  ghost predicate Within(buckets: seq<Bucket>, key: Key, level: int, i: nat, start: nat)
    requires level < |buckets|
  {
    multiset(Rest(buckets, key, level, i, start)) <= multiset(AllHits(buckets, key, level, i))
  }

  lemma WithinOneDown(buckets: seq<Bucket>, key: Key, level: nat, i: nat, start: nat)
    requires level < |buckets| && i >= |buckets[level]| && Within(buckets, key, level - 1, start, start)
    ensures Within(buckets, key, level, i, start)
  {
    if level > 0 {
      HitsFrom(buckets[level - 1], key, 0, start);
    }
    assert AllHits(buckets, key, level, i) == [] + AllHits(buckets, key, level - 1, 0);
  }

  lemma WithinOneOn(buckets: seq<Bucket>, key: Key, level: nat, i: nat, start: nat)
    requires level < |buckets| && i < |buckets[level]|
    requires Within(buckets, key, level, i + 1, if Hit(buckets[level], key, i) then i + 1 else start)
    ensures Within(buckets, key, level, i, start)
  {
    if Hit(buckets[level], key, i) {
      var value := [buckets[level][i].value];
      assert AllHits(buckets, key, level, i) == value + AllHits(buckets, key, level, i + 1);
      assert Rest(buckets, key, level, i, start) == value + Rest(buckets, key, level, i + 1, i + 1);
    }
  }

  lemma {:induction false} RestWithin(buckets: seq<Bucket>, key: Key, level: int, i: nat, start: nat)
    requires level < |buckets|
    ensures Within(buckets, key, level, i, start)
    decreases level, if level < 0 then 0 else |buckets[level]| - i
  {
    if level >= 0 {
      if i >= |buckets[level]| {
        RestWithin(buckets, key, level - 1, start, start);
        WithinOneDown(buckets, key, level, i, start);
      } else {
        RestWithin(buckets, key, level, i + 1, if Hit(buckets[level], key, i) then i + 1 else start);
        WithinOneOn(buckets, key, level, i, start);
      }
    }
  }

  /** What a lookup yields for a key of an indexed column: rows with that key, each once; and all of
      them iff it finds everything. */
  lemma IdsExactly(hash: Key -> Key, ns: Nodes, bs: Buckets, column: seq<int>, key: Key)
    requires Indexes(hash, ns, bs, column)
    ensures var ids := IdsOf(hash, ns, bs, key);
            && Distinct(ids) && (forall r :: r in ids ==> r < |column| && column[r] == key)
            && if FindsAll(hash, key, (ns, bs)) then forall r :: 0 <= r < |column| && column[r] == key ==> r in ids
               else |ids| < |StoredIds(hash, ns, bs, key)|
  {
    var buckets := Along(bs, Path(ns, 0, hash(key)));
    var ids: seq<nat>, all: seq<nat> := IdsOf(hash, ns, bs, key), StoredIds(hash, ns, bs, key);
    RestWithin(buckets, key, |buckets| - 1, 0, 0);
    RestComplete(buckets, key, |buckets| - 1, 0, 0);
    StoredExactly(hash, ns, bs, column, key);
    OnceEach(all);
    forall x ensures multiset(ids)[x] <= 1 {
      assert multiset(ids)[x] <= multiset(all)[x];
    }
    DistinctIf(ids);
    forall r | r in ids ensures r < |column| && column[r] == key {
      assert r in multiset(ids) && r in multiset(all) && r in all;
    }
  }

  // ----- a range of keys -----

  /** The ids are the rows with the key, each once. */
  ghost predicate RowsWith(ids: seq<nat>, column: seq<int>, min: int, max: int) {
    Distinct(ids) && forall r: nat :: r in ids <==> r < |column| && min <= column[r] <= max
  }

  lemma {:induction false} ChainedRows(ids: Key -> seq<Key>, column: seq<int>, min: nat, max: Key)
    requires forall key: Key :: min <= key <= max ==> RowsWith(ids(key), column, key, key)
    ensures RowsWith(Chained(ids, min, max), column, min, max)
    decreases max + 1 - min
  {
    if min <= max {
      ChainedRows(ids, column, min + 1, max);
      DistinctBoth(ids(min), Chained(ids, min + 1, max));
    }
  }

  /** What a range of keys yields, if every key finds everything: the rows in the range, each once. */
  lemma RangeExactly(hash: Key -> Key, ns: Nodes, bs: Buckets, column: seq<int>, min: nat, max: Key)
    requires Indexes(hash, ns, bs, column)
    requires forall key: Key :: min <= key <= max ==> FindsAll(hash, key, (ns, bs))
    ensures RowsWith(Chained(AllIdsOf(hash, ns, bs), min, max), column, min, max)
  {
    forall key: Key | min <= key <= max ensures RowsWith(AllIdsOf(hash, ns, bs)(key), column, key, key) {
      IdsExactly(hash, ns, bs, column, key);
    }
    ChainedRows(AllIdsOf(hash, ns, bs), column, min, max);
  }

  lemma DistinctBoth(a: seq<nat>, b: seq<nat>)
    requires Distinct(a) && Distinct(b) && forall x :: x in a ==> x !in b
    ensures Distinct(a + b)
  {
    forall i, j | 0 <= i < j < |a + b| ensures (a + b)[i] != (a + b)[j] {
      if i < |a| <= j {
        assert a[i] in a && b[j - |a|] in b;
      }
    }
  }
}
