/** Looking a key up in the "max-heap" index: the buckets on the path of its hash are
    searched from the bottom up, one item per call. */
module MaxHeapLookup {
  import opened Common
  import opened HeapNodes
  import opened HeapFile
  import opened HeapBuckets
  import opened MaxHeap

  type Bucket = seq<Pair>

  /** The buckets of the nodes on a path, root first. */
  function Along(bs: Buckets, path: seq<NodeId>): (s: seq<Bucket>)
    ensures |s| == |path| && forall l :: 0 <= l < |path| ==> s[l] == bs[path[l]]
  {
    seq(|path|, l requires 0 <= l < |path| => bs[path[l]])
  }

  predicate Hit(bucket: Bucket, key: Key, k: nat) {
    k < |bucket| && bucket[k].key == key
  }

  /** The values that the calls still return, from slot `i` of the bucket at `level` on.
      `start` is where the search of a bucket begins: it is set behind each item that is
      returned and stays like that for the buckets above. */
  function Rest(buckets: seq<Bucket>, key: Key, level: int, i: nat, start: nat): seq<Key>
    requires level < |buckets|
    decreases level, if level < 0 then 0 else |buckets[level]| - i
  {
    if level < 0 then []
    else if i >= |buckets[level]| then Rest(buckets, key, level - 1, start, start)
    else if Hit(buckets[level], key, i) then [buckets[level][i].value] + Rest(buckets, key, level, i + 1, i + 1)
    else Rest(buckets, key, level, i + 1, start)
  }

  /** The values stored under a key in a bucket, from slot `i` on. */
  function Hits(bucket: Bucket, key: Key, i: nat): seq<Key>
    decreases |bucket| - i
  {
    if i >= |bucket| then []
    else if Hit(bucket, key, i) then [bucket[i].value] + Hits(bucket, key, i + 1)
    else Hits(bucket, key, i + 1)
  }

  /** All values stored under a key, from slot `i` of the bucket at `level` on. */
  function AllHits(buckets: seq<Bucket>, key: Key, level: int, i: nat): seq<Key>
    requires level < |buckets|
    decreases level
  {
    if level < 0 then [] else Hits(buckets[level], key, i) + AllHits(buckets, key, level - 1, 0)
  }

  // ----- the first item -----

  /** Until something is found, nothing is skipped. */
  lemma {:induction false} FirstItem(buckets: seq<Bucket>, key: Key, level: int, i: nat)
    requires level < |buckets|
    requires level >= 0 ==> i <= |buckets[level]| && forall k :: 0 <= k < i ==> !Hit(buckets[level], key, k)
    ensures var rest := Rest(buckets, key, level, i, 0);
            && (rest == [] ==> forall l, k :: 0 <= l <= level && 0 <= k ==> !Hit(buckets[l], key, k))
            && (rest != [] ==> exists l :: 0 <= l <= level && Pair(key, rest[0]) in buckets[l])
    decreases level, if level < 0 then 0 else |buckets[level]| - i
  {
    if level >= 0 {
      var bucket := buckets[level];
      if i >= |bucket| {
        FirstItem(buckets, key, level - 1, 0);
      } else if Hit(bucket, key, i) {
        assert bucket[i] == Pair(key, bucket[i].value) && bucket[i] in bucket;
      } else {
        FirstItem(buckets, key, level, i + 1);
      }
    }
  }

  ghost predicate Contains(buckets: seq<Bucket>, p: Pair) {
    exists l :: 0 <= l < |buckets| && p in buckets[l]
  }

  lemma StoredAlong(hash: Key -> Key, ns: Nodes, bs: Buckets, p: Pair)
    requires Shape(ns) && Placed(hash, ns, bs)
    ensures p in Pool(bs) <==> Contains(Along(bs, Path(ns, 0, hash(p.key))), p)
  {
    var path := Path(ns, 0, hash(p.key));
    StoredOnPath(hash, ns, bs, p);
    forall l | 0 <= l < |path| && p in Along(bs, path)[l] ensures path[l] in path && p in bs[path[l]] {
    }
    forall b: NodeId | b in path && p in bs[b] ensures Contains(Along(bs, path), p) {
      var l :| 0 <= l < |path| && path[l] == b;
      assert p in Along(bs, path)[l];
    }
  }

  lemma NoHitNoPair(buckets: seq<Bucket>, key: Key, v: Key)
    requires forall l, k :: 0 <= l < |buckets| && 0 <= k ==> !Hit(buckets[l], key, k)
    ensures !Contains(buckets, Pair(key, v))
  {
    forall l, k | 0 <= l < |buckets| && 0 <= k < |buckets[l]| ensures buckets[l][k] != Pair(key, v) {
      assert !Hit(buckets[l], key, k);
    }
  }

  /** The first lookup finds a value stored under the key, and finds none if and only
      if the key was never stored. */
  lemma FirstLookup(hash: Key -> Key, ns: Nodes, bs: Buckets, key: Key)
    requires Shape(ns) && Placed(hash, ns, bs)
    ensures var path := Path(ns, 0, hash(key));
            var rest := Rest(Along(bs, path), key, |path| - 1, 0, 0);
            && (rest == [] <==> forall v: Key :: Pair(key, v) !in Pool(bs))
            && (rest != [] ==> Pair(key, rest[0]) in Pool(bs))
  {
    var path := Path(ns, 0, hash(key));
    var buckets := Along(bs, path);
    var rest := Rest(buckets, key, |path| - 1, 0, 0);
    FirstItem(buckets, key, |path| - 1, 0);
    forall v: Key ensures Pair(key, v) in Pool(bs) <==> Contains(buckets, Pair(key, v)) {
      StoredAlong(hash, ns, bs, Pair(key, v));
    }
    if rest == [] {
      forall v: Key ensures !Contains(buckets, Pair(key, v)) {
        NoHitNoPair(buckets, key, v);
      }
    }
  }

  // ----- exactly when the lookup returns everything -----

  ghost predicate NoHit(bucket: Bucket, key: Key, i: nat, j: nat) {
    forall k :: i <= k < j ==> !Hit(bucket, key, k)
  }

  lemma {:induction false} FewerHits(bucket: Bucket, key: Key, i: nat, j: nat)
    requires i <= j
    ensures |Hits(bucket, key, j)| <= |Hits(bucket, key, i)|
    ensures if NoHit(bucket, key, i, j) then Hits(bucket, key, j) == Hits(bucket, key, i)
            else |Hits(bucket, key, j)| < |Hits(bucket, key, i)|
    decreases j - i
  {
    if i < j {
      FewerHits(bucket, key, i + 1, j);
      assert NoHit(bucket, key, i, j) <==> !Hit(bucket, key, i) && NoHit(bucket, key, i + 1, j);
    }
  }

  /** From slot `i` at `level` on, every item lies at a later slot than `start` and than
      all items of the buckets below it. */
  ghost predicate InOrder(buckets: seq<Bucket>, key: Key, level: int, i: nat, start: nat)
    requires level < |buckets|
  {
    && (forall l, k :: 0 <= l < level && Hit(buckets[l], key, k) ==> start <= k)
    && (forall l, k, m, j ::
          0 <= l < m <= level && Hit(buckets[l], key, k) && Hit(buckets[m], key, j) && (m == level ==> i <= j) ==>
            j < k)
  }

  lemma OrderOneDown(buckets: seq<Bucket>, key: Key, level: nat, i: nat, start: nat)
    requires level < |buckets| && i >= |buckets[level]|
    ensures InOrder(buckets, key, level, i, start) <==>
              InOrder(buckets, key, level - 1, start, start) && (level > 0 ==> NoHit(buckets[level - 1], key, 0, start))
  {
  }

  lemma OrderOneOn(buckets: seq<Bucket>, key: Key, level: nat, i: nat, start: nat)
    requires level < |buckets| && start <= i < |buckets[level]|
    ensures InOrder(buckets, key, level, i, start) <==>
              InOrder(buckets, key, level, i + 1, if Hit(buckets[level], key, i) then i + 1 else start)
  {
  }

  /** The lookup never returns more than what is stored, and returns all of it if and
      only if the items are in order. */
  ghost predicate CompleteIffInOrder(buckets: seq<Bucket>, key: Key, level: int, i: nat, start: nat)
    requires level < |buckets|
  {
    if InOrder(buckets, key, level, i, start)
    then Rest(buckets, key, level, i, start) == AllHits(buckets, key, level, i)
    else |Rest(buckets, key, level, i, start)| < |AllHits(buckets, key, level, i)|
  }

  lemma CompleteOneDown(buckets: seq<Bucket>, key: Key, level: nat, i: nat, start: nat)
    requires level < |buckets| && i >= |buckets[level]|
    requires CompleteIffInOrder(buckets, key, level - 1, start, start)
    ensures CompleteIffInOrder(buckets, key, level, i, start)
  {
    OrderOneDown(buckets, key, level, i, start);
    assert AllHits(buckets, key, level, i) == [] + AllHits(buckets, key, level - 1, 0);
    if level > 0 {
      FewerHits(buckets[level - 1], key, 0, start);
    }
  }

  lemma CompleteOneOn(buckets: seq<Bucket>, key: Key, level: nat, i: nat, start: nat)
    requires level < |buckets| && start <= i < |buckets[level]|
    requires CompleteIffInOrder(buckets, key, level, i + 1, if Hit(buckets[level], key, i) then i + 1 else start)
    ensures CompleteIffInOrder(buckets, key, level, i, start)
  {
    OrderOneOn(buckets, key, level, i, start);
    assert Hit(buckets[level], key, i) ==>
        AllHits(buckets, key, level, i) == [buckets[level][i].value] + AllHits(buckets, key, level, i + 1);
  }

  lemma {:induction false} RestComplete(buckets: seq<Bucket>, key: Key, level: int, i: nat, start: nat)
    requires level < |buckets| && start <= i
    ensures CompleteIffInOrder(buckets, key, level, i, start)
    decreases level, if level < 0 then 0 else |buckets[level]| - i
  {
    if level >= 0 {
      if i >= |buckets[level]| {
        RestComplete(buckets, key, level - 1, start, start);
        CompleteOneDown(buckets, key, level, i, start);
      } else {
        RestComplete(buckets, key, level, i + 1, if Hit(buckets[level], key, i) then i + 1 else start);
        CompleteOneOn(buckets, key, level, i, start);
      }
    }
  }

  /** Calling the lookup until it finds nothing more gives every value stored under the
      key if and only if the slots of these items increase from each bucket to the ones
      above it. */
  lemma EverythingIffInOrder(buckets: seq<Bucket>, key: Key)
    ensures Rest(buckets, key, |buckets| - 1, 0, 0) == AllHits(buckets, key, |buckets| - 1, 0)
            <==> forall l, k, m, j :: 0 <= l < m < |buckets| && Hit(buckets[l], key, k) && Hit(buckets[m], key, j) ==>
                j < k
  {
    RestComplete(buckets, key, |buckets| - 1, 0, 0);
  }

  // ----- a key that is inserted many times -----

  function Pairs(key: Key, values: seq<Key>): seq<Pair> {
    seq(|values|, i requires 0 <= i < |values| => Pair(key, values[i]))
  }

  /** The key is at slot 0 of the root and of its child. */
  predicate Overflowed(ns: Nodes, bs: Buckets, key: Key, c: NodeId) {
    Used(ns, c) && Hit(bs[0], key, 0) && Hit(bs[c], key, 0)
  }

  lemma OnlyRoot(x: Key)
    ensures Path(RootOnly(), 0, x) == [0]
  {
    assert !Used(RootOnly(), Child(0, x));
  }

  /** The last insertion. */
  lemma LastInsert(hash: Key -> Key, key: Key, values: seq<Key>)
    requires values != []
    ensures var before := AfterInserts(hash, Pairs(key, values[..|values| - 1]));
            AfterInserts(hash, Pairs(key, values))
                == Inserted(hash, before.0, before.1, Pair(key, values[|values| - 1]))
  {
    assert Pairs(key, values)[..|values| - 1] == Pairs(key, values[..|values| - 1]);
  }

  /** Until its bucket is full, everything goes to the root. */
  lemma {:induction false} IntoRoot(hash: Key -> Key, key: Key, values: seq<Key>)
    requires |values| <= BUCKET_SIZE
    ensures AfterInserts(hash, Pairs(key, values)) == (RootOnly(), NoPairs()[0 := Pairs(key, values)])
  {
    if values == [] {
      assert NoPairs()[0 := []] == NoPairs();
    } else {
      IntoRoot(hash, key, values[..|values| - 1]);
      LastInsert(hash, key, values);
      NewIndexFits(hash);
      OneIntoRoot(hash, key, values);
    }
  }

  lemma OneIntoRoot(hash: Key -> Key, key: Key, values: seq<Key>)
    requires 0 < |values| <= BUCKET_SIZE
    requires var bs := NoPairs()[0 := Pairs(key, values[..|values| - 1])];
             Shape(RootOnly()) && Placed(hash, RootOnly(), bs)
    ensures Inserted(hash, RootOnly(), NoPairs()[0 := Pairs(key, values[..|values| - 1])],
            Pair(key, values[|values| - 1]))
            == (RootOnly(), NoPairs()[0 := Pairs(key, values)])
  {
    OnlyRoot(hash(key));
    var fewer := Pairs(key, values[..|values| - 1]);
    assert Pairs(key, values) == fewer + [Pair(key, values[|values| - 1])];
    assert NoPairs()[0 := fewer][0 := Pairs(key, values)] == NoPairs()[0 := Pairs(key, values)];
  }

  /** Then the root is split, and the next one goes to its child. */
  lemma IntoChild(hash: Key -> Key, bs: Buckets, p: Pair, c: NodeId)
    requires Shape(RootOnly()) && Placed(hash, RootOnly(), bs) && |bs[0]| == BUCKET_SIZE && Hit(bs[0], p.key, 0)
    requires c == Child(0, hash(p.key)) && bs[c] == []
    ensures var s := Inserted(hash, RootOnly(), bs, p); Overflowed(s.0, s.1, p.key, c)
  {
    OnlyRoot(hash(p.key));
    SplitRoot(hash(p.key));
  }

  /** The states of an index in which that has happened. */
  ghost function OverflowedStates(key: Key, c: NodeId): iset<(Nodes, Buckets)> {
    iset s: (Nodes, Buckets) | Overflowed(s.0, s.1, key, c)
  }

  lemma FirstOverflow(hash: Key -> Key, key: Key, values: seq<Key>, c: NodeId)
    requires |values| == BUCKET_SIZE + 1 && c == Child(0, hash(key))
    ensures AfterInserts(hash, Pairs(key, values)) in OverflowedStates(key, c)
  {
    var before := AfterInserts(hash, Pairs(key, values[..BUCKET_SIZE]));
    LastInsert(hash, key, values);
    IntoRoot(hash, key, values[..BUCKET_SIZE]);
    assert c > 0 && before.1[c] == [];
    IntoChild(hash, before.1, Pair(key, values[BUCKET_SIZE]), c);
  }

  /** And so it stays. */
  lemma {:induction false} Overflows(hash: Key -> Key, key: Key, values: seq<Key>, n: nat, c: NodeId)
    requires n <= |values| && AfterInserts(hash, Pairs(key, values[..n])) in OverflowedStates(key, c)
    ensures AfterInserts(hash, Pairs(key, values)) in OverflowedStates(key, c)
    decreases |values| - n
  {
    if n < |values| {
      var more := values[..n + 1];
      assert more[..|more| - 1] == values[..n];
      OneMoreOverflow(hash, key, more, c);
      Overflows(hash, key, values, n + 1, c);
    } else {
      assert values[..n] == values;
    }
  }

  lemma OneMoreOverflow(hash: Key -> Key, key: Key, values: seq<Key>, c: NodeId)
    requires values != []
    requires AfterInserts(hash, Pairs(key, values[..|values| - 1])) in OverflowedStates(key, c)
    ensures AfterInserts(hash, Pairs(key, values)) in OverflowedStates(key, c)
  {
    var before := AfterInserts(hash, Pairs(key, values[..|values| - 1]));
    LastInsert(hash, key, values);
    StaysOverflowed(hash, before.0, before.1, Pair(key, values[|values| - 1]), c);
  }

  lemma SplitRoot(x: Key)
    ensures !Used(RootOnly(), 1) && Used(Halved(RootOnly(), 0), Child(0, x))
  {
    HalvedAt(RootOnly(), 0, Child(0, x));
  }

  lemma StaysOverflowed(hash: Key -> Key, ns: Nodes, bs: Buckets, p: Pair, c: NodeId)
    requires Shape(ns) && Placed(hash, ns, bs) && Overflowed(ns, bs, p.key, c)
    ensures var s := Inserted(hash, ns, bs, p); Overflowed(s.0, s.1, p.key, c)
  {
    var b := Deepest(ns, 0, hash(p.key));
    DeepestEnds(ns, 0, hash(p.key));
    HalvedAt(ns, b, c);
  }

  /** Calling the lookup until it finds nothing more gives every value stored under a key. */
  predicate FindsAll(hash: Key -> Key, key: Key, s: (Nodes, Buckets)) {
    var buckets := Along(s.1, Path(s.0, 0, hash(key)));
    Rest(buckets, key, |buckets| - 1, 0, 0) == AllHits(buckets, key, |buckets| - 1, 0)
  }

  /** After inserting values under one key into a new index, the lookup returns all of them iff
      they fit into one bucket: beyond that it misses values. */
  lemma SameKeyCompleteIff(hash: Key -> Key, key: Key, values: seq<Key>)
    ensures FindsAll(hash, key, AfterInserts(hash, Pairs(key, values))) <==> |values| <= BUCKET_SIZE
  {
    var (ns, bs) := AfterInserts(hash, Pairs(key, values));
    var path := Path(ns, 0, hash(key));
    var buckets := Along(bs, path);
    EverythingIffInOrder(buckets, key);
    if |values| <= BUCKET_SIZE {
      IntoRoot(hash, key, values);
      OnlyRoot(hash(key));
    } else {
      var c := Child(0, hash(key));
      FirstOverflow(hash, key, values[..BUCKET_SIZE + 1], c);
      Overflows(hash, key, values, BUCKET_SIZE + 1, c);
      assert Overflowed(ns, bs, key, c);
      assert path == [0] + Path(ns, c, hash(key)) && path[1] == c;
      assert Hit(buckets[0], key, 0) && Hit(buckets[1], key, 0);
    }
  }

  // ----- the calls -----

  /** One step of the descent along a path. */
  lemma PathStep(ns: Nodes, x: Key, path: seq<NodeId>, i: nat)
    requires Shape(ns) && path == Path(ns, 0, x) && i < |path|
    ensures Used(ns, path[i]) && path[i] < INNER && In(path[i], x)
    ensures var c := Child(path[i], x);
            && In(c, x) && (c == 2 * path[i] + 1 || (Elder(c) && c - 1 == 2 * path[i] + 1))
            && if i + 1 < |path| then c == path[i + 1] else !Used(ns, c) || c >= INNER
  {
    PathIsChain(ns, 0, x);
    assert path[i] in path;
    PathExact(ns, x, path[i]);
    ChildOf(path[i], x);
    if i + 1 == |path| {
      DeepestEnds(ns, 0, x);
    }
  }

  lemma SameMembers(s: seq<Pair>, m: multiset<Pair>)
    requires m == multiset(s)
    ensures forall p :: p in s <==> p in m
  {
  }

  /** The same in terms of what has been inserted. */
  lemma FirstInserted(hash: Key -> Key, ns: Nodes, bs: Buckets, inserted: seq<Pair>, key: Key)
    requires Shape(ns) && Placed(hash, ns, bs) && Pool(bs) == multiset(inserted)
    ensures var path := Path(ns, 0, hash(key));
            var rest := Rest(Along(bs, path), key, |path| - 1, 0, 0);
            && (rest == [] <==> forall v: Key :: Pair(key, v) !in inserted)
            && (rest != [] ==> Pair(key, rest[0]) in inserted)
  {
    FirstLookup(hash, ns, bs, key);
    SameMembers(inserted, Pool(bs));
  }

  /** An index iterator for one key. */
  class KeyIterator {
    const key: Key
    var nextItemNo: nat

    constructor (key: Key)
      ensures this.key == key && nextItemNo == 0
    {
      this.key := key;
      nextItemNo := 0;
    }
  }

  /** The index and the static iteration cache of `get_next`. */
  class Lookup {
    const heap: MaxHeap
    const visitedBuckets: array<NodeId>
    var owner: KeyIterator?
    var heapIterator: int
    var foundItems: nat
    var start: nat

    constructor (heap: MaxHeap)
      ensures this.heap == heap && fresh(visitedBuckets) && Valid() && owner == null
    {
      this.heap := heap;
      visitedBuckets := new NodeId[NODE_DEPTH](i => 0);
      owner, heapIterator, foundItems, start := null, -1, 0, 0;
    }

    ghost predicate Valid() {
      visitedBuckets.Length == NODE_DEPTH
    }

    ghost function PathOf(key: Key): seq<NodeId>
      requires heap.nodes.Valid()
      reads heap.nodes.nodes
    {
      Path(heap.nodes.Contents(), 0, heap.hash(key))
    }

    ghost function BucketsOf(key: Key): seq<Bucket>
      requires heap.nodes.Valid()
      reads heap.nodes.nodes, heap.store`buckets
    {
      Along(heap.store.buckets, PathOf(key))
    }

    /** The index, and a cached bucket that is up to date: it is as long as no pair is
        inserted after the first lookup. */
    ghost predicate Ready()
      reads heap`inserted, heap.nodes.nodes, heap.store, heap.store.pairs, heap.store.nextFreeSlot, heap.store.cached
    {
      Valid() && heap.Valid() && heap.store.Coherent()
    }

    /** The iteration cache is at the position of the iterator, which has been the last
        one in use. */
    ghost predicate At(it: KeyIterator, heapIterator: int)
      requires heap.nodes.Valid()
      reads this`start, visitedBuckets, heap.nodes.nodes
    {
      && Valid() && -1 <= heapIterator < |PathOf(it.key)| <= NODE_DEPTH
      && (forall k :: 0 <= k < |PathOf(it.key)| ==> visitedBuckets[k] == PathOf(it.key)[k])
    }

    ghost predicate Current(it: KeyIterator)
      requires heap.nodes.Valid()
      reads this, visitedBuckets, heap.nodes.nodes, it
    {
      it.nextItemNo > 0 ==> owner == it && foundItems == it.nextItemNo && At(it, heapIterator)
    }

    /** What the iterator still yields. */
    ghost function Pending(it: KeyIterator): seq<Key>
      requires heap.nodes.Valid() && Current(it)
      reads this, visitedBuckets, heap.nodes.nodes, heap.store`buckets, it
    {
      if it.nextItemNo == 0 then Rest(BucketsOf(it.key), it.key, |PathOf(it.key)| - 1, 0, 0)
      else Rest(BucketsOf(it.key), it.key, heapIterator, start, start)
    }

    /** The start of a search: note down the path. */
    method Descend(it: KeyIterator, ghost path: seq<NodeId>)
      requires Valid() && heap.nodes.Valid() && Shape(heap.nodes.Contents()) && path == PathOf(it.key)
      modifies this, visitedBuckets
      ensures owner == it && foundItems == start == 0
      ensures heapIterator == |path| - 1 && |path| <= NODE_DEPTH && forall k :: 0 <= k < |path| ==>
              visitedBuckets[k] == path[k]
    {
      ghost var ns, x := heap.nodes.Contents(), heap.hash(it.key);
      PathIsChain(ns, 0, x);
      owner, foundItems, start, heapIterator := it, 0, 0, -1;
      var next := 0;
      ghost var c: NodeId := 0;
      for i := 0 to NODE_DEPTH
        invariant i <= |path| && heapIterator == i - 1
        invariant forall k :: 0 <= k < i ==> visitedBuckets[k] == path[k]
        invariant In(c, x) && (next == c || (Elder(c) && next == c - 1))
        invariant if i < |path| then c == path[i] else !Used(ns, c) || c >= INNER
        modifies this`heapIterator, visitedBuckets
      {
        if i < |path| {
          PathStep(ns, x, path, i);
        }
        var found;
        found, next := heap.nodes.Find(heap.hash(it.key), next, c);
        if found < 0 {
          break;
        }
        visitedBuckets[i] := found;
        heapIterator := i;
        c := Child(c, x);
      }
    }

    /** The cache lists `path`, whose buckets are `buckets`. */
    ghost predicate Lists(path: seq<NodeId>, buckets: seq<Bucket>)
      reads visitedBuckets, heap.store`buckets
    {
      && Valid() && |path| <= NODE_DEPTH && buckets == Along(heap.store.buckets, path)
      && forall k :: 0 <= k < |path| ==> visitedBuckets[k] == path[k]
    }

    /** The inner loop of `get_next`: search a bucket from `start` on. */
    method SearchBucket(it: KeyIterator, ghost path: seq<NodeId>, ghost buckets: seq<Bucket>)
        returns (found: bool, value: nat)
      requires Ready() && Lists(path, buckets) && foundItems == it.nextItemNo && 0 <= heapIterator < |path|
      modifies this`foundItems, this`start, it, heap.store`cacheUsed, heap.store`cacheId, heap.store.cached,
               heap.store.nextFreeSlot
      ensures Ready() && foundItems == it.nextItemNo == old(it.nextItemNo) + if found then 1 else 0
      ensures found ==> value <= KEY_MAX
      ensures Rest(buckets, it.key, heapIterator, old(start), old(start)) ==
              if found then [value] + Rest(buckets, it.key, heapIterator, start, start)
              else Rest(buckets, it.key, heapIterator - 1, start, start)
    {
      var b := visitedBuckets[heapIterator];
      heap.store.Load(b);
      found, value := ScanCached(it, heap.store.nextFreeSlot[b], heapIterator, buckets);
    }

    /** The loop over the pairs of the cached bucket. */
    method ScanCached(it: KeyIterator, nextFreeSlot: nat, ghost level: nat, ghost buckets: seq<Bucket>)
        returns (found: bool, value: nat)
      requires foundItems == it.nextItemNo && level < |buckets| && nextFreeSlot == |buckets[level]|
      requires nextFreeSlot <= heap.store.cached.Length && heap.store.cached[..nextFreeSlot] == buckets[level]
      modifies this`foundItems, this`start, it
      ensures foundItems == it.nextItemNo == old(it.nextItemNo) + if found then 1 else 0
      ensures found ==> value <= KEY_MAX
      ensures Rest(buckets, it.key, level, old(start), old(start)) ==
              if found then [value] + Rest(buckets, it.key, level, start, start)
              else Rest(buckets, it.key, level - 1, start, start)
    {
      ghost var rest := Rest(buckets, it.key, level, start, start);
      var i := start;
      while i < nextFreeSlot
        invariant foundItems == it.nextItemNo == old(it.nextItemNo) && start == old(start)
        invariant Rest(buckets, it.key, level, i, start) == rest
        decreases nextFreeSlot - i
      {
        assert heap.store.cached[i] == buckets[level][i];
        if heap.store.cached[i].key == it.key {
          foundItems := foundItems + 1;
          if foundItems - 1 == it.nextItemNo {
            it.nextItemNo := it.nextItemNo + 1;
            start := i + 1;
            return true, heap.store.cached[i].value;
          }
        }
        i := i + 1;
      }
      return false, INVALID_TUPLE;
    }

    /** The outer loop of `get_next`: from the current bucket upwards. */
    method Search(it: KeyIterator, ghost path: seq<NodeId>, ghost buckets: seq<Bucket>) returns (id: nat)
      requires Ready() && Lists(path, buckets) && foundItems == it.nextItemNo && -1 <= heapIterator < |path|
      modifies this`heapIterator, this`foundItems, this`start, it
      modifies heap.store`cacheUsed, heap.store`cacheId, heap.store.cached, heap.store.nextFreeSlot
      ensures Ready() && -1 <= heapIterator < |path|
      ensures foundItems == it.nextItemNo == old(it.nextItemNo) + if id == INVALID_TUPLE then 0 else 1
      ensures var was := Rest(buckets, it.key, old(heapIterator), old(start), old(start));
              if was == [] then id == INVALID_TUPLE && heapIterator == -1
              else id <= KEY_MAX && was == [id] + Rest(buckets, it.key, heapIterator, start, start)
    {
      ghost var was := Rest(buckets, it.key, heapIterator, start, start);
      while heapIterator >= 0
        invariant Ready() && Lists(path, buckets) && foundItems == it.nextItemNo == old(it.nextItemNo)
                  && -1 <= heapIterator < |path|
        invariant was == Rest(buckets, it.key, heapIterator, start, start)
        decreases heapIterator
      {
        var found;
        found, id := SearchBucket(it, path, buckets);
        if found {
          assert was != [] && was == [id] + Rest(buckets, it.key, heapIterator, start, start);
          return;
        }
        heapIterator := heapIterator - 1;
      }
      return INVALID_TUPLE;
    }

    ghost predicate NeverInserted(key: Key)
      reads heap`inserted
    {
      forall v: Key :: Pair(key, v) !in heap.inserted
    }

    lemma FirstAnswer(it: KeyIterator)
      requires heap.Valid() && Current(it) && it.nextItemNo == 0
      ensures Pending(it) == [] <==> NeverInserted(it.key)
      ensures Pending(it) != [] ==> Pair(it.key, Pending(it)[0]) in heap.inserted
    {
      FirstInserted(heap.hash, heap.nodes.Contents(), heap.store.buckets, heap.inserted, it.key);
    }

    /** The first part of `get_next`: a new search descends, another one goes on. */
    method Begin(it: KeyIterator, ghost path: seq<NodeId>, ghost buckets: seq<Bucket>)
      requires Ready() && Current(it) && path == PathOf(it.key) && buckets == BucketsOf(it.key)
      modifies this, visitedBuckets
      ensures owner == it && foundItems == it.nextItemNo && -1 <= heapIterator < |path| && Lists(path, buckets)
      ensures old(Pending(it)) == Rest(buckets, it.key, heapIterator, start, start)
    {
      if owner != it || it.nextItemNo == 0 {
        Descend(it, path);
      }
    }

    lemma StillCurrent(it: KeyIterator, path: seq<NodeId>, buckets: seq<Bucket>)
      requires heap.nodes.Valid() && path == PathOf(it.key) && buckets == BucketsOf(it.key) && Lists(path, buckets)
      requires owner == it && foundItems == it.nextItemNo && -1 <= heapIterator < |path|
      ensures Current(it)
      ensures it.nextItemNo > 0 ==> Pending(it) == Rest(buckets, it.key, heapIterator, start, start)
    {
    }

    /** The body of `get_next`. */
    method Continue(it: KeyIterator, ghost path: seq<NodeId>, ghost buckets: seq<Bucket>) returns (id: nat)
      requires Ready() && Current(it) && path == PathOf(it.key) && buckets == BucketsOf(it.key)
      modifies this, visitedBuckets, it, heap.store`cacheUsed, heap.store`cacheId, heap.store.cached,
               heap.store.nextFreeSlot
      ensures Ready() && Lists(path, buckets) && owner == it && foundItems == it.nextItemNo
              && -1 <= heapIterator < |path|
      ensures var was := old(Pending(it));
              if was == [] then id == INVALID_TUPLE && heapIterator == -1
              else id <= KEY_MAX && was == [id] + Rest(buckets, it.key, heapIterator, start, start)
      ensures it.nextItemNo == old(it.nextItemNo) + if id == INVALID_TUPLE then 0 else 1
    {
      Begin(it, path, buckets);
      id := Search(it, path, buckets);
    }

    /** `get_next` for an iterator over one key: each call takes the next value off those
        that the iterator still yields. The first call answers whether the key was ever
        inserted. */
    method GetNext(it: KeyIterator) returns (id: nat)
      requires Ready() && Current(it)
      modifies this, visitedBuckets, it, heap.store`cacheUsed, heap.store`cacheId, heap.store.cached,
               heap.store.nextFreeSlot
      ensures Ready() && Current(it)
      ensures if old(Pending(it)) == [] then id == INVALID_TUPLE && Pending(it) == []
              else id <= KEY_MAX && old(Pending(it)) == [id] + Pending(it)
      ensures it.nextItemNo == old(it.nextItemNo) + if id == INVALID_TUPLE then 0 else 1
      ensures heap.nodes.Contents() == old(heap.nodes.Contents()) && heap.store.buckets == old(heap.store.buckets)
      ensures old(it.nextItemNo) == 0 ==>
                && (id == INVALID_TUPLE <==> NeverInserted(it.key))
                && (id != INVALID_TUPLE ==> id <= KEY_MAX && Pair(it.key, id) in heap.inserted)
    {
      ghost var path, buckets := PathOf(it.key), BucketsOf(it.key);
      if it.nextItemNo == 0 {
        FirstAnswer(it);
      }
      id := Continue(it, path, buckets);
      StillCurrent(it, path, buckets);
    }
  }
}
