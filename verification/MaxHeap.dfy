/** The "max-heap" index: range-labelled nodes, a bucket of pairs per node, insertion
    with bucket splitting, and the lookup of one key. */
module MaxHeap {
  import opened HeapNodes
  import opened HeapFile
  import opened HeapBuckets

  // ----- where pairs are -----

  /** A pair is stored at a used inner node whose range contains its hashed key, and a node has
      children only once its own bucket is full. */
  predicate PlacedAt(hash: Key -> Key, ns: Nodes, bs: Buckets, b: NodeId) {
    && |bs[b]| <= BUCKET_SIZE
    && (bs[b] != [] ==> b < INNER && Used(ns, b))
    && (forall k :: 0 <= k < |bs[b]| ==> In(b, hash(bs[b][k].key)))
    && (b < INNER && Used(ns, 2 * b + 1) ==> |bs[b]| == BUCKET_SIZE)
  }

  predicate Placed(hash: Key -> Key, ns: Nodes, bs: Buckets) {
    forall b: NodeId :: PlacedAt(hash, ns, bs, b)
  }

  /** A stored pair is in the bucket of one of the nodes on the path of its hash. */
  lemma StoredOnPath(hash: Key -> Key, ns: Nodes, bs: Buckets, p: Pair)
    requires Shape(ns) && Placed(hash, ns, bs)
    ensures p in Pool(bs) <==> exists b :: b in Path(ns, 0, hash(p.key)) && p in bs[b]
  {
    PoolMember(bs, p);
    forall b: NodeId | p in bs[b] ensures b in Path(ns, 0, hash(p.key)) {
      assert PlacedAt(hash, ns, bs, b) && Settled(ns, b);
      PathExact(ns, hash(p.key), b);
    }
  }

  /** The deepest node on the path, where `insert_item` wants to put a pair. */
  function Deepest(ns: Nodes, c: NodeId, x: Key): NodeId
    requires In(c, x) && Path(ns, c, x) != []
  {
    Path(ns, c, x)[|Path(ns, c, x)| - 1]
  }

  lemma {:induction false} DeepestEnds(ns: Nodes, c: NodeId, x: Key)
    requires In(c, x) && Path(ns, c, x) != []
    ensures var b := Deepest(ns, c, x);
            b < INNER && Used(ns, b) && In(b, x) && (!Used(ns, Child(b, x)) || Child(b, x) >= INNER)
    decreases NODE_LIMIT - c
  {
    ChildrenPartition(c, Child(c, x), x);
    if Path(ns, Child(c, x), x) != [] {
      DeepestEnds(ns, Child(c, x), x);
    }
  }

  /** One step of the descent. */
  lemma OneDown(ns: Nodes, b: NodeId, x: Key)
    requires Used(ns, b) && b < INNER && In(b, x)
    ensures var c := Child(b, x);
            && In(c, x) && (c == 2 * b + 1 || (Elder(c) && c - 1 == 2 * b + 1))
            && Deepest(ns, b, x) == if Used(ns, c) && c < INNER then Deepest(ns, c, x) else b
  {
    ChildrenPartition(b, Child(b, x), x);
    EitherChild(b, x);
  }

  /** The first inner node that is too low to be split usefully. */
  const LAST_LEVEL: nat := INNER / 2

  /** Whether an insertion finds room: the deepest bucket is not full, or its node can
      get children that are inner nodes. */
  predicate HasRoom(ns: Nodes, bs: Buckets, x: Key)
    requires Shape(ns)
  {
    var b := Deepest(ns, 0, x);
    |bs[b]| < BUCKET_SIZE || b < LAST_LEVEL
  }

  function Destination(ns: Nodes, bs: Buckets, x: Key): NodeId
    requires Shape(ns) && HasRoom(ns, bs, x)
  {
    var b := Deepest(ns, 0, x);
    if |bs[b]| < BUCKET_SIZE then b else Child(b, x)
  }

  lemma FullAboveChild(hash: Key -> Key, ns: Nodes, bs: Buckets, a: NodeId, x: Key)
    requires Shape(ns) && Placed(hash, ns, bs) && a < INNER && Used(ns, Child(a, x))
    ensures |bs[a]| == BUCKET_SIZE
  {
    assert Settled(ns, 2 * a + 1) && PlacedAt(hash, ns, bs, a);
  }

  /** Every bucket on a path but the deepest one is full. */
  lemma FullAboveDeepest(hash: Key -> Key, ns: Nodes, bs: Buckets, x: Key, k: nat)
    requires Shape(ns) && Placed(hash, ns, bs) && k < |Path(ns, 0, x)| - 1
    ensures |bs[Path(ns, 0, x)[k]]| == BUCKET_SIZE
  {
    var p := Path(ns, 0, x);
    PathIsChain(ns, 0, x);
    assert p[k + 1] in p;
    PathExact(ns, x, p[k + 1]);
    FullAboveChild(hash, ns, bs, p[k], x);
  }

  /** There is no room for a key if and only if its path has all eight nodes and the bucket
      of each of them is full. */
  lemma NoRoomIffPathFull(hash: Key -> Key, ns: Nodes, bs: Buckets, x: Key)
    requires Shape(ns) && Placed(hash, ns, bs)
    ensures var p := Path(ns, 0, x);
            !HasRoom(ns, bs, x) <==> |p| == 8 && forall k :: 0 <= k < |p| ==> |bs[p[k]]| == 128
  {
    var p := Path(ns, 0, x);
    var b := Deepest(ns, 0, x);
    PathIsChain(ns, 0, x);
    assert PlacedAt(hash, ns, bs, b) && Level(b) == |p| - 1;
    forall k | 0 <= k < |p| - 1 ensures |bs[p[k]]| == BUCKET_SIZE {
      FullAboveDeepest(hash, ns, bs, x, k);
    }
  }

  // ----- insertion -----

  /** The nodes after an insertion: a full deepest bucket is split, unless its node has
      children already. */
  function NodesAfter(ns: Nodes, bs: Buckets, x: Key): Nodes
    requires Shape(ns)
  {
    DeepestEnds(ns, 0, x);
    var b := Deepest(ns, 0, x);
    if |bs[b]| == BUCKET_SIZE && !Used(ns, 2 * b + 1) then Halved(ns, b) else ns
  }

  lemma HalvedFits(hash: Key -> Key, ns: Nodes, bs: Buckets, b: NodeId, c: NodeId)
    requires b < INNER && Used(ns, b) && |bs[b]| == BUCKET_SIZE && PlacedAt(hash, ns, bs, c)
    ensures PlacedAt(hash, Halved(ns, b), bs, c)
  {
    HalvedAt(ns, b, c);
    if c < INNER {
      HalvedAt(ns, b, 2 * c + 1);
      assert Parent(2 * c + 1) == c;
    }
  }

  lemma NodesAfterFit(hash: Key -> Key, ns: Nodes, bs: Buckets, x: Key)
    requires Shape(ns) && Placed(hash, ns, bs)
    ensures Shape(NodesAfter(ns, bs, x)) && Placed(hash, NodesAfter(ns, bs, x), bs)
  {
    var b := Deepest(ns, 0, x);
    DeepestEnds(ns, 0, x);
    if NodesAfter(ns, bs, x) != ns {
      HalvedShape(ns, b);
      forall c: NodeId ensures PlacedAt(hash, Halved(ns, b), bs, c) {
        HalvedFits(hash, ns, bs, b, c);
      }
    }
  }

  /** What a split of the deepest node finds. */
  lemma BeforeSplit(ns: Nodes, b: NodeId, x: Key)
    requires Shape(ns) && b == Deepest(ns, 0, x)
    ensures b < INNER && Used(ns, b) && In(b, x)
    ensures In(Child(b, x), x) && (Child(b, x) < INNER <==> b < LAST_LEVEL)
    ensures Child(b, x) == 2 * b + 1 || (Elder(Child(b, x)) && Child(b, x) - 1 == 2 * b + 1)
    ensures Used(ns, 2 * b + 1) ==> 2 * b + 1 >= INNER
    ensures Used(ns, Child(b, x)) == Used(ns, 2 * b + 1)
  {
    DeepestEnds(ns, 0, x);
    ChildOf(b, x);
    ChildrenUsed(ns, b, x);
  }

  lemma ChildOf(b: NodeId, x: Key)
    requires b < INNER && In(b, x)
    ensures In(Child(b, x), x) && (Child(b, x) < INNER <==> b < LAST_LEVEL)
    ensures Child(b, x) == 2 * b + 1 || (Elder(Child(b, x)) && Child(b, x) - 1 == 2 * b + 1)
  {
    ChildrenPartition(b, Child(b, x), x);
    EitherChild(b, x);
  }

  lemma ChildrenUsed(ns: Nodes, b: NodeId, x: Key)
    requires Shape(ns) && b < INNER
    ensures Used(ns, Child(b, x)) == Used(ns, 2 * b + 1)
  {
    assert Settled(ns, 2 * b + 1);
  }

  /** What the split of a node leaves. */
  lemma AfterSplit(hash: Key -> Key, ns: Nodes, bs: Buckets, b: NodeId, x: Key)
    requires Placed(hash, ns, bs) && b < INNER && !Used(ns, Child(b, x))
    ensures Used(Halved(ns, b), Child(b, x)) && bs[Child(b, x)] == []
  {
    EitherChild(b, x);
    HalvedAt(ns, b, Child(b, x));
    assert PlacedAt(hash, ns, bs, Child(b, x));
  }

  lemma AppendedFits(hash: Key -> Key, ns: Nodes, bs: Buckets, b: NodeId, p: Pair)
    requires Placed(hash, ns, bs) && b < INNER && Used(ns, b) && In(b, hash(p.key)) && |bs[b]| < BUCKET_SIZE
    ensures Placed(hash, ns, Appended(bs, b, p))
  {
    forall c: NodeId ensures PlacedAt(hash, ns, Appended(bs, b, p), c) {
      assert PlacedAt(hash, ns, bs, c);
    }
  }

  /** The node chosen is in use after the insertion, contains the hash and has room. */
  lemma DestinationFits(hash: Key -> Key, ns: Nodes, bs: Buckets, x: Key)
    requires Shape(ns) && Placed(hash, ns, bs) && HasRoom(ns, bs, x)
    ensures var b := Destination(ns, bs, x);
            b < INNER && Used(NodesAfter(ns, bs, x), b) && In(b, x) && |bs[b]| < BUCKET_SIZE
  {
    var b := Deepest(ns, 0, x);
    BeforeSplit(ns, b, x);
    if !Used(ns, 2 * b + 1) {
      AfterSplit(hash, ns, bs, b, x);
    }
    assert PlacedAt(hash, ns, bs, b);
  }

  /** The pair finds its place among the nodes after the insertion. */
  lemma InsertedFits(hash: Key -> Key, ns: Nodes, bs: Buckets, p: Pair)
    requires Shape(ns) && Placed(hash, ns, bs) && HasRoom(ns, bs, hash(p.key))
    ensures |bs[Destination(ns, bs, hash(p.key))]| < BUCKET_SIZE
    ensures Placed(hash, NodesAfter(ns, bs, hash(p.key)), Appended(bs, Destination(ns, bs, hash(p.key)), p))
  {
    var x := hash(p.key);
    NodesAfterFit(hash, ns, bs, x);
    DestinationFits(hash, ns, bs, x);
    AppendedFits(hash, NodesAfter(ns, bs, x), bs, Destination(ns, bs, x), p);
  }

  // ----- a sequence of insertions -----

  /** A new index: the root has its range, and all buckets are empty. */
  function RootOnly(): Nodes {
    seq(NODE_LIMIT, i => EMPTY_NODE)[0 := Range(0)]
  }

  function NoPairs(): Buckets {
    seq(NODE_LIMIT, i => [])
  }

  lemma NewIndexFits(hash: Key -> Key)
    ensures Shape(RootOnly()) && Placed(hash, RootOnly(), NoPairs())
  {
    forall i: NodeId ensures Settled(RootOnly(), i) && PlacedAt(hash, RootOnly(), NoPairs(), i) {
    }
  }

  /** Nodes and buckets after one insertion; what finds no room is dropped. */
  function Inserted(hash: Key -> Key, ns: Nodes, bs: Buckets, p: Pair): (r: (Nodes, Buckets))
    requires Shape(ns) && Placed(hash, ns, bs)
    ensures Shape(r.0) && Placed(hash, r.0, r.1)
  {
    NodesAfterFit(hash, ns, bs, hash(p.key));
    if HasRoom(ns, bs, hash(p.key)) then
      InsertedFits(hash, ns, bs, p);
      (NodesAfter(ns, bs, hash(p.key)), Appended(bs, Destination(ns, bs, hash(p.key)), p))
    else (NodesAfter(ns, bs, hash(p.key)), bs)
  }

  /** Nodes and buckets after insertions into a new index. */
  function AfterInserts(hash: Key -> Key, pairs: seq<Pair>): (r: (Nodes, Buckets))
    ensures Shape(r.0) && Placed(hash, r.0, r.1)
  {
    if pairs == [] then
      NewIndexFits(hash);
      (RootOnly(), NoPairs())
    else
      var (ns, bs) := AfterInserts(hash, pairs[..|pairs| - 1]);
      Inserted(hash, ns, bs, pairs[|pairs| - 1])
  }

  /** An index: its two files, the hash of keys, and all pairs inserted successfully so
      far, oldest first. */
  class MaxHeap {
    const hash: Key -> Key
    const nodes: NodeFile
    const store: BucketFile
    ghost var inserted: seq<Pair>

    /** What every sequence of insertions keeps. The stored pairs are exactly the pairs
        inserted. */
    ghost predicate Valid()
      reads this`inserted, nodes.nodes, store`buckets, store.pairs, store.nextFreeSlot
    {
      && nodes.Valid() && store.Valid()
      && Shape(nodes.Contents()) && Placed(hash, nodes.Contents(), store.buckets)
      && Pool(store.buckets) == multiset(inserted)
    }

    /** `create` */
    constructor (hash: Key -> Key)
      ensures Valid() && this.hash == hash && inserted == [] && !store.cacheUsed
      ensures (nodes.Contents(), store.buckets) == AfterInserts(hash, [])
      ensures fresh(nodes.nodes) && fresh(store) && fresh(store.pairs) && fresh(store.nextFreeSlot)
              && fresh(store.cached)
    {
      this.hash := hash;
      nodes := new NodeFile();
      store := new BucketFile();
      inserted := [];
      new;
      ghost var blank := nodes.Contents();
      AllBelowRoot(0);
      assert Walkable(blank, 0);
      var root := nodes.Insert(0, KEY_MAX, 0);
      PoolOfEmpty(store.buckets);
      assert blank == seq(NODE_LIMIT, i => EMPTY_NODE) && store.buckets == NoPairs();
      assert nodes.Contents() == RootOnly();
      NewIndexFits(hash);
    }

    /** The first loop of `insert_item`: follow `heap_find` down. */
    method FindDeepest(x: Key) returns (b: NodeId, next: nat)
      requires nodes.Valid() && Shape(nodes.Contents())
      ensures b == Deepest(nodes.Contents(), 0, x) && next == 2 * b + 1
    {
      ghost var ns := nodes.Contents();
      b, next := 0, 0;
      var found: int;
      found, next := nodes.Find(x, next, 0);
      while found >= 0
        invariant Used(ns, b) && b < INNER && In(b, x) && next == 2 * b + 1
        invariant found < 0 || found == b
        invariant Deepest(ns, 0, x) == if found < 0 then b else Deepest(ns, b, x)
        decreases NODE_LIMIT - next, found
      {
        OneDown(ns, b, x);
        found, next := nodes.Find(x, next, Child(b, x));
        if found >= 0 {
          b := found;
        }
      }
    }

    /** The part of `insert_item` for a full bucket: split its node, and find the child
        for the hash. */
    method MakeRoom(b: NodeId, x: Key) returns (target: int)
      requires Valid() && b == Deepest(nodes.Contents(), 0, x) && |store.buckets[b]| == BUCKET_SIZE
      modifies nodes.nodes
      ensures nodes.Contents() == old(NodesAfter(nodes.Contents(), store.buckets, x))
      ensures target == if old(HasRoom(nodes.Contents(), store.buckets, x))
                        then old(Destination(nodes.Contents(), store.buckets, x)) else -1
    {
      NodesAfterFit(hash, nodes.Contents(), store.buckets, x);
      BeforeSplit(nodes.Contents(), b, x);
      if !Used(nodes.Contents(), 2 * b + 1) {
        AfterSplit(hash, nodes.Contents(), store.buckets, b, x);
      }
      var split := nodes.Split(b);
      if !split {
        return -1;
      }
      var next;
      target, next := nodes.Find(x, 2 * b + 1, Child(b, x));
    }

    /** `insert_item`. It succeeds if and only if the path of the hash has room, and then
        appends to one bucket; a split moves no pair. */
    method InsertItem(key: Key, value: Key) returns (ok: bool)
      requires Valid()
      modifies this`inserted, nodes.nodes, store`buckets, store.pairs, store.nextFreeSlot
      ensures Valid()
      ensures ok == old(HasRoom(nodes.Contents(), store.buckets, hash(key)))
      ensures (nodes.Contents(), store.buckets)
              == Inserted(hash, old(nodes.Contents()), old(store.buckets), Pair(key, value))
      ensures inserted == old(inserted) + if ok then [Pair(key, value)] else []
    {
      ghost var ns, bs := nodes.Contents(), store.buckets;
      var p := Pair(key, value);
      var b, next := FindDeepest(hash(key));
      assert PlacedAt(hash, ns, bs, b);
      NodesAfterFit(hash, ns, bs, hash(key));
      var target: int := b;
      if store.nextFreeSlot[b] == BUCKET_SIZE {
        target := MakeRoom(b, hash(key));
        if target < 0 {
          return false;
        }
      }
      InsertedFits(hash, ns, bs, p);
      ok := store.Append(target, p);
      PoolAppended(bs, target, p);
      inserted := inserted + [p];
    }
  }
}
