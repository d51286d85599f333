/** The bucket file of the "max-heap" index, with the one bucket that is cached in
    memory. A bucket is an unsorted list of pairs that only ever grows. */
module HeapBuckets {
  import opened HeapNodes

  const BUCKET_SIZE: nat := 128

  datatype Pair = Pair(key: Key, value: Key)

  const EMPTY_PAIR := Pair(0, 0)

  type Buckets = s: seq<seq<Pair>> | |s| == NODE_LIMIT witness seq(NODE_LIMIT, i => [])

  /** Where a pair is stored in the bucket file. */
  function Slot(b: NodeId, k: nat): (i: nat)
    ensures k < BUCKET_SIZE ==> i < NODE_LIMIT * BUCKET_SIZE
  {
    b * BUCKET_SIZE + k
  }

  function Appended(bs: Buckets, b: NodeId, p: Pair): Buckets {
    bs[b := bs[b] + [p]]
  }

  /** All stored pairs. */
  function Pool(bs: seq<seq<Pair>>): multiset<Pair> {
    if bs == [] then multiset{} else Pool(bs[..|bs| - 1]) + multiset(bs[|bs| - 1])
  }

  /** Appending to one bucket adds one pair to the whole. */
  lemma {:induction false} PoolAppended(bs: seq<seq<Pair>>, b: nat, p: Pair)
    requires b < |bs|
    ensures Pool(bs[b := bs[b] + [p]]) == Pool(bs) + multiset{p}
  {
    var n := |bs| - 1;
    var after := bs[b := bs[b] + [p]];
    if b < n {
      assert after[..n] == bs[..n][b := bs[..n][b] + [p]];
      PoolAppended(bs[..n], b, p);
    } else {
      assert after[..n] == bs[..n];
    }
  }

  lemma {:induction false} PoolMember(bs: seq<seq<Pair>>, p: Pair)
    ensures p in Pool(bs) <==> exists b :: 0 <= b < |bs| && p in bs[b]
  {
    if bs != [] {
      var n := |bs| - 1;
      PoolMember(bs[..n], p);
      assert forall b :: 0 <= b < n ==> bs[..n][b] == bs[b];
      assert p in multiset(bs[n]) <==> p in bs[n];
    }
  }

  lemma {:induction false} PoolOfEmpty(bs: seq<seq<Pair>>)
    requires forall b :: 0 <= b < |bs| ==> bs[b] == []
    ensures Pool(bs) == multiset{}
  {
    if bs != [] {
      PoolOfEmpty(bs[..|bs| - 1]);
    }
  }

  class BucketFile {
    const pairs: array<Pair>
    const nextFreeSlot: array<nat>
    const cached: array<Pair>
    var cacheUsed: bool
    var cacheId: NodeId
    /** The pairs of every bucket, in the order in which they were appended. */
    ghost var buckets: Buckets

    /** The slots in use hold the pairs; the others are still blank. */
    ghost predicate Valid()
      reads this`buckets, pairs, nextFreeSlot
    {
      && pairs.Length == NODE_LIMIT * BUCKET_SIZE && nextFreeSlot.Length == NODE_LIMIT && cached.Length == BUCKET_SIZE
      && pairs != cached
      && (forall b: NodeId :: nextFreeSlot[b] == |buckets[b]| <= BUCKET_SIZE)
      && (forall b: NodeId, k :: 0 <= k < BUCKET_SIZE ==>
            pairs[Slot(b, k)] == if k < |buckets[b]| then buckets[b][k] else EMPTY_PAIR)
    }

    /** The cached bucket is the one in storage. `Append` does not see to this. */
    ghost predicate Coherent()
      requires cached.Length == BUCKET_SIZE
      reads this`buckets, this`cacheUsed, this`cacheId, cached
    {
      cacheUsed ==> forall k :: 0 <= k < |buckets[cacheId]| && k < BUCKET_SIZE ==> cached[k] == buckets[cacheId][k]
    }

    constructor ()
      ensures Valid() && !cacheUsed && fresh(pairs) && fresh(nextFreeSlot) && fresh(cached)
      ensures forall b: NodeId :: buckets[b] == []
    {
      pairs := new Pair[NODE_LIMIT * BUCKET_SIZE](i => EMPTY_PAIR);
      nextFreeSlot := new nat[NODE_LIMIT](i => 0);
      cached := new Pair[BUCKET_SIZE](i => EMPTY_PAIR);
      cacheUsed, cacheId := false, 0;
      buckets := seq(NODE_LIMIT, i => []);
    }

    /** `bucket_append` */
    method Append(b: NodeId, p: Pair) returns (ok: bool)
      requires Valid()
      modifies this`buckets, pairs, nextFreeSlot
      ensures Valid()
      ensures ok == (|old(buckets)[b]| < BUCKET_SIZE)
      ensures buckets == if ok then Appended(old(buckets), b, p) else old(buckets)
    {
      if nextFreeSlot[b] >= BUCKET_SIZE {
        return false;
      }
      pairs[Slot(b, nextFreeSlot[b])] := p;
      nextFreeSlot[b] := nextFreeSlot[b] + 1;
      buckets := Appended(buckets, b, p);
      return true;
    }

    /** `bucket_read`: only the used part of the bucket, or all of a bucket that seems
        unused, is read. The rest of the cache keeps what it held. */
    method Read(b: NodeId)
      requires Valid()
      modifies cached
      ensures forall k :: 0 <= k < (if nextFreeSlot[b] == 0 then BUCKET_SIZE else nextFreeSlot[b]) ==>
                cached[k] == pairs[Slot(b, k)]
    {
      var size := if nextFreeSlot[b] == 0 then BUCKET_SIZE else nextFreeSlot[b];
      for k := 0 to size
        invariant forall j :: 0 <= j < k ==> cached[j] == pairs[Slot(b, j)]
      {
        cached[k] := pairs[Slot(b, k)];
      }
    }

    /** The search of `bucket_load` for the first blank pair. */
    method FirstBlank() returns (i: nat)
      requires cached.Length == BUCKET_SIZE
      ensures i <= BUCKET_SIZE && (i < BUCKET_SIZE ==> cached[i] == EMPTY_PAIR)
      ensures forall j :: 0 <= j < i ==> cached[j] != EMPTY_PAIR
    {
      i := 0;
      while i < BUCKET_SIZE && cached[i] != EMPTY_PAIR
        invariant i <= BUCKET_SIZE && forall j :: 0 <= j < i ==> cached[j] != EMPTY_PAIR
      {
        i := i + 1;
      }
    }

    /** `bucket_load`. A bucket without a known free slot is searched for its first blank
        pair. */
    method Load(b: NodeId)
      requires Valid() && Coherent()
      modifies this`cacheUsed, this`cacheId, cached, nextFreeSlot
      ensures Valid() && Coherent() && cacheUsed && cacheId == b && nextFreeSlot[b] == |buckets[b]|
    {
      if cacheUsed && cacheId == b {
        return;
      }
      cacheUsed := false;
      Read(b);
      cacheUsed, cacheId := true, b;
      if nextFreeSlot[b] == 0 {
        var i := FirstBlank();
        assert pairs[Slot(b, 0)] == EMPTY_PAIR;
        nextFreeSlot[b] := i;
      }
    }
  }
}
