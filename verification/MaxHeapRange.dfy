/** Looking a range of keys up in the "max-heap" index: one key after the other. */
module MaxHeapRange {
  import opened Common
  import opened HeapNodes
  import opened HeapBuckets
  import opened MaxHeap
  import opened MaxHeapLookup

  /** What a search for a key yields, from its start on. */
  function IdsOf(hash: Key -> Key, ns: Nodes, bs: Buckets, key: Key): seq<Key> {
    var buckets := Along(bs, Path(ns, 0, hash(key)));
    Rest(buckets, key, |buckets| - 1, 0, 0)
  }

  function AllIdsOf(hash: Key -> Key, ns: Nodes, bs: Buckets): Key -> seq<Key> {
    (key: Key) => IdsOf(hash, ns, bs, key)
  }

  /** What a search for a range of keys yields: one key after the other. */
  function Chained(ids: Key -> seq<Key>, min: nat, max: Key): seq<Key>
    decreases max + 1 - min
  {
    if min > max then [] else ids(min) + Chained(ids, min + 1, max)
  }

  /** A call answers with the first of the ids that are pending, if there is one. */
  ghost predicate Taken(was: seq<Key>, id: nat, now: seq<Key>) {
    if was == [] then id == INVALID_TUPLE && now == [] else id <= KEY_MAX && was == [id] + now
  }

  lemma TakeOff(was: seq<Key>, id: nat, now: seq<Key>, later: seq<Key>)
    requires Taken(was, id, now)
    ensures if id == INVALID_TUPLE then was + later == later else Taken(was + later, id, now + later)
    ensures id == INVALID_TUPLE && later == [] ==> Taken(was + later, id, now + later)
  {
  }

  /** An index iterator for the keys up to `last`. The code counts `min_value` up and sets the
      number of the next item back to 0, so that the search for the next key starts as one with a
      new iterator does. `ids` gives what each key yields. */
  class RangeIterator {
    const last: Key
    var current: KeyIterator
    ghost const ids: Key -> seq<Key>

    constructor (first: Key, last: Key, lookup: Lookup)
      requires lookup.heap.nodes.Valid()
      ensures fresh(current) && current.key == first && current.nextItemNo == 0 && this.last == last && Over(lookup)
    {
      this.last := last;
      current := new KeyIterator(first);
      ids := AllIdsOf(lookup.heap.hash, lookup.heap.nodes.Contents(), lookup.heap.store.buckets);
    }

    /** The iterator runs over the index of the lookup. */
    ghost predicate Over(lookup: Lookup)
      requires lookup.heap.nodes.Valid()
      reads lookup.heap.nodes.nodes, lookup.heap.store`buckets
    {
      ids == AllIdsOf(lookup.heap.hash, lookup.heap.nodes.Contents(), lookup.heap.store.buckets)
    }

    ghost predicate Valid(lookup: Lookup)
      requires lookup.heap.nodes.Valid()
      reads this, current, lookup, lookup.visitedBuckets, lookup.heap.nodes.nodes, lookup.heap.store`buckets
    {
      && Over(lookup) && current.key <= last && lookup.Current(current)
      && (current.nextItemNo > 0 ==> ids(current.key) != [])
    }

    /** All that the range still yields. */
    ghost function Pending(lookup: Lookup): seq<Key>
      requires lookup.heap.nodes.Valid() && Valid(lookup)
      reads this, current, lookup, lookup.visitedBuckets, lookup.heap.nodes.nodes, lookup.heap.store`buckets
    {
      lookup.Pending(current) + Chained(ids, current.key + 1, last)
    }

    lemma AtStart(lookup: Lookup)
      requires lookup.heap.nodes.Valid() && Over(lookup) && current.key <= last && current.nextItemNo == 0
      ensures Valid(lookup)
      ensures lookup.Pending(current) == ids(current.key) && Pending(lookup) == Chained(ids, current.key, last)
    {
    }

    /** The part of `get_next` for the current key. */
    method NextOfKey(lookup: Lookup, ghost was: seq<Key>, ghost later: seq<Key>) returns (id: nat, ghost now: seq<Key>)
      requires lookup.Ready() && Valid(lookup) && was == lookup.Pending(current)
      requires later == Chained(ids, current.key + 1, last)
      modifies current, lookup, lookup.visitedBuckets, lookup.heap.store`cacheUsed, lookup.heap.store`cacheId,
               lookup.heap.store.cached, lookup.heap.store.nextFreeSlot
      ensures lookup.Ready() && Valid(lookup) && Taken(was, id, now)
      ensures now == lookup.Pending(current) && Pending(lookup) == now + later
      ensures id == INVALID_TUPLE ==> (current.nextItemNo == 0 <==> ids(current.key) == [])
    {
      if current.nextItemNo == 0 {
        AtStart(lookup);
      }
      var it := current;
      id := lookup.GetNext(it);
      now := lookup.Pending(it);
      Parts(lookup, now, later);
    }

    lemma Parts(lookup: Lookup, now: seq<Key>, later: seq<Key>)
      requires lookup.heap.nodes.Valid() && Valid(lookup)
      requires now == lookup.Pending(current) && later == Chained(ids, current.key + 1, last)
      ensures Pending(lookup) == now + later
    {
    }

    /** On to the next key. */
    method StepKey()
      requires current.key < last
      modifies this`current
      ensures fresh(current) && current.key == old(current.key) + 1 && current.nextItemNo == 0
    {
      current := new KeyIterator(current.key + 1);
    }

    /** What is pending then. */
    method NextKey(lookup: Lookup, ghost key: Key, ghost later: seq<Key>)
      requires lookup.heap.nodes.Valid() && Over(lookup) && current.key < last
      requires key == current.key + 1 && later == Chained(ids, key, last)
      modifies this`current
      ensures fresh(current) && current.key == key && Valid(lookup) && Pending(lookup) == later
    {
      StepKey();
      AtStart(lookup);
    }

    /** `get_next`: each call takes the next id off those that the range still yields, one key after
        the other. At the end the number of the next item is 0 iff the last key yields nothing. */
    method GetNext(lookup: Lookup) returns (id: nat)
      requires lookup.Ready() && Valid(lookup)
      modifies this`current, current, lookup, lookup.visitedBuckets, lookup.heap.store`cacheUsed,
               lookup.heap.store`cacheId, lookup.heap.store.cached, lookup.heap.store.nextFreeSlot
      ensures lookup.Ready() && Valid(lookup) && (current == old(current) || fresh(current))
      ensures Taken(old(Pending(lookup)), id, Pending(lookup))
      ensures id == INVALID_TUPLE ==> current.key == last && (current.nextItemNo == 0 <==> ids(last) == [])
      decreases last - current.key
    {
      ghost var was, later := lookup.Pending(current), Chained(ids, current.key + 1, last);
      ghost var all := Pending(lookup);
      assert all == was + later;
      ghost var now;
      id, now := NextOfKey(lookup, was, later);
      TakeOff(was, id, now, later);
      if id == INVALID_TUPLE && current.key != last {
        assert all == later;
        NextKey(lookup, current.key + 1, later);
        id := GetNext(lookup);
      } else {
        assert id == INVALID_TUPLE ==> later == [];
        assert Taken(all, id, now + later);
      }
    }
  }
}
