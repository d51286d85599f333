/** SELECT and JOIN over the "max-heap" index: they are complete exactly if the lookups are. */
module HeapQueries {
  import opened Common
  import opened LvmCode
  import LvmDerive
  import opened HeapNodes
  import opened HeapBuckets
  import opened MaxHeap
  import opened MaxHeapLookup
  import opened MaxHeapRange
  import opened HeapIndex
  import opened RowVisits
  import opened RelationSelect
  import RelationIndexed
  import RelationJoin

  // ----- selection by equality -----

  /** The condition compares the variable that a column supplies with a key. */
  predicate Equality(q: Query, v: VarId, c: nat, key: Key) {
    q.condition == Relation(EQ, Leaf(Variable(v)), Leaf(Long(key))) && ColumnOf(q.attributes, v) == Some(c)
  }

  lemma MatchesKey(q: Query, v: VarId, c: nat, key: Key, id: nat)
    requires Fits(q.attributes, q.rows) && Equality(q, v, c, key) && id < |q.rows|
    ensures q.Matches(id) <==> q.Column(c)[id] == key
  {
    ColumnInRow(q.attributes, v, |q.rows[id]|);
    assert RowEnv(q.attributes, q.rows[id], q.base)[v] == q.Column(c)[id];
  }

  lemma {:induction false} AllMatch(q: Query, ids: seq<nat>)
    requires forall k :: 0 <= k < |ids| ==> ids[k] < |q.rows| && q.Matches(ids[k])
    ensures RowVisits.Rows(q.Visits(), ids) && |Follow(q.Visits(), ids)| == |ids|
  {
    if ids != [] {
      AllMatch(q, ids[..|ids| - 1]);
    }
  }

  /** All rows with the key, each once, are what the scan emits. */
  lemma KeyRows(q: Query, v: VarId, c: nat, key: Key, ids: seq<nat>)
    requires Fits(q.attributes, q.rows) && Equality(q, v, c, key) && RowsWith(ids, q.Column(c), key, key)
    ensures RowVisits.Rows(q.Visits(), ids) && |Follow(q.Visits(), ids)| == |ids|
    ensures multiset(Follow(q.Visits(), ids)) == multiset(q.Rows(0, |q.rows|))
  {
    forall k | 0 <= k < |ids| ensures ids[k] < |q.rows| && q.Matches(ids[k]) {
      assert ids[k] in ids;
      MatchesKey(q, v, c, key, ids[k]);
    }
    AllMatch(q, ids);
    forall i | 0 <= i < |q.rows| && q.Visits()[i] != [] ensures i in ids {
      MatchesKey(q, v, c, key, i);
    }
    FollowIsScan(q.Visits(), ids, |q.rows|);
  }

  /** A SELECT by equality over the index emits the rows of the scan iff the lookup of the key finds
      everything. */
  lemma SelectByKeyIff(q: Query, v: VarId, c: nat, key: Key, hash: Key -> Key, ns: Nodes, bs: Buckets)
    requires Fits(q.attributes, q.rows) && Equality(q, v, c, key) && Indexes(hash, ns, bs, q.Column(c))
    ensures var ids := IdsOf(hash, ns, bs, key);
            && RowVisits.Rows(q.Visits(), ids)
            && (multiset(Follow(q.Visits(), ids)) == multiset(q.Rows(0, |q.rows|)) <==> FindsAll(hash, key, (ns, bs)))
  {
    var ids: seq<nat>, all: seq<nat> := IdsOf(hash, ns, bs, key), StoredIds(hash, ns, bs, key);
    IdsExactly(hash, ns, bs, q.Column(c), key);
    StoredExactly(hash, ns, bs, q.Column(c), key);
    KeyRows(q, v, c, key, all);
    forall k | 0 <= k < |ids| ensures ids[k] < |q.rows| && q.Matches(ids[k]) {
      assert ids[k] in ids;
      MatchesKey(q, v, c, key, ids[k]);
    }
    AllMatch(q, ids);
    if FindsAll(hash, key, (ns, bs)) {
      KeyRows(q, v, c, key, ids);
    } else {
      assert |multiset(Follow(q.Visits(), ids))| < |multiset(Follow(q.Visits(), all))|;
    }
  }

  // ----- selection by a range -----

  /** If all keys of a derived range are found completely, the index yields every row of the range
      once, and so the SELECT emits the rows of the scan. */
  lemma SelectByRange(q: Query, v: VarId, c: nat, min: nat, max: Key, hash: Key -> Key, ns: Nodes, bs: Buckets)
    requires Fits(q.attributes, q.rows) && LvmDerive.InLong(q.base) && q.SoundCondition()
    requires LvmDerive.Derive(q.condition).Some? && ColumnOf(q.attributes, v) == Some(c)
    requires LvmDerive.Derive(q.condition).value[v] == LvmDerive.Range(min, max, true)
    requires Indexes(hash, ns, bs, q.Column(c))
    requires forall key: Key :: min <= key <= max ==> FindsAll(hash, key, (ns, bs))
    ensures var ids := Chained(AllIdsOf(hash, ns, bs), min, max);
            RelationIndexed.YieldsRange(q, ids, v, c) && RelationIndexed.YieldsSomeRange(q, ids)
  {
    var ids := Chained(AllIdsOf(hash, ns, bs), min, max);
    RangeExactly(hash, ns, bs, q.Column(c), min, max);
    forall k | 0 <= k < |ids| ensures ids[k] < |q.rows| {
      assert ids[k] in ids;
    }
    assert RelationIndexed.YieldsRange(q, ids, v, c);
  }

  // ----- equal rows -----

  function Numbers(n: nat): seq<Key>
    requires n <= KEY_MAX + 1
  {
    seq(n, i requires 0 <= i < n => i)
  }

  /** Up to 129 rows with one key have been inserted in their order into a new index. */
  lemma EqualKeysIndexed(hash: Key -> Key, key: Key, n: nat)
    requires n <= BUCKET_SIZE + 1
    ensures var s := AfterInserts(hash, Pairs(key, Numbers(n)));
            Indexes(hash, s.0, s.1, seq(n, i requires 0 <= i < n => key))
  {
    var s := AfterInserts(hash, Pairs(key, Numbers(n)));
    assert Entries(seq(n, i requires 0 <= i < n => key)) == Pairs(key, Numbers(n));
    if n <= BUCKET_SIZE {
      PoolOfRoot(hash, key, Numbers(n));
    } else {
      PoolOfSplit(hash, key, Numbers(n));
    }
  }

  lemma PoolOfRoot(hash: Key -> Key, key: Key, values: seq<Key>)
    requires |values| <= BUCKET_SIZE
    ensures Pool(AfterInserts(hash, Pairs(key, values)).1) == multiset(Pairs(key, values))
  {
    IntoRoot(hash, key, values);
    PoolOfEmpty(NoPairs());
    var bs, pairs := NoPairs()[0 := Pairs(key, values)], Pairs(key, values);
    forall p ensures Pool(bs)[p] == multiset(pairs)[p] {
      PoolUpdate(NoPairs(), 0, pairs, p);
    }
  }

  /** An insertion that finds room adds its pair to the pool. */
  lemma PoolInserted(hash: Key -> Key, ns: Nodes, bs: Buckets, p: Pair)
    requires Shape(ns) && Placed(hash, ns, bs) && HasRoom(ns, bs, hash(p.key))
    ensures Pool(Inserted(hash, ns, bs, p).1) == Pool(bs) + multiset{p}
  {
    PoolAppended(bs, Destination(ns, bs, hash(p.key)), p);
  }

  lemma RootHasRoom(hash: Key -> Key, key: Key, values: seq<Key>)
    requires |values| <= BUCKET_SIZE
    ensures var s := AfterInserts(hash, Pairs(key, values)); HasRoom(s.0, s.1, hash(key))
  {
    IntoRoot(hash, key, values);
    OnlyRoot(hash(key));
  }

  lemma PoolStep(hash: Key -> Key, before: (Nodes, Buckets), after: (Nodes, Buckets), p: Pair, pairs: seq<Pair>)
    requires Shape(before.0) && Placed(hash, before.0, before.1) && HasRoom(before.0, before.1, hash(p.key))
    requires after == Inserted(hash, before.0, before.1, p) && Pool(before.1) == multiset(pairs)
    ensures Pool(after.1) == multiset(pairs + [p])
  {
    PoolInserted(hash, before.0, before.1, p);
  }

  lemma PoolOfSplit(hash: Key -> Key, key: Key, values: seq<Key>)
    requires |values| == BUCKET_SIZE + 1
    ensures Pool(AfterInserts(hash, Pairs(key, values)).1) == multiset(Pairs(key, values))
  {
    var fewer := values[..BUCKET_SIZE];
    var before := AfterInserts(hash, Pairs(key, fewer));
    RootHasRoom(hash, key, fewer);
    PoolOfRoot(hash, key, fewer);
    LastInsert(hash, key, values);
    PoolStep(hash, before, AfterInserts(hash, Pairs(key, values)), Pair(key, values[BUCKET_SIZE]), Pairs(key, fewer));
    assert Pairs(key, values) == Pairs(key, fewer) + [Pair(key, values[BUCKET_SIZE])];
  }

  /** Of up to 129 rows with one key, a SELECT by equality over the index emits all iff there are
      no more than 128. */
  lemma SelectEqualRowsIff(q: Query, v: VarId, c: nat, key: Key, hash: Key -> Key)
    requires Fits(q.attributes, q.rows) && Equality(q, v, c, key) && |q.rows| <= 129
    requires forall r :: 0 <= r < |q.rows| ==> q.Column(c)[r] == key
    ensures var s := AfterInserts(hash, Pairs(key, Numbers(|q.rows|)));
            var ids := IdsOf(hash, s.0, s.1, key);
            && RowVisits.Rows(q.Visits(), ids)
            && (multiset(Follow(q.Visits(), ids)) == multiset(q.Rows(0, |q.rows|)) <==> |q.rows| <= 128)
  {
    var n := |q.rows|;
    var s := AfterInserts(hash, Pairs(key, Numbers(n)));
    EqualKeysIndexed(hash, key, n);
    assert q.Column(c) == seq(n, i requires 0 <= i < n => key);
    SameKeyCompleteIff(hash, key, Numbers(n));
    assert (s.0, s.1) == s;
    SelectByKeyIff(q, v, c, key, hash, s.0, s.1);
  }

  // ----- joins -----

  function RightColumn(plan: RelationJoin.Plan): seq<int> {
    seq(|plan.right|, j requires 0 <= j < |plan.right| =>
      if plan.rightColumn < |plan.right[j]| then plan.right[j][plan.rightColumn] else 0)
  }

  /** A join over the index of the right column; the left values are keys. */
  ghost predicate OverHeap(plan: RelationJoin.Plan, hash: Key -> Key, ns: Nodes, bs: Buckets) {
    && plan.Valid() && Indexes(hash, ns, bs, RightColumn(plan))
    && forall t :: 0 <= t < |plan.left| ==>
         0 <= plan.Key(plan.left[t]) <= KEY_MAX
         && plan.index(plan.Key(plan.left[t])) == IdsOf(hash, ns, bs, plan.Key(plan.left[t]))
  }

  ghost predicate FoundFrom(plan: RelationJoin.Plan, hash: Key -> Key, ns: Nodes, bs: Buckets, t: nat)
    requires OverHeap(plan, hash, ns, bs)
  {
    forall k :: t <= k < |plan.left| ==> FindsAll(hash, plan.Key(plan.left[k]), (ns, bs))
  }

  lemma HoldsKey(plan: RelationJoin.Plan, j: nat, key: int)
    requires plan.Valid() && j < |plan.right|
    ensures plan.Holds(j, key) <==> RightColumn(plan)[j] == key
  {
  }

  lemma RowsHold(plan: RelationJoin.Plan, ids: seq<nat>, key: int)
    requires plan.Valid() && forall r :: r in ids ==> r < |plan.right| && RightColumn(plan)[r] == key
    ensures forall k :: 0 <= k < |ids| ==> ids[k] < |plan.right| && plan.Holds(ids[k], key)
  {
    forall k | 0 <= k < |ids| ensures ids[k] < |plan.right| && plan.Holds(ids[k], key) {
      assert ids[k] in ids;
      HoldsKey(plan, ids[k], key);
    }
  }

  /** What the definition of the equi-join adds for a left row is as long as what is stored. */
  lemma AddedLength(plan: RelationJoin.Plan, hash: Key -> Key, ns: Nodes, bs: Buckets, t: nat)
    requires OverHeap(plan, hash, ns, bs) && t < |plan.left|
    ensures var l := plan.left[t];
            |Scan(plan.Matches(l), 0, |plan.right|)| == |StoredIds(hash, ns, bs, plan.Key(l))|
  {
    var l := plan.left[t];
    var key := plan.Key(l);
    var all: seq<nat> := StoredIds(hash, ns, bs, key);
    StoredExactly(hash, ns, bs, RightColumn(plan), key);
    RowsHold(plan, all, key);
    plan.FollowEach(l, all);
    forall i | 0 <= i < |plan.right| && plan.Matches(l)[i] != [] ensures i in all {
      HoldsKey(plan, i, key);
    }
    FollowIsScan(plan.Matches(l), all, |plan.right|);
    assert |multiset(Follow(plan.Matches(l), all))| == |multiset(Scan(plan.Matches(l), 0, |plan.right|))|;
  }

  /** One left row adds as many turns to the nested loops as rows to the equi-join, or fewer turns. */
  ghost predicate RowLength(plan: RelationJoin.Plan, t: nat, found: bool)
    requires t < |plan.left|
  {
    var turns := |plan.index(plan.Key(plan.left[t]))|;
    var rows := |Scan(plan.Matches(plan.left[t]), 0, |plan.right|)|;
    if found then turns == rows else turns < rows
  }

  /** The nested loops take no more turns than the equi-join has rows, and as many only if every
      lookup finds everything. */
  lemma {:induction false} JoinLengths(plan: RelationJoin.Plan, found: seq<bool>, t: nat)
    requires |found| == |plan.left| && t <= |plan.left|
    requires forall k :: 0 <= k < |plan.left| ==> RowLength(plan, k, found[k])
    ensures if forall k :: t <= k < |found| ==> found[k] then |plan.Outer(t)| == |plan.EquiJoin(t)|
            else |plan.Outer(t)| < |plan.EquiJoin(t)|
    decreases |plan.left| - t
  {
    if t < |plan.left| {
      JoinLengths(plan, found, t + 1);
      OneRowMore(plan, t);
      assert RowLength(plan, t, found[t]);
      assert (forall k :: t <= k < |found| ==> found[k]) <==> found[t] && forall k :: t + 1 <= k < |found| ==> found[k];
    }
  }

  lemma OneRowMore(plan: RelationJoin.Plan, t: nat)
    requires t < |plan.left|
    ensures |plan.Outer(t)| == |plan.index(plan.Key(plan.left[t]))| + |plan.Outer(t + 1)|
    ensures |plan.EquiJoin(t)| == |Scan(plan.Matches(plan.left[t]), 0, |plan.right|)| + |plan.EquiJoin(t + 1)|
  {
  }

  lemma RowLengthOf(plan: RelationJoin.Plan, hash: Key -> Key, ns: Nodes, bs: Buckets, t: nat)
    requires OverHeap(plan, hash, ns, bs) && t < |plan.left|
    ensures RowLength(plan, t, FindsAll(hash, plan.Key(plan.left[t]), (ns, bs)))
  {
    AddedLength(plan, hash, ns, bs, t);
    IdsExactly(hash, ns, bs, RightColumn(plan), plan.Key(plan.left[t]));
  }

  lemma FoundKeys(plan: RelationJoin.Plan, hash: Key -> Key, ns: Nodes, bs: Buckets) returns (found: seq<bool>)
    requires OverHeap(plan, hash, ns, bs)
    ensures |found| == |plan.left| && forall k :: 0 <= k < |plan.left| ==> RowLength(plan, k, found[k])
    ensures (forall k :: 0 <= k < |found| ==> found[k]) <==> FoundFrom(plan, hash, ns, bs, 0)
  {
    found := seq(|plan.left|, t requires 0 <= t < |plan.left| =>
      assert OverHeap(plan, hash, ns, bs) ==> 0 <= plan.Key(plan.left[t]) <= KEY_MAX;
      FindsAll(hash, plan.Key(plan.left[t]), (ns, bs)));
    forall k | 0 <= k < |plan.left|
      ensures RowLength(plan, k, found[k]) && found[k] == FindsAll(hash, plan.Key(plan.left[k]), (ns, bs))
    {
      RowLengthOf(plan, hash, ns, bs, k);
    }
  }

  lemma SameLength(plan: RelationJoin.Plan, rows: seq<RelationJoin.Row>)
    requires plan.Outer(0) == RelationJoin.Events(rows) && multiset(rows) == multiset(plan.EquiJoin(0))
    ensures |plan.Outer(0)| == |plan.EquiJoin(0)|
  {
    assert |multiset(rows)| == |multiset(plan.EquiJoin(0))|;
  }

  /** A join over the index gives the equi-join iff for every left row the lookup of its key finds
      everything. */
  lemma JoinIff(plan: RelationJoin.Plan, hash: Key -> Key, ns: Nodes, bs: Buckets)
    requires OverHeap(plan, hash, ns, bs)
    ensures (exists rows :: plan.Outer(0) == RelationJoin.Events(rows)
                            && multiset(rows) == multiset(plan.EquiJoin(0)))
            <==> FoundFrom(plan, hash, ns, bs, 0)
  {
    var found := FoundKeys(plan, hash, ns, bs);
    JoinLengths(plan, found, 0);
    if FoundFrom(plan, hash, ns, bs, 0) {
      forall t | 0 <= t < |plan.left| ensures plan.Exact(plan.Key(plan.left[t])) {
        ExactKey(plan, hash, ns, bs, plan.Key(plan.left[t]));
      }
      var rows := plan.OuterIsEquiJoin(0);
    }
    forall rows | plan.Outer(0) == RelationJoin.Events(rows) && multiset(rows) == multiset(plan.EquiJoin(0))
      ensures FoundFrom(plan, hash, ns, bs, 0)
    {
      SameLength(plan, rows);
    }
  }

  lemma ExactKey(plan: RelationJoin.Plan, hash: Key -> Key, ns: Nodes, bs: Buckets, key: Key)
    requires plan.Valid() && Indexes(hash, ns, bs, RightColumn(plan))
    requires plan.index(key) == IdsOf(hash, ns, bs, key) && FindsAll(hash, key, (ns, bs))
    ensures plan.Exact(key)
  {
    IdsExactly(hash, ns, bs, RightColumn(plan), key);
    RowsHold(plan, plan.index(key), key);
    forall j | 0 <= j < |plan.right| && plan.Holds(j, key) ensures j in plan.index(key) {
      HoldsKey(plan, j, key);
    }
  }
}
