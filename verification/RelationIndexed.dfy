/** SELECT by an arbitrary index: the rows are visited in the order in which the iterator of the
    index names them. */
module RelationIndexed {
  import opened Common
  import opened LvmCode
  import opened LvmMachine
  import opened LvmDerive
  import opened RowVisits
  import opened RelationSelect

  /** How many ids the iterator yields before one that names no row. */
  function Good(ids: seq<nat>, rows: nat): (n: nat)
    ensures n <= |ids| && (n < |ids| ==> ids[n] >= rows) && forall k :: 0 <= k < n ==> ids[k] < rows
  {
    if ids == [] then 0
    else if Good(ids[..|ids| - 1], rows) < |ids| - 1 then Good(ids[..|ids| - 1], rows)
    else if ids[|ids| - 1] >= rows then |ids| - 1 else |ids|
  }

  /** The iterator yields every matching row once, and names rows only. */
  ghost predicate YieldsMatches(q: Query, ids: seq<nat>) {
    && Distinct(ids) && RowVisits.Rows(q.Visits(), ids)
    && forall id :: 0 <= id < |q.rows| && q.Matches(id) ==> id in ids
  }

  /** The iterator yields every row of the range derived for a variable once. */
  ghost predicate YieldsRange(q: Query, ids: seq<nat>, v: VarId, c: nat) {
    && Distinct(ids) && RowVisits.Rows(q.Visits(), ids)
    && Derive(q.condition).Some? && ColumnOf(q.attributes, v) == Some(c)
    && var r := Derive(q.condition).value[v];
       r.derived && forall id :: 0 <= id < |q.rows| && r.min <= q.Column(c)[id] <= r.max ==> id in ids
  }

  lemma RangeHasMatches(q: Query, ids: seq<nat>, v: VarId, c: nat)
    requires Fits(q.attributes, q.rows) && InLong(q.base) && q.SoundCondition() && YieldsRange(q, ids, v, c)
    ensures YieldsMatches(q, ids)
  {
    forall id | 0 <= id < |q.rows| && q.Matches(id) ensures id in ids {
      MatchesInRange(q, id, v, c);
    }
  }

  /** The handle of a SELECT that runs by index: what its iterator yields, whether `next_item_no` is 0
      when the iterator ends, and how many items have been taken. An iterator over one key counts its
      items; one over a range of keys starts to count again at every key. */
  class IndexedSelect {
    const select: Select
    const ids: seq<nat>
    const zeroAtEnd: bool
    var taken: nat
    var tupleId: nat

    constructor (select: Select, ids: seq<nat>, zeroAtEnd: bool)
      ensures this.select == select && this.ids == ids && this.zeroAtEnd == zeroAtEnd && taken == 0
    {
      this.select, this.ids, this.zeroAtEnd := select, ids, zeroAtEnd;
      taken, tupleId := 0, 0;
    }

    ghost predicate Valid()
      reads this`taken, select.vm.code, select.vm.variables
    {
      select.Valid() && taken <= |ids|
    }

    /** `index_get_next` */
    method GetNext() returns (id: nat, ended: bool)
      requires taken <= |ids|
      modifies this`taken
      ensures ended == (old(taken) == |ids|)
      ensures if ended then taken == old(taken) else taken == old(taken) + 1 && id == ids[old(taken)]
    {
      if taken == |ids| {
        return 0, true;
      }
      id, ended := ids[taken], false;
      taken := taken + 1;
    }

    /** `relation_process_select`: visits the next row of the iterator. At the end it reports an
        error if `next_item_no` is 0, whether rows have been found before or not. */
    method Process() returns (result: DbResult)
      requires Valid()
      modifies this, select`currentRow, select`resultRow, select.vm`ip, select.vm.variables
      ensures Valid()
      ensures if old(taken) == |ids| then
                taken == old(taken) && result == if zeroAtEnd then DB_INDEX_ERROR else DB_FINISHED
              else
                var id := ids[old(taken)];
                && taken == old(taken) + 1
                && (id >= |select.rows| ==> result == DB_FINISHED)
                && (id < |select.rows| ==>
                      if select.query.Matches(id)
                      then result == DB_GOT_ROW && select.resultRow == Project(select.attributes, select.rows[id])
                      else result == DB_OK)
    {
      var id, ended := GetNext();
      if ended {
        return if zeroAtEnd then DB_INDEX_ERROR else DB_FINISHED;
      }
      tupleId := id + 1;
      if id >= |select.rows| {
        return DB_FINISHED;
      }
      result := select.CheckRow(id);
    }

    /** The client's loop: the rows emitted are those of the ids before the first one that names no
        row. If every matching row is among them once, and in particular if every row of a soundly
        derived range is, then they are the rows of the scan, in some order. */
    method Run() returns (emitted: seq<Row>, result: DbResult)
      requires Valid() && taken == 0
      modifies this, select`currentRow, select`resultRow, select.vm`ip, select.vm.variables
      ensures emitted == Follow(select.query.Visits(), ids[..Good(ids, |select.rows|)])
      ensures result == if zeroAtEnd && Good(ids, |select.rows|) == |ids| then DB_INDEX_ERROR else DB_FINISHED
      ensures YieldsMatches(select.query, ids) || YieldsSomeRange(select.query, ids) ==>
                multiset(emitted) == multiset(select.query.Rows(0, |select.rows|))
    {
      ghost var q, good := select.query, Good(ids, |select.rows|);
      emitted := [];
      result := DB_OK;
      while result != DB_FINISHED && result != DB_INDEX_ERROR
        invariant Valid() && q == select.query
        invariant result == DB_OK || result == DB_GOT_ROW ==>
                  taken <= good && emitted == Follow(q.Visits(), ids[..taken])
        invariant result == DB_FINISHED || result == DB_INDEX_ERROR ==>
                  && emitted == Follow(q.Visits(), ids[..good])
                  && result == if zeroAtEnd && good == |ids| then DB_INDEX_ERROR else DB_FINISHED
        decreases result != DB_FINISHED && result != DB_INDEX_ERROR, |ids| - taken
      {
        assert taken < |ids| ==> ids[..taken + 1][..taken] == ids[..taken];
        result := Process();
        if result == DB_GOT_ROW {
          emitted := emitted + [select.resultRow];
        }
      }
      RunIsScan(q, ids, good);
    }
  }

  /** The iterator yields every row of a range that is derived soundly. */
  ghost predicate YieldsSomeRange(q: Query, ids: seq<nat>) {
    q.SoundCondition() && exists v, c :: YieldsRange(q, ids, v, c)
  }

  lemma RunIsScan(q: Query, ids: seq<nat>, good: nat)
    requires Fits(q.attributes, q.rows) && InLong(q.base) && good == Good(ids, |q.rows|)
    ensures YieldsMatches(q, ids) || YieldsSomeRange(q, ids) ==>
              multiset(Follow(q.Visits(), ids[..good])) == multiset(q.Rows(0, |q.rows|))
  {
    if YieldsMatches(q, ids) || YieldsSomeRange(q, ids) {
      if !YieldsMatches(q, ids) {
        var v, c :| YieldsRange(q, ids, v, c);
        RangeHasMatches(q, ids, v, c);
      }
      assert ids[..good] == ids;
      IndexRefinesScan(q, ids);
    }
  }
}
