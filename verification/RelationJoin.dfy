/** The equi-join of two relations. Each call returns one joined row; the next call
    goes straight back into the inner loop, over the index iterator that the previous
    call has left half way. */
module RelationJoin {
  import opened RowVisits

  datatype JoinResult = DB_GOT_ROW | DB_FINISHED | DB_IMPLEMENTATION_ERROR

  type Row = seq<int>

  /** Where an attribute of the result comes from: an entry of `source_map`. */
  datatype Source = FromLeft(column: nat) | FromRight(column: nat)

  predicate Columns(rows: seq<Row>, column: nat) {
    forall i :: 0 <= i < |rows| ==> column < |rows[i]|
  }

  /** One turn of the inner loop: a joined row, or an index entry that names no row. */
  datatype Event = Joined(row: Row) | BadEntry

  /** A join: the relations, the column joined on in each, the result's attributes, and
      the ids that the index on the right column yields for a value. */
  datatype Plan = Plan(left: seq<Row>, right: seq<Row>, leftColumn: nat, rightColumn: nat,
                       sources: seq<Source>, index: int -> seq<nat>)
  {
    predicate Valid() {
      && Columns(left, leftColumn) && Columns(right, rightColumn)
      && forall s :: s in sources ==> if s.FromLeft? then Columns(left, s.column) else Columns(right, s.column)
    }

    function Value(s: Source, l: Row, r: Row): int {
      match s
      case FromLeft(c) => if c < |l| then l[c] else 0
      case FromRight(c) => if c < |r| then r[c] else 0
    }

    function JoinRow(l: Row, r: Row): Row {
      seq(|sources|, i requires 0 <= i < |sources| => Value(sources[i], l, r))
    }

    function Turn(l: Row, id: nat): Event {
      if id < |right| then Joined(JoinRow(l, right[id])) else BadEntry
    }

    /** The turns over the index entries from `next` on. */
    function Inner(l: Row, ids: seq<nat>, next: nat): seq<Event> {
      if next >= |ids| then [] else seq(|ids| - next, k requires 0 <= k < |ids| - next => Turn(l, ids[next + k]))
    }

    function Key(l: Row): int {
      if leftColumn < |l| then l[leftColumn] else 0
    }

    /** Nested loops over the left rows from `t` on and the index entries of each. */
    function Outer(t: nat): seq<Event>
      decreases |left| - t
    {
      if t >= |left| then [] else Inner(left[t], index(Key(left[t])), 0) + Outer(t + 1)
    }

    /** What a left row adds for each right row, by comparing the two keys. */
    function Matches(l: Row): (s: seq<seq<Row>>)
      ensures |s| == |right|
    {
      seq(|right|, j requires 0 <= j < |right| =>
        if rightColumn < |right[j]| && right[j][rightColumn] == Key(l) then [JoinRow(l, right[j])] else [])
    }

    /** The equi-join by definition: every pair of rows with equal keys. */
    function EquiJoin(t: nat): seq<Row>
      decreases |left| - t
    {
      if t >= |left| then [] else Scan(Matches(left[t]), 0, |right|) + EquiJoin(t + 1)
    }

    /** For every left row the index yields each right row with an equal key once, and
        nothing else. */
    ghost predicate IndexExact() {
      forall t :: 0 <= t < |left| ==> Exact(Key(left[t]))
    }

    ghost predicate Exact(key: int) {
      && Distinct(index(key))
      && (forall k :: 0 <= k < |index(key)| ==> index(key)[k] < |right| && Holds(index(key)[k], key))
      && (forall j :: 0 <= j < |right| && Holds(j, key) ==> j in index(key))
    }

    predicate Holds(j: nat, key: int)
      requires j < |right|
    {
      rightColumn < |right[j]| && right[j][rightColumn] == key
    }

    // ----- the nested loops are the equi-join -----

    lemma InnerIsFollow(l: Row, ids: seq<nat>)
      requires forall k :: 0 <= k < |ids| ==> ids[k] < |right| && Holds(ids[k], Key(l))
      ensures Inner(l, ids, 0) == Events(Follow(Matches(l), ids))
    {
      FollowEach(l, ids);
      var rows, inner := Follow(Matches(l), ids), Inner(l, ids, 0);
      assert |inner| == |ids| == |rows|;
      forall k | 0 <= k < |ids| ensures inner[k] == Events(rows)[k] {
        assert inner[k] == Turn(l, ids[k]) == Joined(rows[k]);
      }
    }

    lemma InnerStep(l: Row, ids: seq<nat>, next: nat, rest: seq<Event>)
      requires next < |ids|
      ensures Inner(l, ids, next) + rest == [Turn(l, ids[next])] + (Inner(l, ids, next + 1) + rest)
    {
      assert Inner(l, ids, next) == [Turn(l, ids[next])] + Inner(l, ids, next + 1);
    }

    lemma {:induction false} FollowEach(l: Row, ids: seq<nat>)
      requires forall k :: 0 <= k < |ids| ==> ids[k] < |right| && Holds(ids[k], Key(l))
      ensures |Follow(Matches(l), ids)| == |ids|
      ensures forall k :: 0 <= k < |ids| ==> Follow(Matches(l), ids)[k] == JoinRow(l, right[ids[k]])
    {
      if ids != [] {
        FollowEach(l, ids[..|ids| - 1]);
      }
    }

    /** With an exact index the nested loops meet no bad entry and give the rows of the
        equi-join, each as often as it occurs there. */
    lemma {:induction false} OuterIsEquiJoin(t: nat) returns (rows: seq<Row>)
      requires IndexExact()
      ensures Outer(t) == Events(rows)
      ensures multiset(rows) == multiset(EquiJoin(t))
      decreases |left| - t
    {
      if t >= |left| {
        rows := [];
      } else {
        var l := left[t];
        var ids := index(Key(l));
        var here := Follow(Matches(l), ids);
        assert Exact(Key(l));
        InnerIsFollow(l, ids);
        forall i | 0 <= i < |right| && Matches(l)[i] != [] ensures i in ids {
          assert Holds(i, Key(l));
        }
        FollowIsScan(Matches(l), ids, |right|);
        var rest := OuterIsEquiJoin(t + 1);
        rows := here + rest;
        EventsSplit(here, rest);
        BagSplit(here, Scan(Matches(l), 0, |right|), rest, EquiJoin(t + 1));
      }
    }
  }

  function Events(rows: seq<Row>): seq<Event> {
    seq(|rows|, i requires 0 <= i < |rows| => Joined(rows[i]))
  }

  lemma EventsSplit(a: seq<Row>, b: seq<Row>)
    ensures Events(a + b) == Events(a) + Events(b)
  {
  }

  lemma BagSplit<T>(a: seq<T>, b: seq<T>, c: seq<T>, d: seq<T>)
    requires multiset(a) == multiset(b) && multiset(c) == multiset(d)
    ensures multiset(a + c) == multiset(b + d)
  {
  }

  /** The database handle of a join. */
  class Join {
    const plan: Plan
    var indexStep: bool
    var tupleId: nat
    var ids: seq<nat>
    var nextItemNo: nat
    var leftRow: Row
    var rightRow: Row
    var joinRow: Row
    var currentRow: nat

    ghost predicate Valid()
      reads this
    {
      plan.Valid() && (!indexStep ==> tupleId < |plan.left| && leftRow == plan.left[tupleId])
    }

    /** The turns that are still to come. A handle whose flag is set starts from the
        first left row. */
    ghost function Pending(): seq<Event>
      reads this
    {
      if indexStep then plan.Outer(0) else plan.Inner(leftRow, ids, nextItemNo) + plan.Outer(tupleId + 1)
    }

    /** `relation_join` */
    constructor (plan: Plan)
      requires plan.Valid()
      ensures Valid() && this.plan == plan && Pending() == plan.Outer(0) && indexStep && currentRow == 0
    {
      this.plan := plan;
      indexStep, tupleId, ids, nextItemNo := true, 0, [], 0;
      leftRow, rightRow, joinRow, currentRow := [], [], [], 0;
    }

    /** Copy the attributes that `source_map` points to. */
    method Combine()
      requires Valid() && !indexStep && rightRow in plan.right
      modifies this`joinRow
      ensures joinRow == plan.JoinRow(leftRow, rightRow)
    {
      joinRow := [];
      for i := 0 to |plan.sources|
        invariant joinRow == plan.JoinRow(leftRow, rightRow)[..i]
      {
        var s := plan.sources[i];
        joinRow := joinRow + [if s.FromLeft? then leftRow[s.column] else rightRow[s.column]];
      }
    }

    /** The head of the outer loop: load a left row and open the index iterator on its
        value, or report the end. */
    method NextLeft() returns (found: bool)
      requires Valid() && indexStep
      modifies this`indexStep, this`leftRow, this`ids, this`nextItemNo
      ensures Valid() && found == (tupleId < |plan.left|) && indexStep == !found
      ensures found ==> Pending() == plan.Outer(tupleId)
    {
      found := tupleId < |plan.left|;
      if found {
        leftRow := plan.left[tupleId];
        ids, nextItemNo := plan.index(leftRow[plan.leftColumn]), 0;
        indexStep := false;
      }
    }

    /** One turn of the inner loop; None stands for the end of the iterator. */
    method NextRight() returns (result: JoinResult)
      requires Valid() && !indexStep
      modifies this`indexStep, this`nextItemNo, this`rightRow, this`joinRow, this`currentRow
      ensures Valid()
      ensures result == DB_FINISHED <==> old(nextItemNo) >= |ids|
      ensures result == DB_FINISHED ==> indexStep && currentRow == old(currentRow)
      ensures result != DB_FINISHED ==> !indexStep && old(Pending()) == [Answer(result)] + Pending()
      ensures currentRow == old(currentRow) + if result == DB_GOT_ROW then 1 else 0
    {
      if nextItemNo >= |ids| {
        indexStep := true;
        return DB_FINISHED;
      }
      var id := ids[nextItemNo];
      plan.InnerStep(leftRow, ids, nextItemNo, plan.Outer(tupleId + 1));
      nextItemNo := nextItemNo + 1;
      if id >= |plan.right| {
        return DB_IMPLEMENTATION_ERROR;
      }
      rightRow := plan.right[id];
      Combine();
      currentRow := currentRow + 1;
      return DB_GOT_ROW;
    }

    /** What a call has reported, as a turn of the loops. */
    ghost function Answer(result: JoinResult): Event
      reads this`joinRow
    {
      if result == DB_GOT_ROW then Joined(joinRow) else BadEntry
    }

    /** `relation_process_join`: each call reports the next turn of the nested loops and
        leaves the ones after it; when there is none, it reports the end, and the handle
        is back at the start. */
    method Process() returns (result: JoinResult)
      requires Valid()
      modifies this
      ensures Valid()
      ensures result == DB_FINISHED <==> old(Pending()) == []
      ensures result == DB_FINISHED ==> indexStep && Pending() == plan.Outer(0)
      ensures result != DB_FINISHED ==> !indexStep && old(Pending()) == [Answer(result)] + Pending()
      ensures currentRow == old(currentRow) + if result == DB_GOT_ROW then 1 else 0
    {
      if indexStep {
        tupleId := 0;
        var found := NextLeft();
        if !found {
          return DB_FINISHED;
        }
      }
      while true
        invariant Valid() && !indexStep && Pending() == old(Pending()) && currentRow == old(currentRow)
        decreases |plan.left| - tupleId
      {
        result := NextRight();
        if result != DB_FINISHED {
          return;
        }
        tupleId := tupleId + 1;
        var found := NextLeft();
        if !found {
          return DB_FINISHED;
        }
      }
    }

    /** The client's loop. If the turns of the nested loops meet no bad entry, it collects
        their rows in order and ends where it began. */
    method Collect(ghost all: seq<Row>) returns (emitted: seq<Row>)
      requires Valid() && indexStep && plan.Outer(0) == Events(all)
      modifies this
      ensures emitted == all
      ensures Valid() && indexStep && Pending() == plan.Outer(0) && currentRow == old(currentRow) + |emitted|
    {
      emitted := [];
      ghost var turns := plan.Outer(0);
      while true
        invariant Valid() && currentRow == old(currentRow) + |emitted|
        invariant |emitted| <= |all| && emitted == all[..|emitted|] && Pending() == turns[|emitted|..]
        decreases |all| - |emitted|
      {
        var result := Process();
        if result == DB_FINISHED {
          return;
        }
        NextRow(all, turns, |emitted|, Answer(result), Pending());
        emitted := emitted + [joinRow];
      }
    }

    /** On an exact index the loop gives the equi-join. */
    method Run() returns (emitted: seq<Row>)
      requires Valid() && indexStep && plan.IndexExact()
      modifies this
      ensures Events(emitted) == plan.Outer(0)
      ensures multiset(emitted) == multiset(plan.EquiJoin(0))
      ensures Valid() && indexStep && Pending() == plan.Outer(0) && currentRow == old(currentRow) + |emitted|
    {
      ghost var all := plan.OuterIsEquiJoin(0);
      emitted := Collect(all);
    }
  }

  lemma NextRow(all: seq<Row>, turns: seq<Event>, n: nat, head: Event, rest: seq<Event>)
    requires turns == Events(all) && n <= |all| && turns[n..] == [head] + rest
    ensures n < |all| && head == Joined(all[n]) && rest == turns[n + 1..] && all[..n] + [all[n]] == all[..n + 1]
  {
    assert turns[n..][0] == turns[n] && turns[n..][1..] == turns[n + 1..];
  }
}
