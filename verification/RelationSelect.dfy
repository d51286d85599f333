/** SELECT over a relation: rows are visited one per call, in storage order or in
    the order of an index iterator, and each visited row is checked again by the
    LogicVM. The index is chosen from the ranges derived from the condition. */
module RelationSelect {
  import opened Common
  import opened LvmCode
  import opened LvmMachine
  import opened LvmDerive
  import opened InlineIndex
  import opened RowVisits

  datatype DbResult = DB_OK | DB_GOT_ROW | DB_FINISHED | DB_INDEX_ERROR

  /** An attribute of the result relation: the column it comes from, the LogicVM
      variable of its name if the condition uses it, and whether it is projected into
      the result. */
  datatype Attribute = Attribute(column: nat, variable: Option<VarId>, stored: bool)

  type Row = seq<int>

  predicate Fits(attributes: seq<Attribute>, rows: seq<Row>) {
    && (forall i, j :: 0 <= i < |attributes| && 0 <= j < |rows| ==> attributes[i].column < |rows[j]|)
    && (forall i, j :: 0 <= i < j < |attributes| && attributes[i].variable.Some? ==>
       attributes[i].variable != attributes[j].variable)
    && (forall j, k :: 0 <= j < |rows| && 0 <= k < |rows[j]| ==> LONG_MIN <= rows[j][k] <= LONG_MAX)
  }

  /** The column that supplies a variable. */
  function ColumnOf(attributes: seq<Attribute>, v: VarId): Option<nat> {
    if attributes == [] then None
    else if attributes[|attributes| - 1].variable == Some(v) then Some(attributes[|attributes| - 1].column)
    else ColumnOf(attributes[..|attributes| - 1], v)
  }

  lemma {:induction false} ColumnOfAttribute(attributes: seq<Attribute>, i: nat)
    requires i < |attributes| && attributes[i].variable.Some?
    requires forall i, j :: 0 <= i < j < |attributes| && attributes[i].variable.Some? ==>
             attributes[i].variable != attributes[j].variable
    ensures ColumnOf(attributes, attributes[i].variable.value) == Some(attributes[i].column)
  {
    var n := |attributes| - 1;
    if i < n {
      ColumnOfAttribute(attributes[..n], i);
    }
  }

  lemma {:induction false} ColumnInRow(attributes: seq<Attribute>, v: VarId, width: nat)
    requires forall i :: 0 <= i < |attributes| ==> attributes[i].column < width
    ensures ColumnOf(attributes, v).Some? ==> ColumnOf(attributes, v).value < width
  {
    if attributes != [] {
      ColumnInRow(attributes[..|attributes| - 1], v, width);
    }
  }

  /** The variables while a row is checked; `base` supplies those that no attribute
      of the result sets. */
  function RowEnv(attributes: seq<Attribute>, row: Row, base: Env): Env {
    seq(MAX_VARIABLES, v requires 0 <= v < MAX_VARIABLES => Loaded(attributes, row, v, base[v]))
  }

  function Loaded(attributes: seq<Attribute>, row: Row, v: VarId, base: int): int {
    match ColumnOf(attributes, v)
    case Some(c) => if c < |row| then row[c] else 0
    case None => base
  }

  function Project(attributes: seq<Attribute>, row: Row): seq<int> {
    if attributes == [] then [] else
    var a := attributes[|attributes| - 1];
    Project(attributes[..|attributes| - 1], row) + if a.stored && a.column < |row| then [row[a.column]] else []
  }

  /** A SELECT: the projected attributes, the condition, and the stored rows. */
  datatype Query = Query(attributes: seq<Attribute>, condition: Tree, rows: seq<Row>, base: Env)
  {
    predicate Matches(id: nat)
      requires id < |rows|
    {
      Truth(condition, RowEnv(attributes, rows[id], base)) == Ok(true)
    }

    /** What visiting a row adds to the result. */
    function Visit(id: nat): seq<Row>
      requires id < |rows|
    {
      if Matches(id) then [Project(attributes, rows[id])] else []
    }

    function Visits(): (s: seq<seq<Row>>)
      ensures |s| == |rows|
    {
      seq(|rows|, id requires 0 <= id < |rows| => Visit(id))
    }

    /** The result of visiting rows lo..hi in order. */
    function Rows(lo: nat, hi: nat): seq<Row>
      requires hi <= |rows|
    {
      Scan(Visits(), lo, hi)
    }

    lemma OneMoreRow(lo: nat, id: nat)
      requires lo <= id < |rows|
      ensures Rows(lo, id + 1) == Rows(lo, id) + if Matches(id) then [Project(attributes, rows[id])] else []
    {
    }

    /** Visiting some rows in order gives all that match iff no other row does. */
    lemma CompleteIff(lo: nat, hi: nat)
      requires lo <= hi <= |rows|
      ensures Rows(lo, hi) == Rows(0, |rows|) <==> forall i :: 0 <= i < |rows| && !(lo <= i < hi) ==> !Matches(i)
    {
      assert forall i :: 0 <= i < |rows| ==> (Visits()[i] == [] <==> !Matches(i));
      ScanWindowIff(Visits(), lo, hi);
    }

    function Column(c: nat): seq<int> {
      seq(|rows|, j requires 0 <= j < |rows| => if c < |rows[j]| then rows[j][c] else 0)
    }

    /** Whatever is derived from the condition is sound. On plain conditions this is
        LvmDerive.AllBranchesCovered; see also FragmentSound. */
    ghost predicate SoundCondition() {
      Derive(condition).Some? ==> Sound(condition)
    }
  }

  lemma FragmentSound(q: Query)
    requires Plain(q.condition) && VariableLeft(q.condition) && SameSides(q.condition)
    ensures q.SoundCondition()
  {
    forall env: Env | InLong(env) && Truth(q.condition, env) == Ok(true)
      ensures Derive(q.condition).Some? && Inside(Derive(q.condition).value, env)
    {
      SatisfyingInside(q.condition, env);
    }
  }

  /** A matching row lies in the range derived for any variable that a column
      supplies. */
  lemma MatchesInRange(q: Query, id: nat, v: VarId, c: nat)
    requires Fits(q.attributes, q.rows) && InLong(q.base) && Derive(q.condition).Some? && q.SoundCondition()
    requires id < |q.rows| && q.Matches(id) && ColumnOf(q.attributes, v) == Some(c)
    ensures var r := Derive(q.condition).value[v]; r.derived ==> r.min <= q.Column(c)[id] <= r.max
  {
    var env := RowEnv(q.attributes, q.rows[id], q.base);
    forall w: VarId ensures LONG_MIN <= env[w] <= LONG_MAX {
      ColumnInRow(q.attributes, w, |q.rows[id]|);
    }
    ColumnInRow(q.attributes, v, |q.rows[id]|);
    assert env[v] == q.Column(c)[id];
    assert Inside(Derive(q.condition).value, env);
  }

  /** Any index whose iterator yields every matching row once gives the rows of the
      scan, in some order; rows that it yields in addition do not matter. */
  lemma IndexRefinesScan(q: Query, ids: seq<nat>)
    requires Distinct(ids) && RowVisits.Rows(q.Visits(), ids)
    requires forall id :: 0 <= id < |q.rows| && q.Matches(id) ==> id in ids
    ensures multiset(Follow(q.Visits(), ids)) == multiset(q.Rows(0, |q.rows|))
  {
    FollowIsScan(q.Visits(), ids, |q.rows|);
  }

  /** In particular an index over a column whose derived range it covers. */
  lemma RangeIndexRefinesScan(q: Query, ids: seq<nat>, v: VarId, c: nat)
    requires Fits(q.attributes, q.rows) && InLong(q.base) && Derive(q.condition).Some? && q.SoundCondition()
    requires ColumnOf(q.attributes, v) == Some(c) && Derive(q.condition).value[v].derived
    requires Distinct(ids) && RowVisits.Rows(q.Visits(), ids)
    requires var r := Derive(q.condition).value[v];
             forall id :: 0 <= id < |q.rows| && r.min <= q.Column(c)[id] <= r.max ==> id in ids
    ensures multiset(Follow(q.Visits(), ids)) == multiset(q.Rows(0, |q.rows|))
  {
    forall id | 0 <= id < |q.rows| && q.Matches(id) ensures id in ids {
      MatchesInRange(q, id, v, c);
    }
    IndexRefinesScan(q, ids);
  }

  // ----- processing a selection -----

  /** The database handle of a SELECT. `indexes` holds, per attribute, the iterator
      of its inline index if it has one, and `search` the one that is in use. The rows
      visited so far are lo..hi. */
  class Select {
    const attributes: seq<Attribute>
    const rows: seq<Row>
    const vm: Lvm
    const indexes: seq<InlineIterator?>
    ghost const query: Query
    var search: InlineIterator?
    ghost var lo: nat
    ghost var hi: nat
    var tupleId: nat
    var currentRow: nat
    var resultRow: seq<int>

    /** The parts that never change fit together. */
    ghost predicate Fixed() {
      && query == Query(attributes, query.condition, rows, query.base)
      && Fits(attributes, rows) && |rows| < INVALID_TUPLE && InLong(query.base)
      && vm.Valid() && Conditional(query.condition)
      && |indexes| == |attributes|
      && (forall i :: 0 <= i < |indexes| && indexes[i] != null ==>
            indexes[i].column == query.Column(attributes[i].column) && Ascending(indexes[i].column) && rows != [])
    }

    ghost predicate Valid()
      reads vm.code, vm.variables
    {
      && Fixed() && vm.At(0, Encode(query.condition))
      && forall v: VarId :: ColumnOf(attributes, v).None? ==> vm.variables[v] == query.base[v]
    }

    /** A handle for a compiled condition, before the plan is chosen. */
    constructor (attributes: seq<Attribute>, rows: seq<Row>, vm: Lvm, indexes: seq<InlineIterator?>,
                 ghost condition: Tree)
      requires vm.Valid() && vm.At(0, Encode(condition)) && Conditional(condition)
      requires Fits(attributes, rows) && |rows| < INVALID_TUPLE && InLong(vm.Environment()) && |indexes| == |attributes|
      requires forall i :: 0 <= i < |indexes| && indexes[i] != null ==>
                 rows != [] && Ascending(indexes[i].column)
                 && var q := Query(attributes, condition, rows, vm.Environment());
                    indexes[i].column == q.Column(attributes[i].column)
      ensures Valid() && search == null && this.vm == vm && this.indexes == indexes
      ensures query == Query(attributes, condition, rows, vm.Environment())
    {
      this.attributes, this.rows, this.vm, this.indexes := attributes, rows, vm, indexes;
      query := Query(attributes, condition, rows, vm.Environment());
      search, lo, hi, tupleId, currentRow, resultRow := null, 0, 0, 0, 0, [];
    }

    /** `column` supplies a variable whose derived range is min..max. */
    ghost predicate DerivedFor(column: seq<int>, min: int, max: int) {
      Derive(query.condition).Some? &&
      exists v: VarId :: ColumnOf(attributes, v).Some? && column == query.Column(ColumnOf(attributes, v).value)
                         && Derive(query.condition).value[v] == Range(min, max, true)
    }

    /** The search in progress runs over a derived range. */
    ghost predicate Planned()
      reads this`search, search
    {
      search != null ==> search.Valid() && DerivedFor(search.column, search.minValue, search.maxValue)
    }

    /** What `binary_search` needs to end: no indexed range reaches below the first
        row of its column. */
    ghost predicate NotBelowColumn()
      requires |indexes| == |attributes|
    {
      Derive(query.condition).Some? ==>
        forall i ::
          0 <= i < |indexes| && indexes[i] != null && attributes[i].variable.Some? && indexes[i].column != [] ==>
          var r := Derive(query.condition).value[attributes[i].variable.value];
          r.derived ==> indexes[i].column[0] <= r.min && indexes[i].column[0] <= r.max
    }

    /** Attribute `i` has an index that `select_index` may take. */
    ghost predicate Usable(i: nat, ranges: Ranges)
      requires |indexes| == |attributes|
    {
      i < |attributes| && indexes[i] != null && attributes[i].variable.Some?
          && ranges[attributes[i].variable.value].derived
    }

    /** One attribute of the loop of `select_index`. */
    method Consider(i: nat, ranges: Ranges)
      requires Fixed() && NotBelowColumn() && Planned() && i < |attributes| && Derive(query.condition) == Some(ranges)
      requires search != null ==> search.nextItemNo == 0
      modifies this`search, indexes[i]
      ensures search == if Usable(i, ranges) then indexes[i] else old(search)
      ensures Planned() && (search != null ==> search.nextItemNo == 0)
    {
      var a, index := attributes[i], indexes[i];
      if index != null && a.variable.Some? && ranges[a.variable.value].derived {
        var r := ranges[a.variable.value];
        index.Open(r.min, r.max);
        search := index;
        ColumnOfAttribute(attributes, i);
        assert DerivedFor(index.column, r.min, r.max);
      }
    }

    /** `select_index`: take an attribute that has both an index and a derived range.
        `min_range` is never lowered in the source, so the last one is taken. */
    method SelectIndex(ranges: array<Range>)
      requires Fixed() && NotBelowColumn() && search == null && ranges.Length == MAX_VARIABLES
      requires Derive(query.condition) == Some(ranges[..])
      modifies this`search, set o | o in indexes
      ensures Planned() && (search != null ==> search in indexes && search.nextItemNo == 0)
      ensures Chosen(ranges[..], |attributes|)
    {
      ghost var derived: Ranges := ranges[..];
      for i := 0 to |attributes|
        invariant Planned() && (search != null ==> search in indexes && search.nextItemNo == 0)
        invariant Chosen(derived, i)
      {
        ChosenNext(search, derived, i);
        Consider(i, ranges[..]);
      }
    }

    lemma ChosenNext(s: InlineIterator?, ranges: Ranges, i: nat)
      requires |indexes| == |attributes| && i < |attributes| && ChosenAs(s, ranges, i)
      ensures ChosenAs(if Usable(i, ranges) then indexes[i] else s, ranges, i + 1)
    {
      if Usable(i, ranges) {
        assert LastUsable(i, ranges, i + 1);
      } else {
        assert forall k: nat :: LastUsable(k, ranges, i) ==> LastUsable(k, ranges, i + 1);
      }
    }

    /** Attribute `k` is the last one below `n` whose index may be taken. */
    ghost predicate LastUsable(k: nat, ranges: Ranges, n: nat)
      requires |indexes| == |attributes|
    {
      Usable(k, ranges) && k < n && forall j :: k < j < n ==> !Usable(j, ranges)
    }

    /** What `select_index` has chosen among the first `n` attributes. */
    ghost predicate Chosen(ranges: Ranges, n: nat)
      requires |indexes| == |attributes|
      reads this`search
    {
      ChosenAs(search, ranges, n)
    }

    ghost predicate ChosenAs(s: InlineIterator?, ranges: Ranges, n: nat)
      requires |indexes| == |attributes|
    {
      if s == null then forall j :: 0 <= j < n ==> !Usable(j, ranges)
      else exists k: nat :: LastUsable(k, ranges, n) && s == indexes[k]
    }

    /** `generate_selection_result` */
    method Prepare()
      requires Valid() && vm.ip == 0 && NotBelowColumn()
      modifies this`search, this`lo, this`hi, this`tupleId, this`currentRow, vm`ip, set o | o in indexes
      ensures Valid() && Planned() && Visited() && hi == 0 && currentRow == 0
      ensures search != null ==> search in indexes
      ensures Derive(query.condition).None? ==> search == null
      ensures Derive(query.condition).Some? ==> Chosen(Derive(query.condition).value, |attributes|)
    {
      search, lo, hi, tupleId, currentRow := null, 0, 0, 0, 0;
      var ranges := new Range[MAX_VARIABLES](i => NO_RANGE);
      var derived := DeriveRelation(vm, ranges, query.condition);
      if derived {
        SelectIndex(ranges);
      }
    }

    /** Set the variables and copy the projected values of a row. */
    method LoadRow(row: Row)
      requires Valid() && row in rows
      modifies vm.variables, this`resultRow
      ensures Valid()
      ensures vm.Environment() == RowEnv(attributes, row, query.base)
      ensures resultRow == Project(attributes, row)
    {
      resultRow := [];
      for i := 0 to |attributes|
        invariant forall v: VarId :: vm.variables[v] == Loaded(attributes[..i], row, v, old(vm.variables[v]))
        invariant resultRow == Project(attributes[..i], row)
      {
        var a := attributes[i];
        assert attributes[..i + 1][..i] == attributes[..i] && attributes[..i + 1][i] == a;
        if a.variable.Some? {
          vm.variables[a.variable.value] := row[a.column];
        }
        if a.stored {
          resultRow := resultRow + [row[a.column]];
        }
      }
      assert attributes[..|attributes|] == attributes;
    }

    /** Load a row and check the condition on it. */
    method CheckRow(id: nat) returns (result: DbResult)
      requires Valid() && id < |rows|
      modifies this`currentRow, this`resultRow, vm`ip, vm.variables
      ensures Valid()
      ensures result == if query.Matches(id) then DB_GOT_ROW else DB_OK
      ensures result == DB_GOT_ROW ==> resultRow == Project(attributes, rows[id]) && currentRow == old(currentRow) + 1
      ensures result != DB_GOT_ROW ==> currentRow == old(currentRow)
    {
      LoadRow(rows[id]);
      var holds := vm.Execute(query.condition);
      if holds == Ok(true) {
        currentRow := currentRow + 1;
        return DB_GOT_ROW;
      }
      return DB_OK;
    }

    /** How far the visit of the rows can still go. */
    ghost function Remaining(): nat
      reads this`search, this`tupleId, search
    {
      if search == null then (if tupleId < |rows| then |rows| - tupleId else 0)
      else if search.nextItemNo == 0 then |rows| + 2
      else if search.cachedStart + search.nextItemNo <= search.cachedEnd < |rows|
      then search.cachedEnd - search.cachedStart - search.nextItemNo + 1 else 0
    }

    /** How the rows visited so far show in the state. */
    ghost predicate Visited()
      reads this`search, this`lo, this`hi, this`tupleId, search
    {
      if search == null then lo == 0 && hi == tupleId <= |rows|
      else if search.nextItemNo == 0 then lo == hi == 0
      else
        && search.Searched() && lo == search.cachedStart < |rows| && hi == lo + search.nextItemNo <= |rows|
        && hi <= Max(lo, search.cachedEnd) + 1
    }

    /** A row outside the searched range does not match. */
    lemma OutsideRange(id: nat)
      requires Valid() && Planned() && query.SoundCondition() && search != null && id < |rows|
      requires search.column[id] < search.minValue || search.maxValue < search.column[id]
      ensures !query.Matches(id)
    {
      if query.Matches(id) {
        var v: VarId :| ColumnOf(attributes, v).Some? && search.column == query.Column(ColumnOf(attributes, v).value)
                        && Derive(query.condition).value[v] == Range(search.minValue, search.maxValue, true);
        MatchesInRange(query, id, v, ColumnOf(attributes, v).value);
      }
    }

    /** Nothing is left: with an index, all rows that have not been visited lie outside the range
        that is searched. */
    ghost predicate Ended()
      requires Fixed()
      reads this`search, this`lo, this`hi, search
    {
      if search == null then lo == 0 && hi == |rows|
      else
        && |search.column| == |rows| && lo <= hi <= |rows| && WindowIs()
        && forall i :: 0 <= i < |rows| && !(lo <= i < hi) ==> Outside(i)
    }

    /** The rows visited: from where the low bound was found to where the high one was, and at least
        one; none if a single value was searched for and is not there. */
    ghost predicate WindowIs()
      requires search != null
      reads this`search, this`lo, this`hi, search
    {
      if lo < hi then search.Searched() && lo == search.cachedStart && hi == Max(lo, search.cachedEnd) + 1
      else search.minValue == search.maxValue && search.minValue !in search.column
    }

    /** The indexed column of row `i` lies outside the range that is searched. */
    ghost predicate Outside(i: nat)
      requires search != null
      reads this`search, search
    {
      i < |search.column| && (search.column[i] < search.minValue || search.maxValue < search.column[i])
    }

    lemma NothingLeft()
      requires Valid() && Planned() && Visited()
      requires search != null && search.nextItemNo > 0 && search.cachedStart + search.nextItemNo > search.cachedEnd
      ensures Ended()
    {
    }

    lemma NothingFound()
      requires Valid() && Planned() && search != null && lo == hi == 0
      requires search.minValue == search.maxValue && search.minValue !in search.column
      ensures Ended()
    {
      assert forall i :: 0 <= i < |rows| ==> search.column[i] in search.column;
    }

    /** If derivation is sound for the condition, the rows that have not been visited do not match. */
    lemma EndedSound()
      requires Valid() && Planned() && Ended() && query.SoundCondition() && hi <= |rows|
      ensures query.Rows(lo, hi) == query.Rows(0, |rows|)
    {
      if search != null {
        forall i | 0 <= i < lo || hi <= i < |rows| ensures query.Visits()[i] == [] {
          assert Outside(i);
          OutsideRange(i);
        }
        ScanWindow(query.Visits(), lo, hi);
      }
    }

    lemma EndedMaySound()
      requires Valid() && Planned() && Ended() && hi <= |rows|
      ensures query.SoundCondition() ==> query.Rows(lo, hi) == query.Rows(0, |rows|)
    {
      if query.SoundCondition() {
        EndedSound();
      }
    }

    /** The index part of `relation_process_select`: the next row number. */
    method NextByIndex() returns (id: nat)
      requires Valid() && Planned() && Visited() && search != null
      modifies this`lo, this`hi, search
      ensures Planned() && (id < |rows| ==> Visited())
      ensures search.nextItemNo > 0
      ensures id < |rows| ==> Remaining() < old(Remaining()) && hi == id + 1
      ensures id < |rows| ==> query.Rows(lo, id) == old(query.Rows(lo, hi))
      ensures id >= |rows| ==> id == INVALID_TUPLE && lo == old(lo) && hi == old(hi)
      ensures id >= |rows| ==> Ended()
    {
      ghost var first := search.nextItemNo == 0;
      id := search.GetNext();
      if id < |rows| {
        RowsBefore(first, id);
        lo, hi := if first then id else lo, id + 1;
      } else if first {
        NothingFound();
      } else {
        NothingLeft();
      }
    }

    lemma RowsBefore(first: bool, id: nat)
      requires Fixed() && lo <= hi && id < |rows| && if first then lo == hi == 0 else id == hi
      ensures query.Rows(if first then id else lo, id) == query.Rows(lo, hi)
    {
      assert query.Rows(id, id) == [] && query.Rows(0, 0) == [];
    }

    /** The start of `relation_process_select`: find the row to visit, if any. */
    method NextRow() returns (result: DbResult, row: nat)
      requires Valid() && Planned() && Visited()
      modifies this`lo, this`hi, this`tupleId, search
      ensures Planned() && (result == DB_OK || result == DB_FINISHED)
      ensures result == DB_OK ==>
                && row < |rows| && Visited() && Remaining() < old(Remaining())
                && lo <= row && hi == row + 1 && query.Rows(lo, row) == old(query.Rows(lo, hi))
      ensures result == DB_FINISHED ==> lo == old(lo) && hi == old(hi) && Ended()
    {
      row := tupleId;
      if search != null {
        row := NextByIndex();
        tupleId := row;
        if tupleId == INVALID_TUPLE {
          if search.nextItemNo == 0 {
            return DB_INDEX_ERROR, row;
          }
          return DB_FINISHED, row;
        }
      }
      tupleId := tupleId + 1;
      if row >= |rows| {
        return DB_FINISHED, row;
      }
      hi := row + 1;
      result := DB_OK;
    }

    /** `relation_process_select`. While rows are left, a call adds one row to those
        visited, and returns it projected if it matches; the end is reported when no
        row that is left out could match. */
    method Process() returns (result: DbResult)
      requires Valid() && Planned() && Visited()
      modifies this`lo, this`hi, this`tupleId, this`currentRow, this`resultRow, vm`ip, vm.variables, search
      ensures Valid() && Planned()
      ensures result == DB_OK || result == DB_GOT_ROW || result == DB_FINISHED
      ensures hi <= |rows| && (result != DB_FINISHED ==> Visited() && Remaining() < old(Remaining()))
      ensures query.Rows(lo, hi) == old(query.Rows(lo, hi)) + (if result == DB_GOT_ROW then [resultRow] else [])
      ensures result == DB_FINISHED ==> Ended()
      ensures result == DB_FINISHED && query.SoundCondition() ==> query.Rows(lo, hi) == query.Rows(0, |rows|)
      ensures currentRow == old(currentRow) + if result == DB_GOT_ROW then 1 else 0
    {
      var row;
      ghost var before := query.Rows(lo, hi);
      result, row := NextRow();
      if result == DB_FINISHED {
        assert before + [] == before;
        EndedMaySound();
        return;
      }
      result := CheckNext(row, before);
    }

    /** Check the last row visited. */
    method CheckNext(row: nat, ghost before: seq<Row>) returns (result: DbResult)
      requires Valid() && row < |rows| && lo <= row && hi == row + 1 && query.Rows(lo, row) == before
      modifies this`currentRow, this`resultRow, vm`ip, vm.variables
      ensures Valid() && (result == DB_OK || result == DB_GOT_ROW)
      ensures query.Rows(lo, hi) == before + (if result == DB_GOT_ROW then [resultRow] else [])
      ensures currentRow == old(currentRow) + if result == DB_GOT_ROW then 1 else 0
    {
      query.OneMoreRow(lo, row);
      result := CheckRow(row);
    }

    /** The client's loop: call `db_process` until it reports the end. The result is that of the
        rows visited, in storage order; it is complete iff no other row matches. If derivation is
        sound for the condition, it is complete whatever plan was chosen. */
    method Run() returns (emitted: seq<Row>)
      requires Valid() && Planned() && Visited() && hi == 0
      modifies this`lo, this`hi, this`tupleId, this`currentRow, this`resultRow, vm`ip, vm.variables, search
      ensures search == old(search) && Planned() && Ended() && lo <= hi <= |rows| && emitted == query.Rows(lo, hi)
      ensures emitted == query.Rows(0, |rows|) <==>
              forall i :: 0 <= i < |rows| && !(lo <= i < hi) ==> !query.Matches(i)
      ensures query.SoundCondition() ==> emitted == query.Rows(0, |rows|)
    {
      emitted := [];
      var result := DB_OK;
      while result != DB_FINISHED
        invariant Valid() && Planned() && search == old(search)
        invariant result == DB_OK || result == DB_GOT_ROW || result == DB_FINISHED
        invariant hi <= |rows| && (if result != DB_FINISHED then Visited() else Ended())
        invariant emitted == query.Rows(lo, hi)
        decreases result != DB_FINISHED, Remaining()
      {
        result := Process();
        if result == DB_GOT_ROW {
          emitted := emitted + [resultRow];
        }
      }
      query.CompleteIff(lo, hi);
      EndedMaySound();
    }
  }
}
