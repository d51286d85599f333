/** What stands in the result of a SELECT and of a join: which rows, in which order, and which value
    where. */
module ResultRows {
  import opened LvmCode
  import opened RowVisits
  import opened RelationSelect
  import opened RelationJoin

  /** The number of attributes among the first `n` that are projected into the result. */
  function StoredBefore(attributes: seq<Attribute>, n: nat): (k: nat)
    requires n <= |attributes|
    ensures k <= n
  {
    if n == 0 then 0 else StoredBefore(attributes, n - 1) + if attributes[n - 1].stored then 1 else 0
  }

  lemma {:induction false} StoredOfFront(attributes: seq<Attribute>, m: nat, n: nat)
    requires n <= m <= |attributes|
    ensures StoredBefore(attributes[..m], n) == StoredBefore(attributes, n)
  {
    if n > 0 {
      StoredOfFront(attributes, m, n - 1);
    }
  }

  /** A row of the result has one value per projected attribute. */
  lemma {:induction false} RowWidth(attributes: seq<Attribute>, row: RelationSelect.Row)
    requires forall i :: 0 <= i < |attributes| ==> attributes[i].column < |row|
    ensures |Project(attributes, row)| == StoredBefore(attributes, |attributes|)
  {
    if attributes != [] {
      var n := |attributes| - 1;
      RowWidth(attributes[..n], row);
      StoredOfFront(attributes, n, n);
    }
  }

  /** The values stand in the order of the attributes: that of attribute `i` stands behind those of
      the projected attributes before it. */
  lemma {:induction false} RowValue(attributes: seq<Attribute>, row: Row, i: nat)
    requires forall k :: 0 <= k < |attributes| ==> attributes[k].column < |row|
    requires i < |attributes| && attributes[i].stored
    ensures |Project(attributes, row)| == StoredBefore(attributes, |attributes|) > StoredBefore(attributes, i)
    ensures Project(attributes, row)[StoredBefore(attributes, i)] == row[attributes[i].column]
  {
    var n := |attributes| - 1;
    RowWidth(attributes, row);
    RowWidth(attributes[..n], row);
    StoredOfFront(attributes, n, n);
    StoredOfFront(attributes, n, i);
    if i < n {
      RowValue(attributes[..n], row, i);
    }
  }

  /** A row on which the condition cannot be evaluated, as by a division by zero, is left out. */
  lemma ErrorMatchesNothing(q: Query, id: nat)
    requires id < |q.rows| && Truth(q.condition, RowEnv(q.attributes, q.rows[id], q.base)).Err?
    ensures !q.Matches(id) && q.Visit(id) == []
  {
  }

  /** The number of matching rows among the first `n`. */
  function MatchesBefore(q: Query, n: nat): (k: nat)
    requires n <= |q.rows|
    ensures k <= n
  {
    if n == 0 then 0 else MatchesBefore(q, n - 1) + if q.Matches(n - 1) then 1 else 0
  }

  /** The scan emits the matching rows in storage order, and nothing else. */
  lemma {:induction false} ScanRows(q: Query, n: nat)
    requires n <= |q.rows|
    ensures |q.Rows(0, n)| == MatchesBefore(q, n)
    ensures forall id :: 0 <= id < n && q.Matches(id) ==>
              MatchesBefore(q, id) < |q.Rows(0, n)|
              && q.Rows(0, n)[MatchesBefore(q, id)] == Project(q.attributes, q.rows[id])
  {
    if n > 0 {
      ScanRows(q, n - 1);
      q.OneMoreRow(0, n - 1);
    } else {
      assert q.Rows(0, 0) == [];
    }
  }

  /** The value of attribute `i` of the stored row `id`, if that matches, stands in the row of the
      result behind those of the matching rows before it, behind the values projected before it. */
  lemma EmittedValue(q: Query, id: nat, i: nat)
    requires Fits(q.attributes, q.rows) && id < |q.rows| && q.Matches(id)
    requires i < |q.attributes| && q.attributes[i].stored
    ensures var result, m, n := q.Rows(0, |q.rows|), MatchesBefore(q, id), StoredBefore(q.attributes, i);
            && |result| == MatchesBefore(q, |q.rows|) > m
            && |result[m]| == StoredBefore(q.attributes, |q.attributes|) > n
            && result[m][n] == q.rows[id][q.attributes[i].column]
  {
    ScanRows(q, |q.rows|);
    RowValue(q.attributes, q.rows[id], i);
  }

  // ----- joins -----

  /** A joined row has one value per entry of the source map: entry `i` says from which of the two rows
      value `i` comes, and from which column. */
  lemma JoinedValue(plan: Plan, l: RelationJoin.Row, r: RelationJoin.Row, i: nat)
    requires plan.Valid() && l in plan.left && r in plan.right && i < |plan.sources|
    ensures |plan.JoinRow(l, r)| == |plan.sources|
    ensures var s, value := plan.sources[i], plan.JoinRow(l, r)[i];
            && (s.FromLeft? ==> s.column < |l| && value == l[s.column])
            && (s.FromRight? ==> s.column < |r| && value == r[s.column])
  {
    assert plan.sources[i] in plan.sources;
    var a :| 0 <= a < |plan.left| && plan.left[a] == l;
    var b :| 0 <= b < |plan.right| && plan.right[b] == r;
  }

  /** The keys of two rows are equal. */
  predicate EqualKeys(plan: Plan, i: nat, j: nat) {
    && i < |plan.left| && j < |plan.right|
    && plan.leftColumn < |plan.left[i]| && plan.rightColumn < |plan.right[j]|
    && plan.left[i][plan.leftColumn] == plan.right[j][plan.rightColumn]
  }

  predicate IsPair(plan: Plan, i: nat, j: nat, row: RelationJoin.Row) {
    EqualKeys(plan, i, j) && row == plan.JoinRow(plan.left[i], plan.right[j])
  }

  lemma {:induction false} ScanMember<T>(adds: seq<seq<T>>, hi: nat, x: T)
    requires hi <= |adds|
    ensures x in Scan(adds, 0, hi) <==> exists i :: 0 <= i < hi && x in adds[i]
  {
    if hi > 0 {
      ScanMember(adds, hi - 1, x);
    }
  }

  lemma PairsOfRow(plan: Plan, i: nat, row: RelationJoin.Row)
    requires plan.Valid() && i < |plan.left|
    ensures row in Scan(plan.Matches(plan.left[i]), 0, |plan.right|) <==> exists j: nat :: IsPair(plan, i, j, row)
  {
    ScanMember(plan.Matches(plan.left[i]), |plan.right|, row);
    forall j: nat | j < |plan.right| ensures row in plan.Matches(plan.left[i])[j] <==> IsPair(plan, i, j, row) {
    }
  }

  /** The equi-join holds the joined rows of all pairs with equal keys, and no others. */
  lemma {:induction false} EquiJoinIff(plan: Plan, t: nat, row: RelationJoin.Row)
    requires plan.Valid() && t <= |plan.left|
    ensures row in plan.EquiJoin(t) <==> exists i: nat, j: nat :: t <= i && IsPair(plan, i, j, row)
    decreases |plan.left| - t
  {
    if t < |plan.left| {
      PairsOfRow(plan, t, row);
      EquiJoinIff(plan, t + 1, row);
      var here, rest := Scan(plan.Matches(plan.left[t]), 0, |plan.right|), plan.EquiJoin(t + 1);
      assert plan.EquiJoin(t) == here + rest;
    }
  }
}
