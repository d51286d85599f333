/** A SELECT by index that loses rows, from the query on: the condition compares two constants, and
    derivation takes the second one for a variable. */
module LostRows {
  import opened Common
  import opened LvmCode
  import opened LvmDerive
  import opened AqlParser
  import opened InlineIndex
  import opened RelationSelect

  /** `a >= 5 AND 0 = 0` is a chain that the parser compiles, into this tree. */
  lemma CompilesToConstantComparison()
    ensures var w := Where([AqlParser.Comparison(Single(Var(0)), GreaterEqual, Single(Int(5))),
                            AqlParser.Comparison(Single(Int(0)), Equal, Single(Int(0)))], [true]);
            && WhereAt([IDENTIFIER(0), GT_EQUAL, INTEGER_VALUE(5), AND_TOKEN,
                        INTEGER_VALUE(0), EQUAL, INTEGER_VALUE(0)], 0, w, false)
            && TreeFrom(w, 0) == ConstantComparison()
  {
  }

  const ROWS: seq<Row> := [[0], [5], [6], [7]]

  /** One column, which supplies the variable 0. */
  const ATTRIBUTES: seq<Attribute> := [Attribute(0, Some(0), true)]

  lemma TruthOf(env: Env)
    ensures Truth(ConstantComparison(), env) == Ok(env[0] >= 5)
  {
    assert Truth(ConstantComparison().left, env) == Ok(env[0] >= 5);
    assert Truth(ConstantComparison().right, env) == Ok(true);
  }

  lemma ScanOf(q: Query)
    requires q.attributes == ATTRIBUTES && q.rows == ROWS && q.condition == ConstantComparison()
    ensures q.Rows(0, 4) == [[5], [6], [7]] && q.Rows(1, 2) == [[5]]
  {
    forall i | 0 <= i < 4 ensures q.Visit(i) == if i == 0 then [] else [ROWS[i]] {
      assert ColumnOf(ATTRIBUTES, 0) == Some(0);
      TruthOf(RowEnv(q.attributes, q.rows[i], q.base));
      assert RowEnv(q.attributes, q.rows[i], q.base)[0] == ROWS[i][0];
      assert Project(ATTRIBUTES[..0], ROWS[i]) == [];
      assert Project(ATTRIBUTES, ROWS[i]) == [ROWS[i][0]] == ROWS[i];
    }
    assert q.Rows(1, 2) == q.Rows(1, 1) + q.Visits()[1];
    assert q.Rows(0, 1) == q.Rows(0, 0) + q.Visits()[0];
    assert q.Rows(0, 2) == q.Rows(0, 1) + q.Visits()[1];
    assert q.Rows(0, 3) == q.Rows(0, 2) + q.Visits()[2];
    assert q.Rows(0, 4) == q.Rows(0, 3) + q.Visits()[3];
  }

  /** With an inline index on the column, the SELECT emits one of the three rows that match. */
  method RunByIndex(select: Select) returns (emitted: seq<Row>)
    requires select.Valid() && select.vm.ip == 0 && select.NotBelowColumn()
    requires select.attributes == ATTRIBUTES && select.rows == ROWS && select.indexes[0] != null
    requires select.query.condition == ConstantComparison()
    modifies select, select.vm`ip, select.vm.variables, set o | o in select.indexes
    ensures emitted == [[5]] && select.query.Rows(0, 4) == [[5], [6], [7]]
  {
    ScanOf(select.query);
    TakeIndex(select);
    emitted := select.Run();
    WindowOf(select.search, select.lo, select.hi);
  }

  /** The index is taken, for the range from 5 to 0. */
  method TakeIndex(select: Select)
    requires select.Valid() && select.vm.ip == 0 && select.NotBelowColumn()
    requires select.attributes == ATTRIBUTES && select.rows == ROWS && select.indexes[0] != null
    requires select.query.condition == ConstantComparison()
    modifies select, select.vm`ip, set o | o in select.indexes
    ensures select.Valid() && select.Planned() && select.Visited() && select.hi == 0
    ensures select.search != null && select.search in select.indexes
    ensures select.search.minValue == 5 && select.search.maxValue == 0 && select.search.column == [0, 5, 6, 7]
  {
    ConstantComparisonUnsound();
    select.Prepare();
    IndexTaken(select);
    assert select.query.Column(0) == [0, 5, 6, 7];
  }

  lemma IndexTaken(select: Select)
    requires select.Fixed() && select.Planned() && select.attributes == ATTRIBUTES && select.indexes[0] != null
    requires select.query.condition == ConstantComparison()
    requires Derive(ConstantComparison()).Some? && select.Chosen(Derive(ConstantComparison()).value, 1)
    ensures select.search != null && select.search.minValue == 5 && select.search.maxValue == 0
    ensures select.search.column == select.query.Column(0)
  {
    ConstantComparisonUnsound();
    assert select.Usable(0, Derive(ConstantComparison()).value);
    assert ColumnOf(ATTRIBUTES, 0) == Some(0);
    assert forall v: VarId :: ColumnOf(ATTRIBUTES, v).Some? ==> v == 0;
  }

  lemma WindowOf(search: InlineIterator, lo: nat, hi: nat)
    requires search.column == [0, 5, 6, 7] && search.minValue == 5 && search.maxValue == 0
    requires if lo < hi then search.Searched() && lo == search.cachedStart && hi == Max(lo, search.cachedEnd) + 1
             else search.minValue == search.maxValue && search.minValue !in search.column
    ensures lo == 1 && hi == 2
  {
    assert search.column[1] == 5 && search.column[0] == 0;
  }
}
