/** Range derivation: a second walk over the bytecode that infers, per variable,
    an interval in which every satisfying assignment is supposed to lie. The
    relation layer uses the interval to replace a scan by an index search. */
module LvmDerive {
  import opened Common
  import opened LvmCode
  import opened LvmMachine

  /** A 32-bit `long`. */
  const LONG_MIN: int := -0x8000_0000
  const LONG_MAX: int := 0x7FFF_FFFF

  datatype Range = Range(min: int, max: int, derived: bool)

  const NO_RANGE := Range(0, 0, false)

  type Ranges = s: seq<Range> | |s| == MAX_VARIABLES witness seq(MAX_VARIABLES, i => NO_RANGE)

  // ----- what the walk computes -----

  function Max(a: int, b: int): int { if a > b then a else b }

  function Meet(a: Range, b: Range): Range {
    if !a.derived && !b.derived then NO_RANGE
    else if !b.derived then a
    else if !a.derived then b
    else Range(Max(a.min, b.min), Min(a.max, b.max), true)
  }

  /** A range known on one side only is kept as it is. */
  function Join(a: Range, b: Range): Range {
    if !a.derived && !b.derived then NO_RANGE
    else if !b.derived then a
    else if !a.derived then b
    else Range(Min(a.min, b.min), Max(a.max, b.max), true)
  }

  function Pointwise(op: Operator, a: Ranges, b: Ranges): Ranges {
    seq(MAX_VARIABLES, i requires 0 <= i < MAX_VARIABLES => if op == AND then Meet(a[i], b[i]) else Join(a[i], b[i]))
  }

  /** `value.id` read from the operand's union: the low byte of a long. */
  function UnionId(o: Operand): nat {
    match o
    case Variable(id) => id
    case Long(l) => l % 256
    case Float => 0
  }

  /** `value.l` read from the operand's union. */
  function UnionLong(o: Operand): int {
    match o
    case Variable(id) => id
    case Long(l) => l
    case Float => 0
  }

  function ComparisonRange(op: Operator, c: int): Option<Range> {
    match op
    case EQ => Some(Range(c, c, true))
    case GE => Some(Range(c + 1, LONG_MAX, true))
    case GEQ => Some(Range(c, LONG_MAX, true))
    case LE => Some(Range(LONG_MIN, c - 1, true))
    case LEQ => Some(Range(LONG_MIN, c, true))
    case _ => None
  }

  function DeriveComparison(op: Operator, a: Operand, b: Operand): Option<Ranges> {
    if a.Variable? && b.Variable? then None else
    var (id, c) := if a.Variable? then (UnionId(a), UnionLong(b)) else (UnionId(b), UnionLong(a));
    if id >= MAX_VARIABLES then None else
    match ComparisonRange(op, c)
    case None => None
    case Some(r) => Some(seq(MAX_VARIABLES, i => NO_RANGE)[id := r])
  }

  /** The ranges derived from a tree, or None where the walk reports an error. */
  function Derive(t: Tree): Option<Ranges> {
    if !t.Relation? then None
    else if IsConnective(t.rel) then
      var a := Derive(t.left);
      if a.None? then None else
      var b := Derive(t.right);
      if b.None? then None else Some(Pointwise(t.rel, a.value, b.value))
    else if t.left.Leaf? && t.right.Leaf? then DeriveComparison(t.rel, t.left.o, t.right.o)
    else None
  }

  // ----- the walk -----

  /** Connectives combine conditions; only such trees are compiled. */
  predicate Conditional(t: Tree) {
    match t
    case Negation(a) => Conditional(a)
    case Relation(op, l, r) => IsConnective(op) ==> Conditional(l) && Conditional(r)
    case _ => false
  }

  predicate Untouched(d: seq<Range>) {
    forall i :: 0 <= i < |d| ==> d[i] == NO_RANGE
  }

  method CreateIntersection(result: array<Range>, d1: array<Range>, d2: array<Range>)
    requires result.Length == d1.Length == d2.Length == MAX_VARIABLES
    requires result != d1 && result != d2 && Untouched(result[..])
    modifies result
    ensures result[..] == Pointwise(AND, d1[..], d2[..])
  {
    for i := 0 to MAX_VARIABLES
      invariant forall j :: 0 <= j < i ==> result[j] == Meet(d1[j], d2[j])
      invariant forall j :: i <= j < MAX_VARIABLES ==> result[j] == NO_RANGE
    {
      if d1[i].derived || d2[i].derived {
        var min, max;
        if !d2[i].derived {
          min, max := d1[i].min, d1[i].max;
        } else if !d1[i].derived {
          min, max := d2[i].min, d2[i].max;
        } else {
          min := if d1[i].min > d2[i].min then d1[i].min else d2[i].min;
          max := if d1[i].max < d2[i].max then d1[i].max else d2[i].max;
        }
        result[i] := Range(min, max, true);
      }
    }
  }

  method CreateUnion(result: array<Range>, d1: array<Range>, d2: array<Range>)
    requires result.Length == d1.Length == d2.Length == MAX_VARIABLES
    requires result != d1 && result != d2 && Untouched(result[..])
    modifies result
    ensures result[..] == Pointwise(OR, d1[..], d2[..])
  {
    for i := 0 to MAX_VARIABLES
      invariant forall j :: 0 <= j < i ==> result[j] == Join(d1[j], d2[j])
      invariant forall j :: i <= j < MAX_VARIABLES ==> result[j] == NO_RANGE
    {
      if d1[i].derived || d2[i].derived {
        var min, max;
        if !d2[i].derived {
          min, max := d1[i].min, d1[i].max;
        } else if !d1[i].derived {
          min, max := d2[i].min, d2[i].max;
        } else {
          min := if d1[i].min > d2[i].min then d2[i].min else d1[i].min;
          max := if d1[i].max < d2[i].max then d2[i].max else d1[i].max;
        }
        result[i] := Range(min, max, true);
      }
    }
  }

  method ReadOperand(p: Lvm, ghost t: Tree) returns (operand: Option<Operand>)
    requires p.Valid() && p.At(p.ip, Encode(t))
    modifies p`ip
    ensures operand == if t.Leaf? then Some(t.o) else None
    ensures t.Leaf? ==> p.ip == old(p.ip) + |Encode(t)|
  {
    p.NodeAt(t, p.ip);
    var ty := p.GetType();
    match ty {
      case OPERAND =>
        var o := p.GetOperand();
        operand := Some(o);
      case _ =>
        operand := None;
    }
  }

  /** The loop of `derive_relation` that reads both operands of a comparison. */
  method ReadOperands(p: Lvm, ghost l: Tree, ghost r: Tree) returns (operands: Option<seq<Operand>>)
    requires p.Valid() && p.At(p.ip, EncodeAll([l, r]))
    modifies p`ip
    ensures operands.Some? <==> l.Leaf? && r.Leaf?
    ensures operands.Some? ==> |operands.value| == 2 && operands.value[0] == l.o && operands.value[1] == r.o
    ensures operands.Some? ==> p.ip == old(p.ip) + |EncodeAll([l, r])|
  {
    ghost var args := [l, r];
    var v := [];
    for i := 0 to 2
      invariant |v| == i
      invariant p.ip == old(p.ip) + |EncodeAll(args)| - |EncodeAll(args[i..])|
      invariant p.At(p.ip, EncodeAll(args[i..]))
      invariant forall j :: 0 <= j < i ==> args[j].Leaf? && args[j].o == v[j]
    {
      p.Peel(args, i, p.ip);
      var o := ReadOperand(p, args[i]);
      if o.None? {
        return None;
      }
      v := v + [o.value];
    }
    operands := Some(v);
  }

  /** The second half of `derive_relation`: a comparison. */
  method DeriveLeaf(p: Lvm, op: Operator, local: array<Range>, ghost l: Tree, ghost r: Tree) returns (ok: bool)
    requires p.Valid() && p.At(p.ip, EncodeAll([l, r]))
    requires local.Length == MAX_VARIABLES && Untouched(local[..])
    modifies p`ip, local
    ensures ok == (l.Leaf? && r.Leaf? && DeriveComparison(op, l.o, r.o).Some?)
    ensures ok ==> local[..] == DeriveComparison(op, l.o, r.o).value && p.ip == old(p.ip) + |EncodeAll([l, r])|
  {
    var read := ReadOperands(p, l, r);
    if read.None? {
      return false;
    }
    var operand := read.value;
    if operand[0].Variable? && operand[1].Variable? {
      return false;
    }
    var id, value;
    if operand[0].Variable? {
      id, value := UnionId(operand[0]), UnionLong(operand[1]);
    } else {
      id, value := UnionId(operand[1]), UnionLong(operand[0]);
    }
    if id >= MAX_VARIABLES {
      return false;
    }
    var min, max := LONG_MIN, LONG_MAX;
    match op {
      case EQ => min, max := value, value;
      case GE => min := value + 1;
      case GEQ => min := value;
      case LE => max := value - 1;
      case LEQ => max := value;
      case _ => return false;
    }
    local[id] := Range(min, max, true);
    return true;
  }

  /** The first half of `derive_relation`: both sides of an AND or OR. */
  method DeriveConnective(p: Lvm, op: Operator, local: array<Range>, ghost l: Tree, ghost r: Tree) returns (ok: bool)
    requires p.Valid() && (op == AND || op == OR) && Conditional(l) && Conditional(r)
    requires p.At(p.ip, Encode(l)) && p.At(p.ip + |Encode(l)|, Encode(r))
    requires local.Length == MAX_VARIABLES && Untouched(local[..])
    modifies p`ip, local
    ensures ok == (Derive(l).Some? && Derive(r).Some?)
    ensures ok ==> local[..] == Pointwise(op, Derive(l).value, Derive(r).value)
    ensures ok ==> p.ip == old(p.ip) + |Encode(l)| + |Encode(r)|
    decreases |Encode(l)| + |Encode(r)|, 0
  {
    var d1 := new Range[MAX_VARIABLES](i => NO_RANGE);
    var d2 := new Range[MAX_VARIABLES](i => NO_RANGE);
    ok := DeriveRelation(p, d1, l);
    if !ok {
      return;
    }
    ok := DeriveRelation(p, d2, r);
    if !ok {
      return;
    }
    if op == AND {
      CreateIntersection(local, d1, d2);
    } else {
      CreateUnion(local, d1, d2);
    }
  }

  /** `derive_relation`; `false` stands for DERIVATION_ERROR. */
  method DeriveRelation(p: Lvm, local: array<Range>, ghost t: Tree) returns (ok: bool)
    requires p.Valid() && p.At(p.ip, Encode(t)) && Conditional(t)
    requires local.Length == MAX_VARIABLES && Untouched(local[..])
    modifies p`ip, local
    ensures ok == Derive(t).Some?
    ensures ok ==> local[..] == Derive(t).value && p.ip == old(p.ip) + |Encode(t)|
    decreases |Encode(t)|
  {
    p.NodeAt(t, p.ip);
    var ty := p.GetType();
    var op := p.GetOperator();
    if IsConnective(op) {
      if op != AND && op != OR {
        return false;
      }
      EncodePair(t.left, t.right);
      p.AtSplit(p.ip, Encode(t.left), Encode(t.right));
      ok := DeriveConnective(p, op, local, t.left, t.right);
    } else {
      ok := DeriveLeaf(p, op, local, t.left, t.right);
    }
  }

  // ----- what the derived ranges are worth -----

  predicate InLong(env: Env) {
    forall i :: 0 <= i < |env| ==> LONG_MIN <= env[i] <= LONG_MAX
  }

  predicate Inside(d: Ranges, env: Env) {
    forall i :: 0 <= i < |d| && d[i].derived ==> d[i].min <= env[i] <= d[i].max
  }

  predicate Ordering(op: Operator) {
    op == EQ || op == GE || op == GEQ || op == LE || op == LEQ
  }

  predicate IsConstant(t: Tree) {
    t.Leaf? && t.o.Long? && LONG_MIN < t.o.l < LONG_MAX
  }

  predicate IsVariable(t: Tree) {
    t.Leaf? && t.o.Variable?
  }

  /** AND/OR trees over comparisons of a variable with a constant strictly inside
      the long range, in either order. */
  predicate Plain(t: Tree) {
    t.Relation? && t.rel != NEQ &&
    if IsConnective(t.rel) then Plain(t.left) && Plain(t.right)
    else Ordering(t.rel) && ((IsVariable(t.left) && IsConstant(t.right)) || (IsConstant(t.left) && IsVariable(t.right)))
  }

  /** No ordering comparison has its constant on the left. */
  predicate VariableLeft(t: Tree)
    requires Plain(t)
  {
    if IsConnective(t.rel) then VariableLeft(t.left) && VariableLeft(t.right)
    else IsVariable(t.left) || t.rel == EQ
  }

  predicate AndOnly(t: Tree)
    requires Plain(t)
  {
    IsConnective(t.rel) ==> t.rel == AND && AndOnly(t.left) && AndOnly(t.right)
  }

  /** Both sides of every OR constrain the same variables. */
  predicate SameSides(t: Tree)
    requires Plain(t)
  {
    IsConnective(t.rel) ==>
      && SameSides(t.left) && SameSides(t.right)
      && (t.rel == OR ==> Mentioned(t.left) == Mentioned(t.right))
  }

  function Mentioned(t: Tree): set<VarId>
    requires Plain(t)
  {
    if IsConnective(t.rel) then Mentioned(t.left) + Mentioned(t.right)
    else if IsVariable(t.left) then {t.left.o.id} else {t.right.o.id}
  }

  /** Derivation succeeds on plain trees, for precisely the variables mentioned. */
  lemma {:induction false} DerivesMentioned(t: Tree)
    requires Plain(t)
    ensures Derive(t).Some?
    ensures forall i: VarId :: Derive(t).value[i].derived <==> i in Mentioned(t)
  {
    if IsConnective(t.rel) {
      DerivesMentioned(t.left);
      DerivesMentioned(t.right);
    }
  }

  lemma CombineInside(op: Operator, a: Ranges, b: Ranges, x: bool, y: bool, env: Env)
    requires (x ==> Inside(a, env)) && (y ==> Inside(b, env))
    requires if op == AND then x && y
             else (x || y) && forall i :: 0 <= i < MAX_VARIABLES ==> a[i].derived == b[i].derived
    ensures Inside(Pointwise(op, a, b), env)
  {
  }

  /** The union of two derivations is the hull: where both have a range, an interval holds the range of
      the union iff it holds both of them; where one has a range, that is kept. */
  lemma UnionIsHull(a: Ranges, b: Ranges, v: VarId, lo: int, hi: int)
    ensures var u := Pointwise(OR, a, b)[v];
            && (u.derived <==> a[v].derived || b[v].derived)
            && (a[v].derived && b[v].derived ==>
                  (lo <= u.min && u.max <= hi <==>
                     lo <= a[v].min && a[v].max <= hi && lo <= b[v].min && b[v].max <= hi))
            && (a[v].derived && !b[v].derived ==> u == a[v]) && (b[v].derived && !a[v].derived ==> u == b[v])
  {
  }

  /** Soundness on the fragment that the relation layer may rely on. */
  lemma {:induction false} SatisfyingInside(t: Tree, env: Env)
    requires Plain(t) && VariableLeft(t) && SameSides(t) && InLong(env)
    requires Truth(t, env) == Ok(true)
    ensures Derive(t).Some? && Inside(Derive(t).value, env)
  {
    DerivesMentioned(t);
    if IsConnective(t.rel) {
      DerivesMentioned(t.left);
      DerivesMentioned(t.right);
      var x, y := Truth(t.left, env), Truth(t.right, env);
      if x == Ok(true) { SatisfyingInside(t.left, env); }
      if y == Ok(true) { SatisfyingInside(t.right, env); }
      CombineInside(t.rel, Derive(t.left).value, Derive(t.right).value, x.value, y.value, env);
    }
  }

  /** For conjunctions the derived box is exact. */
  lemma {:induction false} ConjunctionExact(t: Tree, env: Env)
    requires Plain(t) && VariableLeft(t) && AndOnly(t) && InLong(env)
    ensures Derive(t).Some? && Truth(t, env).Ok?
    ensures Truth(t, env).value <==> Inside(Derive(t).value, env)
  {
    DerivesMentioned(t);
    if IsConnective(t.rel) {
      DerivesMentioned(t.left);
      DerivesMentioned(t.right);
      ConjunctionExact(t.left, env);
      ConjunctionExact(t.right, env);
      var d, a, b := Derive(t).value, Derive(t.left).value, Derive(t.right).value;
      if Inside(d, env) {
        forall i | 0 <= i < |a| && a[i].derived ensures a[i].min <= env[i] <= a[i].max {
          assert d[i] == Meet(a[i], b[i]);
        }
        forall i | 0 <= i < |b| && b[i].derived ensures b[i].min <= env[i] <= b[i].max {
          assert d[i] == Meet(a[i], b[i]);
        }
      }
    } else {
      var id := if IsVariable(t.left) then t.left.o.id else t.right.o.id;
      assert forall i :: 0 <= i < MAX_VARIABLES && Derive(t).value[i].derived ==> i == id;
    }
  }

  // ----- exactly when the derived ranges are sound -----

  datatype Interval = Interval(lo: int, hi: int)

  type Box = s: seq<Interval> | |s| == MAX_VARIABLES witness seq(MAX_VARIABLES, i => Interval(0, 0))

  predicate InBox(b: Box, env: Env) {
    forall i :: 0 <= i < |b| ==> b[i].lo <= env[i] <= b[i].hi
  }

  function FullBox(): Box {
    seq(MAX_VARIABLES, i => Interval(LONG_MIN, LONG_MAX))
  }

  function Cap(a: Box, b: Box): Box {
    seq(MAX_VARIABLES, i requires 0 <= i < MAX_VARIABLES => Interval(Max(a[i].lo, b[i].lo), Min(a[i].hi, b[i].hi)))
  }

  /** The operator after its operands have changed places. */
  function Flip(op: Operator): Operator {
    match op
    case GE => LE
    case GEQ => LEQ
    case LE => GE
    case LEQ => GEQ
    case _ => op
  }

  function HalfLine(op: Operator, c: int): Interval
    requires Ordering(op)
  {
    match op
    case EQ => Interval(c, c)
    case GE => Interval(c + 1, LONG_MAX)
    case GEQ => Interval(c, LONG_MAX)
    case LE => Interval(LONG_MIN, c - 1)
    case LEQ => Interval(LONG_MIN, c)
  }

  /** All constants are strictly inside the long range. */
  predicate Longs(t: Tree) {
    match t
    case Leaf(o) => o.Variable? || IsConstant(t)
    case Arith(_, l, r) => Longs(l) && Longs(r)
    case Relation(_, l, r) => Longs(l) && Longs(r)
    case Negation(a) => Longs(a)
  }

  /** Derivation succeeds: on AND/OR trees over comparisons of at most one variable, and so also
      of two constants. */
  predicate Derives(t: Tree) {
    Derive(t).Some? && Longs(t)
  }

  lemma DerivesIff(t: Tree)
    ensures Derives(t) <==>
            && t.Relation? && t.rel != NEQ
            && if IsConnective(t.rel) then Derives(t.left) && Derives(t.right)
               else
                 && Ordering(t.rel)
                 && (IsVariable(t.left) || IsConstant(t.left)) && (IsVariable(t.right) || IsConstant(t.right))
                 && !(IsVariable(t.left) && IsVariable(t.right))
                 && (IsConstant(t.left) && IsConstant(t.right) ==> t.right.o.l % 256 < MAX_VARIABLES)
  {
    if t.Relation? && !IsConnective(t.rel) && t.left.Leaf? && t.right.Leaf? {
      assert Longs(t.left) <==> t.left.o.Variable? || IsConstant(t.left);
      assert Longs(t.right) <==> t.right.o.Variable? || IsConstant(t.right);
    }
  }

  lemma {:induction false} PlainDerives(t: Tree)
    requires Plain(t)
    ensures Derives(t)
  {
    DerivesMentioned(t);
    if IsConnective(t.rel) {
      PlainDerives(t.left);
      PlainDerives(t.right);
    }
  }

  /** The condition in disjunctive normal form: one box per branch, read off the
      meaning of each comparison. */
  function Branches(t: Tree): set<Box>
    requires Derives(t)
  {
    DerivesIff(t);
    if t.rel == AND then set a, b | a in Branches(t.left) && b in Branches(t.right) :: Cap(a, b)
    else if t.rel == OR then Branches(t.left) + Branches(t.right)
    else ComparisonBoxes(t)
  }

  /** The interval of the one variable of a comparison; two constants leave every variable free,
      or are a branch that is never taken. */
  function ComparisonBoxes(t: Tree): set<Box>
    requires Derives(t) && !IsConnective(t.rel)
  {
    DerivesIff(t);
    if IsVariable(t.left) then {FullBox()[t.left.o.id := HalfLine(t.rel, t.right.o.l)]}
    else if IsVariable(t.right) then {FullBox()[t.right.o.id := HalfLine(Flip(t.rel), t.left.o.l)]}
    else if ApplyComparison(t.rel, t.left.o.l, t.right.o.l) == Ok(true) then {FullBox()} else {}
  }

  lemma ComparisonBoxesExact(t: Tree, env: Env)
    requires Derives(t) && !IsConnective(t.rel) && InLong(env)
    ensures Truth(t, env) == Ok(InSome(ComparisonBoxes(t), env))
  {
    DerivesIff(t);
    if IsVariable(t.left) {
      OneSideExact(t.left.o.id, HalfLine(t.rel, t.right.o.l), env);
    } else if IsVariable(t.right) {
      OneSideExact(t.right.o.id, HalfLine(Flip(t.rel), t.left.o.l), env);
    } else if ApplyComparison(t.rel, t.left.o.l, t.right.o.l) == Ok(true) {
      assert FullBox() in ComparisonBoxes(t) && InBox(FullBox(), env);
    }
  }

  lemma OneSideExact(id: VarId, line: Interval, env: Env)
    requires InLong(env)
    ensures InSome({FullBox()[id := line]}, env) <==> line.lo <= env[id] <= line.hi
  {
    var box := FullBox()[id := line];
    assert box[id] == line && forall i :: 0 <= i < MAX_VARIABLES && i != id ==> box[i] == Interval(LONG_MIN, LONG_MAX);
    if line.lo <= env[id] <= line.hi {
      assert box in {box} && InBox(box, env);
    }
  }

  lemma CapExact(a: Box, b: Box, env: Env)
    ensures InBox(Cap(a, b), env) <==> InBox(a, env) && InBox(b, env)
  {
    var c := Cap(a, b);
    assert forall i :: 0 <= i < MAX_VARIABLES ==> c[i] == Interval(Max(a[i].lo, b[i].lo), Min(a[i].hi, b[i].hi));
    if InBox(c, env) {
      forall i | 0 <= i < MAX_VARIABLES ensures a[i].lo <= env[i] <= a[i].hi && b[i].lo <= env[i] <= b[i].hi {
        assert c[i].lo <= env[i] <= c[i].hi;
      }
    }
  }

  ghost predicate InSome(boxes: set<Box>, env: Env) {
    exists b :: b in boxes && InBox(b, env)
  }

  lemma CapAllExact(xs: set<Box>, ys: set<Box>, env: Env)
    ensures InSome(set a, b | a in xs && b in ys :: Cap(a, b), env) <==> InSome(xs, env) && InSome(ys, env)
  {
    var zs := set a, b | a in xs && b in ys :: Cap(a, b);
    if InSome(xs, env) && InSome(ys, env) {
      var a :| a in xs && InBox(a, env);
      var b :| b in ys && InBox(b, env);
      CapExact(a, b, env);
      assert Cap(a, b) in zs;
    }
    if InSome(zs, env) {
      var c :| c in zs && InBox(c, env);
      var a: Box, b: Box :| a in xs && b in ys && c == Cap(a, b);
      CapExact(a, b, env);
    }
  }

  lemma {:induction false} TrueInSomeBranch(t: Tree, env: Env)
    requires Derives(t) && InLong(env)
    ensures Truth(t, env) == Ok(InSome(Branches(t), env))
  {
    DerivesIff(t);
    if IsConnective(t.rel) {
      TrueInSomeBranch(t.left, env);
      TrueInSomeBranch(t.right, env);
      CapAllExact(Branches(t.left), Branches(t.right), env);
    } else {
      ComparisonBoxesExact(t, env);
    }
  }

  lemma {:induction false} BranchesInLong(t: Tree)
    requires Derives(t)
    ensures forall b: Box, i :: b in Branches(t) && 0 <= i < MAX_VARIABLES ==>
              LONG_MIN <= b[i].lo && b[i].hi <= LONG_MAX
  {
    DerivesIff(t);
    if IsConnective(t.rel) {
      BranchesInLong(t.left);
      BranchesInLong(t.right);
    }
  }

  predicate Satisfiable(b: Box) {
    forall i :: 0 <= i < |b| ==> b[i].lo <= b[i].hi
  }

  predicate Covers(d: Ranges, b: Box) {
    forall i :: 0 <= i < |d| && d[i].derived ==> d[i].min <= b[i].lo && b[i].hi <= d[i].max
  }

  /** The finite check: every branch that can be true lies in the derived ranges. */
  predicate AllBranchesCovered(t: Tree)
    requires Derives(t)
  {
    forall b :: b in Branches(t) && Satisfiable(b) ==> Covers(Derive(t).value, b)
  }

  ghost predicate Sound(t: Tree)
    requires Derive(t).Some?
  {
    forall env: Env :: InLong(env) && Truth(t, env) == Ok(true) ==> Inside(Derive(t).value, env)
  }

  /** A satisfiable branch reaches both ends of each of its sides. */
  lemma CornersInside(d: Ranges, b: Box)
    requires Satisfiable(b)
    requires forall env: Env :: InBox(b, env) ==> Inside(d, env)
    ensures Covers(d, b)
  {
    var low: Env := seq(MAX_VARIABLES, i requires 0 <= i < MAX_VARIABLES => b[i].lo);
    var high: Env := seq(MAX_VARIABLES, i requires 0 <= i < MAX_VARIABLES => b[i].hi);
    assert InBox(b, low) && InBox(b, high);
  }

  /** Wherever derivation succeeds, it is sound if and only if the finite check passes. */
  lemma SoundIffBranchesCovered(t: Tree)
    requires Derives(t)
    ensures Sound(t) <==> AllBranchesCovered(t)
  {
    BranchesInLong(t);
    var d := Derive(t).value;
    if Sound(t) {
      forall b | b in Branches(t) && Satisfiable(b) ensures Covers(d, b) {
        forall env: Env | InBox(b, env) ensures Inside(d, env) {
          TrueInSomeBranch(t, env);
        }
        CornersInside(d, b);
      }
    }
    if AllBranchesCovered(t) {
      forall env: Env | InLong(env) && Truth(t, env) == Ok(true) ensures Inside(d, env) {
        TrueInSomeBranch(t, env);
        var b :| b in Branches(t) && InBox(b, env);
        assert Covers(d, b);
      }
    }
  }

  /** A comparison with the constant on the left is derived as if it were written
      the other way round: right for `=`, wrong for every ordering. */
  lemma ConstantLeftSoundIffEqual(op: BinaryOperator, c: int, id: VarId)
    requires Ordering(op) && LONG_MIN < c < LONG_MAX
    ensures var t := Relation(op, Leaf(Long(c)), Leaf(Variable(id)));
            Derive(t).Some? && (Sound(t) <==> op == EQ)
  {
    var t := Relation(op, Leaf(Long(c)), Leaf(Variable(id)));
    PlainDerives(t);
    SoundIffBranchesCovered(t);
    var box := FullBox()[id := HalfLine(Flip(op), c)];
    assert Branches(t) == {box} && box[id] == HalfLine(Flip(op), c);
    assert Satisfiable(box);
    assert Derive(t).value[id] == ComparisonRange(op, c).value;
  }

  /** An OR keeps the range of a variable that only one side mentions: rows that
      satisfy the other side fall outside it. */
  lemma OneSidedOrUnsound()
    ensures var t := Relation(OR, Relation(GE, Leaf(Variable(1)), Leaf(Long(10000))),
                                  Relation(LE, Leaf(Variable(0)), Leaf(Long(100))));
            var env := [500, 20000, 0, 0];
            Plain(t) && VariableLeft(t) && Derive(t).Some?
            && Truth(t, env) == Ok(true) && !Inside(Derive(t).value, env)
  {
    var l := Relation(GE, Leaf(Variable(1)), Leaf(Long(10000)));
    var r := Relation(LE, Leaf(Variable(0)), Leaf(Long(100)));
    var d := Derive(Relation(OR, l, r)).value;
    assert Derive(l).value[0] == NO_RANGE && Derive(r).value[0] == Range(LONG_MIN, 99, true);
    assert d[0] == Range(LONG_MIN, 99, true);
  }

  /** A comparison of two constants is derived as one of the variable whose number is the low byte
      of the second: `a >= 5 AND 0 = 0` has an empty range for the variable 0. */
  function ConstantComparison(): Tree {
    Relation(AND, Relation(GEQ, Leaf(Variable(0)), Leaf(Long(5))), Relation(EQ, Leaf(Long(0)), Leaf(Long(0))))
  }

  lemma ConstantComparisonUnsound()
    ensures var t, env := ConstantComparison(), [7, 0, 0, 0];
            && Derives(t) && Derive(t).value[0] == Range(5, 0, true)
            && Truth(t, env) == Ok(true) && !Inside(Derive(t).value, env) && !Sound(t)
  {
    var t := ConstantComparison();
    var env: Env := [7, 0, 0, 0];
    assert Derive(t.left).value[0] == Range(5, LONG_MAX, true) && Derive(t.right).value[0] == Range(0, 0, true);
    assert Derive(t).value[0] == Range(5, 0, true);
    assert InLong(env) && Truth(t, env) == Ok(true);
  }

  /** On its own such a comparison is derived soundly iff it is false. */
  lemma ConstantsSoundIffFalse(op: BinaryOperator, c: int, d: int)
    requires Ordering(op) && LONG_MIN < c < LONG_MAX && LONG_MIN < d < LONG_MAX && d % 256 < MAX_VARIABLES
    ensures var t := Relation(op, Leaf(Long(c)), Leaf(Long(d)));
            Derives(t) && (Sound(t) <==> ApplyComparison(op, c, d) == Ok(false))
  {
    var t := Relation(op, Leaf(Long(c)), Leaf(Long(d)));
    SoundIffBranchesCovered(t);
    assert Derive(t).value[d % 256] == ComparisonRange(op, c).value;
    assert FullBox()[d % 256] == Interval(LONG_MIN, LONG_MAX) && Satisfiable(FullBox());
  }
}
