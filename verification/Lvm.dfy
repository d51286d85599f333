/** The LogicVM of Antelope: prefix bytecode, the tree it encodes, what a tree
    means, and the machine that evaluates the bytecode through a moving cursor.

    One cell stands for a node type, an operator or an operand. Every node of
    the bytecode is then a type cell followed by one more cell. */
module LvmCode {

  datatype Result<+T> = Ok(value: T) | Err(status: Status)

  /** The error codes of `enum lvm_status` that evaluation can return. */
  datatype Status = SEMANTIC_ERROR | MATH_ERROR | EXECUTION_ERROR | DERIVATION_ERROR

  datatype NodeType = ARITH_OP | OPERAND | CMP_OP | CONNECTIVE

  /** In the source's naming GE is `>`, GEQ is `>=`, LE is `<` and LEQ is `<=`. */
  datatype Operator =
    | ADD | SUB | MUL | DIV
    | EQ | NEQ | GE | GEQ | LE | LEQ
    | AND | OR | NOT

  const MAX_VARIABLES: nat := 4

  type VarId = i: nat | i < MAX_VARIABLES

  datatype Operand = Variable(id: VarId) | Float | Long(l: int)

  datatype Cell = Blank | TypeCell(t: NodeType) | OpCell(op: Operator) | OperandCell(o: Operand)

  type BinaryOperator = op: Operator | op != NOT witness ADD

  /** Any arrangement of nodes, well typed or not: a comparison may stand where
      an arithmetic operand is expected, and an operator in the wrong kind of node. */
  datatype Tree =
    | Leaf(o: Operand)
    | Arith(op: Operator, left: Tree, right: Tree)
    | Relation(rel: BinaryOperator, left: Tree, right: Tree)
    | Negation(arg: Tree)

  predicate IsConnective(op: Operator) {
    op == AND || op == OR || op == NOT
  }

  /** The prefix (Polish) encoding. */
  function Encode(t: Tree): (s: seq<Cell>)
    ensures |s| >= 2
  {
    match t
    case Leaf(o) => [TypeCell(OPERAND), OperandCell(o)]
    case Arith(op, l, r) => [TypeCell(ARITH_OP), OpCell(op)] + Encode(l) + Encode(r)
    case Relation(op, l, r) => [TypeCell(CMP_OP), OpCell(op)] + Encode(l) + Encode(r)
    case Negation(a) => [TypeCell(CMP_OP), OpCell(NOT)] + Encode(a)
  }

  // ----- what a tree means -----

  type Env = s: seq<int> | |s| == MAX_VARIABLES witness [0, 0, 0, 0]

  /** C division truncates toward zero. */
  function TruncDiv(a: int, b: int): int
    requires b != 0
  {
    if a >= 0 then (if b > 0 then a / b else -(a / -b))
    else if b > 0 then -(-a / b) else -a / -b
  }

  function OperandToLong(o: Operand, env: Env): int {
    match o
    case Long(l) => l
    case Variable(id) => env[id]
    case Float => 0
  }

  function ApplyArith(op: Operator, a: int, b: int): Result<int> {
    match op
    case ADD => Ok(a + b)
    case SUB => Ok(a - b)
    case MUL => Ok(a * b)
    case DIV => if b == 0 then Err(MATH_ERROR) else Ok(TruncDiv(a, b))
    case _ => Err(EXECUTION_ERROR)
  }

  function ApplyComparison(op: Operator, a: int, b: int): Result<bool> {
    match op
    case EQ => Ok(a == b)
    case NEQ => Ok(a != b)
    case GE => Ok(a > b)
    case GEQ => Ok(a >= b)
    case LE => Ok(a < b)
    case LEQ => Ok(a <= b)
    case _ => Err(EXECUTION_ERROR)
  }

  /** The value of a tree used as an arithmetic operand, or the first error met
      when the tree is read from left to right. */
  function Value(t: Tree, env: Env): Result<int> {
    match t
    case Leaf(o) => Ok(OperandToLong(o, env))
    case Arith(op, l, r) =>
      var a := Value(l, env);
      if a.Err? then a else
      var b := Value(r, env);
      if b.Err? then b else ApplyArith(op, a.value, b.value)
    case _ => Err(SEMANTIC_ERROR)
  }

  /** The truth value of a tree used as a condition, or the first error. */
  function Truth(t: Tree, env: Env): Result<bool> {
    match t
    case Negation(a) =>
      var x := Truth(a, env);
      if x.Err? then x else Ok(!x.value)
    case Relation(op, l, r) =>
      if IsConnective(op) then
        var x := Truth(l, env);
        if x.Err? then x else
        var y := Truth(r, env);
        if y.Err? then y else Ok(if op == AND then x.value && y.value else x.value || y.value)
      else
        var a := Value(l, env);
        if a.Err? then Err(a.status) else
        var b := Value(r, env);
        if b.Err? then Err(b.status) else ApplyComparison(op, a.value, b.value)
    case _ => Err(SEMANTIC_ERROR)
  }

  // ----- what division and negation mean -----

  function Abs(a: int): nat { if a < 0 then -a else a }

  /** `q` is `a / b` rounded toward zero: what remains is smaller than `b`, and has the sign of `a`. */
  predicate Quotient(a: int, b: int, q: int) {
    var rest := a - q * b;
    Abs(rest) < Abs(b) && (rest == 0 || (rest > 0 <==> a > 0))
  }

  lemma LargeMultiple(d: int, b: int)
    requires d != 0
    ensures Abs(d * b) >= Abs(b)
  {
    if d > 0 {
      assert d * b == b + (d - 1) * b;
      SameSign(d - 1, b);
    } else {
      assert d * b == -b + (d + 1) * b;
      SameSign(-(d + 1), b);
      Signs(-(d + 1), b);
    }
  }

  lemma SameSign(n: nat, b: int)
    ensures if b >= 0 then n * b >= 0 else n * b <= 0
  {
  }

  lemma Signs(n: int, b: int)
    ensures -n * b == -(n * b) && n * -b == -(n * b)
  {
  }

  lemma OneQuotient(a: int, b: int, p: int, q: int)
    requires Quotient(a, b, p) && Quotient(a, b, q)
    ensures p == q
  {
    assert (p - q) * b == (a - q * b) - (a - p * b);
    if p != q {
      LargeMultiple(p - q, b);
    }
  }

  lemma SignedProduct(a: int, b: int, n: int)
    ensures (if (a >= 0) == (b > 0) then n else -n) * b == if a >= 0 then Abs(b) * n else -(Abs(b) * n)
  {
    Signs(n, b);
  }

  lemma TruncDivIs(a: int, b: int)
    requires b != 0
    ensures Quotient(a, b, TruncDiv(a, b))
  {
    var n, rest := Abs(a) / Abs(b), Abs(a) % Abs(b);
    DivMod(Abs(a), Abs(b));
    SignedProduct(a, b, n);
    QuotientIs(a, b, TruncDiv(a, b), TruncDiv(a, b) * b, rest);
  }

  lemma DivMod(x: nat, y: nat)
    requires y > 0
    ensures x == y * (x / y) + x % y && x % y < y
  {
  }

  lemma QuotientIs(a: int, b: int, q: int, m: int, rest: int)
    requires m == q * b && 0 <= rest < Abs(b) && a - m == if a >= 0 then rest else -rest
    ensures Quotient(a, b, q)
  {
  }

  /** A division node has the quotient that is rounded toward zero, and no other value; dividing by zero
      is an error. */
  lemma DivisionValue(l: Tree, r: Tree, env: Env, a: int, b: int)
    requires Value(l, env) == Ok(a) && Value(r, env) == Ok(b)
    ensures b == 0 ==> Value(Arith(DIV, l, r), env) == Err(MATH_ERROR)
    ensures b != 0 ==> forall q :: Value(Arith(DIV, l, r), env) == Ok(q) <==> Quotient(a, b, q)
  {
    if b != 0 {
      TruncDivIs(a, b);
      forall q | Quotient(a, b, q) ensures q == TruncDiv(a, b) {
        OneQuotient(a, b, q, TruncDiv(a, b));
      }
    }
  }

  /** Negation is that of logic: it undoes itself, exchanges AND and OR, and keeps errors. */
  lemma NegationLaws(l: Tree, r: Tree, env: Env)
    ensures Truth(Negation(Negation(l)), env) == Truth(l, env)
    ensures Truth(Negation(Relation(AND, l, r)), env) == Truth(Relation(OR, Negation(l), Negation(r)), env)
    ensures Truth(Relation(AND, l, Negation(l)), env) != Ok(true)
  {
  }

  /** The errors: SEMANTIC_ERROR for a node of the wrong type, EXECUTION_ERROR for an operator in the
      wrong kind of node; where both operands raise errors, the left one counts. */
  lemma ErrorCodes(op: BinaryOperator, l: Tree, r: Tree, env: Env)
    ensures Value(Relation(op, l, r), env) == Value(Negation(l), env) == Err(SEMANTIC_ERROR)
    ensures Truth(Arith(op, l, r), env) == Err(SEMANTIC_ERROR) && (l.Leaf? ==> Truth(l, env) == Err(SEMANTIC_ERROR))
    ensures Value(l, env).Err? ==> Value(Arith(op, l, r), env) == Value(l, env)
    ensures Value(l, env).Err? && !IsConnective(op) ==> Truth(Relation(op, l, r), env) == Err(Value(l, env).status)
    ensures Truth(l, env).Err? && IsConnective(op) ==> Truth(Relation(op, l, r), env) == Truth(l, env)
    ensures Value(l, env).Ok? && Value(r, env).Ok? && op != ADD && op != SUB && op != MUL && op != DIV ==>
              Value(Arith(op, l, r), env) == Err(EXECUTION_ERROR)
    ensures Value(l, env).Ok? && Value(r, env).Ok? && (op == ADD || op == SUB || op == MUL || op == DIV) ==>
              Truth(Relation(op, l, r), env) == Err(EXECUTION_ERROR)
  {
  }

  function Prepend(v: seq<bool>, r: Result<seq<bool>>): Result<seq<bool>> {
    if r.Err? then r else Ok(v + r.value)
  }

  lemma PrependTwice(v: seq<bool>, x: bool, r: Result<seq<bool>>)
    ensures Prepend(v, Prepend([x], r)) == Prepend(v + [x], r)
  {
    if r.Ok? {
      assert v + ([x] + r.value) == v + [x] + r.value;
    }
  }

  /** The truth values of a list of conditions, or the first error. */
  function Truths(ts: seq<Tree>, env: Env): (r: Result<seq<bool>>)
    ensures r.Ok? ==> |r.value| == |ts|
  {
    if ts == [] then Ok([]) else
    var x := Truth(ts[0], env);
    if x.Err? then Err(x.status) else Prepend([x.value], Truths(ts[1..], env))
  }

  lemma TruthOfConnective(t: Tree, env: Env)
    requires t.Negation? || (t.Relation? && IsConnective(t.rel))
    ensures Truths(Args(t), env).Err? ==> Truth(t, env) == Err(Truths(Args(t), env).status)
    ensures Truths(Args(t), env).Ok? ==>
      var v := Truths(Args(t), env).value;
      Truth(t, env) == Ok(if t.Negation? then !v[0] else if t.rel == AND then v[0] && v[1] else v[0] || v[1])
  {
    if t.Relation? {
      assert [t.left, t.right][1..] == [t.right];
      TruthsOfOne(t.right, env);
    } else {
      TruthsOfOne(t.arg, env);
    }
  }

  lemma TruthsOfOne(t: Tree, env: Env)
    ensures Truths([t], env) == if Truth(t, env).Err? then Err(Truth(t, env).status) else Ok([Truth(t, env).value])
  {
    assert [t][1..] == [];
    if Truth(t, env).Ok? {
      assert [Truth(t, env).value] + [] == [Truth(t, env).value];
    }
  }

  // ----- the encoding of an argument list -----

  function EncodeAll(ts: seq<Tree>): seq<Cell> {
    if ts == [] then [] else Encode(ts[0]) + EncodeAll(ts[1..])
  }

  function Args(t: Tree): seq<Tree> {
    match t
    case Leaf(_) => []
    case Arith(_, l, r) => [l, r]
    case Relation(_, l, r) => [l, r]
    case Negation(a) => [a]
  }

  function OperatorOf(t: Tree): Operator
    requires !t.Leaf?
  {
    match t
    case Arith(op, _, _) => op
    case Relation(op, _, _) => op
    case Negation(_) => NOT
  }

  function NodeTypeOf(t: Tree): NodeType {
    match t
    case Leaf(_) => OPERAND
    case Arith(_, _, _) => ARITH_OP
    case _ => CMP_OP
  }

  lemma EncodePair(a: Tree, b: Tree)
    ensures EncodeAll([a, b]) == Encode(a) + Encode(b)
  {
    assert [a, b][1..] == [b] && [b][1..] == [];
    assert EncodeAll([b]) == Encode(b) + EncodeAll([]);
  }

  lemma SameHead(h: seq<Cell>, a: seq<Cell>, h': seq<Cell>, b: seq<Cell>)
    requires |h| == |h'| == 2 && h + a == h' + b
    ensures h == h' && a == b
  {
    assert h == (h + a)[..2] && h' == (h' + b)[..2];
    assert a == (h + a)[2..] && b == (h' + b)[2..];
  }

  function Head(t: Tree): (h: seq<Cell>)
    ensures |h| == 2
  {
    if t.Leaf? then [TypeCell(OPERAND), OperandCell(t.o)] else [TypeCell(NodeTypeOf(t)), OpCell(OperatorOf(t))]
  }

  lemma EncodeSplits(t: Tree)
    ensures Encode(t) == Head(t) + EncodeAll(Args(t))
  {
    match t
    case Leaf(_) =>
    case Negation(a) =>
      assert EncodeAll([a]) == Encode(a) + EncodeAll([]);
    case Arith(_, l, r) => EncodePair(l, r);
    case Relation(_, l, r) => EncodePair(l, r);
  }

  /** No encoding is a proper prefix of another one, so a buffer position holds
      at most one tree and the cursor's final position is determined. */
  lemma {:induction false} EncodeUnique(t: Tree, u: Tree, x: seq<Cell>, y: seq<Cell>)
    requires Encode(t) + x == Encode(u) + y
    ensures t == u && x == y
    decreases |Encode(t)|, 0
  {
    var at, au := EncodeAll(Args(t)), EncodeAll(Args(u));
    EncodeSplits(t);
    EncodeSplits(u);
    assert Head(t) + (at + x) == Head(t) + at + x == Head(u) + au + y == Head(u) + (au + y);
    SameHead(Head(t), at + x, Head(u), au + y);
    assert Head(t)[0] == Head(u)[0] && Head(t)[1] == Head(u)[1];
    EncodeAllUnique(Args(t), Args(u), x, y);
  }

  lemma {:induction false} EncodeAllUnique(ts: seq<Tree>, us: seq<Tree>, x: seq<Cell>, y: seq<Cell>)
    requires |ts| == |us|
    requires EncodeAll(ts) + x == EncodeAll(us) + y
    ensures ts == us && x == y
    decreases |EncodeAll(ts)|, 1
  {
    if ts == [] {
      assert EncodeAll(ts) + x == x && EncodeAll(us) + y == y;
    } else {
      assert EncodeAll(ts) + x == Encode(ts[0]) + (EncodeAll(ts[1..]) + x);
      assert EncodeAll(us) + y == Encode(us[0]) + (EncodeAll(us[1..]) + y);
      EncodeUnique(ts[0], us[0], EncodeAll(ts[1..]) + x, EncodeAll(us[1..]) + y);
      EncodeAllUnique(ts[1..], us[1..], x, y);
    }
  }
}
