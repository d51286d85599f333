/** The part of the AQL parser that compiles a WHERE clause, in place, into
    LogicVM bytecode. Operators are written in front of code that is already
    there, by shifting the buffer. */
module AqlParser {
  import opened Common
  import opened LvmCode
  import opened LvmMachine

  /** Tokens; identifiers have been resolved to LogicVM variables. */
  datatype Token =
    | LEFT_PAREN | RIGHT_PAREN
    | PLUS | MINUS | TIMES | DIVIDE
    | EQUAL | NOT_EQUAL | GT | LT | GT_EQUAL | LT_EQUAL
    | AND_TOKEN | OR_TOKEN
    | IDENTIFIER(id: VarId) | INTEGER_VALUE(l: int) | FLOAT_VALUE | STRING_VALUE
    | OTHER | NONE

  /** What the parsing functions return. ZERO is the value 0 that `parse_where`
      passes on when a later comparison fails; AQL_ERROR does not hold of it. */
  datatype ParseStatus = OK | SYNTAX_ERROR | ZERO

  predicate IsArithmetic(t: Token) {
    t == PLUS || t == MINUS || t == TIMES || t == DIVIDE
  }

  predicate IsComparison(t: Token) {
    t == EQUAL || t == NOT_EQUAL || t == GT || t == LT || t == GT_EQUAL || t == LT_EQUAL
  }

  // ----- the conditions that the grammar is meant for -----

  datatype Atom = Var(id: VarId) | Int(l: int)

  datatype ArithmeticOp = Plus | Minus | Times | Divide

  datatype ComparisonOp = Equal | NotEqual | Greater | Less | GreaterEqual | LessEqual

  /** An operand, `a op b`, or `a op (E)`. */
  datatype Expr =
    | Single(a: Atom)
    | Binary(a: Atom, op: ArithmeticOp, b: Atom)
    | Nested(a: Atom, op: ArithmeticOp, e: Expr)

  datatype Comparison = Comparison(left: Expr, rel: ComparisonOp, right: Expr)

  /** `c0 op0 c1 op1 ... cn`, where `ands[i]` says whether op_i is AND or OR. */
  datatype Where = Where(comparisons: seq<Comparison>, ands: seq<bool>)

  predicate IsChain(w: Where) {
    |w.comparisons| == |w.ands| + 1
  }

  // ----- their meaning, read off the query -----

  function AtomValue(a: Atom, env: Env): int {
    match a
    case Var(id) => env[id]
    case Int(l) => l
  }

  function Combine(a: int, op: ArithmeticOp, b: int): Result<int> {
    match op
    case Plus => Ok(a + b)
    case Minus => Ok(a - b)
    case Times => Ok(a * b)
    case Divide => if b == 0 then Err(MATH_ERROR) else Ok(TruncDiv(a, b))
  }

  function ExprValue(e: Expr, env: Env): Result<int> {
    match e
    case Single(a) => Ok(AtomValue(a, env))
    case Binary(a, op, b) => Combine(AtomValue(a, env), op, AtomValue(b, env))
    case Nested(a, op, e) =>
      var b := ExprValue(e, env);
      if b.Err? then b else Combine(AtomValue(a, env), op, b.value)
  }

  function Compare(a: int, rel: ComparisonOp, b: int): bool {
    match rel
    case Equal => a == b
    case NotEqual => a != b
    case Greater => a > b
    case Less => a < b
    case GreaterEqual => a >= b
    case LessEqual => a <= b
  }

  function ComparisonHolds(c: Comparison, env: Env): Result<bool> {
    var a := ExprValue(c.left, env);
    if a.Err? then Err(a.status) else
    var b := ExprValue(c.right, env);
    if b.Err? then Err(b.status) else Ok(Compare(a.value, c.rel, b.value))
  }

  /** A chain associates to the right, AND and OR alike: the truth value of its
      comparisons from `k` on, or the first error met. */
  function HoldsFrom(w: Where, k: nat, env: Env): Result<bool>
    requires IsChain(w) && k <= |w.ands|
    decreases |w.ands| - k
  {
    var x := ComparisonHolds(w.comparisons[k], env);
    if x.Err? || k == |w.ands| then x else
    var y := HoldsFrom(w, k + 1, env);
    if y.Err? then y else Ok(if w.ands[k] then x.value && y.value else x.value || y.value)
  }

  // ----- the tokens that spell them -----

  function AtomToken(a: Atom): Token {
    match a
    case Var(id) => IDENTIFIER(id)
    case Int(l) => INTEGER_VALUE(l)
  }

  function ArithmeticToken(op: ArithmeticOp): (t: Token)
    ensures IsArithmetic(t)
  {
    match op
    case Plus => PLUS
    case Minus => MINUS
    case Times => TIMES
    case Divide => DIVIDE
  }

  function ComparisonToken(rel: ComparisonOp): (t: Token)
    ensures IsComparison(t)
  {
    match rel
    case Equal => EQUAL
    case NotEqual => NOT_EQUAL
    case Greater => GT
    case Less => LT
    case GreaterEqual => GT_EQUAL
    case LessEqual => LT_EQUAL
  }

  function ConnectiveToken(and: bool): Token {
    if and then AND_TOKEN else OR_TOKEN
  }

  /** A token that can follow a complete comparison. */
  predicate Ends(t: Token) {
    t != RIGHT_PAREN && !IsArithmetic(t)
  }

  /** A token that can follow a complete chain. */
  predicate EndsChain(t: Token) {
    Ends(t) && t != AND_TOKEN && t != OR_TOKEN
  }

  /** The token at `p`; NONE at the end of the input. */
  function Peek(ts: seq<Token>, p: nat): Token {
    if p < |ts| then ts[p] else NONE
  }

  /** The position behind `e` if its tokens stand at `p`. */
  function MatchExpr(ts: seq<Token>, p: nat, e: Expr): Option<nat>
    decreases e, 1
  {
    if Peek(ts, p) != AtomToken(e.a) then None
    else if e.Single? then Some(p + 1)
    else if Peek(ts, p + 1) != ArithmeticToken(e.op) then None
    else MatchRight(ts, p + 2, e)
  }

  /** The operand to the right of an operator: an atom, or `(E)`. */
  function MatchRight(ts: seq<Token>, p: nat, e: Expr): Option<nat>
    decreases e, 0
  {
    match e
    case Single(_) => None
    case Binary(_, _, b) => if Peek(ts, p) == AtomToken(b) then Some(p + 1) else None
    case Nested(_, _, e') =>
      if Peek(ts, p) != LEFT_PAREN then None else
      var q := MatchExpr(ts, p + 1, e');
      if q.Some? && Peek(ts, q.value) == RIGHT_PAREN then Some(q.value + 1) else None
  }

  /** `e` stands at `p`; behind it is either the parenthesis that closes it or a
      token that ends an expression. */
  predicate ExprAt(ts: seq<Token>, p: nat, e: Expr, closing: bool) {
    var q := MatchExpr(ts, p, e);
    q.Some? && if closing then Peek(ts, q.value) == RIGHT_PAREN else Ends(Peek(ts, q.value))
  }

  function MatchLeft(ts: seq<Token>, p: nat, c: Comparison): Option<nat> {
    var q := MatchExpr(ts, p, c.left);
    if q.Some? && Peek(ts, q.value) == ComparisonToken(c.rel) then Some(q.value + 1) else None
  }

  function MatchComparison(ts: seq<Token>, p: nat, c: Comparison): Option<nat> {
    var q := MatchLeft(ts, p, c);
    if q.Some? then MatchExpr(ts, q.value, c.right) else None
  }

  predicate ComparisonAt(ts: seq<Token>, p: nat, c: Comparison) {
    var q := MatchComparison(ts, p, c);
    q.Some? && Ends(Peek(ts, q.value))
  }

  lemma SidesAt(ts: seq<Token>, p: nat, c: Comparison)
    requires ComparisonAt(ts, p, c)
    ensures ExprAt(ts, p, c.left, false) && Peek(ts, MatchExpr(ts, p, c.left).value) == ComparisonToken(c.rel)
    ensures MatchLeft(ts, p, c) == Some(MatchExpr(ts, p, c.left).value + 1)
    ensures ExprAt(ts, MatchLeft(ts, p, c).value, c.right, false)
    ensures MatchComparison(ts, p, c) == MatchExpr(ts, MatchLeft(ts, p, c).value, c.right)
  {
  }

  /** The position behind a chain whose comparison `k` ends at `q`. */
  function MatchLinks(ts: seq<Token>, q: nat, w: Where, k: nat): Option<nat>
    requires IsChain(w) && k <= |w.ands|
    decreases |w.ands| - k
  {
    if k == |w.ands| then Some(q)
    else if Peek(ts, q) != ConnectiveToken(w.ands[k]) then None else
    var r := MatchComparison(ts, q + 1, w.comparisons[k + 1]);
    if r.Some? then MatchLinks(ts, r.value, w, k + 1) else None
  }

  // ----- where parsing gets to, on any tokens -----

  predicate IsOperand(t: Token) {
    t.IDENTIFIER? || t.INTEGER_VALUE? || t == FLOAT_VALUE || t == STRING_VALUE
  }

  /** The position behind an expression at `p`, or None if it does not parse. */
  function ExprEnd(ts: seq<Token>, p: nat): (r: Option<nat>)
    requires p <= |ts|
    ensures r.Some? ==> p < r.value <= |ts|
    decreases |ts| - p, 2
  {
    var q := FirstEnd(ts, p);
    if q.None? then None else OperationsEnd(ts, q.value)
  }

  /** A parenthesised expression or an operand. */
  function FirstEnd(ts: seq<Token>, p: nat): (r: Option<nat>)
    requires p <= |ts|
    ensures r.Some? ==> p < r.value <= |ts|
    decreases |ts| - p, 1
  {
    if Peek(ts, p) == LEFT_PAREN then
      var q := ExprEnd(ts, p + 1);
      if q.Some? && Peek(ts, q.value) == RIGHT_PAREN then Some(q.value + 1) else None
    else if IsOperand(Peek(ts, p)) then Some(p + 1) else None
  }

  /** The operations behind it. */
  function OperationsEnd(ts: seq<Token>, p: nat): (r: Option<nat>)
    requires p <= |ts|
    ensures r.Some? ==> p <= r.value <= |ts|
    decreases |ts| - p, 0
  {
    if Peek(ts, p) == RIGHT_PAREN then Some(p + 1)
    else if !IsArithmetic(Peek(ts, p)) then Some(p)
    else
      var q := RightEnd(ts, p + 1);
      if q.None? then None else OperationsEnd(ts, q.value)
  }

  /** An operand, or an expression behind the token that was none. */
  function RightEnd(ts: seq<Token>, p: nat): (r: Option<nat>)
    requires p <= |ts|
    ensures r.Some? ==> p < r.value <= |ts|
    decreases |ts| - p, 3
  {
    if IsOperand(Peek(ts, p)) then Some(p + 1) else ExprEnd(ts, if p < |ts| then p + 1 else p)
  }

  function LeftEnd(ts: seq<Token>, p: nat): (r: Option<nat>)
    requires p <= |ts|
    ensures r.Some? ==> p < r.value <= |ts|
  {
    var q := ExprEnd(ts, p);
    if q.Some? && IsComparison(Peek(ts, q.value)) then Some(q.value + 1) else None
  }

  function ComparisonEnd(ts: seq<Token>, p: nat): (r: Option<nat>)
    requires p <= |ts|
    ensures r.Some? ==> p < r.value <= |ts|
  {
    var q := LeftEnd(ts, p);
    if q.None? then None else ExprEnd(ts, q.value)
  }

  /** A connective, and behind it a comparison that does not parse. */
  predicate CutOff(ts: seq<Token>, q: nat) {
    && (Peek(ts, q) == AND_TOKEN || Peek(ts, q) == OR_TOKEN)
    && Peek(ts, q + 1) != LEFT_PAREN && ComparisonEnd(ts, q + 1).None?
  }

  /** What a parsing function has returned, and where it has got to if it has succeeded. */
  predicate Reached(s: ParseStatus, pos: nat, end: Option<nat>) {
    if end.None? then s == SYNTAX_ERROR else s == OK && pos == end.value
  }

  /** The rest of the chain stands behind comparison `k`, which ends at `q`; it ends there, or
      goes on with a comparison that does not parse. */
  predicate LinksAt(ts: seq<Token>, q: nat, w: Where, k: nat, cut: bool)
    requires IsChain(w) && k <= |w.ands|
  {
    var r := MatchLinks(ts, q, w, k);
    r.Some? && if cut then CutOff(ts, r.value) else EndsChain(Peek(ts, r.value))
  }

  lemma NextLink(ts: seq<Token>, q: nat, w: Where, k: nat, cut: bool)
    requires IsChain(w) && k < |w.ands| && LinksAt(ts, q, w, k, cut)
    ensures Peek(ts, q) == ConnectiveToken(w.ands[k])
    ensures ComparisonAt(ts, q + 1, w.comparisons[k + 1])
    ensures LinksAt(ts, MatchComparison(ts, q + 1, w.comparisons[k + 1]).value, w, k + 1, cut)
  {
    var r := MatchComparison(ts, q + 1, w.comparisons[k + 1]).value;
    assert MatchLinks(ts, q, w, k) == MatchLinks(ts, r, w, k + 1);
    if k + 1 < |w.ands| {
      assert Peek(ts, r) == ConnectiveToken(w.ands[k + 1]);
    }
  }

  predicate WhereAt(ts: seq<Token>, p: nat, w: Where, cut: bool) {
    IsChain(w) && ComparisonAt(ts, p, w.comparisons[0])
        && LinksAt(ts, MatchComparison(ts, p, w.comparisons[0]).value, w, 0, cut)
  }

  // ----- their trees -----

  function AtomOperand(a: Atom): Operand {
    match a
    case Var(id) => Variable(id)
    case Int(l) => Long(l)
  }

  function ArithmeticOperator(op: ArithmeticOp): Operator {
    match op
    case Plus => ADD
    case Minus => SUB
    case Times => MUL
    case Divide => DIV
  }

  function RelationOperator(rel: ComparisonOp): BinaryOperator {
    match rel
    case Equal => EQ
    case NotEqual => NEQ
    case Greater => GE
    case Less => LE
    case GreaterEqual => GEQ
    case LessEqual => LEQ
  }

  function ExprTree(e: Expr): Tree {
    match e
    case Single(a) => Leaf(AtomOperand(a))
    case Binary(a, op, b) => Arith(ArithmeticOperator(op), Leaf(AtomOperand(a)), Leaf(AtomOperand(b)))
    case Nested(a, op, e) => Arith(ArithmeticOperator(op), Leaf(AtomOperand(a)), ExprTree(e))
  }

  function ComparisonTree(c: Comparison): Tree {
    Relation(RelationOperator(c.rel), ExprTree(c.left), ExprTree(c.right))
  }

  function ConnectiveOperator(and: bool): BinaryOperator {
    if and then AND else OR
  }

  function TreeFrom(w: Where, k: nat): Tree
    requires IsChain(w) && k <= |w.ands|
    decreases |w.ands| - k
  {
    var c := ComparisonTree(w.comparisons[k]);
    if k == |w.ands| then c else Relation(ConnectiveOperator(w.ands[k]), c, TreeFrom(w, k + 1))
  }

  lemma {:induction false} ExprTreeValue(e: Expr, env: Env)
    ensures Value(ExprTree(e), env) == ExprValue(e, env)
  {
    if e.Nested? {
      ExprTreeValue(e.e, env);
    }
  }

  /** The compiled tree means what the query means. */
  lemma {:induction false} TreeTruth(w: Where, k: nat, env: Env)
    requires IsChain(w) && k <= |w.ands|
    ensures Truth(TreeFrom(w, k), env) == HoldsFrom(w, k, env)
    decreases |w.ands| - k
  {
    var c := w.comparisons[k];
    ExprTreeValue(c.left, env);
    ExprTreeValue(c.right, env);
    assert Truth(ComparisonTree(c), env) == ComparisonHolds(c, env);
    if k < |w.ands| {
      TreeTruth(w, k + 1, env);
    }
  }

  // ----- the encoding of a chain, cut where the parser works on it -----

  function OperatorCells(op: Operator): seq<Cell> {
    [TypeCell(CMP_OP), OpCell(op)]
  }

  /** The code in front of comparison `k`: every earlier comparison with its
      connective before it. */
  function FrontCode(w: Where, k: nat): seq<Cell>
    requires IsChain(w) && k <= |w.ands|
  {
    if k == 0 then []
    else FrontCode(w, k - 1)
         + (OperatorCells(ConnectiveOperator(w.ands[k - 1])) + Encode(ComparisonTree(w.comparisons[k - 1])))
  }

  /** What has been compiled is, at every comparison, the start of the encoding
      of the whole right-nested tree. */
  lemma {:induction false} EncodeChain(w: Where, k: nat)
    requires IsChain(w) && k <= |w.ands|
    ensures Encode(TreeFrom(w, 0)) == FrontCode(w, k) + Encode(TreeFrom(w, k))
  {
    if k > 0 {
      EncodeChain(w, k - 1);
      var op, c, rest := OperatorCells(ConnectiveOperator(w.ands[k - 1])),
          Encode(ComparisonTree(w.comparisons[k - 1])), Encode(TreeFrom(w, k));
      assert Encode(TreeFrom(w, k - 1)) == op + c + rest;
      Flatten(FrontCode(w, k - 1), op, c, rest);
    }
  }

  lemma Flatten(a: seq<Cell>, b: seq<Cell>, c: seq<Cell>, d: seq<Cell>)
    ensures a + (b + c + d) == a + (b + c) + d
  {
  }

  // ----- the parser -----

  /** The switch of `parse_expr` on an operator token. */
  function TokenOperator(t: Token): Operator
    requires IsArithmetic(t)
  {
    match t
    case PLUS => ADD
    case MINUS => SUB
    case TIMES => MUL
    case DIVIDE => DIV
  }

  /** A round of the loop of `parse_where`: the code in front of the last comparison, the code of
      that comparison, the connective and the comparison that follow, and where the latter ends. */
  datatype Round = Round(front: seq<Cell>, last: seq<Cell>, and: bool, next: Option<Comparison>, behind: nat, cut: bool)

  /** The tokens that such a round finds. */
  predicate TokensAt(ts: seq<Token>, q: nat, r: Round) {
    match r.next
    case Some(c) => Peek(ts, q) == ConnectiveToken(r.and) && ComparisonAt(ts, q + 1, c)
         && MatchComparison(ts, q + 1, c) == Some(r.behind)
    case None => if r.cut then CutOff(ts, q) else EndsChain(Peek(ts, q))
  }

  /** The round behind comparison `k` of a chain, which ends at `q`. */
  function RoundOf(ts: seq<Token>, q: nat, w: Where, k: nat, cut: bool): Round
    requires IsChain(w) && k <= |w.ands|
  {
    var front, last := FrontCode(w, k), Encode(ComparisonTree(w.comparisons[k]));
    if k == |w.ands| then Round(front, last, false, None, 0, cut) else
    var behind := MatchComparison(ts, q + 1, w.comparisons[k + 1]);
    Round(front, last, w.ands[k], Some(w.comparisons[k + 1]), if behind.Some? then behind.value else 0, cut)
  }

  lemma TokensOf(ts: seq<Token>, q: nat, w: Where, k: nat, cut: bool)
    requires IsChain(w) && k <= |w.ands| && LinksAt(ts, q, w, k, cut)
    ensures TokensAt(ts, q, RoundOf(ts, q, w, k, cut))
    ensures k < |w.ands| ==> LinksAt(ts, RoundOf(ts, q, w, k, cut).behind, w, k + 1, cut)
  {
    if k < |w.ands| {
      NextLink(ts, q, w, k, cut);
    }
  }

  class Parser {
    const tokens: seq<Token>
    const vm: Lvm
    var pos: nat
    var prev: nat
    var token: Token

    ghost predicate Valid()
      reads this
    {
      pos <= |tokens| && prev <= |tokens|
    }

    /** How much of the code buffer is left when every remaining token writes one
        node. Nothing here is checked at run time. */
    ghost function Slack(): int
      reads this, vm
    {
      vm.code.Length - 1 - vm.end - 2 * (|tokens| - pos)
    }

    constructor (tokens: seq<Token>, vm: Lvm)
      ensures Valid() && pos == 0 && this.tokens == tokens && this.vm == vm
    {
      this.tokens, this.vm := tokens, vm;
      pos, prev, token := 0, 0, NONE;
    }

    /** `lexer_next` */
    method Next()
      requires Valid()
      modifies this
      ensures Valid() && prev == old(pos) && token == Peek(tokens, old(pos))
      ensures pos == if old(pos) < |tokens| then old(pos) + 1 else old(pos)
    {
      prev := pos;
      token := NONE;
      if pos < |tokens| {
        token := tokens[pos];
        pos := pos + 1;
      }
    }

    /** `lexer_rewind` */
    method Rewind()
      requires Valid()
      modifies this
      ensures Valid() && pos == prev == old(prev) && token == old(token)
    {
      pos := prev;
    }

    /** `parse_operand` */
    method ParseOperand() returns (s: ParseStatus)
      requires Valid() && Slack() >= 0
      modifies this, vm`end, vm.code
      ensures Valid() && Slack() >= old(Slack()) && vm.error == old(vm.error)
      ensures pos == if old(pos) < |tokens| then old(pos) + 1 else old(pos)
      ensures match Peek(tokens, old(pos))
              case IDENTIFIER(id) => s == OK && vm.Appended(Encode(Leaf(Variable(id))))
              case INTEGER_VALUE(l) => s == OK && vm.Appended(Encode(Leaf(Long(l))))
              case STRING_VALUE => s == OK && vm.Appended([])
              case FLOAT_VALUE => s == OK && vm.Appended([])
              case _ => s == SYNTAX_ERROR && vm.Appended([])
    {
      Next();
      match token {
        case IDENTIFIER(id) => vm.SetOperand(Variable(id));
        case INTEGER_VALUE(l) => vm.SetOperand(Long(l));
        case STRING_VALUE =>
        case FLOAT_VALUE =>
        case _ => return SYNTAX_ERROR;
      }
      return OK;
    }

    /** Shift the code from `at` on and put an operator in front of it. */
    method InsertOperator(at: nat, t: NodeType, op: Operator, ghost x: seq<Cell>) returns (newEnd: nat)
      requires vm.end + 2 < vm.code.Length
      requires x != [] ==> vm.At(at, x) && vm.end == at + |x|
      modifies vm`end, vm`error, vm.code
      ensures vm.end <= old(vm.end) + 2
      ensures x != [] ==>
                && vm.error == old(vm.error) && newEnd == vm.end == old(vm.end) + 2
                && vm.Kept(at) && vm.At(at, [TypeCell(t), OpCell(op)] + x)
    {
      newEnd := vm.ShiftForOperator(at);
      if x != [] {
        forall k | 0 <= k < |x| ensures vm.code[at + 2 + k] == x[k] {
          assert vm.code[at + k + 2] == old(vm.code[at + k]);
        }
      }
      vm.SetOperator(t, op);
      if x != [] {
        vm.AtJoin(at, [TypeCell(t), OpCell(op)], x);
      }
      var _ := vm.SetEnd(newEnd);
    }

    ghost function RightTree(e: Expr): Tree
      requires !e.Single?
    {
      if e.Binary? then Leaf(AtomOperand(e.b)) else ExprTree(e.e)
    }

    // ----- expressions -----

    /** `PARSE(operand) || PARSE(expr)`. An opening parenthesis is taken by the
        failing first alternative. */
    method ParseRight(ghost e: Option<Expr>) returns (s: ParseStatus)
      requires Valid() && Slack() >= 0
      requires e.Some? ==> !e.value.Single? && MatchRight(tokens, pos, e.value).Some?
      modifies this, vm`end, vm`error, vm.code
      ensures Valid() && Slack() >= old(Slack()) && pos >= old(pos) && s != ZERO
      ensures e.Some? ==>
                && s == OK && vm.error == old(vm.error) && Some(pos) == MatchRight(tokens, old(pos), e.value)
                && vm.Appended(Encode(RightTree(e.value)))
      ensures Reached(s, pos, RightEnd(tokens, old(pos)))
      decreases |tokens| - pos, 3
    {
      ghost var start := pos;
      s := ParseOperand();
      if s == SYNTAX_ERROR {
        s := ParseExpr(if e.Some? && e.value.Nested? then Some(e.value.e) else None, true);
      }
    }

    /** The start of `parse_expr`: a parenthesised expression or an operand. */
    method ParseFirst(ghost a: Option<Atom>) returns (s: ParseStatus)
      requires Valid() && Slack() >= 0
      requires a.Some? ==> Peek(tokens, pos) == AtomToken(a.value)
      modifies this, vm`end, vm`error, vm.code
      ensures Valid() && Slack() >= old(Slack()) && pos >= old(pos) && s != ZERO
      ensures a.Some? ==>
                && s == OK && vm.error == old(vm.error) && pos == old(pos) + 1
                && vm.Appended(Encode(Leaf(AtomOperand(a.value))))
      ensures Reached(s, pos, FirstEnd(tokens, old(pos)))
      decreases |tokens| - pos, 0
    {
      Next();
      if token == LEFT_PAREN {
        s := ParseExpr(None, false);
        if s == SYNTAX_ERROR {
          return;
        }
        Next();
        return if token != RIGHT_PAREN then SYNTAX_ERROR else OK;
      }
      Rewind();
      s := ParseOperand();
    }

    /** The state of `parse_expr` between the first operand, which begins at `at`,
        and the operator. */
    ghost predicate HalfParsed(e: Expr, at: nat)
      reads this, vm, vm.code
    {
      && !e.Single? && Peek(tokens, pos) == ArithmeticToken(e.op) && MatchRight(tokens, pos + 1, e).Some?
      && vm.At(at, Encode(Leaf(AtomOperand(e.a)))) && vm.end == at + 2
    }

    /** One round of the loop of `parse_expr`. */
    method ParseOperation(savedEnd: nat, ghost e: Option<Expr>) returns (s: ParseStatus, again: bool, newEnd: nat)
      requires Valid() && Slack() >= 0
      requires e.Some? ==> HalfParsed(e.value, savedEnd)
      modifies this, vm`end, vm`error, vm.code
      ensures Valid() && Slack() >= old(Slack()) && pos >= old(pos) && s != ZERO
      ensures again ==> pos > old(pos)
      ensures Peek(tokens, old(pos)) == RIGHT_PAREN ==>
                s == OK && !again && pos == old(pos) + 1 && vm.error == old(vm.error) && vm.Appended([])
      ensures Ends(Peek(tokens, old(pos))) ==>
                s == OK && !again && pos == old(pos) && vm.error == old(vm.error) && vm.Appended([])
      ensures e.Some? ==>
                && s == OK && again && vm.error == old(vm.error)
                   && Some(pos) == MatchRight(tokens, old(pos) + 1, e.value)
                && vm.Kept(savedEnd) && vm.At(savedEnd, Encode(ExprTree(e.value)))
                && vm.end == savedEnd + |Encode(ExprTree(e.value))|
      ensures IsArithmetic(Peek(tokens, old(pos))) ==>
                Reached(s, pos, RightEnd(tokens, old(pos) + 1)) && (s == OK ==> again)
      ensures !IsArithmetic(Peek(tokens, old(pos))) ==>
                s == OK && !again && pos == old(pos) + if Peek(tokens, old(pos)) == RIGHT_PAREN then 1 else 0
      decreases |tokens| - pos, 0
    {
      Next();
      newEnd := savedEnd;
      if token == RIGHT_PAREN {
        return OK, false, newEnd;
      }
      if !IsArithmetic(token) {
        newEnd := vm.end;
        Rewind();
        return OK, false, newEnd;
      }
      var op := TokenOperator(token);
      s := ParseRight(e);
      if s == SYNTAX_ERROR {
        return SYNTAX_ERROR, true, newEnd;
      }
      ghost var x := [];
      if e.Some? {
        x := Operands(e.value);
        vm.AtJoin(savedEnd, Encode(Leaf(AtomOperand(e.value.a))), Encode(RightTree(e.value)));
        ExprCells(e.value);
      }
      newEnd := InsertOperator(savedEnd, ARITH_OP, op, x);
      return OK, true, newEnd;
    }

    ghost function Operands(e: Expr): (x: seq<Cell>)
      requires !e.Single?
      ensures x != []
    {
      Encode(Leaf(AtomOperand(e.a))) + Encode(RightTree(e))
    }

    lemma ExprCells(e: Expr)
      requires !e.Single?
      ensures Encode(ExprTree(e)) == [TypeCell(ARITH_OP), OpCell(ArithmeticOperator(e.op))] + Operands(e)
    {
      assert ExprTree(e) == Arith(ArithmeticOperator(e.op), Leaf(AtomOperand(e.a)), RightTree(e));
    }

    /** `parse_expr` */
    method ParseExpr(ghost e: Option<Expr>, ghost closing: bool) returns (s: ParseStatus)
      requires Valid() && Slack() >= 0
      requires e.Some? ==> ExprAt(tokens, pos, e.value, closing)
      modifies this, vm`end, vm`error, vm.code
      ensures Valid() && Slack() >= old(Slack()) && pos >= old(pos) && s != ZERO
      ensures e.Some? ==>
                && s == OK && vm.error == old(vm.error)
                && pos == MatchExpr(tokens, old(pos), e.value).value + (if closing then 1 else 0)
                && vm.Appended(Encode(ExprTree(e.value)))
      ensures Reached(s, pos, ExprEnd(tokens, old(pos)))
      decreases |tokens| - pos, 2
    {
      ghost var finish := if e.Some? then MatchExpr(tokens, pos, e.value).value else 0;
      var savedEnd := vm.end;
      s := ParseFirst(if e.Some? then Some(e.value.a) else None);
      if s == SYNTAX_ERROR {
        return;
      }
      s := ParseOperations(savedEnd, e, finish, closing);
    }

    /** The first operand of `e` has been parsed, and the rest of it ends at `finish`. */
    ghost predicate Begun(e: Expr, at: nat, finish: nat)
      reads this, vm, vm.code
    {
      if e.Single? then vm.At(at, Encode(ExprTree(e))) && vm.end == at + |Encode(ExprTree(e))| && pos == finish
      else HalfParsed(e, at) && MatchRight(tokens, pos + 1, e) == Some(finish)
    }

    /** The loop of `parse_expr`. */
    method ParseOperations(start: nat, ghost e: Option<Expr>, ghost finish: nat, ghost closing: bool)
        returns (s: ParseStatus)
      requires Valid() && Slack() >= 0
      requires e.Some? ==> Begun(e.value, start, finish)
                           && if closing then Peek(tokens, finish) == RIGHT_PAREN else Ends(Peek(tokens, finish))
      modifies this, vm`end, vm`error, vm.code
      ensures Valid() && Slack() >= old(Slack()) && pos >= old(pos) && s != ZERO
      ensures e.Some? ==>
                && s == OK && vm.error == old(vm.error) && pos == finish + (if closing then 1 else 0) && vm.Kept(start)
                && vm.At(start, Encode(ExprTree(e.value))) && vm.end == start + |Encode(ExprTree(e.value))|
      ensures Reached(s, pos, OperationsEnd(tokens, old(pos)))
      decreases |tokens| - pos, 1
    {
      ghost var code: seq<Cell> := if e.Some? then Encode(ExprTree(e.value)) else [];
      ghost var done := e.None? || e.value.Single?;
      var savedEnd := start;
      var again := true;
      s := OK;
      while again
        invariant Valid() && Slack() >= old(Slack()) && pos >= old(pos) && s == OK
        invariant e.Some? ==> vm.error == old(vm.error) && vm.Kept(start)
        invariant !done ==> e.Some? && !e.value.Single? && again && savedEnd == start
        invariant !done ==> pos == old(pos) && Begun(e.value, start, finish)
        invariant e.Some? && done ==> vm.At(start, code) && vm.end == start + |code|
        invariant e.Some? && done ==> pos == finish + (if closing && !again then 1 else 0)
        invariant OperationsEnd(tokens, old(pos)) == if again then OperationsEnd(tokens, pos) else Some(pos)
        decreases again, |tokens| - pos
      {
        s, again, savedEnd := ParseOperation(savedEnd, if done then None else e);
        if s == SYNTAX_ERROR {
          return;
        }
        done := true;
      }
    }

    // ----- comparisons and chains -----

    /** `parse_cmp` and the switch that turns its token into an operator. */
    method ParseCmp() returns (op: Option<Operator>)
      requires Valid()
      modifies this
      ensures Valid() && pos == if old(pos) < |tokens| then old(pos) + 1 else old(pos)
      ensures op.Some? <==> IsComparison(Peek(tokens, old(pos)))
      ensures forall rel: ComparisonOp :: Peek(tokens, old(pos)) == ComparisonToken(rel) ==>
              op == Some(RelationOperator(rel))
    {
      Next();
      match token {
        case EQUAL => op := Some(EQ);
        case NOT_EQUAL => op := Some(NEQ);
        case GT => op := Some(GE);
        case LT => op := Some(LE);
        case GT_EQUAL => op := Some(GEQ);
        case LT_EQUAL => op := Some(LEQ);
        case _ => op := None;
      }
    }

    /** `lvm_set_relation` into the cells reserved at the end, then `lvm_set_end`. */
    method FillReserved(op: Operator, resume: nat, ghost x: seq<Cell>)
      requires vm.end + 2 < vm.code.Length && resume < vm.code.Length
      requires x != [] ==> vm.At(vm.end + 2, x)
      modifies vm`end, vm`error, vm.code
      ensures vm.end == resume && vm.error == old(vm.error)
      ensures x != [] ==> vm.Kept(old(vm.end)) && vm.At(old(vm.end), OperatorCells(op) + x)
    {
      vm.SetOperator(CMP_OP, op);
      if x != [] {
        vm.AtJoin(old(vm.end), OperatorCells(op), x);
      }
      var _ := vm.SetEnd(resume);
    }

    /** The first half of `parse_comparison`: room for the relation is reserved, the
        left side is compiled behind it, and then the relation is written. */
    method ParseLeft(ghost c: Option<Comparison>, ghost at: nat) returns (s: ParseStatus)
      requires Valid() && Slack() >= 2
      requires c.Some? ==> ExprAt(tokens, pos, c.value.left, false) && MatchExpr(tokens, pos, c.value.left) == Some(at)
      requires c.Some? ==> Peek(tokens, at) == ComparisonToken(c.value.rel)
      modifies this, vm`end, vm`error, vm.code
      ensures Valid() && pos >= old(pos) && s != ZERO
      ensures Slack() >= old(Slack()) - (if s == OK then 0 else 2)
      ensures c.Some? ==>
                s == OK && vm.error == old(vm.error) && pos == at + 1 && vm.Appended(LeftCells(c.value))
      ensures Reached(s, pos, LeftEnd(tokens, old(pos)))
    {
      ghost var left, x := None, [];
      if c.Some? {
        left, x := Some(c.value.left), Encode(ExprTree(c.value.left));
      }
      var savedEnd;
      s, savedEnd := ParseReserved(left);
      if s == SYNTAX_ERROR {
        return;
      }
      savedEnd := vm.SetEnd(savedEnd);
      var rel := ParseCmp();
      if rel.None? {
        return SYNTAX_ERROR;
      }
      FillReserved(rel.value, savedEnd, x);
    }

    /** Room for the relation, and the left side behind it. */
    method ParseReserved(ghost e: Option<Expr>) returns (s: ParseStatus, reserved: nat)
      requires Valid() && Slack() >= 2
      requires e.Some? ==> ExprAt(tokens, pos, e.value, false)
      modifies this, vm`end, vm`error, vm.code
      ensures Valid() && pos >= old(pos) && s != ZERO && Slack() >= old(Slack()) - 2 && reserved == old(vm.end)
      ensures e.Some? ==>
                && s == OK && vm.error == old(vm.error) && Some(pos) == MatchExpr(tokens, old(pos), e.value)
                && var x := Encode(ExprTree(e.value));
                   vm.At(reserved + 2, x) && vm.end == reserved + 2 + |x| && vm.Kept(reserved)
      ensures Reached(s, pos, ExprEnd(tokens, old(pos)))
    {
      reserved := vm.JumpToOperand();
      s := ParseExpr(e, false);
    }

    /** `parse_comparison` */
    method ParseComparison(ghost c: Option<Comparison>) returns (s: ParseStatus)
      requires Valid() && Slack() >= 2
      requires c.Some? ==> ComparisonAt(tokens, pos, c.value)
      modifies this, vm`end, vm`error, vm.code
      ensures Valid() && pos >= old(pos) && s != ZERO
      ensures Slack() >= old(Slack()) - (if s == OK then 0 else 2)
      ensures c.Some? ==>
                && s == OK && vm.error == old(vm.error) && Some(pos) == MatchComparison(tokens, old(pos), c.value)
                && vm.Appended(Encode(ComparisonTree(c.value)))
      ensures Reached(s, pos, ComparisonEnd(tokens, old(pos)))
    {
      ghost var left, right, right?, at := [], [], None, 0;
      if c.Some? {
        SidesAt(tokens, pos, c.value);
        at := MatchExpr(tokens, pos, c.value.left).value;
        left, right := LeftCells(c.value), Encode(ExprTree(c.value.right));
        right? := Some(c.value.right);
      }
      s := ParseLeft(c, at);
      if s == SYNTAX_ERROR {
        return;
      }
      s := ParseExpr(right?, false);
      if c.Some? {
        vm.AtJoin(old(vm.end), left, right);
      }
    }

    ghost function LeftCells(c: Comparison): seq<Cell> {
      OperatorCells(RelationOperator(c.rel)) + Encode(ExprTree(c.left))
    }

    /** What follows a connective: a parenthesised chain or a comparison. */
    method ParseJoined(ghost c: Option<Comparison>) returns (s: ParseStatus)
      requires Valid() && Slack() >= 2
      requires c.Some? ==> ComparisonAt(tokens, pos, c.value)
      modifies this, vm`end, vm`error, vm.code
      ensures Valid() && Slack() >= old(Slack()) - (if s == OK then 0 else 2) && pos >= old(pos)
      ensures c.Some? ==>
                && s == OK && vm.error == old(vm.error) && Some(pos) == MatchComparison(tokens, old(pos), c.value)
                && vm.Appended(Encode(ComparisonTree(c.value)))
      ensures Peek(tokens, old(pos)) != LEFT_PAREN && ComparisonEnd(tokens, old(pos)).None? ==> s == ZERO
      decreases |tokens| - pos, 0
    {
      Next();
      if token == LEFT_PAREN {
        s := ParseWhere(None, false);
        if s == SYNTAX_ERROR {
          return;
        }
        Next();
        return if token != RIGHT_PAREN then SYNTAX_ERROR else OK;
      }
      Rewind();
      s := ParseComparison(c);
      return if s == SYNTAX_ERROR then ZERO else OK;
    }

    /** The first `k + 1` comparisons of `w` have been compiled; the last of them
        begins at `savedEnd`. */
    ghost predicate Chained(w: Where, k: nat, savedEnd: nat)
      requires IsChain(w) && k <= |w.ands|
      reads vm, vm.code
    {
      var last := Encode(ComparisonTree(w.comparisons[k]));
      && savedEnd == |FrontCode(w, k)| && vm.At(0, FrontCode(w, k))
      && vm.At(savedEnd, last) && vm.end == savedEnd + |last|
    }

    /** Put a connective in front of the last comparison. */
    method Connect(savedEnd: nat, connective: Operator, ghost front: seq<Cell>, ghost last: seq<Cell>)
        returns (newEnd: nat)
      requires vm.end + 2 < vm.code.Length
      requires last != [] ==>
                 savedEnd == |front| && vm.At(0, front) && vm.At(savedEnd, last) && vm.end == savedEnd + |last|
      modifies vm`end, vm`error, vm.code
      ensures vm.end <= old(vm.end) + 2
      ensures last != [] ==> vm.error == old(vm.error) && newEnd == vm.end == |front| + 2 + |last|
                             && vm.At(0, front + (OperatorCells(connective) + last))
    {
      newEnd := InsertOperator(savedEnd, CMP_OP, connective, last);
      if last != [] {
        vm.AtJoin(0, front, OperatorCells(connective) + last);
      }
    }

    lemma NowChained(w: Where, k: nat, savedEnd: nat)
      requires IsChain(w) && k < |w.ands|
      requires var front := FrontCode(w, k)
                            + (OperatorCells(ConnectiveOperator(w.ands[k])) + Encode(ComparisonTree(w.comparisons[k])));
               vm.At(0, front) && savedEnd == |front|
      requires var code := Encode(ComparisonTree(w.comparisons[k + 1]));
               vm.At(savedEnd, code) && vm.end == savedEnd + |code|
      ensures Chained(w, k + 1, savedEnd)
    {
    }

    /** The code that a round of the loop of `parse_where` finds in the buffer. */
    ghost predicate CodeAt(r: Round, savedEnd: nat)
      reads vm, vm.code
    {
      r.last != [] && savedEnd == |r.front| && vm.At(0, r.front) && vm.At(savedEnd, r.last)
          && vm.end == savedEnd + |r.last|
    }

    /** One round of the loop of `parse_where`: a connective and what follows it. */
    method ParseLink(savedEnd: nat, ghost r: Option<Round>) returns (s: ParseStatus, again: bool, newEnd: nat)
      requires Valid() && Slack() >= 2
      requires r.Some? ==> CodeAt(r.value, savedEnd) && TokensAt(tokens, pos, r.value)
      modifies this, vm`end, vm`error, vm.code
      ensures Valid() && Slack() >= old(Slack()) - (if s == OK then 0 else 2) && pos >= old(pos)
      ensures again ==> pos > old(pos)
      ensures r.Some? && r.value.next.Some? ==>
                && s == OK && again && vm.error == old(vm.error) && pos == r.value.behind
                && newEnd == |r.value.front| + 2 + |r.value.last|
                && vm.At(0, r.value.front + (OperatorCells(ConnectiveOperator(r.value.and)) + r.value.last))
                && var code := Encode(ComparisonTree(r.value.next.value));
                   vm.At(newEnd, code) && vm.end == newEnd + |code|
      ensures r.Some? && r.value.next.None? ==>
                if r.value.cut then s == ZERO
                else s == OK && !again && newEnd == savedEnd && pos == old(pos) && vm.error == old(vm.error)
      ensures r.Some? && r.value.next.None? && !r.value.cut ==> vm.Appended([])
      decreases |tokens| - pos, 0
    {
      Next();
      newEnd := savedEnd;
      if token != AND_TOKEN && token != OR_TOKEN {
        Rewind();
        return OK, false, newEnd;
      }
      ghost var front, last := [], [];
      ghost var next := None;
      if r.Some? {
        front, last, next := r.value.front, r.value.last, r.value.next;
      }
      newEnd := Connect(savedEnd, if token == AND_TOKEN then AND else OR, front, last);
      s := ParseJoined(next);
      again := true;
    }

    lemma CodeOf(w: Where, k: nat, cut: bool, savedEnd: nat)
      requires IsChain(w) && k <= |w.ands| && Chained(w, k, savedEnd)
      ensures CodeAt(RoundOf(tokens, pos, w, k, cut), savedEnd)
    {
    }

    /** The same round, as a step along a chain. */
    method ParseNext(savedEnd: nat, ghost w: Option<Where>, ghost cut: bool, ghost k: nat)
        returns (s: ParseStatus, again: bool, newEnd: nat)
      requires Valid() && Slack() >= 2
      requires w.Some? ==> IsChain(w.value) && k <= |w.value.ands|
      requires w.Some? ==> LinksAt(tokens, pos, w.value, k, cut) && Chained(w.value, k, savedEnd)
      modifies this, vm`end, vm`error, vm.code
      ensures Valid() && Slack() >= old(Slack()) - (if s == OK then 0 else 2) && pos >= old(pos)
      ensures again ==> pos > old(pos)
      ensures w.Some? ==>
                if k == |w.value.ands| && cut then s == ZERO
                else s == OK && vm.error == old(vm.error) && again == (k < |w.value.ands|)
      ensures w.Some? && s == OK ==> var next := if again then k + 1 else k;
              LinksAt(tokens, pos, w.value, next, cut) && Chained(w.value, next, newEnd)
      decreases |tokens| - pos, 1
    {
      ghost var r := None;
      if w.Some? {
        r := Some(RoundOf(tokens, pos, w.value, k, cut));
        CodeOf(w.value, k, cut, savedEnd);
        TokensOf(tokens, pos, w.value, k, cut);
      }
      s, again, newEnd := ParseLink(savedEnd, r);
      if w.Some? && k < |w.value.ands| {
        NowChained(w.value, k, newEnd);
      }
    }

    /** The loop of `parse_where`, entered behind the first comparison of a chain. */
    method ParseLinks(ghost w: Option<Where>, ghost cut: bool) returns (s: ParseStatus)
      requires Valid() && Slack() >= 2
      requires w.Some? ==> IsChain(w.value) && LinksAt(tokens, pos, w.value, 0, cut) && Chained(w.value, 0, 0)
      modifies this, vm`end, vm`error, vm.code
      ensures Valid() && Slack() >= old(Slack()) - (if s == OK then 0 else 2) && pos >= old(pos)
      ensures w.Some? && cut ==> s == ZERO
      ensures w.Some? && !cut ==> s == OK && vm.error == old(vm.error)
      ensures w.Some? && !cut ==> LinksAt(tokens, pos, w.value, |w.value.ands|, false)
      ensures w.Some? && !cut ==> Chained(w.value, |w.value.ands|, |FrontCode(w.value, |w.value.ands|)|)
      decreases |tokens| - pos, 2
    {
      ghost var slack, first, k := Slack(), pos, 0;
      var savedEnd := 0;
      s := OK;
      var again := true;
      while again
        invariant Valid() && Slack() >= slack && pos >= first && s == OK
        invariant w.Some? ==> k <= |w.value.ands| && vm.error == old(vm.error) && LinksAt(tokens, pos, w.value, k, cut)
        invariant w.Some? ==> Chained(w.value, k, savedEnd)
        invariant w.Some? && !again ==> k == |w.value.ands| && !cut
        decreases again, |tokens| - pos
      {
        s, again, savedEnd := ParseNext(savedEnd, w, cut, k);
        if s != OK {
          return;
        }
        k := if again then k + 1 else k;
      }
    }

    lemma ChainComplete(w: Where)
      requires IsChain(w) && Chained(w, |w.ands|, |FrontCode(w, |w.ands|)|)
      ensures vm.At(0, Encode(TreeFrom(w, 0))) && vm.end == |Encode(TreeFrom(w, 0))|
    {
      EncodeChain(w, |w.ands|);
      vm.AtJoin(0, FrontCode(w, |w.ands|), Encode(ComparisonTree(w.comparisons[|w.ands|])));
    }

    /** `parse_where`. When a comparison after the first one does not parse, it returns 0, which is
        not an error. */
    method ParseWhere(ghost w: Option<Where>, ghost cut: bool) returns (s: ParseStatus)
      requires Valid() && Slack() >= 2
      requires w.Some? ==> WhereAt(tokens, pos, w.value, cut) && vm.end == 0
      modifies this, vm`end, vm`error, vm.code
      ensures Valid() && Slack() >= old(Slack()) - (if s == OK then 0 else 2) && pos >= old(pos)
      ensures w.Some? && cut ==> s == ZERO
      ensures w.Some? && !cut ==>
                && s == OK && vm.error == old(vm.error) && LinksAt(tokens, pos, w.value, |w.value.ands|, false)
                && vm.At(0, Encode(TreeFrom(w.value, 0))) && vm.end == |Encode(TreeFrom(w.value, 0))|
      decreases |tokens| - pos, 3
    {
      s := ParseComparison(if w.Some? then Some(w.value.comparisons[0]) else None);
      if s == SYNTAX_ERROR {
        return;
      }
      s := ParseLinks(w, cut);
      if w.Some? && !cut {
        ChainComplete(w.value);
      }
    }
  }

  /** Compile a query's condition and evaluate it on the current variables. */
  method CompileAndExecute(query: seq<Token>, vm: Lvm, ghost w: Where) returns (s: ParseStatus, holds: Result<bool>)
    requires vm.Valid() && vm.end == 0 && vm.code.Length >= 2 * |query| + 3
    requires WhereAt(query, 0, w, false)
    modifies vm`end, vm`error, vm`ip, vm.code
    ensures s == OK && holds == HoldsFrom(w, 0, vm.Environment())
  {
    var parser := new Parser(query, vm);
    s := parser.ParseWhere(Some(w), false);
    holds := vm.Execute(TreeFrom(w, 0));
    TreeTruth(w, 0, vm.Environment());
  }

  /** Such queries: `a = 1 AND`, and `a = 1 AND b`. */
  function CutOffQuery(a: VarId, b: Option<VarId>): seq<Token> {
    [IDENTIFIER(a), EQUAL, INTEGER_VALUE(1), AND_TOKEN] + if b.Some? then [IDENTIFIER(b.value)] else []
  }

  lemma IsCutOff(a: VarId, b: Option<VarId>)
    ensures WhereAt(CutOffQuery(a, b), 0, Where([Comparison(Single(Var(a)), Equal, Single(Int(1)))], []), true)
  {
    var ts := CutOffQuery(a, b);
    assert ts[0] == IDENTIFIER(a) && ts[1] == EQUAL && ts[2] == INTEGER_VALUE(1) && ts[3] == AND_TOKEN;
    assert b.Some? ==> ts[4] == IDENTIFIER(b.value);
    assert ComparisonEnd(ts, 4).None?;
  }

  method CompileCutOff(vm: Lvm, a: VarId, b: Option<VarId>) returns (s: ParseStatus)
    requires vm.Valid() && vm.end == 0 && vm.code.Length >= 13
    modifies vm`end, vm`error, vm.code
    ensures s == ZERO
  {
    var parser := new Parser(CutOffQuery(a, b), vm);
    IsCutOff(a, b);
    s := parser.ParseWhere(Some(Where([Comparison(Single(Var(a)), Equal, Single(Int(1)))], [])), true);
  }
}
