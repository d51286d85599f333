/** Queries from their tokens to their truth values: what the operators of the language mean. */
module AqlMeaning {
  import opened Common
  import opened LvmCode
  import opened LvmMachine
  import opened AqlParser

  /** `v = c`, and the five other comparisons. */
  method RunComparison(vm: Lvm, v: VarId, t: Token, c: int) returns (s: ParseStatus, holds: Result<bool>)
    requires vm.Valid() && vm.end == 0 && vm.code.Length >= 9 && IsComparison(t)
    modifies vm`end, vm`ip, vm`error, vm.code
    ensures s == OK
    ensures var a := vm.variables[v];
            holds == Ok(match t
                        case EQUAL => a == c
                        case NOT_EQUAL => a != c
                        case GT => a > c
                        case LT => a < c
                        case GT_EQUAL => a >= c
                        case _ => a <= c)
  {
    ghost var rel := match t
                     case EQUAL => Equal
                     case NOT_EQUAL => NotEqual
                     case GT => Greater
                     case LT => Less
                     case GT_EQUAL => GreaterEqual
                     case _ => LessEqual;
    ghost var w := Where([Comparison(Single(Var(v)), rel, Single(Int(c)))], []);
    s, holds := CompileAndExecute([IDENTIFIER(v), t, INTEGER_VALUE(c)], vm, w);
  }

  /** `v / b = c`, and the three other operations. */
  method RunArithmetic(vm: Lvm, v: VarId, t: Token, b: int, c: int) returns (s: ParseStatus, holds: Result<bool>)
    requires vm.Valid() && vm.end == 0 && vm.code.Length >= 13 && IsArithmetic(t)
    modifies vm`end, vm`ip, vm`error, vm.code
    ensures s == OK
    ensures var a := vm.variables[v];
            holds == match t
                     case PLUS => Ok(a + b == c)
                     case MINUS => Ok(a - b == c)
                     case TIMES => Ok(a * b == c)
                     case _ => if b == 0 then Err(MATH_ERROR) else Ok(Quotient(a, b, c))
  {
    ghost var op := match t
                    case PLUS => Plus
                    case MINUS => Minus
                    case TIMES => Times
                    case _ => Divide;
    ghost var w := Where([Comparison(Binary(Var(v), op, Int(b)), Equal, Single(Int(c)))], []);
    var query := [IDENTIFIER(v), t, INTEGER_VALUE(b), EQUAL, INTEGER_VALUE(c)];
    OperationAt(query, v, t, op, b, c);
    s, holds := CompileAndExecute(query, vm, w);
    if b != 0 {
      DivisionIs(vm.variables[v], b, c);
    }
  }

  lemma OperationAt(query: seq<Token>, v: VarId, t: Token, op: ArithmeticOp, b: int, c: int)
    requires query == [IDENTIFIER(v), t, INTEGER_VALUE(b), EQUAL, INTEGER_VALUE(c)] && t == ArithmeticToken(op)
    ensures WhereAt(query, 0, Where([Comparison(Binary(Var(v), op, Int(b)), Equal, Single(Int(c)))], []), false)
  {
    var e := Binary(Var(v), op, Int(b));
    assert MatchRight(query, 2, e) == Some(3);
    assert MatchExpr(query, 0, e) == Some(3);
    assert MatchExpr(query, 4, Single(Int(c))) == Some(5);
  }

  lemma DivisionIs(a: int, b: int, c: int)
    requires b != 0
    ensures TruncDiv(a, b) == c <==> Quotient(a, b, c)
  {
    TruncDivIs(a, b);
    if Quotient(a, b, c) {
      OneQuotient(a, b, c, TruncDiv(a, b));
    }
  }

  /** `u > 0 op1 v > 0 op2 w > 0`: the connectives associate to the right, whichever they are. */
  method RunConnectives(vm: Lvm, u: VarId, v: VarId, w: VarId, first: Token, second: Token)
      returns (s: ParseStatus, holds: Result<bool>)
    requires vm.Valid() && vm.end == 0 && vm.code.Length >= 25
    requires (first == AND_TOKEN || first == OR_TOKEN) && (second == AND_TOKEN || second == OR_TOKEN)
    modifies vm`end, vm`ip, vm`error, vm.code
    ensures s == OK
    ensures var x, y, z := vm.variables[u] > 0, vm.variables[v] > 0, vm.variables[w] > 0;
            var behind := if second == AND_TOKEN then y && z else y || z;
            holds == Ok(if first == AND_TOKEN then x && behind else x || behind)
  {
    var query := [IDENTIFIER(u), GT, INTEGER_VALUE(0), first, IDENTIFIER(v), GT, INTEGER_VALUE(0), second,
                  IDENTIFIER(w), GT, INTEGER_VALUE(0)];
    ghost var chain := Where([Positive(u), Positive(v), Positive(w)], [first == AND_TOKEN, second == AND_TOKEN]);
    ChainAt(query, chain, u, v, w, first, second);
    s, holds := CompileAndExecute(query, vm, chain);
    ChainMeans(chain, u, v, w, vm.Environment());
  }

  function Positive(v: VarId): Comparison {
    Comparison(Single(Var(v)), Greater, Single(Int(0)))
  }

  lemma ChainAt(query: seq<Token>, chain: Where, u: VarId, v: VarId, w: VarId, first: Token, second: Token)
    requires (first == AND_TOKEN || first == OR_TOKEN) && (second == AND_TOKEN || second == OR_TOKEN)
    requires query == [IDENTIFIER(u), GT, INTEGER_VALUE(0), first, IDENTIFIER(v), GT, INTEGER_VALUE(0), second,
                       IDENTIFIER(w), GT, INTEGER_VALUE(0)]
    requires chain == Where([Positive(u), Positive(v), Positive(w)], [first == AND_TOKEN, second == AND_TOKEN])
    ensures WhereAt(query, 0, chain, false)
  {
    PositiveAt(query, 0, u);
    PositiveAt(query, 4, v);
    PositiveAt(query, 8, w);
    LinksAre(query, chain, first, second);
  }

  lemma LinksAre(query: seq<Token>, chain: Where, first: Token, second: Token)
    requires IsChain(chain) && chain.ands == [first == AND_TOKEN, second == AND_TOKEN]
    requires (first == AND_TOKEN || first == OR_TOKEN) && (second == AND_TOKEN || second == OR_TOKEN)
    requires |query| == 11 && query[3] == first && query[7] == second
    requires MatchComparison(query, 0, chain.comparisons[0]) == Some(3)
    requires MatchComparison(query, 4, chain.comparisons[1]) == Some(7)
    requires MatchComparison(query, 8, chain.comparisons[2]) == Some(11)
    ensures WhereAt(query, 0, chain, false)
  {
    LinkAt(query, 3, chain, 0, 7);
    LinkAt(query, 7, chain, 1, 11);
  }

  lemma LinkAt(query: seq<Token>, q: nat, chain: Where, k: nat, r: nat)
    requires IsChain(chain) && k < |chain.ands| && Peek(query, q) == ConnectiveToken(chain.ands[k])
    requires MatchComparison(query, q + 1, chain.comparisons[k + 1]) == Some(r)
    ensures MatchLinks(query, q, chain, k) == MatchLinks(query, r, chain, k + 1)
  {
  }

  lemma PositiveAt(query: seq<Token>, p: nat, v: VarId)
    requires p + 3 <= |query|
    requires query[p] == IDENTIFIER(v) && query[p + 1] == GT && query[p + 2] == INTEGER_VALUE(0)
    ensures MatchComparison(query, p, Positive(v)) == Some(p + 3)
  {
    assert MatchExpr(query, p, Single(Var(v))) == Some(p + 1);
    assert MatchExpr(query, p + 2, Single(Int(0))) == Some(p + 3);
  }

  lemma ChainMeans(chain: Where, u: VarId, v: VarId, w: VarId, env: Env)
    requires IsChain(chain) && |chain.ands| == 2 && chain.comparisons == [Positive(u), Positive(v), Positive(w)]
    ensures var behind := if chain.ands[1] then env[v] > 0 && env[w] > 0 else env[v] > 0 || env[w] > 0;
            HoldsFrom(chain, 0, env) == Ok(if chain.ands[0] then env[u] > 0 && behind else env[u] > 0 || behind)
  {
    assert ComparisonHolds(Positive(u), env) == Ok(env[u] > 0);
    assert ComparisonHolds(Positive(v), env) == Ok(env[v] > 0);
    assert ComparisonHolds(Positive(w), env) == Ok(env[w] > 0);
    assert HoldsFrom(chain, 2, env) == Ok(env[w] > 0);
  }
}
