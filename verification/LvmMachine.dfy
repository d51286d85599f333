/** The LogicVM instance: a code buffer, the write cursor `end`, the read cursor
    `ip`, and the table of variable values. */
module LvmMachine {
  import opened LvmCode

  class Lvm {
    const code: array<Cell>
    const variables: array<int>
    var end: nat
    var ip: nat
    var error: bool

    ghost predicate Valid() {
      variables.Length == MAX_VARIABLES
    }

    ghost predicate At(pos: nat, s: seq<Cell>)
      reads code
    {
      pos + |s| <= code.Length && forall k :: 0 <= k < |s| ==> code[pos + k] == s[k]
    }

    function Environment(): Env
      requires Valid()
      reads variables
    {
      variables[..]
    }

    lemma AtSplit(pos: nat, a: seq<Cell>, b: seq<Cell>)
      requires At(pos, a + b)
      ensures At(pos, a) && At(pos + |a|, b)
    {
      forall k | 0 <= k < |a| ensures code[pos + k] == a[k] {
        assert (a + b)[k] == a[k];
      }
      forall k | 0 <= k < |b| ensures code[pos + |a| + k] == b[k] {
        assert (a + b)[|a| + k] == b[k];
      }
    }

    lemma AtJoin(pos: nat, a: seq<Cell>, b: seq<Cell>)
      requires At(pos, a) && At(pos + |a|, b)
      ensures At(pos, a + b)
    {
      forall k | 0 <= k < |a + b| ensures code[pos + k] == (a + b)[k] {
        if k >= |a| {
          assert code[pos + |a| + (k - |a|)] == b[k - |a|];
        }
      }
    }

    /** The first `n` cells are as they were. */
    twostate predicate Kept(n: nat)
      reads code
    {
      n <= code.Length && forall k :: 0 <= k < n ==> code[k] == old(code[k])
    }

    /** The code has grown by `s`. */
    twostate predicate Appended(s: seq<Cell>)
      reads this, code
    {
      Kept(old(end)) && At(old(end), s) && end == old(end) + |s|
    }

    /** `lvm_reset` */
    constructor (size: nat)
      ensures Valid() && fresh(code) && fresh(variables)
      ensures code.Length == size && end == 0 && ip == 0 && !error
      ensures forall i :: 0 <= i < MAX_VARIABLES ==> variables[i] == 0
    {
      code := new Cell[size](i => Blank);
      variables := new int[MAX_VARIABLES](i => 0);
      end, ip, error := 0, 0, false;
    }

    // ----- reading -----

    method GetType() returns (t: NodeType)
      requires ip < code.Length && code[ip].TypeCell?
      modifies `ip
      ensures ip == old(ip) + 1 && code[old(ip)] == TypeCell(t)
    {
      t := code[ip].t;
      ip := ip + 1;
    }

    method GetOperator() returns (op: Operator)
      requires ip < code.Length && code[ip].OpCell?
      modifies `ip
      ensures ip == old(ip) + 1 && code[old(ip)] == OpCell(op)
    {
      op := code[ip].op;
      ip := ip + 1;
    }

    method GetOperand() returns (o: Operand)
      requires ip < code.Length && code[ip].OperandCell?
      modifies `ip
      ensures ip == old(ip) + 1 && code[old(ip)] == OperandCell(o)
    {
      o := code[ip].o;
      ip := ip + 1;
    }

    // ----- evaluation -----

    /** What the cells at `pos` look like when they encode `t`. */
    lemma NodeAt(t: Tree, pos: nat)
      requires At(pos, Encode(t))
      ensures pos + 1 < code.Length
      ensures t.Leaf? ==> code[pos] == TypeCell(OPERAND) && code[pos + 1] == OperandCell(t.o)
      ensures !t.Leaf? ==> code[pos] == TypeCell(NodeTypeOf(t)) && code[pos + 1] == OpCell(OperatorOf(t))
      ensures At(pos + 2, EncodeAll(Args(t))) && |Encode(t)| == 2 + |EncodeAll(Args(t))|
    {
      var s := Encode(t);
      assert code[pos + 0] == s[0] && code[pos + 1] == s[1];
      if !t.Leaf? {
        EncodeSplits(t);
        AtSplit(pos, s[..2], EncodeAll(Args(t)));
      }
    }

    /** The next argument of a list stands at `pos`, the others behind it. */
    lemma Peel(args: seq<Tree>, i: nat, pos: nat)
      requires i < |args| && At(pos, EncodeAll(args[i..]))
      ensures At(pos, Encode(args[i]))
      ensures At(pos + |Encode(args[i])|, EncodeAll(args[i + 1..]))
      ensures |EncodeAll(args[i..])| == |Encode(args[i])| + |EncodeAll(args[i + 1..])|
    {
      assert args[i..][0] == args[i] && args[i..][1..] == args[i + 1..];
      AtSplit(pos, Encode(args[i]), EncodeAll(args[i + 1..]));
    }

    /** The switch on the node type that `eval_expr` and `eval_logic` share. */
    method EvalArgument(ghost arg: Tree) returns (v: Result<int>)
      requires Valid() && At(ip, Encode(arg))
      modifies `ip
      ensures v == Value(arg, Environment())
      ensures v.Ok? ==> ip == old(ip) + |Encode(arg)|
      decreases |Encode(arg)|
    {
      NodeAt(arg, ip);
      var t := GetType();
      match t {
        case ARITH_OP =>
          var op := GetOperator();
          v := EvalExpr(op, arg);
        case OPERAND =>
          var o := GetOperand();
          v := Ok(OperandToLong(o, Environment()));
        case _ =>
          v := Err(SEMANTIC_ERROR);
      }
    }

    /** The loop over both operands that `eval_expr` and `eval_logic` share. */
    method EvalOperands(ghost l: Tree, ghost r: Tree) returns (values: Result<seq<int>>)
      requires Valid() && At(ip, EncodeAll([l, r]))
      modifies `ip
      ensures match values
              case Ok(v) => |v| == 2 && Value(l, Environment()) == Ok(v[0]) && Value(r, Environment()) == Ok(v[1])
                            && ip == old(ip) + |EncodeAll([l, r])|
              case Err(e) => Value(l, Environment()) == Err(e)
                             || (Value(l, Environment()).Ok? && Value(r, Environment()) == Err(e))
      decreases |EncodeAll([l, r])|, 1
    {
      ghost var args := [l, r];
      var v := [];
      for i := 0 to 2
        invariant |v| == i
        invariant old(ip) <= ip == old(ip) + |EncodeAll(args)| - |EncodeAll(args[i..])|
        invariant At(ip, EncodeAll(args[i..]))
        invariant forall j :: 0 <= j < i ==> Value(args[j], Environment()) == Ok(v[j])
      {
        Peel(args, i, ip);
        var x := EvalArgument(args[i]);
        if x.Err? {
          return Err(x.status);
        }
        v := v + [x.value];
      }
      values := Ok(v);
    }

    /** `eval_expr`: an arithmetic node whose type and operator have been read. */
    method EvalExpr(op: Operator, ghost t: Tree) returns (result: Result<int>)
      requires Valid() && t.Arith? && op == t.op
      requires At(ip, EncodeAll(Args(t)))
      modifies `ip
      ensures result == Value(t, Environment())
      ensures result.Ok? ==> ip == old(ip) + |EncodeAll(Args(t))|
      decreases |EncodeAll(Args(t))|, 2
    {
      var values := EvalOperands(t.left, t.right);
      if values.Err? {
        return Err(values.status);
      }
      result := ApplyArith(op, values.value[0], values.value[1]);
    }

    /** One argument of a connective: it must be a relational or logical node. */
    method EvalCondition(ghost arg: Tree) returns (r: Result<bool>)
      requires Valid() && At(ip, Encode(arg))
      modifies `ip
      ensures r == Truth(arg, Environment())
      ensures r.Ok? ==> ip == old(ip) + |Encode(arg)|
      decreases |Encode(arg)|, 0
    {
      NodeAt(arg, ip);
      var ty := GetType();
      if ty != CMP_OP {
        return Err(SEMANTIC_ERROR);
      }
      var op := GetOperator();
      r := EvalLogic(op, arg);
    }

    /** The loop over the arguments of a connective in `eval_logic`: both sides
        are evaluated unless one fails. */
    method EvalConditions(ghost args: seq<Tree>, arguments: nat) returns (logic: Result<seq<bool>>)
      requires Valid() && |args| == arguments && At(ip, EncodeAll(args))
      modifies `ip
      ensures logic == Truths(args, Environment())
      ensures logic.Ok? ==> ip == old(ip) + |EncodeAll(args)|
      decreases |EncodeAll(args)|, 1
    {
      var v := [];
      assert args[0..] == args && forall s: seq<bool> :: v + s == s;
      for i := 0 to arguments
        invariant |v| == i
        invariant old(ip) <= ip == old(ip) + |EncodeAll(args)| - |EncodeAll(args[i..])|
        invariant At(ip, EncodeAll(args[i..]))
        invariant Truths(args, Environment()) == Prepend(v, Truths(args[i..], Environment()))
      {
        Peel(args, i, ip);
        ghost var rest := args[i + 1..];
        assert args[i..][0] == args[i] && args[i..][1..] == rest;
        var r := EvalCondition(args[i]);
        if r.Err? {
          return Err(r.status);
        }
        PrependTwice(v, r.value, Truths(rest, Environment()));
        v := v + [r.value];
      }
      assert args[arguments..] == [] && v + [] == v;
      logic := Ok(v);
    }

    /** `eval_logic`: a relational or logical node whose type and operator have
        been read. */
    method EvalLogic(op: Operator, ghost t: Tree) returns (result: Result<bool>)
      requires Valid() && (t.Relation? || t.Negation?) && op == OperatorOf(t)
      requires At(ip, EncodeAll(Args(t)))
      modifies `ip
      ensures result == Truth(t, Environment())
      ensures result.Ok? ==> ip == old(ip) + |EncodeAll(Args(t))|
      decreases |EncodeAll(Args(t))|, 2
    {
      if IsConnective(op) {
        var logic := EvalConditions(Args(t), if op == NOT then 1 else 2);
        TruthOfConnective(t, Environment());
        if logic.Err? {
          return Err(logic.status);
        }
        var v := logic.value;
        if op == NOT {
          return Ok(!v[0]);
        } else if op == AND {
          return Ok(v[0] && v[1]);
        } else {
          return Ok(v[0] || v[1]);
        }
      }
      var values := EvalOperands(t.left, t.right);
      if values.Err? {
        return Err(values.status);
      }
      result := ApplyComparison(op, values.value[0], values.value[1]);
    }

    /** `lvm_execute` */
    method Execute(ghost t: Tree) returns (result: Result<bool>)
      requires Valid()
      requires At(0, Encode(t))
      modifies `ip
      ensures result == if t.Relation? || t.Negation? then Truth(t, Environment()) else Err(EXECUTION_ERROR)
      ensures result.Ok? ==> ip == |Encode(t)|
    {
      ip := 0;
      NodeAt(t, 0);
      var ty := GetType();
      match ty {
        case CMP_OP =>
          var op := GetOperator();
          result := EvalLogic(op, t);
        case _ =>
          result := Err(EXECUTION_ERROR);
      }
    }

    // ----- writing -----

    /** `lvm_jump_to_operand`: leave room for an operator that is not known yet. */
    method JumpToOperand() returns (oldEnd: nat)
      modifies `end, `error
      ensures oldEnd == old(end)
      ensures if old(end) + 2 >= code.Length then error && end == old(end)
              else error == old(error) && end == old(end) + 2
    {
      oldEnd := end;
      end := end + 2;
      if end >= code.Length {
        error := true;
        end := oldEnd;
      }
    }

    /** `lvm_shift_for_operator`: move the code between `at` and the end up by one
        node, so that an operator can be written in front of it. */
    method ShiftForOperator(at: nat) returns (newEnd: nat)
      requires end + 2 <= code.Length
      modifies `end, `error, code
      ensures at < old(end) ==>
                && newEnd == old(end) + 2 && end == at && error == old(error)
                && Kept(at) && forall k :: at <= k < old(end) ==> code[k + 2] == old(code[k])
      ensures at >= old(end) ==> newEnd == 0 && error && end == old(end) && Kept(code.Length)
    {
      if end + 1 > code.Length || at >= end {
        error := true;
        return 0;
      }
      newEnd := end + 2;
      forall k | at <= k < end {
        code[k + 2] := code[k];
      }
      end := at;
    }

    /** `lvm_set_end` */
    method SetEnd(e: nat) returns (oldEnd: nat)
      modifies `end, `error
      ensures oldEnd == old(end)
      ensures if e >= code.Length then error && end == old(end)
              else error == old(error) && end == e
    {
      oldEnd := end;
      if e >= code.Length {
        error := true;
        return;
      }
      end := e;
    }

    method SetType(t: NodeType)
      requires end < code.Length
      modifies `end, code
      ensures end == old(end) + 1 && code[old(end)] == TypeCell(t)
      ensures forall k :: 0 <= k < code.Length && k != old(end) ==> code[k] == old(code[k])
    {
      code[end] := TypeCell(t);
      end := end + 1;
    }

    /** `lvm_set_op` and `lvm_set_relation` */
    method SetOperator(t: NodeType, op: Operator)
      requires end + 2 <= code.Length
      modifies `end, code
      ensures Appended([TypeCell(t), OpCell(op)])
      ensures forall k :: old(end) + 2 <= k < code.Length ==> code[k] == old(code[k])
    {
      SetType(t);
      code[end] := OpCell(op);
      end := end + 1;
    }

    method SetOperand(o: Operand)
      requires end + 2 <= code.Length
      modifies `end, code
      ensures Appended(Encode(Leaf(o)))
    {
      SetType(OPERAND);
      code[end] := OperandCell(o);
      end := end + 1;
    }
  }
}
