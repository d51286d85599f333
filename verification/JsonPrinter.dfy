/** The printer: a step machine with an explicit stack that prints one token or one end
    of a container per call. */
module JsonPrinter {
  import opened Common
  import opened JsonTree

  const JSONTREE_MAX_DEPTH: nat := 10

  /** The calls that printing takes: one per leaf, one per member and one more per
      container. */
  function Calls(v: Json): nat
    decreases v, if v.Node? then |v.members| + 2 else 0
  {
    if v.Node? then CallsFrom(v, 0) else 1
  }

  function CallsFrom(v: Json, i: nat): nat
    requires v.Node? && i <= |v.members|
    decreases v, |v.members| - i + 1
  {
    if i == |v.members| then 1 else 1 + Calls(v.members[i].value) + CallsFrom(v, i + 1)
  }

  /** What is left to print of a value, from its current index on. */
  function Part(v: Json, i: nat): string {
    if v.Node? && i <= |v.members| then (if i == 0 then [Open(v)] + "\n" else "") + RenderFrom(v, i) else Render(v)
  }

  function CallsOf(v: Json, i: nat): nat {
    if v.Node? && i <= |v.members| then CallsFrom(v, i) else 1
  }

  /** What the levels above the current one print after their current members, outermost
      level first. */
  function Parts(values: seq<Json>, index: seq<nat>): (p: seq<string>)
    requires |values| == |index|
    ensures |p| == |values|
  {
    seq(|values|, d requires 0 <= d < |values| => Part(values[d], index[d] + 1))
  }

  function Counts(values: seq<Json>, index: seq<nat>): (c: seq<nat>)
    requires |values| == |index|
    ensures |c| == |values|
  {
    seq(|values|, d requires 0 <= d < |values| => CallsOf(values[d], index[d] + 1))
  }

  /** The texts one after the other, the last one first. */
  function Backwards(texts: seq<string>): string {
    if texts == [] then "" else texts[|texts| - 1] + Backwards(texts[..|texts| - 1])
  }

  function Sum(counts: seq<nat>): nat {
    if counts == [] then 0 else counts[|counts| - 1] + Sum(counts[..|counts| - 1])
  }

  lemma OneMoreLevel(values: seq<Json>, index: seq<nat>, v: Json, i: nat)
    requires |values| == |index|
    ensures Backwards(Parts(values + [v], index + [i])) == Part(v, i + 1) + Backwards(Parts(values, index))
    ensures Sum(Counts(values + [v], index + [i])) == CallsOf(v, i + 1) + Sum(Counts(values, index))
  {
    var p, c := Parts(values, index), Counts(values, index);
    assert Parts(values + [v], index + [i]) == p + [Part(v, i + 1)];
    assert Counts(values + [v], index + [i]) == c + [CallsOf(v, i + 1)];
    assert (p + [Part(v, i + 1)])[..|p|] == p && (c + [CallsOf(v, i + 1)])[..|c|] == c;
  }

  class Context {
    const values: array<Json>
    const index: array<nat>
    var depth: nat
    var out: string

    /** Every level below the current one is a member of the level above it, and there
        is room for the rest of the tree. */
    ghost predicate Valid()
      reads this, values, index
    {
      && values.Length == index.Length == JSONTREE_MAX_DEPTH && depth < JSONTREE_MAX_DEPTH
      && (forall d :: 0 <= d < depth ==> Linked(d))
      && depth + Height(values[depth]) <= JSONTREE_MAX_DEPTH
      && (if values[depth].Node? then index[depth] <= |values[depth].members| else index[depth] == 0)
    }

    ghost predicate Linked(d: nat)
      requires d + 1 < values.Length && d < index.Length
      reads values, index
    {
      && d + Height(values[d]) <= JSONTREE_MAX_DEPTH
      && values[d].Node? && index[d] < |values[d].members| && values[d + 1] == values[d].members[index[d]].value
    }

    ghost function Pending(): string
      requires depth < values.Length && depth < index.Length
      reads this, values, index
    {
      Part(values[depth], index[depth]) + Backwards(Parts(values[..depth], index[..depth]))
    }

    ghost function CallsLeft(): nat
      requires depth < values.Length && depth < index.Length
      reads this, values, index
    {
      CallsOf(values[depth], index[depth]) + Sum(Counts(values[..depth], index[..depth]))
    }

    /** `jsontree_setup` */
    constructor (root: Json)
      requires Height(root) <= JSONTREE_MAX_DEPTH
      ensures Valid() && depth == 0 && out == "" && fresh(values) && fresh(index)
      ensures Pending() == Render(root) && CallsLeft() == Calls(root)
    {
      values := new Json[JSONTREE_MAX_DEPTH](d => root);
      index := new nat[JSONTREE_MAX_DEPTH](d => 0);
      depth, out := 0, "";
    }

    method PutChar(c: char)
      modifies this`out
      ensures out == old(out) + [c]
    {
      out := out + [c];
    }

    /** `jsontree_write_string` */
    method WriteString(text: string)
      modifies this`out
      ensures out == old(out) + Quote(text)
    {
      PutChar('\"');
      assert text[0..] == text;
      for i := 0 to |text|
        invariant out + Escape(text[i..]) == old(out) + "\"" + Escape(text)
      {
        ghost var before := out;
        assert text[i..][0] == text[i] && text[i..][1..] == text[i + 1..];
        if text[i] == '\"' {
          PutChar('\\');
        }
        PutChar(text[i]);
        assert out == before + if text[i] == '\"' then "\\\"" else [text[i]];
      }
      assert text[|text|..] == "" && out + "" == out;
      PutChar('\"');
      assert out == old(out) + ("\"" + Escape(text) + "\"");
    }

    /** The first loop of `jsontree_write_int`: the digits, from the right. */
    method CollectDigits(n: nat, buf: array<char>) returns (first: nat)
      requires buf.Length == 10 && n < 0x8000_0000
      modifies buf
      ensures first <= 10 && buf[first..] == Digits(n)
    {
      var l, rest := 9, n;
      var more := true;
      ghost var done := "";
      TenDigits();
      while more
        invariant -1 <= l <= 9 && 0 <= rest < Power(l + 1) && (more ==> l >= 0)
        invariant buf[l + 1..] == done && Digits(n) == (if more then Digits(rest) else "") + done
        decreases more, l
      {
        var digit := '0' + (rest % 10) as char;
        buf[l] := digit;
        LastDigit(rest, done);
        done := [digit] + done;
        l := l - 1;
        rest := rest / 10;
        more := rest > 0 && l >= 0;
      }
      first := l + 1;
    }

    /** `jsontree_write_int` */
    method WriteInt(value: int)
      requires -0x8000_0000 < value < 0x8000_0000
      modifies this`out
      ensures out == old(out) + Decimal(value)
    {
      var n := value;
      if value < 0 {
        PutChar('-');
        n := -value;
      }
      var buf := new char[10](i => '0');
      var first := CollectDigits(n, buf);
      Assoc(old(out), "-", Digits(n));
      PutDigits(buf, first);
    }

    /** Its second loop. */
    method PutDigits(buf: array<char>, first: nat)
      requires buf.Length == 10 && first <= 10
      modifies this`out
      ensures out == old(out) + buf[first..]
    {
      for l := first to 10
        invariant out == old(out) + buf[first..l]
      {
        PutChar(buf[l]);
      }
      assert buf[first..10] == buf[first..];
    }

    /** Step down to a member's value. */
    method StepDown(v: Json, i: nat)
      requires Valid() && v == values[depth] && v.Node? && i == index[depth] < |v.members|
      modifies this`depth, values, index
      ensures Valid() && depth == old(depth) + 1 && values[depth] == v.members[i].value && index[depth] == 0
      ensures values[..depth] == old(values[..depth]) + [v] && index[..depth] == old(index[..depth]) + [i]
    {
      MemberHeight(v, 0, i);
      assert Height(v) == 1 + HighestFrom(v, 0);
      depth := depth + 1;
      index[depth] := 0;
      values[depth] := v.members[i].value;
      forall d | 0 <= d < depth ensures Linked(d) {
        assert d + 1 < depth ==> old(Linked(d));
      }
    }

    method Descend(v: Json, i: nat)
      requires Valid() && v == values[depth] && v.Node? && i == index[depth] < |v.members|
      modifies this`depth, this`out, values, index
      ensures Valid() && out + Pending() == old(out + Pending()) && CallsLeft() + 1 == old(CallsLeft())
    {
      ghost var vs, ix := values[..depth], index[..depth];
      WriteHead(v, i);
      StepDown(v, i);
      ghost var above := Backwards(Parts(vs, ix));
      OneMoreLevel(vs, ix, v, i);
      assert Pending() == Part(v.members[i].value, 0) + (Part(v, i + 1) + above);
      DescendText(old(out), v, i, above);
      DescendCalls(v, i);
    }

    /** What is printed before a member's value. */
    method WriteHead(v: Json, i: nat)
      requires v.Node? && i < |v.members|
      modifies this`out
      ensures out == old(out) + ((if i == 0 then [Open(v)] + "\n" else "") + Head(v, i))
    {
      if i > 0 {
        PutChar(',');
        PutChar('\n');
      } else {
        PutChar(Open(v));
        PutChar('\n');
      }
      ghost var before, first := out, if i == 0 then [Open(v)] + "\n" else ",\n";
      assert before == old(out) + first;
      if v.named {
        WriteString(v.members[i].name);
        PutChar(':');
        assert out == before + (Quote(v.members[i].name) + ":");
        Assoc(old(out), first, Quote(v.members[i].name) + ":");
      }
    }

    /** `jsontree_print_next`. Each call prints the next piece of the text and leaves the rest;
        it returns false when everything has been printed. */
    method PrintNext() returns (more: bool)
      requires Valid()
      modifies this`depth, this`out, values, index
      ensures more ==> Valid() && out + Pending() == old(out + Pending()) && CallsLeft() + 1 == old(CallsLeft())
      ensures !more ==> out == old(out + Pending()) && old(CallsLeft()) == 1
    {
      var v := values[depth];
      ghost var above := Backwards(Parts(values[..depth], index[..depth]));
      if v.Node? && index[depth] < |v.members| {
        Descend(v, index[depth]);
        return true;
      }
      WriteEnd(v, index[depth]);
      Assoc(old(out), Part(v, index[depth]), above);
      if depth > 0 {
        Ascend();
        return true;
      }
      return false;
    }

    /** A leaf, or the end of a container. */
    method WriteEnd(v: Json, i: nat)
      requires if v.Node? then i == |v.members| else i == 0
      modifies this`out
      ensures out == old(out) + Part(v, i)
    {
      match v {
        case Text(s) => WriteString(s);
        case Number(n) => WriteInt(n);
        case Node(_, members) =>
          if i == 0 {
            PutChar(Open(v));
            PutChar('\n');
          }
          PutChar('\n');
          PutChar(Close(v));
      }
    }

    /** Back up one level, to value `v` at member `i`. */
    method StepUp(ghost vs: seq<Json>, ghost ix: seq<nat>, ghost v: Json, ghost i: nat)
      requires Valid() && depth > 0 && values[..depth] == vs + [v] && index[..depth] == ix + [i]
      modifies this`depth, index
      ensures Valid() && values[..depth] == vs && index[..depth] == ix && values[depth] == v && index[depth] == i + 1
    {
      assert Linked(depth - 1) && |vs| == |ix| == depth - 1;
      assert values[..depth][depth - 1] == v && index[..depth][depth - 1] == i;
      assert values[..depth - 1] == values[..depth][..depth - 1] && index[..depth - 1] == index[..depth][..depth - 1];
      depth := depth - 1;
      index[depth] := index[depth] + 1;
      forall e | 0 <= e < depth ensures Linked(e) {
        assert old(Linked(e));
      }
    }

    method Ascend()
      requires Valid() && depth > 0
      modifies this`depth, index
      ensures Valid()
      ensures Pending() == Backwards(Parts(old(values[..depth]), old(index[..depth])))
      ensures CallsLeft() == Sum(Counts(old(values[..depth]), old(index[..depth])))
    {
      ghost var d := depth - 1;
      ghost var vs, ix, v, i := values[..d], index[..d], values[d], index[d];
      assert values[..depth] == vs + [v] && index[..depth] == ix + [i];
      OneMoreLevel(vs, ix, v, i);
      StepUp(vs, ix, v, i);
    }

    /** `while(jsontree_print_next(ctx))`: prints the text of the tree, in exactly the number of
        calls that its leaves and members make up. */
    method Print() returns (calls: nat)
      requires Valid()
      modifies this`depth, this`out, values, index
      ensures out == old(out + Pending()) && calls == old(CallsLeft())
    {
      calls := 0;
      var more := true;
      while more
        invariant more ==> Valid() && out + Pending() == old(out + Pending()) && calls + CallsLeft() == old(CallsLeft())
        invariant !more ==> out == old(out + Pending()) && calls == old(CallsLeft())
        decreases if more then CallsLeft() + 1 else 0
      {
        more := PrintNext();
        calls := calls + 1;
      }
    }
  }

  lemma DescendCalls(v: Json, i: nat)
    requires v.Node? && i < |v.members|
    ensures CallsOf(v, i) == 1 + CallsOf(v.members[i].value, 0) + CallsOf(v, i + 1)
  {
    var child := v.members[i].value;
    assert CallsOf(child, 0) == Calls(child);
    assert CallsFrom(v, i) == 1 + Calls(child) + CallsFrom(v, i + 1);
  }

  lemma DescendText(out: string, v: Json, i: nat, above: string)
    requires v.Node? && i < |v.members|
    ensures var first := (if i == 0 then [Open(v)] + "\n" else "") + Head(v, i);
            out + first + (Part(v.members[i].value, 0) + (Part(v, i + 1) + above)) == out + (Part(v, i) + above)
  {
    var child := v.members[i].value;
    var open := if i == 0 then [Open(v)] + "\n" else "";
    assert Part(child, 0) == Render(child);
    assert Part(v, i + 1) == RenderFrom(v, i + 1);
    assert RenderFrom(v, i) == Head(v, i) + Render(child) + RenderFrom(v, i + 1);
    Concat(out, open, Head(v, i), Render(child), RenderFrom(v, i + 1), above);
  }

  lemma Concat(out: string, a: string, b: string, c: string, d: string, e: string)
    ensures out + (a + b) + (c + (d + e)) == out + (a + (b + c + d) + e)
  {
  }

  lemma LastDigit(n: nat, more: string)
    ensures Digits(n) + more == (if n / 10 > 0 then Digits(n / 10) else "") + (['0' + (n % 10) as char] + more)
  {
  }

  function Power(k: nat): nat {
    if k == 0 then 1 else 10 * Power(k - 1)
  }

  lemma TenDigits()
    ensures Power(10) > 0x8000_0000
  {
    assert Power(3) == 1000;
    assert Power(6) == 1000000;
    assert Power(9) == 1000000000;
  }
}