/** Writing a CoAP message into a buffer. */
module CoapSerialize {
  import opened Common
  import opened CoapOptions
  import opened CoapText
  import opened CoapFields
  import opened CoapMessage

  const COAP_MAX_HEADER_SIZE: nat := 62

  // ----- the option list can be encoded -----

  lemma {:induction false} SplitShort(s: seq<Byte>, after: seq<Byte>, sep: Byte, start: nat, j: nat)
    requires |after| == 2 && start <= |s| <= MAX_EXTENDED && start <= j && (j == |s| + 1 ==> start == |s|)
    ensures forall v :: v in Split(s, after, sep, start, j) ==> |v| <= MAX_EXTENDED
    decreases |s| + 2 - j
  {
    if j < |s| {
      if s[j] == sep {
        SplitShort(s, after, sep, j + 1, j + 2);
      } else {
        SplitShort(s, after, sep, start, j + 1);
      }
    }
  }

  lemma ValuesShort(kind: Kind, v: Value, after: seq<Byte>)
    requires InRange(kind, v) && |after| == 2
    ensures forall x :: x in Values(kind, v, after) ==> |x| <= MAX_EXTENDED
    ensures Values(kind, v, after) != []
  {
    if IsSplit(kind) {
      SplitShort(v.text, after, kind.separator, 0, 0);
      SegmentsSome(v.text, after, kind.separator, 0, 0);
    } else if v.Number? {
      IntShort(v.n);
    } else if v.Block? {
      BlockRoundTrip(v.num, v.more, v.size);
      IntShort(BlockBits(v.num, v.more, v.size));
    }
  }

  lemma IntShort(v: nat)
    requires v < WORD
    ensures IntBytes(v) == (if v >= 0x100_0000 then [v / 0x100_0000] else [])
                           + (if v >= 0x1_0000 then [v / 0x1_0000 % 256] else [])
                           + (if v >= 256 then [v / 256 % 256] else [])
                           + (if v >= 1 then [v % 256] else [])
  {
    if v >= 1 {
      assert IntBytes(v) == IntBytes(v / 256) + [v % 256];
      assert IntBytes(v / 256) == if v < 256 then [] else IntBytes(v / 256 / 256) + [v / 256 % 256];
      assert v / 256 / 256 == v / 0x1_0000 && v / 0x1_0000 / 256 == v / 0x100_0000;
      assert IntBytes(v / 0x1_0000) == if v < 0x1_0000 then [] else IntBytes(v / 0x100_0000) + [v / 0x1_0000 % 256];
      assert IntBytes(v / 0x100_0000) == if v < 0x100_0000 then [] else [v / 0x100_0000];
    }
  }

  /** Options of one number can follow. */
  predicate Follows(opts: seq<Opt>, number: nat) {
    Ordered(opts) && 0 <= number - Previous(opts, |opts|) <= MAX_EXTENDED
  }

  lemma {:induction false} OptionsOrdered(opts: seq<Opt>, number: nat, values: seq<seq<Byte>>, n: nat)
    requires Follows(opts, number) && n <= |values| && forall x :: x in values ==> |x| <= MAX_EXTENDED
    ensures Follows(opts + Options(number, values[..n]), number)
    ensures Previous(opts + Options(number, values[..n]), |opts| + n)
            == if n == 0 then Previous(opts, |opts|) else number
  {
    if n == 0 {
      assert opts + Options(number, values[..0]) == opts;
    } else {
      OptionsOrdered(opts, number, values, n - 1);
      EncodeAppend(opts + Options(number, values[..n - 1]), Opt(number, values[n - 1]));
      OptionsSnoc(opts, number, values[..n], n - 1);
      assert values[..n][..n - 1] == values[..n - 1];
    }
  }

  lemma OptionsSnoc(opts: seq<Opt>, number: nat, values: seq<seq<Byte>>, n: nat)
    requires |values| == n + 1
    ensures opts + Options(number, values) == opts + Options(number, values[..n]) + [Opt(number, values[n])]
  {
  }

  lemma {:induction false} AllOrdered(order: seq<nat>, f: Fields, k: nat, behind: Behind)
    requires k <= |order| && Increasing(order) && WellTyped(f) && AllTerminated(behind)
    requires forall i :: 0 <= i < |order| ==> order[i] <= MAX_EXTENDED
    ensures var opts := AllOptions(order, f, k, behind);
            Ordered(opts) && (k > 0 ==> Previous(opts, |opts|) <= order[k - 1]) && (k == 0 ==> opts == [])
            && (k < |order| ==> Follows(opts, order[k]))
  {
    if k > 0 {
      var n := order[k - 1];
      AllOrdered(order, f, k - 1, behind);
      if n in f {
        var values := Values(KindOf(n), f[n], behind(n));
        ValuesShort(KindOf(n), f[n], behind(n));
        OptionsOrdered(AllOptions(order, f, k - 1, behind), n, values, |values|);
        assert values[..|values|] == values;
      } else {
        assert AllOptions(order, f, k, behind) == AllOptions(order, f, k - 1, behind);
      }
    }
  }

  // ----- writing options -----

  /** The bytes of the first `n` options. */
  function Before(all: seq<Opt>, n: nat): seq<Byte>
    requires Ordered(all) && n <= |all|
  {
    Flatten(Chunks(all)[..n], 0)
  }

  lemma BeforeStep(all: seq<Opt>, n: nat)
    requires Ordered(all) && n < |all|
    ensures Previous(all, n) <= all[n].number
    ensures Before(all, n + 1) == Before(all, n) + EncodeOption(Previous(all, n), all[n])
    ensures |Before(all, n + 1)| <= |Encode(all)|
  {
    assert CoapOptions.Fits(all, n);
    FlattenStep(Chunks(all), n);
  }

  lemma FlattenStep(c: seq<seq<Byte>>, n: nat)
    requires n < |c|
    ensures Flatten(c[..n + 1], 0) == Flatten(c[..n], 0) + c[n]
    ensures |Flatten(c[..n + 1], 0)| <= |Flatten(c, 0)|
  {
    FlattenAppend(c[..n], c[n], 0);
    assert c[..n + 1] == c[..n] + [c[n]];
    FlattenSplit(c, n + 1);
  }

  lemma BeforeAll(all: seq<Opt>)
    requires Ordered(all)
    ensures Before(all, |all|) == Encode(all) && Before(all, 0) == []
  {
    assert Chunks(all)[..|all|] == Chunks(all);
  }

  method Put(buffer: array<Byte>, at: nat, b: Byte) returns (next: nat)
    requires at < buffer.Length
    modifies buffer
    ensures next == at + 1 && buffer[..next] == old(buffer[..at]) + [b]
  {
    buffer[at] := b;
    next := at + 1;
  }

  /** `memcpy` of a whole string. */
  method PutAll(buffer: array<Byte>, at: nat, bytes: seq<Byte>) returns (next: nat)
    requires at + |bytes| <= buffer.Length
    modifies buffer
    ensures next == at + |bytes| && buffer[..next] == old(buffer[..at]) + bytes
  {
    for i := 0 to |bytes|
      invariant buffer[..at + i] == old(buffer[..at]) + bytes[..i]
    {
      buffer[at + i] := bytes[i];
    }
    next := at + |bytes|;
  }

  /** One turn of the loop of `coap_set_option_header`. */
  method PutExtension(x: nat, buffer: array<Byte>, at: nat) returns (next: nat)
    requires x <= MAX_EXTENDED && at + |Extension(x)| <= buffer.Length
    modifies buffer
    ensures next == at + |Extension(x)| && buffer[..next] == old(buffer[..at]) + Extension(x)
  {
    next := at;
    if x > 268 {
      next := Put(buffer, next, (x - 269) / 256);
      next := Put(buffer, next, (x - 269) % 256);
    } else if x > 12 {
      next := Put(buffer, next, x - 13);
    }
  }

  /** `coap_set_option_header` */
  method SetOptionHeader(delta: nat, length: nat, buffer: array<Byte>, at: nat) returns (next: nat)
    requires delta <= MAX_EXTENDED && length <= MAX_EXTENDED && at + |Header(delta, length)| <= buffer.Length
    modifies buffer
    ensures next == at + |Header(delta, length)| && buffer[..next] == old(buffer[..at]) + Header(delta, length)
  {
    ghost var was := buffer[..at];
    ghost var first := [Nibble(delta) * 16 + Nibble(length)];
    next := Put(buffer, at, Nibble(delta) * 16 + Nibble(length));
    for turn := 0 to 2
      invariant next == at + 1 + (if turn >= 1 then |Extension(delta)| else 0)
                        + (if turn == 2 then |Extension(length)| else 0)
      invariant buffer[..next] == was + (first + (if turn >= 1 then Extension(delta) else [])
                                         + (if turn == 2 then Extension(length) else []))
    {
      next := PutExtension(if turn == 0 then delta else length, buffer, next);
      Assoc(was, first, Extension(delta));
      Assoc(was, first + Extension(delta), Extension(length));
    }
  }

  /** What the buffer holds after each option: `pre[n]` with `n` options. */
  ghost predicate Script(pre: seq<seq<Byte>>, all: seq<Opt>, room: nat) {
    && Ordered(all) && |pre| == |all| + 1
    && (forall n :: 0 <= n < |all| ==> Line(pre, all, n, room))
  }

  predicate Line(pre: seq<seq<Byte>>, all: seq<Opt>, n: nat, room: nat)
    requires n < |all| && |pre| == |all| + 1
  {
    && CoapOptions.Fits(all, n) && |pre[n + 1]| <= room
    && pre[n + 1] == pre[n] + Header(all[n].number - Previous(all, n), |all[n].value|) + all[n].value
  }

  lemma ScriptOf(head: seq<Byte>, all: seq<Opt>, room: nat) returns (pre: seq<seq<Byte>>)
    requires Ordered(all) && |head| + |Encode(all)| <= room
    ensures Script(pre, all, room) && pre[0] == head && pre[|all|] == head + Encode(all)
  {
    pre := seq(|all| + 1, n requires 0 <= n <= |all| => head + Before(all, n));
    forall n | 0 <= n < |all| ensures Line(pre, all, n, room) {
      assert CoapOptions.Fits(all, n);
      BeforeStep(all, n);
      var header := Header(all[n].number - Previous(all, n), |all[n].value|);
      Assoc(head, Before(all, n), header + all[n].value);
      Assoc(head + Before(all, n), header, all[n].value);
    }
    BeforeAll(all);
  }

  /** The first `n` options are in the buffer. */
  ghost predicate Holds(buffer: array<Byte>, at: nat, pre: seq<seq<Byte>>, all: seq<Opt>, n: nat)
    reads buffer
  {
    Script(pre, all, buffer.Length) && n <= |all| && at <= buffer.Length && buffer[..at] == pre[n]
  }

  /** One option: the part of `coap_serialize_array_option` for a string that is not split. */
  method SerializeBytes(number: nat, current: nat, buffer: array<Byte>, at: nat, bytes: seq<Byte>,
                        ghost pre: seq<seq<Byte>>, ghost all: seq<Opt>, ghost n: nat) returns (next: nat)
    requires Holds(buffer, at, pre, all, n) && n < |all| && all[n] == Opt(number, bytes) && current == Previous(all, n)
    modifies buffer
    ensures Holds(buffer, next, pre, all, n + 1)
  {
    assert Line(pre, all, n, buffer.Length);
    next := SetOptionHeader(number - current, |bytes|, buffer, at);
    next := PutAll(buffer, next, bytes);
  }

  /** `coap_serialize_int_option` */
  method SerializeInt(number: nat, current: nat, buffer: array<Byte>, at: nat, value: nat,
                      ghost pre: seq<seq<Byte>>, ghost all: seq<Opt>, ghost n: nat) returns (next: nat)
    requires value < WORD
    requires Holds(buffer, at, pre, all, n) && n < |all| && all[n] == Opt(number, IntBytes(value))
             && current == Previous(all, n)
    modifies buffer
    ensures Holds(buffer, next, pre, all, n + 1)
  {
    assert Line(pre, all, n, buffer.Length);
    var length := IntSize(value);
    next := SetOptionHeader(number - current, length, buffer, at);
    next := PutInt(buffer, next, value);
  }

  method IntSize(value: nat) returns (length: nat)
    requires value < WORD
    ensures length == |IntBytes(value)|
  {
    IntShort(value);
    length := 0;
    if value >= 0x100_0000 { length := length + 1; }
    if value >= 0x1_0000 { length := length + 1; }
    if value >= 256 { length := length + 1; }
    if value >= 1 { length := length + 1; }
  }

  method PutInt(buffer: array<Byte>, at: nat, value: nat) returns (next: nat)
    requires value < WORD && at + |IntBytes(value)| <= buffer.Length
    modifies buffer
    ensures next == at + |IntBytes(value)| && buffer[..next] == old(buffer[..at]) + IntBytes(value)
  {
    IntShort(value);
    next := at;
    if value >= 0x100_0000 { next := Put(buffer, next, value / 0x100_0000); }
    if value >= 0x1_0000 { next := Put(buffer, next, value / 0x1_0000 % 256); }
    if value >= 256 { next := Put(buffer, next, value / 256 % 256); }
    if value >= 1 { next := Put(buffer, next, value % 256); }
  }

  /** What the loop still has to send. */
  function ToSend(text: seq<Byte>, after: seq<Byte>, sep: Byte, start: nat, j: nat): seq<seq<Byte>>
    requires |after| == 2
  {
    if j <= |text| + 1 && start <= |text| && start <= j then Split(text, after, sep, start, j) else []
  }

  lemma SplitTurn(text: seq<Byte>, after: seq<Byte>, sep: Byte, start: nat, j: nat)
    requires |after| == 2 && start <= j <= |text| + 1 && start <= |text| && (j == |text| + 1 ==> start == |text|)
    ensures var memory := text + after;
            ToSend(text, after, sep, start, j) ==
            if memory[j] == sep || j == |text| then [memory[start..j]] + ToSend(text, after, sep, j + 1, j + 2)
            else ToSend(text, after, sep, start, j + 1)
  {
    var memory := text + after;
    assert j <= |text| ==> memory[start..j] == text[start..j];
    assert text[start..|text|] == text[start..];
    assert j == |text| + 1 ==> memory[start..j] == text[start..] + [after[0]];
  }

  /** The options from the `n`-th on are those of a split string. */
  ghost predicate Sends(all: seq<Opt>, n: nat, number: nat, values: seq<seq<Byte>>) {
    n + |values| <= |all| && forall i :: 0 <= i < |values| ==> all[n + i] == Opt(number, values[i])
  }

  lemma OneSent(all: seq<Opt>, n: nat, number: nat, head: seq<Byte>, rest: seq<seq<Byte>>)
    requires Sends(all, n, number, [head] + rest)
    ensures n < |all| && all[n] == Opt(number, head) && Previous(all, n + 1) == number
            && Sends(all, n + 1, number, rest)
  {
    var values := [head] + rest;
    assert all[n + 0] == Opt(number, values[0]);
    forall i | 0 <= i < |rest| ensures all[n + 1 + i] == Opt(number, rest[i]) {
      assert all[n + (i + 1)] == Opt(number, values[i + 1]);
    }
  }

  /** The loop of `coap_serialize_array_option`: one option per segment. */
  method SerializeSplit(number: nat, first: nat, buffer: array<Byte>, at: nat, text: seq<Byte>, after: seq<Byte>,
                        sep: Byte,
                        ghost pre: seq<seq<Byte>>, ghost all: seq<Opt>, ghost n: nat) returns (next: nat)
    requires |after| == 2
    requires Holds(buffer, at, pre, all, n) && first == Previous(all, n)
    requires Sends(all, n, number, Segments(text, after, sep))
    modifies buffer
    ensures Holds(buffer, next, pre, all, n + |Segments(text, after, sep)|)
  {
    var memory := text + after;
    var j, start, current := 0, 0, first;
    next := at;
    ghost var k: nat, todo: seq<seq<Byte>> := n, Segments(text, after, sep);
    while j <= |text| + 1
      invariant j <= |text| + 1 ==> start <= j && start <= |text| && (j == |text| + 1 ==> start == |text|)
      invariant todo == ToSend(text, after, sep, start, j) && Sends(all, k, number, todo)
      invariant k + |todo| == n + |Segments(text, after, sep)|
      invariant Holds(buffer, next, pre, all, k) && current == Previous(all, k)
      decreases |text| + 2 - j
    {
      SplitTurn(text, after, sep, start, j);
      if memory[j] == sep || j == |text| {
        var part := memory[start..j];
        todo := ToSend(text, after, sep, j + 1, j + 2);
        OneSent(all, k, number, part, todo);
        next := SerializeBytes(number, current, buffer, next, part, pre, all, k);
        k := k + 1;
        j := j + 1;
        current, start := number, j;
      }
      j := j + 1;
    }
  }
}
