/** Whole CoAP messages: the option list that a message is sent with, what the receiver
    reads from it, and which messages arrive unchanged. */
module CoapMessage {
  import opened CoapOptions
  import opened CoapText
  import opened CoapFields

  type Fields = map<nat, Value>

  /** The range of a field: what its type and its setter allow. */
  predicate InRange(kind: Kind, v: Value) {
    match kind
    case Number32Kind => v.Number? && v.n < WORD
    case Number16Kind => v.Number? && v.n < 0x1_0000
    case FlagKind => v.Flag?
    case OpaqueKind => v.Opaque? && |v.bytes| <= COAP_ETAG_LEN
    case TextKind(_) => v.Text? && |v.text| <= MAX_EXTENDED
    case BlockKind => v.Block? && v.num <= 0xFFFFF && 16 <= v.size <= 2048
    case ProxyKind => v.Text? && |v.text| <= MAX_EXTENDED
    case UnknownKind => false
  }

  ghost predicate WellTyped(f: Fields) {
    forall number :: number in f ==> InRange(KindOf(number), f[number])
  }

  predicate IsSplit(kind: Kind) {
    kind.TextKind? && kind.separator != 0
  }

  /** The two bytes in memory behind a string. The first one is no separator: it is the
      terminating NUL, or the `?` of a location. */
  predicate Terminated(after: seq<Byte>) {
    |after| == 2 && after[0] != SLASH && after[0] != AMPERSAND
  }

  type Behind = nat -> seq<Byte>

  ghost predicate AllTerminated(behind: Behind) {
    forall number: nat :: Terminated(behind(number))
  }

  // ----- sending -----

  /** The values of the options that a field is sent as. */
  function Values(kind: Kind, v: Value, after: seq<Byte>): seq<seq<Byte>>
    requires InRange(kind, v) && |after| == 2
  {
    match v
    case Number(n) => [IntBytes(n)]
    case Flag => [[]]
    case Opaque(bytes) => [bytes]
    case Text(text) => if IsSplit(kind) then Segments(text, after, kind.separator) else [text]
    case Block(num, more, size, _) => [IntBytes(BlockBits(num, more, size))]
  }

  /** One option per value, all with the same number. */
  function Options(number: nat, values: seq<seq<Byte>>): seq<Opt> {
    seq(|values|, i requires 0 <= i < |values| => Opt(number, values[i]))
  }

  /** The options of the first `k` numbers. */
  function AllOptions(order: seq<nat>, f: Fields, k: nat, behind: Behind): seq<Opt>
    requires k <= |order| && WellTyped(f) && AllTerminated(behind)
  {
    if k == 0 then [] else
    AllOptions(order, f, k - 1, behind) + OptionsOf(order[k - 1], f, behind)
  }

  function OptionsOf(number: nat, f: Fields, behind: Behind): seq<Opt>
    requires WellTyped(f) && AllTerminated(behind)
  {
    Options(number, ValuesSent(number, f, behind))
  }

  /** The values that one number sends. */
  function ValuesSent(number: nat, f: Fields, behind: Behind): seq<seq<Byte>>
    requires WellTyped(f) && AllTerminated(behind)
  {
    if number in f then Values(KindOf(number), f[number], behind(number)) else []
  }

  // ----- receiving -----

  datatype Parsed = Parsed(fields: Fields, options: set<nat>)

  datatype Outcome = Good(p: Parsed) | Bad(status: Status)

  function TextOf(f: Fields, number: nat): seq<Byte> {
    if number in f && f[number].Text? then f[number].text else []
  }

  function Cut(bytes: seq<Byte>): seq<Byte> {
    if |bytes| > COAP_ETAG_LEN then bytes[..COAP_ETAG_LEN] else bytes
  }

  predicate Implemented(kind: Kind) {
    kind != ProxyKind && kind != UnknownKind
  }

  /** The value of a field after one more option; `current` is its text so far. */
  function Field(kind: Kind, current: seq<Byte>, value: seq<Byte>): Value
    requires Implemented(kind)
  {
    match kind
    case Number32Kind => Number(ParseInt(value))
    case Number16Kind => Number(ParseInt(value) % 0x1_0000)
    case FlagKind => Flag
    case OpaqueKind => Opaque(Cut(value))
    case TextKind(sep) => Text(if sep == 0 then value else Merge(current, value, sep))
    case BlockKind => BlockOf(ParseInt(value))
  }

  /** One turn of the loop of `coap_parse_message`. */
  function Apply(p: Parsed, o: Opt): Outcome {
    var kind := KindOf(o.number);
    if kind == ProxyKind then Bad(PROXYING_NOT_SUPPORTED_5_05)
    else if kind != UnknownKind then Good(ApplyKnown(p, kind, o))
    else if o.number % 2 == 1 then Bad(BAD_OPTION_4_02)
    else Good(p.(options := p.options + {o.number}))
  }

  function ApplyKnown(p: Parsed, kind: Kind, o: Opt): Parsed
    requires Implemented(kind)
  {
    Parsed(p.fields[o.number := Field(kind, TextOf(p.fields, o.number), o.value)], p.options + {o.number})
  }

  function ApplyAll(start: Outcome, opts: seq<Opt>): Outcome {
    if opts == [] then start else
    var r := ApplyAll(start, opts[..|opts| - 1]);
    if r.Bad? then r else Apply(r.p, opts[|opts| - 1])
  }

  const NOTHING: Outcome := Good(Parsed(map[], {}))

  lemma {:induction false} ApplySplit(start: Outcome, a: seq<Opt>, b: seq<Opt>)
    ensures ApplyAll(start, a + b) == ApplyAll(ApplyAll(start, a), b)
  {
    if b == [] {
      assert a + b == a;
    } else {
      var n := |b| - 1;
      assert (a + b)[..|a + b| - 1] == a + b[..n];
      ApplySplit(start, a, b[..n]);
    }
  }

  lemma ApplyOne(p: Parsed, o: Opt)
    ensures ApplyAll(Good(p), [o]) == Apply(p, o)
  {
    assert [o][..0] == [];
  }

  /** The first error ends the loop. */
  lemma {:induction false} BadStays(status: Status, opts: seq<Opt>)
    ensures ApplyAll(Bad(status), opts) == Bad(status)
  {
    if opts != [] {
      BadStays(status, opts[..|opts| - 1]);
    }
  }

  // ----- the round trip -----

  /** What the receiver has in a field. */
  function Seen(kind: Kind, v: Value, after: seq<Byte>): Value
    requires InRange(kind, v) && |after| == 2 && Implemented(kind)
  {
    match v
    case Text(text) =>
      if IsSplit(kind) then Text(MergeAll([], Segments(text, after, kind.separator), kind.separator)) else v
    case Block(num, more, size, _) => BlockOf(BlockBits(num, more, size))
    case _ => v
  }

  /** A field that arrives as it was sent. A proxy option does not. */
  predicate Arrives(kind: Kind, v: Value)
    requires InRange(kind, v)
  {
    && Implemented(kind)
    && (IsSplit(kind) ==> Kept(v.text, kind.separator))
    && (v.Block? ==> BlockSize(v.size))
  }

  /** The value of a field, with the offset that goes with a block. */
  function Meant(v: Value): Value {
    if v.Block? then v.(offset := v.num * v.size) else v
  }

  lemma SeenIffArrives(kind: Kind, v: Value, after: seq<Byte>)
    requires InRange(kind, v) && Implemented(kind) && |after| == 2
    requires IsSplit(kind) ==> after[0] != kind.separator
    ensures Seen(kind, v, after) == Meant(v) <==> Arrives(kind, v)
  {
    match v {
      case Text(text) =>
        if IsSplit(kind) {
          KeptIff(text, after, kind.separator);
        }
      case Block(num, more, size, _) => BlockRoundTrip(num, more, size);
      case _ =>
    }
  }

  lemma SegmentsSome(s: seq<Byte>, after: seq<Byte>, sep: Byte, start: nat, j: nat)
    requires |after| == 2 && start <= |s| && start <= j <= |s|
    ensures Split(s, after, sep, start, j) != []
    decreases |s| - j
  {
  }

  lemma FirstOption(start: Outcome, number: nat, values: seq<seq<Byte>>)
    requires values != []
    ensures ApplyAll(start, Options(number, values)) ==
            ApplyAll(ApplyAll(start, [Opt(number, values[0])]), Options(number, values[1..]))
  {
    assert Options(number, values) == [Opt(number, values[0])] + Options(number, values[1..]);
    ApplySplit(start, [Opt(number, values[0])], Options(number, values[1..]));
  }

  lemma {:induction false} ApplyText(p: Parsed, number: nat, values: seq<seq<Byte>>, kind: Kind)
    requires kind == KindOf(number) && IsSplit(kind) && values != []
    ensures ApplyAll(Good(p), Options(number, values)) ==
            Good(Parsed(p.fields[number := Text(MergeAll(TextOf(p.fields, number), values, kind.separator))],
                        p.options + {number}))
    decreases |values|
  {
    var o := Opt(number, values[0]);
    var q := ApplyKnown(p, kind, o);
    FirstOption(Good(p), number, values);
    ApplyOne(p, o);
    if |values| > 1 {
      ApplyText(q, number, values[1..], kind);
      assert q.options + {number} == p.options + {number};
      var merged := Text(MergeAll(TextOf(p.fields, number), values, kind.separator));
      assert q.fields[number := merged] == p.fields[number := merged];
      assert TextOf(q.fields, number) == Merge(TextOf(p.fields, number), values[0], kind.separator);
    } else {
      assert Options(number, values[1..]) == [];
    }
  }

  /** A field that is sent as one option. */
  lemma SingleValue(kind: Kind, v: Value, after: seq<Byte>, current: seq<Byte>)
    requires InRange(kind, v) && |after| == 2 && Implemented(kind) && !IsSplit(kind)
    ensures |Values(kind, v, after)| == 1 && Field(kind, current, Values(kind, v, after)[0]) == Seen(kind, v, after)
  {
    if v.Block? {
      BlockValue(v.num, v.more, v.size);
      var bytes := IntBytes(BlockBits(v.num, v.more, v.size));
      assert Values(kind, v, after) == [bytes];
      assert Field(kind, current, bytes) == BlockOf(ParseInt(bytes));
    } else if v.Number? {
      IntRoundTrip(v.n);
      assert Values(kind, v, after) == [IntBytes(v.n)];
    }
  }

  lemma BlockValue(num: nat, more: bool, size: nat)
    requires num <= 0xFFFFF && 16 <= size <= 2048
    ensures ParseInt(IntBytes(BlockBits(num, more, size))) == BlockBits(num, more, size)
  {
    BlockRoundTrip(num, more, size);
    IntRoundTrip(BlockBits(num, more, size));
  }

  /** The receiver, on the options of one field. */
  lemma ApplyField(p: Parsed, number: nat, kind: Kind, v: Value, after: seq<Byte>)
    requires kind == KindOf(number) && InRange(kind, v) && |after| == 2 && number !in p.fields
    ensures ApplyAll(Good(p), Options(number, Values(kind, v, after))) ==
            if kind == ProxyKind then Bad(PROXYING_NOT_SUPPORTED_5_05)
            else Good(Parsed(p.fields[number := Seen(kind, v, after)], p.options + {number}))
  {
    var values := Values(kind, v, after);
    if IsSplit(kind) {
      SegmentsSome(v.text, after, kind.separator, 0, 0);
      ApplyText(p, number, values, kind);
    } else {
      var o := Opt(number, values[0]);
      assert Options(number, values) == [o];
      ApplyOne(p, o);
      if kind != ProxyKind {
        SingleValue(kind, v, after, TextOf(p.fields, number));
      }
    }
  }

  ghost predicate HasProxy(order: seq<nat>, f: Fields, k: nat)
    requires k <= |order|
  {
    exists i :: 0 <= i < k && order[i] in f && KindOf(order[i]) == ProxyKind
  }

  ghost predicate Increasing(order: seq<nat>) {
    forall i, j :: 0 <= i < j < |order| ==> order[i] < order[j]
  }

  /** What the receiver has read after the first `k` numbers. */
  ghost predicate ReadUpTo(order: seq<nat>, f: Fields, k: nat, behind: Behind, r: Outcome)
    requires k <= |order| && WellTyped(f) && AllTerminated(behind)
  {
    if HasProxy(order, f, k) then r == Bad(PROXYING_NOT_SUPPORTED_5_05)
    else
      && r.Good? && r.p.options == r.p.fields.Keys
      && (forall n :: n in r.p.fields <==> n in f && n in order[..k])
      && (forall n :: n in r.p.fields ==>
            Implemented(KindOf(n)) && r.p.fields[n] == Seen(KindOf(n), f[n], behind(n)))
  }

  lemma {:induction false} ReadAll(order: seq<nat>, f: Fields, k: nat, behind: Behind)
    requires k <= |order| && Increasing(order) && WellTyped(f) && AllTerminated(behind)
    ensures ReadUpTo(order, f, k, behind, ApplyAll(NOTHING, AllOptions(order, f, k, behind)))
  {
    if k > 0 {
      var before, more := AllOptions(order, f, k - 1, behind), OptionsOf(order[k - 1], f, behind);
      ReadAll(order, f, k - 1, behind);
      ApplySplit(NOTHING, before, more);
      var r := ApplyAll(NOTHING, before);
      if r.Bad? {
        BadStays(r.status, more);
        assert HasProxy(order, f, k - 1);
      } else {
        ReadOneMore(order, f, k, behind, r);
      }
    }
  }

  lemma ReadOneMore(order: seq<nat>, f: Fields, k: nat, behind: Behind, before: Outcome)
    requires 0 < k <= |order| && Increasing(order) && WellTyped(f) && AllTerminated(behind)
    requires before.Good? && ReadUpTo(order, f, k - 1, behind, before)
    ensures ReadUpTo(order, f, k, behind, ApplyAll(before, OptionsOf(order[k - 1], f, behind)))
  {
    var n := order[k - 1];
    if n in f {
      ApplyField(before.p, n, KindOf(n), f[n], behind(n));
      FieldRead(order, f, k, behind, before, ApplyAll(before, OptionsOf(n, f, behind)), KindOf(n));
    } else {
      FieldSkipped(order, f, k, behind, before);
      assert OptionsOf(n, f, behind) == [];
    }
  }

  lemma FieldRead(order: seq<nat>, f: Fields, k: nat, behind: Behind, before: Outcome, r: Outcome, kind: Kind)
    requires 0 < k <= |order| && Increasing(order) && WellTyped(f) && AllTerminated(behind)
    requires before.Good? && ReadUpTo(order, f, k - 1, behind, before)
    requires order[k - 1] in f && kind == KindOf(order[k - 1])
    requires var n := order[k - 1];
             r == if kind == ProxyKind then Bad(PROXYING_NOT_SUPPORTED_5_05)
                  else Good(Parsed(before.p.fields[n := Seen(kind, f[n], behind(n))], before.p.options + {n}))
    ensures ReadUpTo(order, f, k, behind, r)
  {
    assert forall i :: 0 <= i < k - 1 ==> order[i] != order[k - 1];
    assert order[..k] == order[..k - 1] + [order[k - 1]];
    assert HasProxy(order, f, k) <==> kind == ProxyKind;
  }

  lemma FieldSkipped(order: seq<nat>, f: Fields, k: nat, behind: Behind, before: Outcome)
    requires 0 < k <= |order| && WellTyped(f) && AllTerminated(behind) && order[k - 1] !in f
    requires before.Good? && ReadUpTo(order, f, k - 1, behind, before)
    ensures ReadUpTo(order, f, k, behind, before)
  {
    assert order[..k] == order[..k - 1] + [order[k - 1]];
    assert HasProxy(order, f, k) <==> HasProxy(order, f, k - 1);
  }

  lemma OrderIncreasing()
    ensures Increasing(ORDER) && forall n: nat :: KindOf(n) != UnknownKind <==> n in ORDER
  {
  }

  function MeantAll(f: Fields): Fields {
    map n | n in f :: Meant(f[n])
  }

  /** The receiver reads the fields that were set, and no others, if and only if every field
      arrives: none is a proxy option, block sizes are powers of two, and paths and queries
      have no separator in front and an even number of them at the end. */
  lemma RoundTripIff(f: Fields, behind: Behind)
    requires WellTyped(f) && AllTerminated(behind)
    ensures ApplyAll(NOTHING, AllOptions(ORDER, f, |ORDER|, behind)) == Good(Parsed(MeantAll(f), f.Keys))
            <==> forall n :: n in f ==> Arrives(KindOf(n), f[n])
  {
    OrderIncreasing();
    forall n | n in f ensures n in ORDER {
      assert InRange(KindOf(n), f[n]);
    }
    RoundTripFor(ORDER, f, behind);
  }

  lemma RoundTripFor(order: seq<nat>, f: Fields, behind: Behind)
    requires WellTyped(f) && AllTerminated(behind)
    requires Increasing(order) && forall n :: n in f ==> n in order
    ensures ApplyAll(NOTHING, AllOptions(order, f, |order|, behind)) == Good(Parsed(MeantAll(f), f.Keys))
            <==> forall n :: n in f ==> Arrives(KindOf(n), f[n])
  {
    ReadAll(order, f, |order|, behind);
    Judge(order, f, behind, ApplyAll(NOTHING, AllOptions(order, f, |order|, behind)));
  }

  lemma Judge(order: seq<nat>, f: Fields, behind: Behind, r: Outcome)
    requires WellTyped(f) && AllTerminated(behind) && ReadUpTo(order, f, |order|, behind, r)
    requires forall n :: n in f ==> n in order
    ensures r == Good(Parsed(MeantAll(f), f.Keys)) <==> forall n :: n in f ==> Arrives(KindOf(n), f[n])
  {
    assert order[..|order|] == order;
    if HasProxy(order, f, |order|) {
      var i :| 0 <= i < |order| && order[i] in f && KindOf(order[i]) == ProxyKind;
      assert !Arrives(KindOf(order[i]), f[order[i]]);
    } else {
      forall n | n in f ensures Seen(KindOf(n), f[n], behind(n)) == Meant(f[n]) <==> Arrives(KindOf(n), f[n]) {
        assert n in r.p.fields;
        SeenIffArrives(KindOf(n), f[n], behind(n));
      }
      assert MeantAll(f).Keys == f.Keys;
      if forall n :: n in f ==> Arrives(KindOf(n), f[n]) {
        assert r.p.fields == MeantAll(f);
      }
    }
  }
}
