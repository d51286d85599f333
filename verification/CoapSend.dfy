/** `coap_serialize_message` */
module CoapSend {
  import opened CoapOptions
  import opened CoapText
  import opened CoapFields
  import opened CoapMessage
  import opened CoapSerialize

  /** A message to be sent: type, code, message id, token, fields, payload. */
  datatype Message = Message(kind: nat, code: Byte, mid: nat, token: seq<Byte>, fields: Fields, payload: seq<Byte>)

  ghost predicate Sendable(m: Message) {
    m.kind < 4 && m.mid < 0x1_0000 && |m.token| <= COAP_TOKEN_LEN && WellTyped(m.fields)
  }

  /** The fixed header: version 1, type and token length in the first byte. */
  function FixedHeader(m: Message): seq<Byte>
    requires m.kind < 4 && m.mid < 0x1_0000 && |m.token| <= COAP_TOKEN_LEN
  {
    [64 + m.kind * 16 + |m.token|, m.code, m.mid / 256, m.mid % 256]
  }

  function OptionsIn(m: Message, behind: Behind): (opts: seq<Opt>)
    requires Sendable(m) && AllTerminated(behind)
    ensures Ordered(opts)
  {
    OrderIncreasing();
    AllOrdered(ORDER, m.fields, |ORDER|, behind);
    AllOptions(ORDER, m.fields, |ORDER|, behind)
  }

  /** Everything before the payload. */
  function HeaderBytes(m: Message, behind: Behind): seq<Byte>
    requires Sendable(m) && AllTerminated(behind)
  {
    FixedHeader(m) + m.token + Encode(OptionsIn(m, behind))
  }

  function PayloadBytes(payload: seq<Byte>): (s: seq<Byte>)
    ensures Ends(s)
  {
    if payload == [] then [] else [0xFF] + payload
  }

  /** The options of the first numbers come first. */
  lemma {:induction false} PrefixOfAll(order: seq<nat>, f: Fields, k: nat, n: nat, behind: Behind)
    requires k <= n <= |order| && WellTyped(f) && AllTerminated(behind)
    ensures AllOptions(order, f, k, behind) <= AllOptions(order, f, n, behind)
  {
    if k < n {
      PrefixOfAll(order, f, k, n - 1, behind);
    }
  }

  lemma PrefixSends(before: seq<Opt>, number: nat, values: seq<seq<Byte>>, all: seq<Opt>)
    requires before + Options(number, values) <= all
    ensures Sends(all, |before|, number, values)
    ensures values != [] ==> Previous(all, |before| + |values|) == number
  {
    var next := before + Options(number, values);
    forall i | 0 <= i < |values| ensures all[|before| + i] == Opt(number, values[i]) {
      assert all[|before| + i] == next[|before| + i] == Options(number, values)[i];
    }
    assert values != [] ==> all[|before| + (|values| - 1)] == Opt(number, values[|values| - 1]);
  }

  /** The number of options of the first `k` numbers. */
  ghost function Count(order: seq<nat>, f: Fields, k: nat, behind: Behind): nat
    requires k <= |order| && WellTyped(f) && AllTerminated(behind)
  {
    |AllOptions(order, f, k, behind)|
  }

  /** What the next number adds to the list. */
  lemma NumberSends(order: seq<nat>, f: Fields, k: nat, behind: Behind, all: seq<Opt>, n: nat, values: seq<seq<Byte>>)
    requires k < |order| && WellTyped(f) && AllTerminated(behind)
    requires all == AllOptions(order, f, |order|, behind) && n == Count(order, f, k, behind)
    requires values == ValuesSent(order[k], f, behind)
    ensures Sends(all, n, order[k], values) && Count(order, f, k + 1, behind) == n + |values|
    ensures order[k] in f ==> Previous(all, n + |values|) == order[k]
  {
    var before := AllOptions(order, f, k, behind);
    PrefixOfAll(order, f, k + 1, |order|, behind);
    assert AllOptions(order, f, k + 1, behind) == before + Options(order[k], values);
    PrefixSends(before, order[k], values, all);
    if order[k] in f {
      ValuesShort(KindOf(order[k]), f[order[k]], behind(order[k]));
    }
  }

  /** The `k`-th number sends its values as the options counts[k]..counts[k + 1]. */
  ghost predicate NumberLine(order: seq<nat>, f: Fields, behind: Behind, all: seq<Opt>, counts: seq<nat>, k: nat)
    requires k < |order| && |counts| == |order| + 1 && WellTyped(f) && AllTerminated(behind)
  {
    var values := ValuesSent(order[k], f, behind);
    && Sends(all, counts[k], order[k], values) && counts[k + 1] == counts[k] + |values|
    && (order[k] in f ==> Previous(all, counts[k + 1]) == order[k])
  }

  ghost predicate Numbered(order: seq<nat>, f: Fields, behind: Behind, all: seq<Opt>, counts: seq<nat>)
    requires WellTyped(f) && AllTerminated(behind)
  {
    && |counts| == |order| + 1 && counts[0] == 0 && counts[|order|] == |all|
    && forall k :: 0 <= k < |order| ==> NumberLine(order, f, behind, all, counts, k)
  }

  lemma LineAt(order: seq<nat>, f: Fields, behind: Behind, all: seq<Opt>, counts: seq<nat>, k: nat)
    requires k < |order| && |counts| == |order| + 1 && WellTyped(f) && AllTerminated(behind)
    requires all == AllOptions(order, f, |order|, behind)
    requires counts[k] == Count(order, f, k, behind) && counts[k + 1] == Count(order, f, k + 1, behind)
    ensures NumberLine(order, f, behind, all, counts, k)
  {
    var n, next, values := counts[k], counts[k + 1], ValuesSent(order[k], f, behind);
    NumberSends(order, f, k, behind, all, n, values);
    assert next == n + |values|;
  }

  lemma CountsOf(order: seq<nat>, f: Fields, behind: Behind, all: seq<Opt>) returns (counts: seq<nat>)
    requires WellTyped(f) && AllTerminated(behind) && all == AllOptions(order, f, |order|, behind)
    ensures Numbered(order, f, behind, all, counts)
  {
    counts := seq(|order| + 1, k requires 0 <= k <= |order| => Count(order, f, k, behind));
    forall k | 0 <= k < |order| ensures NumberLine(order, f, behind, all, counts, k) {
      LineAt(order, f, behind, all, counts, k);
    }
  }

  /** `coap_log_2` */
  method CoapLog2(value: nat) returns (result: nat)
    ensures result == Log2(value)
  {
    result := 0;
    var v := value;
    while true
      invariant Log2(value) == result + Log2(v)
      decreases v
    {
      v := v / 2;
      result := result + 1;
      if v == 0 {
        break;
      }
    }
    result := result - 1;
  }

  /** One of the COAP_SERIALIZE macros, chosen by the kind of the option. */
  method SerializeField(number: nat, v: Value, after: seq<Byte>, current: nat, buffer: array<Byte>, at: nat,
                        ghost pre: seq<seq<Byte>>, ghost all: seq<Opt>, ghost n: nat, ghost values: seq<seq<Byte>>)
      returns (next: nat)
    requires InRange(KindOf(number), v) && |after| == 2 && values == Values(KindOf(number), v, after)
    requires Holds(buffer, at, pre, all, n) && current == Previous(all, n)
    requires Sends(all, n, number, values)
    modifies buffer
    ensures Holds(buffer, next, pre, all, n + |values|)
  {
    var kind := KindOf(number);
    assert !IsSplit(kind) ==> |values| == 1 && all[n + 0] == Opt(number, values[0]);
    match v {
      case Number(value) =>
        next := SerializeInt(number, current, buffer, at, value, pre, all, n);
      case Flag =>
        next := SerializeInt(number, current, buffer, at, 0, pre, all, n);
      case Opaque(bytes) =>
        next := SerializeBytes(number, current, buffer, at, bytes, pre, all, n);
      case Text(text) =>
        if IsSplit(kind) {
          next := SerializeSplit(number, current, buffer, at, text, after, kind.separator, pre, all, n);
        } else {
          next := SerializeBytes(number, current, buffer, at, text, pre, all, n);
        }
      case Block(num, more, size, _) =>
        BlockRoundTrip(num, more, size);
        var exponent := CoapLog2(size / 16);
        var block := num * 16 + (if more then 8 else 0) + exponent % 16;
        next := SerializeInt(number, current, buffer, at, block, pre, all, n);
    }
  }

  /** One line of the list of macros: the option, if the field is set. */
  method SerializeNumber(number: nat, f: Fields, behind: Behind, current: nat, buffer: array<Byte>, at: nat,
                         ghost pre: seq<seq<Byte>>, ghost all: seq<Opt>, ghost n: nat, ghost values: seq<seq<Byte>>)
      returns (next: nat, last: nat)
    requires WellTyped(f) && AllTerminated(behind) && values == ValuesSent(number, f, behind)
    requires Holds(buffer, at, pre, all, n) && current == Previous(all, n)
    requires Sends(all, n, number, values) && (number in f ==> Previous(all, n + |values|) == number)
    modifies buffer
    ensures Holds(buffer, next, pre, all, n + |values|) && last == Previous(all, n + |values|)
  {
    next, last := at, current;
    if number in f {
      next := SerializeField(number, f[number], behind(number), current, buffer, next, pre, all, n, values);
      last := number;
    }
  }

  /** The options, in the order of their numbers. */
  method SerializeOptions(order: seq<nat>, f: Fields, behind: Behind, buffer: array<Byte>, at: nat,
                          ghost pre: seq<seq<Byte>>, ghost all: seq<Opt>, ghost counts: seq<nat>) returns (next: nat)
    requires WellTyped(f) && AllTerminated(behind) && Numbered(order, f, behind, all, counts)
    requires Holds(buffer, at, pre, all, 0)
    modifies buffer
    ensures Holds(buffer, next, pre, all, |all|)
  {
    var current := 0;
    next := at;
    for k := 0 to |order|
      invariant Holds(buffer, next, pre, all, counts[k]) && current == Previous(all, counts[k])
    {
      var number := order[k];
      assert NumberLine(order, f, behind, all, counts, k);
      ghost var values := ValuesSent(number, f, behind);
      next, current := SerializeNumber(number, f, behind, current, buffer, next, pre, all, counts[k], values);
    }
  }

  /** `coap_serialize_message`. The buffer must have room for all options and the payload: the
      size of the header is looked at only afterwards. `behind` gives the memory behind
      each string. */
  method Serialize(m: Message, behind: Behind, buffer: array<Byte>) returns (length: nat)
    requires Sendable(m) && AllTerminated(behind)
    requires |HeaderBytes(m, behind)| + |PayloadBytes(m.payload)| <= buffer.Length
    modifies buffer
    ensures if m.code == 0 then length == 4 && buffer[..4] == FixedHeader(m)
            else if |HeaderBytes(m, behind)| <= COAP_MAX_HEADER_SIZE
            then length <= buffer.Length && buffer[..length] == HeaderBytes(m, behind) + PayloadBytes(m.payload)
            else length == 0
  {
    ghost var all := OptionsIn(m, behind);
    ghost var head := FixedHeader(m) + m.token;
    ghost var pre := ScriptOf(head, all, buffer.Length);
    var at := PutAll(buffer, 0, FixedHeader(m));
    if m.code == 0 {
      return 4;
    }
    at := PutAll(buffer, at, m.token);
    ghost var counts := CountsOf(ORDER, m.fields, behind, all);
    at := SerializeOptions(ORDER, m.fields, behind, buffer, at, pre, all, counts);
    if at > COAP_MAX_HEADER_SIZE {
      return 0;
    }
    length := PutPayload(buffer, at, m.payload);
  }

  /** The payload behind its marker. */
  method PutPayload(buffer: array<Byte>, at: nat, payload: seq<Byte>) returns (next: nat)
    requires at + |PayloadBytes(payload)| <= buffer.Length
    modifies buffer
    ensures next <= buffer.Length && buffer[..next] == old(buffer[..at]) + PayloadBytes(payload)
  {
    next := at;
    if payload != [] {
      next := Put(buffer, next, 0xFF);
    }
    ghost var marked := buffer[..next];
    next := PutAll(buffer, next, payload);
    assert buffer[..next] == marked + payload;
  }
}
