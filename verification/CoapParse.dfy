/** `coap_parse_message`: options are read from the receive buffer, and repeated ones are
    merged in place inside of it. */
module CoapParse {
  import opened Common
  import opened CoapOptions
  import opened CoapText
  import opened CoapFields
  import opened CoapMessage

  const REST_MAX_CHUNK_SIZE: nat := 64

  /** A string in the buffer. */
  datatype View = View(start: nat, length: nat)
  {
    function End(): nat { start + length }
  }

  type Texts = map<nat, View>

  function StringAt(d: seq<Byte>, v: View): seq<Byte>
    requires v.End() <= |d|
  {
    d[v.start..v.End()]
  }

  /** A string lies before `limit`, and before the strings of higher numbers. */
  ghost predicate Placed(texts: Texts, n: nat, limit: nat) {
    n in texts ==> texts[n].End() <= limit && forall m :: m in texts && n < m ==> texts[n].End() <= texts[m].start
  }

  /** The strings lie one behind the other, in the order of their numbers, before `limit`. */
  ghost predicate Laid(texts: Texts, limit: nat) {
    forall n: nat :: Placed(texts, n, limit)
  }

  /** A field holds what has been read. */
  predicate FieldShown(fields: Fields, values: Fields, texts: Texts, d: seq<Byte>, n: nat) {
    && (n in fields <==> n in values || n in texts)
    && (n in values ==> n !in texts && !values[n].Text? && fields[n] == values[n])
    && (n in texts ==> texts[n].End() <= |d| && fields[n] == Text(StringAt(d, texts[n])))
  }

  ghost predicate Shown(fields: Fields, values: Fields, texts: Texts, d: seq<Byte>) {
    forall n: nat :: FieldShown(fields, values, texts, d, n)
  }

  /** The string that an option is merged onto. */
  lemma StringOf(fields: Fields, values: Fields, texts: Texts, d: seq<Byte>, limit: nat, number: nat)
    requires Shown(fields, values, texts, d) && Laid(texts, limit) && number !in values
    ensures number in texts ==> texts[number].End() <= limit && texts[number].End() <= |d|
    ensures number in texts ==> StringAt(d, texts[number]) == TextOf(fields, number)
    ensures number !in texts ==> TextOf(fields, number) == []
  {
    assert FieldShown(fields, values, texts, d, number) && Placed(texts, number, limit);
  }

  /** A new view for one string leaves the others as they are, when the buffer has
      changed only behind them. */
  lemma TextStored(fields: Fields, values: Fields, texts: Texts, d: seq<Byte>, e: seq<Byte>, limit: nat, number: nat,
                   r: View, top: nat)
    requires Shown(fields, values, texts, d) && Laid(texts, limit) && number !in values && |e| == |d|
             && r.End() <= |e| && r.End() <= top
    requires forall n :: n in texts ==> n <= number
    requires if number in texts then r.start >= texts[number].start else r.start >= limit
    requires d[..r.start] == e[..r.start]
    ensures Shown(fields[number := Text(StringAt(e, r))], values, texts[number := r], e)
    ensures Laid(texts[number := r], top)
  {
    var now, after := fields[number := Text(StringAt(e, r))], texts[number := r];
    forall n: nat ensures FieldShown(now, values, after, e, n) {
      assert FieldShown(fields, values, texts, d, n) && Placed(texts, n, limit);
      if n in texts && n != number {
        SameString(d, e, r.start, texts[n]);
      }
    }
    forall n: nat ensures Placed(after, n, top) {
      assert Placed(texts, n, limit);
    }
  }

  lemma SameString(d: seq<Byte>, e: seq<Byte>, n: nat, v: View)
    requires v.End() <= n <= |d| && n <= |e| && d[..n] == e[..n]
    ensures StringAt(d, v) == StringAt(e, v)
  {
    assert StringAt(d, v) == d[..n][v.start..v.End()] && StringAt(e, v) == e[..n][v.start..v.End()];
  }

  lemma ValueStored(fields: Fields, values: Fields, texts: Texts, d: seq<Byte>, number: nat, v: Value)
    requires Shown(fields, values, texts, d) && number !in texts && !v.Text?
    ensures Shown(fields[number := v], values[number := v], texts, d)
  {
    var now, after := fields[number := v], values[number := v];
    forall n: nat ensures FieldShown(now, after, texts, d, n) {
      assert FieldShown(fields, values, texts, d, n);
    }
  }

  lemma LaidHigher(texts: Texts, limit: nat, top: nat)
    requires Laid(texts, limit) && limit <= top
    ensures Laid(texts, top)
  {
    forall n: nat ensures Placed(texts, n, top) {
      assert Placed(texts, n, limit);
    }
  }

  /** The buffer after a merge: the string, the separator, the value. */
  lemma Merged(d: seq<Byte>, e: seq<Byte>, dst: View, option: nat, length: nat, sep: Byte)
    requires dst.End() < option && option + length <= |d| == |e|
    requires e[..dst.End() + 1] == d[..dst.End()] + [sep]
    requires e[dst.End() + 1..dst.End() + 1 + length] == d[option..option + length]
    requires e[dst.End() + 1 + length..] == d[dst.End() + 1 + length..]
    ensures e[dst.start..dst.End() + 1 + length] == StringAt(d, dst) + [sep] + d[option..option + length]
    ensures e[..dst.start] == d[..dst.start] && e[option + length..] == d[option + length..]
  {
    assert e[dst.start..dst.End() + 1] == e[..dst.End() + 1][dst.start..];
    assert e[dst.start..dst.End() + 1 + length]
           == e[dst.start..dst.End() + 1] + e[dst.End() + 1..dst.End() + 1 + length];
    assert e[..dst.start] == e[..dst.End() + 1][..dst.start];
    assert e[option + length..] == e[dst.End() + 1 + length..][option - dst.End() - 1..];
    assert d[option + length..] == d[dst.End() + 1 + length..][option - dst.End() - 1..];
  }

  lemma ValueAndRest(d: seq<Byte>, at: nat, end: nat, value: seq<Byte>, rest: seq<Byte>)
    requires at <= end <= |d| && d[at..end] == value + rest
    ensures at + |value| <= end && d[at..at + |value|] == value && d[at + |value|..end] == rest
  {
    assert value == (value + rest)[..|value|] && rest == (value + rest)[|value|..];
    assert d[at..at + |value|] == d[at..end][..|value|] && d[at + |value|..end] == d[at..end][|value|..];
  }

  lemma SameEnd(d: seq<Byte>, e: seq<Byte>, n: nat, end: nat)
    requires n <= end <= |d| == |e| && d[n..] == e[n..]
    ensures d[n..end] == e[n..end] && d[end..] == e[end..]
  {
    assert d[n..end] == d[n..][..end - n] && e[n..end] == e[n..][..end - n];
    assert d[end..] == d[n..][end - n..] && e[end..] == e[n..][end - n..];
  }

  function Word(high: Byte, low: Byte): nat {
    var h: nat := high;
    h * 256 + low
  }

  /** Option `n` stands in front of the rest of the message. */
  predicate RestLine(all: seq<Opt>, rests: seq<seq<Byte>>, n: nat)
    requires n < |all| && |rests| == |all| + 1
  {
    && CoapOptions.Fits(all, n)
    && rests[n] == Header(all[n].number - Previous(all, n), |all[n].value|) + all[n].value + rests[n + 1]
    && rests[n] != [] && rests[n][0] < 0xF0
  }

  /** What option `n` makes of what has been read before it. */
  predicate OutcomeLine(all: seq<Opt>, outcomes: seq<Outcome>, n: nat)
    requires n < |all| && |outcomes| == |all| + 1
  {
    && (outcomes[n].Good? ==> outcomes[n + 1] == Apply(outcomes[n].p, all[n]))
    && (outcomes[n + 1].Bad? ==> outcomes[|all|] == outcomes[n + 1])
  }

  /** An option list with, for every option, the bytes from there to the end of the message, and
      what has been read before it. */
  datatype Script = Script(all: seq<Opt>, rests: seq<seq<Byte>>, outcomes: seq<Outcome>)
  {
    ghost predicate Valid() {
      && Ordered(all) && |rests| == |outcomes| == |all| + 1
      && outcomes[0] == NOTHING && Ends(rests[|all|])
      && forall n :: 0 <= n < |all| ==> Line(n)
    }

    predicate Line(n: nat)
      requires n < |all| && |rests| == |outcomes| == |all| + 1
    {
      RestLine(all, rests, n) && OutcomeLine(all, outcomes, n)
    }

    lemma NotAtEnd(n: nat)
      requires Valid() && n <= |all| && !Ends(rests[n])
      ensures n < |all|
    {
    }

    lemma AtEnd(n: nat)
      requires Valid() && n <= |all| && Ends(rests[n])
      ensures n == |all|
    {
      assert n < |all| ==> Line(n);
    }
  }

  lemma RestStep(all: seq<Opt>, tail: seq<Byte>, n: nat)
    requires Ordered(all) && n < |all|
    ensures CoapOptions.Fits(all, n)
    ensures var rest := Flatten(Chunks(all), n) + tail;
            && rest == Header(all[n].number - Previous(all, n), |all[n].value|) + all[n].value
               + (Flatten(Chunks(all), n + 1) + tail)
            && rest != [] && rest[0] < 0xF0
  {
    ChunkStarts(all, n);
    Assoc(Chunks(all)[n], Flatten(Chunks(all), n + 1), tail);
  }

  lemma ChunkStarts(all: seq<Opt>, n: nat)
    requires Ordered(all) && n < |all|
    ensures CoapOptions.Fits(all, n)
    ensures Chunks(all)[n] == Header(all[n].number - Previous(all, n), |all[n].value|) + all[n].value
    ensures Chunks(all)[n] != [] && Chunks(all)[n][0] < 0xF0
  {
    assert CoapOptions.Fits(all, n);
  }

  lemma OutcomeStep(all: seq<Opt>, n: nat)
    requires n < |all|
    ensures var before, after := ApplyAll(NOTHING, all[..n]), ApplyAll(NOTHING, all[..n + 1]);
            && (before.Good? ==> after == Apply(before.p, all[n]))
            && (after.Bad? ==> ApplyAll(NOTHING, all) == after)
  {
    var before, after := ApplyAll(NOTHING, all[..n]), ApplyAll(NOTHING, all[..n + 1]);
    if before.Good? {
      ApplyNext(all, n, before.p);
    }
    if after.Bad? {
      BadAt(all, n + 1, after.status);
    }
  }

  lemma RestsOf(all: seq<Opt>, tail: seq<Byte>) returns (rests: seq<seq<Byte>>)
    requires Ordered(all)
    ensures |rests| == |all| + 1 && rests[0] == Encode(all) + tail && rests[|all|] == tail
    ensures forall n :: 0 <= n < |all| ==> RestLine(all, rests, n)
  {
    rests := seq(|all| + 1, n requires 0 <= n <= |all| => Flatten(Chunks(all), n) + tail);
    assert [] + tail == tail;
    forall n | 0 <= n < |all| ensures RestLine(all, rests, n) {
      RestStep(all, tail, n);
    }
  }

  lemma OutcomesOf(all: seq<Opt>) returns (outcomes: seq<Outcome>)
    ensures |outcomes| == |all| + 1 && outcomes[0] == NOTHING && outcomes[|all|] == ApplyAll(NOTHING, all)
    ensures forall n :: 0 <= n < |all| ==> OutcomeLine(all, outcomes, n)
  {
    outcomes := seq(|all| + 1, n requires 0 <= n <= |all| => ApplyAll(NOTHING, all[..n]));
    assert all[..|all|] == all && all[..0] == [];
    forall n | 0 <= n < |all| ensures OutcomeLine(all, outcomes, n) {
      OutcomeStep(all, n);
    }
  }

  lemma ScriptOf(all: seq<Opt>, tail: seq<Byte>) returns (s: Script)
    requires Ordered(all) && Ends(tail)
    ensures s.Valid() && s.all == all && s.rests[0] == Encode(all) + tail && s.rests[|all|] == tail
    ensures s.outcomes[|all|] == ApplyAll(NOTHING, all)
  {
    var rests := RestsOf(all, tail);
    var outcomes := OutcomesOf(all);
    s := Script(all, rests, outcomes);
    forall n | 0 <= n < |all| ensures s.Line(n) {
      assert RestLine(all, rests, n) && OutcomeLine(all, outcomes, n);
    }
  }

  /** The parts of a received message; strings are views into its buffer. */
  class Receiver {
    const data: array<Byte>
    var kind: nat
    var code: Byte
    var mid: nat
    var token: seq<Byte>
    var values: map<nat, Value>
    var texts: map<nat, View>
    var options: set<nat>
    var payload: View

    constructor (data: array<Byte>)
      ensures this.data == data
    {
      this.data := data;
      kind, code, mid, token, values, texts, options, payload := 0, 0, 0, [], map[], map[], {}, View(0, 0);
    }

    /** The bytes of a view. */
    ghost function Bytes(v: View): seq<Byte>
      requires v.End() <= data.Length
      reads data
    {
      data[v.start..v.End()]
    }

    /** The fields and the buffer hold what has been read. */
    ghost predicate Shows(p: Parsed)
      reads this`values, this`texts, this`options, data
    {
      options == p.options && Shown(p.fields, values, texts, data[..])
    }

    /** `memmove` to a lower address. */
    method MoveDown(to: nat, from: nat, length: nat)
      requires to <= from && from + length <= data.Length
      modifies data
      ensures data[to..to + length] == old(data[from..from + length])
      ensures data[..to] == old(data[..to]) && data[to + length..] == old(data[to + length..])
    {
      ghost var value := data[from..from + length];
      for i := 0 to length
        invariant data[..to] == old(data[..to]) && data[to + i..] == old(data[to + i..])
        invariant data[to..to + i] == value[..i]
      {
        assert value[i] == old(data[from + i]);
        assert data[from + i] == data[to + i..][from - to] == old(data[to + i..])[from - to];
        data[to + i] := data[from + i];
        assert data[to + i + 1..] == data[to + i..][1..] == old(data[to + i..])[1..];
      }
      assert value[..length] == value;
    }

    /** `coap_merge_multi_option`. Nothing before the string and nothing behind the option
        is changed. */
    method MergeMulti(dst: View, option: nat, length: nat, sep: Byte) returns (r: View)
      requires option + length <= data.Length
               && (if dst.length > 0 then dst.End() < option else dst.End() <= data.Length)
      modifies data
      ensures r.End() <= option + length && r.start == if dst.length > 0 then dst.start else option
      ensures Bytes(r) == Merge(old(Bytes(dst)), old(data[option..option + length]), sep)
      ensures data[..r.start] == old(data[..])[..r.start] && data[option + length..] == old(data[option + length..])
    {
      if dst.length > 0 {
        ghost var d := data[..];
        data[dst.End()] := sep;
        assert data[option..option + length] == d[option..option + length] && data[..dst.End()] == d[..dst.End()];
        MoveDown(dst.End() + 1, option, length);
        r := View(dst.start, dst.length + 1 + length);
        Merged(d, data[..], dst, option, length, sep);
      } else {
        r := View(option, length);
      }
    }

    // ----- reading an option header -----

    /** The bytes from a position to the end of the message. */
    ghost function From(at: nat, end: nat): seq<Byte>
      requires at <= end <= data.Length
      reads data
    {
      data[at..end]
    }

    /** One turn of the loop that reads the extension bytes of the delta and the length. */
    method ReadExtension(nibble: nat, at: nat, end: nat, ghost v: nat, ghost rest: seq<Byte>)
        returns (x: nat, next: nat)
      requires at <= end <= data.Length && v <= MAX_EXTENDED && nibble == Nibble(v)
               && From(at, end) == Extension(v) + rest
      ensures x == v && at <= next <= end && From(next, end) == rest
    {
      ghost var bytes := From(at, end);
      x, next := nibble, at;
      if x == 13 {
        assert data[at] == bytes[0];
        x := x + data[next];
        next := next + 1;
      } else if x == 14 {
        assert data[at] == bytes[0] && data[at + 1] == bytes[1];
        var high: nat := data[next];
        x := x + 255 + high * 256 + data[next + 1];
        next := next + 2;
      }
      assert bytes[|Extension(v)|..] == rest;
    }

    method ReadHeader(at: nat, end: nat, ghost d: nat, ghost l: nat, ghost rest: seq<Byte>)
        returns (delta: nat, length: nat, next: nat)
      requires at <= end <= data.Length && d <= MAX_EXTENDED && l <= MAX_EXTENDED
               && From(at, end) == Header(d, l) + rest
      ensures delta == d && length == l && at < next <= end && From(next, end) == rest
    {
      ghost var first := [Nibble(d) * 16 + Nibble(l)];
      Assoc(first + Extension(d), Extension(l), rest);
      Assoc(first, Extension(d), Extension(l) + rest);
      assert data[at] == From(at, end)[0] && From(at + 1, end) == From(at, end)[1..];
      delta, length := data[at] / 16, data[at] % 16;
      next := at + 1;
      delta, next := ReadExtension(delta, next, end, d, Extension(l) + rest);
      length, next := ReadExtension(length, next, end, l, rest);
    }

    // ----- one option -----

    /** `coap_parse_int_option` */
    method ParseIntOption(at: nat, length: nat) returns (v: nat)
      requires at + length <= data.Length
      ensures v == ParseInt(data[at..at + length])
    {
      v := 0;
      ghost var bytes := data[at..at + length];
      for i := 0 to length
        invariant v == ParseInt(bytes[..i])
      {
        assert bytes[..i + 1][..i] == bytes[..i];
        v := (v * 256 + data[at + i]) % WORD;
      }
      assert bytes[..length] == bytes;
    }

    /** A string option; `coap_merge_multi_option` for those that can be repeated. No string
        has a higher number. */
    method StoreText(number: nat, sep: Byte, at: nat, length: nat, ghost p: Parsed, ghost start: nat)
      requires start < at && at + length <= data.Length && Shows(p) && Laid(texts, start)
      requires number !in values && forall n :: n in texts ==> n <= number
      modifies this`texts, this`options, data
      ensures var value := old(data[at..at + length]);
              var t := if sep == 0 then value else Merge(TextOf(p.fields, number), value, sep);
              Shows(Parsed(p.fields[number := Text(t)], p.options + {number}))
      ensures Laid(texts, at + length) && texts.Keys == old(texts.Keys) + {number}
      ensures data[at + length..] == old(data[at + length..])
    {
      ghost var d := data[..];
      StringOf(p.fields, values, texts, d, start, number);
      var dst := if number in texts && sep != 0 then texts[number] else View(at, 0);
      var r := MergeMulti(dst, at, length, sep);
      TextStored(p.fields, values, texts, d, data[..], start, number, r, at + length);
      texts := texts[number := r];
      options := options + {number};
    }

    /** A field that is not a string. */
    method StoreValue(number: nat, v: Value, ghost p: Parsed)
      requires Shows(p) && number !in texts && !v.Text?
      modifies this`values, this`options
      ensures Shows(Parsed(p.fields[number := v], p.options + {number}))
      ensures values.Keys == old(values.Keys) + {number}
    {
      ValueStored(p.fields, values, texts, data[..], number, v);
      values := values[number := v];
      options := options + {number};
    }

    /** The numbers of strings, and of the other fields, are of the right kinds and do not
        exceed the last number. */
    ghost predicate Kinds(last: nat)
      reads this`values, this`texts
    {
      && (forall n :: n in texts ==> n <= last && KindOf(n).TextKind?)
      && (forall n :: n in values ==> n <= last && !KindOf(n).TextKind?)
    }

    /** The `switch` of `coap_parse_message`, for an option whose value is at `at`. */
    method StoreOption(number: nat, at: nat, length: nat, ghost p: Parsed, ghost start: nat, ghost last: nat)
        returns (status: Status)
      requires start < at && at + length <= data.Length && Shows(p) && Laid(texts, start) && Kinds(last)
               && last <= number
      modifies this`values, this`texts, this`options, data
      ensures var r := Apply(p, Opt(number, old(data[at..at + length])));
              if r.Good? then status == NO_ERROR && Shows(r.p) && Laid(texts, at + length) && Kinds(number)
              else status == r.status != NO_ERROR
      ensures data[at + length..] == old(data[at + length..])
    {
      var kind := KindOf(number);
      status := NO_ERROR;
      LaidHigher(texts, start, at + length);
      match kind {
        case TextKind(sep) =>
          StoreText(number, sep, at, length, p, start);
        case ProxyKind =>
          options := options + {number};
          status := PROXYING_NOT_SUPPORTED_5_05;
        case UnknownKind =>
          options := options + {number};
          if number % 2 == 1 {
            status := BAD_OPTION_4_02;
          }
        case _ =>
          StoreSimple(number, at, length, p);
      }
    }

    /** The cases of the `switch` that store an integer, a flag or bytes. */
    method StoreSimple(number: nat, at: nat, length: nat, ghost p: Parsed)
      requires at + length <= data.Length && Shows(p) && number !in texts
      requires !KindOf(number).TextKind? && !KindOf(number).ProxyKind? && !KindOf(number).UnknownKind?
      modifies this`values, this`options
      ensures var r := Apply(p, Opt(number, data[at..at + length])); r.Good? && Shows(r.p)
      ensures values.Keys == old(values.Keys) + {number}
    {
      var v := Flag;
      match KindOf(number) {
        case Number32Kind =>
          var x := ParseIntOption(at, length);
          v := Number(x);
        case Number16Kind =>
          var x := ParseIntOption(at, length);
          v := Number(x % 0x1_0000);
        case OpaqueKind =>
          var bytes := data[at..at + Min(COAP_ETAG_LEN, length)];
          assert bytes == CoapMessage.Cut(data[at..at + length]);
          v := Opaque(bytes);
        case BlockKind =>
          var x := ParseIntOption(at, length);
          v := BlockOf(x);
        case _ =>
      }
      StoreValue(number, v, p);
    }

    // ----- the message -----

    /** What has been read is in place: fields in the structure, strings in the buffer. */
    ghost predicate Stored(p: Parsed, limit: nat, last: nat)
      reads this`values, this`texts, this`options, data
    {
      Shows(p) && Laid(texts, limit) && Kinds(last)
    }

    /** The loop stands before option `n`, and the rest of the message is as it was sent. */
    ghost predicate Before(s: Script, n: nat, at: nat, end: nat)
      reads this`values, this`texts, this`options, data
    {
      && s.Valid() && n <= |s.all| && at <= end <= data.Length && From(at, end) == s.rests[n]
      && s.outcomes[n].Good? && Stored(s.outcomes[n].p, at, Previous(s.all, n))
    }

    /** The header of an option: its number, and where its value is. */
    method ReadNumber(at: nat, end: nat, current: nat, ghost s: Script, ghost n: nat)
        returns (number: nat, value: nat, length: nat)
      requires s.Valid() && n < |s.all| && at <= end <= data.Length && current == Previous(s.all, n)
               && From(at, end) == s.rests[n]
      ensures at < value && value + length <= end
      ensures Opt(number, data[value..value + length]) == s.all[n] && From(value + length, end) == s.rests[n + 1]
    {
      ghost var o := s.all[n];
      assert s.Line(n) && CoapOptions.Fits(s.all, n);
      Assoc(Header(o.number - Previous(s.all, n), |o.value|), o.value, s.rests[n + 1]);
      var delta;
      delta, length, value := ReadHeader(at, end, o.number - Previous(s.all, n), |o.value|, o.value + s.rests[n + 1]);
      number := current + delta;
      ValueAndRest(data[..], value, end, o.value, s.rests[n + 1]);
    }

    /** One turn of the loop: an option header, and the option. */
    method ReadOption(at: nat, end: nat, current: nat, ghost s: Script, ghost n: nat)
        returns (status: Status, next: nat, number: nat)
      requires Before(s, n, at, end) && n < |s.all| && current == Previous(s.all, n)
      modifies this`values, this`texts, this`options, data
      ensures if s.outcomes[n + 1].Good? then status == NO_ERROR && Before(s, n + 1, next, end)
              && number == Previous(s.all, n + 1)
              else status == s.outcomes[n + 1].status != NO_ERROR
      ensures data[end..] == old(data[end..])
    {
      var value, length;
      assert s.Line(n) && CoapOptions.Fits(s.all, n);
      number, value, length := ReadNumber(at, end, current, s, n);
      next := value + length;
      ghost var d := data[..];
      status := StoreOption(number, value, length, s.outcomes[n].p, at, current);
      SameEnd(d, data[..], next, end);
    }

    /** The loop over the options, up to the payload or the end of the message. */
    method ReadOptions(start: nat, end: nat, ghost s: Script) returns (status: Status, at: nat)
      requires Before(s, 0, start, end)
      modifies this`values, this`texts, this`options, data
      ensures if s.outcomes[|s.all|].Good? then status == NO_ERROR && Before(s, |s.all|, at, end)
              else status == s.outcomes[|s.all|].status != NO_ERROR
      ensures data[end..] == old(data[end..])
    {
      at := start;
      var number := 0;
      ghost var n := 0;
      while at < end && data[at] < 0xF0
        invariant Before(s, n, at, end) && number == Previous(s.all, n)
        invariant data[end..] == old(data[end..])
        decreases |s.all| - n
      {
        assert From(at, end)[0] == data[at];
        s.NotAtEnd(n);
        assert s.Line(n);
        status, at, number := ReadOption(at, end, number, s, n);
        if status != NO_ERROR {
          return;
        }
        n := n + 1;
      }
      assert at < end ==> From(at, end)[0] == data[at];
      s.AtEnd(n);
      status := NO_ERROR;
    }

    /** `coap_parse_message`, of a message of `length` bytes: fixed header, token, options and,
        behind a marker, the payload. The byte after the payload is overwritten. */
    method Parse(length: nat, ghost head: seq<Byte>, ghost all: seq<Opt>, ghost tail: seq<Byte>)
        returns (status: Status)
      requires length < data.Length && |head| == 4 && Ordered(all) && Ends(tail)
      requires exists t: seq<Byte> ::
                 |t| == Min(COAP_TOKEN_LEN, head[0] % 16) && data[..length] == head + t + (Encode(all) + tail)
      modifies this, data
      ensures kind == head[0] / 16 % 4 && code == head[1] && mid == Word(head[2], head[3])
      ensures head[0] / 64 != 1 ==> status == BAD_REQUEST_4_00
      ensures head[0] / 64 == 1 ==>
                && |token| == Min(COAP_TOKEN_LEN, head[0] % 16)
                   && old(data[..length]) == head + token + (Encode(all) + tail)
                && var r := ApplyAll(NOTHING, all);
                   if r.Good? then status == NO_ERROR && Shows(r.p) && PayloadIs(tail)
                       else status == r.status != NO_ERROR
    {
      ghost var t: seq<Byte> :| |t| == Min(COAP_TOKEN_LEN, head[0] % 16)
          && data[..length] == head + t + (Encode(all) + tail);
      HeadAndRest(data[..], length, head, t, Encode(all) + tail);
      values, texts, options, token, payload := map[], map[], {}, [], View(0, 0);
      kind := data[0] / 16 % 4;
      var tokenLength := Min(COAP_TOKEN_LEN, data[0] % 16);
      code := data[1];
      mid := Word(data[2], data[3]);
      if data[0] / 64 != 1 {
        return BAD_REQUEST_4_00;
      }
      token := data[4..4 + tokenLength];
      status := ReadRest(4 + tokenLength, length, all, tail);
    }

    /** What stands behind the token: options and payload. */
    method ReadRest(start: nat, end: nat, ghost all: seq<Opt>, ghost tail: seq<Byte>) returns (status: Status)
      requires start <= end < data.Length && Ordered(all) && Ends(tail) && From(start, end) == Encode(all) + tail
      requires values == map[] && texts == map[] && options == {} && payload == View(0, 0)
      modifies this`values, this`texts, this`options, this`payload, data
      ensures var r := ApplyAll(NOTHING, all);
              if r.Good? then status == NO_ERROR && Shows(r.p) && PayloadIs(tail) else status == r.status != NO_ERROR
    {
      var at;
      ghost var s := ScriptOf(all, tail);
      status, at := ReadOptions(start, end, s);
      if status == NO_ERROR {
        ReadPayload(at, end, tail, ApplyAll(NOTHING, all).p);
      }
    }

    /** The payload, cut to the largest chunk, with a zero byte behind it. */
    ghost predicate PayloadIs(tail: seq<Byte>)
      reads this`payload, data
    {
      if tail == [] then payload.length == 0
      else payload.End() < data.Length && data[payload.End()] == 0
           && Bytes(payload) == tail[1..][..Min(REST_MAX_CHUNK_SIZE, |tail| - 1)]
    }

    method ReadPayload(at: nat, end: nat, ghost tail: seq<Byte>, ghost p: Parsed)
      requires at <= end < data.Length && From(at, end) == tail && Shows(p) && Laid(texts, at) && payload == View(0, 0)
      modifies this`payload, data
      ensures Shows(p) && PayloadIs(tail)
    {
      if at < end {
        payload := View(at + 1, Min(REST_MAX_CHUNK_SIZE, end - (at + 1)));
        ghost var d := data[..];
        data[payload.End()] := 0;
        assert Bytes(payload) == d[payload.start..payload.End()] == tail[1..][..payload.length];
        assert data[..at] == d[..at];
        StringsStay(p.fields, values, texts, d, data[..], at);
      }
    }
  }

  lemma StringsStay(fields: Fields, values: Fields, texts: Texts, d: seq<Byte>, e: seq<Byte>, limit: nat)
    requires Shown(fields, values, texts, d) && Laid(texts, limit) && limit <= |d| == |e| && d[..limit] == e[..limit]
    ensures Shown(fields, values, texts, e)
  {
    forall n: nat ensures FieldShown(fields, values, texts, e, n) {
      assert FieldShown(fields, values, texts, d, n) && Placed(texts, n, limit);
      if n in texts {
        SameString(d, e, limit, texts[n]);
      }
    }
  }

  lemma HeadAndRest(d: seq<Byte>, end: nat, head: seq<Byte>, token: seq<Byte>, rest: seq<Byte>)
    requires end <= |d| && |head| == 4 && d[..end] == head + token + rest
    ensures 4 + |token| <= end && (forall i :: 0 <= i < 4 ==> d[i] == head[i])
    ensures d[4..4 + |token|] == token && d[4 + |token|..end] == rest
  {
    forall i | 0 <= i < end ensures d[i] == (head + token + rest)[i] {
      assert d[..end][i] == d[i];
    }
    assert d[4..4 + |token|] == (head + token + rest)[4..4 + |token|];
    assert d[4 + |token|..end] == (head + token + rest)[4 + |token|..];
  }

  lemma BadAt(all: seq<Opt>, n: nat, status: Status)
    requires n <= |all| && ApplyAll(NOTHING, all[..n]) == Bad(status)
    ensures ApplyAll(NOTHING, all) == Bad(status)
  {
    ApplySplit(NOTHING, all[..n], all[n..]);
    BadStays(status, all[n..]);
    assert all == all[..n] + all[n..];
  }

  lemma ApplyNext(all: seq<Opt>, n: nat, p: Parsed)
    requires n < |all| && ApplyAll(NOTHING, all[..n]) == Good(p)
    ensures ApplyAll(NOTHING, all[..n + 1]) == Apply(p, all[n])
  {
    assert all[..n + 1][..n] == all[..n];
  }
}
