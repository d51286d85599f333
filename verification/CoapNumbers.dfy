/** What each option number stands for (section 5.10 of RFC 7252), in the bytes that are sent and in the field
    that is received. */
module CoapNumbers {
  import opened CoapOptions
  import opened CoapText
  import opened CoapFields
  import opened CoapMessage

  // ----- paths and queries: the separators -----

  /** The segments of a path or a query: none is empty, none holds the separator. */
  predicate Segmented(vs: seq<seq<Byte>>, sep: Byte) {
    vs != [] && forall i :: 0 <= i < |vs| ==> vs[i] != [] && sep !in vs[i]
  }

  /** The loop splits a joined string into the segments that it was joined from. */
  lemma {:induction false} JoinedSplit(s: seq<Byte>, after: seq<Byte>, sep: Byte, start: nat, j: nat,
                                       vs: seq<seq<Byte>>)
    requires |after| == 2 && Segmented(vs, sep) && start <= |s| && s[start..] == Join(vs, sep)
    requires start <= j <= start + |vs[0]|
    ensures Split(s, after, sep, start, j) == vs
    decreases |s| + 2 - j
  {
    var v, rest := vs[0], vs[1..];
    JoinStarts(s[start..], vs, sep);
    if j < start + |v| {
      assert s[j] == s[start..][j - start] == v[j - start] && v[j - start] in v;
      JoinedSplit(s, after, sep, start, j + 1, vs);
    } else {
      assert s[start..j] == s[start..][..|v|] == v;
      if rest == [] {
        assert vs == [v] && s[start..j] == s[start..];
      } else {
        assert s[j] == s[start..][|v|] == sep;
        assert s[j + 1..] == s[start..][|v| + 1..] && rest[0] == vs[1];
        JoinedSplit(s, after, sep, j + 1, j + 2, rest);
        assert [v] + rest == vs;
      }
    }
  }

  lemma JoinStarts(text: seq<Byte>, vs: seq<seq<Byte>>, sep: Byte)
    requires vs != [] && text == Join(vs, sep)
    ensures |vs[0]| <= |text| && text[..|vs[0]|] == vs[0]
    ensures if |vs| == 1 then text == vs[0]
            else |vs[0]| < |text| && text[|vs[0]|] == sep && text[|vs[0]| + 1..] == Join(vs[1..], sep)
  {
  }

  /** A path or query is sent as its segments: those of Location-Path (8) and Uri-Path (11) are separated by '/', those
      of Uri-Query (15) and Location-Query (20) by '&'. */
  lemma SegmentsSent(number: nat, f: Fields, behind: Behind, vs: seq<seq<Byte>>)
    requires WellTyped(f) && AllTerminated(behind) && number in f && f[number].Text?
    requires number == 8 || number == 11 || number == 15 || number == 20
    requires var sep := if number == 8 || number == 11 then 47 else 38;
             Segmented(vs, sep) && f[number].text == Join(vs, sep)
    ensures OptionsOf(number, f, behind) == seq(|vs|, i requires 0 <= i < |vs| => Opt(number, vs[i]))
  {
    var sep: Byte := if number == 8 || number == 11 then 47 else 38;
    var text := f[number].text;
    assert text[0..] == text && KindOf(number) == TextKind(sep);
    JoinedSplit(text, behind(number), sep, 0, 0, vs);
  }

  /** Segments that are received are joined by the same separators. */
  lemma SegmentsReceived(number: nat, vs: seq<seq<Byte>>)
    requires number == 8 || number == 11 || number == 15 || number == 20
    requires vs != [] && vs[0] != []
    ensures var sep := if number == 8 || number == 11 then 47 else 38;
            ApplyAll(NOTHING, Options(number, vs)) == Good(Parsed(map[number := Text(Join(vs, sep))], {number}))
  {
    var sep: Byte := if number == 8 || number == 11 then 47 else 38;
    ApplyText(Parsed(map[], {}), number, vs, KindOf(number));
    MergeIsJoin(vs, sep);
  }

  // ----- numbers as bytes -----

  /** The value of bytes, most significant first. */
  function BigEndian(bytes: seq<Byte>): nat {
    if bytes == [] then 0 else BigEndian(bytes[..|bytes| - 1]) * 256 + bytes[|bytes| - 1]
  }

  /** A number is sent big-endian, without leading zero bytes. */
  lemma {:induction false} IntBytesAre(v: nat)
    ensures BigEndian(IntBytes(v)) == v && (IntBytes(v) != [] ==> IntBytes(v)[0] != 0)
  {
    if v > 0 {
      IntBytesAre(v / 256);
      assert IntBytes(v)[..|IntBytes(v)| - 1] == IntBytes(v / 256);
      assert v / 256 == 0 ==> IntBytes(v / 256) == [];
    }
  }

  /** Received bytes are read big-endian, modulo 2^32. */
  lemma {:induction false} ParseIntIs(bytes: seq<Byte>)
    ensures ParseInt(bytes) == BigEndian(bytes) % 0x1_0000_0000
  {
    if bytes != [] {
      var front, last := bytes[..|bytes| - 1], bytes[|bytes| - 1];
      ParseIntIs(front);
      Wrap(BigEndian(front), last);
    }
  }

  lemma Wrap(a: nat, b: nat)
    ensures (a % WORD * 256 + b) % WORD == (a * 256 + b) % WORD
  {
    var q := a / WORD;
    assert a == WORD * q + a % WORD;
    assert a * 256 + b == WORD * (256 * q) + (a % WORD * 256 + b);
    Multiple(256 * q, a % WORD * 256 + b);
  }

  lemma Multiple(k: nat, c: nat)
    ensures (WORD * k + c) % WORD == c % WORD
  {
    var d := c / WORD;
    assert WORD * k + c == WORD * (k + d) + c % WORD;
    Unique(WORD * k + c, k + d, c % WORD);
  }

  lemma Unique(a: nat, q: nat, r: nat)
    requires a == WORD * q + r && r < WORD
    ensures a % WORD == r
  {
  }

  // ----- all other numbers -----

  predicate Holds32(number: nat) {
    number == 6 || number == 12 || number == 14 || number == 17 || number == 28 || number == 60
  }

  /** The options that a field is sent as, but for paths and queries: one option with the bytes of If-Match (1) or
      ETag (4), the text of Uri-Host (3), nothing for If-None-Match (5), a number, or a block. */
  lemma SentAs(number: nat, f: Fields, behind: Behind)
    requires WellTyped(f) && AllTerminated(behind) && number in f
    ensures var v, sent := f[number], OptionsOf(number, f, behind);
            && (number == 1 || number == 4 ==> v.Opaque? && sent == [Opt(number, v.bytes)])
            && (number == 3 ==> v.Text? && sent == [Opt(3, v.text)])
            && (number == 5 ==> sent == [Opt(5, [])])
            && (Holds32(number) || number == 7 ==>
                  v.Number? && |sent| == 1 && sent[0].number == number && BigEndian(sent[0].value) == v.n
                  && (sent[0].value != [] ==> sent[0].value[0] != 0))
            && (number == 23 || number == 27 ==> v.Block? && |sent| == 1 && sent[0].number == number)
  {
    if f[number].Number? {
      IntBytesAre(f[number].n);
    }
  }

  /** The low three bits of a block option say its size, the next one whether more blocks follow, and
      the others are the number of the block (section 2.2 of RFC 7959). */
  lemma BlockSent(number: nat, f: Fields, behind: Behind)
    requires WellTyped(f) && AllTerminated(behind) && number in f && (number == 23 || number == 27)
    ensures var v, sent := f[number], OptionsOf(number, f, behind);
            v.Block? && |sent| == 1 && IsBlock(BigEndian(sent[0].value), v)
  {
    var v := f[number];
    IntBytesAre(BlockBits(v.num, v.more, v.size));
    BlockFormat(v);
  }

  predicate IsBlock(b: nat, v: Value)
    requires v.Block?
  {
    && b / 16 == v.num && (b / 8 % 2 == 1 <==> v.more)
    && [16, 32, 64, 128, 256, 512, 1024, 2048][b % 8] <= v.size
       < [32, 64, 128, 256, 512, 1024, 2048, 4096][b % 8]
  }

  lemma BlockFormat(v: Value)
    requires InRange(BlockKind, v)
    ensures IsBlock(BlockBits(v.num, v.more, v.size), v)
  {
    LogTable(v.size / 16);
    BitsApart(v.num, v.more, Log2(v.size / 16), BlockBits(v.num, v.more, v.size));
  }

  /** The numbers with a field. */
  predicate Known(number: nat) {
    number == 1 || 3 <= number <= 8 || number == 11 || number == 12 || number == 14 || number == 15 || number == 17
    || number == 20 || number == 23 || number == 27 || number == 28 || number == 60
  }

  /** What a message with one option makes of it: the field, or the refusal of a proxy option or
      of one that is unknown and critical. One that is unknown and elective leaves no field. */
  lemma ReceivedAs(number: nat, value: seq<Byte>)
    ensures var r := ApplyAll(NOTHING, [Opt(number, value)]);
            if Known(number) then
              r.Good? && r.p.options == r.p.fields.Keys == {number}
              && ReceivedField(number, value, BigEndian(value), r.p.fields[number])
            else if number == 35 || number == 39 then r == Bad(PROXYING_NOT_SUPPORTED_5_05)
            else if number % 2 == 1 then r == Bad(BAD_OPTION_4_02)
            else r == Good(Parsed(map[], {number}))
  {
    ApplyOne(Parsed(map[], {}), Opt(number, value));
    if Known(number) {
      KnownReceived(number, value);
      assert TextOf(map[], number) == [];
    }
  }

  lemma KnownReceived(number: nat, value: seq<Byte>)
    requires Known(number)
    ensures Implemented(KindOf(number))
    ensures ReceivedField(number, value, BigEndian(value), Field(KindOf(number), [], value))
  {
    ParseIntIs(value);
    if number == 7 {
      Halves(BigEndian(value));
    } else if number == 23 || number == 27 {
      BlockReceived(ParseInt(value));
    }
  }

  lemma BlockReceived(b: nat)
    requires b < WORD
    ensures var v := BlockOf(b);
            && v.num == b / 16 && (v.more <==> b / 8 % 2 == 1)
            && v.size == [16, 32, 64, 128, 256, 512, 1024, 2048][b % 8]
            && (b < 0x100_0000 ==> v.offset == v.num * v.size)
  {
    PowTable(b % 8);
    if b < 0x100_0000 {
      assert b - b % 16 == b / 16 * 16;
      Product(b / 16, Pow2(b % 8));
    }
  }

  /** The field for one option with `value`, whose bytes are the number `n`. */
  predicate ReceivedField(number: nat, value: seq<Byte>, n: nat, v: Value) {
    && (number == 1 || number == 4 ==> v.Opaque? && v.bytes == if |value| <= 8 then value else value[..8])
    && (number == 3 || number == 8 || number == 11 || number == 15 || number == 20 ==> v == Text(value))
    && (number == 5 ==> v == Flag)
    && (number == 7 ==> v == Number(n % 0x1_0000))
    && (Holds32(number) ==> v == Number(n % 0x1_0000_0000))
    && (number == 23 || number == 27 ==> ReceivedBlock(n % 0x1_0000_0000, v))
  }

  predicate ReceivedBlock(b: nat, v: Value) {
    && v.Block? && v.num == b / 16 && (v.more <==> b / 8 % 2 == 1)
    && v.size == [16, 32, 64, 128, 256, 512, 1024, 2048][b % 8]
    && (b < 0x100_0000 ==> v.offset == v.num * v.size)
  }

  lemma Halves(n: nat)
    ensures n % 0x1_0000_0000 % 0x1_0000 == n % 0x1_0000
  {
  }
}
