/** The bytes of a CoAP message as sections 3 and 3.1 of RFC 7252 give them. */
module CoapWire {
  import opened Common
  import opened CoapOptions
  import opened CoapMessage
  import opened CoapSend

  function TwoBytes(high: nat, low: nat): nat {
    256 * high + low
  }

  /** A delta or a length: four bits in the first byte, and the bytes that extend them. */
  predicate Extended(bits: nat, bytes: seq<Byte>, v: nat) {
    || (bits < 13 && bytes == [] && v == bits)
    || (bits == 13 && |bytes| == 1 && v - 13 == bytes[0])
    || (bits == 14 && |bytes| == 2 && v == 269 + TwoBytes(bytes[0], bytes[1]))
  }

  /** An option begins with the four bits of its delta, those of its length, and what extends the one
      and then the other. */
  lemma HeaderFormat(delta: nat, length: nat)
    requires delta <= MAX_EXTENDED && length <= MAX_EXTENDED
    ensures var h := Header(delta, length);
            exists n :: 1 <= n <= |h| && Extended(h[0] / 16, h[1..n], delta) && Extended(h[0] % 16, h[n..], length)
  {
    var h, x, y := Header(delta, length), Extension(delta), Extension(length);
    var n := 1 + |x|;
    assert h[1..n] == x && h[n..] == y && h[0] == Nibble(delta) * 16 + Nibble(length);
    ExtendedIs(delta);
    ExtendedIs(length);
  }

  lemma ExtendedIs(v: nat)
    requires v <= MAX_EXTENDED
    ensures Nibble(v) < 16 && Extended(Nibble(v), Extension(v), v)
  {
    if v > 268 {
      var w := v - 269;
      assert w == 256 * (w / 256) + w % 256 && w / 256 < 256;
    }
  }

  /** A message begins with version 1, the type and the length of the token, then the code, the
      message id, the token and the options. A payload stands behind 0xFF. */
  lemma MessageFormat(m: Message, behind: Behind)
    requires Sendable(m) && AllTerminated(behind)
    ensures var s := HeaderBytes(m, behind);
            && |s| >= 4 + |m.token| && s[0] / 64 == 1 && s[0] / 16 % 4 == m.kind && s[0] % 16 == |m.token|
            && s[1] == m.code && TwoBytes(s[2], s[3]) == m.mid && s[4..4 + |m.token|] == m.token
            && s[4 + |m.token|..] == Encode(OptionsIn(m, behind))
    ensures PayloadBytes(m.payload) == if m.payload == [] then [] else [255] + m.payload
  {
    var h, t, e := FixedHeader(m), m.token, Encode(OptionsIn(m, behind));
    var s := HeaderBytes(m, behind);
    assert s == h + t + e;
    assert s[4..4 + |t|] == t && s[4 + |t|..] == e;
    assert m.mid == 256 * (m.mid / 256) + m.mid % 256;
  }

  /** The options stand one behind the other, each with the difference of its number to the number
      before. */
  lemma OptionFormat(m: Message, behind: Behind, k: nat)
    requires Sendable(m) && AllTerminated(behind) && k < |OptionsIn(m, behind)|
    ensures var opts := OptionsIn(m, behind);
            var delta := opts[k].number - if k == 0 then 0 else opts[k - 1].number;
            && 0 <= delta <= MAX_EXTENDED && |opts[k].value| <= MAX_EXTENDED
            && Flatten(Chunks(opts), k) == Header(delta, |opts[k].value|) + opts[k].value + Flatten(Chunks(opts), k + 1)
  {
    var opts := OptionsIn(m, behind);
    assert CoapOptions.Fits(opts, k);
    Assoc(Header(opts[k].number - Previous(opts, k), |opts[k].value|), opts[k].value, Flatten(Chunks(opts), k + 1));
  }
}
