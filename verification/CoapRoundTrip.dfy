/** A message that is serialized, and parsed by its receiver. */
module CoapRoundTrip {
  import opened Common
  import opened CoapOptions
  import opened CoapText
  import opened CoapFields
  import opened CoapMessage
  import opened CoapSerialize
  import opened CoapSend
  import opened CoapParse

  /** What a receiver holds is determined by its fields and its buffer. */
  lemma ShownUnique(f: Fields, g: Fields, values: Fields, texts: Texts, d: seq<Byte>)
    requires Shown(f, values, texts, d) && Shown(g, values, texts, d)
    ensures f == g
  {
    forall n: nat ensures n in f <==> n in g {
      assert FieldShown(f, values, texts, d, n) && FieldShown(g, values, texts, d, n);
    }
    forall n: nat | n in f ensures f[n] == g[n] {
      assert FieldShown(f, values, texts, d, n) && FieldShown(g, values, texts, d, n);
    }
  }

  predicate AllArrive(f: Fields)
    requires WellTyped(f)
  {
    forall n :: n in f ==> Arrives(KindOf(n), f[n])
  }

  /** The fixed header is read as it was written. */
  lemma HeaderRead(m: Message)
    requires m.kind < 4 && m.mid < 0x1_0000 && |m.token| <= COAP_TOKEN_LEN
    ensures var h := FixedHeader(m);
            && h[0] / 64 == 1 && h[0] / 16 % 4 == m.kind && Min(COAP_TOKEN_LEN, h[0] % 16) == |m.token|
            && h[1] == m.code && Word(h[2], h[3]) == m.mid
  {
  }

  /** The bytes of a message with a code other than zero, in the order in which the
      receiver takes them apart. */
  lemma WireParts(m: Message, behind: Behind)
    requires Sendable(m) && AllTerminated(behind)
    ensures HeaderBytes(m, behind) + PayloadBytes(m.payload)
            == FixedHeader(m) + m.token + (Encode(OptionsIn(m, behind)) + PayloadBytes(m.payload))
  {
    Assoc(FixedHeader(m) + m.token, Encode(OptionsIn(m, behind)), PayloadBytes(m.payload));
  }

  /** The token is where the fixed header ends. */
  lemma TokenRead(h: seq<Byte>, t: seq<Byte>, u: seq<Byte>, x: seq<Byte>)
    requires |t| == |u| && h + t + x == h + u + x
    ensures t == u
  {
    assert t == (h + t + x)[|h|..|h| + |t|] && u == (h + u + x)[|h|..|h| + |u|];
  }

  /** The receiver has the fields that were meant if and only if they all arrive. */
  lemma Verdict(f: Fields, behind: Behind, r: Outcome, values: Fields, texts: Texts, options: set<nat>, d: seq<Byte>)
    requires WellTyped(f) && AllTerminated(behind) && r == ApplyAll(NOTHING, AllOptions(ORDER, f, |ORDER|, behind))
    requires r.Good? ==> options == r.p.options && Shown(r.p.fields, values, texts, d)
    ensures r.Good? && options == f.Keys && Shown(MeantAll(f), values, texts, d) <==> AllArrive(f)
  {
    RoundTripIff(f, behind);
    if r.Good? && Shown(MeantAll(f), values, texts, d) {
      ShownUnique(r.p.fields, MeantAll(f), values, texts, d);
    }
  }

  /** Send a message from one buffer and receive it. Its fields, token and payload arrive unchanged
      if and only if every field is one that arrives. */
  method Transfer(m: Message, behind: Behind, buffer: array<Byte>) returns (receiver: Receiver, status: Status)
    requires Sendable(m) && AllTerminated(behind) && m.code != 0
    requires |HeaderBytes(m, behind)| <= COAP_MAX_HEADER_SIZE && |m.payload| <= REST_MAX_CHUNK_SIZE
    requires |HeaderBytes(m, behind)| + |PayloadBytes(m.payload)| < buffer.Length
    modifies buffer
    ensures receiver.data == buffer && receiver.kind == m.kind && receiver.code == m.code && receiver.mid == m.mid
    ensures receiver.token == m.token
    ensures status == NO_ERROR && receiver.Shows(Parsed(MeantAll(m.fields), m.fields.Keys)) <==> AllArrive(m.fields)
    ensures status == NO_ERROR ==>
              if m.payload == [] then receiver.payload.length == 0
              else receiver.payload.End() < buffer.Length && receiver.Bytes(receiver.payload) == m.payload
  {
    var length := Serialize(m, behind, buffer);
    receiver := new Receiver(buffer);
    ghost var opts, tail := OptionsIn(m, behind), PayloadBytes(m.payload);
    WireParts(m, behind);
    HeaderRead(m);
    status := receiver.Parse(length, FixedHeader(m), opts, tail);
    TokenRead(FixedHeader(m), receiver.token, m.token, Encode(opts) + tail);
    Verdict(m.fields, behind, ApplyAll(NOTHING, opts), receiver.values, receiver.texts, receiver.options,
        receiver.data[..]);
    assert m.payload != [] ==> tail[1..] == m.payload && m.payload[..|m.payload|] == m.payload;
  }
}
