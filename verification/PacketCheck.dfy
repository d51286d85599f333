/** What the check of a packet decides, in terms of its bytes alone. */
module PacketCheck {
  import opened Checksum

  /** The bytes added up: those at even places count 256 times. */
  function Total(p: seq<Byte>): nat {
    if p == [] then 0 else Total(p[..|p| - 1]) + Weight(|p| - 1, p[|p| - 1])
  }

  function Weight(place: nat, b: nat): nat {
    if place % 2 == 0 then 256 * b else b
  }

  lemma {:induction false} WordsLast(p: seq<Byte>)
    requires p != []
    ensures Words(p) == Words(p[..|p| - 1]) + Weight(|p| - 1, p[|p| - 1])
  {
    if |p| > 2 {
      WordsLast(p[2..]);
      assert p[2..][..|p[2..]| - 1] == p[..|p| - 1][2..];
    } else if |p| == 2 {
      assert p[2..] == [] && Words(p) == Be(p[0], p[1]) + Words([]);
    }
  }

  lemma {:induction false} WordsAreTotal(p: seq<Byte>)
    ensures Words(p) == Total(p)
  {
    if p != [] {
      WordsLast(p);
      WordsAreTotal(p[..|p| - 1]);
    }
  }

  /** The header says how long the packet is. */
  function Said(p: Packet): nat
    requires p.Valid()
  {
    Weight(2, p.bytes[2]) + Weight(3, p.bytes[3])
  }

  /** What the sum behind the header is taken over, besides the bytes there: nothing for ICMP; for TCP
      and UDP the protocol, the length and both addresses. */
  function Extra(p: Packet): nat
    requires p.Valid()
  {
    if p.bytes[9] == 1 then 0
    else (p.bytes[9] + p.BodyLength()) % 0x1_0000 + Total(p.bytes[12..20])
  }

  predicate HeaderSums(p: Packet)
    requires p.Valid()
  {
    Total(p.bytes[..p.HeaderLength()]) % 65535 == 0
  }

  predicate BodySums(p: Packet)
    requires p.Valid() && p.Summed()
  {
    (Extra(p) + Total(p.bytes[p.HeaderLength()..p.HeaderLength() + p.BodyLength()])) % 65535 == 0
  }

  lemma HeaderOkIff(p: Packet)
    requires p.Valid()
    ensures p.HeaderOk() <==> HeaderSums(p)
  {
    AcceptsIff(0, p.Header());
    WordsAreTotal(p.Header());
  }

  lemma BodyOkIff(p: Packet)
    requires p.Valid() && p.Summed()
    ensures p.BodyOk() <==> BodySums(p)
  {
    AcceptsIff(p.Pseudo(), p.Body());
    WordsAreTotal(p.Body());
    if p.bytes[9] != 1 {
      var start := (p.bytes[9] + p.BodyLength()) % 0x1_0000;
      SumModulo(start, p.Addresses());
      WordsAreTotal(p.Addresses());
      SameShift(Words(p.Body()), p.Pseudo(), start + Words(p.Addresses()));
    }
  }

  /** A packet passes iff it is of version 4 and as long as its header says, its header sums up to a multiple of 65535,
      and so does what is behind it, if that is TCP, UDP with a checksum, or ICMP. The code of a packet that
      is refused says which of these it is. */
  lemma CheckMeans(p: Packet)
    requires p.Valid()
    ensures p.Check() ==
            if p.bytes[0] / 16 != 4 then -1
            else if Said(p) > p.length then -2
            else if Said(p) < p.length then -3
            else if !HeaderSums(p) then -4
            else if p.bytes[9] == 6 && !BodySums(p) then -5
            else if p.bytes[9] == 17 && !BodySums(p) && (p.bytes[26] != 0 || p.bytes[27] != 0) then -6
            else if p.bytes[9] == 1 && !BodySums(p) then -7
            else 0
  {
    HeaderOkIff(p);
    if p.Summed() {
      BodyOkIff(p);
    }
  }
}
