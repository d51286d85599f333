/** Internet checksums (section 2 of RFC 1071) in the SLIP tunnel: the sum, the check of a packet,
    its incremental update in the byte order of the host (section 3 of RFC 1624), and a packet that is filled in. */
module Checksum {

  type Byte = b: nat | b < 256

  const MASK: nat := 0xFFFF

  type Word = w: nat | w <= MASK

  // ----- the sum -----

  function Be(high: Byte, low: Byte): Word {
    var h: nat := high;
    h * 256 + low
  }

  /** Addition with the end-around carry, as the source detects it. */
  function AddCarry(sum: Word, t: Word): Word {
    var s := (sum + t) % 0x1_0000;
    if s < t then s + 1 else s
  }

  /** `ip4sum` */
  function Sum(sum: Word, p: seq<Byte>): Word
    decreases |p|
  {
    if p == [] then sum
    else if |p| == 1 then AddCarry(sum, Be(p[0], 0))
    else Sum(AddCarry(sum, Be(p[0], p[1])), p[2..])
  }

  /** The plain sum of the 16-bit words, the last one filled up with zero. */
  function Words(p: seq<Byte>): nat {
    if p == [] then 0 else if |p| == 1 then Be(p[0], 0) else Be(p[0], p[1]) + Words(p[2..])
  }

  lemma CarryOnce(sum: Word, t: Word)
    ensures AddCarry(sum, t) == if sum + t > MASK then sum + t - MASK else sum + t
  {
  }

  /** The sum is the ones'-complement sum: congruent modulo 65535 to the plain sum of the words,
      and zero only if everything is zero. */
  lemma {:induction false} SumModulo(sum: Word, p: seq<Byte>)
    ensures Sum(sum, p) % MASK == (sum + Words(p)) % MASK
    ensures Sum(sum, p) == 0 <==> sum + Words(p) == 0
    decreases |p|
  {
    if p != [] {
      var t := if |p| == 1 then Be(p[0], 0) else Be(p[0], p[1]);
      CarryOnce(sum, t);
      if |p| > 1 {
        SumModulo(AddCarry(sum, t), p[2..]);
        Shift(AddCarry(sum, t), sum + t, Words(p[2..]));
      }
    }
  }

  lemma Shift(a: nat, b: nat, c: nat)
    requires a == b || a == b - MASK
    ensures (a + c) % MASK == (b + c) % MASK
  {
  }

  /** A sum can be taken in pieces, if all but the last have an even number of bytes. */
  lemma {:induction false} SumInPieces(sum: Word, a: seq<Byte>, b: seq<Byte>)
    requires |a| % 2 == 0
    ensures Sum(sum, a + b) == Sum(Sum(sum, a), b)
    decreases |a|
  {
    if a == [] {
      assert a + b == b;
    } else {
      assert (a + b)[2..] == a[2..] + b;
      SumInPieces(AddCarry(sum, Be(a[0], a[1])), a[2..], b);
    }
  }

  predicate Accepts(w: Word) {
    w == MASK || w == 0
  }

  lemma AcceptsIff(sum: Word, p: seq<Byte>)
    ensures Accepts(Sum(sum, p)) <==> (sum + Words(p)) % MASK == 0
  {
    SumModulo(sum, p);
    AcceptsWord(Sum(sum, p));
  }

  lemma AcceptsWord(w: Word)
    ensures Accepts(w) <==> w % MASK == 0
  {
  }

  /** The loop of `ip4sum`. */
  method Ip4Sum(start: Word, p: array<Byte>, from: nat, length: nat) returns (sum: Word)
    requires from + length <= p.Length
    ensures sum == Sum(start, p[from..from + length])
  {
    sum := start;
    var i := from;
    var end := from + length;
    while i + 1 < end
      invariant from <= i <= end
      invariant Sum(sum, p[i..end]) == Sum(start, p[from..end])
    {
      var t := Be(p[i], p[i + 1]);
      assert p[i..end][0] == p[i] && p[i..end][1] == p[i + 1] && p[i..end][2..] == p[i + 2..end];
      sum := AddCarry(sum, t);
      i := i + 2;
    }
    assert i < end ==> p[i..end] == [p[i]];
    assert i == end ==> p[i..end] == [];
    if i < end {
      sum := AddCarry(sum, Be(p[i], 0));
    }
  }

  // ----- changing words -----

  /** Put a word in the place of the `k`-th one. */
  lemma {:induction false} WordsUpdate(p: seq<Byte>, k: nat, a: Byte, b: Byte)
    requires 2 * k + 1 < |p|
    ensures Words(p[2 * k := a][2 * k + 1 := b]) == Words(p) - Be(p[2 * k], p[2 * k + 1]) + Be(a, b)
  {
    var q := p[2 * k := a][2 * k + 1 := b];
    if k == 0 {
      assert q[2..] == p[2..];
    } else {
      assert q[2..] == p[2..][2 * (k - 1) := a][2 * (k - 1) + 1 := b];
      WordsUpdate(p[2..], k - 1, a, b);
    }
  }

  /** The same for the `k`-th word and the third one behind it. */
  lemma TwoUpdates(p: seq<Byte>, k: nat, a: Byte, b: Byte, c: Byte, d: Byte)
    requires 2 * k + 7 < |p|
    ensures Words(p[2 * k := a][2 * k + 1 := b][2 * k + 6 := c][2 * k + 7 := d])
            == Words(p) - Be(p[2 * k], p[2 * k + 1]) - Be(p[2 * k + 6], p[2 * k + 7]) + Be(a, b) + Be(c, d)
  {
    WordsUpdate(p, k, a, b);
    var q := p[2 * k := a][2 * k + 1 := b];
    assert q[2 * k + 6] == p[2 * k + 6] && q[2 * k + 7] == p[2 * k + 7] && 2 * (k + 3) == 2 * k + 6;
    WordsUpdate(q, k + 3, c, d);
  }

  // ----- the check -----

  /** A packet in a buffer: `length` bytes, with the fields of an IP header and of a UDP header behind
      one of 20 bytes. The header length counts 32-bit words and may be any number, even one
      behind the packet: then the length of the rest wraps around. The buffer holds what is read. */
  datatype Packet = Packet(bytes: seq<Byte>, length: nat)
  {
    predicate Valid() {
      && length <= |bytes| && |bytes| >= 28 && HeaderLength() <= |bytes|
      && (Summed() ==> HeaderLength() + BodyLength() <= |bytes|)
    }

    /** The check goes on behind the header: a packet of TCP, UDP or ICMP. */
    predicate Summed()
      requires |bytes| >= 28
    {
      Protocol() == 1 || Protocol() == 6 || Protocol() == 17
    }

    function HeaderLength(): nat
      requires |bytes| >= 28
    {
      4 * (bytes[0] % 16)
    }

    function BodyLength(): nat
      requires |bytes| >= 28
    {
      (length - HeaderLength()) % 0x1_0000
    }

    function Protocol(): Byte
      requires |bytes| >= 28
    {
      bytes[9]
    }

    function Header(): seq<Byte>
      requires Valid()
    {
      bytes[..HeaderLength()]
    }

    function Body(): seq<Byte>
      requires Valid() && Summed()
    {
      bytes[HeaderLength()..HeaderLength() + BodyLength()]
    }

    function Addresses(): seq<Byte>
      requires Valid()
    {
      bytes[12..20]
    }

    /** The sum that the check of a TCP, UDP or ICMP packet begins with. */
    function Pseudo(): Word
      requires Valid()
    {
      if Protocol() == 1 then 0 else Sum((Protocol() + BodyLength()) % 0x1_0000, Addresses())
    }

    predicate HeaderOk()
      requires Valid()
    {
      Accepts(Sum(0, Header()))
    }

    predicate BodyOk()
      requires Valid() && Summed()
    {
      Accepts(Sum(Pseudo(), Body()))
    }

    /** A UDP packet without a checksum. */
    predicate Disabled()
      requires Valid()
    {
      Protocol() == 17 && Be(bytes[26], bytes[27]) == 0
    }

    /** A packet that ends in front of the end of the checksum field. */
    predicate CutShort()
      requires Valid()
    {
      HeaderLength() <= length < 12
    }

    /** `check_ip`, which returns 0 or a negative number. */
    function Check(): int
      requires Valid()
    {
      if bytes[0] / 16 != 4 then -1
      else if Be(bytes[2], bytes[3]) > length then -2
      else if Be(bytes[2], bytes[3]) < length then -3
      else if !HeaderOk() then -4
      else if !Summed() || BodyOk() then 0
      else if Protocol() == 6 then -5
      else if Protocol() == 1 then -7
      else if Be(bytes[26], bytes[27]) != 0 then -6
      else 0
    }
  }

  /** `check_ip` */
  method CheckIp(ip: array<Byte>, length: nat) returns (code: int)
    requires Packet(ip[..], length).Valid()
    ensures code == Packet(ip[..], length).Check()
  {
    ghost var packet := Packet(ip[..], length);
    if ip[0] / 16 != 4 {
      return -1;
    }
    if Be(ip[2], ip[3]) > length {
      return -2;
    }
    if Be(ip[2], ip[3]) < length {
      return -3;
    }
    var headerLength := 4 * (ip[0] % 16);
    var sum := Ip4Sum(0, ip, 0, headerLength);
    assert ip[0..headerLength] == packet.Header();
    if sum != MASK && sum != 0 {
      return -4;
    }
    if ip[9] == 1 || ip[9] == 6 || ip[9] == 17 {
      code := CheckBody(ip, length);
    } else {
      code := 0;
    }
  }

  /** The part of `check_ip` behind the header. */
  method CheckBody(ip: array<Byte>, length: nat) returns (code: int)
    requires Packet(ip[..], length).Valid() && Packet(ip[..], length).Summed()
    ensures code == if Packet(ip[..], length).BodyOk() then 0
                    else if ip[9] == 6 then -5
                    else if ip[9] == 1 then -7
                    else if Be(ip[26], ip[27]) != 0 then -6 else 0
  {
    ghost var packet := Packet(ip[..], length);
    var headerLength := 4 * (ip[0] % 16);
    var bodyLength := (length - headerLength) % 0x1_0000;
    assert ip[headerLength..headerLength + bodyLength] == packet.Body() && ip[12..12 + 8] == packet.Addresses();
    var sum := 0;
    if ip[9] != 1 {
      sum := (ip[9] + bodyLength) % 0x1_0000;
      sum := Ip4Sum(sum, ip, 12, 8);
    }
    sum := Ip4Sum(sum, ip, headerLength, bodyLength);
    if sum == MASK || sum == 0 {
      return 0;
    }
    if ip[9] == 6 {
      return -5;
    } else if ip[9] == 1 {
      return -7;
    }
    return if Be(ip[26], ip[27]) != 0 then -6 else 0;
  }

  // ----- the update in the byte order of the host -----

  /** A 16-bit field as the host reads it. */
  function Host(little: bool, first: Byte, second: Byte): Word {
    if little then Be(second, first) else Be(first, second)
  }

  function First(little: bool, w: Word): Byte {
    if little then w % 256 else w / 256
  }

  function Second(little: bool, w: Word): Byte {
    if little then w / 256 else w % 256
  }

  /** The bytes after the identification has been set from 0 to `id`, a value in the order of
      the host, and its complement has been added to the checksum in the same order. */
  function Rewritten(bytes: seq<Byte>, little: bool, id: Word): (r: seq<Byte>)
    requires |bytes| >= 28
    ensures |r| == |bytes|
  {
    var sum := AddCarry(Host(little, bytes[10], bytes[11]), MASK - id);
    bytes[4 := First(little, id)][5 := Second(little, id)][10 := First(little, sum)][11 := Second(little, sum)]
  }

  /** The two changed words together keep their value modulo 65535, in either byte order. */
  lemma Compensates(little: bool, first: Byte, second: Byte, id: Word)
    ensures var sum := AddCarry(Host(little, first, second), MASK - id);
            (Be(First(little, sum), Second(little, sum)) + Be(First(little, id), Second(little, id))) % MASK
                == Be(first, second) % MASK
  {
    var before := Host(little, first, second);
    var sum := AddCarry(before, MASK - id);
    CarryOnce(before, MASK - id);
    var k := if before + (MASK - id) > MASK then 0 else 1;
    assert sum + id == before + k * MASK;
    var total := Be(First(little, sum), Second(little, sum)) + Be(First(little, id), Second(little, id));
    if little {
      Swapped(First(true, sum), Second(true, sum));
      Swapped(First(true, id), Second(true, id));
      Swapped(first, second);
      Congruent(total, Be(first, second), 256 * k - Second(true, sum) - Second(true, id) + second);
    } else {
      Congruent(total, Be(first, second), k);
    }
  }

  lemma Congruent(a: nat, b: nat, m: int)
    requires a == b + MASK * m
    ensures a % MASK == b % MASK
  {
    var q := b / MASK;
    assert b == MASK * q + b % MASK && a == MASK * (q + m) + b % MASK;
    Remainder(a, q + m, b % MASK);
  }

  lemma Remainder(a: nat, q: int, r: nat)
    requires a == MASK * q + r && r < MASK
    ensures a % MASK == r
  {
  }

  /** Reading a word in the other order multiplies it by 256, modulo 65535. */
  lemma Swapped(first: Byte, second: Byte)
    ensures 256 * Be(second, first) == Be(first, second) + MASK * second
  {
  }

  // ----- what the update does to the check -----

  /** The words of a part of the packet that holds both fields. */
  lemma RewrittenSum(bytes: seq<Byte>, little: bool, id: Word, from: nat, to: nat)
    requires |bytes| >= 28 && bytes[4] == 0 && bytes[5] == 0 && (from == 0 || from == 4) && 12 <= to <= |bytes|
    ensures var sum := AddCarry(Host(little, bytes[10], bytes[11]), MASK - id);
            Words(Rewritten(bytes, little, id)[from..to]) ==
            Words(bytes[from..to]) - Be(bytes[10], bytes[11])
            + (Be(First(little, sum), Second(little, sum)) + Be(First(little, id), Second(little, id)))
  {
    var p: seq<Byte> := bytes[from..to];
    var sum := AddCarry(Host(little, bytes[10], bytes[11]), MASK - id);
    var a, b, c, d := First(little, id), Second(little, id), First(little, sum), Second(little, sum);
    var k := if from == 0 then 2 else 0;
    assert 2 * k == 4 - from;
    TwoUpdates(p, k, a, b, c, d);
    assert Rewritten(bytes, little, id)[from..to] == p[2 * k := a][2 * k + 1 := b][2 * k + 6 := c][2 * k + 7 := d];
  }

  /** The update changes the words of any part of the packet that holds both fields, or none of
      them, by a multiple of 65535. */
  lemma RewrittenWords(bytes: seq<Byte>, little: bool, id: Word, from: nat, to: nat)
    requires |bytes| >= 28 && bytes[4] == 0 && bytes[5] == 0 && from <= to <= |bytes|
    requires ((from == 0 || from == 4) && 12 <= to) || to <= 4 || 12 <= from
    ensures Words(Rewritten(bytes, little, id)[from..to]) % MASK == Words(bytes[from..to]) % MASK
  {
    if (from == 0 || from == 4) && 12 <= to {
      var sum := AddCarry(Host(little, bytes[10], bytes[11]), MASK - id);
      RewrittenSum(bytes, little, id, from, to);
      Compensates(little, bytes[10], bytes[11], id);
      SameShift(Words(bytes[from..to]) - Be(bytes[10], bytes[11]),
                Be(First(little, sum), Second(little, sum)) + Be(First(little, id), Second(little, id)),
                    Be(bytes[10], bytes[11]));
    } else {
      assert Rewritten(bytes, little, id)[from..to] == bytes[from..to];
    }
  }

  lemma SameShift(base: int, a: nat, b: nat)
    requires a % MASK == b % MASK && base + b >= 0 && base + a >= 0
    ensures (base + a) % MASK == (base + b) % MASK
  {
    var m := a / MASK - b / MASK;
    assert a == b + MASK * m;
    assert base + a == base + b + MASK * m;
    Congruent(base + a, base + b, m);
  }

  /** A header of eight bytes holds the identification but not the checksum. */
  lemma ShortFront(bytes: seq<Byte>, little: bool, id: Word)
    requires |bytes| >= 28 && bytes[4] == 0 && bytes[5] == 0
    ensures Words(Rewritten(bytes, little, id)[..8]) == Words(bytes[..8]) + Be(First(little, id), Second(little, id))
  {
    var p: seq<Byte> := bytes[..8];
    var a, b := First(little, id), Second(little, id);
    assert Rewritten(bytes, little, id)[..8] == p[4 := a][5 := b];
    WordsUpdate(p, 2, a, b);
  }

  lemma ShortRest(bytes: seq<Byte>, little: bool, id: Word, to: nat)
    requires |bytes| >= 28 && 12 <= to <= |bytes| && (id == 0 || id == MASK)
    ensures Words(Rewritten(bytes, little, id)[8..to]) % MASK == Words(bytes[8..to]) % MASK
  {
    var p: seq<Byte> := bytes[8..to];
    var sum := AddCarry(Host(little, bytes[10], bytes[11]), MASK - id);
    var a, b := First(little, sum), Second(little, sum);
    assert Rewritten(bytes, little, id)[8..to] == p[2 := a][3 := b];
    WordsUpdate(p, 1, a, b);
    SumUnchanged(little, bytes[10], bytes[11], id);
    SameShift(Words(p) - Be(bytes[10], bytes[11]), Be(a, b), Be(bytes[10], bytes[11]));
  }

  lemma SumUnchanged(little: bool, first: Byte, second: Byte, id: Word)
    requires id == 0 || id == MASK
    ensures var sum := AddCarry(Host(little, first, second), MASK - id);
            Be(First(little, sum), Second(little, sum)) % MASK == Be(first, second) % MASK
  {
    var sum := AddCarry(Host(little, first, second), MASK - id);
    Compensates(little, first, second, id);
    var b := Be(First(little, sum), Second(little, sum));
    var k := if id == 0 then 0 else 1;
    assert Be(First(little, id), Second(little, id)) == MASK * k;
    Congruent(b + MASK * k, b, k);
  }

  lemma AcceptsSame(sum: Word, p: seq<Byte>, q: seq<Byte>)
    requires Words(p) % MASK == Words(q) % MASK
    ensures Accepts(Sum(sum, p)) <==> Accepts(Sum(sum, q))
  {
    AcceptsIff(sum, p);
    AcceptsIff(sum, q);
    SameShift(sum, Words(p), Words(q));
  }

  lemma AddingMultiple(a: nat, w: Word)
    requires a % MASK == 0
    ensures (a + w) % MASK == 0 <==> w == 0 || w == MASK
  {
    Congruent(a + w, w, a / MASK);
  }

  /** What the update adds to the words of the part that is summed behind the header of a packet
      that is cut short: the identification, or its first byte, if it lies there, and the change of the first
      byte of the checksum. */
  function CutChange(bytes: seq<Byte>, little: bool, id: Word, from: nat, to: nat): int
    requires |bytes| >= 28
  {
    var sum := AddCarry(Host(little, bytes[10], bytes[11]), MASK - id);
    var front := if to <= 4 || from == 8 then 0
                 else if to == 5 then Be(First(little, id), 0)
                 else Be(First(little, id), Second(little, id));
    front + if to == 11 then 256 * (First(little, sum) - bytes[10]) else 0
  }

  /** Put a byte in the place of the last one, which has no partner. */
  lemma {:induction false} LastUpdate(p: seq<Byte>, a: Byte)
    requires |p| % 2 == 1
    ensures Words(p[|p| - 1 := a]) == Words(p) + 256 * (a - p[|p| - 1])
  {
    if |p| > 1 {
      assert p[|p| - 1 := a][2..] == p[2..][|p| - 3 := a];
      LastUpdate(p[2..], a);
    }
  }

  lemma CutWords(bytes: seq<Byte>, little: bool, id: Word, from: nat, to: nat)
    requires |bytes| >= 28 && bytes[4] == 0 && bytes[5] == 0 && from <= to < 12
    requires from == 0 || from == 4 || from == 8
    ensures Words(Rewritten(bytes, little, id)[from..to])
            == Words(bytes[from..to]) + CutChange(bytes, little, id, from, to)
  {
    var p: seq<Byte> := bytes[from..to];
    var sum := AddCarry(Host(little, bytes[10], bytes[11]), MASK - id);
    var a, b, c := First(little, id), Second(little, id), First(little, sum);
    var r: seq<Byte> := Rewritten(bytes, little, id)[from..to];
    if to <= 4 {
      assert r == p;
    } else if to == 5 {
      assert r == p[|p| - 1 := a];
      LastUpdate(p, a);
    } else {
      CutFront(p, r, little, id, from, to, c);
    }
  }

  lemma CutFront(p: seq<Byte>, r: seq<Byte>, little: bool, id: Word, from: nat, to: nat, c: Byte)
    requires (from == 0 || from == 4 || from == 8) && from <= to && 6 <= to < 12 && |p| == |r| == to - from
    requires from < 8 ==> p[4 - from] == 0 && p[5 - from] == 0
                          && r[4 - from] == First(little, id) && r[5 - from] == Second(little, id)
    requires to == 11 ==> r[10 - from] == c
    requires forall i :: 0 <= i < |p| && i != 4 - from && i != 5 - from && i != 10 - from ==> r[i] == p[i]
    ensures Words(r) == Words(p) + (if from == 8 then 0 else Be(First(little, id), Second(little, id)))
                        + if to == 11 then 256 * (c - p[10 - from]) else 0
  {
    var a, b := First(little, id), Second(little, id);
    var q := p;
    if from < 8 {
      var k := if from == 0 then 2 else 0;
      assert 2 * k == 4 - from;
      q := p[2 * k := a][2 * k + 1 := b];
      WordsUpdate(p, k, a, b);
    }
    if to == 11 {
      assert r == q[|q| - 1 := c];
      LastUpdate(q, c);
    } else {
      assert r == q;
    }
  }

  /** The update leaves all other fields alone. */
  lemma OtherBytes(bytes: seq<Byte>, little: bool, id: Word)
    requires |bytes| >= 28
    ensures forall i :: 0 <= i < |bytes| && i != 4 && i != 5 && i != 10 && i != 11 ==>
            Rewritten(bytes, little, id)[i] == bytes[i]
  {
  }

  /** Packets that differ in these two fields only. */
  ghost predicate Alike(p: Packet, q: Packet) {
    && p.Valid() && |q.bytes| == |p.bytes| && q.length == p.length
    && forall i :: 0 <= i < |p.bytes| && i != 4 && i != 5 && i != 10 && i != 11 ==> q.bytes[i] == p.bytes[i]
  }

  lemma AlikeChecks(p: Packet, q: Packet)
    requires Alike(p, q) && p.Check() == 0
    ensures q.Valid() && q.Pseudo() == p.Pseudo() && q.Summed() == p.Summed()
    ensures q.HeaderLength() == p.HeaderLength() && q.BodyLength() == p.BodyLength()
    ensures q.Check() == 0 <==> q.HeaderOk() && (p.Summed() && !p.Disabled() ==> q.BodyOk())
    ensures p.HeaderOk() && (p.Summed() && !p.Disabled() ==> p.BodyOk())
  {
    assert q.Addresses() == p.Addresses();
  }

  /** An accepted packet stays accepted if a header of eight bytes gets the identification 0 or 0xffff, and if
      the words summed in a packet that is cut short change by a multiple of 65535. */
  predicate Kept(p: Packet, little: bool, id: Word)
    requires p.Valid()
  {
    && (p.HeaderLength() != 8 || id == 0 || id == MASK)
    && (p.CutShort() && p.Summed() && !p.Disabled() ==>
          CutChange(p.bytes, little, id, p.HeaderLength(), p.length) % MASK == 0)
  }

  /** Under that condition a packet that was accepted is still accepted after the update, and under no other. */
  lemma UpdateKeepsAcceptance(p: Packet, little: bool, id: Word)
    requires p.Valid() && p.Check() == 0 && p.bytes[4] == 0 && p.bytes[5] == 0
    ensures var q := Packet(Rewritten(p.bytes, little, id), p.length);
            q.Valid() && (q.Check() == 0 <==> Kept(p, little, id))
  {
    var q := Packet(Rewritten(p.bytes, little, id), p.length);
    OtherBytes(p.bytes, little, id);
    AlikeChecks(p, q);
    UpdatedHeader(p, q, little, id);
    if p.Summed() && !p.Disabled() && (p.HeaderLength() != 8 || id == 0 || id == MASK) {
      if p.CutShort() {
        UpdatedCut(p, q, little, id);
      } else {
        UpdatedBody(p, q, little, id);
      }
    }
  }

  /** For a packet that holds both fields, only the length of the header matters. */
  lemma KeptIff(p: Packet, little: bool, id: Word)
    requires p.Valid() && 12 <= p.length
    ensures Kept(p, little, id) <==> p.HeaderLength() != 8 || id == 0 || id == MASK
  {
  }

  /** Behind a header that ends inside the packet, the body ends where the packet does. */
  lemma BodyEnd(p: Packet)
    requires |p.bytes| >= 28 && p.HeaderLength() <= p.length <= MASK
    ensures p.HeaderLength() + p.BodyLength() == p.length
  {
  }

  lemma BodyStart(p: Packet)
    requires p.Valid() && p.length <= MASK && !p.CutShort()
    ensures var from := p.HeaderLength(); from == 0 || from == 4 || from == 8 || from >= 12
    ensures 12 <= p.HeaderLength() + p.BodyLength()
  {
    if p.HeaderLength() <= p.length {
      BodyEnd(p);
    } else {
      assert p.BodyLength() == 0x1_0000 + p.length - p.HeaderLength();
    }
  }

  /** A packet whose two fields have been rewritten. */
  ghost predicate Updated(p: Packet, q: Packet, little: bool, id: Word) {
    && p.Valid() && q.Valid() && q.length == p.length <= MASK && p.bytes[4] == 0 && p.bytes[5] == 0
    && q.bytes == Rewritten(p.bytes, little, id) && q.HeaderLength() == p.HeaderLength()
       && q.BodyLength() == p.BodyLength()
  }

  lemma UpdatedHeader(p: Packet, q: Packet, little: bool, id: Word)
    requires Updated(p, q, little, id) && p.HeaderOk()
    ensures q.HeaderOk() <==> p.HeaderLength() != 8 || id == 0 || id == MASK
  {
    if p.HeaderLength() == 8 {
      ShortFront(p.bytes, little, id);
      AcceptsIff(0, p.Header());
      AcceptsIff(0, q.Header());
      AddingMultiple(Words(p.Header()), Be(First(little, id), Second(little, id)));
      ZeroOrMask(little, id);
    } else {
      RewrittenWords(p.bytes, little, id, 0, p.HeaderLength());
      assert q.Header() == q.bytes[0..p.HeaderLength()] && p.Header() == p.bytes[0..p.HeaderLength()];
      AcceptsSame(0, q.Header(), p.Header());
    }
  }

  lemma UpdatedBody(p: Packet, q: Packet, little: bool, id: Word)
    requires Updated(p, q, little, id) && p.Summed() && q.Summed() && q.Pseudo() == p.Pseudo()
    requires !p.CutShort() && (p.HeaderLength() != 8 || id == 0 || id == MASK)
    ensures q.BodyOk() == p.BodyOk()
  {
    var from, to := p.HeaderLength(), p.HeaderLength() + p.BodyLength();
    BodyStart(p);
    UpdatedPart(p.bytes, little, id, from, to);
    assert p.Body() == p.bytes[from..to] && q.Body() == q.bytes[from..to];
    AcceptsSame(p.Pseudo(), q.Body(), p.Body());
  }

  lemma UpdatedCut(p: Packet, q: Packet, little: bool, id: Word)
    requires Updated(p, q, little, id) && p.Summed() && q.Summed() && q.Pseudo() == p.Pseudo()
    requires p.CutShort() && p.BodyOk()
    ensures q.BodyOk() <==> CutChange(p.bytes, little, id, p.HeaderLength(), p.length) % MASK == 0
  {
    var from, to := p.HeaderLength(), p.length;
    BodyEnd(p);
    CutWords(p.bytes, little, id, from, to);
    assert p.Body() == p.bytes[from..to] && q.Body() == q.bytes[from..to];
    AcceptsChanged(p.Pseudo(), p.Body(), q.Body(), CutChange(p.bytes, little, id, from, to));
  }

  lemma AcceptsChanged(sum: Word, p: seq<Byte>, q: seq<Byte>, d: int)
    requires Accepts(Sum(sum, p)) && Words(q) == Words(p) + d
    ensures Accepts(Sum(sum, q)) <==> d % MASK == 0
  {
    AcceptsIff(sum, p);
    AcceptsIff(sum, q);
    MultipleAdded(sum + Words(p), d);
  }

  lemma MultipleAdded(a: nat, d: int)
    requires a % MASK == 0 && a + d >= 0
    ensures (a + d) % MASK == 0 <==> d % MASK == 0
  {
    var k := a / MASK;
    assert a == MASK * k;
    assert a + d == MASK * (k + d / MASK) + d % MASK;
    Remainder(a + d, k + d / MASK, d % MASK);
  }

  lemma UpdatedPart(bytes: seq<Byte>, little: bool, id: Word, from: nat, to: nat)
    requires |bytes| >= 28 && bytes[4] == 0 && bytes[5] == 0 && (from == 0 || from == 4 || from == 8 || from >= 12)
             && from <= to && 12 <= to <= |bytes|
    requires from != 8 || id == 0 || id == MASK
    ensures Words(Rewritten(bytes, little, id)[from..to]) % MASK == Words(bytes[from..to]) % MASK
  {
    if from == 8 {
      ShortRest(bytes, little, id, to);
    } else {
      RewrittenWords(bytes, little, id, from, to);
    }
  }

  lemma ZeroOrMask(little: bool, id: Word)
    ensures var w := Be(First(little, id), Second(little, id)); (w == 0 || w == MASK) == (id == 0 || id == MASK)
  {
  }

  /** The start of `write_to_serial`: a packet without identification gets the next one, if the flag
      that the source looks at is set. Packets with a code other than zero are dropped. */
  method PrepareForSerial(ip: array<Byte>, length: nat, little: bool, id: Word, ghost p: Packet) returns (code: int)
    requires p == Packet(ip[..], length) && p.Valid()
    modifies ip
    ensures p.Check() != 0 ==> code != 0 && ip[..] == p.bytes
    ensures p.Check() == 0 && !NeedsId(p.bytes, little) ==> code == 0 && ip[..] == p.bytes
    ensures p.Check() == 0 && NeedsId(p.bytes, little) ==>
              && ip[..] == Rewritten(p.bytes, little, id)
              && (code == 0 <==> Kept(p, little, id))
  {
    code := CheckIp(ip, length);
    if code != 0 {
      return;
    }
    var needed := LacksId(ip, little);
    if needed {
      UpdateKeepsAcceptance(p, little, id);
      SetId(ip, little, id);
      code := CheckIp(ip, length);
    }
  }

  /** The test before the identification is set. */
  method LacksId(ip: array<Byte>, little: bool) returns (needed: bool)
    requires ip.Length >= 28
    ensures needed == NeedsId(ip[..], little)
  {
    ZeroHost(little, ip[4], ip[5]);
    needed := Host(little, ip[4], ip[5]) == 0 && FlagSet(little, ip[6], ip[7]);
  }

  /** Bit 14 of the offset field in the order of the host: on a little-endian host that is not
      the flag DF. */
  predicate FlagSet(little: bool, first: Byte, second: Byte) {
    Host(little, first, second) / 0x4000 % 2 == 1
  }

  lemma ZeroHost(little: bool, first: Byte, second: Byte)
    ensures Host(little, first, second) == 0 <==> first == 0 && second == 0
  {
  }

  method SetId(ip: array<Byte>, little: bool, id: Word)
    requires ip.Length >= 28
    modifies ip
    ensures ip[..] == Rewritten(old(ip[..]), little, id)
  {
    var sum := AddCarry(Host(little, ip[10], ip[11]), MASK - id);
    ip[4], ip[5] := First(little, id), Second(little, id);
    ip[10], ip[11] := First(little, sum), Second(little, sum);
  }

  predicate NeedsId(bytes: seq<Byte>, little: bool)
    requires |bytes| >= 28
  {
    bytes[4] == 0 && bytes[5] == 0 && FlagSet(little, bytes[6], bytes[7])
  }

  /** A packet with a header of eight bytes, in a buffer of 28. */
  function Short(): Packet {
    Packet([0x42, 0, 0, 12, 0, 0, 0xBD, 0xF3, 0x40, 0x63, 0, 0] + seq(16, i => 0), 12)
  }

  /** Such packets exist: on a little-endian host this one is accepted and given an
      identification, and then refused unless that is 0 or 0xffff. */
  lemma ShortRefused(id: Word)
    ensures Short().Valid() && Short().HeaderLength() == 8 && Short().Check() == 0 && NeedsId(Short().bytes, true)
    ensures var q := Packet(Rewritten(Short().bytes, true, id), Short().length);
            q.Valid() && (id != 0 && id != MASK ==> q.Check() == -4)
  {
    ShortFacts(Short());
    UpdateKeepsAcceptance(Short(), true, id);
    OtherBytes(Short().bytes, true, id);
  }

  lemma ShortFacts(p: Packet)
    requires p == Short()
    ensures p.Valid() && p.HeaderLength() == 8 && !p.Summed() && Be(p.bytes[2], p.bytes[3]) == 12
    ensures p.Check() == 0 && NeedsId(p.bytes, true)
  {
    assert p.bytes[0] == 0x42 && p.bytes[9] == 0x63;
    var h := p.Header();
    assert h == p.bytes[..8];
    ShortHeaderOk(h);
    assert FlagSet(true, 0xBD, 0xF3);
  }

  lemma ShortHeaderOk(h: seq<Byte>)
    requires h == [0x42, 0, 0, 12, 0, 0, 0xBD, 0xF3]
    ensures Accepts(Sum(0, h))
  {
    FourWords(h);
    AcceptsIff(0, h);
  }

  /** An ICMP packet of ten bytes whose header claims to have none, in a buffer of 28. */
  function Cut(): Packet {
    Packet([0x40, 0, 0, 10, 0, 0, 0xBF, 0xF4, 0, 1] + seq(18, i => 0), 10)
  }

  /** Packets that are cut short exist too: here the identification is summed behind the header,
      and the checksum field lies behind the packet. */
  lemma CutRefused(id: Word)
    ensures Cut().Valid() && Cut().CutShort() && Cut().Check() == 0 && NeedsId(Cut().bytes, true)
    ensures var q := Packet(Rewritten(Cut().bytes, true, id), Cut().length);
            q.Valid() && (q.Check() == 0 <==> id == 0 || id == MASK)
  {
    CutFacts(Cut());
    UpdateKeepsAcceptance(Cut(), true, id);
    ZeroOrMask(true, id);
    OneMultiple(Be(First(true, id), Second(true, id)));
  }

  lemma OneMultiple(w: Word)
    ensures w % MASK == 0 <==> w == 0 || w == MASK
  {
  }

  lemma CutFacts(p: Packet)
    requires p == Cut()
    ensures p.Valid() && p.HeaderLength() == 0 && p.length == 10 && p.bytes[4] == 0 && p.bytes[5] == 0
    ensures p.Check() == 0 && p.Summed() && !p.Disabled() && NeedsId(p.bytes, true)
  {
    assert p.bytes[0] == 0x40 && p.bytes[9] == 1 && Be(p.bytes[2], p.bytes[3]) == 10;
    BodyEnd(p);
    var b := p.Body();
    assert b == p.bytes[..10];
    CutBodyOk(b);
    assert FlagSet(true, 0xBF, 0xF4);
  }

  lemma CutBodyOk(b: seq<Byte>)
    requires b == [0x40, 0, 0, 10, 0, 0, 0xBF, 0xF4, 0, 1]
    ensures Accepts(Sum(0, b))
  {
    FourWords(b[2..]);
    AcceptsIff(0, b);
  }

  lemma FourWords(p: seq<Byte>)
    requires |p| == 8
    ensures Words(p) == Be(p[0], p[1]) + Be(p[2], p[3]) + Be(p[4], p[5]) + Be(p[6], p[7])
  {
    TwoWords(p[4..]);
    assert p[2..][2..] == p[4..];
  }

  lemma TwoWords(p: seq<Byte>)
    requires |p| == 4
    ensures Words(p) == Be(p[0], p[1]) + Be(p[2], p[3])
  {
    assert p[2..][2..] == [];
    assert Words(p[2..]) == Be(p[2..][0], p[2..][1]) + Words([]);
  }

  // ----- filling in a packet -----

  function High(w: Word): Byte { w / 256 }

  function Low(w: Word): Byte { w % 256 }

  lemma BeParts(w: Word)
    ensures Be(High(w), Low(w)) == w
  {
  }

  /** Adding the complement of a sum to a part whose field is still zero makes the check succeed. */
  lemma ComplementAccepted(sum: Word, p: seq<Byte>, k: nat, w: Word)
    requires 2 * k + 1 < |p| && p[2 * k] == 0 && p[2 * k + 1] == 0
    requires w == MASK - Sum(sum, p) || (Sum(sum, p) == MASK && w == MASK)
    ensures Accepts(Sum(sum, p[2 * k := High(w)][2 * k + 1 := Low(w)]))
  {
    WordsUpdate(p, k, High(w), Low(w));
    BeParts(w);
    MoreWords(sum, p, p[2 * k := High(w)][2 * k + 1 := Low(w)], w);
  }

  lemma MoreWords(sum: Word, p: seq<Byte>, q: seq<Byte>, w: Word)
    requires Words(q) == Words(p) + w
    requires w == MASK - Sum(sum, p) || (Sum(sum, p) == MASK && w == MASK)
    ensures Accepts(Sum(sum, q))
  {
    SumModulo(sum, p);
    ComplementAdded(sum, Words(p), Sum(sum, p), w);
    AcceptsIff(sum, q);
  }

  lemma ComplementAdded(sum: Word, words: nat, s: Word, w: Word)
    requires s % MASK == (sum + words) % MASK
    requires w == MASK - s || (s == MASK && w == MASK)
    ensures (sum + (words + w)) % MASK == 0
  {
    SameShift(w, sum + words, s);
    assert w + s == MASK || w + s == 2 * MASK;
    assert w + (sum + words) == sum + (words + w);
  }

  const DHCP_BASE_LEN: nat := 4 * 7 + 16

  /** The length of the packet that carries a DHCP message with `optlen` bytes of options. */
  function RelayLength(optlen: nat): nat {
    20 + 8 + DHCP_BASE_LEN + optlen
  }

  /** The IP header that `relay_dhcp_to_client` sets in front of the message, without its checksum. */
  method FillIp(p: array<Byte>, optlen: nat, id: Word, source: seq<Byte>, destination: seq<Byte>)
    requires optlen <= 312 && p.Length >= RelayLength(optlen) && |source| == |destination| == 4
    modifies p
    ensures p[0] == 0x45 && p[9] == 17 && p[10] == 0 && p[11] == 0 && Be(p[2], p[3]) == RelayLength(optlen)
    ensures Be(p[4], p[5]) == id && p[12..20] == source + destination
    ensures p[20..] == old(p[20..])
  {
    p[0], p[1], p[6], p[7], p[8], p[9], p[10], p[11] := 0x45, 0, 0, 0, 64, 17, 0, 0;
    p[2], p[3] := High(RelayLength(optlen)), Low(RelayLength(optlen));
    p[4], p[5] := High(id), Low(id);
    BeParts(RelayLength(optlen));
    BeParts(id);
    ghost var front := p[..12];
    FillAddresses(p, source, destination);
    assert front[0] == 0x45 && front[2] == p[2] && front[3] == p[3] && front[4] == p[4] && front[5] == p[5];
    assert front[9] == p[9] && front[10] == p[10] && front[11] == p[11];
  }

  method FillAddresses(p: array<Byte>, source: seq<Byte>, destination: seq<Byte>)
    requires p.Length >= 28 && |source| == |destination| == 4
    modifies p
    ensures p[12..20] == source + destination && p[..12] == old(p[..12]) && p[20..] == old(p[20..])
  {
    p[12], p[13], p[14], p[15] := source[0], source[1], source[2], source[3];
    p[16], p[17], p[18], p[19] := destination[0], destination[1], destination[2], destination[3];
  }

  /** The UDP header, without its checksum. */
  method FillUdp(p: array<Byte>, udpLength: nat)
    requires udpLength <= MASK && p.Length >= 28
    modifies p
    ensures Be(p[20], p[21]) == 67 && Be(p[22], p[23]) == 68 && Be(p[24], p[25]) == udpLength && p[26] == 0
            && p[27] == 0
    ensures p[..20] == old(p[..20]) && p[28..] == old(p[28..])
  {
    p[20], p[21], p[22], p[23] := 0, 67, 0, 68;
    p[24], p[25], p[26], p[27] := High(udpLength), Low(udpLength), 0, 0;
  }

  /** The checksum of the header. */
  method FillHeaderSum(p: array<Byte>)
    requires p.Length >= 28 && p[10] == 0 && p[11] == 0
    modifies p
    ensures Accepts(Sum(0, p[..20])) && p[..10] == old(p[..10]) && p[12..] == old(p[12..])
  {
    var sum := Ip4Sum(0, p, 0, 20);
    ghost var header: seq<Byte> := p[..20];
    assert p[0..0 + 20] == header;
    var w: Word := MASK - sum;
    p[10], p[11] := High(w), Low(w);
    assert p[..20] == header[10 := High(w)][11 := Low(w)];
    ComplementAccepted(0, header, 5, w);
  }

  /** The checksum of the UDP part of `udpLength` bytes. */
  method FillUdpSum(p: array<Byte>, udpLength: nat)
    requires 8 <= udpLength && 17 + udpLength <= MASK && 20 + udpLength <= p.Length && p[26] == 0 && p[27] == 0
    modifies p
    ensures Accepts(Sum(Sum(17 + udpLength, p[12..20]), p[20..20 + udpLength]))
    ensures p[..26] == old(p[..26]) && p[28..] == old(p[28..]) && Be(p[26], p[27]) != 0
  {
    ghost var udp: seq<Byte> := p[20..20 + udpLength];
    var first := Ip4Sum(17 + udpLength, p, 12, 8);
    var sum := Ip4Sum(first, p, 20, udpLength);
    var w: Word := if sum != MASK then MASK - sum else MASK;
    p[26], p[27] := High(w), Low(w);
    assert p[20..20 + udpLength] == udp[6 := High(w)][7 := Low(w)];
    assert p[12..20] == old(p[12..20]) && p[12..12 + 8] == p[12..20];
    ComplementAccepted(first, udp, 3, w);
  }

  /** The part of `relay_dhcp_to_client` that fills in the headers: the packet passes the check. */
  method FillIn(p: array<Byte>, optlen: nat, id: Word, source: seq<Byte>, destination: seq<Byte>)
    requires optlen <= 312 && p.Length >= RelayLength(optlen) && |source| == |destination| == 4
    modifies p
    ensures Packet(p[..], RelayLength(optlen)).Valid() && Packet(p[..], RelayLength(optlen)).Check() == 0
    ensures p[28..] == old(p[28..]) && Be(p[26], p[27]) != 0
  {
    var udpLength := RelayLength(optlen) - 20;
    ghost var d0 := p[..];
    FillIp(p, optlen, id, source, destination);
    ghost var d1 := p[..];
    FillUdp(p, udpLength);
    ghost var d2 := p[..];
    FillHeaderSum(p);
    SameTail(d2, p[..], 12, 26);
    SameTail(d2, p[..], 12, 28);
    ghost var d3 := p[..];
    FillUdpSum(p, udpLength);
    SameTail(d0, d1, 20, 28);
    SameFront(d1, d2, 20, 10);
    SameFront(d3, p[..], 26, 20);
    assert p[..20][..10] == d1[..10];
    Passes(Packet(p[..], RelayLength(optlen)), p[..20], p[20..RelayLength(optlen)], p[12..20]);
  }

  lemma SameTail(d: seq<Byte>, e: seq<Byte>, n: nat, m: nat)
    requires n <= m < |d| == |e| && d[n..] == e[n..]
    ensures d[m..] == e[m..] && d[m] == e[m]
    ensures m + 1 < |d| ==> d[m + 1] == e[m + 1]
  {
    assert d[m..] == d[n..][m - n..] && e[m..] == e[n..][m - n..];
    assert d[m..][0] == d[m] && e[m..][0] == e[m];
    if m + 1 < |d| {
      assert d[m..][1] == d[m + 1] && e[m..][1] == e[m + 1];
    }
  }

  lemma SameFront(d: seq<Byte>, e: seq<Byte>, n: nat, m: nat)
    requires m <= n <= |d| && n <= |e| && d[..n] == e[..n]
    ensures d[..m] == e[..m]
  {
    assert d[..m] == d[..n][..m] && e[..m] == e[..n][..m];
  }

  lemma Passes(q: Packet, header: seq<Byte>, body: seq<Byte>, addresses: seq<Byte>)
    requires |q.bytes| >= 28 && 28 <= q.length <= |q.bytes| && 17 + (q.length - 20) <= MASK
    requires header == q.bytes[..20] && body == q.bytes[20..q.length] && addresses == q.bytes[12..20]
    requires header[0] == 0x45 && header[9] == 17 && Be(header[2], header[3]) == q.length
    requires Accepts(Sum(0, header)) && Accepts(Sum(Sum(17 + (q.length - 20), addresses), body))
    ensures q.Valid() && q.Check() == 0
  {
    assert q.bytes[0] == header[0] && q.bytes[9] == header[9] && q.bytes[2] == header[2] && q.bytes[3] == header[3];
    assert q.HeaderLength() == 20;
    BodyEnd(q);
    assert q.Header() == header && q.Body() == body && q.Addresses() == addresses;
    assert q.Pseudo() == Sum(17 + (q.length - 20), addresses);
  }
}
