/** The fields of a CoAP message: which options a field is sent as, and what the receiver
    makes of an option list. */
module CoapFields {
  import opened CoapOptions
  import opened CoapText

  const WORD: nat := 0x1_0000_0000

  datatype Status = NO_ERROR | BAD_REQUEST_4_00 | BAD_OPTION_4_02 | PROXYING_NOT_SUPPORTED_5_05

  /** The value of a field. */
  datatype Value =
    | Number(n: nat)
    | Flag
    | Opaque(bytes: seq<Byte>)
    | Text(text: seq<Byte>)
    | Block(num: nat, more: bool, size: nat, offset: nat)

  datatype Kind =
    | Number32Kind
    | Number16Kind
    | FlagKind
    | OpaqueKind
    | TextKind(separator: Byte)
    | BlockKind
    | ProxyKind
    | UnknownKind

  const COAP_ETAG_LEN: nat := 8
  const COAP_TOKEN_LEN: nat := 8
  const SLASH: Byte := 47
  const AMPERSAND: Byte := 38

  /** The options that are implemented, in the order in which they are sent. */
  const ORDER: seq<nat> := [1, 3, 4, 5, 6, 7, 8, 11, 12, 14, 15, 17, 20, 23, 27, 28, 35, 39, 60]

  function KindOf(number: nat): Kind {
    if number == 1 || number == 4 then OpaqueKind
    else if number == 3 then TextKind(0)
    else if number == 5 then FlagKind
    else if number == 7 then Number16Kind
    else if number == 8 || number == 11 then TextKind(SLASH)
    else if number == 15 || number == 20 then TextKind(AMPERSAND)
    else if number == 6 || number == 12 || number == 14 || number == 17 || number == 28 || number == 60
        then Number32Kind
    else if number == 23 || number == 27 then BlockKind
    else if number == 35 || number == 39 then ProxyKind
    else UnknownKind
  }

  // ----- integers and blocks -----

  /** An integer option: big-endian, without leading zero bytes. */
  function IntBytes(v: nat): seq<Byte> {
    if v == 0 then [] else IntBytes(v / 256) + [v % 256]
  }

  /** `coap_parse_int_option` */
  function ParseInt(bytes: seq<Byte>): nat {
    if bytes == [] then 0 else (ParseInt(bytes[..|bytes| - 1]) * 256 + bytes[|bytes| - 1]) % WORD
  }

  lemma {:induction false} IntRoundTrip(v: nat)
    requires v < WORD
    ensures ParseInt(IntBytes(v)) == v
  {
    if v > 0 {
      IntRoundTrip(v / 256);
      assert IntBytes(v)[..|IntBytes(v)| - 1] == IntBytes(v / 256);
    }
  }

  /** `coap_log_2` */
  function Log2(v: nat): nat {
    if v / 2 == 0 then 0 else Log2(v / 2) + 1
  }

  function Pow2(n: nat): nat {
    if n == 0 then 1 else 2 * Pow2(n - 1)
  }

  /** COAP_SERIALIZE_BLOCK_OPTION */
  function BlockBits(num: nat, more: bool, size: nat): nat {
    num * 16 + (if more then 8 else 0) + Log2(size / 16) % 16
  }

  /** The fields of a block option, from its value. */
  function BlockOf(v: nat): Value {
    Block(v / 16, v / 8 % 2 == 1, 16 * Pow2(v % 8), (v - v % 16) * Pow2(v % 8) % WORD)
  }

  predicate BlockSize(size: nat) {
    size == 16 || size == 32 || size == 64 || size == 128 || size == 256 || size == 512 || size == 1024 || size == 2048
  }

  /** A block option is read as it was set if and only if its size is a power of two, and
      the offset that the receiver computes is that of the block. */
  lemma BlockRoundTrip(num: nat, more: bool, size: nat)
    requires num <= 0xFFFFF && 16 <= size <= 2048
    ensures var b := BlockOf(BlockBits(num, more, size));
            && BlockBits(num, more, size) < 0x100_0000
            && b.num == num && b.more == more && b.offset == num * b.size
            && (b.size == size <==> BlockSize(size))
  {
    var l := Log2(size / 16);
    var v := BlockBits(num, more, size);
    LogTable(size / 16);
    PowTable(l);
    BitsApart(num, more, l, v);
    Product(num, Pow2(l));
    PowerOnly(size);
    assert BlockOf(v) == Block(num, more, 16 * Pow2(l), num * 16 * Pow2(l));
  }

  lemma BitsApart(num: nat, more: bool, l: nat, v: nat)
    requires l <= 7 && v == num * 16 + (if more then 8 else 0) + l
    ensures v % 8 == l && v / 16 == num && v - v % 16 == num * 16 && (v / 8 % 2 == 1 <==> more)
  {
    var m := if more then 1 else 0;
    assert v == (2 * num + m) * 8 + l;
    assert v / 8 == 2 * num + m && v % 8 == l;
    assert v == num * 16 + (m * 8 + l);
    assert v / 16 == num && v % 16 == m * 8 + l;
  }

  lemma Product(num: nat, p: nat)
    requires num <= 0xFFFFF && p <= 128
    ensures num * 16 * p == num * (16 * p) < WORD
  {
    assert num * p <= 0xFFFFF * p;
    assert num * 16 * p == 16 * (num * p);
    assert num * (16 * p) == 16 * (num * p);
  }

  lemma PowTable(l: nat)
    requires l <= 7
    ensures Pow2(l) == [1, 2, 4, 8, 16, 32, 64, 128][l]
  {
    if l > 0 {
      PowTable(l - 1);
    }
  }

  lemma {:induction false} LogTable(q: nat)
    requires 1 <= q <= 128
    ensures Log2(q) == if q < 2 then 0 else if q < 4 then 1 else if q < 8 then 2 else if q < 16 then 3
                       else if q < 32 then 4 else if q < 64 then 5 else if q < 128 then 6 else 7
  {
    if q >= 2 {
      LogTable(q / 2);
    }
  }

  lemma PowerOnly(size: nat)
    requires 16 <= size <= 2048
    ensures 16 * Pow2(Log2(size / 16)) == size <==> BlockSize(size)
  {
    LogTable(size / 16);
    PowTable(Log2(size / 16));
  }
}
