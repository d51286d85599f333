/** The option format of CoAP (section 3.1 of RFC 7252): options in increasing order of
    their numbers, each with the difference to the number before it and its length. */
module CoapOptions {
  import opened Common

  type Byte = b: nat | b < 256

  datatype Opt = Opt(number: nat, value: seq<Byte>)

  /** The largest delta or length that two extension bytes can express. */
  const MAX_EXTENDED: nat := 65535 + 269

  /** `coap_option_nibble` */
  function Nibble(v: nat): Byte {
    if v < 13 then v else if v <= 0xFF + 13 then 13 else 14
  }

  /** The extension bytes of a delta or a length. */
  function Extension(v: nat): (s: seq<Byte>)
    ensures |s| <= 2
  {
    if v > 268 then [(v - 269) / 256 % 256, (v - 269) % 256] else if v > 12 then [v - 13] else []
  }

  function Header(delta: nat, length: nat): (s: seq<Byte>)
    ensures 1 <= |s| <= 5
  {
    [Nibble(delta) * 16 + Nibble(length)] + Extension(delta) + Extension(length)
  }

  function Previous(opts: seq<Opt>, k: nat): nat
    requires k <= |opts|
  {
    if k == 0 then 0 else opts[k - 1].number
  }

  /** Option `k` has a delta and a length that can be expressed. */
  predicate Fits(opts: seq<Opt>, k: nat)
    requires k < |opts|
  {
    0 <= opts[k].number - Previous(opts, k) <= MAX_EXTENDED && |opts[k].value| <= MAX_EXTENDED
  }

  predicate Ordered(opts: seq<Opt>) {
    forall k :: 0 <= k < |opts| ==> Fits(opts, k)
  }

  function EncodeOption(previous: nat, o: Opt): (s: seq<Byte>)
    requires previous <= o.number
    ensures |s| >= 1 && s[0] < 0xF0
  {
    Header(o.number - previous, |o.value|) + o.value
  }

  /** The bytes of each option. */
  function Chunks(opts: seq<Opt>): (c: seq<seq<Byte>>)
    requires Ordered(opts)
    ensures |c| == |opts|
  {
    seq(|opts|, k requires 0 <= k < |opts| =>
      assert Fits(opts, k);
      EncodeOption(Previous(opts, k), opts[k]))
  }

  /** The chunks from the `n`-th on, one after the other. */
  function Flatten(c: seq<seq<Byte>>, n: nat): seq<Byte>
    requires n <= |c|
    decreases |c| - n
  {
    if n == |c| then [] else c[n] + Flatten(c, n + 1)
  }

  /** The bytes of an option list. */
  function Encode(opts: seq<Opt>): seq<Byte>
    requires Ordered(opts)
  {
    Flatten(Chunks(opts), 0)
  }

  lemma {:induction false} FlattenAppend(c: seq<seq<Byte>>, d: seq<Byte>, n: nat)
    requires n <= |c|
    ensures Flatten(c + [d], n) == Flatten(c, n) + d
    decreases |c| - n
  {
    if n == |c| {
      assert Flatten(c + [d], n) == d + [];
    } else {
      FlattenAppend(c, d, n + 1);
      Assoc(c[n], Flatten(c, n + 1), d);
    }
  }

  lemma {:induction false} FlattenSplit(c: seq<seq<Byte>>, n: nat)
    requires n <= |c|
    ensures Flatten(c, 0) == Flatten(c[..n], 0) + Flatten(c, n)
  {
    if n == 0 {
      assert Flatten(c[..0], 0) == [];
    } else {
      FlattenSplit(c, n - 1);
      FlattenAppend(c[..n - 1], c[n - 1], 0);
      assert c[..n] == c[..n - 1] + [c[n - 1]];
      Assoc(Flatten(c[..n - 1], 0), c[n - 1], Flatten(c, n));
    }
  }

  lemma PrefixOrdered(opts: seq<Opt>, n: nat)
    requires Ordered(opts) && n <= |opts|
    ensures Ordered(opts[..n]) && Chunks(opts[..n]) == Chunks(opts)[..n]
  {
    forall k | 0 <= k < n ensures Fits(opts[..n], k) {
      assert Fits(opts, k);
    }
    forall k | 0 <= k < n ensures Chunks(opts[..n])[k] == Chunks(opts)[k] {
      assert Previous(opts[..n], k) == Previous(opts, k);
    }
  }

  /** Appending an option appends its bytes. */
  lemma EncodeAppend(opts: seq<Opt>, o: Opt)
    requires Ordered(opts) && 0 <= o.number - Previous(opts, |opts|) <= MAX_EXTENDED && |o.value| <= MAX_EXTENDED
    ensures Ordered(opts + [o]) && Encode(opts + [o]) == Encode(opts) + EncodeOption(Previous(opts, |opts|), o)
  {
    var all := opts + [o];
    forall k | 0 <= k < |all| ensures Fits(all, k) {
      assert k < |opts| ==> Fits(opts, k);
    }
    PrefixOrdered(all, |opts|);
    assert all[..|opts|] == opts;
    assert Chunks(all) == Chunks(opts) + [EncodeOption(Previous(opts, |opts|), o)];
    FlattenAppend(Chunks(opts), EncodeOption(Previous(opts, |opts|), o), 0);
  }

  /** The bytes after the options: nothing, or the payload behind its marker. */
  predicate Ends(tail: seq<Byte>) {
    tail == [] || tail[0] >= 0xF0
  }

  lemma HeaderUnique(d: nat, l: nat, e: nat, m: nat, x: seq<Byte>, y: seq<Byte>)
    requires d <= MAX_EXTENDED && l <= MAX_EXTENDED && e <= MAX_EXTENDED && m <= MAX_EXTENDED
    requires Header(d, l) + x == Header(e, m) + y
    ensures d == e && l == m && x == y
  {
    var s, t := [Nibble(d) * 16 + Nibble(l)], [Nibble(e) * 16 + Nibble(m)];
    Assoc(s + Extension(d), Extension(l), x);
    Assoc(s, Extension(d), Extension(l) + x);
    Assoc(t + Extension(e), Extension(m), y);
    Assoc(t, Extension(e), Extension(m) + y);
    SameLength(s, t, Extension(d) + (Extension(l) + x), Extension(e) + (Extension(m) + y));
    assert s[0] == t[0] && Nibble(d) == Nibble(e) && Nibble(l) == Nibble(m);
    ExtensionUnique(d, e, Extension(l) + x, Extension(m) + y);
    ExtensionUnique(l, m, x, y);
  }

  lemma ExtensionUnique(d: nat, e: nat, x: seq<Byte>, y: seq<Byte>)
    requires d <= MAX_EXTENDED && e <= MAX_EXTENDED && Nibble(d) == Nibble(e) && Extension(d) + x == Extension(e) + y
    ensures d == e && x == y
  {
    var s, t := Extension(d) + x, Extension(e) + y;
    var n := |Extension(d)|;
    assert n == |Extension(e)| && x == s[n..] && y == t[n..];
    assert n >= 1 ==> Extension(d)[0] == s[0] && Extension(e)[0] == t[0];
    assert n >= 2 ==> Extension(d)[1] == s[1] && Extension(e)[1] == t[1];
  }

  lemma OptionUnique(previous: nat, a: Opt, b: Opt, x: seq<Byte>, y: seq<Byte>)
    requires 0 <= a.number - previous <= MAX_EXTENDED && 0 <= b.number - previous <= MAX_EXTENDED
    requires |a.value| <= MAX_EXTENDED && |b.value| <= MAX_EXTENDED
    requires EncodeOption(previous, a) + x == EncodeOption(previous, b) + y
    ensures a == b && x == y
  {
    Assoc(Header(a.number - previous, |a.value|), a.value, x);
    Assoc(Header(b.number - previous, |b.value|), b.value, y);
    HeaderUnique(a.number - previous, |a.value|, b.number - previous, |b.value|, a.value + x, b.value + y);
    SameLength(a.value, b.value, x, y);
  }

  lemma SameLength(a: seq<Byte>, b: seq<Byte>, x: seq<Byte>, y: seq<Byte>)
    requires |a| == |b| && a + x == b + y
    ensures a == b && x == y
  {
    assert a == (a + x)[..|a|] && b == (b + y)[..|b|] && x == (a + x)[|a|..] && y == (b + y)[|b|..];
  }

  /** What follows a token has at most one reading as options and the rest. */
  lemma {:induction false} EncodeUniqueFrom(a: seq<Opt>, b: seq<Opt>, x: seq<Byte>, y: seq<Byte>, n: nat)
    requires Ordered(a) && Ordered(b) && Ends(x) && Ends(y) && n <= |a| && n <= |b| && a[..n] == b[..n]
    requires Flatten(Chunks(a), n) + x == Flatten(Chunks(b), n) + y
    ensures a == b && x == y
    decreases |a| - n
  {
    EndsIffNone(a, x, n);
    EndsIffNone(b, y, n);
    if n == |a| {
      assert a == a[..n] && b == b[..n];
      assert [] + x == x && [] + y == y;
    } else {
      var ca, cb := Chunks(a), Chunks(b);
      Assoc(ca[n], Flatten(ca, n + 1), x);
      Assoc(cb[n], Flatten(cb, n + 1), y);
      ChunkUnique(a, b, Flatten(ca, n + 1) + x, Flatten(cb, n + 1) + y, n);
      EncodeUniqueFrom(a, b, x, y, n + 1);
    }
  }

  lemma ChunkUnique(a: seq<Opt>, b: seq<Opt>, x: seq<Byte>, y: seq<Byte>, n: nat)
    requires Ordered(a) && Ordered(b) && n < |a| && n < |b| && a[..n] == b[..n]
    requires Chunks(a)[n] + x == Chunks(b)[n] + y
    ensures x == y && a[..n + 1] == b[..n + 1]
  {
    assert n > 0 ==> a[..n][n - 1] == b[..n][n - 1];
    assert Fits(a, n) && Fits(b, n);
    OptionUnique(Previous(a, n), a[n], b[n], x, y);
    assert a[..n + 1] == a[..n] + [a[n]] && b[..n + 1] == b[..n] + [b[n]];
  }

  lemma EncodeUnique(a: seq<Opt>, b: seq<Opt>, x: seq<Byte>, y: seq<Byte>)
    requires Ordered(a) && Ordered(b) && Ends(x) && Ends(y) && Encode(a) + x == Encode(b) + y
    ensures a == b && x == y
  {
    EncodeUniqueFrom(a, b, x, y, 0);
  }

  /** Options do not begin like a payload. */
  lemma EndsIffNone(a: seq<Opt>, x: seq<Byte>, n: nat)
    requires Ordered(a) && Ends(x) && n <= |a|
    ensures Ends(Flatten(Chunks(a), n) + x) <==> n == |a|
  {
    if n == |a| {
      assert Flatten(Chunks(a), n) + x == x;
    } else {
      assert Fits(a, n);
      assert Flatten(Chunks(a), n)[0] == Chunks(a)[n][0];
    }
  }
}
