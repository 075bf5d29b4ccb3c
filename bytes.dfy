/** Java's fixed-width values as the router sees them: IPv4 addresses as 4-byte
    arrays, `short` fields, signed 32-bit `int` metrics with two's-complement
    wrap-around, and their big-endian byte images (java.nio.ByteBuffer's
    default order). */
module Bytes {

  /** A `byte[]` holding an IPv4 address. */
  type Addr = s: seq<bv8> | |s| == 4 witness [0, 0, 0, 0]

  const TWO_32: int := 0x1_0000_0000
  const TWO_31: int := 0x8000_0000

  /** The range of a Java `int`. */
  predicate IsInt32(x: int) {
    -TWO_31 <= x < TWO_31
  }

  /** A Java `int`: the range IsInt32 names, written with literals so that
      the solver sees the bounds of every Int32 value directly. */
  type Int32 = x: int | -0x8000_0000 <= x < 0x8000_0000

  /** The Java `int` whose bit pattern is the low 32 bits of `x`. */
  function Wrap32(x: int): (r: Int32)
    ensures (x - r) % TWO_32 == 0
    ensures IsInt32(x) ==> r == x
  {
    var u := x % TWO_32;
    if u >= TWO_31 then u - TWO_32 else u
  }

  /** Java's `a + b` on `int`: the mathematical sum, wrapped around once on overflow. */
  function Add32(a: Int32, b: Int32): (r: Int32)
    ensures IsInt32(a + b) ==> r == a + b
    ensures a + b >= TWO_31 ==> r == a + b - TWO_32 && r < 0
    ensures a + b < -TWO_31 ==> r == a + b + TWO_32 && r >= 0
  {
    Wrap32(a + b)
  }

  // ---- `short`: two bytes, high byte first (ByteBuffer.putShort / getShort)

  function ShortBytes(s: bv16): (b: seq<bv8>)
    ensures |b| == 2
  {
    [(s >> 8) as bv8, (s & 0xFF) as bv8]
  }

  function ShortOf(b: seq<bv8>): bv16
    requires |b| == 2
  {
    ((b[0] as bv16) << 8) | (b[1] as bv16)
  }

  lemma ShortRoundTrip(s: bv16)
    ensures ShortOf(ShortBytes(s)) == s
  {
  }

  // ---- `int`: four bytes, two's complement, high byte first (putInt / getInt)

  /** The unsigned reading of a Java `int`'s bit pattern. */
  function Unsigned(m: Int32): (u: nat)
    ensures u < TWO_32
    ensures m >= 0 ==> u == m
  {
    if m < 0 then m + TWO_32 else m
  }

  /** The Java `int` with unsigned bit pattern `u`. */
  function Signed(u: nat): Int32
    requires u < TWO_32
  {
    if u >= TWO_31 then u - TWO_32 else u
  }

  /** Base-256 digits of a 32-bit word, most significant first. */
  function Digits(u0: nat): (d: seq<nat>)
    requires u0 < TWO_32
    ensures |d| == 4 && forall i :: 0 <= i < 4 ==> d[i] < 0x100
  {
    var u1 := u0 / 0x100;
    var u2 := u1 / 0x100;
    var u3 := u2 / 0x100;
    [u3 % 0x100, u2 % 0x100, u1 % 0x100, u0 % 0x100]
  }

  function DigitsValue(d: seq<nat>): nat
    requires |d| == 4
  {
    ((d[0] * 0x100 + d[1]) * 0x100 + d[2]) * 0x100 + d[3]
  }

  function ToBytes(d: seq<nat>): (b: seq<bv8>)
    requires forall i :: 0 <= i < |d| ==> d[i] < 0x100
    ensures |b| == |d|
  {
    seq(|d|, i requires 0 <= i < |d| => Octet(d[i]))
  }

  function ToDigits(b: seq<bv8>): (d: seq<nat>)
    ensures |d| == |b| && forall i :: 0 <= i < |d| ==> d[i] < 0x100
  {
    seq(|b|, i requires 0 <= i < |b| => b[i] as nat)
  }

  function IntBytes(m: Int32): (b: seq<bv8>)
    ensures |b| == 4
  {
    ToBytes(Digits(Unsigned(m)))
  }

  function IntOf(b: seq<bv8>): Int32
    requires |b| == 4
  {
    Signed(DigitsValue(ToDigits(b)))
  }

  lemma DigitsRoundTrip(u0: nat)
    requires u0 < TWO_32
    ensures DigitsValue(Digits(u0)) == u0
  {
    var u1 := u0 / 0x100;
    var u2 := u1 / 0x100;
    var u3 := u2 / 0x100;
    assert u3 < 0x100;
  }

  lemma BytesRoundTrip(d: seq<nat>)
    requires forall i :: 0 <= i < |d| ==> d[i] < 0x100
    ensures ToDigits(ToBytes(d)) == d
  {
    forall i | 0 <= i < |d|
      ensures ToDigits(ToBytes(d))[i] == d[i]
    {
      OctetValue(d[i]);
    }
  }

  /** The byte whose unsigned value is `k`, built bit by bit from the low
      end (the same byte as the cast `(byte) k`). */
  function Octet(k: nat): (b: bv8)
    requires k < 0x100
  {
    if k == 0 then 0 else (Octet(k / 2) << 1) | (if k % 2 == 1 then 1 else 0)
  }

  lemma {:induction false} OctetValue(k: nat)
    requires k < 0x100
    ensures Octet(k) as nat == k
  {
    if k > 0 {
      OctetValue(k / 2);
      var x := Octet(k / 2);
      assert x as nat < 0x80;
    }
  }

  /** getInt reads back what putInt wrote, negative values included. */
  lemma IntRoundTrip(m: Int32)
    ensures IntOf(IntBytes(m)) == m
  {
    BytesRoundTrip(Digits(Unsigned(m)));
    DigitsRoundTrip(Unsigned(m));
  }

  // ---- bit-level helpers behind RoutingTable.getNetworkPrefix and numberOfOnes

  /** Bytewise AND of an address with a subnet mask. */
  function Prefix(a: Addr, mask: Addr): (p: Addr)
  {
    seq(4, i requires 0 <= i < 4 => a[i] & mask[i])
  }

  /** A prefix has no bit outside its mask, so masking it again changes nothing. */
  lemma PrefixIsMasked(a: Addr, mask: Addr)
    ensures Prefix(Prefix(a, mask), mask) == Prefix(a, mask)
    ensures forall i :: 0 <= i < 4 ==> Prefix(a, mask)[i] & !mask[i] == 0
  {
  }

  /** Bit `i` of `b` as 0 or 1 (`(b & 2^i) >>> i` in the source). */
  function BitAt(b: bv8, i: nat): (r: nat)
    requires i < 8
    ensures r <= 1
  {
    if (b >> i) & 1 == 1 then 1 else 0
  }

  /** The number of set bits among bits 0 .. i-1 of `b`. */
  function BitsBelow(b: bv8, i: nat): (r: nat)
    requires i <= 8
  {
    if i == 0 then 0 else BitsBelow(b, i - 1) + BitAt(b, i - 1)
  }

  /** The number of set bits in a byte string. */
  function OnesCount(bs: seq<bv8>): nat
  {
    if bs == [] then 0 else OnesCount(bs[..|bs| - 1]) + BitsBelow(bs[|bs| - 1], 8)
  }

  lemma {:induction false} BitsBelowBound(b: bv8, i: nat)
    requires i <= 8
    ensures BitsBelow(b, i) <= i
  {
    if i > 0 {
      BitsBelowBound(b, i - 1);
    }
  }

  /** Each byte contributes between 0 and 8 set bits. */
  lemma {:induction false} OnesCountBound(bs: seq<bv8>)
    ensures OnesCount(bs) <= 8 * |bs|
  {
    if bs != [] {
      OnesCountBound(bs[..|bs| - 1]);
      BitsBelowBound(bs[|bs| - 1], 8);
    }
  }

  /** A byte with all bits set has eight ones, a zero byte none. */
  lemma OnesOfFullAndEmptyBytes()
    ensures BitsBelow(0xFF, 8) == 8 && BitsBelow(0, 8) == 0
  {
    assert BitsBelow(0xFF, 2) == 2 && BitsBelow(0, 2) == 0;
    assert BitsBelow(0xFF, 4) == 4 && BitsBelow(0, 4) == 0;
    assert BitsBelow(0xFF, 6) == 6 && BitsBelow(0, 6) == 0;
  }

  /** A slice of a slice is a slice of the whole. */
  lemma SliceOfSlice<T>(p: seq<T>, lo: nat, hi: nat, a: nat, b: nat)
    requires lo <= hi <= |p| && a <= b <= hi - lo
    ensures p[lo..hi][a..b] == p[lo + a..lo + b]
  {
    forall k | 0 <= k < b - a
      ensures p[lo..hi][a..b][k] == p[lo + a..lo + b][k]
    {
    }
  }
}
