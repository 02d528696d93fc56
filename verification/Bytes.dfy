// Machine integers and bytes: 32-bit unsigned arithmetic with wrap-around, the
// alignment mask, little-endian fields, and stores into a byte sequence.
module Bytes {

  newtype byte = b: int | 0 <= b < 0x100

  const U16: int := 0x1_0000
  const U32: int := 0x1_0000_0000
  const U64: int := 0x1_0000_0000_0000_0000

  // ----- 32-bit arithmetic -----

  /** C's `uint32_t` addition. The right operand may be a sign-extended `int32_t`. */
  function Add32(x: int, y: int): (r: nat)
    ensures 0 <= x + y < U32 ==> r == x + y
    ensures r < U32
  {
    (x + y) % U32
  }

  /** C's `uint32_t` subtraction. */
  function Sub32(x: int, y: int): (r: nat)
    ensures 0 <= x - y < U32 ==> r == x - y
    ensures r < U32
  {
    (x - y) % U32
  }

  /** Storing a `uint32_t` into an `int32_t`. */
  function ToI32(u: nat): (r: int)
    requires u < U32
    ensures -0x8000_0000 <= r < 0x8000_0000
  {
    if u < 0x8000_0000 then u else u - U32
  }

  /** A 64-bit statistics counter. */
  function Add64(x: nat, y: nat): (r: nat)
    ensures x + y < U64 ==> r == x + y
    ensures r < U64
  {
    (x + y) % U64
  }

  // ----- the alignment mask -----

  function Pow2(k: nat): (r: nat)
    ensures r > 0
  {
    if k == 0 then 1 else 2 * Pow2(k - 1)
  }

  /** Bitwise AND. */
  function And(x: nat, y: nat): nat
    decreases x
  {
    if x == 0 || y == 0 then 0 else (if x % 2 == 1 && y % 2 == 1 then 1 else 0) + 2 * And(x / 2, y / 2)
  }

  /** RT_ALIGN_32(u, 8): add seven with wrap-around, then clear the low three bits. */
  function Align32(u: nat): nat
  {
    And(Add32(u % U32, 7), U32 - 1 - 7)
  }

  lemma {:induction false} AndOnes(x: nat, k: nat)
    requires x < Pow2(k)
    ensures And(x, Pow2(k) - 1) == x
    decreases k
  {
    if k > 0 && x > 0 {
      var m := Pow2(k - 1) - 1;
      assert Pow2(k) - 1 == 2 * m + 1 && (2 * m + 1) % 2 == 1 && (2 * m + 1) / 2 == m;
      AndOnes(x / 2, k - 1);
      assert And(x, 2 * m + 1) == x % 2 + 2 * And(x / 2, m);
    }
  }

  lemma Pow2At29()
    ensures Pow2(29) == 0x2000_0000
  {
    assert Pow2(10) == 0x400;
    assert Pow2(20) == 0x10_0000;
  }

  lemma AndEven(x: nat, m: nat)
    ensures And(x, 2 * m) == 2 * And(x / 2, m)
  {
    assert 2 * m % 2 == 0 && 2 * m / 2 == m;
  }

  lemma AndTimes8(x: nat, m: nat)
    ensures And(x, 8 * m) == 8 * And(x / 8, m)
  {
    hide And;
    var x1 := x / 2;
    var x2 := x1 / 2;
    AndEven(x, 4 * m);
    AndEven(x1, 2 * m);
    AndEven(x2, m);
    assert x2 / 2 == x / 8;
  }

  /** Clearing the low three bits of a 32-bit word rounds it down to a multiple of eight. */
  lemma ClearLowBits(x: nat, mask: nat)
    requires x < U32 && mask == 0xFFFF_FFF8
    ensures And(x, mask) == x / 8 * 8
  {
    hide And;
    var m := Pow2(29) - 1;
    Pow2At29();
    AndTimes8(x, m);
    AndOnes(x / 8, 29);
  }

  /** The 32-bit mask computes the next multiple of eight whenever adding seven does not overflow. */
  lemma Align32IsAlign8(u: nat)
    requires u + 7 < U32
    ensures Align32(u) == Align8(u)
  {
    hide And;
    ClearLowBits(u + 7, U32 - 1 - 7);
  }

  /** The least multiple of eight that is at least `x`. */
  function Align8(x: nat): (r: nat)
    ensures r % 8 == 0 && x <= r < x + 8
  {
    (x + 7) / 8 * 8
  }

  lemma Align8Mono(u: nat, v: nat)
    requires u <= v
    ensures Align8(u) <= Align8(v)
    ensures Align8(u) != Align8(v) ==> Align8(u) + 8 <= Align8(v)
  {
  }

  lemma Align8Fixed(x: nat)
    requires x % 8 == 0
    ensures Align8(x) == x
  {
  }

  lemma Align8Shift(q: nat, x: nat)
    requires q % 8 == 0
    ensures Align8(q + x) == q + Align8(x)
  {
  }

  // ----- byte sequences -----

  /** `memcpy(d + p, bs, |bs|)` */
  function Put(d: seq<byte>, p: nat, bs: seq<byte>): (r: seq<byte>)
    requires p + |bs| <= |d|
    ensures |r| == |d|
    ensures forall x {:trigger r[x]} :: 0 <= x < |d| ==> r[x] == if p <= x < p + |bs| then bs[x - p] else d[x]
  {
    seq(|d|, x requires 0 <= x < |d| => if p <= x < p + |bs| then bs[x - p] else d[x])
  }

  lemma PutNothing(d: seq<byte>, p: nat)
    requires p <= |d|
    ensures Put(d, p, []) == d
  {
  }

  function EncU16(v: nat): (r: seq<byte>)
    requires v < U16
    ensures |r| == 2
  {
    [(v % 0x100) as byte, (v / 0x100) as byte]
  }

  function EncI32(v: int): (r: seq<byte>)
    requires -0x8000_0000 <= v < 0x8000_0000
    ensures |r| == 4
  {
    var u := v % U32;
    [(u % 0x100) as byte, (u / 0x100 % 0x100) as byte, (u / 0x1_0000 % 0x100) as byte, (u / 0x100_0000) as byte]
  }

  function U16At(d: seq<byte>, p: nat): (r: nat)
    requires p + 2 <= |d|
    ensures r < U16
  {
    d[p] as int + 0x100 * d[p + 1] as int
  }

  function I32At(d: seq<byte>, p: nat): (r: int)
    requires p + 4 <= |d|
    ensures -0x8000_0000 <= r < 0x8000_0000
  {
    ToI32(d[p] as int + 0x100 * d[p + 1] as int + 0x1_0000 * d[p + 2] as int + 0x100_0000 * d[p + 3] as int)
  }

  lemma U16RoundTrip(d: seq<byte>, p: nat, v: nat)
    requires p + 2 <= |d| && v < U16
    requires d[p..p + 2] == EncU16(v)
    ensures U16At(d, p) == v
  {
    assert d[p] == d[p..p + 2][0] && d[p + 1] == d[p..p + 2][1];
  }

  lemma Digits(u: nat)
    requires u < U32
    ensures u % 0x100 + 0x100 * (u / 0x100 % 0x100) + 0x1_0000 * (u / 0x1_0000 % 0x100)
            + 0x100_0000 * (u / 0x100_0000) == u
  {
    var b, c := u / 0x100, u / 0x1_0000;
    assert c == b / 0x100;
    assert u / 0x100_0000 == c / 0x100;
  }

  lemma I32RoundTrip(d: seq<byte>, p: nat, v: int)
    requires p + 4 <= |d| && -0x8000_0000 <= v < 0x8000_0000
    requires d[p..p + 4] == EncI32(v)
    ensures I32At(d, p) == v
  {
    var w := d[p..p + 4];
    assert d[p] == w[0] && d[p + 1] == w[1] && d[p + 2] == w[2] && d[p + 3] == w[3];
    Digits(v % U32);
  }
}
