/**
 * Fixed-width integers and their little-endian byte images, as the CAN
 * payloads of a CANopen drive carry them. Every multi-byte field on the bus
 * is little-endian; signed fields are two's complement.
 */
module Bytes {

  type u8 = x: int | 0 <= x < 0x100
  type u16 = x: int | 0 <= x < 0x1_0000
  type u32 = x: int | 0 <= x < 0x1_0000_0000
  type i8 = x: int | -0x80 <= x < 0x80
  type i16 = x: int | -0x8000 <= x < 0x8000
  type i32 = x: int | -0x8000_0000 <= x < 0x8000_0000

  /** 256 to the power n: the number of distinct values n bytes can hold. */
  function Pow256(n: nat): (p: nat)
    ensures p >= 1
  {
    if n == 0 then 1 else 256 * Pow256(n - 1)
  }

  lemma Pow256Values()
    ensures Pow256(1) == 0x100
    ensures Pow256(2) == 0x1_0000
    ensures Pow256(3) == 0x100_0000
    ensures Pow256(4) == 0x1_0000_0000
  {
  }

  /** The unsigned value of a little-endian byte string (bs[0] least significant). */
  function LeValue(bs: seq<u8>): (v: nat)
    ensures v < Pow256(|bs|)
  {
    if |bs| == 0 then 0 else bs[0] + 256 * LeValue(bs[1..])
  }

  /** The n low-order bytes of x, least significant first. */
  function LeBytes(x: nat, n: nat): (bs: seq<u8>)
    ensures |bs| == n
    ensures x < Pow256(n) ==> LeValue(bs) == x
  {
    if n == 0 then [] else [x % 256] + LeBytes(x / 256, n - 1)
  }

  /** Reading a byte string as a number and writing it back gives the same bytes. */
  lemma {:induction false} LeBytesOfValue(bs: seq<u8>)
    ensures LeBytes(LeValue(bs), |bs|) == bs
  {
    if |bs| > 0 {
      var v := LeValue(bs);
      assert v % 256 == bs[0] && v / 256 == LeValue(bs[1..]);
      LeBytesOfValue(bs[1..]);
    }
  }

  /** Half the range of n bytes: the first value whose top bit is set. */
  function Half(n: nat): (h: int)
    requires 1 <= n
    ensures 2 * h == Pow256(n)
  {
    128 * Pow256(n - 1)
  }

  /**
   * Two's-complement reading of an n-byte unsigned value: the one value in
   * the signed n-byte range that differs from u by a multiple of 256^n.
   */
  function Signed(u: nat, n: nat): (v: int)
    requires 1 <= n && u < Pow256(n)
    ensures -Half(n) <= v < Half(n)
    ensures v == u || v == u - Pow256(n)
  {
    if u >= Half(n) then u - Pow256(n) else u
  }

  /** Two's-complement encoding of a signed value into the unsigned range of n bytes. */
  function Unsigned(v: int, n: nat): (u: nat)
    requires 1 <= n && -Half(n) <= v < Half(n)
    ensures u < Pow256(n)
    ensures u == v || u == v + Pow256(n)
    ensures Signed(u, n) == v
  {
    if v < 0 then v + Pow256(n) else v
  }

  /** Encoding after decoding is the identity on the unsigned side as well. */
  lemma UnsignedOfSigned(u: nat, n: nat)
    requires 1 <= n && u < Pow256(n)
    ensures Unsigned(Signed(u, n), n) == u
  {
  }

  /**
   * The two's-complement reading of a little-endian byte string; writing the
   * result back into as many bytes reproduces the string.
   */
  function SignedLe(bs: seq<u8>): (v: int)
    requires 1 <= |bs|
    ensures -Half(|bs|) <= v < Half(|bs|)
    ensures LeBytes(Unsigned(v, |bs|), |bs|) == bs
  {
    LeBytesOfValue(bs);
    UnsignedOfSigned(LeValue(bs), |bs|);
    Signed(LeValue(bs), |bs|)
  }

  function Signed32(u: u32): (v: i32)
    ensures Unsigned(v, 4) == u
  {
    Pow256Values();
    Signed(u, 4)
  }

  function Unsigned32(v: i32): (u: u32)
    ensures Signed32(u) == v
  {
    Pow256Values();
    Unsigned(v, 4)
  }

  /** A status or command word seen as a 32-bit pattern, for bit masking. */
  function Bits(w: u32): bv32 {
    w as bv32
  }

  /** A byte below a multiple of 256 splits off by division and remainder. */
  lemma SplitByte(hi: nat, lo: nat)
    requires lo < 0x100
    ensures (hi * 0x100 + lo) / 0x100 == hi && (hi * 0x100 + lo) % 0x100 == lo
  {
  }

  /** Sixteen low bits below a multiple of 2^16 split off by division and remainder. */
  lemma SplitHalfWord(hi: nat, lo: nat)
    requires lo < 0x1_0000
    ensures (hi * 0x1_0000 + lo) / 0x1_0000 == hi && (hi * 0x1_0000 + lo) % 0x1_0000 == lo
  {
  }

  /** The first n little-endian bytes of x are its n-byte encoding. */
  lemma {:induction false} LeBytesPrefix(x: nat, m: nat, n: nat)
    requires n <= m
    ensures LeBytes(x, m)[..n] == LeBytes(x, n)
  {
    if n > 0 {
      LeBytesPrefix(x / 256, m - 1, n - 1);
    }
  }
}
