/** The byte swaps of cpdup (misc.c), for a peer of the other byte order. */
module CpdupSwap {

  function Swap16(v: bv16): bv16 {
    ((v & 0xff) << 8) | ((v >> 8) & 0xff)
  }

  function Swap32(v: bv32): bv32 {
    ((v & 0xff) << 24) | ((v & 0xff00) << 8) | ((v >> 8) & 0xff00) | ((v >> 24) & 0xff)
  }

  function High(v: bv64): bv32 {
    ((v >> 32) & 0xffff_ffff) as bv32
  }

  function Low(v: bv64): bv32 {
    (v & 0xffff_ffff) as bv32
  }

  function Plain(lo: bv32, hi: bv32): bv64 {
    (lo as bv64) | ((hi as bv64) << 32)
  }

  /** Two halves joined as signed numbers: flipping the sign bit and subtracting it fills the high
      half with it.  That is harmless when the low half is not negative, or the high half is -1. */
  function Join(lo: bv32, hi: bv32): (r: bv64)
    ensures r == Plain(lo, hi) <==> lo & 0x8000_0000 == 0 || hi == 0xffff_ffff
  {
    (((lo as bv64) ^ 0x8000_0000) - 0x8000_0000) | ((((hi as bv64) ^ 0x8000_0000) - 0x8000_0000) << 32)
  }

  /** hc_bswap64 */
  function Swap64(v: bv64): bv64 {
    Join(Swap32(High(v)), Swap32(Low(v)))
  }

  /** All eight bytes in reverse order. */
  function Reverse64(v: bv64): bv64 {
    Plain(Swap32(High(v)), Swap32(Low(v)))
  }

  // A number as its bytes, the first one in memory first.

  function Little16(a: bv8, b: bv8): bv16 {
    (a as bv16) | ((b as bv16) << 8)
  }

  function Little32(a: bv8, b: bv8, c: bv8, d: bv8): bv32 {
    (a as bv32) | ((b as bv32) << 8) | ((c as bv32) << 16) | ((d as bv32) << 24)
  }

  /** What a peer of the other byte order sends comes out as it was meant. */
  lemma Swap16Reverses(a: bv8, b: bv8)
    ensures Swap16(Little16(a, b)) == Little16(b, a)
  {
  }

  lemma Swap32Reverses(a: bv8, b: bv8, c: bv8, d: bv8)
    ensures Swap32(Little32(a, b, c, d)) == Little32(d, c, b, a)
  {
  }

  lemma Swap32Twice(v: bv32)
    ensures Swap32(Swap32(v)) == v
  {
  }

  lemma SwapSamples()
    ensures Swap16(0x0102) == 0x0201 && Swap32(0x0102_0304) == 0x0403_0201
    ensures Reverse64(0x0102_0304_0506_0708) == Swap64(0x0102_0304_0506_0708) == 0x0807_0605_0403_0201
  {
  }

  lemma SignBit(v: bv32)
    ensures Swap32(v) & 0x8000_0000 == 0 <==> v & 0x80 == 0
    ensures Swap32(v) == 0xffff_ffff <==> v == 0xffff_ffff
  {
  }

  lemma Bit39(v: bv64)
    ensures High(v) & 0x80 == 0 <==> v & 0x80_0000_0000 == 0
  {
  }

  /** hc_bswap64 reverses the bytes exactly when bit 39 is clear, because the low half of the
      result is extended with its sign, or when that does no harm. */
  lemma Swap64Exact(v: bv64)
    ensures Swap64(v) == Reverse64(v) <==> v & 0x80_0000_0000 == 0 || Low(v) == 0xffff_ffff
  {
    hide Swap32, High, Low, Join, Plain;
    SignBit(High(v));
    SignBit(Low(v));
    Bit39(v);
  }

  lemma Swap64Fails()
    ensures Swap64(0x80_0000_0000) == 0xffff_ffff_8000_0000 && Reverse64(0x80_0000_0000) == 0x8000_0000
  {
  }
}
