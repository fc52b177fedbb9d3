/**
 * Bits: bit tests on 32-bit masks and the 32-bit leading-zero count shared
 * by the JavaScript library (`Math.clz32`, `1 << i`) and the native port
 * (`clz32`, `id *= 2`). Bit positions are themselves 32-bit values.
 */
module Bits {

  /** Bit `i` of `v` is set. */
  predicate HasBit(v: bv32, i: bv32)
  {
    i < 32 && (v >> i) & 1 == 1
  }

  /** Setting bit `i` sets exactly that bit. */
  lemma SetBit(v: bv32, i: bv32, j: bv32)
    requires i < 32
    ensures HasBit(v | (1 << i), j) <==> i == j || HasBit(v, j)
  {
  }

  /** JavaScript's `v & (1 << i)` is non-zero exactly when bit `i` is set. */
  lemma MaskTest(v: bv32, i: bv32)
    requires i < 32
    ensures (v & (1 << i) != 0) <==> HasBit(v, i)
  {
  }

  /** A mask below `1 << i` has no bit at `i` or above. */
  lemma NoBitAbove(v: bv32, i: bv32, j: bv32)
    requires i < 32 && v < 1 << i && i <= j
    ensures !HasBit(v, j)
  {
  }

  /** Adding bit `i` to a mask below `1 << i` stays below `1 << (i + 1)`. */
  lemma SetBitBelow(v: bv32, i: bv32)
    requires i < 31 && v < 1 << i
    ensures v | (1 << i) < 1 << (i + 1)
  {
  }

  /** `n` is the number of leading zero bits of the 32-bit pattern `x`. */
  predicate IsLeadingZeros(x: bv32, n: bv32)
  {
    n <= 32 && (if n == 32 then x == 0 else x >> (31 - n) == 1)
  }

  /** The leading-zero count: 32 for 0, otherwise the zeros above the highest set bit. */
  function Clz32(x: bv32): (n: bv32)
    ensures IsLeadingZeros(x, n)
  {
    ClzFrom(x, 0)
  }

  /** Scans from bit `31 - n` downwards, knowing every higher bit is zero. */
  function ClzFrom(x: bv32, n: bv32): (r: bv32)
    requires n <= 32 && (n > 0 ==> x >> (32 - n) == 0)
    ensures IsLeadingZeros(x, r)
    decreases 32 - n as int
  {
    if n == 32 then 32
    else if x >> (31 - n) != 0 then n
    else ClzFrom(x, n + 1)
  }

  /** A bit pattern has only one leading-zero count. */
  lemma LeadingZerosUnique(x: bv32, m: bv32, n: bv32)
    requires IsLeadingZeros(x, m) && IsLeadingZeros(x, n)
    ensures m == n
  {
  }

  /** `1 << i` has `31 - i` leading zeros, and only 0 has 32. */
  lemma Clz32OfBit(i: bv32)
    requires i < 32
    ensures Clz32(1 << i) == 31 - i
    ensures Clz32(0) == 32
  {
    assert IsLeadingZeros(1 << i, 31 - i);
    LeadingZerosUnique(1 << i, Clz32(1 << i), 31 - i);
    LeadingZerosUnique(0, Clz32(0), 32);
  }

  /** `31 - clz32(1 << i)` recovers `i`, also as an integer. */
  lemma TopBitIndex(i: bv32)
    requires i < 32
    ensures 31 - (Clz32(1 << i) as int) == i as int
  {
    Clz32OfBit(i);
  }

  /** A non-zero pattern with no two set bits is `1 << (31 - clz32)`. */
  lemma SingleBit(x: bv32)
    requires x != 0 && x & (x - 1) == 0
    ensures Clz32(x) < 32 && x == 1 << (31 - Clz32(x))
  {
    var n := Clz32(x);
    assert n < 32;
    assert x >> (31 - n) == 1;
  }

  /** The pattern with only bit `i` set. */
  function Bit(i: bv32): bv32
    requires i < 32
  {
    1 << i
  }

  /** `x & (x - 1) == 0` holds exactly for 0 and the single bits. */
  lemma SingleBitTest(x: bv32)
    ensures x & (x - 1) == 0 <==> x == 0 || exists i: bv32 :: i < 32 && x == Bit(i)
  {
    if x != 0 && x & (x - 1) == 0 {
      SingleBit(x);
      assert x == Bit(31 - Clz32(x));
    }
    if exists i: bv32 :: i < 32 && x == Bit(i) {
      var i: bv32 :| i < 32 && x == Bit(i);
      BitIsSingle(i);
    }
  }

  lemma BitIsSingle(i: bv32)
    requires i < 32
    ensures Bit(i) & (Bit(i) - 1) == 0
  {
  }
}
