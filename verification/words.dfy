/** Fixed-width integers and the bit operations on one 64-bit word of a filter.

    Go's `uint64` is modelled as the subset type `u64` of `int`; every place
    where the filter's arithmetic can wrap around is reduced modulo
    `U64Modulus` explicitly. A word of the bit array is a `bv64`, and the bit
    inside it is addressed by a shift amount of type `bv7`, which is how
    Go's `uint64(1) << (i & mod)` picks a mask. */
module Words {

  /** Bits per word (`word` in `bloom.go`). */
  const WordBits: nat := 64

  const U64Modulus: nat := 0x1_0000_0000_0000_0000
  const MaxU64: nat := U64Modulus - 1

  type u64 = x: int | 0 <= x < U64Modulus
  type byte = x: int | 0 <= x < 256

  /** The `uint64` sum `a + c`: reduced modulo 2^64. */
  function WrapAdd(a: u64, c: nat): (r: u64)
  {
    (a + c) % U64Modulus
  }

  /** Two wrapping additions in a row are one wrapping addition of the sum. */
  lemma WrapAddTwice(a: u64, c: nat, d: nat)
    ensures WrapAdd(WrapAdd(a, c), d) == WrapAdd(a, c + d)
  {
    var q := (a + c) / U64Modulus;
    assert a + c == q * U64Modulus + WrapAdd(a, c);
    assert WrapAdd(a, c) + d == (a + c + d) - q * U64Modulus;
  }

  /** The shift amount selecting in-word bit `k`, built one step at a time so
      that its value as an integer is known without converting an integer to
      a bit-vector in one go. */
  function Shift(k: nat): (s: bv7)
    requires k < WordBits
    ensures s as int == k
    ensures s < 64
  {
    if k == 0 then 0 else Shift(k - 1) + 1
  }

  /** Distinct in-word positions have distinct shift amounts. */
  lemma ShiftInjective(j: nat, k: nat)
    requires j < WordBits && k < WordBits
    ensures Shift(j) == Shift(k) <==> j == k
  {
  }

  /** The one-bit mask `uint64(1) << s`. */
  function BitMask(s: bv7): (m: bv64)
    requires s < 64
  {
    (1 as bv64) << s
  }

  /** Whether bit `s` of `w` is 1: Go's `w & mask != 0`. */
  predicate TestBit(w: bv64, s: bv7)
    requires s < 64
  {
    w & BitMask(s) != 0
  }

  /** Go's `w |= mask`. */
  function SetBit(w: bv64, s: bv7): (r: bv64)
    requires s < 64
    ensures TestBit(r, s)
  {
    w | BitMask(s)
  }

  lemma OrMask(w: bv64, s: bv7, t: bv7)
    requires s < 64 && t < 64
    ensures (w | BitMask(s)) & BitMask(t) != 0 <==> s == t || w & BitMask(t) != 0
  {
  }

  /** Setting bit `s` leaves every other bit of the word as it was. */
  lemma SetBitOther(w: bv64, s: bv7, t: bv7)
    requires s < 64 && t < 64
    ensures TestBit(SetBit(w, s), t) <==> s == t || TestBit(w, t)
  {
    OrMask(w, s, t);
  }

  /** A zero word has no bit set. */
  lemma ZeroWordClear(s: bv7)
    requires s < 64
    ensures !TestBit(0, s)
  {
  }
}
