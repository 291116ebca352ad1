/**
 * `Cnt1Before` from package `bit`: the number of 1-bits of a 64-bit word `n`
 * that sit strictly below bit index `iBit`.
 *
 * Go's `uint64` is `bv64` and Go's `uint32` is `bv32`, so the arithmetic on
 * the word, on the boundary and on the counter is the source's fixed-width
 * arithmetic. The word size `unsafe.Sizeof(n) * 8` is the constant `MaxBit`.
 */
module Bit {
  import opened BitCount

  /** Number of bits of the word `n`: eight times its size in bytes. */
  const MaxBit: bv32 := 64

  /** The boundary that takes effect: `iBit`, or the whole word when `iBit` is 64 or more. */
  function Boundary(iBit: bv32): (k: nat)
    ensures k <= iBit as nat && k <= WordBits
    ensures k == iBit as nat || k == WordBits
  {
    if iBit < MaxBit then iBit as nat else WordBits
  }

  /**
   * What `Cnt1Before(n, iBit)` is meant to return: the number of 1-bits of
   * `n` at positions below `iBit`, every boundary of 64 or more meaning the
   * whole word.
   */
  function OnesBelow(n: bv64, iBit: bv32): nat
  {
    LowCount(n, Boundary(iBit))
  }

  /** The shift amount `64 - iBit`, read as a number, leaves `iBit` bits of the word. */
  lemma ShiftAmount(iBit: bv32)
    requires 0 < iBit < MaxBit
    ensures WordBits - (MaxBit - iBit) as nat == iBit as nat
  {
  }

  /**
   * Shifting the word left by `64 - iBit` throws away exactly the bits at
   * `iBit` and above, and keeps the 1-bits below `iBit`.
   */
  lemma ShiftKeepsBitsBelow(n: bv64, iBit: bv32, shift: bv32)
    requires 0 < iBit < MaxBit && shift == MaxBit - iBit
    ensures Popcount(n << shift) == OnesBelow(n, iBit)
  {
    ShiftAmount(iBit);
    PopcountShiftLeft(n, shift);
  }

  /** The boundary clamp: the word whose 1-bits are exactly the 1-bits of `n` below `iBit`. */
  method Clamp(n: bv64, iBit: bv32) returns (word: bv64)
    ensures Popcount(word) == OnesBelow(n, iBit)
    ensures iBit == 0 ==> word == 0
    ensures iBit >= MaxBit ==> word == n
  {
    word := n;
    if iBit == 0 {
      word := 0;
      PopcountZero(word);
    } else {
      if iBit < MaxBit {
        var shift := MaxBit - iBit;
        ShiftKeepsBitsBelow(word, iBit, shift);
        word := word << shift;
      } else {
        OnesBelowFull(n, iBit);
      }
    }
  }

  /** Counts the 1-bits of `n` strictly below bit index `iBit`. */
  method Cnt1Before(n: bv64, iBit: bv32) returns (cnt: bv32)
    ensures cnt as nat == OnesBelow(n, iBit)
    ensures cnt as nat == Popcount(LowBits(n, Boundary(iBit)))
    ensures cnt as nat <= Boundary(iBit)
    ensures iBit == 0 ==> cnt == 0
    ensures iBit >= MaxBit ==> cnt as nat == Popcount(n)
  {
    cnt := 0;
    var word := Clamp(n, iBit);
    ghost var clamped := word;
    PopcountBound(clamped);

    while word != 0
      invariant cnt as nat + Popcount(word) == Popcount(clamped)
      invariant Popcount(clamped) <= WordBits
      decreases Popcount(word)
    {
      PopcountClearLowest(word);
      word := word & (word - 1);
      cnt := cnt + 1;
    }
    PopcountZero(word);
    OnesBelowLowBits(n, iBit);
    OnesBelowBound(n, iBit);
    if iBit >= MaxBit {
      OnesBelowFull(n, iBit);
    }
  }

  // ---------------------------------------------------------------------
  // Properties of the count.
  // ---------------------------------------------------------------------

  /** A boundary of 64 or more counts every 1-bit of the word. */
  lemma OnesBelowFull(n: bv64, iBit: bv32)
    requires iBit >= MaxBit
    ensures OnesBelow(n, iBit) == Popcount(n)
  {
  }

  /** The count is the number of 1-bits of `n mod 2^min(iBit, 64)`. */
  lemma OnesBelowLowBits(n: bv64, iBit: bv32)
    ensures OnesBelow(n, iBit) == Popcount(LowBits(n, Boundary(iBit)))
  {
    PopcountLowBits(n, Boundary(iBit));
  }

  /** At most `min(iBit, 64)` bits can be counted. */
  lemma OnesBelowBound(n: bv64, iBit: bv32)
    ensures OnesBelow(n, iBit) <= Boundary(iBit)
    ensures OnesBelow(n, iBit) <= iBit as nat
  {
    LowCountBound(n, Boundary(iBit));
  }

  /** Raising the boundary never lowers the count. */
  lemma OnesBelowMonotone(n: bv64, iBit1: bv32, iBit2: bv32)
    requires iBit1 <= iBit2
    ensures OnesBelow(n, iBit1) <= OnesBelow(n, iBit2)
  {
    LowCountMonotone(n, Boundary(iBit1), Boundary(iBit2));
  }

  /** Bits at `iBit` and above never matter: words that agree below `iBit` have the same count. */
  lemma OnesBelowAgree(n1: bv64, n2: bv64, iBit: bv32)
    requires LowBits(n1, Boundary(iBit)) == LowBits(n2, Boundary(iBit))
    ensures OnesBelow(n1, iBit) == OnesBelow(n2, iBit)
  {
    LowCountAgree(n1, n2, Boundary(iBit));
  }

  /** The 1-bits below `iBit` and those of `n >> iBit` are, together, all 1-bits of `n`. */
  lemma OnesBelowSplit(n: bv64, iBit: bv32)
    requires iBit <= MaxBit
    ensures Popcount(n) == OnesBelow(n, iBit) + Popcount(n >> iBit)
  {
    PopcountSplit(n, iBit);
  }

  /** A few concrete boundaries and words. */
  lemma OnesBelowExamples()
    ensures OnesBelow(0, 5) == 0
    ensures OnesBelow(0xF, 2) == 2
    ensures OnesBelow(0xA, 3) == 1
    ensures OnesBelow(0xFFFF_FFFF_FFFF_FFFF, 64) == 64
    ensures OnesBelow(0xFFFF_FFFF_FFFF_FFFF, 0) == 0
  {
    assert LowCount(0x7, 1) == 1;
    assert LowCount(0x2, 1) == 0;
    assert LowCount(0x5, 2) == 1;
    OnesBelowFull(0xFFFF_FFFF_FFFF_FFFF, 64);
    PopcountAllOnes();
  }
}
