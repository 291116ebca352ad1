/**
 * Reference definitions for counting the 1-bits of a 64-bit word.
 *
 * A word is a `bv64` (Go's `uint64`); bit 0 is the least significant bit.
 * `LowCount(x, k)` is the number of 1-bits among the `k` least-significant
 * bits of `x`, defined by looking at bit 0 and then at `x >> 1`;
 * `Popcount(x)` is that number for all 64 bits. `LowBits(x, k)` is `x` with
 * every bit at position `k` or above cleared, that is `x mod 2^k`.
 */
module BitCount {

  /** Number of bits in a word. */
  const WordBits: nat := 64

  /** 1 when bit 0 of `x` is set, 0 otherwise. */
  function Bit0(x: bv64): nat
  {
    if x & 1 == 1 then 1 else 0
  }

  /** The number of 1-bits of `x` at positions strictly below `k`. */
  function LowCount(x: bv64, k: nat): nat
    requires k <= WordBits
  {
    if k == 0 then 0 else Bit0(x) + LowCount(x >> 1, k - 1)
  }

  /** The number of 1-bits of the whole word. */
  function Popcount(x: bv64): nat
  {
    LowCount(x, WordBits)
  }

  /** The word whose `k` low bits are 1 and whose other bits are 0: `2^k - 1`. */
  function LowMask(k: nat): bv64
    requires k <= WordBits
  {
    if k == 0 then 0 else (LowMask(k - 1) << 1) | 1
  }

  /** `x` with every bit at position `k` or above cleared: `x mod 2^k`. */
  function LowBits(x: bv64, k: nat): bv64
    requires k <= WordBits
  {
    x & LowMask(k)
  }

  // ---------------------------------------------------------------------
  // Facts about single words, decided by the bit-vector solver.
  // ---------------------------------------------------------------------

  /** Masking with `(m << 1) | 1` keeps bit 0 and masks the rest with `m`. */
  lemma MaskStep(x: bv64, m: bv64)
    ensures (x & ((m << 1) | 1)) & 1 == x & 1
    ensures (x & ((m << 1) | 1)) >> 1 == (x >> 1) & m
  {
  }

  /** A word is 0 exactly when its bit 0 is 0 and the rest of it is 0. */
  lemma ZeroByHalves(y: bv64)
    ensures y == 0 <==> y & 1 == 0 && y >> 1 == 0
  {
  }

  /** The mask `(m << 1) | 1` has bit 0 set, and shifting it right loses the top bit of `m`. */
  lemma MaskShiftBack(m: bv64)
    ensures ((m << 1) | 1) & 1 == 1
    ensures ((m << 1) | 1) >> 1 == m & 0x7FFF_FFFF_FFFF_FFFF
  {
  }

  /** Kernighan's step on an odd word clears bit 0 and keeps the rest. */
  lemma ClearLowestOdd(x: bv64)
    requires x & 1 == 1
    ensures (x & (x - 1)) & 1 == 0
    ensures (x & (x - 1)) >> 1 == x >> 1
  {
  }

  /** Kernighan's step on an even word is Kernighan's step on `x >> 1`, moved up. */
  lemma ClearLowestEven(x: bv64)
    requires x & 1 == 0
    ensures (x & (x - 1)) & 1 == 0
    ensures (x & (x - 1)) >> 1 == (x >> 1) & ((x >> 1) - 1)
  {
  }

  /** Shifting left by one then right by one clears the top bit. */
  lemma ShiftOnceBack(x: bv64)
    ensures (x << 1) & 1 == 0
    ensures (x << 1) >> 1 == x & 0x7FFF_FFFF_FFFF_FFFF
  {
  }

  /*
   * Shifting left by `s > 0` is shifting left by `s - 1`, then by one. The
   * solver settles this fact one range of shift amounts at a time.
   */
  lemma ShiftLeftStepBelow8(x: bv64, s: bv32)
    requires 0 < s < 8
    ensures x << s == (x << (s - 1)) << 1
  {
  }

  lemma ShiftLeftStepBelow16(x: bv64, s: bv32)
    requires 8 <= s < 16
    ensures x << s == (x << (s - 1)) << 1
  {
  }

  lemma ShiftLeftStepBelow32(x: bv64, s: bv32)
    requires 16 <= s < 32
    ensures x << s == (x << (s - 1)) << 1
  {
  }

  lemma ShiftLeftStepBelow48(x: bv64, s: bv32)
    requires 32 <= s < 48
    ensures x << s == (x << (s - 1)) << 1
  {
  }

  lemma ShiftLeftStepBelow64(x: bv64, s: bv32)
    requires 48 <= s < 64
    ensures x << s == (x << (s - 1)) << 1
  {
  }

  /** Shifting left by `s > 0` is shifting left by `s - 1`, then by one. */
  lemma ShiftLeftStep(x: bv64, s: bv32)
    requires 0 < s < 64
    ensures x << s == (x << (s - 1)) << 1
  {
    if s < 8 {
      ShiftLeftStepBelow8(x, s);
    } else if s < 16 {
      ShiftLeftStepBelow16(x, s);
    } else if s < 32 {
      ShiftLeftStepBelow32(x, s);
    } else if s < 48 {
      ShiftLeftStepBelow48(x, s);
    } else {
      ShiftLeftStepBelow64(x, s);
    }
  }

  // ---------------------------------------------------------------------
  // Shifting left one position at a time.
  // ---------------------------------------------------------------------

  /** `x` shifted left by `s` positions, one position at a time. */
  function Shl(x: bv64, s: bv32): bv64
    requires s < 64
  {
    if s == 0 then x else Shl(x, s - 1) << 1
  }

  /** `Shl` and the machine's shift agree on `x` and `s`. */
  predicate ShlAgrees(x: bv64, s: bv32)
    requires s < 64
  {
    Shl(x, s) == x << s
  }

  /*
   * The two left shifts agree on an amount when they agree on the amount
   * below it: first as an equation between words, then through
   * `ShlAgrees`. Proving the second form straight from `ShiftLeftStep`
   * costs the solver about as much as its resource limit; the cost of each
   * form below depends on the solver's random seed.
   */
  lemma ShlStep(x: bv64, s: bv32)
    requires 0 < s < 64
    ensures Shl(x, s - 1) == x << (s - 1) ==> Shl(x, s) == x << s
  {
    ShiftLeftStep(x, s);
  }

  lemma ShlAgreesStep(x: bv64, s: bv32)
    requires 0 < s < 64
    ensures ShlAgrees(x, s - 1) ==> ShlAgrees(x, s)
  {
    ShlStep(x, s);
  }

  lemma ShlAgreesZero(x: bv64)
    ensures ShlAgrees(x, 0)
  {
  }

  /** Shifting one position at a time is the machine's shift. */
  lemma {:induction false} ShlIsShift(x: bv64, s: bv32)
    requires s < 64
    ensures ShlAgrees(x, s)
    decreases s
  {
    if s == 0 {
      ShlAgreesZero(x);
    } else {
      ShlIsShift(x, s - 1);
      ShlAgreesStep(x, s);
    }
  }

  // ---------------------------------------------------------------------
  // The masks.
  // ---------------------------------------------------------------------

  /** The mask for 63 bits is every bit but the top one; the one for 64 is every bit. */
  lemma LowMaskTop()
    ensures LowMask(63) == 0x7FFF_FFFF_FFFF_FFFF
    ensures LowMask(WordBits) == 0xFFFF_FFFF_FFFF_FFFF
  {
    assert LowMask(8) == 0xFF;
    assert LowMask(16) == 0xFFFF;
    assert LowMask(24) == 0xFF_FFFF;
    assert LowMask(32) == 0xFFFF_FFFF;
    assert LowMask(40) == 0xFF_FFFF_FFFF;
    assert LowMask(48) == 0xFFFF_FFFF_FFFF;
    assert LowMask(56) == 0xFF_FFFF_FFFF_FFFF;
  }

  /** Keeping all 64 bits keeps the word. */
  lemma LowBitsFull(x: bv64)
    ensures LowBits(x, WordBits) == x
  {
    LowMaskTop();
  }

  // ---------------------------------------------------------------------
  // Properties of LowCount.
  // ---------------------------------------------------------------------

  /** At most `k` of the low `k` bits can be set. */
  lemma {:induction false} LowCountBound(x: bv64, k: nat)
    requires k <= WordBits
    ensures LowCount(x, k) <= k
    decreases k
  {
    if k > 0 {
      LowCountBound(x >> 1, k - 1);
    }
  }

  /** A word has at most 64 1-bits. */
  lemma PopcountBound(x: bv64)
    ensures Popcount(x) <= WordBits
  {
    LowCountBound(x, WordBits);
  }

  /** Counting below a higher boundary never gives fewer 1-bits. */
  lemma {:induction false} LowCountMonotone(x: bv64, k1: nat, k2: nat)
    requires k1 <= k2 <= WordBits
    ensures LowCount(x, k1) <= LowCount(x, k2)
    decreases k1
  {
    if k1 > 0 {
      LowCountMonotone(x >> 1, k1 - 1, k2 - 1);
    }
  }

  /** The zero word has no 1-bit. */
  lemma {:induction false} LowCountOfZero(k: nat)
    requires k <= WordBits
    ensures LowCount(0, k) == 0
  {
    if k > 0 {
      LowCountOfZero(k - 1);
    }
  }

  /** Counting the low `j` bits of `x mod 2^k` counts the low `min(j, k)` bits of `x`. */
  lemma {:induction false} LowCountOfLowBits(x: bv64, k: nat, j: nat)
    requires k <= WordBits && j <= WordBits
    ensures LowCount(LowBits(x, k), j) == LowCount(x, if j <= k then j else k)
    decreases j
  {
    if j > 0 {
      if k == 0 {
        LowCountOfZero(j);
      } else {
        MaskStep(x, LowMask(k - 1));
        LowCountOfLowBits(x >> 1, k - 1, j - 1);
      }
    }
  }

  /** The 1-bits of `x` below `k` are the 1-bits of `x mod 2^k`. */
  lemma PopcountLowBits(x: bv64, k: nat)
    requires k <= WordBits
    ensures Popcount(LowBits(x, k)) == LowCount(x, k)
  {
    LowCountOfLowBits(x, k, WordBits);
  }

  /** Only the low `k` bits matter: words that agree on them have the same count. */
  lemma LowCountAgree(x: bv64, y: bv64, k: nat)
    requires k <= WordBits
    requires LowBits(x, k) == LowBits(y, k)
    ensures LowCount(x, k) == LowCount(y, k)
  {
    PopcountLowBits(x, k);
    PopcountLowBits(y, k);
  }

  /** Bit 0 of `x mod 2^k` is bit 0 of `x`; the rest of it is `(x >> 1) mod 2^(k-1)`. */
  lemma LowBitsStep(x: bv64, k: nat)
    requires 0 < k <= WordBits
    ensures LowBits(x, k) & 1 == x & 1
    ensures LowBits(x, k) >> 1 == LowBits(x >> 1, k - 1)
  {
    MaskStep(x, LowMask(k - 1));
  }

  /** There is no 1-bit below `k` exactly when the low `k` bits are all 0. */
  lemma {:induction false} LowCountZero(x: bv64, k: nat)
    requires k <= WordBits
    ensures LowCount(x, k) == 0 <==> LowBits(x, k) == 0
    decreases k
  {
    if k > 0 {
      LowCountZero(x >> 1, k - 1);
      LowBitsStep(x, k);
      ZeroByHalves(LowBits(x, k));
    }
  }

  /** Only the zero word has no 1-bit. */
  lemma PopcountZero(x: bv64)
    ensures Popcount(x) == 0 <==> x == 0
  {
    LowCountZero(x, WordBits);
    LowBitsFull(x);
  }

  /** `x & (x - 1)` has exactly one 1-bit fewer below `k` than `x`, when `x` has one there. */
  lemma {:induction false} LowCountClearLowest(x: bv64, k: nat)
    requires k <= WordBits && LowCount(x, k) > 0
    ensures LowCount(x & (x - 1), k) == LowCount(x, k) - 1
    decreases k
  {
    if x & 1 == 1 {
      ClearLowestOdd(x);
    } else {
      ClearLowestEven(x);
      LowCountClearLowest(x >> 1, k - 1);
    }
  }

  /** The step of Kernighan's loop: `x & (x - 1)` has one 1-bit fewer and is smaller. */
  lemma PopcountClearLowest(x: bv64)
    requires x != 0
    ensures Popcount(x & (x - 1)) == Popcount(x) - 1
    ensures x & (x - 1) < x
  {
    PopcountZero(x);
    LowCountClearLowest(x, WordBits);
  }

  /** Bit `i` of `x` is bit `i + 1` of `x << 1`, for the 63 bits that survive the shift. */
  lemma LowCountShiftOnce(x: bv64, k: nat)
    requires k < WordBits
    ensures LowCount(x << 1, k + 1) == LowCount(x, k)
  {
    ShiftOnceBack(x);
    LowMaskTop();
    LowCountOfLowBits(x, 63, k);
  }

  /** Counting the low `k` bits of `x` shifted left by `s` counts the low `k - s` bits of `x`. */
  lemma {:induction false} LowCountShl(x: bv64, s: bv32, k: nat)
    requires s < 64 && k <= WordBits
    ensures LowCount(Shl(x, s), k) == if k <= s as nat then 0 else LowCount(x, k - s as nat)
    decreases s
  {
    if s > 0 && k > 0 {
      LowCountShiftOnce(Shl(x, s - 1), k - 1);
      LowCountShl(x, s - 1, k - 1);
    }
  }

  /** Shifting left by `s` keeps exactly the low `64 - s` bits of `x`, moved up. */
  lemma PopcountShiftLeft(x: bv64, s: bv32)
    requires s < 64
    ensures Popcount(x << s) == LowCount(x, WordBits - s as nat)
  {
    ShlIsShift(x, s);
    LowCountShl(x, s, WordBits);
  }

  /** The mask for `k` bits has all of its `k` low bits set. */
  lemma {:induction false} LowCountOfMask(k: nat)
    requires k <= WordBits
    ensures LowCount(LowMask(k), k) == k
  {
    if k > 0 {
      MaskShiftBack(LowMask(k - 1));
      LowMaskTop();
      LowCountOfLowBits(LowMask(k - 1), 63, k - 1);
      LowCountOfMask(k - 1);
    }
  }

  /** Every one of the 64 bits of the all-ones word is set. */
  lemma PopcountAllOnes()
    ensures Popcount(0xFFFF_FFFF_FFFF_FFFF) == 64
  {
    LowMaskTop();
    LowCountOfMask(WordBits);
  }

  // ---------------------------------------------------------------------
  // Splitting the word at a boundary.
  // ---------------------------------------------------------------------

  lemma ShiftRightStepBelow8(x: bv64, s: bv32)
    requires 0 < s < 8
    ensures x >> s == (x >> 1) >> (s - 1)
  {
  }

  lemma ShiftRightStepBelow16(x: bv64, s: bv32)
    requires 8 <= s < 16
    ensures x >> s == (x >> 1) >> (s - 1)
  {
  }

  lemma ShiftRightStepBelow32(x: bv64, s: bv32)
    requires 16 <= s < 32
    ensures x >> s == (x >> 1) >> (s - 1)
  {
  }

  lemma ShiftRightStepBelow48(x: bv64, s: bv32)
    requires 32 <= s < 48
    ensures x >> s == (x >> 1) >> (s - 1)
  {
  }

  lemma ShiftRightStepUpTo64(x: bv64, s: bv32)
    requires 48 <= s <= 64
    ensures x >> s == (x >> 1) >> (s - 1)
  {
  }

  /** Shifting right by `s > 0` is shifting right by one, then by `s - 1`. */
  lemma ShiftRightStep(x: bv64, s: bv32)
    requires 0 < s <= 64
    ensures x >> s == (x >> 1) >> (s - 1)
  {
    if s < 8 {
      ShiftRightStepBelow8(x, s);
    } else if s < 16 {
      ShiftRightStepBelow16(x, s);
    } else if s < 32 {
      ShiftRightStepBelow32(x, s);
    } else if s < 48 {
      ShiftRightStepBelow48(x, s);
    } else {
      ShiftRightStepUpTo64(x, s);
    }
  }

  /** `x` with its `k` low bits dropped, one position at a time: `x >> k`. */
  function Drop(x: bv64, k: nat): bv64
    requires k <= WordBits
  {
    if k == 0 then x else Drop(x >> 1, k - 1)
  }

  /** `Drop` and the machine's shift agree on `x` and `s`. */
  predicate DropAgrees(x: bv64, s: bv32)
    requires s <= 64
  {
    Drop(x, s as nat) == x >> s
  }

  /** The two right shifts agree on `x` and `s` when they agree on `x >> 1` and `s - 1`. */
  lemma DropAgreesStep(x: bv64, s: bv32)
    requires 0 < s <= 64
    ensures DropAgrees(x >> 1, s - 1) ==> DropAgrees(x, s)
  {
    ShiftRightStep(x, s);
  }

  lemma DropAgreesZero(x: bv64)
    ensures DropAgrees(x, 0)
  {
  }

  /** Dropping bits one position at a time is the machine's right shift. */
  lemma {:induction false} DropIsShift(x: bv64, s: bv32)
    requires s <= 64
    ensures DropAgrees(x, s)
    decreases s
  {
    if s == 0 {
      DropAgreesZero(x);
    } else {
      DropIsShift(x >> 1, s - 1);
      DropAgreesStep(x, s);
    }
  }

  /** Counting `k + j` low bits counts `k` low bits and then `j` bits above them. */
  lemma {:induction false} LowCountSplit(x: bv64, k: nat, j: nat)
    requires k + j <= WordBits
    ensures LowCount(x, k + j) == LowCount(x, k) + LowCount(Drop(x, k), j)
    decreases k
  {
    if k > 0 {
      LowCountSplit(x >> 1, k - 1, j);
    }
  }

  /** Dropping `k` bits and then `j` more drops `k + j` bits. */
  lemma {:induction false} DropDrop(x: bv64, k: nat, j: nat)
    requires k + j <= WordBits
    ensures Drop(Drop(x, k), j) == Drop(x, k + j)
    decreases k
  {
    if k > 0 {
      DropDrop(x >> 1, k - 1, j);
    }
  }

  /** Dropping all 64 bits leaves nothing. */
  lemma DropAll(x: bv64)
    ensures Drop(x, WordBits) == 0
  {
    DropIsShift(x, 64);
  }

  /** After `k` bits are dropped, only the low `64 - k` bits can be set. */
  lemma PopcountDrop(x: bv64, k: nat)
    requires k <= WordBits
    ensures Popcount(Drop(x, k)) == LowCount(Drop(x, k), WordBits - k)
  {
    LowCountSplit(Drop(x, k), WordBits - k, k);
    DropDrop(x, k, WordBits - k);
    DropAll(x);
    LowCountOfZero(k);
  }

  /** The 1-bits of a word are those below `b` and those of the word shifted right by `b`. */
  lemma PopcountSplit(x: bv64, b: bv32)
    requires b <= 64
    ensures Popcount(x) == LowCount(x, b as nat) + Popcount(x >> b)
  {
    LowCountSplit(x, b as nat, WordBits - b as nat);
    PopcountDrop(x, b as nat);
    DropIsShift(x, b);
  }
}
