# Cnt1Before: counting the 1-bits below a bit index

Package `bit` has one function, `Cnt1Before(n uint64, iBit uint32) uint32`. It returns how many 1-bits of the 64-bit word `n` sit strictly below bit index `iBit`, that is, among its `iBit` least-significant bits. It works in two steps:

1. **Boundary clamp.** A boundary of 0 replaces the word by 0. A boundary between 1 and 63 shifts the word left by `64 - iBit`, which pushes every bit at or above `iBit` out of the word. A boundary of 64 or more leaves the word unchanged.
2. **Kernighan's loop.** `n &= n - 1` clears the lowest 1-bit and increments the counter. The loop repeats until the word is 0.

The model has two modules.

`BitCount` (`bitcount.dfy`) holds the reference definitions:
- `LowCount(x, k)` is the number of 1-bits of `x` below position `k`.
- `Popcount(x)` is that number for all 64 bits.
- `LowBits(x, k)` is `x` with every bit at `k` or above cleared, that is `x & (2^k - 1)`.

It also proves the facts about words that the function depends on:
- Kernighan's step removes exactly one 1-bit.
- Only the zero word has no 1-bit.
- A left shift by `s` keeps exactly the low `64 - s` bits.
- Only the low bits matter to `LowCount`.

`Bit` (`bit.dfy`) models the function. Go's `uint64` is `bv64` and Go's `uint32` is `bv32`, so the shift, the subtraction `maxBit - iBit` and the counter have the source's fixed-width arithmetic. `unsafe.Sizeof(n) * 8` is the constant `MaxBit = 64`. The function's body is split in two:
- `Clamp` is the boundary clamp. It is a method that reassigns the word.
- `Cnt1Before` is the counting loop. It is a `while` loop with an invariant and a termination measure.

`Cnt1Before`'s postcondition ties its result to the specification function `OnesBelow(n, iBit)`. The `OnesBelow…` lemmas prove the properties of that function.

The code treats every boundary above 64 as 64, because the guard at bit/bit.go:13 just skips the shift. Some descriptions of this function call such a boundary a caller error instead. The model follows the code, and `Cnt1Before` has no precondition.

## Model

| member | source | states |
|---|---|---|
| Bit.Cnt1Before | bit/bit.go:7-27 | The result is the number of 1-bits of `n` below `min(iBit, 64)`. It equals the popcount of `n mod 2^min(iBit, 64)` and is at most `min(iBit, 64)`. It is 0 when `iBit == 0` and the full popcount of `n` when `iBit >= 64`. The loop keeps `cnt + popcount(word) == popcount(clamped word)` and ends because each pass removes exactly one 1-bit from the word. |
| Bit.Clamp | bit/bit.go:9-16 | The word after the clamp has exactly as many 1-bits as `n` has below the boundary. A boundary of 0 gives the zero word, and a boundary of 64 or more leaves `n` unchanged. |
| Bit.Boundary | bit/bit.go:9-16 | The boundary that takes effect is `min(iBit, 64)`: it is at most `iBit` and at most 64, and it is one of the two. |
| Bit.ShiftAmount | bit/bit.go:13-14 | For `0 < iBit < 64`, the `uint32` shift amount `maxBit - iBit` leaves exactly `iBit` bits of the word. |
| Bit.ShiftKeepsBitsBelow | bit/bit.go:13-14 | Shifting `n` left by `64 - iBit` gives a word whose popcount is the number of 1-bits of `n` below `iBit`. |
| Bit.OnesBelowLowBits | bit/bit.go:13-14 | The count equals the popcount of `n mod 2^min(iBit, 64)`. |
| Bit.OnesBelowFull | bit/bit.go:13-15 | With a boundary of 64 or more, the count is the popcount of the whole word. |
| Bit.OnesBelowBound | bit/bit.go:9-25 | The count is at most `min(iBit, 64)`. |
| Bit.OnesBelowMonotone | bit/bit.go:10-16 | Raising the boundary never lowers the count. |
| Bit.OnesBelowAgree | bit/bit.go:13-14 | Two words that agree below the boundary have the same count, whatever their high bits. |
| Bit.OnesBelowSplit | bit/bit.go:7-27 | For `iBit <= 64`, the 1-bits below `iBit` plus the 1-bits of `n >> iBit` are all the 1-bits of `n`. |
| Bit.OnesBelowExamples | bit/bit.go:7-27 | Worked cases: `(0, 5) -> 0`, `(0b1111, 2) -> 2`, `(0b1010, 3) -> 1`, `(all ones, 64) -> 64`. |
| BitCount.PopcountClearLowest | bit/bit.go:23-24 | For a nonzero word, `n & (n - 1)` has exactly one 1-bit fewer than `n` and is strictly smaller than `n`. |
| BitCount.LowCountClearLowest | bit/bit.go:23 | Below any boundary that holds a 1-bit, `n & (n - 1)` has exactly one 1-bit fewer. |
| BitCount.PopcountZero | bit/bit.go:19-21 | A word has no 1-bit if and only if it is 0, so the loop stops exactly when every 1-bit has been counted. |
| BitCount.PopcountBound | bit/bit.go:24 | A word has at most 64 1-bits, so the `uint32` counter cannot wrap. |
| BitCount.PopcountShiftLeft | bit/bit.go:14 | The popcount of `x << s` is the number of 1-bits of `x` below `64 - s`. |
| BitCount.LowCountShl | bit/bit.go:14 | Counting the low `k` bits of `x` shifted left by `s` counts the low `k - s` bits of `x`, or nothing when `k <= s`. |
| BitCount.ShlIsShift | bit/bit.go:14 | Shifting left one position at a time, `s` times, is the machine's shift by `s`. |
| BitCount.ShiftLeftStep | bit/bit.go:14 | A left shift by `s > 0` is a shift by `s - 1` followed by a shift by one. |
| BitCount.LowCountShiftOnce | bit/bit.go:14 | Shifting left by one moves each of the low 63 bits up one position. |
| BitCount.LowCountOfLowBits | bit/bit.go:13-14 | Counting the low `j` bits of `x mod 2^k` counts the low `min(j, k)` bits of `x`. |
| BitCount.PopcountLowBits | bit/bit.go:13-14 | The popcount of `x mod 2^k` is the number of 1-bits of `x` below `k`. |
| BitCount.LowCountAgree | bit/bit.go:13-14 | Words that agree on their low `k` bits have the same count below `k`. |
| BitCount.LowCountZero | bit/bit.go:19-21 | There is no 1-bit below `k` if and only if the low `k` bits are all 0. |
| BitCount.LowCountBound | bit/bit.go:9-25 | At most `k` of the low `k` bits are set. |
| BitCount.LowCountMonotone | bit/bit.go:10-16 | Counting below a higher boundary never gives fewer 1-bits. |
| BitCount.LowBitsFull | bit/bit.go:13-15 | Keeping all 64 bits keeps the word, which is why no shift is needed when `iBit >= 64`. |
| BitCount.ClearLowestOdd | bit/bit.go:23 | On an odd word, `n & (n - 1)` clears bit 0 and keeps the other bits. |
| BitCount.ClearLowestEven | bit/bit.go:23 | On an even word, `n & (n - 1)` keeps bit 0 at 0 and applies the same step to `n >> 1`. |
| BitCount.PopcountAllOnes | bit/bit.go:7-27 | All 64 bits of the all-ones word are set. |
| BitCount.LowCountSplit | bit/bit.go:7-27 | Supports the additivity of `Bit.OnesBelowSplit`: counting `k + j` low bits is counting `k` low bits, then `j` bits above them. |
| BitCount.DropIsShift | bit/bit.go:7-27 | Supports the additivity of `Bit.OnesBelowSplit`: dropping the low bits one position at a time is the machine's right shift. |
| BitCount.PopcountSplit | bit/bit.go:7-27 | Supports the additivity of `Bit.OnesBelowSplit`: the popcount of `x` is the count below `b` plus the popcount of `x >> b`, for `b <= 64`. |

## Left out

- `unsafe.Sizeof(n)` is a Go runtime call. The model uses its value for `uint64`: 8 bytes, so `maxBit` is the constant 64.
- Bit.OnesBelowSplit: stated only for `iBit <= 64`, because a Dafny shift amount may not exceed the word width. Go defines `n >> iBit` as 0 beyond that.
- BitCount.LowBits: `x mod 2^k` is stated as the mask `x & (2^k - 1)`, with the mask built bit by bit. It is not proved equal to integer `mod`.
- Running time is not modelled: the loop runs once per 1-bit. The proofs are about the result only.
