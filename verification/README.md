# Cache simulator and floating-point arithmetic of the RISC-V emulator

A Dafny model of two parts of the C emulator, with proofs.

**The cache simulator** (`c_emulator/Cache`). `CacheModel` has one level as a value and one access as
a function on it. `CacheRefinement` shows that the slots stand for a finite map from line to dirty
bit. `CacheRuns`, `CacheAccounts` and `CacheSystem` prove what holds over whole runs, of one level,
of a chain of levels, and of the emulator's own three caches; `CacheLineSizes` shows which line sizes
that needs. `CacheSim` is the object itself: the flat tag array updated in place, the counters and the
recursive chain of handlers, proved against the function, and always where its whole history leads.
`CacheEmulator` links three such objects as the program does, two of them sharing the third, and
carries the results over to them, `CacheEvents` saying what they mean for the program's own calls.
`Lfsr` is the victim register.

**Software floating point** (`c_emulator/SoftFloat-3e`). Finite values are counted in units of the
format's smallest subnormal, so they are integers, and statements about them need no rounding.

- Remainder: `RemCore`, `RemSpec` and one file for each format, in the machine arithmetic of the
  source. `RemExact`, `NormRoundPack` and `RemResult` take the 64- and 32-bit routines to the final
  encoding.
- What the 64- and 32-bit routines return is stated in `WordResults` of the words themselves, by a value
  of encodings that needs no fields (`Encoding.ValueOf`), by the landmarks of the format written out in
  each contract, and with every exception; `WordForms` connects it with the fields.
- Division and multiplication: `Sticky` says what a significand must keep of an exact value,
  `Rounding` what the modes mean, `RoundPack` what the packing helper does; `F64Div`, `F32Div` and
  `Multiply` are the routines, `Operations` their specification.
- Rounding to an integral value: `Encoding` and `RoundInt` hold the argument for all widths;
  `RoundIntForms`, `RoundIntWords` and `ExtRoundInt` the single-word, two-word, word-array and
  explicit-integer-bit forms.
- Truncating conversion, comparisons and widening: `ToI64`, `Compare`, `Widen`.

`Arith`, `Words`, `Words128`, `WordArrays`, `WordShifts`, `Floats` and `Formats` are shared vocabulary.
`dafny verify dfyconfig.toml` checks everything.

Conventions. Machine words are natural numbers below a power of two, and wrap-around, truncation and
two's complement are written out. Masks are written as quotients and remainders by powers of two.
Compile-time choices (`SOFTFLOAT_FAST_INT64`, `SOFTFLOAT_FAST_DIV64TO32`) are parameters, so that
both alternatives are covered; `SOFTFLOAT_ROUND_ODD` is on, as in the RISC-V build. The rounding
mode, and whether tininess is detected before rounding, are parameters instead of globals, and
exceptions are results. The 64- and 32-bit packing helpers are one method over a record of
constants. Lemmas stated for any width take the weight of the hidden bit as a number.

Places where the expected does not hold, each with the condition under which it does:

- A store that misses dereferences the result of a second lookup. It is never null if and only if
  lines are at least four bytes long, because shorter lines let a line number reach the flag bits; for
  shorter lines there is an address that no tag word whatever matches
  (`CacheSim.EveryFilledEntryIsFound`). The constructor does not check this; the model requires it.
- A chain of caches keeps what is stored in it as long as lines do not get shorter on the way to
  memory. Of two caches with one slot each, the pair loses no store if and only if the second has lines
  at least as long (`CacheLineSizes.LineSizesDecide`): with 64-byte lines over 32-byte ones, a store
  at address 32 is gone after a load at 64, because the write-back at address 0 marks only the first
  of the two shorter lines.
- In `f64_div` the first 64-bit remainder always fits as an unsigned word but not always as a signed
  one. It fits as a signed one if and only if what the digit drops (the reciprocal's error and the low
  words of two products) is below 2^130 (`F64DivSignificand.FirstRemainderFitsIff`). A test on the
  operands that is enough is 3 * sigA * sigB + sigB * 2^64 <= 7 * 2^127, and so is
  sigB <= 0xE000000000000000 (`F64DivSignificand.FirstRemainderFits`). The truncated products depend on
  every bit of the operands, so no test on sizes is exact; but the first of these is sharp: with its
  limit raised by one part in 2^14 two 53-bit significands pass it and have a remainder with the top
  bit set (`F64DivSignificand.FirstRemainderNeedsAllBits`). The code reads the remainder as unsigned, which
  is right. The second remainder, whose sign decides the correction, always fits.
- `softfloat_normRoundPackToF64` given a zero significand lowers the exponent by the whole word and
  then looks at the exponent only: it delivers a zero if and only if the lowered exponent is in range, and
  otherwise an overflow (`NormRoundPack.NormRoundPack`). A remainder's exponent is always in range.
- `f128M_roundToInt` with one buffer for operand and result clears the lower three words before it
  asks, for a magnitude below one, whether they are set. The result is right if and only if the operand does
  not need them (`F128MRoundToInt.InPlaceIsRightIff`, whose condition is on the mode, `exact`, the top
  word and whether the lower words are zero); with two buffers it is always right.
- The table form of the reciprocal can miss by more than two units
  (`ReciprocalTable.MoreThanTwoUnits`), as its documentation allows. `f32_div` is proved for any
  reciprocal r of b with r*b < 2^63 <= r*b + 2^33, which that divisor meets.

## Model

| member | source | states |
|---|---|---|
| `CacheSim.TagComparison` | c_emulator/Cache/riscv_cache.h:31-32 | Comparing a tag word with the dirty bit masked off succeeds exactly when the word holds that line; setting, clearing and testing the flag bits mean what they should of the slot the word encodes |
| `CacheSim.EveryFilledEntryIsFound` | c_emulator/Cache/riscv_cache.cpp:112-113 | The entry a miss installs is found again by the second lookup for every address if and only if lines are at least four bytes long; with shorter lines there is an address whose tag no word in the set can match, so the dereferenced pointer is null |
| `CacheSim.LookupAfterFill` | c_emulator/Cache/riscv_cache.cpp:112-113 | After a miss has installed its line, the second lookup finds the victim slot, and marking it gives the level a missing store leaves |
| `CacheSim.Cache.constructor` | c_emulator/Cache/riscv_cache.cpp:12-28 | A valid cache in the state all runs start from: every word zero, one in the register, no handler, empty history and zero counters |
| `CacheSim.Cache.SetMissHandler` | c_emulator/Cache/riscv_cache.h:27 | Linking no cache, or a valid one that shares nothing with this one, keeps this one valid |
| `CacheSim.Cache.CheckTag` | c_emulator/Cache/riscv_cache.cpp:58-68 | The search loop returns the slot holding the line that the address selects, and none if no way holds it |
| `CacheSim.Cache.Victimize` | c_emulator/Cache/riscv_cache.cpp:70-77 | The register makes one step, the word handed back is the one at set start plus the new register modulo the ways, and only that word changes, to the line with the valid bit |
| `CacheSim.Cache.Rebuild` | c_emulator/Cache/riscv_cache.cpp:103-103 | Masking and shifting a victim word gives the base address of the line it held |
| `CacheSim.Cache.Access` | c_emulator/Cache/riscv_cache.cpp:79-114 | One access, on the words: which word is found, or which one the register draws after so many misses, what it becomes, and exactly what is sent on (a write-back of the word replaced if it was dirty, then a load of the line); every counter; the object stays where its history leads, and the handler has received exactly what was sent; terminates along any acyclic chain |
| `CacheSim.OnlyTargetChanges` | c_emulator/Cache/riscv_cache.cpp:70-113 | At most one word changes: on a hit, a word of the set that holds the line, and only for a store; on a miss, the word at set start plus the register after one more step than there have been misses, modulo the ways |
| `CacheSim.Cache.RegisterIsMissCount` | c_emulator/Cache/riscv_cache.cpp:73-73 | In every valid cache the register is the seed stepped as many times as there have been misses |
| `CacheSim.Cache.HandlerStatistics` | c_emulator/Cache/riscv_cache.cpp:81-110 | A handler fed by this cache alone has read accesses equal to its misses, write accesses equal to its write-backs, and byte counts of the line size times each |
| `CacheSim.Cache.CountersBalance` | c_emulator/Cache/riscv_cache.cpp:81-113 | Of the object at any time: misses equal lines resident plus evictions, write-backs plus dirty lines equal the times a line became dirty, and write-backs are at most the evictions and the write accesses |
| `CacheSim.Cache.DirtyBitIsHistory` | c_emulator/Cache/riscv_cache.cpp:84-113 | The dirty bit of every valid tag word in the array is set if and only if its line was stored to since it was last fetched |
| `CacheRefinement.LookupIsMembership` | c_emulator/Cache/riscv_cache.cpp:58-68 | The lookup hits exactly when the line is in the map the slots stand for, and the dirty bit found is the one in the map |
| `CacheRefinement.StepRefinesMap` | c_emulator/Cache/riscv_cache.cpp:79-114 | Every access keeps the invariant (each line in its set, none twice) and is a hit, a fill of a free way, or a fill that drops one line of the same set and writes it back exactly when it was dirty |
| `CacheRefinement.RunKeepsInv` | c_emulator/Cache/riscv_cache.cpp:79-114 | The invariant holds after every run |
| `CacheRuns.WritebackCovers` | c_emulator/Cache/riscv_cache.cpp:101-106 | The write-back of a line is a store to its base address covering every byte of it, and the base address maps back to the line |
| `CacheRuns.DirtyUntilWrittenBack` | c_emulator/Cache/riscv_cache.cpp:101-113 | Over every run a dirty line stays dirty until it is written back |
| `CacheRuns.BaseSelectsSameLine` | c_emulator/Cache/riscv_cache.cpp:103-105 | With power-of-two lines no longer than the next level's, the base address handed down selects there the line of every byte it covers |
| `CacheRuns.ChainRunKeepsInv` | c_emulator/Cache/riscv_cache.cpp:79-114 | Every level of a handler chain keeps its invariant over every run |
| `CacheRuns.NoStoreLost` | c_emulator/Cache/riscv_cache.cpp:79-114 | For a chain of any length with line sizes that do not shrink: after a store and any later traffic, some level still holds its line dirty, or memory has since received a store covering its address |
| `CacheLineSizes.BaseSelectsSameLineIff` | c_emulator/Cache/riscv_cache.cpp:103-105 | The base address handed down selects the line of every byte it covers if and only if the next lines are at least as long |
| `CacheLineSizes.LineSizesDecide` | c_emulator/Cache/riscv_cache.cpp:101-113 | Two linked fresh caches of one slot each keep every store in every run if and only if the second has lines at least as long; otherwise one store and one load lose a byte |
| `CacheSystem.NoStoreLostInSystem` | c_emulator/Cache/riscv_cpp_test.cpp:13-39 | The same for the arrangement the emulator sets up: data and instruction caches over one shared second level, in every interleaving |
| `CacheEmulator.AccessFirst` | c_emulator/Cache/riscv_cpp_test.cpp:26-39 | An access through one of two caches with a shared handler leaves the other as it was and valid, and the handler has received exactly the requests of the one |
| `CacheEmulator.CacheInit` | c_emulator/Cache/riscv_cpp_test.cpp:20-24 | Linking both first-level objects to the second-level one leaves all three valid and the two apart |
| `CacheEmulator.Emulator.DcRead` | c_emulator/Cache/riscv_cpp_test.cpp:26-29 | A read through the data cache object is one load of 64 bytes there, counted as such, with no write counted, and leaves the history of the instruction cache alone; the three objects stay where all events so far lead |
| `CacheEmulator.Emulator.IcRead` | c_emulator/Cache/riscv_cpp_test.cpp:31-34 | Likewise through the instruction cache object |
| `CacheEmulator.Emulator.DcWrite` | c_emulator/Cache/riscv_cpp_test.cpp:36-39 | A write through the data cache object is one store of 64 bytes there, counted as such, with no read counted |
| `CacheEmulator.Emulator.NoWriteLost` | c_emulator/Cache/riscv_cpp_test.cpp:13-39 | Of the three objects after any calls: what any earlier write wrote is dirty in the data cache or the second level, or has since been stored to memory |
| `CacheEmulator.Emulator.InstructionCacheIsClean` | c_emulator/Cache/riscv_cpp_test.cpp:31-34 | After any calls the instruction cache holds no dirty word and has counted no write and no write-back |
| `CacheEmulator.Emulator.DirtyBitIsWritten` | c_emulator/Cache/riscv_cpp_test.cpp:26-39 | After any calls a valid word of the data cache is dirty if and only if some write to its line came after the last call that fetched it |
| `CacheEvents.DirtyIffWritten` | c_emulator/Cache/riscv_cpp_test.cpp:26-39 | The same over every sequence of events, for the lines held |
| `CacheAccounts.FetchesOnlyOwnLine` | c_emulator/Cache/riscv_cache.cpp:109-110 | An access fetches a line from the handler exactly when it is the line accessed and it is not resident |
| `CacheAccounts.DirtyIffStoredSinceFetch` | c_emulator/Cache/riscv_cache.cpp:84-113 | Over every run from a fresh cache a resident line is dirty if and only if it was stored to since it was last fetched |
| `CacheAccounts.LinesAreConserved` | c_emulator/Cache/riscv_cache.cpp:81-113 | Over every run misses equal resident lines plus evictions, lines made dirty equal write-backs plus lines still dirty, and write-backs are at most the evictions and at most the stores |
| `Lfsr.PreviousOfNext` | c_emulator/Cache/riscv_cache.h:13-13 | The register step can be undone |
| `Lfsr.NextOfPrevious` | c_emulator/Cache/riscv_cache.h:13-13 | Every word is the step of some word: with the above, a bijection |
| `Lfsr.BitsOfNext` | c_emulator/Cache/riscv_cache.h:13-13 | Bit by bit: every bit moves down one place, and bits 0, 28, 30 and 31 are then flipped if the lowest was set |
| `Lfsr.NeverZero` | c_emulator/Cache/riscv_cache.h:11-13 | From the seed the register never becomes zero |
| `Lfsr.ReturnsToSeed` | c_emulator/Cache/riscv_cache.h:11-13 | The register comes back to the seed after a positive number of steps, and the sequence repeats with that period from its start |
| `RemCore.RecipBounds` | c_emulator/SoftFloat-3e/source/include/primitives.h:178-179 | The reciprocal of a is the last r with r*a below 2^63, and fits in 32 bits |
| `RemCore.DigitEstimate` | c_emulator/SoftFloat-3e/source/f64_rem.c:134-136 | The product of the remainder's head and the reciprocal, scaled, is within (-5/4, 1/2) of the true 29-bit quotient digit, for divisors of any width |
| `RemCore.LoopDigit` | c_emulator/SoftFloat-3e/source/f64_rem.c:136-143 | A digit rounded to nearest leaves a remainder in [-B, 2B) |
| `RemCore.LastDigit` | c_emulator/SoftFloat-3e/source/f64_rem.c:149-150 | The last, partial digit leaves a remainder that fits in a signed word |
| `RemCore.SelectIsNearest` | c_emulator/SoftFloat-3e/source/f64_rem.c:163-169 | Choosing by the sign of the sum of the two remainders, and by the quotient's parity for a tie, leaves the remainder of the nearest quotient, ties to even |
| `RemCore.NearestQuotientUnique` | c_emulator/SoftFloat-3e/source/f64_rem.c:163-169 | The nearest quotient, ties to even, is unique |
| `F64RemLoop.NextRemainder` | c_emulator/SoftFloat-3e/source/f64_rem.c:137-142 | Both compile-time forms of the shift compute rem*2^29 - q*sigB modulo 2^64, because rem stays a multiple of 8 |
| `F64RemLoop.Reduce` | c_emulator/SoftFloat-3e/source/f64_rem.c:133-145 | The loop ends with 0 <= rem < 2*sigB and 1 to 29 bits left to do, and has taken away a whole multiple of the divisor |
| `F64RemLoop.CountDown` | c_emulator/SoftFloat-3e/source/f64_rem.c:158-162 | The do-while loop ends, with the two remainders on either side of zero and the parity of the whole quotient in q |
| `F64RemLoop.SelectRem` | c_emulator/SoftFloat-3e/source/f64_rem.c:164-169 | The wrapped sum and its sign bit make the choice that the exact remainders call for |
| `F64RemLoop.ReduceAndSelect` | c_emulator/SoftFloat-3e/source/f64_rem.c:119-169 | The signed word left is the IEEE remainder of the aligned significands, the even number of divisors taken away by the loop making no difference |
| `F64Rem.Rem` | c_emulator/SoftFloat-3e/source/f64_rem.c:78-175 | For every pair of words: NaN and invalid exactly where required; otherwise the operand returned or the triple handed on is a - n*b for the integer n nearest a/b, ties to even |
| `F32RemLoop.Turn` | c_emulator/SoftFloat-3e/source/f32_rem.c:131-131 | The wrapped -(q*sigB) is the exact rem*2^29 - q*sigB, because rem stays a multiple of 8, and lies in [0, 2*sigB) |
| `F32RemLoop.Reduce` | c_emulator/SoftFloat-3e/source/f32_rem.c:128-133 | The 32-bit loop keeps rem exact and in range and ends with 0 to 29 bits left |
| `F32Rem.Rem` | c_emulator/SoftFloat-3e/source/f32_rem.c:76-154 | The same for every pair of single-precision words, also when the last shift is zero |
| `Words128.Add128` | c_emulator/SoftFloat-3e/source/s_add128.c:44-53 | The two-word sum is the sum modulo 2^128 |
| `Words128.Sub128` | c_emulator/SoftFloat-3e/source/s_sub128.c:44-53 | The two-word difference is the difference modulo 2^128 |
| `Words128.Mul128By32` | c_emulator/SoftFloat-3e/source/s_mul128By32.c:43-56 | The product of a two-word and a 32-bit number modulo 2^128, a lost carry being recovered by a comparison |
| `F128RemLoop.Reduce` | c_emulator/SoftFloat-3e/source/f128_rem.c:129-140 | The two-word loop keeps 0 <= rem < 2*sigB and ends with 1 to 29 bits left |
| `F128Rem.Rem` | c_emulator/SoftFloat-3e/source/f128_rem.c:82-173 | The same for every pair of quadruple-precision words |
| `RemSpec.RemainderOfValues` | c_emulator/SoftFloat-3e/source/f64_rem.c:105-175 | A remainder of aligned significands is the remainder of the values at the exponent handed on, in both positions of the packing helper's point |
| `RemExact.RemainderIsRepresentable` | c_emulator/SoftFloat-3e/source/f64_rem.c:175-175 | In every format the remainder of two numbers is itself a number of the format, so the packing helper has nothing to round |
| `RemExact.PackedExactly` | c_emulator/SoftFloat-3e/source/s_normRoundPackToF64.c:43-56 | Packing a representable number gives its encoding and raises nothing, in every rounding mode |
| `NormRoundPack.NormRoundPack` | c_emulator/SoftFloat-3e/source/s_normRoundPackToF64.c:43-56 | Any exponent and significand that denote a number of the format are packed to its encoding with no exception, on the direct path and on the rounding path, except a zero significand whose exponent lowered by the word size is above the range, which is packed as an overflow |
| `RemResult.Rem64` | c_emulator/SoftFloat-3e/source/f64_rem.c:46-190 | For every pair of words: the word returned encodes x - n*y exactly, n the integer nearest x/y, ties to even, with the first operand's sign if it is zero and no exception; infinities, zeros and NaNs give the word and the invalid exception required |
| `RemResult.Rem32` | c_emulator/SoftFloat-3e/source/f32_rem.c:46-167 | The same for f32_rem |
| `RemResult.RemainderIsDetermined` | c_emulator/SoftFloat-3e/source/f64_rem.c:163-175 | The operands leave no choice of word or exceptions |
| `F64DivSignificand.ReducedRecip` | c_emulator/SoftFloat-3e/source/f64_div.c:123-123 | The reciprocal less two never overestimates and errs by less than three parts |
| `F64DivSignificand.Rest` | c_emulator/SoftFloat-3e/source/f64_div.c:125-128 | The remainder expression on 32-bit halves is an eighth of x*2^31 - q*sigB modulo 2^64 |
| `F64DivSignificand.FirstDigit` | c_emulator/SoftFloat-3e/source/f64_div.c:124-128 | The first digit fits in 31 bits and its remainder is positive and below 9/16 of a word |
| `F64DivSignificand.FirstRemainderFitsIff` | c_emulator/SoftFloat-3e/source/f64_div.c:123-129 | The remainder times 2^64 is exactly what the digit drops, so it fits in a signed word if and only if that is below 2^130 |
| `F64DivSignificand.FirstRemainderFits` | c_emulator/SoftFloat-3e/source/f64_div.c:123-129 | Two tests on the aligned significands, each enough for it to fit |
| `F64DivSignificand.FirstRemainderNeedsAllBits` | c_emulator/SoftFloat-3e/source/f64_div.c:126-129 | That test is sharp: two 53-bit significands that pass it with the limit raised by one part in 2^14 have a remainder that does not fit in a signed word |
| `F64DivSignificand.AwayFromBoundary` | c_emulator/SoftFloat-3e/source/f64_div.c:133-133 | An excess below 64 cannot be seen by any comparison with a multiple of 512 unless the low nine bits are below 64 |
| `F64DivSignificand.AtBoundary` | c_emulator/SoftFloat-3e/source/f64_div.c:134-144 | Near a multiple of 512 the sign of the exact remainder puts the significand on the right side |
| `F64DivSignificand.Quotient` | c_emulator/SoftFloat-3e/source/f64_div.c:123-145 | For all aligned significands sigZ is in [2^62, 2^63) and compares with every multiple of 512 as the true quotient does |
| `F64Div.Div` | c_emulator/SoftFloat-3e/source/f64_div.c:81-170 | For every pair of words, mode and tininess rule: the word returned is the correctly rounded quotient, or the NaN, infinity or zero required, with exactly the exceptions required |
| `F32DivSignificand.ExactQuotient` | c_emulator/SoftFloat-3e/source/f32_div.c:126-127 | The 64-bit division with its sticky bit compares with every multiple of 64 as the quotient does |
| `F32DivSignificand.ReciprocalQuotient` | c_emulator/SoftFloat-3e/source/f32_div.c:136-152 | So does the reciprocal alternative, in both remainder forms, for any r with r*b < 2^63 <= r*b + 2^33 |
| `F32DivSignificand.TwoUnitsAreEnough` | c_emulator/SoftFloat-3e/source/include/primitives.h:169-179 | A reciprocal within two units, such as the 64-bit division, is such an r |
| `ReciprocalTable.MoreThanTwoUnits` | c_emulator/SoftFloat-3e/source/s_approxRecip32_1.c:44-63 | The table form misses by more than two units for a divisor that f32_div aligns, and is such an r for it |
| `F32Div.Div` | c_emulator/SoftFloat-3e/source/f32_div.c:84-178 | The same for f32_div, whichever alternative is compiled and whatever reciprocal of that accuracy the second one uses |
| `WordResults.QuotientIsDetermined` | c_emulator/SoftFloat-3e/source/f32_div.c:119-153 | Operands, mode and tininess rule determine word and exceptions, so the compile-time alternatives agree bit for bit and flag for flag |
| `Operations.QuotientStandsIn` | c_emulator/SoftFloat-3e/source/f64_div.c:113-122 | A significand faithful to the quotient of significands is faithful to the quotient of values at the exponent handed on |
| `Words128.Mul64To128` | c_emulator/SoftFloat-3e/source/s_mul64To128.c:43-62 | The two-word product is exact, lost carries being recovered by comparison |
| `F64MulSignificand.Mul64To128M` | c_emulator/SoftFloat-3e/source/s_mul64To128M.c:43-66 | The four words written from the half-word products and recovered carries are the exact product |
| `F64MulSignificand.Renormalised` | c_emulator/SoftFloat-3e/source/f64_mul.c:121-124 | The sticky bit keeps its meaning through the renormalising shift: before and after it every multiple of 4 compares as with the product |
| `F64Mul.MultiplySignificands` | c_emulator/SoftFloat-3e/source/f64_mul.c:109-124 | In both word layouts sigZ is in [2^62, 2^63) and compares with every multiple of 4 as the exact product does |
| `F64Mul.Mul` | c_emulator/SoftFloat-3e/source/f64_mul.c:83-148 | For every pair of words, mode and tininess rule, and in both word layouts: the correctly rounded product, or the NaN, infinity or zero required, with exactly the exceptions required |
| `F32Mul.Mul` | c_emulator/SoftFloat-3e/source/f32_mul.c:78-135 | The same for f32_mul |
| `WordResults.ProductIsDetermined` | c_emulator/SoftFloat-3e/source/f64_mul.c:112-120 | Likewise, so the two layouts agree |
| `WordResults.ProductCommutes` | c_emulator/SoftFloat-3e/source/f64_mul.c:83-148 | The order of the factors makes no difference to word or exceptions |
| `WordResults.OverflowByMode` | c_emulator/SoftFloat-3e/source/s_roundPackToF64.c:57-90 | An overflow delivers infinity when rounding to nearest or away from zero, and the largest finite number toward zero or to odd, with the sign of the result |
| `WordForms.OneIsNeutral64` | c_emulator/SoftFloat-3e/source/f64_div.c:113-146 | Dividing or multiplying any double-precision number by 0x3FF0000000000000 returns its own word and raises nothing, and a finite number other than zero divided by itself is that word |
| `WordForms.OneIsNeutral32` | c_emulator/SoftFloat-3e/source/f32_div.c:100-154 | The same in single precision, with 0x3F800000 |
| `Formats.Parts64` | c_emulator/SoftFloat-3e/source/include/internals.h:125-127 | Sign, exponent and fraction are in range, and put together they are the word |
| `Formats.Parts32` | c_emulator/SoftFloat-3e/source/include/internals.h:104-106 | Likewise |
| `Formats.Parts128` | c_emulator/SoftFloat-3e/source/include/internals.h:176-178 | Likewise, of two-word operands |
| `Rounding.RoundIsPrescribed` | c_emulator/SoftFloat-3e/source/include/softfloat.h:71-78 | Rounding by quotient, remainder and parity is what each mode prescribes for the signed value: floor, ceiling, truncation, nearest with either tie rule, or odd |
| `Rounding.PrescribedIsUnique` | c_emulator/SoftFloat-3e/source/include/softfloat.h:71-78 | Each mode prescribes exactly one integer |
| `Rounding.RoundFaithful` | c_emulator/SoftFloat-3e/source/f64_div.c:133-146 | A significand that compares with every half unit as the exact value does rounds as it does in every mode and is exact exactly when it is |
| `RoundPack.RoundSig` | c_emulator/SoftFloat-3e/source/s_roundPackToF64.c:96-106 | Adding the mode's increment, shifting and repairing the last bit rounds the significand |
| `RoundPack.CarryOut` | c_emulator/SoftFloat-3e/source/s_roundPackToF64.c:82-85 | The comparison with the incremented word tells exactly when rounding reaches the next power of two |
| `RoundPack.TinyTest` | c_emulator/SoftFloat-3e/source/s_roundPackToF64.c:72-75 | The test for tininess is the definition, before or after rounding |
| `RoundPack.JamFaithful` | c_emulator/SoftFloat-3e/source/s_shiftRightJam64.c:42-49 | A right shift with sticky bit keeps every comparison with an even number |
| `RoundPack.RoundPack` | c_emulator/SoftFloat-3e/source/s_roundPackToF64.c:43-116 | A significand standing in for an exact value is packed to the correctly rounded encoding, with inexact, overflow and underflow exactly when IEEE 754 asks for them, if it is full or the exponent is negative; a zero one becomes a zero or an overflow by its exponent |
| `RoundPack.CorrectlyRoundedUnique` | c_emulator/SoftFloat-3e/source/s_roundPackToF32.c:43-112 | Encoding and exceptions of a correct rounding are determined by the exact value, the mode and the tininess rule |
| `Encoding.EncodedAt` | c_emulator/SoftFloat-3e/source/s_roundPackToF64.c:107-111 | Adding a significand with its hidden bit to a shifted exponent encodes the right value, also when rounding has carried it to the next power of two |
| `Encoding.EncodedInOrder` | c_emulator/SoftFloat-3e/source/f64_lt.c:59-64 | Unsigned encodings are ordered as their values, and equal only for equal values |
| `Encoding.ValueOfIs` | c_emulator/SoftFloat-3e/source/s_roundPackToF64.c:107-111 | The value of an encoding by its fields is the value obtained by doubling once for each exponent above the first two, without fields |
| `RoundInt.EncodingRounds` | c_emulator/SoftFloat-3e/source/f32_roundToInt.c:94-108 | Rounding an encoding to a multiple of its units bit rounds its value to an integer, with carries into the exponent, and ties to even even when the units bit is the exponent's lowest bit |
| `RoundInt.MiddleRange` | c_emulator/SoftFloat-3e/source/f32_roundToInt.c:94-114 | The same for the whole word, the sign bit unaffected |
| `RoundInt.SmallRange` | c_emulator/SoftFloat-3e/source/f32_roundToInt.c:59-82 | Below one, the branch on mode, sign and the comparison with one half gives the rounded value |
| `RoundInt.LargeRange` | c_emulator/SoftFloat-3e/source/f32_roundToInt.c:85-91 | From the exponent where every encoding is integral, returning the operand is right |
| `RoundInt.AddAndMask` | c_emulator/SoftFloat-3e/source/f32_roundToInt.c:97-111 | Adding half or nearly a unit, masking, and setting the bit for round-to-odd rounds as the mode says and tells whether the value changed; bits below the word count only by being there |
| `RoundInt.RoundedToIntUnique` | c_emulator/SoftFloat-3e/source/f128M_roundToInt.c:61-220 | The outcome is determined, so the two-word and word-array routines return the same 128 bits and the same flag |
| `RoundInt.RoundedToIntIdempotent` | c_emulator/SoftFloat-3e/source/f32_roundToInt.c:44-119 | Rounding a result again, in any mode, returns it and is exact |
| `F32RoundToInt.RoundToInt` | c_emulator/SoftFloat-3e/source/f32_roundToInt.c:44-119 | For every operand, mode and `exact`: the integral value the mode prescribes with the sign kept, inexact if and only if asked for and the operand was not integral |
| `F128RoundToInt.UnitsInLow` | c_emulator/SoftFloat-3e/source/f128_roundToInt.c:92-105 | With the units bit in the low word the two-word addition and masks round the 128-bit number |
| `F128RoundToInt.UnitsBetween` | c_emulator/SoftFloat-3e/source/f128_roundToInt.c:82-106 | With the units bit the lowest of the high word, the comparison with 2^63 does |
| `F128RoundToInt.UnitsInHigh` | c_emulator/SoftFloat-3e/source/f128_roundToInt.c:137-156 | With the units bit higher up, the low word counts only by being zero or not |
| `F128RoundToInt.RoundToInt` | c_emulator/SoftFloat-3e/source/f128_roundToInt.c:44-171 | The specification above for the two-word routine |
| `F128MRoundToInt.Scan` | c_emulator/SoftFloat-3e/source/f128M_roundToInt.c:151-161 | The word scan stops at the word of the bit looked for, has cleared the words below it and knows whether any was not zero |
| `F128MRoundToInt.AddAndMaskWord` | c_emulator/SoftFloat-3e/source/f128M_roundToInt.c:163-184 | One word and a carry give the number of units a nearest mode asks for, also when half a unit is the word's top bit |
| `F128MRoundToInt.TieAcrossWords` | c_emulator/SoftFloat-3e/source/f128M_roundToInt.c:175-181 | A tie whose units bit lies in the next word clears that bit there and carries on |
| `WordArrays.PropagateCarry` | c_emulator/SoftFloat-3e/source/f128M_roundToInt.c:207-213 | The carry loop adds the carry to the number in the words above and leaves the words below alone |
| `F128MRoundToInt.RoundToInt` | c_emulator/SoftFloat-3e/source/f128M_roundToInt.c:61-220 | The specification above for the word-array routine, met for every operand with two buffers, and with one buffer if and only if the operand does not need the words that were cleared |
| `F128MRoundToInt.InPlaceIsRightIff` | c_emulator/SoftFloat-3e/source/f128M_roundToInt.c:90-98 | With one buffer and a magnitude below one, rounding what is left after the clearing is right if and only if the operand does not need the cleared words |
| `ExtF80RoundToInt.RoundAndCarry` | c_emulator/SoftFloat-3e/source/extF80_roundToInt.c:123-147 | Wrapped 64-bit addition and masks round the significand, a result of zero standing for 2^64 and bumping the exponent |
| `ExtF80RoundToInt.RoundToInt` | c_emulator/SoftFloat-3e/source/extF80_roundToInt.c:44-153 | For every encoding, those without their integer bit included: the integral value the mode prescribes, in canonical form, with the exact inexact flag |
| `ExtF80RoundToInt.ExtRoundedUnique` | c_emulator/SoftFloat-3e/source/extF80_roundToInt.c:44-153 | The outcome is determined, bits and flag |
| `ExtF80RoundToInt.ExtRoundedIdempotent` | c_emulator/SoftFloat-3e/source/extF80_roundToInt.c:44-153 | Rounding a result again, in any mode, returns it and is exact |
| `ToI64Spec.IntegerPart` | c_emulator/SoftFloat-3e/source/f128_to_i64_r_minMag.c:86-108 | Integer part and fraction of a value can be read off its significand and the weight of its units bit, subnormals included |
| `F128ToI64.Convert` | c_emulator/SoftFloat-3e/source/f128_to_i64_r_minMag.c:44-112 | For every word: the value truncated toward zero, brought to the nearer end of the signed 64-bit range if it is beyond it, and the largest integer for a NaN; invalid exactly for those; inexact exactly when asked for and a fraction was dropped |
| `ToI64Spec.ConversionIsMonotone` | c_emulator/SoftFloat-3e/source/f128_to_i64_r_minMag.c:78-112 | A larger number never becomes a smaller integer, saturation included |
| `ToI64Spec.IntegersConvertExactly` | c_emulator/SoftFloat-3e/source/f128_to_i64_r_minMag.c:78-112 | An encoded integer that a signed word can hold becomes that integer, and nothing is raised |
| `F128MToI64.JamSplits` | c_emulator/SoftFloat-3e/source/f128M_to_i64_r_minMag.c:84-91 | With 32 bits kept below the units, the low word is zero exactly when there is no fraction |
| `WordShifts.ShiftRightJamM` | c_emulator/SoftFloat-3e/source/s_shiftRightJamM.c:45-98 | Shifting an array of any length right word by word, by any distance, leaves the shifted number with the sticky bit of all that was shifted out |
| `WordShifts.ShortShiftRightJam` | c_emulator/SoftFloat-3e/source/s_shortShiftRightJamM.c:43-69 | The part of a shift below the word size, with its own sticky bit |
| `F128MToI64.Convert` | c_emulator/SoftFloat-3e/source/f128M_to_i64_r_minMag.c:55-121 | The word-array routine, its sticky shift included, meets the same specification, which determines result and flags |
| `Compare.LessThanIsOrder` | c_emulator/SoftFloat-3e/source/f64_lt.c:55-64 | The bit formula is < on the encoded extended reals, both zeros equal; false and invalid with a NaN |
| `Compare.LessOrEqualIsOrder` | c_emulator/SoftFloat-3e/source/f64_le.c:55-64 | The bit formula is <= on the encoded extended reals |
| `Compare.EqualIsEquality` | c_emulator/SoftFloat-3e/source/f64_eq.c:55-63 | The bit formula is equality of the encoded extended reals; invalid exactly with a signaling NaN |
| `Compare.TotalPreorder` | c_emulator/SoftFloat-3e/source/f64_le.c:62-64 | Without NaNs less-than is the negation of the reverse less-or-equal, which is a total preorder, and equality is less-or-equal both ways |
| `Compare.Landmarks` | c_emulator/SoftFloat-3e/source/include/internals.h:104-178 | In all three formats the encodings of one, infinity and negative zero are the known words, and the first has the value that counts as one |
| `F128Compare.Lt` | c_emulator/SoftFloat-3e/source/f128_lt.c:57-70 | The word-pair formula is the comparison of the 128-bit encodings |
| `F128Compare.Le` | c_emulator/SoftFloat-3e/source/f128_le.c:57-70 | Likewise less-or-equal |
| `F128Compare.Eq` | c_emulator/SoftFloat-3e/source/f128_eq.c:57-71 | Likewise equality, flags included |
| `F128MCompare.Compare128` | c_emulator/SoftFloat-3e/source/s_compare128M.c:43-59 | The downward word loop orders the 128-bit numbers |
| `F128MCompare.IsSignaling` | c_emulator/SoftFloat-3e/source/8086/f128M_isSignalingNaN.c:44-58 | The word test finds exactly the NaNs with a clear quiet bit |
| `F128MCompare.Lt` | c_emulator/SoftFloat-3e/source/f128M_lt.c:54-90 | For every pair, NaNs included, the word-array routine returns the same verdict and flag as the 128-bit comparison |
| `F128MCompare.Le` | c_emulator/SoftFloat-3e/source/f128M_le.c:54-90 | Likewise less-or-equal |
| `F128MCompare.Eq` | c_emulator/SoftFloat-3e/source/f128M_eq.c:55-97 | Likewise equality, through every early exit |
| `F32ToF64.Convert` | c_emulator/SoftFloat-3e/source/f32_to_f64.c:44-92 | Widening keeps sign and value exactly, subnormals and infinities included; a NaN becomes the default NaN, which is quiet, with invalid exactly for a signaling one |
| `F32ToF64.ComparesAlike` | c_emulator/SoftFloat-3e/source/f32_lt.c:55-63 | Comparing single-precision numbers and comparing them widened give the same verdicts |
| `Floats.NormSubnormal` | c_emulator/SoftFloat-3e/source/s_normSubnormalF64Sig.c:41-51 | A subnormal significand is moved up until its hidden bit is set, with the exponent that keeps its value |

## Left out

- CacheSim.Cache.constructor: requires powers of two for sets and line size, at least one way and lines of four bytes, which the source assumes and does not check (`CacheSim.EveryFilledEntryIsFound` says why four); counters are unbounded naturals, and the name, the miss log and the printed statistics are not modelled.
- CacheSim.Cache.SetMissHandler: requires a handler that does not reach this cache; with a cyclic chain an access need not return.
- CacheEmulator.AccessFirst: for the access size of 64 bytes that the emulator uses.
- CacheEmulator.CacheInit: the objects are created by a constructor with any three sizes instead of being static objects of the sizes in riscv_cpp_test.cpp.
- CacheLineSizes.LineSizesDecide: the converse is for caches of one slot each; whether a larger cache ever evicts a given line depends on its victim register.
- CacheSim.Cache.Rebuild: mask and shift are written as subtraction and a product modulo 2^64.
- Lfsr.ReturnsToSeed: gives a period of at most 2^32, not the exact one.
- RemCore.RecipBounds: the reciprocal in the form the RISC-V build compiles, a 64-bit division.
- F32Div.Div: when the reciprocal alternative is compiled, takes as a precondition that the reciprocals of the divisors it aligns are within 2^33; the division form is (`F32DivSignificand.TwoUnitsAreEnough`), but that the table form is for every divisor is not proved.
- Floats.NormSubnormal: leading zeros are counted by doubling, not by the byte table; the two-word normaliser of f128_rem is replaced by the same function.
- F128Rem.Rem: stops at the sign, exponent and significand; the 128-bit packing helper is not modelled. `RemExact.RemainderIsRepresentable` says for this format too that it has nothing to round.
- RoundPack.RoundPack: a significand that neither is zero nor fills the word is covered for negative exponents only; no routine modelled here hands on any other. The exponent is an integer, so the cast to 16 bits in its range test is not modelled.
- NormRoundPack.NormRoundPack: for numbers the format can represent, which is what a remainder is; sums and differences, which can need rounding, are not modelled.
- F128MRoundToInt.RoundToInt: what a propagated NaN leaves in the buffer is not modelled.
- NaN operands of the 128-bit and extended formats, and of the conversions to integral values: only that a NaN is propagated, not which. The 64- and 32-bit remainder, division and multiplication, and widening, deliver the default NaN as the RISC-V specialization does.
- Rounding modes other than the six named ones are not modelled.
- Addition, subtraction, fused multiply-add, square root, 16-bit formats and the other conversions.
- Byte order of word arrays: words are numbered from the least significant one.
- The instruction-set model, option parsing, loading, devices and everything else of the emulator.
