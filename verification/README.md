# Verified model of the numeric and register kernel of a Cortex-M4 support tree

The repository is the firmware of a debug-probe board built on a Nations N32G43x.
Its own arithmetic and register logic sits in inline functions of the CMSIS
headers and in the clock set-up of the device file. This project models that
code in Dafny and proves what it computes, for every input or over every run.

| file | models |
|---|---|
| `Arithmetic.dfy` | facts about products, quotients and remainders |
| `Words.dfy` | powers of two, bits, `\|`, `&`, `& ~`, shifts of a word |
| `FixedPoint.dfy` | Q63/Q31/Q15/Q7 words, narrowing casts, saturating clips |
| `BitLoops.dfy` | the software loops of `__CLZ` and `__RBIT`, and `__ROR` |
| `Reciprocal.dfy` | the Newton-Raphson reciprocals `arm_recip_q31`, `arm_recip_q15` |
| `Simd.dfy` | `mult32x64` and the dual 16-bit multiplies |
| `Pid.dfy` | the stateful controllers `arm_pid_q31`, `arm_pid_q15` (both builds) |
| `Transforms.dfy` | Clarke and Park transforms and their inverses, Q31 |
| `Interpolation.dfy` | linear interpolation, Q31, Q15, Q7 |
| `Bilinear.dfy` | bilinear interpolation, Q15, Q7 |
| `CircularBuffer.dfy` | strided circular writes and reads |
| `Mpu.dfy` | `orderedCpy`, `ARM_MPU_SetRegion`, `ARM_MPU_Load` |
| `Nvic.dfy` | NVIC enable/pending bits, priority registers and priority codec |
| `Clock.dfy` | PLL factor choice, `SetSysClock`, and the two routines that read the clock back |

Conventions. A signed `>>` is floor division by a power of two; Dafny's `/` by a
positive literal is that floor. Narrowing casts wrap and are written out
(`ToQ31`, `ToQ15`, ...). Values are unbounded integers constrained by predicates,
so a cast that loses nothing is a fact that is proved, not assumed. Words in
`BitLoops`, `Mpu` and `Nvic` are natural numbers; the clock registers are
bit-vectors with the masks of `firmware/CMSIS/device/n32g43x.h`. Code that
updates state (the reciprocals' loops, the controllers, the buffers, the MPU and
NVIC registers, the clock) is written as methods and classes, each proved equal
to a specification function, and the results are lemmas about those functions.
The reciprocal seed tables are extern arrays; their accuracy is a hypothesis,
and a table that meets it is exhibited.

Where the code and its comments or the intended property differ, the code is
followed and the exact condition is proved:

- `SystemCoreClockUpdate` tests `PLLSRCDIV` where `SetSysClock` set `PLLHSIPRE`.
  With the internal oscillator it returns `SYSCLK_FREQ` only for some plans; the
  shipped 96 MHz configuration reads back as 192 MHz. The peripheral driver's
  `RCC_GetClocksFreqValue` tests the right bit.
- `arm_recip_q31` handles negative input in its sign-bit count, but on any input
  that is not positive every step clips and the result is 0x7FFFFFFF.
- `arm_pid_q31` is documented to saturate its output; it wraps. The wraps of
  earlier calls cancel, so a later output is right whenever the exact one fits.
- `clip_q63_to_q15` compares at bit 31 but shifts by 15, so it is the saturated
  shift exactly outside two bands.
- Linear interpolation of a nondecreasing table need not be monotone. For Q15 and
  Q7 it is exactly when the table has one entry or its first entry is not
  positive. For Q31 the first entry must also be even, and no step inside a cell
  may borrow from the one 64-bit product without a carry in the other; a cell
  that reaches a multiple of 2^21 never does.
- The circular buffer loops wrap at the upper end only, although their comment
  speaks of negative strides: with a stride outside 0..L the accesses stay in the
  buffer exactly while the block is short enough.
- The Clarke round trip returns Ib within 4 LSBs exactly when the second product
  fits and the sum is not clipped too far.
- The Park transform returns its two rotated sums exactly when they fit and the
  input is not Ialpha = sin = -2^31. Then the round trip is within 4 and 5 LSBs;
  with a sum clipped by 20 LSBs or more, or at that input, it is not. In between
  every LSB clipped costs at most one more.
- The emulated `SMLALD` adds its two products in 32 bits; it differs from the
  instruction, which builds with the DSP extension use, for one pair of operands.
- The bilinear routines hold X against the rows and Y against the columns, while
  X indexes the columns of the documented layout. Their test turns away cells of
  the table, and admits cells whose four reads leave it; both have their exact
  condition.
- `__ROR` of `cmsis_iccarm.h:586` has no test for a zero count and is not part of
  this model; the one with the test is.

## Model

| member | source | states |
|---|---|---|
| FixedPoint.ClipQ63ToQ31Saturates | firmware/CMSIS/core/arm_math.h:520-525 | comparing the upper half with the sign of the lower and xoring the sign is saturation, for every 64-bit value |
| FixedPoint.ClipQ63ToQ15SaturatesIff | firmware/CMSIS/core/arm_math.h:530-535 | the clip is the saturated shift if and only if the value needs more than 32 bits or lies in -2^30..2^30-1 |
| FixedPoint.ClipQ63ToQ15Wraps | firmware/CMSIS/core/arm_math.h:530-535 | a failing input: 2^30 clips to -32768 where the saturated shift is 32767 |
| FixedPoint.ClipQ31ToQ15Saturates | firmware/CMSIS/core/arm_math.h:550-555 | saturation for every 32-bit value |
| FixedPoint.EmulatedSaturates | firmware/CMSIS/core/arm_math.h:868-884 | the emulated QADD and QSUB, which clip a 64-bit sum, are the saturating operations the transforms are modelled with |
| BitLoops.CountLeadingZeros | firmware/CMSIS/core/cmsis_iccarm.h:496-509 | the mask scan ends with the number of leading zeros, 32 for zero, and never runs off the word |
| BitLoops.LeadingZeros | firmware/CMSIS/core/cmsis_iccarm.h:496-509 | the count c is the one with 2^(31-c) <= x < 2^(32-c), or 32 exactly for zero |
| BitLoops.NormaliseQ31 | firmware/CMSIS/core/arm_math.h:583-593 | shifting a positive word by its leading zeros less one brings it into 2^30..2^31-1 |
| BitLoops.ReverseBits | firmware/CMSIS/core/cmsis_gcc.h:990-999 | although it starts from the whole word and stops early, the loop puts bit i at bit 31-i for all i, and the remaining shift count stays in 0..31 |
| BitLoops.ReverseInvolution | firmware/CMSIS/core/cmsis_gcc.h:981-1001 | reversing twice gives the word back |
| BitLoops.ClzOfReverse | firmware/CMSIS/core/cmsis_iccarm.h:496-522 | CLZ of RBIT is the index of the lowest set bit, for every non-zero word |
| BitLoops.RotateCompose | firmware/CMSIS/core/cmsis_gcc.h:954-962 | rotations compose by adding their counts modulo 32, for every word and counts |
| BitLoops.RotateBit | firmware/CMSIS/core/cmsis_gcc.h:954-962 | bit i of the rotated word is bit (i + n) mod 32 of the original |
| BitLoops.RotateInverse | firmware/CMSIS/core/cmsis_gcc.h:954-962 | rotating by n and then by 32 - n gives every word back, n = 0 and n = 32 included |
| Reciprocal.StepQ31Iff | firmware/CMSIS/core/arm_math.h:604-611 | for all operands a pass is the saturated Newton value, its unsigned temporary notwithstanding, if and only if not both are -2^31 |
| Reciprocal.StepQ15Wraps | firmware/CMSIS/core/arm_math.h:655-662 | for all operands a pass is the low 16 bits of the Newton value: computing it in unsigned 32 bits loses nothing more |
| Reciprocal.StepQ31Undershoots | firmware/CMSIS/core/arm_math.h:604-611 | for a normalised positive input and any non-negative estimate a step stays below 2^61/a, so neither the unsigned subtraction nor the clip acts, and the remaining distance is the squared old one plus bounded rounding |
| Reciprocal.TwoStepsQ31 | firmware/CMSIS/core/arm_math.h:602-611 | from a seed good to one part in 128, two steps end below the target by more than 0 and less than 3.01 * 2^32 of 2^61 |
| Reciprocal.RecipQ31Result | firmware/CMSIS/core/arm_math.h:573-618 | with an accurate table the result is that close to the reciprocal if and only if the input is positive; otherwise it is 0x7FFFFFFF |
| Reciprocal.RecipQ31 | firmware/CMSIS/core/arm_math.h:573-618 | the method with the loop returns that value, and the shift count that normalises the input |
| Reciprocal.MidpointTableQ31 | firmware/CMSIS/core/arm_common_tables.h:36 | a 64-entry table of cell midpoints meets the accuracy hypothesis |
| Reciprocal.StepQ15Undershoots | firmware/CMSIS/core/arm_math.h:655-662 | for any non-negative estimate the unclipped narrowing cast loses no bit, because the step stays below 2^29/a |
| Reciprocal.RecipQ15 | firmware/CMSIS/core/arm_math.h:624-669 | two steps end below the target by more than 0 and less than 2^16 + 32 of 2^29 for every positive input |
| Reciprocal.FirstPassQ15Iff | firmware/CMSIS/core/arm_math.h:655-662 | with an accurate table the narrowing cast of the first pass keeps every bit if and only if the input is positive |
| Reciprocal.MidpointTableQ15 | firmware/CMSIS/core/arm_common_tables.h:35 | a table meeting the Q15 hypothesis exists |
| Simd.Mult32x64Exact | firmware/CMSIS/core/arm_math.h:561-567 | the two-part product is floor(x*y/2^32) for all operands and no part overflows 64 bits |
| Simd.ComplexProduct | firmware/CMSIS/core/arm_math.h:856-862 | SMUSD always is the exact real part; SMUADX is the exact imaginary part if and only if not all four halves are -32768 |
| Simd.ComplexModulus | firmware/CMSIS/core/arm_math.h:974-980 | the squared modulus of the packed product is the product of the squared moduli |
| Simd.SmuadExactIff | firmware/CMSIS/core/arm_math.h:962-968 | SMUAD is the exact sum of the products if and only if not all four halves are -32768 |
| Simd.SmlaldEmulatedIff | firmware/CMSIS/core/arm_math.h:929-940 | the emulation returns what the instruction does for every accumulator if and only if not all four halves are -32768 |
| Pid.PidQ31.Process | firmware/CMSIS/core/arm_math.h:4810-4839 | one call leaves the shifted inputs and the wrapped output of the specification step in the state array and returns that output |
| Pid.PidQ31.ProcessAll | firmware/CMSIS/core/arm_math.h:4810-4839 | calling it once per sample returns, and leaves, the run the results below are about |
| Pid.WrapsCancel | firmware/CMSIS/core/arm_math.h:4818-4831 | the five wraps of a step together amount to one wrap of the exact output |
| Pid.PidQ31SaturatesIff | firmware/CMSIS/core/arm_math.h:4807-4831 | the documented saturation is met if and only if the new output fits or wraps onto the bound |
| Pid.PidQ31Overshoots | firmware/CMSIS/core/arm_math.h:4826-4831 | a failing input: one LSB over the top comes out as -2^31 |
| Pid.RunModulo | firmware/CMSIS/core/arm_math.h:4810-4839 | after any run, overflows included, the output is the sum of the floored increments modulo 2^32 and the state holds the last two inputs |
| Pid.Telescope | firmware/CMSIS/core/arm_math.h:4721-4726 | the increments of a run from any state sum to the change of Kp*x + Ki*sum(x) + Kd*(x - x') |
| Pid.PidQ31TracksIff | firmware/CMSIS/core/arm_math.h:4721-4726 | from any state and whatever earlier calls did, the n-th output is below the positional value by 0 to less than n LSBs if the sum of floored increments fits 32 bits, and for runs of up to 2^32 calls only if it does |
| Pid.PidQ31TracksUnlessOverflow | firmware/CMSIS/core/arm_math.h:4721-4726 | the bound holds for every run, of any length and from any state, in which no call overflows its output |
| Pid.PidQ31TracksPositional | firmware/CMSIS/core/arm_math.h:4721-4726 | a positional value that is representable with n LSBs to spare is enough, overflows on the way included |
| Pid.PidQ31FromReset | firmware/CMSIS/core/arm_math.h:4721-4726 | from the cleared state and without overflow the bound holds against the positional value alone |
| Pid.DriftReached | firmware/CMSIS/core/arm_math.h:4826-4831 | an integral controller fed with -1 is n - n/2^31 LSBs low after n calls, so the bound cannot be lowered |
| Pid.AccumulatorRange | firmware/CMSIS/core/arm_math.h:4849-4888 | for all gains, states and inputs no intermediate value of the Q15 routine leaves its type |
| Pid.PidQ15.Process | firmware/CMSIS/core/arm_math.h:4876-4896 | the portable build performs the specification step on the state array |
| Pid.PidQ15.ProcessDsp | firmware/CMSIS/core/arm_math.h:4864-4896 | the DSP build, on packed words, performs its specification step |
| Pid.DspAccumulator | firmware/CMSIS/core/arm_math.h:962-968 | widening A0 and the input to words adds exactly 1 to the accumulator when both are negative, and nothing otherwise |
| Pid.DspStepDiffers | firmware/CMSIS/core/arm_math.h:4864-4888 | from one state the DSP build returns one more exactly when A0 and the input are negative and the extra unit crosses a multiple of 2^15 below saturation; otherwise both agree |
| Pid.DspBuildsDiffer | firmware/CMSIS/core/arm_math.h:4864-4888 | an input on which they differ: A0 = -1, all else clear, fed with -32767 |
| Pid.DspRunDiffers | firmware/CMSIS/core/arm_math.h:4857-4897 | over a whole run the DSP build is never below the portable one and above it by at most the number of negative inputs, or nothing when A0 >= 0 |
| Pid.UnsaturatedIff | firmware/CMSIS/core/arm_math.h:4888-4896 | every output of a run is the sum of the floored increments so far if and only if no call saturates |
| Pid.PidQ15TracksPositional | firmware/CMSIS/core/arm_math.h:4857-4897 | as long as no call saturates, the output is below the positional value by 0 to less than n LSBs |
| Transforms.ClarkeRoundTrip | firmware/CMSIS/core/arm_math.h:5092-5111 | when the second forward product fits 32 bits and the add does not clip, the inverse returns Ia exactly and Ib within -3..+1 LSBs |
| Transforms.ClarkeConstants | firmware/CMSIS/core/arm_math.h:5006-5009 | the constants are 1/sqrt(3), 2/sqrt(3) and sqrt(3)/2 rounded down |
| Transforms.ClarkeForward | firmware/CMSIS/core/arm_math.h:4995-5014 | without wrap or clip Ibeta is less than two LSBs below (Ia + 2*Ib)/sqrt(3) |
| Transforms.ClarkeValue | firmware/CMSIS/core/arm_math.h:4995-5014 | for all inputs: the first product never wraps, the second may, and the sum saturates |
| Transforms.InvClarkeValue | firmware/CMSIS/core/arm_math.h:5092-5111 | for all inputs the inverse wraps nowhere, and the difference saturates |
| Transforms.ClarkeRoundTripIff | firmware/CMSIS/core/arm_math.h:4995-5014 | for all inputs Ib comes back within 4 LSBs if and only if the second product fits and, where the add clips, Ib + Ia/2 is at most 4 beyond the value that bound maps back to |
| Transforms.ClarkeClipLoses | firmware/CMSIS/core/arm_math.h:4995-5014 | when the add clips by more than 8 LSBs, Ib comes back wrong by more than 4 |
| Transforms.ClarkeWrapLoses | firmware/CMSIS/core/arm_math.h:4995-5014 | whenever the second product does not fit, Ib comes back wrong by more than 2^29 |
| Transforms.ParkExactIff | firmware/CMSIS/core/arm_math.h:5206-5235 | for all inputs the transform returns the two floored sums if and only if both fit and it is not the case that Ialpha and sin are both -2^31 |
| Transforms.ForwardRounding | firmware/CMSIS/core/arm_math.h:5206-5235 | those sums are 0 to 2 LSBs below d, and within 1 LSB of q, of the exact rotation |
| Transforms.ParkRoundTrip | firmware/CMSIS/core/arm_math.h:5319-5348 | for all inputs: when the forward sums fit, forward and back gives the input times sin^2 + cos^2, to less than 4 LSBs on alpha and 5 on beta; when a sum is clipped by 20 LSBs or more, or Ialpha = sin = -2^31, it does not |
| Transforms.ParkClipCosts | firmware/CMSIS/core/arm_math.h:5319-5348 | each LSB clipped off a forward sum adds at most one LSB to those bounds |
| Transforms.ParkAxisIff | firmware/CMSIS/core/arm_math.h:5319-5348 | where sine or cosine is -1 the round trip is exact, wraps included, if and only if Ialpha and sin are not both -2^31 |
| Transforms.ParkInDisc | firmware/CMSIS/core/arm_math.h:5206-5235 | a vector up to 2^31 - 1 long fits at every angle, so both results hold for it |
| Transforms.LongerVectorWraps | firmware/CMSIS/core/arm_math.h:5206-5235 | a vector of length 2^31 for which (-1)(-1) wraps: q and the returned alpha are 2^31 - 1 instead of -2^31 |
| Transforms.BoxInDisc | firmware/CMSIS/core/arm_math.h:5206-5235 | components up to 2^30 in magnitude are in that disc |
| Interpolation.BlendQ31Rounds | firmware/CMSIS/core/arm_math.h:5504-5511 | no cast and not the final doubling overflows; the result is even and less than 4 LSBs under the exact weighted sum |
| Interpolation.AccuracyQ31 | firmware/CMSIS/core/arm_math.h:5471-5513 | for every table, in any order, and every input: less than 5 LSBs below and at most 1 above the polygon through the entries; the first entry below zero, the last from the last on |
| Interpolation.RangeQ31 | firmware/CMSIS/core/arm_math.h:5496-5512 | never above the larger neighbour, at most 4 below the smaller |
| Interpolation.MonotoneQ31 | firmware/CMSIS/core/arm_math.h:5471-5513 | for every nondecreasing table, across cells and both clamps, x1 <= x2 gives interp(x1) <= interp(x2) + 2, or + 4 when x1 is negative |
| Interpolation.SlackTwoReachedQ31 | firmware/CMSIS/core/arm_math.h:5471-5513 | the slack of 2 is reached inside a cell of a constant table |
| Interpolation.SlackFourReachedQ31 | firmware/CMSIS/core/arm_math.h:5471-5513 | the slack of 4 is reached across the lower clamp |
| Interpolation.StepInCell | firmware/CMSIS/core/arm_math.h:5504-5511 | one input unit inside a cell lowers the floored sum if and only if both neighbours are in one block of 2^21, the first product borrows and the second does not carry |
| Interpolation.MonotoneQ31Iff | firmware/CMSIS/core/arm_math.h:5471-5513 | a nondecreasing table of any length is interpolated monotonically, over all inputs, if and only if it has one entry, or its first entry is even and not positive and no reachable cell has such a step |
| Interpolation.AnchoredMonotoneQ31Iff | firmware/CMSIS/core/arm_math.h:5471-5513 | when every cell reaches a multiple of 2^21, the first entry alone decides |
| Interpolation.AccuracyQ15 | firmware/CMSIS/core/arm_math.h:5529-5571 | the same for Q15, less than 33/32 LSB below and at most 1/32 above |
| Interpolation.RangeQ15 | firmware/CMSIS/core/arm_math.h:5554-5569 | never above the larger neighbour, at most 1 below the smaller |
| Interpolation.MonotoneSlackQ15 | firmware/CMSIS/core/arm_math.h:5529-5571 | exactly monotone from zero upwards, within 1 from negative inputs |
| Interpolation.MonotoneQ15Iff | firmware/CMSIS/core/arm_math.h:5529-5571 | a nondecreasing table is interpolated monotonically if and only if it has one entry or its first entry is not positive |
| Interpolation.InterpQ7IsQ15 | firmware/CMSIS/core/arm_math.h:5586-5628 | the Q7 routine, with its other order of tests and 32-bit sums, returns what the Q15 one does, so the results above carry over |
| Bilinear.AcceptedCoversTableIff | firmware/CMSIS/core/arm_math.h:6896-6901 | the boundary test admits every cell of the documented layout that an input selects if and only if the table has a single row or column, or neither side, up to the 2048 an input reaches, exceeds the other by more than one |
| Bilinear.ProperCellRejected | firmware/CMSIS/core/arm_math.h:6896-6901 | a failing input: in a 2 by 4 table of ones a cell of the first row yields 0 |
| Bilinear.AcceptedReadsInTableIff | firmware/CMSIS/core/arm_math.h:6896-6940 | the four reads of every admitted input stay in the table if and only if those of the last admitted row and column do; up to 2048 a side, if and only if rows + columns^2 < rows * columns |
| Bilinear.CornerReadsOutside | firmware/CMSIS/core/arm_math.h:6896-6940 | a failing input: the last cell of a 2 by 2 table is admitted and reads beyond it |
| Bilinear.BlendQ15Rounds | firmware/CMSIS/core/arm_math.h:6922-6940 | every narrowed product fits 32 bits, and the four rounded terms stay within one LSB and a bit of the weighted form, between the corners |
| Bilinear.CellInTable | firmware/CMSIS/core/arm_math.h:6896-6940 | every admitted input in a cell of the documented layout is one whose reads stay in the table |
| Bilinear.BilinearQ15Result | firmware/CMSIS/core/arm_math.h:6873-6941 | for every admitted input whose four reads stay in the table the result lies from the smallest of the four less 1 to the largest, less than 18/16 LSB below and 5/64 above the documented formula on elements i + j * columns |
| Bilinear.BilinearQ7Result | firmware/CMSIS/core/arm_math.h:6951-7015 | the same for Q7, less than 17/16 below and at most 1/16 above |
| Bilinear.OutsideIsZero | firmware/CMSIS/core/arm_math.h:6896-6901 | for X below zero or beyond the rows, or Y below zero or beyond the columns, both routines return 0 |
| CircularBuffer.CircularWrite | firmware/CMSIS/core/arm_math.h:5886-5924 | whenever its accesses stay in the buffer, for any stride, the buffer is the specification's, written sample by sample, and the offset is the last one cut to 16 bits, which for a stride of 0 to L is (start + n*inc) mod L |
| CircularBuffer.CircularRead | firmware/CMSIS/core/arm_math.h:5930-5980 | the same for reading: the destination receives the samples met from start by stride, wrapping at its own end |
| CircularBuffer.InBufferIff | firmware/CMSIS/core/arm_math.h:5913-5916 | the accesses of a block stay in the buffer if and only if the stride is 0 to L or the drift of any other stride, inc or inc - L a step, has not left 0..L-1 by the last one |
| CircularBuffer.NegativeStrideLeaves | firmware/CMSIS/core/arm_math.h:5913-5916 | a failing input: with stride -1 from cell 0 the second access is at -1 |
| CircularBuffer.OffsetIsPos | firmware/CMSIS/core/arm_math.h:5913-5916 | as long as they do, step k uses the cell (start + k*inc) mod L, 32-bit sums included |
| CircularBuffer.WriteTwice | firmware/CMSIS/core/arm_math.h:5907-5923 | writing a and then b from the 16-bit offset left is writing a + b, for any stride that keeps the accesses in the buffer, and ends at the same offset |
| CircularBuffer.DistinctIff | firmware/CMSIS/core/arm_math.h:5913-5916 | a block touches distinct cells if and only if it is no longer than the period |
| CircularBuffer.PeriodGcd | firmware/CMSIS/core/arm_math.h:5913-5916 | the period times the greatest common divisor of length and stride is the length |
| CircularBuffer.CoprimePeriod | firmware/CMSIS/core/arm_math.h:5913-5916 | with a stride prime to the length a whole buffer can be written before a cell repeats |
| CircularBuffer.CellLastWrite | firmware/CMSIS/core/arm_math.h:5905-5920 | each cell holds the last sample written to it |
| CircularBuffer.CellUntouched | firmware/CMSIS/core/arm_math.h:5905-5920 | a cell no step uses keeps its value |
| CircularBuffer.ReadsBackIff | firmware/CMSIS/core/arm_math.h:5930-5980 | reading with the offset and stride of the write returns all n samples in order, for all samples, if and only if n is at most the period |
| CircularBuffer.StoredForwards | firmware/CMSIS/core/arm_math.h:5955-5966 | a destination filled from its base by one receives the samples contiguously and is otherwise unchanged |
| CircularBuffer.StoredAround | firmware/CMSIS/core/arm_math.h:5955-5966 | from any start in it and with any stride that meets its end, a destination receives up to a period of samples in order, around the end, and is otherwise unchanged |
| CircularBuffer.StaysInDstIff | firmware/CMSIS/core/arm_math.h:5957-5963 | the destination pointer never leaves its buffer if and only if the stride is 0 or divides the length and the distance from the base |
| Mpu.Unit.OrderedCpy | firmware/CMSIS/core/mpu_armv7.h:246-253 | the words are stored once each, in order, at ascending offsets of the alias window |
| Mpu.Unit.SetRegion | firmware/CMSIS/core/mpu_armv7.h:223-227 | RBAR is written before RASR, with their effect on the region state |
| Mpu.Unit.Load | firmware/CMSIS/core/mpu_armv7.h:259-268 | for every table and count the chunked load leaves the state of one SetRegion per entry in turn and stores every table word once |
| Mpu.Chunk | firmware/CMSIS/core/mpu_armv7.h:261-267 | up to four entries through the aliases equal setting them one at a time, VALID or not |
| Mpu.CyclicAt | firmware/CMSIS/core/mpu_armv7.h:259-268 | store k carries table word k to window offset k mod 8, so the eight-word window is never left |
| Mpu.LoadedRegion | firmware/CMSIS/core/mpu_armv7.h:259-268 | afterwards each region holds the last entry that targets it, and the others are untouched |
| Mpu.RbarEntry | firmware/CMSIS/core/mpu_armv7.h:75-78 | an entry made with ARM_MPU_RBAR programs the region it names, modulo 16, with the base address cut to 32 bytes, and makes it current |
| Mpu.PlainEntry | firmware/CMSIS/core/mpu_armv7.h:223-227 | an entry without bit 4 programs the current region |
| Mpu.LoadIdempotent | firmware/CMSIS/core/mpu_armv7.h:259-268 | a table whose first entry is VALID can be loaded again without effect |
| Nvic.ReadsLastCall | firmware/CMSIS/core/core_cm4.h:1688-1783 | after any run of enable, disable, set-pending and clear-pending calls, interrupt i reads as the last call for i asked, undisturbed by the others |
| Nvic.WriteMask | firmware/CMSIS/core/core_cm4.h:1688-1694 | writing the mask of one interrupt sets or clears its bit and no other |
| Nvic.Controller.EnableIRQ | firmware/CMSIS/core/core_cm4.h:1688-1694 | one write-one-to-set; a negative number changes nothing |
| Nvic.Controller.DisableIRQ | firmware/CMSIS/core/core_cm4.h:1724-1732 | one write-one-to-clear; a negative number changes nothing |
| Nvic.Controller.SetPendingIRQ | firmware/CMSIS/core/core_cm4.h:1762-1768 | one write-one-to-set of the pending bits |
| Nvic.Controller.ClearPendingIRQ | firmware/CMSIS/core/core_cm4.h:1777-1783 | one write-one-to-clear of the pending bits |
| Nvic.Controller.GetEnableIRQ | firmware/CMSIS/core/core_cm4.h:1705-1715 | returns 1 exactly when the interrupt is external and its bit is set |
| Nvic.Controller.GetPendingIRQ | firmware/CMSIS/core/core_cm4.h:1743-1753 | the same for the pending bit |
| Nvic.WidthsSplit | firmware/CMSIS/core/core_cm4.h:1869-1870 | for every group the two field widths add up to the number of priority bits |
| Nvic.EncodeBound | firmware/CMSIS/core/core_cm4.h:1863-1876 | an encoded priority is below 2^N |
| Nvic.DecodeEncode | firmware/CMSIS/core/core_cm4.h:1890-1901 | decode after encode reduces each field modulo its width |
| Nvic.EncodeDecode | firmware/CMSIS/core/core_cm4.h:1863-1901 | encode after decode is the identity below 2^N |
| Nvic.DecodeSplitsByte | firmware/CMSIS/core/core_cm4.h:1890-1901 | the preemption priority is the part of the register byte above bit `group`, the subpriority the implemented bits below; with none below, it is the whole priority |
| Nvic.EncodeOrder | firmware/CMSIS/core/core_cm4.h:1863-1876 | encoded priorities are ordered by preemption priority, then by subpriority |
| Nvic.PriorityStored | firmware/CMSIS/core/core_cm4.h:1816-1826 | the low N bits of the priority, left-aligned, go to SHP[irq + 12] for a handler and to IP[irq] for an interrupt; every other byte stays |
| Nvic.PriorityRead | firmware/CMSIS/core/core_cm4.h:1838-1849 | the same byte is read, shifted back |
| Nvic.PriorityReadsBack | firmware/CMSIS/core/core_cm4.h:1816-1849 | a priority reads back modulo 2^N for interrupts and system handlers, and setting one changes no other |
| Nvic.PriorityEndToEnd | firmware/CMSIS/core/core_cm4.h:1816-1901 | encode, set, get and decode returns both fields modulo their widths |
| Nvic.Controller.SetIrqPriority | firmware/CMSIS/core/core_cm4.h:1816-1826 | stores the byte in IP or SHP by the sign of the number |
| Nvic.Controller.GetIrqPriority | firmware/CMSIS/core/core_cm4.h:1838-1849 | reads it back from the same place |
| Clock.SelectExact | firmware/CMSIS/device/system_n32g43x.c:160-190 | an accepted frequency is exactly the multiplier, in 2..32, times the chosen fraction of the oscillator |
| Clock.SelectIff | firmware/CMSIS/device/system_n32g43x.c:160-190 | a frequency is accepted if and only if it is 32 MHz or more and a multiplier of 2 to 32 times half, all or a quarter of the oscillator, the first of them being taken |
| Clock.MulRoundTrip | firmware/CMSIS/device/system_n32g43x.c:602-607 | the multiplier split over bits 18-21 and 27 decodes to itself for every value, without touching another bit; bit 27 stands for the upper half |
| Clock.MulByFields | firmware/CMSIS/device/system_n32g43x.c:364-371 | for every register value the multiplier is the four bits at 18 plus 2, or plus 17 with bit 27 set |
| Clock.CfgFields | firmware/CMSIS/device/system_n32g43x.c:534-623 | after the whole sequence of register writes every clock field holds what was meant for it, and CFG is exactly those fields and its old bits 14 and 15 |
| Clock.CoreClockByStatus | firmware/CMSIS/device/system_n32g43x.c:331-414 | for all registers: MSI, HSI, HSE or the PLL by the two status bits, divided by 1, 2, 4, 8, 16, 64, 128, 256 or 512 by the core field |
| Clock.DriverByStatus | firmware/n32g43x_std_periph_driver/src/n32g43x_rcc.c:1443-1500 | the driver likewise for the system, core and both bus clocks, with its own table |
| Clock.PllByFields | firmware/CMSIS/device/system_n32g43x.c:360-405 | the PLL value of both routines from the bits they test |
| Clock.UpdateRoundTripIff | firmware/CMSIS/device/system_n32g43x.c:331-414 | SystemCoreClockUpdate returns SYSCLK_FREQ if and only if no quarter was rounded and, for the internal oscillator, the plan is not the halving one without divider |
| Clock.DriverRoundTripIff | firmware/n32g43x_std_periph_driver/src/n32g43x_rcc.c:1406-1477 | the driver returns SYSCLK_FREQ for both oscillators if and only if no quarter was rounded |
| Clock.ShippedConfiguration | firmware/CMSIS/device/system_n32g43x.c:66-82 | the shipped 96 MHz from the internal oscillator reads back as 192 MHz by the one routine and 96 MHz by the other |
| Clock.LimitsKept | firmware/CMSIS/device/system_n32g43x.c:524-548 | PCLK1 <= 27 MHz and PCLK2 <= 54 MHz are kept if and only if the frequency is at most 108 MHz (and 1 Hz), each bus whole, halved or quartered exactly in the range that asks for it |
| Clock.FlashFields | firmware/CMSIS/device/system_n32g43x.c:263-271 | SystemInit sets bit 7, clears bit 4 and, if bit 8 is set, bit 9 of the flash control, and leaves every other bit but the latency |
| Clock.FlashLatency | firmware/CMSIS/device/system_n32g43x.c:515-522 | after the whole set-up the wait states are the fewest that cover the frequency at 32 MHz each if and only if it is at most 128 MHz; then the other flash bits are as SystemInit left them |
| Clock.Rcc.SystemInit | firmware/CMSIS/device/system_n32g43x.c:220-285 | the sequence of clock and flash register updates ends in the configured registers, or in the reset fields when the oscillator does not start |
| Clock.Rcc.SystemCoreClockUpdate | firmware/CMSIS/device/system_n32g43x.c:331-414 | the step-by-step update computes the specified core clock from the registers |

## Left out

- RecipQ15: states accuracy for positive input only; for other inputs the first pass overshoots the word (`FirstPassQ15Iff`) and the wrapped value means nothing.
- CircularWrite: source and circular buffer are different arrays, and the buffer has at most 2^30 elements.
- CircularRead: destination and circular buffer are different arrays; pointers are indices.
- Load: the number of implemented regions and the barriers around MPU reconfiguration are not modelled.
- SystemInit: of the registers, the clock configuration, PLLHSIPRE and the flash control; only the PLL sources; the direct MSI, HSI and HSE settings, the voltage regulator, and the polling loops (the hardware is taken to follow the switch) are not modelled.
- BilinearQ15: requires that an accepted point's four reads lie in the table, which the code does not ensure (`AcceptedReadsInTableIff`); what a read beyond it returns is not modelled.
- All floating-point routines and everything only declared in `arm_math.h`.
- Bilinear interpolation in Q31, whose final shift can overflow on full-scale negative tables, and `clip_q31_to_q7`.
- Signed overflow is modelled as two's-complement wrap, as the routines' comments describe it.
- The remaining SIMD emulations, the MPU attribute macros, MPU enable and disable, priority grouping registers, vectors, SysTick, ITM and reset.
- Inline assembly, barriers, exclusive access and peripheral drivers other than the clock read-back.
- A 16-entry limit on MPU regions follows from the four-bit REGION field only for VALID entries; the current region number is otherwise arbitrary.
