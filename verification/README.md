# Models of the x87 emulator, the expression simplifier, the flag translators and two examples

This project models five parts of the repository and proves what they compute:

- the soft-float x87 emulator in `extras/x87-emu`: rounding, conversion to and from
  memory formats, comparison and exact remainder, against exact magnitudes
  (`Rounding`, `FpuRegs`, `StoreReal*`, `LoadReal`, `IntegerData`, `PackedDecimal`,
  `Compare`, `Fprem*`, `Frndint`, `StoreStatus`, `Constants`);
- its register stack as a state machine: eight registers, a rotating top, packed tags,
  status and control word (`FpuState`, `FpuMachine`, `Stack*`, `LoadStoreCode`,
  `SaveRestore`, `WideRuns`), and what each instruction leaves in st(0) to st(7), in the
  tags, in the flags and in memory (`Effects` and `*Effects`);
- the rewriting simplifier `libasmir/src/ir/const_simplify_exp.cpp`, on values and on
  a heap of mutable nodes (`ExprTree`, `Rewriting`, `AsWritten`, `ConstSimplifyExp`);
- the condition-flag formulas of the i386, x64 and ARM translators in
  `libasmir/src/vex`, as expressions with an evaluator (`Bits`, `Flag*`, `I386Flags`,
  `X64Flags`, `ArmFlags`, `Conditions`, `Rotate`, `RotateCode`);
- `fphex` of `examples/newton-fp` (`HexFloat`, `NewtonFphex`) and the three string
  lengths of `examples/strlen-compare` (`StringLength`).

## How to read it

A magnitude is a natural number of units of 2^-16508, in which every finite x87 number
is a whole number: `Mag(r)` is significand * 2^(e + 16445), for the exponent e that the
format gives it. `CorrectlyRounded` is the rounding of section 4.3 of IEEE 754-2008 to a
format with p bits and a smallest spacing. Where the source changes state there is a
class (`Fpu`, `FpuReg`, the nodes `Exp`, the visitor `ConstantSimplifyExp`) or an array,
and its methods are proved equal to functions on snapshots; what the source promises is
then proved of those functions. Methods of the translators return the emitted moves and
take the environment in which these will run as a ghost parameter.

Status and control words are records of their bits, the tag word is a `bv16`, words and
significands are integers with the source's widths written out.

## Model

| member | source | states |
|---|---|---|
| Rounding.IsRoundingUnique | extras/x87-emu/reg_ld_str.c:975-1028 | in each of the four modes a magnitude has exactly one rounding to a multiple |
| Rounding.RoundToFormat | extras/x87-emu/reg_ld_str.c:384-566 | rounding at the spacing that belongs to a magnitude's binade is the correct rounding to the format, also when it carries into the next binade |
| FpuRegs.RoundToInt | extras/x87-emu/reg_ld_str.c:975-1028 | the in-place shift, sticky test and increment leave the rounded significand, and 2^64 - 1 for an exponent above 63, with the code for what was lost |
| FpuRegs.RoundingCodeTruthful | extras/x87-emu/reg_ld_str.c:975-1028 | for an exponent of at most 63 the result is the rounding in the given mode, and the code says exact, rounded up or rounded down if and only if it is so |
| FpuRegs.RoundedFits | extras/x87-emu/reg_ld_str.c:975-1028 | for an exponent of at most 63 the rounded integer never reaches 2^64 |
| FpuRegs.TagOfMeans | extras/x87-emu/reg_ld_str.c:58-84 | FPU_tagof says Valid exactly for normal numbers, Zero exactly for zeros, and Special for denormals, infinities, NaNs and unsupported formats |
| FpuRegs.KindMeans | extras/x87-emu/reg_ld_str.c:58-84 | from the fields of a register alone: when it is a normal number, a denormal, a zero, an infinity, or a NaN, unsupported formats included |
| FpuState.GetSetTag | extras/x87-emu/fpu_tags.c:28-59 | a tag set in the packed word is read back, and the other seven are untouched |
| FpuState.ExceptionKeepsSummary | extras/x87-emu/errors.c:314-385 | raising any modelled exception keeps the summary bits equal to "an unmasked exception is pending" |
| FpuState.RaisingKeepsSummary | extras/x87-emu/errors.c:546-586 | so do the masked fast paths of the precision and denormal exceptions |
| FpuState.PrecisionC1Iff | extras/x87-emu/errors.c:546-556 | set_precision_flag leaves in C1 whether the result was rounded up if and only if it was, or C1 was clear before, or the exception is not masked; always after a clear_C1 |
| FpuState.PrecisionLeavesC1 | extras/x87-emu/errors.c:546-556 | a status word for which it does not |
| Effects.ExceptionSets | extras/x87-emu/errors.c:314-385 | each exception sets its own flag and no other, stack faults also the stack fault bit; C1 tells overflow from underflow and up from down; C0, C2 and C3 stay |
| FpuMachine.Fpu.constructor | extras/x87-emu/fpu_aux.c:35-53 | finit_soft_fpu's initial registers, tags, top, control and status word, without the address fields |
| FpuMachine.Fpu.Exception | extras/x87-emu/errors.c:314-385 | FPU_exception on the status word, for everything but internal errors |
| FpuMachine.Fpu.Pop | extras/x87-emu/fpu_tags.c:17-21 | the top register becomes empty and top moves up by one |
| FpuMachine.Fpu.CopyToReg | extras/x87-emu/fpu_tags.c:94-115 | one register and its tag change, nothing else |
| StoreRealCode.StoreDouble | extras/x87-emu/reg_ld_str.c:384-566 | the word-by-word code writes and raises what the specification of the store says, for every tag |
| StoreRealCode.StoreSingle | extras/x87-emu/reg_ld_str.c:569-755 | the same for singles |
| StoreRealCorrect.StoreDoubleCorrect | extras/x87-emu/reg_ld_str.c:384-566 | in all four modes a store of a number that does not overflow writes its value correctly rounded to a double, normal, denormal or between; with all exceptions masked it always writes |
| StoreRealCorrect.StoreSingleCorrect | extras/x87-emu/reg_ld_str.c:569-755 | the same for singles, and an overflow always writes the infinity of the right sign |
| StoreRealCorrect.OverflowWritesInfinityIff | extras/x87-emu/reg_ld_str.c:475-489 | a masked overflow of a double store writes an infinity if and only if the low 32 bits of the rounded significand are zero; otherwise memory holds a NaN |
| StoreRealCode.OverflowWritesInfinityBits | extras/x87-emu/reg_ld_str.c:475-489 | the same condition on the bits of the register and the increment of the rounding mode alone |
| StoreRealCorrect.OverflowWritesNaN | extras/x87-emu/reg_ld_str.c:475-489 | one number for which it does: 2^1024 + 2^972 |
| StoreStatus.DoubleStatus | extras/x87-emu/reg_ld_str.c:384-566 | each exception of the store of a number as a double, from its value: overflow exactly when it is too large, underflow exactly when it is tiny and inexact, but for the 80486's exception, precision exactly when it is inexact and nothing else stops the store; C1 whether what is written lies above the value; when nothing is written; every other flag stays |
| StoreStatus.SingleStatus | extras/x87-emu/reg_ld_str.c:569-755 | the same for singles |
| StoreEffects.FstDoubleEffect | extras/x87-emu/load_store.c:165-194 | fst and fstp m64real of a number: these flags, with C1 cleared first, and the value written correctly rounded |
| StoreEffects.FstSingleEffect | extras/x87-emu/load_store.c:156-180 | the same for m32real |
| StoreEffects.SpecialDouble | extras/x87-emu/reg_ld_str.c:486-566 | zeros and infinities keep their sign; of a NaN the leading bits are kept and it is made quiet; unsupported formats and empty registers become the indefinite NaN; the invalid operation exactly for those that were not quiet, and nothing is written if that is not masked |
| StoreEffects.SpecialSingle | extras/x87-emu/reg_ld_str.c:665-755 | the same for singles |
| StoreEffects.ExtendedStored | extras/x87-emu/reg_ld_str.c:342-381 | fstp m80real writes the ten bytes of any register in use and raises nothing |
| LoadReal.LoadDouble | extras/x87-emu/reg_ld_str.c:100-158 | the load code leaves the specified register, tag and denormal exception |
| LoadReal.LoadSingle | extras/x87-emu/reg_ld_str.c:161-212 | the same for singles |
| LoadReal.LoadDoubleExact | extras/x87-emu/reg_ld_str.c:100-158 | every finite double, denormals included, is loaded with its exact sign and value |
| LoadReal.LoadSingleExact | extras/x87-emu/reg_ld_str.c:161-212 | the same for singles |
| LoadReal.DoubleRoundTrip | extras/x87-emu/reg_ld_str.c:100-158 | storing a loaded double gives back the same two words and raises nothing, for every bit pattern that is not a signalling NaN, every mode and every mask |
| LoadReal.SingleRoundTrip | extras/x87-emu/reg_ld_str.c:161-212 | the same for singles |
| IntegerData.LoadInt64 | extras/x87-emu/reg_ld_str.c:215-242 | the integer as a normalised register |
| IntegerData.LoadInt32 | extras/x87-emu/reg_ld_str.c:245-271 | the same register as for the integer widened to 64 bits |
| IntegerData.LoadInt16 | extras/x87-emu/reg_ld_str.c:274-300 | likewise |
| IntegerData.StoreInt64 | extras/x87-emu/reg_ld_str.c:758-805 | the code computes the specified 64-bit store |
| IntegerData.StoreInt32 | extras/x87-emu/reg_ld_str.c:808-851 | the same for 32 bits |
| IntegerData.StoreInt16 | extras/x87-emu/reg_ld_str.c:854-897 | the same for 16 bits |
| IntegerData.StoreIntCorrect | extras/x87-emu/reg_ld_str.c:758-897 | an integer store writes the value rounded in the current mode when that is in range, and the indefinite integer, or nothing, when it is not |
| IntegerData.IntRoundTrip | extras/x87-emu/reg_ld_str.c:215-300 | loading and storing an integer is the identity and raises nothing, also for the most negative one |
| StoreEffects.FistEffect | extras/x87-emu/load_store.c:161-284 | fist and fistp of a number: the integer it rounds to, invalid exactly when that does not fit, precision exactly when it is not the number itself, and C1 whether it lies above it |
| StoreEffects.SpecialInteger | extras/x87-emu/reg_ld_str.c:758-897 | a zero is stored as 0; empty registers, infinities and NaNs are invalid |
| PackedDecimal.LoadBcd | extras/x87-emu/reg_ld_str.c:303-337 | the Horner loop gives the register of the packed decimal's value |
| PackedDecimal.StoreBcd | extras/x87-emu/reg_ld_str.c:900-963 | the repeated division by 100 writes the digits of the rounded value |
| PackedDecimal.BcdRoundTrip | extras/x87-emu/reg_ld_str.c:303-337 | every 18-digit packed decimal, minus zero included, is stored as it was loaded |
| PackedDecimal.StoreLoadBcd | extras/x87-emu/reg_ld_str.c:900-963 | a number whose rounded integer has at most 18 digits is stored and loaded back as that integer |
| StoreEffects.FbstpEffect | extras/x87-emu/load_store.c:250-256 | fbstp of a number: valid decimal digits of the integer it rounds to, with its sign, and the same flags as fistp |
| StoreEffects.SpecialDecimal | extras/x87-emu/reg_ld_str.c:900-963 | zeros keep their sign; empty registers, infinities and NaNs give the indefinite |
| Compare.FpuToExp16 | extras/x87-emu/reg_convert.c:16-46 | the in-place normalisation of denormals and pseudodenormals, and the sign it returns, for numbers |
| Compare.ToExp16Keeps | extras/x87-emu/reg_convert.c:16-46 | it keeps the sign and the value and sets the leading bit |
| Compare.CompareCorrect | extras/x87-emu/reg_compare.c:23-166 | for all pairs of registers the result is the order of their values among the extended rationals; unordered exactly for NaNs; the signalling bit exactly when a NaN operand is not quiet; the denormal bit exactly for a denormal operand |
| Compare.CompareMirrors | extras/x87-emu/reg_compare.c:23-166 | swapping the operands mirrors the result |
| Compare.CompareTransitive | extras/x87-emu/reg_compare.c:23-166 | less-or-equal is transitive |
| StackMeaning.ConditionCodes | extras/x87-emu/reg_compare.c:206-300 | after fcom and fucom of registers in use, C0, C3 and C2 encode less, equal and unordered |
| StackCode.CompareStSt | extras/x87-emu/reg_compare.c:206-300 | compare_st_st and compare_u_st_st on the whole state, empty registers included |
| StackCode.CompareStData | extras/x87-emu/reg_compare.c:169-204 | FPU_compare_st_data on the status word, with what it returns |
| StackCode.CompareAndPop | extras/x87-emu/reg_compare.c:304-350 | fcom, fcomp, fcompp and their quiet forms, popping only if no unmasked exception stops them |
| CompareEffects.FcomEffect | extras/x87-emu/reg_compare.c:206-300 | fcom and fucom of registers in use: codes by the order of the values, C1 clear, the invalid operation exactly for a NaN that raises it, the denormal exception exactly for a denormal compared with a number, no change to the stack |
| CompareEffects.FcomFaults | extras/x87-emu/reg_compare.c:206-300 | an empty register is a stack underflow and unordered |
| CompareEffects.FcompPops | extras/x87-emu/reg_compare.c:304-350 | fcomp and fucomp pop exactly one register and fcompp and fucompp exactly two, the others keep contents and tags; when an exception that is not masked stops them nothing is popped |
| CompareEffects.FcomMemoryEffect | extras/x87-emu/fpu_entry.c:364-545 | fcom and fcomp with memory: codes and flags by the values, and when fcomp pops |
| CompareEffects.FcomMemoryFaults | extras/x87-emu/fpu_entry.c:534-545 | the same on an empty register |
| Fprem.RemKernel | extras/x87-emu/fpu_trig.c:746-774 | three partial products of 32-bit words give st0 * 2^n - st1 * q modulo 2^64 |
| Fprem.LowBitsSuffice | extras/x87-emu/fpu_trig.c:746-774 | the low 64 bits are all of it, because the remainder is below the divisor |
| Fprem.ChoppedQuotient | extras/x87-emu/fpu_trig.c:812-822 | the chopped 64-bit quotient, truncated, is the integer quotient of the aligned operands |
| FpremCode.DoFprem | extras/x87-emu/fpu_trig.c:779-1019 | do_fprem on the whole state, for all operands |
| FpremExact.FpremExactly | extras/x87-emu/fpu_trig.c:805-871 | for exponent differences below 64, fprem leaves exactly x - trunc(x / y) * y with the sign of x, its tag, and the low three quotient bits in C0, C3 and C1, and disturbs no other register; an unmasked underflow scales it by 2^24576 |
| FpremExact.Fprem1Exactly | extras/x87-emu/fpu_trig.c:835-871 | fprem1 leaves x minus the nearest multiple of y, the even one of two, at most half of y, with the same bookkeeping, unless the carry is lost |
| FpremExact.NearestExactIff | extras/x87-emu/fpu_trig.c:838-866 | fprem1's reduction is the nearest one if and only if the shift of the divisor loses no carry that matters; it never does for differences of 0 and more |
| FpremExact.LostCarryLeaves | extras/x87-emu/fpu_trig.c:838-866 | what it leaves otherwise: y - x short by 2^64 units of the dividend's last place, with the opposite sign and a quotient of 1 |
| FpremExact.Fprem1LosesCarry | extras/x87-emu/fpu_trig.c:838-866 | two operands for which the carry is lost |
| FpremExact.FpremKeeps | extras/x87-emu/fpu_trig.c:779-871 | for exponent differences below 64 both instructions keep the tag and summary invariant, exact or not |
| FpremEffects.FpremFlags | extras/x87-emu/fpu_trig.c:932-938 | fprem below 64: the denormal exception exactly for a denormal operand, the underflow exactly when it is not masked and the remainder is tiny, no other flag |
| FpremEffects.Fprem1Flags | extras/x87-emu/fpu_trig.c:932-938 | the same for fprem1 |
| FpremEffects.FpremStops | extras/x87-emu/fpu_trig.c:961-966 | a denormal operand stops the instruction when that is not masked, and changes nothing but its flag |
| FpremEffects.FpremInvalid | extras/x87-emu/fpu_trig.c:979-1008 | a zero divisor or an infinite dividend is an invalid operation: st(0) becomes the indefinite NaN if it is masked and stays if not |
| FpremEffects.FpremUnchanged | extras/x87-emu/fpu_trig.c:970-1002 | the remainder of a zero, or by an infinity, is the dividend itself, with clear codes and no flag but that of a denormal operand |
| FpremEffects.FpremFaults | extras/x87-emu/fpu_trig.c:967-969 | an empty operand is a stack underflow of st(0) |
| FpremEffects.FpremNaN | extras/x87-emu/errors.c:428-509 | with a NaN operand st(0) becomes the NaN with the larger significand, st(1) if they are equal, made quiet; invalid exactly if one was not quiet; the indefinite NaN for unsupported formats |
| Fprem.PartialIff | extras/x87-emu/fpu_trig.c:883-905 | one step at an exponent difference of 64 or more leaves the remainder by the aligned divisor if and only if the dividend's significand is the larger one or its low 65 - n bits are zero |
| FpremFar.StepLeaves | extras/x87-emu/fpu_trig.c:873-945 | what such a step leaves, right or wrong: the value with its tag and C2 alone, the dividend's sign unless the value is zero, no other register changed |
| FpremFar.StepExactIff | extras/x87-emu/fpu_trig.c:883-906 | it is exactly x mod y * 2^(d - n) if and only if the step does not fail, for the difference d and the step size n |
| FpremFar.FailingStep | extras/x87-emu/fpu_trig.c:883-906 | two operands for which it fails |
| FpremFar.StepKeepsRemainder | extras/x87-emu/fpu_trig.c:883-906 | a step that does not fail keeps the remainder by y and leaves less than y * 2^(d - n) |
| FpremFar.StepLowers | extras/x87-emu/fpu_trig.c:883-906 | and lowers the exponent difference by at least n, so that repeating it ends |
| FpremFar.RepeatedFprem | extras/x87-emu/fpu_trig.c:779-945 | a program that repeats fprem until the difference is below 64, and then once more, holds the exact remainder of the operands it began with, their sign and the low bits of the whole quotient, if no step failed or underflowed |
| FpremFar.RepeatedFprem1 | extras/x87-emu/fpu_trig.c:779-945 | the same for fprem1 and the nearest multiple |
| FpremFar.ZeroSignIff | extras/x87-emu/fpu_trig.c:913-926 | a step keeps the dividend's sign if and only if it does not reach zero or the dividend is positive |
| FpremFar.ZeroStep | extras/x87-emu/fpu_trig.c:913-926 | a negative dividend for which it does not |
| FpremFar.FarKeeps | extras/x87-emu/fpu_trig.c:873-945 | such a step keeps the tag and summary invariant, right or wrong |
| FpremEffects.StepFlags | extras/x87-emu/fpu_trig.c:932-938 | its exceptions |
| Frndint.FrndintCode | extras/x87-emu/fpu_trig.c:505-546 | frndint on the whole state, for every tag |
| Frndint.FrndintRounds | extras/x87-emu/fpu_trig.c:505-546 | st(0) becomes the integer that it rounds to in the current mode, with its sign and the right tag; no other register changes |
| Frndint.FrndintC1Iff | extras/x87-emu/fpu_trig.c:505-526 | C1 afterwards says whether it was rounded up if and only if it was, or C1 was clear before, or it was rounded down through an unmasked exception |
| Frndint.FrndintLeavesC1 | extras/x87-emu/fpu_trig.c:505-526 | 1.25 is rounded down and C1 left set |
| Frndint.FistC1 | extras/x87-emu/load_store.c:168-284 | after fist and fistp C1 says exactly whether an integer that fits was rounded up, because C1 is cleared first |
| Frndint.FbstpC1 | extras/x87-emu/load_store.c:250-256 | the same for fbstp |
| Frndint.FrndintKeeps | extras/x87-emu/fpu_trig.c:505-546 | frndint keeps true tags and summary bits |
| FrndintEffects.FrndintFlags | extras/x87-emu/fpu_trig.c:505-546 | the precision exception exactly for a number that is no integer, the denormal exception exactly for a denormal, no other flag |
| FrndintEffects.FrndintStops | extras/x87-emu/fpu_trig.c:519-522 | a denormal operand stops it when that is not masked |
| FrndintEffects.FrndintSpecials | extras/x87-emu/fpu_trig.c:535-546 | zeros, infinities and quiet NaNs stay; signalling NaNs are made quiet and unsupported formats become the indefinite NaN, as masked invalid operations |
| FrndintEffects.FrndintFaults | extras/x87-emu/fpu_trig.c:535-546 | an empty register is a stack underflow |
| StackRuns.StepKeeps | extras/x87-emu/load_store.c:66-287 | every modelled instruction keeps true tags and true summary bits |
| StackRuns.EveryRun | extras/x87-emu/fpu_tags.c:17-115 | after any program from finit every register that is not empty has the tag of its contents, and the summary bits say exactly whether an unmasked exception is pending |
| StackRuns.RunSame | extras/x87-emu/fpu_tags.c:94-115 | a physical register that no instruction of a run names keeps its contents and tag |
| StackRuns.RunContents | extras/x87-emu/reg_ld_str.c:1032-1123 | nor do the contents change of a register that is named only by fldenv |
| WideRuns.EveryWideRun | extras/x87-emu/fpu_tags.c:17-115 | the invariant also holds in every run that mixes in fprem, fprem1, frndint and comparisons with memory, whatever their operands |
| WideRuns.FcomMemoryCode | extras/x87-emu/fpu_entry.c:364-545 | fcom and fcomp with an operand in memory, on the whole state |
| WideRuns.FcompPopsIff | extras/x87-emu/fpu_entry.c:499-510 | with the invalid exception unmasked and an operand that raises it, fcomp pops if and only if no operand looks like a NaN to isNaN and no unmasked denormal stops it |
| WideRuns.FcompPopsUnnormal | extras/x87-emu/fpu_entry.c:499-510 | one such operand: an unnormal in st(0) |
| StackCode.FpuStackOverflow | extras/x87-emu/errors.c:645-658 | the masked and unmasked response |
| StackCode.FpuStackUnderflow | extras/x87-emu/errors.c:660-686 | the same for underflow of any register |
| Effects.OverflowEffect | extras/x87-emu/errors.c:645-658 | an overflow flags the invalid operation and the stack fault, sets C1, and pushes the indefinite NaN exactly if it is masked |
| Effects.UnderflowEffect | extras/x87-emu/errors.c:660-686 | an underflow clears C1 and puts that NaN in st(i) |
| StackCode.FldI | extras/x87-emu/fpu_aux.c:103-129 | fld st(i) on the whole state, faults included |
| Effects.FldCopies | extras/x87-emu/fpu_aux.c:103-129 | fld st(i) pushes the contents and tag of st(i): every st(j) becomes st(j + 1), the top moves down, both words stay |
| Effects.FldFaults | extras/x87-emu/fpu_aux.c:103-129 | it overflows exactly without room and else underflows exactly without a source, with what is left of the stack |
| StackCode.FxchI | extras/x87-emu/fpu_aux.c:131-172 | fxch on the whole state, faults included |
| StackMeaning.FxchExchanges | extras/x87-emu/fpu_aux.c:131-172 | fxch of registers in use swaps contents and tags |
| StackMeaning.FxchTwice | extras/x87-emu/fpu_aux.c:131-172 | twice is nothing but a cleared C1 |
| Effects.FxchElse | extras/x87-emu/fpu_aux.c:131-172 | it changes nothing else but C1 |
| Effects.FxchFaults | extras/x87-emu/fpu_aux.c:131-172 | with one empty register that one gets the other's contents and the other the indefinite NaN, if the underflow is masked; otherwise nothing moves |
| Effects.FxchBothEmpty | extras/x87-emu/fpu_aux.c:131-172 | with two empty registers both get the indefinite NaN |
| StackCode.FfreeI | extras/x87-emu/fpu_aux.c:174-185 | ffree and ffreep |
| Effects.FfreeEmpties | extras/x87-emu/fpu_aux.c:174-185 | st(i) becomes empty and keeps its contents; ffreep then pops one register |
| StackCode.FstI | extras/x87-emu/fpu_aux.c:187-198 | fst and fstp st(i), on the whole state |
| Effects.FstCopies | extras/x87-emu/fpu_aux.c:187-198 | st(i) gets the contents and tag of st(0) and no other register changes; fstp then pops one |
| StackCode.FclexCode | extras/x87-emu/fpu_aux.c:25-32 | fclex |
| StackCode.MoveTop | extras/x87-emu/fpu_trig.c:435-445 | fincstp and fdecstp |
| Effects.TopMoves | extras/x87-emu/fpu_trig.c:435-445 | they renumber the registers, change no contents or tags, and clear C1 |
| StackCode.Fchs | extras/x87-emu/fpu_etc.c:19-26 | fchs on the whole state |
| StackCode.Fabs | extras/x87-emu/fpu_etc.c:28-35 | fabs on the whole state |
| StackMeaning.SignsMean | extras/x87-emu/fpu_etc.c:19-35 | they negate the value and take its absolute value, for infinities and denormals too, and keep NaNs apart |
| Effects.SignEffect | extras/x87-emu/fpu_etc.c:19-35 | only the sign bit of st(0) and C1 change |
| Effects.SignFaults | extras/x87-emu/fpu_etc.c:19-35 | on an empty register they underflow |
| StackCode.Fconst | extras/x87-emu/reg_constant.c:52-117 | the seven constant loads on the whole state |
| Effects.ConstantPushed | extras/x87-emu/reg_constant.c:52-117 | the constant is pushed with its tag and C1 cleared, or there is an overflow |
| StackMeaning.ConstantsBracket | extras/x87-emu/reg_constant.c:21-106 | rounding up and down gives neighbouring significands, to nearest one of them, chopping the lower; one and zero are exact |
| StackMeaning.ReciprocalConstants | extras/x87-emu/reg_constant.c:26-34 | log2(10) and log10(2), log2(e) and ln(2) are reciprocal pairs: rounded down their products are below 1, rounded up above |
| Constants.ConstantsPinned | extras/x87-emu/reg_constant.c:21-106 | each irrational constant to its last bit: rounded down it lies below, rounded up above, two neighbouring continued-fraction convergents of its number |
| Constants.ExactConstants | extras/x87-emu/reg_constant.c:21-106 | one and zero are exact in every rounding mode, and positive |
| Constants.ConstantsBounded | extras/x87-emu/reg_constant.c:21-106 | these fractions lie between bounds from small powers of 2, 10 and e, and between Archimedes' bounds of pi |
| LoadStoreCode.FldDouble | extras/x87-emu/load_store.c:90-287 | fld m64real: push, convert, NaNs, denormal exception, stack fault |
| LoadStoreCode.FldSingle | extras/x87-emu/load_store.c:90-287 | the same for fld m32real |
| LoadStoreCode.FldExtended | extras/x87-emu/reg_ld_str.c:87-97 | fld m80real: the ten bytes as they are, with the tag of their contents |
| LoadStoreCode.Fild | extras/x87-emu/load_store.c:90-287 | fild: the integer's register on the stack, or a stack fault |
| LoadStoreCode.Fbld | extras/x87-emu/load_store.c:90-287 | fbld likewise |
| LoadEffects.ConvertedMeans | extras/x87-emu/reg_ld_str.c:87-337 | every memory operand becomes a register with its sign and exactly its value, an infinity exactly for an infinity, a NaN exactly for a NaN: integers and packed decimals in units of 1.0, singles, doubles, ten bytes |
| LoadEffects.IntegerMeans | extras/x87-emu/reg_ld_str.c:215-300 | fild of v is the number v |
| LoadEffects.DenormalDoubleIff | extras/x87-emu/reg_ld_str.c:131-149 | the denormal exception is for the doubles between zero and the smallest normal one, both excluded |
| LoadEffects.DenormalSingleIff | extras/x87-emu/reg_ld_str.c:187-203 | the same for singles |
| LoadEffects.LoadPushes | extras/x87-emu/load_store.c:119-243 | a load of anything but a signalling NaN pushes that register with its tag, clears C1 and adds no flag but that of a denormal operand |
| LoadEffects.LoadSignals | extras/x87-emu/load_store.c:119-149 | a signalling NaN is invalid; it is pushed with its quiet bit set, or nothing is pushed, as the mask says |
| LoadEffects.LoadOverflows | extras/x87-emu/load_store.c:90-117 | without room any load is a stack overflow |
| LoadStoreCode.FstDouble | extras/x87-emu/load_store.c:90-287 | fst and fstp m64real: convert, and pop only if something was written |
| LoadStoreCode.FstSingle | extras/x87-emu/load_store.c:90-287 | the same for m32real |
| LoadStoreCode.FstpExtended | extras/x87-emu/reg_ld_str.c:342-381 | fstp m80real |
| LoadStoreCode.Fist | extras/x87-emu/load_store.c:90-287 | fist and fistp of each width |
| LoadStoreCode.Fbstp | extras/x87-emu/load_store.c:90-287 | fbstp |
| StoreEffects.StorePopsIfStored | extras/x87-emu/load_store.c:156-287 | every store pops one register if and only if it is to and memory was written; otherwise no register, tag or top changes |
| LoadStoreCode.FldcwCode | extras/x87-emu/load_store.c:217-230 | fldcw with its recomputed summary bits |
| EnvEffects.FldcwLoads | extras/x87-emu/load_store.c:217-230 | the masks, precision and rounding control are those of the operand, the summary bits follow the new masks, nothing else changes |
| EnvEffects.FclexClears | extras/x87-emu/fpu_aux.c:25-32 | fclex clears the six flags, the stack fault and the summary bits, and nothing else |
| StackMeaning.DoubleThroughStack | extras/x87-emu/load_store.c:90-287 | fld and fstp of a double, unless one faults, write the same double, made quiet if it was signalling, and leave the stack as it was |
| StackMeaning.DoubleFaultsIff | extras/x87-emu/load_store.c:90-287 | the load faults exactly when st(-1) is in use or the double is a signalling NaN and that exception is not masked |
| StackMeaning.SingleThroughStack | extras/x87-emu/load_store.c:90-287 | the same round trip for singles |
| StackMeaning.SingleFaultsIff | extras/x87-emu/load_store.c:90-287 | and when the load of a single faults |
| LoadEffects.IntegerThroughStack | extras/x87-emu/load_store.c:90-287 | fild, then fistp: the same integer in every width that holds it, and the old stack |
| LoadEffects.DecimalThroughStack | extras/x87-emu/load_store.c:90-287 | fbld, then fbstp: the same ten bytes for eighteen valid digits and either sign |
| LoadEffects.ExtendedThroughStack | extras/x87-emu/load_store.c:90-287 | fld, then fstp m80real: the same ten bytes, whatever they are |
| LoadStoreCode.FldenvCode | extras/x87-emu/reg_ld_str.c:1032-1123 | fldenv: words, top, and the loop that gives every register its tag |
| LoadStoreCode.FrstorCode | extras/x87-emu/reg_ld_str.c:1125-1146 | frstor: fldenv, and the two copies rotated by top |
| LoadStoreCode.FstenvCode | extras/x87-emu/reg_ld_str.c:1148-1202 | fstenv, which masks all exceptions |
| LoadStoreCode.FsaveCode | extras/x87-emu/reg_ld_str.c:1204-1223 | fsave: environment, rotated registers, finit |
| EnvEffects.FstenvMasks | extras/x87-emu/reg_ld_str.c:1148-1202 | the image has the settings, the whole status word, top and tags; afterwards every exception is masked, the summary bits are clear, and the flags stay |
| EnvEffects.FldenvLoads | extras/x87-emu/reg_ld_str.c:1032-1123 | both words and top are the image's; each register is empty if the image says so, and otherwise has the tag of its own contents |
| EnvEffects.FrstorLoads | extras/x87-emu/reg_ld_str.c:1125-1146 | st(j) is the image's register j, empty if the image says so and otherwise with the tag of its contents |
| EnvEffects.FsaveWrites | extras/x87-emu/reg_ld_str.c:1204-1226 | fsave writes that environment and st(0) to st(7) in order |
| EnvEffects.Reset | extras/x87-emu/fpu_aux.c:35-53 | finit and fsave leave everything masked, nothing flagged and every register empty |
| SaveRestore.RotateBack | extras/x87-emu/reg_ld_str.c:1125-1223 | the split copies of fsave and frstor undo each other |
| SaveRestore.ImageInStackOrder | extras/x87-emu/reg_ld_str.c:1204-1223 | register j of the image is st(j) |
| SaveRestore.RestoreSaved | extras/x87-emu/reg_ld_str.c:1032-1223 | frstor of an fsave image, from any state in between, restores all registers, all tags, the status word, the control word up to its reserved bits, and top |
| SaveRestore.SavedRunGoesOn | extras/x87-emu/reg_ld_str.c:1032-1223 | a run interrupted by fsave, any other run, and frstor writes to memory exactly what the uninterrupted run writes and ends in a state that is alike |
| Rewriting.RootStepKeepsValue | libasmir/src/ir/const_simplify_exp.cpp:31-550 | each of R1 to R20, with the intended R6, keeps the value mod 2^w for w of 8 to 64 under every assignment |
| Rewriting.RootStepLess | libasmir/src/ir/const_simplify_exp.cpp:31-550 | each rule, on simplified operands, goes down in the lexicographic measure |
| Rewriting.SimplifyCorrect | libasmir/src/ir/const_simplify_exp.cpp:561-642 | without the memo and with the intended R6, simplification ends for every tree, in expanded normal form, keeps the value, and changes nothing the second time |
| Rewriting.AnyOrderKeepsValue | libasmir/src/ir/const_simplify_exp.cpp:561-642 | whichever nodes a driver visits or, like the memo, passes over, every sequence of rule applications at any nodes keeps the value mod 2^w |
| Rewriting.IrreducibleIsNormal | libasmir/src/ir/const_simplify_exp.cpp:584-642 | a tree on which no rule applies has left-nested sums and products with at most a leading constant, no product of a sum or difference, and subtracts no constant |
| ExprTree.ShadowedRules | libasmir/src/ir/const_simplify_exp.cpp:172-285 | R2 and R4 take every node on which R9, R10, R11, R13 or R15 could go on |
| ConstSimplifyExp.ApplyR1R3R5 | libasmir/src/ir/const_simplify_exp.cpp:31-74 | two constants become a fresh one, the operands stay as they were |
| ConstSimplifyExp.ApplyR2R4R6 | libasmir/src/ir/const_simplify_exp.cpp:76-118 | R2, R4 and the intended R6 in place: the same nodes, an unshared tree |
| ConstSimplifyExp.ApplyR7R8 | libasmir/src/ir/const_simplify_exp.cpp:120-170 | R7 and R8 in place: the same nodes, an unshared tree, the rewritten value |
| ConstSimplifyExp.ApplyR12 | libasmir/src/ir/const_simplify_exp.cpp:287-322 | R12 in place, with the node that it destroys |
| ConstSimplifyExp.ApplyR16 | libasmir/src/ir/const_simplify_exp.cpp:415-442 | R16 in place, with the factors of the second product swapped |
| ConstSimplifyExp.ApplyDistributeRight | libasmir/src/ir/const_simplify_exp.cpp:471-550 | R18, R20 and, with a constant factor, R14 in place: the clone keeps the duplicated factor disjoint |
| ConstSimplifyExp.ApplyDistributeLeft | libasmir/src/ir/const_simplify_exp.cpp:444-523 | R17 and R19 in place |
| ConstSimplifyExp.ConstantSimplifyExp.VisitBinOp | libasmir/src/ir/const_simplify_exp.cpp:584-642 | one pass over a node: both operands simplified and, if that changed nothing, the first rule that fits |
| ConstSimplifyExp.ConstantSimplifyExp.Simplify | libasmir/src/ir/const_simplify_exp.cpp:561-582 | the do-while loop ends and leaves an unshared acyclic tree that is the simplified tree, away from every freed node; with the intended R6 for every tree; with R6 as written the run reaches R6, which leaves a node shared, if and only if the tree has a constant difference, and does the same as the intended one otherwise |
| AsWritten.SimpAsWrittenIff | libasmir/src/ir/const_simplify_exp.cpp:97-105 | as written, a run without the memo reaches R6 if and only if some difference subtracts an expression of constants only from one that mentions something else; if it does not, it gives the intended result |
| AsWritten.R6AsWrittenRightIff | libasmir/src/ir/const_simplify_exp.cpp:97-105 | the value that R6 as written leaves for x - c is right if and only if x + c vanishes mod 2^w |
| AsWritten.R6AsWrittenLosesValue | libasmir/src/ir/const_simplify_exp.cpp:97-105 | for x - 1 at x = 0 it is wrong, at every width |
| AsWritten.AsWrittenCorrect | libasmir/src/ir/const_simplify_exp.cpp:561-642 | normal form and value for the code as written, on trees without a constant difference |
| AsWritten.NoDifferenceIsSafe | libasmir/src/ir/const_simplify_exp.cpp:97-105 | in particular trees without any difference never reach it |
| AsWritten.SimpConstIff | libasmir/src/ir/const_simplify_exp.cpp:31-71 | exactly the expressions of constants only fold to a constant |
| ConstSimplifyExp.ApplyR2R4R6AsWritten | libasmir/src/ir/const_simplify_exp.cpp:76-118 | R2, R4 and R6 as written: R6 leaves one node in both operands, so the tree is shared |
| ConstSimplifyExp.MakesCycle | libasmir/src/ir/const_simplify_exp.cpp:97-143 | on (x + y) - c, R6 as written and then R7 make a node its own left operand |
| Rewriting.OneBitFoldIff | libasmir/src/ir/const_simplify_exp.cpp:5-71 | folding one-bit constants keeps the value mod 2 if and only if the exact result is odd or a multiple of 2^64, because cast_value saturates |
| Rewriting.OneBitConstants | libasmir/src/ir/const_simplify_exp.cpp:5-71 | of the constants 0 and 1 only 1 + 1 goes wrong |
| Rewriting.OneBitFoldingLosesValue | libasmir/src/ir/const_simplify_exp.cpp:5-71 | a whole run on 1 + 1 at one bit gives the wrong value |
| FlagFormulas.AddMeaning | libasmir/src/vex/irtoir-i386.cpp:2164-2230 | for every width and carry in, the bit formulas of an addition are the carry, parity, auxiliary carry, zero, sign and overflow of the exact results |
| FlagFormulas.SubMeaning | libasmir/src/vex/irtoir-i386.cpp:2385-2465 | the same for a subtraction with borrow |
| FlagFormulas.EvParity8 | libasmir/src/vex/irtoir-x64.cpp:2288-2300 | parity8 is set exactly when the low byte has an even number of ones |
| I386Flags.ModEflagsAdd | libasmir/src/vex/irtoir-i386.cpp:2164-2229 | running the emitted moves leaves the six flags of the addition, for w-bit operands in 32-bit words |
| I386Flags.ModEflagsSub | libasmir/src/vex/irtoir-i386.cpp:2246-2296 | the same for sub |
| I386Flags.ModEflagsAdc | libasmir/src/vex/irtoir-i386.cpp:2298-2383 | the same for adc, whose second operand arrives xored with the carry |
| I386Flags.ModEflagsSbb | libasmir/src/vex/irtoir-i386.cpp:2385-2465 | the same for sbb |
| X64Flags.ModifyFlagsAdd | libasmir/src/vex/irtoir-x64.cpp:2539-2556 | the flags of the addition for widths up to 64, all as if assigned at once; under a condition that fails, the old flags |
| X64Flags.ModifyFlagsSub | libasmir/src/vex/irtoir-x64.cpp:2557-2572 | the same for sub |
| X64Flags.ModifyFlagsAdc | libasmir/src/vex/irtoir-x64.cpp:2573-2598 | the same for adc |
| X64Flags.ModifyFlagsSbb | libasmir/src/vex/irtoir-x64.cpp:2599-2626 | the same for sbb |
| ArmFlags.ModifyFlagsAdd | libasmir/src/vex/irtoir-arm.cpp:995-1005 | NF, ZF, CF and VF of an addition, or the old ones under a condition that fails |
| ArmFlags.ModifyFlagsSub | libasmir/src/vex/irtoir-arm.cpp:1006-1017 | the same for sub, with CF set when there is no borrow |
| ArmFlags.ModifyFlagsAdc | libasmir/src/vex/irtoir-arm.cpp:1018-1032 | the same for adc |
| ArmFlags.ModifyFlagsSbb | libasmir/src/vex/irtoir-arm.cpp:1033-1049 | the same for sbc, where a clear old carry is a borrow |
| Conditions.X86ConditionsCompare | libasmir/src/vex/irtoir-i386.cpp:948-968 | after a subtraction each of the 16 x86 condition formulas is the comparison it is named after |
| Conditions.ArmConditionsCompare | libasmir/src/vex/irtoir-arm.cpp:603-644 | the same for the 16 ARM conditions |
| Conditions.SelectCondition | libasmir/src/vex/irtoir-arm.cpp:713-745 | the eight-way selection with its flip bit evaluates to the formula of the run-time condition number, for all 16 |
| Rotate.RotLMovesBits | libasmir/src/vex/irtoir-i386.cpp:1110-1246 | the specification: rotating left by n moves bit k to bit k + n mod m |
| Rotate.RotRUndoesRotL | libasmir/src/vex/irtoir-i386.cpp:1110-1246 | rotating right undoes it |
| RotateCode.CodeRotates | libasmir/src/vex/irtoir-i386.cpp:1110-1246 | for widths 8, 16 and 32 and every count the emitted code rotates carry:operand, changes no eflags bits below 32 but CF and OF, and sets OF to the answer's top bit xor the new carry; for a count of zero it changes nothing |
| RotateCode.TranslateRotate | libasmir/src/vex/irtoir-i386.cpp:1110-1246 | the translation emits that code |
| RotateCode.RightUndoesLeft | libasmir/src/vex/irtoir-i386.cpp:1110-1246 | running the RCR code on what the RCL code left, with the same count, restores operand and carry |
| HexFloat.FphexDenotes | examples/newton-fp/newton.c:20-95 | for every finite double the text parses as a hexadecimal float with its sign and denotes exactly its value |
| HexFloat.FphexInjective | examples/newton-fp/newton.c:20-95 | distinct finite doubles, zeros of either sign included, have distinct texts |
| HexFloat.FphexLength | examples/newton-fp/newton.c:20-95 | a text has at most 24 characters |
| HexFloat.FphexCanonical | examples/newton-fp/newton.c:20-95 | the text is the shortest of its kind: leading digit 1 exactly for normal numbers, no trailing zero after the point, no point without a digit, an exponent with the fewest digits |
| NewtonFphex.FphexCode | examples/newton-fp/newton.c:20-95 | the loops over numbuf, expbuf and outbuf write that text and a NUL, inside their 32, 5 and 40 bytes, and nothing after it |
| StringLength.HitIff | examples/strlen-compare/strlen-test.c:22-36 | the word test passes if and only if some byte is zero or above 0x80 |
| StringLength.TrickyStrlen | examples/strlen-compare/strlen-test.c:5-51 | the word-at-a-time loop returns the position of the first NUL |
| StringLength.SimpleStrlen | examples/strlen-compare/strlen-test.c:53-58 | so does the byte loop |
| StringLength.ScasbStrlen | examples/strlen-compare/strlen-test.c:60-69 | so does the scan that counts down from -1, for buffers below 2^32 bytes |
| StringLength.StrlenCompare | examples/strlen-compare/strlen-test.c:75-81 | the three agree |

## Findings

Properties that the code does not have, each with an input and the exact condition:

- R6 (`const_simplify_exp.cpp:97-105`) never stores the negated constant in `b->lhs`:
  `e - c` becomes `e + e` with one node in both places. On `x - 1` the value is wrong, on
  `(x + y) - c` the next pass makes a cycle. A run reaches R6 exactly for trees with a
  *constant difference*, and gives the intended result for all others
  (`AsWritten.SimpAsWrittenIff`).
- `cast_value` saturates for `REG_1`, so 1 + 1 folds to 1 (`Rewriting.OneBitFoldIff`).
- A masked overflow in `FPU_store_double` leaves the low word of the significand in
  place, so memory often holds a NaN instead of an infinity
  (`StoreRealCorrect.OverflowWritesInfinityIff`, and on the bits of the significand
  `StoreRealCode.OverflowWritesInfinityBits`). `FPU_store_single` does not. In either,
  the rounding mode does not matter: where rounding towards zero should give the largest
  finite number, the exponent written is that of an infinity.
- `fprem1` at an exponent difference of -1 shifts the divisor left in 64 bits
  (`fpu_trig.c:848`) and can lose a carry that decides (`FpremExact.NearestExactIff`).
- A step of `fprem` or `fprem1` at an exponent difference of 64 or more passes the
  exponent of the quotient to `rem_kernel` (`fpu_trig.c:904`), one too small when st(0)
  has the smaller significand. What it leaves is then right if and only if the low 65 - n
  bits of that significand are zero (`FpremFar.StepExactIff`; it fails for
  (2^63 + 1) * 2 by 1.5, `FpremFar.FailingStep`).
- When such a step reaches zero, `setsign` is applied to a local copy
  (`fpu_trig.c:918`), so a negative dividend leaves a positive zero
  (`FpremFar.ZeroSignIff`, with -2^64 by 1 in `FpremFar.ZeroStep`).
- The masked fast path of `set_precision_flag` (`errors.c:546-556`) never clears C1, so a
  result rounded down can leave C1 saying that it was rounded up
  (`FpuState.PrecisionC1Iff`). `frndint_`, which has no `clear_C1`, shows it
  (`Frndint.FrndintC1Iff`, with 1.25 in `Frndint.FrndintLeavesC1`); the stores clear C1
  first and do not (`Frndint.FistC1`, `Frndint.FbstpC1`).
- `fcomp` with memory pops although an unmasked invalid operation was raised, when st(0)
  holds an unsupported format that `isNaN` does not recognise (`WideRuns.FcompPopsIff`,
  with an unnormal in `WideRuns.FcompPopsUnnormal`).

## Left out

- ConstSimplifyExp.ConstantSimplifyExp.Simplify: the memo of simplified nodes, keyed by
  address, is not modelled; the driver visits every node again.
- ConstSimplifyExp.MakesCycle: a run as written is modelled up to the first use of R6;
  what comes after the shared node is followed only for the cycle of R6 and R7.
- AsWritten.AsWrittenCorrect: whole runs are stated for widths 8 to 64; at `REG_1` only
  single folds are characterised.
- FpuMachine.Fpu.constructor: the instruction and operand addresses that finit clears are
  not part of the state.
- FpuMachine.Fpu.Exception: internal error codes are not modelled.
- Compare.FpuToExp16: nor is its internal error for unnormals; callers pass numbers only.
- LoadStoreCode.FldenvCode: the 32-bit layout without instruction and operand addresses.
- LoadStoreCode.FstenvCode: likewise.
- Rewriting.SimplifyCorrect: whole runs are without the memo and with the intended R6; of
  the memo only that it cannot change the value (`AnyOrderKeepsValue`).
- ConstSimplifyExp.ApplyR2R4R6: the intended R6; ApplyR2R4R6AsWritten is the written one.
- AsWritten.SimpAsWrittenIff: a run is followed to its first use of R6; the value of what
  it leaves after that may be right by accident, as for `0 * (x - 1)`.
- RotateCode.CodeRotates: the conditional jump is a choice between two blocks; the
  x64 version, whose size switch falls through, is not modelled.
- Constants.ConstantsPinned: that the fractions belong to those five numbers is not proved
  beyond the bounds of ConstantsBounded and ReciprocalConstants, which take the digits of
  pi and e as known.
- StackRuns.EveryRun: internal errors, instruction and operand pointers, `ftst`, `fxam`,
  `fscale` (which leaves a stale tag) and arithmetic other than fprem and frndint are not
  among the instructions, also of EveryWideRun; memory operands arrive as values.
- The assembly routines `FPU_u_div`, `FPU_shrxs`, `FPU_normalize_nuo`, `FPU_div_small`
  and `FPU_round` are not part of this model; what the callers need of them is written
  as small executable methods.
- The transcendental instructions, `math_emulate` and its dispatch, segmentation, the
  16-bit environment layout, and everything for the kernel only.
- Translator parts without flags or conditions: thunk matching, the variants of
  `emit_ite` (here an if-then-else expression), flags of inc, dec, shifts, rotates and
  multiplications, and the casts of a condition to a machine word.
- `fphex` of infinities and NaNs, `newton_sqrt`, and reading past the NUL up to the
  word boundary, which the string model takes as part of the buffer.
- `const_simplify_exp.h` is not part of this model.
