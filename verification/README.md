# Exact number conversion and a log-structured store

This project models two libraries that the application ships under `ios/Pods` and proves what
they promise.

**double-conversion** prints binary floating-point numbers and reads them back. `Bignum` is an
array of 28-bit digits with a hidden exponent, updated in place; its methods are proved against
plain natural numbers. On it stand the exact printers (shortest, fixed and counted digits) and
the comparison that decides how a decimal is rounded. Beside the exact algorithms there are two
fast ones, Grisu3 and the fixed-point printer with 64 and 128 bits. They are proved to agree with
the exact answer whenever they give one, and for Grisu3 it is also proved exactly when it gives
one. Every C++ variable with a fixed width has a subset type of that width, so each assignment
is also the proof that nothing wraps; where the source relies on wrap-around it is written out.

**MMKV** is a key-value store whose file is a log of records; a dictionary in memory only holds
places in that log. The class `MMKV` has the fields of the source and its methods keep the
invariant that the dictionary is what replaying the log would give. Rewriting moves the live
records to the front of the file in place. `SharedLog` is the protocol by which several processes
follow one log, as a state machine in which every operation under the lock of the file is one
step, and `SharedSteps` shows that what the methods do to the log are such steps. `DataChoice`
decides what is loaded from a damaged file, `Recovery` what that means for the shared log, and
`Truncated` what is left of a log that was cut off. `DecryptWindow` reads an encrypted log through
a window of decrypted bytes; the cipher is an abstract stream (cipher feedback, section 6.3 of
NIST SP 800-38A).

## Main results

- Shortest printing: `BignumDtoa.BignumDtoa` with `NearestDouble.ReadsBackIsNearest` and
  `NearestDouble.RoundTrip`; reading: `Strtods.Strtod`.
- Division and powers in place: `Bignums.Bignum.DivideModuloIntBignum`,
  `Bignums.Bignum.AssignPowerUInt16`.
- Fast forms: `Grisu.DigitGen`, `Grisu.DigitGenCounted`, `FixedDtoa.SameAsExact`.
- Index equals log: `LogRecords.ReplayIsIndex`, kept by every method of `Mmkv.MMKV`.
- Several processes: `SharedLog.EveryRunStaysInStep` and `SharedLog.NothingIsLost`, about the
  methods by `SharedSteps.GrewIsRun` and `SharedSteps.KeptIsRun`; damage:
  `Recovery.ConfirmedPrefixSurvives`, `Recovery.LoadDamaged` and `Truncated.LoadCutOff`.
- Encrypted reading refines plain reading: `MiniPBCoderCrypt.CryptReplayAgrees`.

## Layout

| files | what |
|---|---|
| Powers, Limbs, LimbSteps, Comba, PowerPhase, SmallPowers | machine integers, digits in base 2^28, column sums |
| Bignum | the class and its arithmetic |
| Decimals, Rounding, BinaryDecimal | characters as numbers, rounding half up, binary against decimal |
| ShortestSpec, ShortestDigits, CountedDigits, ScaledStart, BignumDtoa | the exact printers |
| RoundWeeding, Grisu | Grisu3 |
| WideInteger, FillDigits, FixedDtoa | the fixed-point printer |
| Ieee, NearestDouble, CutDigits, Strtod | rounding of decimal text |
| Varints, CodedOutput, CodedInput, KeyValueHolders, LogRecords, MiniPBCoder | the log and its replay |
| Compaction, Checksums, MetaInfo, DataChoice, Mmkv, TrimRun | the store |
| SharedLog, SharedSteps, Recovery, Truncated | several processes, damaged files |
| DecryptWindow, MiniPBCoderCrypt | encrypted logs |

## Where code and comments disagree

The model follows the code.

- `bignum.cc:515` asserts that both numbers have the same length before the final estimate.
  `Bignums.Bignum.ReduceLength` says exactly when that fails; 2^56 divided by 2^56-1 is such a
  case (`Bignums.LengthsMayDiffer`). Quotient and remainder are right all the same.
- `fast-dtoa.cc:226-232` promises the largest power of ten for all numbers with at most so many
  bits. `SmallPowers.BiggestPowerTen` says exactly when that holds; for 1 as a number of 32 bits
  the result is 10^8. The numbers that the digit generators pass are never that short.
- `fast-dtoa.cc:160-165`: the comment derives the last test from a safe interval two units inside
  the unsafe one. The test leaves four units at the lower end, so digits that are safe are also
  rejected (`Grisu.SafeButRejected`); this costs a fallback to the exact printer, not correctness.
- `fast-dtoa.cc:419-420` says that fewer digits than requested may be returned. The code returns
  exactly the requested number or fails.
- `MMKV_IO.cpp:359-360` says that trimming increases the sequence number. If the flag of a full
  rewrite is set and the log is not empty, `trim` makes the file smaller and leaves the number as
  it is (`Mmkv.MMKV.Trim`, exactly; `TrimRun.ShrinkUnnoticed` is such a run). The flag is also set
  when removing a key had to make room, although a record follows (`Mmkv.MMKV.RemoveDataForKey`).
- `fixed-dtoa.cc:262`: `point` can be 0 when nothing of the fraction is left. The rounding test is
  modelled as "something is left and its top bit is set".

## Model

| member | source | states |
|---|---|---|
| Bignums.Bignum.constructor | ios/Pods/DoubleConversion/double-conversion/bignum.cc:33-38 | a new number is zero in normal form |
| Bignums.Bignum.Zero | ios/Pods/DoubleConversion/double-conversion/bignum.cc:689-695 | the value becomes 0, all digits cleared, exponent 0 |
| Bignums.Bignum.Clamp | ios/Pods/DoubleConversion/double-conversion/bignum.cc:673-681 | dropping leading zero digits keeps the value and restores the normal form |
| Bignums.Bignum.AssignUInt16 | ios/Pods/DoubleConversion/double-conversion/bignum.cc:48-56 | the value becomes the argument |
| Bignums.Bignum.AssignUInt64 | ios/Pods/DoubleConversion/double-conversion/bignum.cc:59-73 | the value becomes the argument, cut into three digits |
| Bignums.Bignum.AssignBignum | ios/Pods/DoubleConversion/double-conversion/bignum.cc:76-86 | the value becomes that of the other number, which is unchanged |
| Bignums.ReadUInt64 | ios/Pods/DoubleConversion/double-conversion/bignum.cc:89-99 | the decimal number of up to 19 characters, without leaving 64 bits |
| Bignums.Bignum.AssignDecimalString | ios/Pods/DoubleConversion/double-conversion/bignum.cc:102-120 | the value becomes the decimal number of the whole string, whatever its length |
| Bignums.Bignum.AddUInt64 | ios/Pods/DoubleConversion/double-conversion/bignum.cc:161-166 | adds the argument to the value |
| Bignums.Bignum.Align | ios/Pods/DoubleConversion/double-conversion/bignum.cc:698-719 | value unchanged; afterwards the hidden exponent is not above that of the other number |
| Bignums.Bignum.AddDigits | ios/Pods/DoubleConversion/double-conversion/bignum.cc:191-206 | adding digits at an offset with carries past the top adds the shifted number |
| Bignums.Bignum.AddBignum | ios/Pods/DoubleConversion/double-conversion/bignum.cc:169-208 | the value becomes the sum, for all exponents, in normal form |
| Bignums.Bignum.SubtractLow | ios/Pods/DoubleConversion/double-conversion/bignum.cc:219-227 | first loop of subtraction: wrapped 32-bit differences and their top bit are a borrow chain |
| Bignums.Bignum.SubtractBignum | ios/Pods/DoubleConversion/double-conversion/bignum.cc:211-235 | the value becomes the difference, when the other number is not larger |
| Bignums.Bignum.ShiftLeft | ios/Pods/DoubleConversion/double-conversion/bignum.cc:238-244 | the value is multiplied by 2^shift |
| Bignums.Bignum.BigitsShiftLeft | ios/Pods/DoubleConversion/double-conversion/bignum.cc:722-735 | shifts by less than a digit, appending the carry as a digit |
| Bignums.Bignum.MultiplyByUInt32 | ios/Pods/DoubleConversion/double-conversion/bignum.cc:247-270 | the value is multiplied by the factor |
| Bignums.Bignum.MultiplyByUInt64 | ios/Pods/DoubleConversion/double-conversion/bignum.cc:273-297 | the value is multiplied by the factor; the carry stays below the factor, so no 64-bit step wraps |
| Bignums.Bignum.Times10 | ios/Pods/DoubleConversion/double-conversion/bignum.h:63 | the value is multiplied by 10 |
| Bignums.Bignum.MultiplyByPowerOfTen | ios/Pods/DoubleConversion/double-conversion/bignum.cc:300-337 | the value is multiplied by 10^exponent: fives by tables, twos by shifting |
| Bignums.Bignum.SquareColumns | ios/Pods/DoubleConversion/double-conversion/bignum.cc:362-401 | the column sums computed in place are those of the digits before squaring; no overwritten digit is read and the accumulator does not overflow |
| Bignums.Bignum.Square | ios/Pods/DoubleConversion/double-conversion/bignum.cc:340-409 | the value is squared |
| Bignums.Bignum.AssignPowerUInt16 | ios/Pods/DoubleConversion/double-conversion/bignum.cc:412-482 | the value becomes base^exponent |
| PowerPhase.PowerIn64Bits | ios/Pods/DoubleConversion/double-conversion/bignum.cc:439-466 | the 64-bit phase keeps the power of the bits read so far, with at most one multiplication delayed |
| Bignums.Bignum.SquareAndMultiply | ios/Pods/DoubleConversion/double-conversion/bignum.cc:472-482 | the remaining bits are read by squaring; every intermediate power fits |
| Bignums.Bignum.DivideModuloIntBignum | ios/Pods/DoubleConversion/double-conversion/bignum.cc:486-549 | for a quotient below 2^16: returns the floor of the quotient and leaves the remainder |
| Bignums.Bignum.ReduceLength | ios/Pods/DoubleConversion/double-conversion/bignum.cc:503-515 | removing multiples of the top digit keeps quotient times divisor plus number; the number is then never longer than the divisor, and shorter exactly under a condition on the two values before the call |
| Bignums.HowItEnds | ios/Pods/DoubleConversion/double-conversion/bignum.cc:503-515 | the condition: fewer digits than the divisor are left exactly if there was something to remove and the remainder is that short and within a divisor of one digit more |
| Bignums.LengthsMayDiffer | ios/Pods/DoubleConversion/double-conversion/bignum.cc:515 | 2^56 and 2^56-1 meet that condition, contrary to the assertion in the source |
| Bignums.Bignum.DivideSameLength | ios/Pods/DoubleConversion/double-conversion/bignum.cc:517-549 | estimate from the top digits, one multiple subtraction, then single subtractions: quotient and remainder |
| Bignums.Bignum.SubtractTimes | ios/Pods/DoubleConversion/double-conversion/bignum.cc:738-763 | subtracts factor times the other number; the early return that leaves the top digit unclamped still has the right value |
| Bignums.Bignum.Compare | ios/Pods/DoubleConversion/double-conversion/bignum.cc:618-633 | the sign of the difference of the values |
| Bignums.Bignum.PlusCompare | ios/Pods/DoubleConversion/double-conversion/bignum.cc:636-670 | the sign of a + b - c for all exponents, with the swap, the length shortcuts and the borrow cut-off |
| ShortestDigits.GenerateShortestDigits | ios/Pods/DoubleConversion/double-conversion/bignum-dtoa.cc:185-274 | the digits lie in the rounding interval, none with fewer digits does, and no decimal of that length inside is closer |
| ShortestDigits.RoundsUp | ios/Pods/DoubleConversion/double-conversion/bignum-dtoa.cc:231-272 | how the last digit is rounded once generation stops |
| ShortestSpec.Target.StopBelow | ios/Pods/DoubleConversion/double-conversion/bignum-dtoa.cc:231-262 | when stopping with room below is right |
| ShortestSpec.Target.StopAbove | ios/Pods/DoubleConversion/double-conversion/bignum-dtoa.cc:231-272 | when rounding the last digit up is right |
| ShortestSpec.Target.NoShorterDecimal | ios/Pods/DoubleConversion/double-conversion/bignum-dtoa.cc:173-184 | no decimal with fewer digits reads back, wherever its point is |
| CountedDigits.GenerateCountedDigits | ios/Pods/DoubleConversion/double-conversion/bignum-dtoa.cc:283-318 | exactly count digits of num/den rounded half up; a carry past the first digit moves the point |
| CountedDigits.BignumToFixed | ios/Pods/DoubleConversion/double-conversion/bignum-dtoa.cc:326-367 | the digits denote the number rounded half up at the requested decimal |
| ScaledStart.StartPositiveExponent | ios/Pods/DoubleConversion/double-conversion/bignum-dtoa.cc:417-444 | numerator over denominator is v/10^power, distances are half the gaps |
| ScaledStart.StartNegativeExponentPositivePower | ios/Pods/DoubleConversion/double-conversion/bignum-dtoa.cc:450-478 | the same for negative exponents and powers that are not negative |
| ScaledStart.StartNegativeExponentNegativePower | ios/Pods/DoubleConversion/double-conversion/bignum-dtoa.cc:484-524 | the same when the power of ten goes into the numerator |
| ScaledStart.InitialScaledStartValues | ios/Pods/DoubleConversion/double-conversion/bignum-dtoa.cc:568-598 | the three cases with the closer lower boundary: exact ratio and exact half gaps |
| ScaledStart.FixupMultiply10 | ios/Pods/DoubleConversion/double-conversion/bignum-dtoa.cc:612-639 | multiplies by ten exactly when the number, or the end of its interval, is below 1, keeping the ratio to the decimal point |
| BignumDtoa.ReadyForShortest | ios/Pods/DoubleConversion/double-conversion/bignum-dtoa.cc:612-639 | after the fixup the precondition of shortest digit generation holds |
| BignumDtoa.OddIsNoPowerOfTen | ios/Pods/DoubleConversion/double-conversion/bignum-dtoa.cc:612-624 | without distances the test that depends on parity does no harm: an odd significand never makes a power of ten |
| BignumDtoa.ShortestIsShortest | ios/Pods/DoubleConversion/double-conversion/bignum-dtoa.cc:148-156 | in terms of the printed number: reads back, none shorter, none closer |
| BignumDtoa.ScaledRoundIs | ios/Pods/DoubleConversion/double-conversion/bignum-dtoa.cc:326-367 | rounding the ratio is rounding the number in units of a power of ten |
| BignumDtoa.DtoaShortest | ios/Pods/DoubleConversion/double-conversion/bignum-dtoa.cc:89-156 | shortest conversion of any significand and exponent |
| BignumDtoa.DtoaFixed | ios/Pods/DoubleConversion/double-conversion/bignum-dtoa.cc:113-161 | fixed conversion: the number rounded half up to the requested decimals, also when the estimate alone shows that nothing is visible |
| BignumDtoa.DtoaPrecision | ios/Pods/DoubleConversion/double-conversion/bignum-dtoa.cc:148-168 | exactly the requested number of significant digits of the rounded number |
| BignumDtoa.BignumDtoa | ios/Pods/DoubleConversion/double-conversion/bignum-dtoa.cc:89-169 | each mode delivers what it promises, terminated by a zero character |
| SmallPowers.BiggestPowerTen | ios/Pods/DoubleConversion/double-conversion/fast-dtoa.cc:240-256 | for all numbers and bit counts that the source admits: the result is the largest power of ten not above the number exactly if the number is at least a bound that depends on the bit count |
| SmallPowers.FewLeadingZeros | ios/Pods/DoubleConversion/double-conversion/fast-dtoa.cc:240-256 | numbers with at most one leading zero bit, as both digit generators pass them, meet the bound |
| RoundWeeding.RoundWeed | ios/Pods/DoubleConversion/double-conversion/fast-dtoa.cc:61-166 | no term of the tests or assignments leaves 64 bits; succeeds exactly when some candidate is certainly inside and certainly closest, and then the buffer holds it |
| RoundWeeding.ClosestDecides | ios/Pods/DoubleConversion/double-conversion/fast-dtoa.cc:151-158 | a candidate is closest to all points near w only if both neighbours are on the right side |
| RoundWeeding.StopsThere | ios/Pods/DoubleConversion/double-conversion/fast-dtoa.cc:142-147 | decrementing ends exactly at the candidate that can be decided |
| RoundWeeding.RoundWeedCounted | ios/Pods/DoubleConversion/double-conversion/fast-dtoa.cc:181-223 | succeeds exactly when the whole range rounds one way (steps of more than two units), and rounds so, with the carry of nines |
| RoundWeeding.RoundsWellIff | ios/Pods/DoubleConversion/double-conversion/fast-dtoa.cc:198-204 | the two tests are exact |
| Grisu.Weed | ios/Pods/DoubleConversion/double-conversion/fast-dtoa.cc:367-370 | digits and place of the first digit position that leaves less than the interval; success exactly if a multiple there can be decided |
| Grisu.FractionalDigits | ios/Pods/DoubleConversion/double-conversion/fast-dtoa.cc:376-396 | the same for the digits behind the point, with interval and unit scaled |
| Grisu.DigitGen | ios/Pods/DoubleConversion/double-conversion/fast-dtoa.cc:300-396 | shortest, safe and nearest digits if it succeeds; the place is always that of the shortest ones; it succeeds exactly if a multiple there is nearest and inside with the margins of RoundWeed |
| Grisu.ShortestForRealBounds | ios/Pods/DoubleConversion/double-conversion/fast-dtoa.cc:259-396 | for all real bounds and numbers less than one unit away: strictly between, none shorter, none closer |
| Grisu.SafeButRejected | ios/Pods/DoubleConversion/double-conversion/fast-dtoa.cc:160-165 | an input whose digits are safe, shortest and nearest but which is rejected, because the lower margin is larger than the comment above it says |
| Grisu.RoundCounted | ios/Pods/DoubleConversion/double-conversion/fast-dtoa.cc:473-480 | the final rounding of counted generation, in either loop |
| Grisu.DigitGenCounted | ios/Pods/DoubleConversion/double-conversion/fast-dtoa.cc:428-505 | exactly the requested digits, within half a step of every number near w; it succeeds exactly if all digits could be generated and the rounding is decidable |
| WideInteger.UInt128.Multiply | ios/Pods/DoubleConversion/double-conversion/fixed-dtoa.cc:42-57 | the product of the 128-bit value with a 32-bit factor, if it fits |
| WideInteger.UInt128.Shift | ios/Pods/DoubleConversion/double-conversion/fixed-dtoa.cc:59-78 | division or multiplication by a power of two |
| WideInteger.UInt128.DivModPowerOf2 | ios/Pods/DoubleConversion/double-conversion/fixed-dtoa.cc:82-95 | returns the quotient by 2^power and leaves the remainder |
| WideInteger.UInt128.BitAt | ios/Pods/DoubleConversion/double-conversion/fixed-dtoa.cc:101-107 | the bit of weight 2^position |
| FillDigits.FillDigits32FixedLength | ios/Pods/DoubleConversion/double-conversion/fixed-dtoa.cc:120-127 | appends exactly the requested digits of the number |
| FillDigits.FillDigits32 | ios/Pods/DoubleConversion/double-conversion/fixed-dtoa.cc:130-150 | appends the digits of the number without leading zeros |
| FillDigits.FillDigits64FixedLength | ios/Pods/DoubleConversion/double-conversion/fixed-dtoa.cc:153-165 | appends 17 digits |
| FillDigits.FillDigits64 | ios/Pods/DoubleConversion/double-conversion/fixed-dtoa.cc:168-186 | appends the digits of a 64-bit number |
| FillDigits.RoundUp | ios/Pods/DoubleConversion/double-conversion/fixed-dtoa.cc:189-216 | adds one in the last place, with the carry; an empty buffer becomes a one |
| FillDigits.TrimZeros | ios/Pods/DoubleConversion/double-conversion/fixed-dtoa.cc:291-306 | removes zeros at both ends without changing the number |
| FixedDtoa.FillFractionals | ios/Pods/DoubleConversion/double-conversion/fixed-dtoa.cc:230-288 | appends the decimals of the fraction rounded half up, in 64 or 128 bits without overflow |
| FixedDtoa.FillLargeInteger | ios/Pods/DoubleConversion/double-conversion/fixed-dtoa.cc:328-359 | integers above 64 bits, split by 10^17 |
| FixedDtoa.FastFixedDtoa | ios/Pods/DoubleConversion/double-conversion/fixed-dtoa.cc:309-401 | succeeds exactly within its ranges; digits and point then denote the number rounded half up at the requested decimal |
| FixedDtoa.SameAsExact | ios/Pods/DoubleConversion/double-conversion/fixed-dtoa.cc:309-401 | the fast printer and the exact printer in fixed mode denote the same decimal |
| Ieee.NextInUnits | ios/Pods/DoubleConversion/double-conversion/ieee.h:88-98 | the next bit pattern is the next larger number and the upper boundary is halfway |
| Ieee.CloserBelow | ios/Pods/DoubleConversion/double-conversion/ieee.h:187-198 | the number below a power of two has the smaller exponent, so the lower boundary is closer |
| NearestDouble.NearestIsBetween | ios/Pods/DoubleConversion/double-conversion/ieee.h:162-198 | rounding to nearest, ties to even (section 4.3.1 of IEEE 754-2008), is lying between the two boundaries |
| NearestDouble.NearestExists | ios/Pods/DoubleConversion/double-conversion/strtod.cc:448-472 | every decimal has a nearest double |
| NearestDouble.NearestIsUnique | ios/Pods/DoubleConversion/double-conversion/strtod.cc:448-472 | and no other double is nearest to it |
| NearestDouble.ReadsBackIsNearest | ios/Pods/DoubleConversion/double-conversion/bignum-dtoa.cc:173-184 | the interval of shortest printing is the set of decimals that round to the double |
| NearestDouble.RoundTrip | ios/Pods/DoubleConversion/double-conversion/strtod.cc:448-472 | reading the shortest decimal of a double gives the same double |
| Strtods.TrimLeadingZeros | ios/Pods/DoubleConversion/double-conversion/strtod.cc:91-98 | the number is unchanged, the first digit is not zero |
| Strtods.TrimTrailingZeros | ios/Pods/DoubleConversion/double-conversion/strtod.cc:101-108 | the number divided by the power of ten of the zeros removed |
| Strtods.CutToMaxSignificantDigits | ios/Pods/DoubleConversion/double-conversion/strtod.cc:111-127 | keeps 779 digits and makes the last a one |
| Strtods.TrimAndCut | ios/Pods/DoubleConversion/double-conversion/strtod.cc:133-150 | the decimal rounds like the given one |
| CutDigits.OnGridOrBelow | ios/Pods/DoubleConversion/double-conversion/strtod.cc:111-127 | every boundary is a multiple of the unit of the 779th digit, or below all numbers with 779 digits |
| CutDigits.CutRoundsAlike | ios/Pods/DoubleConversion/double-conversion/strtod.cc:111-127 | cutting to 780 digits keeps the order to every boundary |
| CutDigits.LargeRounds | ios/Pods/DoubleConversion/double-conversion/strtod.cc:429-431 | 10^309 and more rounds to infinity |
| CutDigits.SmallRounds | ios/Pods/DoubleConversion/double-conversion/strtod.cc:432-435 | less than 10^-324 rounds to zero |
| Strtods.CompareBufferWithDiyFp | ios/Pods/DoubleConversion/double-conversion/strtod.cc:392-418 | the sign of digits * 10^exponent - f * 2^e |
| Strtods.GoodConversionExists | ios/Pods/DoubleConversion/double-conversion/strtod.cc:423-446 | what is assumed of the fast conversions can be met |
| Strtods.ComputeGuess | ios/Pods/DoubleConversion/double-conversion/strtod.cc:423-446 | the guess is the right double, or that or the next one, given that the fast conversions are for the exponents they are tried with |
| Strtods.Decide | ios/Pods/DoubleConversion/double-conversion/strtod.cc:461-471 | comparing with the upper boundary decides between the guess and the next double |
| Strtods.Strtod | ios/Pods/DoubleConversion/double-conversion/strtod.cc:448-472 | the nearest double, ties to even, of digit strings of any length |
| Varints.VarintBytesSize | ios/Pods/MMKVCore/Core/PBUtility.cpp:25-36 | the predicted size is the number of bytes written |
| Varints.VarintRoundTrip | ios/Pods/MMKVCore/Core/CodedInputData.cpp:179-211 | reading a size that was written gives it back, and the position behind it |
| CodedOutput.CodedOutputData.WriteRawVarint32 | ios/Pods/MMKVCore/Core/CodedOutputData.cpp:140-150 | writes the bytes of the value, or fails exactly if they do not fit |
| CodedOutput.CodedOutputData.WriteRawData | ios/Pods/MMKVCore/Core/CodedOutputData.cpp:129-138 | stores the data and moves on, or changes nothing |
| CodedOutput.CodedOutputData.WriteData | ios/Pods/MMKVCore/Core/CodedOutputData.cpp:76-79 | stores length and data |
| CodedOutput.CodedOutputData.Seek | ios/Pods/MMKVCore/Core/CodedOutputData.cpp:100-106 | moves the position forward and fails exactly beyond the end |
| CodedOutput.CodedOutputData.SetPosition | ios/Pods/MMKVCore/Core/CodedOutputData.cpp:116-118 | sets the position unchecked; beyond the end no space is left |
| CodedInput.CodedInputData.ReadRawVarint32 | ios/Pods/MMKVCore/Core/CodedInputData.cpp:179-211 | the low 32 bits of up to ten bytes, as a signed number, or a failure |
| CodedInput.CodedInputData.ReadString | ios/Pods/MMKVCore/Core/CodedInputData.cpp:118-137 | the key, its offset and size; fails exactly for a negative size or too few bytes |
| CodedInput.CodedInputData.ReadData | ios/Pods/MMKVCore/Core/CodedInputData.cpp:162-177 | skips the value and notes its place |
| CodedInput.CodedInputData.Seek | ios/Pods/MMKVCore/Core/CodedInputData.cpp:41-46 | moves forward, or fails beyond the end |
| KeyValueHolders.HolderFits | ios/Pods/MMKVCore/Core/KeyValueHolder.cpp:30-34 | a holder has the right place of its value exactly if the head of the record is below 2^16 bytes |
| LogRecords.PointsToRecord | ios/Pods/MMKVCore/Core/KeyValueHolder.cpp:36-40 | a right holder gives the value of its record |
| LogRecords.ReadsRecord | ios/Pods/MMKVCore/Core/CodedInputData.cpp:118-177 | reading a record that was written gives its key and place |
| LogRecords.ReplayIsIndex | ios/Pods/MMKVCore/Core/MiniPBCoder_OSX.cpp:79-107 | reading the bytes of any records gives exactly their index |
| LogRecords.IndexIndexes | ios/Pods/MMKVCore/Core/MMKV_IO.cpp:839-904 | the index has exactly the keys with a value, with the right places, which do not overlap |
| LogRecords.AppendIndexes | ios/Pods/MMKVCore/Core/MMKV_IO.cpp:893-904 | one more record keeps a dictionary right |
| MiniPBCoder.DecodeBlock | ios/Pods/MMKVCore/Core/MiniPBCoder_OSX.cpp:80-107 | the loop computes the replay of the log up to the first error |
| MiniPBCoder.DecodeOneMap | ios/Pods/MMKVCore/Core/MiniPBCoder_OSX.cpp:79-132 | a greedy reader keeps what it read before an error, the other keeps all or nothing |
| Compaction.PrepareEncode | ios/Pods/MMKVCore/Core/MMKV_IO.cpp:375-383 | predicts the size of the rewritten log |
| Compaction.SortByOffset | ios/Pods/MMKVCore/Core/MMKV_IO.cpp:1110-1116 | all keys once, in the order of their offsets |
| Compaction.MergeSections | ios/Pods/MMKVCore/Core/MMKV_IO.cpp:1118-1130 | merged sections hold the same bytes in the same order |
| Compaction.MoveOne | ios/Pods/MMKVCore/Core/MMKV_IO.cpp:1131-1137 | a section moves down only onto bytes no longer needed |
| Compaction.MoveSections | ios/Pods/MMKVCore/Core/MMKV_IO.cpp:1131-1137 | all live bytes arrive at the front, in order, although ranges overlap |
| Compaction.UpdateOffsets | ios/Pods/MMKVCore/Core/MMKV_IO.cpp:1138-1145 | the holders get, in the order of their records, the offsets behind one another |
| Compaction.RelocatedIsIndex | ios/Pods/MMKVCore/Core/MMKV_IO.cpp:1138-1145 | these offsets are the places of the live records |
| Compaction.LiveContents | ios/Pods/MMKVCore/Core/MMKV_IO.cpp:1103-1157 | the live records mean the same as the whole log |
| Compaction.LiveIndex | ios/Pods/MMKVCore/Core/MMKV_IO.cpp:1103-1157 | their index is the dictionary with the new offsets |
| Compaction.MemmoveDictionary | ios/Pods/MMKVCore/Core/MMKV_IO.cpp:1103-1157 | the front of the file becomes the size holder and the live records; dictionary, size and contents agree with it |
| Checksums.CrcContinues | ios/Pods/MMKVCore/Core/MMKV.cpp:443-450 | going on with more data is the checksum of all of it |
| MetaInfos.LittleEndianRoundTrip | ios/Pods/MMKVCore/Core/MMKV_IO.cpp:503-508 | the size field gives back the size |
| Mmkv.MMKV.constructor | ios/Pods/MMKVCore/Core/MMKV.cpp:76-122 | a new store is valid and empty |
| Mmkv.MMKV.Truncate | ios/Pods/MMKVCore/Core/MemoryFile.cpp:160-215 | the content up to the shorter size is kept; the new size is a whole number of pages; success exactly if that is possible |
| Mmkv.MMKV.WriteActualSize | ios/Pods/MMKVCore/Core/MMKV_IO.cpp:510-558 | size and checksum in file and shared information; a larger sequence number also confirms them |
| Mmkv.MMKV.DoFullWriteBack | ios/Pods/MMKVCore/Core/MMKV_IO.cpp:1307-1328 | the log becomes the live records; contents unchanged, sequence number one more |
| Mmkv.MMKV.Enlarge | ios/Pods/MMKVCore/Core/MMKV_IO.cpp:452-479 | doubles until there is space; fails exactly if the file is too small and cannot grow |
| Mmkv.MMKV.ExpandAndWriteBack | ios/Pods/MMKVCore/Core/MMKV_IO.cpp:451-483 | afterwards strictly more space is left than asked for and nothing else changed, or nothing changed at all |
| Mmkv.MMKV.EnsureMemorySize | ios/Pods/MMKVCore/Core/MMKV_IO.cpp:427-449 | succeeds exactly if there is or can be room, with strictly more space left than asked for; a second call does nothing |
| Mmkv.MMKV.DoAppendDataWithKey | ios/Pods/MMKVCore/Core/MMKV_IO.cpp:838-904 | appends the record; with the holder entered the dictionary is again the index; fails exactly without room |
| Mmkv.MMKV.UpdateCRCDigest | ios/Pods/MMKVCore/Core/MMKV.cpp:443-450 | the bytes written behind the log become part of it |
| Mmkv.MMKV.DoOverrideDataWithKey | ios/Pods/MMKVCore/Core/MMKV_IO.cpp:906-969 | the log becomes the one record; dictionary and contents follow |
| Mmkv.MMKV.RecalculateCRCDigestOnly | ios/Pods/MMKVCore/Core/MMKV.cpp:434-441 | checksum and size of the overwritten log |
| Mmkv.MMKV.AppendDataWithHolder | ios/Pods/MMKVCore/Core/MMKV_IO.cpp:1006-1029 | the key bytes found after making room are those of the key |
| Mmkv.MMKV.OverrideDataWithHolder | ios/Pods/MMKVCore/Core/MMKV_IO.cpp:1032-1057 | the key bytes read from the log before it is overwritten are those of the key |
| Mmkv.MMKV.GetDataForKey | ios/Pods/MMKVCore/Core/MMKV_IO.cpp:560-587 | finds exactly the keys with a value, and the value last set |
| Mmkv.MMKV.SetDataForKey | ios/Pods/MMKVCore/Core/MMKV_IO.cpp:598-756 | the key has the value, all others are unchanged, the store stays valid; fails only for empty keys or values and without room; shared with other processes the log gains exactly that record, or with the option to compare nothing |
| Mmkv.MMKV.RemoveDataForKey | ios/Pods/MMKVCore/Core/MMKV_IO.cpp:766-836 | the key is gone, all others unchanged; succeeds exactly if it was there and there is room; the flag of a full rewrite is set afterwards exactly if room had to be made; the log gains exactly the record without value |
| Mmkv.MMKV.FullWriteback | ios/Pods/MMKVCore/Core/MMKV_IO.cpp:1059-1101 | contents unchanged; the branch that the source marks with assert(0) cannot be reached |
| Mmkv.MMKV.TrimmedSize | ios/Pods/MMKVCore/Core/MMKV_IO.cpp:1429-1434 | halving stops before the log no longer fits |
| Mmkv.MMKV.Trim | ios/Pods/MMKVCore/Core/MMKV_IO.cpp:1405-1450 | contents unchanged, space given back; whenever the file changes, the sequence number stays as it is exactly if the flag of a full rewrite was set and the log was not empty |
| TrimRun.ShrinkUnnoticed | ios/Pods/MMKVCore/Core/MMKV_IO.cpp:1405-1450 | a run of a new store in which the file gets smaller and the sequence number stays |
| Mmkv.MMKV.ClearAll | ios/Pods/MMKVCore/Core/MMKV_IO.cpp:1452-1490 | the log is empty, the store valid |
| Mmkv.MMKV.LoadFromFile | ios/Pods/MMKVCore/Core/MMKV_IO.cpp:64-141 | loading what is chosen gives a valid store: with the records of an intact file of any version, those that were confirmed of a damaged one, or, if everything is to be recovered, the meaning of the records that can be read, written back at once |
| LogRecords.ReplayFirst | ios/Pods/MMKVCore/Core/MiniPBCoder_OSX.cpp:79-132 | a greedy reader finds exactly the records that come first, whatever cannot be read behind them |
| Truncated.CutBegins | ios/Pods/MMKVCore/Core/MiniPBCoder_OSX.cpp:79-132 | wherever a log is cut off, it begins with its whole records and no more can be read |
| Truncated.CutOffLoads | ios/Pods/MMKVCore/Core/MMKV_IO.cpp:253-326 | in every state of every run: of a file that ends before the log everything is chosen if the application asks for recovery, and reading it gives the whole records |
| Truncated.LoadCutOff | ios/Pods/MMKVCore/Core/MMKV_IO.cpp:64-141 | loading such a file gives a valid store whose contents are those of the whole records |
| Mmkv.MMKV.LoadNothing | ios/Pods/MMKVCore/Core/MMKV_IO.cpp:109-121 | an empty or invalid file is an empty store |
| Mmkv.MMKV.Reload | ios/Pods/MMKVCore/Core/MMKV_IO.cpp:328-335 | forgetting and loading again gives the same dictionary |
| Mmkv.MMKV.IndexEqualsLog | ios/Pods/MMKVCore/Core/MiniPBCoder_OSX.cpp:79-132 | in every valid state, replaying the bytes up to the actual size gives exactly the dictionary |
| Mmkv.LiveFits | ios/Pods/MMKVCore/Core/MMKV_IO.cpp:1090-1100 | the live records and the size holder never exceed the log |
| SharedLog.FullLoadIsUpToDate | ios/Pods/MMKVCore/Core/MMKV_IO.cpp:64-141 | loading everything gives the index of the shared log |
| SharedLog.PartialLoadIsUpToDate | ios/Pods/MMKVCore/Core/MMKV_IO.cpp:144-189 | reading on from a known prefix gives the same |
| SharedLog.RefreshIsUpToDate | ios/Pods/MMKVCore/Core/MMKV_IO.cpp:328-371 | whichever branch is taken, the process ends with the dictionary of the whole log |
| SharedLog.AppendOthers | ios/Pods/MMKVCore/Core/MMKV_IO.cpp:838-904 | an append leaves every process that has the current sequence number with a prefix of the log |
| SharedLog.OthersAreOlder | ios/Pods/MMKVCore/Core/MMKV_IO.cpp:534-545 | after a larger sequence number the others load everything |
| SharedLog.RewriteKeepsMeaning | ios/Pods/MMKVCore/Core/MMKV_IO.cpp:1059-1157 | the bytes at the places that an up-to-date process knows are live records with the meaning of the whole log |
| SharedLog.RewriteShared | ios/Pods/MMKVCore/Core/MMKV_IO.cpp:1059-1100 | a rewrite made from what one process knows is again a right log, for which that process is up to date |
| SharedLog.StepKeepsInv | ios/Pods/MMKVCore/Core/MMKV_IO.cpp:328-371 | every step of every process keeps the invariant |
| SharedLog.StepEffect | ios/Pods/MMKVCore/Core/MMKV_IO.cpp:328-371 | of all steps only appending and clearing change what the log means |
| SharedLog.NothingIsLost | ios/Pods/MMKVCore/Core/MMKV_IO.cpp:328-371 | in every state of every run the log means what the appends and clearings of all processes made of it, in their order |
| SharedLog.EveryRunStaysInStep | ios/Pods/MMKVCore/Core/MMKV_IO.cpp:328-371 | in every state of every run, every process that checks has the dictionary of a full replay |
| SharedLog.FreshIsInv | ios/Pods/MMKVCore/Core/MMKV.cpp:76-122 | a new file, with any size holder, is a state from which a run can start |
| SharedSteps.StoreIsProcess | ios/Pods/MMKVCore/Core/MMKV_IO.cpp:64-141 | a store that shows the shared log has exactly the memory of its process, and its file the bytes of the log |
| SharedSteps.CheckShows | ios/Pods/MMKVCore/Core/MMKV_IO.cpp:328-371 | after a check the process shows the shared log |
| SharedSteps.AppendIsStep | ios/Pods/MMKVCore/Core/MMKV_IO.cpp:838-904 | what appending does to a store is the step Append of its process |
| SharedSteps.RewriteIsStep | ios/Pods/MMKVCore/Core/MMKV_IO.cpp:1059-1157 | what rewriting does is the step Rewrite, with the order in which the records were moved |
| SharedSteps.ClearIsStep | ios/Pods/MMKVCore/Core/MMKV_IO.cpp:1452-1490 | what clearing does is the step Clear |
| SharedSteps.GrewIsRun | ios/Pods/MMKVCore/Core/MMKV_IO.cpp:598-836 | setting and removing are a run of the process alone: at most one rewrite, then the append of exactly that record |
| SharedSteps.KeptIsRun | ios/Pods/MMKVCore/Core/MMKV_IO.cpp:1405-1490 | rewriting, trimming and clearing are a run of at most one step |
| DataChoice.ReadsWhatWasStored | ios/Pods/MMKVCore/Core/MMKV_IO.cpp:485-508 | whichever version is recorded, the size that is read is the one that was stored last |
| Mmkv.MMKV.CheckFileCRCValid | ios/Pods/MMKVCore/Core/MMKV.cpp:412-423 | the checksum of the first bytes is the expected one |
| Mmkv.MMKV.CheckLastConfirmedInfo | ios/Pods/MMKVCore/Core/MMKV_IO.cpp:256-290 | the size field first, then what was confirmed last; the size found is recorded |
| Mmkv.MMKV.CheckDataValid | ios/Pods/MMKVCore/Core/MMKV_IO.cpp:253-326 | which part of a possibly damaged file is loaded, in all cases, and what is recorded |
| DataChoice.ConfirmedIsLoaded | ios/Pods/MMKVCore/Core/MMKV_IO.cpp:253-326 | with the confirmed part intact a part with a recorded checksum is loaded, whatever the strategy for errors |
| Recovery.ConfirmedPrefixSurvives | ios/Pods/MMKVCore/Core/MMKV_IO.cpp:510-558 | in every state of every run the confirmed part has its checksum and consists of whole records, so later damage does not touch it |
| Recovery.DamageLoads | ios/Pods/MMKVCore/Core/MMKV_IO.cpp:253-326 | after damage that the checksum notices, what is chosen is the confirmed part, a log of the first records |
| Recovery.LoadDamaged | ios/Pods/MMKVCore/Core/MMKV_IO.cpp:64-141 | loading after such damage gives a valid store with exactly those records |
| DecryptWindow.CodedInputDataCrypt.Seek | ios/Pods/MMKVCore/Core/CodedInputDataCrypt.cpp:60-68 | moves to where decrypting goes on |
| DecryptWindow.CodedInputDataCrypt.ConsumeBytes | ios/Pods/MMKVCore/Core/CodedInputDataCrypt.cpp:70-125 | the unread part of the buffer is the plain text, through realignment, moving and growing; enough of it is there |
| DecryptWindow.Rounding | ios/Pods/MMKVCore/Core/CodedInputDataCrypt.cpp:80-96 | the rounded length is enough and ends between blocks or at the end |
| DecryptWindow.CodedInputDataCrypt.SkipBytes | ios/Pods/MMKVCore/Core/CodedInputDataCrypt.cpp:127-159 | the position moves and the window is again the plain text |
| DecryptWindow.BlocksToSkip | ios/Pods/MMKVCore/Core/CodedInputDataCrypt.cpp:139-156 | what is left of the last block holds all that is not skipped |
| DecryptWindow.CodedInputDataCrypt.ReadRawByte | ios/Pods/MMKVCore/Core/CodedInputDataCrypt.cpp:167-178 | the next byte of the plain text |
| DecryptWindow.CodedInputDataCrypt.ReadRawVarint32 | ios/Pods/MMKVCore/Core/CodedInputDataCrypt.cpp:180-214 | the same value as read from the plain text |
| DecryptWindow.CodedInputDataCrypt.ReadString | ios/Pods/MMKVCore/Core/CodedInputDataCrypt.cpp:220-241 | the key as in the plain text; the bytes of the record so far are still in the buffer |
| DecryptWindow.CodedInputDataCrypt.ReadData | ios/Pods/MMKVCore/Core/CodedInputDataCrypt.cpp:243-272 | a short value itself, of a long one the place |
| MiniPBCoderCrypt.DecodeBlock | ios/Pods/MMKVCore/Core/MiniPBCoder_OSX.cpp:136-165 | the loop computes the replay of the plain text |
| MiniPBCoderCrypt.CryptReplayAgrees | ios/Pods/MMKVCore/Core/MiniPBCoder_OSX.cpp:136-165 | for all bytes: same keys, same end, same sizes and places, same inline values as the plain reader |
| MiniPBCoderCrypt.DecodedIsContents | ios/Pods/MMKVCore/Core/MiniPBCoder_OSX.cpp:136-165 | for every log that was written: the last value of every key, or the place of its whole record |

## Left out

- Bignums.Bignum.DivideModuloIntBignum: requires a quotient below 2^16, which its 16-bit result demands and its comment states.
- CountedDigits.GenerateCountedDigits: requires a positive count; for 0 the source would write before the buffer, and its callers never ask for that.
- Strtods.ComputeGuess: the fast conversions are a parameter; that their guess is the nearest double or the one below it is a hypothesis.
- Mmkv.MMKV.SetDataForKey: requires keys whose record head fits 16 bits; `KeyValueHolders.HolderFits` shows that other keys get a wrong place.
- Mmkv.MMKV.LoadFromFile: requires that what is chosen is a log, and that what is recovered without a checksum begins with a size holder of four bytes and records as the store writes them; damaged bytes that happen to read as further records are not covered.
- Recovery.LoadDamaged: damage that happens to agree with a recorded checksum is not noticed.
- DecryptWindow.CodedInputDataCrypt.ReadData: the cipher status saved for a long value, see below.
- Grisu.DigitGen: requires an upper bound of at least 2^62, as its callers' scaling gives, and room in the buffer for the digits of the interval.
- SharedSteps.GrewIsRun: in multi-process mode; a single process may also overwrite its log with one record (`Mmkv.MMKV.DoOverrideDataWithKey`).
- SharedLog.EveryRunStaysInStep: the sequence number does not wrap around after 2^32 rewrites.
- Recovery.ConfirmedPrefixSurvives: in multi-process mode; a single process may overwrite the confirmed bytes of a log with one key.
- The cached powers of ten, the wrapper around both Grisu3 generators and the error analysis of the extended-precision reader: they rest on a table of approximated constants.
- `DoubleStrtod`, `EstimatePower` and `Strtof` use native floating point; the estimate is a parameter with the range that the fixup needs.
- Hexadecimal conversion of big numbers, `StringToIeee` options, `StringBuilder` and output formatting.
- 32-bit `int` counters such as lengths and exponents are unbounded where the capacity of 128 digits bounds them anyway.
- AES, initialisation vectors, re-keying, rewriting an encrypted log and the saved cipher state of a long value; SmallBuffer and heap storage of short values are one case.
- Key expiry, backup, import, migration, the instance registry, logging, notifications, read-only stores.
- mmap, msync, file locks and errors of the disk: locked operations are atomic and resizing either succeeds or changes nothing.
- Files of 4 GiB and more; sizes of records above 2^31 bytes.
- NSString keys are byte strings; object encoding is not modelled.
- The flag that delays loading: the store is loaded at once.
