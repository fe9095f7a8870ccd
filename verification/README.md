# Verified model of the {fmt} formatting engine

A Dafny model of the numeric and formatting engine of {fmt} 7.1.3, the copy that this
repository carries under `thirdparty/fmt`.  `dafny verify dfyconfig.toml` checks all of it.

The main results, and the modules that lead up to them:

* **Printing a double is correctly rounded.**  `FormatFloat.Format` models `format_float` for a given
  precision: decode, normalize, scale by a cached power of ten, generate digits quickly with an error
  interval, and fall back to big integers where the interval does not decide.  Whichever generator runs,
  the result is the exact value rounded half to even, and the leading place is exact.
  Exact generator: `Bigits`, `BigitOrder`, `Convolution`, `CarryArithmetic`, `Accumulators`, `Bigints`,
  `FallbackFormat`.  Fast generator: `Grisu`.  From the scaled value back to the exact one:
  `DoubleBits`, `CachedPowerTable`, `CachedPowers`, `Scaling`, `PowerGaps`, `LeadingDigit`, `Halfway`.
  Shared arithmetic: `Words`, `Powers`, `Decimal`, `BinaryValue`.  The contract leaves one output for each
  input (`FloatOutput`).  Where it falls short: `BigintLimits`, `PrecisionLimits`, `ZeroPrecision`.
* **A format string prints what it says.**  `FormatMeaning.FormatsAsMeant`: a string written from texts and
  fields formats to an output if and only if that is the texts and the renderings of the arguments that the
  fields stand for, with the specifiers that were written, said of positions, names and values alone.
  `FormatGrammar.FormattedIsWritten`: any string that formats at all is such a list, in the grammar, and
  prints what the list means.
* **Compiling a format string preserves its meaning.**  `FormatCompile.CompiledIsDirect`: for every format
  string, every argument list and every renderer, formatting directly and compiling to parts that are run
  later succeed on the same inputs with the same output.  It rests on `FormatParse`, where the short loop
  and the long two-pass search are shown to report the same events, and on `FormatSpecs`.  What the parser
  recovers is pinned down from outside: specifiers that are written out parse as themselves
  (`SpecsRoundTrip`), a written-out list of texts and fields is handled as that list (`FormatRoundTrip`),
  and so formats as its texts and rendered arguments (`FormatItems`).
* **One multiplication tests divisibility.**  `DivisibilityTest` proves it for any divisor with an inverse
  and instantiates both tables; `TrailingZeros` builds the removal of trailing zeros on it.  `WideMul` has
  the wide products from 32-bit halves.
* **Text in and out.**  `OutputBuffer`, `DigitCount`, `DecimalText` and `Utf8`.

Integers are unbounded; a machine word is a subset type (`u32`, `u64`) whose range is proved wherever a
value is produced, and wrap-around is an explicit remainder.  A real number is a pair of naturals, so that
nothing is approximated.

## Findings

Where the code does not do what its documentation or its name promises, the model follows the code:

* `compare` answers 1 or -1 for equal values when one side carries more low zero bigits
  (`BigitOrder.CompareIsOrder`, `BigintLimits.CompareTie`), which makes `divmod_assign` return zero for such
  a dividend (`BigintLimits.DivmodMisled`).  It never happens inside `fallback_format`
  (`FallbackFormat.NeverMeets`).
* The borrow loop of `subtract_aligned` does not advance its index, so it is right exactly when no borrow
  meets a zero bigit (`Bigints.Bigint.SubtractAligned`, `BigintLimits.SubtractLoses`); division with a quotient below 2^32 never meets
  one (`BigitOrder.SubtractReady`).
* In fixed notation the precision is cut to 767 places after the point, although a double can have 1074
  (`PrecisionLimits.ClampedFixed`, `SmallPowersLose`).  Cut significant digits are always zeros
  (`ClampHarmless`).
* With a precision of no significant digits, the value is rounded one place too early where the fast
  generator cannot decide the first digit: 2.5 gives no digits at all instead of 2
  (`ZeroPrecision.FormatTwoAndAHalf`).  The output is the one-digit rounding if and only if the guard
  `FormatFloat.Undecided` does not hold or the digit rounds up to ten (`ZeroPrecision.NoDigitsExact`).  The
  guard holds for every value half-way between two digits, and for some that are only very close to that:
  0x689d1c26db7d0dae, about 8.5e195, comes out as 1e196 instead of 8e195 (`ZeroPrecision.NearHalfFails`,
  `FormatNearHalf`).
* In fixed notation a carry into a new place is stored in two ways: the fast generator appends a zero, the
  exact one raises the exponent; `FormatFloat.Undecided` tells which of them runs.  9.5 with no places comes
  out as the digit 1 with exponent 1 (`ZeroPrecision.FormatNineAndAHalf`).  The number is right either way.
* `utf8_decode` accepts the bytes 0x80-0xBF and 0xF8-0xFF as lead bytes and reads their low seven bits,
  because `code_point_length` turns its zero for "no such sequence" into one (`Utf8.StrayBytesPass`).
* In `{:}<`, the closing brace is read as a fill character and the field goes on
  (`SpecsRoundTrip.BraceBecomesFill`); everywhere else specifiers are read back as written
  (`SpecsRoundTrip.ParseShow`).
* `compile.h` looks at the character after the specifiers without checking for the end of the string; the
  model lets the caller report the error, as it does whatever that character is.

## Model

| member | source | states |
|---|---|---|
| `Bigints.Bigint.Assign` | thirdparty/fmt/include/fmt/format-inl.h:1323-1331 | after assigning a 64-bit number the bigits spell exactly that number, one or two of them, the top one non-zero unless the number is zero |
| `Bigints.Bigint.Multiply32` | thirdparty/fmt/include/fmt/format-inl.h:1279-1288 | the value is multiplied exactly for every length; the top bigit stays non-zero; at most one bigit is added |
| `Bigints.Bigint.Multiply64` | thirdparty/fmt/include/fmt/format-inl.h:1290-1305 | the value is multiplied exactly; the carry expression never leaves 64 bits because the carry never exceeds the factor |
| `Bigints.Bigint.ShiftLeft` | thirdparty/fmt/include/fmt/format-inl.h:1335-1348 | the value is multiplied by 2^shift, whole bigits going into the exponent; the top bigit stays non-zero |
| `Bigints.Bigint.RemoveLeadingZeros` | thirdparty/fmt/include/fmt/format-inl.h:1261-1265 | the value is unchanged and no zero bigit is left on top, one bigit being kept for zero |
| `Accumulators.Accumulator.Add` | thirdparty/fmt/include/fmt/format-inl.h:1226-1229 | the two words are a 128-bit sum: adding a word is addition modulo 2^128 |
| `Accumulators.Accumulator.ShiftRight32` | thirdparty/fmt/include/fmt/format-inl.h:1230-1235 | the shift is division of the 128-bit value by 2^32 |
| `Convolution.EmitDiagonal` | thirdparty/fmt/include/fmt/format-inl.h:1423-1442 | emitting the low 32 bits of the running sum and shifting keeps the partial square: bigits emitted plus sum at its weight |
| `Convolution.TriangleIsSquare` | thirdparty/fmt/include/fmt/format-inl.h:1416-1444 | all diagonals of the half-convolutions together are the square |
| `Convolution.NoFinalCarry` | thirdparty/fmt/include/fmt/format-inl.h:1416-1444 | after 2n bigits the accumulator is zero, so the emitted bigits are the whole square |
| `Bigints.Bigint.Square` | thirdparty/fmt/include/fmt/format-inl.h:1416-1444 | the value is exactly squared, for every length; the exponent doubles |
| `Bigints.Bigint.TopBitmask` | thirdparty/fmt/include/fmt/format-inl.h:1401-1403 | the mask is the highest power of two not above the exponent |
| `Bigints.Bigint.AssignPow5` | thirdparty/fmt/include/fmt/format-inl.h:1404-1412 | squaring and multiplying by five along the bits of e yields 5^e: before each bit the value is 5 to the bits consumed |
| `Bigints.Bigint.AssignPow10` | thirdparty/fmt/include/fmt/format-inl.h:1397-1414 | yields exactly 10^e for every e below 2^30 |
| `Bigints.Bigint.Compare` | thirdparty/fmt/include/fmt/format-inl.h:1356-1370 | the loop computes CompareResult: the sign of the difference, except that equal values with different numbers of bigits come out as the sign of the length difference |
| `BigitOrder.CompareIsOrder` | thirdparty/fmt/include/fmt/format-inl.h:1356-1370 | for operands with non-zero top bigits the comparison never contradicts the true order, is the exact sign when the values differ, and is zero exactly when the values and the lengths are equal |
| `BigintLimits.CompareTie` | thirdparty/fmt/include/fmt/format-inl.h:1356-1370 | 2^32 stored with and without a low zero bigit has equal values that compare as greater |
| `Bigints.Bigint.AddCompare` | thirdparty/fmt/include/fmt/format-inl.h:1373-1394 | the scan from the top computes the two length shortcuts and the borrow recurrence, and never lets the borrow leave 64 bits |
| `BigitOrder.AddCompareIsExact` | thirdparty/fmt/include/fmt/format-inl.h:1373-1394 | the result is the exact sign of lhs1 + lhs2 - rhs, without forming the sum, for operands that are trimmed or zero with an exponent not above that of rhs |
| `Bigints.Bigint.Align` | thirdparty/fmt/include/fmt/format-inl.h:1448-1457 | the value is unchanged and the exponent is at most the other one's |
| `Bigints.Bigint.InsertLowZeros` | thirdparty/fmt/include/fmt/format-inl.h:1451-1455 | moving the bigits up in place from the top and clearing the low ones is prefixing zeros |
| `Bigints.Bigint.SubtractLow` | thirdparty/fmt/include/fmt/format-inl.h:1271-1274 | the bigit loop leaves the difference modulo the weight of the part it covers, and the borrow |
| `Bigints.Bigint.SubtractAligned` | thirdparty/fmt/include/fmt/format-inl.h:1268-1277 | subtracts exactly if and only if the borrow is not lost: the borrow loop does not advance, so it is right unless a borrow is due and the next bigit is zero |
| `BigintLimits.SubtractLoses` | thirdparty/fmt/include/fmt/format-inl.h:1268-1277 | subtracting 1 from 2^64 leaves a wrong value |
| `BigitOrder.SubtractReady` | thirdparty/fmt/include/fmt/format-inl.h:1268-1277 | when the minuend is less than 2^32 times the subtrahend, it has at most one bigit more and the borrow is never lost |
| `Bigints.Bigint.DivmodAssign` | thirdparty/fmt/include/fmt/format-inl.h:1461-1472 | quotient and remainder are exact if the comparison at the start is not misled, that is, unless the values are equal and the dividend carries fewer bigits; then it returns zero and changes nothing |
| `BigintLimits.DivmodMisled` | thirdparty/fmt/include/fmt/format-inl.h:1461-1472 | 2^32 divided by 2^32 stored with a low zero bigit gives zero |
| `FallbackFormat.SetUp` | thirdparty/fmt/include/fmt/format-inl.h:2325-2361 | all three branches establish numerator / denominator = value / 10^exp10, both scaled by the same power of two |
| `FallbackFormat.NextDigit` | thirdparty/fmt/include/fmt/format-inl.h:2402-2405 | one division step yields the next digit and the remainder, exactly |
| `FallbackFormat.LeadingDigits` | thirdparty/fmt/include/fmt/format-inl.h:2402-2406 | after k steps the digits and the remainder are the quotient and remainder of numerator * 10^(k-1) by the denominator |
| `FallbackFormat.RoundsUp` | thirdparty/fmt/include/fmt/format-inl.h:2408-2409 | the comparison of the doubled remainder with the denominator decides half-to-even rounding, on odd and even digits |
| `FallbackFormat.LastDigit` | thirdparty/fmt/include/fmt/format-inl.h:2407-2426 | rounding up carries through nines; an all-nines buffer becomes 10...0 with the exponent raised, and the number spelled is the old one plus one |
| `FallbackFormat.NoDigits` | thirdparty/fmt/include/fmt/format-inl.h:2395-2400 | with no digits asked for, the one character is the value rounded half to even at the place above |
| `FallbackFormat.NeverMeets` | thirdparty/fmt/include/fmt/format-inl.h:2325-2427 | for binary exponents of 32 and more no remainder equals the denominator, so the comparison is never misled in a whole run |
| `FallbackFormat.Format` | thirdparty/fmt/include/fmt/format-inl.h:2312-2427 | for every positive significand and binary exponent and every number of digits, the buffer holds that many digits and spells the exact value rounded half to even at its last place, carry into a new power of ten included |
| `Decimal.PropagateCarry` | thirdparty/fmt/include/fmt/format-inl.h:1631-1634 | the carry loop keeps the number spelled and leaves an overflow only in the first place, every other place then being zero |
| `Grisu.GetRoundDirection` | thirdparty/fmt/include/fmt/format-inl.h:1481-1495 | rounds down exactly when 2(remainder + error) <= divisor, otherwise up exactly when 2(remainder - error) >= divisor, with no intermediate overflow |
| `Grisu.FixedHandler.OnStart` | thirdparty/fmt/include/fmt/format-inl.h:1596-1611 | the precision becomes relative to the first digit; with none left to produce, an error is reported exactly when the remainder is within the error of half the divisor, and otherwise the one digit is 0 or 1 as the remainder is below or above |
| `Grisu.FixedHandler.OnDigit` | thirdparty/fmt/include/fmt/format-inl.h:1613-1643 | an error is reported exactly when the digit generation is stuck: in the fraction when the error has reached the remainder, and at the last digit when the remainder is within the error of half the divisor or the error has reached half of it; when done, the digits stand for a multiple of the divisor that is safely nearest for the whole error interval, there is exactly one digit more than before, and one further place exactly for a carry out of all nines; rounding down leaves the old digits and the new one |
| `Grisu.FixedHandler.RoundUp` | thirdparty/fmt/include/fmt/format-inl.h:1630-1641 | what the digits stand for grows by one unit of the last place; exactly when they were all nines, one zero is appended in fixed notation or the exponent is raised by one otherwise |
| `Grisu.IntegralDigits` | thirdparty/fmt/include/fmt/format-inl.h:1526-1575 | the run ends in the integral part exactly when no more digits were asked for than it has, at the place of the last of them, with an error exactly when the remainder there is about half of that place; shifted powers stay in 64 bits |
| `Grisu.FractionalDigits` | thirdparty/fmt/include/fmt/format-inl.h:1577-1585 | stops after at most 19 digits because the error reaches the unit, with an error exactly when one of the digits up to the last one asked for is stuck; neither the fraction nor the error times ten leaves 64 bits |
| `Grisu.GenDigits` | thirdparty/fmt/include/fmt/format-inl.h:1508-1586 | a whole run fails if and only if RunFails holds of the scaled value and the number of digits, a condition without reference to the run; otherwise it delivers exactly as many digits as were asked for (one further place exactly for a carry), within half a unit of the last place for every number within one unit of the scaled value, in both notations; below the first place nothing is delivered |
| `CachedPowerTable.TableAccurate` | thirdparty/fmt/include/fmt/format-inl.h:283-326 | for all 87 entries: the significand is a 128-bit approximation rounded to 64 bits, and that approximation follows from its neighbour |
| `CachedPowers.EntryIsCachedPower` | thirdparty/fmt/include/fmt/format-inl.h:283-326 | every table entry is within half a unit in the last place of the true power of ten |
| `CachedPowers.GetCachedPower` | thirdparty/fmt/include/fmt/format-inl.h:1199-1215 | the index arithmetic selects the table entry, whose binary exponent is in the window asked for, for every exponent a double can ask for |
| `PowerGaps.AllClear` | thirdparty/fmt/include/fmt/format-inl.h:283-326 | for all 87 entries: no 53-bit significand times the entry comes within the rounding error of a power of ten, outside the powers of ten that are doubles |
| `LeadingDigit.Reaches` | thirdparty/fmt/include/fmt/format-inl.h:1510-1520 | a scaled value that reaches 10^m comes from a double that reaches the corresponding power of ten, although the product was rounded |
| `Scaling.ScalingError` | thirdparty/fmt/include/fmt/format-inl.h:1178-1195 | the rounded product with a cached power is less than one unit from the true scaled value |
| `Scaling.DeliveredIsRounded` | thirdparty/fmt/include/fmt/format-inl.h:2464-2478 | digits that are safe for the whole interval are the exact value rounded half to even |
| `DoubleBits.Decode` | thirdparty/fmt/include/fmt/format-inl.h:1126-1150 | a positive finite double is f * 2^e with f below 2^53 and e between -1074 and 971, and the bits can be computed back from f and e |
| `DoubleBits.Normalize` | thirdparty/fmt/include/fmt/format-inl.h:1160-1173 | the value is unchanged and the significand has its top bit set |
| `DoubleBits.IsNormalOf` | thirdparty/fmt/include/fmt/format-inl.h:1160-1173 | the normal form is a function of the value: only one shift fills 64 bits |
| `FormatFloat.Scale` | thirdparty/fmt/include/fmt/format-inl.h:2463-2467 | the scaled value is the rounded product of the normal form and the selected table entry; it has between 32 and 60 fractional bits and a non-zero integral part |
| `FormatFloat.Generated` | thirdparty/fmt/include/fmt/format-inl.h:2472-2479 | digits from either generator are the exact value, correctly rounded at the unit asked for, with the digit count and exponent that Output fixes |
| `FormatFloat.RemoveTrailingZeros` | thirdparty/fmt/include/fmt/format-inl.h:2480-2488 | dropping trailing zeros keeps the number and the place of the first digit, and none is left |
| `FormatFloat.Format` | thirdparty/fmt/include/fmt/format-inl.h:2429-2490 | for every non-negative finite double, precision and notation: the leading place is exact and the output is the exact value rounded half to even, at -precision in fixed notation with as many digits as reach from the leading place to there, and otherwise to precision digits, or those without their trailing zeros; a carry adds a digit or raises the exponent; precisions above 767 count as 767; the only other departure is for no significant digits where the guard Undecided, a function of the double and the table, holds |
| `PrecisionLimits.ClampHarmless` | thirdparty/fmt/include/fmt/format-inl.h:2468-2471 | limiting the number of significant digits to 767 loses nothing: every later digit of a double is zero |
| `PrecisionLimits.ClampedFixed` | thirdparty/fmt/include/fmt/format-inl.h:2468-2471 | limiting the places after the point to 767 gives the value rounded at the place asked for if and only if the value is within half a unit of that place of a multiple of 10^-767 |
| `PrecisionLimits.SmallPowersLose` | thirdparty/fmt/include/fmt/format-inl.h:2468-2471 | 2^-n has n places, the last one a 5, so rounding it at any earlier place loses digits |
| `ZeroPrecision.NoDigitsExact` | thirdparty/fmt/include/fmt/format-inl.h:2472-2475 | with no significant digits asked for, the output is the value rounded to one digit if and only if the guard Undecided does not hold or that digit rounds up to ten |
| `ZeroPrecision.FormatTwoAndAHalf` | thirdparty/fmt/include/fmt/format-inl.h:2472-2475 | formatting 2.5 with no significant digits delivers an empty digit string, although it rounds to 2 in one digit |
| `ZeroPrecision.NearHalfFails` | thirdparty/fmt/include/fmt/format-inl.h:2472-2475 | the double 0x689d1c26db7d0dae is not half-way between two digits and rounds to 8 in one digit, yet the guard holds for it |
| `ZeroPrecision.FormatNearHalf` | thirdparty/fmt/include/fmt/format-inl.h:2472-2475 | formatting it with no significant digits delivers the digit 1 with the exponent 196 |
| `ZeroPrecision.FormatNineAndAHalf` | thirdparty/fmt/include/fmt/format-inl.h:2472-2479 | formatting 9.5 with no places in fixed notation delivers the one digit 1 with the exponent 1: the carry raises the exponent instead of adding a digit |
| `FloatOutput.OutputUnique` | thirdparty/fmt/include/fmt/format-inl.h:2429-2490 | the contract of the formatter leaves exactly one digit string and exponent for every double, precision and notation |
| `FloatOutput.NoLeadingZero` | thirdparty/fmt/include/fmt/format-inl.h:1596-1643 | wherever at least one digit is asked for, the digits do not start with a zero |
| `FloatOutput.SignificantExact` | thirdparty/fmt/include/fmt/format-inl.h:2468-2488 | in general and exponent notation the output is the exact value rounded half to even to the number of significant digits asked for, however large |
| `DivisibilityTest.Divisible` | thirdparty/fmt/include/fmt/format-inl.h:1771-1781 | for any divisor with an inverse modulo m: the wrapped product is at most the largest quotient exactly for the multiples, and is then the quotient |
| `DivisibilityTest.Table32` | thirdparty/fmt/include/fmt/format-inl.h:328-335 | all 11 entries are the inverse of 5^k modulo 2^32 and the largest quotient |
| `DivisibilityTest.Table64` | thirdparty/fmt/include/fmt/format-inl.h:337-362 | all 24 entries are the inverse of 5^k modulo 2^64 and the largest quotient |
| `DivisibilityTest.DivisibleByPowerOf5Of32` | thirdparty/fmt/include/fmt/format-inl.h:1772-1776 | true exactly when 5^exp divides x |
| `DivisibilityTest.DivisibleByPowerOf5Of64` | thirdparty/fmt/include/fmt/format-inl.h:1777-1781 | true exactly when 5^exp divides x |
| `TrailingZeros.RemoveTrailingZeros32` | thirdparty/fmt/include/fmt/format-inl.h:2012-2038 | n = result * 10^s with s at most 7, and the result has no trailing zero unless s is 7 |
| `TrailingZeros.RemoveTrailingZeros64` | thirdparty/fmt/include/fmt/format-inl.h:2040-2123 | the same with at most 16 zeros for every n up to (2^64 - 1) / 1000, through the quotient path and the remainder path |
| `TrailingZeros.FromQuotient` | thirdparty/fmt/include/fmt/format-inl.h:2060-2075 | the path for multiples of 10^8 |
| `TrailingZeros.FromRemainder` | thirdparty/fmt/include/fmt/format-inl.h:2077-2123 | the path for everything else, on the last eight digits |
| `TrailingZeros.StrippedIsLargest` | thirdparty/fmt/include/fmt/format-inl.h:2012-2123 | the number of zeros removed is the largest one possible under the cap |
| `WideMul.Multiply` | thirdparty/fmt/include/fmt/format-inl.h:1178-1193 | the product of two 64-bit numbers, divided by 2^64 and rounded half up, from 32-bit halves |
| `WideMul.Umul128` | thirdparty/fmt/include/fmt/format-inl.h:1648-1676 | the full 128-bit product |
| `WideMul.AddWord` | thirdparty/fmt/include/fmt/format.h:845-855 | addition of a word modulo 2^128 |
| `WideMul.Umul128Upper64` | thirdparty/fmt/include/fmt/format-inl.h:1678-1688 | the upper word of the product |
| `WideMul.Umul192Upper64` | thirdparty/fmt/include/fmt/format-inl.h:1692-1698 | the top 64 of the 192 bits of a 64 by 128-bit product |
| `WideMul.Umul192Middle64` | thirdparty/fmt/include/fmt/format-inl.h:1707-1712 | the middle 64 of them, with both words wrapping |
| `WideMul.DivideBy1000` | thirdparty/fmt/include/fmt/format-inl.h:1820-1822 | equals n / 1000 if and only if (n mod 1000) * 2^73 + 608 n < 1000 * 2^73 |
| `WideMul.DivideBy1000Exact` | thirdparty/fmt/include/fmt/format-inl.h:1820-1822 | in particular whenever 608 n < 2^73 |
| `FormatParse.ParseShort` | thirdparty/fmt/include/fmt/format.h:2990-3007 | the character loop reports exactly the events that parsing means, for every handler that ignores empty text |
| `FormatParse.WriteText` | thirdparty/fmt/include/fmt/format.h:3008-3023 | the writer reports the text of a stretch without opening braces, or its unmatched brace |
| `FormatParse.ParseLong` | thirdparty/fmt/include/fmt/format.h:3024-3032 | the two searches report the same events |
| `FormatParse.ParseFormatString` | thirdparty/fmt/include/fmt/format.h:2985-3033 | the switch at length 32 cannot be observed: both ways equal the same function of handler and string, errors included |
| `FormatParse.ParseInTwo` | thirdparty/fmt/include/fmt/format.h:3024-3032 | text before an opening brace can be parsed on its own and the field after it |
| `FormatParse.ParseInStep` | thirdparty/fmt/include/fmt/format.h:2985-3033 | two handlers whose steps agree agree after every string, or the second fails or has reached a state it cannot leave |
| `FormatSpecs.ParseArgId` | thirdparty/fmt/include/fmt/format.h:2699-2730 | an argument id is empty in front of a brace or a colon, or the digits of a number that fits an int, or a name, and it lies within the string |
| `FormatSpecs.LetterIsKind` | thirdparty/fmt/include/fmt/format.h:3091-3092 | a lone letter before the closing brace parses as the type, as the shortcut takes it |
| `SpecsRoundTrip.ReadId` | thirdparty/fmt/include/fmt/format.h:2699-2730 | an argument id written out in front of a brace or a colon is read back: nothing, a number, a name |
| `SpecsRoundTrip.ParseShow` | thirdparty/fmt/include/fmt/format.h:2878-2925 | specifiers written out in their notation (fill, alignment, sign, alternate form, zero flag, width, precision, type; dynamic counts included) parse as themselves in front of a closing brace |
| `SpecsRoundTrip.LiteralExample` | thirdparty/fmt/include/fmt/format.h:2878-2925 | *^+#010.3f is a star centred, a plus sign, the alternate form, the zero flag, width 10, precision 3 and type f |
| `SpecsRoundTrip.DynamicExample` | thirdparty/fmt/include/fmt/format.h:2878-2925 | <-{w}.{0}e is left alignment, a minus sign, the width named w, the precision at position 0 and type e |
| `SpecsRoundTrip.AnyFill` | thirdparty/fmt/include/fmt/format.h:2793-2835 | the UTF-8 of any code point but an opening brace has a notation as a fill, one to four code units long |
| `SpecsRoundTrip.BraceBecomesFill` | thirdparty/fmt/include/fmt/format.h:2793-2835 | with no specifiers after the colon, an alignment character behind the closing brace turns the brace into a fill character |
| `FormatItems.PlainField` | thirdparty/fmt/include/fmt/format.h:2958-2983 | a field without specifiers that has been written out reports its id and the field, and takes up exactly its text, whatever follows |
| `FormatItems.SpecsField` | thirdparty/fmt/include/fmt/format.h:2958-2983 | a field with specifiers reports its id and then its specifiers, and takes up exactly its text |
| `FormatRoundTrip.ParseItems` | thirdparty/fmt/include/fmt/format.h:2985-3033 | for every list of texts and fields and every handler that collects text: parsing the written-out list is handling its items in order, up to the first error |
| `FormatItems.FormatsItems` | thirdparty/fmt/include/fmt/format.h:3050-3107 | formatting a string written from any list of texts and fields gives the texts and the rendered arguments in order, or the first error; only a field with a colon and nothing after it must not be followed by an alignment character |
| `FormatItems.EscapedText` | thirdparty/fmt/include/fmt/format.h:2985-3033 | text with every brace doubled formats as the text itself, for every text and any arguments |
| `FormatMeaning.NamedIs` | thirdparty/fmt/include/fmt/core.h:1910-1923 | a name leads to the argument at the position stored with the first equal name, and to none if there is no such name or position |
| `FormatMeaning.ArgPicked` | thirdparty/fmt/include/fmt/core.h:593-612 | the argument found for an id is the one it stands for: the automatic one numbered by the automatic ids before it, the one at the position written, or the one named; an error exactly where numbering is mixed or there is no such argument, each with its own error |
| `FormatMeaning.CountTaken` | thirdparty/fmt/include/fmt/format.h:2550-2555 | a dynamic width or precision is the integer argument its id stands for, cut to 64 bits; an error exactly for a missing argument, one that is no integer (bool and char included), a negative one or one above INT_MAX, each with its own error |
| `FormatMeaning.SpecsTaken` | thirdparty/fmt/include/fmt/format.h:2435-2545 | the specifiers handed to the renderer, field by field: the fill written or a blank with the zero flag on its first unit, numeric alignment for the zero flag, sign, alternate form and type as written, width and precision as written, named or defaulted; an error exactly where the argument's type does not take one of them or a count fails |
| `FormatMeaning.FormatsAsMeant` | thirdparty/fmt/include/fmt/format.h:3050-3107 | for every written-out list of texts and fields, arguments, renderer and output: the string formats to that output if and only if its ids are not mixed and the output is the texts and, for each field, the rendering of the argument it stands for with the specifiers written, in order |
| `FormatGrammar.IdRead` | thirdparty/fmt/include/fmt/format.h:2699-2730 | an id that is read is nothing, a number without leading zeros that fits an int, or a name |
| `FormatGrammar.SpecsRead` | thirdparty/fmt/include/fmt/format.h:2878-2925 | specifiers that are read without an error are written in front of where reading stops: fill and alignment, sign, #, 0, width, precision and type, in this order and nothing else |
| `FormatGrammar.FormattedIsWritten` | thirdparty/fmt/include/fmt/format.h:2985-3107 | every string that formats is made of texts with doubled braces and fields of the grammar, and its output is what these items print |
| `FormatCompile.NumberingExcludes` | thirdparty/fmt/include/fmt/core.h:593-612 | over any sequence of argument ids: automatic and manual numbering exclude each other, names go with both, and each automatic id given out is the number of automatic ones before it |
| `FormatCompile.VformatTo` | thirdparty/fmt/include/fmt/compile.h:205-269 | running the parts in a loop is the composition of their outputs, up to the first error |
| `FormatCompile.CountsAgree` | thirdparty/fmt/include/fmt/format.h:3232-3247 | a dynamic width or precision resolved while parsing or from a stored reference is the same number or an error |
| `FormatCompile.SpecsAgree` | thirdparty/fmt/include/fmt/compile.h:248-258 | checking specifiers one by one while parsing is checking the stored ones afterwards, errors included; what they are is stated by FormatMeaning.SpecsTaken |
| `FormatCompile.FieldAgrees` | thirdparty/fmt/include/fmt/compile.h:147-182 | one field: if formatting it directly succeeds, compiling it does and the part produces the same output; if the part can be run, formatting directly succeeds |
| `FormatCompile.Vformat` | thirdparty/fmt/include/fmt/format.h:3050-3107 | direct formatting through the parser yields Formatted, whose output FormatMeaning.FormatsAsMeant and FormatGrammar.FormattedIsWritten settle |
| `FormatCompile.CompileFormatString` | thirdparty/fmt/include/fmt/compile.h:186-192 | compilation through the parser |
| `FormatCompile.CompiledIsDirect` | thirdparty/fmt/include/fmt/compile.h:125-269 | for every string, argument list and renderer: direct formatting succeeds exactly when compiling and running the parts succeeds, and then the outputs are equal |
| `FormatCompile.FormatCompiled` | thirdparty/fmt/include/fmt/compile.h:205-269 | compiling and running in one go gives the output of direct formatting, and an error where that has one |
| `OutputBuffer.TruncatingBuffer.Limit` | thirdparty/fmt/include/fmt/core.h:763-767 | of n more characters, those within the limit are taken and all are counted |
| `OutputBuffer.TruncatingBuffer.Flush` | thirdparty/fmt/include/fmt/format.h:612-616 | what has been written stays the same, and its first characters up to the limit have been passed on |
| `OutputBuffer.TruncatingBuffer.TryReserve` | thirdparty/fmt/include/fmt/core.h:731-733 | nothing is lost, and there is room for one more character whenever more than the capacity is asked for |
| `OutputBuffer.TruncatingBuffer.PushBack` | thirdparty/fmt/include/fmt/core.h:735-738 | one character more is written |
| `OutputBuffer.TruncatingBuffer.Append` | thirdparty/fmt/include/fmt/format.h:598-610 | the text is written, in chunks, and the loop ends because every pass copies something |
| `OutputBuffer.CountingBuffer.Append` | thirdparty/fmt/include/fmt/core.h:834-851 | the count grows by the length of the text |
| `OutputBuffer.FormatToN` | thirdparty/fmt/include/fmt/core.h:2017-2024 | for any sequence of writes: exactly the first min(n, total) characters in order, and the total |
| `OutputBuffer.FormattedSize` | thirdparty/fmt/include/fmt/core.h:2047-2052 | the same total, with nothing passed on |
| `DigitCount.CountDigitsByDivision` | thirdparty/fmt/include/fmt/format.h:928-941 | the division loop counts the decimal digits of any number |
| `DigitCount.BsrTableFits` | thirdparty/fmt/include/fmt/format.h:902-909 | for all 64 bits: the table entry is the digit count or one too many |
| `DigitCount.CountDigits` | thirdparty/fmt/include/fmt/format.h:921-925 | the table lookup counts the decimal digits of every 64-bit number |
| `DecimalText.FormatDecimal` | thirdparty/fmt/include/fmt/format.h:1048-1069 | exactly the digits of the number, no leading zero, ending at the position given; nothing else in the buffer changes |
| `DecimalText.ParseNonNegativeInt` | thirdparty/fmt/include/fmt/format.h:2346-2367 | the loop reads the whole run of digits, or reports a number above INT_MAX, without wrapping |
| `DecimalText.ReadsBack` | thirdparty/fmt/include/fmt/format.h:2346-2367 | what was written is read back up to INT_MAX, and rejected above |
| `Utf8.DecodeExact` | thirdparty/fmt/include/fmt/format-inl.h:2613-2642 | no error is reported exactly for a well-formed sequence or a byte that cannot start one; the code point and the length are then right |
| `Utf8.Utf8ToUtf16` | thirdparty/fmt/include/fmt/format-inl.h:2682-2711 | the result ends in a terminator, and reading the units before it as UTF-16, by a reader that knows nothing of the writer, gives the scalar values the string stands for; for a well-formed string these are the ones whose UTF-8 it is; success exactly for accepted strings |
| `Utf8.ReadBack` | thirdparty/fmt/include/fmt/format-inl.h:2688-2694 | reading the UTF-16 units of any scalar values as pairs of surrogates and single units gives the scalar values back |
| `Utf8.ReadOnce` | thirdparty/fmt/include/fmt/format-inl.h:2688-2694 | units that can be read are the UTF-16 of what is read, so no other units could have been meant |
| `Utf8.TranscodesAccepted` | thirdparty/fmt/include/fmt/format-inl.h:2682-2711 | transcoding succeeds exactly for strings of well-formed sequences and stray bytes |
| `Utf8.WellFormedTranscodes` | thirdparty/fmt/include/fmt/format-inl.h:2682-2711 | a well-formed string is the UTF-8 of some scalar values, and its transcoding is their UTF-16 |
| `Utf8.EncodedIsWellFormed` | thirdparty/fmt/include/fmt/format-inl.h:2682-2711 | the UTF-8 of any scalar values is well-formed and transcodes to their UTF-16 |
| `Utf8.SameScalars` | thirdparty/fmt/include/fmt/format-inl.h:2682-2711 | the scalar values can be read back from their UTF-8: no two sequences of them share it |
| `Utf8.StrayBytesPass` | thirdparty/fmt/include/fmt/format.h:2766-2777 | a byte that cannot start a sequence is not rejected but transcoded as its low seven bits |

## Left out

- FormatFloat.Format: a negative precision (the shortest output of Dragonbox), the `snprintf` fallback and the single-precision decoding are not modelled.
- FallbackFormat.Format: the branch for the shortest output and the `lower` and `upper` integers that only it uses are not modelled, because `format_float` never asks for it.
- Bigints.Bigint.DivmodAssign: stated for quotients below 2^32, which is what every digit step needs; beyond that the borrow loop can go wrong.
- Bigints.Bigint.Square: the inline capacity and the `int` index arithmetic are not modelled; the number of bigits is only bounded by 2^30.
- Grisu.FixedHandler.OnDigit: the digit buffer is a sequence that grows, so writing past a caller's buffer is not captured.
- FormatParse.ParseFormatString: a handler is a value that is threaded through the parser, and an error ends the parsing as an exception does; aliasing between a handler and its parse context is not captured.
- FormatCompile.CompileFormatString: the compiler's state (the parts, the pending argument, the numbering) is such a value too, so updating it in place is not captured.
- FormatSpecs.ParseSpecs: specifiers are parsed first and then applied in the order in which the program reports them, instead of being reported one by one.
- FormatCompile.CompiledIsDirect: arguments of user-defined types are not modelled, rendering one argument is a parameter, and a missing argument in compiled parts is an error (the program asserts).
- FormatMeaning.FormatsAsMeant: acceptance is stated for the usual notation, with letters as types and numbers without leading zeros; of other strings `FormatGrammar.FormattedIsWritten` says what they print if they format.  Which error a whole string reports is stated for the look-up of arguments and counts (`FormatMeaning.ArgPicked`, `CountTaken`), not for the type checks.
- OutputBuffer.FormatToN: `size_t` wrap-around of the counts is not modelled.
- Utf8.Utf8ToUtf16: the bit operations of the decoder are written as arithmetic on disjoint bit fields.
- `dragonbox::to_decimal`, its caches and its logarithm approximations.
- Part counting and compile-time part arrays of `compile.h`, and its `constexpr` compiler.
- Locale-aware output, `printf`, `chrono`, ranges, colours, files and system errors of {fmt}.
- Growth and allocation of memory buffers; `tl::expected`.
- The asynchronous library itself (channels, tasks, reactors, networking): its headers are not part of this model.
