# A verified model of the logging stack's core

The repository ships a copy of spdlog with the fmt library bundled. This project models the
parts of it that carry real algorithms, and proves what they promise.

**Printing floating-point numbers.** `Bigint.dfy` holds fmt's big integers as a class over
32-bit bigits with an exponent, each operation proved against the number the bigits denote
(`Bigits.dfy`, `BigitLemmas.dfy`, `BigintLemmas.dfy`). `DigitSpec.dfy` says what the best
decimal is, `DigitLoop.dfy` proves the Steele-White loop against it, and
`RoundingInterval.dfy` and `FallbackFormat.dfy` carry the result to doubles: shortest, and
closest among the shortest. `Grisu.dfy`, `GrisuShortest.dfy` and `GrisuFixed.dfy` prove the
64-bit digit generator with both handlers. `FormatFloat.dfy` joins the two into the shortest
output of every double, `FormatPrecision.dfy` does the same for output with a precision, and
`WriteDouble.dfy` and `FloatWriter.dfy` prove that the text reads back as the double written,
and when it does not, and what it looks like. `WritePrecision.dfy` does so for the
presentation types, and `DoubleNotation.dfy` says which doubles are written with an exponent.
`MisprintedPower.dfy` and `MisroundedDouble.dfy` each follow a double that is printed wrongly.
`Integers.dfy` and `Decimals.dfy` are the integer printers and the integer parser.

**The asynchronous pipeline.** `CircularQueue.dfy` is the ring buffer as a class, proved to be
a bounded queue that drops its oldest item, and the ring buffer sink on it.
`BlockingQueue.dfy` is a transition system over threads that run, sleep, are woken or owe a
notification, proved free of lost wake-ups, with the three queue methods tied to its steps.
`ThreadPool.dfy` adds workers, posting threads that hold references, and the destructor, and
proves that shutdown completes and accounts for every message; `LivePool.dfy` proves that a
running pool processes what is posted, and that every pool can come to its end.

**Format strings.** `BraceSearch.dfy` proves the two searches for braces equal,
`FormatParse.dfy` is the grammar of replacement fields, `FormatCompile.dfy` proves that
compiling a format string and replaying its parts gives what direct formatting gives.
`SpecSpelling.dfy` spells out fields and proves that they are read back, and
`FormatMeaning.dfy` proves what a whole format string of texts and fields prints.
`PartCount.dfy` says exactly when the parts are counted correctly. How one argument is printed
under given specifications is a parameter.

**Smaller pieces.** `Utf.dfy` is the branchless UTF-8 decoder and the UTF-16 transcoder,
`RotatingSink.dfy` the rotating file sink over a map from names to contents.

`Powers.dfy` and `RealPowers.dfy` are shared arithmetic, `Wrappers.dfy` shared types.
`dafny verify dfyconfig.toml` checks the whole project.

## How to read the results

The main theorems are about all inputs or all reachable states:
`FormatFloat.FormatShortest`, `WriteDouble.Write`, `FormatPrecision.FormatPrecision`,
`FallbackFormat.FallbackFormat`, `GrisuShortest.GenerateShortest`, `GrisuFixed.GenerateFixed`,
`FloatWriter.LayoutReadsBack`, `WritePrecision.Write`, `LivePool.QuietRunDrains`,
`LivePool.EveryPoolEnds`, `ThreadPool.ShutdownIsComplete`, `ThreadPool.ShutdownEndsOrGoesOn`,
`BlockingQueue.RunKeeps`, `FormatMeaning.FormatsAsSpelled`, `FormatCompile.CompiledAgrees`,
`PartCount.CountIsPartsEmitted`, `BraceSearch.ParseFormatString`, `Utf.Utf8ToUtf16`,
`RotatingSink.RotatingFileSink.SinkIt`.

Modelling decisions:

- Code that updates state is modelled as classes and methods with loops, code made of
  expressions as functions. A method's contract gives the meaning of its result or ties it to
  a specification function, about which the lemmas speak.
- 64-bit quantities have the type `U64`, so every assignment carries a proof that nothing
  wraps; where the code does wrap, the reduction is written out.
- A double is its bit pattern. Its rounding interval is defined from the neighbouring bit
  patterns, not from the algorithm, and decimals are reals `d * 10^e`.
- A block protected by the mutex is one step; notifying is a step of its own; a wait can time
  out at any point, and a notified thread competes for the mutex with all others.
- Exceptions are results. An error ends a call, except in the part counter, whose handler
  returns: there the search goes on as the source does.
- Removing and renaming files may fail at any time.

## Where the code does not do what it says

Each of these is proved in the model, with the exact condition or a concrete input.

- `fallback_format` shifts the denominator by one bit where the numerator was shifted by two,
  for powers of two from 2^52 on (format-inl.h:1015-1022). Its output then stands for
  about twice the value and never rounds to it. Grisu usually answers first, but for 2^81 it
  cannot, so 2^81 is misprinted (`MisprintedPower.FormatTwoTo81`).
- The lower halfway point of an even significand is missed when the big integers that are
  compared have different exponents, because `compare` is not exact for equal values
  (format-inl.h:646-661); the answer can then be longer than necessary
  (`FallbackFormat.BoundaryCaseIsMissed`).
- `divmod_assign` answers 0 for equal values if the dividend has the larger exponent, and
  `subtract_aligned` does not advance its index in the last loop (format-inl.h:564-565). The
  digit loop never gets there; the contracts say when others would.
- The fixed handler's error wraps around 2^64 after nineteen fractional digits and is zero from
  sixty-four on, where the digits of the 64-bit approximation are printed as if they were
  exact. Large doubles in fixed notation are misprinted, such as 10^80
  (`MisroundedDouble.FormatTenTo80`); `FormatPrecision.FormatPrecision` says when.
- Compiled formats print nothing for a missing argument where direct formatting reports an
  error (compile.h:194-201, `FormatCompile.MissingArgumentDiffers`).
- The part counter ends a specification of type `{` at the wrong brace, so it counts too few
  parts unless that field is the last (`PartCount.CountIsPartsEmitted`,
  `PartCount.MiscountedString`).
- A queue of capacity 0 makes the thread pool's destructor wait forever; a capacity of the
  largest `size_t` silently disables the queue.
- The rotating sink does not reset its recorded size after rotating on open, so it can rotate
  early, and with `max_files` 0 each rotation throws the data away.

## Model

| member | source | states |
|---|---|---|
| `BigInteger.Accumulator.Add` | Depends/Logger/Include/spdlog/fmt/bundled/format-inl.h:515-518 | adds a 64-bit number to a 128-bit one: exact unless 2^128 is reached, and then reduced by 2^128, whatever the carry out of the low word |
| `BigInteger.Accumulator.ShiftRight32` | Depends/Logger/Include/spdlog/fmt/bundled/format-inl.h:519-524 | for the one shift used, 32: division of the 128-bit number by 2^32, rounding down |
| `BigInteger.Bigint.Assign` | Depends/Logger/Include/spdlog/fmt/bundled/format-inl.h:613-621 | any 64-bit number, in normal form (no top zero bigit) and with exponent 0 |
| `BigInteger.Bigint.SubtractBigits` | Depends/Logger/Include/spdlog/fmt/bundled/format-inl.h:544-548 | one column of a subtraction: the bigit and the borrow out account for the difference exactly |
| `BigInteger.Bigint.RemoveLeadingZeros` | Depends/Logger/Include/spdlog/fmt/bundled/format-inl.h:550-555 | restores the normal form and keeps the number |
| `BigInteger.Bigint.SubtractAligned` | Depends/Logger/Include/spdlog/fmt/bundled/format-inl.h:557-567 | the exact difference, except when a borrow leaves the subtrahend and the next bigit is zero; then the result is off by (2^32 - 1) * 2^(32 * bigits of the subtrahend), because the final loop never advances. The exceptional condition is a predicate on the operands, so the two clauses say exactly when the code is right |
| `BigInteger.Bigint.Multiply32` | Depends/Logger/Include/spdlog/fmt/bundled/format-inl.h:569-578 | exact multiplication by a positive 32-bit number; every 64-bit sum of product and carry stays below 2^64 |
| `BigInteger.Bigint.Multiply64` | Depends/Logger/Include/spdlog/fmt/bundled/format-inl.h:580-595 | exact multiplication by a positive 64-bit number from two 32-bit halves, the 64-bit carry never overflowing |
| `BigInteger.Bigint.ShiftLeft` | Depends/Logger/Include/spdlog/fmt/bundled/format-inl.h:625-638 | exact multiplication by 2^shift, whole bigits going to the exponent |
| `BigInteger.Bigint.AlignTo` | Depends/Logger/Include/spdlog/fmt/bundled/format-inl.h:744-751 | moves bigits up under a smaller exponent without changing the number |
| `BigInteger.Bigint.Square` | Depends/Logger/Include/spdlog/fmt/bundled/format-inl.h:706-734 | exactly the square: both column loops together visit each index pair of every column once, and no column sum overflows the accumulator |
| `BigInteger.Bigint.StoreColumn` | Depends/Logger/Include/spdlog/fmt/bundled/format-inl.h:714-731 | invariant of the squaring loops: columns stored plus accumulator times their weight is the convolution so far |
| `BigInteger.AddPairs` | Depends/Logger/Include/spdlog/fmt/bundled/format-inl.h:714-731 | a column adds exactly the products of index pairs with that index sum, in either loop |
| `BigitLemmas.ConvolutionIsSquare` | Depends/Logger/Include/spdlog/fmt/bundled/format-inl.h:706-734 | summing all weighted columns gives the square of the number |
| `BigInteger.Bigint.AssignPow10` | Depends/Logger/Include/spdlog/fmt/bundled/format-inl.h:687-704 | exactly 10^exp for every exponent from 0 to the limit of the 32-bit bigit count (2^30), from 5^exp by binary squaring and one shift |
| `BigInteger.Bigint.AssignPow5` | Depends/Logger/Include/spdlog/fmt/bundled/format-inl.h:694-702 | the squaring loop over the bits of the exponent gives 5^exp |
| `BigInteger.Compare` | Depends/Logger/Include/spdlog/fmt/bundled/format-inl.h:646-661 | for normal operands: the sign of the difference of their bigit counts if these differ, and otherwise, and whenever no zero operand has too large an exponent, the sign of the difference, or for equal values the sign of the difference of the exponents, so zero only for equal values with equal exponents |
| `BigInteger.AddCompare` | Depends/Logger/Include/spdlog/fmt/bundled/format-inl.h:663-684 | for normal operands, the right-hand side positive, exactly the sign of lhs1 + lhs2 - rhs, through all three early exits |
| `BigInteger.AddCompareBigits` | Depends/Logger/Include/spdlog/fmt/bundled/format-inl.h:671-684 | the bigit loop alone decides the sign of lhs1 + lhs2 - rhs without forming the sum, leaving as soon as the gap exceeds one |
| `BigintLemmas.NoStall` | Depends/Logger/Include/spdlog/fmt/bundled/format-inl.h:738-758 | when the quotient is below 2^31 the number has at most one bigit more than the divisor and the borrow never stalls, so every subtraction of the division is exact |
| `BigInteger.Bigint.DivmodAssign` | Depends/Logger/Include/spdlog/fmt/bundled/format-inl.h:738-758 | quotient and remainder whenever the quotient is below 2^31, except for equal values with a larger exponent on the left, where the answer is 0 and nothing changes; the subtraction loop terminates |
| `Floating.Neighbours` | Depends/Logger/Include/spdlog/fmt/bundled/format-inl.h:392-413 | the decoded exponent is the distance to the next double, and the returned flag says exactly when the distance to the previous one is half of it |
| `Floating.Normalize` | Depends/Logger/Include/spdlog/fmt/bundled/format-inl.h:451-464 | the same number with bit 63 set, subnormals included |
| `Floating.MultiplyRounds` | Depends/Logger/Include/spdlog/fmt/bundled/format-inl.h:469-484 | the 128-bit form and the form from 32-bit halves agree on all inputs, and both are the product over 2^64 rounded to nearest, ties up, without overflow |
| `DigitSpec.ChoiceIsBest` | Depends/Logger/Include/spdlog/fmt/bundled/format-inl.h:1044-1063 | the low/high/compare decision yields, among all decimals with the fewest places in the interval, the nearest one, ties to even |
| `DigitLoop.GenerateDigits` | Depends/Logger/Include/spdlog/fmt/bundled/format-inl.h:1038-1064 | the digit loop over big integers terminates and spells the best candidate; every character is a digit, also after the final increment, if the interval ends before the next power of ten |
| `FallbackFormat.SetUp` | Depends/Logger/Include/spdlog/fmt/bundled/format-inl.h:1003-1037 | the four big integers of all three branches are the scaled value, denominator and margins of the double |
| `FallbackFormat.FallbackFormat` | Depends/Logger/Include/spdlog/fmt/bundled/format-inl.h:990-1065 | for every positive double and every large enough starting exponent: outside the misscaled branch the digits are the shortest decimal in the rounding interval, the lower halfway point counted where it is recognised, and the closest to the value among those; counting that point as rounding half to even does, they are so if and only if it is recognised, or u is odd, or it is no shorter decimal; with a correct exponent the first digit is not zero and there are at most 17; inside the misscaled branch the digits never denote a number that rounds to the double |
| `FallbackFormat.ShortestUnlessBoundary` | Depends/Logger/Include/spdlog/fmt/bundled/format-inl.h:1042-1044 | an answer found without recognising the lower halfway point is shortest and closest with it, if and only if the double is odd or has no such point that is a decimal coarser than all those inside the interval: a condition on the double alone |
| `FallbackFormat.BoundaryCaseIsMissed` | Depends/Logger/Include/spdlog/fmt/bundled/format-inl.h:1042-1044 | the double 8344650268554688 * 2^33, which 7168 * 10^22 reads back as, is one with such a point and gets a longer answer |
| `FallbackFormat.MisscaledIsReached` | Depends/Logger/Include/spdlog/fmt/bundled/format-inl.h:1015-1022 | 2^52 takes the branch whose denominator lacks a bit |
| `FallbackFormat.MisscaledIsWrong` | Depends/Logger/Include/spdlog/fmt/bundled/format-inl.h:1015-1022 | in that branch no decimal of the interval generated rounds to the double |
| `FallbackFormat.SeventeenDigits` | Depends/Logger/Include/spdlog/fmt/bundled/format-inl.h:1038-1064 | a shortest decimal without a leading zero has at most 17 digits, for every double |
| `RoundingInterval.BestIsShortest` | Depends/Logger/Include/spdlog/fmt/bundled/format-inl.h:985-988 | the best scaled candidate is shortest and closest among all decimals d * 10^e, for reals and integer exponents of either sign |
| `Grisu.IntegralTurn` | Depends/Logger/Include/spdlog/fmt/bundled/format-inl.h:826-875 | one turn of the integral loop: digits times weight plus remainder stays the value, and the shifted 64-bit products fit |
| `Grisu.FractionStep` | Depends/Logger/Include/spdlog/fmt/bundled/format-inl.h:876-887 | one turn of the fractional loop keeps the same sum, in units ten times finer |
| `GrisuShortest.ShortestHandler.Round` | Depends/Logger/Include/spdlog/fmt/bundled/format-inl.h:956-963 | decrements never take the last digit below 0, keep digits plus remainder, and stop at the first remainder that another step would not bring closer to the target, or would take beyond the error |
| `GrisuShortest.ShortestHandler.OnDigit` | Depends/Logger/Include/spdlog/fmt/bundled/format-inl.h:967-981 | goes on exactly while the remainder is not below the error; reports done only for a remainder that is certain, with no 64-bit product overflowing and the table of powers of ten indexed in range |
| `GrisuShortest.Settle` | Depends/Logger/Include/spdlog/fmt/bundled/format-inl.h:973-980 | the final test: an accepted answer is at least two units inside both ends and not beaten from the far end of the uncertainty, the unsigned subtraction wrapping included, and where it does not wrap every such answer is accepted |
| `GrisuShortest.CertainIsClosest` | Depends/Logger/Include/spdlog/fmt/bundled/format-inl.h:967-981 | a certain remainder is at least as near as any other candidate to every number the scaled value may stand for |
| `GrisuShortest.SettledIsShortest` | Depends/Logger/Include/spdlog/fmt/bundled/format-inl.h:967-981 | a settled digit string is well inside the region, none with fewer places is in the region, and it is closest |
| `GrisuShortest.CandidateIsUnique` | Depends/Logger/Include/spdlog/fmt/bundled/format-inl.h:956-981 | for each value, error and uncertainty there is at most one candidate: the place is the first one with a decimal in the region, and the rounding loop leaves one number there |
| `GrisuShortest.GenerateShortest` | Depends/Logger/Include/spdlog/fmt/bundled/format-inl.h:809-889 | for every value, scale and error: terminates, produces digits from the leading place down without a leading zero; done means shortest in the region and closest, and an error is reported if and only if the candidate is not safely inside, for errors of at least four units, the only ones the formatter passes |
| `GrisuFixed.GetRoundDirection` | Depends/Logger/Include/spdlog/fmt/bundled/format-inl.h:767-781 | down if and only if 2 * (remainder + error) <= divisor, up if and only if not and 2 * (remainder - error) >= divisor, computed without overflow |
| `GrisuFixed.RippleCarry` | Depends/Logger/Include/spdlog/fmt/bundled/format-inl.h:931-939 | adds exactly one to the number in the buffer; all nines gain a digit |
| `GrisuFixed.FixedHandler.OnStart` | Depends/Logger/Include/spdlog/fmt/bundled/format-inl.h:898-913 | when the precision leaves no digit to generate: nothing, or one digit rounded when that is settled |
| `GrisuFixed.FixedHandler.OnDigit` | Depends/Logger/Include/spdlog/fmt/bundled/format-inl.h:915-941 | goes on until the requested size, then rounds exactly when the error leaves no doubt |
| `GrisuFixed.GenerateFixed` | Depends/Logger/Include/spdlog/fmt/bundled/format-inl.h:809-889 | for every request: success is reported exactly when rounding at the requested place is settled; the digits are then the value rounded to that place, ties down, and nearest to every number within the error if and only if that place is at most nineteen after the point |
| `GrisuFixed.SettledIsNearest` | Depends/Logger/Include/spdlog/fmt/bundled/format-inl.h:915-941 | a settled direction is right for every real within the error |
| `GrisuFixed.TooManyDigits` | Depends/Logger/Include/spdlog/fmt/bundled/format-inl.h:915-941 | beyond nineteen places no digit string is nearest for the whole error interval |
| `GrisuFixed.SettledIsRounded` | Depends/Logger/Include/spdlog/fmt/bundled/format-inl.h:915-941 | whatever the tracked error has become, a settled direction is the one in which the scaled value itself rounds |
| `GrisuFixed.ErrorVanishes` | Depends/Logger/Include/spdlog/fmt/bundled/format-inl.h:876-887 | from sixty-four places on the 64-bit error is zero, and every direction settles |
| `GrisuFixed.NothingRemains` | Depends/Logger/Include/spdlog/fmt/bundled/format-inl.h:876-887 | from sixty places on the digits are the scaled value exactly, for every scale of at most 2^60 |
| `GrisuFixed.WrappedErrorIsReported` | Depends/Logger/Include/spdlog/fmt/bundled/format-inl.h:876-887 | so from sixty-four places on rounding is reported as settled for every value and scale, although no digits are right for the whole error interval |
| `FormatFloat.AssignWithBoundaries` | Depends/Logger/Include/spdlog/fmt/bundled/format-inl.h:425-433 | both halfway points as integers at the exponent of the normalized value, exactly, the upper one normalized; 512 units or more apart from the value |
| `FormatFloat.ProductIsNear` | Depends/Logger/Include/spdlog/fmt/bundled/format-inl.h:469-486 | multiplying a normalized significand by a cached power leaves an error below one unit: half from the power, half from the rounding |
| `FormatFloat.PreparedBrackets` | Depends/Logger/Include/spdlog/fmt/bundled/format-inl.h:1096-1108 | after the decrement and the increment the two integers enclose the scaled rounding interval strictly |
| `FormatFloat.ShortestTransfers` | Depends/Logger/Include/spdlog/fmt/bundled/format-inl.h:1109-1120 | an answer that is shortest in the integer region is, for the double itself, the shortest decimal that rounds to it and the closest of those |
| `FormatFloat.StartingExponent` | Depends/Logger/Include/spdlog/fmt/bundled/format-inl.h:1114-1117 | the exponent handed to the exact formatter puts the next power of ten beyond the rounding interval, and this one before its end whenever the upper bound exceeds that power by two units |
| `FormatFloat.CertainOutput` | Depends/Logger/Include/spdlog/fmt/bundled/format-inl.h:1109-1120 | an answer of Grisu is, for the double, shortest and closest whether or not the halfway points count, without a leading zero and with at most 17 digits |
| `FormatFloat.FormatShortest` | Depends/Logger/Include/spdlog/fmt/bundled/format-inl.h:1071-1120 | shortest output of every finite double, by a condition on the double and the table: if Grisu does not give up, the shortest decimal in the rounding interval and closest to the value; if it does, the same with the lower halfway point counted where it is recognised, and with it always, if and only if that point is no shorter decimal; in the misscaled branch a number that does not round to the double; giving up means that the one candidate for the integers prepared for the double is not safely inside |
| `MisprintedPower.CandidateIsNotCertain` | Depends/Logger/Include/spdlog/fmt/bundled/format-inl.h:967-981 | the candidate for 2^81 is 24178516392292584 at the twelfth place, no coarser decimal being in the region, and it is not safely inside |
| `MisprintedPower.GivesUpOnTwoTo81` | Depends/Logger/Include/spdlog/fmt/bundled/format-inl.h:1096-1113 | so Grisu gives up on 2^81, with the table entry for 10^-20 |
| `MisprintedPower.FormatTwoTo81` | Depends/Logger/Include/spdlog/fmt/bundled/format-inl.h:1071-1120 | with the table entry for 10^-20, the digits printed for 2^81 do not round to 2^81 |
| `FormatPrecision.NearestTransfers` | Depends/Logger/Include/spdlog/fmt/bundled/format-inl.h:1121-1139 | a digit string nearest for the scaled value is a nearest multiple of the last digit's weight to the double itself |
| `FormatPrecision.RemoveTrailingZeros` | Depends/Logger/Include/spdlog/fmt/bundled/format-inl.h:1131-1137 | the loop strips exactly the trailing zeros, and the exponent makes up for them |
| `FormatPrecision.NearestUnlessSeparated` | Depends/Logger/Include/spdlog/fmt/bundled/format-inl.h:915-941 | the approximation rounded to a place is a nearest multiple of that place to the double if and only if no halfway point separates the two |
| `FormatPrecision.ExactFromSixty` | Depends/Logger/Include/spdlog/fmt/bundled/format-inl.h:876-887 | from sixty scaled places on the digits are the 64-bit approximation itself |
| `FormatPrecision.FormatPrecision` | Depends/Logger/Include/spdlog/fmt/bundled/format-inl.h:1071-1139 | output with a precision: the requested last place, for fixed notation relative to the point and otherwise to the first digit; the C library is asked if and only if more than 17 digits are, or rounding the approximation is not settled, which it always is from sixty-four scaled places on; otherwise the digits are the approximation rounded to that place, and a nearest multiple to the double if and only if no halfway point separates double and approximation: never up to nineteen scaled places, and from sixty on exactly if the approximation is at most half a unit of the last place away; in fixed notation they end exactly at the requested place, trailing zeros included, and there are none only if the first would be beyond it, otherwise none of them is a trailing zero; and zero, with as many digits as asked for |
| `FormatPrecision.FormOf` | Depends/Logger/Include/spdlog/fmt/bundled/format-inl.h:1126-1138 | where the digit string ends: in fixed notation at the requested place, trailing zeros and all, or it is empty because the first digit would be beyond that place; otherwise trailing zeros are gone and there are no more digits than requested, not even after a carry; no leading zero, unless zero is the only digit |
| `FormatPrecision.StrippedForm` | Depends/Logger/Include/spdlog/fmt/bundled/format-inl.h:1131-1137 | what is left without trailing zeros is not empty and keeps its first digit, and a carry that adds a digit leaves only that one |
| `MisroundedDouble.FormatTenTo80` | Depends/Logger/Include/spdlog/fmt/bundled/format-inl.h:1121-1139 | with the table entry for 10^-76, fixed notation and any precision up to 17, the digits for the double 10^80 are not nearest to it |
| `WriteDouble.RoundingIsUnique` | Depends/Logger/Include/spdlog/fmt/bundled/format-inl.h:392-413 | no real rounds, ties to even, to two different doubles |
| `WriteDouble.FormatDigits` | Depends/Logger/Include/spdlog/fmt/bundled/format-inl.h:1071-1120 | the digits and exponent of a finite double denote a number that rounds to it, zero for zero, if and only if the double is not a power of two from 2^52 on that Grisu gives up on |
| `WriteDouble.Write` | Depends/Logger/Include/spdlog/fmt/bundled/format.h:1682-1703 | the text of a finite double is a minus sign for a negative one and a number that reads back, rounding ties to even, as exactly the double written, if and only if it is not such a power of two; otherwise it shows the shortest digits, with an exponent if and only if the first of them is at a place outside [-4, 16), and otherwise with the point where it belongs |
| `DoubleNotation.UsesExponent` | Depends/Logger/Include/spdlog/fmt/bundled/format.h:1199-1204 | a condition on the double alone: its text has an e if and only if it is below the double nearest to 10^-4 or at least 10^16, for every double that is not misprinted and, where the exact formatter answers, is clear of a power of ten |
| `DoubleNotation.ReachesTogether` | Depends/Logger/Include/spdlog/fmt/bundled/format.h:1199-1204 | the shortest decimal for a double reaches a power of ten exactly if the double is not below the one nearest to that power |
| `WritePrecision.Write` | Depends/Logger/Include/spdlog/fmt/bundled/format.h:1632-1673 | a finite double under a presentation type or a precision: the sign asked for, then the rounded digits; with e and f exactly the wanted number of digits after the point, which is left out only if there are none and the alternate form is not asked for, and the type itself as the letter of the exponent or none; with g or no type an exponent if and only if the first digit is outside [-4, precision), and zeros filling up the precision only if asked for; the C library is asked exactly if the rounding is not settled or more than 17 digits are wanted, and one precision is too big |
| `WritePrecision.FollowsFromLayout` | Depends/Logger/Include/spdlog/fmt/bundled/format.h:1260-1300 | the flags set for each presentation type lead to the notation and the number of digits that the type stands for |
| `FloatWriter.WriteExponent` | Depends/Logger/Include/spdlog/fmt/bundled/format.h:1090-1108 | sign and at least two digits, up to four, for exponents below 10000 |
| `FloatWriter.ExponentReads` | Depends/Logger/Include/spdlog/fmt/bundled/format.h:1090-1108 | those characters read back as the exponent |
| `FloatWriter.LayoutIs` | Depends/Logger/Include/spdlog/fmt/bundled/format.h:1120-1189 | in all four layouts, for all precisions and flags, the digits before and after the point and the exponent stand for digits * 10^exp, zeros added or removed included |
| `FloatWriter.RenderReads` | Depends/Logger/Include/spdlog/fmt/bundled/format.h:1120-1189 | text of such pieces is read by an independent reader of decimal numbers as the number they stand for |
| `FloatWriter.LayoutReadsBack` | Depends/Logger/Include/spdlog/fmt/bundled/format.h:1120-1189 | hence every text written reads back as digits * 10^exp |
| `FloatWriter.StrippedValue` | Depends/Logger/Include/spdlog/fmt/bundled/format.h:1155-1163 | dropping trailing zeros divides by the matching power of ten |
| `FloatWriter.SameNumberIsEqual` | Depends/Logger/Include/spdlog/fmt/bundled/format.h:1120-1189 | the comparison of decimals used in reading back is equality of the real numbers |
| `FloatWriter.LayoutLooks` | Depends/Logger/Include/spdlog/fmt/bundled/format.h:1120-1207 | the look of the text for the specifications as given: an e or E, in the case asked for, if and only if the format is the exponent format, or the general one and the first digit is at a place outside [-4, precision); the point after the right digit; and as many digits after it as the specifications want, or, where they leave it open, none that is a trailing zero |
| `FloatWriter.Writer.constructor` | Depends/Logger/Include/spdlog/fmt/bundled/format.h:1192-1207 | the text to be written looks so and reads back as the digits times the power of ten, and the size is its length |
| `FloatWriter.Writer.Prettify` | Depends/Logger/Include/spdlog/fmt/bundled/format.h:1120-1189 | the writer emits exactly the layout chosen by format, exponent and digit count |
| `FloatWriter.Writer.Write` | Depends/Logger/Include/spdlog/fmt/bundled/format.h:1209-1214 | the sign and the text are appended, and size() is their length |
| `FloatWriter.WriterReadsBack` | Depends/Logger/Include/spdlog/fmt/bundled/format.h:1209-1214 | what a writer without a sign writes reads back as its digits times the power of ten |
| `Integers.CountDigits` | Depends/Logger/Include/spdlog/fmt/bundled/format.h:787-792 | leading zeros and a table of 20 powers give the number of decimal digits of every 64-bit number, 0 included |
| `Integers.CountDigitsLoop` | Depends/Logger/Include/spdlog/fmt/bundled/format.h:795-808 | so does the loop dividing by 10000, for every number |
| `Integers.FormatDecimal` | Depends/Logger/Include/spdlog/fmt/bundled/format.h:906-927 | writes exactly the decimal digits at the end of the given space, two at a time from the right, and nothing outside it |
| `Integers.FormatInt.Unsigned` | Depends/Logger/Include/spdlog/fmt/bundled/format.h:3030-3033 | the text of every unsigned 64-bit number, inside the buffer |
| `Integers.FormatInt.SignedValue` | Depends/Logger/Include/spdlog/fmt/bundled/format.h:3035-3042 | the text of every signed number of any width up to 64 bits, the minimum included, inside the buffer |
| `Decimals.DecimalReadsBack` | Depends/Logger/Include/spdlog/fmt/bundled/format.h:906-927 | the digits read back as the number, without a leading zero |
| `Decimals.ReadingIsDecimal` | Depends/Logger/Include/spdlog/fmt/bundled/format.h:906-927 | conversely every digit string without a leading zero is the text of its value |
| `Integers.ParseNonnegativeInt` | Depends/Logger/Include/spdlog/fmt/bundled/format.h:2017-2036 | the value of the whole run of digits, or an error if and only if it exceeds 2147483647, for runs of any length; the overflow test before each step is early enough |
| `Integers.ParsingUndoesPrinting` | Depends/Logger/Include/spdlog/fmt/bundled/format.h:2017-2036 | parsing the text of a number up to that limit, followed by anything but a digit, gives the number and stops after it |
| `CircularQueues.CircularQueue.constructor` | Depends/Logger/Include/spdlog/details/circular_q.h:27-30 | an empty queue of the given capacity; the largest size_t wraps to a disabled queue |
| `CircularQueues.CircularQueue.PushBack` | Depends/Logger/Include/spdlog/details/circular_q.h:49-62 | appends, and drops the oldest item when full: the contents are those of a bounded queue across any wrap-around, and the log of pushes and fates grows accordingly; a disabled queue ignores it |
| `CircularQueues.CircularQueue.Front` | Depends/Logger/Include/spdlog/details/circular_q.h:66-74 | the oldest item held |
| `CircularQueues.CircularQueue.Size` | Depends/Logger/Include/spdlog/details/circular_q.h:77-87 | the distance from head to tail around the ring |
| `CircularQueues.CircularQueue.At` | Depends/Logger/Include/spdlog/details/circular_q.h:91-95 | the i-th oldest item, although head + i is computed in 64 bits |
| `CircularQueues.CircularQueue.PopFront` | Depends/Logger/Include/spdlog/details/circular_q.h:99-102 | removes the oldest item |
| `CircularQueues.CircularQueue.Empty` | Depends/Logger/Include/spdlog/details/circular_q.h:104-107 | true if and only if nothing is held |
| `CircularQueues.CircularQueue.Full` | Depends/Logger/Include/spdlog/details/circular_q.h:109-117 | true if and only if an enabled queue holds its capacity |
| `CircularQueues.CircularQueue.CopyMoveable` | Depends/Logger/Include/spdlog/details/circular_q.h:126-138 | the target takes over contents, capacity and counter; the source is left disabled and empty |
| `CircularQueues.WindowAfterPush` | Depends/Logger/Include/spdlog/details/circular_q.h:49-62 | storing at the tail and moving head and tail as the code does shows the same window as dropping the oldest and appending |
| `CircularQueues.PushAccounted` | Depends/Logger/Include/spdlog/details/circular_q.h:49-62 | what was pushed is, in order, what was popped or dropped followed by what is held, and the counter is the number of drops modulo 2^64 |
| `CircularQueues.PopAccounted` | Depends/Logger/Include/spdlog/details/circular_q.h:99-102 | the same after a pop |
| `CircularQueues.RingbufferSink.SinkIt` | Depends/Logger/Include/spdlog/sinks/ringbuffer_sink.h:59-62 | logs a message into the ring |
| `CircularQueues.RingbufferSink.LastRaw` | Depends/Logger/Include/spdlog/sinks/ringbuffer_sink.h:28-40 | the newest min(lim, capacity) messages of everything ever logged, in order, or all held when lim is 0 |
| `CircularQueues.NewestKept` | Depends/Logger/Include/spdlog/sinks/ringbuffer_sink.h:59-62 | keeping the newest items of a history is what a bounded queue that drops its oldest does |
| `BlockingQueue.StepKeeps` | Depends/Logger/Include/spdlog/details/mpmc_blocking_q.h:32-67 | no lost wake-up, as an invariant of every step: while a producer sleeps, free slots never exceed the producers that are awake or owed a notification, and symmetrically for consumers and items |
| `BlockingQueue.RunKeeps` | Depends/Logger/Include/spdlog/details/mpmc_blocking_q.h:32-67 | so it holds in every reachable state, with barging, early notifications and time-outs at any point |
| `BlockingQueue.SleepersAreServed` | Depends/Logger/Include/spdlog/details/mpmc_blocking_q.h:36-36 | a sleeping producer with a free slot, or a sleeping consumer with an item, has another thread on its way to use it or to wake it |
| `BlockingQueue.NotifyingUnderTheMutexKeeps` | Depends/Logger/Include/spdlog/details/mpmc_blocking_q.h:69-103 | the variant that notifies before unlocking keeps it too |
| `BlockingQueue.WaitForItemEnds` | Depends/Logger/Include/spdlog/details/mpmc_blocking_q.h:54-67 | a wait for an item that ends by itself: the oldest item is taken if there is one; if not, a time-out makes the pop give up and a spurious wake-up lets it sleep again |
| `BlockingQueue.WaitForRoomEnds` | Depends/Logger/Include/spdlog/details/mpmc_blocking_q.h:32-40 | a wait for room that ends by itself: the item is stored if there is room, and otherwise the push sleeps again |
| `BlockingQueue.MpmcBlockingQueue.Enqueue` | Depends/Logger/Include/spdlog/details/mpmc_blocking_q.h:32-40 | the critical section of a blocking push on the ring is the abstract step: store and owe a notification, or go to sleep |
| `BlockingQueue.MpmcBlockingQueue.EnqueueNowait` | Depends/Logger/Include/spdlog/details/mpmc_blocking_q.h:43-50 | the same for the overrunning push |
| `BlockingQueue.MpmcBlockingQueue.Dequeue` | Depends/Logger/Include/spdlog/details/mpmc_blocking_q.h:54-67 | the same for a pop: take the oldest item and owe a notification, sleep, or give up on a time-out |
| `ThreadPool.PoolStart` | Depends/Logger/Include/spdlog/details/thread_pool-inl.h:16-31 | a new pool satisfies the invariant |
| `ThreadPool.PoolStepKeeps` | Depends/Logger/Include/spdlog/details/thread_pool-inl.h:38-121 | every step of every thread keeps the pool invariant: roles, references held by posts, terminate messages last and never overrun, and each message taken being processed or in exactly one hand |
| `ThreadPool.PoolRunKeeps` | Depends/Logger/Include/spdlog/details/thread_pool-inl.h:38-121 | so it holds after every legal run |
| `ThreadPool.ShutdownIsComplete` | Depends/Logger/Include/spdlog/details/thread_pool-inl.h:38-53 | when all workers have exited the queue is empty, each of the N terminates was posted and taken once and none overrun, and as multisets the messages posted are those processed plus those overrun |
| `ThreadPool.ShutdownMoves` | Depends/Logger/Include/spdlog/details/thread_pool-inl.h:38-53 | with capacity at least 1, while a worker is left in a shutdown some thread can step without waiting for a time-out: no deadlock |
| `ThreadPool.ShutdownAdvances` | Depends/Logger/Include/spdlog/details/thread_pool-inl.h:38-121 | every step of a shutdown other than a wake-up lowers a measure built from queue length, terminates to post and thread states |
| `ThreadPool.ShutdownIsBounded` | Depends/Logger/Include/spdlog/details/thread_pool-inl.h:38-121 | the length of any run of a shutdown is bounded by that measure and the number of wake-ups |
| `ThreadPool.ShutdownFinishes` | Depends/Logger/Include/spdlog/details/thread_pool-inl.h:38-53 | from every state of a shutdown some run without time-outs ends with all workers gone |
| `ThreadPool.ShutdownEndsOrGoesOn` | Depends/Logger/Include/spdlog/details/thread_pool-inl.h:38-121 | after any run of a shutdown, whoever was scheduled: its length is within the bound, and either all workers are gone or a thread that is awake can lengthen it without a time-out |
| `ThreadPool.BlockingLosesNothing` | Depends/Logger/Include/spdlog/details/thread_pool-inl.h:71-81 | a run in which every post blocks overruns nothing |
| `ThreadPool.SingleWorkerKeepsOrder` | Depends/Logger/Include/spdlog/details/thread_pool-inl.h:83-121 | with one worker and no overruns the messages are processed in the order in which they were posted |
| `ThreadPool.ZeroCapacityHangs` | Depends/Logger/Include/spdlog/details/thread_pool-inl.h:38-53 | with capacity 0 no worker ever exits, so the destructor never returns |
| `LivePool.LiveMoves` | Depends/Logger/Include/spdlog/details/thread_pool-inl.h:71-121 | in every state of a running pool with a message queued, in hand, or being posted, some thread can take a step without a time-out, another post, or the destructor |
| `LivePool.QuietStepOwes` | Depends/Logger/Include/spdlog/details/thread_pool-inl.h:83-121 | such a step neither loses nor adds a message: for each one, how often it is processed, in hand, queued, or waiting for room stays the same |
| `LivePool.QuietRunDrains` | Depends/Logger/Include/spdlog/details/thread_pool-inl.h:83-121 | any run of such steps, however scheduled: it is bounded, accounts for every message, and by its end everything has been processed or some thread can lengthen it |
| `LivePool.LivePoolDrains` | Depends/Logger/Include/spdlog/details/thread_pool-inl.h:83-121 | from every such state some such run ends with the queue empty, all posts over, and processed exactly what was owed |
| `LivePool.PostIsProcessed` | Depends/Logger/Include/spdlog/details/thread_pool-inl.h:71-121 | an idle thread may post any message under either overflow policy, and then some such run processes it |
| `LivePool.EveryPoolEnds` | Depends/Logger/Include/spdlog/details/thread_pool-inl.h:16-53 | from every state of a running pool: the work is done, the owners let go, and the destructor sees every worker off; everything posted has then been processed or overrun |
| `BraceSearch.OnePass` | Depends/Logger/Include/spdlog/fmt/bundled/format.h:2642-2659 | the loop for short strings reports the events of the format string, or what an error leaves of them for a handler that throws or returns |
| `BraceSearch.TwoPass` | Depends/Logger/Include/spdlog/fmt/bundled/format.h:2660-2684 | so does the search for opening braces with a separate pass over the text between them |
| `BraceSearch.ParseFormatString` | Depends/Logger/Include/spdlog/fmt/bundled/format.h:2637-2685 | hence both searches give the same events for every string and every way of reading a field, and for a handler that returns from errors what its search makes of them |
| `BraceSearch.Write` | Depends/Logger/Include/spdlog/fmt/bundled/format.h:2660-2675 | the text pass reports everything up to the next opening brace, closing braces doubled, or ends at an error |
| `BraceSearch.Find` | Depends/Logger/Include/spdlog/fmt/bundled/format.h:2579-2594 | the first occurrence in the range, or none |
| `BraceSearch.EscapedTextComesBack` | Depends/Logger/Include/spdlog/fmt/bundled/format.h:2637-2685 | doubling every brace of any text and parsing it gives back the text and no field |
| `BraceSearch.ReturningTellsAll` | Depends/Logger/Include/spdlog/fmt/bundled/format.h:2637-2685 | a handler whose errors return is told of something for every string, and of the same events as one that throws if there are no errors |
| `FormatParse.ParseArgId` | Depends/Logger/Include/spdlog/fmt/bundled/format.h:2369-2401 | the argument id and where it ends: empty, a number, or a name, as the grammar function has it |
| `PartCount.FindMatchingBrace` | Depends/Logger/Include/spdlog/fmt/bundled/compile.h:99-112 | the loop finds the brace that closes the specification by counting nesting |
| `FormatParse.ReaderIsSound` | Depends/Logger/Include/spdlog/fmt/bundled/format.h:2610-2635 | every field is delimited by braces, ends within the string, and a doubled opening brace is text |
| `FormatCompile.ParseContext.NextArgId` | Depends/Logger/Include/spdlog/fmt/bundled/core.h:571-577 | the next automatic number, or an error after manual numbering |
| `FormatCompile.ParseContext.CheckArgId` | Depends/Logger/Include/spdlog/fmt/bundled/core.h:583-588 | switches to manual numbering, or an error after automatic numbering |
| `FormatCompile.NumberingIsConsistent` | Depends/Logger/Include/spdlog/fmt/bundled/core.h:571-590 | over any sequence of ids, with dynamic widths and precisions among them: an error if and only if automatic and numbered ids are mixed, and otherwise the k-th automatic id gets the count of those before it |
| `FormatCompile.CompileToParts` | Depends/Logger/Include/spdlog/fmt/bundled/compile.h:187-192 | the compiler object, fed with the events, emits the parts of the format string or fails |
| `FormatCompile.VformatTo` | Depends/Logger/Include/spdlog/fmt/bundled/compile.h:205-269 | the replay loop prints the parts in order or stops at the first error |
| `FormatCompile.FormatDirectly` | Depends/Logger/Include/spdlog/fmt/bundled/format.h:2702-2757 | the direct handler, fed with the events, prints the format string or fails |
| `FormatCompile.SpecsAgree` | Depends/Logger/Include/spdlog/fmt/bundled/compile.h:168-182 | specifications resolved when parts are replayed equal those resolved during direct formatting, numbering included |
| `FormatCompile.TokensAgree` | Depends/Logger/Include/spdlog/fmt/bundled/compile.h:142-182 | for any events: compiling succeeds wherever direct formatting does, emits one part per event, and replaying those parts gives the direct output |
| `FormatCompile.CompiledAgrees` | Depends/Logger/Include/spdlog/fmt/bundled/compile.h:187-269 | for every format string and all arguments: compiled and direct formatting agree if and only if all arguments the parts refer to exist or the replay fails anyway |
| `FormatCompile.MissingArgumentDiffers` | Depends/Logger/Include/spdlog/fmt/bundled/compile.h:194-201 | "{}" without arguments fails directly and prints nothing when compiled |
| `SpecSpelling.IdReads` | Depends/Logger/Include/spdlog/fmt/bundled/format.h:2369-2401 | an argument id spelled out, be it empty, a number or a name, is read as that id and ends where it was spelled to |
| `SpecSpelling.AlignReads` | Depends/Logger/Include/spdlog/fmt/bundled/format.h:2446-2487 | fill and alignment are read back; a fill is any code point of up to four units but a brace |
| `SpecSpelling.FlagsRead` | Depends/Logger/Include/spdlog/fmt/bundled/format.h:2537-2564 | so are sign, # and 0 |
| `SpecSpelling.SpecsReadBack` | Depends/Logger/Include/spdlog/fmt/bundled/format.h:2529-2576 | every specification the grammar can spell, dimensions taken from arguments included, is read back as it was spelled, up to the closing brace |
| `SpecSpelling.FieldReadsBack` | Depends/Logger/Include/spdlog/fmt/bundled/format.h:2610-2635 | every field, whatever follows it, is read back as it was spelled |
| `FormatMeaning.SpecsAreMeant` | Depends/Logger/Include/spdlog/fmt/bundled/format.h:2171-2233 | specifications are accepted if and only if sign, #, 0 and precision suit the type of the argument and each dimension is a number, and then say what was spelled |
| `FormatMeaning.SlotHandled` | Depends/Logger/Include/spdlog/fmt/bundled/format.h:2702-2757 | handling a field numbers its ids and prints its argument under those specifications, or fails |
| `FormatMeaning.LiteralRead` | Depends/Logger/Include/spdlog/fmt/bundled/format.h:2660-2684 | a literal among other pieces is read as its text, braces halved |
| `FormatMeaning.FormatsAsSpelled` | Depends/Logger/Include/spdlog/fmt/bundled/format.h:2637-2757 | for every sequence of texts and fields: formatting the string that spells them gives, in order, the texts and what each field stands for, its argument numbered among all ids and shown under exactly the specifications spelled; replaying the compiled parts gives the same if all arguments are there |
| `FormatMeaning.CompilesAsSpelled` | Depends/Logger/Include/spdlog/fmt/bundled/compile.h:142-192 | a field compiles to one part that carries the argument and the specifications spelled |
| `FormatMeaning.SpecsReachTheArgument` | Depends/Logger/Include/spdlog/fmt/bundled/format.h:2529-2576 | fill, alignment, sign, #, 0, width, precision and type arrive at the argument as spelled, for every id, or there is no output because it is missing or does not take them; the compiled part carries the same |
| `FormatMeaning.PlainFieldPrints` | Depends/Logger/Include/spdlog/fmt/bundled/format.h:2713-2724 | a field without specifications prints its argument as it is |
| `FormatMeaning.TextPrints` | Depends/Logger/Include/spdlog/fmt/bundled/format.h:2637-2685 | text with its braces doubled is printed as it is |
| `PartCount.CountId` | Depends/Logger/Include/spdlog/fmt/bundled/format.h:2369-2401 | where an argument id ends for the counter, whose errors return: a number too big for an int is passed over if all its digits have been read |
| `PartCount.CountParts` | Depends/Logger/Include/spdlog/fmt/bundled/compile.h:114-123 | the counter, returning from errors, counts the events that the search goes on to report |
| `PartCount.MatchingBraceIsEnd` | Depends/Logger/Include/spdlog/fmt/bundled/compile.h:99-112 | brace matching finds the end of a valid specification if and only if its type is not an opening brace |
| `PartCount.AtMost` | Depends/Logger/Include/spdlog/fmt/bundled/compile.h:99-123 | for any two ways of reading fields of which the second loses its way only after a bad token: from every position at most as many events are counted as are reported |
| `PartCount.CountIsPartsEmitted` | Depends/Logger/Include/spdlog/fmt/bundled/compile.h:118-123 | for every string that compiles the count is at most the number of parts emitted, and equal to it if and only if no token but the last has the type { |
| `PartCount.MiscountedString` | Depends/Logger/Include/spdlog/fmt/bundled/compile.h:99-123 | "{:{}{}{}" compiles to two parts and is counted as one |
| `Utf.DecodeMeetsGrammar` | Depends/Logger/Include/spdlog/fmt/bundled/format-inl.h:1262-1298 | on all 2^32 blocks of four bytes the branchless decoder's error word is zero if and only if they start with a character of the UTF-8 grammar (section 4 of RFC 3629), and then it gives that scalar value and length |
| `Utf.DecodeUndoesEncode` | Depends/Logger/Include/spdlog/fmt/bundled/format-inl.h:1262-1298 | decoding the encoding of any scalar value, followed by anything, gives it back |
| `Utf.EncodeMeetsGrammar` | Depends/Logger/Include/spdlog/fmt/bundled/format-inl.h:1262-1298 | encodings follow the grammar with their length |
| `Utf.EncodeIsInjective` | Depends/Logger/Include/spdlog/fmt/bundled/format-inl.h:1262-1298 | no two scalar values share an encoding |
| `Utf.OneReading` | Depends/Logger/Include/spdlog/fmt/bundled/format-inl.h:1325-1354 | for any prefix-free code, a text read so far is a prefix of every text that encodes to the same string |
| `Utf.Utf8IsInjective` | Depends/Logger/Include/spdlog/fmt/bundled/format-inl.h:1325-1354 | a byte string encodes at most one text |
| `Utf.TranscodeOne` | Depends/Logger/Include/spdlog/fmt/bundled/format-inl.h:1326-1339 | one call: a character is consumed and its UTF-16 units are appended, or the rest is malformed |
| `Utf.TranscodeTail` | Depends/Logger/Include/spdlog/fmt/bundled/format-inl.h:1345-1352 | the zero-padded copy of fewer than four bytes is decoded as if read one character at a time, never past the end |
| `Utf.Utf8ToUtf16` | Depends/Logger/Include/spdlog/fmt/bundled/format-inl.h:1325-1354 | succeeds if and only if the bytes encode some text, and then yields its UTF-16 encoding (section 2.1 of RFC 2781) and a zero |
| `Utf.UnitsDenote` | Depends/Logger/Include/spdlog/fmt/bundled/format-inl.h:1333-1336 | the units of a scalar value denote it: itself below 0x10000, and otherwise by arithmetic from a high and a low surrogate (section 2.2 of RFC 2781) |
| `Utf.SurrogateUnits` | Depends/Logger/Include/spdlog/fmt/bundled/format-inl.h:1333-1336 | the two code units computed by subtraction and addition are the surrogate pair that the standard builds from bit fields |
| `RotatingSink.SplitByExtension` | Depends/Logger/Include/spdlog/details/file_helper-inl.h:109-129 | the two parts are the name |
| `RotatingSink.ExtensionIsLastDot` | Depends/Logger/Include/spdlog/details/file_helper-inl.h:109-129 | the extension starts at a dot that may start one and is followed by no other dot or folder separator, and is empty only if no such dot exists |
| `RotatingSink.NamesAreDistinct` | Depends/Logger/Include/spdlog/sinks/rotating_file_sink-inl.h:44-54 | different indices give different file names, for every base name |
| `RotatingSink.RotatedName` | Depends/Logger/Include/spdlog/sinks/rotating_file_sink-inl.h:44-54 | a rotated name is the base, a dot, the index without leading zeros, and the extension, which it splits off again |
| `RotatingSink.Disk.RenameFile` | Depends/Logger/Include/spdlog/sinks/rotating_file_sink-inl.h:123-128 | the source takes the place of the target if the rename succeeds; if not, nothing has changed except that the target may be gone |
| `RotatingSink.Disk.RenameTwice` | Depends/Logger/Include/spdlog/sinks/rotating_file_sink-inl.h:103-109 | a second attempt is made exactly if the first fails |
| `RotatingSink.RotatingFileSink.constructor` | Depends/Logger/Include/spdlog/sinks/rotating_file_sink-inl.h:27-39 | opens the base file, keeping what is in it; the size is that of the file |
| `RotatingSink.RotatingFileSink.RotateOnOpen` | Depends/Logger/Include/spdlog/sinks/rotating_file_sink-inl.h:35-38 | an empty file is left alone, any other is rotated away, successfully if and only if no rename fails twice in a row; the history is kept, but so is the recorded size of the old file |
| `RotatingSink.RotatingFileSink.SinkIt` | Depends/Logger/Include/spdlog/sinks/rotating_file_sink-inl.h:64-75 | the new state of the files and the recorded size exactly: appended within the limit, otherwise alone in a fresh base file after a rotation; and the sink's invariant is kept: the recorded size is an upper bound of the base file's, each file filled by the sink is within the limit or holds one message, and while renames succeed, oldest to newest, the files hold a suffix of everything ever logged; it fails if and only if a rename has failed twice in a row, and then the files above have moved, those below have not, and the base file is empty |
| `RotatingSink.RotatingFileSink.Rotate` | Depends/Logger/Include/spdlog/sinks/rotating_file_sink-inl.h:89-118 | it succeeds if and only if no rename fails twice in a row; then every file has moved up by one, the oldest is gone, and no other file has changed; otherwise it has stopped at one file, with all above moved and all below in place, and the base file is emptied |
| `RotatingSink.RotatingFileSink.MoveUp` | Depends/Logger/Include/spdlog/sinks/rotating_file_sink-inl.h:94-116 | one turn of the rename loop: the file is renamed with at most two attempts, or is not there |
| `RotatingSink.RotatingFileSink.MoveAll` | Depends/Logger/Include/spdlog/sinks/rotating_file_sink-inl.h:94-116 | the loop from the last file down, until it is done or stuck |
| `RotatingSink.RotationKeepsHistory` | Depends/Logger/Include/spdlog/sinks/rotating_file_sink-inl.h:89-118 | the concatenation oldest to newest is unchanged by a rotation except for the file that falls off the end, gaps in the numbering included; with no backups all is dropped |

## Left out

- FormatFloat.FormatShortest: takes the table of powers of ten and its lookup (format-inl.h:490-503) as a parameter with the contract its comment states, each entry nearest to its power and in the exponent range asked for, because checking 87 constants adds only finite cases. That the exact formatter's digits have no leading zero is proved where the scaled upper bound exceeds the power of ten below it by two units.
- FormatPrecision.FormatPrecision: does not say which digits the C library prints when Grisu gives up or more than 17 digits are asked for; `snprintf_float` is not part of this model.
- WriteDouble.Write: Infinities, NaN, padding and alignment are not part of this model; of a misprinted power of two it says only that the text does not read back.
- WritePrecision.Write: leaves out padding, numeric alignment and the digits that the C library prints.
- DoubleNotation.UsesExponent: where the exact formatter answers for a double within two units of a power of ten it says nothing, because a leading zero is not excluded there.
- FormatMeaning.FormatsAsSpelled: speaks of spelled strings, in which a width has no leading zeros and a type is not one of the characters that mean something else; how a given argument is shown under its specifications is a parameter.
- RotatingSink.RotatingFileSink.SinkIt: claims the suffix property only while rotations succeed, because after a failed one the code empties the base file; files have no size limit, so the recorded size does not wrap, and opening or writing a file does not fail.
- BlockingQueue.MpmcBlockingQueue.Enqueue: models one pass of the wait loop; sleeping again after a wake-up is another step of the transition system.
- ThreadPool.ShutdownEndsOrGoesOn: bounds runs by their time-outs; that the scheduler lets a thread that can move do so at some time is not modelled.
- Formatting of single-precision floats: they have their own boundaries, and their fallback still uses those of a double (format-inl.h:1002).
- Hexadecimal floats, `long double` and 128-bit integers.
- Locale-dependent grouping of digits and decimal points chosen by a locale.
- Format specifications of user-defined types, whose parsers are called back; formats of types other than those of arithmetic, strings and pointers.
- Reading the character at the end of a format string (compile.h:174) is an error here.
- Buffer capacity and growth; the text is a sequence.
- The C++ memory model, and exceptions thrown by callbacks inside workers.
- The loop over sinks in `backend_sink_it_` and `backend_flush_` (async_logger-inl.h:55-85), and `last_formatted`; they add only easy members.
- Copies of a ring buffer that share nothing: a Dafny array is shared, so only moving is modelled.
- The remaining sinks, the logger registry, pattern formatters, `printf.h`, `chrono.h`, `ranges.h`, and the mock and networking code.
