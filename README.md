# ta4j numeric matching assertions, modelled in Dafny

The ta4j test utilities (`TestUtils`) decide whether two numbers "match".
There are two ways to match:

- **To a precision**: both numbers are re-read from their decimal text at
  `p` significant digits, and the results must be equal in value.
- **Within an offset**: both numbers are re-read at the high precision of
  64 digits. The absolute value of their difference must not be greater
  than `delta`.

On top of these two predicates sit:

- the scalar `assertNumMatches` / `assertNumNotMatches` overloads for an
  expected `Num`, `String` or `Number`;
- the four `assertIndicatorMatches` / `assertIndicatorNotMatches` loops,
  which walk two indicators bar by bar.

The project models this layer:

- `decimal.dfy` (module `Decimal`): exact decimals `Dec(mant, exp)`, which
  stand for a BigDecimal's unscaled value and negated scale. It holds
  comparison by value (`compareTo`), subtraction, absolute value, and
  HALF_UP rounding to `p` significant digits (the `MathContext` of
  `BigDecimalNum.valueOf(text, p)`, where `p == 0` means unlimited).
- `text.dfy` (module `DecimalText`): the canonical text of a decimal
  (`BigDecimal.toString`) and the decimal-literal reader
  (`BigDecimal(String)`, for literals written with the ASCII digits 0-9). It proves that reading the text of a number gives
  back that number. This is why `numsMatch`, which re-reads
  `expected.toString()`, amounts to rounding the number itself.
- `matching.dfy` (module `Matching`): both `numsMatch` predicates and the
  twelve scalar assertions. The assertion overloads are merged by a
  `Tolerance` (digits or offset). An assertion ends in an `Outcome`:
  `Pass`, `Fail(message)` for an AssertionError, or `NumberFormat` for a
  literal that is not a number.
- `indicators.dfy` (module `Indicators`): the four indicator loops as
  methods over sequences of values, one value per bar. Each is proved
  against a specification function built on `FirstMismatch`, the first bar
  that does not match.
- `scenarios.dfy` (module `Scenarios`): concrete cases from the utilities'
  own test class, and boundary cases.

Behaviours of the code worth noting:

- Precision 0 is not rejected. It is `MathContext`'s unlimited precision,
  so matching to 0 digits is equality of value (`Matching.PrecisionExact`).
- `assertIndicatorNotMatches` by precision fails when the bar counts differ
  (TestUtils.java lines 66 and 78). It does not succeed
  (`Scenarios.DifferentBarCounts`).
- To four digits, 0.123456789 rounds HALF_UP to 0.1235. So it does not
  match 0.1234 (`Scenarios.FourDigitsMiss`).
- The offset forms of `assertNumMatches` drop the caller message. A failing
  `assertIndicatorMatches` within an offset therefore does not name the bar
  (`Scenarios.SeriesDivergeAtSecondBar`).

## Model

| member | source | states |
|---|---|---|
| Decimal.Compare | ta4j-core/src/test/java/org/ta4j/core/TestUtils.java:172 | compareTo answers -1, 0 or 1 |
| Decimal.CompareAt | ta4j-core/src/test/java/org/ta4j/core/TestUtils.java:172 | compareTo orders the values: at any exponent common to both numbers it agrees with <, == and > on the integer mantissas, whatever the scales |
| Decimal.CompareTransitive | ta4j-core/src/test/java/org/ta4j/core/TestUtils.java:172 | compareTo is transitive, both for <= and for equality of value |
| Decimal.Round | ta4j-core/src/test/java/org/ta4j/core/TestUtils.java:170-171 | the MathContext rounding of valueOf(text, p): a number of at most p digits, or any number at p == 0, is unchanged; otherwise the exponent only grows, and the sign and zeroness are kept |
| Decimal.Sub | ta4j-core/src/test/java/org/ta4j/core/TestUtils.java:186 | minus: the result sits at the smaller exponent, is negative exactly when the minuend compares below the subtrahend, and is zero exactly when they compare equal |
| Decimal.AbsDec | ta4j-core/src/test/java/org/ta4j/core/TestUtils.java:186 | abs keeps the scale, is never negative, and is the number or its negation |
| Decimal.IsGreaterThan | ta4j-core/src/test/java/org/ta4j/core/TestUtils.java:187 | isGreaterThan holds exactly when the other number compares below this one |
| Decimal.RoundDigits | ta4j-core/src/test/java/org/ta4j/core/TestUtils.java:170-171 | reading at p >= 1 digits leaves at most p significant digits, including after a carry to 10^p |
| Decimal.RoundFixes | ta4j-core/src/test/java/org/ta4j/core/TestUtils.java:170-171 | reading at p digits keeps a number unchanged exactly when p is 0 (unlimited) or the number has at most p digits |
| Decimal.RoundIdempotent | ta4j-core/src/test/java/org/ta4j/core/TestUtils.java:170-171 | re-reading at the same precision changes nothing |
| Decimal.RoundNearest | ta4j-core/src/test/java/org/ta4j/core/TestUtils.java:170-171 | HALF_UP: when the number has more than p digits, the result is a whole number of units in the p-th digit, within half a unit of the last kept digit of the original, a tie goes away from zero, the sign is kept, and the exponent never decreases |
| Decimal.RoundNegate | ta4j-core/src/test/java/org/ta4j/core/TestUtils.java:186 | rounding a negated number gives the negated rounding |
| Decimal.SubAt | ta4j-core/src/test/java/org/ta4j/core/TestUtils.java:186 | minus is exact subtraction at every exponent common to both operands |
| Decimal.SubSwap | ta4j-core/src/test/java/org/ta4j/core/TestUtils.java:186 | swapping the operands of minus negates the difference |
| Decimal.AbsAt | ta4j-core/src/test/java/org/ta4j/core/TestUtils.java:186 | abs is the absolute value at every exponent |
| DecimalText.NatTextRoundTrip | ta4j-core/src/test/java/org/ta4j/core/TestUtils.java:144 | the decimal text of a non-negative int (the precision and the bar index in messages) reads back as that int, has as many characters as it has digits, and has no leading zero |
| DecimalText.Text | ta4j-core/src/test/java/org/ta4j/core/TestUtils.java:170-171 | toString is never empty and starts with "-" exactly for a negative number |
| DecimalText.Parse | ta4j-core/src/test/java/org/ta4j/core/TestUtils.java:170-171 | the literal reader accepts no empty text, reads a text starting with "-" as a number at most 0 and any other text as a number at least 0 |
| DecimalText.TextRoundTrip | ta4j-core/src/test/java/org/ta4j/core/TestUtils.java:170-171 | toString followed by reading the literal gives back the same number, scale included, in plain and in scientific notation |
| DecimalText.IntegerText | ta4j-core/src/test/java/org/ta4j/core/TestUtils.java:124 | an integer Number prints as its sign and digits, the canonical text of the integer at scale 0 |
| Matching.ValueOf | ta4j-core/src/test/java/org/ta4j/core/TestUtils.java:47 | valueOf(text, p) succeeds exactly on decimal literals (ASCII digits); its value is the literal rounded HALF_UP to p digits, so it keeps at most p digits and reads a literal of at most p digits exactly |
| Matching.Reparse | ta4j-core/src/test/java/org/ta4j/core/TestUtils.java:170-171 | re-reading a Num's toString at p digits is the number rounded to p digits |
| Matching.NumsMatch | ta4j-core/src/test/java/org/ta4j/core/TestUtils.java:169-200 | by digits, the two numbers rounded to p digits compare equal; within an offset, the absolute value of the difference of the two numbers rounded to 64 digits, itself rounded to 64 digits, compares at most delta |
| Matching.CallerPrefix | ta4j-core/src/test/java/org/ta4j/core/TestUtils.java:141 | the message prefix is "" when the caller message is null, empty or starts with null, and is its first element otherwise |
| Matching.MismatchText | ta4j-core/src/test/java/org/ta4j/core/TestUtils.java:140-151 | the assertNumMatches failure text starts with the caller prefix (by digits only), "Value " and the actual value, and ends with " to precision " p or " within offset " delta |
| Matching.MatchText | ta4j-core/src/test/java/org/ta4j/core/TestUtils.java:155-165 | the assertNumNotMatches failure text starts with "Value " actual " matches expected " expected and ends with " to precision " p or " within offset " delta |
| Matching.AssertNumMatches | ta4j-core/src/test/java/org/ta4j/core/TestUtils.java:140-153 | passes exactly when the numbers match and otherwise fails, never with NumberFormat; the failure message is MismatchText, so it starts with the caller message (by digits only), then "Value " and the actual value |
| Matching.AssertNumNotMatches | ta4j-core/src/test/java/org/ta4j/core/TestUtils.java:155-167 | passes exactly when the numbers do not match; the failure message is MatchText, starting with "Value " actual " matches expected " expected |
| Matching.AssertTextMatches | ta4j-core/src/test/java/org/ta4j/core/TestUtils.java:106-112 | NumberFormat exactly when the expected text is not a literal; otherwise it is the Num assertion on the literal's value rounded to 64 digits, so it passes exactly when that value matches |
| Matching.AssertTextNotMatches | ta4j-core/src/test/java/org/ta4j/core/TestUtils.java:114-120 | NumberFormat exactly when the expected text is not a literal; otherwise it is the Num NotMatches assertion on the literal's value rounded to 64 digits, so it passes exactly when that value does not match |
| Matching.AssertNumberMatches | ta4j-core/src/test/java/org/ta4j/core/TestUtils.java:123-129 | going through the Number's text never throws and is the Num assertion on the number rounded to 64 digits |
| Matching.AssertNumberNotMatches | ta4j-core/src/test/java/org/ta4j/core/TestUtils.java:131-137 | the same for the NotMatches overloads |
| Matching.TextExpectedExact | ta4j-core/src/test/java/org/ta4j/core/TestUtils.java:44-47 | an expected literal of at most 64 digits is not truncated: the String overloads are the Num overloads on its exact value |
| Matching.PrecisionEquivalence | ta4j-core/src/test/java/org/ta4j/core/TestUtils.java:169-181 | matching to p digits is reflexive, symmetric and transitive |
| Matching.PrecisionExact | ta4j-core/src/test/java/org/ta4j/core/TestUtils.java:169-181 | at unlimited precision, or when both numbers have at most p digits, matching is equality of value |
| Matching.OffsetSymmetric | ta4j-core/src/test/java/org/ta4j/core/TestUtils.java:183-200 | matching within delta does not depend on which side is expected |
| Matching.OffsetSelf | ta4j-core/src/test/java/org/ta4j/core/TestUtils.java:183-200 | a number matches itself within delta exactly when delta is not negative |
| Matching.OffsetNegative | ta4j-core/src/test/java/org/ta4j/core/TestUtils.java:183-200 | nothing matches within a negative delta |
| Matching.OffsetMonotone | ta4j-core/src/test/java/org/ta4j/core/TestUtils.java:183-200 | a match within delta is a match within any larger offset |
| Matching.OffsetExact | ta4j-core/src/test/java/org/ta4j/core/TestUtils.java:183-187 | whenever the difference of the two values read at 64 digits fits in 64 digits, matching within delta is exactly abs(Round(expected, 64) - Round(actual, 64)) <= delta, equality included and delta not re-rounded |
| Indicators.FirstMismatch | ta4j-core/src/test/java/org/ta4j/core/TestUtils.java:57-62 | the first bar from a start index whose values do not match; None exactly when all remaining bars match |
| Indicators.IndexMessage | ta4j-core/src/test/java/org/ta4j/core/TestUtils.java:60 | the caller message is "Failed at index ", then the bar index in decimal digits that read back as that index, then ": " |
| Indicators.AllMatchText | ta4j-core/src/test/java/org/ta4j/core/TestUtils.java:78 | the NotMatches failure text starts with "Indicators match within " and ends with "precision " p or "delta " delta |
| Indicators.MatchesVerdict | ta4j-core/src/test/java/org/ta4j/core/TestUtils.java:56-63 | passes exactly when every bar matches; otherwise it is the scalar failure, with the "Failed at index i: " caller message, at the smallest bar i that does not match |
| Indicators.NotMatchesVerdict | ta4j-core/src/test/java/org/ta4j/core/TestUtils.java:65-79 | passes exactly when some bar does not match and, by digits, the bar counts are equal; otherwise fails with "Indicators match within ..." |
| Indicators.IndicatorMatchesPrecision | ta4j-core/src/test/java/org/ta4j/core/TestUtils.java:56-63 | the loop stops at the first failing bar with that bar's failure, or passes: its result is MatchesVerdict by digits |
| Indicators.IndicatorNotMatchesPrecision | ta4j-core/src/test/java/org/ta4j/core/TestUtils.java:65-79 | the length check and the loop give NotMatchesVerdict by digits |
| Indicators.IndicatorMatchesDelta | ta4j-core/src/test/java/org/ta4j/core/TestUtils.java:81-88 | the loop's result is MatchesVerdict within delta |
| Indicators.IndicatorNotMatchesDelta | ta4j-core/src/test/java/org/ta4j/core/TestUtils.java:90-103 | the loop's result is NotMatchesVerdict within delta, with no length check |
| Indicators.VerdictsComplementary | ta4j-core/src/test/java/org/ta4j/core/TestUtils.java:56-79 | for equal bar counts exactly one of Matches and NotMatches passes |
| Indicators.CallerMessageLeads | ta4j-core/src/test/java/org/ta4j/core/TestUtils.java:141-144 | by digits, the caller message leads the failure message |
| Indicators.MatchesFailureNamesIndex | ta4j-core/src/test/java/org/ta4j/core/TestUtils.java:60-61 | a failing assertIndicatorMatches by digits starts its message with "Failed at index i: " for the first mismatching bar i |
| Scenarios.NumberOffsetCase | ta4j-core/src/test/java/org/ta4j/core/TestUtils.java:127-137 | for short decimals, a Number assertion within an offset passes exactly when abs(expected - actual) <= delta |
| Scenarios.NumberScenario1 | ta4j-core/src/test/java/org/ta4j/core/TestUtilsTest.java:57 | assertNumMatches(0.1234, 0.123456789) passes within 0.0001 |
| Scenarios.NumberScenario2 | ta4j-core/src/test/java/org/ta4j/core/TestUtilsTest.java:58 | assertNumNotMatches(0.123, 0.123456789) passes within 0.0001 |
| Scenarios.NumberScenario3 | ta4j-core/src/test/java/org/ta4j/core/TestUtilsTest.java:59 | assertNumMatches(0.123456789, 0.1234) passes within 0.0001 |
| Scenarios.NumberScenario4 | ta4j-core/src/test/java/org/ta4j/core/TestUtilsTest.java:60 | assertNumNotMatches(0.123456789, 0.123) passes within 0.0001 |
| Scenarios.NumberScenario5 | ta4j-core/src/test/java/org/ta4j/core/TestUtilsTest.java:61 | assertNumMatches(0.123456789, 0.123456789) passes within 0.0001 |
| Scenarios.NumberScenario6 | ta4j-core/src/test/java/org/ta4j/core/TestUtilsTest.java:62 | assertNumMatches(0.12345678, 0.123456789) passes within 0.0001 |
| Scenarios.NumberScenario7 | ta4j-core/src/test/java/org/ta4j/core/TestUtilsTest.java:63 | assertNumMatches(0.12345, 0.123456789) passes within 0.0001 |
| Scenarios.NumberScenario8 | ta4j-core/src/test/java/org/ta4j/core/TestUtilsTest.java:64 | assertNumMatches(0.12345, 0.12344) passes within 0.0001 |
| Scenarios.NumberScenario9 | ta4j-core/src/test/java/org/ta4j/core/TestUtilsTest.java:65 | assertNumNotMatches(0.12345, 0.123) passes within 0.0001 |
| Scenarios.NumberScenario10 | ta4j-core/src/test/java/org/ta4j/core/TestUtilsTest.java:66 | assertNumMatches(0.12344, 0.12345) passes within 0.0001 |
| Scenarios.NumberScenario11 | ta4j-core/src/test/java/org/ta4j/core/TestUtilsTest.java:67 | assertNumNotMatches(0.123, 0.12345) passes within 0.0001 |
| Scenarios.NumberScenarioFails | ta4j-core/src/test/java/org/ta4j/core/TestUtilsTest.java:51-57 | within 0.00001, the first assertion of the scenario fails |
| Scenarios.OffsetBoundary | ta4j-core/src/test/java/org/ta4j/core/TestUtils.java:187 | a difference equal to delta is a match |
| Scenarios.FourDigitsRoundUp | ta4j-core/src/test/java/org/ta4j/core/TestUtils.java:169-172 | to four digits HALF_UP, 0.123456789 reads as 0.1235 and matches 0.1235 |
| Scenarios.FourDigitsMiss | ta4j-core/src/test/java/org/ta4j/core/TestUtils.java:169-172 | to four digits, 0.123456789 matches neither 0.1234 nor 0.123 |
| Scenarios.SeriesDivergeAtSecondBar | ta4j-core/src/test/java/org/ta4j/core/TestUtils.java:90-103 | series differing only at bar 1 diverge there within 0.00001; the Matches failure is the scalar one, without the bar index |
| Scenarios.DifferentBarCounts | ta4j-core/src/test/java/org/ta4j/core/TestUtils.java:65-79 | by digits, indicators of different bar counts fail NotMatches |

## Left out

- Logging through slf4j (`log.trace`, `log.debug`) is not modelled. It does not change any outcome.
- `BigDecimalNum` is not part of this model. Its rounding mode (HALF_UP) is assumed. So is taking the difference in the 64-digit context of the minuend.
- Java `double` values are not modelled: `DoubleNum`, `numOf(double)` and `Double.toString`. A `Num` is its exact decimal value, and its `toString` is `BigDecimal.toString`.
- Matching.AssertNumberMatches: a Number is modelled by the decimal its `toString` prints, in BigDecimal's canonical text. This is exact for Integer, Long and BigDecimal, and for a Double printed in plain notation (such as 0.1234). `Double.toString`'s own scientific notation (below 0.001 or from 10^7 on) is not modelled.
- Matching.AssertNumberNotMatches: the same restriction on how the Number prints.
- A negative precision makes `MathContext` throw IllegalArgumentException. This is not modelled: the precision is a `nat`.
- NaN is not modelled. The literal "NaN" is not a decimal literal, so it gives `NumberFormat`. Arithmetic on a NaN `Num` is not modelled.
- Null arguments and their NullPointerException are not modelled. The null caller message is modelled (`Option`).
- BigDecimal's 32-bit scale range is not modelled. Exponents are unbounded integers.
- Indicators are their sequences of values; `Indicator`, `TimeSeries` and caching are not part of this model. The bar count is the length of the expected sequence.
- Indicators.IndicatorMatchesPrecision: requires the actual series to be at least as long as the expected one. The source reads `actual.getValue(i)` without a length check, and what an indicator returns past its last bar is not part of this model.
- Indicators.IndicatorMatchesDelta: the same requirement on the actual series' length.
- Indicators.IndicatorNotMatchesDelta: the same requirement on the actual series' length.
- Matching.ValueOf: reads literals written with the ASCII digits 0-9 only. `BigDecimal(String)` also reads any other character that `Character.isDigit` accepts (for example Arabic-Indic digits), in the coefficient and in the exponent; such a text gives `NumberFormat` here.
- Matching.AssertTextMatches: an expected literal written with non-ASCII decimal digits gives `NumberFormat` here, where the source reads it as a number (see Matching.ValueOf).
- Matching.AssertTextNotMatches: the same restriction to ASCII digits.
- Matching.OffsetExact: the "exactly when" is stated only where the difference of the two values read at 64 digits fits in 64 digits. A longer difference is rounded by the 64-digit context of `minus`, which is an assumption about `BigDecimalNum`; `NumsMatch` models that rounding, but no closed form is proved for it.
- Matching.AssertNumMatches: the failure message is exactly `MismatchText`, whose contract states its beginning (up to the actual value) and its end (the precision or delta) but not the middle part naming the expected value.
- Matching.AssertNumNotMatches: the failure message is exactly `MatchText`, whose contract states its beginning and its end but not that nothing lies between them.
- Matching.MismatchText: states the beginning and the end of the text, not the middle part " does not match [expected] " and the expected value.
- Matching.MatchText: states the beginning and the end of the text, not that they are joined with nothing between.
- Indicators.AllMatchText: states the beginning and the end of the text, not that they are joined with nothing between.
- DecimalText.Text: its own contract states only the sign character; the digits and the exponent are stated through `DecimalText.TextRoundTrip`, which reads the text back as the same number.
- DecimalText.Parse: its own contract states only the sign of the value; which texts it reads, and as what, is stated through `DecimalText.TextRoundTrip` and `Matching.ValueOf`.
- `assertIndicatorEquals`, `assertNumEquals`, `assertNumNotEquals` and the commented-out helpers are outside the matching core and not part of this model.
- `DEFAULT_PRECISION`, `GENERAL_OFFSET` and `HIGH_PRECISION_OFFSET` are not used by the matching core and are not modelled.
- The string scenario of the test class (TestUtilsTest.java lines 32-44) is not restated literally. It reads the same values as the number scenario, and `Matching.TextExpectedExact` relates the two.
