/** The numeric matching assertions of the ta4j test utilities. Two numbers
    match to a number of significant digits when both, re-read at that many
    digits, are equal in value; they match within an offset when the
    absolute difference of the two, read at the high precision, is not
    greater than the offset. A failed assertion is a value here rather than
    a thrown AssertionError. */
module Matching {
  import opened Decimal
  import opened DecimalText

  /** Significant digits of the high-precision context used to read
      expected values and to take differences (HIGH_PRECISION). */
  const HighPrecision: nat := 64

  /** How close two numbers must be: equal after rounding both to p
      significant digits, or no further apart than delta. */
  datatype Tolerance = Digits(p: nat) | Offset(delta: Dec)

  /** The end of an assertion: it holds, it throws an AssertionError with a
      message, or reading an expected literal throws a
      NumberFormatException. */
  datatype Outcome = Pass | Fail(message: string) | NumberFormat

  /** The optional caller message of the Num assertions, a varargs array
      that may itself be null and whose first element may be null. */
  type CallerMessage = Option<seq<Option<string>>>

  /** BigDecimalNum.valueOf(text, precision): the literal read and rounded
      HALF_UP to p significant digits (p == 0: unlimited); None where the
      text is not a decimal literal. */
  function ValueOf(text: string, p: nat): (r: Option<Dec>)
    ensures r.Some? <==> Parse(text).Some?
    ensures r.Some? && p >= 1 ==> NumDigits(Abs(r.value.mant)) <= p
    ensures Parse(text).Some? && (p == 0 || NumDigits(Abs(Parse(text).value.mant)) <= p)
            ==> r == Parse(text)
    ensures r.Some? ==> r.value == Round(Parse(text).value, p)
  {
    match Parse(text)
    case None => None
    case Some(v) =>
      RoundFixes(v, p);
      assert p >= 1 ==> NumDigits(Abs(Round(v, p).mant)) <= p by {
        if p >= 1 {
          RoundDigits(v, p);
        }
      }
      Some(Round(v, p))
  }

  /** A Num's toString read back with BigDecimalNum.valueOf at p digits: the
      text of a number reads back as that number, so this is the number
      itself rounded to p digits. */
  function Reparse(x: Dec, p: nat): (r: Dec)
    ensures r == Round(x, p)
  {
    TextRoundTrip(x);
    ValueOf(Text(x), p).value
  }

  /** numsMatch, both forms. By digits: the two numbers re-read at p digits
      compare equal. By offset: both are re-read at the high precision,
      their difference is taken in that context, and they match unless the
      absolute difference is greater than delta. */
  predicate NumsMatch(expected: Dec, actual: Dec, t: Tolerance)
    ensures t.Digits? ==>
      (NumsMatch(expected, actual, t) <==> Compare(Round(expected, t.p), Round(actual, t.p)) == 0)
    ensures t.Offset? ==>
      (NumsMatch(expected, actual, t) <==>
        Compare(AbsDec(Round(Sub(Round(expected, HighPrecision), Round(actual, HighPrecision)), HighPrecision)),
                t.delta) <= 0)
  {
    match t
    case Digits(p) => Compare(Reparse(expected, p), Reparse(actual, p)) == 0
    case Offset(delta) =>
      var exp := Reparse(expected, HighPrecision);
      var act := Reparse(actual, HighPrecision);
      var difference := AbsDec(Round(Sub(exp, act), HighPrecision));
      !IsGreaterThan(difference, delta)
  }

  /** The first element of the caller message, or "" when the array is
      null, empty or starts with null. */
  function CallerPrefix(message: CallerMessage): (r: string)
    ensures message.None? || |message.value| == 0 ==> r == ""
    ensures message.Some? && |message.value| > 0 ==>
      r == match message.value[0] case None => "" case Some(m) => m
  {
    if message.None? || |message.value| == 0 || message.value[0].None? then ""
    else message.value[0].value
  }

  /** The AssertionError text of assertNumMatches. Only the digits form puts
      the caller message in front. */
  function MismatchText(expected: Dec, actual: Dec, t: Tolerance, message: CallerMessage): (r: string)
    ensures (if t.Digits? then CallerPrefix(message) else "") + "Value " + Text(actual) <= r
    ensures t.Digits? ==> EndsWith(r, " to precision " + NatText(t.p))
    ensures t.Offset? ==> EndsWith(r, " within offset " + Text(t.delta))
  {
    var lead := (if t.Digits? then CallerPrefix(message) else "") + "Value " + Text(actual);
    var middle := (if t.Digits? then " does not match expected " else " does not match ") + Text(expected);
    var tail := match t
      case Digits(p) => " to precision " + NatText(p)
      case Offset(delta) => " within offset " + Text(delta);
    PrefixOfAppend(lead, middle + tail);
    SuffixOfAppend(middle, tail);
    EndsWithAppend(lead, middle + tail, tail);
    lead + (middle + tail)
  }

  /** The AssertionError text of assertNumNotMatches; no form uses the
      caller message. */
  function MatchText(expected: Dec, actual: Dec, t: Tolerance): (r: string)
    ensures "Value " + Text(actual) + " matches expected " + Text(expected) <= r
    ensures t.Digits? ==> EndsWith(r, " to precision " + NatText(t.p))
    ensures t.Offset? ==> EndsWith(r, " within offset " + Text(t.delta))
  {
    var lead := "Value " + Text(actual) + " matches expected " + Text(expected);
    var tail := match t
      case Digits(p) => " to precision " + NatText(p)
      case Offset(delta) => " within offset " + Text(delta);
    PrefixOfAppend(lead, tail);
    SuffixOfAppend(lead, tail);
    lead + tail
  }

  /** s ends with suffix. */
  predicate EndsWith(s: string, suffix: string)
  {
    |suffix| <= |s| && s[|s| - |suffix|..] == suffix
  }

  /** A string is a suffix of anything followed by it. */
  lemma SuffixOfAppend(a: string, b: string)
    ensures EndsWith(a + b, b)
  {
    assert (a + b)[|a|..] == b;
  }

  /** Putting anything in front keeps a string's ending. */
  lemma EndsWithAppend(a: string, b: string, suffix: string)
    requires EndsWith(b, suffix)
    ensures EndsWith(a + b, suffix)
  {
    assert (a + b)[|a + b| - |suffix|..] == b[|b| - |suffix|..];
  }

  /** A string is a prefix of itself followed by anything. */
  lemma PrefixOfAppend(a: string, b: string)
    ensures a <= a + b
  {
    assert (a + b)[..|a|] == a;
  }

  /** assertNumMatches on two Nums: passes exactly when they match, and
      otherwise fails with a message that leads with the caller message (by
      digits only) and the actual value. */
  function AssertNumMatches(expected: Dec, actual: Dec, t: Tolerance, message: CallerMessage): (r: Outcome)
    ensures r.Pass? <==> NumsMatch(expected, actual, t)
    ensures r.Fail? <==> !NumsMatch(expected, actual, t)
    ensures r.Fail? ==> r.message == MismatchText(expected, actual, t, message)
    ensures r.Fail? ==> (if t.Digits? then CallerPrefix(message) else "") + "Value " + Text(actual) <= r.message
  {
    if NumsMatch(expected, actual, t) then Pass
    else Fail(MismatchText(expected, actual, t, message))
  }

  /** assertNumNotMatches on two Nums: passes exactly when they do not
      match; the failure names both values. */
  function AssertNumNotMatches(expected: Dec, actual: Dec, t: Tolerance, message: CallerMessage): (r: Outcome)
    ensures r.Pass? <==> !NumsMatch(expected, actual, t)
    ensures r.Fail? <==> NumsMatch(expected, actual, t)
    ensures r.Fail? ==> r.message == MatchText(expected, actual, t)
    ensures r.Fail? ==> "Value " + Text(actual) + " matches expected " + Text(expected) <= r.message
  {
    if NumsMatch(expected, actual, t) then Fail(MatchText(expected, actual, t))
    else Pass
  }

  /** assertNumMatches with the expected value given as a decimal literal,
      read at the high precision; a literal that is not a number is a
      NumberFormatException. */
  function AssertTextMatches(expected: string, actual: Dec, t: Tolerance): (r: Outcome)
    ensures r.NumberFormat? <==> Parse(expected).None?
    ensures r.Pass? <==>
      Parse(expected).Some? && NumsMatch(Round(Parse(expected).value, HighPrecision), actual, t)
    ensures Parse(expected).Some? ==>
      r == AssertNumMatches(Round(Parse(expected).value, HighPrecision), actual, t, Some([]))
  {
    match ValueOf(expected, HighPrecision)
    case None => NumberFormat
    case Some(x) => AssertNumMatches(x, actual, t, Some([]))
  }

  /** assertNumNotMatches with the expected value given as a literal. */
  function AssertTextNotMatches(expected: string, actual: Dec, t: Tolerance): (r: Outcome)
    ensures r.NumberFormat? <==> Parse(expected).None?
    ensures r.Pass? <==>
      Parse(expected).Some? && !NumsMatch(Round(Parse(expected).value, HighPrecision), actual, t)
    ensures Parse(expected).Some? ==>
      r == AssertNumNotMatches(Round(Parse(expected).value, HighPrecision), actual, t, Some([]))
  {
    match ValueOf(expected, HighPrecision)
    case None => NumberFormat
    case Some(x) => AssertNumNotMatches(x, actual, t, Some([]))
  }

  /** assertNumMatches with a Number expected value: its decimal text is
      read at the high precision, which never fails and gives the number
      itself rounded to 64 digits. */
  function AssertNumberMatches(expected: Dec, actual: Dec, t: Tolerance): (r: Outcome)
    ensures r == AssertNumMatches(Round(expected, HighPrecision), actual, t, Some([]))
  {
    TextRoundTrip(expected);
    AssertTextMatches(Text(expected), actual, t)
  }

  /** assertNumNotMatches with a Number expected value. */
  function AssertNumberNotMatches(expected: Dec, actual: Dec, t: Tolerance): (r: Outcome)
    ensures r == AssertNumNotMatches(Round(expected, HighPrecision), actual, t, Some([]))
  {
    TextRoundTrip(expected);
    AssertTextNotMatches(Text(expected), actual, t)
  }

  /** A literal of at most 64 significant digits is read exactly: the
      assertion on the literal is the assertion on its value. */
  lemma TextExpectedExact(expected: string, v: Dec, actual: Dec, t: Tolerance)
    requires Parse(expected) == Some(v)
    requires NumDigits(Abs(v.mant)) <= HighPrecision
    ensures AssertTextMatches(expected, actual, t) == AssertNumMatches(v, actual, t, Some([]))
    ensures AssertTextNotMatches(expected, actual, t) == AssertNumNotMatches(v, actual, t, Some([]))
  {
    RoundFixes(v, HighPrecision);
  }

  /** Matching to p digits is an equivalence relation on numbers. */
  lemma PrecisionEquivalence(a: Dec, b: Dec, c: Dec, p: nat)
    ensures NumsMatch(a, a, Digits(p))
    ensures NumsMatch(a, b, Digits(p)) == NumsMatch(b, a, Digits(p))
    ensures NumsMatch(a, b, Digits(p)) && NumsMatch(b, c, Digits(p)) ==> NumsMatch(a, c, Digits(p))
  {
    var x, y, z := Round(a, p), Round(b, p), Round(c, p);
    CompareAt(x, y, Min(x.exp, y.exp));
    CompareAt(y, x, Min(x.exp, y.exp));
    CompareTransitive(x, y, z);
  }

  /** With unlimited digits, or when neither number has more than p
      significant digits, matching by digits is equality of value. */
  lemma PrecisionExact(expected: Dec, actual: Dec, p: nat)
    requires p == 0 || (NumDigits(Abs(expected.mant)) <= p && NumDigits(Abs(actual.mant)) <= p)
    ensures NumsMatch(expected, actual, Digits(p)) <==> Compare(expected, actual) == 0
  {
    RoundFixes(expected, p);
    RoundFixes(actual, p);
  }

  /** Matching within an offset does not depend on which side is expected. */
  lemma OffsetSymmetric(a: Dec, b: Dec, delta: Dec)
    ensures NumsMatch(a, b, Offset(delta)) == NumsMatch(b, a, Offset(delta))
  {
    var x, y := Round(a, HighPrecision), Round(b, HighPrecision);
    SubSwap(x, y);
    RoundNegate(Sub(x, y), HighPrecision);
    assert AbsDec(Round(Sub(y, x), HighPrecision)) == AbsDec(Round(Sub(x, y), HighPrecision));
  }

  /** A number matches itself within delta exactly when delta is not
      negative. */
  lemma OffsetSelf(x: Dec, delta: Dec)
    ensures NumsMatch(x, x, Offset(delta)) <==> delta.mant >= 0
  {
    var y := Round(x, HighPrecision);
    var d := AbsDec(Round(Sub(y, y), HighPrecision));
    var e := Min(d.exp, delta.exp);
    SubAt(y, y, Min(y.exp, y.exp));
    RoundFixes(Sub(y, y), HighPrecision);
    CompareAt(d, delta, e);
    ScaleOrder(delta.mant, 0, Pow10(delta.exp - e));
  }

  /** No two numbers match within a negative offset. */
  lemma OffsetNegative(expected: Dec, actual: Dec, delta: Dec)
    requires delta.mant < 0
    ensures !NumsMatch(expected, actual, Offset(delta))
  {
    var x, y := Round(expected, HighPrecision), Round(actual, HighPrecision);
    var d := AbsDec(Round(Sub(x, y), HighPrecision));
    NonNegativeAbove(d, delta);
  }

  /** A match within delta is a match within any offset at least as large. */
  lemma OffsetMonotone(expected: Dec, actual: Dec, delta: Dec, wider: Dec)
    requires Compare(delta, wider) <= 0
    ensures NumsMatch(expected, actual, Offset(delta)) ==> NumsMatch(expected, actual, Offset(wider))
  {
    var x, y := Round(expected, HighPrecision), Round(actual, HighPrecision);
    var d := AbsDec(Round(Sub(x, y), HighPrecision));
    CompareTransitive(d, delta, wider);
  }

  /** Matching within delta is |expected - actual| <= delta for the two
      numbers read at the high precision, compared at any exponent common
      to the two read values and delta, whenever the difference of the
      read values fits in 64 digits (so the context of minus keeps it
      exact). */
  lemma OffsetExact(expected: Dec, actual: Dec, delta: Dec, f: int)
    requires NumDigits(Abs(Sub(Round(expected, HighPrecision), Round(actual, HighPrecision)).mant)) <= HighPrecision
    requires f <= Round(expected, HighPrecision).exp && f <= Round(actual, HighPrecision).exp && f <= delta.exp
    ensures NumsMatch(expected, actual, Offset(delta))
            <==> Abs(Scaled(Round(expected, HighPrecision), f) - Scaled(Round(actual, HighPrecision), f))
                 <= Scaled(delta, f)
  {
    var x, y := Round(expected, HighPrecision), Round(actual, HighPrecision);
    var s := Sub(x, y);
    RoundFixes(s, HighPrecision);
    SubAt(x, y, f);
    AbsAt(s, f);
    CompareAt(AbsDec(s), delta, f);
  }
}
