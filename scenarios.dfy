/** Concrete cases of the matching assertions: the number scenario of the
    utilities' own test class, a boundary-equal offset, rounding to four
    digits, and the indicator forms on short series. The decimals written
    below (0.123456789 as Dec(123456789, -9)) stand for the numbers the
    scenarios build from the same literals. */
module Scenarios {
  import opened Decimal
  import opened DecimalText
  import opened Matching
  import opened Indicators

  /** The numbers of the scenarios. */
  const N1234 := Dec(1234, -4)
  const N1235 := Dec(1235, -4)
  const N123 := Dec(123, -3)
  const N123456789 := Dec(123456789, -9)
  const N12345678 := Dec(12345678, -8)
  const N12345 := Dec(12345, -5)
  const N12344 := Dec(12344, -5)

  /** The offsets of the scenarios, 0.0001 and 0.00001. */
  const TenThousandth := Dec(1, -4)
  const HundredThousandth := Dec(1, -5)

  /** A Number expected value of few digits against a number of few digits,
      within an offset: the assertion passes exactly when the two are no
      further apart than the offset. */
  lemma NumberOffsetCase(expected: Dec, actual: Dec, delta: Dec, f: int)
    requires f == Min(expected.exp, actual.exp) && f <= delta.exp
    requires Abs(expected.mant) < 1_000_000_000 && Abs(actual.mant) < 1_000_000_000
    requires Abs(Scaled(expected, f) - Scaled(actual, f)) < 1_000_000_000
    ensures AssertNumberMatches(expected, actual, Offset(delta)).Pass?
            <==> Abs(Scaled(expected, f) - Scaled(actual, f)) <= Scaled(delta, f)
    ensures AssertNumberNotMatches(expected, actual, Offset(delta)).Pass?
            <==> Abs(Scaled(expected, f) - Scaled(actual, f)) > Scaled(delta, f)
  {
    assert Pow10(9) == 1_000_000_000;
    Pow10Monotone(9, HighPrecision);
    NumDigitsAtMost(Abs(expected.mant), HighPrecision);
    NumDigitsAtMost(Abs(actual.mant), HighPrecision);
    NumDigitsAtMost(Abs(Sub(expected, actual).mant), HighPrecision);
    RoundFixes(expected, HighPrecision);
    RoundFixes(actual, HighPrecision);
    OffsetExact(expected, actual, delta, f);
  }

  /* The number scenario of the test class, with offset 0.0001: eleven
     assertions, one lemma each, all of which pass. */

  /** Assertion 1: 0.1234 matches 0.123456789. */
  lemma NumberScenario1()
    ensures AssertNumberMatches(N1234, N123456789, Offset(TenThousandth)) == Pass
  {
    NumberOffsetCase(N1234, N123456789, TenThousandth, -9);
  }

  /** Assertion 2: 0.123 does not match 0.123456789. */
  lemma NumberScenario2()
    ensures AssertNumberNotMatches(N123, N123456789, Offset(TenThousandth)) == Pass
  {
    NumberOffsetCase(N123, N123456789, TenThousandth, -9);
  }

  /** Assertion 3: 0.123456789 matches 0.1234. */
  lemma NumberScenario3()
    ensures AssertNumberMatches(N123456789, N1234, Offset(TenThousandth)) == Pass
  {
    NumberOffsetCase(N123456789, N1234, TenThousandth, -9);
  }

  /** Assertion 4: 0.123456789 does not match 0.123. */
  lemma NumberScenario4()
    ensures AssertNumberNotMatches(N123456789, N123, Offset(TenThousandth)) == Pass
  {
    NumberOffsetCase(N123456789, N123, TenThousandth, -9);
  }

  /** Assertion 5: 0.123456789 matches 0.123456789. */
  lemma NumberScenario5()
    ensures AssertNumberMatches(N123456789, N123456789, Offset(TenThousandth)) == Pass
  {
    NumberOffsetCase(N123456789, N123456789, TenThousandth, -9);
  }

  /** Assertion 6: 0.12345678 matches 0.123456789. */
  lemma NumberScenario6()
    ensures AssertNumberMatches(N12345678, N123456789, Offset(TenThousandth)) == Pass
  {
    NumberOffsetCase(N12345678, N123456789, TenThousandth, -9);
  }

  /** Assertion 7: 0.12345 matches 0.123456789. */
  lemma NumberScenario7()
    ensures AssertNumberMatches(N12345, N123456789, Offset(TenThousandth)) == Pass
  {
    NumberOffsetCase(N12345, N123456789, TenThousandth, -9);
  }

  /** Assertion 8: 0.12345 matches 0.12344. */
  lemma NumberScenario8()
    ensures AssertNumberMatches(N12345, N12344, Offset(TenThousandth)) == Pass
  {
    NumberOffsetCase(N12345, N12344, TenThousandth, -5);
  }

  /** Assertion 9: 0.12345 does not match 0.123. */
  lemma NumberScenario9()
    ensures AssertNumberNotMatches(N12345, N123, Offset(TenThousandth)) == Pass
  {
    NumberOffsetCase(N12345, N123, TenThousandth, -5);
  }

  /** Assertion 10: 0.12344 matches 0.12345. */
  lemma NumberScenario10()
    ensures AssertNumberMatches(N12344, N12345, Offset(TenThousandth)) == Pass
  {
    NumberOffsetCase(N12344, N12345, TenThousandth, -5);
  }

  /** Assertion 11: 0.123 does not match 0.12345. */
  lemma NumberScenario11()
    ensures AssertNumberNotMatches(N123, N12345, Offset(TenThousandth)) == Pass
  {
    NumberOffsetCase(N123, N12345, TenThousandth, -5);
  }

  /** With offset 0.00001 the first assertion of the scenario already
      fails: 0.1234 and 0.123456789 are 0.000056789 apart. */
  lemma NumberScenarioFails()
    ensures AssertNumberMatches(N1234, N123456789, Offset(HundredThousandth)).Fail?
  {
    NumberOffsetCase(N1234, N123456789, HundredThousandth, -9);
  }

  /** An absolute difference equal to the offset is a match: 0.12345 and
      0.12344 match within 0.00001. */
  lemma OffsetBoundary()
    ensures AssertNumberMatches(N12345, N12344, Offset(HundredThousandth)) == Pass
  {
    NumberOffsetCase(N12345, N12344, HundredThousandth, -5);
  }

  /** Four significant digits, HALF_UP: 0.123456789 reads as 0.1235, so it
      matches 0.1235. */
  lemma FourDigitsRoundUp()
    ensures AssertNumberMatches(N1235, N123456789, Digits(4)) == Pass
  {
    assert Round(N123456789, 4) == N1235;
    RoundFixes(N1235, HighPrecision);
    assert Round(N1235, 4) == N1235;
  }

  /** For the same reason 0.123456789 matches neither 0.1234 nor 0.123 to
      four digits. */
  lemma FourDigitsMiss()
    ensures AssertNumberMatches(N1234, N123456789, Digits(4)).Fail?
    ensures AssertNumberMatches(N123, N123456789, Digits(4)).Fail?
  {
    assert Round(N123456789, 4) == N1235;
    RoundFixes(N1234, HighPrecision);
    RoundFixes(N123, HighPrecision);
    assert Round(N1234, 4) == N1234;
    assert Round(N123, 4) == N123;
  }

  /** Three bars, the second differing by 0.0001: within 0.00001 the
      series diverge at bar 1, so NotMatches passes after reading bars 0
      and 1, and Matches fails there with the message of the scalar
      assertion, which does not name the bar. */
  lemma SeriesDivergeAtSecondBar()
    ensures
      var e := [N1234, N1234, N1234];
      var a := [N1234, N1235, N1234];
      var t := Offset(HundredThousandth);
      FirstMismatch(t, e, a, 0) == Some(1) &&
      NotMatchesVerdict(t, e, a) == Pass &&
      MatchesVerdict(t, e, a) == AssertNumMatches(N1234, N1235, t, None)
  {
    var x, y := N1234, N1235;
    var e := [x, x, x];
    var a := [x, y, x];
    SameBarWithinHundredThousandth();
    NextBarOutsideHundredThousandth();
    assert NumsMatch(e[0], a[0], Offset(HundredThousandth));
    assert !NumsMatch(e[1], a[1], Offset(HundredThousandth));
  }

  /** Equal bars are within 0.00001 of each other. */
  lemma SameBarWithinHundredThousandth()
    ensures NumsMatch(N1234, N1234, Offset(HundredThousandth))
  {
    RoundFixes(N1234, HighPrecision);
    OffsetExact(N1234, N1234, HundredThousandth, -5);
  }

  /** 0.1234 and 0.1235 are not within 0.00001. */
  lemma NextBarOutsideHundredThousandth()
    ensures !NumsMatch(N1234, N1235, Offset(HundredThousandth))
  {
    RoundFixes(N1234, HighPrecision);
    RoundFixes(N1235, HighPrecision);
    OffsetExact(N1234, N1235, HundredThousandth, -5);
  }

  /** By digits, series of different bar counts never pass NotMatches,
      whatever their values. */
  lemma DifferentBarCounts()
    ensures NotMatchesVerdict(Digits(4), [Dec(1, 0)], [Dec(2, 0), Dec(3, 0)])
            == Fail("Indicators match within precision 4")
  {
    assert NatText(4) == "4";
  }
}
