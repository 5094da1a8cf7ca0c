/** The indicator assertions of the ta4j test utilities. An indicator is
    given by its values, one per bar of its time series, so the bar count
    is the length of the sequence. The Matches forms walk the bars of the
    expected indicator and stop at the first bar whose values do not match;
    the NotMatches forms pass as soon as one bar does not match. */
module Indicators {
  import opened Decimal
  import opened DecimalText
  import opened Matching

  /** The first bar at or after from where the two indicators do not
      match, or None when every remaining bar of expected matches. */
  function FirstMismatch(t: Tolerance, expected: seq<Dec>, actual: seq<Dec>, from: nat): (r: Option<nat>)
    requires |expected| <= |actual| && from <= |expected|
    ensures r.Some? ==> from <= r.value < |expected|
    ensures r.Some? ==> !NumsMatch(expected[r.value], actual[r.value], t)
    ensures r.Some? ==> forall i :: from <= i < r.value ==> NumsMatch(expected[i], actual[i], t)
    ensures r.None? <==> forall i :: from <= i < |expected| ==> NumsMatch(expected[i], actual[i], t)
  {
    FirstFalse(BarMatches(t, expected, actual), from)
  }

  /** Bar by bar, whether the two series match there. */
  function BarMatches(t: Tolerance, expected: seq<Dec>, actual: seq<Dec>): (r: seq<bool>)
    requires |expected| <= |actual|
    ensures |r| == |expected|
    ensures forall i :: 0 <= i < |r| ==> (r[i] <==> NumsMatch(expected[i], actual[i], t))
  {
    seq(|expected|, i requires 0 <= i < |expected| => NumsMatch(expected[i], actual[i], t))
  }

  /** The first position at or after from holding false. */
  function FirstFalse(bars: seq<bool>, from: nat): (r: Option<nat>)
    requires from <= |bars|
    ensures r.Some? ==> from <= r.value < |bars| && !bars[r.value]
    ensures r.Some? ==> forall i :: from <= i < r.value ==> bars[i]
    ensures r.None? <==> forall i :: from <= i < |bars| ==> bars[i]
    decreases |bars| - from
  {
    if from == |bars| then None
    else if !bars[from] then Some(from)
    else FirstFalse(bars, from + 1)
  }

  /** The caller message the Matches forms hand to the scalar assertion:
      the bar index, written in decimal between a fixed lead and ": ". */
  function IndexMessage(i: nat): (r: string)
    ensures "Failed at index " <= r && EndsWith(r, ": ")
    ensures |r| == 18 + NumDigits(i)
    ensures AllDigits(r[16..|r| - 2]) && DigitsValue(r[16..|r| - 2]) == i
  {
    var lead, digits := "Failed at index ", NatText(i);
    NatTextRoundTrip(i);
    PrefixOfAppend(lead, digits + ": ");
    SuffixOfAppend(lead + digits, ": ");
    assert (lead + digits + ": ")[16..|lead + digits + ": "| - 2] == digits;
    assert lead + digits + ": " == lead + (digits + ": ");
    lead + digits + ": "
  }

  /** Where assertIndicatorMatches ends: it passes when every bar matches,
      and otherwise fails as the scalar assertion does at the first bar
      that does not, the bars before it all matching. */
  function MatchesVerdict(t: Tolerance, expected: seq<Dec>, actual: seq<Dec>): (r: Outcome)
    requires |expected| <= |actual|
    ensures r.Pass? <==> forall i :: 0 <= i < |expected| ==> NumsMatch(expected[i], actual[i], t)
    ensures !r.Pass? ==>
      exists i :: 0 <= i < |expected| && !NumsMatch(expected[i], actual[i], t) &&
        (forall j :: 0 <= j < i ==> NumsMatch(expected[j], actual[j], t)) &&
        r == AssertNumMatches(expected[i], actual[i], t, Some([Some(IndexMessage(i))]))
  {
    match FirstMismatch(t, expected, actual, 0)
    case None => Pass
    case Some(i) => AssertNumMatches(expected[i], actual[i], t, Some([Some(IndexMessage(i))]))
  }

  /** The AssertionError text of assertIndicatorNotMatches. */
  function AllMatchText(t: Tolerance): (r: string)
    ensures "Indicators match within " <= r
    ensures t.Digits? ==> EndsWith(r, "precision " + NatText(t.p))
    ensures t.Offset? ==> EndsWith(r, "delta " + Text(t.delta))
  {
    var lead := "Indicators match within ";
    var tail := match t
      case Digits(p) => "precision " + NatText(p)
      case Offset(delta) => "delta " + Text(delta);
    PrefixOfAppend(lead, tail);
    SuffixOfAppend(lead, tail);
    lead + tail
  }

  /** Where assertIndicatorNotMatches ends: it passes when some bar does not
      match, and by digits only when the two bar counts are equal too. */
  function NotMatchesVerdict(t: Tolerance, expected: seq<Dec>, actual: seq<Dec>): (r: Outcome)
    requires t.Digits? || |expected| <= |actual|
    ensures r.Pass? <==> ((t.Digits? ==> |expected| == |actual|) &&
      exists i :: 0 <= i < |expected| && !NumsMatch(expected[i], actual[i], t))
    ensures !r.Pass? ==> r == Fail(AllMatchText(t))
  {
    if t.Digits? && |expected| != |actual| then Fail(AllMatchText(t))
    else if FirstMismatch(t, expected, actual, 0).Some? then Pass
    else Fail(AllMatchText(t))
  }

  /** assertIndicatorMatches by digits. */
  method IndicatorMatchesPrecision(expected: seq<Dec>, actual: seq<Dec>, p: nat) returns (r: Outcome)
    requires |expected| <= |actual|
    ensures r == MatchesVerdict(Digits(p), expected, actual)
  {
    var i := 0;
    while i < |expected|
      invariant 0 <= i <= |expected|
      invariant FirstMismatch(Digits(p), expected, actual, 0) == FirstMismatch(Digits(p), expected, actual, i)
    {
      var outcome := AssertNumMatches(expected[i], actual[i], Digits(p), Some([Some(IndexMessage(i))]));
      if !outcome.Pass? {
        return outcome;
      }
      i := i + 1;
    }
    return Pass;
  }

  /** assertIndicatorNotMatches by digits: indicators of different bar
      counts never pass. */
  method IndicatorNotMatchesPrecision(expected: seq<Dec>, actual: seq<Dec>, p: nat) returns (r: Outcome)
    ensures r == NotMatchesVerdict(Digits(p), expected, actual)
  {
    if |expected| == |actual| {
      var i := 0;
      while i < |expected|
        invariant 0 <= i <= |expected|
        invariant FirstMismatch(Digits(p), expected, actual, 0) == FirstMismatch(Digits(p), expected, actual, i)
      {
        if !NumsMatch(expected[i], actual[i], Digits(p)) {
          return Pass;
        }
        i := i + 1;
      }
    }
    return Fail(AllMatchText(Digits(p)));
  }

  /** assertIndicatorMatches within an offset. */
  method IndicatorMatchesDelta(expected: seq<Dec>, actual: seq<Dec>, delta: Dec) returns (r: Outcome)
    requires |expected| <= |actual|
    ensures r == MatchesVerdict(Offset(delta), expected, actual)
  {
    var i := 0;
    while i < |expected|
      invariant 0 <= i <= |expected|
      invariant FirstMismatch(Offset(delta), expected, actual, 0) == FirstMismatch(Offset(delta), expected, actual, i)
    {
      var outcome := AssertNumMatches(expected[i], actual[i], Offset(delta), Some([Some(IndexMessage(i))]));
      if !outcome.Pass? {
        return outcome;
      }
      i := i + 1;
    }
    return Pass;
  }

  /** assertIndicatorNotMatches within an offset; the bar counts are not
      compared. */
  method IndicatorNotMatchesDelta(expected: seq<Dec>, actual: seq<Dec>, delta: Dec) returns (r: Outcome)
    requires |expected| <= |actual|
    ensures r == NotMatchesVerdict(Offset(delta), expected, actual)
  {
    var i := 0;
    while i < |expected|
      invariant 0 <= i <= |expected|
      invariant FirstMismatch(Offset(delta), expected, actual, 0) == FirstMismatch(Offset(delta), expected, actual, i)
    {
      if !NumsMatch(expected[i], actual[i], Offset(delta)) {
        return Pass;
      }
      i := i + 1;
    }
    return Fail(AllMatchText(Offset(delta)));
  }

  /** For indicators of equal bar count, the two forms are complementary:
      exactly one of assertIndicatorMatches and assertIndicatorNotMatches
      passes. */
  lemma VerdictsComplementary(t: Tolerance, expected: seq<Dec>, actual: seq<Dec>)
    requires |expected| == |actual|
    ensures MatchesVerdict(t, expected, actual).Pass? != NotMatchesVerdict(t, expected, actual).Pass?
  {
    var first := FirstMismatch(t, expected, actual, 0);
    if first.Some? {
      assert !NumsMatch(expected[first.value], actual[first.value], t);
    }
  }

  /** Being a prefix is transitive. */
  lemma PrefixTransitive(a: string, b: string, c: string)
    requires a <= b && b <= c
    ensures a <= c
  {
    assert c[..|a|] == b[..|a|];
  }

  /** Whatever leads a message leads it before "Value ". */
  lemma LeadPrefix(m: string, v: string, message: string)
    requires m + "Value " + v <= message
    ensures m <= message
  {
    assert m + "Value " + v == m + ("Value " + v);
    PrefixOfAppend(m, "Value " + v);
    PrefixTransitive(m, m + "Value " + v, message);
  }

  /** A caller message given by digits leads the failure message. */
  lemma CallerMessageLeads(expected: Dec, actual: Dec, p: nat, m: string)
    ensures AssertNumMatches(expected, actual, Digits(p), Some([Some(m)])).Fail? ==>
      m <= AssertNumMatches(expected, actual, Digits(p), Some([Some(m)])).message
  {
    var r := AssertNumMatches(expected, actual, Digits(p), Some([Some(m)]));
    if r.Fail? {
      assert CallerPrefix(Some([Some(m)])) == m;
      LeadPrefix(m, Text(actual), r.message);
    }
  }

  /** The Matches failure by digits names the bar: its message starts with
      "Failed at index i: " for the first bar i that does not match. The
      offset form drops the index. */
  lemma MatchesFailureNamesIndex(p: nat, expected: seq<Dec>, actual: seq<Dec>)
    requires |expected| <= |actual|
    ensures MatchesVerdict(Digits(p), expected, actual).Fail? ==>
      FirstMismatch(Digits(p), expected, actual, 0).Some? &&
      IndexMessage(FirstMismatch(Digits(p), expected, actual, 0).value)
        <= MatchesVerdict(Digits(p), expected, actual).message
  {
    var first := FirstMismatch(Digits(p), expected, actual, 0);
    if first.Some? {
      var i := first.value;
      CallerMessageLeads(expected[i], actual[i], p, IndexMessage(i));
    }
  }
}
