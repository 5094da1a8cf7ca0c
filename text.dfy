/** The textual form of numbers: the canonical string a decimal number prints
    as (java.math.BigDecimal.toString) and the parser that reads a decimal
    literal back (the BigDecimal(String) grammar: optional sign, digits with
    at most one point, optional exponent), for the ASCII digits 0-9 only. Every value a Num prints is read
    back as exactly that value, which is why re-parsing a Num's text in the
    matching layer changes nothing but the precision. */
module DecimalText {
  import opened Decimal

  datatype Option<T> = None | Some(value: T)

  predicate IsDigit(c: char)
  {
    '0' <= c <= '9'
  }

  predicate AllDigits(s: string)
  {
    forall i :: 0 <= i < |s| ==> IsDigit(s[i])
  }

  function DigitChar(n: nat): (c: char)
    requires n < 10
    ensures IsDigit(c)
  {
    ('0' as int + n) as char
  }

  function DigitValue(c: char): nat
    requires IsDigit(c)
  {
    c as int - '0' as int
  }

  /** Decimal digits of n, most significant first, without leading zeros. */
  function NatText(n: nat): (s: string)
    ensures |s| >= 1 && AllDigits(s)
  {
    if n < 10 then [DigitChar(n)] else NatText(n / 10) + [DigitChar(n % 10)]
  }

  /** The number a string of digits denotes. */
  function DigitsValue(s: string): nat
    requires AllDigits(s)
  {
    if s == [] then 0 else DigitsValue(s[..|s| - 1]) * 10 + DigitValue(s[|s| - 1])
  }

  function Zeros(k: nat): (s: string)
    ensures |s| == k && AllDigits(s)
  {
    if k == 0 then [] else "0" + Zeros(k - 1)
  }

  /** NatText writes exactly NumDigits(n) digits, with no leading zero
      unless n is zero, and they read back as n. */
  lemma {:induction false} NatTextRoundTrip(n: nat)
    ensures DigitsValue(NatText(n)) == n
    ensures |NatText(n)| == NumDigits(n)
    ensures NatText(n)[0] == '0' ==> n == 0
  {
    if n >= 10 {
      NatTextRoundTrip(n / 10);
      var s := NatText(n);
      assert s[..|s| - 1] == NatText(n / 10);
    }
  }

  lemma AppendStep(x: int, p: int, y: int, last: int)
    ensures (x * p + y) * 10 + last == x * (10 * p) + (y * 10 + last)
  {
  }

  lemma {:induction false} DigitsValueAppend(a: string, b: string)
    requires AllDigits(a) && AllDigits(b)
    ensures AllDigits(a + b)
    ensures DigitsValue(a + b) == DigitsValue(a) * Pow10(|b|) + DigitsValue(b)
    decreases |b|
  {
    if b != [] {
      var b' := b[..|b| - 1];
      assert (a + b)[..|a + b| - 1] == a + b';
      assert (a + b)[|a + b| - 1] == b[|b| - 1];
      DigitsValueAppend(a, b');
      AppendStep(DigitsValue(a), Pow10(|b'|), DigitsValue(b'), DigitValue(b[|b| - 1]));
    } else {
      assert a + b == a;
    }
  }

  lemma {:induction false} ZerosValue(k: nat)
    ensures DigitsValue(Zeros(k)) == 0
  {
    if k > 0 {
      ZerosValue(k - 1);
      DigitsValueAppend("0", Zeros(k - 1));
      assert DigitsValue("0") == 0;
    }
  }

  /** Leading zeros do not change the number a digit string denotes. */
  lemma LeadingZeros(k: nat, s: string)
    requires AllDigits(s)
    ensures AllDigits(Zeros(k) + s)
    ensures DigitsValue(Zeros(k) + s) == DigitsValue(s)
  {
    DigitsValueAppend(Zeros(k), s);
    ZerosValue(k);
  }

  /** The canonical text without the sign: plain notation when the scale is
      not negative and the adjusted exponent is at least -6, scientific
      notation otherwise. */
  function UnsignedText(d: Dec): string
  {
    var digits := NatText(Abs(d.mant));
    var adjusted := d.exp + (|digits| - 1);
    if d.exp <= 0 && adjusted >= -6 then PlainText(digits, -d.exp)
    else ScientificText(digits, adjusted)
  }

  /** digits with a point inserted scale places from the right, padded with
      zeros and a leading "0" when there are not enough digits. */
  function PlainText(digits: string, scale: nat): string
  {
    if scale == 0 then digits
    else if |digits| > scale then digits[..|digits| - scale] + ("." + digits[|digits| - scale..])
    else "0" + ("." + (Zeros(scale - |digits|) + digits))
  }

  /** One digit, the others after a point, then E, the sign and the adjusted
      exponent. */
  function ScientificText(digits: string, adjusted: int): string
  {
    (if |digits| > 1 then digits[..1] + ("." + digits[1..]) else digits)
    + ("E" + ((if adjusted < 0 then "-" else "+") + NatText(Abs(adjusted))))
  }

  /** The canonical string of a number (BigDecimal.toString). */
  function Text(d: Dec): (r: string)
    ensures |r| > 0
    ensures r[0] == '-' <==> d.mant < 0
  {
    UnsignedTextStart(d);
    (if d.mant < 0 then "-" else "") + UnsignedText(d)
  }

  predicate IsExponentMarker(c: char)
  {
    c == 'E' || c == 'e'
  }

  /** Index of the first exponent marker, |s| when there is none. */
  function ExponentIndex(s: string): (k: nat)
    ensures k <= |s|
  {
    if s == [] then 0 else if IsExponentMarker(s[0]) then 0 else 1 + ExponentIndex(s[1..])
  }

  /** Index of the first point, |s| when there is none. */
  function PointIndex(s: string): (k: nat)
    ensures k <= |s|
  {
    if s == [] then 0 else if s[0] == '.' then 0 else 1 + PointIndex(s[1..])
  }

  /** The coefficient: digits with at most one point and at least one digit,
      read as its unscaled value and the number of digits after the point. */
  function ParseCoefficient(c: string): Option<(nat, nat)>
  {
    var j := PointIndex(c);
    if j == |c| then
      if |c| > 0 && AllDigits(c) then Some((DigitsValue(c), 0)) else None
    else
      var whole, frac := c[..j], c[j + 1..];
      if |whole| + |frac| > 0 && AllDigits(whole) && AllDigits(frac)
      then Some((DigitsValue(whole + frac), |frac|))
      else None
  }

  /** The exponent: an optional sign and at least one digit. */
  function ParseExponent(t: string): Option<int>
  {
    if |t| > 0 && (t[0] == '-' || t[0] == '+') then
      var rest := t[1..];
      if |rest| > 0 && AllDigits(rest)
      then var v: int := DigitsValue(rest); Some(if t[0] == '-' then -v else v)
      else None
    else if |t| > 0 && AllDigits(t) then Some(DigitsValue(t))
    else None
  }

  function ParseUnsigned(s: string): Option<Dec>
  {
    var k := ExponentIndex(s);
    var coefficient := ParseCoefficient(s[..k]);
    var exponent := if k == |s| then Some(0) else ParseExponent(s[k + 1..]);
    if coefficient.None? || exponent.None? then None
    else Some(Dec(coefficient.value.0, exponent.value - coefficient.value.1))
  }

  /** A decimal literal read exactly (BigDecimal(String)); None for text that
      is not a literal, where the numeric backend throws
      NumberFormatException. */
  function Parse(s: string): (r: Option<Dec>)
    ensures r.Some? ==> |s| > 0
    ensures r.Some? && s[0] == '-' ==> r.value.mant <= 0
    ensures r.Some? && s[0] != '-' ==> r.value.mant >= 0
  {
    if |s| > 0 && (s[0] == '-' || s[0] == '+') then
      match ParseUnsigned(s[1..])
      case None => None
      case Some(d) => Some(if s[0] == '-' then Dec(-d.mant, d.exp) else d)
    else ParseUnsigned(s)
  }

  lemma {:induction false} ExponentIndexAppend(a: string, b: string)
    requires NoMarker(a)
    ensures ExponentIndex(a + b) == |a| + ExponentIndex(b)
  {
    if a != [] {
      assert (a + b)[0] == a[0];
      assert (a + b)[1..] == a[1..] + b;
      ExponentIndexAppend(a[1..], b);
    } else {
      assert a + b == b;
    }
  }

  lemma {:induction false} PointIndexAppend(a: string, b: string)
    requires forall i :: 0 <= i < |a| ==> a[i] != '.'
    ensures PointIndex(a + b) == |a| + PointIndex(b)
  {
    if a != [] {
      assert (a + b)[0] == a[0];
      assert (a + b)[1..] == a[1..] + b;
      PointIndexAppend(a[1..], b);
    } else {
      assert a + b == b;
    }
  }

  /** A digit string is a complete coefficient with no fraction part. */
  lemma IntegerCoefficient(s: string)
    requires |s| > 0 && AllDigits(s)
    ensures ParseCoefficient(s) == Some((DigitsValue(s), 0))
  {
    PointIndexAppend(s, []);
    assert s + [] == s;
  }

  /** whole "." frac is read as the digits of whole + frac with |frac|
      digits after the point. */
  lemma PointCoefficient(whole: string, frac: string)
    requires |whole| > 0 && AllDigits(whole) && AllDigits(frac)
    ensures ParseCoefficient(whole + ("." + frac)) == Some((DigitsValue(whole + frac), |frac|))
  {
    var c := whole + ("." + frac);
    PointIndexAppend(whole, "." + frac);
    assert c[..|whole|] == whole;
    assert c[|whole| + 1..] == frac;
  }

  /** The exponent the scientific notation writes is read back. */
  lemma ExponentRoundTrip(x: int)
    ensures ParseExponent((if x < 0 then "-" else "+") + NatText(Abs(x))) == Some(x)
  {
    var t := (if x < 0 then "-" else "+") + NatText(Abs(x));
    assert t[1..] == NatText(Abs(x));
    NatTextRoundTrip(Abs(x));
  }

  /** A text without an exponent marker is read as its coefficient at
      exponent zero minus its fraction length. */
  lemma NoExponent(c: string)
    requires NoMarker(c)
    ensures ParseUnsigned(c) == match ParseCoefficient(c)
      case None => None
      case Some(cf) => Some(Dec(cf.0, 0 - cf.1))
  {
    ExponentIndexAppend(c, []);
    assert c + [] == c;
    assert c[..|c|] == c;
  }

  predicate NoMarker(s: string)
  {
    forall i :: 0 <= i < |s| ==> !IsExponentMarker(s[i])
  }

  lemma DigitsNoMarker(s: string)
    requires AllDigits(s)
    ensures NoMarker(s)
  {
  }

  lemma NoMarkerAppend(a: string, b: string)
    requires NoMarker(a) && NoMarker(b)
    ensures NoMarker(a + b)
  {
    forall i | 0 <= i < |a + b|
      ensures !IsExponentMarker((a + b)[i])
    {
      if i < |a| {
        assert (a + b)[i] == a[i];
      } else {
        assert (a + b)[i] == b[i - |a|];
      }
    }
  }

  lemma PlainNoMarker(digits: string, scale: nat)
    requires AllDigits(digits)
    ensures NoMarker(PlainText(digits, scale))
  {
    DigitsNoMarker(digits);
    if scale > 0 {
      assert NoMarker(".");
      if |digits| > scale {
        var whole, frac := digits[..|digits| - scale], digits[|digits| - scale..];
        DigitsNoMarker(whole);
        DigitsNoMarker(frac);
        NoMarkerAppend(whole, ".");
        NoMarkerAppend(whole + ".", frac);
      } else {
        DigitsNoMarker(Zeros(scale - |digits|));
        assert NoMarker("0.");
        NoMarkerAppend("0.", Zeros(scale - |digits|));
        NoMarkerAppend("0." + Zeros(scale - |digits|), digits);
      }
    }
  }

  lemma PaddedCoefficient(digits: string, scale: nat)
    requires |digits| > 0 && AllDigits(digits) && 0 < scale && |digits| <= scale
    ensures ParseCoefficient(PlainText(digits, scale)) == Some((DigitsValue(digits), scale))
  {
    var k := scale - |digits|;
    var frac := Zeros(k) + digits;
    LeadingZeros(k, digits);
    PointCoefficient("0", frac);
    assert "0" + frac == Zeros(k + 1) + digits;
    LeadingZeros(k + 1, digits);
    assert DigitsValue("0" + frac) == DigitsValue(digits);
    assert |frac| == scale;
    assert PlainText(digits, scale) == "0" + ("." + frac);
  }

  lemma SplitCoefficient(digits: string, scale: nat)
    requires |digits| > 0 && AllDigits(digits) && 0 < scale < |digits|
    ensures ParseCoefficient(PlainText(digits, scale)) == Some((DigitsValue(digits), scale))
  {
    var cut := |digits| - scale;
    var whole, frac := digits[..cut], digits[cut..];
    SliceDigits(digits, cut);
    assert PlainText(digits, scale) == whole + ("." + frac);
    PointCoefficient(whole, frac);
  }

  /** Both sides of a cut through a digit string are digit strings, and
      they join back into it. */
  lemma SliceDigits(digits: string, cut: nat)
    requires AllDigits(digits) && cut <= |digits|
    ensures AllDigits(digits[..cut]) && AllDigits(digits[cut..])
    ensures digits[..cut] + digits[cut..] == digits
  {
    assert forall i :: cut <= i < |digits| ==> digits[cut..][i - cut] == digits[i];
  }

  /** The plain notation is read back as the digits at the given scale. */
  lemma PlainCoefficient(digits: string, scale: nat)
    requires |digits| > 0 && AllDigits(digits)
    ensures ParseCoefficient(PlainText(digits, scale)) == Some((DigitsValue(digits), scale))
  {
    if scale == 0 {
      IntegerCoefficient(digits);
    } else if |digits| > scale {
      SplitCoefficient(digits, scale);
    } else {
      PaddedCoefficient(digits, scale);
    }
  }

  /** A text with one exponent marker is read as its coefficient shifted by
      its exponent. */
  lemma WithExponent(body: string, c: string, t: string, m: nat, f: nat, x: int)
    requires body == c + ("E" + t) && NoMarker(c)
    requires ParseCoefficient(c) == Some((m, f)) && ParseExponent(t) == Some(x)
    ensures ParseUnsigned(body) == Some(Dec(m, x - f))
  {
    ExponentIndexAppend(c, "E" + t);
    assert ("E" + t)[0] == 'E';
    assert ExponentIndex("E" + t) == 0;
    assert body[..|c|] == c;
    assert body[|c| + 1..] == t;
  }

  lemma PlainRoundTrip(d: Dec)
    requires d.exp <= 0 && d.exp + (NumDigits(Abs(d.mant)) - 1) >= -6
    ensures ParseUnsigned(UnsignedText(d)) == Some(Dec(Abs(d.mant), d.exp))
  {
    var n := Abs(d.mant);
    var digits := NatText(n);
    var scale: nat := -d.exp;
    var body := PlainText(digits, scale);
    NatTextRoundTrip(n);
    assert UnsignedText(d) == body;
    assert ParseUnsigned(body) == Some(Dec(n, d.exp)) by {
      PlainCoefficient(digits, scale);
      PlainNoMarker(digits, scale);
      NoExponent(body);
    }
  }

  /** The coefficient of the scientific notation: one digit, then the others
      after a point. */
  lemma ScientificCoefficient(digits: string)
    requires |digits| > 0 && AllDigits(digits)
    ensures var c := if |digits| > 1 then digits[..1] + ("." + digits[1..]) else digits;
      var f: nat := |digits| - 1;
      NoMarker(c) && ParseCoefficient(c) == Some((DigitsValue(digits), f))
  {
    DigitsNoMarker(digits);
    if |digits| > 1 {
      var whole, frac := digits[..1], digits[1..];
      PointCoefficient(whole, frac);
      assert whole + frac == digits;
      DigitsNoMarker(whole);
      DigitsNoMarker(frac);
      assert NoMarker(".");
      NoMarkerAppend(".", frac);
      NoMarkerAppend(whole, "." + frac);
    } else {
      IntegerCoefficient(digits);
    }
  }

  /** The scientific notation of a digit string and an adjusted exponent
      is read back at exponent adjusted - (|digits| - 1). */
  lemma ScientificParse(digits: string, adjusted: int)
    requires |digits| > 0 && AllDigits(digits)
    ensures ParseUnsigned(ScientificText(digits, adjusted))
      == Some(Dec(DigitsValue(digits), adjusted - (|digits| - 1)))
  {
    var c := if |digits| > 1 then digits[..1] + ("." + digits[1..]) else digits;
    var t := (if adjusted < 0 then "-" else "+") + NatText(Abs(adjusted));
    var body := ScientificText(digits, adjusted);
    assert body == c + ("E" + t);
    ScientificCoefficient(digits);
    var f: nat := |digits| - 1;
    ExponentRoundTrip(adjusted);
    WithExponent(body, c, t, DigitsValue(digits), f, adjusted);
    assert ParseUnsigned(body) == Some(Dec(DigitsValue(digits), adjusted - f));
    assert adjusted - f == adjusted - (|digits| - 1);
    assert Dec(DigitsValue(digits), adjusted - f) == Dec(DigitsValue(digits), adjusted - (|digits| - 1));
  }

  lemma ScientificRoundTrip(d: Dec)
    requires !(d.exp <= 0 && d.exp + (NumDigits(Abs(d.mant)) - 1) >= -6)
    ensures ParseUnsigned(UnsignedText(d)) == Some(Dec(Abs(d.mant), d.exp))
  {
    var n := Abs(d.mant);
    var digits := NatText(n);
    var adjusted := d.exp + (|digits| - 1);
    NatTextRoundTrip(n);
    assert UnsignedText(d) == ScientificText(digits, adjusted);
    ScientificParse(digits, adjusted);
  }

  /** A minus sign in front of an unsigned literal negates it. */
  lemma SignedParse(s: string, body: string, neg: bool, m: nat, e: int)
    requires s == (if neg then "-" else "") + body
    requires |body| > 0 && IsDigit(body[0])
    requires ParseUnsigned(body) == Some(Dec(m, e))
    ensures Parse(s) == Some(Dec(if neg then -(m as int) else m as int, e))
  {
    if neg {
      assert s[0] == '-' && s[1..] == body;
    } else {
      assert s == body;
    }
  }

  /** The unsigned text starts with a digit. */
  lemma UnsignedTextStart(d: Dec)
    ensures |UnsignedText(d)| > 0 && IsDigit(UnsignedText(d)[0])
  {
    var digits := NatText(Abs(d.mant));
    var adjusted := d.exp + (|digits| - 1);
    if d.exp <= 0 && adjusted >= -6 && -d.exp > 0 && |digits| <= -d.exp {
      assert UnsignedText(d)[0] == '0';
    } else {
      assert UnsignedText(d)[0] == digits[0];
    }
  }

  /** Reading the canonical string of a number gives back the same number,
      with the same exponent: toString followed by BigDecimal(String) is the
      identity. */
  lemma TextRoundTrip(d: Dec)
    ensures Parse(Text(d)) == Some(d)
  {
    var n := Abs(d.mant);
    NatTextRoundTrip(n);
    if d.exp <= 0 && d.exp + (NumDigits(n) - 1) >= -6 {
      PlainRoundTrip(d);
    } else {
      ScientificRoundTrip(d);
    }
    UnsignedTextStart(d);
    SignedParse(Text(d), UnsignedText(d), d.mant < 0, n, d.exp);
    assert Dec(if d.mant < 0 then -(n as int) else n as int, d.exp) == d;
  }

  /** An integer at exponent zero is written as Integer.toString and
      Long.toString write it: an optional minus sign and its digits. */
  lemma IntegerText(n: int)
    ensures Text(Dec(n, 0)) == (if n < 0 then "-" else "") + NatText(Abs(n))
  {
    NatTextRoundTrip(Abs(n));
    assert UnsignedText(Dec(n, 0)) == PlainText(NatText(Abs(n)), 0);
  }
}
