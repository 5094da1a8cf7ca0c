/** Exact decimal numbers as the arbitrary-precision numeric backend holds them:
    an unscaled integer and a power-of-ten exponent (the negated scale), with
    the exact subtraction, absolute value and value comparison the matching
    layer uses, and re-rounding to a number of significant digits. */
module Decimal {

  /** The number mant * 10^exp. Two Decs with different exponents may denote
      the same number (1.0 and 1.00); Compare looks only at the number. */
  datatype Dec = Dec(mant: int, exp: int)

  function Abs(i: int): nat
  {
    if i < 0 then -i else i
  }

  function Min(a: int, b: int): int
  {
    if a <= b then a else b
  }

  function Pow10(n: nat): (r: nat)
    ensures r >= 1
  {
    if n == 0 then 1 else 10 * Pow10(n - 1)
  }

  lemma {:induction false} Pow10Add(a: nat, b: nat)
    ensures Pow10(a + b) == Pow10(a) * Pow10(b)
  {
    if a > 0 {
      Pow10Add(a - 1, b);
      assert Pow10(a + b) == 10 * Pow10(a - 1 + b);
    }
  }

  lemma {:induction false} Pow10Monotone(a: nat, b: nat)
    requires a <= b
    ensures Pow10(a) <= Pow10(b)
  {
    if a < b {
      Pow10Monotone(a, b - 1);
    }
  }

  /** Number of decimal digits of n; zero is written with one digit. */
  function NumDigits(n: nat): (k: nat)
    ensures k >= 1
  {
    if n < 10 then 1 else 1 + NumDigits(n / 10)
  }

  /** n has exactly NumDigits(n) digits: it lies below 10^k and, unless it is
      zero, at or above 10^(k-1). */
  lemma {:induction false} NumDigitsBounds(n: nat)
    ensures n < Pow10(NumDigits(n))
    ensures n > 0 ==> Pow10(NumDigits(n) - 1) <= n
  {
    if n >= 10 {
      NumDigitsBounds(n / 10);
    }
  }

  /** A number below 10^k has at most k digits. */
  lemma {:induction false} NumDigitsAtMost(n: nat, k: nat)
    requires 1 <= k && n < Pow10(k)
    ensures NumDigits(n) <= k
  {
    if n >= 10 {
      NumDigitsAtMost(n / 10, k - 1);
    }
  }

  /** The digit count is the unique k with 10^(k-1) <= n < 10^k. */
  lemma {:induction false} NumDigitsUnique(n: nat, k: nat)
    requires k >= 1 && Pow10(k - 1) <= n < Pow10(k)
    ensures NumDigits(n) == k
  {
    if k > 1 {
      assert n >= 10 by { Pow10Monotone(1, k - 1); }
      NumDigitsUnique(n / 10, k - 1);
    } else {
      assert n < 10;
    }
  }

  /** The mantissa of d written at the smaller exponent e. */
  function Scaled(d: Dec, e: int): int
    requires e <= d.exp
  {
    d.mant * Pow10(d.exp - e)
  }

  /** BigDecimal.compareTo: -1, 0 or 1 as a is below, equal to or above b in
      value; the exponents do not matter. */
  function Compare(a: Dec, b: Dec): (c: int)
    ensures -1 <= c <= 1
  {
    var e := Min(a.exp, b.exp);
    var x := Scaled(a, e);
    var y := Scaled(b, e);
    if x < y then -1 else if x == y then 0 else 1
  }

  /** BigDecimal.subtract, exact, at the smaller exponent of the two; a
      rounding context is applied afterwards with Round. */
  function Sub(a: Dec, b: Dec): (r: Dec)
    ensures r.exp == Min(a.exp, b.exp)
    ensures r.mant < 0 <==> Compare(a, b) < 0
    ensures r.mant == 0 <==> Compare(a, b) == 0
  {
    var e := Min(a.exp, b.exp);
    Dec(Scaled(a, e) - Scaled(b, e), e)
  }

  /** Num.abs: the same scale, the sign dropped. */
  function AbsDec(d: Dec): (r: Dec)
    ensures r.exp == d.exp && r.mant >= 0
    ensures r.mant == d.mant || r.mant == -d.mant
  {
    Dec(Abs(d.mant), d.exp)
  }

  /** Num.isGreaterThan: compareTo is positive, that is, b is below a. */
  predicate IsGreaterThan(a: Dec, b: Dec)
    ensures IsGreaterThan(a, b) <==> Compare(b, a) < 0
  {
    Compare(a, b) > 0
  }

  /** n / u rounded HALF_UP to an integer: up when the remainder is at
      least half of u. */
  function HalfUpQuotient(n: nat, u: nat): nat
    requires u >= 1
  {
    if 2 * (n % u) >= u then n / u + 1 else n / u
  }

  /** Re-rounding to p significant digits with rounding mode HALF_UP (ties
      away from zero), as a MathContext of precision p does; p == 0 is the
      unlimited context and keeps d as it is. A carry that reaches 10^p is
      written with p digits at the next exponent, so the result never has
      more than p digits. */
  function Round(d: Dec, p: nat): (r: Dec)
    ensures p == 0 || NumDigits(Abs(d.mant)) <= p ==> r == d
    ensures r.exp >= d.exp
    ensures r.mant < 0 <==> d.mant < 0
    ensures r.mant == 0 <==> d.mant == 0
  {
    var n := Abs(d.mant);
    var k := NumDigits(n);
    if p == 0 || k <= p then d
    else
      QuotientDigits(n, k, p);
      var drop := k - p;
      var q := HalfUpQuotient(n, Pow10(drop));
      var m := if q == Pow10(p) then Pow10(p - 1) else q;
      var e := if q == Pow10(p) then d.exp + drop + 1 else d.exp + drop;
      Dec(if d.mant < 0 then -m else m, e)
  }

  lemma MulMonotone(a: nat, b: nat, c: nat)
    requires a <= b
    ensures a * c <= b * c
  {
  }

  lemma DivMod(n: nat, u: nat)
    requires u >= 1
    ensures n == (n / u) * u + n % u && 0 <= n % u < u
  {
  }

  /** Integer division keeps a number's place between two multiples of the
      divisor. */
  lemma QuotientBetween(n: nat, u: nat, lo: nat, hi: nat)
    requires u >= 1 && lo * u <= n < hi * u
    ensures lo <= n / u < hi
  {
    var q := n / u;
    DivMod(n, u);
    if q >= hi {
      MulMonotone(hi, q, u);
      assert false;
    }
    if q < lo {
      MulMonotone(q + 1, lo, u);
      assert false;
    }
  }

  /** The rounded magnitude q (before the carry is written out) of a
      mantissa n of k > p digits lies in [10^(p-1), 10^p]. */
  lemma QuotientDigits(n: nat, k: nat, p: nat)
    requires p >= 1 && k > p && NumDigits(n) == k
    ensures var u := Pow10(k - p);
      Pow10(p - 1) <= n / u < Pow10(p)
  {
    NumDigitsBounds(n);
    Pow10Add(p, k - p);
    Pow10Add(p - 1, k - p);
    assert k - 1 == (p - 1) + (k - p);
    QuotientBetween(n, Pow10(k - p), Pow10(p - 1), Pow10(p));
  }

  /** A rounded value never has more than p significant digits. */
  lemma RoundDigits(d: Dec, p: nat)
    requires p >= 1
    ensures NumDigits(Abs(Round(d, p).mant)) <= p
  {
    var n := Abs(d.mant);
    var k := NumDigits(n);
    if k > p {
      QuotientDigits(n, k, p);
      var q := HalfUpQuotient(n, Pow10(k - p));
      if q == Pow10(p) {
        assert Pow10(p) == 10 * Pow10(p - 1);
        NumDigitsUnique(Pow10(p - 1), p);
      } else {
        NumDigitsUnique(q, p);
      }
    }
  }

  /** Rounding leaves a value unchanged exactly when it already has at most p
      digits (or the precision is unlimited). */
  lemma RoundFixes(d: Dec, p: nat)
    ensures Round(d, p) == d <==> (p == 0 || NumDigits(Abs(d.mant)) <= p)
  {
    if p >= 1 {
      RoundDigits(d, p);
    }
  }

  /** Rounding twice at the same precision is rounding once. */
  lemma RoundIdempotent(d: Dec, p: nat)
    ensures Round(Round(d, p), p) == Round(d, p)
  {
    if p >= 1 {
      RoundDigits(d, p);
    }
  }

  /** The HALF_UP quotient times u is a multiple of u within half of u from
      n, and an exact tie lands above n. */
  lemma HalfUpNearest(n: nat, u: nat)
    requires u >= 1
    ensures var diff := Abs(HalfUpQuotient(n, u) * u - n);
      2 * diff <= u && (2 * diff == u ==> HalfUpQuotient(n, u) * u > n)
  {
    DivMod(n, u);
    var q, r := n / u, n % u;
    if 2 * r >= u {
      assert (q + 1) * u - n == u - r;
    } else {
      assert q * u - n == -r;
    }
  }

  lemma CarryShift(p: nat, drop: nat)
    requires p >= 1
    ensures Pow10(p - 1) * Pow10(drop + 1) == Pow10(p) * Pow10(drop)
  {
    Pow10Add(p - 1, drop + 1);
    Pow10Add(p, drop);
    assert p - 1 + (drop + 1) == p + drop;
  }

  lemma SignedMul(neg: bool, m: int, s: int)
    ensures (if neg then -m else m) * s == if neg then -(m * s) else m * s
  {
  }

  /** Written back at d's exponent, a value rounded at p < NumDigits digits is
      the HALF_UP quotient times the dropped unit, with d's sign. */
  lemma RoundScaled(d: Dec, p: nat)
    requires p >= 1 && NumDigits(Abs(d.mant)) > p
    ensures Round(d, p).exp >= d.exp
    ensures var u := Pow10(NumDigits(Abs(d.mant)) - p);
      var mag := HalfUpQuotient(Abs(d.mant), u) * u;
      Scaled(Round(d, p), d.exp) == if d.mant < 0 then -mag else mag
  {
    var n := Abs(d.mant);
    var drop := NumDigits(n) - p;
    var u := Pow10(drop);
    var q := HalfUpQuotient(n, u);
    var carry := q == Pow10(p);
    var m := if carry then Pow10(p - 1) else q;
    var shift := if carry then drop + 1 else drop;
    assert Round(d, p) == Dec(if d.mant < 0 then -m else m, d.exp + shift);
    assert m * Pow10(shift) == q * u by {
      if carry {
        CarryShift(p, drop);
      }
    }
    SignedMul(d.mant < 0, m, Pow10(shift));
  }

  /** The rounded value is the nearest p-digit value: written back at d's
      exponent it is a whole number of units in the p-th digit, it differs
      from d's mantissa by at most half such a unit, an exact tie goes away
      from zero (HALF_UP), and the sign is kept. */
  lemma RoundNearest(d: Dec, p: nat)
    requires p >= 1 && NumDigits(Abs(d.mant)) > p
    ensures Round(d, p).exp >= d.exp
    ensures Scaled(Round(d, p), d.exp) % Pow10(NumDigits(Abs(d.mant)) - p) == 0
    ensures var diff := Abs(Scaled(Round(d, p), d.exp) - d.mant);
      var unit := Pow10(NumDigits(Abs(d.mant)) - p);
      2 * diff <= unit &&
      (2 * diff == unit ==> Abs(Scaled(Round(d, p), d.exp)) > Abs(d.mant))
    ensures d.mant < 0 ==> Round(d, p).mant < 0
    ensures d.mant > 0 ==> Round(d, p).mant > 0
  {
    var n := Abs(d.mant);
    var k := NumDigits(n);
    var u := Pow10(k - p);
    RoundScaled(d, p);
    HalfUpNearest(n, u);
    QuotientDigits(n, k, p);
    RoundMultiple(d, p);
  }

  /** Written back at d's exponent, the rounded value is a whole number of
      units in the p-th digit. */
  lemma RoundMultiple(d: Dec, p: nat)
    requires p >= 1 && NumDigits(Abs(d.mant)) > p
    ensures Scaled(Round(d, p), d.exp) % Pow10(NumDigits(Abs(d.mant)) - p) == 0
  {
    var u := Pow10(NumDigits(Abs(d.mant)) - p);
    RoundScaled(d, p);
    SignedMultiple(Scaled(Round(d, p), d.exp), HalfUpQuotient(Abs(d.mant), u), u, d.mant < 0);
  }

  /** A whole number of units, of either sign, leaves no remainder. */
  lemma SignedMultiple(x: int, q: nat, u: nat, negative: bool)
    requires u >= 1
    requires var mag := q * u; x == if negative then -mag else mag
    ensures x % u == 0
  {
    var signed: int := if negative then -(q as int) else q as int;
    assert x == signed * u;
    MultipleOf(signed, u);
  }

  /** A multiple of u leaves no remainder. */
  lemma MultipleOf(q: int, u: int)
    requires u >= 1
    ensures (q * u) % u == 0
  {
    var k := q - (q * u) / u;
    assert k * u == (q * u) % u;
    ScaleOrder(k, 0, u);
    ScaleOrder(k, 1, u);
  }

  /** Writing d at an exponent f below e is writing it at e and then
      appending e - f zeros. */
  lemma ScaledShift(d: Dec, e: int, f: int)
    requires f <= e <= d.exp
    ensures Scaled(d, f) == Scaled(d, e) * Pow10(e - f)
  {
    Pow10Add(d.exp - e, e - f);
    assert d.exp - f == (d.exp - e) + (e - f);
    MulAssocInt(d.mant, Pow10(d.exp - e), Pow10(e - f));
  }

  lemma MulAssocInt(a: int, b: int, c: int)
    ensures a * (b * c) == (a * b) * c
  {
  }

  lemma ScaleOrder(x: int, y: int, c: int)
    requires c >= 1
    ensures x < y <==> x * c < y * c
    ensures x == y <==> x * c == y * c
  {
    assert y * c - x * c == (y - x) * c;
    if x < y {
      assert (y - x) * c >= 1;
    } else if y < x {
      assert (x - y) * c >= 1;
    }
  }

  /** Compare is independent of the exponent the two numbers are written at:
      at any exponent e common to both, it orders the integer mantissas. */
  lemma CompareAt(a: Dec, b: Dec, e: int)
    requires e <= a.exp && e <= b.exp
    ensures Compare(a, b) < 0 <==> Scaled(a, e) < Scaled(b, e)
    ensures Compare(a, b) == 0 <==> Scaled(a, e) == Scaled(b, e)
    ensures Compare(a, b) > 0 <==> Scaled(a, e) > Scaled(b, e)
  {
    var m := Min(a.exp, b.exp);
    ScaledShift(a, m, e);
    ScaledShift(b, m, e);
    ScaleOrder(Scaled(a, m), Scaled(b, m), Pow10(m - e));
  }

  /** A number that is not negative is greater than any negative one,
      whatever the two scales. */
  lemma NonNegativeAbove(a: Dec, b: Dec)
    requires a.mant >= 0 && b.mant < 0
    ensures Compare(a, b) > 0
  {
    var e := Min(a.exp, b.exp);
    ScaleOrder(b.mant, 0, Pow10(b.exp - e));
    ScaleOrder(0, a.mant, Pow10(a.exp - e));
  }

  /** Sub is exact subtraction at every common exponent. */
  lemma SubAt(a: Dec, b: Dec, e: int)
    requires e <= a.exp && e <= b.exp
    ensures Sub(a, b).exp == Min(a.exp, b.exp)
    ensures Scaled(Sub(a, b), e) == Scaled(a, e) - Scaled(b, e)
  {
    var m := Min(a.exp, b.exp);
    var c := Pow10(m - e);
    ScaledShift(a, m, e);
    ScaledShift(b, m, e);
    ScaledShift(Sub(a, b), m, e);
    assert (Scaled(a, m) - Scaled(b, m)) * c == Scaled(a, m) * c - Scaled(b, m) * c;
  }

  /** AbsDec is the absolute value at every exponent. */
  lemma AbsAt(d: Dec, e: int)
    requires e <= d.exp
    ensures Scaled(AbsDec(d), e) == Abs(Scaled(d, e))
  {
    var c := Pow10(d.exp - e);
    ScaleOrder(d.mant, 0, c);
    if d.mant < 0 {
      assert (-d.mant) * c == -(d.mant * c);
    }
  }

  /** Rounding commutes with negation: HALF_UP works on the magnitude and
      puts the sign back. */
  lemma RoundNegate(d: Dec, p: nat)
    ensures Round(Dec(-d.mant, d.exp), p) == Dec(-Round(d, p).mant, Round(d, p).exp)
  {
    assert Abs(-d.mant) == Abs(d.mant);
  }

  /** Swapping the operands of Sub negates the difference. */
  lemma SubSwap(a: Dec, b: Dec)
    ensures Sub(b, a) == Dec(-Sub(a, b).mant, Sub(a, b).exp)
  {
    assert Min(b.exp, a.exp) == Min(a.exp, b.exp);
  }

  /** Compare is a total order on values: transitive for <= and for ==. */
  lemma {:induction false} CompareTransitive(a: Dec, b: Dec, c: Dec)
    ensures Compare(a, b) <= 0 && Compare(b, c) <= 0 ==> Compare(a, c) <= 0
    ensures Compare(a, b) == 0 && Compare(b, c) == 0 ==> Compare(a, c) == 0
  {
    var e := Min(Min(a.exp, b.exp), c.exp);
    CompareAt(a, b, e);
    CompareAt(b, c, e);
    CompareAt(a, c, e);
  }
}
