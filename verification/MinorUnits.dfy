/**
 Conversion between decimal amounts and integers of minor units (utils/currency.py), under Python's default
 decimal context: 28 significant digits, ties to even. NaN, infinities and exponent limits are left out.
 */
module MinorUnits {
  import opened Wrappers
  import opened DecimalText
  import opened Arithmetic

  /** coef times ten to the exp. */
  datatype Dec = Dec(coef: int, exp: int)

  const PRECISION: nat := 28

  function Abs(x: int): nat {
    if x < 0 then -x else x
  }

  function DigitCount(n: nat): nat {
    |FormatNat(n)|
  }

  /** n divided by d, to the nearest integer, ties to the even one. */
  function HalfEvenNat(n: nat, d: nat): nat
    requires d > 0
  {
    var q, r := n / d, n % d;
    if 2 * r < d then q
    else if 2 * r > d then q + 1
    else if q % 2 == 0 then q else q + 1
  }

  function HalfEven(x: int, d: nat): int
    requires d > 0
  {
    var q: int := HalfEvenNat(Abs(x), d);
    if x < 0 then -q else q
  }

  /** What every arithmetic result goes through: digits beyond the precision are rounded away. */
  function Round(d: Dec): Dec {
    if Abs(d.coef) < Pow10(PRECISION) then d
    else
      var drop := DigitCount(Abs(d.coef)) - PRECISION;
      if drop <= 0 then d else Dec(HalfEven(d.coef, Pow10(drop)), d.exp + drop)
  }

  function Times(d: Dec, n: int): Dec {
    Round(Dec(d.coef * n, d.exp))
  }

  /** An integer over a power of ten: the exact quotient is a decimal, then rounded. */
  function OverPow10(n: int, e: nat): Dec {
    var places: int := e;
    Round(Dec(n, -places))
  }

  function ToIntegralValue(d: Dec): Dec {
    if d.exp >= 0 then d else Dec(HalfEven(d.coef, Pow10(-d.exp)), 0)
  }

  /** Numeric equality, on the common scale of both exponents. */
  predicate Equal(a: Dec, b: Dec) {
    var low := if a.exp < b.exp then a.exp else b.exp;
    a.coef * Pow10(a.exp - low) == b.coef * Pow10(b.exp - low)
  }

  /** int() of an integral decimal. */
  function ToInt(d: Dec): int
    requires d.exp >= 0
  {
    d.coef * Pow10(d.exp)
  }

  /** currencyExponent is what the currency table gives; None stands for InvalidAmountError. */
  function AmountToMinorUnits(amount: Dec, currencyExponent: nat, minAllowed: Option<int>): Option<int> {
    var normalizedAmount := Times(amount, Pow10(currencyExponent));
    var integralAmount := ToIntegralValue(normalizedAmount);
    if !Equal(normalizedAmount, integralAmount) then None
    else
      var normalized := ToInt(integralAmount);
      if minAllowed.Some? && normalized < minAllowed.value then None else Some(normalized)
  }

  function AmountFromMinorUnits(minorUnits: int, currencyExponent: nat): Dec {
    OverPow10(minorUnits, currencyExponent)
  }

  // --------------------------------------------------------------------------------------------------
  // Powers of ten and numeric equality
  // --------------------------------------------------------------------------------------------------

  lemma {:induction false} Pow10Add(a: nat, b: nat)
    ensures Pow10(a + b) == Pow10(a) * Pow10(b)
  {
    if a > 0 {
      Pow10Add(a - 1, b);
      assert Pow10(a + b) == 10 * Pow10(a + b - 1);
      TimesAssociative(10, Pow10(a - 1), Pow10(b));
    }
  }

  lemma TimesAssociative(a: int, b: int, c: int)
    ensures a * b * c == a * (b * c)
  {
  }

  lemma CancelPow10(a: int, b: int, k: nat)
    ensures a * Pow10(k) == b * Pow10(k) <==> a == b
  {
    if a < b {
      assert a * Pow10(k) < b * Pow10(k);
    } else if b < a {
      assert b * Pow10(k) < a * Pow10(k);
    }
  }

  /** Equality may be checked on any scale below both exponents. */
  lemma EqualOnScale(a: Dec, b: Dec, low: int)
    requires low <= a.exp && low <= b.exp
    ensures Equal(a, b) <==> a.coef * Pow10(a.exp - low) == b.coef * Pow10(b.exp - low)
  {
    var least := if a.exp < b.exp then a.exp else b.exp;
    var k := least - low;
    Pow10Add(a.exp - least, k);
    Pow10Add(b.exp - least, k);
    TimesAssociative(a.coef, Pow10(a.exp - least), Pow10(k));
    TimesAssociative(b.coef, Pow10(b.exp - least), Pow10(k));
    CancelPow10(a.coef * Pow10(a.exp - least), b.coef * Pow10(b.exp - least), k);
  }

  lemma EqualTransitive(a: Dec, b: Dec, c: Dec)
    requires Equal(a, b)
    ensures Equal(b, c) <==> Equal(a, c)
  {
    var ab := if a.exp < b.exp then a.exp else b.exp;
    var low := if ab < c.exp then ab else c.exp;
    EqualOnScale(a, b, low);
    EqualOnScale(b, c, low);
    EqualOnScale(a, c, low);
  }

  lemma EqualSymmetric(a: Dec, b: Dec)
    requires Equal(a, b)
    ensures Equal(b, a)
  {
  }

  /** Moving zeros between coefficient and exponent keeps the number. */
  lemma ShiftEqual(u: int, scaled: int, k: nat, x: int)
    requires scaled == u * Pow10(k)
    ensures Equal(Dec(scaled, x), Dec(u, x + k))
  {
    assert Pow10(0) == 1;
    assert x + k - x == k;
  }

  /** Both numbers times the same power of ten. */
  lemma EqualShifted(a: Dec, b: Dec, e: int)
    ensures Equal(a, b) <==> Equal(Dec(a.coef, a.exp + e), Dec(b.coef, b.exp + e))
  {
  }

  // --------------------------------------------------------------------------------------------------
  // Rounding
  // --------------------------------------------------------------------------------------------------

  /** Rounding a quotient is exact precisely when nothing remains. */
  lemma HalfEvenExactIff(x: int, d: nat)
    requires d > 0
    ensures HalfEven(x, d) * d == x <==> Abs(x) % d == 0
  {
    var n := Abs(x);
    var q, r := n / d, n % d;
    assert n == q * d + r;
    assert (q + 1) * d == q * d + d;
    var h := HalfEvenNat(n, d);
    assert h * d == n <==> r == 0;
    if x < 0 {
      assert -h * d == -(h * d);
    }
  }

  /** At most 28 significant digits: everything beyond is zeros. */
  predicate FitsPrecision(coef: int) {
    var drop := DigitCount(Abs(coef)) - PRECISION;
    drop <= 0 || Abs(coef) % Pow10(drop) == 0
  }

  lemma {:induction false} DigitCountBounds(n: nat)
    ensures n < Pow10(DigitCount(n))
    ensures n >= 10 ==> n >= Pow10(DigitCount(n) - 1)
  {
    if n >= 10 {
      DigitCountBounds(n / 10);
      if n / 10 < 10 {
        assert Pow10(1) == 10;
      }
    }
  }

  lemma {:induction false} Pow10Monotone(a: nat, b: nat)
    requires a <= b
    ensures Pow10(a) <= Pow10(b)
  {
    if a < b {
      Pow10Monotone(a, b - 1);
    }
  }

  /** Fewer digits than the precision means below its power of ten. */
  lemma DigitCountWithin(n: nat, k: nat)
    requires k >= 1
    ensures n < Pow10(k) <==> DigitCount(n) <= k
  {
    DigitCountBounds(n);
    if DigitCount(n) <= k {
      Pow10Monotone(DigitCount(n), k);
    } else if n >= 10 {
      Pow10Monotone(k, DigitCount(n) - 1);
    }
  }

  /** Rounding to the precision keeps the number exactly when it has at most 28 significant digits. */
  lemma RoundExactIff(d: Dec)
    ensures Equal(Round(d), d) <==> FitsPrecision(d.coef)
  {
    DigitCountWithin(Abs(d.coef), PRECISION);
    var drop := DigitCount(Abs(d.coef)) - PRECISION;
    if drop > 0 {
      var rounded := Round(d);
      assert rounded == Dec(HalfEven(d.coef, Pow10(drop)), d.exp + drop);
      assert Pow10(0) == 1;
      EqualOnScale(rounded, d, d.exp);
      HalfEvenExactIff(d.coef, Pow10(drop));
    }
  }

  lemma FormatTimesTen(n: nat)
    requires n > 0
    ensures DigitCount(10 * n) == DigitCount(n) + 1
  {
    assert 10 * n / 10 == n;
  }

  predicate NatFits(n: nat) {
    var drop := DigitCount(n) - PRECISION;
    drop <= 0 || n % Pow10(drop) == 0
  }

  lemma NatFitsTimesTen(n: nat)
    ensures NatFits(10 * n) <==> NatFits(n)
  {
    if n > 0 {
      FormatTimesTen(n);
      var drop := DigitCount(n) - PRECISION;
      if drop >= 1 {
        assert Pow10(drop + 1) == 10 * Pow10(drop);
        ScaledDivides(n, Pow10(drop), 10);
      } else if drop == 0 {
        assert Pow10(1) == 10;
        MultipleOf(n, 10);
      }
    }
  }

  lemma {:induction false} NatFitsShift(n: nat, k: nat)
    ensures NatFits(n * Pow10(k)) <==> NatFits(n)
  {
    if k > 0 {
      NatFitsShift(n, k - 1);
      NatFitsTimesTen(n * Pow10(k - 1));
      assert n * Pow10(k) == 10 * (n * Pow10(k - 1));
    }
  }

  /** Zeros at the end are not significant. */
  lemma FitsShift(u: int, k: nat)
    ensures FitsPrecision(u * Pow10(k)) <==> FitsPrecision(u)
  {
    NatFitsShift(Abs(u), k);
    assert Abs(u * Pow10(k)) == Abs(u) * Pow10(k) by {
      if u < 0 {
        assert -u * Pow10(k) == -(u * Pow10(k));
      }
    }
  }

  /** Equal numbers have the same significant digits. */
  lemma FitsEqual(a: Dec, b: Dec)
    requires Equal(a, b)
    ensures FitsPrecision(a.coef) <==> FitsPrecision(b.coef)
  {
    var low := if a.exp < b.exp then a.exp else b.exp;
    FitsShift(a.coef, a.exp - low);
    FitsShift(b.coef, b.exp - low);
  }

  // --------------------------------------------------------------------------------------------------
  // The conversions
  // --------------------------------------------------------------------------------------------------

  /** The amount counted in minor units, exactly. */
  function InMinorUnits(amount: Dec, e: nat): Dec {
    Dec(amount.coef, amount.exp + e)
  }

  predicate Accepts(d: Dec, n: int) {
    Equal(d, ToIntegralValue(d)) && ToInt(ToIntegralValue(d)) == n
  }

  lemma RoundedMultiple(coef: int, n: int, d: nat)
    requires d > 0 && coef == n * d
    ensures HalfEven(coef, d) == n
  {
    MultipleOf(Abs(n), d);
    assert Abs(coef) == Abs(n) * d by {
      if n < 0 {
        assert -n * d == -(n * d);
        ProductAtLeast(d, n);
      }
    }
    HalfEvenExactIff(coef, d);
    var h := HalfEven(coef, d);
    assert d * (h - n) == 0;
    ProductAtLeast(d, h - n);
  }

  /** The comparison with the rounded value accepts exactly the integral numbers, and returns them. */
  lemma AcceptsIntegral(d: Dec, n: int)
    ensures Accepts(d, n) <==> Equal(d, Dec(n, 0))
  {
    assert Pow10(0) == 1;
    if d.exp < 0 {
      var p := Pow10(-d.exp);
      if d.coef == n * p {
        RoundedMultiple(d.coef, n, p);
      }
    }
  }

  /** The product with the power of ten, before any rounding. */
  function Product(amount: Dec, e: nat): Dec {
    Dec(amount.coef * Pow10(e), amount.exp)
  }

  lemma ProductFits(amount: Dec, e: nat)
    ensures FitsPrecision(Product(amount, e).coef) <==> FitsPrecision(amount.coef)
  {
    FitsShift(amount.coef, e);
  }

  lemma ProductIsInMinorUnits(amount: Dec, e: nat, d: Dec)
    ensures Equal(Product(amount, e), d) <==> Equal(InMinorUnits(amount, e), d)
  {
    ShiftEqual(amount.coef, Product(amount, e).coef, e, amount.exp);
    EqualTransitive(Product(amount, e), InMinorUnits(amount, e), d);
  }

  // --------------------------------------------------------------------------------------------------
  // Rounding the product is rounding the amount
  // --------------------------------------------------------------------------------------------------

  lemma QuotientScaled(n: nat, d: nat, k: nat)
    requires d >= 1 && k >= 1
    ensures d * k >= 1 && n * k / (d * k) == n / d && n * k % (d * k) == n % d * k
  {
    ProductAtLeast(d, k);
    var q, r := n / d, n % d;
    var q', r' := n * k / (d * k), n * k % (d * k);
    assert n * k == q * (d * k) + r * k by {
      assert n == q * d + r;
      assert (q * d + r) * k == q * d * k + r * k;
      TimesAssociative(q, d, k);
    }
    ProductBelow(r, d, k);
    assert (d * k) * (q - q') == r' - r * k;
    ProductAtLeast(d * k, q - q');
  }

  lemma ProductBelow(r: nat, d: nat, k: nat)
    requires r < d && k >= 1
    ensures r * k < d * k
  {
  }

  lemma HalfEvenScaled(x: int, d: nat, k: nat)
    requires d >= 1 && k >= 1
    ensures d * k >= 1 && HalfEven(x * k, d * k) == HalfEven(x, d)
  {
    var n := Abs(x);
    QuotientScaled(n, d, k);
    AbsTimes(x, k);
    var r := n % d;
    assert 2 * (r * k) < d * k <==> 2 * r < d by {
      OrderScaled(2 * r, d, k);
    }
    assert 2 * (r * k) > d * k <==> 2 * r > d by {
      OrderScaled(d, 2 * r, k);
    }
    assert x * k < 0 <==> x < 0;
  }

  lemma OrderScaled(a: nat, b: nat, k: nat)
    requires k >= 1
    ensures a * k < b * k <==> a < b
  {
    if a < b {
      ProductBelow(a, b, k);
    } else if b < a {
      ProductBelow(b, a, k);
    }
  }

  lemma AbsTimes(x: int, k: nat)
    ensures Abs(x * k) == Abs(x) * k
  {
    if x < 0 {
      assert -x * k == -(x * k);
    }
  }

  lemma {:induction false} DigitCountShift(n: nat, k: nat)
    requires n > 0
    ensures n * Pow10(k) > 0 && DigitCount(n * Pow10(k)) == DigitCount(n) + k
  {
    if k > 0 {
      DigitCountShift(n, k - 1);
      assert n * Pow10(k) == 10 * (n * Pow10(k - 1));
      FormatTimesTen(n * Pow10(k - 1));
    }
  }

  /** How many digits of a long coefficient are rounded away. */
  function Excess(coef: int): int {
    DigitCount(Abs(coef)) - PRECISION
  }

  lemma LongRound(d: Dec)
    requires !FitsPrecision(d.coef)
    ensures Excess(d.coef) > 0 && Round(d) == Dec(HalfEven(d.coef, Pow10(Excess(d.coef))), d.exp + Excess(d.coef))
  {
    DigitCountWithin(Abs(d.coef), PRECISION);
  }

  /** For a long amount the rounded product is the rounded amount, on another scale. */
  lemma LongProductRounds(amount: Dec, e: nat)
    requires !FitsPrecision(amount.coef)
    ensures Round(Product(amount, e)) == InMinorUnits(Round(amount), e)
  {
    var x := Excess(amount.coef);
    LongRound(amount);
    ProductFits(amount, e);
    LongRound(Product(amount, e));
    AbsTimes(amount.coef, Pow10(e));
    DigitCountShift(Abs(amount.coef), e);
    Pow10Add(x, e);
    HalfEvenScaled(amount.coef, Pow10(x), Pow10(e));
  }

  // --------------------------------------------------------------------------------------------------
  // What is accepted
  // --------------------------------------------------------------------------------------------------

  /**
   For every amount, the conversion answers for the amount rounded to 28 significant digits: it accepts exactly
   when that is a whole number of minor units, not below the minimum if there is one, and returns that number.
   */
  lemma ToMinorUnitsOfRounded(amount: Dec, e: nat, minAllowed: Option<int>, n: int)
    ensures AmountToMinorUnits(amount, e, minAllowed) == Some(n)
       <==> Equal(InMinorUnits(Round(amount), e), Dec(n, 0)) && (minAllowed.Some? ==> n >= minAllowed.value)
  {
    var normalized := Round(Product(amount, e));
    AcceptsIntegral(normalized, n);
    if FitsPrecision(amount.coef) {
      ShortProductRounds(amount, e, n);
    } else {
      LongProductRounds(amount, e);
    }
  }

  lemma ShortProductRounds(amount: Dec, e: nat, n: int)
    requires FitsPrecision(amount.coef)
    ensures Equal(Round(Product(amount, e)), Dec(n, 0)) <==> Equal(InMinorUnits(amount, e), Dec(n, 0))
    ensures Equal(InMinorUnits(Round(amount), e), Dec(n, 0)) <==> Equal(InMinorUnits(amount, e), Dec(n, 0))
  {
    var product, rounded := Product(amount, e), Round(amount);
    ProductFits(amount, e);
    RoundExactIff(product);
    EqualSymmetric(Round(product), product);
    EqualTransitive(Round(product), product, Dec(n, 0));
    ProductIsInMinorUnits(amount, e, Dec(n, 0));
    RoundExactIff(amount);
    EqualShifted(rounded, amount, e);
    EqualTransitive(InMinorUnits(rounded, e), InMinorUnits(amount, e), Dec(n, 0));
  }

  /**
   For amounts of at most 28 significant digits exactly those integral in minor units, and not below the
   minimum if there is one, are accepted; the result is that integer.
   */
  lemma ToMinorUnitsExact(amount: Dec, e: nat, minAllowed: Option<int>, n: int)
    requires FitsPrecision(amount.coef)
    ensures AmountToMinorUnits(amount, e, minAllowed) == Some(n)
       <==> Equal(InMinorUnits(amount, e), Dec(n, 0)) && (minAllowed.Some? ==> n >= minAllowed.value)
  {
    ToMinorUnitsOfRounded(amount, e, minAllowed, n);
    ShortProductRounds(amount, e, n);
  }

  /** No digit other than zero stands behind the last minor unit. */
  predicate Whole(d: Dec, e: nat) {
    d.exp + e >= 0 || Abs(d.coef) % Pow10(-(d.exp + e)) == 0
  }

  /** How many minor units a whole amount is. */
  function Count(d: Dec, e: nat): int {
    if d.exp + e >= 0 then d.coef * Pow10(d.exp + e) else HalfEven(d.coef, Pow10(-(d.exp + e)))
  }

  lemma WholeIsIntegral(d: Dec, e: nat)
    ensures Whole(d, e) ==> Equal(InMinorUnits(d, e), Dec(Count(d, e), 0))
    ensures forall n | Equal(InMinorUnits(d, e), Dec(n, 0)) :: Whole(d, e)
  {
    assert Pow10(0) == 1;
    if d.exp + e < 0 {
      var p := Pow10(-(d.exp + e));
      HalfEvenExactIff(d.coef, p);
      forall n | Equal(InMinorUnits(d, e), Dec(n, 0))
        ensures Whole(d, e)
      {
        AbsTimes(n, p);
        MultipleOf(Abs(n), p);
      }
    }
  }

  /**
   Which amounts of more than 28 significant digits are accepted: those whose first 28 digits, rounded half to
   even, end in zeros behind the last minor unit, or do not reach that far.
   */
  lemma LongAcceptedIff(amount: Dec, e: nat)
    requires !FitsPrecision(amount.coef)
    ensures var x := Excess(amount.coef);
      x > 0 &&
      (AmountToMinorUnits(amount, e, None).Some? <==>
        amount.exp + x + e >= 0 || Abs(HalfEven(amount.coef, Pow10(x))) % Pow10(-(amount.exp + x + e)) == 0)
  {
    LongRound(amount);
    WholeIsIntegral(Round(amount), e);
    if AmountToMinorUnits(amount, e, None).Some? {
      ToMinorUnitsOfRounded(amount, e, None, AmountToMinorUnits(amount, e, None).value);
    }
    ToMinorUnitsOfRounded(amount, e, None, Count(Round(amount), e));
  }

  /** A long amount is never the number of minor units its rounded form is. */
  lemma LongDiffers(amount: Dec, e: nat, n: int)
    requires !FitsPrecision(amount.coef) && Equal(InMinorUnits(Round(amount), e), Dec(n, 0))
    ensures !Equal(InMinorUnits(amount, e), Dec(n, 0))
  {
    if Equal(InMinorUnits(amount, e), Dec(n, 0)) {
      EqualSymmetric(InMinorUnits(amount, e), Dec(n, 0));
      EqualTransitive(InMinorUnits(Round(amount), e), Dec(n, 0), InMinorUnits(amount, e));
      EqualShifted(Round(amount), amount, e);
      RoundExactIff(amount);
    }
  }

  /** A long amount that is integral in minor units is still whole after rounding. */
  lemma LongIntegralStaysWhole(amount: Dec, e: nat, n: int)
    requires !FitsPrecision(amount.coef) && Equal(InMinorUnits(amount, e), Dec(n, 0))
    ensures Whole(Round(amount), e)
  {
    LongRound(amount);
    var x := Excess(amount.coef);
    assert Pow10(0) == 1;
    if amount.exp + x + e < 0 {
      var k := -(amount.exp + e) - x;
      Pow10Add(k, x);
      TimesAssociative(n, Pow10(k), Pow10(x));
      FitsByDivisor(amount.coef, n * Pow10(k), x);
    }
  }

  lemma FitsByDivisor(coef: int, q: int, drop: nat)
    requires drop == DigitCount(Abs(coef)) - PRECISION && coef == q * Pow10(drop)
    ensures FitsPrecision(coef)
  {
    AbsTimes(q, Pow10(drop));
    MultipleOf(Abs(q), Pow10(drop));
  }

  /** The conversion gives exactly the number of minor units, and refuses what is no such number. */
  ghost predicate Right(amount: Dec, e: nat) {
    forall n :: AmountToMinorUnits(amount, e, None) == Some(n) <==> Equal(InMinorUnits(amount, e), Dec(n, 0))
  }

  /**
   What the conversion says is right exactly for the amounts of at most 28 significant digits, and for the
   longer ones that are no whole number of minor units even after rounding to 28 digits.
   */
  lemma ToMinorUnitsRightIff(amount: Dec, e: nat)
    ensures Right(amount, e) <==> FitsPrecision(amount.coef) || !Whole(Round(amount), e)
  {
    if FitsPrecision(amount.coef) {
      forall n
        ensures AmountToMinorUnits(amount, e, None) == Some(n) <==> Equal(InMinorUnits(amount, e), Dec(n, 0))
      {
        ToMinorUnitsExact(amount, e, None, n);
      }
    } else if Whole(Round(amount), e) {
      LongWholeIsWrong(amount, e);
    } else {
      forall n
        ensures AmountToMinorUnits(amount, e, None) == Some(n) <==> Equal(InMinorUnits(amount, e), Dec(n, 0))
      {
        LongFractionRefused(amount, e, n);
      }
    }
  }

  lemma LongWholeIsWrong(amount: Dec, e: nat)
    requires !FitsPrecision(amount.coef) && Whole(Round(amount), e)
    ensures !Right(amount, e)
  {
    var n := Count(Round(amount), e);
    WholeIsIntegral(Round(amount), e);
    ToMinorUnitsOfRounded(amount, e, None, n);
    LongDiffers(amount, e, n);
  }

  lemma LongFractionRefused(amount: Dec, e: nat, n: int)
    requires !FitsPrecision(amount.coef) && !Whole(Round(amount), e)
    ensures AmountToMinorUnits(amount, e, None) != Some(n) && !Equal(InMinorUnits(amount, e), Dec(n, 0))
  {
    WholeIsIntegral(Round(amount), e);
    ToMinorUnitsOfRounded(amount, e, None, n);
    if Equal(InMinorUnits(amount, e), Dec(n, 0)) {
      LongIntegralStaysWhole(amount, e, n);
    }
  }

  lemma RoundsDownToTop(b: nat)
    requires b == Pow10(PRECISION - 1)
    ensures Round(Dec(10000 * b + 100, -3)) == Dec(b, 1)
  {
    var k: nat := PRECISION - 1;
    assert Pow10(k + 1) == 10 * b;
    assert Pow10(k + 2) == 100 * b;
    assert Pow10(k + 3) == 1000 * b;
    assert Pow10(k + 4) == 10000 * b;
    assert Pow10(k + 5) == 100000 * b;
    FormatNatLength(10000 * b + 100, k + 4);
    assert Pow10(2) == 100 && Pow10(4) == 10000;
    assert HalfEvenNat(10000 * b + 100, 10000) == b;
  }

  /** Ten to the 26th and a thousandth: accepted, with two decimal places, although it is no whole number of cents. */
  lemma LongAmountAccepted(b: nat)
    requires b == Pow10(PRECISION - 1)
    ensures var amount := Dec(100 * b + 1, -3);
      AmountToMinorUnits(amount, 2, None) == Some(10 * b) && !Equal(InMinorUnits(amount, 2), Dec(10 * b, 0))
  {
    RoundsDownToTop(b);
    assert Pow10(0) == 1 && Pow10(1) == 10 && Pow10(2) == 100;
    assert Times(Dec(100 * b + 1, -3), Pow10(2)) == Dec(b, 1);
  }

  lemma HalfEvenBound(n: nat, d: nat, top: nat)
    requires d >= 1 && n < top * d
    ensures HalfEvenNat(n, d) <= top
  {
    var q := n / d;
    assert n == d * q + n % d;
    assert d * (q - top) == d * q - top * d;
    ProductAtLeast(d, q - top);
  }

  lemma LongBound(coef: int)
    requires Excess(coef) > 0
    ensures Abs(HalfEven(coef, Pow10(Excess(coef)))) <= Pow10(PRECISION)
  {
    var x := Excess(coef);
    DigitCountBounds(Abs(coef));
    Pow10Add(PRECISION, x);
    HalfEvenBound(Abs(coef), Pow10(x), Pow10(PRECISION));
  }

  /** What rounding leaves has at most 28 significant digits. */
  lemma RoundFits(d: Dec)
    ensures FitsPrecision(Round(d).coef)
  {
    if !FitsPrecision(d.coef) {
      LongRound(d);
      LongBound(d.coef);
      AtMostTopFits(Round(d).coef);
    } else {
      RoundExactIff(d);
      FitsEqual(Round(d), d);
    }
  }

  lemma AtMostTopFits(coef: int)
    requires Abs(coef) <= Pow10(PRECISION)
    ensures FitsPrecision(coef)
  {
    if Abs(coef) == Pow10(PRECISION) {
      FitsShift(1, PRECISION);
    } else {
      DigitCountWithin(Abs(coef), PRECISION);
    }
  }

  /** An integer survives the way to an amount and back exactly when it has at most 28 significant digits. */
  lemma ToMinorFromMinor(n: int, e: nat)
    ensures AmountToMinorUnits(AmountFromMinorUnits(n, e), e, None) == Some(n) <==> FitsPrecision(n)
  {
    var exact := Dec(n, -(e as int));
    var amount := AmountFromMinorUnits(n, e);
    RoundFits(exact);
    ToMinorUnitsExact(amount, e, None, n);
    EqualShifted(amount, exact, e);
    RoundExactIff(exact);
  }

  /** Turning the number of minor units of an amount back gives that amount. */
  lemma FromMinorExact(n: int, e: nat, amount: Dec)
    requires FitsPrecision(n) && Equal(InMinorUnits(amount, e), Dec(n, 0))
    ensures Equal(AmountFromMinorUnits(n, e), amount)
  {
    var exact := Dec(n, -(e as int));
    RoundExactIff(exact);
    EqualShifted(InMinorUnits(amount, e), Dec(n, 0), -(e as int));
    EqualSymmetric(amount, exact);
    EqualTransitive(Round(exact), exact, amount);
  }

  /** An accepted amount survives the way to an integer and back, as a number, exactly when it has at most 28 significant digits. */
  lemma FromMinorToMinor(amount: Dec, e: nat)
    requires AmountToMinorUnits(amount, e, None).Some?
    ensures Equal(AmountFromMinorUnits(AmountToMinorUnits(amount, e, None).value, e), amount) <==> FitsPrecision(amount.coef)
  {
    var n := AmountToMinorUnits(amount, e, None).value;
    ToMinorUnitsOfRounded(amount, e, None, n);
    RoundFits(amount);
    FitsEqual(InMinorUnits(Round(amount), e), Dec(n, 0));
    FromMinorExact(n, e, Round(amount));
    EqualSymmetric(AmountFromMinorUnits(n, e), Round(amount));
    EqualTransitive(Round(amount), AmountFromMinorUnits(n, e), amount);
    RoundExactIff(amount);
  }

  // --------------------------------------------------------------------------------------------------
  // In plain numbers
  // --------------------------------------------------------------------------------------------------

  /** Rounding goes to a nearest multiple, and halfway between two to the even one. */
  lemma HalfEvenNearest(x: int, d: nat)
    requires d > 0
    ensures var rest := 2 * (x - HalfEven(x, d) * d);
      -(d as int) <= rest <= d && (rest == d || rest == -(d as int) ==> HalfEven(x, d) % 2 == 0)
  {
    var n := Abs(x);
    var q, r := n / d, n % d;
    assert n == q * d + r;
    assert (q + 1) * d == q * d + d;
    var h := HalfEvenNat(n, d);
    if x < 0 {
      assert -h * d == -(h * d);
    }
  }

  lemma Pow27And28()
    ensures Pow10(27) == 1_000_000_000_000_000_000_000_000_000
    ensures Pow10(28) == 10_000_000_000_000_000_000_000_000_000
  {
    assert Pow10(3) == 1000;
    Pow10Add(3, 3);
    Pow10Add(6, 3);
    Pow10Add(9, 9);
    Pow10Add(18, 9);
  }

  /**
   For a coefficient of at most 28 digits: accepted exactly when the amount, times ten to the currency's exponent,
   is an integer not below the minimum, with that integer.
   */
  lemma ToMinorUnitsOfShort(coef: int, exp: int, e: nat, minAllowed: Option<int>, n: int)
    requires -10_000_000_000_000_000_000_000_000_000 < coef < 10_000_000_000_000_000_000_000_000_000
    ensures AmountToMinorUnits(Dec(coef, exp), e, minAllowed) == Some(n) <==>
      && (if exp + e >= 0 then n == coef * Pow10(exp + e) else coef == n * Pow10(-(exp + e)))
      && (minAllowed.Some? ==> n >= minAllowed.value)
  {
    Pow27And28();
    DigitCountWithin(Abs(coef), PRECISION);
    assert Pow10(0) == 1;
    ToMinorUnitsExact(Dec(coef, exp), e, minAllowed, n);
  }

  /** The digits beyond the 28th do get lost: a tenth above ten to the 26th, with one decimal place less than it has. */
  lemma LongAmountAcceptedAt()
    ensures AmountToMinorUnits(Dec(100_000_000_000_000_000_000_000_000_001, -3), 2, None)
         == Some(10_000_000_000_000_000_000_000_000_000)
  {
    Pow27And28();
    LongAmountAccepted(Pow10(27));
  }
}
