/** Discount and fee of a bill (bill_payments storage/entities/bill.py). Amounts are in minor units; decimals are exact. */
module BillMoney {
  import opened Wrappers

  /** Dates are day numbers; the discount is kept as text. */
  datatype Bill = Bill(amountToPay: int, discountSize: Option<string>, discountDate: Option<int>)

  datatype Commission = Commission(multiplier: real, addition: real, minimum: real) {
    /** What the module asserts of its settings. */
    predicate Valid() {
      0.0 <= multiplier < 1.0 && 0.0 <= minimum
    }
  }

  function Discounted(amount: int, percent: int): int {
    (amount * (100 - percent) + 99) / 100
  }

  /** toInt is int(); None stands for the exception it raises. */
  function DiscountedAmount(b: Bill, today: int, toInt: string -> Option<int>): Option<int> {
    if b.discountSize.None? || b.discountDate.None? then Some(b.amountToPay)
    else if b.discountDate.value < today then Some(b.amountToPay)
    else
      match toInt(b.discountSize.value)
      case None => None
      case Some(percent) => Some(Discounted(b.amountToPay, percent))
  }

  /** Half away from zero, to an integer. */
  function RoundHalfUp(x: real): int {
    if x >= 0.0 then (x + 0.5).Floor else -((-x + 0.5).Floor)
  }

  function MaxReal(a: real, b: real): real {
    if a < b then b else a
  }

  function ExactFee(c: Commission, discounted: int): real {
    MaxReal(discounted as real / 100.0 * c.multiplier + c.addition, c.minimum)
  }

  /** Rounding to two places and scaling by a hundred is rounding the scaled fee to an integer. */
  function Fee(c: Commission, discounted: int): int {
    RoundHalfUp(ExactFee(c, discounted) * 100.0)
  }

  // --------------------------------------------------------------------------------------------------
  // Discount
  // --------------------------------------------------------------------------------------------------

  lemma CeilingBounds(product: int)
    ensures var r := (product + 99) / 100;
      100 * (r - 1) < product <= 100 * r
  {
  }

  /** The discounted amount is the exact ceiling of the remaining share. */
  lemma DiscountIsCeiling(amount: int, percent: int)
    ensures var r := Discounted(amount, percent);
      100 * (r - 1) < amount * (100 - percent) <= 100 * r
  {
    CeilingBounds(amount * (100 - percent));
  }

  /** For a positive amount it never exceeds the amount exactly when the discount is not negative. */
  lemma DiscountNotAboveIff(amount: int, percent: int)
    requires amount > 0
    ensures Discounted(amount, percent) <= amount <==> percent >= 0
  {
    DiscountIsCeiling(amount, percent);
    var r := Discounted(amount, percent);
    assert amount * (100 - percent) == 100 * amount - amount * percent;
    if percent >= 0 {
      assert amount * percent >= 0;
      assert 100 * (r - 1) < 100 * amount;
    } else {
      assert amount * -percent >= amount;
      assert amount * percent == -(amount * -percent);
      assert 100 * amount < 100 * r;
    }
  }

  /** For a positive amount the result lies between nothing and the amount exactly when the discount is at least
   nothing and takes less than one minor unit more than everything. */
  lemma DiscountInRangeIff(amount: int, percent: int)
    requires amount > 0
    ensures 0 <= Discounted(amount, percent) <= amount <==> percent >= 0 && amount * (percent - 100) < 100
  {
    DiscountNotAboveIff(amount, percent);
    DiscountIsCeiling(amount, percent);
    assert amount * (100 - percent) == -(amount * (percent - 100));
  }

  lemma DiscountInRange(amount: int, percent: int)
    requires amount >= 0 && 0 <= percent <= 100
    ensures 0 <= Discounted(amount, percent) <= amount
  {
    if amount > 0 {
      DiscountNotAboveIff(amount, percent);
    }
    DiscountIsCeiling(amount, percent);
    assert amount * (100 - percent) >= 0;
  }

  /** A larger discount never costs more, and a larger amount never less. */
  lemma DiscountMonotone(amount: int, percent: int, amount': int, percent': int)
    requires 0 <= amount <= amount' && percent' <= percent <= 100
    ensures Discounted(amount, percent) <= Discounted(amount', percent')
  {
    var p, q, p', q' := amount, 100 - percent, amount', 100 - percent';
    assert p * q <= p' * q;
    assert p' * q <= p' * q';
  }

  /** A readable discount between nothing and everything, with a last day. */
  predicate Discountable(b: Bill, toInt: string -> Option<int>) {
    && b.amountToPay >= 0
    && b.discountSize.Some? && b.discountDate.Some?
    && toInt(b.discountSize.value).Some? && 0 <= toInt(b.discountSize.value).value <= 100
  }

  /**
   A bill is cheaper than its full amount exactly through the last day of the discount, and only when the
   discount is worth at least one minor unit; whatever amount and discount were stored.
   */
  lemma CheaperIff(b: Bill, today: int, toInt: string -> Option<int>)
    requires b.discountSize.Some? && b.discountDate.Some? && toInt(b.discountSize.value).Some?
    ensures var percent := toInt(b.discountSize.value).value;
      DiscountedAmount(b, today, toInt).Some? &&
      (DiscountedAmount(b, today, toInt).value < b.amountToPay <==>
        today <= b.discountDate.value && b.amountToPay * percent >= 100)
  {
    var percent := toInt(b.discountSize.value).value;
    DiscountIsCeiling(b.amountToPay, percent);
    assert b.amountToPay * (100 - percent) == 100 * b.amountToPay - b.amountToPay * percent;
  }

  /** Waiting never makes a bill cheaper. */
  lemma PayingLaterNeverCheaper(b: Bill, today: int, later: int, toInt: string -> Option<int>)
    requires Discountable(b, toInt) && today <= later
    ensures DiscountedAmount(b, today, toInt).Some? && DiscountedAmount(b, later, toInt).Some?
    ensures DiscountedAmount(b, today, toInt).value <= DiscountedAmount(b, later, toInt).value
  {
    DiscountInRange(b.amountToPay, toInt(b.discountSize.value).value);
  }

  // --------------------------------------------------------------------------------------------------
  // Fee
  // --------------------------------------------------------------------------------------------------

  /** Rounding is to the nearest integer, and monotone. */
  lemma RoundsToNearest(x: real)
    requires x >= 0.0
    ensures RoundHalfUp(x) as real - 0.5 <= x < RoundHalfUp(x) as real + 0.5
  {
  }

  /** Arguments at most n apart round to integers at most n apart. */
  lemma RoundGrowth(x: real, y: real, n: int)
    requires 0.0 <= x <= y && y - x <= n as real
    ensures RoundHalfUp(x) <= RoundHalfUp(y) <= RoundHalfUp(x) + n
  {
  }

  lemma ProductNonnegative(a: real, b: real)
    requires a >= 0.0 && b >= 0.0
    ensures a * b >= 0.0
  {
  }

  lemma ShareGrowth(m: real, a: real, b: real)
    requires 0.0 <= m < 1.0 && a <= b
    ensures 0.0 <= b * m - a * m <= b - a
  {
    ProductNonnegative(b - a, m);
    ProductNonnegative(b - a, 1.0 - m);
    assert (b - a) * m == b * m - a * m;
    assert (b - a) * (1.0 - m) == b - a - (b - a) * m;
  }

  lemma MaxGrowth(a: real, b: real, lo: real, d: real)
    requires 0.0 <= lo && 0.0 <= b - a <= d
    ensures 0.0 <= MaxReal(a, lo) <= MaxReal(b, lo) <= MaxReal(a, lo) + d
  {
  }

  /** Before rounding, and in minor units, the fee grows with the amount but never faster than it. */
  lemma ExactFeeGrowth(c: Commission, x: int, y: int)
    requires c.Valid() && x <= y
    ensures 0.0 <= ExactFee(c, x) * 100.0 <= ExactFee(c, y) * 100.0
    ensures ExactFee(c, y) * 100.0 - ExactFee(c, x) * 100.0 <= (y - x) as real
  {
    var a, b := x as real / 100.0, y as real / 100.0;
    ShareGrowth(c.multiplier, a, b);
    MaxGrowth(a * c.multiplier + c.addition, b * c.multiplier + c.addition, c.minimum, b - a);
  }

  /** A larger bill never has a smaller fee. */
  lemma FeeMonotone(c: Commission, x: int, y: int)
    requires c.Valid() && x <= y
    ensures Fee(c, x) <= Fee(c, y)
  {
    ExactFeeGrowth(c, x, y);
    RoundGrowth(ExactFee(c, x) * 100.0, ExactFee(c, y) * 100.0, y - x);
  }

  /** The fee never grows faster than the bill. */
  lemma FeeGrowthBounded(c: Commission, x: int, y: int)
    requires c.Valid() && x <= y
    ensures Fee(c, y) - Fee(c, x) <= y - x
  {
    ExactFeeGrowth(c, x, y);
    RoundGrowth(ExactFee(c, x) * 100.0, ExactFee(c, y) * 100.0, y - x);
  }

  /** So what is paid in all determines the bill. */
  lemma TotalStrictlyIncreases(c: Commission, x: int, y: int)
    requires c.Valid() && x < y
    ensures x + Fee(c, x) < y + Fee(c, y)
  {
    FeeMonotone(c, x, y);
  }

  /** The fee is never below the rounded minimum. */
  lemma FeeAtLeastMinimum(c: Commission, x: int)
    requires c.Valid()
    ensures Fee(c, x) >= RoundHalfUp(c.minimum * 100.0) >= 0
  {
    var lo, hi := c.minimum * 100.0, ExactFee(c, x) * 100.0;
    RoundGrowth(lo, hi, (hi - lo).Floor + 1);
  }

  // --------------------------------------------------------------------------------------------------
  // Whole bills
  // --------------------------------------------------------------------------------------------------

  /** The percentage taken off today: the discount while it lasts, otherwise nothing. */
  function Share(b: Bill, today: int, toInt: string -> Option<int>): Option<int> {
    if b.discountSize.Some? && b.discountDate.Some? && today <= b.discountDate.value then toInt(b.discountSize.value)
    else Some(0)
  }

  /** What is to be paid is the remaining share of the amount, rounded up, whether there is a discount or not. */
  lemma PriceExact(b: Bill, today: int, toInt: string -> Option<int>)
    ensures DiscountedAmount(b, today, toInt).None? <==> Share(b, today, toInt).None?
    ensures DiscountedAmount(b, today, toInt).Some? ==>
      var r := DiscountedAmount(b, today, toInt).value;
      100 * (r - 1) < b.amountToPay * (100 - Share(b, today, toInt).value) <= 100 * r
  {
    if Share(b, today, toInt).Some? {
      DiscountIsCeiling(b.amountToPay, Share(b, today, toInt).value);
    }
  }

  /** The fee of a bill is taken on what is to be paid. */
  function FeeAmount(b: Bill, today: int, toInt: string -> Option<int>, c: Commission): Option<int> {
    match DiscountedAmount(b, today, toInt)
    case None => None
    case Some(discounted) => Some(Fee(c, discounted))
  }

  /**
   The fee is, to the nearest minor unit and upwards between two, the multiple of what is to be paid plus the
   addition, and at least the minimum.
   */
  lemma FeeExact(b: Bill, today: int, toInt: string -> Option<int>, c: Commission)
    requires c.Valid() && DiscountedAmount(b, today, toInt).Some?
    ensures FeeAmount(b, today, toInt, c).Some?
    ensures var fee := FeeAmount(b, today, toInt, c).value as real;
      var commission := DiscountedAmount(b, today, toInt).value as real / 100.0 * c.multiplier + c.addition;
      var exact := (if commission < c.minimum then c.minimum else commission) * 100.0;
      fee - 0.5 <= exact < fee + 0.5
  {
    RoundsToNearest(ExactFee(c, DiscountedAmount(b, today, toInt).value) * 100.0);
  }
}
