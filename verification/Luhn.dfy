/** Check digits of card numbers, as in Annex B of ISO/IEC 7812-1 (card_gen.py). */
module Luhn {
  import opened DecimalText

  type Digit = d: int | 0 <= d < 10

  /** Every second element going down from position `start`: the slices [::-2] and [-2::-2]. */
  function EverySecondDown(s: seq<Digit>, start: int): seq<Digit>
    requires start < |s|
    decreases start
  {
    if start < 0 then [] else [s[start]] + EverySecondDown(s, start - 2)
  }

  function Sum(s: seq<int>): int {
    if s == [] then 0 else s[0] + Sum(s[1..])
  }

  /** Quotient plus remainder of the doubled digit by the base. */
  function DoubledDigit(d: Digit): (r: Digit)
    ensures r == if d < 5 then 2 * d else 2 * d - 9
  {
    2 * d / 10 + 2 * d % 10
  }

  function DoubledDigits(s: seq<Digit>): (r: seq<int>)
    ensures |r| == |s|
  {
    seq(|s|, i requires 0 <= i < |s| => DoubledDigit(s[i]))
  }

  function LuhnSumModBase(s: seq<Digit>): Digit {
    (Sum(EverySecondDown(s, |s| - 1)) + Sum(DoubledDigits(EverySecondDown(s, |s| - 2)))) % 10
  }

  predicate Verify(s: seq<Digit>) {
    LuhnSumModBase(s) == 0
  }

  function Generate(s: seq<Digit>): Digit {
    var d := LuhnSumModBase(s + [0]);
    if d != 0 then 10 - d else d
  }

  // --------------------------------------------------------------------------------------------------
  // The sum as one weighted sum over positions
  // --------------------------------------------------------------------------------------------------

  /** What the digit at distance k from the right end contributes. */
  function Contribution(d: Digit, k: nat): Digit {
    if k % 2 == 0 then d else DoubledDigit(d)
  }

  /** The contributions of the first n digits of s. */
  function Weighted(s: seq<Digit>, n: nat): int
    requires n <= |s|
  {
    if n == 0 then 0 else Weighted(s, n - 1) + Contribution(s[n - 1], |s| - n)
  }

  lemma {:induction false} SumsAreWeighted(s: seq<Digit>, n: nat)
    requires n <= |s|
    ensures Weighted(s, n)
         == if (|s| - n) % 2 == 0
            then Sum(EverySecondDown(s, n - 1)) + Sum(DoubledDigits(EverySecondDown(s, n - 2)))
            else Sum(EverySecondDown(s, n - 2)) + Sum(DoubledDigits(EverySecondDown(s, n - 1)))
  {
    if n > 0 {
      SumsAreWeighted(s, n - 1);
      var tail := EverySecondDown(s, n - 3);
      if (|s| - n) % 2 == 0 {
        assert EverySecondDown(s, n - 1)[1..] == tail;
      } else {
        var whole := EverySecondDown(s, n - 1);
        assert whole[1..] == tail;
        assert DoubledDigits(whole)[1..] == DoubledDigits(tail);
      }
    }
  }

  lemma LuhnSumIsWeighted(s: seq<Digit>)
    ensures LuhnSumModBase(s) == Weighted(s, |s|) % 10
  {
    SumsAreWeighted(s, |s|);
  }

  lemma {:induction false} WeightedUpdate(s: seq<Digit>, n: nat, i: nat, d: Digit)
    requires n <= |s| && i < |s|
    ensures Weighted(s[i := d], n)
         == Weighted(s, n) + if i < n then Contribution(d, |s| - 1 - i) - Contribution(s[i], |s| - 1 - i) else 0
  {
    if n > 0 {
      WeightedUpdate(s, n - 1, i, d);
    }
  }

  /** Doubling and adding the digits is a permutation of the ten digits. */
  lemma ContributionInjective(d: Digit, e: Digit, k: nat)
    requires Contribution(d, k) == Contribution(e, k)
    ensures d == e
  {
  }

  // --------------------------------------------------------------------------------------------------
  // The promises
  // --------------------------------------------------------------------------------------------------

  /** One digit brings a total to a multiple of ten. */
  lemma Completion(total: int, c: Digit)
    ensures (total + c) % 10 == 0 <==> c == if total % 10 != 0 then 10 - total % 10 else 0
  {
  }

  /** Of the ten ways to end a number exactly one verifies: the generated check digit. */
  lemma CheckDigitUnique(s: seq<Digit>, c: Digit)
    ensures Verify(s + [c]) <==> c == Generate(s)
  {
    var zero := s + [0];
    assert zero[|s| := c] == s + [c];
    LuhnSumIsWeighted(zero);
    LuhnSumIsWeighted(s + [c]);
    WeightedUpdate(zero, |zero|, |s|, c);
    Completion(Weighted(zero, |zero|), c);
  }

  /** Two sums less than ten apart agree modulo ten only when they agree. */
  lemma CloseModTen(x: int, y: int)
    requires -10 < x - y < 10
    ensures x % 10 == y % 10 <==> x == y
  {
  }

  /** Changing one digit of a valid number, anywhere, makes it invalid. */
  lemma SingleErrorDetected(s: seq<Digit>, i: nat, d: Digit)
    requires i < |s| && Verify(s)
    ensures Verify(s[i := d]) <==> d == s[i]
  {
    LuhnSumIsWeighted(s);
    LuhnSumIsWeighted(s[i := d]);
    WeightedUpdate(s, |s|, i, d);
    CloseModTen(Weighted(s, |s|), Weighted(s[i := d], |s|));
    if Contribution(d, |s| - 1 - i) == Contribution(s[i], |s| - 1 - i) {
      ContributionInjective(d, s[i], |s| - 1 - i);
    }
  }

  function Swapped(s: seq<Digit>, i: nat): (r: seq<Digit>)
    requires i + 1 < |s|
    ensures |r| == |s|
  {
    s[i := s[i + 1]][i + 1 := s[i]]
  }

  predicate ZeroAndNine(a: Digit, b: Digit) {
    (a == 0 && b == 9) || (a == 9 && b == 0)
  }

  lemma SwapContribution(a: Digit, b: Digit)
    ensures a + DoubledDigit(b) == b + DoubledDigit(a) <==> a == b || ZeroAndNine(a, b)
    ensures -10 < a + DoubledDigit(b) - b - DoubledDigit(a) < 10
  {
  }

  lemma WeightedSwap(s: seq<Digit>, i: nat)
    requires i + 1 < |s|
    ensures Weighted(Swapped(s, i), |s|) - Weighted(s, |s|)
         == if (|s| - i) % 2 == 0 then s[i] + DoubledDigit(s[i + 1]) - s[i + 1] - DoubledDigit(s[i])
            else s[i + 1] + DoubledDigit(s[i]) - s[i] - DoubledDigit(s[i + 1])
  {
    var once := s[i := s[i + 1]];
    WeightedUpdate(s, |s|, i, s[i + 1]);
    WeightedUpdate(once, |s|, i + 1, s[i]);
  }

  /** Swapping two adjacent digits of a valid number is noticed, except for equal digits and for 0 with 9. */
  lemma TranspositionDetected(s: seq<Digit>, i: nat)
    requires i + 1 < |s| && Verify(s)
    ensures Verify(Swapped(s, i)) <==> s[i] == s[i + 1] || ZeroAndNine(s[i], s[i + 1])
  {
    LuhnSumIsWeighted(s);
    LuhnSumIsWeighted(Swapped(s, i));
    WeightedSwap(s, i);
    SwapContribution(s[i], s[i + 1]);
    CloseModTen(Weighted(s, |s|), Weighted(Swapped(s, i), |s|));
  }

  // --------------------------------------------------------------------------------------------------
  // Whole card numbers
  // --------------------------------------------------------------------------------------------------

  const PREFIX: seq<Digit> := [5, 1, 0, 0, 0, 0]

  function DigitsOf(n: nat): (s: seq<Digit>)
    ensures |s| == |FormatNat(n)|
  {
    var text := FormatNat(n);
    seq<Digit>(|text|, i requires 0 <= i < |text| => text[i] - ZERO)
  }

  /** The random middle part, drawn from the bounds the generator uses; the exponent is negative below 8 digits. */
  predicate Drawn(panLen: nat, r: nat) {
    panLen >= 8 && Pow10(panLen - 8) <= r <= Pow10(panLen - 7) - 1
  }

  function GeneratePan(panLen: nat, r: nat): seq<Digit>
    requires Drawn(panLen, r)
  {
    var base := PREFIX + DigitsOf(r);
    base + [Generate(base)]
  }

  /** A generated number has the requested length, starts with the test prefix, and verifies. */
  lemma PanIsValid(panLen: nat, r: nat)
    requires Drawn(panLen, r)
    ensures |GeneratePan(panLen, r)| == panLen
    ensures PREFIX <= GeneratePan(panLen, r) && Verify(GeneratePan(panLen, r))
  {
    FormatNatLength(r, panLen - 8);
    var base := PREFIX + DigitsOf(r);
    CheckDigitUnique(base, Generate(base));
  }

  /** The test prefix, the drawn number digit by digit, and the check digit make up a generated number. */
  lemma PanExact(panLen: nat, r: nat, i: nat)
    requires Drawn(panLen, r) && i < panLen - 7
    ensures var pan := GeneratePan(panLen, r);
      && |pan| == panLen && pan[..6] == [5, 1, 0, 0, 0, 0]
      && pan[panLen - 2 - i] == r / Pow10(i) % 10
      && pan[panLen - 1] == Generate(pan[..panLen - 1])
  {
    PanIsValid(panLen, r);
    FormatNatLength(r, panLen - 8);
    FormatNatDigit(r, i);
    var base := PREFIX + DigitsOf(r);
    assert GeneratePan(panLen, r)[..panLen - 1] == base;
    assert base[6..] == DigitsOf(r);
  }
}
