/** Decimal text of integers, as strconv.FormatInt and strconv.ParseInt produce and accept it. */
module DecimalText {
  import opened Wrappers
  import opened ByteStrings
  import opened Arithmetic

  const MIN_INT64: int := -0x8000_0000_0000_0000
  const MAX_INT64: int := 0x7fff_ffff_ffff_ffff

  type int64 = x: int | MIN_INT64 <= x <= MAX_INT64

  /** Two's complement wrap-around of 64-bit arithmetic. */
  function WrapInt64(x: int): int64 {
    (x + 0x8000_0000_0000_0000) % 0x1_0000_0000_0000_0000 - 0x8000_0000_0000_0000
  }

  const PLUS: byte := 43
  const MINUS: byte := 45
  const ZERO: byte := 48
  const NINE: byte := 57

  function Pow10(n: nat): (r: nat)
    ensures r > 0
  {
    if n == 0 then 1 else 10 * Pow10(n - 1)
  }

  predicate IsDigit(c: byte) {
    ZERO <= c <= NINE
  }

  predicate AllDigits(s: Bytes) {
    forall i | 0 <= i < |s| :: IsDigit(s[i])
  }

  function FormatNat(n: nat): (s: Bytes)
    ensures |s| > 0 && AllDigits(s)
  {
    if n < 10 then [ZERO + n] else FormatNat(n / 10) + [ZERO + n % 10]
  }

  function NatOf(s: Bytes): nat
    requires AllDigits(s)
  {
    if s == [] then 0 else 10 * NatOf(s[..|s| - 1]) + (s[|s| - 1] - ZERO)
  }

  function FormatInt(x: int): Bytes {
    if x < 0 then [MINUS] + FormatNat(-x) else FormatNat(x)
  }

  /** Base 10, 64 bits: an optional sign, then at least one digit, and the value must fit. */
  function ParseInt(s: Bytes): (r: Option<int64>) {
    if s == [] then None
    else
      var negative := s[0] == MINUS;
      var digits := if negative || s[0] == PLUS then s[1..] else s;
      if digits == [] || !AllDigits(digits) then None
      else
        var magnitude: int := NatOf(digits);
        var x := if negative then -magnitude else magnitude;
        if MIN_INT64 <= x <= MAX_INT64 then Some(x) else None
  }

  lemma {:induction false} NatOfFormat(n: nat)
    ensures NatOf(FormatNat(n)) == n
  {
    if n >= 10 {
      NatOfFormat(n / 10);
      var s := FormatNat(n);
      assert s[..|s| - 1] == FormatNat(n / 10);
    }
  }

  /** Every 64-bit integer survives being printed and parsed. */
  lemma ParseFormat(x: int64)
    ensures ParseInt(FormatInt(x)) == Some(x)
  {
    if x < 0 {
      var n: nat := -(x as int);
      NatOfFormat(n);
      assert FormatInt(x)[1..] == FormatNat(n);
    } else {
      NatOfFormat(x);
    }
  }

  /** The number of digits printed is the position of the leading power of ten. */
  lemma {:induction false} FormatNatLength(n: nat, k: nat)
    requires Pow10(k) <= n < Pow10(k + 1)
    ensures |FormatNat(n)| == k + 1
  {
    if k > 0 {
      FormatNatLength(n / 10, k - 1);
    }
  }

  /** FormatInt prints digits and at most a minus sign. */
  lemma FormatIntChars(x: int)
    ensures forall i | 0 <= i < |FormatInt(x)| :: IsDigit(FormatInt(x)[i]) || FormatInt(x)[i] == MINUS
  {
  }

  lemma {:induction false} Pow10Step(n: nat)
    requires n > 0
    ensures Pow10(n) == 10 * Pow10(n - 1)
  {
  }

  lemma TenthQuotient(x: nat, k: nat)
    requires k > 0
    ensures x / 10 / k == x / (10 * k)
  {
    var q, r := x / 10 / k, x / 10 % k;
    assert x / 10 == q * k + r;
    assert x == q * (10 * k) + (10 * r + x % 10);
    QuotientUnique(x, 10 * k, q, 10 * r + x % 10);
  }

  /** Counted from the right, the i-th character printed is the i-th decimal digit. */
  lemma {:induction false} FormatNatDigit(n: nat, i: nat)
    requires i < |FormatNat(n)|
    ensures FormatNat(n)[|FormatNat(n)| - 1 - i] == '0' as int + n / Pow10(i) % 10
  {
    if i == 0 {
      assert Pow10(0) == 1;
    } else {
      FormatNatDigit(n / 10, i - 1);
      TenthQuotient(n, Pow10(i - 1));
    }
  }

  /** A plus sign and leading zeros are read over. */
  lemma {:induction false} LeadingZero(s: Bytes)
    requires AllDigits(s)
    ensures AllDigits([ZERO] + s) && NatOf([ZERO] + s) == NatOf(s)
  {
    if s != [] {
      var t := [ZERO] + s;
      LeadingZero(s[..|s| - 1]);
      assert t[..|t| - 1] == [ZERO] + s[..|s| - 1];
    }
  }

  lemma ParsePlus(x: nat)
    requires x <= MAX_INT64
    ensures ParseInt([PLUS] + FormatNat(x)) == Some(x) == ParseInt(FormatNat(x))
  {
    NatOfFormat(x);
    assert ([PLUS] + FormatNat(x))[1..] == FormatNat(x);
  }

  lemma NegativeText(x: int)
    requires x < 0
    ensures FormatInt(x) == Ascii("-") + FormatNat(-x)
  {
  }

  /** Wrapping changes a number by a multiple of 2^64 only. */
  lemma WrapExact(x: int)
    ensures (x - WrapInt64(x)) % 0x1_0000_0000_0000_0000 == 0
  {
  }
}
