/** Facts about integer division that several proofs need. */
module Arithmetic {

  lemma ProductAtLeast(b: nat, k: int)
    ensures k >= 1 ==> b * k >= b
    ensures k <= -1 ==> b * k <= -(b as int)
  {
  }

  lemma MultipleOf(q: nat, b: nat)
    requires b >= 1
    ensures (q * b) % b == 0
  {
    var k := q * b / b - q;
    assert b * k == -((q * b) % b);
    ProductAtLeast(b, k);
  }

  lemma QuotientUnique(x: nat, d: nat, q: nat, r: nat)
    requires r < d && x == q * d + r
    ensures x / d == q && x % d == r
  {
    var k := q - x / d;
    assert d * k == x % d - r;
    ProductAtLeast(d, k);
  }

  lemma Distribute(s: int, a: int, b: int)
    ensures s * (a + b) == s * a + s * b
  {
  }

  lemma Reassociate(s: int, q: int, d: int)
    ensures s * (q * d) == q * (s * d)
  {
  }

  /** Divisibility is unchanged when both sides are scaled alike. */
  lemma ScaledDivides(n: nat, d: nat, s: nat)
    requires d >= 1 && s >= 1
    ensures s * d >= 1 && ((s * n) % (s * d) == 0 <==> n % d == 0)
  {
    var q, r := n / d, n % d;
    assert n == q * d + r;
    ProductAtLeast(s, d);
    ProductAtLeast(s, d - r);
    Distribute(s, d - r, r);
    Distribute(s, q * d, r);
    Reassociate(s, q, d);
    ProductAtLeast(s, r);
    ScaledQuotient(s * n, s * d, q, s * r);
  }

  lemma ScaledQuotient(x: nat, d: nat, q: nat, r: int)
    requires 0 <= r < d && x == q * d + r
    ensures x % d == r
  {
    QuotientUnique(x, d, q, r);
  }
}
