/** Bytes as the integers 0..255, and exclusive or on them. */
module ByteStrings {
  import opened Arithmetic

  type byte = x: int | 0 <= x < 256

  /** A Go string or byte slice. */
  type Bytes = seq<byte>

  const COLON: byte := 58

  /** The bytes of a text of ASCII characters. */
  function Ascii(text: string): (bs: Bytes)
    ensures |bs| == |text|
  {
    seq<byte>(|text|, i requires 0 <= i < |text| => text[i] as int % 256)
  }

  function Pow2(n: nat): (r: nat)
    ensures r > 0
  {
    if n == 0 then 1 else 2 * Pow2(n - 1)
  }

  /** Exclusive or of the low n bits of a and b, bit by bit. */
  function XorBits(n: nat, a: nat, b: nat): (r: nat)
    ensures r < Pow2(n)
  {
    if n == 0 then 0 else (a + b) % 2 + 2 * XorBits(n - 1, a / 2, b / 2)
  }

  function Xor(a: byte, b: byte): byte {
    assert Pow2(8) == 256 by {
      assert Pow2(4) == 16;
    }
    XorBits(8, a, b)
  }

  lemma LowBitTwice(a: nat, b: nat, high: nat)
    ensures var x := (a + b) % 2 + 2 * high;
      x / 2 == high && (x + b) % 2 == a % 2
  {
    var bit := (a + b) % 2;
    assert (bit + 2 * high) / 2 == high;
    assert (bit + b) % 2 == a % 2;
    assert (bit + 2 * high + b) % 2 == (bit + b) % 2;
  }

  lemma {:induction false} XorBitsTwice(n: nat, a: nat, b: nat)
    requires a < Pow2(n)
    ensures XorBits(n, XorBits(n, a, b), b) == a
  {
    if n != 0 {
      LowBitTwice(a, b, XorBits(n - 1, a / 2, b / 2));
      XorBitsTwice(n - 1, a / 2, b / 2);
    }
  }

  lemma XorTwice(a: byte, b: byte)
    ensures Xor(Xor(a, b), b) == a
  {
    assert Pow2(8) == 256 by {
      assert Pow2(4) == 16;
    }
    XorBitsTwice(8, a, b);
  }

  /** The i-th bit, from the lowest. */
  function Bit(x: nat, i: nat): nat {
    x / Pow2(i) % 2
  }

  lemma HalvedQuotient(x: nat, k: nat)
    requires k > 0
    ensures x / 2 / k == x / (2 * k)
  {
    var q, r := x / 2 / k, x / 2 % k;
    assert x / 2 == q * k + r;
    assert x == q * (2 * k) + (2 * r + x % 2);
    QuotientUnique(x, 2 * k, q, 2 * r + x % 2);
  }

  lemma BitOfHalf(x: nat, i: nat)
    requires i > 0
    ensures Bit(x, i) == Bit(x / 2, i - 1)
  {
    HalvedQuotient(x, Pow2(i - 1));
  }

  lemma {:induction false} XorBitsExact(n: nat, a: nat, b: nat, i: nat)
    requires i < n
    ensures Bit(XorBits(n, a, b), i) == (Bit(a, i) + Bit(b, i)) % 2
  {
    var x := XorBits(n, a, b);
    var high := XorBits(n - 1, a / 2, b / 2);
    assert x / 2 == high;
    if i == 0 {
      assert Pow2(0) == 1;
    } else {
      XorBitsExact(n - 1, a / 2, b / 2, i - 1);
      BitOfHalf(x, i);
      BitOfHalf(a, i);
      BitOfHalf(b, i);
    }
  }

  /** A bit of the exclusive or is set exactly when that bit of just one operand is. */
  lemma XorExact(a: byte, b: byte, i: nat)
    requires i < 8
    ensures Bit(Xor(a, b), i) == 1 <==> Bit(a, i) != Bit(b, i)
  {
    XorBitsExact(8, a, b, i);
  }
}
