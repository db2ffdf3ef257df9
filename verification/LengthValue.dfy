/** The length-prefixed byte string that both certificates and tokens sign (crypto_utils.go). */
module LengthValue {
  import opened Wrappers
  import opened ByteStrings

  const TWO_32: nat := 0x1_0000_0000

  /** The low k bytes of n, least significant first. */
  function LittleEndian(n: nat, k: nat): (bs: Bytes)
    ensures |bs| == k
  {
    if k == 0 then [] else [n % 256] + LittleEndian(n / 256, k - 1)
  }

  function Pow256(k: nat): nat {
    if k == 0 then 1 else 256 * Pow256(k - 1)
  }

  function FromLittleEndian(bs: Bytes): (n: nat)
    ensures n < Pow256(|bs|)
  {
    if bs == [] then 0
    else
      var low: int := bs[0];
      low + 256 * FromLittleEndian(bs[1..])
  }

  lemma Pow256Of4()
    ensures Pow256(4) == TWO_32
  {
    assert Pow256(1) == 256;
    assert Pow256(2) == 0x1_0000;
    assert Pow256(3) == 0x100_0000;
  }

  /** binary.LittleEndian.PutUint32 of uint32(n): the conversion keeps the low 32 bits. */
  function PutUint32(n: nat): (bs: Bytes)
    ensures |bs| == 4
  {
    LittleEndian(n % TWO_32, 4)
  }

  function Uint32(bs: Bytes): (n: nat)
    requires |bs| == 4
    ensures n < TWO_32
  {
    Pow256Of4();
    FromLittleEndian(bs)
  }

  function Field(arg: Bytes): Bytes {
    PutUint32(|arg|) + arg
  }

  function Encode(args: seq<Bytes>): Bytes {
    if args == [] then [] else Field(args[0]) + Encode(args[1..])
  }

  /** The reader the encoding is meant for: four length bytes, then that many bytes, repeatedly. */
  function Decode(bs: Bytes): (r: Option<seq<Bytes>>)
    ensures r.Some? ==> forall a | a in r.value :: |a| < TWO_32
  {
    if bs == [] then Some([])
    else if |bs| < 4 then None
    else
      var n := Uint32(bs[..4]);
      if |bs| < 4 + n then None
      else
        match Decode(bs[4 + n..])
        case None => None
        case Some(rest) => Some([bs[4..4 + n]] + rest)
  }

  predicate Short(arg: Bytes) {
    |arg| < TWO_32
  }

  predicate AllShort(args: seq<Bytes>) {
    forall i | 0 <= i < |args| :: Short(args[i])
  }

  method ToLengthValue(args: seq<Bytes>) returns (buf: Bytes)
    ensures buf == Encode(args)
  {
    buf := [];
    var bs := [0, 0, 0, 0];
    for i := 0 to |args|
      invariant buf + Encode(args[i..]) == Encode(args)
    {
      bs := PutUint32(|args[i]|);
      assert args[i..][1..] == args[i + 1..];
      buf := buf + bs;
      buf := buf + args[i];
    }
    assert args[|args|..] == [];
  }

  lemma {:induction false} FromLittleEndianOf(n: nat, k: nat)
    requires n < Pow256(k)
    ensures FromLittleEndian(LittleEndian(n, k)) == n
  {
    if k != 0 {
      FromLittleEndianOf(n / 256, k - 1);
      assert LittleEndian(n, k)[1..] == LittleEndian(n / 256, k - 1);
    }
  }

  lemma Uint32OfPut(n: nat)
    requires n < TWO_32
    ensures Uint32(PutUint32(n)) == n
  {
    Pow256Of4();
    FromLittleEndianOf(n, 4);
    assert n % TWO_32 == n;
    assert PutUint32(n) == LittleEndian(n, 4);
  }

  lemma DecodeOne(prefix: Bytes, a: Bytes, tail: Bytes)
    requires |prefix| == 4 && Uint32(prefix) == |a|
    ensures Decode(prefix + a + tail)
         == match Decode(tail) { case None => None case Some(rest) => Some([a] + rest) }
  {
    var bs := prefix + a + tail;
    assert bs[..4] == prefix;
    assert bs[4..4 + |a|] == a;
    assert bs[4 + |a|..] == tail;
  }

  lemma RestShort(args: seq<Bytes>)
    requires args != [] && AllShort(args)
    ensures Short(args[0]) && AllShort(args[1..])
  {
    assert Short(args[0]);
    var rest := args[1..];
    forall i | 0 <= i < |rest|
      ensures Short(rest[i])
    {
      assert Short(args[i + 1]);
    }
  }

  lemma EncodeFirst(a: Bytes, rest: seq<Bytes>)
    ensures Encode([a] + rest) == PutUint32(|a|) + a + Encode(rest)
  {
    assert ([a] + rest)[1..] == rest;
  }

  lemma {:induction false} DecodeEncodeShort(args: seq<Bytes>)
    requires AllShort(args)
    ensures Decode(Encode(args)) == Some(args)
  {
    if args != [] {
      var a, rest := args[0], args[1..];
      RestShort(args);
      DecodeEncodeShort(rest);
      Uint32OfPut(|a|);
      DecodeOne(PutUint32(|a|), a, Encode(rest));
      EncodeFirst(a, rest);
      assert args == [a] + rest;
    }
  }

  /** The reader recovers the arguments exactly when every length fits the four bytes. */
  lemma DecodeEncode(args: seq<Bytes>)
    ensures Decode(Encode(args)) == Some(args) <==> AllShort(args)
  {
    if AllShort(args) {
      DecodeEncodeShort(args);
    }
    if Decode(Encode(args)) == Some(args) {
      forall i | 0 <= i < |args|
        ensures Short(args[i])
      {
        assert args[i] in args;
      }
    }
  }

  /** Two argument lists of any arities that encode alike are the same list. */
  lemma EncodeInjective(xs: seq<Bytes>, ys: seq<Bytes>)
    requires AllShort(xs) && AllShort(ys)
    requires Encode(xs) == Encode(ys)
    ensures xs == ys
  {
    DecodeEncode(xs);
    DecodeEncode(ys);
  }

  /** What a certificate signs (three fields) is never what a token signs (four fields). */
  lemma CertNeverToken(sender: Bytes, version: Bytes, signedKey: Bytes,
                       sender': Bytes, recipient: Bytes, version': Bytes, message: Bytes)
    requires AllShort([sender, version, signedKey])
    requires AllShort([sender', recipient, version', message])
    ensures Encode([sender, version, signedKey]) != Encode([sender', recipient, version', message])
  {
    if Encode([sender, version, signedKey]) == Encode([sender', recipient, version', message]) {
      EncodeInjective([sender, version, signedKey], [sender', recipient, version', message]);
      assert false;
    }
  }

  function Zeros(n: nat): (z: Bytes)
    ensures |z| == n
  {
    seq(n, i => 0)
  }

  function Empties(n: nat): (e: seq<Bytes>)
    ensures |e| == n
  {
    seq(n, i => [])
  }

  lemma {:induction false} EncodeEmpties(n: nat)
    ensures Encode(Empties(n)) == Zeros(4 * n)
  {
    if n != 0 {
      EncodeEmpties(n - 1);
      assert Empties(n)[1..] == Empties(n - 1);
      assert Field([]) == Zeros(4);
    }
  }

  /** The bound is needed: a 2^32-byte string of zeros encodes like 2^30 + 1 empty strings. */
  lemma LongArgumentCollides()
    ensures Encode([Zeros(TWO_32)]) == Encode(Empties(TWO_32 / 4 + 1))
  {
    EncodeEmpties(TWO_32 / 4 + 1);
    var long := Zeros(TWO_32);
    var one: seq<Bytes> := [long];
    assert one[1..] == [];
    assert PutUint32(TWO_32) == Zeros(4);
    assert Encode(one) == Zeros(4) + long;
  }

  /** The four length bytes, least significant first, are the low 32 bits of the length. */
  lemma PutUint32Exact(n: nat)
    ensures var bs: seq<int> := PutUint32(n);
      bs[0] + 256 * bs[1] + 65536 * bs[2] + 16777216 * bs[3] == n % 4294967296
  {
    var m := n % TWO_32;
    var m1 := m / 256;
    var m2 := m1 / 256;
    var m3 := m2 / 256;
    assert LittleEndian(m3, 1) == [m3 % 256];
    assert LittleEndian(m2, 2) == [m2 % 256, m3 % 256];
    assert LittleEndian(m1, 3) == [m1 % 256, m2 % 256, m3 % 256];
    assert LittleEndian(m, 4) == [m % 256, m1 % 256, m2 % 256, m3 % 256];
  }

  /** Every argument stands in its place, after its length. */
  lemma {:induction false} EncodeAt(args: seq<Bytes>, i: nat)
    requires i < |args|
    ensures Encode(args) == Encode(args[..i]) + PutUint32(|args[i]|) + args[i] + Encode(args[i + 1..])
  {
    if i > 0 {
      EncodeAt(args[1..], i - 1);
      assert args[1..][..i - 1] == args[..i][1..];
      assert args[1..][i..] == args[i + 1..];
    }
  }
}
