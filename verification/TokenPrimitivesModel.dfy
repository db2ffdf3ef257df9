/** The laws assumed of the token's primitives hold together: here is a toy instance that satisfies all of them. */
module TokenPrimitivesModel {
  import opened Wrappers
  import opened ByteStrings
  import opened TokenPrimitives
  import LengthValue

  /** A self-delimiting copy of a byte string: 1 before each byte, 0 at the end. */
  function Quote(bs: Bytes): (q: Bytes)
    ensures q != []
  {
    if bs == [] then [0] else [1, bs[0]] + Quote(bs[1..])
  }

  /** The first quoted string, and what follows it. */
  function Unquote(q: Bytes): Option<(Bytes, Bytes)> {
    if q == [] then None
    else if q[0] == 0 then Some(([], q[1..]))
    else if |q| == 1 then None
    else
      match Unquote(q[2..])
      case None => None
      case Some((bs, rest)) => Some(([q[1]] + bs, rest))
  }

  lemma {:induction false} UnquoteQuote(bs: Bytes, rest: Bytes)
    ensures Unquote(Quote(bs) + rest) == Some((bs, rest))
  {
    var q := Quote(bs) + rest;
    if bs == [] {
      assert q[1..] == rest;
    } else {
      UnquoteQuote(bs[1..], rest);
      assert q[2..] == Quote(bs[1..]) + rest;
      assert bs == [bs[0]] + bs[1..];
    }
  }

  function QuoteKey(k: SignedKey): Bytes {
    Quote(k.keyValue) + Quote(k.keyExpiration)
  }

  function UnquoteKey(q: Bytes): Option<SignedKey> {
    match Unquote(q)
    case None => None
    case Some((a, rest)) =>
      match Unquote(rest)
      case None => None
      case Some((b, _)) => Some(SignedKey(a, b))
  }

  function QuoteMessage(m: SignedMessage): Bytes {
    Quote(m.encryptedMessage) + (Quote(m.tag) + Quote(m.ephemeralPublicKey))
  }

  function UnquoteMessage(q: Bytes): Option<SignedMessage> {
    match Unquote(q)
    case None => None
    case Some((a, rest)) =>
      match UnquoteKey(rest)
      case None => None
      case Some(k) => Some(SignedMessage(a, k.keyValue, k.keyExpiration))
  }

  lemma UnquoteQuoteKey(k: SignedKey)
    ensures UnquoteKey(QuoteKey(k)) == Some(k)
  {
    UnquoteQuote(k.keyValue, Quote(k.keyExpiration));
    UnquoteQuote(k.keyExpiration, []);
    assert Quote(k.keyExpiration) + [] == Quote(k.keyExpiration);
  }

  lemma UnquoteQuoteMessage(m: SignedMessage)
    ensures UnquoteMessage(QuoteMessage(m)) == Some(m)
  {
    UnquoteQuote(m.encryptedMessage, Quote(m.tag) + Quote(m.ephemeralPublicKey));
    UnquoteQuoteKey(SignedKey(m.tag, m.ephemeralPublicKey));
  }

  function Toy(): Primitives {
    Primitives(
      sk => true,
      (sk, entropy, m) => Some([1] + m),
      sk => sk,
      pk => true,
      (pk, sig: Bytes, m: Bytes) => sig == [1] + m,
      der => Some(der),
      k => true,
      (c: nat, entropy) => Some(ECPrivateKey(ECPublicKey(c, []), [])),
      (point, k) => Some([]),
      (c, point) => Some(point),
      (c, bs) => Some(bs),
      (ikm, salt, info, size: nat) => Some(LengthValue.Zeros(size)),
      (k, m) => Some([]),
      (k, iv, i) => 0,
      bs => bs,
      bs => Some(bs),
      QuoteMessage,
      UnquoteMessage,
      QuoteKey,
      UnquoteKey)
  }

  lemma ToySignatures()
    ensures SignatureLaw(Toy()) && BindingSignatures(Toy())
  {
    var p := Toy();
    forall pk, sig, m, m' | p.verify(pk, sig, m) && p.verify(pk, sig, m')
      ensures m == m'
    {
      assert sig[1..] == m && sig[1..] == m';
    }
  }

  lemma ToyKeys()
    ensures SharedSecretLaw(Toy()) && PointLaw(Toy()) && HkdfLaw(Toy()) && Base64Law(Toy())
  {
  }

  lemma ToyMessage(m: SignedMessage)
    ensures Toy().marshalMessage(m) != [] && Toy().unmarshalMessage(Toy().marshalMessage(m)) == Some(m)
  {
    UnquoteQuoteMessage(m);
  }

  lemma ToyKey(k: SignedKey)
    ensures Toy().marshalKey(k) != [] && Toy().unmarshalKey(Toy().marshalKey(k)) == Some(k)
  {
    UnquoteQuoteKey(k);
  }

  lemma ToyJson()
    ensures JsonLaw(Toy())
  {
    forall m: SignedMessage
      ensures Toy().marshalMessage(m) != [] && Toy().unmarshalMessage(Toy().marshalMessage(m)) == Some(m)
    {
      ToyMessage(m);
    }
    forall k: SignedKey
      ensures Toy().marshalKey(k) != [] && Toy().unmarshalKey(Toy().marshalKey(k)) == Some(k)
    {
      ToyKey(k);
    }
  }

  lemma LawsAreConsistent()
    ensures exists p :: Lawful(p) && BindingSignatures(p)
  {
    ToySignatures();
    ToyKeys();
    ToyJson();
    assert Lawful(Toy());
  }
}
