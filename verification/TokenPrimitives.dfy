/**
 The library calls the payment token rests on: ECDSA, ECDH, HKDF, HMAC, AES-CTR, base64 and JSON.
 None is modelled; each is a field of `Primitives`, and every law used about them is a predicate here.
 */
module TokenPrimitives {
  import opened Wrappers
  import opened ByteStrings
  import opened DecimalText

  /** ECDSA keys, as opaque bytes. */
  type SigningKey = Bytes
  type VerifyingKey = Bytes

  /** ECDH keys: a private key carries its public half, as the library's does. */
  datatype ECPublicKey = ECPublicKey(curve: nat, point: Bytes)
  datatype ECPrivateKey = ECPrivateKey(publicKey: ECPublicKey, d: Bytes)

  datatype SignedMessage = SignedMessage(encryptedMessage: Bytes, tag: Bytes, ephemeralPublicKey: Bytes)
  datatype SignedKey = SignedKey(keyValue: Bytes, keyExpiration: Bytes)

  datatype Primitives = Primitives(
    // ECDSA over SHA256 with DER signatures; signing consumes entropy and may fail.
    newSigner: SigningKey -> bool,
    sign: (SigningKey, Bytes, Bytes) -> Option<Bytes>,
    verifyingKeyOf: SigningKey -> VerifyingKey,
    newVerifier: VerifyingKey -> bool,
    verify: (VerifyingKey, Bytes, Bytes) -> bool,
    parsePublicKey: Bytes -> Option<VerifyingKey>,
    // ECDH: key generation from entropy, the shared secret, and uncompressed points.
    isKeyPair: ECPrivateKey -> bool,
    generateKey: (nat, Bytes) -> Option<ECPrivateKey>,
    sharedSecret: (Bytes, ECPrivateKey) -> Option<Bytes>,
    pointEncode: (nat, Bytes) -> Option<Bytes>,
    pointDecode: (nat, Bytes) -> Option<Bytes>,
    // HKDF over SHA256: input key material, salt, info, size.
    hkdf: (Bytes, Bytes, Bytes, nat) -> Option<Bytes>,
    // HMAC over SHA256 with a 32-byte tag: key, message.
    hmac: (Bytes, Bytes) -> Option<Bytes>,
    // AES in counter mode: the keystream byte for a key, an initial counter block and a position.
    keystream: (Bytes, Bytes, nat) -> byte,
    base64Encode: Bytes -> Bytes,
    base64Decode: Bytes -> Option<Bytes>,
    marshalMessage: SignedMessage -> Bytes,
    unmarshalMessage: Bytes -> Option<SignedMessage>,
    marshalKey: SignedKey -> Bytes,
    unmarshalKey: Bytes -> Option<SignedKey>)

  /** What was signed verifies, and a signature is not empty. */
  ghost predicate SignatureLaw(p: Primitives) {
    forall sk, entropy, m ::
      match p.sign(sk, entropy, m)
      case None => true
      case Some(sig) => sig != [] && p.verify(p.verifyingKeyOf(sk), sig, m)
  }

  /** Symbolic signatures: one signature never verifies two messages under one key. */
  ghost predicate BindingSignatures(p: Primitives) {
    forall pk, sig, m, m' :: p.verify(pk, sig, m) && p.verify(pk, sig, m') ==> m == m'
  }

  /** Both ends compute the same secret from the other's point. */
  ghost predicate SharedSecretLaw(p: Primitives) {
    && (forall c, entropy ::
          match p.generateKey(c, entropy)
          case None => true
          case Some(k) => p.isKeyPair(k) && k.publicKey.curve == c)
    && (forall a, b | p.isKeyPair(a) && p.isKeyPair(b) && a.publicKey.curve == b.publicKey.curve ::
          p.sharedSecret(a.publicKey.point, b) == p.sharedSecret(b.publicKey.point, a))
  }

  ghost predicate PointLaw(p: Primitives) {
    forall c, point ::
      match p.pointEncode(c, point)
      case None => true
      case Some(bs) => p.pointDecode(c, bs) == Some(point)
  }

  ghost predicate HkdfLaw(p: Primitives) {
    forall ikm, salt, info, size ::
      match p.hkdf(ikm, salt, info, size)
      case None => true
      case Some(k) => |k| == size
  }

  ghost predicate Base64Law(p: Primitives) {
    forall bs :: p.base64Decode(p.base64Encode(bs)) == Some(bs) && (p.base64Encode(bs) == [] ==> bs == [])
  }

  /** JSON round trips on the texts the sender writes: base64 fields and decimal numbers. */
  ghost predicate JsonLaw(p: Primitives) {
    && (forall a, b, c ::
          var m := SignedMessage(p.base64Encode(a), p.base64Encode(b), p.base64Encode(c));
          p.marshalMessage(m) != [] && p.unmarshalMessage(p.marshalMessage(m)) == Some(m))
    && (forall a, x: int64 ::
          var k := SignedKey(p.base64Encode(a), FormatInt(x));
          p.marshalKey(k) != [] && p.unmarshalKey(p.marshalKey(k)) == Some(k))
  }

  ghost predicate Lawful(p: Primitives) {
    && SignatureLaw(p)
    && SharedSecretLaw(p)
    && PointLaw(p)
    && HkdfLaw(p)
    && Base64Law(p)
    && JsonLaw(p)
  }
}
