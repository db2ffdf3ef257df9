/** What sealing and unsealing promise together. */
module TokenTheorems {
  import opened Wrappers
  import opened ByteStrings
  import opened DecimalText
  import opened TokenPrimitives
  import opened PaymentToken
  import opened CryptoUtils
  import opened VerifyingKeys
  import opened IntermediateCert
  import opened TokenSender
  import opened TokenRecipient
  import LengthValue

  /** The tag of the message is the MAC of its ciphertext under the key this private key derives. */
  predicate MacMatches(p: Primitives, m: SignedMessage, info: Bytes, own: ECPrivateKey) {
    && DemKey(p, m, info, own).Success?
    && p.base64Decode(m.encryptedMessage).Some?
    && p.base64Decode(m.tag).Some?
    && p.hmac(DemKey(p, m, info, own).value.1, p.base64Decode(m.encryptedMessage).value) == p.base64Decode(m.tag)
  }

  /** What encryption computed: the derived key, the ciphertext and its tag, all readable from the message. */
  lemma EncryptedParts(p: Primitives, plaintext: Bytes, info: Bytes, recipient: ECPublicKey, entropy: Bytes)
    returns (kemKey: KemKey, ciphertext: Bytes, tag: Bytes)
    requires Base64Law(p) && HkdfLaw(p)
    requires Encrypted(p, plaintext, info, recipient, entropy).Success?
    ensures SenderKem(p, entropy, [], info, DEM_KEM_SIZE, recipient) == Success(kemKey)
    ensures |kemKey.symmetricKey| >= AES_CTR_KEY_SIZE
    ensures AesCtr(p, kemKey.symmetricKey[..AES_CTR_KEY_SIZE], plaintext) == Success(ciphertext)
    ensures p.hmac(kemKey.symmetricKey[AES_CTR_KEY_SIZE..], ciphertext) == Some(tag)
    ensures var m := Encrypted(p, plaintext, info, recipient, entropy).value;
      && p.base64Decode(m.encryptedMessage) == Some(ciphertext)
      && p.base64Decode(m.tag) == Some(tag)
      && p.base64Decode(m.ephemeralPublicKey) == Some(kemKey.kem)
  {
    kemKey := SenderKem(p, entropy, [], info, DEM_KEM_SIZE, recipient).value;
    ciphertext := AesCtr(p, kemKey.symmetricKey[..AES_CTR_KEY_SIZE], plaintext).value;
    tag := p.hmac(kemKey.symmetricKey[AES_CTR_KEY_SIZE..], ciphertext).value;
    assert p.base64Decode(p.base64Encode(ciphertext)) == Some(ciphertext);
    assert p.base64Decode(p.base64Encode(tag)) == Some(tag);
    assert p.base64Decode(p.base64Encode(kemKey.kem)) == Some(kemKey.kem);
  }

  /** The private key of the recipient undoes the encryption to its public key. */
  lemma DecryptEncrypted(p: Primitives, plaintext: Bytes, info: Bytes, own: ECPrivateKey, entropy: Bytes)
    requires Lawful(p) && p.isKeyPair(own)
    requires Encrypted(p, plaintext, info, own.publicKey, entropy).Success?
    ensures Decrypted(p, Encrypted(p, plaintext, info, own.publicKey, entropy).value, info, own) == Success(plaintext)
  {
    var kemKey, ciphertext, tag := EncryptedParts(p, plaintext, info, own.publicKey, entropy);
    KemAgrees(p, entropy, [], info, DEM_KEM_SIZE, own);
    AesCtrTwice(p, kemKey.symmetricKey[..AES_CTR_KEY_SIZE], plaintext);
  }

  lemma DecryptedNeedsMac(p: Primitives, m: SignedMessage, info: Bytes, own: ECPrivateKey)
    ensures Decrypted(p, m, info, own).Success? ==> MacMatches(p, m, info, own)
    ensures MacMatches(p, m, info, own) ==>
      Decrypted(p, m, info, own) == AesCtr(p, DemKey(p, m, info, own).value.0, p.base64Decode(m.encryptedMessage).value)
  {
  }

  /**
   Trying a list of keys finds the plaintext of the one that decrypts, wherever it stands,
   when no earlier key with another derived key matches the MAC.
   */
  lemma TriedDecryptFinds(p: Primitives, m: SignedMessage, info: Bytes, keys: seq<ECPrivateKey>, i: nat)
    requires i < |keys| && Decrypted(p, m, info, keys[i]).Success?
    requires forall j | 0 <= j < i && MacMatches(p, m, info, keys[j]) :: DemKey(p, m, info, keys[j]) == DemKey(p, m, info, keys[i])
    ensures TriedDecrypt(p, m, info, keys) == Decrypted(p, m, info, keys[i])
  {
    var first := 0;
    while Decrypted(p, m, info, keys[first]).Failure?
      invariant first <= i
      invariant forall j | 0 <= j < first :: Decrypted(p, m, info, keys[j]).Failure?
      decreases i - first
    {
      first := first + 1;
    }
    DecryptErrorsStopAt(p, m, info, keys, first);
    DecryptedNeedsMac(p, m, info, keys[first]);
    DecryptedNeedsMac(p, m, info, keys[i]);
  }

  /** The certificate certifies the sender's own signing key, and the recipient trusts one of its signers. */
  ghost predicate Trusts(p: Primitives, r: RecipientConfig, s: SenderConfig, f: Factory, certEntropy: nat -> Bytes,
                         der: Bytes)
  {
    && Created(p, f, certEntropy) == Success(s.cert)
    && f.protocolVersion == EC_V2 && f.senderID == s.senderID == r.senderID
    && der != [] && f.intermediateSigningKey == p.base64Encode(der)
    && p.parsePublicKey(der) == Some(p.verifyingKeyOf(s.signer)) && p.newVerifier(p.verifyingKeyOf(s.signer))
    && (forall k | k in KeysOfVersion(r.roots, EC_V2) :: p.newVerifier(k))
    && (exists k | k in f.signers :: p.verifyingKeyOf(k) in KeysOfVersion(r.roots, EC_V2))
  }

  lemma SignedVerifies(p: Primitives, r: RecipientConfig, s: SenderConfig, f: Factory, certEntropy: nat -> Bytes,
                       der: Bytes, recipientID: Bytes, message: Bytes, entropy: Bytes, now: int64)
    requires Lawful(p) && Trusts(p, r, s, f, certEntropy, der)
    requires Lasts(f.expirationNanos, now)
    requires recipientID == r.recipientID
    requires Signed(p, s, recipientID, message, entropy).Success?
    ensures Signed(p, s, recipientID, message, entropy).value.signature != []
    ensures Verified(p, r, Signed(p, s, recipientID, message, entropy).value, now) == Success(message)
  {
    CreatedCertYieldsKey(p, f, certEntropy, der, r.roots, now);
    var bytes := TokenBytes(s.senderID, recipientID, EC_V2, message);
    var signature := p.sign(s.signer, entropy, bytes).value;
    assert signature != [] && p.verify(p.verifyingKeyOf(s.signer), signature, bytes);
    assert p.base64Decode(p.base64Encode(signature)) == Some(signature);
  }

  /**
   Unsealing a sealed token gives the message back: for every message, and every list of private keys
   holding the right one at any position, while the certificate is unexpired.
   */
  lemma UnsealSeal(p: Primitives, r: RecipientConfig, s: SenderConfig, f: Factory, certEntropy: nat -> Bytes, der: Bytes,
                   message: Bytes, keyEntropy: Bytes, signEntropy: Bytes, i: nat, now: int64)
    requires Lawful(p) && Trusts(p, r, s, f, certEntropy, der)
    requires Lasts(f.expirationNanos, now)
    requires i < |r.privateKeys| && p.isKeyPair(r.privateKeys[i])
    requires Sealed(p, s, r.recipientID, message, r.privateKeys[i].publicKey, keyEntropy, signEntropy).Success?
    requires var m := Encrypted(p, message, s.senderID, r.privateKeys[i].publicKey, keyEntropy).value;
      forall j | 0 <= j < i && MacMatches(p, m, s.senderID, r.privateKeys[j]) ::
        DemKey(p, m, s.senderID, r.privateKeys[j]) == DemKey(p, m, s.senderID, r.privateKeys[i])
    ensures Unsealed(p, r, Sealed(p, s, r.recipientID, message, r.privateKeys[i].publicKey, keyEntropy, signEntropy).value, now)
         == Success(message)
  {
    var own := r.privateKeys[i];
    var m := Encrypted(p, message, s.senderID, own.publicKey, keyEntropy).value;
    DecryptEncrypted(p, message, s.senderID, own, keyEntropy);
    TriedDecryptFinds(p, m, s.senderID, r.privateKeys, i);
    SignedVerifies(p, r, s, f, certEntropy, der, r.recipientID, p.marshalMessage(m), signEntropy, now);
    assert p.marshalMessage(m) != [] && p.unmarshalMessage(p.marshalMessage(m)) == Some(m) by {
      EncryptedIsBase64(p, message, s.senderID, own.publicKey, keyEntropy);
    }
  }

  lemma EncryptedIsBase64(p: Primitives, plaintext: Bytes, info: Bytes, recipient: ECPublicKey, entropy: Bytes)
    requires JsonLaw(p)
    requires Encrypted(p, plaintext, info, recipient, entropy).Success?
    ensures var m := Encrypted(p, plaintext, info, recipient, entropy).value;
      p.marshalMessage(m) != [] && p.unmarshalMessage(p.marshalMessage(m)) == Some(m)
  {
    var m := Encrypted(p, plaintext, info, recipient, entropy).value;
    var a, b, c :| m == SignedMessage(p.base64Encode(a), p.base64Encode(b), p.base64Encode(c));
  }

  /** This root certified the key for this sender and version, and the key is unexpired now. */
  ghost predicate CertifiedBy(p: Primitives, r: RecipientConfig, version: Bytes, cert: IntermediateSigningCert, now: int64,
                              root: SenderVerifyingKey, key: VerifyingKey)
  {
    exists text, signedKey, expiration: int64 ::
      && root in r.roots && root.protocolVersion == version
      && text in cert.signatures && p.base64Decode(text).Some?
      && p.verify(root.publicKey, p.base64Decode(text).value, CertBytes(r.senderID, version, cert.signedKey))
      && p.unmarshalKey(cert.signedKey) == Some(signedKey)
      && ParseInt(signedKey.keyExpiration) == Some(expiration) && now < expiration
      && ParseB64ECPublicKey(p, signedKey.keyValue) == Success(key)
  }

  /** A key the recipient may believe for this sender, version and certificate, at this time. */
  ghost predicate Certified(p: Primitives, r: RecipientConfig, version: Bytes, cert: IntermediateSigningCert, now: int64,
                            key: VerifyingKey)
  {
    exists root :: CertifiedBy(p, r, version, cert, now, root, key)
  }

  lemma {:induction false} DecodedAt(p: Primitives, texts: seq<Bytes>, i: nat)
    requires DecodeAll(p, texts).Success? && i < |texts|
    ensures p.base64Decode(texts[i]) == Some(DecodeAll(p, texts).value[i])
  {
    if i < |texts| - 1 {
      DecodedAt(p, texts[..|texts| - 1], i);
    }
  }

  lemma SigningKeyIsCertified(p: Primitives, r: RecipientConfig, version: Bytes, cert: IntermediateSigningCert, now: int64)
    requires SigningKeyOf(p, cert, r.senderID, version, r.roots, now).Success?
    ensures Certified(p, r, version, cert, now, SigningKeyOf(p, cert, r.senderID, version, r.roots, now).value)
  {
    var sigs := DecodeAll(p, cert.signatures).value;
    var keys := KeysOfVersion(r.roots, version);
    var bytes := CertBytes(r.senderID, version, cert.signedKey);
    var i: nat :| i < |keys| && VerifiesWith(p, keys, i, sigs, bytes);
    var j :| 0 <= j < |sigs| && p.verify(keys[i], sigs[j], bytes);
    DecodedAt(p, cert.signatures, j);
    KeysOfVersionExact(r.roots, version, keys[i]);
    var root :| root in r.roots && root.protocolVersion == version && root.publicKey == keys[i];
    var text := cert.signatures[j];
    var signedKey := p.unmarshalKey(cert.signedKey).value;
    var expiration := ParseInt(signedKey.keyExpiration).value;
    assert text in cert.signatures && p.base64Decode(text).Some?;
    assert CertifiedBy(p, r, version, cert, now, root, SigningKeyOf(p, cert, r.senderID, version, r.roots, now).value);
  }

  /**
   The acceptance chain: an accepted token carries a signature, by a key that a trusted root of the token's
   version certified for this sender and that is unexpired now, over exactly this sender, recipient, version
   and message; and one of the private keys authenticates and decrypts the message.
   */
  lemma UnsealedIsAuthentic(p: Primitives, r: RecipientConfig, t: Token, now: int64)
    requires Unsealed(p, r, t, now).Success?
    ensures t.protocolVersion == EC_V2
    ensures exists key, signature ::
      && Certified(p, r, EC_V2, t.cert, now, key)
      && p.base64Decode(t.signature) == Some(signature)
      && p.verify(key, signature, TokenBytes(r.senderID, r.recipientID, EC_V2, t.signedMessage))
    ensures exists m, own ::
      && p.unmarshalMessage(t.signedMessage) == Some(m)
      && own in r.privateKeys && MacMatches(p, m, r.senderID, own)
      && Decrypted(p, m, r.senderID, own) == Unsealed(p, r, t, now)
  {
    SigningKeyIsCertified(p, r, EC_V2, t.cert, now);
    var key := SigningKeyOf(p, t.cert, r.senderID, EC_V2, r.roots, now).value;
    var signature := p.base64Decode(t.signature).value;
    assert p.verify(key, signature, TokenBytes(r.senderID, r.recipientID, EC_V2, t.signedMessage));
    var m := p.unmarshalMessage(t.signedMessage).value;
    var errs := DecryptErrors(p, m, r.senderID, r.privateKeys);
    var own := r.privateKeys[|errs|];
    DecryptedNeedsMac(p, m, r.senderID, own);
    assert own in r.privateKeys && Decrypted(p, m, r.senderID, own) == Unsealed(p, r, t, now);
  }

  /**
   The whole chain behind an accepted token, when the roots were parsed earlier: a listed root of the token's
   version, unexpired at that time, certified for this sender a key that is unexpired now, and this very key
   signed exactly this sender, recipient, version and message.
   */
  lemma AcceptedUnderCurrentRoot(p: Primitives, r: RecipientConfig, parsed: seq<ParsedVerifyingKey>, parsedAt: int,
                                 t: Token, now: int64)
    returns (root: SenderVerifyingKey, key: VerifyingKey, signature: Bytes)
    requires UnexpiredKeys(p, parsed, parsedAt) == Success(r.roots)
    requires Unsealed(p, r, t, now).Success?
    ensures Listed(p, parsed, root) && root.expirationNanos >= parsedAt
    ensures t.protocolVersion == root.protocolVersion == EC_V2
    ensures CertifiedBy(p, r, EC_V2, t.cert, now, root, key)
    ensures p.base64Decode(t.signature) == Some(signature)
    ensures p.verify(key, signature, TokenBytes(r.senderID, r.recipientID, EC_V2, t.signedMessage))
  {
    UnsealedIsAuthentic(p, r, t, now);
    key, signature :|
      && Certified(p, r, EC_V2, t.cert, now, key)
      && p.base64Decode(t.signature) == Some(signature)
      && p.verify(key, signature, TokenBytes(r.senderID, r.recipientID, EC_V2, t.signedMessage));
    root :| CertifiedBy(p, r, EC_V2, t.cert, now, root, key);
    KeptKeysAreUnexpired(p, parsed, parsedAt, root);
  }

  /** The key that checks a token depends on its certificate alone, whoever accepts it. */
  lemma SigningKeyDetermined(p: Primitives, r: RecipientConfig, r': RecipientConfig, version: Bytes, version': Bytes,
                             cert: IntermediateSigningCert, now: int64, now': int64)
    requires SigningKeyOf(p, cert, r.senderID, version, r.roots, now).Success?
    requires SigningKeyOf(p, cert, r'.senderID, version', r'.roots, now').Success?
    ensures SigningKeyOf(p, cert, r.senderID, version, r.roots, now)
         == SigningKeyOf(p, cert, r'.senderID, version', r'.roots, now')
  {
  }

  /**
   With symbolic signatures, a signature and certificate are accepted for one sender, one recipient and one
   message only: no recipient, however configured and whenever it looks, accepts them for anything else.
   */
  lemma SignatureBindsToken(p: Primitives, r: RecipientConfig, t: Token, now: int64,
                            r': RecipientConfig, t': Token, now': int64)
    requires BindingSignatures(p)
    requires t.signature == t'.signature && t.cert == t'.cert
    requires Unsealed(p, r, t, now).Success? && Unsealed(p, r', t', now').Success?
    requires LengthValue.AllShort([r.senderID, r.recipientID, t.signedMessage])
    requires LengthValue.AllShort([r'.senderID, r'.recipientID, t'.signedMessage])
    ensures r.senderID == r'.senderID && r.recipientID == r'.recipientID
    ensures t.protocolVersion == t'.protocolVersion && t.signedMessage == t'.signedMessage
  {
    SigningKeyDetermined(p, r, r', EC_V2, EC_V2, t.cert, now, now');
    var xs := [r.senderID, r.recipientID, EC_V2, t.signedMessage];
    var ys := [r'.senderID, r'.recipientID, EC_V2, t'.signedMessage];
    ShortFields(r.senderID, r.recipientID, t.signedMessage);
    ShortFields(r'.senderID, r'.recipientID, t'.signedMessage);
    assert LengthValue.Encode(xs) == LengthValue.Encode(ys);
    LengthValue.EncodeInjective(xs, ys);
    assert xs[0] == ys[0] && xs[1] == ys[1] && xs[3] == ys[3];
  }

  lemma ShortFields(senderID: Bytes, recipientID: Bytes, message: Bytes)
    requires LengthValue.AllShort([senderID, recipientID, message])
    ensures LengthValue.AllShort([senderID, recipientID, EC_V2, message])
  {
    var xs := [senderID, recipientID, message];
    assert LengthValue.Short(xs[0]) && LengthValue.Short(xs[1]) && LengthValue.Short(xs[2]);
  }

  /** The only key a certificate can yield is the one it was made for. */
  lemma CertYieldsItsKeyOnly(p: Primitives, f: Factory, certEntropy: nat -> Bytes, der: Bytes, senderID: Bytes,
                             version: Bytes, roots: seq<SenderVerifyingKey>, now: int64)
    requires Base64Law(p) && JsonLaw(p)
    requires Created(p, f, certEntropy).Success?
    requires der != [] && f.intermediateSigningKey == p.base64Encode(der)
    requires SigningKeyOf(p, Created(p, f, certEntropy).value, senderID, version, roots, now).Success?
    ensures SigningKeyOf(p, Created(p, f, certEntropy).value, senderID, version, roots, now)
         == OrError(p.parsePublicKey(der), BadKey)
  {
    SignedKeyReadBack(p, f, der, now);
  }

  /** With symbolic signatures, a token signed for one recipient ID is rejected under every other. */
  lemma SignedForOneRecipient(p: Primitives, s: SenderConfig, f: Factory, certEntropy: nat -> Bytes, der: Bytes,
                              recipientID: Bytes, message: Bytes, entropy: Bytes, other: RecipientConfig, now: int64)
    requires Lawful(p) && BindingSignatures(p)
    requires Created(p, f, certEntropy) == Success(s.cert)
    requires der != [] && f.intermediateSigningKey == p.base64Encode(der)
    requires p.parsePublicKey(der) == Some(p.verifyingKeyOf(s.signer))
    requires Signed(p, s, recipientID, message, entropy).Success?
    requires LengthValue.AllShort([s.senderID, recipientID, message])
    requires LengthValue.AllShort([other.senderID, other.recipientID, message])
    requires other.recipientID != recipientID
    ensures Verified(p, other, Signed(p, s, recipientID, message, entropy).value, now).Failure?
  {
    var t := Signed(p, s, recipientID, message, entropy).value;
    if Verified(p, other, t, now).Success? {
      CertYieldsItsKeyOnly(p, f, certEntropy, der, other.senderID, EC_V2, other.roots, now);
      var xs := [s.senderID, recipientID, EC_V2, message];
      var ys := [other.senderID, other.recipientID, EC_V2, message];
      var signature := p.sign(s.signer, entropy, LengthValue.Encode(xs)).value;
      assert p.base64Decode(p.base64Encode(signature)) == Some(signature);
      assert p.verify(p.verifyingKeyOf(s.signer), signature, LengthValue.Encode(xs));
      assert p.verify(p.verifyingKeyOf(s.signer), signature, LengthValue.Encode(ys));
      ShortFields(s.senderID, recipientID, message);
      ShortFields(other.senderID, other.recipientID, message);
      LengthValue.EncodeInjective(xs, ys);
    }
  }

  /** So whatever is sealed for one recipient ID cannot be unsealed under another, at any time, with any keys. */
  lemma SealedForOneRecipient(p: Primitives, s: SenderConfig, f: Factory, certEntropy: nat -> Bytes, der: Bytes,
                              recipientID: Bytes, message: Bytes, recipient: ECPublicKey,
                              keyEntropy: Bytes, signEntropy: Bytes, other: RecipientConfig, now: int64)
    requires Lawful(p) && BindingSignatures(p)
    requires Created(p, f, certEntropy) == Success(s.cert)
    requires der != [] && f.intermediateSigningKey == p.base64Encode(der)
    requires p.parsePublicKey(der) == Some(p.verifyingKeyOf(s.signer))
    requires Sealed(p, s, recipientID, message, recipient, keyEntropy, signEntropy).Success?
    requires var text := Sealed(p, s, recipientID, message, recipient, keyEntropy, signEntropy).value.signedMessage;
      LengthValue.AllShort([s.senderID, recipientID, text]) &&
      LengthValue.AllShort([other.senderID, other.recipientID, text])
    requires other.recipientID != recipientID
    ensures Unsealed(p, other, Sealed(p, s, recipientID, message, recipient, keyEntropy, signEntropy).value, now).Failure?
  {
    var text := Sealed(p, s, recipientID, message, recipient, keyEntropy, signEntropy).value.signedMessage;
    SignedForOneRecipient(p, s, f, certEntropy, der, recipientID, text, signEntropy, other, now);
  }

  // --------------------------------------------------------------------------------------------------
  // What a token holds, and what is accepted, in terms of the primitives
  // --------------------------------------------------------------------------------------------------

  /** text is other, byte by byte masked with the keystream of this key from a counter of sixteen zero bytes. */
  predicate MaskedWith(p: Primitives, key: Bytes, counter: Bytes, text: Bytes, other: Bytes) {
    && |counter| == 16 && (forall b | b in counter :: b == 0)
    && |text| == |other|
    && forall i | 0 <= i < |text| :: text[i] == Xor(other[i], p.keystream(key, counter, i))
  }

  lemma AesCtrIsMasked(p: Primitives, key: Bytes, text: Bytes) returns (counter: Bytes)
    requires |key| == 32
    ensures AesCtr(p, key, text).Success? && MaskedWith(p, key, counter, AesCtr(p, key, text).value, text)
  {
    counter := AesCtrExact(p, key, text);
  }

  /**
   What encryption does, from the fresh key pair on: 64 bytes are derived from the encoded point and the shared
   secret; the first 32 key the keystream that masks the message, the others the MAC of what results.
   */
  lemma EncryptedExact(p: Primitives, plaintext: Bytes, info: Bytes, recipient: ECPublicKey, entropy: Bytes)
    returns (pvt: ECPrivateKey, point: Bytes, secret: Bytes, k: Bytes, counter: Bytes, ciphertext: Bytes, tag: Bytes)
    requires HkdfLaw(p)
    requires Encrypted(p, plaintext, info, recipient, entropy).Success?
    ensures p.generateKey(recipient.curve, entropy) == Some(pvt)
    ensures p.pointEncode(pvt.publicKey.curve, pvt.publicKey.point) == Some(point)
    ensures p.sharedSecret(recipient.point, pvt) == Some(secret)
    ensures |k| == 64 && p.hkdf(point + secret, [], info, 64) == Some(k)
    ensures MaskedWith(p, k[..32], counter, ciphertext, plaintext)
    ensures p.hmac(k[32..], ciphertext) == Some(tag)
    ensures Encrypted(p, plaintext, info, recipient, entropy) ==
      Success(SignedMessage(p.base64Encode(ciphertext), p.base64Encode(tag), p.base64Encode(point)))
  {
    pvt := p.generateKey(recipient.curve, entropy).value;
    point := p.pointEncode(pvt.publicKey.curve, pvt.publicKey.point).value;
    secret := p.sharedSecret(recipient.point, pvt).value;
    k := p.hkdf(point + secret, [], info, 64).value;
    counter := AesCtrIsMasked(p, k[..32], plaintext);
    ciphertext := AesCtr(p, k[..32], plaintext).value;
    tag := p.hmac(k[32..], ciphertext).value;
  }

  /** What sealing adds: the message is encrypted under the sender ID, and the signature covers the four fields in order. */
  lemma SealedExact(p: Primitives, s: SenderConfig, recipientID: Bytes, message: Bytes, recipient: ECPublicKey,
                    keyEntropy: Bytes, signEntropy: Bytes) returns (m: SignedMessage, signature: Bytes)
    requires Sealed(p, s, recipientID, message, recipient, keyEntropy, signEntropy).Success?
    ensures Encrypted(p, message, s.senderID, recipient, keyEntropy) == Success(m)
    ensures p.sign(s.signer, signEntropy, LengthValue.Encode([s.senderID, recipientID, Ascii("ECv2"), p.marshalMessage(m)]))
      == Some(signature)
    ensures Sealed(p, s, recipientID, message, recipient, keyEntropy, signEntropy) ==
      Success(Token(Ascii("Yandex"), p.marshalMessage(m), Ascii("ECv2"), p.base64Encode(signature), s.cert))
  {
    NamesAreTexts();
    m := Encrypted(p, message, s.senderID, recipient, keyEntropy).value;
    signature := p.sign(s.signer, signEntropy, TokenBytes(s.senderID, recipientID, EC_V2, p.marshalMessage(m))).value;
  }

  /** What the recipient derives and finds when a private key opens a message. */
  datatype Opening = Opening(kem: Bytes, point: Bytes, secret: Bytes, k: Bytes, counter: Bytes, ciphertext: Bytes, tag: Bytes)

  predicate OpensWith(p: Primitives, m: SignedMessage, info: Bytes, own: ECPrivateKey, o: Opening, text: Bytes) {
    && p.base64Decode(m.ephemeralPublicKey) == Some(o.kem)
    && p.pointDecode(own.publicKey.curve, o.kem) == Some(o.point)
    && p.sharedSecret(o.point, own) == Some(o.secret)
    && p.hkdf(o.kem + o.secret, [], info, 64) == Some(o.k) && |o.k| >= 32
    && p.base64Decode(m.encryptedMessage) == Some(o.ciphertext)
    && p.base64Decode(m.tag) == Some(o.tag)
    && p.hmac(o.k[32..], o.ciphertext) == Some(o.tag)
    && MaskedWith(p, o.k[..32], o.counter, text, o.ciphertext)
  }

  ghost predicate Opens(p: Primitives, m: SignedMessage, info: Bytes, own: ECPrivateKey, text: Bytes) {
    exists o :: OpensWith(p, m, info, own, o, text)
  }

  lemma MaskedUnique(p: Primitives, key: Bytes, counter: Bytes, text: Bytes, counter': Bytes, text': Bytes, other: Bytes)
    requires MaskedWith(p, key, counter, text, other) && MaskedWith(p, key, counter', text', other)
    ensures text == text'
  {
    assert forall i | 0 <= i < 16 :: counter[i] in counter && counter'[i] in counter';
    assert counter == counter';
  }

  /** Decryption gives a text exactly when the MAC of the ciphertext is the tag and unmasking it gives that text. */
  lemma DecryptedIff(p: Primitives, m: SignedMessage, info: Bytes, own: ECPrivateKey, text: Bytes)
    ensures Decrypted(p, m, info, own) == Success(text) <==> Opens(p, m, info, own, text)
  {
    if Decrypted(p, m, info, own).Success? {
      var o := Opened(p, m, info, own);
    }
    if o :| OpensWith(p, m, info, own, o, text) {
      var counter := AesCtrIsMasked(p, o.k[..32], o.ciphertext);
      MaskedUnique(p, o.k[..32], o.counter, text, counter, AesCtr(p, o.k[..32], o.ciphertext).value, o.ciphertext);
    }
  }

  lemma Opened(p: Primitives, m: SignedMessage, info: Bytes, own: ECPrivateKey) returns (o: Opening)
    requires Decrypted(p, m, info, own).Success?
    ensures OpensWith(p, m, info, own, o, Decrypted(p, m, info, own).value)
  {
    var kem := p.base64Decode(m.ephemeralPublicKey).value;
    var point := p.pointDecode(own.publicKey.curve, kem).value;
    var secret := p.sharedSecret(point, own).value;
    var k := p.hkdf(kem + secret, [], info, 64).value;
    var ciphertext := p.base64Decode(m.encryptedMessage).value;
    var counter := AesCtrIsMasked(p, k[..32], ciphertext);
    o := Opening(kem, point, secret, k, counter, ciphertext, p.base64Decode(m.tag).value);
  }

  /** The i-th key opens the message with this text, and no earlier one opens it at all. */
  ghost predicate FirstOpens(p: Primitives, m: SignedMessage, info: Bytes, keys: seq<ECPrivateKey>, i: nat, text: Bytes) {
    && i < |keys| && Opens(p, m, info, keys[i], text)
    && forall j, other | 0 <= j < i :: !Opens(p, m, info, keys[j], other)
  }

  lemma FailsIff(p: Primitives, m: SignedMessage, info: Bytes, own: ECPrivateKey)
    ensures Decrypted(p, m, info, own).Failure? <==> forall other :: !Opens(p, m, info, own, other)
  {
    if Decrypted(p, m, info, own).Success? {
      DecryptedIff(p, m, info, own, Decrypted(p, m, info, own).value);
    }
    forall other | Opens(p, m, info, own, other)
      ensures Decrypted(p, m, info, own).Success?
    {
      DecryptedIff(p, m, info, own, other);
    }
  }

  lemma FirstOpensIff(p: Primitives, m: SignedMessage, info: Bytes, keys: seq<ECPrivateKey>, i: nat, text: Bytes)
    ensures FirstOpens(p, m, info, keys, i, text) <==>
      && i < |keys| && Decrypted(p, m, info, keys[i]) == Success(text)
      && forall j | 0 <= j < i :: Decrypted(p, m, info, keys[j]).Failure?
  {
    if i < |keys| {
      DecryptedIff(p, m, info, keys[i], text);
      forall j | 0 <= j < i
        ensures Decrypted(p, m, info, keys[j]).Failure? <==> forall other :: !Opens(p, m, info, keys[j], other)
      {
        FailsIff(p, m, info, keys[j]);
      }
    }
  }

  lemma TriedDecryptIff(p: Primitives, m: SignedMessage, info: Bytes, keys: seq<ECPrivateKey>, text: Bytes)
    ensures TriedDecrypt(p, m, info, keys) == Success(text) <==> exists i: nat :: FirstOpens(p, m, info, keys, i, text)
  {
    var n := FirstSuccess(p, m, info, keys);
    DecryptErrorsStopAt(p, m, info, keys, n);
    FirstOpensIff(p, m, info, keys, n, text);
    if i: nat :| FirstOpens(p, m, info, keys, i, text) {
      FirstOpensIff(p, m, info, keys, i, text);
    }
  }

  /** The index of the first key that decrypts, or the number of keys. */
  lemma FirstSuccess(p: Primitives, m: SignedMessage, info: Bytes, keys: seq<ECPrivateKey>) returns (n: nat)
    ensures n <= |keys|
    ensures forall i | 0 <= i < n :: Decrypted(p, m, info, keys[i]).Failure?
    ensures n < |keys| ==> Decrypted(p, m, info, keys[n]).Success?
  {
    n := 0;
    while n < |keys| && Decrypted(p, m, info, keys[n]).Failure?
      invariant n <= |keys| && forall i | 0 <= i < n :: Decrypted(p, m, info, keys[i]).Failure?
    {
      n := n + 1;
    }
  }

  /** The token's signature is this key's over the four fields, and the key is certified for the sender and current. */
  predicate SignatureOver(p: Primitives, r: RecipientConfig, t: Token, now: int64, key: VerifyingKey)
  {
    && p.newVerifier(key)
    && p.base64Decode(t.signature).Some?
    && p.verify(key, p.base64Decode(t.signature).value,
                LengthValue.Encode([r.senderID, r.recipientID, Ascii("ECv2"), t.signedMessage]))
    && t.cert.signedKey != [] && t.cert.signatures != [] && NamesKey(p, t.cert.signedKey, now, key)
  }

  /**
   A token is unsealed to a text exactly when it is complete and of this version, its certificate is certified by
   a root, the certified key signed its fields, and the first private key that opens the message opens it to that text.
   */
  lemma UnsealedIff(p: Primitives, r: RecipientConfig, t: Token, now: int64, text: Bytes)
    ensures Unsealed(p, r, t, now) == Success(text) <==>
      && t.signedMessage != [] && t.signature != [] && t.protocolVersion == Ascii("ECv2")
      && Certifies(p, t.cert, r.senderID, Ascii("ECv2"), r.roots)
      && (exists key :: SignatureOver(p, r, t, now, key))
      && p.unmarshalMessage(t.signedMessage).Some?
      && exists i: nat :: FirstOpens(p, p.unmarshalMessage(t.signedMessage).value, r.senderID, r.privateKeys, i, text)
  {
    NamesAreTexts();
    VerifiedIff(p, r, t, now);
    if p.unmarshalMessage(t.signedMessage).Some? {
      TriedDecryptIff(p, p.unmarshalMessage(t.signedMessage).value, r.senderID, r.privateKeys, text);
    }
  }

  lemma VerifiedIff(p: Primitives, r: RecipientConfig, t: Token, now: int64)
    ensures t.protocolVersion == Ascii("ECv2") ==>
      (Verified(p, r, t, now) == Success(t.signedMessage) <==>
         Certifies(p, t.cert, r.senderID, Ascii("ECv2"), r.roots) && exists key :: SignatureOver(p, r, t, now, key))
    ensures Verified(p, r, t, now).Success? ==> Verified(p, r, t, now) == Success(t.signedMessage)
  {
    forall key
      ensures SigningKeyOf(p, t.cert, r.senderID, t.protocolVersion, r.roots, now) == Success(key) <==>
        && t.cert.signedKey != [] && t.cert.signatures != []
        && NamesKey(p, t.cert.signedKey, now, key) && Certifies(p, t.cert, r.senderID, t.protocolVersion, r.roots)
    {
      YieldsKeyIff(p, t.cert, r.senderID, t.protocolVersion, r.roots, now, key);
    }
    if t.protocolVersion == Ascii("ECv2") && Verified(p, r, t, now).Success? {
      var key := SigningKeyOf(p, t.cert, r.senderID, t.protocolVersion, r.roots, now).value;
      assert SignatureOver(p, r, t, now, key);
    }
  }

  /** The three empty fields and a foreign version are told apart, in this order. */
  lemma IncompleteIsNamed(p: Primitives, r: RecipientConfig, t: Token, now: int64)
    ensures Unsealed(p, r, t, now) == Failure(SignedMessageRequired) <== t.signedMessage == []
    ensures t.signedMessage != [] && t.protocolVersion == [] ==> Unsealed(p, r, t, now) == Failure(VersionRequired)
    ensures t.signedMessage != [] && t.protocolVersion != [] && t.signature == [] ==>
      Unsealed(p, r, t, now) == Failure(SignatureRequired)
    ensures t.signedMessage != [] && t.signature != [] && t.protocolVersion != [] && t.protocolVersion != Ascii("ECv2") ==>
      Unsealed(p, r, t, now) == Failure(UnsupportedVersion)
  {
    NamesAreTexts();
  }
}
