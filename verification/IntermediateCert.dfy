/** Making and checking the certificate of an intermediate signing key (intermediate_signing_cert.go). */
module IntermediateCert {
  import opened Wrappers
  import opened ByteStrings
  import opened DecimalText
  import opened TokenPrimitives
  import opened PaymentToken
  import opened CryptoUtils
  import opened VerifyingKeys
  import LengthValue

  datatype Factory = Factory(
    signers: seq<SigningKey>,
    protocolVersion: Bytes,
    senderID: Bytes,
    intermediateSigningKey: Bytes,
    expirationNanos: int64)

  /** Go's integer division drops the fraction. */
  function Millis(nanos: int64): int64 {
    var n: int := nanos;
    if n >= 0 then n / NANOS_PER_MILLI else -(-n / NANOS_PER_MILLI)
  }

  /** Whether a certificate made to expire at that nanosecond is still good at this millisecond. */
  predicate Lasts(nanos: int64, now: int64) {
    if nanos >= 0 then (now + 1) * 1_000_000 <= nanos else now * 1_000_000 < nanos
  }

  /** The milliseconds are the nanoseconds with the rest towards zero cut off. */
  lemma MillisExact(nanos: int64)
    ensures nanos >= 0 ==> Millis(nanos) * 1_000_000 <= nanos < (Millis(nanos) + 1) * 1_000_000
    ensures nanos < 0 ==> (Millis(nanos) - 1) * 1_000_000 < nanos <= Millis(nanos) * 1_000_000
  {
  }

  lemma LastsIff(nanos: int64, now: int64)
    ensures Lasts(nanos, now) <==> now < Millis(nanos)
  {
    MillisExact(nanos);
  }

  function KeyToSign(f: Factory): SignedKey {
    SignedKey(f.intermediateSigningKey, FormatInt(Millis(f.expirationNanos)))
  }

  function CertBytes(senderID: Bytes, version: Bytes, signedKey: Bytes): Bytes {
    LengthValue.Encode([senderID, version, signedKey])
  }

  /** One base64 signature per signer, in order; entropy(i) is what the i-th signing draws. */
  function SignAll(p: Primitives, signers: seq<SigningKey>, entropy: nat -> Bytes, message: Bytes):
    (r: Outcome<seq<Bytes>>)
    ensures r.Success? ==> |r.value| == |signers|
  {
    if signers == [] then Success([])
    else
      var n := |signers| - 1;
      var signatures :- SignAll(p, signers[..n], entropy, message);
      var signature :- OrError(p.sign(signers[n], entropy(n), message), CannotSign);
      Success(signatures + [p.base64Encode(signature)])
  }

  function DecodeAll(p: Primitives, texts: seq<Bytes>): (r: Outcome<seq<Bytes>>)
    ensures r.Success? ==> |r.value| == |texts|
  {
    if texts == [] then Success([])
    else
      var n := |texts| - 1;
      var decoded :- DecodeAll(p, texts[..n]);
      var bs :- OrError(p.base64Decode(texts[n]), BadBase64);
      Success(decoded + [bs])
  }

  function NewFactoryOutcome(p: Primitives, keys: seq<SigningKey>, version: Bytes, senderID: Bytes, key: Bytes,
                             expirationNanos: int64): Outcome<Factory>
  {
    if forall i | 0 <= i < |keys| :: p.newSigner(keys[i])
    then Success(Factory(keys, version, senderID, key, expirationNanos))
    else Failure(BadKey)
  }

  function Created(p: Primitives, f: Factory, entropy: nat -> Bytes): Outcome<IntermediateSigningCert> {
    var signedKey := p.marshalKey(KeyToSign(f));
    var signatures :- SignAll(p, f.signers, entropy, CertBytes(f.senderID, f.protocolVersion, signedKey));
    Success(IntermediateSigningCert(signedKey, signatures))
  }

  /** now is in milliseconds. */
  function SigningKeyOf(p: Primitives, cert: IntermediateSigningCert, senderID: Bytes, version: Bytes,
                        roots: seq<SenderVerifyingKey>, now: int64): Outcome<VerifyingKey>
  {
    var _ :- ValidateCert(cert);
    var signatures :- DecodeAll(p, cert.signatures);
    var _ :- SignaturesOutcome(p, KeysOfVersion(roots, version), signatures,
                               CertBytes(senderID, version, cert.signedKey));
    var signedKey :- OrError(p.unmarshalKey(cert.signedKey), BadJson);
    var _ :- ValidateSignedKey(signedKey, now);
    ParseB64ECPublicKey(p, signedKey.keyValue)
  }

  method NewFactory(p: Primitives, senderSigningKeys: seq<SigningKey>, protocolVersion: Bytes, senderID: Bytes,
                    intermediateSigningKey: Bytes, expirationNanos: int64) returns (r: Outcome<Factory>)
    ensures r == NewFactoryOutcome(p, senderSigningKeys, protocolVersion, senderID, intermediateSigningKey,
                                   expirationNanos)
    ensures r.Success? <==> forall i | 0 <= i < |senderSigningKeys| :: p.newSigner(senderSigningKeys[i])
    ensures r.Success? ==>
      && r.value.signers == senderSigningKeys && r.value.protocolVersion == protocolVersion
      && r.value.senderID == senderID && r.value.intermediateSigningKey == intermediateSigningKey
      && r.value.expirationNanos == expirationNanos
  {
    var signers: seq<SigningKey> := [];
    for i := 0 to |senderSigningKeys|
      invariant signers == senderSigningKeys[..i]
      invariant forall j | 0 <= j < i :: p.newSigner(senderSigningKeys[j])
    {
      if !p.newSigner(senderSigningKeys[i]) {
        return Failure(BadKey);
      }
      signers := signers + [senderSigningKeys[i]];
    }
    assert senderSigningKeys[..|senderSigningKeys|] == senderSigningKeys;
    r := Success(Factory(signers, protocolVersion, senderID, intermediateSigningKey, expirationNanos));
  }

  method CreateIntermediateSigningCert(p: Primitives, f: Factory, entropy: nat -> Bytes)
    returns (r: Outcome<IntermediateSigningCert>)
    ensures r == Created(p, f, entropy)
  {
    var signedKey := p.marshalKey(KeyToSign(f));
    var signatures: seq<Bytes> := [];
    var toSignBytes := LengthValue.ToLengthValue([f.senderID, f.protocolVersion, signedKey]);
    for i := 0 to |f.signers|
      invariant SignAll(p, f.signers[..i], entropy, toSignBytes) == Success(signatures)
    {
      assert f.signers[..i + 1][..i] == f.signers[..i];
      var signature := p.sign(f.signers[i], entropy(i), toSignBytes);
      if signature.None? {
        FirstSigningErrorStands(p, f.signers, entropy, toSignBytes, i + 1);
        return Failure(CannotSign);
      }
      signatures := signatures + [p.base64Encode(signature.value)];
    }
    assert f.signers[..|f.signers|] == f.signers;
    r := Success(IntermediateSigningCert(signedKey, signatures));
  }

  method ValidateAndGetSigningKey(p: Primitives, cert: IntermediateSigningCert, senderID: Bytes, protocolVersion: Bytes,
                                  verifyingKeys: seq<SenderVerifyingKey>, now: int64) returns (r: Outcome<VerifyingKey>)
    ensures r == SigningKeyOf(p, cert, senderID, protocolVersion, verifyingKeys, now)
  {
    var valid := ValidateCert(cert);
    if valid.Failure? {
      return Failure(valid.error);
    }
    var signatures: seq<Bytes> := [];
    for i := 0 to |cert.signatures|
      invariant DecodeAll(p, cert.signatures[..i]) == Success(signatures)
    {
      assert cert.signatures[..i + 1][..i] == cert.signatures[..i];
      var s := p.base64Decode(cert.signatures[i]);
      if s.None? {
        FirstDecodingErrorStands(p, cert.signatures, i + 1);
        return Failure(BadBase64);
      }
      signatures := signatures + [s.value];
    }
    assert cert.signatures[..|cert.signatures|] == cert.signatures;
    var signedBytes := LengthValue.ToLengthValue([senderID, protocolVersion, cert.signedKey]);
    var keys := VerifyingKeys.Get(verifyingKeys, protocolVersion);
    var verified := VerifySignatures(p, keys, signatures, signedBytes);
    if verified.Failure? {
      return Failure(verified.error);
    }
    var signedKey := p.unmarshalKey(cert.signedKey);
    if signedKey.None? {
      return Failure(BadJson);
    }
    var current := ValidateSignedKey(signedKey.value, now);
    if current.Failure? {
      return Failure(current.error);
    }
    r := ParseB64ECPublicKey(p, signedKey.value.keyValue);
  }

  lemma {:induction false} FirstSigningErrorStands(p: Primitives, signers: seq<SigningKey>, entropy: nat -> Bytes,
                                                   message: Bytes, n: nat)
    requires n <= |signers|
    requires SignAll(p, signers[..n], entropy, message) == Failure(CannotSign)
    ensures SignAll(p, signers, entropy, message) == Failure(CannotSign)
    decreases |signers|
  {
    if n < |signers| {
      var shorter := signers[..|signers| - 1];
      assert shorter[..n] == signers[..n];
      FirstSigningErrorStands(p, shorter, entropy, message, n);
    } else {
      assert signers[..n] == signers;
    }
  }

  lemma {:induction false} FirstDecodingErrorStands(p: Primitives, texts: seq<Bytes>, n: nat)
    requires n <= |texts|
    requires DecodeAll(p, texts[..n]) == Failure(BadBase64)
    ensures DecodeAll(p, texts) == Failure(BadBase64)
    decreases |texts|
  {
    if n < |texts| {
      var shorter := texts[..|texts| - 1];
      assert shorter[..n] == texts[..n];
      FirstDecodingErrorStands(p, shorter, n);
    } else {
      assert texts[..n] == texts;
    }
  }

  /** Decoding what was signed gives back, at every index, a signature that signer's key verifies. */
  lemma {:induction false} DecodeSigned(p: Primitives, signers: seq<SigningKey>, entropy: nat -> Bytes, message: Bytes)
    requires SignatureLaw(p) && Base64Law(p)
    requires SignAll(p, signers, entropy, message).Success?
    ensures DecodeAll(p, SignAll(p, signers, entropy, message).value).Success?
    ensures var sigs := DecodeAll(p, SignAll(p, signers, entropy, message).value).value;
            |sigs| == |signers| && forall i | 0 <= i < |signers| :: p.verify(p.verifyingKeyOf(signers[i]), sigs[i], message)
  {
    if signers != [] {
      var n := |signers| - 1;
      DecodeSigned(p, signers[..n], entropy, message);
      var texts := SignAll(p, signers, entropy, message).value;
      assert texts[..n] == SignAll(p, signers[..n], entropy, message).value;
      var sig := p.sign(signers[n], entropy(n), message).value;
      assert p.base64Decode(p.base64Encode(sig)) == Some(sig);
    }
  }

  /** The certified key can be read back out of the signed text, and is checked against its expiry. */
  lemma SignedKeyReadBack(p: Primitives, f: Factory, der: Bytes, now: int64)
    requires Base64Law(p) && JsonLaw(p)
    requires f.intermediateSigningKey == p.base64Encode(der) && der != []
    ensures p.marshalKey(KeyToSign(f)) != [] && p.unmarshalKey(p.marshalKey(KeyToSign(f))) == Some(KeyToSign(f))
    ensures ValidateSignedKey(KeyToSign(f), now)
         == if now < Millis(f.expirationNanos) then Success(()) else Failure(ExpiredCert)
    ensures ParseB64ECPublicKey(p, KeyToSign(f).keyValue) == OrError(p.parsePublicKey(der), BadKey)
  {
    ParseFormat(Millis(f.expirationNanos));
    assert p.base64Decode(p.base64Encode(der)) == Some(der);
  }

  /** One trusted signer is enough for the signature check. */
  lemma TrustedSignerVerifies(p: Primitives, f: Factory, entropy: nat -> Bytes, message: Bytes, keys: seq<VerifyingKey>)
    requires SignatureLaw(p) && Base64Law(p)
    requires SignAll(p, f.signers, entropy, message).Success?
    requires forall k | k in keys :: p.newVerifier(k)
    requires exists s | s in f.signers :: p.verifyingKeyOf(s) in keys
    ensures var texts := SignAll(p, f.signers, entropy, message).value;
      DecodeAll(p, texts).Success? && SignaturesOutcome(p, keys, DecodeAll(p, texts).value, message) == Success(())
  {
    DecodeSigned(p, f.signers, entropy, message);
    var sigs := DecodeAll(p, SignAll(p, f.signers, entropy, message).value).value;
    var s :| s in f.signers && p.verifyingKeyOf(s) in keys;
    var i :| 0 <= i < |keys| && keys[i] == p.verifyingKeyOf(s);
    var j :| 0 <= j < |f.signers| && f.signers[j] == s;
    assert p.verify(keys[i], sigs[j], message);
    assert VerifiesWith(p, keys, i, sigs, message);
  }

  /**
   A created certificate yields the certified key to everyone who trusts one of its signers,
   while the nanosecond it was made to expire at is at least a whole millisecond away; after that, to nobody.
   */
  lemma CreatedCertYieldsKey(p: Primitives, f: Factory, entropy: nat -> Bytes, der: Bytes,
                             roots: seq<SenderVerifyingKey>, now: int64)
    requires Lawful(p)
    requires Created(p, f, entropy).Success?
    requires f.intermediateSigningKey == p.base64Encode(der) && der != [] && p.parsePublicKey(der).Some?
    requires forall k | k in KeysOfVersion(roots, f.protocolVersion) :: p.newVerifier(k)
    requires exists s | s in f.signers :: p.verifyingKeyOf(s) in KeysOfVersion(roots, f.protocolVersion)
    ensures SigningKeyOf(p, Created(p, f, entropy).value, f.senderID, f.protocolVersion, roots, now)
         == if Lasts(f.expirationNanos, now) then Success(p.parsePublicKey(der).value) else Failure(ExpiredCert)
  {
    LastsIff(f.expirationNanos, now);
    SignedKeyReadBack(p, f, der, now);
    var message := CertBytes(f.senderID, f.protocolVersion, p.marshalKey(KeyToSign(f)));
    TrustedSignerVerifies(p, f, entropy, message, KeysOfVersion(roots, f.protocolVersion));
  }

  // --------------------------------------------------------------------------------------------------
  // What a certificate holds, and when it is believed
  // --------------------------------------------------------------------------------------------------

  /** The written expiry reads back as the whole milliseconds of the nanoseconds it was made from. */
  lemma WrittenExpiry(f: Factory) returns (millis: int64)
    ensures ParseInt(KeyToSign(f).keyExpiration) == Some(millis) && KeyToSign(f).keyValue == f.intermediateSigningKey
    ensures var nanos := f.expirationNanos;
      if nanos >= 0 then millis * 1_000_000 <= nanos < (millis + 1) * 1_000_000
      else (millis - 1) * 1_000_000 < nanos <= millis * 1_000_000
  {
    millis := Millis(f.expirationNanos);
    ParseFormat(millis);
    MillisExact(f.expirationNanos);
  }

  /** texts[i] is what the i-th signer signed. */
  predicate SignedBy(p: Primitives, signers: seq<SigningKey>, entropy: nat -> Bytes, message: Bytes, texts: seq<Bytes>) {
    && |texts| == |signers|
    && forall i | 0 <= i < |signers| ::
         p.sign(signers[i], entropy(i), message).Some? &&
         texts[i] == p.base64Encode(p.sign(signers[i], entropy(i), message).value)
  }

  lemma {:induction false} SignAllIff(p: Primitives, signers: seq<SigningKey>, entropy: nat -> Bytes, message: Bytes,
                                      texts: seq<Bytes>)
    ensures SignAll(p, signers, entropy, message) == Success(texts) <==> SignedBy(p, signers, entropy, message, texts)
  {
    if signers != [] {
      var n := |signers| - 1;
      if |texts| == |signers| {
        assert texts == texts[..n] + [texts[n]];
        SignAllIff(p, signers[..n], entropy, message, texts[..n]);
        assert forall i | 0 <= i < n :: signers[..n][i] == signers[i] && texts[..n][i] == texts[i];
      }
    }
  }

  /**
   Creation succeeds with a certificate exactly when every signer signs; it then holds the signed text of the key
   and its expiry, and per signer one signature over sender, version and that text, in this order.
   */
  lemma CreatedIff(p: Primitives, f: Factory, entropy: nat -> Bytes, cert: IntermediateSigningCert)
    ensures Created(p, f, entropy) == Success(cert) <==>
      && cert.signedKey == p.marshalKey(KeyToSign(f))
      && SignedBy(p, f.signers, entropy, LengthValue.Encode([f.senderID, f.protocolVersion, cert.signedKey]), cert.signatures)
  {
    var message := CertBytes(f.senderID, f.protocolVersion, p.marshalKey(KeyToSign(f)));
    SignAllIff(p, f.signers, entropy, message, cert.signatures);
  }

  predicate DecodesTo(p: Primitives, texts: seq<Bytes>, decoded: seq<Bytes>) {
    |decoded| == |texts| && forall i | 0 <= i < |texts| :: p.base64Decode(texts[i]) == Some(decoded[i])
  }

  lemma {:induction false} DecodeAllIff(p: Primitives, texts: seq<Bytes>, decoded: seq<Bytes>)
    ensures DecodeAll(p, texts) == Success(decoded) <==> DecodesTo(p, texts, decoded)
  {
    if texts != [] {
      var n := |texts| - 1;
      if |decoded| == |texts| {
        assert decoded == decoded[..n] + [decoded[n]];
        DecodeAllIff(p, texts[..n], decoded[..n]);
        assert forall i | 0 <= i < n :: texts[..n][i] == texts[i] && decoded[..n][i] == decoded[i];
      }
    }
  }

  /** A root of this version accepts one of the signatures, and all roots of the version up to it are usable. */
  predicate RootAccepts(p: Primitives, roots: seq<SenderVerifyingKey>, version: Bytes, i: nat, sigs: seq<Bytes>, message: Bytes) {
    && i < |roots| && roots[i].protocolVersion == version
    && (forall j | 0 <= j <= i && roots[j].protocolVersion == version :: p.newVerifier(roots[j].publicKey))
    && exists s | 0 <= s < |sigs| :: p.verify(roots[i].publicKey, sigs[s], message)
  }

  lemma RootAcceptsIff(p: Primitives, roots: seq<SenderVerifyingKey>, version: Bytes, sigs: seq<Bytes>, message: Bytes)
    ensures SignaturesOutcome(p, KeysOfVersion(roots, version), sigs, message).Success?
       <==> exists i: nat :: RootAccepts(p, roots, version, i, sigs, message)
  {
    var keys := KeysOfVersion(roots, version);
    var at := FoundInOrder(roots, version);
    if i: nat :| i < |keys| && VerifiesWith(p, keys, i, sigs, message) {
      forall j | 0 <= j <= at[i] && roots[j].protocolVersion == version
        ensures p.newVerifier(roots[j].publicKey)
      {
        var k :| 0 <= k < |at| && at[k] == j;
        assert k <= i;
      }
      assert RootAccepts(p, roots, version, at[i], sigs, message);
    }
    if i: nat :| RootAccepts(p, roots, version, i, sigs, message) {
      var k :| 0 <= k < |at| && at[k] == i;
      assert forall j | 0 <= j <= k :: at[j] <= i && p.newVerifier(keys[j]);
      assert VerifiesWith(p, keys, k, sigs, message);
    }
  }

  /** The signed text names this key, with an expiry that is still ahead. */
  predicate NamesKey(p: Primitives, signedKey: Bytes, now: int64, key: VerifyingKey) {
    && p.unmarshalKey(signedKey).Some?
    && var k := p.unmarshalKey(signedKey).value;
       && k.keyValue != [] && p.base64Decode(k.keyValue).Some?
       && p.parsePublicKey(p.base64Decode(k.keyValue).value) == Some(key)
       && ParseInt(k.keyExpiration).Some? && now < ParseInt(k.keyExpiration).value
  }

  /** The certificate's texts decode, and a root of the version accepts one of them over sender, version and signed key. */
  ghost predicate Certifies(p: Primitives, cert: IntermediateSigningCert, senderID: Bytes, version: Bytes,
                            roots: seq<SenderVerifyingKey>)
  {
    exists sigs, i: nat ::
      && DecodesTo(p, cert.signatures, sigs)
      && RootAccepts(p, roots, version, i, sigs, LengthValue.Encode([senderID, version, cert.signedKey]))
  }

  lemma CertifiesIff(p: Primitives, cert: IntermediateSigningCert, senderID: Bytes, version: Bytes,
                     roots: seq<SenderVerifyingKey>)
    ensures Certifies(p, cert, senderID, version, roots) <==>
      DecodeAll(p, cert.signatures).Success? &&
      SignaturesOutcome(p, KeysOfVersion(roots, version), DecodeAll(p, cert.signatures).value,
                        CertBytes(senderID, version, cert.signedKey)).Success?
  {
    var message := CertBytes(senderID, version, cert.signedKey);
    if DecodeAll(p, cert.signatures).Success? {
      var decoded := DecodeAll(p, cert.signatures).value;
      DecodeAllIff(p, cert.signatures, decoded);
      RootAcceptsIff(p, roots, version, decoded, message);
    }
    if Certifies(p, cert, senderID, version, roots) {
      var sigs, i: nat :|
        DecodesTo(p, cert.signatures, sigs) && RootAccepts(p, roots, version, i, sigs, message);
      DecodeAllIff(p, cert.signatures, sigs);
    }
  }

  /** A certificate yields a key exactly when a root of the version certified it for the sender and it has not expired. */
  lemma YieldsKeyIff(p: Primitives, cert: IntermediateSigningCert, senderID: Bytes, version: Bytes,
                     roots: seq<SenderVerifyingKey>, now: int64, key: VerifyingKey)
    ensures SigningKeyOf(p, cert, senderID, version, roots, now) == Success(key) <==>
      && cert.signedKey != [] && cert.signatures != []
      && NamesKey(p, cert.signedKey, now, key) && Certifies(p, cert, senderID, version, roots)
  {
    CertifiesIff(p, cert, senderID, version, roots);
  }
}
