/** Counter mode, MACs, the two ends of the key encapsulation, and signature search (crypto_utils.go). */
module CryptoUtils {
  import opened Wrappers
  import opened ByteStrings
  import opened Aes
  import opened TokenPrimitives
  import opened PaymentToken

  const ZERO_IV: Bytes := [0, 0, 0, 0, 0, 0, 0, 0, 0, 0, 0, 0, 0, 0, 0, 0]

  /** The text exclusive-ored with the keystream of key and iv. */
  function Masked(p: Primitives, key: Bytes, iv: Bytes, text: Bytes): (r: Bytes)
    ensures |r| == |text|
  {
    seq<byte>(|text|, i requires 0 <= i < |text| => Xor(text[i], p.keystream(key, iv, i)))
  }

  function AesCtr(p: Primitives, key: Bytes, text: Bytes): Outcome<Bytes> {
    if !AesKeySize(|key|) then Failure(BadCipherKey) else Success(Masked(p, key, ZERO_IV, text))
  }

  /** Counter mode is its own inverse under every key, for texts of every length. */
  lemma AesCtrTwice(p: Primitives, key: Bytes, text: Bytes)
    requires AesKeySize(|key|)
    ensures AesCtr(p, key, text).Success?
    ensures AesCtr(p, key, AesCtr(p, key, text).value) == Success(text)
  {
    var once := Masked(p, key, ZERO_IV, text);
    var twice := Masked(p, key, ZERO_IV, once);
    forall i | 0 <= i < |text|
      ensures twice[i] == text[i]
    {
      XorTwice(text[i], p.keystream(key, ZERO_IV, i));
    }
    assert twice == text;
  }

  /** cipher.Stream.XORKeyStream: dst may be longer than src, and only its start changes. */
  method XorKeyStream(p: Primitives, key: Bytes, iv: Bytes, dst: array<byte>, src: Bytes)
    requires |src| <= dst.Length
    modifies dst
    ensures dst[..] == Masked(p, key, iv, src) + old(dst[|src|..])
  {
    for i := 0 to |src|
      invariant dst[..i] == Masked(p, key, iv, src)[..i]
      invariant dst[i..] == old(dst[i..])
    {
      dst[i] := Xor(src[i], p.keystream(key, iv, i));
    }
  }

  method RunAesCtr(p: Primitives, key: Bytes, plaintext: Bytes) returns (r: Outcome<Bytes>)
    ensures r == AesCtr(p, key, plaintext)
  {
    if !AesKeySize(|key|) {
      return Failure(BadCipherKey);
    }
    var iv := new byte[AES_BLOCK_SIZE](i => 0);
    assert iv[..] == ZERO_IV;
    var ciphertext := new byte[|plaintext|];
    XorKeyStream(p, key, iv[..], ciphertext, plaintext);
    assert ciphertext[..] == Masked(p, key, ZERO_IV, plaintext);
    r := Success(ciphertext[..]);
  }

  datatype KemKey = KemKey(kem: Bytes, symmetricKey: Bytes)

  function SenderKem(p: Primitives, entropy: Bytes, salt: Bytes, info: Bytes, size: nat, recipient: ECPublicKey):
    Outcome<KemKey>
  {
    var pvt :- OrError(p.generateKey(recipient.curve, entropy), CannotGenerateKey);
    var secret :- OrError(p.sharedSecret(recipient.point, pvt), NoSharedSecret);
    var sdata :- OrError(p.pointEncode(pvt.publicKey.curve, pvt.publicKey.point), BadPoint);
    var sKey :- OrError(p.hkdf(sdata + secret, salt, info, size), NoDerivedKey);
    Success(KemKey(sdata, sKey))
  }

  function RecipientKem(p: Primitives, kem: Bytes, salt: Bytes, info: Bytes, size: nat, own: ECPrivateKey):
    Outcome<Bytes>
  {
    var point :- OrError(p.pointDecode(own.publicKey.curve, kem), BadPoint);
    var secret :- OrError(p.sharedSecret(point, own), NoSharedSecret);
    OrError(p.hkdf(kem + secret, salt, info, size), NoDerivedKey)
  }

  /** The holder of the private key derives the sender's key from what was sent along. */
  lemma KemAgrees(p: Primitives, entropy: Bytes, salt: Bytes, info: Bytes, size: nat, own: ECPrivateKey)
    requires SharedSecretLaw(p) && PointLaw(p) && HkdfLaw(p)
    requires p.isKeyPair(own)
    requires SenderKem(p, entropy, salt, info, size, own.publicKey).Success?
    ensures var k := SenderKem(p, entropy, salt, info, size, own.publicKey).value;
            RecipientKem(p, k.kem, salt, info, size, own) == Success(k.symmetricKey) && |k.symmetricKey| == size
  {
    var pvt := p.generateKey(own.publicKey.curve, entropy).value;
    assert p.isKeyPair(pvt) && pvt.publicKey.curve == own.publicKey.curve;
    assert p.sharedSecret(own.publicKey.point, pvt) == p.sharedSecret(pvt.publicKey.point, own);
  }

  /** keys[i] builds a verifier, as every key before it does, and accepts one of the signatures. */
  predicate VerifiesWith(p: Primitives, keys: seq<VerifyingKey>, i: nat, signatures: seq<Bytes>, message: Bytes)
    requires i < |keys|
  {
    && (forall j | 0 <= j <= i :: p.newVerifier(keys[j]))
    && exists s | 0 <= s < |signatures| :: p.verify(keys[i], signatures[s], message)
  }

  function SignaturesOutcome(p: Primitives, keys: seq<VerifyingKey>, signatures: seq<Bytes>, message: Bytes):
    Outcome<()>
  {
    if exists i: nat | i < |keys| :: VerifiesWith(p, keys, i, signatures, message) then Success(())
    else if forall i | 0 <= i < |keys| :: p.newVerifier(keys[i]) then Failure(CannotVerify)
    else Failure(BadKey)
  }

  method VerifySignatures(p: Primitives, pubKeys: seq<VerifyingKey>, signatures: seq<Bytes>, signedBytes: Bytes)
    returns (r: Outcome<()>)
    ensures r == SignaturesOutcome(p, pubKeys, signatures, signedBytes)
  {
    for i := 0 to |pubKeys|
      invariant forall j | 0 <= j < i :: p.newVerifier(pubKeys[j])
      invariant forall j | 0 <= j < i :: forall s | 0 <= s < |signatures| ::
          !p.verify(pubKeys[j], signatures[s], signedBytes)
    {
      if !p.newVerifier(pubKeys[i]) {
        return Failure(BadKey);
      }
      for signatureID := 0 to |signatures|
        invariant forall s | 0 <= s < signatureID :: !p.verify(pubKeys[i], signatures[s], signedBytes)
      {
        if p.verify(pubKeys[i], signatures[signatureID], signedBytes) {
          assert VerifiesWith(p, pubKeys, i, signatures, signedBytes);
          return Success(());
        }
      }
    }
    r := Failure(CannotVerify);
  }

  /** Counter mode masks every byte with the keystream of a counter that starts at sixteen zero bytes. */
  lemma AesCtrExact(p: Primitives, key: Bytes, text: Bytes) returns (counter: Bytes)
    requires |key| in {16, 24, 32}
    ensures |counter| == 16 && forall b | b in counter :: b == 0
    ensures AesCtr(p, key, text).Success?
    ensures var r := AesCtr(p, key, text).value;
      |r| == |text| && forall i | 0 <= i < |text| :: r[i] == Xor(text[i], p.keystream(key, counter, i))
  {
    counter := ZERO_IV;
  }
}
