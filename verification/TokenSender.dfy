/** Sealing a message: encrypt to the recipient's key, then sign (sender.go). */
module TokenSender {
  import opened Wrappers
  import opened ByteStrings
  import opened TokenPrimitives
  import opened PaymentToken
  import opened CryptoUtils
  import LengthValue

  const DEM_KEM_SIZE: nat := AES_CTR_KEY_SIZE + HMAC_SHA256_KEY_SIZE

  datatype SenderConfig = SenderConfig(senderID: Bytes, signer: SigningKey, cert: IntermediateSigningCert)

  function TokenBytes(senderID: Bytes, recipientID: Bytes, version: Bytes, message: Bytes): Bytes {
    LengthValue.Encode([senderID, recipientID, version, message])
  }

  function Encrypted(p: Primitives, plaintext: Bytes, info: Bytes, recipient: ECPublicKey, entropy: Bytes):
    Outcome<SignedMessage>
  {
    var kemKey :- SenderKem(p, entropy, [], info, DEM_KEM_SIZE, recipient);
    if |kemKey.symmetricKey| < AES_CTR_KEY_SIZE then Failure(NoDerivedKey)
    else
      var aesCtrKey := kemKey.symmetricKey[..AES_CTR_KEY_SIZE];
      var hmacKey := kemKey.symmetricKey[AES_CTR_KEY_SIZE..];
      var ciphertext :- AesCtr(p, aesCtrKey, plaintext);
      var tag :- OrError(p.hmac(hmacKey, ciphertext), BadMacKey);
      Success(SignedMessage(p.base64Encode(ciphertext), p.base64Encode(tag), p.base64Encode(kemKey.kem)))
  }

  function Signed(p: Primitives, s: SenderConfig, recipientID: Bytes, message: Bytes, entropy: Bytes): Outcome<Token> {
    var signature :- OrError(p.sign(s.signer, entropy, TokenBytes(s.senderID, recipientID, EC_V2, message)), CannotSign);
    Success(Token(YANDEX, message, EC_V2, p.base64Encode(signature), s.cert))
  }

  /** The two entropies feed the ephemeral key and the signature. */
  function Sealed(p: Primitives, s: SenderConfig, recipientID: Bytes, message: Bytes, recipient: ECPublicKey,
                  keyEntropy: Bytes, signEntropy: Bytes): Outcome<Token>
  {
    var encrypted :- Encrypted(p, message, s.senderID, recipient, keyEntropy);
    Signed(p, s, recipientID, p.marshalMessage(encrypted), signEntropy)
  }

  class Sender {
    var senderID: Bytes
    var signer: SigningKey
    var cert: IntermediateSigningCert

    ghost function Config(): SenderConfig
      reads this
    {
      SenderConfig(senderID, signer, cert)
    }

    constructor (intermediateSigningKey: SigningKey, intermediateSigningCert: IntermediateSigningCert)
      ensures Config() == SenderConfig(YANDEX, intermediateSigningKey, intermediateSigningCert)
    {
      senderID := YANDEX;
      signer := intermediateSigningKey;
      cert := intermediateSigningCert;
    }

    method WithSenderID(id: Bytes)
      modifies this
      ensures Config() == old(Config()).(senderID := id)
    {
      senderID := id;
    }

    method Seal(p: Primitives, recipientID: Bytes, message: Bytes, recipientPublicKey: ECPublicKey,
                keyEntropy: Bytes, signEntropy: Bytes) returns (r: Outcome<Token>)
      ensures r == Sealed(p, Config(), recipientID, message, recipientPublicKey, keyEntropy, signEntropy)
    {
      var encrypted := Encrypt(p, message, senderID, recipientPublicKey, keyEntropy);
      if encrypted.Failure? {
        return Failure(encrypted.error);
      }
      var signedMessage := p.marshalMessage(encrypted.value);
      r := Sign(p, recipientID, signedMessage, signEntropy);
    }

    method Encrypt(p: Primitives, plaintext: Bytes, contextInfo: Bytes, recipientPublicKey: ECPublicKey, entropy: Bytes)
      returns (r: Outcome<SignedMessage>)
      ensures r == Encrypted(p, plaintext, contextInfo, recipientPublicKey, entropy)
    {
      var kem := SenderKem(p, entropy, [], contextInfo, DEM_KEM_SIZE, recipientPublicKey);
      if kem.Failure? {
        return Failure(kem.error);
      }
      var kemKey := kem.value;
      if |kemKey.symmetricKey| < AES_CTR_KEY_SIZE {
        return Failure(NoDerivedKey);
      }
      var aesCtrKey := kemKey.symmetricKey[..AES_CTR_KEY_SIZE];
      var hmacKey := kemKey.symmetricKey[AES_CTR_KEY_SIZE..];
      var ciphertext := RunAesCtr(p, aesCtrKey, plaintext);
      if ciphertext.Failure? {
        return Failure(ciphertext.error);
      }
      var tag := p.hmac(hmacKey, ciphertext.value);
      if tag.None? {
        return Failure(BadMacKey);
      }
      r := Success(SignedMessage(p.base64Encode(ciphertext.value), p.base64Encode(tag.value), p.base64Encode(kemKey.kem)));
    }

    method Sign(p: Primitives, recipientID: Bytes, message: Bytes, entropy: Bytes) returns (r: Outcome<Token>)
      ensures r == Signed(p, Config(), recipientID, message, entropy)
    {
      var toSignBytes := LengthValue.ToLengthValue([senderID, recipientID, EC_V2, message]);
      var signature := p.sign(signer, entropy, toSignBytes);
      if signature.None? {
        return Failure(CannotSign);
      }
      r := Success(Token(YANDEX, message, EC_V2, p.base64Encode(signature.value), cert));
    }
  }

  /** Fails exactly when the signing key is unusable; options are applied afterwards. */
  method NewSender(p: Primitives, intermediateSigningKey: SigningKey, intermediateSigningCert: IntermediateSigningCert)
    returns (r: Outcome<Sender>)
    ensures if p.newSigner(intermediateSigningKey)
      then r.Success? && fresh(r.value)
        && r.value.Config() == SenderConfig(YANDEX, intermediateSigningKey, intermediateSigningCert)
      else r == Failure(BadKey)
  {
    if !p.newSigner(intermediateSigningKey) {
      return Failure(BadKey);
    }
    var sender := new Sender(intermediateSigningKey, intermediateSigningCert);
    r := Success(sender);
  }
}
