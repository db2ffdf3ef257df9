/** Unsealing a token: certificate, signature, then decryption with each private key in turn (recipient.go). */
module TokenRecipient {
  import opened Wrappers
  import opened ByteStrings
  import opened DecimalText
  import opened TokenPrimitives
  import opened PaymentToken
  import opened CryptoUtils
  import opened VerifyingKeys
  import opened IntermediateCert
  import opened TokenSender
  import LengthValue

  datatype RecipientConfig = RecipientConfig(
    recipientID: Bytes,
    senderID: Bytes,
    roots: seq<SenderVerifyingKey>,
    privateKeys: seq<ECPrivateKey>)

  function SignatureOutcome(p: Primitives, key: VerifyingKey, signature: Bytes, signedBytes: Bytes): Outcome<()> {
    if !p.newVerifier(key) then Failure(BadKey)
    else if !p.verify(key, signature, signedBytes) then Failure(CannotVerify)
    else Success(())
  }

  function Verified(p: Primitives, r: RecipientConfig, t: Token, now: int64): Outcome<Bytes> {
    var signature :- OrError(p.base64Decode(t.signature), BadBase64);
    var key :- SigningKeyOf(p, t.cert, r.senderID, t.protocolVersion, r.roots, now);
    var _ :- SignatureOutcome(p, key, signature, TokenBytes(r.senderID, r.recipientID, t.protocolVersion, t.signedMessage));
    Success(t.signedMessage)
  }

  /** The key this private key derives for the message: cipher half, then MAC half. */
  function DemKey(p: Primitives, m: SignedMessage, info: Bytes, own: ECPrivateKey): (r: Outcome<(Bytes, Bytes)>) {
    var kem :- OrError(p.base64Decode(m.ephemeralPublicKey), BadBase64);
    var demKey :- RecipientKem(p, kem, [], info, DEM_KEM_SIZE, own);
    if |demKey| < AES_CTR_KEY_SIZE then Failure(NoDerivedKey)
    else Success((demKey[..AES_CTR_KEY_SIZE], demKey[AES_CTR_KEY_SIZE..]))
  }

  function Decrypted(p: Primitives, m: SignedMessage, info: Bytes, own: ECPrivateKey): Outcome<Bytes> {
    var keys :- DemKey(p, m, info, own);
    var ciphertext :- OrError(p.base64Decode(m.encryptedMessage), BadBase64);
    var computedTag :- OrError(p.hmac(keys.1, ciphertext), BadMacKey);
    var expectedTag :- OrError(p.base64Decode(m.tag), BadBase64);
    if expectedTag != computedTag then Failure(InvalidMac) else AesCtr(p, keys.0, ciphertext)
  }

  /** The errors of the keys before the first that decrypts. */
  function DecryptErrors(p: Primitives, m: SignedMessage, info: Bytes, keys: seq<ECPrivateKey>): seq<Error> {
    if keys == [] then []
    else
      match Decrypted(p, m, info, keys[0])
      case Success(_) => []
      case Failure(e) => [e] + DecryptErrors(p, m, info, keys[1..])
  }

  function TriedDecrypt(p: Primitives, m: SignedMessage, info: Bytes, keys: seq<ECPrivateKey>): Outcome<Bytes> {
    var errs := DecryptErrors(p, m, info, keys);
    if |errs| < |keys| && Decrypted(p, m, info, keys[|errs|]).Success? then Decrypted(p, m, info, keys[|errs|])
    else Failure(CannotDecrypt(errs))
  }

  /** now is in milliseconds. */
  function Unsealed(p: Primitives, r: RecipientConfig, t: Token, now: int64): Outcome<Bytes> {
    var _ :- ValidateToken(t);
    if t.protocolVersion != EC_V2 then Failure(UnsupportedVersion)
    else
      var messageBytes :- Verified(p, r, t, now);
      var signedMessage :- OrError(p.unmarshalMessage(messageBytes), BadJson);
      TriedDecrypt(p, signedMessage, r.senderID, r.privateKeys)
  }

  lemma {:induction false} DecryptErrorsStopAt(p: Primitives, m: SignedMessage, info: Bytes, keys: seq<ECPrivateKey>, n: nat)
    requires n <= |keys|
    requires forall i | 0 <= i < n :: Decrypted(p, m, info, keys[i]).Failure?
    requires n < |keys| ==> Decrypted(p, m, info, keys[n]).Success?
    ensures |DecryptErrors(p, m, info, keys)| == n
    ensures forall i | 0 <= i < n :: DecryptErrors(p, m, info, keys)[i] == Decrypted(p, m, info, keys[i]).error
  {
    if n > 0 {
      assert Decrypted(p, m, info, keys[0]).Failure?;
      DecryptErrorsStopAt(p, m, info, keys[1..], n - 1);
    }
  }

  class Recipient {
    var recipientID: Bytes
    var senderID: Bytes
    var senderVerifyingKeySet: seq<SenderVerifyingKey>
    var recipientPrivateKeys: seq<ECPrivateKey>

    ghost function Config(): RecipientConfig
      reads this
    {
      RecipientConfig(recipientID, senderID, senderVerifyingKeySet, recipientPrivateKeys)
    }

    constructor (recipientID: Bytes, keyset: seq<SenderVerifyingKey>)
      ensures Config() == RecipientConfig(recipientID, YANDEX, keyset, [])
    {
      this.recipientID := recipientID;
      senderID := YANDEX;
      senderVerifyingKeySet := keyset;
      recipientPrivateKeys := [];
    }

    method WithFromSenderID(id: Bytes)
      modifies this
      ensures Config() == old(Config()).(senderID := id)
    {
      senderID := id;
    }

    method WithPrivateKey(privateKey: ECPrivateKey)
      modifies this
      ensures Config() == old(Config()).(privateKeys := old(recipientPrivateKeys) + [privateKey])
    {
      recipientPrivateKeys := recipientPrivateKeys + [privateKey];
    }

    method Unseal(p: Primitives, token: Token, now: int64) returns (r: Outcome<Bytes>)
      ensures r == Unsealed(p, Config(), token, now)
    {
      var valid := ValidateToken(token);
      if valid.Failure? {
        return Failure(valid.error);
      }
      if token.protocolVersion != EC_V2 {
        return Failure(UnsupportedVersion);
      }
      var messageBytes := Verify(p, token, now);
      if messageBytes.Failure? {
        return Failure(messageBytes.error);
      }
      var signedMessage := p.unmarshalMessage(messageBytes.value);
      if signedMessage.None? {
        return Failure(BadJson);
      }
      r := TryDecrypt(p, signedMessage.value, senderID);
    }

    method Verify(p: Primitives, token: Token, now: int64) returns (r: Outcome<Bytes>)
      ensures r == Verified(p, Config(), token, now)
    {
      var signature := p.base64Decode(token.signature);
      if signature.None? {
        return Failure(BadBase64);
      }
      var signedBytes :=
        LengthValue.ToLengthValue([senderID, recipientID, token.protocolVersion, token.signedMessage]);
      var key := ValidateAndGetSigningKey(p, token.cert, senderID, token.protocolVersion, senderVerifyingKeySet, now);
      if key.Failure? {
        return Failure(key.error);
      }
      var checked := SignatureOutcome(p, key.value, signature.value, signedBytes);
      if checked.Failure? {
        return Failure(checked.error);
      }
      r := Success(token.signedMessage);
    }

    method TryDecrypt(p: Primitives, signedMessage: SignedMessage, contextInfo: Bytes) returns (r: Outcome<Bytes>)
      ensures r == TriedDecrypt(p, signedMessage, contextInfo, recipientPrivateKeys)
    {
      var errs: seq<Error> := [];
      for i := 0 to |recipientPrivateKeys|
        invariant |errs| == i
        invariant forall j | 0 <= j < i :: Decrypted(p, signedMessage, contextInfo, recipientPrivateKeys[j]) == Failure(errs[j])
      {
        r := Decrypt(p, signedMessage, contextInfo, recipientPrivateKeys[i]);
        if r.Success? {
          DecryptErrorsStopAt(p, signedMessage, contextInfo, recipientPrivateKeys, i);
          return r;
        }
        errs := errs + [r.error];
      }
      DecryptErrorsStopAt(p, signedMessage, contextInfo, recipientPrivateKeys, |recipientPrivateKeys|);
      assert errs == DecryptErrors(p, signedMessage, contextInfo, recipientPrivateKeys);
      r := Failure(CannotDecrypt(errs));
    }

    method Decrypt(p: Primitives, signedMessage: SignedMessage, contextInfo: Bytes, privateKey: ECPrivateKey)
      returns (r: Outcome<Bytes>)
      ensures r == Decrypted(p, signedMessage, contextInfo, privateKey)
    {
      var keys := DemKey(p, signedMessage, contextInfo, privateKey);
      if keys.Failure? {
        return Failure(keys.error);
      }
      var (aesCtrKey, hmacSha256Key) := keys.value;
      var ciphertext := p.base64Decode(signedMessage.encryptedMessage);
      if ciphertext.None? {
        return Failure(BadBase64);
      }
      var computedTag := p.hmac(hmacSha256Key, ciphertext.value);
      if computedTag.None? {
        return Failure(BadMacKey);
      }
      var expectedTag := p.base64Decode(signedMessage.tag);
      if expectedTag.None? {
        return Failure(BadBase64);
      }
      if expectedTag.value != computedTag.value {
        return Failure(InvalidMac);
      }
      r := RunAesCtr(p, aesCtrKey, ciphertext.value);
    }
  }
}
