/** The token's data types, its checks, and the errors the package returns (token.go, protocol_version_config.go). */
module PaymentToken {
  import opened Wrappers
  import opened ByteStrings
  import opened DecimalText
  import opened TokenPrimitives

  datatype Error =
    | SignedMessageRequired
    | VersionRequired
    | SignatureRequired
    | UnsupportedVersion
    | SignedKeyRequired
    | SignaturesRequired
    | KeyValueRequired
    | KeyExpirationRequired
    | ExpiredCert
    | BadNumber
    | BadBase64
    | BadJson
    | BadKey
    | BadPoint
    | NoSharedSecret
    | NoDerivedKey
    | BadCipherKey
    | BadMacKey
    | CannotSign
    | CannotGenerateKey
    | CannotVerify
    | InvalidMac
    | CannotDecrypt(errs: seq<Error>)

  type Outcome<+T> = Result<T, Error>

  /** "Yandex" */
  const YANDEX: Bytes := [89, 97, 110, 100, 101, 120]
  /** "ECv2" */
  const EC_V2: Bytes := [69, 67, 118, 50]

  const AES_CTR_KEY_SIZE: nat := 256 / 8
  const HMAC_SHA256_KEY_SIZE: nat := 256 / 8

  /** The certificate is a pointer in the source; it is dereferenced unconditionally, so here it is present. */
  datatype IntermediateSigningCert = IntermediateSigningCert(signedKey: Bytes, signatures: seq<Bytes>)

  datatype Token = Token(
    kind: Bytes,
    signedMessage: Bytes,
    protocolVersion: Bytes,
    signature: Bytes,
    cert: IntermediateSigningCert)

  function ValidateToken(t: Token): Outcome<()> {
    if t.signedMessage == [] then Failure(SignedMessageRequired)
    else if t.protocolVersion == [] then Failure(VersionRequired)
    else if t.signature == [] then Failure(SignatureRequired)
    else Success(())
  }

  function ValidateCert(c: IntermediateSigningCert): Outcome<()> {
    if c.signedKey == [] then Failure(SignedKeyRequired)
    else if c.signatures == [] then Failure(SignaturesRequired)
    else Success(())
  }

  /** now is in milliseconds since the epoch. */
  function ValidateSignedKey(k: SignedKey, now: int64): Outcome<()> {
    if k.keyValue == [] then Failure(KeyValueRequired)
    else if k.keyExpiration == [] then Failure(KeyExpirationRequired)
    else
      match ParseInt(k.keyExpiration)
      case None => Failure(BadNumber)
      case Some(expiration) => if now >= expiration then Failure(ExpiredCert) else Success(())
  }

  function ParseB64ECPublicKey(p: Primitives, text: Bytes): Outcome<VerifyingKey> {
    var der :- OrError(p.base64Decode(text), BadBase64);
    OrError(p.parsePublicKey(der), BadKey)
  }

  lemma NamesAreTexts()
    ensures YANDEX == Ascii("Yandex") && EC_V2 == Ascii("ECv2")
  {
    var yandex, ecV2 := Ascii("Yandex"), Ascii("ECv2");
    assert yandex[0] == 89 && yandex[1] == 97 && yandex[2] == 110 && yandex[3] == 100 && yandex[4] == 101 && yandex[5] == 120;
    assert ecV2[0] == 69 && ecV2[1] == 67 && ecV2[2] == 118 && ecV2[3] == 50;
  }
}
