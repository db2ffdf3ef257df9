/** The premises of the token theorems can be met: a setting in the toy instance in which sealing succeeds and is trusted. */
module TokenSetting {
  import opened Wrappers
  import opened ByteStrings
  import opened TokenPrimitives
  import opened TokenPrimitivesModel
  import opened PaymentToken
  import opened CryptoUtils
  import opened VerifyingKeys
  import opened IntermediateCert
  import opened TokenSender
  import opened TokenRecipient
  import opened TokenTheorems
  import LengthValue

  const ROOT: Bytes := [9]
  const INTERMEDIATE: Bytes := [7]
  const OWN := ECPrivateKey(ECPublicKey(0, []), [])

  function CertFactory(expirationNanos: DecimalText.int64): Factory {
    Factory([ROOT], EC_V2, YANDEX, INTERMEDIATE, expirationNanos)
  }

  function NoEntropy(i: nat): Bytes {
    []
  }

  function ToyRecipient(recipientID: Bytes): RecipientConfig {
    RecipientConfig(recipientID, YANDEX, [SenderVerifyingKey(EC_V2, ROOT, 0)], [OWN])
  }

  lemma CertIsCreated(f: Factory)
    requires f.signers == [ROOT]
    ensures Created(Toy(), f, NoEntropy).Success?
  {
    var message := CertBytes(f.senderID, f.protocolVersion, Toy().marshalKey(KeyToSign(f)));
    assert f.signers[..0] == [];
    assert SignAll(Toy(), f.signers[..0], NoEntropy, message) == Success([]);
    assert Toy().sign(f.signers[0], NoEntropy(0), message).Some?;
    assert SignAll(Toy(), f.signers, NoEntropy, message).Success?;
  }

  lemma RootIsListed()
    ensures KeysOfVersion(ToyRecipient([]).roots, EC_V2) == [ROOT]
  {
    assert ToyRecipient([]).roots[..0] == [];
  }

  /** For every recipient ID, message and expiry the toy sender seals, and the toy recipient trusts its certificate. */
  lemma PremisesHold(recipientID: Bytes, message: Bytes, expirationNanos: DecimalText.int64) returns (s: SenderConfig)
    ensures Lawful(Toy()) && BindingSignatures(Toy())
    ensures Trusts(Toy(), ToyRecipient(recipientID), s, CertFactory(expirationNanos), NoEntropy, INTERMEDIATE)
    ensures Toy().isKeyPair(OWN) && Sealed(Toy(), s, recipientID, message, OWN.publicKey, [], []).Success?
  {
    ToySignatures();
    ToyKeys();
    ToyJson();
    var f := CertFactory(expirationNanos);
    CertIsCreated(f);
    RootIsListed();
    s := SenderConfig(YANDEX, INTERMEDIATE, Created(Toy(), f, NoEntropy).value);
    assert ROOT in f.signers && ROOT in KeysOfVersion(ToyRecipient(recipientID).roots, EC_V2);
    ToySeals(s, recipientID, message);
  }

  lemma ToySeals(s: SenderConfig, recipientID: Bytes, message: Bytes)
    ensures Sealed(Toy(), s, recipientID, message, OWN.publicKey, [], []).Success?
  {
    var kem := SenderKem(Toy(), [], [], s.senderID, DEM_KEM_SIZE, OWN.publicKey);
    assert kem == Success(KemKey([], LengthValue.Zeros(DEM_KEM_SIZE)));
  }

  /** So in that setting what is sealed is unsealed by its recipient. */
  lemma SettingUnseals(recipientID: Bytes, message: Bytes, expirationNanos: DecimalText.int64, now: DecimalText.int64)
    returns (s: SenderConfig)
    requires Lasts(expirationNanos, now)
    ensures Sealed(Toy(), s, recipientID, message, OWN.publicKey, [], []).Success?
    ensures Unsealed(Toy(), ToyRecipient(recipientID), Sealed(Toy(), s, recipientID, message, OWN.publicKey, [], []).value, now)
         == Success(message)
  {
    s := PremisesHold(recipientID, message, expirationNanos);
    UnsealSeal(Toy(), ToyRecipient(recipientID), s, CertFactory(expirationNanos), NoEntropy, INTERMEDIATE, message, [], [], 0, now);
  }
}
