# Payment models

A Dafny model of the parts of the payment services whose correctness rests on more than one function:
the sealed payment token, the key manager that runs beside it, card numbers, enveloped data, request
signatures, the card store, money arithmetic, and the code that brings nested or repeated data into one
canonical form. `dafny verify dfyconfig.toml` checks the whole project.

## Layout

| files | what they model |
|---|---|
| `LengthValue`, `CryptoUtils`, `VerifyingKeys`, `IntermediateCert`, `PaymentToken`, `TokenSender`, `TokenRecipient`, `TokenTheorems` | the ECv2 payment token of `duckgo/paymenttoken` |
| `TokenPrimitives`, `TokenPrimitivesModel`, `TokenSetting` | the library calls it rests on, the laws used about them, an instance that satisfies all of them at once, and a setting in which the premises of the round trip hold |
| `KeysManager` | the Mastercard key manager: two goroutines, three channels, a wait group and a cache file as a step system |
| `Luhn` | check digits of generated card numbers (Annex B of ISO/IEC 7812-1) |
| `Pkcs7` | padding (section 6.3 of RFC 5652) and CBC (section 6.2 of NIST SP 800-38A) of enveloped data |
| `Visa` | the `xv2` request signer and verifier |
| `CardStore` | the enrolment store of the Mastercard mock server |
| `BillMoney`, `MinorUnits` | discount and fee of a bill; amounts in minor units under 28-digit decimal arithmetic |
| `Attributes`, `CartHash`, `Uaas`, `Sorting`, `Joining` | flattening, the cart's hash text, flag merging, and the stable sort and join/split they use |
| `Pagination` | the strip of page links |
| `Aes`, `ByteStrings`, `DecimalText`, `Arithmetic`, `Wrappers` | AES sizes, bytes with exclusive or, decimal text and 64-bit wrap-around, integer lemmas, `Option` and `Result` |

Code that updates things step by step is a method or a class with fields. Each such method is proved equal to
a function of its inputs or of the old state; the lemmas then state what that function promises, and lemmas named
`...Exact` or `...Iff` say what it computes without the model's own intermediate functions. Go strings are byte sequences, Python and TypeScript strings are `string`.

## Assumptions

Library code is not modelled. It enters as function values, and each law used about them is a named predicate
that the theorems list as a precondition.

- Payment token (`TokenPrimitives`): what was signed verifies and signatures are not empty (`SignatureLaw`);
  both ends of a key agreement on one curve compute the same secret (`SharedSecretLaw`); decoding undoes
  encoding of points (`PointLaw`), base64 (`Base64Law`, section 4 of RFC 4648) and the JSON texts the sender
  writes (`JsonLaw`); HKDF (section 2 of RFC 5869) answers with as many bytes as were asked for (`HkdfLaw`).
  AES in counter mode (section 6.5 of NIST SP 800-38A) is its keystream. Theorems about rejection also assume
  that one signature never verifies two messages under one key (`BindingSignatures`).
  `TokenPrimitivesModel.LawsAreConsistent` gives an instance with all of these, and `TokenSetting.PremisesHold`
  a sender, certificate and recipient in it that meet the other premises of the round trip for every message;
  `TokenSetting.SettingUnseals` applies the round trip to them.
- Enveloped data: block decryption undoes block encryption (`BlockLaw`), and the owner of a certificate recovers
  the key encrypted to it (`KeyLaw`).
- Visa: parsing a printed query gives the query back, and parsing lists only keys that have values (`QueryLaw`).
  Which requests share a header is stated under a symbolic MAC (`InjectiveMac`).
- md5, sha1 and HMAC of the other parts are arbitrary functions.
- Clocks, randomness, drawn identifiers and files are parameters; a call that can fail for lack of them has an
  error result.

## Where the code differs from what one would expect

- The page strip is undefined, or has dots that hide no page, exactly when the number of pages n lies above
  s + 5 and below 2s + 5 for s siblings (`Pagination.WellFormedIff`, `Pagination.FallsThroughIff`); s = 2,
  n = 8, current page 4 is such a case (`Pagination.EightPagesFallThrough`).
- `pad` keeps only the low eight bits of the padding length, so the content survives exactly while that length
  is at most 255 (`Pkcs7.UnpadPad`). The only caller uses 16.
- Two services of the mock store share consumer keys exactly when one service ID continues the other after a
  colon (`CardStore.KeysCollideIff`).
- `amount_to_minor_units` answers for the amount rounded to 28 significant digits
  (`MinorUnits.ToMinorUnitsOfRounded`). So it accepts some longer amounts that are no whole number of minor units
  (`MinorUnits.LongAmountAccepted`); `MinorUnits.LongAcceptedIff` says which longer amounts it accepts, and
  `MinorUnits.ToMinorUnitsRightIff` that those are all the wrong answers there are.
- If a tick fires before the worker has stored its first download, both goroutines may write the cache at once.
  It stays older than what is served when the worker writes last (`KeysManager.EarlyTickLeavesOlderCache`), and
  unparsable when the worker writes a longer text while the updater has the file open
  (`KeysManager.OverlapTearsCache`).
- Every later store empties the cache file before it fills it, so while the updater is writing there is nothing to
  restart from (`KeysManager.StoreEmptiesCache`). Without early ticks that is the only time the cache disagrees
  (`KeysManager.LateTicksKeepCache`); `KeysManager.CacheAgrees` and `KeysManager.RestartContinues` give the exact
  condition in every run whose writes succeed.
- A header that triggers test IDs of different kinds makes the flag parser raise after it has merged all flags,
  because it sorts the IDs for its log (`Uaas.RaisesIff`, `Uaas.MixedIdsRaise`).
- A root key whose expiry does not fit 64-bit nanoseconds may be dropped while unexpired, such as one for the end
  of the year 9999 (`VerifyingKeys.FarExpiryDropped`); `VerifyingKeys.DecisionRightIff` says when it is not.
- What a Visa signature covers is path, query and body with nothing in between, so requests that differ only in
  where one ends and the next begins share a header (`Visa.SameHeaderIff`, `Visa.BoundaryIsNotHashed`).
- A bill's discount outside 0 to 100 is not refused; `BillMoney.DiscountInRangeIff` says when the price still
  lies between nothing and the full amount.
- A length of 2^32 bytes or more does not fit the four length bytes of the signed text, and collides
  (`LengthValue.LongArgumentCollides`).
- The cart's hash depends on the order of items that share a product ID but not their sizes or count
  (`CartHash.OrderIrrelevantIff`).

## Model

| member | source | states |
|---|---|---|
| `LengthValue.ToLengthValue` | duckgo/paymenttoken/crypto_utils.go:90-99 | the loop that reuses its four-byte buffer produces the concatenation of all length-prefixed arguments |
| `LengthValue.DecodeEncode` | duckgo/paymenttoken/crypto_utils.go:90-99 | a reader of length-prefixed fields recovers the arguments if and only if each is shorter than 2^32 bytes |
| `LengthValue.PutUint32Exact` | duckgo/paymenttoken/crypto_utils.go:94 | the four length bytes, least significant first, are the low 32 bits of the length |
| `LengthValue.EncodeAt` | duckgo/paymenttoken/crypto_utils.go:90-99 | every argument stands in its place, right after its length |
| `LengthValue.EncodeInjective` | duckgo/paymenttoken/crypto_utils.go:90-99 | two argument lists of any arities that give the same signed bytes are the same list |
| `LengthValue.LongArgumentCollides` | duckgo/paymenttoken/crypto_utils.go:94 | the 32-bit conversion of the length makes one 2^32-byte argument encode like 2^30 + 1 empty ones |
| `LengthValue.CertNeverToken` | duckgo/paymenttoken/recipient.go:124 | the four fields a token signs never have the bytes of the three fields a certificate signs |
| `CryptoUtils.RunAesCtr` | duckgo/paymenttoken/crypto_utils.go:21-32 | the output array the library stream fills ends up masked with the keystream of a zero counter block; bad key sizes are errors |
| `CryptoUtils.AesCtrExact` | duckgo/paymenttoken/crypto_utils.go:27-31 | every byte is the text's byte exclusive-or the keystream at its position, from a counter of sixteen zero bytes |
| `ByteStrings.XorExact` | duckgo/paymenttoken/crypto_utils.go:30 | a bit of the exclusive or is set exactly when that bit of just one operand is |
| `CryptoUtils.AesCtrTwice` | duckgo/paymenttoken/crypto_utils.go:21-32 | counter mode is its own inverse for every key and every length of text |
| `CryptoUtils.KemAgrees` | duckgo/paymenttoken/crypto_utils.go:47-88 | the holder of the private key derives the sender's symmetric key, of the requested size, from the encapsulation |
| `CryptoUtils.VerifySignatures` | duckgo/paymenttoken/crypto_utils.go:101-116 | the nested search succeeds exactly when some key, before which all keys are usable, verifies some signature; which error otherwise |
| `VerifyingKeys.ParseSenderVerifyingKeys` | duckgo/paymenttoken/verifying_keys.go:25-45 | the loop fails with the first entry's error or keeps the unexpired keys in order |
| `VerifyingKeys.KeptKeysAreUnexpired` | duckgo/paymenttoken/verifying_keys.go:33-43 | a key is in the parsed set if and only if it is listed and not expired at parsing time |
| `VerifyingKeys.KeptInOrder` | duckgo/paymenttoken/verifying_keys.go:32-44 | every kept key has its own entry's version, public key and 64-bit expiry, the entries are in order, and all others are expired |
| `VerifyingKeys.WrittenExpiryDecides` | duckgo/paymenttoken/verifying_keys.go:33-43 | an entry whose written milliseconds fit 64-bit nanoseconds is kept if and only if that expiry is not before now |
| `VerifyingKeys.DecisionRightIff` | duckgo/paymenttoken/verifying_keys.go:33-43 | for every written expiry, when keeping or dropping the entry is the right decision |
| `VerifyingKeys.FarExpiryDropped` | duckgo/paymenttoken/util.go:76 | an unexpired key for the end of the year 9999 is dropped |
| `VerifyingKeys.Get` | duckgo/paymenttoken/verifying_keys.go:47-58 | the lookup loop returns the public keys of one protocol version in order |
| `VerifyingKeys.FoundInOrder` | duckgo/paymenttoken/verifying_keys.go:47-58 | the keys returned are those of all roots of the version, in order |
| `VerifyingKeys.KeysOfVersionExact` | duckgo/paymenttoken/verifying_keys.go:47-58 | a public key is returned if and only if some root key of that version carries it |
| `VerifyingKeys.ExpiryExact` | duckgo/paymenttoken/util.go:71-77 | the expiry is the written number of milliseconds if and only if that many nanoseconds fit 64 bits |
| `IntermediateCert.NewFactory` | duckgo/paymenttoken/intermediate_signing_cert.go:25-41 | a factory is made, with all signers in order, exactly when every key builds a signer |
| `IntermediateCert.CreateIntermediateSigningCert` | duckgo/paymenttoken/intermediate_signing_cert.go:44-68 | the loop yields one base64 signature per signer over sender, version and signed key, or an error if any signing fails |
| `IntermediateCert.ValidateAndGetSigningKey` | duckgo/paymenttoken/intermediate_signing_cert.go:70-105 | decoding loop, root lookup, signature search, expiry and key parsing, with the first failure as the error |
| `IntermediateCert.CreatedIff` | duckgo/paymenttoken/intermediate_signing_cert.go:44-68 | creation gives a certificate exactly when every signer signs; it holds the key with its expiry and per signer one signature over sender, version and signed key in this order |
| `IntermediateCert.WrittenExpiry` | duckgo/paymenttoken/intermediate_signing_cert.go:47 | the written expiry reads back as the whole milliseconds of the nanoseconds it was made from |
| `IntermediateCert.YieldsKeyIff` | duckgo/paymenttoken/intermediate_signing_cert.go:70-105 | a certificate yields a key if and only if all its texts decode, a root of the version, before which all of that version are usable, verifies one over the three fields, and the key it names is readable and not expired |
| `IntermediateCert.CreatedCertYieldsKey` | duckgo/paymenttoken/intermediate_signing_cert.go:44-105 | a created certificate yields the certified key to everyone who trusts one of its signers, if and only if the nanosecond it was made to expire at is at least a whole millisecond away |
| `TokenSender.NewSender` | duckgo/paymenttoken/sender.go:35-56 | a sender with the default ID is made exactly when the signing key is usable |
| `TokenSender.Sender.WithSenderID` | duckgo/paymenttoken/sender.go:27-32 | changes the sender ID and nothing else |
| `TokenSender.Sender.Encrypt` | duckgo/paymenttoken/sender.go:122-154 | encapsulation, 32/32 key split, counter mode, MAC, three base64 fields, with every error path |
| `TokenSender.Sender.Sign` | duckgo/paymenttoken/sender.go:105-120 | the token carries a signature over sender, recipient, version and message, and the sender's certificate |
| `TokenSender.Sender.Seal` | duckgo/paymenttoken/sender.go:78-103 | encrypts under the sender ID as context, serializes, then signs; the sender is unchanged |
| `TokenTheorems.EncryptedExact` | duckgo/paymenttoken/sender.go:122-154 | from the fresh key pair on: 64 bytes derived from encoded point and shared secret, the first 32 key the mask of the message and the other 32 the MAC of the result |
| `TokenTheorems.SealedExact` | duckgo/paymenttoken/sender.go:78-120 | the sealed token: its message, version and kind, and one signature over sender, recipient, version and message in this order |
| `TokenRecipient.Recipient.constructor` | duckgo/paymenttoken/recipient.go:54-65 | a recipient starts with the default sender ID, the given roots and no private key |
| `TokenRecipient.Recipient.WithFromSenderID` | duckgo/paymenttoken/recipient.go:28-33 | changes the expected sender and nothing else |
| `TokenRecipient.Recipient.WithPrivateKey` | duckgo/paymenttoken/recipient.go:36-51 | adds a private key at the end of the list and changes nothing else |
| `TokenRecipient.Recipient.Unseal` | duckgo/paymenttoken/recipient.go:82-117 | validity, version, verification, parsing and decryption in that order, with the first failure as the error |
| `TokenRecipient.Recipient.Verify` | duckgo/paymenttoken/recipient.go:119-135 | accepts what the certified key signed for this sender, recipient and version, with the first failure as the error |
| `TokenRecipient.Recipient.TryDecrypt` | duckgo/paymenttoken/recipient.go:150-160 | the loop over private keys returns the first success, or all errors in order |
| `TokenRecipient.Recipient.Decrypt` | duckgo/paymenttoken/recipient.go:162-204 | recomputes the key, compares the MAC before decrypting, with every error path |
| `TokenTheorems.DecryptEncrypted` | duckgo/paymenttoken/recipient.go:162-204 | decryption with the private key undoes the sender's encryption for every message |
| `TokenTheorems.DecryptedIff` | duckgo/paymenttoken/recipient.go:162-204 | decryption gives a text if and only if the tag is the MAC of the ciphertext under the derived key and unmasking the ciphertext gives that text |
| `TokenTheorems.TriedDecryptIff` | duckgo/paymenttoken/recipient.go:150-160 | the search gives the text of the first private key that opens the message, and fails if and only if none does |
| `TokenTheorems.UnsealedIff` | duckgo/paymenttoken/recipient.go:82-204 | a token is unsealed to a text if and only if it is complete, of this version, certified by a root, signed over its four fields by the certified current key, and first opened to that text |
| `TokenTheorems.IncompleteIsNamed` | duckgo/paymenttoken/recipient.go:82-92 | an empty message, version or signature and a foreign version are rejected by name, in this order |
| `TokenTheorems.TriedDecryptFinds` | duckgo/paymenttoken/recipient.go:150-160 | the search gives what a working key gives, at any position, unless an earlier key with another derived key matches the MAC |
| `TokenTheorems.UnsealSeal` | duckgo/paymenttoken/recipient.go:82-204 | unsealing a sealed token returns the message, for every message and every key list with the right key anywhere, while the certificate is unexpired |
| `TokenTheorems.UnsealedIsAuthentic` | duckgo/paymenttoken/recipient.go:119-135 | an accepted token was signed for exactly this sender, recipient, version and text by an unexpired key that a root of its version certified, and its MAC matches |
| `TokenTheorems.AcceptedUnderCurrentRoot` | duckgo/paymenttoken/recipient.go:119-135 | one chain behind every accepted token: a listed root of its version, unexpired when the roots were parsed, certified a key unexpired now, and that key signed exactly this sender, recipient, version and text |
| `TokenTheorems.SignatureBindsToken` | duckgo/paymenttoken/recipient.go:119-135 | with symbolic signatures one signature and certificate are accepted for one sender, recipient, version and message only |
| `TokenTheorems.SignedForOneRecipient` | duckgo/paymenttoken/recipient.go:119-135 | with symbolic signatures verification under any other recipient ID fails |
| `TokenTheorems.SealedForOneRecipient` | duckgo/paymenttoken/recipient.go:82-135 | with symbolic signatures a token sealed for one recipient ID cannot be unsealed under another, at any time, with any keys |
| `KeysManager.Download` | duckgo/mastercard/keys_manager.go:170-193 | a response is used, unchanged, exactly when it is no error, is JSON and holds a key |
| `KeysManager.ReachableInv` | duckgo/mastercard/keys_manager.go:116-223 | the control, delivery and download invariants hold in every state of every interleaving |
| `KeysManager.FirstKeysExact` | duckgo/mastercard/keys_manager.go:141-156 | in every run, with a cache path or not and whatever opens and writes bring: the worker downloads once, and its first keys are those of that answer if it is usable, otherwise what reading the cache file then gave |
| `KeysManager.DownloadsExact` | duckgo/mastercard/keys_manager.go:211-217 | the updater's sets are exactly those of its usable answers, in order |
| `KeysManager.ServedExact` | duckgo/mastercard/keys_manager.go:141-223 | everything `Get` returns in a run is the worker's first keys or a set of the updater's usable answers, in order and never going back; before cancellation none is left out |
| `KeysManager.GetReturnsNewest` | duckgo/mastercard/keys_manager.go:158-167 | a `Get` is served exactly while the worker is in its loop, with the newest keys received, and nothing else serves |
| `KeysManager.CloseCancels` | duckgo/mastercard/keys_manager.go:123-126 | `Close` is possible from construction on, cancels, and nothing else cancels |
| `KeysManager.NothingBlocks` | duckgo/mastercard/keys_manager.go:141-223 | before cancellation whatever each goroutine does next is possible; the updater waits for nothing but the worker's loop |
| `KeysManager.NoPathNoFile` | duckgo/mastercard/keys_manager.go:242-245 | without a cache path no run touches the file |
| `KeysManager.ServedInOrder` | duckgo/mastercard/keys_manager.go:158-167 | in every interleaving the results of successive `Get`s follow the order in which the worker obtained its keys and never go back |
| `KeysManager.NonemptyStaysNonempty` | duckgo/mastercard/keys_manager.go:158-190 | once a non-empty set has been served no later `Get` returns nil or an empty set |
| `KeysManager.UpdatesFollowDownloads` | duckgo/mastercard/keys_manager.go:211-223 | the worker receives updates in download order; before cancellation all of them except the one still held |
| `KeysManager.WaitGroupNeverNegative` | duckgo/mastercard/keys_manager.go:116-126 | the counter stays between 0 and 2 although `Add` follows the `go` statements, and after construction is 0 exactly when both goroutines are done |
| `KeysManager.ShutdownProgress` | duckgo/mastercard/keys_manager.go:199-208 | after cancellation no state is stuck: while a goroutine is left, one of them can act without a caller or the ticker |
| `KeysManager.EveryActionCounts` | duckgo/mastercard/keys_manager.go:158-223 | after cancellation every action of either goroutine, whatever its download, read or write brings, brings both closer to their end, and a tick takes them back by four |
| `KeysManager.ShutdownBounded` | duckgo/mastercard/keys_manager.go:123-126 | after cancellation every run has at most ten actions plus four per tick, and where it can go no further both goroutines have stopped and a waiting `Close` can return |
| `KeysManager.CloseCanReturn` | duckgo/mastercard/keys_manager.go:123-126 | from every reachable cancelled state at most eight steps stop both goroutines and let a waiting `Close` return |
| `KeysManager.ClosedIsQuiet` | duckgo/mastercard/keys_manager.go:123-126 | after a `Close` has returned nothing is served or written to the cache in any continuation |
| `KeysManager.FileHoldsNewestIff` | duckgo/mastercard/keys_manager.go:211-253 | in every run whose writes succeed the cache file holds the newest set the updater stored if and only if the worker did not write last, nor a longer text in the middle of the updater's write, or both sets are equal; everything received was stored before |
| `KeysManager.CacheAgrees` | duckgo/mastercard/keys_manager.go:145-253 | so in every state before cancellation the cache holds the served set, or the one newer set being delivered, under exactly that condition; while the updater writes, exactly when the worker has written since it opened the file |
| `KeysManager.LateTicksKeepCache` | duckgo/mastercard/keys_manager.go:145-223 | in runs without a tick before the worker enters its loop the cache holds the newest keys in every state except while the updater is writing |
| `KeysManager.PlaceOfRun` | duckgo/mastercard/keys_manager.go:242-253 | when the worker's write counts as last or as overlapping, in terms of the order of openings and writes in the run |
| `KeysManager.StoreEmptiesCache` | duckgo/mastercard/keys_manager.go:217 | a run in which a later store leaves the file unparsable while keys are served |
| `KeysManager.EarlyTickLeavesOlderCache` | duckgo/mastercard/keys_manager.go:145-156 | a run in which an early tick leaves in the cache the older of two sets while the newer is served |
| `KeysManager.OverlapTearsCache` | duckgo/mastercard/keys_manager.go:242-253 | a run in which two overlapping writes leave the cache unparsable when the older text is longer, and with the newer set otherwise |
| `KeysManager.FallbackServesFile` | duckgo/mastercard/keys_manager.go:145-152 | after a failed first download the first `Get` returns what the cache file holds |
| `KeysManager.RestartContinues` | duckgo/mastercard/keys_manager.go:229-253 | after any stop, in the middle of a write or not, a restarted manager that cannot download serves the newest keys of the previous one if and only if the cache kept them, or they were an empty set; before cancellation these are what it served or was delivering |
| `KeysManager.RestartAfterClose` | duckgo/mastercard/keys_manager.go:123-126 | after both goroutines have stopped a restart serves the worker's keys if the updater stored none, and otherwise the newest stored set exactly when it survived the worker's write |
| `Luhn.LuhnSumIsWeighted` | pay-frontend/tools/card_gen.py:15-20 | the two backward slices with step two add up to one sum weighted by distance from the right end |
| `Luhn.CheckDigitUnique` | pay-frontend/tools/card_gen.py:27-31 | of the ten digits exactly the generated one completes a number that verifies |
| `Luhn.SingleErrorDetected` | pay-frontend/tools/card_gen.py:15-24 | changing any one digit of a valid number makes it invalid |
| `Luhn.TranspositionDetected` | pay-frontend/tools/card_gen.py:15-24 | swapping adjacent digits of a valid number makes it invalid exactly unless they are equal or 0 and 9 |
| `Luhn.PanIsValid` | pay-frontend/tools/card_gen.py:34-41 | a generated number has the requested length and prefix, and verifies |
| `Luhn.PanExact` | pay-frontend/tools/card_gen.py:34-41 | the six prefix digits, the drawn number digit by digit, and the check digit |
| `Pkcs7.PaddedLength` | duckgo/pkcs7/encrypt.go:164-174 | padding adds between one byte and one block and reaches a multiple of the block length |
| `Pkcs7.PadExact` | duckgo/pkcs7/encrypt.go:164-174 | the data, then bytes that count how many were added, as far as one byte can |
| `Pkcs7.UnpadPad` | duckgo/pkcs7/encrypt.go:164-174 | the padding can be removed again if and only if its length is at most 255 |
| `Pkcs7.UnpadPadByteBlocks` | duckgo/pkcs7/encrypt.go:164-174 | every content survives padding for every block length from 1 to 255 |
| `Pkcs7.CbcDecryptEncrypt` | duckgo/pkcs7/encrypt.go:67-73 | CBC decryption undoes CBC encryption for every number of blocks |
| `Pkcs7.CbcBlock` | duckgo/pkcs7/encrypt.go:72-73 | every block goes through the cipher masked with the ciphertext block before it, the first with the iv |
| `Pkcs7.CryptBlocks` | duckgo/pkcs7/encrypt.go:72-73 | the output array ends up holding the CBC text; the loop is that of the cipher library, which line 73 calls |
| `Pkcs7.EncryptAesCbc` | duckgo/pkcs7/encrypt.go:44-86 | succeeds exactly with randomness and a usable key; returns the CBC text of the padded content, which opens to the content with the key it returns |
| `Pkcs7.Encrypt` | duckgo/pkcs7/encrypt.go:99-150 | one entry per certificate in order, with the key encrypted to it, each of which recovers the content; fails exactly when randomness or some key encryption does |
| `Visa.NewSigner` | duckgo/visa/signer.go:51-64 | a signer is made exactly from a non-empty key and secret |
| `Visa.Signer.Sign` | duckgo/visa/signer.go:68-81 | rewrites the query with the key, sets the header over the rewritten URL and the body, and on an unreadable body leaves the header alone |
| `Visa.HeaderExact` | duckgo/visa/signer.go:96-112 | a header is "xv2:", the time, a colon and in hexadecimal the MAC over time, path without its one leading slash, canonical query and body |
| `Visa.HexExact` | duckgo/visa/signer.go:109 | two lower-case hexadecimal digits per byte, the high half first |
| `Visa.SignedUrlExact` | duckgo/visa/signer.go:69-71 | signing sets the one value of the key parameter and leaves the other parameters and the path alone |
| `Visa.HeaderFields` | duckgo/visa/signer.go:96-112 | every header splits at colons into version, timestamp and MAC, and the timestamp reads back |
| `Visa.HeadersAgreeIff` | duckgo/visa/signer.go:96-112 | two headers are equal if and only if timestamps and MACs are |
| `Visa.SameHeaderIff` | duckgo/visa/signer.go:96-112 | under one secret and a symbolic MAC two requests share a header if and only if their times and the concatenations of path, canonical query and body agree |
| `Visa.BoundaryIsNotHashed` | duckgo/visa/signer.go:104-107 | two URLs with different boundaries between path and query that share every header |
| `Visa.Verifier.WithNamedSecret` | duckgo/visa/verifier.go:23-37 | adds a secret unless key or secret is empty or the key is taken; never changes another |
| `Visa.Verifier.constructor` | duckgo/visa/verifier.go:40-49 | a verifier starts without secrets |
| `Visa.Verifier.VerifyRequest` | duckgo/visa/verifier.go:51-87 | the chain of checks with the first failure as the error |
| `Visa.RejectionsAreNamed` | duckgo/visa/verifier.go:51-87 | which of the six rejections a request gets, by the first thing wrong with it, and acceptance otherwise |
| `Visa.AcceptedIff` | duckgo/visa/verifier.go:51-87 | a signature is accepted if and only if the key is known and it is the canonical header of some fresh time |
| `Visa.SignedIsAccepted` | duckgo/visa/verifier.go:51-87 | what the signer signed is accepted by every holder of the key exactly while it is fresh |
| `Visa.FreshFor300Seconds` | duckgo/visa/verifier.go:77-79 | fresh means at most 300 seconds old, except where the 64-bit difference wraps around |
| `Visa.AcceptedIsCanonical` | duckgo/visa/verifier.go:81-84 | an accepted signature is byte for byte the canonical header of the time it states |
| `Visa.OneSignaturePerTime` | duckgo/visa/verifier.go:66-84 | for one URL, body and time value one signature is accepted, however leniently the time is parsed |
| `CardStore.SRCServer.constructor` | duckgo/mastercard/mcmock/server.go:71-93 | the store starts empty |
| `CardStore.SRCServer.EnrollCardWithFixedCardID` | duckgo/mastercard/mcmock/server.go:236-247 | the whole new store and the returned card as a function of the old store and the request |
| `CardStore.SRCServer.GetOrCreateConsumer` | duckgo/mastercard/mcmock/server.go:249-265 | finds the consumer of the key or stores a new one under the drawn ID, touching nothing else |
| `CardStore.SRCServer.GetOrCreateCard` | duckgo/mastercard/mcmock/server.go:271-318 | the first card with the number and no change, or a new card at the end of the consumer's list and in the index |
| `CardStore.ReturnedCard` | duckgo/mastercard/mcmock/server.go:271-318 | a new card field by field from the request, and where it is stored; a known one is the consumer's with that number |
| `CardStore.ConsumerExact` | duckgo/mastercard/mcmock/server.go:249-265 | the consumer is found, or made under the drawn ID, by service, colon and identity; all other consumers stay as they are |
| `CardStore.EnrolKeepsInv` | duckgo/mastercard/mcmock/server.go:249-318 | an enrolment keeps keys, lists and index consistent if and only if the identifiers it may need are unused |
| `CardStore.EveryRunConsistent` | duckgo/mastercard/mcmock/server.go:230-318 | after any run of enrolments with unused identifiers every key finds its own consumer, numbers are distinct per consumer, and `cards` is exactly the by-ID index of the lists |
| `CardStore.EveryCardWellMade` | duckgo/mastercard/mcmock/server.go:281-308 | after any run every stored card shows the ends of its own number and token and its own reference |
| `CardStore.ReenrolReturnsSameCard` | duckgo/mastercard/mcmock/server.go:271-277 | enrolling the same service, identity and number again, after anything in between, returns the same card and changes nothing |
| `CardStore.KeysCollideIff` | duckgo/mastercard/mcmock/server.go:250 | two services can share a consumer key if and only if one ID continues the other after a colon |
| `CardStore.ColonFreeKeysDistinct` | duckgo/mastercard/mcmock/server.go:250 | with colon-free service IDs a consumer key determines service and identity |
| `BillMoney.DiscountIsCeiling` | bill_payments/bill_payments/storage/entities/bill.py:64 | the discounted amount is the least integer not below the exact remaining share |
| `BillMoney.DiscountNotAboveIff` | bill_payments/bill_payments/storage/entities/bill.py:64 | a positive amount is not exceeded if and only if the discount is not negative |
| `BillMoney.DiscountInRangeIff` | bill_payments/bill_payments/storage/entities/bill.py:64 | for which discounts the result lies between nothing and the amount |
| `BillMoney.DiscountInRange` | bill_payments/bill_payments/storage/entities/bill.py:64 | discounts from 0 to 100 keep every amount between nothing and itself |
| `BillMoney.DiscountMonotone` | bill_payments/bill_payments/storage/entities/bill.py:64 | a larger discount never costs more and a larger amount never less |
| `BillMoney.CheaperIff` | bill_payments/bill_payments/storage/entities/bill.py:58-64 | a bill is cheaper than its full amount if and only if the last day of the discount has not passed and the discount is worth at least one minor unit |
| `BillMoney.PayingLaterNeverCheaper` | bill_payments/bill_payments/storage/entities/bill.py:58-64 | waiting never makes a bill cheaper |
| `BillMoney.PriceExact` | bill_payments/bill_payments/storage/entities/bill.py:58-64 | for every bill what is to be paid is the remaining share of the amount rounded up, with nothing taken off unless there is a size, a date and time left; when reading the size raises |
| `BillMoney.FeeExact` | bill_payments/bill_payments/storage/entities/bill.py:66-71 | the fee is, to the nearest minor unit and upwards between two, the multiple of what is to be paid plus the addition, and at least the minimum |
| `BillMoney.RoundsToNearest` | bill_payments/bill_payments/storage/entities/bill.py:70 | the rounded fee is within half a minor unit of the exact one, ties upward |
| `BillMoney.FeeMonotone` | bill_payments/bill_payments/storage/entities/bill.py:66-71 | a larger bill never has a smaller fee |
| `BillMoney.FeeGrowthBounded` | bill_payments/bill_payments/storage/entities/bill.py:66-71 | the fee never grows faster than the bill, after rounding |
| `BillMoney.TotalStrictlyIncreases` | bill_payments/bill_payments/storage/entities/bill.py:66-71 | bill plus fee is strictly increasing, so what is paid determines the bill |
| `BillMoney.FeeAtLeastMinimum` | bill_payments/bill_payments/storage/entities/bill.py:66-71 | the fee is never below the rounded minimum |
| `MinorUnits.RoundExactIff` | lib/utils/currency.py:52 | decimal arithmetic keeps a result unrounded if and only if it has at most 28 significant digits |
| `MinorUnits.HalfEvenNearest` | lib/utils/currency.py:52-53 | rounding goes to a nearest multiple, and halfway to the even one |
| `MinorUnits.ToMinorUnitsOfShort` | lib/utils/currency.py:51-61 | for coefficients below 10^28, in plain numbers: accepted exactly when the amount times ten to the exponent is an integer not below the minimum |
| `MinorUnits.LongAmountAcceptedAt` | lib/utils/currency.py:52-55 | the digit that gets lost, at one amount |
| `MinorUnits.AcceptsIntegral` | lib/utils/currency.py:53-55 | the comparison with the rounded value accepts exactly the integral numbers |
| `MinorUnits.ToMinorUnitsOfRounded` | lib/utils/currency.py:51-61 | for every amount the conversion accepts exactly when the amount rounded to 28 significant digits is a whole number of minor units not below the minimum, and returns that number |
| `MinorUnits.LongAcceptedIff` | lib/utils/currency.py:51-61 | which amounts of more than 28 significant digits are accepted, by their first 28 digits |
| `MinorUnits.ToMinorUnitsExact` | lib/utils/currency.py:51-61 | up to 28 significant digits exactly the amounts integral in minor units, and not below the minimum, are accepted, with that integer |
| `MinorUnits.ToMinorUnitsRightIff` | lib/utils/currency.py:51-61 | for all amounts the answer is right if and only if the amount fits 28 significant digits, or is no whole number of minor units even after rounding to them |
| `MinorUnits.LongAmountAccepted` | lib/utils/currency.py:52-55 | a 29-digit amount that is no whole number of minor units and is accepted |
| `MinorUnits.ToMinorFromMinor` | lib/utils/currency.py:51-70 | an integer survives the way to an amount and back if and only if it has at most 28 significant digits |
| `MinorUnits.FromMinorToMinor` | lib/utils/currency.py:51-70 | an accepted amount survives the way to an integer and back, as a number, if and only if it has at most 28 significant digits |
| `Attributes.ToArray` | lib/interactions/psp/rbs/schemas.py:22-33 | the recursive loop terminates on every tree and yields the level-by-level sorted list |
| `Attributes.ToArrayIsSortedLeaves` | lib/interactions/psp/rbs/schemas.py:22-33 | that list is the one stable sort by name of all non-null leaves under their dotted paths: nested sorting makes no difference |
| `Attributes.ToArrayExact` | lib/interactions/psp/rbs/schemas.py:22-33 | the result lists a name and value if and only if following some path of keys ends at that value and the name is prefix and dotted path |
| `Attributes.JoinCommaExact` | lib/interactions/psp/rbs/schemas.py:29 | a list is written with all its elements, a comma and a space between them |
| `Attributes.NamesAreDistinct` | lib/interactions/psp/rbs/schemas.py:22-33 | without dots in keys the names of the result are pairwise distinct |
| `Attributes.NameDeterminesPath` | lib/interactions/psp/rbs/schemas.py:27 | without dots in keys a name determines the path it came from |
| `Sorting.SortIsStableSort` | lib/interactions/psp/rbs/schemas.py:32 | sorting orders, is a permutation, and keeps the order of equal keys |
| `Sorting.TextLeqIff` | lib/interactions/psp/rbs/schemas.py:32 | names are ordered by their first difference, a prefix coming first |
| `Sorting.StableSortUnique` | lib/interactions/psp/rbs/schemas.py:32 | there is only one such result, so the algorithm does not matter |
| `CartHash.Hash` | lib/entities/cart.py:107-121 | the loop hashes the joined fields of the cart and then of its items by product ID |
| `CartHash.PreimageDeterminesFields` | lib/entities/cart.py:119 | hashed texts agree if and only if all rendered fields do |
| `CartHash.FieldsOfItem` | lib/entities/cart.py:114-116 | after the cart's four sizes come, per item in the order of product IDs, its four sizes and its count |
| `CartHash.EqualHashText` | lib/entities/cart.py:107-119 | carts with the same hash text have as many items, with the same sizes and counts in the order of product IDs |
| `CartHash.OrderIrrelevantIff` | lib/entities/cart.py:108-116 | every reordering of the items hashes alike if and only if items sharing a product ID look alike to the hash |
| `CartHash.OrderIrrelevant` | lib/entities/cart.py:108 | with distinct product IDs the hashed text is the same for every reordering |
| `Uaas.UaasParser.ParseFlags` | lib/utils/uaas.py:37-80 | the nested loops leave the flags and test IDs of the specification, or raise exactly when it says so, sorting of the test IDs included |
| `Uaas.RaisesIff` | lib/utils/uaas.py:46-76 | the constructor raises if and only if decoding a chunk raises or yields nothing to iterate over, some item is no object or has unusable test IDs or flags for this handler, or two test IDs of this handler cannot be ordered |
| `Uaas.MixedIdsRaise` | lib/utils/uaas.py:76 | a header with a textual and a numeric test ID raises |
| `Uaas.UaasParser.MergeItems` | lib/utils/uaas.py:55-71 | one chunk's items extend flags and test IDs by what these items contribute, in order |
| `Uaas.MergeFlags` | lib/utils/uaas.py:65-71 | the innermost loop keeps known keys and adds the new ones |
| `Uaas.FlagsAreFirstOccurrences` | lib/utils/uaas.py:37-80 | for every header that parses the flags have exactly the keys of this handler's items, each with its value in the first such item in (chunk, item) order; an item's flags are what stands under CONTEXT, MAIN and the handler's name |
| `Uaas.TestItemFlagsIff` | lib/utils/uaas.py:82-87 | the flags of an item are the value under CONTEXT, MAIN and the handler's name, and none when a key is missing or something on the way is no object |
| `Uaas.HeaderItemsExact` | lib/utils/uaas.py:46-55 | for every header that parses, it is cut at its commas, and the items are those of the decoded pieces in order |
| `Uaas.TestIdsAreUnion` | lib/utils/uaas.py:37-80 | for every header that parses the test IDs are the union over this handler's items |
| `Uaas.ChunksAreItems` | lib/utils/uaas.py:46-55 | the loops over chunks and items collect what one loop over all items would, in (chunk, item) order |
| `Uaas.UndecodableChunksDoNotMatter` | lib/utils/uaas.py:46-53 | deleting the undecodable chunks from the header does not change the result |
| `Pagination.PageCountIsLeast` | console-frontend/src/client/hooks/usePagination.ts:24 | the page count is the least number of pages that holds all entries |
| `Pagination.WellFormedIff` | console-frontend/src/client/hooks/usePagination.ts:24-81 | the strip runs from 1 to n with all siblings and dots that hide a page if and only if n is at most s + 5 or at least 2s + 5 |
| `Pagination.DotsExact` | console-frontend/src/client/hooks/usePagination.ts:47-81 | all pages when they fit; otherwise dots after page 1 exactly when the siblings start after page 2, and before page n exactly when they end before page n - 2 |
| `Pagination.FallsThroughIff` | console-frontend/src/client/hooks/usePagination.ts:78-82 | exactly for which counts and current pages there is no result |
| `Pagination.EightPagesFallThrough` | console-frontend/src/client/hooks/usePagination.ts:78-82 | eight pages, two siblings, page 4: no result |
| `Pagination.PagesIncrease` | console-frontend/src/client/hooks/usePagination.ts:28-81 | along a well-formed strip page numbers strictly increase |
| `Pagination.ElidedLength` | console-frontend/src/client/hooks/usePagination.ts:56-81 | an elided strip always has 2s + 5 cells |
| `DecimalText.ParseFormat` | duckgo/paymenttoken/intermediate_signing_cert.go:47 | every 64-bit integer survives being printed and parsed |
| `DecimalText.FormatNatDigit` | duckgo/paymenttoken/intermediate_signing_cert.go:47 | the characters printed are the decimal digits |
| `DecimalText.ParsePlus` | duckgo/visa/verifier.go:72 | a plus sign is read over |
| `Joining.SplitJoin` | duckgo/visa/verifier.go:66 | splitting undoes joining for parts without the separator |

## Left out

- TokenTheorems.UnsealSeal: an earlier private key whose MAC matches by coincidence is excluded by a precondition, as MACs of different keys do not differ by any law of HMAC alone.
- TokenTheorems.SignedForOneRecipient: needs symbolic signatures and fields shorter than 2^32 bytes; the computational strength of ECDSA is not modelled.
- KeysManager.CacheAgrees: only for runs in which opening and writing the cache file succeed; the write that follows an opening is one action, and the length of a key set's text is a parameter.
- KeysManager.CloseCanReturn: assumes that a download returns once its context is cancelled; fairness between the ticker and cancellation is not modelled, so KeysManager.ShutdownBounded counts the ticks.
- KeysManager.Download: a response is three flags and the key IDs; HTTP, retries and back-off are nondeterministic labels, and the panic of a non-positive ticker period and logging are left out.
- Key manager goroutines are labelled steps on values, not Dafny methods, because Dafny has no concurrent statements; a cache write is two steps, so a reader may see a truncated file.
- CryptoUtils.KemAgrees: hash names, key formats and point formats are folded into the primitives, which are fixed to SHA256, DER and uncompressed points.
- Tokens and certificates: nil pointers and the JSON text `null` for a signed message, which the code dereferences, are not modelled; neither are `SealJSONMessage`, `UnsealJSONMessage`, token serialization, and the PEM and PKCS8 readers.
- An HKDF answer shorter than 32 bytes, which would make the key split panic, is an error result here.
- Pkcs7.Encrypt: the ASN.1 envelope, issuer and serial numbers of certificates are not modelled, so their encoding errors are not either; a recipient is a certificate text, and a key that is not RSA, for which the type assertion panics, is an error result.
- Luhn.PanIsValid: lengths below 8 are not drawn (the exponent of the random bound is negative), and characters that are not digits, for which `int` raises, are left out.
- CardStore.SRCServer.EnrollCardWithFixedCardID: numbers shorter than six characters, which the slices do not survive, are excluded; `EnrollCard` is this call with a drawn ID; the lock makes calls atomic and is not modelled; services, constant display data of a card and the server's RSA keys are left out.
- Cards are values while consumers are objects: the code never changes a card after storing it, so sharing one card between list and index cannot be observed.
- BillMoney.FeeAtLeastMinimum: fees are computed with exact decimals, not in the 28-digit context that MinorUnits models; the reading of the discount text is a parameter that may raise.
- MinorUnits.ToMinorUnitsExact: NaN, infinities and exponent limits of decimals are left out, and the currency table is a parameter.
- Uaas.UaasParser.ParseFlags: what is logged is left out; numbers and booleans of JSON are opaque texts, so equal ones with different texts stay apart among the test IDs.
- CartHash.PreimageDeterminesFields: numbers are given as the texts they print to, which contain no colon.
- Pagination.PageCountIsLeast: the quotient is exact, where the code divides in floating point.
- Visa: the query is a map from keys to lists of values whose parsing and printing are parameters; body readers are reduced to absent, unreadable or readable.
- HTTP handlers, checkout and JOSE of the mock server, the Visa mock, the recipient key signer and verifier, configuration, command-line programs and user interfaces are not modelled.
