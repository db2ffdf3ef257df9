/**
 Padding and CBC encryption of enveloped data (encrypt.go). Padding is section 6.3 of RFC 5652,
 CBC is section 6.2 of NIST SP 800-38A. The block cipher and RSA are parameters.
 */
module Pkcs7 {
  import opened Wrappers
  import opened ByteStrings
  import opened Aes
  import opened Arithmetic

  datatype Error = InvalidBlockLength | BadCipherKey | NoRandom | KeyEncryptionFailed

  /** A block cipher with its inverse, and RSA towards recipients named by their certificates. */
  datatype Ciphers = Ciphers(
    encryptBlock: (Bytes, Bytes) -> Bytes,
    decryptBlock: (Bytes, Bytes) -> Bytes,
    encryptKey: (Bytes, Bytes, Bytes) -> Option<Bytes>,
    decryptKey: (Bytes, Bytes) -> Option<Bytes>)

  ghost predicate BlockLaw(c: Ciphers) {
    forall key, block | |block| == AES_BLOCK_SIZE ::
      |c.encryptBlock(key, block)| == AES_BLOCK_SIZE && c.decryptBlock(key, c.encryptBlock(key, block)) == block
  }

  /** Whoever owns the certificate recovers the key encrypted to it, whatever entropy was drawn. */
  ghost predicate KeyLaw(c: Ciphers) {
    forall cert, key, entropy ::
      match c.encryptKey(cert, key, entropy)
      case None => true
      case Some(text) => c.decryptKey(cert, text) == Some(key)
  }

  // --------------------------------------------------------------------------------------------------
  // Padding
  // --------------------------------------------------------------------------------------------------

  function Repeat(b: byte, n: nat): (r: Bytes)
    ensures |r| == n && forall i | 0 <= i < n :: r[i] == b
  {
    seq<byte>(n, i => b)
  }

  /** byte(padlen) keeps the low eight bits. */
  function Pad(data: Bytes, blocklen: int): Result<Bytes, Error> {
    if blocklen < 1 then Failure(InvalidBlockLength)
    else
      var padlen := blocklen - |data| % blocklen;
      var padlen' := if padlen == 0 then blocklen else padlen;
      Success(data + Repeat(padlen' % 256, padlen'))
  }

  /** What a reader does: the last byte counts the padding, and every padding byte must equal it. */
  function Unpad(padded: Bytes): Option<Bytes> {
    if padded == [] then None
    else
      var n := padded[|padded| - 1];
      if n == 0 || n > |padded| then None
      else if exists i | |padded| - n <= i < |padded| :: padded[i] != n then None
      else Some(padded[..|padded| - n])
  }

  /** Between one and a whole block of bytes is added, reaching the next multiple of the block length. */
  lemma PaddedLength(data: Bytes, blocklen: int)
    requires blocklen >= 1
    ensures Pad(data, blocklen).Success?
    ensures var n := |Pad(data, blocklen).value|;
      n % blocklen == 0 && |data| < n <= |data| + blocklen
  {
    var q, r := |data| / blocklen, |data| % blocklen;
    assert |data| == q * blocklen + r;
    assert |data| + (blocklen - r) == (q + 1) * blocklen;
    MultipleOf(q + 1, blocklen);
  }

  /** The padding comes off again exactly when its length fits the one byte that says it. */
  lemma UnpadPad(data: Bytes, blocklen: int)
    requires blocklen >= 1
    ensures Unpad(Pad(data, blocklen).value) == Some(data) <==> blocklen - |data| % blocklen <= 255
  {
    var padlen := blocklen - |data| % blocklen;
    var padded := Pad(data, blocklen).value;
    assert padded == data + Repeat(padlen % 256, padlen);
    assert padded[|padded| - 1] == padlen % 256;
    if padlen <= 255 {
      assert padded[..|padded| - padlen] == data;
    }
  }

  /** So for every block length that fits a byte, every content survives. */
  lemma UnpadPadByteBlocks(data: Bytes, blocklen: int)
    requires 1 <= blocklen <= 255
    ensures Unpad(Pad(data, blocklen).value) == Some(data)
  {
    UnpadPad(data, blocklen);
  }

  // --------------------------------------------------------------------------------------------------
  // CBC
  // --------------------------------------------------------------------------------------------------

  function XorAll(a: Bytes, b: Bytes): (r: Bytes)
    requires |a| == |b|
    ensures |r| == |a| && forall i | 0 <= i < |a| :: r[i] == Xor(a[i], b[i])
  {
    seq<byte>(|a|, i requires 0 <= i < |a| => Xor(a[i], b[i]))
  }

  lemma XorAllTwice(a: Bytes, b: Bytes)
    requires |a| == |b|
    ensures XorAll(XorAll(a, b), b) == a
  {
    forall i | 0 <= i < |a|
      ensures Xor(Xor(a[i], b[i]), b[i]) == a[i]
    {
      XorTwice(a[i], b[i]);
    }
  }

  predicate WholeBlocks(text: Bytes) {
    |text| % AES_BLOCK_SIZE == 0
  }

  ghost function CbcEncrypt(c: Ciphers, key: Bytes, iv: Bytes, text: Bytes): (r: Bytes)
    requires BlockLaw(c) && |iv| == AES_BLOCK_SIZE && WholeBlocks(text)
    ensures |r| == |text|
    decreases |text|
  {
    if text == [] then []
    else
      var block := c.encryptBlock(key, XorAll(text[..AES_BLOCK_SIZE], iv));
      block + CbcEncrypt(c, key, block, text[AES_BLOCK_SIZE..])
  }

  ghost function CbcDecrypt(c: Ciphers, key: Bytes, iv: Bytes, text: Bytes): Option<Bytes>
    requires |iv| == AES_BLOCK_SIZE && WholeBlocks(text)
    decreases |text|
  {
    if text == [] then Some([])
    else
      var block := text[..AES_BLOCK_SIZE];
      var masked := c.decryptBlock(key, block);
      if |masked| != AES_BLOCK_SIZE then None
      else
        match CbcDecrypt(c, key, block, text[AES_BLOCK_SIZE..])
        case None => None
        case Some(rest) => Some(XorAll(masked, iv) + rest)
  }

  lemma {:induction false} CbcDecryptEncrypt(c: Ciphers, key: Bytes, iv: Bytes, text: Bytes)
    requires BlockLaw(c) && |iv| == AES_BLOCK_SIZE && WholeBlocks(text)
    ensures CbcDecrypt(c, key, iv, CbcEncrypt(c, key, iv, text)) == Some(text)
    decreases |text|
  {
    if text != [] {
      var first := XorAll(text[..AES_BLOCK_SIZE], iv);
      var block := c.encryptBlock(key, first);
      var rest := CbcEncrypt(c, key, block, text[AES_BLOCK_SIZE..]);
      CbcDecryptEncrypt(c, key, block, text[AES_BLOCK_SIZE..]);
      XorAllTwice(text[..AES_BLOCK_SIZE], iv);
      assert (block + rest)[..AES_BLOCK_SIZE] == block && (block + rest)[AES_BLOCK_SIZE..] == rest;
      assert text == text[..AES_BLOCK_SIZE] + text[AES_BLOCK_SIZE..];
    }
  }

  /** The part of the text from a block boundary on is one block, then the rest masked with that block. */
  lemma CbcFrom(c: Ciphers, key: Bytes, prev: Bytes, src: Bytes, at: nat)
    requires BlockLaw(c) && |prev| == AES_BLOCK_SIZE
    requires at < |src| && WholeBlocks(src) && WholeBlocks(src[at..])
    ensures at + AES_BLOCK_SIZE <= |src| && WholeBlocks(src[at + AES_BLOCK_SIZE..])
    ensures var block := c.encryptBlock(key, XorAll(src[at..at + AES_BLOCK_SIZE], prev));
      && |block| == AES_BLOCK_SIZE
      && CbcEncrypt(c, key, prev, src[at..]) == block + CbcEncrypt(c, key, block, src[at + AES_BLOCK_SIZE..])
  {
    var text := src[at..];
    assert text[..AES_BLOCK_SIZE] == src[at..at + AES_BLOCK_SIZE];
    assert text[AES_BLOCK_SIZE..] == src[at + AES_BLOCK_SIZE..];
  }

  /** cipher.BlockMode.CryptBlocks of a CBC encrypter: fills dst block by block, each masked with the one before. */
  method CryptBlocks(c: Ciphers, key: Bytes, iv: Bytes, dst: array<byte>, src: Bytes)
    requires BlockLaw(c) && |iv| == AES_BLOCK_SIZE && WholeBlocks(src) && dst.Length == |src|
    modifies dst
    ensures dst[..] == CbcEncrypt(c, key, iv, src)
  {
    var prev := iv;
    var at := 0;
    assert src[0..] == src && dst[..0] == [];
    while at < |src|
      invariant at <= |src| && |prev| == AES_BLOCK_SIZE && WholeBlocks(src[at..])
      invariant dst[..at] + CbcEncrypt(c, key, prev, src[at..]) == CbcEncrypt(c, key, iv, src)
    {
      CbcFrom(c, key, prev, src, at);
      var block := c.encryptBlock(key, XorAll(src[at..at + AES_BLOCK_SIZE], prev));
      ghost var rest := CbcEncrypt(c, key, block, src[at + AES_BLOCK_SIZE..]);
      assert dst[..at] + block + rest == CbcEncrypt(c, key, iv, src);
      CopyInto(dst, at, block);
      prev := block;
      at := at + AES_BLOCK_SIZE;
    }
    assert src[at..] == [] && dst[..at] == dst[..];
  }

  method CopyInto(dst: array<byte>, at: nat, block: Bytes)
    requires at + |block| <= dst.Length
    modifies dst
    ensures dst[..at] == old(dst[..at])
    ensures dst[at..at + |block|] == block
    ensures dst[at + |block|..] == old(dst[at + |block|..])
    ensures dst[..at + |block|] == old(dst[..at]) + block
  {
    for i := 0 to |block|
      invariant dst[..at] == old(dst[..at])
      invariant dst[at..at + i] == block[..i]
      invariant dst[at + |block|..] == old(dst[at + |block|..])
    {
      dst[at + i] := block[i];
    }
    assert dst[..at + |block|] == dst[..at] + dst[at..at + |block|];
  }

  // --------------------------------------------------------------------------------------------------
  // Enveloped data
  // --------------------------------------------------------------------------------------------------

  datatype EncryptedContentInfo = EncryptedContentInfo(iv: Bytes, encryptedContent: Bytes)
  datatype RecipientInfo = RecipientInfo(certificate: Bytes, encryptedKey: Bytes)
  datatype Envelope = Envelope(recipientInfos: seq<RecipientInfo>, content: EncryptedContentInfo)

  /** What a reader with the content key recovers. */
  ghost function OpenContent(c: Ciphers, key: Bytes, eci: EncryptedContentInfo): Option<Bytes> {
    if |eci.iv| != AES_BLOCK_SIZE || !WholeBlocks(eci.encryptedContent) then None
    else
      match CbcDecrypt(c, key, eci.iv, eci.encryptedContent)
      case None => None
      case Some(padded) => Unpad(padded)
  }

  /** What the i-th recipient recovers: first the content key, then the content. */
  ghost function OpenEnvelope(c: Ciphers, e: Envelope, i: nat): Option<Bytes>
    requires i < |e.recipientInfos|
  {
    var info := e.recipientInfos[i];
    match c.decryptKey(info.certificate, info.encryptedKey)
    case None => None
    case Some(key) => OpenContent(c, key, e.content)
  }

  lemma OpenEncrypted(c: Ciphers, key: Bytes, iv: Bytes, content: Bytes)
    requires BlockLaw(c) && |iv| == AES_BLOCK_SIZE
    ensures WholeBlocks(Pad(content, AES_BLOCK_SIZE).value)
    ensures var text := CbcEncrypt(c, key, iv, Pad(content, AES_BLOCK_SIZE).value);
      OpenContent(c, key, EncryptedContentInfo(iv, text)) == Some(content)
  {
    PaddedLength(content, AES_BLOCK_SIZE);
    CbcDecryptEncrypt(c, key, iv, Pad(content, AES_BLOCK_SIZE).value);
    UnpadPad(content, AES_BLOCK_SIZE);
  }

  /** A nil key is replaced by 32 fresh bytes; what comes back can be opened with the key that comes back. */
  method EncryptAesCbc(c: Ciphers, content: Bytes, key: Option<Bytes>, freshKey: Option<Bytes>, freshIv: Option<Bytes>)
    returns (r: Result<(Bytes, EncryptedContentInfo), Error>)
    requires BlockLaw(c)
    requires freshKey.Some? ==> |freshKey.value| == 32
    requires freshIv.Some? ==> |freshIv.value| == AES_BLOCK_SIZE
    ensures r.Success? <==> freshIv.Some? && if key.Some? then AesKeySize(|key.value|) else freshKey.Some?
    ensures r.Success? ==> (key.Some? ==> r.value.0 == key.value) && (key.None? ==> Some(r.value.0) == freshKey)
    ensures r.Success? ==> Some(r.value.1.iv) == freshIv && OpenContent(c, r.value.0, r.value.1) == Some(content)
    ensures WholeBlocks(Pad(content, 16).value)
    ensures r.Success? ==> r.value.1.encryptedContent == CbcEncrypt(c, r.value.0, freshIv.value, Pad(content, 16).value)
  {
    PaddedLength(content, AES_BLOCK_SIZE);
    var k;
    if key.None? {
      if freshKey.None? {
        return Failure(NoRandom);
      }
      k := freshKey.value;
    } else {
      k := key.value;
    }
    if freshIv.None? {
      return Failure(NoRandom);
    }
    var iv := freshIv.value;
    if !AesKeySize(|k|) {
      return Failure(BadCipherKey);
    }
    var plaintext := Pad(content, AES_BLOCK_SIZE).value;
    OpenEncrypted(c, k, iv, content);
    var cyphertext := new byte[|plaintext|];
    CryptBlocks(c, k, iv, cyphertext, plaintext);
    r := Success((k, EncryptedContentInfo(iv, cyphertext[..])));
  }

  /**
   One entry per recipient, in their order, and every one of them recovers the content;
   it fails exactly when randomness or some key encryption does.
   */
  method Encrypt(c: Ciphers, content: Bytes, recipients: seq<Bytes>, freshKey: Option<Bytes>, freshIv: Option<Bytes>,
                 entropy: nat -> Bytes)
    returns (r: Result<Envelope, Error>)
    requires BlockLaw(c) && KeyLaw(c)
    requires freshKey.Some? ==> |freshKey.value| == 32
    requires freshIv.Some? ==> |freshIv.value| == AES_BLOCK_SIZE
    ensures r.Success? <==>
      freshKey.Some? && freshIv.Some? &&
      forall i | 0 <= i < |recipients| :: c.encryptKey(recipients[i], freshKey.value, entropy(i)).Some?
    ensures r.Success? ==> |r.value.recipientInfos| == |recipients|
    ensures r.Success? ==> forall i: nat | i < |recipients| ::
        c.encryptKey(recipients[i], freshKey.value, entropy(i)) == Some(r.value.recipientInfos[i].encryptedKey)
    ensures WholeBlocks(Pad(content, 16).value)
    ensures r.Success? ==> Some(r.value.content.iv) == freshIv
    ensures r.Success? ==>
      r.value.content.encryptedContent == CbcEncrypt(c, freshKey.value, freshIv.value, Pad(content, 16).value)
    ensures r.Success? ==> forall i: nat | i < |recipients| ::
        r.value.recipientInfos[i].certificate == recipients[i] && OpenEnvelope(c, r.value, i) == Some(content)
  {
    var encrypted := EncryptAesCbc(c, content, None, freshKey, freshIv);
    if encrypted.Failure? {
      return Failure(encrypted.error);
    }
    var (key, eci) := encrypted.value;
    var infos := new RecipientInfo[|recipients|](i => RecipientInfo([], []));
    for i := 0 to |recipients|
      invariant forall j | 0 <= j < i ::
          infos[j].certificate == recipients[j] &&
          c.encryptKey(recipients[j], key, entropy(j)) == Some(infos[j].encryptedKey)
    {
      var text := c.encryptKey(recipients[i], key, entropy(i));
      if text.None? {
        return Failure(KeyEncryptionFailed);
      }
      infos[i] := RecipientInfo(recipients[i], text.value);
    }
    r := Success(Envelope(infos[..], eci));
  }

  // --------------------------------------------------------------------------------------------------
  // Bytes and blocks
  // --------------------------------------------------------------------------------------------------

  /** The data comes first, and every byte after it is the number of bytes added, as far as one byte can say it. */
  lemma PadExact(data: Bytes, blocklen: int, i: nat)
    requires blocklen >= 1 && i < |Pad(data, blocklen).value|
    ensures var padded := Pad(data, blocklen).value;
      padded[i] == if i < |data| then data[i] else (|padded| - |data|) % 256
  {
  }

  function BlockAt(text: Bytes, j: nat): (block: Bytes)
    requires 16 * (j + 1) <= |text|
    ensures |block| == 16
  {
    text[16 * j..16 * (j + 1)]
  }

  lemma BlockOfTail(text: Bytes, j: nat)
    requires j > 0 && 16 * (j + 1) <= |text|
    ensures BlockAt(text[16..], j - 1) == BlockAt(text, j)
  {
  }

  lemma CbcFirst(c: Ciphers, key: Bytes, iv: Bytes, text: Bytes)
    requires BlockLaw(c) && |iv| == AES_BLOCK_SIZE && WholeBlocks(text) && text != []
    ensures |text| >= 16 && WholeBlocks(text[16..])
    ensures var r := CbcEncrypt(c, key, iv, text);
      && BlockAt(r, 0) == c.encryptBlock(key, XorAll(BlockAt(text, 0), iv))
      && r[16..] == CbcEncrypt(c, key, BlockAt(r, 0), text[16..])
  {
    var block := c.encryptBlock(key, XorAll(text[..AES_BLOCK_SIZE], iv));
    assert BlockAt(text, 0) == text[..AES_BLOCK_SIZE];
    assert CbcEncrypt(c, key, iv, text) == block + CbcEncrypt(c, key, block, text[AES_BLOCK_SIZE..]);
    assert BlockAt(CbcEncrypt(c, key, iv, text), 0) == block;
  }

  /** Block j goes through the cipher masked with the ciphertext block before it, the first one with the iv. */
  lemma {:induction false} CbcBlock(c: Ciphers, key: Bytes, iv: Bytes, text: Bytes, j: nat)
    requires BlockLaw(c) && |iv| == AES_BLOCK_SIZE && WholeBlocks(text) && 16 * (j + 1) <= |text|
    ensures var r := CbcEncrypt(c, key, iv, text);
      var mask := if j == 0 then iv else BlockAt(r, j - 1);
      BlockAt(r, j) == c.encryptBlock(key, XorAll(BlockAt(text, j), mask))
    decreases j
  {
    CbcFirst(c, key, iv, text);
    if j > 0 {
      var r := CbcEncrypt(c, key, iv, text);
      CbcBlock(c, key, BlockAt(r, 0), text[16..], j - 1);
      BlockOfTail(text, j);
      BlockOfTail(r, j);
      if j > 1 {
        BlockOfTail(r, j - 1);
      }
    }
  }
}
