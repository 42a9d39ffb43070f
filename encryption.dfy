/**
 * lib/crypto/encryption.ts: symmetric encryption of post content.
 *
 * A key is 32 random bytes written as 64 lower-case hex digits. A ciphertext
 * is base64(iv ‖ AES-GCM output), where the iv is 12 random bytes and the
 * AES-GCM output is the ciphertext followed by a 16-byte tag, as in NIST
 * SP 800-38D with a random 96-bit IV (its section 8.2.2).
 *
 * The Web Crypto calls, TextEncoder/TextDecoder and crypto.getRandomValues
 * are outside the model: the first two are parameters (records of functions
 * with the properties the model relies on spelled out in Valid()), and the
 * random source is a parameter holding the bytes it would produce.
 */
module Encryption {
  import opened Wrappers
  import opened Hex
  import Base64

  const KeyLength := 32
  const IvLength := 12
  const TagLength := 16

  const DecryptionFailedMessage := "Decryption failed - invalid key or corrupted data"

  datatype CryptoError =
    | KeyImportRejected        // crypto.subtle.importKey refused the key bytes
    | DecryptionFailed(message: string)

  /**
   * The AES-GCM operations of crypto.subtle: whether importKey('raw', key)
   * succeeds, and encrypt/decrypt under a key and an iv (decrypt yields None
   * when the tag does not verify).
   */
  datatype Aead = Aead(
    importKey: seq<Byte> -> bool,
    encrypt: (seq<Byte>, seq<Byte>, seq<Byte>) -> seq<Byte>,
    decrypt: (seq<Byte>, seq<Byte>, seq<Byte>) -> Option<seq<Byte>>)
  {
    /**
     * What the model assumes of AES-GCM: 256-bit keys import, the output is
     * the plaintext length plus a 16-byte tag, decryption under the same key
     * and iv recovers the plaintext, and input shorter than a tag never
     * authenticates.
     */
    ghost predicate Valid() {
      && (forall key: seq<Byte> | |key| == KeyLength :: importKey(key))
      && (forall key, iv, m | importKey(key) :: |encrypt(key, iv, m)| == |m| + TagLength)
      && (forall key, iv, m | importKey(key) :: decrypt(key, iv, encrypt(key, iv, m)) == Some(m))
      && (forall key, iv, c: seq<Byte> | |c| < TagLength :: decrypt(key, iv, c) == None)
    }
  }

  /** U+FEFF, the byte order mark. */
  const ByteOrderMark: char := '\U{FEFF}'

  /** Drops one leading byte order mark, if there is one. */
  function StripBom(s: string): string {
    if |s| > 0 && s[0] == ByteOrderMark then s[1..] else s
  }

  /**
   * TextEncoder.encode, and UTF-8 decoding as such (a decoder built with
   * `ignoreBOM: true`). Valid() says decoding inverts encoding, a leading
   * U+FEFF included.
   */
  datatype TextCodec = TextCodec(encode: string -> seq<Byte>, decodeUtf8: seq<Byte> -> string) {
    ghost predicate Valid() {
      forall s :: decodeUtf8(encode(s)) == s
    }

    /**
     * `new TextDecoder().decode(bytes)`: the default decoder has ignoreBOM
     * false, so a U+FEFF at the start of the decoded text is dropped.
     */
    function Decode(bytes: seq<Byte>): (r: string)
      ensures r == decodeUtf8(bytes) || [ByteOrderMark] + r == decodeUtf8(bytes)
      ensures r != decodeUtf8(bytes) <==> |decodeUtf8(bytes)| > 0 && decodeUtf8(bytes)[0] == ByteOrderMark
    {
      StripBom(decodeUtf8(bytes))
    }
  }

  // ------------------------------------------------------------- key

  /** crypto.getRandomValues(buf): the random source's bytes, written into `buf`. */
  method GetRandomValues(buf: array<Byte>, entropy: seq<Byte>)
    requires |entropy| == buf.Length
    modifies buf
    ensures buf[..] == entropy
  {
    var i := 0;
    while i < buf.Length
      invariant 0 <= i <= buf.Length
      invariant buf[..i] == entropy[..i]
    {
      buf[i] := entropy[i];
      i := i + 1;
    }
  }

  /** generateEncryptionKey: 32 random bytes as 64 lower-case, zero-padded hex digits. */
  method GenerateEncryptionKey(entropy: seq<Byte>) returns (keyHex: string)
    requires |entropy| == KeyLength
    ensures |keyHex| == 2 * KeyLength
    ensures forall i :: 0 <= i < |keyHex| ==> IsLowerHexDigit(keyHex[i])
    ensures forall i :: 0 <= i < KeyLength ==>
      keyHex[2 * i] == DigitChar(entropy[i] / 16) && keyHex[2 * i + 1] == DigitChar(entropy[i] % 16)
    ensures HexDecode(keyHex) == entropy
  {
    var key := new Byte[KeyLength];
    GetRandomValues(key, entropy);
    keyHex := HexEncode(key[..]);
    forall i | 0 <= i < KeyLength
      ensures keyHex[2 * i] == DigitChar(entropy[i] / 16)
      ensures keyHex[2 * i + 1] == DigitChar(entropy[i] % 16)
    {
      HexEncodeAt(entropy, i);
    }
    HexDecodeEncode(entropy);
  }

  // ------------------------------------------------------------ framing

  /** Uint8Array.prototype.set(source, offset) on a target large enough to hold it. */
  method SetAt(target: array<Byte>, source: seq<Byte>, offset: nat)
    requires offset + |source| <= target.Length
    modifies target
    ensures target[..] == old(target[..offset]) + source + old(target[offset + |source|..])
  {
    var i := 0;
    while i < |source|
      invariant 0 <= i <= |source|
      invariant target[..offset] == old(target[..offset])
      invariant target[offset..offset + i] == source[..i]
      invariant target[offset + |source|..] == old(target[offset + |source|..])
    {
      target[offset + i] := source[i];
      i := i + 1;
    }
    assert target[..] == target[..offset] + target[offset..offset + |source|] + target[offset + |source|..];
  }

  /** Allocates `combined` and copies the iv to offset 0 and the AES-GCM output after it. */
  method Combine(iv: array<Byte>, encrypted: seq<Byte>) returns (combined: array<Byte>)
    ensures fresh(combined)
    ensures combined[..] == iv[..] + encrypted
    ensures combined[..iv.Length] == iv[..] && combined[iv.Length..] == encrypted
  {
    combined := new Byte[iv.Length + |encrypted|];
    SetAt(combined, iv[..], 0);
    SetAt(combined, encrypted, iv.Length);
  }

  /** `combined.slice(0, 12)` and `combined.slice(12)`; both clamp to the length. */
  function SplitFrame(combined: seq<Byte>): (parts: (seq<Byte>, seq<Byte>))
    ensures parts.0 + parts.1 == combined
    ensures |parts.0| == if |combined| < IvLength then |combined| else IvLength
  {
    if |combined| < IvLength then (combined, []) else (combined[..IvLength], combined[IvLength..])
  }

  /** Splitting a framed buffer gives back the iv and the AES-GCM output unchanged. */
  lemma SplitInvertsFrame(iv: seq<Byte>, encrypted: seq<Byte>)
    requires |iv| == IvLength
    ensures SplitFrame(iv + encrypted) == (iv, encrypted)
  {
    var parts := SplitFrame(iv + encrypted);
    assert parts.0 == (iv + encrypted)[..IvLength] == iv;
  }

  // ---------------------------------------------------------- encryption

  /**
   * What encryptContent returns once the iv has been drawn: importKey's
   * refusal, or a blob whose base64 decodes to the iv followed by the AES-GCM
   * output for the UTF-8 bytes of the content.
   */
  function Encrypt(aead: Aead, text: TextCodec, content: string, keyHex: string, iv: seq<Byte>)
    : (r: Result<string, CryptoError>)
    ensures r.Failure? ==> r.error == KeyImportRejected
    ensures r.Success? ==>
      Base64.Decode(r.value) == Some(iv + aead.encrypt(HexDecode(keyHex), iv, text.encode(content)))
  {
    var keyBytes := HexDecode(keyHex);
    if !aead.importKey(keyBytes) then Failure(KeyImportRejected)
    else
      var framed := iv + aead.encrypt(keyBytes, iv, text.encode(content));
      Base64.DecodeEncode(framed);
      Success(Base64.Encode(framed))
  }

  /**
   * encryptContent: import the hex key, draw a 12-byte iv, encrypt the UTF-8
   * bytes, frame iv ‖ output and base64 it. A key that does not import makes
   * the call fail with importKey's own error; nothing is caught.
   */
  method EncryptContent(aead: Aead, text: TextCodec, content: string, keyHex: string, entropy: seq<Byte>)
    returns (r: Result<string, CryptoError>)
    requires |entropy| == IvLength
    ensures r == Encrypt(aead, text, content, keyHex, entropy)
    ensures r.Failure? <==> !aead.importKey(HexDecode(keyHex))
    ensures aead.Valid() && text.Valid() && r.Success? ==>
      && DecryptContent(aead, text, r.value, keyHex) == Success(StripBom(content))
      && DecryptContentKeepingBom(aead, text, r.value, keyHex) == Success(content)
  {
    var keyBytes := HexDecode(keyHex);
    if !aead.importKey(keyBytes) {
      return Failure(KeyImportRejected);
    }
    var iv := new Byte[IvLength];
    GetRandomValues(iv, entropy);
    var data := text.encode(content);
    var encrypted := aead.encrypt(keyBytes, iv[..], data);
    var combined := Combine(iv, encrypted);
    r := Success(Base64.Encode(combined[..]));
    if aead.Valid() && text.Valid() {
      DecryptInvertsEncrypt(aead, text, content, keyHex, entropy);
      DecryptKeepingBomInvertsEncrypt(aead, text, content, keyHex, entropy);
    }
  }

  // ---------------------------------------------------------- decryption

  /**
   * The byte-level part of decryptContent: import the hex key, base64-decode,
   * split at byte 12, authenticate and decrypt. Every failure on the way is
   * replaced by one error with one message.
   */
  function DecryptBytes(aead: Aead, encryptedBase64: string, keyHex: string)
    : (r: Result<seq<Byte>, CryptoError>)
    ensures r.Failure? ==> r.error == DecryptionFailed(DecryptionFailedMessage)
    ensures !aead.importKey(HexDecode(keyHex)) ==> r == Failure(DecryptionFailed(DecryptionFailedMessage))
  {
    var keyBytes := HexDecode(keyHex);
    if !aead.importKey(keyBytes) then Failure(DecryptionFailed(DecryptionFailedMessage))
    else
      match Base64.Decode(encryptedBase64)
      case None => Failure(DecryptionFailed(DecryptionFailedMessage))
      case Some(combined) =>
        var (iv, ciphertext) := SplitFrame(combined);
        match aead.decrypt(keyBytes, iv, ciphertext)
        case None => Failure(DecryptionFailed(DecryptionFailedMessage))
        case Some(plain) => Success(plain)
  }

  /** decryptContent: DecryptBytes, then `new TextDecoder().decode`. */
  function DecryptContent(aead: Aead, text: TextCodec, encryptedBase64: string, keyHex: string)
    : (r: Result<string, CryptoError>)
    ensures r.Failure? ==> r.error == DecryptionFailed(DecryptionFailedMessage)
    ensures r.Success? <==> DecryptBytes(aead, encryptedBase64, keyHex).Success?
  {
    match DecryptBytes(aead, encryptedBase64, keyHex)
    case Failure(e) => Failure(e)
    case Success(plain) => Success(text.Decode(plain))
  }

  /**
   * decryptContent with the decoder built as `new TextDecoder('utf-8',
   * { ignoreBOM: true })`, which keeps a leading U+FEFF.
   */
  function DecryptContentKeepingBom(aead: Aead, text: TextCodec, encryptedBase64: string, keyHex: string)
    : (r: Result<string, CryptoError>)
    ensures r.Failure? ==> r.error == DecryptionFailed(DecryptionFailedMessage)
    ensures r.Success? <==> DecryptBytes(aead, encryptedBase64, keyHex).Success?
  {
    match DecryptBytes(aead, encryptedBase64, keyHex)
    case Failure(e) => Failure(e)
    case Success(plain) => Success(text.decodeUtf8(plain))
  }

  // -------------------------------------------------------------- lemmas

  /**
   * The encrypted blob decodes to 12 + |utf8(content)| + 16 bytes: the iv,
   * then the AES-GCM output, unchanged.
   */
  lemma EncryptedLayout(aead: Aead, text: TextCodec, content: string, keyHex: string, iv: seq<Byte>)
    requires aead.Valid() && |iv| == IvLength
    requires aead.importKey(HexDecode(keyHex))
    ensures Encrypt(aead, text, content, keyHex, iv).Success?
    ensures var blob := Base64.Decode(Encrypt(aead, text, content, keyHex, iv).value);
      && blob.Some?
      && |blob.value| == IvLength + |text.encode(content)| + TagLength
      && blob.value[..IvLength] == iv
      && blob.value[IvLength..] == aead.encrypt(HexDecode(keyHex), iv, text.encode(content))
  {
    var framed := iv + aead.encrypt(HexDecode(keyHex), iv, text.encode(content));
    Base64.DecodeEncode(framed);
  }

  /** Under the same key, the byte-level decryption gives back the UTF-8 bytes that were encrypted. */
  lemma DecryptBytesInvertsEncrypt(aead: Aead, text: TextCodec, content: string, keyHex: string, iv: seq<Byte>)
    requires aead.Valid() && |iv| == IvLength
    requires aead.importKey(HexDecode(keyHex))
    ensures Encrypt(aead, text, content, keyHex, iv).Success?
    ensures DecryptBytes(aead, Encrypt(aead, text, content, keyHex, iv).value, keyHex)
         == Success(text.encode(content))
  {
    var keyBytes := HexDecode(keyHex);
    var encrypted := aead.encrypt(keyBytes, iv, text.encode(content));
    Base64.DecodeEncode(iv + encrypted);
    SplitInvertsFrame(iv, encrypted);
  }

  /**
   * decryptContent undoes encryptContent under the same key, except that a
   * leading U+FEFF of the content is lost: content not starting with one
   * comes back unchanged.
   */
  lemma DecryptInvertsEncrypt(aead: Aead, text: TextCodec, content: string, keyHex: string, iv: seq<Byte>)
    requires aead.Valid() && text.Valid() && |iv| == IvLength
    requires aead.importKey(HexDecode(keyHex))
    ensures Encrypt(aead, text, content, keyHex, iv).Success?
    ensures DecryptContent(aead, text, Encrypt(aead, text, content, keyHex, iv).value, keyHex)
         == Success(StripBom(content))
    ensures content == [] || content[0] != ByteOrderMark ==>
      DecryptContent(aead, text, Encrypt(aead, text, content, keyHex, iv).value, keyHex) == Success(content)
  {
    DecryptBytesInvertsEncrypt(aead, text, content, keyHex, iv);
  }

  /** Content that starts with U+FEFF does not survive the round trip: "\uFEFFhi" comes back as "hi". */
  lemma BomDroppedOnRoundTrip(aead: Aead, text: TextCodec, keyHex: string, iv: seq<Byte>)
    requires aead.Valid() && text.Valid() && |iv| == IvLength
    requires aead.importKey(HexDecode(keyHex))
    ensures var content := [ByteOrderMark] + "hi";
      && Encrypt(aead, text, content, keyHex, iv).Success?
      && DecryptContent(aead, text, Encrypt(aead, text, content, keyHex, iv).value, keyHex) == Success("hi")
      && DecryptContent(aead, text, Encrypt(aead, text, content, keyHex, iv).value, keyHex) != Success(content)
  {
    var content := [ByteOrderMark] + "hi";
    DecryptInvertsEncrypt(aead, text, content, keyHex, iv);
    assert StripBom(content) == "hi";
    assert |content| != |"hi"|;
  }

  /** With a decoder that keeps the byte order mark, decryption undoes encryption for every content. */
  lemma DecryptKeepingBomInvertsEncrypt(aead: Aead, text: TextCodec, content: string, keyHex: string, iv: seq<Byte>)
    requires aead.Valid() && text.Valid() && |iv| == IvLength
    requires aead.importKey(HexDecode(keyHex))
    ensures Encrypt(aead, text, content, keyHex, iv).Success?
    ensures DecryptContentKeepingBom(aead, text, Encrypt(aead, text, content, keyHex, iv).value, keyHex)
         == Success(content)
  {
    DecryptBytesInvertsEncrypt(aead, text, content, keyHex, iv);
  }

  /** A key from generateEncryptionKey always imports, so the round trip always closes. */
  lemma GeneratedKeyRoundTrip(aead: Aead, text: TextCodec, content: string, key: seq<Byte>, iv: seq<Byte>)
    requires aead.Valid() && text.Valid()
    requires |key| == KeyLength && |iv| == IvLength
    ensures Encrypt(aead, text, content, HexEncode(key), iv).Success?
    ensures DecryptContent(aead, text, Encrypt(aead, text, content, HexEncode(key), iv).value, HexEncode(key))
         == Success(StripBom(content))
    ensures DecryptContentKeepingBom(aead, text, Encrypt(aead, text, content, HexEncode(key), iv).value, HexEncode(key))
         == Success(content)
  {
    HexDecodeEncode(key);
    DecryptInvertsEncrypt(aead, text, content, HexEncode(key), iv);
    DecryptKeepingBomInvertsEncrypt(aead, text, content, HexEncode(key), iv);
  }

  /** A blob shorter than an iv plus a tag can never decrypt. */
  lemma ShortBlobRejected(aead: Aead, text: TextCodec, encryptedBase64: string, keyHex: string)
    requires aead.Valid()
    requires Base64.Decode(encryptedBase64).Some?
    requires |Base64.Decode(encryptedBase64).value| < IvLength + TagLength
    ensures DecryptContent(aead, text, encryptedBase64, keyHex)
         == Failure(DecryptionFailed(DecryptionFailedMessage))
  {
    var combined := Base64.Decode(encryptedBase64).value;
    var (iv, ciphertext) := SplitFrame(combined);
    assert |ciphertext| < TagLength;
  }

  /** A key that `importKey` rejects is reported with the single error. */
  lemma RejectedKeyRejected(aead: Aead, text: TextCodec, encryptedBase64: string, keyHex: string)
    requires !aead.importKey(HexDecode(keyHex))
    ensures DecryptContent(aead, text, encryptedBase64, keyHex)
         == Failure(DecryptionFailed(DecryptionFailedMessage))
    ensures DecryptContentKeepingBom(aead, text, encryptedBase64, keyHex)
         == Failure(DecryptionFailed(DecryptionFailedMessage))
  {
  }

  /** A blob that does not authenticate under the key is reported with the single error. */
  lemma AuthenticationFailureRejected(aead: Aead, text: TextCodec, encryptedBase64: string, keyHex: string)
    requires aead.importKey(HexDecode(keyHex))
    requires Base64.Decode(encryptedBase64).Some?
    requires var (iv, ciphertext) := SplitFrame(Base64.Decode(encryptedBase64).value);
      aead.decrypt(HexDecode(keyHex), iv, ciphertext).None?
    ensures DecryptContent(aead, text, encryptedBase64, keyHex)
         == Failure(DecryptionFailed(DecryptionFailedMessage))
    ensures DecryptContentKeepingBom(aead, text, encryptedBase64, keyHex)
         == Failure(DecryptionFailed(DecryptionFailedMessage))
  {
  }

  /** Malformed base64 is reported with the same single error. */
  lemma BadBase64Rejected(aead: Aead, text: TextCodec, encryptedBase64: string, keyHex: string)
    requires Base64.Decode(encryptedBase64).None?
    ensures DecryptContent(aead, text, encryptedBase64, keyHex)
         == Failure(DecryptionFailed(DecryptionFailedMessage))
  {
  }
}
