# Nostec client core, modelled in Dafny

Nostec is a browser client for a small messaging demo: users hold a
secp256k1 keypair, may register a username under an ENS name, and post
plain or encrypted messages to a shared feed. Almost all of the repository
is React UI and thin HTTP/database clients. This project models the three
pieces of deterministic byte and string handling that the rest relies on:

- **Post encryption** (`lib/crypto/encryption.ts`): a content key is 32
  random bytes written as 64 lower-case hex digits; an encrypted post is
  `base64(iv ‖ AES-GCM output)` with a 12-byte random iv (NIST SP 800-38D,
  section 8.2.2) and a 16-byte tag; decryption splits at byte 12 and turns
  every failure into the one error "Decryption failed - invalid key or
  corrupted data". Modules `Hex`, `Base64` and `Encryption`.
- **Ethereum address derivation** (`lib/utils/ethereum.ts`): strip one
  leading `0x`, hex-decode, hash with Keccak-256, keep the last 20 bytes and
  write them as `0x` plus 40 lower-case hex digits (Ethereum Yellow Paper,
  Appendix F). Module `Ethereum`.
- **Username format check** (`lib/services/namespace.ts`):
  `checkUsernameAvailability` tests `/^[a-z0-9-]{3,20}$/` and performs no
  lookup. Module `Namespace`.

The hex codec is written inline in both of the first two files; it is
defined once, in `Hex`. Its decoder is modelled as JavaScript runs it:
`match(/.{1,2}/g)` over UTF-16 code units (`.` skips line terminators), then
`parseInt(_, 16)` (leading white space, an optional sign, an optional
`0x`/`0X`, then the longest run of hex digits; none is NaN), then the
Uint8Array conversion (NaN stores 0, other values wrap modulo 256). So
`"zz"` decodes to `[0]`, `"1g"` to `[1]` and `"-a"` to `[246]`. Base64 is
`btoa` (section 4 of RFC 4648, with padding) and `atob` (the WHATWG
forgiving-base64 decode: white space dropped, padding optional, unused low
bits ignored).

Foreign operations are parameters, never axioms: `Encryption.Aead` holds
the Web Crypto `importKey`/`encrypt`/`decrypt` of AES-GCM and
`Encryption.TextCodec` holds `TextEncoder`/`TextDecoder`; each has a
`Valid()` predicate naming exactly what the proofs assume (256-bit keys
import; output = plaintext length + 16; decryption under the same key and
iv recovers the plaintext; input shorter than a tag never authenticates;
plain UTF-8 decoding inverts encoding). The decoder `decryptContent` builds,
`new TextDecoder()`, keeps the default `ignoreBOM: false` and so drops one
U+FEFF at the start of the decoded text; `TextCodec.Decode` writes that rule
out on top of plain UTF-8 decoding, and the round-trip lemmas state it. Keccak-256 is a function parameter
returning a 32-byte `Ethereum.Digest`. The random source is a parameter
holding the bytes `crypto.getRandomValues` would write. All functions are
deterministic, which covers the "same input, same address" and "result
depends only on the string" properties.

`generateEncryptionKey` and `encryptContent` fill byte arrays in place
(`getRandomValues`, `combined.set(iv, 0)`, `combined.set(…, iv.length)`),
so they are methods over `array<Byte>`; decryption, the codecs, address
derivation and the username check are functions.

No modelled file wraps or unwraps content keys for subscribers:
components/event-card.tsx:39 passes `decryptContent` a key the reader types
in. The model has no key wrapping.

## Model

| member | source | states |
|---|---|---|
| `Hex.ByteToHex` | lib/crypto/encryption.ts:13 | `toString(16).padStart(2, '0')` is always two lower-case digits, high nibble first, zero-padded |
| `Hex.HexEncode` | lib/crypto/encryption.ts:12-14 | the encoding is twice as long as the bytes and every character is a lower-case hex digit |
| `Hex.HexEncodeAt` | lib/crypto/encryption.ts:12-14 | byte `i` appears at characters `2i` and `2i+1`, in order |
| `Hex.Chunks` | lib/crypto/encryption.ts:24 | every match of `/.{1,2}/g` has one or two code units, and there are never more matches than code units |
| `Hex.ChunksSplitAtTerminator` | lib/crypto/encryption.ts:24 | a line terminator ends the match in progress and is itself skipped: the matches in `a ‖ t ‖ b` are those of `a` followed by those of `b` |
| `Hex.ChunksArePairs` | lib/crypto/encryption.ts:24 | without line terminators the matches are consecutive pairs from the left, the last one single for odd length, `(n+1)/2` of them |
| `Hex.ParseIntHex` | lib/crypto/encryption.ts:24 | `parseInt(_, 16)` of text containing no hex digit is NaN, whatever white space, sign or `0x` it holds |
| `Hex.ToUint8` | lib/crypto/encryption.ts:23-25 | the Uint8Array stores NaN as 0, keeps a value in 0..255, and stores any other value as the byte congruent to it modulo 256 |
| `Hex.HexDecode` | lib/crypto/encryption.ts:23-25 | never more bytes than UTF-16 code units, and text with no hex digit decodes to zeros only (so `"zz"` gives `[0]`) |
| `Hex.ParsePair` | lib/crypto/encryption.ts:24 | `parseInt` of two hex digits is `16·high + low` |
| `Hex.ParseSingle` | lib/crypto/encryption.ts:24 | `parseInt` of one hex digit is its value |
| `Hex.HexDecodeDigits` | lib/crypto/encryption.ts:23-25 | on a string of hex digits of either case, byte `i` comes from characters `2i`, `2i+1`; an odd-length string ends in a one-digit byte |
| `Hex.HexDecodeEncode` | lib/crypto/encryption.ts:23-25 | decoding the encoding of any bytes returns those bytes |
| `Hex.HexDecodeIgnoresCase` | lib/crypto/encryption.ts:24 | upper- and lower-case digits decode to the same bytes |
| `Hex.EmptyDecodesEmpty` | lib/crypto/encryption.ts:24 | no match (`null`) gives the empty byte array |
| `Hex.DigitPrefixIsRead` | lib/crypto/encryption.ts:24 | `parseInt` reads a digit prefix: `"1g"` gives 1 |
| `Hex.NegativePairWraps` | lib/crypto/encryption.ts:23-24 | a leading `-` is honoured and the Uint8Array wraps `-10` to 246 |
| `Hex.LineTerminatorSplits` | lib/crypto/encryption.ts:23-25 | decoding `a + t + b` with `t` a line feed, carriage return, U+2028 or U+2029 gives the decoding of `a` followed by that of `b` |
| `Hex.LineFeedIsSkipped` | lib/crypto/encryption.ts:24 | the instance `"a\nbc"` decodes to `[10, 0xbc]`: the `a` before the line feed is read as a one-digit byte |
| `Base64.EncodeGroups` | lib/crypto/encryption.ts:55 | each 3 bytes become 4 alphabet characters; a final 1 or 2 bytes become 2 or 3 |
| `Base64.Encode` | lib/crypto/encryption.ts:55 | `btoa` output is padded to a multiple of 4: `4·⌈n/3⌉` characters |
| `Base64.RemoveWhitespace` | lib/crypto/encryption.ts:79 | no ASCII white space remains, and the text never grows |
| `Base64.RemoveWhitespaceAppend` | lib/crypto/encryption.ts:79 | white space is removed piece by piece: the result for `a ‖ b` is the result for `a` followed by that for `b`, so the order of what is kept is preserved |
| `Base64.RemoveWhitespaceKeeps` | lib/crypto/encryption.ts:79 | every character that is not white space is kept, at the index that counts the characters kept before it |
| `Base64.StripPadding` | lib/crypto/encryption.ts:79 | the result is a prefix of the input missing at most two characters, all of them `=`; nothing is removed unless the length is a multiple of 4 |
| `Base64.DecodeGroupsLength` | lib/crypto/encryption.ts:79 | `atob` yields 3 bytes per 4 characters and 1 or 2 for a final 2 or 3 |
| `Base64.Decode` | lib/crypto/encryption.ts:79 | `atob` yields at most 3 bytes per 4 input characters, and rejects alphabet-only input of length `4k+1` |
| `Base64.ForeignCharacterRejected` | lib/crypto/encryption.ts:79 | a character that is neither white space, nor in the alphabet, nor `=` makes `atob` throw, wherever it stands (so `"QQ!!"` is rejected) |
| `Base64.DecodeOfAlphabet` | lib/crypto/encryption.ts:79 | alphabet-only input of an accepted length is decoded group by group, with no white space or padding step changing it |
| `Base64.DecodeGroupsAfterGroups` | lib/crypto/encryption.ts:79 | whole 4-character groups and whatever follows them decode independently |
| `Base64.FinalGroupDecodes` | lib/crypto/encryption.ts:79 | after whole groups, a final group of 2 or 3 characters is accepted and decoded on its own |
| `Base64.StripPaddingOfEncode` | lib/crypto/encryption.ts:79 | the padding rule of `atob` removes exactly the padding `btoa` added |
| `Base64.DecodeEncode` | lib/crypto/encryption.ts:79 | `atob(btoa(bytes))` gives back the bytes, for every byte sequence |
| `Base64.MissingPaddingAccepted` | lib/crypto/encryption.ts:79 | the unpadded encoding of any bytes decodes to those bytes |
| `Base64.WhitespaceIgnored` | lib/crypto/encryption.ts:79 | inserting an ASCII white space character anywhere leaves the result, success or failure, unchanged |
| `Base64.TrailingBitsIgnored` | lib/crypto/encryption.ts:79 | after whole groups, a final 2 or 3 characters whose last one differs only in its unused low 4 or 2 bits decode to the same result |
| `Base64.LoneCharacterRejected` | lib/crypto/encryption.ts:79 | one alphabet character after whole groups makes `atob` throw |
| `Base64.TooMuchPaddingRejected` | lib/crypto/encryption.ts:79 | alphabet characters followed by `===` make `atob` throw |
| `Base64.Rfc4648PaddedVectors` | lib/crypto/encryption.ts:55 | `btoa` of "", "f" and "fo" gives "", "Zg==" and "Zm8=", the padded vectors of section 10 of RFC 4648 |
| `Base64.Rfc4648GroupVector` | lib/crypto/encryption.ts:55 | `btoa` of "foo" gives "Zm9v", the whole-group vector of section 10 of RFC 4648 |
| `Encryption.GetRandomValues` | lib/crypto/encryption.ts:11 | the array holds exactly the random source's bytes |
| `Encryption.GenerateEncryptionKey` | lib/crypto/encryption.ts:9-15 | 64 lower-case hex digits, byte `i` as two zero-padded digits at `2i`, and the key hex-decodes to exactly the 32 random bytes |
| `Encryption.SetAt` | lib/crypto/encryption.ts:51-52 | `set(source, offset)` overwrites exactly `[offset, offset+len)` and leaves the rest unchanged |
| `Encryption.Combine` | lib/crypto/encryption.ts:50-52 | the new buffer is `iv ‖ output`: bytes `[0,12)` are the iv, the rest the AES-GCM output unchanged |
| `Encryption.Encrypt` | lib/crypto/encryption.ts:21-56 | a failure is only `importKey`'s rejection, and a result base64-decodes to the iv followed by the AES-GCM output for the UTF-8 bytes of the content |
| `Encryption.EncryptContent` | lib/crypto/encryption.ts:21-56 | the result is base64 of iv ‖ AES-GCM(key, iv, utf8(content)); it fails exactly when `importKey` rejects the decoded key, with that error; under the AES-GCM and UTF-8 assumptions `decryptContent` returns the content less one leading U+FEFF, and a BOM-keeping decoder returns the content itself |
| `Encryption.SplitFrame` | lib/crypto/encryption.ts:82-83 | the two slices partition the buffer; the first has 12 bytes, or all of a shorter buffer |
| `Encryption.SplitInvertsFrame` | lib/crypto/encryption.ts:82-83 | splitting `iv ‖ output` with a 12-byte iv gives back `(iv, output)` |
| `Encryption.DecryptBytes` | lib/crypto/encryption.ts:62-90 | every failure (key import, base64, authentication) is the one error "Decryption failed - invalid key or corrupted data", and a key that `importKey` rejects always fails |
| `Encryption.TextCodec.Decode` | lib/crypto/encryption.ts:93-94 | `new TextDecoder().decode` is UTF-8 decoding with at most one leading U+FEFF removed, and it differs from plain UTF-8 decoding exactly when the decoded text starts with U+FEFF |
| `Encryption.DecryptContent` | lib/crypto/encryption.ts:62-99 | every failure is that one error, and it succeeds exactly when the byte-level decryption does: text decoding itself never fails |
| `Encryption.DecryptContentKeepingBom` | lib/crypto/encryption.ts:62-99 | the same single error and the same success condition, with the decoder built as `new TextDecoder('utf-8', { ignoreBOM: true })` |
| `Encryption.EncryptedLayout` | lib/crypto/encryption.ts:17-55 | the blob decodes to 12 + len(utf8(content)) + 16 bytes: the iv, then the AES-GCM output |
| `Encryption.DecryptBytesInvertsEncrypt` | lib/crypto/encryption.ts:21-90 | under the same key, decryption up to `crypto.subtle.decrypt` returns exactly the UTF-8 bytes that were encrypted |
| `Encryption.DecryptInvertsEncrypt` | lib/crypto/encryption.ts:62-94 | `decryptContent(encryptContent(c, k), k)` is `c` less one leading U+FEFF whenever `k` imports, so it is `c` itself when `c` does not start with U+FEFF |
| `Encryption.BomDroppedOnRoundTrip` | lib/crypto/encryption.ts:93-94 | content U+FEFF followed by "hi" comes back as "hi", not as itself |
| `Encryption.DecryptKeepingBomInvertsEncrypt` | lib/crypto/encryption.ts:93-94 | with a decoder that keeps the byte order mark, decryption returns every content unchanged |
| `Encryption.GeneratedKeyRoundTrip` | lib/crypto/encryption.ts:9-56 | a generated key always imports, so encryption succeeds and decryption returns the content less one leading U+FEFF (the content itself with a BOM-keeping decoder) |
| `Encryption.ShortBlobRejected` | lib/crypto/encryption.ts:81-90 | a blob shorter than 28 bytes cannot authenticate and yields the single error |
| `Encryption.BadBase64Rejected` | lib/crypto/encryption.ts:78-98 | malformed base64 yields the single error |
| `Encryption.RejectedKeyRejected` | lib/crypto/encryption.ts:64-98 | a key that `importKey` rejects yields the single error, with either decoder |
| `Encryption.AuthenticationFailureRejected` | lib/crypto/encryption.ts:78-98 | a blob that does not authenticate under the key yields the single error, with either decoder |
| `Ethereum.PublicKeyToEthereumAddress` | lib/utils/ethereum.ts:8-27 | the address is `0x` plus 40 lower-case hex digits (42 characters) and hex-decodes to the last 20 bytes of the Keccak-256 digest of the decoded key |
| `Ethereum.AddressByteRendering` | lib/utils/ethereum.ts:21-24 | address byte `i` is digest byte `12+i`, written as two zero-padded lower-case digits |
| `Ethereum.StripHexPrefix` | lib/utils/ethereum.ts:10 | at most one `0x` is removed, and only from the front |
| `Ethereum.StripHexPrefixOnce` | lib/utils/ethereum.ts:10 | one lower-case `0x` is removed; a second `0x`, or `0X`, stays |
| `Ethereum.PrefixIsOptional` | lib/utils/ethereum.ts:10-15 | `"0x" + h` and `h` give the same address when `h` does not start with `0x` |
| `Ethereum.EmptyKeyHashesNothing` | lib/utils/ethereum.ts:10-18 | the empty key and `"0x"` hash the empty byte sequence |
| `Namespace.RepeatThenEnd` | lib/services/namespace.ts:64 | the backtracking match of `[a-z0-9-]{3,20}$` succeeds exactly when the remaining length is in range and every remaining character is in the class |
| `Namespace.SearchFrom` | lib/services/namespace.ts:64-65 | `^` without the m flag: `test` succeeds, from whatever start, only through the match at position 0 |
| `Namespace.CheckUsernameAvailability` | lib/services/namespace.ts:61-66 | `true` exactly when the length is 3 to 20 and every character is `a-z`, `0-9` or `-`; no lookup |
| `Namespace.ForeignCharacterRefused` | lib/services/namespace.ts:64 | any upper-case letter, space, `.`, `_` or newline (trailing ones included) gives `false` |
| `Namespace.HyphensAccepted` | lib/services/namespace.ts:64-65 | `---` and `-a-` are accepted: hyphens may lead, trail or fill the name |
| `Namespace.LengthBoundsInclusive` | lib/services/namespace.ts:64-65 | for a name made of class characters, the result is `true` exactly when its length is 3 to 20, both bounds included |

## Findings

| source | as written | input that shows it | evidently intended | confidence | as-written member | corrected member |
|---|---|---|---|---|---|---|
| lib/crypto/encryption.ts:93-94 | `new TextDecoder()` keeps `ignoreBOM: false`, so a U+FEFF at the start of the decrypted text is dropped | content U+FEFF followed by "hi" encrypts, then decrypts to "hi" | `decryptContent` returns exactly what `encryptContent` was given, as `new TextDecoder('utf-8', { ignoreBOM: true })` would | medium; not executed | `Encryption.BomDroppedOnRoundTrip` | `Encryption.DecryptKeepingBomInvertsEncrypt` |

`Encryption.DecryptContent` stays the model of the code as written;
`Encryption.DecryptContentKeepingBom` is the corrected decryption, and
`Encryption.EncryptContent` and `Encryption.GeneratedKeyRoundTrip` state the
round trip for both.

## Left out

- AES-GCM itself, `crypto.subtle.importKey` and its key-length rule: foreign (Web Crypto); they are the `Aead` parameter, and only the properties in `Aead.Valid()` are assumed.
- Wrong-key rejection and tamper detection: these are probabilistic properties of AES-GCM's tag and are not stated.
- `TextEncoder`/`TextDecoder`: foreign; they are the `TextCodec` parameter, plain UTF-8 encoding and decoding, with the default decoder's removal of one leading U+FEFF written out in `TextCodec.Decode`. Dafny strings cannot hold lone UTF-16 surrogates, which `TextEncoder` would replace with U+FFFD, so the round trips are stated for strings of Unicode scalar values only; what the decoder makes of bytes that are not UTF-8 is left open.
- `crypto.getRandomValues`: the random bytes are a parameter; freshness and uniqueness of ivs and keys are not modelled.
- `keccak_256` from `@noble/hashes`: foreign; it is a parameter returning 32 bytes.
- `String.fromCharCode(...combined)`: JavaScript engines cap the number of spread arguments, so very large contents make `encryptContent` throw; the model has no such limit.
- `console.error` in `decryptContent`: logging only.
- Promises: the async functions are modelled as returning their settled result; a rejected promise is a `Failure`.
- Hex.HexDecodeIgnoresCase: stated only for strings made of hex digits, not for arbitrary strings.
- Namespace.CheckUsernameAvailability: counts characters rather than UTF-16 code units; they differ only for characters outside the Basic Multilingual Plane, which are never in the class, so the result is the same.
- `createENSSubname` (lib/services/namespace.ts:20-56) and the ENS routes: HTTP calls.
- Posts and subscriptions services: database I/O and realtime callbacks.
- Key generation and login in app/page.tsx: they call `@noble/secp256k1`, which is foreign.
- The placeholder event signing in lib/nostr/crypto.ts: it uses `Math.random` and `Date.now` and produces no signature.
- UI components, wallet and SDK wiring, configuration: rendering and glue with no modellable logic.
