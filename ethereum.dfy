/**
 * lib/utils/ethereum.ts: the Ethereum address of a public key, as in
 * Appendix F of the Ethereum Yellow Paper: the last 20 bytes of the
 * Keccak-256 digest of the key bytes, written as "0x" and 40 lower-case hex
 * digits. Keccak-256 (from @noble/hashes) is a parameter.
 */
module Ethereum {
  import opened Hex

  /** A Keccak-256 digest. */
  type Digest = d: seq<Byte> | |d| == 32 witness seq(32, _ => 0)

  const AddressLength := 20

  /** `s.replace(/^0x/, '')`: one lower-case "0x" at the very start, if any. */
  function StripHexPrefix(s: string): (r: string)
    ensures r == s || "0x" + r == s
  {
    if |s| >= 2 && s[..2] == "0x" then s[2..] else s
  }

  /** publicKeyToEthereumAddress. */
  function PublicKeyToEthereumAddress(keccak256: seq<Byte> -> Digest, publicKeyHex: string)
    : (address: string)
    ensures |address| == 2 + 2 * AddressLength
    ensures address[..2] == "0x"
    ensures forall i :: 2 <= i < |address| ==> IsLowerHexDigit(address[i])
    ensures HexDecode(address[2..])
         == keccak256(HexDecode(StripHexPrefix(publicKeyHex)))[32 - AddressLength..]
  {
    var cleanKey := StripHexPrefix(publicKeyHex);
    var publicKeyBytes := HexDecode(cleanKey);
    var hash := keccak256(publicKeyBytes);
    var addressBytes := hash[|hash| - AddressLength..];
    var address := "0x" + HexEncode(addressBytes);
    assert address[2..] == HexEncode(addressBytes);
    HexDecodeEncode(addressBytes);
    address
  }

  /** Address byte `i` is digest byte 12 + i, rendered as two zero-padded lower-case digits. */
  lemma AddressByteRendering(keccak256: seq<Byte> -> Digest, publicKeyHex: string, i: nat)
    requires i < AddressLength
    ensures var digest := keccak256(HexDecode(StripHexPrefix(publicKeyHex)));
      && PublicKeyToEthereumAddress(keccak256, publicKeyHex)[2 + 2 * i]
         == DigitChar(digest[32 - AddressLength + i] / 16)
      && PublicKeyToEthereumAddress(keccak256, publicKeyHex)[3 + 2 * i]
         == DigitChar(digest[32 - AddressLength + i] % 16)
  {
    var digest := keccak256(HexDecode(StripHexPrefix(publicKeyHex)));
    var addressBytes := digest[32 - AddressLength..];
    HexEncodeAt(addressBytes, i);
    assert PublicKeyToEthereumAddress(keccak256, publicKeyHex) == "0x" + HexEncode(addressBytes);
  }

  /** Only one lower-case "0x" is removed: a second one, or "0X", stays. */
  lemma StripHexPrefixOnce(h: string)
    ensures StripHexPrefix("0x" + h) == h
    ensures StripHexPrefix("0X" + h) == "0X" + h
  {
    assert ("0x" + h)[..2] == "0x";
    assert ("0X" + h)[..2] != "0x";
  }

  /** With or without the "0x" prefix a key gives the same address. */
  lemma PrefixIsOptional(keccak256: seq<Byte> -> Digest, h: string)
    requires !(|h| >= 2 && h[..2] == "0x")
    ensures PublicKeyToEthereumAddress(keccak256, "0x" + h) == PublicKeyToEthereumAddress(keccak256, h)
  {
    StripHexPrefixOnce(h);
    assert StripHexPrefix(h) == h;
  }

  /** The empty key, or "0x" alone, hashes the empty byte sequence. */
  lemma EmptyKeyHashesNothing(keccak256: seq<Byte> -> Digest)
    ensures PublicKeyToEthereumAddress(keccak256, "")
         == "0x" + HexEncode(keccak256([])[32 - AddressLength..])
    ensures PublicKeyToEthereumAddress(keccak256, "0x") == PublicKeyToEthereumAddress(keccak256, "")
  {
    assert StripHexPrefix("") == "";
    assert StripHexPrefix("0x") == "" by {
      assert "0x"[..2] == "0x" && "0x"[2..] == "";
    }
    EmptyDecodesEmpty();
  }
}
