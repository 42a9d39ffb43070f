/**
 * Base64 as the browser provides it: `btoa` encodes with the alphabet and
 * padding of section 4 of RFC 4648, and `atob` decodes with the WHATWG
 * "forgiving-base64 decode" algorithm, which drops ASCII white space, accepts
 * missing padding and ignores the unused low bits of the final character.
 *
 * lib/crypto/encryption.ts passes bytes through `String.fromCharCode` before
 * `btoa` and through `charCodeAt(0)` after `atob`; both are the identity
 * between a byte and a character below 256, so the model works on bytes.
 */
module Base64 {
  import opened Wrappers
  import opened Hex

  /** The value of one base64 character. */
  type Sextet = v: int | 0 <= v < 64

  /** Table 1 of RFC 4648. */
  function AlphabetChar(v: Sextet): (c: char)
    ensures IsAlphabetChar(c)
  {
    if v < 26 then ('A' as int + v) as char
    else if v < 52 then ('a' as int + v - 26) as char
    else if v < 62 then ('0' as int + v - 52) as char
    else if v == 62 then '+'
    else '/'
  }

  predicate IsAlphabetChar(c: char) {
    'A' <= c <= 'Z' || 'a' <= c <= 'z' || '0' <= c <= '9' || c == '+' || c == '/'
  }

  function AlphabetValue(c: char): (v: Sextet)
    requires IsAlphabetChar(c)
  {
    if 'A' <= c <= 'Z' then c as int - 'A' as int
    else if 'a' <= c <= 'z' then c as int - 'a' as int + 26
    else if '0' <= c <= '9' then c as int - '0' as int + 52
    else if c == '+' then 62
    else 63
  }

  lemma AlphabetRoundTrip(v: Sextet)
    ensures AlphabetValue(AlphabetChar(v)) == v
  {
  }

  // -------------------------------------------------------------- encoding

  /** One 24-bit group as four characters, most significant bits first. */
  function Quad(b0: Byte, b1: Byte, b2: Byte): string {
    [AlphabetChar(b0 / 4), AlphabetChar(b0 % 4 * 16 + b1 / 16),
     AlphabetChar(b1 % 16 * 4 + b2 / 64), AlphabetChar(b2 % 64)]
  }

  /** The final one or two bytes, zero-filled on the right to whole characters. */
  function Tail(bytes: seq<Byte>): string
    requires |bytes| < 3
  {
    if |bytes| == 2 then
      [AlphabetChar(bytes[0] / 4), AlphabetChar(bytes[0] % 4 * 16 + bytes[1] / 16),
       AlphabetChar(bytes[1] % 16 * 4)]
    else if |bytes| == 1 then
      [AlphabetChar(bytes[0] / 4), AlphabetChar(bytes[0] % 4 * 16)]
    else
      []
  }

  /** The characters a final group of `n` < 3 bytes needs: none, two or three. */
  function TailLength(n: nat): nat {
    if n == 0 then 0 else n + 1
  }

  /** The encoding without padding: each 24-bit group becomes four characters. */
  function EncodeGroups(bytes: seq<Byte>): (s: string)
    ensures forall i :: 0 <= i < |s| ==> IsAlphabetChar(s[i])
    decreases |bytes|
  {
    if |bytes| >= 3 then Quad(bytes[0], bytes[1], bytes[2]) + EncodeGroups(bytes[3..])
    else Tail(bytes)
  }

  lemma {:induction false} EncodeGroupsLength(bytes: seq<Byte>)
    ensures |EncodeGroups(bytes)| == 4 * (|bytes| / 3) + TailLength(|bytes| % 3)
    decreases |bytes|
  {
    if |bytes| >= 3 {
      EncodeGroupsLength(bytes[3..]);
    }
  }

  /** `btoa`: the groups, then "=" padding to a multiple of four characters. */
  function Encode(bytes: seq<Byte>): (s: string)
    ensures |s| == 4 * ((|bytes| + 2) / 3)
  {
    EncodeGroupsLength(bytes);
    PaddedLength(|bytes|);
    EncodeGroups(bytes) + (if |bytes| % 3 == 1 then "==" else if |bytes| % 3 == 2 then "=" else "")
  }

  lemma PaddedLength(n: nat)
    ensures 4 * (n / 3) + TailLength(n % 3) + (if n % 3 == 1 then 2 else if n % 3 == 2 then 1 else 0)
         == 4 * ((n + 2) / 3)
  {
    var q, r := n / 3, n % 3;
    assert n == 3 * q + r;
    assert (n + 2) / 3 == if r == 0 then q else q + 1;
  }

  // -------------------------------------------------------------- decoding

  /** ASCII white space as the WHATWG Infra standard defines it. */
  predicate IsAsciiWhitespace(c: char) {
    c == '\t' || c == '\n' || c == '\U{000C}' || c == '\r' || c == ' '
  }

  /** "Strip and collapse ASCII whitespace" as atob applies it: every white space character goes. */
  function RemoveWhitespace(s: string): (r: string)
    ensures forall i :: 0 <= i < |r| ==> !IsAsciiWhitespace(r[i])
    ensures |r| <= |s|
  {
    if s == [] then []
    else if IsAsciiWhitespace(s[0]) then RemoveWhitespace(s[1..])
    else [s[0]] + RemoveWhitespace(s[1..])
  }

  /**
   * When the length is a multiple of four, one or two trailing "=" are
   * dropped: the result is a prefix of `s` missing at most two characters,
   * all of them "=", and nothing is dropped from any other length.
   */
  function StripPadding(s: string): (r: string)
    ensures |s| - 2 <= |r| <= |s| && r == s[..|r|]
    ensures forall i :: |r| <= i < |s| ==> s[i] == '='
    ensures |s| % 4 != 0 ==> r == s
  {
    if |s| % 4 != 0 then s
    else if |s| >= 2 && s[|s| - 2..] == "==" then s[..|s| - 2]
    else if |s| >= 1 && s[|s| - 1] == '=' then s[..|s| - 1]
    else s
  }

  predicate AllAlphabet(s: string) {
    forall i :: 0 <= i < |s| ==> IsAlphabetChar(s[i])
  }

  /**
   * Concatenates six bits per character and emits each full byte; a final
   * run of 12 or 18 bits loses its last 4 or 2 bits.
   */
  function DecodeGroups(s: string): (bytes: seq<Byte>)
    requires AllAlphabet(s) && |s| % 4 != 1
    decreases |s|
  {
    if |s| >= 4 then
      var v0, v1, v2, v3 := AlphabetValue(s[0]), AlphabetValue(s[1]), AlphabetValue(s[2]), AlphabetValue(s[3]);
      [v0 * 4 + v1 / 16, v1 % 16 * 16 + v2 / 4, v2 % 4 * 64 + v3] + DecodeGroups(s[4..])
    else if |s| == 3 then
      var v0, v1, v2 := AlphabetValue(s[0]), AlphabetValue(s[1]), AlphabetValue(s[2]);
      [v0 * 4 + v1 / 16, v1 % 16 * 16 + v2 / 4]
    else if |s| == 2 then
      var v0, v1 := AlphabetValue(s[0]), AlphabetValue(s[1]);
      [v0 * 4 + v1 / 16]
    else
      []
  }

  /**
   * `atob`; None is the InvalidCharacterError it throws. Every four
   * characters give at most three bytes, and a run of alphabet characters one
   * longer than a multiple of four is rejected.
   */
  function Decode(s: string): (r: Option<seq<Byte>>)
    ensures r.Some? ==> 4 * |r.value| <= 3 * |s|
    ensures AllAlphabet(s) && |s| % 4 == 1 ==> r.None?
  {
    var data := StripPadding(RemoveWhitespace(s));
    RemoveWhitespaceOfAlphabet(s);
    if |data| % 4 == 1 || !AllAlphabet(data) then None
    else
      DecodeGroupsLength(data);
      DecodedLengthBound(|data|);
      Some(DecodeGroups(data))
  }

  /** Three bytes per group of four characters, and one fewer byte than characters in a final partial group. */
  lemma {:induction false} DecodeGroupsLength(s: string)
    requires AllAlphabet(s) && |s| % 4 != 1
    ensures |DecodeGroups(s)| == 3 * (|s| / 4) + (if |s| % 4 == 0 then 0 else |s| % 4 - 1)
    decreases |s|
  {
    if |s| >= 4 {
      assert AllAlphabet(s[4..]) by {
        assert forall i :: 0 <= i < |s[4..]| ==> s[4..][i] == s[i + 4];
      }
      ModFourAfterGroups(4, |s| - 4);
      DecodeGroupsLength(s[4..]);
    }
  }

  lemma DecodedLengthBound(n: nat)
    requires n % 4 != 1
    ensures 4 * (3 * (n / 4) + (if n % 4 == 0 then 0 else n % 4 - 1)) <= 3 * n
  {
    var q, t := n / 4, n % 4;
    assert n == 4 * q + t;
  }

  // ------------------------------------------------------------ round trip

  lemma GroupRoundTrip(b0: Byte, b1: Byte, b2: Byte)
    ensures (b0 / 4) * 4 + (b0 % 4 * 16 + b1 / 16) / 16 == b0
    ensures (b0 % 4 * 16 + b1 / 16) % 16 * 16 + (b1 % 16 * 4 + b2 / 64) / 4 == b1
    ensures (b1 % 16 * 4 + b2 / 64) % 4 * 64 + b2 % 64 == b2
  {
  }

  /** One group of four characters decodes to three bytes. */
  lemma DecodeQuad(q: string)
    requires |q| == 4 && AllAlphabet(q)
    ensures DecodeGroups(q) == [
      AlphabetValue(q[0]) * 4 + AlphabetValue(q[1]) / 16,
      AlphabetValue(q[1]) % 16 * 16 + AlphabetValue(q[2]) / 4,
      AlphabetValue(q[2]) % 4 * 64 + AlphabetValue(q[3])]
  {
    assert q[4..] == [];
  }

  /** The four characters of a group carry its four sextets. */
  lemma QuadSextets(b0: Byte, b1: Byte, b2: Byte)
    ensures var q := Quad(b0, b1, b2);
      AllAlphabet(q) &&
      AlphabetValue(q[0]) == b0 / 4 && AlphabetValue(q[1]) == b0 % 4 * 16 + b1 / 16 &&
      AlphabetValue(q[2]) == b1 % 16 * 4 + b2 / 64 && AlphabetValue(q[3]) == b2 % 64
  {
    AlphabetRoundTrip(b0 / 4);
    AlphabetRoundTrip(b0 % 4 * 16 + b1 / 16);
    AlphabetRoundTrip(b1 % 16 * 4 + b2 / 64);
    AlphabetRoundTrip(b2 % 64);
  }

  /** A group whose characters carry the sextets of three bytes decodes to those bytes. */
  lemma DecodeSextets(q: string, b0: Byte, b1: Byte, b2: Byte)
    requires |q| == 4 && AllAlphabet(q)
    requires AlphabetValue(q[0]) == b0 / 4 && AlphabetValue(q[1]) == b0 % 4 * 16 + b1 / 16
    requires AlphabetValue(q[2]) == b1 % 16 * 4 + b2 / 64 && AlphabetValue(q[3]) == b2 % 64
    ensures DecodeGroups(q) == [b0, b1, b2]
  {
    DecodeQuad(q);
    GroupRoundTrip(b0, b1, b2);
  }

  lemma QuadRoundTrip(b0: Byte, b1: Byte, b2: Byte)
    ensures AllAlphabet(Quad(b0, b1, b2))
    ensures DecodeGroups(Quad(b0, b1, b2)) == [b0, b1, b2]
  {
    QuadSextets(b0, b1, b2);
    DecodeSextets(Quad(b0, b1, b2), b0, b1, b2);
  }


  lemma TailRoundTrip(bytes: seq<Byte>)
    requires |bytes| < 3
    ensures AllAlphabet(Tail(bytes)) && |Tail(bytes)| % 4 != 1
    ensures DecodeGroups(Tail(bytes)) == bytes
  {
    if |bytes| == 2 {
      AlphabetRoundTrip(bytes[0] / 4);
      AlphabetRoundTrip(bytes[0] % 4 * 16 + bytes[1] / 16);
      AlphabetRoundTrip(bytes[1] % 16 * 4);
      GroupRoundTrip(bytes[0], bytes[1], 0);
    } else if |bytes| == 1 {
      AlphabetRoundTrip(bytes[0] / 4);
      AlphabetRoundTrip(bytes[0] % 4 * 16);
      GroupRoundTrip(bytes[0], 0, 0);
    }
  }

  /** Decoding splits after every four characters. */
  lemma DecodeGroupsAppend(q: string, rest: string)
    requires |q| == 4 && AllAlphabet(q) && AllAlphabet(rest) && |rest| % 4 != 1
    ensures AllAlphabet(q + rest)
    ensures DecodeGroups(q + rest) == DecodeGroups(q) + DecodeGroups(rest)
  {
    var s := q + rest;
    assert s[4..] == rest;
    assert q[4..] == [];
  }

  /** Decoding the unpadded groups gives the bytes back. */
  lemma {:induction false} DecodeEncodeGroups(bytes: seq<Byte>)
    ensures |EncodeGroups(bytes)| % 4 != 1 && DecodeGroups(EncodeGroups(bytes)) == bytes
    decreases |bytes|
  {
    GroupsLength(bytes);
    if |bytes| >= 3 {
      var rest := bytes[3..];
      var q := Quad(bytes[0], bytes[1], bytes[2]);
      QuadRoundTrip(bytes[0], bytes[1], bytes[2]);
      DecodeEncodeGroups(rest);
      DecodeGroupsAppend(q, EncodeGroups(rest));
      assert EncodeGroups(bytes) == q + EncodeGroups(rest);
      assert bytes == [bytes[0], bytes[1], bytes[2]] + rest;
    } else {
      TailRoundTrip(bytes);
    }
  }

  lemma {:induction false} RemoveWhitespaceOfAlphabet(s: string)
    ensures (forall i :: 0 <= i < |s| ==> IsAlphabetChar(s[i]) || s[i] == '=') ==> RemoveWhitespace(s) == s
  {
    if s != [] {
      RemoveWhitespaceOfAlphabet(s[1..]);
      assert forall i :: 1 <= i < |s| ==> s[1..][i - 1] == s[i];
    }
  }

  /** Kept apart so that the modular facts are proved outside the unfolding of EncodeGroups. */
  lemma ModStep(x: nat)
    ensures (x + 4) % 4 == x % 4 && (x + 3) % 3 == x % 3
  {
  }

  lemma {:induction false} GroupsLength(bytes: seq<Byte>)
    ensures |EncodeGroups(bytes)| % 4 == TailLength(|bytes| % 3)
    decreases |bytes|
  {
    if |bytes| >= 3 {
      var rest := bytes[3..];
      GroupsLength(rest);
      var l, lr := |EncodeGroups(bytes)|, |EncodeGroups(rest)|;
      assert l == 4 + lr;
      ModStep(lr);
      ModStep(|rest|);
    } else {
      assert |bytes| % 3 == |bytes|;
    }
  }

  lemma PaddedToFour(x: nat, k: nat)
    requires x % 4 + k == 4
    ensures (x + k) % 4 == 0
  {
    var q := x / 4;
    assert x + k == 4 * (q + 1);
  }

  lemma StripTwo(g: string)
    requires (|g| + 2) % 4 == 0
    ensures StripPadding(g + "==") == g
  {
    var s := g + "==";
    assert s[|s| - 2..] == "==";
    assert s[..|s| - 2] == g;
  }

  lemma StripOne(g: string)
    requires AllAlphabet(g) && |g| > 0 && (|g| + 1) % 4 == 0
    ensures StripPadding(g + "=") == g
  {
    var s := g + "=";
    assert s[|s| - 2] == g[|g| - 1];
    assert s[|s| - 2..] != "==";
    assert s[..|s| - 1] == g;
  }

  lemma StripNone(g: string)
    requires AllAlphabet(g)
    ensures StripPadding(g) == g
  {
    if |g| >= 2 {
      assert g[|g| - 2..][1] == g[|g| - 1];
    }
    if |g| >= 1 {
      assert IsAlphabetChar(g[|g| - 1]);
    }
  }

  lemma StripPaddingOfEncodeTwo(bytes: seq<Byte>)
    requires |bytes| % 3 == 1
    ensures StripPadding(Encode(bytes)) == EncodeGroups(bytes)
  {
    var groups := EncodeGroups(bytes);
    assert Encode(bytes) == groups + "==";
    assert (|groups| + 2) % 4 == 0 by {
      GroupsLength(bytes);
      PaddedToFour(|groups|, 2);
    }
    StripTwo(groups);
  }

  lemma StripPaddingOfEncodeOne(bytes: seq<Byte>)
    requires |bytes| % 3 == 2
    ensures StripPadding(Encode(bytes)) == EncodeGroups(bytes)
  {
    var groups := EncodeGroups(bytes);
    assert Encode(bytes) == groups + "=";
    assert |groups| > 0 && (|groups| + 1) % 4 == 0 by {
      GroupsLength(bytes);
      PaddedToFour(|groups|, 1);
    }
    StripOne(groups);
  }

  /** `atob`'s padding rule removes exactly the padding `btoa` added. */
  lemma StripPaddingOfEncode(bytes: seq<Byte>)
    ensures StripPadding(Encode(bytes)) == EncodeGroups(bytes)
  {
    if |bytes| % 3 == 1 {
      StripPaddingOfEncodeTwo(bytes);
    } else if |bytes| % 3 == 2 {
      StripPaddingOfEncodeOne(bytes);
    } else {
      StripPaddingOfEncodeNone(bytes);
    }
  }

  lemma StripPaddingOfEncodeNone(bytes: seq<Byte>)
    requires |bytes| % 3 == 0
    ensures StripPadding(Encode(bytes)) == EncodeGroups(bytes)
  {
    var g := EncodeGroups(bytes);
    assert Encode(bytes) == g by {
      assert g + "" == g;
    }
    StripNone(g);
  }

  /** `atob` inverts `btoa` on every byte sequence, padding included. */
  lemma DecodeEncode(bytes: seq<Byte>)
    ensures Decode(Encode(bytes)) == Some(bytes)
  {
    var groups := EncodeGroups(bytes);
    RemoveWhitespaceOfAlphabet(Encode(bytes));
    StripPaddingOfEncode(bytes);
    GroupsLength(bytes);
    assert AllAlphabet(groups);
    DecodeEncodeGroups(bytes);
  }

  /** Text made only of alphabet characters, of a length atob accepts, decodes group by group. */
  lemma DecodeOfAlphabet(s: string)
    requires AllAlphabet(s) && |s| % 4 != 1
    ensures Decode(s) == Some(DecodeGroups(s))
  {
    RemoveWhitespaceOfAlphabet(s);
    StripNone(s);
  }

  /** Padding may be left out: the unpadded encoding of any bytes decodes to them. */
  lemma MissingPaddingAccepted(bytes: seq<Byte>)
    ensures Decode(EncodeGroups(bytes)) == Some(bytes)
  {
    DecodeEncodeGroups(bytes);
    DecodeOfAlphabet(EncodeGroups(bytes));
  }

  lemma {:induction false} RemoveWhitespaceAppend(a: string, b: string)
    ensures RemoveWhitespace(a + b) == RemoveWhitespace(a) + RemoveWhitespace(b)
  {
    if a == [] {
      assert a + b == b;
    } else {
      assert (a + b)[0] == a[0] && (a + b)[1..] == a[1..] + b;
      RemoveWhitespaceAppend(a[1..], b);
    }
  }

  /**
   * Every other character is kept, in order: the character at index `i` of
   * `s` lands at the index that counts the characters kept before it.
   */
  lemma RemoveWhitespaceKeeps(s: string, i: nat)
    requires i < |s| && !IsAsciiWhitespace(s[i])
    ensures |RemoveWhitespace(s[..i])| < |RemoveWhitespace(s)|
    ensures RemoveWhitespace(s)[|RemoveWhitespace(s[..i])|] == s[i]
  {
    assert s == s[..i] + s[i..];
    RemoveWhitespaceAppend(s[..i], s[i..]);
    assert s[i..][0] == s[i];
  }

  /**
   * A character that is neither white space, nor in the alphabet, nor "="
   * makes `atob` throw, wherever it stands.
   */
  lemma ForeignCharacterRejected(s: string, i: nat)
    requires i < |s| && !IsAsciiWhitespace(s[i]) && !IsAlphabetChar(s[i]) && s[i] != '='
    ensures Decode(s).None?
  {
    var kept := RemoveWhitespace(s);
    var data := StripPadding(kept);
    var k := |RemoveWhitespace(s[..i])|;
    RemoveWhitespaceKeeps(s, i);
    assert k < |data|;
    assert data[k] == s[i];
    assert !AllAlphabet(data);
  }

  /** ASCII white space anywhere is dropped before the padding is looked at. */
  lemma WhitespaceIgnored(a: string, w: char, b: string)
    requires IsAsciiWhitespace(w)
    ensures Decode(a + [w] + b) == Decode(a + b)
  {
    RemoveWhitespaceAppend(a + [w], b);
    RemoveWhitespaceAppend(a, [w]);
    RemoveWhitespaceAppend(a, b);
    assert RemoveWhitespace([w]) == [] by {
      assert [w][1..] == [];
    }
    assert RemoveWhitespace(a + [w] + b) == RemoveWhitespace(a + b);
  }

  lemma AlphabetAppend(a: string, b: string)
    requires AllAlphabet(a) && AllAlphabet(b)
    ensures AllAlphabet(a + b)
  {
    assert forall i :: |a| <= i < |a + b| ==> (a + b)[i] == b[i - |a|];
  }

  lemma ModFourAfterGroups(x: nat, y: nat)
    requires x % 4 == 0
    ensures (x + y) % 4 == y % 4
  {
    var q := x / 4;
    assert x + y == 4 * q + y;
  }

  lemma DecodeGroupsStep(q: string, rest: string, t: string)
    requires |q| == 4 && AllAlphabet(q) && AllAlphabet(rest) && AllAlphabet(t)
    requires |rest| % 4 == 0 && |t| % 4 != 1 && |rest + t| % 4 != 1
    requires AllAlphabet(rest + t)
    requires DecodeGroups(rest + t) == DecodeGroups(rest) + DecodeGroups(t)
    requires |q + rest| % 4 == 0 && |q + (rest + t)| % 4 != 1
    ensures AllAlphabet(q + rest) && AllAlphabet(q + (rest + t))
    ensures DecodeGroups(q + (rest + t)) == DecodeGroups(q + rest) + DecodeGroups(t)
  {
    DecodeGroupsAppend(q, rest);
    DecodeGroupsAppend(q, rest + t);
    ConcatAssociates(DecodeGroups(q), DecodeGroups(rest), DecodeGroups(t));
  }

  /** Kept apart so that associativity is proved outside the unfolding of DecodeGroups. */
  lemma ConcatAssociates(a: seq<Byte>, b: seq<Byte>, c: seq<Byte>)
    ensures a + (b + c) == (a + b) + c
  {
  }

  lemma SplitFirstGroup(g: string)
    requires AllAlphabet(g) && |g| >= 4
    ensures g == g[..4] + g[4..] && AllAlphabet(g[..4]) && AllAlphabet(g[4..])
  {
    assert forall i :: 0 <= i < |g[4..]| ==> g[4..][i] == g[i + 4];
  }

  /** Whole groups and what follows them decode independently. */
  lemma {:induction false} DecodeGroupsAfterGroups(g: string, t: string)
    requires AllAlphabet(g) && |g| % 4 == 0 && AllAlphabet(t) && |t| % 4 != 1
    requires AllAlphabet(g + t) && |g + t| % 4 != 1
    ensures DecodeGroups(g + t) == DecodeGroups(g) + DecodeGroups(t)
    decreases |g|
  {
    if g == [] {
      assert g + t == t;
    } else {
      var q, rest := g[..4], g[4..];
      SplitFirstGroup(g);
      ModFourAfterGroups(4, |rest|);
      ModFourAfterGroups(|rest|, |t|);
      AlphabetAppend(rest, t);
      assert g + t == q + (rest + t);
      DecodeGroupsAfterGroups(rest, t);
      DecodeGroupsStep(q, rest, t);
    }
  }

  /** After whole groups, a final group of two or three characters decodes on its own. */
  lemma FinalGroupDecodes(g: string, t: string)
    requires AllAlphabet(g) && |g| % 4 == 0 && AllAlphabet(t) && 2 <= |t| <= 3
    ensures Decode(g + t) == Some(DecodeGroups(g) + DecodeGroups(t))
  {
    AlphabetAppend(g, t);
    ModFourAfterGroups(|g|, |t|);
    calc {
      Decode(g + t);
    == { DecodeOfAlphabet(g + t); }
      Some(DecodeGroups(g + t));
    == { DecodeGroupsAfterGroups(g, t); }
      Some(DecodeGroups(g) + DecodeGroups(t));
    }
  }

  /**
   * The unused low bits of the last character are ignored rather than
   * rejected: after whole groups, two characters whose values agree in their
   * top two bits, or three whose last values agree in their top four, decode
   * alike.
   */
  lemma TrailingBitsIgnored(g: string, t: string, u: string)
    requires AllAlphabet(g) && |g| % 4 == 0
    requires AllAlphabet(t) && AllAlphabet(u) && |t| == |u| && 2 <= |t| <= 3
    requires t[..|t| - 1] == u[..|u| - 1]
    requires |t| == 2 ==> AlphabetValue(t[1]) / 16 == AlphabetValue(u[1]) / 16
    requires |t| == 3 ==> AlphabetValue(t[2]) / 4 == AlphabetValue(u[2]) / 4
    ensures Decode(g + t) == Decode(g + u)
  {
    FinalGroupDecodes(g, t);
    FinalGroupDecodes(g, u);
    assert t[0] == t[..|t| - 1][0] == u[0];
    if |t| == 3 {
      assert t[1] == t[..|t| - 1][1] == u[1];
    }
    assert DecodeGroups(t) == DecodeGroups(u);
  }

  /** A lone alphabet character after whole groups cannot hold a byte. */
  lemma LoneCharacterRejected(g: string, c: char)
    requires AllAlphabet(g) && |g| % 4 == 0 && IsAlphabetChar(c)
    ensures Decode(g + [c]).None?
  {
    var s := g + [c];
    assert AllAlphabet(s) && |s| % 4 == 1 by {
      AlphabetAppend(g, [c]);
      ModFourAfterGroups(|g|, 1);
    }
  }

  /** More than two "=" is never padding. */
  lemma TooMuchPaddingRejected(g: string)
    requires AllAlphabet(g)
    ensures Decode(g + "===").None?
  {
    var s := g + "===";
    RemoveWhitespaceOfAlphabet(s);
    var data := StripPadding(s);
    assert data[|g|] == '=' by {
      assert |g| < |data|;
      assert data[|g|] == s[|g|];
    }
  }

  /** The test vectors of section 10 of RFC 4648 that end in padding. */
  lemma Rfc4648PaddedVectors()
    ensures Encode([]) == ""
    ensures Encode([102]) == "Zg=="
    ensures Encode([102, 111]) == "Zm8="
  {
    assert EncodeGroups([102]) == Tail([102]) == [AlphabetChar(25), AlphabetChar(32)];
    assert EncodeGroups([102, 111]) == Tail([102, 111])
        == [AlphabetChar(25), AlphabetChar(38), AlphabetChar(60)];
  }

  /** The test vector of section 10 of RFC 4648 made of one whole group. */
  lemma Rfc4648GroupVector()
    ensures Encode([102, 111, 111]) == "Zm9v"
  {
    var foo: seq<Byte> := [102, 111, 111];
    assert Quad(102, 111, 111) == "Zm9v" by {
      assert Quad(102, 111, 111) == [AlphabetChar(25), AlphabetChar(38), AlphabetChar(61), AlphabetChar(47)];
    }
    assert EncodeGroups(foo) == "Zm9v" by {
      assert foo[3..] == [];
      assert EncodeGroups(foo) == Quad(102, 111, 111) + EncodeGroups([]);
    }
    assert Encode(foo) == EncodeGroups(foo) + "";
  }
}
