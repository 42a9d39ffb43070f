/**
 * The hexadecimal codec that lib/crypto/encryption.ts and lib/utils/ethereum.ts
 * both use inline.
 *
 * Encoding is `Array.from(bytes).map(b => b.toString(16).padStart(2, '0')).join('')`.
 * Decoding is `new Uint8Array(s.match(/.{1,2}/g)?.map(p => parseInt(p, 16)) || [])`,
 * which is lenient: it never fails, and it works on the UTF-16 code units of
 * the string, as JavaScript strings and non-unicode regular expressions do.
 */
module Hex {
  import opened Wrappers

  /** An element of a Uint8Array. */
  type Byte = b: int | 0 <= b < 256

  /** A UTF-16 code unit, the element of a JavaScript string. */
  type CodeUnit = u: int | 0 <= u < 0x1_0000

  // ---------------------------------------------------------------- digits

  predicate IsLowerHexDigit(c: char) {
    '0' <= c <= '9' || 'a' <= c <= 'f'
  }

  predicate IsHexDigit(c: char) {
    IsLowerHexDigit(c) || 'A' <= c <= 'F'
  }

  /** The lower-case digit that Number.prototype.toString(16) writes for `d`. */
  function DigitChar(d: nat): (c: char)
    requires d < 16
    ensures IsLowerHexDigit(c)
  {
    if d < 10 then ('0' as int + d) as char else ('a' as int + d - 10) as char
  }

  /** The value of a hexadecimal digit of either case. */
  function DigitValue(c: char): (d: nat)
    requires IsHexDigit(c)
    ensures d < 16
  {
    if '0' <= c <= '9' then c as int - '0' as int
    else if 'a' <= c <= 'f' then c as int - 'a' as int + 10
    else c as int - 'A' as int + 10
  }

  lemma DigitRoundTrip(d: nat)
    requires d < 16
    ensures DigitValue(DigitChar(d)) == d
  {
  }

  // -------------------------------------------------------------- encoding

  /** Number.prototype.toString(16) on a non-negative integer: no leading zeros. */
  function ToStringRadix16(n: nat): (s: string)
    decreases n
  {
    if n < 16 then [DigitChar(n)] else ToStringRadix16(n / 16) + [DigitChar(n % 16)]
  }

  /** String.prototype.padStart(target, fill) with a one-character fill string. */
  function PadStart(s: string, target: nat, fill: char): string {
    if |s| >= target then s else seq(target - |s|, _ => fill) + s
  }

  /** `b.toString(16).padStart(2, '0')`: always two digits, high nibble first. */
  function ByteToHex(b: Byte): (r: string)
    ensures r == [DigitChar(b / 16), DigitChar(b % 16)]
  {
    if b < 16 then
      assert ToStringRadix16(b) == [DigitChar(b)];
      PadStart(ToStringRadix16(b), 2, '0')
    else
      assert ToStringRadix16(b) == ToStringRadix16(b / 16) + [DigitChar(b % 16)];
      PadStart(ToStringRadix16(b), 2, '0')
  }

  /** `Array.from(bytes).map(ByteToHex).join('')`. */
  function HexEncode(bytes: seq<Byte>): (s: string)
    ensures |s| == 2 * |bytes|
    ensures forall i :: 0 <= i < |s| ==> IsLowerHexDigit(s[i])
  {
    if bytes == [] then "" else ByteToHex(bytes[0]) + HexEncode(bytes[1..])
  }

  /** Byte `i` is rendered at characters `2i` and `2i + 1`, zero-padded. */
  lemma {:induction false} HexEncodeAt(bytes: seq<Byte>, i: nat)
    requires i < |bytes|
    ensures |HexEncode(bytes)| == 2 * |bytes|
    ensures HexEncode(bytes)[2 * i] == DigitChar(bytes[i] / 16)
    ensures HexEncode(bytes)[2 * i + 1] == DigitChar(bytes[i] % 16)
  {
    if i > 0 {
      HexEncodeAt(bytes[1..], i - 1);
    }
  }

  // -------------------------------------------------------------- decoding

  /** The UTF-16 code units of a string of Unicode scalar values. */
  function Utf16(s: string): (units: seq<CodeUnit>)
    ensures |units| >= |s|
  {
    if s == [] then [] else CharUnits(s[0]) + Utf16(s[1..])
  }

  function CharUnits(c: char): (units: seq<CodeUnit>)
    ensures 1 <= |units| <= 2
  {
    if c as int < 0x1_0000 then [c as int]
    else
      var v := c as int - 0x1_0000;
      [0xD800 + v / 0x400, 0xDC00 + v % 0x400]
  }

  /** The code units that `.` in a regular expression does not match. */
  predicate IsLineTerminator(u: CodeUnit) {
    u == 0x0A || u == 0x0D || u == 0x2028 || u == 0x2029
  }

  /**
   * The matches of `/.{1,2}/g`, left to right: each match starts at the next
   * code unit that is not a line terminator and greedily takes a second one.
   * No match at all makes `match` return null, which `?.` and `|| []` turn
   * into the empty array; that is the empty sequence here too.
   */
  function Chunks(units: seq<CodeUnit>): (chunks: seq<seq<CodeUnit>>)
    ensures forall i :: 0 <= i < |chunks| ==> 1 <= |chunks[i]| <= 2
    ensures |chunks| <= |units|
  {
    if units == [] then []
    else if IsLineTerminator(units[0]) then Chunks(units[1..])
    else if |units| >= 2 && !IsLineTerminator(units[1]) then [units[..2]] + Chunks(units[2..])
    else [units[..1]] + Chunks(units[1..])
  }

  /** WhiteSpace and LineTerminator of ECMAScript, which parseInt skips first. */
  predicate IsStrWhiteSpace(u: CodeUnit) {
    || u == 0x09 || u == 0x0B || u == 0x0C || u == 0x20 || u == 0xA0 || u == 0xFEFF
    || u == 0x1680 || 0x2000 <= u <= 0x200A || u == 0x202F || u == 0x205F || u == 0x3000
    || IsLineTerminator(u)
  }

  predicate IsHexUnit(u: CodeUnit) {
    0x30 <= u <= 0x39 || 0x41 <= u <= 0x46 || 0x61 <= u <= 0x66
  }

  function HexUnitValue(u: CodeUnit): (d: nat)
    requires IsHexUnit(u)
    ensures d < 16
  {
    if u <= 0x39 then u - 0x30 else if u <= 0x46 then u - 0x41 + 10 else u - 0x61 + 10
  }

  function TrimStart(s: seq<CodeUnit>): seq<CodeUnit> {
    if s != [] && IsStrWhiteSpace(s[0]) then TrimStart(s[1..]) else s
  }

  /** What TrimStart leaves is a suffix of its input. */
  lemma {:induction false} TrimStartIsSuffix(s: seq<CodeUnit>)
    ensures |TrimStart(s)| <= |s| && TrimStart(s) == s[|s| - |TrimStart(s)|..]
  {
    if s != [] && IsStrWhiteSpace(s[0]) {
      TrimStartIsSuffix(s[1..]);
    }
  }

  /** The length of the longest prefix of `s` made of hexadecimal digits. */
  function HexPrefixLength(s: seq<CodeUnit>): (n: nat)
    ensures n <= |s|
  {
    if s != [] && IsHexUnit(s[0]) then 1 + HexPrefixLength(s[1..]) else 0
  }

  /** The value of a big-endian run of hexadecimal digits. */
  function DigitsValue(z: seq<CodeUnit>): nat
    requires forall i :: 0 <= i < |z| ==> IsHexUnit(z[i])
  {
    if z == [] then 0 else 16 * DigitsValue(z[..|z| - 1]) + HexUnitValue(z[|z| - 1])
  }

  lemma HexPrefixIsHex(s: seq<CodeUnit>)
    ensures forall i :: 0 <= i < HexPrefixLength(s) ==> IsHexUnit(s[i])
  {
    if s != [] && IsHexUnit(s[0]) {
      HexPrefixIsHex(s[1..]);
    }
  }

  /**
   * parseInt(s, 16), with None standing for NaN: skip leading white space,
   * read an optional sign, drop a "0x" or "0X" prefix, then read the longest
   * run of hexadecimal digits; an empty run is NaN, so text holding no
   * hexadecimal digit at all is always NaN.
   */
  function ParseIntHex(s: seq<CodeUnit>): (r: Option<int>)
    ensures (forall i :: 0 <= i < |s| ==> !IsHexUnit(s[i])) ==> r.None?
  {
    var t := TrimStart(s);
    var sign := if t != [] && t[0] == '-' as int then -1 else 1;
    var u := if t != [] && (t[0] == '+' as int || t[0] == '-' as int) then t[1..] else t;
    var v := if |u| >= 2 && u[0] == '0' as int && (u[1] == 'x' as int || u[1] == 'X' as int)
             then u[2..] else u;
    TrimStartIsSuffix(s);
    assert v == s[|s| - |v|..];
    var n := HexPrefixLength(v);
    HexPrefixIsHex(v);
    if n == 0 then None else Some(sign * DigitsValue(v[..n]))
  }

  /**
   * How a Uint8Array stores a number: NaN becomes 0, a value already in
   * 0..255 is kept, and any other value is reduced modulo 256.
   */
  function ToUint8(x: Option<int>): (b: Byte)
    ensures x.None? ==> b == 0
    ensures x.Some? && 0 <= x.value < 256 ==> b == x.value
    ensures x.Some? ==> (x.value - b) % 256 == 0
  {
    match x
    case None => 0
    case Some(v) => v % 256
  }

  /**
   * `new Uint8Array(s.match(/.{1,2}/g)?.map(p => parseInt(p, 16)) || [])`:
   * never more bytes than code units, and text without any hexadecimal digit
   * decodes to zeros only.
   */
  function HexDecode(s: string): (r: seq<Byte>)
    ensures |r| <= |Utf16(s)|
    ensures (forall i :: 0 <= i < |s| ==> !IsHexDigit(s[i])) ==> forall i :: 0 <= i < |r| ==> r[i] == 0
  {
    NoHexUnits(s);
    ChunksKeepNonHex(Utf16(s));
    ChunkBytes(Chunks(Utf16(s)))
  }

  /** The byte each chunk parses to. */
  function ChunkBytes(chunks: seq<seq<CodeUnit>>): (r: seq<Byte>)
    ensures |r| == |chunks|
  {
    seq(|chunks|, i requires 0 <= i < |chunks| => ToUint8(ParseIntHex(chunks[i])))
  }

  lemma {:induction false} NoHexUnits(s: string)
    ensures (forall i :: 0 <= i < |s| ==> !IsHexDigit(s[i])) ==>
      forall j :: 0 <= j < |Utf16(s)| ==> !IsHexUnit(Utf16(s)[j])
  {
    if s != [] {
      NoHexUnits(s[1..]);
      if forall i :: 0 <= i < |s| ==> !IsHexDigit(s[i]) {
        assert !IsHexDigit(s[0]);
        assert forall i :: 0 <= i < |s[1..]| ==> !IsHexDigit(s[1..][i]) by {
          forall i | 0 <= i < |s[1..]| ensures !IsHexDigit(s[1..][i]) {
            assert s[1..][i] == s[i + 1];
          }
        }
        var head := CharUnits(s[0]);
        forall j | 0 <= j < |Utf16(s)| ensures !IsHexUnit(Utf16(s)[j]) {
          if j >= |head| {
            assert Utf16(s)[j] == Utf16(s[1..])[j - |head|];
          }
        }
      }
    }
  }

  lemma {:induction false} ChunksKeepNonHex(units: seq<CodeUnit>)
    ensures (forall j :: 0 <= j < |units| ==> !IsHexUnit(units[j])) ==>
      forall i :: 0 <= i < |Chunks(units)| ==>
        forall j :: 0 <= j < |Chunks(units)[i]| ==> !IsHexUnit(Chunks(units)[i][j])
  {
    if units != [] && forall j :: 0 <= j < |units| ==> !IsHexUnit(units[j]) {
      var k := if IsLineTerminator(units[0]) then 1
               else if |units| >= 2 && !IsLineTerminator(units[1]) then 2 else 1;
      ChunksKeepNonHex(units[k..]);
      assert forall j :: 0 <= j < |units[k..]| ==> !IsHexUnit(units[k..][j]) by {
        forall j | 0 <= j < |units[k..]| ensures !IsHexUnit(units[k..][j]) {
          assert units[k..][j] == units[j + k];
        }
      }
    }
  }

  // ------------------------------------------------------ decoding lemmas

  predicate AllHexDigits(s: string) {
    forall i :: 0 <= i < |s| ==> IsHexDigit(s[i])
  }

  /** The byte a well-formed string yields at index `i`: a pair, or a lone final digit. */
  function PairValue(s: string, i: nat): Byte
    requires AllHexDigits(s) && 2 * i < |s|
  {
    if 2 * i + 1 < |s| then 16 * DigitValue(s[2 * i]) + DigitValue(s[2 * i + 1])
    else DigitValue(s[2 * i])
  }

  lemma {:induction false} Utf16OfHexDigits(s: string)
    requires AllHexDigits(s)
    ensures |Utf16(s)| == |s|
    ensures forall i :: 0 <= i < |s| ==> Utf16(s)[i] == s[i] as int
  {
    if s != [] {
      Utf16OfHexDigits(s[1..]);
    }
  }

  /** Without line terminators the chunks are consecutive pairs, the last possibly single. */
  lemma {:induction false} ChunksArePairs(units: seq<CodeUnit>)
    requires forall i :: 0 <= i < |units| ==> !IsLineTerminator(units[i])
    ensures |Chunks(units)| == (|units| + 1) / 2
    ensures forall i :: 0 <= i < |Chunks(units)| ==>
      Chunks(units)[i] == units[2 * i .. if 2 * i + 2 <= |units| then 2 * i + 2 else |units|]
  {
    if |units| >= 2 {
      ChunksArePairs(units[2..]);
      var rest := Chunks(units[2..]);
      assert Chunks(units) == [units[..2]] + rest;
      forall i | 1 <= i < |Chunks(units)|
        ensures Chunks(units)[i] ==
          units[2 * i .. if 2 * i + 2 <= |units| then 2 * i + 2 else |units|]
      {
        var e := if 2 * i + 2 <= |units| then 2 * i + 2 else |units|;
        assert Chunks(units)[i] == rest[i - 1];
        assert rest[i - 1] == units[2..][2 * (i - 1) .. e - 2];
        assert units[2..][2 * (i - 1) .. e - 2] == units[2 * i .. e];
      }
    }
  }

  /** Two hexadecimal digits parse to the byte they spell, most significant first. */
  lemma ParsePair(a: CodeUnit, b: CodeUnit)
    requires IsHexUnit(a) && IsHexUnit(b)
    ensures ToUint8(ParseIntHex([a, b])) == 16 * HexUnitValue(a) + HexUnitValue(b)
  {
    var z: seq<CodeUnit> := [a, b];
    assert TrimStart(z) == z;
    assert HexPrefixLength(z) == 2 by {
      assert z[1..][1..] == [];
    }
    assert z[..2] == z;
    SingleDigitValue(a);
    assert z[..|z| - 1] == [a];
  }

  lemma SingleDigitValue(a: CodeUnit)
    requires IsHexUnit(a)
    ensures DigitsValue([a]) == HexUnitValue(a)
  {
    assert [a][..0] == [];
  }

  /** A single hexadecimal digit parses to its value. */
  lemma ParseSingle(a: CodeUnit)
    requires IsHexUnit(a)
    ensures ToUint8(ParseIntHex([a])) == HexUnitValue(a)
  {
    var z: seq<CodeUnit> := [a];
    assert TrimStart(z) == z;
    assert HexPrefixLength(z) == 1 by {
      assert z[1..] == [];
    }
    assert z[..1] == z;
    SingleDigitValue(a);
  }

  lemma HexUnitOfDigit(c: char)
    requires IsHexDigit(c)
    ensures c as int < 0x1_0000 && IsHexUnit(c as int) && HexUnitValue(c as int) == DigitValue(c)
  {
  }

  /** The chunk holding digits `2i` (and `2i + 1`) parses to the pair value at `i`. */
  lemma ChunkOfDigits(s: string, i: nat, z: seq<CodeUnit>)
    requires AllHexDigits(s) && 2 * i < |s|
    requires |z| == (if 2 * i + 1 < |s| then 2 else 1)
    requires z[0] == s[2 * i] as int
    requires 2 * i + 1 < |s| ==> z[1] == s[2 * i + 1] as int
    ensures ToUint8(ParseIntHex(z)) == PairValue(s, i)
  {
    HexUnitOfDigit(s[2 * i]);
    if 2 * i + 1 < |s| {
      HexUnitOfDigit(s[2 * i + 1]);
      assert z == [z[0], z[1]];
      ParsePair(z[0], z[1]);
    } else {
      assert z == [z[0]];
      ParseSingle(z[0]);
    }
  }

  /**
   * On a string of hexadecimal digits of either case the decoder reads pairs
   * left to right; an odd-length string ends in a byte read from one digit.
   */
  lemma HexDecodeDigits(s: string)
    requires AllHexDigits(s)
    ensures |HexDecode(s)| == (|s| + 1) / 2
    ensures forall i :: 0 <= i < |HexDecode(s)| ==> HexDecode(s)[i] == PairValue(s, i)
  {
    var units := Utf16(s);
    Utf16OfHexDigits(s);
    forall i | 0 <= i < |s| ensures !IsLineTerminator(units[i]) {
      HexUnitOfDigit(s[i]);
    }
    ChunksArePairs(units);
    forall i | 0 <= i < |HexDecode(s)| ensures HexDecode(s)[i] == PairValue(s, i) {
      var z := Chunks(units)[i];
      ChunkOfDigits(s, i, z);
    }
  }

  /** Decoding inverts encoding, so a 32-byte key survives the hex round trip. */
  lemma HexDecodeEncode(bytes: seq<Byte>)
    ensures HexDecode(HexEncode(bytes)) == bytes
  {
    var s := HexEncode(bytes);
    assert AllHexDigits(s);
    HexDecodeDigits(s);
    forall i | 0 <= i < |bytes| ensures HexDecode(s)[i] == bytes[i] {
      HexEncodeAt(bytes, i);
      DigitRoundTrip(bytes[i] / 16);
      DigitRoundTrip(bytes[i] % 16);
    }
  }

  /** Upper-case and lower-case digits decode to the same bytes. */
  lemma HexDecodeIgnoresCase(s: string, t: string)
    requires AllHexDigits(s) && AllHexDigits(t) && |s| == |t|
    requires forall i :: 0 <= i < |s| ==> DigitValue(s[i]) == DigitValue(t[i])
    ensures HexDecode(s) == HexDecode(t)
  {
    HexDecodeDigits(s);
    HexDecodeDigits(t);
    var x, y := HexDecode(s), HexDecode(t);
    forall i | 0 <= i < |x| ensures x[i] == y[i] {
      assert x[i] == PairValue(s, i) && y[i] == PairValue(t, i);
    }
  }

  /** The empty string decodes to no bytes. */
  lemma EmptyDecodesEmpty()
    ensures HexDecode("") == []
  {
  }

  /** parseInt reads the longest digit prefix, so "1g" is 1 rather than NaN. */
  lemma DigitPrefixIsRead()
    ensures HexDecode("1g") == [1]
  {
    var z: seq<CodeUnit> := ['1' as int, 'g' as int];
    assert Utf16("1g") == z;
    assert z[..2] == z && z[2..] == [];
    assert Chunks(z) == [z];
    assert TrimStart(z) == z;
    assert HexPrefixLength(z) == 1 by {
      assert HexPrefixLength(z[1..]) == 0;
    }
    assert z[..1] == ['1' as int];
    assert DigitsValue(z[..1]) == 1 by {
      assert z[..1][..0] == [];
    }
  }

  /** A leading minus sign is honoured and the Uint8Array wraps -10 to 246. */
  lemma NegativePairWraps()
    ensures HexDecode("-a") == [246]
  {
    var z: seq<CodeUnit> := ['-' as int, 'a' as int];
    assert Utf16("-a") == z;
    assert z[..2] == z && z[2..] == [];
    assert Chunks(z) == [z];
    assert TrimStart(z) == z;
    var v := z[1..];
    assert v == ['a' as int];
    assert HexPrefixLength(v) == 1 by {
      assert v[1..] == [];
    }
    assert v[..1] == v;
    assert DigitsValue(v) == 10 by {
      assert v[..0] == [];
    }
  }

  /** `.` does not match a line feed, so the chunks skip it: "a\nbc" gives "a" and "bc". */
  lemma LineFeedIsSkipped()
    ensures HexDecode("a\nbc") == [10, 0xbc]
  {
    assert "a\nbc" == "a" + ['\n'] + "bc";
    LineTerminatorSplits("a", '\n', "bc");
    assert HexDecode("a") == [10] by {
      HexDecodeDigits("a");
    }
    assert HexDecode("bc") == [0xbc] by {
      HexDecodeDigits("bc");
    }
  }

  /** The code units of a concatenation are those of its parts, in order. */
  lemma {:induction false} Utf16Append(a: string, b: string)
    ensures Utf16(a + b) == Utf16(a) + Utf16(b)
  {
    if a != [] {
      assert (a + b)[0] == a[0] && (a + b)[1..] == a[1..] + b;
      Utf16Append(a[1..], b);
      assert Utf16(a + b) == CharUnits(a[0]) + Utf16(a[1..] + b);
      assert Utf16(a) == CharUnits(a[0]) + Utf16(a[1..]);
    } else {
      assert a + b == b;
    }
  }

  /**
   * A line terminator ends the match in progress and is itself skipped, so
   * the chunks on either side of it are formed independently.
   */
  lemma {:induction false} ChunksSplitAtTerminator(a: seq<CodeUnit>, t: CodeUnit, b: seq<CodeUnit>)
    requires IsLineTerminator(t)
    ensures Chunks(a + [t] + b) == Chunks(a) + Chunks(b)
  {
    var units := a + [t] + b;
    if a == [] {
      assert units[1..] == b;
    } else if IsLineTerminator(a[0]) {
      assert units[1..] == a[1..] + [t] + b;
      ChunksSplitAtTerminator(a[1..], t, b);
    } else if |a| >= 2 && !IsLineTerminator(a[1]) {
      assert units[..2] == a[..2];
      assert units[2..] == a[2..] + [t] + b;
      ChunksSplitAtTerminator(a[2..], t, b);
    } else if |a| == 1 {
      assert units[..1] == a && a[..1] == a;
      assert units[1..] == [t] + b;
      assert ([t] + b)[1..] == b;
      assert Chunks([t] + b) == Chunks(b);
      assert Chunks(units) == [a] + Chunks(b);
      assert Chunks(a) == [a] + Chunks(a[1..]);
      assert a[1..] == [];
    } else {
      assert units[..1] == a[..1];
      assert units[1..] == a[1..] + [t] + b;
      ChunksSplitAtTerminator(a[1..], t, b);
    }
  }

  lemma ChunkBytesAppend(c: seq<seq<CodeUnit>>, d: seq<seq<CodeUnit>>)
    ensures ChunkBytes(c + d) == ChunkBytes(c) + ChunkBytes(d)
  {
    var l, r := ChunkBytes(c + d), ChunkBytes(c) + ChunkBytes(d);
    forall i | 0 <= i < |l| ensures l[i] == r[i] {
      if i >= |c| {
        assert (c + d)[i] == d[i - |c|];
      }
    }
  }

  /** A line feed, carriage return, U+2028 or U+2029 splits the text into two independent decodings. */
  lemma LineTerminatorSplits(a: string, t: char, b: string)
    requires t == '\n' || t == '\r' || t == '\U{2028}' || t == '\U{2029}'
    ensures HexDecode(a + [t] + b) == HexDecode(a) + HexDecode(b)
  {
    Utf16Append(a + [t], b);
    Utf16Append(a, [t]);
    assert Utf16([t]) == [t as int] by {
      assert [t][1..] == [];
    }
    ChunksSplitAtTerminator(Utf16(a), t as int, Utf16(b));
    ChunkBytesAppend(Chunks(Utf16(a)), Chunks(Utf16(b)));
  }
}
