/** Byte strings and the textual renderings the contracts use: `hex::encode`
    (lowercase hexadecimal), the decimal form that `format!("{}")` and
    `to_string()` give primitive unsigned integers, and `str::as_bytes` (UTF-8). */
module Encoding {
  import opened Wrappers

  type byte = x: int | 0 <= x < 256

  // ---------------------------------------------------------------------------
  // Lowercase hexadecimal (`hex::encode`) and its inverse

  predicate IsHexChar(c: char) {
    ('0' <= c <= '9') || ('a' <= c <= 'f')
  }

  function HexDigit(n: nat): (c: char)
    requires n < 16
    ensures IsHexChar(c)
  {
    if n < 10 then (48 + n) as char else (87 + n) as char
  }

  function HexValue(c: char): (v: Option<nat>)
    ensures v.Some? <==> IsHexChar(c)
    ensures v.Some? ==> v.value < 16 && HexDigit(v.value) == c
  {
    if '0' <= c <= '9' then Some(c as int - 48)
    else if 'a' <= c <= 'f' then Some(c as int - 87)
    else None
  }

  /** `hex::encode`: two lowercase digits per byte, high nibble first. */
  function HexEncode(b: seq<byte>): (s: string)
    ensures |s| == 2 * |b|
    ensures forall k :: 0 <= k < |s| ==> IsHexChar(s[k])
  {
    if b == [] then [] else [HexDigit(b[0] / 16), HexDigit(b[0] % 16)] + HexEncode(b[1..])
  }

  /** Reads a string of lowercase hexadecimal digit pairs back into bytes. */
  function HexDecode(s: string): (r: Option<seq<byte>>)
    ensures r.Some? ==> 2 * |r.value| == |s|
  {
    if s == [] then Some([])
    else if |s| == 1 then None
    else
      match (HexValue(s[0]), HexValue(s[1]), HexDecode(s[2..]))
      case (Some(hi), Some(lo), Some(rest)) => Some([(hi * 16 + lo) as byte] + rest)
      case _ => None
  }

  lemma {:induction false} HexDecodeEncode(b: seq<byte>)
    ensures HexDecode(HexEncode(b)) == Some(b)
  {
    if b != [] {
      var s := HexEncode(b);
      assert HexValue(s[0]) == Some(b[0] / 16) && HexValue(s[1]) == Some(b[0] % 16);
      assert s[2..] == HexEncode(b[1..]);
      HexDecodeEncode(b[1..]);
      assert [b[0]] + b[1..] == b;
    }
  }

  lemma {:induction false} HexEncodeDecode(s: string, b: seq<byte>)
    requires HexDecode(s) == Some(b)
    ensures HexEncode(b) == s
  {
    if s != [] {
      var hi, lo := HexValue(s[0]).value, HexValue(s[1]).value;
      var rest := HexDecode(s[2..]).value;
      assert b == [(hi * 16 + lo) as byte] + rest;
      assert b[0] / 16 == hi && b[0] % 16 == lo;
      assert b[1..] == rest;
      HexEncodeDecode(s[2..], rest);
      assert s == [s[0], s[1]] + s[2..];
    }
  }

  /** Lowercase hex is a bijection: a string is the encoding of `b` exactly when it decodes to `b`. */
  lemma HexEncodingExact(s: string, b: seq<byte>)
    ensures HexEncode(b) == s <==> HexDecode(s) == Some(b)
  {
    if HexEncode(b) == s { HexDecodeEncode(b); }
    if HexDecode(s) == Some(b) { HexEncodeDecode(s, b); }
  }

  lemma HexEncodeInjective(a: seq<byte>, b: seq<byte>)
    requires HexEncode(a) == HexEncode(b)
    ensures a == b
  {
    HexDecodeEncode(a);
    HexDecodeEncode(b);
  }

  // ---------------------------------------------------------------------------
  // Decimal rendering of unsigned integers (`format!("{}", n)`, `n.to_string()`)

  predicate IsDigitChar(c: char) {
    '0' <= c <= '9'
  }

  predicate IsDecimal(s: string) {
    forall k :: 0 <= k < |s| ==> IsDigitChar(s[k])
  }

  function DecimalDigit(n: nat): (c: char)
    requires n < 10
    ensures IsDigitChar(c) && c as int - 48 == n
  {
    (48 + n) as char
  }

  function DecimalString(n: nat): (s: string)
    ensures |s| >= 1 && IsDecimal(s)
    ensures s[0] == '0' ==> n == 0
  {
    if n < 10 then [DecimalDigit(n)] else DecimalString(n / 10) + [DecimalDigit(n % 10)]
  }

  /** The value of a string of decimal digits, most significant first. */
  function ParseDecimal(s: string): (n: nat)
    requires IsDecimal(s)
  {
    if s == [] then 0 else 10 * ParseDecimal(s[..|s| - 1]) + (s[|s| - 1] as int - 48)
  }

  lemma {:induction false} ParseDecimalString(n: nat)
    ensures ParseDecimal(DecimalString(n)) == n
  {
    if n >= 10 {
      var s := DecimalString(n);
      assert s[..|s| - 1] == DecimalString(n / 10);
      ParseDecimalString(n / 10);
    }
  }

  lemma DecimalStringInjective(m: nat, n: nat)
    requires DecimalString(m) == DecimalString(n)
    ensures m == n
  {
    ParseDecimalString(m);
    ParseDecimalString(n);
  }

  // ---------------------------------------------------------------------------
  // UTF-8 (`str::as_bytes`, and `str::len`, which counts those bytes)

  function Utf8Char(c: char): (b: seq<byte>)
    ensures 1 <= |b| <= 4
    ensures |b| == 1 <==> c as int < 0x80
    ensures |b| == 1 ==> b[0] == c as int
  {
    var n := c as int;
    if n < 0x80 then [n]
    else if n < 0x800 then [0xC0 + n / 0x40, 0x80 + n % 0x40]
    else if n < 0x1_0000 then [0xE0 + n / 0x1000, 0x80 + (n / 0x40) % 0x40, 0x80 + n % 0x40]
    else [0xF0 + n / 0x4_0000, 0x80 + (n / 0x1000) % 0x40, 0x80 + (n / 0x40) % 0x40, 0x80 + n % 0x40]
  }

  function Utf8Encode(s: string): (b: seq<byte>)
    ensures |s| <= |b| <= 4 * |s|
  {
    if s == [] then [] else Utf8Char(s[0]) + Utf8Encode(s[1..])
  }

  predicate IsAscii(s: string) {
    forall k :: 0 <= k < |s| ==> s[k] as int < 0x80
  }

  /** For ASCII text the UTF-8 bytes are the character codes, one byte per character. */
  lemma {:induction false} Utf8EncodeAscii(s: string)
    requires IsAscii(s)
    ensures |Utf8Encode(s)| == |s|
    ensures forall k :: 0 <= k < |s| ==> Utf8Encode(s)[k] == s[k] as int
  {
    if s != [] {
      Utf8EncodeAscii(s[1..]);
    }
  }

  /** A string with a character outside ASCII takes more bytes than it has characters. */
  lemma {:induction false} Utf8EncodeNonAscii(s: string, i: nat)
    requires i < |s| && s[i] as int >= 0x80
    ensures |Utf8Encode(s)| > |s|
  {
    if i > 0 {
      Utf8EncodeNonAscii(s[1..], i - 1);
    }
  }
}
