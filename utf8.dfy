/**
  UTF-8 as Node's `Buffer` applies it: `Buffer.from(text, "utf8")` encodes
  every code point, and `buffer.toString("utf8")` decodes with the
  replacement rule of the WHATWG Encoding standard, so decoding never fails:
  each maximal ill-formed subsequence becomes one U+FFFD.
 */
module Utf8 {
  import opened Bytes

  const Replacement: char := 0xFFFD as char

  /** The bytes of one code point, shortest form. */
  function EncodeChar(c: char): (b: seq<Byte>)
    ensures 1 <= |b| <= 4
  {
    var cp := c as int;
    if cp < 0x80 then [cp]
    else if cp < 0x800 then [0xC0 + cp / 64, 0x80 + cp % 64]
    else if cp < 0x1_0000 then [0xE0 + cp / 4096, 0x80 + (cp / 64) % 64, 0x80 + cp % 64]
    else [0xF0 + cp / 262144, 0x80 + (cp / 4096) % 64, 0x80 + (cp / 64) % 64, 0x80 + cp % 64]
  }

  /** `Buffer.from(s, "utf8")`. */
  function Encode(s: string): (b: seq<Byte>)
    ensures |s| <= |b| <= 4 * |s|
  {
    if s == [] then [] else EncodeChar(s[0]) + Encode(s[1..])
  }

  predicate IsContinuation(x: Byte)
  {
    0x80 <= x <= 0xBF
  }

  /**
    Decodes the code point at the start of `b`, giving the character and the
    number of bytes it consumes. An ill-formed prefix yields U+FFFD and
    consumes the lead byte and the continuation bytes that were valid so far.
   */
  function DecodeOne(b: seq<Byte>): (r: (char, nat))
    requires |b| > 0
    ensures 1 <= r.1 <= |b| && r.1 <= 4
  {
    var b0: int := b[0];
    if b0 < 0x80 then (b0 as char, 1)
    else if 0xC2 <= b0 <= 0xDF then
      if |b| < 2 || !IsContinuation(b[1]) then (Replacement, 1)
      else (((b0 - 0xC0) * 64 + (b[1] as int - 0x80)) as char, 2)
    else if 0xE0 <= b0 <= 0xEF then
      var lower := if b0 == 0xE0 then 0xA0 else 0x80;
      var upper := if b0 == 0xED then 0x9F else 0xBF;
      if |b| < 2 || !(lower <= b[1] <= upper) then (Replacement, 1)
      else if |b| < 3 || !IsContinuation(b[2]) then (Replacement, 2)
      else (((b0 - 0xE0) * 4096 + (b[1] as int - 0x80) * 64 + (b[2] as int - 0x80)) as char, 3)
    else if 0xF0 <= b0 <= 0xF4 then
      var lower := if b0 == 0xF0 then 0x90 else 0x80;
      var upper := if b0 == 0xF4 then 0x8F else 0xBF;
      if |b| < 2 || !(lower <= b[1] <= upper) then (Replacement, 1)
      else if |b| < 3 || !IsContinuation(b[2]) then (Replacement, 2)
      else if |b| < 4 || !IsContinuation(b[3]) then (Replacement, 3)
      else (((b0 - 0xF0) * 262144 + (b[1] as int - 0x80) * 4096 + (b[2] as int - 0x80) * 64 + (b[3] as int - 0x80)) as char, 4)
    else (Replacement, 1)
  }

  /** `buffer.toString("utf8")`: total, whatever the bytes are. */
  function Decode(b: seq<Byte>): (s: string)
    ensures |s| <= |b|
    decreases |b|
  {
    if b == [] then []
    else
      var (c, n) := DecodeOne(b);
      [c] + Decode(b[n..])
  }

  lemma DecodeTwoBytes(cp: int, rest: seq<Byte>)
    requires 0x80 <= cp < 0x800
    ensures DecodeOne([0xC0 + cp / 64, 0x80 + cp % 64] + rest) == (cp as char, 2)
  {
    assert (cp / 64) * 64 + cp % 64 == cp;
  }

  lemma DecodeThreeBytes(cp: int, rest: seq<Byte>)
    requires 0x800 <= cp < 0x1_0000 && !(0xD800 <= cp < 0xE000)
    ensures DecodeOne([0xE0 + cp / 4096, 0x80 + (cp / 64) % 64, 0x80 + cp % 64] + rest) == (cp as char, 3)
  {
    var hi, mid, lo := cp / 4096, (cp / 64) % 64, cp % 64;
    assert hi * 4096 + mid * 64 + lo == cp;
    assert hi == 0 ==> mid >= 32;
    assert hi == 13 ==> mid < 32;
  }

  lemma DecodeFourBytes(cp: int, rest: seq<Byte>)
    requires 0x1_0000 <= cp <= 0x10_FFFF
    ensures DecodeOne([0xF0 + cp / 262144, 0x80 + (cp / 4096) % 64, 0x80 + (cp / 64) % 64, 0x80 + cp % 64] + rest)
         == (cp as char, 4)
  {
    var top, hi, mid, lo := cp / 262144, (cp / 4096) % 64, (cp / 64) % 64, cp % 64;
    assert top * 262144 + hi * 4096 + mid * 64 + lo == cp;
    assert top == 0 ==> hi >= 16;
    assert top == 4 ==> hi < 16;
  }

  lemma DecodeEncodedChar(c: char, rest: seq<Byte>)
    ensures DecodeOne(EncodeChar(c) + rest) == (c, |EncodeChar(c)|)
  {
    var cp := c as int;
    if cp < 0x80 {
    } else if cp < 0x800 {
      DecodeTwoBytes(cp, rest);
    } else if cp < 0x1_0000 {
      DecodeThreeBytes(cp, rest);
    } else {
      DecodeFourBytes(cp, rest);
    }
  }

  /** Decoding the UTF-8 encoding of a string gives the string back. */
  lemma {:induction false} RoundTrip(s: string)
    ensures Decode(Encode(s)) == s
  {
    if s != [] {
      var e := EncodeChar(s[0]);
      DecodeEncodedChar(s[0], Encode(s[1..]));
      assert (e + Encode(s[1..]))[|e|..] == Encode(s[1..]);
      RoundTrip(s[1..]);
    }
  }
}
