/**
  The "base64url" encoding of Node's `Buffer`: the URL- and filename-safe
  alphabet of section 5 of RFC 4648, written without `=` padding, and Node's
  lenient decoder, which accepts both the standard and the URL-safe alphabet,
  skips every other character and stops at the first `=`.
 */
module Base64Url {
  import opened Bytes

  type Sextet = v: int | 0 <= v < 64

  /** The 64 characters of the URL-safe alphabet: `A`-`Z`, `a`-`z`, `0`-`9`, `-` and `_`. */
  predicate UrlSafe(c: char)
  {
    'A' <= c <= 'Z' || 'a' <= c <= 'z' || '0' <= c <= '9' || c == '-' || c == '_'
  }

  /** The character that stands for a 6-bit group. */
  function CharOf(v: Sextet): (c: char)
    ensures UrlSafe(c)
  {
    if v < 26 then ('A' as int + v) as char
    else if v < 52 then ('a' as int + v - 26) as char
    else if v < 62 then ('0' as int + v - 52) as char
    else if v == 62 then '-'
    else '_'
  }

  /**
    The 6-bit value the decoder reads from a character, or 64 for a character
    it does not accept. Both `+`/`-` (62) and `/`/`_` (63) are accepted.
   */
  function ValueOf(c: char): (v: int)
    ensures 0 <= v <= 64
    ensures c == '=' ==> v == 64
  {
    if 'A' <= c <= 'Z' then c as int - 'A' as int
    else if 'a' <= c <= 'z' then c as int - 'a' as int + 26
    else if '0' <= c <= '9' then c as int - '0' as int + 52
    else if c == '-' || c == '+' then 62
    else if c == '_' || c == '/' then 63
    else 64
  }

  lemma ValueOfCharOf(v: Sextet)
    ensures ValueOf(CharOf(v)) == v
  {
  }

  /** The 6-bit groups of a byte string, most significant bits first; a last partial group is zero-filled. */
  function Sextets(b: seq<Byte>): (q: seq<Sextet>)
    ensures |q| == (4 * |b| + 2) / 3
  {
    if |b| >= 3 then
      [b[0] / 4, (b[0] % 4) * 16 + b[1] / 16, (b[1] % 16) * 4 + b[2] / 64, b[2] % 64] + Sextets(b[3..])
    else if |b| == 2 then
      [b[0] / 4, (b[0] % 4) * 16 + b[1] / 16, (b[1] % 16) * 4]
    else if |b| == 1 then
      [b[0] / 4, (b[0] % 4) * 16]
    else
      []
  }

  function Chars(q: seq<Sextet>): (s: string)
    ensures |s| == |q|
    ensures forall i :: 0 <= i < |s| ==> s[i] == CharOf(q[i])
  {
    if q == [] then [] else [CharOf(q[0])] + Chars(q[1..])
  }

  /** `Buffer.from(bytes).toString("base64url")`. */
  function Encode(b: seq<Byte>): (s: string)
    ensures |s| == (4 * |b| + 2) / 3
    ensures forall i :: 0 <= i < |s| ==> UrlSafe(s[i])
  {
    Chars(Sextets(b))
  }

  /** The 6-bit values the decoder collects: accepted characters up to the first `=`. */
  function Collect(s: string): (q: seq<Sextet>)
    ensures |q| <= |s|
  {
    if s == [] || s[0] == '=' then []
    else if ValueOf(s[0]) < 64 then [ValueOf(s[0]) as Sextet] + Collect(s[1..])
    else Collect(s[1..])
  }

  /** Reassembles bytes from 6-bit groups; a trailing single group yields no byte. */
  function Reassemble(q: seq<Sextet>): (b: seq<Byte>)
  {
    if |q| >= 4 then
      [q[0] as int * 4 + q[1] / 16, (q[1] as int % 16) * 16 + q[2] / 4, (q[2] as int % 4) * 64 + q[3]] + Reassemble(q[4..])
    else if |q| == 3 then
      [q[0] as int * 4 + q[1] / 16, (q[1] as int % 16) * 16 + q[2] / 4]
    else if |q| == 2 then
      [q[0] as int * 4 + q[1] / 16]
    else
      []
  }

  /** `Buffer.from(s, "base64url")`: never fails, whatever `s` holds. */
  function Decode(s: string): seq<Byte>
  {
    Reassemble(Collect(s))
  }

  lemma {:induction false} CollectChars(q: seq<Sextet>)
    ensures Collect(Chars(q)) == q
  {
    if q != [] {
      ValueOfCharOf(q[0]);
      assert Chars(q)[1..] == Chars(q[1..]);
      CollectChars(q[1..]);
    }
  }

  lemma {:induction false} ReassembleSextets(b: seq<Byte>)
    ensures Reassemble(Sextets(b)) == b
  {
    if |b| >= 3 {
      var q := Sextets(b);
      assert q[4..] == Sextets(b[3..]);
      ReassembleSextets(b[3..]);
      assert b == b[..3] + b[3..];
    }
  }

  /** Decoding an encoded byte string gives the bytes back. */
  lemma RoundTrip(b: seq<Byte>)
    ensures Decode(Encode(b)) == b
  {
    CollectChars(Sextets(b));
    ReassembleSextets(b);
  }
}
