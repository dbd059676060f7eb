/**
  JSON text as `JSON.stringify` writes it and `JSON.parse` reads it.
  Objects keep their properties in JavaScript's own order: keys that are
  array indices first, ascending, then the other keys in insertion order; a
  repeated key keeps its first position and its last value.
 */
module JsonCodec {
  import opened Wrappers
  import opened Decimal
  import opened JsNumber

  datatype Json =
    | JNull
    | JBool(b: bool)
    | JNumber(n: Number)
    | JString(s: string)
    | JArray(items: seq<Json>)
    | JObject(fields: seq<Field>)

  datatype Field = Field(key: string, value: Json)

  /* ---------------- Property order ---------------- */

  /** A canonical decimal integer below 2^32 - 1: a key JavaScript orders numerically. */
  predicate IsArrayIndex(k: string)
  {
    k != [] && AllDigits(k) && (k[0] == '0' ==> |k| == 1) && Value(k) < 0xFFFF_FFFF
  }

  /** Distinct keys, array-index keys first and ascending: the order of a JavaScript object's own properties. */
  predicate Ordered(fs: seq<Field>)
  {
    forall i, j :: 0 <= i < j < |fs| ==> Precedes(fs[i].key, fs[j].key)
  }

  /** Key `a` may come before key `b` in one object. */
  predicate Precedes(a: string, b: string)
  {
    a != b && (IsArrayIndex(b) ==> IsArrayIndex(a) && Value(a) < Value(b))
  }

  /** The value of property `k`, if there is one. */
  function Get(fs: seq<Field>, k: string): (r: Option<Json>)
    ensures r.Some? <==> exists i :: 0 <= i < |fs| && fs[i].key == k
  {
    if fs == [] then None
    else if fs[0].key == k then Some(fs[0].value)
    else
      var r := Get(fs[1..], k);
      assert forall i :: 0 < i < |fs| ==> fs[i] == fs[1..][i - 1];
      r
  }

  /** Assigns property `k` of an object, as `JSON.parse` does for each member it reads. */
  function Put(fs: seq<Field>, k: string, v: Json): (r: seq<Field>)
  {
    if fs == [] then [Field(k, v)]
    else if fs[0].key == k then [Field(k, v)] + fs[1..]
    else if IsArrayIndex(k) && (!IsArrayIndex(fs[0].key) || Value(k) < Value(fs[0].key)) then [Field(k, v)] + fs
    else [fs[0]] + Put(fs[1..], k, v)
  }

  lemma OrderedSuffix(fs: seq<Field>)
    requires Ordered(fs) && fs != []
    ensures Ordered(fs[1..])
  {
    assert forall i :: 0 <= i < |fs| - 1 ==> fs[1..][i] == fs[i + 1];
  }

  /** An index key smaller than the first key goes in front, where no key equals it. */
  lemma PutFront(fs: seq<Field>, k: string, v: Json)
    requires Ordered(fs) && fs != [] && fs[0].key != k
    requires IsArrayIndex(k) && (!IsArrayIndex(fs[0].key) || Value(k) < Value(fs[0].key))
    ensures Put(fs, k, v) == [Field(k, v)] + fs
    ensures forall i :: 0 <= i < |fs| ==> fs[i].key != k
  {
    forall i | 0 <= i < |fs|
      ensures fs[i].key != k
    {
      if i > 0 && IsArrayIndex(fs[i].key) {
        assert IsArrayIndex(fs[0].key) && Value(fs[0].key) < Value(fs[i].key);
      }
    }
  }

  /** The keys of the updated rest of the object still come after the first key. */
  lemma PutTailKeys(fs: seq<Field>, k: string, v: Json, tail: seq<Field>)
    requires Ordered(fs) && fs != [] && fs[0].key != k
    requires !(IsArrayIndex(k) && (!IsArrayIndex(fs[0].key) || Value(k) < Value(fs[0].key)))
    requires Get(tail, k).Some?
    requires forall k' :: k' != k ==> Get(tail, k') == Get(fs[1..], k')
    ensures forall j :: 0 <= j < |tail| ==> Precedes(fs[0].key, tail[j].key)
  {
    forall j | 0 <= j < |tail|
      ensures Precedes(fs[0].key, tail[j].key)
    {
      if tail[j].key == k {
        if IsArrayIndex(k) {
          IndexValueInjective(fs[0].key, k);
        }
      } else {
        assert Get(tail, tail[j].key).Some?;
        assert Get(fs[1..], tail[j].key).Some?;
        var i :| 0 <= i < |fs[1..]| && fs[1..][i].key == tail[j].key;
        assert fs[i + 1].key == tail[j].key;
      }
    }
  }

  /** After the assignment `k` holds `v`, every other property keeps its value, and the order is still JavaScript's. */
  lemma {:induction false} PutOrdered(fs: seq<Field>, k: string, v: Json)
    requires Ordered(fs)
    ensures Ordered(Put(fs, k, v))
    ensures Get(Put(fs, k, v), k) == Some(v)
    ensures forall k' :: k' != k ==> Get(Put(fs, k, v), k') == Get(fs, k')
  {
    var r := Put(fs, k, v);
    if fs == [] {
    } else if fs[0].key == k {
      assert forall i :: 0 < i < |r| ==> r[i] == fs[i];
    } else if IsArrayIndex(k) && (!IsArrayIndex(fs[0].key) || Value(k) < Value(fs[0].key)) {
      PutFront(fs, k, v);
      assert forall i :: 0 < i < |r| ==> r[i] == fs[i - 1];
      var g := Get(fs, k);
    } else {
      OrderedSuffix(fs);
      PutOrdered(fs[1..], k, v);
      var tail := Put(fs[1..], k, v);
      assert r == [fs[0]] + tail;
      assert forall i :: 0 < i < |r| ==> r[i] == tail[i - 1];
      PutTailKeys(fs, k, v, tail);
    }
  }

  /** Distinct array-index keys have distinct values. */
  lemma IndexValueInjective(a: string, b: string)
    requires IsArrayIndex(a) && IsArrayIndex(b) && a != b
    ensures Value(a) != Value(b)
  {
    NatToStringOfValue(a);
    NatToStringOfValue(b);
  }

  /** Assigning a new key that belongs at the end of an ordered object appends it. */
  lemma {:induction false} PutLast(fs: seq<Field>, f: Field)
    requires Ordered(fs + [f])
    ensures Put(fs, f.key, f.value) == fs + [f]
  {
    if fs != [] {
      var all := fs + [f];
      assert all[0] == fs[0] && all[|fs|] == f;
      assert all[1..] == fs[1..] + [f];
      OrderedSuffix(all);
      PutLast(fs[1..], f);
    }
  }

  /* ---------------- Printing ---------------- */

  /** No number that the model does not track exactly (a fraction, an infinity). */
  predicate Printable(v: Json)
  {
    match v
    case JNumber(n) => n != OtherNumber
    case JArray(items) => forall i :: 0 <= i < |items| ==> Printable(items[i])
    case JObject(fs) => forall i :: 0 <= i < |fs| ==> Printable(fs[i].value)
    case _ => true
  }

  /** Integers only and objects in property order, at every depth. */
  predicate Exact(v: Json)
  {
    match v
    case JNumber(n) => n.Int?
    case JArray(items) => forall i :: 0 <= i < |items| ==> Exact(items[i])
    case JObject(fs) => Ordered(fs) && forall i :: 0 <= i < |fs| ==> Exact(fs[i].value)
    case _ => true
  }

  /** Values `JSON.parse` gives back unchanged after `JSON.stringify`. */
  predicate Canonical(v: Json)
  {
    Printable(v) && Exact(v)
  }

  function HexChar(d: int): (c: char)
    requires 0 <= d < 16
    ensures HexValue(c) == d
  {
    if d < 10 then ('0' as int + d) as char else ('a' as int + d - 10) as char
  }

  /** The value of a hexadecimal digit of either case, or 16 for any other character. */
  function HexValue(c: char): (v: int)
    ensures 0 <= v <= 16
  {
    if '0' <= c <= '9' then c as int - '0' as int
    else if 'a' <= c <= 'f' then c as int - 'a' as int + 10
    else if 'A' <= c <= 'F' then c as int - 'A' as int + 10
    else 16
  }

  /** How `JSON.stringify` writes one character inside a string literal. */
  function EscapeChar(c: char): (e: string)
    ensures |e| >= 1 && e[0] != '"'
    ensures |e| == 1 ==> e[0] == c && c >= ' ' && c != '\\'
  {
    if c == '"' then ['\\', '"']
    else if c == '\\' then ['\\', '\\']
    else if c == 0x08 as char then ['\\', 'b']
    else if c == 0x0C as char then ['\\', 'f']
    else if c == '\n' then ['\\', 'n']
    else if c == '\r' then ['\\', 'r']
    else if c == '\t' then ['\\', 't']
    else if c < ' ' then ['\\', 'u', '0', '0', HexChar(c as int / 16), HexChar(c as int % 16)]
    else [c]
  }

  function Escape(s: string): string
  {
    if s == [] then [] else EscapeChar(s[0]) + Escape(s[1..])
  }

  function Quote(s: string): (q: string)
    ensures |q| >= 2 && q[0] == '"'
  {
    "\"" + Escape(s) + "\""
  }

  /** The characters a printed value can start with. */
  predicate StartsValue(c: char)
  {
    c == 'n' || c == 't' || c == 'f' || c == '-' || ('0' <= c <= '9') || c == '"' || c == '[' || c == '{'
  }

  /** `JSON.stringify(v)`: no white space; NaN is written `null`. */
  function Stringify(v: Json): (t: string)
    requires Printable(v)
    ensures t != [] && StartsValue(t[0])
    decreases v, 1
  {
    match v
    case JNull => "null"
    case JBool(b) => if b then "true" else "false"
    case JNumber(n) => if n.Int? then ToString(n.n) else "null"
    case JString(s) => Quote(s)
    case JArray(items) => "[" + StringifyItems(items) + "]"
    case JObject(fs) => "{" + StringifyFields(fs) + "}"
  }

  function StringifyItems(items: seq<Json>): (t: string)
    requires forall i :: 0 <= i < |items| ==> Printable(items[i])
    ensures items != [] ==> t != [] && StartsValue(t[0])
    decreases items, 0
  {
    if items == [] then []
    else if |items| == 1 then Stringify(items[0])
    else Stringify(items[0]) + "," + StringifyItems(items[1..])
  }

  function StringifyFields(fs: seq<Field>): (t: string)
    requires forall i :: 0 <= i < |fs| ==> Printable(fs[i].value)
    ensures fs != [] ==> t != [] && t[0] == '"'
    decreases fs, 0
  {
    if fs == [] then []
    else
      var member := Quote(fs[0].key) + ":" + Stringify(fs[0].value);
      if |fs| == 1 then member else member + "," + StringifyFields(fs[1..])
  }

  /* ---------------- Parsing ---------------- */

  /** The four characters JSON allows as white space. */
  predicate IsWs(c: char)
  {
    c == ' ' || c == '\t' || c == '\n' || c == '\r'
  }

  function SkipWs(s: string): (r: string)
    ensures |r| <= |s|
    ensures r == [] || !IsWs(r[0])
    ensures s == [] || !IsWs(s[0]) ==> r == s
  {
    if s != [] && IsWs(s[0]) then SkipWs(s[1..]) else s
  }

  /** Four hexadecimal digits, either case. */
  function Hex4(s: string): (r: Option<int>)
    requires |s| >= 4
    ensures r.Some? ==> 0 <= r.value < 0x1_0000
  {
    var a, b, c, d := HexValue(s[0]), HexValue(s[1]), HexValue(s[2]), HexValue(s[3]);
    if a < 16 && b < 16 && c < 16 && d < 16 then Some(((a * 16 + b) * 16 + c) * 16 + d) else None
  }

  /**
    The character an escape sequence denotes, read just after its backslash,
    and what follows it. A `\u` escape of a high surrogate must be followed
    by one of a low surrogate; the pair denotes one supplementary character.
   */
  function Unescape(s: string): (r: Option<(char, string)>)
    ensures r.Some? ==> |r.value.1| < |s|
  {
    if s == [] then None
    else if s[0] == '"' then Some(('"', s[1..]))
    else if s[0] == '\\' then Some(('\\', s[1..]))
    else if s[0] == '/' then Some(('/', s[1..]))
    else if s[0] == 'b' then Some((0x08 as char, s[1..]))
    else if s[0] == 'f' then Some((0x0C as char, s[1..]))
    else if s[0] == 'n' then Some(('\n', s[1..]))
    else if s[0] == 'r' then Some(('\r', s[1..]))
    else if s[0] == 't' then Some(('\t', s[1..]))
    else if s[0] == 'u' && |s| >= 5 then
      match Hex4(s[1..5])
      case None => None
      case Some(hi) =>
        if hi < 0xD800 || hi >= 0xE000 then Some((hi as char, s[5..]))
        else if hi >= 0xDC00 || |s| < 11 || s[5] != '\\' || s[6] != 'u' then None
        else
          match Hex4(s[7..11])
          case None => None
          case Some(lo) =>
            if 0xDC00 <= lo < 0xE000 then Some(((0x1_0000 + (hi - 0xD800) * 0x400 + (lo - 0xDC00)) as char, s[11..]))
            else None
    else None
  }

  function Prepend(c: char, r: Result<(string, string), ()>): (r': Result<(string, string), ()>)
    ensures r'.Success? <==> r.Success?
    ensures r.Success? ==> r'.value == ([c] + r.value.0, r.value.1)
  {
    match r
    case Success((t, rest)) => Success(([c] + t, rest))
    case Failure(e) => Failure(e)
  }

  /** The body of a string literal, read after its opening quote up to and including the closing one. */
  function ParseString(s: string): (r: Result<(string, string), ()>)
    ensures r.Success? ==> |r.value.1| < |s|
  {
    if s == [] then Failure(())
    else if s[0] == '"' then Success(([], s[1..]))
    else if s[0] < ' ' then Failure(())
    else if s[0] == '\\' then
      match Unescape(s[1..])
      case None => Failure(())
      case Some((c, rest)) => Prepend(c, ParseString(rest))
    else Prepend(s[0], ParseString(s[1..]))
  }

  /** An optional fraction: a point and at least one digit. */
  function ParseFraction(s: string): (r: Option<(string, string)>)
    ensures r.Some? ==> AllDigits(r.value.0) && |r.value.1| <= |s|
  {
    if s == [] || s[0] != '.' then Some(([], s))
    else
      var (digits, rest) := SplitDigits(s[1..]);
      if digits == [] then None else Some((digits, rest))
  }

  /** An optional exponent: `e` or `E`, an optional sign and at least one digit. */
  function ParseExponent(s: string): (r: Option<(int, string)>)
    ensures r.Some? ==> |r.value.1| <= |s|
  {
    if s == [] || (s[0] != 'e' && s[0] != 'E') then Some((0, s))
    else
      var signed := |s| > 1 && (s[1] == '+' || s[1] == '-');
      var (digits, rest) := SplitDigits(if signed then s[2..] else s[1..]);
      if digits == [] then None else Some((Signed(signed && s[1] == '-', Value(digits)), rest))
  }

  /** A number: an optional minus, an integer part without a leading zero, a fraction and an exponent. */
  function ParseNumber(s: string): (r: Result<(Json, string), ()>)
    ensures r.Success? ==> |r.value.1| < |s|
  {
    var negative := s != [] && s[0] == '-';
    var (intDigits, afterInt) := SplitDigits(if negative then s[1..] else s);
    if intDigits == [] || (intDigits[0] == '0' && |intDigits| > 1) then Failure(())
    else
      match ParseFraction(afterInt)
      case None => Failure(())
      case Some((fracDigits, afterFrac)) =>
        match ParseExponent(afterFrac)
        case None => Failure(())
        case Some((exp, rest)) => Success((JNumber(FromDecimal(negative, intDigits, fracDigits, exp)), rest))
  }

  /** A keyword literal `word` standing for `v`. */
  function ParseKeyword(s: string, word: string, v: Json): (r: Result<(Json, string), ()>)
    requires word != []
    ensures r.Success? ==> |r.value.1| < |s|
  {
    if |s| >= |word| && s[..|word|] == word then Success((v, s[|word|..])) else Failure(())
  }

  /** One JSON value at the start of `s` (no leading white space), and the text after it. */
  function ParseValue(s: string): (r: Result<(Json, string), ()>)
    ensures r.Success? ==> |r.value.1| < |s|
    decreases |s|, 1
  {
    if s == [] then Failure(())
    else
      match s[0]
      case '{' => ParseObject(SkipWs(s[1..]))
      case '[' => ParseArray(SkipWs(s[1..]))
      case '"' =>
        (match ParseString(s[1..])
         case Failure(e) => Failure(e)
         case Success((t, rest)) => Success((JString(t), rest)))
      case 'n' => ParseKeyword(s, "null", JNull)
      case 't' => ParseKeyword(s, "true", JBool(true))
      case 'f' => ParseKeyword(s, "false", JBool(false))
      case _ => ParseNumber(s)
  }

  /** The rest of an array after `[` and white space. */
  function ParseArray(s: string): (r: Result<(Json, string), ()>)
    ensures r.Success? ==> |r.value.1| < |s|
    decreases |s|, 3
  {
    if s != [] && s[0] == ']' then Success((JArray([]), s[1..])) else ParseElements(s, [])
  }

  /** Elements after the ones already read (`acc`), up to and including the closing `]`. */
  function ParseElements(s: string, acc: seq<Json>): (r: Result<(Json, string), ()>)
    ensures r.Success? ==> |r.value.1| < |s|
    decreases |s|, 2
  {
    match ParseValue(s)
    case Failure(e) => Failure(e)
    case Success((v, rest)) =>
      var t := SkipWs(rest);
      if t != [] && t[0] == ',' then ParseElements(SkipWs(t[1..]), acc + [v])
      else if t != [] && t[0] == ']' then Success((JArray(acc + [v]), t[1..]))
      else Failure(())
  }

  /** The rest of an object after `{` and white space. */
  function ParseObject(s: string): (r: Result<(Json, string), ()>)
    ensures r.Success? ==> |r.value.1| < |s|
    decreases |s|, 3
  {
    if s != [] && s[0] == '}' then Success((JObject([]), s[1..])) else ParseMembers(s, [])
  }

  /** Members after the ones already assigned (`acc`), up to and including the closing `}`. */
  function ParseMembers(s: string, acc: seq<Field>): (r: Result<(Json, string), ()>)
    ensures r.Success? ==> |r.value.1| < |s|
    decreases |s|, 2
  {
    if s == [] || s[0] != '"' then Failure(())
    else
      match ParseString(s[1..])
      case Failure(e) => Failure(e)
      case Success((k, afterKey)) =>
        var t := SkipWs(afterKey);
        if t == [] || t[0] != ':' then Failure(())
        else
          match ParseValue(SkipWs(t[1..]))
          case Failure(e) => Failure(e)
          case Success((v, rest)) =>
            var u := SkipWs(rest);
            if u != [] && u[0] == ',' then ParseMembers(SkipWs(u[1..]), Put(acc, k, v))
            else if u != [] && u[0] == '}' then Success((JObject(Put(acc, k, v)), u[1..]))
            else Failure(())
  }

  /** `JSON.parse(text)`: one value with optional white space around it; anything else is a SyntaxError. */
  function Parse(text: string): Result<Json, ()>
  {
    match ParseValue(SkipWs(text))
    case Failure(e) => Failure(e)
    case Success((v, rest)) => if SkipWs(rest) == [] then Success(v) else Failure(())
  }

  /* ---------------- Round trip ---------------- */

  /** A string the printed form of a value may be followed by: the end, a separator or white space. */
  predicate Delimited(rest: string)
  {
    rest == [] || rest[0] == ',' || rest[0] == ']' || rest[0] == '}' || IsWs(rest[0])
  }

  lemma {:induction false} SplitDigitsAppend(d: string, rest: string)
    requires AllDigits(d) && (rest == [] || !IsDigit(rest[0]))
    ensures SplitDigits(d + rest) == (d, rest)
  {
    if d != [] {
      var s := d + rest;
      assert s[0] == d[0] && IsDigit(s[0]);
      assert s[1..] == d[1..] + rest;
      SplitDigitsAppend(d[1..], rest);
      assert [d[0]] + d[1..] == d;
    } else {
      assert d + rest == rest;
    }
  }

  /** The digits of a non-negative integer followed by a delimiter read back as that integer. */
  lemma ParseDigits(negative: bool, m: nat, rest: string)
    requires m <= MaxSafe && Delimited(rest)
    ensures var s := NatToString(m) + rest;
      && SplitDigits(s) == (NatToString(m), rest)
      && ParseFraction(rest) == Some(([], rest))
      && ParseExponent(rest) == Some((0, rest))
      && FromDecimal(negative, NatToString(m), [], 0) == Int(Signed(negative, m))
  {
    SplitDigitsAppend(NatToString(m), rest);
    ValueOfNatToString(m);
    FromDecimalInteger(negative, NatToString(m));
  }

  lemma ParseInteger(n: SafeInt, rest: string)
    requires Delimited(rest)
    ensures ParseNumber(ToString(n) + rest) == Success((JNumber(Int(n)), rest))
  {
    var m: nat := if n < 0 then -n else n;
    var digits := NatToString(m);
    ParseDigits(n < 0, m, rest);
    var s := ToString(n) + rest;
    if n < 0 {
      assert ToString(n) == "-" + digits;
      assert s[0] == '-' && s[1..] == digits + rest;
    } else {
      assert ToString(n) == digits;
      assert s[0] != '-';
    }
  }

  lemma ParseEscapedChar(c: char, t: string)
    ensures ParseString(EscapeChar(c) + t) == Prepend(c, ParseString(t))
  {
    if c < ' ' && c != 0x08 as char && c != 0x0C as char && c != '\n' && c != '\r' && c != '\t' {
      ParseControlEscape(c, t);
    } else if |EscapeChar(c)| == 2 {
      ParseShortEscape(c, t);
    } else {
      var s := EscapeChar(c) + t;
      assert s[1..] == t;
    }
  }

  /** A control character printed as `\u00XX` reads back as itself. */
  lemma ParseControlEscape(c: char, t: string)
    requires c < ' ' && c != 0x08 as char && c != 0x0C as char && c != '\n' && c != '\r' && c != '\t'
    ensures ParseString(EscapeChar(c) + t) == Prepend(c, ParseString(t))
  {
    var s := EscapeChar(c) + t;
    var a, b := c as int / 16, c as int % 16;
    var h1, h2 := HexChar(a), HexChar(b);
    assert s[1..] == ['u', '0', '0', h1, h2] + t;
    assert s[1..][1..5] == ['0', '0', h1, h2];
    assert Hex4(['0', '0', h1, h2]) == Some(a * 16 + b);
    assert a * 16 + b == c as int;
    assert s[1..][5..] == t;
  }

  /** A character printed as a backslash and one letter reads back as itself. */
  lemma ParseShortEscape(c: char, t: string)
    requires |EscapeChar(c)| == 2
    ensures ParseString(EscapeChar(c) + t) == Prepend(c, ParseString(t))
  {
    var s := EscapeChar(c) + t;
    assert s[1..] == [EscapeChar(c)[1]] + t;
    assert s[1..][1..] == t;
  }

  /** A printed string literal reads back as the same string, leaving what follows the closing quote. */
  lemma {:induction false} ParseQuoted(s: string, rest: string)
    ensures ParseString(Escape(s) + "\"" + rest) == Success((s, rest))
  {
    if s == [] {
      assert Escape(s) + "\"" + rest == "\"" + rest;
    } else {
      assert Escape(s) + "\"" + rest == EscapeChar(s[0]) + (Escape(s[1..]) + "\"" + rest);
      ParseEscapedChar(s[0], Escape(s[1..]) + "\"" + rest);
      ParseQuoted(s[1..], rest);
      assert [s[0]] + s[1..] == s;
    }
  }

  lemma ParseStringLiteral(s: string, rest: string)
    ensures ParseValue(Quote(s) + rest) == Success((JString(s), rest))
  {
    var t := Quote(s) + rest;
    assert t[1..] == Escape(s) + "\"" + rest;
    ParseQuoted(s, rest);
  }

  lemma ParseLiteral(v: Json, rest: string)
    requires v.JNull? || v.JBool?
    ensures ParseValue(Stringify(v) + rest) == Success((v, rest))
  {
    var w := Stringify(v);
    var t := w + rest;
    assert t[0] == w[0];
    assert t[..|w|] == w && t[|w|..] == rest;
  }

  lemma ParseNumberValue(n: SafeInt, rest: string)
    requires Delimited(rest)
    ensures ParseValue(Stringify(JNumber(Int(n))) + rest) == Success((JNumber(Int(n)), rest))
  {
    var t := ToString(n) + rest;
    ParseInteger(n, rest);
    assert t[0] == ToString(n)[0];
  }

  /** The printed form of a canonical value reads back as that value, leaving a delimited rest untouched. */
  lemma {:induction false} ParseStringified(v: Json, rest: string)
    requires Canonical(v) && Delimited(rest)
    ensures ParseValue(Stringify(v) + rest) == Success((v, rest))
    decreases v, 2
  {
    match v
    case JNull => ParseLiteral(v, rest);
    case JBool(_) => ParseLiteral(v, rest);
    case JNumber(n) => ParseNumberValue(n.n, rest);
    case JString(s) => ParseStringLiteral(s, rest);
    case JArray(items) => ParseStringifiedArray(items, rest);
    case JObject(fs) => ParseStringifiedObject(fs, rest);
  }

  lemma {:induction false} ParseStringifiedArray(items: seq<Json>, rest: string)
    requires Canonical(JArray(items))
    ensures ParseValue(Stringify(JArray(items)) + rest) == Success((JArray(items), rest))
    decreases items, 1
  {
    var body := StringifyItems(items) + "]" + rest;
    assert Stringify(JArray(items)) + rest == "[" + body;
    OpenBrace('[', body);
    assert SkipWs(body) == body;
    if items == [] {
      assert body == "]" + rest;
    } else {
      assert body[0] != ']';
      assert forall i :: 0 <= i < |items| ==> Printable(items[i]) && Exact(items[i]);
      ParseStringifiedItems(items, [], rest);
      assert [] + items == items;
    }
  }

  lemma {:induction false} ParseStringifiedObject(fs: seq<Field>, rest: string)
    requires Canonical(JObject(fs))
    ensures ParseValue(Stringify(JObject(fs)) + rest) == Success((JObject(fs), rest))
    decreases fs, 2
  {
    var body := StringifyFields(fs) + "}" + rest;
    assert Stringify(JObject(fs)) + rest == "{" + body;
    OpenBrace('{', body);
    assert SkipWs(body) == body;
    if fs == [] {
      assert body == "}" + rest;
    } else {
      assert body[0] != '}';
      assert forall i :: 0 <= i < |fs| ==> Printable(fs[i].value) && Exact(fs[i].value);
      assert [] + fs == fs;
      ParseStringifiedFields(fs, [], rest);
    }
  }

  /** A value opening with `{` or `[` is read as an object or an array. */
  lemma OpenBrace(c: char, body: string)
    requires c == '{' || c == '['
    ensures c == '{' ==> ParseValue([c] + body) == ParseObject(SkipWs(body))
    ensures c == '[' ==> ParseValue([c] + body) == ParseArray(SkipWs(body))
  {
    assert ([c] + body)[1..] == body;
  }

  lemma ElementsNext(s: string, v: Json, more: string, acc: seq<Json>)
    requires ParseValue(s) == Success((v, "," + more)) && SkipWs(more) == more
    ensures ParseElements(s, acc) == ParseElements(more, acc + [v])
  {
    assert ("," + more)[1..] == more;
  }

  lemma ElementsLast(s: string, v: Json, rest: string, acc: seq<Json>)
    requires ParseValue(s) == Success((v, "]" + rest))
    ensures ParseElements(s, acc) == Success((JArray(acc + [v]), rest))
  {
    assert ("]" + rest)[1..] == rest;
  }

  /** Regrouping a printed sequence `h c m e rest` around its first part. */
  lemma Regroup(h: string, c: string, m: string, e: string, rest: string)
    ensures h + c + m + e + rest == h + (c + (m + e + rest))
    ensures h + e + rest == h + (e + rest)
  {
  }

  /** The printed elements of a one-element array. */
  lemma SingleItemText(items: seq<Json>, rest: string)
    requires |items| == 1 && Printable(items[0])
    ensures StringifyItems(items) + "]" + rest == Stringify(items[0]) + ("]" + rest)
  {
    Regroup(Stringify(items[0]), ",", "", "]", rest);
  }

  /** The printed elements of a longer array: the first one, a comma, and the others. */
  lemma ItemsText(items: seq<Json>, rest: string)
    requires |items| > 1 && forall i :: 0 <= i < |items| ==> Printable(items[i])
    ensures StringifyItems(items) + "]" + rest == Stringify(items[0]) + ("," + (StringifyItems(items[1..]) + "]" + rest))
  {
    Regroup(Stringify(items[0]), ",", StringifyItems(items[1..]), "]", rest);
  }

  lemma {:induction false} ParseStringifiedItems(items: seq<Json>, acc: seq<Json>, rest: string)
    requires items != [] && forall i :: 0 <= i < |items| ==> Printable(items[i]) && Exact(items[i])
    ensures ParseElements(StringifyItems(items) + "]" + rest, acc) == Success((JArray(acc + items), rest))
    decreases items, 0
  {
    var head := Stringify(items[0]);
    assert Canonical(items[0]);
    if |items| == 1 {
      SingleItemText(items, rest);
      ParseStringified(items[0], "]" + rest);
      ElementsLast(head + ("]" + rest), items[0], rest, acc);
      assert acc + [items[0]] == acc + items;
    } else {
      var later := items[1..];
      assert forall i :: 0 <= i < |later| ==> later[i] == items[i + 1];
      ItemsText(items, rest);
      var more := StringifyItems(later) + "]" + rest;
      ParseStringified(items[0], "," + more);
      assert SkipWs(more) == more;
      ElementsNext(head + ("," + more), items[0], more, acc);
      ParseStringifiedItems(later, acc + [items[0]], rest);
      SplitFirst(acc, items);
    }
  }

  lemma MembersNext(s: string, k: string, w: string, v: Json, more: string, acc: seq<Field>)
    requires s != [] && s[0] == '"' && ParseString(s[1..]) == Success((k, ":" + w))
    requires SkipWs(w) == w && ParseValue(w) == Success((v, "," + more)) && SkipWs(more) == more
    ensures ParseMembers(s, acc) == ParseMembers(more, Put(acc, k, v))
  {
    assert (":" + w)[1..] == w;
    assert ("," + more)[1..] == more;
  }

  lemma MembersLast(s: string, k: string, w: string, v: Json, rest: string, acc: seq<Field>)
    requires s != [] && s[0] == '"' && ParseString(s[1..]) == Success((k, ":" + w))
    requires SkipWs(w) == w && ParseValue(w) == Success((v, "}" + rest))
    ensures ParseMembers(s, acc) == Success((JObject(Put(acc, k, v)), rest))
  {
    assert (":" + w)[1..] == w;
    assert ("}" + rest)[1..] == rest;
  }

  /** The printed members of a one-member object. */
  lemma SingleFieldText(fs: seq<Field>, rest: string)
    requires |fs| == 1 && Printable(fs[0].value)
    ensures StringifyFields(fs) + "}" + rest == Quote(fs[0].key) + (":" + (Stringify(fs[0].value) + ("}" + rest)))
  {
    var q, h := Quote(fs[0].key), Stringify(fs[0].value);
    assert StringifyFields(fs) == q + ":" + h;
    Regroup(q, ":", h, "}", rest);
    Regroup(h, ",", "", "}", rest);
  }

  /** The printed members of a larger object: key, colon and value, a comma, and the others. */
  lemma FieldsText(fs: seq<Field>, rest: string)
    requires |fs| > 1 && forall i :: 0 <= i < |fs| ==> Printable(fs[i].value)
    ensures StringifyFields(fs) + "}" + rest
      == Quote(fs[0].key) + (":" + (Stringify(fs[0].value) + ("," + (StringifyFields(fs[1..]) + "}" + rest))))
  {
    var q, h, m := Quote(fs[0].key), Stringify(fs[0].value), StringifyFields(fs[1..]);
    assert StringifyFields(fs) == q + ":" + h + "," + m;
    MemberRegroup(q, h, m, rest);
  }

  lemma MemberRegroup(q: string, h: string, m: string, rest: string)
    ensures q + ":" + h + "," + m + "}" + rest == q + (":" + (h + ("," + (m + "}" + rest))))
  {
  }

  /** The key of the first member reads back, leaving the colon and what follows it. */
  lemma ParseKeyText(k: string, w: string)
    ensures var t := Quote(k) + (":" + w); t[0] == '"' && ParseString(t[1..]) == Success((k, ":" + w))
  {
    var t := Quote(k) + (":" + w);
    assert t[1..] == Escape(k) + "\"" + (":" + w);
    ParseQuoted(k, ":" + w);
  }

  /** A printed member reads back as its key and value, and assigning it appends it to an ordered object. */
  lemma FirstMember(f: Field, acc: seq<Field>, tail: string)
    requires Ordered(acc + [f]) && Canonical(f.value) && Delimited(tail)
    ensures var w := Stringify(f.value) + tail; var t := Quote(f.key) + (":" + w);
      && t != [] && t[0] == '"' && ParseString(t[1..]) == Success((f.key, ":" + w))
      && SkipWs(w) == w && ParseValue(w) == Success((f.value, tail))
      && Put(acc, f.key, f.value) == acc + [f]
  {
    var w := Stringify(f.value) + tail;
    ParseKeyText(f.key, w);
    assert w[0] == Stringify(f.value)[0];
    ParseStringified(f.value, tail);
    PutLast(acc, f);
  }

  lemma {:induction false} ParseStringifiedFields(fs: seq<Field>, acc: seq<Field>, rest: string)
    requires fs != [] && Ordered(acc + fs)
    requires forall i :: 0 <= i < |fs| ==> Printable(fs[i].value) && Exact(fs[i].value)
    ensures ParseMembers(StringifyFields(fs) + "}" + rest, acc) == Success((JObject(acc + fs), rest))
    decreases fs, 1
  {
    var f := fs[0];
    assert Canonical(f.value);
    OrderedFirst(acc, fs);
    if |fs| == 1 {
      ParseLastField(fs, acc, rest);
    } else {
      var later := fs[1..];
      assert forall i :: 0 <= i < |later| ==> later[i] == fs[i + 1];
      FieldsText(fs, rest);
      var more := StringifyFields(later) + "}" + rest;
      assert SkipWs(more) == more;
      FirstMember(f, acc, "," + more);
      var w := Stringify(f.value) + ("," + more);
      MembersNext(Quote(f.key) + (":" + w), f.key, w, f.value, more, acc);
      SplitFirst(acc, fs);
      ParseStringifiedFields(later, acc + [f], rest);
    }
  }

  lemma {:induction false} ParseLastField(fs: seq<Field>, acc: seq<Field>, rest: string)
    requires |fs| == 1 && Ordered(acc + fs) && Canonical(fs[0].value)
    ensures ParseMembers(StringifyFields(fs) + "}" + rest, acc) == Success((JObject(acc + fs), rest))
    decreases fs, 0
  {
    var f := fs[0];
    assert acc + [f] == acc + fs;
    SingleFieldText(fs, rest);
    FirstMember(f, acc, "}" + rest);
    var w := Stringify(f.value) + ("}" + rest);
    MembersLast(Quote(f.key) + (":" + w), f.key, w, f.value, rest, acc);
  }

  lemma SplitFirst<T>(acc: seq<T>, xs: seq<T>)
    requires xs != []
    ensures acc + [xs[0]] + xs[1..] == acc + xs
  {
    assert [xs[0]] + xs[1..] == xs;
  }

  lemma OrderedFirst(acc: seq<Field>, fs: seq<Field>)
    requires fs != [] && Ordered(acc + fs)
    ensures Ordered(acc + [fs[0]])
  {
    assert (acc + fs)[..|acc| + 1] == acc + [fs[0]];
    OrderedPrefix(acc + fs, |acc| + 1);
  }

  lemma OrderedPrefix(fs: seq<Field>, n: nat)
    requires Ordered(fs) && n <= |fs|
    ensures Ordered(fs[..n])
  {
  }

  /** `JSON.parse(JSON.stringify(v))` is `v` for every canonical value. */
  lemma RoundTrip(v: Json)
    requires Canonical(v)
    ensures Parse(Stringify(v)) == Success(v)
  {
    ParseStringified(v, []);
    assert Stringify(v) + [] == Stringify(v);
  }
}
