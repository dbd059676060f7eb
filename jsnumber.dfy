/**
  JavaScript numbers, tracked exactly where they are safe integers.
  `String(n)` and `JSON.stringify(n)` print a safe integer in plain decimal;
  `Number(s)` reads a string by the StringNumericLiteral grammar of
  ECMAScript.
 */
module JsNumber {
  import opened Wrappers
  import opened Decimal

  /** `Number.MAX_SAFE_INTEGER`, 2^53 - 1. */
  const MaxSafe: int := 0x1F_FFFF_FFFF_FFFF

  type SafeInt = n: int | -MaxSafe <= n <= MaxSafe

  /**
    A JavaScript number: a safe integer (negative zero counts as 0), NaN, or
    any other double (a fraction, an infinity, an integer beyond the safe
    range), which the model does not tell apart.
   */
  datatype Number = Int(n: SafeInt) | NaN | OtherNumber

  /** `String(n)` for a safe integer. */
  function ToString(n: SafeInt): (s: string)
    ensures |s| >= 1
  {
    IntToString(n)
  }

  /**
    The number a decimal literal denotes: the sign, the digits before and
    after the point, and the exponent, so that the exact value is
    `±(int.frac) × 10^exp`. It is `Int` exactly when that value is a safe integer.
   */
  function FromDecimal(negative: bool, intDigits: string, fracDigits: string, exp: int): (r: Number)
    requires AllDigits(intDigits) && AllDigits(fracDigits)
    ensures r != NaN
  {
    ValueAppend(intDigits, fracDigits);
    var mantissa := Value(intDigits + fracDigits);
    var scale := exp - |fracDigits|;
    var magnitude :=
      if scale >= 0 then Some(mantissa * Pow10(scale))
      else if mantissa % Pow10(-scale) == 0 then Some(mantissa / Pow10(-scale))
      else None;
    if magnitude.Some? && magnitude.value <= MaxSafe then
      Int(if negative then -magnitude.value else magnitude.value)
    else OtherNumber
  }

  /** An integer with no point and no exponent denotes itself. */
  lemma FromDecimalInteger(negative: bool, digits: string)
    requires AllDigits(digits) && Value(digits) <= MaxSafe
    ensures FromDecimal(negative, digits, "", 0) == Int(Signed(negative, Value(digits)))
  {
    assert digits + "" == digits;
  }

  function Signed(negative: bool, magnitude: nat): int
  {
    var m: int := magnitude;
    if negative then -m else m
  }

  /** StrWhiteSpaceChar: the white space and line terminators `Number(s)` trims. */
  predicate IsStrWhiteSpace(c: char)
  {
    c == '\t' || c == '\n' || c == 0x0B as char || c == 0x0C as char || c == '\r' || c == ' '
    || c == 0xA0 as char || c == 0x1680 as char || (0x2000 as char <= c <= 0x200A as char)
    || c == 0x2028 as char || c == 0x2029 as char || c == 0x202F as char || c == 0x205F as char
    || c == 0x3000 as char || c == 0xFEFF as char
  }

  function TrimStart(s: string): (r: string)
    ensures |r| <= |s| && r == s[|s| - |r|..]
    ensures r == [] || !IsStrWhiteSpace(r[0])
  {
    if s != [] && IsStrWhiteSpace(s[0]) then TrimStart(s[1..]) else s
  }

  function TrimEnd(s: string): (r: string)
    ensures |r| <= |s| && r == s[..|r|]
    ensures r == [] || !IsStrWhiteSpace(r[|r| - 1])
  {
    if s != [] && IsStrWhiteSpace(s[|s| - 1]) then TrimEnd(s[..|s| - 1]) else s
  }

  /** The longest prefix of digits and what follows it. */
  function SplitDigits(s: string): (r: (string, string))
    ensures AllDigits(r.0) && r.0 + r.1 == s
    ensures r.1 == [] || !IsDigit(r.1[0])
  {
    if s != [] && IsDigit(s[0]) then
      var (d, rest) := SplitDigits(s[1..]);
      assert [s[0]] + (d + rest) == s;
      ([s[0]] + d, rest)
    else ([], s)
  }

  /** The value a digit string has in base 2, 8 or 16. */
  function RadixValue(s: string, radix: nat): nat
  {
    if s == [] then 0 else RadixValue(s[..|s| - 1], radix) * radix + RadixDigit(s[|s| - 1])
  }

  function RadixDigit(c: char): nat
  {
    if '0' <= c <= '9' then c as int - '0' as int
    else if 'a' <= c <= 'z' then c as int - 'a' as int + 10
    else if 'A' <= c <= 'Z' then c as int - 'A' as int + 10
    else 36
  }

  predicate AllRadixDigits(s: string, radix: nat)
  {
    forall i :: 0 <= i < |s| ==> RadixDigit(s[i]) < radix
  }

  /** The exponent part `[eE][+-]?digits`, which must end the literal; `Some(0)` when there is none. */
  function Exponent(s: string): Option<int>
  {
    if s == [] then Some(0)
    else if s[0] != 'e' && s[0] != 'E' then None
    else
      var negative := |s| > 1 && s[1] == '-';
      var digits := if |s| > 1 && (s[1] == '+' || s[1] == '-') then s[2..] else s[1..];
      if digits != [] && AllDigits(digits) then Some(Signed(negative, Value(digits)))
      else None
  }

  /** StrUnsignedDecimalLiteral: `Infinity`, or digits with an optional point, fraction and exponent. */
  function UnsignedDecimal(negative: bool, s: string): Option<Number>
  {
    if s == "Infinity" then Some(OtherNumber)
    else
      var (intDigits, afterInt) := SplitDigits(s);
      var hasPoint := afterInt != [] && afterInt[0] == '.';
      var (fracDigits, afterFrac) := if hasPoint then SplitDigits(afterInt[1..]) else ([], afterInt);
      if intDigits == [] && fracDigits == [] then None
      else
        match Exponent(afterFrac)
        case None => None
        case Some(e) => Some(FromDecimal(negative, intDigits, fracDigits, e))
  }

  /** A `0x`, `0o` or `0b` literal (no sign allowed). */
  function NonDecimal(s: string): Option<Number>
  {
    if |s| < 3 || s[0] != '0' then None
    else
      var radix := if s[1] in "xX" then 16 else if s[1] in "oO" then 8 else if s[1] in "bB" then 2 else 0;
      if radix != 0 && AllRadixDigits(s[2..], radix) then
        var v := RadixValue(s[2..], radix);
        Some(if v <= MaxSafe then Int(v) else OtherNumber)
      else None
  }

  /** `Number(s)`: white space is trimmed, the empty string is 0, anything unreadable is NaN. */
  function StringToNumber(s: string): (r: Number)
  {
    var t := TrimEnd(TrimStart(s));
    if t == [] then Int(0)
    else
      match NonDecimal(t)
      case Some(x) => x
      case None =>
        var unsigned :=
          if t[0] == '+' || t[0] == '-' then UnsignedDecimal(t[0] == '-', t[1..]) else UnsignedDecimal(false, t);
        match unsigned
        case Some(x) => x
        case None => NaN
  }

  lemma {:induction false} SplitAllDigits(s: string)
    requires AllDigits(s)
    ensures SplitDigits(s) == (s, [])
  {
    if s != [] {
      SplitAllDigits(s[1..]);
      assert [s[0]] + s[1..] == s;
    }
  }

  lemma UnsignedDigits(negative: bool, digits: string)
    requires digits != [] && AllDigits(digits) && Value(digits) <= MaxSafe
    ensures UnsignedDecimal(negative, digits) == Some(Int(Signed(negative, Value(digits))))
  {
    SplitAllDigits(digits);
    assert SplitDigits([]) == ([], []);
    FromDecimalInteger(negative, digits);
  }

  lemma TrimNothing(s: string)
    requires s != [] && !IsStrWhiteSpace(s[0]) && !IsStrWhiteSpace(s[|s| - 1])
    ensures TrimEnd(TrimStart(s)) == s
  {
  }

  lemma NumberOfDigits(digits: string)
    requires digits != [] && AllDigits(digits) && Value(digits) <= MaxSafe
    requires digits[0] == '0' ==> digits == "0"
    ensures StringToNumber(digits) == Int(Value(digits))
  {
    TrimNothing(digits);
    assert NonDecimal(digits) == None;
    UnsignedDigits(false, digits);
  }

  lemma NumberOfNegatedDigits(s: string)
    requires |s| >= 2 && s[0] == '-'
    requires AllDigits(s[1..]) && Value(s[1..]) <= MaxSafe
    ensures StringToNumber(s) == Int(Signed(true, Value(s[1..])))
  {
    assert IsDigit(s[1..][|s| - 2]);
    TrimNothing(s);
    assert NonDecimal(s) == None;
    UnsignedDigits(true, s[1..]);
  }

  /** `Number(String(n))` is `n` for every safe integer. */
  lemma StringToNumberToString(n: SafeInt)
    ensures StringToNumber(ToString(n)) == Int(n)
  {
    var m: nat := if n < 0 then -n else n;
    ValueOfNatToString(m);
    if n < 0 {
      assert ToString(n)[1..] == NatToString(m);
      NumberOfNegatedDigits(ToString(n));
    } else {
      NumberOfDigits(NatToString(m));
    }
  }
}
