/**
  JavaScript `Date` values as their time value: integer milliseconds since
  1970-01-01T00:00:00Z, within the range ECMAScript's TimeClip admits, or an
  invalid date. `toISOString` prints the Date Time String Format of
  ECMAScript in UTC; `new Date(s)` reads that format back.
 */
module JsDate {
  import opened Wrappers
  import opened Decimal

  const MsPerDay: int := 86_400_000

  /** The largest magnitude TimeClip keeps: 8.64e15 ms, 100 000 000 days. */
  const MaxTime: int := 8_640_000_000_000_000

  type TimeValue = t: int | -MaxTime <= t <= MaxTime

  datatype DateValue = Valid(time: TimeValue) | Invalid

  /** TimeClip on an integer time: out of range gives an invalid date. */
  function TimeClip(t: int): (d: DateValue)
    ensures d.Valid? <==> -MaxTime <= t <= MaxTime
    ensures d.Valid? ==> d.time == t
  {
    if -MaxTime <= t <= MaxTime then Valid(t) else Invalid
  }

  predicate InLeapYear(y: int)
  {
    (y % 4 == 0 && y % 100 != 0) || y % 400 == 0
  }

  function DaysInYear(y: int): int
  {
    if InLeapYear(y) then 366 else 365
  }

  /** The day number of the first day of year `y` (DayFromYear of ECMAScript). */
  function DayFromYear(y: int): int
  {
    365 * (y - 1970) + (y - 1969) / 4 - (y - 1901) / 100 + (y - 1601) / 400
  }

  lemma FloorStep(a: int, k: int)
    requires k == 4 || k == 100 || k == 400
    ensures (a + 1) / k - a / k == if (a + 1) % k == 0 then 1 else 0
  {
    if k == 4 {
    } else if k == 100 {
    } else {
    }
  }

  /** Consecutive years are a year's length apart. */
  lemma DayFromNextYear(y: int)
    ensures DayFromYear(y + 1) - DayFromYear(y) == DaysInYear(y)
  {
    FloorStep(y - 1969, 4);
    FloorStep(y - 1901, 100);
    FloorStep(y - 1601, 400);
    CycleShift(y);
    var a := (y + 1 - 1969) / 4 - (y - 1969) / 4;
    var b := (y + 1 - 1901) / 100 - (y - 1901) / 100;
    var c := (y + 1 - 1601) / 400 - (y - 1601) / 400;
    assert DayFromYear(y + 1) - DayFromYear(y) == 365 + a - b + c;
  }

  /** Shifting a year by whole leap cycles keeps its place in each cycle. */
  lemma CycleShift(y: int)
    ensures (y + 1 - 1969) % 4 == y % 4
    ensures (y + 1 - 1901) % 100 == y % 100
    ensures (y + 1 - 1601) % 400 == y % 400
  {
    ShiftMod(y, 4, 492);
    ShiftMod(y, 100, 19);
    ShiftMod(y, 400, 4);
  }

  lemma ShiftMod(y: int, k: int, m: int)
    requires k > 0
    ensures (y - k * m) % k == y % k
  {
    var q, r := y / k, y % k;
    assert y - k * m == k * (q - m) + r;
    DivModUnique(y - k * m, k, q - m, r);
  }

  /** Euclidean division has one quotient and one remainder. */
  lemma DivModUnique(a: int, k: int, q: int, r: int)
    requires k > 0 && a == k * q + r && 0 <= r < k
    ensures a % k == r
  {
    var q', r' := a / k, a % k;
    assert k * q' + r' == k * q + r;
    if q' > q {
      assert k * q' >= k * (q + 1) by { MulMonotone(k, q + 1, q'); }
    } else if q' < q {
      assert k * q >= k * (q' + 1) by { MulMonotone(k, q' + 1, q); }
    }
  }

  lemma MulMonotone(k: int, a: int, b: int)
    requires k > 0 && a <= b
    ensures k * a <= k * b
  {
  }

  /** Searching upwards from a year that starts no later than day `d`. */
  function YearUp(d: int, y: int): (r: int)
    requires DayFromYear(y) <= d
    ensures DayFromYear(r) <= d < DayFromYear(r + 1)
    decreases d - DayFromYear(y)
  {
    DayFromNextYear(y);
    if DayFromYear(y + 1) <= d then YearUp(d, y + 1) else y
  }

  /** Searching downwards from a year that ends after day `d`. */
  function YearDown(d: int, y: int): (r: int)
    requires d < DayFromYear(y + 1)
    ensures DayFromYear(r) <= d < DayFromYear(r + 1)
    decreases DayFromYear(y + 1) - d
  {
    DayFromNextYear(y);
    if DayFromYear(y) <= d then y else YearDown(d, y - 1)
  }

  /** The year that day `d` falls in. */
  function YearFromDay(d: int): (y: int)
    ensures DayFromYear(y) <= d < DayFromYear(y + 1)
  {
    if d >= 0 then YearUp(d, 1970) else YearDown(d, 1969)
  }

  /** Days before the first day of month `m` (0 = January) in a year of the given kind. */
  function MonthStart(m: int, leap: bool): int
    requires 0 <= m <= 12
  {
    var l := if leap then 1 else 0;
    if m == 0 then 0 else if m == 1 then 31 else if m == 2 then 59 + l
    else if m == 3 then 90 + l else if m == 4 then 120 + l else if m == 5 then 151 + l
    else if m == 6 then 181 + l else if m == 7 then 212 + l else if m == 8 then 243 + l
    else if m == 9 then 273 + l else if m == 10 then 304 + l else if m == 11 then 334 + l
    else 365 + l
  }

  /** The month (0 = January) that day `dy` of the year falls in. */
  function MonthFromDayInYear(dy: int, leap: bool): (m: int)
    requires 0 <= dy < MonthStart(12, leap)
    ensures 0 <= m < 12 && MonthStart(m, leap) <= dy < MonthStart(m + 1, leap)
  {
    if dy < MonthStart(1, leap) then 0 else if dy < MonthStart(2, leap) then 1
    else if dy < MonthStart(3, leap) then 2 else if dy < MonthStart(4, leap) then 3
    else if dy < MonthStart(5, leap) then 4 else if dy < MonthStart(6, leap) then 5
    else if dy < MonthStart(7, leap) then 6 else if dy < MonthStart(8, leap) then 7
    else if dy < MonthStart(9, leap) then 8 else if dy < MonthStart(10, leap) then 9
    else if dy < MonthStart(11, leap) then 10 else 11
  }

  /** The calendar fields of a time value in UTC; `month` and `day` count from 1. */
  datatype Fields = Fields(year: int, month: int, day: int, hour: int, minute: int, second: int, ms: int)

  /** MakeDay and MakeTime composed: the time value of a set of fields taken at face value. */
  function TimeOf(f: Fields): int
    requires 1 <= f.month <= 12
  {
    (DayFromYear(f.year) + MonthStart(f.month - 1, InLeapYear(f.year)) + f.day - 1) * MsPerDay
    + f.hour * 3_600_000 + f.minute * 60_000 + f.second * 1000 + f.ms
  }

  predicate InRange(f: Fields)
  {
    && 1 <= f.month <= 12
    && 1 <= f.day <= MonthStart(f.month, InLeapYear(f.year)) - MonthStart(f.month - 1, InLeapYear(f.year))
    && 0 <= f.hour < 24 && 0 <= f.minute < 60 && 0 <= f.second < 60 && 0 <= f.ms < 1000
  }

  /** Years of days within TimeClip's range need at most six digits. */
  lemma YearFromDayBound(d: int)
    requires -100_000_000 <= d <= 100_000_000
    ensures -999_999 <= YearFromDay(d) <= 999_999
  {
    var y := YearFromDay(d);
    assert DayFromYear(1_000_000) > 100_000_000;
    assert DayFromYear(-999_999) < -100_000_000;
    DayFromYearMonotone(y, 1_000_000);
    DayFromYearMonotone(-999_999, y);
  }

  /** The hour, minute, second and millisecond of a time within a day. */
  lemma SplitTimeInDay(x: int)
    requires 0 <= x < MsPerDay
    ensures 0 <= x / 3_600_000 < 24 && 0 <= (x / 60_000) % 60 < 60 && 0 <= (x / 1000) % 60 < 60
    ensures x == (x / 3_600_000) * 3_600_000 + ((x / 60_000) % 60) * 60_000 + ((x / 1000) % 60) * 1000 + x % 1000
  {
  }

  lemma YearLength(y: int)
    ensures DayFromYear(y + 1) - DayFromYear(y) == MonthStart(12, InLeapYear(y))
  {
    DayFromNextYear(y);
  }

  /** The year, month (from 1) and day of the month (from 1) of day number `d`. */
  function CalendarDate(d: int): (r: (int, int, int))
    ensures 1 <= r.1 <= 12
    ensures 1 <= r.2 <= MonthStart(r.1, InLeapYear(r.0)) - MonthStart(r.1 - 1, InLeapYear(r.0))
    ensures DayFromYear(r.0) + MonthStart(r.1 - 1, InLeapYear(r.0)) + r.2 - 1 == d
  {
    var y := YearFromDay(d);
    var leap := InLeapYear(y);
    var dy := d - DayFromYear(y);
    YearLength(y);
    var m := MonthFromDayInYear(dy, leap);
    assert m + 1 - 1 == m;
    (y, m + 1, dy - MonthStart(m, leap) + 1)
  }

  /** Splits a time value into its UTC calendar fields. */
  function FieldsOf(t: TimeValue): (f: Fields)
    ensures InRange(f) && TimeOf(f) == t
    ensures -999_999 <= f.year <= 999_999
  {
    var day := t / MsPerDay;
    var inDay := t % MsPerDay;
    YearFromDayBound(day);
    SplitTimeInDay(inDay);
    var (y, m, d) := CalendarDate(day);
    Fields(y, m, d, inDay / 3_600_000, (inDay / 60_000) % 60, (inDay / 1000) % 60, inDay % 1000)
  }

  lemma {:induction false} DayFromYearMonotone(a: int, b: int)
    ensures a < b ==> DayFromYear(a) < DayFromYear(b)
    ensures a >= b ==> DayFromYear(a) >= DayFromYear(b)
    decreases if a < b then b - a else a - b
  {
    if a < b {
      DayFromNextYear(a);
      DayFromYearMonotone(a + 1, b);
    } else if a > b {
      DayFromNextYear(b);
      DayFromYearMonotone(a, b + 1);
    }
  }

  /** `n` in exactly `w` digits, zero-padded on the left. */
  function Pad(n: nat, w: nat): (s: string)
    ensures |s| == w && AllDigits(s)
  {
    if w == 0 then [] else Pad(n / 10, w - 1) + [DigitChar(n % 10)]
  }

  lemma {:induction false} ValueOfPad(n: nat, w: nat)
    requires n < Pow10(w)
    ensures Value(Pad(n, w)) == n
  {
    if w > 0 {
      var s := Pad(n, w);
      assert s[..|s| - 1] == Pad(n / 10, w - 1);
      ValueOfPad(n / 10, w - 1);
    }
  }

  /** The year as `toISOString` prints it: four digits for 0..9999, otherwise a sign and six digits. */
  function YearText(y: int): (s: string)
    requires -999_999 <= y <= 999_999
    ensures |s| == 4 || |s| == 7
  {
    if 0 <= y <= 9999 then Pad(y, 4)
    else if y < 0 then "-" + Pad(-y, 6)
    else "+" + Pad(y, 6)
  }

  function Digit(c: char): int
  {
    c as int - '0' as int
  }

  /** Everything after the year: `-MM-DDTHH:mm:ss.sssZ`. */
  function RestText(f: Fields): (s: string)
    requires InRange(f)
    ensures |s| == 20
  {
    [ '-', DigitChar(f.month / 10), DigitChar(f.month % 10),
      '-', DigitChar(f.day / 10), DigitChar(f.day % 10),
      'T', DigitChar(f.hour / 10), DigitChar(f.hour % 10),
      ':', DigitChar(f.minute / 10), DigitChar(f.minute % 10),
      ':', DigitChar(f.second / 10), DigitChar(f.second % 10),
      '.', DigitChar(f.ms / 100), DigitChar((f.ms / 10) % 10), DigitChar(f.ms % 10),
      'Z' ]
  }

  /** `date.toISOString()`; an invalid date makes it throw a RangeError. */
  function ToIsoString(d: DateValue): (r: Result<string, ()>)
    ensures r.Success? <==> d.Valid?
    ensures r.Success? ==> |r.value| == 24 || |r.value| == 27
  {
    match d
    case Invalid => Failure(())
    case Valid(t) =>
      var f := FieldsOf(t);
      Success(YearText(f.year) + RestText(f))
  }

  /** The positions of `-MM-DDTHH:mm:ss.sssZ` that hold digits. */
  predicate FieldDigits(r: string)
    requires |r| == 20
  {
    && IsDigit(r[1]) && IsDigit(r[2]) && IsDigit(r[4]) && IsDigit(r[5]) && IsDigit(r[7]) && IsDigit(r[8])
    && IsDigit(r[10]) && IsDigit(r[11]) && IsDigit(r[13]) && IsDigit(r[14])
    && IsDigit(r[16]) && IsDigit(r[17]) && IsDigit(r[18])
  }

  /** Reads the 20 characters after the year, checking every separator and field range. */
  function ParseRest(year: int, r: string): (f: Option<Fields>)
    requires |r| == 20
    ensures f.Some? ==> InRange(f.value) && f.value.year == year
  {
    if r[0] != '-' || r[3] != '-' || r[6] != 'T' || r[9] != ':' || r[12] != ':' || r[15] != '.' || r[19] != 'Z' then None
    else if !FieldDigits(r) then None
    else
      var f := Fields(year, Digit(r[1]) * 10 + Digit(r[2]), Digit(r[4]) * 10 + Digit(r[5]),
                      Digit(r[7]) * 10 + Digit(r[8]), Digit(r[10]) * 10 + Digit(r[11]),
                      Digit(r[13]) * 10 + Digit(r[14]), Digit(r[16]) * 100 + Digit(r[17]) * 10 + Digit(r[18]));
      if InRange(f) then Some(f) else None
  }

  /**
    `new Date(s)` for a string in the Date Time String Format with every
    field present and a `Z` offset, the shape `toISOString` prints. `None`
    for any other string: what an engine does with those is
    implementation-defined, and the model does not say.
   */
  function ParseIso(s: string): (r: Option<DateValue>)
  {
    if |s| == 24 && AllDigits(s[..4]) then
      match ParseRest(Value(s[..4]), s[4..])
      case None => None
      case Some(f) => Some(TimeClip(TimeOf(f)))
    else if |s| == 27 && (s[0] == '+' || s[0] == '-') && AllDigits(s[1..7]) then
      var magnitude := Value(s[1..7]);
      if s[0] == '-' && magnitude == 0 then Some(Invalid)
      else
        match ParseRest(if s[0] == '-' then 0 - magnitude else magnitude, s[7..])
        case None => None
        case Some(f) => Some(TimeClip(TimeOf(f)))
    else None
  }

  lemma ParseRestText(f: Fields)
    requires InRange(f)
    ensures ParseRest(f.year, RestText(f)) == Some(f)
  {
    var r := RestText(f);
    assert FieldDigits(r);
    TwoDigits(f.month);
    TwoDigits(f.day);
    TwoDigits(f.hour);
    TwoDigits(f.minute);
    TwoDigits(f.second);
    ThreeDigits(f.ms);
    assert Fields(f.year, Digit(r[1]) * 10 + Digit(r[2]), Digit(r[4]) * 10 + Digit(r[5]),
                  Digit(r[7]) * 10 + Digit(r[8]), Digit(r[10]) * 10 + Digit(r[11]),
                  Digit(r[13]) * 10 + Digit(r[14]), Digit(r[16]) * 100 + Digit(r[17]) * 10 + Digit(r[18])) == f;
  }

  lemma TwoDigits(n: int)
    requires 0 <= n < 100
    ensures Digit(DigitChar(n / 10)) * 10 + Digit(DigitChar(n % 10)) == n
  {
  }

  lemma ThreeDigits(n: int)
    requires 0 <= n < 1000
    ensures Digit(DigitChar(n / 100)) * 100 + Digit(DigitChar((n / 10) % 10)) * 10 + Digit(DigitChar(n % 10)) == n
  {
  }

  lemma ParseFourDigitYear(f: Fields)
    requires InRange(f) && 0 <= f.year <= 9999
    ensures ParseIso(Pad(f.year, 4) + RestText(f)) == Some(TimeClip(TimeOf(f)))
  {
    var s := Pad(f.year, 4) + RestText(f);
    assert s[..4] == Pad(f.year, 4) && s[4..] == RestText(f);
    ValueOfPad(f.year, 4);
    ParseRestText(f);
  }

  lemma ParseSixDigitYear(f: Fields, sign: char)
    requires InRange(f) && -999_999 <= f.year <= 999_999 && !(0 <= f.year <= 9999)
    requires sign == if f.year < 0 then '-' else '+'
    ensures ParseIso([sign] + Pad(if f.year < 0 then -f.year else f.year, 6) + RestText(f)) == Some(TimeClip(TimeOf(f)))
  {
    var m := if f.year < 0 then -f.year else f.year;
    var s := [sign] + Pad(m, 6) + RestText(f);
    assert s[0] == sign && s[1..7] == Pad(m, 6) && s[7..] == RestText(f);
    ValueOfPad(m, 6);
    ParseRestText(f);
  }

  /** Whatever the year, the printed fields read back as the same fields. */
  lemma ParseYearText(f: Fields)
    requires InRange(f) && -999_999 <= f.year <= 999_999
    ensures ParseIso(YearText(f.year) + RestText(f)) == Some(TimeClip(TimeOf(f)))
  {
    if 0 <= f.year <= 9999 {
      ParseFourDigitYear(f);
    } else if f.year < 0 {
      ParseSixDigitYear(f, '-');
      assert YearText(f.year) == ['-'] + Pad(-f.year, 6);
    } else {
      ParseSixDigitYear(f, '+');
      assert YearText(f.year) == ['+'] + Pad(f.year, 6);
    }
  }

  /** Printing a valid date and reading it back gives the same time value, to the millisecond. */
  lemma ParseToIsoString(t: TimeValue)
    ensures ToIsoString(Valid(t)).Success?
    ensures ParseIso(ToIsoString(Valid(t)).value) == Some(Valid(t))
  {
    var f := FieldsOf(t);
    assert ToIsoString(Valid(t)).value == YearText(f.year) + RestText(f);
    ParseYearText(f);
  }
}
