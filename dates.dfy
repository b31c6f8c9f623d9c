/**
 The date window and the date key of the tracker (src/lib/utils.js).

 A day is an integer day number counted from 1970-01-01 (day 0), the
 calendar is the proleptic Gregorian one, and the key of a day is its
 `YYYY-MM-DD` rendering (the `full-date` form of section 5.6 of RFC 3339,
 the extended calendar-date form of ISO 8601). The clock is not modelled:
 "today" is always a day number passed in by the caller.
 */
module Dates {

  import opened Wrappers

  /** A calendar date: year, month 1..12, day of month 1..31. */
  datatype CivilDate = CivilDate(year: int, month: int, day: int)

  /** Number of days in the window shown by the grid and the analytics. */
  const WindowLength: nat := 40

  predicate IsLeapYear(y: int) {
    y % 4 == 0 && (y % 100 != 0 || y % 400 == 0)
  }

  function DaysInYear(y: int): nat {
    if IsLeapYear(y) then 366 else 365
  }

  function DaysInMonth(y: int, m: int): nat
    requires 1 <= m <= 12
  {
    if m == 2 then (if IsLeapYear(y) then 29 else 28)
    else if m == 4 || m == 6 || m == 9 || m == 11 then 30
    else 31
  }

  /** Days from January 1st of year `y` to the first of month `m`. */
  function DaysBeforeMonth(y: int, m: int): nat
    requires 1 <= m <= 12
  {
    var common :=
      if m == 1 then 0 else if m == 2 then 31 else if m == 3 then 59
      else if m == 4 then 90 else if m == 5 then 120 else if m == 6 then 151
      else if m == 7 then 181 else if m == 8 then 212 else if m == 9 then 243
      else if m == 10 then 273 else if m == 11 then 304 else 334;
    common + (if m > 2 && IsLeapYear(y) then 1 else 0)
  }

  /** Days from 0000-01-01 to January 1st of year `y`: 365 per year plus one per leap year before `y`. */
  function DaysBeforeYear(y: nat): nat {
    365 * y + (y + 3) / 4 - (y + 99) / 100 + (y + 399) / 400
  }

  /** Dates whose year has four digits, the range where the key is ten characters long. */
  predicate ValidCivil(c: CivilDate) {
    0 <= c.year <= 9999 && 1 <= c.month <= 12 && 1 <= c.day <= DaysInMonth(c.year, c.month)
  }

  /** Days from 0000-01-01 to `c`. */
  function ToOrdinal(c: CivilDate): nat
    requires ValidCivil(c)
  {
    DaysBeforeYear(c.year) + DaysBeforeMonth(c.year, c.month) + c.day - 1
  }

  /** Ordinal of 1970-01-01, the day numbered 0 (see `EpochIsUnixEpoch`). */
  const EpochOffset: nat := 719528

  /** Ordinals of 0000-01-01 .. 9999-12-31 are those below this one (see `LimitIsYear10000`). */
  const OrdinalLimit: nat := 3652425

  lemma EpochIsUnixEpoch()
    ensures ToOrdinal(CivilDate(1970, 1, 1)) == EpochOffset
  {
  }

  lemma LimitIsYear10000()
    ensures DaysBeforeYear(10000) == OrdinalLimit
  {
  }

  /** The day numbers whose year has four digits. */
  predicate InKeyRange(day: int) {
    0 <= day + EpochOffset < OrdinalLimit
  }

  // ---------------------------------------------------------------------
  // Calendar arithmetic

  lemma DaysBeforeYearStep(y: nat)
    ensures DaysBeforeYear(y + 1) == DaysBeforeYear(y) + DaysInYear(y)
  {
    Quarter(y);
    Century(y);
    Cycle(y);
    Divisibility(y);
    assert DaysBeforeYear(y + 1) == 365 * y + 365 + (y + 4) / 4 - (y + 100) / 100 + (y + 400) / 400;
  }

  /** Multiples of 400 are multiples of 100, which are multiples of 4. */
  lemma Divisibility(y: nat)
    ensures y % 400 == 0 ==> y % 100 == 0
    ensures y % 100 == 0 ==> y % 4 == 0
  {
    if y % 400 == 0 {
      var k := y / 400;
      assert y == 100 * (4 * k);
    }
    if y % 100 == 0 {
      var k := y / 100;
      assert y == 4 * (25 * k);
    }
  }

  // Each count of multiples of 4, 100 and 400 grows by one exactly at a multiple.

  lemma Quarter(y: nat)
    ensures (y + 4) / 4 == (y + 3) / 4 + (if y % 4 == 0 then 1 else 0)
  {
  }

  lemma Century(y: nat)
    ensures (y + 100) / 100 == (y + 99) / 100 + (if y % 100 == 0 then 1 else 0)
  {
  }

  lemma Cycle(y: nat)
    ensures (y + 400) / 400 == (y + 399) / 400 + (if y % 400 == 0 then 1 else 0)
  {
  }

  lemma DaysBeforeMonthStep(y: int, m: int)
    requires 1 <= m <= 12
    ensures m < 12 ==> DaysBeforeMonth(y, m + 1) == DaysBeforeMonth(y, m) + DaysInMonth(y, m)
    ensures m == 12 ==> DaysBeforeMonth(y, m) + DaysInMonth(y, m) == DaysInYear(y)
  {
  }

  /** Later years start at least a year's worth of days later. */
  lemma {:induction false} DaysBeforeYearGrows(a: nat, b: nat)
    requires a < b
    ensures DaysBeforeYear(a) + DaysInYear(a) <= DaysBeforeYear(b)
    decreases b - a
  {
    DaysBeforeYearStep(a);
    if a + 1 < b {
      DaysBeforeYearGrows(a + 1, b);
      DaysBeforeYearStep(a + 1);
    }
  }

  /** Later months start after the end of earlier ones. */
  lemma {:induction false} DaysBeforeMonthGrows(y: int, a: int, b: int)
    requires 1 <= a < b <= 12
    ensures DaysBeforeMonth(y, a) + DaysInMonth(y, a) <= DaysBeforeMonth(y, b)
    decreases b - a
  {
    DaysBeforeMonthStep(y, a);
    if a + 1 < b {
      DaysBeforeMonthGrows(y, a + 1, b);
    }
  }

  /** The year containing ordinal `n`, searched upwards from a year that starts no later than `n`. */
  function YearOf(n: nat, y: nat): (r: nat)
    requires DaysBeforeYear(y) <= n
    ensures y <= r
    ensures DaysBeforeYear(r) <= n < DaysBeforeYear(r) + DaysInYear(r)
    decreases n - DaysBeforeYear(y)
  {
    DaysBeforeYearStep(y);
    if n < DaysBeforeYear(y + 1) then y else YearOf(n, y + 1)
  }

  /** The month of year `y` containing day `doy` of that year, searched upwards from month `m`. */
  function MonthOf(y: int, doy: nat, m: int): (r: int)
    requires 1 <= m <= 12 && DaysBeforeMonth(y, m) <= doy < DaysInYear(y)
    ensures m <= r <= 12
    ensures DaysBeforeMonth(y, r) <= doy < DaysBeforeMonth(y, r) + DaysInMonth(y, r)
    decreases 12 - m
  {
    DaysBeforeMonthStep(y, m);
    if m == 12 || doy < DaysBeforeMonth(y, m + 1) then m else MonthOf(y, doy, m + 1)
  }

  /** The calendar date of ordinal `n`. */
  function FromOrdinal(n: nat): (c: CivilDate)
    requires n < OrdinalLimit
    ensures ValidCivil(c) && ToOrdinal(c) == n
  {
    var y := YearOf(n, 0);
    YearBelowLimit(n, y);
    var doy := n - DaysBeforeYear(y);
    var m := MonthOf(y, doy, 1);
    CivilDate(y, m, doy - DaysBeforeMonth(y, m) + 1)
  }

  /** A year that starts below the limit has four digits. */
  lemma YearBelowLimit(n: nat, y: nat)
    requires DaysBeforeYear(y) <= n < OrdinalLimit
    ensures y < 10000
  {
    LimitIsYear10000();
    if y >= 10000 {
      if y > 10000 {
        DaysBeforeYearGrows(10000, y);
      }
    }
  }

  /** A date determines its ordinal and back: the ordinal encoding is a bijection. */
  lemma OrdinalRoundTrip(c: CivilDate)
    requires ValidCivil(c)
    ensures ToOrdinal(c) < OrdinalLimit
    ensures FromOrdinal(ToOrdinal(c)) == c
  {
    var n := ToOrdinal(c);
    WithinYear(c);
    LimitIsYear10000();
    if c.year < 9999 {
      DaysBeforeYearStep(c.year);
      DaysBeforeYearGrows(c.year + 1, 10000);
    } else {
      DaysBeforeYearStep(c.year);
    }
    var d := FromOrdinal(n);
    WithinYear(d);
    SameYear(d.year, c.year, n);
    SameMonth(c.year, d.month, c.month, n - DaysBeforeYear(c.year));
  }

  /** A valid date falls inside its year and month. */
  lemma WithinYear(c: CivilDate)
    requires ValidCivil(c)
    ensures DaysBeforeYear(c.year) <= ToOrdinal(c) < DaysBeforeYear(c.year) + DaysInYear(c.year)
    ensures DaysBeforeMonth(c.year, c.month) <= ToOrdinal(c) - DaysBeforeYear(c.year)
            < DaysBeforeMonth(c.year, c.month) + DaysInMonth(c.year, c.month)
  {
    DaysBeforeMonthStep(c.year, c.month);
    if c.month < 12 {
      DaysBeforeMonthGrows(c.year, c.month, 12);
      DaysBeforeMonthStep(c.year, 12);
    }
  }

  /** Years do not overlap. */
  lemma SameYear(a: nat, b: nat, n: nat)
    requires DaysBeforeYear(a) <= n < DaysBeforeYear(a) + DaysInYear(a)
    requires DaysBeforeYear(b) <= n < DaysBeforeYear(b) + DaysInYear(b)
    ensures a == b
  {
    if a < b {
      DaysBeforeYearGrows(a, b);
    } else if a > b {
      DaysBeforeYearGrows(b, a);
    }
  }

  /** Months of one year do not overlap. */
  lemma SameMonth(y: int, a: int, b: int, doy: int)
    requires 1 <= a <= 12 && 1 <= b <= 12
    requires DaysBeforeMonth(y, a) <= doy < DaysBeforeMonth(y, a) + DaysInMonth(y, a)
    requires DaysBeforeMonth(y, b) <= doy < DaysBeforeMonth(y, b) + DaysInMonth(y, b)
    ensures a == b
  {
    if a < b {
      DaysBeforeMonthGrows(y, a, b);
    } else if a > b {
      DaysBeforeMonthGrows(y, b, a);
    }
  }

  // ---------------------------------------------------------------------
  // Decimal digits

  predicate IsDigit(ch: char) {
    '0' <= ch <= '9'
  }

  function DigitChar(d: nat): (ch: char)
    requires d < 10
    ensures IsDigit(ch)
  {
    ('0' as int + d) as char
  }

  function DigitValue(ch: char): (d: nat)
    requires IsDigit(ch)
    ensures d < 10
  {
    ch as int - '0' as int
  }

  /** Writing a digit as a character and reading it back gives the digit again. */
  lemma DigitCharRoundTrip(d: nat)
    requires d < 10
    ensures DigitValue(DigitChar(d)) == d
  {
  }

  /** Reading a digit character and writing it back gives the character again. */
  lemma DigitValueRoundTrip(ch: char)
    requires IsDigit(ch)
    ensures DigitChar(DigitValue(ch)) == ch
  {
  }

  /** The four decimal digits of a year below 10000 spell it. */
  lemma SplitYear(y: nat)
    requires y < 10000
    ensures y / 1000 < 10
    ensures 1000 * (y / 1000) + 100 * (y / 100 % 10) + 10 * (y / 10 % 10) + y % 10 == y
  {
    var t := y / 10;
    var h := t / 10;
    assert y == 10 * t + y % 10;
    assert t == 10 * h + t % 10;
    assert h == 10 * (h / 10) + h % 10;
    assert y / 100 == h && y / 1000 == h / 10;
  }

  /** Four digits spell a number whose digits are those four. */
  lemma JoinYear(a: nat, b: nat, c: nat, d: nat)
    requires a < 10 && b < 10 && c < 10 && d < 10
    ensures var y := 1000 * a + 100 * b + 10 * c + d;
            y / 1000 == a && y / 100 % 10 == b && y / 10 % 10 == c && y % 10 == d
  {
    var y := 1000 * a + 100 * b + 10 * c + d;
    var t := 100 * a + 10 * b + c;
    assert y == 10 * t + d;
    assert y / 10 == t && y % 10 == d;
    var h := 10 * a + b;
    assert t == 10 * h + c;
    assert t / 10 == h && t % 10 == c;
    assert y / 100 == h;
    assert h / 10 == a && h % 10 == b;
    assert y / 1000 == a;
  }

  // ---------------------------------------------------------------------
  // The YYYY-MM-DD key

  /** Four digits, `-`, two digits, `-`, two digits. */
  predicate KeyShaped(s: string) {
    && |s| == 10 && s[4] == '-' && s[7] == '-'
    && IsDigit(s[0]) && IsDigit(s[1]) && IsDigit(s[2]) && IsDigit(s[3])
    && IsDigit(s[5]) && IsDigit(s[6]) && IsDigit(s[8]) && IsDigit(s[9])
  }

  /** The year, month and day fields of a key-shaped string. */
  function YearField(s: string): nat
    requires KeyShaped(s)
  {
    1000 * DigitValue(s[0]) + 100 * DigitValue(s[1]) + 10 * DigitValue(s[2]) + DigitValue(s[3])
  }

  function MonthField(s: string): nat
    requires KeyShaped(s)
  {
    10 * DigitValue(s[5]) + DigitValue(s[6])
  }

  function DayField(s: string): nat
    requires KeyShaped(s)
  {
    10 * DigitValue(s[8]) + DigitValue(s[9])
  }

  /** Year, month and day written as four, two and two zero-padded digits. */
  function Render(y: nat, m: nat, d: nat): (s: string)
    requires y < 10000 && m < 100 && d < 100
    ensures KeyShaped(s)
  {
    SplitYear(y);
    [DigitChar(y / 1000), DigitChar(y / 100 % 10), DigitChar(y / 10 % 10), DigitChar(y % 10), '-',
     DigitChar(m / 10), DigitChar(m % 10), '-',
     DigitChar(d / 10), DigitChar(d % 10)]
  }

  /** Reading the fields of a rendering gives back the numbers rendered. */
  lemma FieldsOfRender(y: nat, m: nat, d: nat)
    requires y < 10000 && m < 100 && d < 100
    ensures YearField(Render(y, m, d)) == y
    ensures MonthField(Render(y, m, d)) == m && DayField(Render(y, m, d)) == d
  {
    SplitYear(y);
    DigitCharRoundTrip(y / 1000);
    DigitCharRoundTrip(y / 100 % 10);
    DigitCharRoundTrip(y / 10 % 10);
    DigitCharRoundTrip(y % 10);
    DigitCharRoundTrip(m / 10);
    DigitCharRoundTrip(m % 10);
    DigitCharRoundTrip(d / 10);
    DigitCharRoundTrip(d % 10);
  }

  /** A key-shaped string is the rendering of its own fields. */
  lemma RenderOfFields(s: string)
    requires KeyShaped(s)
    ensures Render(YearField(s), MonthField(s), DayField(s)) == s
  {
    var y, m, d := YearField(s), MonthField(s), DayField(s);
    JoinYear(DigitValue(s[0]), DigitValue(s[1]), DigitValue(s[2]), DigitValue(s[3]));
    JoinTwo(DigitValue(s[5]), DigitValue(s[6]));
    JoinTwo(DigitValue(s[8]), DigitValue(s[9]));
    DigitValueRoundTrip(s[0]);
    DigitValueRoundTrip(s[1]);
    DigitValueRoundTrip(s[2]);
    DigitValueRoundTrip(s[3]);
    DigitValueRoundTrip(s[5]);
    DigitValueRoundTrip(s[6]);
    DigitValueRoundTrip(s[8]);
    DigitValueRoundTrip(s[9]);
    var t := Render(y, m, d);
    assert t == [s[0], s[1], s[2], s[3], '-', s[5], s[6], '-', s[8], s[9]];
  }

  /** Two digits spell a number whose digits are those two. */
  lemma JoinTwo(a: nat, b: nat)
    requires a < 10 && b < 10
    ensures (10 * a + b) / 10 == a && (10 * a + b) % 10 == b
  {
  }

  /** `toISOString().split('T')[0]` of the date `c`. */
  function FormatCivil(c: CivilDate): (s: string)
    requires ValidCivil(c)
    ensures KeyShaped(s)
  {
    Render(c.year, c.month, c.day)
  }

  /** Reads a `YYYY-MM-DD` string naming an existing date; anything else is `None`. */
  function ParseCivil(s: string): Option<CivilDate> {
    if KeyShaped(s) then
      var c := CivilDate(YearField(s), MonthField(s), DayField(s));
      if ValidCivil(c) then Some(c) else None
    else
      None
  }

  lemma ParseFormatCivil(c: CivilDate)
    requires ValidCivil(c)
    ensures ParseCivil(FormatCivil(c)) == Some(c)
  {
    FieldsOfRender(c.year, c.month, c.day);
  }

  /** Only canonical keys parse: a string that parses is the rendering of what it parses to. */
  lemma FormatParseCivil(s: string)
    requires ParseCivil(s).Some?
    ensures ValidCivil(ParseCivil(s).value) && FormatCivil(ParseCivil(s).value) == s
  {
    RenderOfFields(s);
  }

  /** `formatDate`: the `YYYY-MM-DD` key of a day. */
  function FormatDate(day: int): (s: string)
    requires InKeyRange(day)
    ensures |s| == 10 && s[4] == '-' && s[7] == '-'
  {
    FormatCivil(FromOrdinal(day + EpochOffset))
  }

  /** The day a key names, as `new Date(key)` reads it; `None` for an invalid date. */
  function ParseDate(s: string): Option<int> {
    match ParseCivil(s)
    case Some(c) => Some(ToOrdinal(c) - EpochOffset)
    case None => None
  }

  /** Parsing a key gives back its day. */
  lemma ParseFormatDate(day: int)
    requires InKeyRange(day)
    ensures ParseDate(FormatDate(day)) == Some(day)
  {
    var c := FromOrdinal(day + EpochOffset);
    KeyOfCivil(c);
    ParseKeyOfCivil(c);
  }

  /** A date's rendering parses to the day of that date. */
  lemma ParseKeyOfCivil(c: CivilDate)
    requires ValidCivil(c)
    ensures ParseDate(FormatCivil(c)) == Some(ToOrdinal(c) - EpochOffset)
  {
    ParseFormatCivil(c);
    ParseDateOfCivil(FormatCivil(c), c);
  }

  /** What `ParseDate` returns for a string that reads as the date `c`. */
  lemma ParseDateOfCivil(s: string, c: CivilDate)
    requires ParseCivil(s) == Some(c)
    ensures ValidCivil(c) && ParseDate(s) == Some(ToOrdinal(c) - EpochOffset)
  {
  }

  /** The key of the day of a valid date is that date's rendering. */
  lemma KeyOfCivil(c: CivilDate)
    requires ValidCivil(c)
    ensures InKeyRange(ToOrdinal(c) - EpochOffset)
    ensures FormatDate(ToOrdinal(c) - EpochOffset) == FormatCivil(c)
  {
    OrdinalRoundTrip(c);
  }

  /** Every key that parses is the key of the day it parses to. */
  lemma FormatParseDate(s: string)
    requires ParseDate(s).Some?
    ensures InKeyRange(ParseDate(s).value) && FormatDate(ParseDate(s).value) == s
  {
    var c := ParseCivil(s).value;
    FormatParseCivil(s);
    ParseDateOfCivil(s, c);
    KeyOfCivil(c);
  }

  /** Distinct days have distinct keys. */
  lemma FormatDateInjective(a: int, b: int)
    requires InKeyRange(a) && InKeyRange(b)
    ensures FormatDate(a) == FormatDate(b) <==> a == b
  {
    if FormatDate(a) == FormatDate(b) {
      ParseFormatDate(a);
      ParseFormatDate(b);
    }
  }

  /** Day of the month of a day, as `getDate()` returns it. */
  function DayOfMonth(day: int): (r: int)
    requires InKeyRange(day)
    ensures 1 <= r <= 31
  {
    FromOrdinal(day + EpochOffset).day
  }

  /** Day of the week, 0 for Sunday; 1970-01-01 was a Thursday. */
  function Weekday(day: int): (r: nat)
    ensures r < 7
  {
    (day + 4) % 7
  }

  /** 1 January 1970 was a Thursday, and each day is the weekday after the one before. */
  lemma WeekdaySteps(day: int)
    ensures Weekday(0) == 4
    ensures Weekday(day + 1) == (Weekday(day) + 1) % 7
    ensures Weekday(day + 7) == Weekday(day)
  {
  }

  // ---------------------------------------------------------------------
  // The 40-day window

  /** The days `today - 39 .. today`, oldest first. */
  function Window(today: int): (w: seq<int>)
    ensures |w| == WindowLength
  {
    seq(WindowLength, k => today - (WindowLength - 1 - k))
  }

  /** `getLast40Days`: pushes today minus `i` for `i` from 39 down to 0. */
  method Last40Days(today: int) returns (days: seq<int>)
    ensures days == Window(today)
  {
    days := [];
    var i := WindowLength as int - 1;
    while i >= 0
      invariant -1 <= i < WindowLength
      invariant |days| == WindowLength - 1 - i
      invariant forall k :: 0 <= k < |days| ==> days[k] == today - (WindowLength - 1 - k)
    {
      days := days + [today - i];
      i := i - 1;
    }
  }

  /** Exactly 40 days, the first 39 days ago, the last today, consecutive in between. */
  lemma WindowShape(today: int)
    ensures |Window(today)| == 40
    ensures Window(today)[0] == today - 39 && Window(today)[39] == today
    ensures forall k :: 0 <= k < 39 ==> Window(today)[k + 1] == Window(today)[k] + 1
  {
  }

  /** The window is strictly increasing. */
  lemma WindowIncreasing(today: int, i: int, j: int)
    requires 0 <= i < j < WindowLength
    ensures Window(today)[i] < Window(today)[j]
  {
  }

  /** Every day of the window has a key when today does and the window starts in year 0000 or later. */
  predicate WindowInKeyRange(today: int) {
    InKeyRange(today - (WindowLength - 1)) && InKeyRange(today)
  }

  /** The 40 keys of the window, oldest first. */
  function WindowKeys(today: int): (keys: seq<string>)
    requires WindowInKeyRange(today)
    ensures |keys| == WindowLength
    ensures forall k :: 0 <= k < WindowLength ==> |keys[k]| == 10
  {
    seq(WindowLength, k requires 0 <= k < WindowLength => FormatDate(Window(today)[k]))
  }

  /** The keys of the window are pairwise distinct. */
  lemma WindowKeysDistinct(today: int, i: int, j: int)
    requires WindowInKeyRange(today)
    requires 0 <= i < j < WindowLength
    ensures WindowKeys(today)[i] != WindowKeys(today)[j]
  {
    FormatDateInjective(Window(today)[i], Window(today)[j]);
  }
}
