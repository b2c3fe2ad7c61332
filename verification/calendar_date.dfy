/** Calendar dates as the dashboard sees them through JavaScript `Date`
    objects built from local (year, month, day) parts: `formatDate`,
    `getYearMonth`, `getDay()`, the month length `new Date(y, m + 1, 0).getDate()`
    and the shared holiday rule `isHoliday`. Months run 1..12 here, where
    JavaScript's `getMonth()` runs 0..11 and the source adds one. */
module CalendarDate {
  import opened JsText

  datatype Date = Date(year: int, month: int, day: int)

  /** Fixed festival dates, as `YYYY-MM-DD` strings (both views carry the same list). */
  const FESTIVAL_HOLIDAYS: seq<string> := ["2025-10-20", "2025-12-25", "2026-01-26"]

  predicate IsLeapYear(y: int)
  {
    (y % 4 == 0 && y % 100 != 0) || y % 400 == 0
  }

  /** The Gregorian month length, `new Date(y, m + 1, 0).getDate()`. */
  function DaysInMonth(y: int, m: int): (n: int)
    requires 1 <= m <= 12
    ensures 28 <= n <= 31
    ensures m == 2 ==> (n == 29 <==> IsLeapYear(y)) && (n == 28 <==> !IsLeapYear(y))
    ensures m in {4, 6, 9, 11} ==> n == 30
    ensures m in {1, 3, 5, 7, 8, 10, 12} ==> n == 31
  {
    if m == 2 then (if IsLeapYear(y) then 29 else 28)
    else if m == 4 || m == 6 || m == 9 || m == 11 then 30
    else 31
  }

  /** A date a JavaScript `Date` can denote: the month exists and has that day. */
  predicate Valid(d: Date)
  {
    1 <= d.month <= 12 && 1 <= d.day <= DaysInMonth(d.year, d.month)
  }

  function DaysBeforeYear(y: int): int
  {
    365 * (y - 1) + (y - 1) / 4 - (y - 1) / 100 + (y - 1) / 400
  }

  function DaysBeforeMonth(y: int, m: int): int
    requires 1 <= m <= 12
  {
    [0, 31, 59, 90, 120, 151, 181, 212, 243, 273, 304, 334][m - 1]
    + (if m > 2 && IsLeapYear(y) then 1 else 0)
  }

  /** Days elapsed since 0001-01-01 in the proleptic Gregorian calendar. */
  function DayNumber(d: Date): int
    requires 1 <= d.month <= 12
  {
    DaysBeforeYear(d.year) + DaysBeforeMonth(d.year, d.month) + d.day - 1
  }

  /** `getDay()`: 0 is Sunday. 0001-01-01 was a Monday. */
  function Weekday(d: Date): (w: int)
    requires Valid(d)
    ensures 0 <= w < 7
  {
    (DayNumber(d) + 1) % 7
  }

  /** The following calendar day. */
  function NextDay(d: Date): (r: Date)
    requires Valid(d)
    ensures Valid(r)
  {
    if d.day < DaysInMonth(d.year, d.month) then Date(d.year, d.month, d.day + 1)
    else if d.month < 12 then Date(d.year, d.month + 1, 1)
    else Date(d.year + 1, 1, 1)
  }

  /** Crossing from `a` to `a + 1` raises `a / k` by one exactly at a multiple of `k`. */
  lemma DivSteps(a: int)
    ensures (a + 1) / 4 - a / 4 == if (a + 1) % 4 == 0 then 1 else 0
    ensures (a + 1) / 100 - a / 100 == if (a + 1) % 100 == 0 then 1 else 0
    ensures (a + 1) / 400 - a / 400 == if (a + 1) % 400 == 0 then 1 else 0
  {
  }

  /** A year has 366 days exactly when it is a leap year. */
  lemma YearLength(y: int)
    ensures DaysBeforeYear(y + 1) == DaysBeforeYear(y) + (if IsLeapYear(y) then 366 else 365)
  {
    DivSteps(y - 1);
    if y % 400 == 0 {
      Multiple400(y);
    }
    if y % 100 == 0 {
      Multiple100(y);
    }
    var d := (if y % 4 == 0 then 1 else 0) - (if y % 100 == 0 then 1 else 0) + (if y % 400 == 0 then 1 else 0);
    assert DaysBeforeYear(y + 1) == DaysBeforeYear(y) + 365 + d;
    assert d == (if IsLeapYear(y) then 1 else 0);
  }

  /** A multiple of 400 is one of 100. */
  lemma Multiple400(y: int)
    requires y % 400 == 0
    ensures y % 100 == 0
  {
    assert y == 100 * (4 * (y / 400));
  }

  /** A multiple of 100 is one of 4. */
  lemma Multiple100(y: int)
    requires y % 100 == 0
    ensures y % 4 == 0
  {
    assert y == 4 * (25 * (y / 100));
  }

  /** The day number counts days: the next day is one more. */
  lemma NextDayNumber(d: Date)
    requires Valid(d)
    ensures DayNumber(NextDay(d)) == DayNumber(d) + 1
  {
    if d.day == DaysInMonth(d.year, d.month) && d.month == 12 {
      YearLength(d.year);
    }
  }

  lemma ModSevenStep(w: int)
    ensures (w + 1) % 7 == (w % 7 + 1) % 7
  {
  }

  /** Weekdays cycle: the day after a Saturday is a Sunday, and so on. */
  lemma WeekdayAdvances(d: Date)
    requires Valid(d)
    ensures Weekday(NextDay(d)) == (Weekday(d) + 1) % 7
  {
    NextDayNumber(d);
    ModSevenStep(DayNumber(d) + 1);
  }

  /** A reference point: 19 October 2025 was a Sunday. */
  lemma KnownSunday()
    ensures Valid(Date(2025, 10, 19)) && Weekday(Date(2025, 10, 19)) == 0
  {
    assert DaysBeforeYear(2025) == 739251;
  }

  /** `formatDate`: `YYYY-MM-DD`, month and day zero-padded to two digits. The
      text reads back as the date: the year's text, then two dashes each followed
      by two digits holding the month and the day. */
  function FormatDate(d: Date): (r: string)
    requires Valid(d)
    ensures var y := IntToString(d.year);
      |r| == |y| + 6 && r[..|y|] == y && r[|y|] == '-' && r[|y| + 3] == '-'
      && IsDigit(r[|y| + 1]) && IsDigit(r[|y| + 2]) && TwoDigits(r[|y| + 1], r[|y| + 2]) == d.month
      && IsDigit(r[|y| + 4]) && IsDigit(r[|y| + 5]) && TwoDigits(r[|y| + 4], r[|y| + 5]) == d.day
  {
    Pad2RoundTrip(d.month);
    Pad2RoundTrip(d.day);
    TwoDigitsValue(Pad2(d.month));
    TwoDigitsValue(Pad2(d.day));
    IntToString(d.year) + "-" + Pad2(d.month) + "-" + Pad2(d.day)
  }

  /** Different dates format to different strings. */
  lemma FormatDateInjective(a: Date, b: Date)
    requires Valid(a) && Valid(b) && FormatDate(a) == FormatDate(b)
    ensures a == b
  {
    var s := FormatDate(a);
    var ya, yb := IntToString(a.year), IntToString(b.year);
    var n := |ya|;
    assert |s| == n + 6 == |yb| + 6;
    assert ya == s[..n] == yb;
    IntToStringInjective(a.year, b.year);
  }

  /** `getYearMonth`: `YYYY-MM`, the month zero-padded to two digits. It is the
      year's text, a dash and exactly two digits that read back as the month. */
  function GetYearMonth(y: int, m: int): (r: string)
    requires 1 <= m <= 12
    ensures |r| == |IntToString(y)| + 3 && r[..|IntToString(y)|] == IntToString(y)
    ensures r[|r| - 3] == '-' && AllDigits(r[|r| - 2..]) && DigitsValue(r[|r| - 2..]) == m
  {
    Pad2RoundTrip(m);
    var r := IntToString(y) + "-" + Pad2(m);
    assert r[|r| - 2..] == Pad2(m);
    r
  }

  /** A formatted date is its month's `YYYY-MM-` prefix followed by the padded day. */
  lemma FormatDateInMonth(d: Date)
    requires Valid(d)
    ensures FormatDate(d) == GetYearMonth(d.year, d.month) + "-" + Pad2(d.day)
    ensures StartsWith(FormatDate(d), GetYearMonth(d.year, d.month) + "-")
  {
    var p := GetYearMonth(d.year, d.month) + "-";
    assert FormatDate(d) == p + Pad2(d.day);
    assert FormatDate(d)[..|p|] == p;
  }

  /** The festival dates the list spells. */
  const FESTIVAL_DATES: seq<Date> := [Date(2025, 10, 20), Date(2025, 12, 25), Date(2026, 1, 26)]

  /** `isHoliday`: a Sunday, or a date on the festival list; that is, a Sunday
      or one of the three festival dates. */
  predicate IsHoliday(d: Date)
    requires Valid(d)
    ensures IsHoliday(d) <==> Weekday(d) == 0 || d in FESTIVAL_DATES
  {
    FestivalTexts(d);
    Weekday(d) == 0 || Includes(FESTIVAL_HOLIDAYS, FormatDate(d))
  }

  /** The festival list is the text of the festival dates, in order. */
  lemma FestivalList()
    ensures forall k :: 0 <= k < 3 ==> Valid(FESTIVAL_DATES[k])
    ensures FESTIVAL_HOLIDAYS == [FormatDate(FESTIVAL_DATES[0]), FormatDate(FESTIVAL_DATES[1]), FormatDate(FESTIVAL_DATES[2])]
  {
    assert FormatDate(Date(2025, 10, 20)) == "2025-10-20";
    assert FormatDate(Date(2025, 12, 25)) == "2025-12-25";
    assert FormatDate(Date(2026, 1, 26)) == "2026-01-26";
  }

  /** A date's text is on the festival list exactly when it is a festival date. */
  lemma FestivalTexts(d: Date)
    requires Valid(d)
    ensures FormatDate(d) in FESTIVAL_HOLIDAYS <==> d in FESTIVAL_DATES
  {
    var f0, f1, f2 := FESTIVAL_DATES[0], FESTIVAL_DATES[1], FESTIVAL_DATES[2];
    FestivalList();
    if FormatDate(d) == FormatDate(f0) { FormatDateInjective(d, f0); }
    if FormatDate(d) == FormatDate(f1) { FormatDateInjective(d, f1); }
    if FormatDate(d) == FormatDate(f2) { FormatDateInjective(d, f2); }
  }

  /** Every Sunday is a holiday; 20 October 2025 is a festival Monday, so it is a
      holiday only through the list, and the day after it is a working day. */
  lemma HolidayExamples()
    ensures forall d :: Valid(d) && Weekday(d) == 0 ==> IsHoliday(d)
    ensures Valid(Date(2025, 10, 20)) && Weekday(Date(2025, 10, 20)) == 1 && IsHoliday(Date(2025, 10, 20))
    ensures Valid(Date(2025, 10, 21)) && !IsHoliday(Date(2025, 10, 21))
  {
    KnownSunday();
    WeekdayAdvances(Date(2025, 10, 19));
    WeekdayAdvances(Date(2025, 10, 20));
    assert FormatDate(Date(2025, 10, 20)) == "2025-10-20";
    assert FormatDate(Date(2025, 10, 21)) == "2025-10-21";
  }
}
