/** The integer date arithmetic of ECMA-262 section 21.4.1 (Time Values and Time
    Range): day numbers, years, months and dates of a time value, MakeDay, MakeDate,
    TimeClip and LocalTime. A time value is an integral number of milliseconds since
    1970-01-01T00:00:00Z; NaN is `None` where it can arise. */
module EcmaTime {
  import opened Wrappers

  const MsPerDay: int := 86_400_000

  /** Largest magnitude of a valid time value (section 21.4.1.1). */
  const MaxTimeValue: int := 8_640_000_000_000_000

  /** Day(t) = floor(t / msPerDay). */
  function Day(t: int): (d: int)
    ensures MsPerDay * d <= t < MsPerDay * (d + 1)
  {
    t / MsPerDay
  }

  function DaysInYear(y: int): (n: int)
    ensures n == 365 || n == 366
    ensures n == 366 <==> (y % 4 == 0 && y % 100 != 0) || y % 400 == 0
  {
    if y % 4 != 0 then 365
    else if y % 100 != 0 then 366
    else if y % 400 != 0 then 365
    else 366
  }

  predicate IsLeapYear(y: int) {
    DaysInYear(y) == 366
  }

  /** Day number of the first day of year y. */
  function DayFromYear(y: int): int {
    365 * (y - 1970) + (y - 1969) / 4 - (y - 1901) / 100 + (y - 1601) / 400
  }

  function TimeFromYear(y: int): int {
    MsPerDay * DayFromYear(y)
  }

  lemma LeapTerm4(y: int)
    ensures (y - 1968) / 4 == (y - 1969) / 4 + if y % 4 == 0 then 1 else 0
  {
  }

  lemma LeapTerm100(y: int)
    ensures (y - 1900) / 100 == (y - 1901) / 100 + if y % 100 == 0 then 1 else 0
  {
  }

  lemma LeapTerm400(y: int)
    ensures (y - 1600) / 400 == (y - 1601) / 400 + if y % 400 == 0 then 1 else 0
  {
  }

  lemma DivisibilityChain(y: int)
    ensures y % 400 == 0 ==> y % 100 == 0
    ensures y % 100 == 0 ==> y % 4 == 0
  {
  }

  /** The Gregorian rule as a count: 365 days, one more every fourth year, one
      fewer every hundredth, one more every four hundredth. */
  lemma DaysInYearCount(y: int)
    ensures DaysInYear(y) == 365 + (if y % 4 == 0 then 1 else 0) - (if y % 100 == 0 then 1 else 0)
                                 + (if y % 400 == 0 then 1 else 0)
  {
    DivisibilityChain(y);
  }

  /** The closed formula for DayFromYear agrees with counting the days of each year. */
  lemma DayFromYearStep(y: int)
    ensures DayFromYear(y + 1) == DayFromYear(y) + DaysInYear(y)
  {
    LeapTerm4(y);
    LeapTerm100(y);
    LeapTerm400(y);
    DaysInYearCount(y);
    assert DayFromYear(y + 1) == 365 * (y - 1969) + (y - 1968) / 4 - (y - 1900) / 100 + (y - 1600) / 400;
  }

  lemma {:induction false} DayFromYearMonotone(a: int, b: int)
    requires a < b
    ensures DayFromYear(a) + 365 <= DayFromYear(b)
    decreases b - a
  {
    DayFromYearStep(a);
    if a + 1 < b {
      DayFromYearMonotone(a + 1, b);
    }
  }

  /** The k years from 1970 on hold at most one leap day each. */
  lemma LeapDaysSince1970(k: nat)
    ensures DayFromYear(1970 + k) <= 366 * k
  {
    if k >= 2 {
      assert (k + 1) / 4 - (k + 69) / 100 + (k + 369) / 400 <= k;
    }
  }

  /** A year whose first day is no later than `day`. */
  function YearLowerBound(day: int): (y: int)
    ensures DayFromYear(y) <= day
  {
    if day >= 0 then
      var k := day / 366;
      LeapDaysSince1970(k);
      1970 + k
    else
      var k := day / 365 - 7;
      1970 + k
  }

  function YearSearch(day: int, y: int): (r: int)
    requires DayFromYear(y) <= day
    ensures DayFromYear(r) <= day < DayFromYear(r + 1)
    decreases day - DayFromYear(y)
  {
    DayFromYearStep(y);
    if DayFromYear(y + 1) <= day then YearSearch(day, y + 1) else y
  }

  /** The year containing day number `day`. */
  function YearFromDay(day: int): (y: int)
    ensures DayFromYear(y) <= day < DayFromYear(y + 1)
  {
    YearSearch(day, YearLowerBound(day))
  }

  /** Only one year contains a given day. */
  lemma YearUnique(day: int, y1: int, y2: int)
    requires DayFromYear(y1) <= day < DayFromYear(y1 + 1)
    requires DayFromYear(y2) <= day < DayFromYear(y2 + 1)
    ensures y1 == y2
  {
    if y1 < y2 {
      DayFromYearMonotone(y1, y2);
      if y1 + 1 < y2 {
        DayFromYearMonotone(y1 + 1, y2);
      }
    } else if y2 < y1 {
      DayFromYearMonotone(y2, y1);
      if y2 + 1 < y1 {
        DayFromYearMonotone(y2 + 1, y1);
      }
    }
  }

  /** YearFromTime(t): the largest y with TimeFromYear(y) <= t. */
  function YearFromTime(t: int): (y: int)
    ensures TimeFromYear(y) <= t < TimeFromYear(y + 1)
  {
    YearFromDay(Day(t))
  }

  function InLeapYear(t: int): (l: int)
    ensures l == 0 || l == 1
    ensures l == 1 <==> IsLeapYear(YearFromTime(t))
  {
    if DaysInYear(YearFromTime(t)) == 366 then 1 else 0
  }

  function DayWithinYear(t: int): (w: int)
    ensures 0 <= w < DaysInYear(YearFromTime(t))
  {
    assert DayFromYear(YearFromTime(t)) <= Day(t) < DayFromYear(YearFromTime(t) + 1);
    DayFromYearStep(YearFromTime(t));
    Day(t) - DayFromYear(YearFromTime(t))
  }

  /** Number of days of the year before month m (0-based month, 12 gives the
      length of the year). */
  function CumulativeDays(m: int, leap: bool): (n: int)
    requires 0 <= m <= 12
    ensures m == 12 ==> n == if leap then 366 else 365
  {
    var l := if leap then 1 else 0;
    if m == 0 then 0
    else if m == 1 then 31
    else if m == 2 then 59 + l
    else if m == 3 then 90 + l
    else if m == 4 then 120 + l
    else if m == 5 then 151 + l
    else if m == 6 then 181 + l
    else if m == 7 then 212 + l
    else if m == 8 then 243 + l
    else if m == 9 then 273 + l
    else if m == 10 then 304 + l
    else if m == 11 then 334 + l
    else 365 + l
  }

  /** Length of month m (0-based) of year y. */
  function DaysInMonth(y: int, m: int): (n: int)
    requires 0 <= m < 12
    ensures 28 <= n <= 31
    ensures m == 1 ==> (n == 29 <==> IsLeapYear(y))
    ensures m != 1 ==> (n == 30 <==> m == 3 || m == 5 || m == 8 || m == 10)
    ensures m == 11 ==> n == 31
  {
    CumulativeDays(m + 1, IsLeapYear(y)) - CumulativeDays(m, IsLeapYear(y))
  }

  /** The month (0-based) containing day `d` of a year, `l` being 1 in a leap year:
      the cascade of section 21.4.1.11. */
  function MonthOfDay(d: int, l: int): (m: int)
    requires 0 <= d && (l == 0 || l == 1)
    ensures 0 <= m <= 11
    ensures CumulativeDays(m, l == 1) <= d
    ensures d < 365 + l ==> d < CumulativeDays(m + 1, l == 1)
  {
    if d < 31 then 0
    else if d < 59 + l then 1
    else if d < 90 + l then 2
    else if d < 120 + l then 3
    else if d < 151 + l then 4
    else if d < 181 + l then 5
    else if d < 212 + l then 6
    else if d < 243 + l then 7
    else if d < 273 + l then 8
    else if d < 304 + l then 9
    else if d < 334 + l then 10
    else 11
  }

  /** The date within its month of day `d` of a year: the table of section 21.4.1.12. */
  function DateOfDay(d: int, l: int): (date: int)
    requires 0 <= d && (l == 0 || l == 1)
    ensures 1 <= date
    ensures d == CumulativeDays(MonthOfDay(d, l), l == 1) + date - 1
    ensures d < 365 + l ==> date <= CumulativeDays(MonthOfDay(d, l) + 1, l == 1) - CumulativeDays(MonthOfDay(d, l), l == 1)
    ensures d < 365 + l ==> date <= 31
  {
    match MonthOfDay(d, l)
    case 0 => d + 1
    case 1 => d - 30
    case 2 => d - 58 - l
    case 3 => d - 89 - l
    case 4 => d - 119 - l
    case 5 => d - 150 - l
    case 6 => d - 180 - l
    case 7 => d - 211 - l
    case 8 => d - 242 - l
    case 9 => d - 272 - l
    case 10 => d - 303 - l
    case 11 => d - 333 - l
  }

  /** MonthFromTime(t), 0 for January. */
  function MonthFromTime(t: int): (m: int)
    ensures 0 <= m <= 11
    ensures CumulativeDays(m, IsLeapYear(YearFromTime(t))) <= DayWithinYear(t)
    ensures DayWithinYear(t) < CumulativeDays(m + 1, IsLeapYear(YearFromTime(t)))
  {
    MonthOfDay(DayWithinYear(t), InLeapYear(t))
  }

  /** DateFromTime(t), the day of the month from 1. */
  function DateFromTime(t: int): (date: int)
    ensures 1 <= date <= 31
  {
    var d, l := DayWithinYear(t), InLeapYear(t);
    assert d < 365 + l;
    DateOfDay(d, l)
  }

  /** The date lies within its month, and year, month and date together give back
      the day number of `t`. */
  lemma DateFromTimeSpec(t: int)
    ensures 1 <= DateFromTime(t) <= DaysInMonth(YearFromTime(t), MonthFromTime(t))
    ensures Day(t) == DayFromYear(YearFromTime(t))
                      + CumulativeDays(MonthFromTime(t), IsLeapYear(YearFromTime(t))) + DateFromTime(t) - 1
  {
    var y, d, l := YearFromTime(t), DayWithinYear(t), InLeapYear(t);
    assert d == Day(t) - DayFromYear(y) && d < 365 + l;
    assert (l == 1) == IsLeapYear(y);
    var m := MonthOfDay(d, l);
    assert MonthFromTime(t) == m && DateFromTime(t) == DateOfDay(d, l);
    assert DaysInMonth(y, m) == CumulativeDays(m + 1, l == 1) - CumulativeDays(m, l == 1);
  }

  /** Day number of date `date` of month `m` (0-based) of year `y`: the first of the
      month advanced by date - 1 days, so a date past the end of the month counts on
      into the months that follow. */
  function DayNumber(y: int, m: int, date: int): int
    requires 0 <= m <= 11
  {
    DayFromYear(y) + CumulativeDays(m, IsLeapYear(y)) + date - 1
  }

  /** A day numbered by a date of year `y` lies in year `y`. */
  lemma YearOfDayNumber(t: int, y: int, m: int, date: int)
    requires 0 <= m <= 11 && 1 <= date <= DaysInMonth(y, m)
    requires Day(t) == DayNumber(y, m, date)
    ensures YearFromTime(t) == y
  {
    var leap := IsLeapYear(y);
    DayFromYearStep(y);
    assert CumulativeDays(m + 1, leap) <= CumulativeDays(12, leap);
    YearUnique(Day(t), y, YearFromTime(t));
  }

  /** Day `Cumulative(m) + date - 1` of a year is date `date` of month `m`. */
  lemma MonthOfCumulative(m: int, date: int, l: int)
    requires 0 <= m <= 11 && (l == 0 || l == 1)
    requires 1 <= date <= CumulativeDays(m + 1, l == 1) - CumulativeDays(m, l == 1)
    ensures MonthOfDay(CumulativeDays(m, l == 1) + date - 1, l) == m
    ensures DateOfDay(CumulativeDays(m, l == 1) + date - 1, l) == date
  {
  }

  /** A day numbered by a date lies in that date's month and is that date. */
  lemma MonthOfDayNumber(t: int, y: int, m: int, date: int)
    requires 0 <= m <= 11 && 1 <= date <= DaysInMonth(y, m)
    requires Day(t) == DayNumber(y, m, date) && YearFromTime(t) == y
    ensures MonthFromTime(t) == m && DateFromTime(t) == date
  {
    var l := InLeapYear(t);
    assert DayWithinYear(t) == CumulativeDays(m, l == 1) + date - 1;
    MonthOfCumulative(m, date, l);
  }

  /** A time value falls on (y, m, date) exactly when its day number is that
      date's day number: decomposition inverts DayNumber. */
  lemma CalendarOfDay(t: int, y: int, m: int, date: int)
    requires 0 <= m <= 11 && 1 <= date <= DaysInMonth(y, m)
    ensures YearFromTime(t) == y && MonthFromTime(t) == m && DateFromTime(t) == date
            <==> Day(t) == DayNumber(y, m, date)
  {
    if Day(t) == DayNumber(y, m, date) {
      YearOfDayNumber(t, y, m, date);
      MonthOfDayNumber(t, y, m, date);
    }
  }

  /** The day numbered `d - 1` days after the first of month `m`, for `d` up to 31:
      date `d` of that month when the month has it, otherwise (the month being
      shorter) date `d - DaysInMonth(y, m)` of the following month of the same year. */
  lemma CalendarOfOverflow(t: int, y: int, m: int, d: int)
    requires 0 <= m <= 11 && 1 <= d <= 31
    requires Day(t) == DayNumber(y, m, 1) + d - 1
    ensures d <= DaysInMonth(y, m) ==>
              YearFromTime(t) == y && MonthFromTime(t) == m && DateFromTime(t) == d
    ensures d > DaysInMonth(y, m) ==>
              && m < 11
              && YearFromTime(t) == y && MonthFromTime(t) == m + 1
              && DateFromTime(t) == d - DaysInMonth(y, m)
  {
    if d <= DaysInMonth(y, m) {
      CalendarOfDay(t, y, m, d);
    } else {
      var e := d - DaysInMonth(y, m);
      OverflowDayNumber(y, m, d);
      CalendarOfDay(t, y, m + 1, e);
    }
  }

  lemma OverflowDayNumber(y: int, m: int, d: int)
    requires 0 <= m <= 11 && DaysInMonth(y, m) < d <= 31
    ensures m < 11 && 1 <= d - DaysInMonth(y, m) <= DaysInMonth(y, m + 1)
    ensures DayNumber(y, m + 1, d - DaysInMonth(y, m)) == DayNumber(y, m, 1) + d - 1
  {
  }

  /** MakeDay(year, month, date): the first day of month `month modulo 12` of year
      `year + floor(month / 12)`, advanced by date - 1 days. */
  function MakeDay(year: int, month: int, date: int): (d: int)
    ensures var ym, mn := year + month / 12, month % 12;
            1 <= date <= DaysInMonth(ym, mn) ==> d == DayNumber(ym, mn, date)
    ensures var ym, mn := year + month / 12, month % 12;
            d == DayNumber(ym, mn, 1) + date - 1
  {
    var ym := year + month / 12;
    var mn := month % 12;
    DayFromYear(ym) + CumulativeDays(mn, IsLeapYear(ym)) + date - 1
  }

  function MakeDate(day: int, time: int): (t: int)
    ensures Day(t) == day + Day(time)
  {
    day * MsPerDay + time
  }

  /** TimeClip: time values outside +-8.64e15 ms become NaN. */
  function TimeClip(t: int): (r: Option<int>)
    ensures r.Some? <==> -MaxTimeValue <= t <= MaxTimeValue
    ensures r.Some? ==> r.value == t
  {
    if t < -MaxTimeValue || t > MaxTimeValue then None else Some(t)
  }

  /** LocalTime(t) for a zone whose offset from UTC is `offset` milliseconds. */
  function LocalTime(t: int, offset: int): int {
    t + offset
  }

  /** Shifting a UTC midnight by less than a day forward stays on the same day;
      shifting it backward lands on the previous day. */
  lemma DayOfShiftedMidnight(n: int, offset: int)
    requires -MsPerDay < offset < MsPerDay
    ensures 0 <= offset ==> Day(n * MsPerDay + offset) == n
    ensures offset < 0 ==> Day(n * MsPerDay + offset) == n - 1
  {
  }

  /** Every date of the years 0..9999 has a day number of well under 10^8 in
      magnitude, so its midnight is a valid time value. */
  lemma DayNumberBounds(y: int, m: int, d: int)
    requires 0 <= y <= 9999 && 0 <= m <= 11 && 1 <= d <= 31
    ensures -720_000 <= DayNumber(y, m, 1) + d - 1 <= 2_933_000
  {
  }

  lemma MidnightOfDay(day: int)
    ensures MakeDate(day, 0) % MsPerDay == 0 && Day(MakeDate(day, 0)) == day
    ensures -720_000 <= day <= 2_933_000 ==> -MaxTimeValue <= MakeDate(day, 0) <= MaxTimeValue
  {
  }

  /** The midnight of the day MakeDay numbers falls on the given date when the
      folded month has that date: YearFromTime, MonthFromTime and DateFromTime read
      back the year, the month and the date. */
  lemma MakeDayCalendar(year: int, month: int, date: int)
    ensures var ym, mn := year + month / 12, month % 12;
            var t := MakeDate(MakeDay(year, month, date), 0);
            1 <= date <= DaysInMonth(ym, mn) ==>
              YearFromTime(t) == ym && MonthFromTime(t) == mn && DateFromTime(t) == date
  {
    var ym, mn := year + month / 12, month % 12;
    if 1 <= date <= DaysInMonth(ym, mn) {
      MidnightCalendar(MakeDay(year, month, date), ym, mn, date);
    }
  }

  /** The midnight of the day number of an existing date falls on that date. */
  lemma MidnightCalendar(day: int, y: int, m: int, date: int)
    requires 0 <= m <= 11 && 1 <= date <= DaysInMonth(y, m) && day == DayNumber(y, m, date)
    ensures var t := MakeDate(day, 0);
            YearFromTime(t) == y && MonthFromTime(t) == m && DateFromTime(t) == date
  {
    MidnightOfDay(day);
    CalendarOfDay(MakeDate(day, 0), y, m, date);
  }

  /** The midnight of a date of the years 0..9999 written with a day 1..31 is a
      valid time value on that date's day number. */
  lemma MidnightOfDate(y: int, m: int, d: int)
    requires 0 <= y <= 9999 && 0 <= m <= 11 && 1 <= d <= 31
    ensures var t := MakeDate(MakeDay(y, m, d), 0);
            && -MaxTimeValue <= t <= MaxTimeValue
            && t % MsPerDay == 0
            && Day(t) == DayNumber(y, m, 1) + d - 1
  {
    var day := MakeDay(y, m, d);
    assert day == DayNumber(y, m, 1) + d - 1 by {
      assert y + m / 12 == y && m % 12 == m;
    }
    DayNumberBounds(y, m, d);
    MidnightOfDay(day);
  }
}
