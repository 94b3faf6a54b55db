/** `Date.parse` (ECMA-262 section 21.4.3.2) restricted to the date-only form
    `YYYY-MM-DD` of the Date Time String Format (section 21.4.1.32). A date-only
    string is read as UTC midnight. Every other string, including the ones a host
    would read with its own fallback heuristics, parses to NaN (`None`).

    Whether a day that exists in the format (01..31) but not in its month, such as
    2023-02-30, is rejected or rolled over into the next month differs between
    hosts; `rollOver` chooses. */
module DateParse {
  import opened Wrappers
  import opened Decimal
  import opened EcmaTime

  predicate IsDateOnlyForm(s: string) {
    && |s| == 10
    && s[4] == '-' && s[7] == '-'
    && AllDigits(s[..4]) && AllDigits(s[5..7]) && AllDigits(s[8..])
  }

  function YearOf(s: string): (y: nat)
    requires IsDateOnlyForm(s)
    ensures y < 10000
  {
    assert Pow10(4) == 10000;
    ParseDigits(s[..4])
  }

  /** The month as written, 1 for January. */
  function MonthOf(s: string): (m: nat)
    requires IsDateOnlyForm(s)
    ensures m < 100
  {
    assert Pow10(2) == 100;
    ParseDigits(s[5..7])
  }

  function DayOf(s: string): (d: nat)
    requires IsDateOnlyForm(s)
    ensures d < 100
  {
    assert Pow10(2) == 100;
    ParseDigits(s[8..])
  }

  /** Month 01..12 and day 01..31 as the format demands; a day past the end of its
      month only when the host rolls such days over. */
  predicate InRange(s: string, rollOver: bool)
    requires IsDateOnlyForm(s)
  {
    && 1 <= MonthOf(s) <= 12
    && 1 <= DayOf(s) <= 31
    && (rollOver || DayOf(s) <= DaysInMonth(YearOf(s), MonthOf(s) - 1))
  }

  function Parse(s: string, rollOver: bool): (r: Option<int>)
    ensures r.Some? <==> IsDateOnlyForm(s) && InRange(s, rollOver)
    ensures r.Some? ==> -MaxTimeValue <= r.value <= MaxTimeValue
    ensures r.Some? ==> r.value % MsPerDay == 0
    ensures r.Some? ==> Day(r.value) == DayNumber(YearOf(s), MonthOf(s) - 1, 1) + DayOf(s) - 1
  {
    if IsDateOnlyForm(s) && InRange(s, rollOver) then
      var y, m, d := YearOf(s), MonthOf(s) - 1, DayOf(s);
      MidnightOfDate(y, m, d);
      TimeClip(MakeDate(MakeDay(y, m, d), 0))
    else
      None
  }

  /** A parsed date that exists in its month reads back, in UTC, as the same year,
      month and day. */
  lemma ParseReadsBack(s: string, rollOver: bool)
    requires Parse(s, rollOver).Some?
    requires DayOf(s) <= DaysInMonth(YearOf(s), MonthOf(s) - 1)
    ensures var t := Parse(s, rollOver).value;
            && YearFromTime(t) == YearOf(s)
            && MonthFromTime(t) == MonthOf(s) - 1
            && DateFromTime(t) == DayOf(s)
  {
    CalendarOfDay(Parse(s, rollOver).value, YearOf(s), MonthOf(s) - 1, DayOf(s));
  }

  /** A day past the end of its month lands, in UTC, in the following month of the
      same year, on the excess day. */
  lemma ParseRollsOver(s: string)
    requires Parse(s, true).Some?
    requires DayOf(s) > DaysInMonth(YearOf(s), MonthOf(s) - 1)
    ensures var t := Parse(s, true).value;
            && MonthOf(s) <= 11
            && YearFromTime(t) == YearOf(s)
            && MonthFromTime(t) == MonthOf(s)
            && DateFromTime(t) == DayOf(s) - DaysInMonth(YearOf(s), MonthOf(s) - 1)
            && 1 <= DateFromTime(t) <= 3
  {
    var y, m := YearOf(s), MonthOf(s);
    CalendarOfDay(Parse(s, true).value, y, m, DayOf(s) - DaysInMonth(y, m - 1));
  }

  /** A date-only string naming a day that exists parses to the midnight of that
      day, whether or not the host rolls over. */
  lemma ParseOfDate(s: string, rollOver: bool)
    requires IsDateOnlyForm(s) && 1 <= MonthOf(s) <= 12
    requires 1 <= DayOf(s) <= DaysInMonth(YearOf(s), MonthOf(s) - 1)
    ensures Parse(s, rollOver).Some?
    ensures Parse(s, rollOver).value % MsPerDay == 0
    ensures Day(Parse(s, rollOver).value) == DayNumber(YearOf(s), MonthOf(s) - 1, DayOf(s))
  {
    assert InRange(s, rollOver);
  }
}
