/** What checkStringIsDate (dateFunc.js:59-77) accepts, as a function of the host's
    time-zone offset. Date.parse reads the candidate as UTC midnight, while
    timestampToDateString reads it back with local-time getters and adds one to the
    day. East of UTC, and in UTC itself, the local day is the written day, so the
    written day plus one never matches and nothing is accepted. West of UTC the
    local day is the day before, so the `+ 1` cancels the shift except at the start
    of a month. */
module DateFuncProperties {
  import opened Wrappers
  import opened Decimal
  import opened EcmaTime
  import opened DateParse
  import opened DateFunc

  /** The parsed candidate is UTC midnight of the written date, so in local time it
      lies on that date's day number, or on the day before when the zone is west of
      UTC. */
  lemma ParsedLocalDay(s: string, rollOver: bool, offset: int)
    requires |s| == 8 && AllDigits(s) && Parse(StrToDateString(s), rollOver).Some?
    requires -MsPerDay < offset < MsPerDay
    ensures 1 <= MonthField(s) <= 12 && 1 <= DayField(s) <= 31
    ensures var lt := LocalTime(Parse(StrToDateString(s), rollOver).value, offset);
            Day(lt) == DayNumber(YearField(s), MonthField(s) - 1, 1) + DayField(s) - 1
                       - (if offset < 0 then 1 else 0)
  {
    ParsedCandidate(s, rollOver);
    LocalDayOfMidnight(Parse(StrToDateString(s), rollOver).value, offset);
  }

  /** A UTC midnight seen from a zone less than a day away lies on the same day, or
      on the day before when the zone is west of UTC. */
  lemma LocalDayOfMidnight(t: int, offset: int)
    requires t % MsPerDay == 0 && -MsPerDay < offset < MsPerDay
    ensures Day(LocalTime(t, offset)) == Day(t) - (if offset < 0 then 1 else 0)
  {
    var n := Day(t);
    assert t == n * MsPerDay;
    DayOfShiftedMidnight(n, offset);
  }

  /** East of UTC (and at UTC) checkStringIsDate rejects every input: the local day
      of the parsed value is the written day, or, for a day past the end of its
      month that the host rolls over, a day of the following month. Either way the
      `+ 1` makes the round trip differ. */
  lemma RejectsEverythingEastOfUtc(s: string, offset: int, rollOver: bool)
    requires 0 <= offset < MsPerDay
    ensures !CheckStringIsDate(s, offset, rollOver)
  {
    if |s| == 8 && Parse(StrToDateString(s), rollOver).Some? {
      AcceptanceByLocalFields(s, offset, rollOver);
      EastParsed(s, offset, rollOver);
    }
  }

  /** East of UTC the local calendar fields of the parsed value are those of the
      written date, rolled over when the day is past the end of its month. */
  lemma EastParsed(s: string, offset: int, rollOver: bool)
    requires 0 <= offset < MsPerDay
    requires |s| == 8 && AllDigits(s) && Parse(StrToDateString(s), rollOver).Some?
    ensures var lt := LocalTime(Parse(StrToDateString(s), rollOver).value, offset);
            MonthFromTime(lt) + 1 != MonthField(s) || DateFromTime(lt) + 1 != DayField(s)
  {
    var lt := LocalTime(Parse(StrToDateString(s), rollOver).value, offset);
    ParsedLocalDay(s, rollOver, offset);
    CalendarOfOverflow(lt, YearField(s), MonthField(s) - 1, DayField(s));
  }

  /** The inputs checkStringIsDate accepts in a zone west of UTC: eight digits, a
      year of four significant digits, a month 01..12 and a day from 02 that is at
      most one past the end of its month; the day one past the end only when the
      host rolls such days over. */
  predicate WestAccepts(s: string, rollOver: bool) {
    && |s| == 8 && AllDigits(s)
    && YearField(s) >= 1000
    && 1 <= MonthField(s) <= 12
    && 2 <= DayField(s) <= 31
    && (|| DayField(s) <= DaysInMonth(YearField(s), MonthField(s) - 1)
        || (rollOver && DayField(s) == DaysInMonth(YearField(s), MonthField(s) - 1) + 1))
  }

  /** West of UTC the local day of the parsed value is the day before the written
      one, so the round trip succeeds exactly when that previous day is in the
      written month, that is from the 2nd up to one past the end of the month. */
  lemma AcceptanceWestOfUtc(s: string, offset: int, rollOver: bool)
    requires -MsPerDay < offset < 0
    ensures CheckStringIsDate(s, offset, rollOver) <==> WestAccepts(s, rollOver)
  {
    if |s| == 8 && AllDigits(s) {
      ParsedCandidate(s, rollOver);
      if Parse(StrToDateString(s), rollOver).Some? {
        WestParsed(s, offset, rollOver);
      }
    }
  }

  lemma WestParsed(s: string, offset: int, rollOver: bool)
    requires -MsPerDay < offset < 0
    requires |s| == 8 && AllDigits(s) && Parse(StrToDateString(s), rollOver).Some?
    ensures CheckStringIsDate(s, offset, rollOver) <==> WestAccepts(s, rollOver)
  {
    ParsedCandidate(s, rollOver);
    AcceptanceByLocalFields(s, offset, rollOver);
    WestLocalFields(s, offset, rollOver);
  }

  /** West of UTC the local fields of the parsed value are the written year, month
      and day minus one exactly when the day before the written one is in the
      written month. */
  lemma WestLocalFields(s: string, offset: int, rollOver: bool)
    requires -MsPerDay < offset < 0
    requires |s| == 8 && AllDigits(s) && Parse(StrToDateString(s), rollOver).Some?
    ensures 1 <= MonthField(s) <= 12
    ensures var lt := LocalTime(Parse(StrToDateString(s), rollOver).value, offset);
            && YearFromTime(lt) == YearField(s)
            && MonthFromTime(lt) + 1 == MonthField(s)
            && DateFromTime(lt) + 1 == DayField(s)
            <==> 2 <= DayField(s) && DayField(s) - 1 <= DaysInMonth(YearField(s), MonthField(s) - 1)
  {
    var lt := LocalTime(Parse(StrToDateString(s), rollOver).value, offset);
    var y, m, d := YearField(s), MonthField(s) - 1, DayField(s);
    ParsedLocalDay(s, rollOver, offset);
    if 2 <= d && d - 1 <= DaysInMonth(y, m) {
      CalendarOfDay(lt, y, m, d - 1);
    } else {
      DateFromTimeSpec(lt);
    }
  }
}
