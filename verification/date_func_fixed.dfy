/** checkStringIsDate as its documentation describes it: accept an eight-character
    string exactly when it names a day of the proleptic Gregorian calendar. Three
    changes to timestampToDateString make the round trip faithful: it reads the
    time value with the UTC getters (Date.parse reads a date-only string as UTC), it
    writes the day without adding one, and it pads the year to four digits. */
module DateFuncFixed {
  import opened Wrappers
  import opened Decimal
  import opened EcmaTime
  import opened DateParse
  import opened DateFunc

  /** The template filled with the year padded to four digits, the month plus one
      and the day as it is, both padded to two. */
  function FixedFormatParts(year: Option<int>, month: Option<int>, day: Option<int>): string {
    JoinDate(PadStart(NumberToString(year), 4, '0'),
             PadStart(NumberToString(Plus(month, 1)), 2, '0'),
             PadStart(NumberToString(day), 2, '0'))
  }

  /** Date.prototype.getUTCFullYear: YearFromTime(t), NaN for NaN. */
  function GetUtcFullYear(date: Option<int>): (year: Option<int>)
    ensures year.Some? <==> date.Some?
  {
    match date
    case None => None
    case Some(t) => Some(YearFromTime(t))
  }

  /** Date.prototype.getUTCMonth: MonthFromTime(t), 0 for January, NaN for NaN. */
  function GetUtcMonth(date: Option<int>): (month: Option<int>)
    ensures month.Some? <==> date.Some?
  {
    match date
    case None => None
    case Some(t) => Some(MonthFromTime(t))
  }

  /** Date.prototype.getUTCDate: DateFromTime(t), NaN for NaN. */
  function GetUtcDate(date: Option<int>): (day: Option<int>)
    ensures day.Some? <==> date.Some?
  {
    match date
    case None => None
    case Some(t) => Some(DateFromTime(t))
  }

  /** timestampToDateString over getUTCFullYear, getUTCMonth and getUTCDate. */
  function TimestampToDateString(timestamp: Option<int>): (r: string)
    ensures timestamp.Some? && -MaxTimeValue <= timestamp.value <= MaxTimeValue ==>
              r == FixedFormatted(YearFromTime(timestamp.value), MonthFromTime(timestamp.value) + 1,
                                  DateFromTime(timestamp.value))
    ensures NewDate(timestamp).None? ==> r == "0NaN-NaN-NaN"
  {
    var date := NewDate(timestamp);
    if date.Some? then
      FixedValidFormat(timestamp);
      FixedFormatParts(GetUtcFullYear(date), GetUtcMonth(date), GetUtcDate(date))
    else
      FixedFormatPartsOfNaN();
      FixedFormatParts(GetUtcFullYear(date), GetUtcMonth(date), GetUtcDate(date))
  }

  /** For a value `new Date` keeps, the UTC getters fill the corrected template with
      the UTC year, month and day. */
  lemma FixedValidFormat(timestamp: Option<int>)
    requires NewDate(timestamp).Some?
    ensures timestamp.Some? && -MaxTimeValue <= timestamp.value <= MaxTimeValue
    ensures var date := NewDate(timestamp);
            FixedFormatParts(GetUtcFullYear(date), GetUtcMonth(date), GetUtcDate(date))
            == FixedFormatted(YearFromTime(timestamp.value), MonthFromTime(timestamp.value) + 1,
                              DateFromTime(timestamp.value))
  {
    var t := timestamp.value;
    assert NewDate(timestamp) == Some(t);
    FixedFormatPartsOfTime(t);
  }

  /** Filled from the UTC getters of a valid time value, the corrected template
      writes the UTC year padded, the month plus one and the day. */
  lemma FixedFormatPartsOfTime(t: int)
    ensures FixedFormatParts(GetUtcFullYear(Some(t)), GetUtcMonth(Some(t)), GetUtcDate(Some(t)))
            == FixedFormatted(YearFromTime(t), MonthFromTime(t) + 1, DateFromTime(t))
  {
    FixedFormatPartsOfNumbers(YearFromTime(t), MonthFromTime(t), DateFromTime(t));
  }

  /** The corrected date string of a valid time value, as one fact for the proofs
      below. */
  lemma UtcFormat(t: int)
    requires -MaxTimeValue <= t <= MaxTimeValue
    ensures TimestampToDateString(Some(t))
            == FixedFormatted(YearFromTime(t), MonthFromTime(t) + 1, DateFromTime(t))
  {
    assert NewDate(Some(t)) == Some(t);
    FixedFormatPartsOfTime(t);
  }

  /** The corrected template filled with NaN pads the year's "NaN" to four characters. */
  lemma FixedFormatPartsOfNaN()
    ensures FixedFormatParts(None, None, None) == "0NaN-NaN-NaN"
  {
    assert PadStart("NaN", 4, '0') == "0NaN";
    assert PadStart("NaN", 2, '0') == "NaN";
  }

  /** checkStringIsDate over the corrected formatter; the host zone no longer matters. */
  function CheckStringIsDate(str: string, rollOver: bool): (r: bool)
    ensures |str| != 8 ==> !r
    ensures r ==> AllDigits(str)
    ensures r ==> TimestampToDateString(Parse(StrToDateString(str), rollOver)) == StrToDateString(str)
  {
    if |str| != 8 then
      false
    else
      var dateStr := StrToDateString(str);
      var parseTimestamp := Parse(dateStr, rollOver);
      var convertDateStr := TimestampToDateString(parseTimestamp);
      DateStringForm(str);
      !(parseTimestamp.None? || dateStr != convertDateStr)
  }

  /** Eight digits naming a day that exists: month 01..12 and a day from 01 to the
      length of that month in that year. */
  predicate IsCalendarDate(s: string) {
    && |s| == 8 && AllDigits(s)
    && 1 <= MonthField(s) <= 12
    && 1 <= DayField(s) <= DaysInMonth(YearField(s), MonthField(s) - 1)
  }

  /** `n` padded with zeros in front to at least four characters, as
      `toString().padStart(4, '0')` writes it. */
  function FourDigits(n: int): (r: string)
    ensures 0 <= n < 10000 ==> |r| == 4 && AllDigits(r) && ParseDigits(r) == n
  {
    if 0 <= n < 10000 then
      assert Pow10(4) == 10000;
      PadDigits(n, 4);
      PadStart(NatToString(n), 4, '0')
    else
      PadStart(IntToString(n), 4, '0')
  }

  /** FourDigits is `toString().padStart(4, '0')` for every integer. */
  lemma FourDigitsOf(n: int)
    ensures PadStart(NumberToString(Some(n)), 4, '0') == FourDigits(n)
  {
    if n >= 0 {
      assert IntToString(n) == NatToString(n);
    }
  }

  /** The date string the corrected formatter writes for a year, a month (from 1)
      and a day. */
  function FixedFormatted(year: int, month: nat, day: nat): (r: string)
    ensures 0 <= year < 10000 && month < 100 && day < 100 ==> |r| == 10
  {
    JoinDate(FourDigits(year), TwoDigits(month), TwoDigits(day))
  }

  lemma PaddedNumber(n: nat)
    ensures PadStart(NumberToString(Some(n)), 2, '0') == TwoDigits(n)
  {
    assert NumberToString(Some(n)) == NatToString(n);
  }

  /** Filled with numbers, the corrected template writes the padded year, the month
      plus one and the day. */
  lemma FixedFormatPartsOfNumbers(year: int, month: nat, day: nat)
    ensures FixedFormatParts(Some(year), Some(month), Some(day)) == FixedFormatted(year, month + 1, day)
  {
    PaddedSuccessor(month);
    FourDigitsOf(year);
    PaddedNumber(day);
  }

  /** A corrected date string equals the candidate of an eight-character input
      exactly when its three fields equal the input's three slices. */
  lemma FixedFieldwise(s: string, year: nat, month: nat, day: nat)
    requires |s| == 8 && year < 10000 && month < 100 && day < 100
    ensures FixedFormatted(year, month, day) == StrToDateString(s)
            <==> FourDigits(year) == s[..4] && TwoDigits(month) == s[4..6] && TwoDigits(day) == s[6..]
  {
    StrToDateStringFields(s);
    assert s[6..] == s[6..8];
    JoinDateInjective(FourDigits(year), TwoDigits(month), TwoDigits(day), s[..4], s[4..6], s[6..]);
  }

  lemma FourDigitFieldMatches(n: nat, w: string)
    requires |w| == 4 && AllDigits(w) && n < 10000
    ensures FourDigits(n) == w <==> n == ParseDigits(w)
  {
    assert Pow10(4) == 10000;
    assert FourDigits(n) == PadStart(NatToString(n), 4, '0');
    PaddedMatches(n, w);
  }

  /** A corrected date string equals the candidate of an eight-digit input exactly
      when each of its values is the input's. */
  lemma FixedFormattedMatches(s: string, year: nat, month: nat, day: nat)
    requires |s| == 8 && AllDigits(s) && year < 10000 && month < 100 && day < 100
    ensures FixedFormatted(year, month, day) == StrToDateString(s)
            <==> year == YearField(s) && month == MonthField(s) && day == DayField(s)
  {
    FixedFieldwise(s, year, month, day);
    FixedValuesMatch(s, year, month, day);
  }

  /** The three slices of an eight-digit input match (year, month, day) exactly when
      each value is the slice's. */
  lemma FixedValuesMatch(s: string, year: nat, month: nat, day: nat)
    requires |s| == 8 && AllDigits(s) && year < 10000 && month < 100 && day < 100
    ensures FourDigits(year) == s[..4] && TwoDigits(month) == s[4..6] && TwoDigits(day) == s[6..]
            <==> year == YearField(s) && month == MonthField(s) && day == DayField(s)
  {
    DigitSlices(s);
    FourDigitFieldMatches(year, s[..4]);
    TwoDigitFieldMatches(month, s[4..6]);
    TwoDigitFieldMatches(day, s[6..]);
  }

  /** In UTC the parsed candidate lies in the written year, on the written month and
      day when the month has that day, and otherwise on the excess day of the
      following month. */
  lemma ParsedUtcFields(s: string, rollOver: bool)
    requires |s| == 8 && AllDigits(s) && Parse(StrToDateString(s), rollOver).Some?
    ensures 1 <= MonthField(s) <= 12
    ensures var t := Parse(StrToDateString(s), rollOver).value;
            var dim := DaysInMonth(YearField(s), MonthField(s) - 1);
            && YearFromTime(t) == YearField(s)
            && (DayField(s) <= dim ==> MonthFromTime(t) + 1 == MonthField(s) && DateFromTime(t) == DayField(s))
            && (DayField(s) > dim ==> DateFromTime(t) != DayField(s))
  {
    ParsedCandidate(s, rollOver);
    var t := Parse(StrToDateString(s), rollOver).value;
    CalendarOfOverflow(t, YearField(s), MonthField(s) - 1, DayField(s));
  }

  /** The corrected checkStringIsDate accepts exactly the calendar dates, whether or
      not the host rolls over days past the end of a month. */
  lemma AcceptsExactlyCalendarDates(s: string, rollOver: bool)
    ensures CheckStringIsDate(s, rollOver) <==> IsCalendarDate(s)
  {
    if |s| == 8 && AllDigits(s) {
      ParsedCandidate(s, rollOver);
      if Parse(StrToDateString(s), rollOver).Some? {
        var t := Parse(StrToDateString(s), rollOver).value;
        ParsedUtcFields(s, rollOver);
        UtcFormat(t);
        LocalFieldRanges(t);
        FixedFormattedMatches(s, YearFromTime(t), MonthFromTime(t) + 1, DateFromTime(t));
      }
    }
  }

  /** Hence the corrected check gives the same answer on every host. */
  lemma IndependentOfRollOver(s: string)
    ensures CheckStringIsDate(s, true) == CheckStringIsDate(s, false)
  {
    AcceptsExactlyCalendarDates(s, true);
    AcceptsExactlyCalendarDates(s, false);
  }

  /** The corrected formatter and Date.parse are inverse on UTC midnights of the years
      0..9999: formatting such a time value and parsing the result gives it back. */
  lemma UtcRoundTrip(t: int, rollOver: bool)
    requires -MaxTimeValue <= t <= MaxTimeValue && t % MsPerDay == 0
    requires 0 <= YearFromTime(t) <= 9999
    ensures Parse(TimestampToDateString(Some(t)), rollOver) == Some(t)
  {
    var y, m, d := YearFromTime(t), MonthFromTime(t), DateFromTime(t);
    DateFromTimeSpec(t);
    UtcFormat(t);
    ParseFixedFormatted(y, m, d, rollOver);
    SameDayMidnights(Parse(FixedFormatted(y, m + 1, d), rollOver).value, t);
  }

  /** Two midnights on the same day are the same time value. */
  lemma SameDayMidnights(a: int, b: int)
    requires a % MsPerDay == 0 && b % MsPerDay == 0 && Day(a) == Day(b)
    ensures a == b
  {
  }

  /** A date of the years 0..9999 written by the corrected formatter parses to the
      midnight of that date. */
  lemma ParseFixedFormatted(y: nat, m: nat, d: nat, rollOver: bool)
    requires y <= 9999 && m <= 11 && 1 <= d <= DaysInMonth(y, m)
    ensures var p := Parse(FixedFormatted(y, m + 1, d), rollOver);
            p.Some? && p.value % MsPerDay == 0 && Day(p.value) == DayNumber(y, m, d)
  {
    var r := FixedFormatted(y, m + 1, d);
    FormattedFields(y, m + 1, d);
    ParseOfDate(r, rollOver);
  }

  /** The corrected date string is in the date-only form and its fields denote the
      year, month and day it was written from. */
  lemma FormattedFields(year: nat, month: nat, day: nat)
    requires year < 10000 && month < 100 && day < 100
    ensures IsDateOnlyForm(FixedFormatted(year, month, day))
    ensures var r := FixedFormatted(year, month, day);
            YearOf(r) == year && MonthOf(r) == month && DayOf(r) == day
  {
    JoinDateFields(FourDigits(year), TwoDigits(month), TwoDigits(day));
  }
}
