/** dateFunc.js as written: strToDateString, timestampToDateString and
    checkStringIsDate, over the host primitives of EcmaTime and DateParse.

    The host's local time zone is a fixed offset `offset` in milliseconds
    (local time = UTC + offset); ECMA-262 bounds it by one day either way. */
module DateFunc {
  import opened Wrappers
  import opened Decimal
  import opened EcmaTime
  import opened DateParse

  /** The template literal `${year}-${month}-${day}`. */
  function JoinDate(year: string, month: string, day: string): (r: string)
    ensures |r| == |year| + |month| + |day| + 2
  {
    year + "-" + month + "-" + day
  }

  /** A joined date is its three fields separated by dashes. */
  lemma JoinDateFields(year: string, month: string, day: string)
    ensures var r := JoinDate(year, month, day);
            && r[|year|] == '-' && r[|year| + |month| + 1] == '-'
            && r[..|year|] == year
            && r[|year| + 1..|year| + |month| + 1] == month
            && r[|year| + |month| + 2..] == day
  {
    var r := JoinDate(year, month, day);
    assert r == year + ("-" + month + "-" + day);
  }

  /** With two-character month and day fields, a joined date determines its fields. */
  lemma JoinDateInjective(y1: string, m1: string, d1: string, y2: string, m2: string, d2: string)
    requires |m1| == |m2| == |d1| == |d2| == 2
    ensures JoinDate(y1, m1, d1) == JoinDate(y2, m2, d2) <==> y1 == y2 && m1 == m2 && d1 == d2
  {
    if JoinDate(y1, m1, d1) == JoinDate(y2, m2, d2) {
      assert |y1| == |y2|;
      JoinDateFields(y1, m1, d1);
      JoinDateFields(y2, m2, d2);
    }
  }

  /** strToDateString (dateFunc.js:28-33): YYYYMMDD to YYYY-MM-DD by slicing; a
      shorter input yields shorter (possibly empty) fields. */
  function StrToDateString(str: string): (r: string)
    ensures |r| == Min(|str|, 8) + 2
  {
    JoinDate(Slice(str, 0, 4), Slice(str, 4, 6), Slice(str, 6, 8))
  }

  /** On an input of eight or more characters the fields are its first four, next
      two and next two characters; the rest is ignored. */
  lemma StrToDateStringFields(str: string)
    requires |str| >= 8
    ensures StrToDateString(str) == JoinDate(str[..4], str[4..6], str[6..8])
    ensures |StrToDateString(str)| == 10 && StrToDateString(str)[4] == '-' && StrToDateString(str)[7] == '-'
  {
    assert Slice(str, 0, 4) == str[..4];
    assert Slice(str, 4, 6) == str[4..6];
    assert Slice(str, 6, 8) == str[6..8];
    JoinDateFields(str[..4], str[4..6], str[6..8]);
  }

  /** Drops the separators at indices 4 and 7 of a YYYY-MM-DD string. */
  function StripSeparators(d: string): (r: string)
    requires |d| == 10
    ensures |r| == 8
  {
    d[..4] + d[5..7] + d[8..]
  }

  /** Removing the two dashes gives back the eight characters that were sliced. */
  lemma StrToDateStringRoundTrip(str: string)
    requires |str| >= 8
    ensures StripSeparators(StrToDateString(str)) == str[..8]
  {
    var r := StrToDateString(str);
    StrToDateStringFields(str);
    JoinDateFields(str[..4], str[4..6], str[6..8]);
    assert str[..8] == str[..4] + str[4..6] + str[6..8];
  }

  /** The year, month and day fields of an eight-digit string, as written. */
  function YearField(s: string): (y: nat)
    requires |s| == 8 && AllDigits(s)
    ensures y < 10000
  {
    assert Pow10(4) == 10000;
    ParseDigits(s[..4])
  }

  function MonthField(s: string): (m: nat)
    requires |s| == 8 && AllDigits(s)
    ensures m < 100
  {
    assert Pow10(2) == 100;
    ParseDigits(s[4..6])
  }

  function DayField(s: string): (d: nat)
    requires |s| == 8 && AllDigits(s)
    ensures d < 100
  {
    assert Pow10(2) == 100;
    ParseDigits(s[6..])
  }

  /** The candidate date string of an eight-character input is in the date-only
      form exactly when the input is all digits. */
  lemma DateStringForm(s: string)
    requires |s| == 8
    ensures IsDateOnlyForm(StrToDateString(s)) <==> AllDigits(s)
  {
    var d := StrToDateString(s);
    StrToDateStringFields(s);
    JoinDateFields(s[..4], s[4..6], s[6..8]);
    if AllDigits(d[..4]) && AllDigits(d[5..7]) && AllDigits(d[8..]) {
      forall i | 0 <= i < 8
        ensures IsDigit(s[i])
      {
        if i < 4 {
          assert s[i] == d[..4][i];
        } else if i < 6 {
          assert s[i] == d[5..7][i - 4];
        } else {
          assert s[i] == d[8..][i - 6];
        }
      }
    }
  }

  /** The fields Date.parse reads from the candidate are the input's fields. */
  lemma DateStringValues(s: string)
    requires |s| == 8 && AllDigits(s)
    ensures IsDateOnlyForm(StrToDateString(s))
    ensures var d := StrToDateString(s);
            YearOf(d) == YearField(s) && MonthOf(d) == MonthField(s) && DayOf(d) == DayField(s)
  {
    DateStringForm(s);
    StrToDateStringFields(s);
    JoinDateFields(s[..4], s[4..6], s[6..8]);
    assert s[6..] == s[6..8];
  }

  /** The parsed candidate of an eight-digit input: defined exactly when its month is
      01..12 and its day 01..31 and, unless the host rolls over, within its month. */
  lemma ParsedCandidate(s: string, rollOver: bool)
    requires |s| == 8 && AllDigits(s)
    ensures Parse(StrToDateString(s), rollOver).Some?
            <==> && 1 <= MonthField(s) <= 12 && 1 <= DayField(s) <= 31
                 && (rollOver || DayField(s) <= DaysInMonth(YearField(s), MonthField(s) - 1))
    ensures Parse(StrToDateString(s), rollOver).Some? ==>
            var t := Parse(StrToDateString(s), rollOver).value;
            && t % MsPerDay == 0
            && Day(t) == DayNumber(YearField(s), MonthField(s) - 1, 1) + DayField(s) - 1
  {
    DateStringValues(s);
  }

  /** `new Date(value)` on a number: TimeClip. */
  function NewDate(value: Option<int>): (date: Option<int>)
    ensures date.Some? <==> value.Some? && -MaxTimeValue <= value.value <= MaxTimeValue
    ensures date.Some? ==> date == value
  {
    match value
    case None => None
    case Some(t) => TimeClip(t)
  }

  /** Date.prototype.getFullYear: YearFromTime(LocalTime(t)), NaN for NaN. */
  function GetFullYear(date: Option<int>, offset: int): (year: Option<int>)
    ensures year.Some? <==> date.Some?
  {
    match date
    case None => None
    case Some(t) => Some(YearFromTime(LocalTime(t, offset)))
  }

  /** Date.prototype.getMonth: MonthFromTime(LocalTime(t)), 0 for January, NaN for
      NaN. */
  function GetMonth(date: Option<int>, offset: int): (month: Option<int>)
    ensures month.Some? <==> date.Some?
  {
    match date
    case None => None
    case Some(t) => Some(MonthFromTime(LocalTime(t, offset)))
  }

  /** Date.prototype.getDate: DateFromTime(LocalTime(t)), NaN for NaN. */
  function GetDate(date: Option<int>, offset: int): (day: Option<int>)
    ensures day.Some? <==> date.Some?
  {
    match date
    case None => None
    case Some(t) => Some(DateFromTime(LocalTime(t, offset)))
  }

  /** The year getFullYear gives is the one whose span holds the local time value. */
  lemma GetFullYearSpan(t: int, offset: int)
    ensures var year := GetFullYear(Some(t), offset).value;
            TimeFromYear(year) <= LocalTime(t, offset) < TimeFromYear(year + 1)
  {
  }

  /** The month getMonth gives is 0..11, the one whose day range holds the local day
      within the year. */
  lemma GetMonthRange(t: int, offset: int)
    ensures var month, lt := GetMonth(Some(t), offset).value, LocalTime(t, offset);
            && 0 <= month <= 11
            && CumulativeDays(month, IsLeapYear(YearFromTime(lt))) <= DayWithinYear(lt)
            && DayWithinYear(lt) < CumulativeDays(month + 1, IsLeapYear(YearFromTime(lt)))
  {
  }

  /** The day getDate gives runs from 1 to the length of the local month. */
  lemma GetDateRange(t: int, offset: int)
    ensures var day, lt := GetDate(Some(t), offset).value, LocalTime(t, offset);
            1 <= day <= DaysInMonth(YearFromTime(lt), MonthFromTime(lt))
  {
    DateFromTimeSpec(LocalTime(t, offset));
  }

  /** Number addition, where NaN absorbs. */
  function Plus(v: Option<int>, k: int): Option<int> {
    match v
    case None => None
    case Some(n) => Some(n + k)
  }

  /** The template timestampToDateString fills from the getters' results: the year
      as is, the month plus one and the day plus one, each padded to two characters
      with zeros. */
  function FormatParts(year: Option<int>, month: Option<int>, day: Option<int>): string {
    JoinDate(NumberToString(year),
             PadStart(NumberToString(Plus(month, 1)), 2, '0'),
             PadStart(NumberToString(Plus(day, 1)), 2, '0'))
  }

  /** timestampToDateString (dateFunc.js:41-48), including the `+ 1` on the day: a
      valid time value is written as its unpadded local year, its local month plus
      one and its local day plus one; NaN and values outside the time range as
      "NaN-NaN-NaN". */
  function TimestampToDateString(timestamp: Option<int>, offset: int): (r: string)
    ensures timestamp.Some? && -MaxTimeValue <= timestamp.value <= MaxTimeValue ==>
              r == Formatted(YearFromTime(LocalTime(timestamp.value, offset)),
                             MonthFromTime(LocalTime(timestamp.value, offset)) + 1,
                             DateFromTime(LocalTime(timestamp.value, offset)) + 1)
    ensures NewDate(timestamp).None? ==> r == "NaN-NaN-NaN"
  {
    var date := NewDate(timestamp);
    if date.Some? then
      ValidFormat(timestamp, offset);
      FormatParts(GetFullYear(date, offset), GetMonth(date, offset), GetDate(date, offset))
    else
      InvalidFormat(timestamp, offset);
      FormatParts(GetFullYear(date, offset), GetMonth(date, offset), GetDate(date, offset))
  }

  /** For a value `new Date` keeps, the getters fill the template with the local
      year, month and day. */
  lemma ValidFormat(timestamp: Option<int>, offset: int)
    requires NewDate(timestamp).Some?
    ensures timestamp.Some? && -MaxTimeValue <= timestamp.value <= MaxTimeValue
    ensures var date := NewDate(timestamp);
            FormatParts(GetFullYear(date, offset), GetMonth(date, offset), GetDate(date, offset))
            == Formatted(YearFromTime(LocalTime(timestamp.value, offset)),
                         MonthFromTime(LocalTime(timestamp.value, offset)) + 1,
                         DateFromTime(LocalTime(timestamp.value, offset)) + 1)
  {
    var t := timestamp.value;
    assert NewDate(timestamp) == Some(t);
    FormatPartsOfTime(t, offset);
  }

  /** For an invalid date every getter gives NaN. */
  lemma InvalidFormat(timestamp: Option<int>, offset: int)
    requires NewDate(timestamp).None?
    ensures var date := NewDate(timestamp);
            FormatParts(GetFullYear(date, offset), GetMonth(date, offset), GetDate(date, offset)) == "NaN-NaN-NaN"
  {
    FormatPartsOfNaN();
  }

  /** The date string of a valid time value, as one fact for the proofs below. */
  lemma TimestampFormat(t: int, offset: int)
    requires -MaxTimeValue <= t <= MaxTimeValue
    ensures var lt := LocalTime(t, offset);
            TimestampToDateString(Some(t), offset)
            == Formatted(YearFromTime(lt), MonthFromTime(lt) + 1, DateFromTime(lt) + 1)
  {
    assert NewDate(Some(t)) == Some(t);
    FormatPartsOfTime(t, offset);
  }

  /** Each getter gives the matching field of the local time value. */
  lemma GettersOf(t: int, offset: int)
    ensures GetFullYear(Some(t), offset) == Some(YearFromTime(LocalTime(t, offset)))
    ensures GetMonth(Some(t), offset) == Some(MonthFromTime(LocalTime(t, offset)))
    ensures GetDate(Some(t), offset) == Some(DateFromTime(LocalTime(t, offset)))
  {
  }

  /** Filled from the getters of a valid time value, the template writes the local
      year, month plus one and day plus one. */
  lemma FormatPartsOfTime(t: int, offset: int)
    ensures var lt := LocalTime(t, offset);
            FormatParts(GetFullYear(Some(t), offset), GetMonth(Some(t), offset), GetDate(Some(t), offset))
            == Formatted(YearFromTime(lt), MonthFromTime(lt) + 1, DateFromTime(lt) + 1)
  {
    GettersOf(t, offset);
    var lt := LocalTime(t, offset);
    FormatPartsOfNumbers(YearFromTime(lt), MonthFromTime(lt), DateFromTime(lt));
  }

  /** The template filled with NaN writes NaN in every field. */
  lemma FormatPartsOfNaN()
    ensures FormatParts(None, None, None) == "NaN-NaN-NaN"
  {
    assert PadStart("NaN", 2, '0') == "NaN";
  }

  /** `n` as at least two digits, as `padStart(2, '0')` writes it. */
  function TwoDigits(n: nat): (r: string)
    ensures n < 100 ==> |r| == 2 && AllDigits(r) && ParseDigits(r) == n
  {
    if n < 100 then
      assert Pow10(2) == 100;
      PadDigits(n, 2);
      PadStart(NatToString(n), 2, '0')
    else
      PadStart(NatToString(n), 2, '0')
  }

  /** The date string timestampToDateString writes for a local year, month (from 1)
      and day. */
  function Formatted(year: int, month: nat, day: nat): (r: string)
    ensures month < 100 && day < 100 ==> |r| == |IntToString(year)| + 6
  {
    JoinDate(IntToString(year), TwoDigits(month), TwoDigits(day))
  }

  lemma PaddedSuccessor(n: nat)
    ensures PadStart(NumberToString(Plus(Some(n), 1)), 2, '0') == TwoDigits(n + 1)
  {
    assert NumberToString(Plus(Some(n), 1)) == NatToString(n + 1);
  }

  /** Filled with numbers, the template writes the year unpadded and the month and
      day, each plus one, as two digits. */
  lemma FormatPartsOfNumbers(year: int, month: nat, day: nat)
    ensures FormatParts(Some(year), Some(month), Some(day)) == Formatted(year, month + 1, day + 1)
  {
    PaddedSuccessor(month);
    PaddedSuccessor(day);
  }

  /** The local month plus one is 1..12 and the local day plus one is 2..32. */
  lemma LocalFieldRanges(lt: int)
    ensures 1 <= MonthFromTime(lt) + 1 <= 12 && 2 <= DateFromTime(lt) + 1 <= 32
  {
    DateFromTimeSpec(lt);
    assert DaysInMonth(YearFromTime(lt), MonthFromTime(lt)) <= 31;
  }

  /** A two-digit field denoting 2 or more is never "01". */
  lemma NotFirstOfMonth(d: nat)
    requires 2 <= d < 100
    ensures TwoDigits(d) != "01"
  {
    assert ParseDigits("01") == 1 by {
      assert "01"[..1] == "0";
    }
  }

  /** The last two characters of a date string. */
  function DayText(r: string): string
    requires |r| >= 2
  {
    r[|r| - 2..]
  }

  /** The two characters before the last dash of a date string. */
  function MonthText(r: string): string
    requires |r| >= 5
  {
    r[|r| - 5..|r| - 3]
  }

  /** Everything before the first dash of a date string with two-character month and
      day fields. */
  function YearText(r: string): string
    requires |r| >= 6
  {
    r[..|r| - 6]
  }

  /** A date joined from two-character month and day fields splits back into its
      three fields. */
  lemma JoinDateTexts(year: string, month: string, day: string)
    requires |month| == 2 && |day| == 2
    ensures |JoinDate(year, month, day)| >= 6
    ensures YearText(JoinDate(year, month, day)) == year
    ensures MonthText(JoinDate(year, month, day)) == month
    ensures DayText(JoinDate(year, month, day)) == day
  {
    var r := JoinDate(year, month, day);
    var k := |year|;
    assert |r| == k + 6;
    assert r == year + "-" + month + "-" + day;
    assert r[..k] == year;
    assert r[k + 1..k + 3] == month;
    assert r[k + 4..] == day;
  }

  /** A formatted date splits back into its year, month and day fields. */
  lemma FormattedFieldsOf(year: int, month: nat, day: nat)
    requires month < 100 && day < 100
    ensures |Formatted(year, month, day)| >= 6
    ensures YearText(Formatted(year, month, day)) == IntToString(year)
    ensures MonthText(Formatted(year, month, day)) == TwoDigits(month)
    ensures DayText(Formatted(year, month, day)) == TwoDigits(day)
  {
    assert |TwoDigits(month)| == 2 && |TwoDigits(day)| == 2;
    JoinDateTexts(IntToString(year), TwoDigits(month), TwoDigits(day));
  }

  /** A year 0..999 is written with fewer than four characters. */
  lemma ShortYear(year: int)
    requires 0 <= year < 1000
    ensures |IntToString(year)| < 4
  {
    assert IntToString(year) == NatToString(year);
    assert Pow10(3) == 1000;
    CanonicalLength(year, 3);
  }

  /** The month timestampToDateString writes for a valid time value is the local
      month plus one as two digits, 01..12. */
  lemma TimestampMonthField(t: int, offset: int)
    requires -MaxTimeValue <= t <= MaxTimeValue
    ensures |TimestampToDateString(Some(t), offset)| >= 6
    ensures MonthText(TimestampToDateString(Some(t), offset)) == TwoDigits(MonthFromTime(LocalTime(t, offset)) + 1)
    ensures var w := MonthText(TimestampToDateString(Some(t), offset));
            |w| == 2 && AllDigits(w) && 1 <= ParseDigits(w) <= 12
  {
    var lt := LocalTime(t, offset);
    TimestampFormat(t, offset);
    LocalFieldRanges(lt);
    FormattedFieldsOf(YearFromTime(lt), MonthFromTime(lt) + 1, DateFromTime(lt) + 1);
  }

  /** The year timestampToDateString writes is the unpadded local year, so a year
      below 1000 comes out shorter than four characters. */
  lemma TimestampYearField(t: int, offset: int)
    requires -MaxTimeValue <= t <= MaxTimeValue
    ensures |TimestampToDateString(Some(t), offset)| >= 6
    ensures YearText(TimestampToDateString(Some(t), offset)) == IntToString(YearFromTime(LocalTime(t, offset)))
    ensures 0 <= YearFromTime(LocalTime(t, offset)) < 1000 ==>
              |YearText(TimestampToDateString(Some(t), offset))| < 4
  {
    var lt := LocalTime(t, offset);
    var y := YearFromTime(lt);
    TimestampFormat(t, offset);
    LocalFieldRanges(lt);
    FormattedFieldsOf(y, MonthFromTime(lt) + 1, DateFromTime(lt) + 1);
    if 0 <= y < 1000 {
      ShortYear(y);
    }
  }

  /** The day timestampToDateString writes for a valid time value is the local day
      plus one, 02..32: it never writes the first of a month. */
  lemma TimestampDayField(t: int, offset: int)
    requires -MaxTimeValue <= t <= MaxTimeValue
    ensures |TimestampToDateString(Some(t), offset)| >= 6
    ensures DayText(TimestampToDateString(Some(t), offset)) == TwoDigits(DateFromTime(LocalTime(t, offset)) + 1)
    ensures 2 <= DateFromTime(LocalTime(t, offset)) + 1 <= 32
    ensures DayText(TimestampToDateString(Some(t), offset)) != "01"
  {
    var lt := LocalTime(t, offset);
    var y, m, d := YearFromTime(lt), MonthFromTime(lt) + 1, DateFromTime(lt) + 1;
    TimestampFormat(t, offset);
    LocalFieldRanges(lt);
    FormattedFieldsOf(y, m, d);
    NotFirstOfMonth(d);
  }

  /** checkStringIsDate (dateFunc.js:59-77). */
  function CheckStringIsDate(str: string, offset: int, rollOver: bool): (r: bool)
    ensures |str| != 8 ==> !r
    ensures |str| == 8 && Parse(StrToDateString(str), rollOver).None? ==> !r
    ensures r ==> AllDigits(str)
    ensures r ==> TimestampToDateString(Parse(StrToDateString(str), rollOver), offset) == StrToDateString(str)
  {
    if |str| != 8 then
      false
    else
      var dateStr := StrToDateString(str);
      var parseTimestamp := Parse(dateStr, rollOver);
      var convertDateStr := TimestampToDateString(parseTimestamp, offset);
      DateStringForm(str);
      !(parseTimestamp.None? || dateStr != convertDateStr)
  }

  /** Once the candidate parses, the input is accepted exactly when the round trip
      reproduces the candidate. */
  lemma CheckIsRoundTrip(s: string, offset: int, rollOver: bool)
    requires |s| == 8 && Parse(StrToDateString(s), rollOver).Some?
    ensures CheckStringIsDate(s, offset, rollOver)
            <==> TimestampToDateString(Parse(StrToDateString(s), rollOver), offset) == StrToDateString(s)
  {
  }

  /** The three slices of an eight-digit input are digit strings denoting its
      fields. */
  lemma DigitSlices(s: string)
    requires |s| == 8 && AllDigits(s)
    ensures AllDigits(s[..4]) && AllDigits(s[4..6]) && AllDigits(s[6..])
    ensures YearField(s) == ParseDigits(s[..4])
    ensures MonthField(s) == ParseDigits(s[4..6])
    ensures DayField(s) == ParseDigits(s[6..])
  {
    assert forall i :: 0 <= i < 4 ==> s[..4][i] == s[i];
    assert forall i :: 0 <= i < 2 ==> s[4..6][i] == s[4 + i] && s[6..][i] == s[6 + i];
  }

  lemma YearFieldMatches(year: int, w: string)
    requires |w| == 4 && AllDigits(w)
    ensures IntToString(year) == w <==> year >= 1000 && year == ParseDigits(w)
  {
    assert Pow10(3) == 1000;
    UnpaddedMatches(year, w);
  }

  lemma TwoDigitFieldMatches(n: nat, w: string)
    requires |w| == 2 && AllDigits(w) && n < 100
    ensures TwoDigits(n) == w <==> n == ParseDigits(w)
  {
    assert Pow10(2) == 100;
    PaddedMatches(n, w);
  }

  /** A formatted date equals the candidate of an eight-character input exactly when
      its three fields equal the input's three slices. */
  lemma FormattedFieldwise(s: string, year: int, month: nat, day: nat)
    requires |s| == 8 && month < 100 && day < 100
    ensures Formatted(year, month, day) == StrToDateString(s)
            <==> IntToString(year) == s[..4] && TwoDigits(month) == s[4..6] && TwoDigits(day) == s[6..]
  {
    StrToDateStringFields(s);
    assert s[6..] == s[6..8];
    JoinDateInjective(IntToString(year), TwoDigits(month), TwoDigits(day), s[..4], s[4..6], s[6..]);
  }

  /** The three slices of an eight-digit input match (year, month, day) exactly when
      the year has four digits and each value is the slice's. */
  lemma FieldValuesMatch(s: string, year: int, month: nat, day: nat)
    requires |s| == 8 && AllDigits(s) && month < 100 && day < 100
    ensures IntToString(year) == s[..4] && TwoDigits(month) == s[4..6] && TwoDigits(day) == s[6..]
            <==> year >= 1000 && year == YearField(s) && month == MonthField(s) && day == DayField(s)
  {
    DigitSlices(s);
    YearFieldMatches(year, s[..4]);
    TwoDigitFieldMatches(month, s[4..6]);
    TwoDigitFieldMatches(day, s[6..]);
  }

  /** The round trip compares field by field: an all-digit input matches the
      formatted (year, month, day) exactly when the year has four digits and each
      field has the input's value. */
  lemma FormattedMatches(s: string, year: int, month: nat, day: nat)
    requires |s| == 8 && AllDigits(s) && month < 100 && day < 100
    ensures Formatted(year, month, day) == StrToDateString(s)
            <==> year >= 1000 && year == YearField(s) && month == MonthField(s) && day == DayField(s)
  {
    FormattedFieldwise(s, year, month, day);
    FieldValuesMatch(s, year, month, day);
  }

  /** Once the candidate parses, acceptance depends only on the local calendar
      fields of the parsed time value: the local year must be the written year (and
      have four digits), the local month plus one the written month, and the local
      day plus one the written day. */
  lemma AcceptanceByLocalFields(s: string, offset: int, rollOver: bool)
    requires |s| == 8 && Parse(StrToDateString(s), rollOver).Some?
    ensures AllDigits(s)
    ensures var lt := LocalTime(Parse(StrToDateString(s), rollOver).value, offset);
            CheckStringIsDate(s, offset, rollOver)
            <==> && YearFromTime(lt) >= 1000 && YearFromTime(lt) == YearField(s)
                 && MonthFromTime(lt) + 1 == MonthField(s)
                 && DateFromTime(lt) + 1 == DayField(s)
  {
    var t := Parse(StrToDateString(s), rollOver).value;
    var lt := LocalTime(t, offset);
    TimestampFormat(t, offset);
    LocalFieldRanges(lt);
    assert Parse(StrToDateString(s), rollOver) == Some(t);
    assert TimestampToDateString(Parse(StrToDateString(s), rollOver), offset) == Formatted(YearFromTime(lt), MonthFromTime(lt) + 1, DateFromTime(lt) + 1);
    AcceptanceByFields(s, offset, rollOver, YearFromTime(lt), MonthFromTime(lt) + 1, DateFromTime(lt) + 1);
  }

  /** Acceptance of a parsed candidate whose formatted value is known to be the date
      string of (year, month, day): the fields must match the input's. */
  lemma AcceptanceByFields(s: string, offset: int, rollOver: bool, year: int, month: nat, day: nat)
    requires |s| == 8 && Parse(StrToDateString(s), rollOver).Some?
    requires month < 100 && day < 100
    requires TimestampToDateString(Parse(StrToDateString(s), rollOver), offset) == Formatted(year, month, day)
    ensures AllDigits(s)
    ensures CheckStringIsDate(s, offset, rollOver)
            <==> year >= 1000 && year == YearField(s) && month == MonthField(s) && day == DayField(s)
  {
    DateStringForm(s);
    CheckIsRoundTrip(s, offset, rollOver);
    FormattedMatches(s, year, month, day);
  }
}
