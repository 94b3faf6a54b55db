/** Concrete inputs that show what checkStringIsDate does with real dates. */
module DateFuncExamples {
  import opened Decimal
  import opened EcmaTime
  import opened DateFunc
  import opened DateFuncProperties
  import DateFuncFixed

  /** One hour west of UTC, as in the Azores in winter. */
  const OneHourWest := -3_600_000

  /** `s` is eight digits writing year `y`, month `m` and day `d`. */
  predicate Writes(s: string, y: nat, m: nat, d: nat) {
    |s| == 8 && AllDigits(s) && YearField(s) == y && MonthField(s) == m && DayField(s) == d
  }

  lemma WritesFields(s: string, y: string, m: string, d: string)
    requires |y| == 4 && |m| == 2 && |d| == 2 && s == y + m + d
    requires AllDigits(y) && AllDigits(m) && AllDigits(d)
    ensures Writes(s, ParseDigits(y), ParseDigits(m), ParseDigits(d))
  {
    assert s[..4] == y && s[4..6] == m && s[6..] == d;
  }

  lemma Year2023()
    ensures AllDigits("2023") && ParseDigits("2023") == 2023
  {
    assert "2023"[..3] == "202" && "202"[..2] == "20" && "20"[..1] == "2" && "2"[..0] == "";
  }

  lemma Year999()
    ensures AllDigits("0999") && ParseDigits("0999") == 999
  {
    assert "0999"[..3] == "099" && "099"[..2] == "09" && "09"[..1] == "0";
  }

  /** The value of a two-digit field. */
  lemma TwoDigitValue(w: string)
    requires |w| == 2 && AllDigits(w)
    ensures ParseDigits(w) == 10 * DigitValue(w[0]) + DigitValue(w[1])
  {
    assert w[..1][..0] == [];
  }

  lemma Writes20230615()
    ensures Writes("20230615", 2023, 6, 15)
  {
    Year2023();
    TwoDigitValue("06");
    TwoDigitValue("15");
    WritesFields("20230615", "2023", "06", "15");
  }

  lemma Writes20230701()
    ensures Writes("20230701", 2023, 7, 1)
  {
    Year2023();
    TwoDigitValue("07");
    TwoDigitValue("01");
    WritesFields("20230701", "2023", "07", "01");
  }

  lemma Writes20230229()
    ensures Writes("20230229", 2023, 2, 29)
  {
    Year2023();
    TwoDigitValue("02");
    TwoDigitValue("29");
    WritesFields("20230229", "2023", "02", "29");
  }

  lemma Writes09990615()
    ensures Writes("09990615", 999, 6, 15)
  {
    Year999();
    TwoDigitValue("06");
    TwoDigitValue("15");
    WritesFields("09990615", "0999", "06", "15");
  }

  /** At UTC the valid date 2023-06-15 is rejected. */
  lemma UtcRejectsMidJune(rollOver: bool)
    ensures !CheckStringIsDate("20230615", 0, rollOver)
  {
    RejectsEverythingEastOfUtc("20230615", 0, rollOver);
  }

  /** One hour west of UTC the valid date 2023-06-15 is accepted. */
  lemma WestAcceptsMidJune(rollOver: bool)
    ensures CheckStringIsDate("20230615", OneHourWest, rollOver)
  {
    Writes20230615();
    AcceptanceWestOfUtc("20230615", OneHourWest, rollOver);
  }

  /** One hour west of UTC the valid date 2023-07-01 is rejected. */
  lemma WestRejectsFirstOfMonth(rollOver: bool)
    ensures !CheckStringIsDate("20230701", OneHourWest, rollOver)
  {
    Writes20230701();
    AcceptanceWestOfUtc("20230701", OneHourWest, rollOver);
  }

  /** One hour west of UTC, on a host that rolls 2023-02-29 over to March 1st, the
      non-existent date 2023-02-29 is accepted. */
  lemma WestAcceptsFebruary29Of2023()
    ensures CheckStringIsDate("20230229", OneHourWest, true)
  {
    Writes20230229();
    assert !IsLeapYear(2023);
    AcceptanceWestOfUtc("20230229", OneHourWest, true);
  }

  /** One hour west of UTC the valid date 0999-06-15 is rejected: the year is
      written back as "999". */
  lemma WestRejectsYear999(rollOver: bool)
    ensures !CheckStringIsDate("09990615", OneHourWest, rollOver)
  {
    Writes09990615();
    AcceptanceWestOfUtc("09990615", OneHourWest, rollOver);
  }

  /** The corrected check accepts the first of a month. */
  lemma FixedAcceptsFirstOfMonth(rollOver: bool)
    ensures DateFuncFixed.CheckStringIsDate("20230701", rollOver)
  {
    Writes20230701();
    DateFuncFixed.AcceptsExactlyCalendarDates("20230701", rollOver);
  }

  /** The corrected check rejects 2023-02-29 even on a host that rolls it over. */
  lemma FixedRejectsFebruary29Of2023()
    ensures !DateFuncFixed.CheckStringIsDate("20230229", true)
  {
    Writes20230229();
    assert DaysInMonth(2023, 1) == 28;
    assert !DateFuncFixed.IsCalendarDate("20230229");
    DateFuncFixed.AcceptsExactlyCalendarDates("20230229", true);
  }

  /** The corrected check accepts 0999-06-15: the year is written back as "0999". */
  lemma FixedAcceptsYear999(rollOver: bool)
    ensures DateFuncFixed.CheckStringIsDate("09990615", rollOver)
  {
    Writes09990615();
    DateFuncFixed.AcceptsExactlyCalendarDates("09990615", rollOver);
  }
}
