# dateFunc.js date-string validator, in Dafny

A model of the date helpers of MyJSUtils' `dateFunc.js`:

- `strToDateString` turns `YYYYMMDD` into `YYYY-MM-DD` by slicing.
- `timestampToDateString` formats a time value as `YYYY-MM-DD` with the local-time getters. It adds one to the day.
- `checkStringIsDate` accepts an eight-character string when `Date.parse` of its dashed form succeeds and `timestampToDateString` writes the same dashed form back.

The JavaScript host is written out as the integer algorithms of ECMA-262:

- the time-value arithmetic of section 21.4.1: Day, YearFromTime, MonthFromTime, DateFromTime, MakeDay, MakeDate, TimeClip and LocalTime;
- `Date.parse` (section 21.4.3.2), for the date-only form `YYYY-MM-DD` of the Date Time String Format (section 21.4.1.32). That form is read as UTC midnight.

Modelling choices:

- A time value is an `int` of milliseconds; NaN is `None` of `Option<int>`.
- The host's time zone is a fixed offset `offset` in milliseconds (local time = UTC + offset).
- Some dates exist in the format but not in their month, such as `2023-02-30`. Hosts differ on whether they reject such a date or roll it over into the next month, so the flag `rollOver` chooses.

Modules:

- `Wrappers`: `Option`.
- `Decimal`: digit strings, `Number.prototype.toString` on integers, `padStart` and `slice`.
- `EcmaTime`: the date arithmetic.
- `DateParse`: `Date.parse` on the date-only form.
- `DateFunc`: the three functions as written.
- `DateFuncProperties`: what the as-written check accepts, as a function of the time zone.
- `DateFuncFixed`: the corrected version.
- `DateFuncExamples`: concrete inputs.

Main results:

- **At UTC and east of it** (`0 <= offset < MsPerDay`), `checkStringIsDate` rejects every input. This is `DateFuncProperties.RejectsEverythingEastOfUtc`.
- **West of UTC**, it accepts exactly the strings described by `WestAccepts`. This is `DateFuncProperties.AcceptanceWestOfUtc`. Those strings are eight digits with:
  - a year of at least 1000;
  - a month from 01 to 12;
  - a day from 02 to the end of the month, or one day past the end if the host rolls over.
- **The corrected version** accepts exactly the calendar dates, on any host. This is `DateFuncFixed.AcceptsExactlyCalendarDates`. It reads the time value with the UTC getters, drops the `+ 1` and pads the year to four digits.

The documentation comment of `timestampToDateString` (dateFunc.js:36) promises a `YYYY-MM-DD` string, so a four-digit year. The code (dateFunc.js:43) writes `getFullYear().toString()` unpadded, so the years 0..999 come out shorter. The model follows the code, and the last row under "## Findings" records the difference.

## Model

| member | source | states |
|---|---|---|
| Decimal.Slice | dateFunc.js:29-31 | `slice(start, end)` clamps both ends to the length and gives the characters between them, or nothing when end <= start |
| Decimal.NatToStringSpec | dateFunc.js:43 | the decimal form of a non-negative integer denotes it and has no leading zero |
| Decimal.IntToStringSpec | dateFunc.js:43 | `toString` of a negative integer is a minus sign followed by the digits of its magnitude |
| Decimal.NumberToString | dateFunc.js:43-46 | NaN is written "NaN" and nothing else is; an integer is written as its decimal digits, as JavaScript writes integers below 10^21 in magnitude |
| Decimal.PadStart | dateFunc.js:45-46 | `padStart` reaches the requested length (or keeps a longer string's length) and fills only in front of the string |
| Decimal.PadStartSuffix | dateFunc.js:45-46 | `padStart` keeps the string it pads as the suffix of its result |
| Decimal.PadDigits | dateFunc.js:45-46 | a number below 10^k, zero-padded to width k, is a field of k digits denoting it |
| Decimal.PaddedMatches | dateFunc.js:45-46 | the padded form of n equals a digit field exactly when n is the field's value |
| Decimal.UnpaddedMatches | dateFunc.js:43 | the unpadded form of n equals a digit field exactly when n is its value and has as many digits as the field |
| EcmaTime.DayFromYearStep | dateFunc.js:43 | the closed DayFromYear formula advances by the length of each Gregorian year |
| EcmaTime.YearFromTime | dateFunc.js:43 | the year of a time value is the one whose span contains it |
| EcmaTime.YearUnique | dateFunc.js:43 | only one year contains a given day |
| EcmaTime.MonthFromTime | dateFunc.js:45 | the month of a time value is the one whose cumulative day range contains its day within the year |
| EcmaTime.DateFromTimeSpec | dateFunc.js:46 | the date lies within its month, and year, month and date give back the day number |
| EcmaTime.CalendarOfDay | dateFunc.js:43-46 | a time value falls on (y, m, d) exactly when its day number is that date's: decomposition inverts DayNumber |
| EcmaTime.CalendarOfOverflow | dateFunc.js:68 | a day past the end of its month lands on the excess day of the following month of the same year |
| EcmaTime.MakeDayCalendar | dateFunc.js:68 | when the month, after whole years are folded out of it, has the date, the day MakeDay numbers reads back through YearFromTime, MonthFromTime and DateFromTime as that year, month and date |
| EcmaTime.TimeClip | dateFunc.js:42 | time values beyond 8.64e15 ms in magnitude become NaN; others are kept |
| EcmaTime.DayOfShiftedMidnight | dateFunc.js:43-46 | a UTC midnight seen from a zone less than a day east stays on its day, and one seen from the west is on the day before |
| EcmaTime.MidnightOfDate | dateFunc.js:68 | the midnight of any written date of the years 0..9999 is a valid time value on that date's day |
| DateParse.Parse | dateFunc.js:68 | `Date.parse` succeeds exactly on the date-only form with month 01..12, day 01..31 and, unless the host rolls over, a day within the month; the result is that date's UTC midnight |
| DateParse.ParseOfDate | dateFunc.js:68 | a date-only string naming an existing day parses to its midnight on every host |
| DateParse.ParseReadsBack | dateFunc.js:68 | a parsed existing date reads back in UTC as the year, month and day written |
| DateParse.ParseRollsOver | dateFunc.js:68 | a parsed day past the end of its month reads back in UTC as the excess day, 1..3, of the next month |
| DateFunc.JoinDateInjective | dateFunc.js:32 | with two-character month and day fields, the joined string determines all three fields |
| DateFunc.StrToDateString | dateFunc.js:28-33 | the result has the length of the first eight characters plus two dashes |
| DateFunc.StrToDateStringFields | dateFunc.js:28-33 | for eight or more characters the result is `s[0..4] + "-" + s[4..6] + "-" + s[6..8]`, ten characters with dashes at 4 and 7 |
| DateFunc.StrToDateStringRoundTrip | dateFunc.js:29-32 | removing the two dashes gives back the first eight characters |
| DateFunc.DateStringForm | dateFunc.js:67-68 | the dashed form of eight characters is in the date-only form exactly when they are all digits |
| DateFunc.ParsedCandidate | dateFunc.js:67-68 | the dashed form of eight digits parses exactly when its month is 01..12 and its day 01..31 and, without rollover, within the month; the result is that date's midnight |
| DateFunc.NewDate | dateFunc.js:42 | `new Date(v)` keeps a time value in range and gives NaN otherwise |
| DateFunc.TimestampToDateString | dateFunc.js:41-48 | a valid time value is written as the unpadded local year, the local month plus one and the local day plus one; NaN and out-of-range values as "NaN-NaN-NaN" |
| DateFunc.GetFullYear | dateFunc.js:43 | `getFullYear` gives NaN exactly for an invalid date |
| DateFunc.GetFullYearSpan | dateFunc.js:43 | `getFullYear` of a valid date is the year whose span holds the local time value |
| DateFunc.GetMonth | dateFunc.js:45 | `getMonth` gives NaN exactly for an invalid date |
| DateFunc.GetMonthRange | dateFunc.js:45 | `getMonth` of a valid date is 0..11, the month whose day range holds the local day within the year |
| DateFunc.GetDate | dateFunc.js:46 | `getDate` gives NaN exactly for an invalid date |
| DateFunc.GetDateRange | dateFunc.js:46 | `getDate` of a valid date is 1 to the length of the local month |
| DateFunc.TimestampYearField | dateFunc.js:43 | the year field is the unpadded local year, shorter than four characters for years 0..999 |
| DateFunc.TimestampMonthField | dateFunc.js:45 | the month field is the local month plus one, two digits in 01..12 |
| DateFunc.TimestampDayField | dateFunc.js:46 | the day field is the local day plus one, 02..32; it is never "01" |
| DateFunc.CheckStringIsDate | dateFunc.js:59-77 | false for a length other than 8 and when the parse fails; when true, the input is all digits and the round trip reproduces the dashed form |
| DateFunc.FormattedMatches | dateFunc.js:72 | the round-tripped string equals the dashed input exactly when the year has four digits and each field has the input's value |
| DateFunc.AcceptanceByLocalFields | dateFunc.js:67-72 | once the candidate parses, checkStringIsDate accepts exactly when the local year, month plus one and day plus one are the written ones |
| DateFunc.AcceptanceByFields | dateFunc.js:67-72 | when the candidate parses and the round trip writes the date string of (year, month, day), checkStringIsDate accepts exactly when the year has four digits and all three fields are the written ones |
| DateFuncProperties.LocalDayOfMidnight | dateFunc.js:43-46 | a UTC midnight seen from a zone less than a day away is on its own day, or on the day before west of UTC |
| DateFuncProperties.ParsedLocalDay | dateFunc.js:43-46 | in local time the parsed candidate is on the written date, or on the day before in a zone west of UTC |
| DateFuncProperties.RejectsEverythingEastOfUtc | dateFunc.js:59-77 | with the host at UTC or east of it, checkStringIsDate rejects every input |
| DateFuncProperties.EastParsed | dateFunc.js:43-46 | east of UTC the local month plus one or the local day plus one differs from the written one |
| DateFuncProperties.AcceptanceWestOfUtc | dateFunc.js:59-77 | west of UTC checkStringIsDate accepts exactly the eight-digit strings with a year from 1000, a month 01..12 and a day from 02 to the end of the month, or to one past it when the host rolls over |
| DateFuncFixed.CheckStringIsDate | dateFunc.js:59-77 | the corrected checkStringIsDate is false for a length other than 8; when true, the input is all digits and the corrected round trip reproduces it |
| DateFuncFixed.AcceptsExactlyCalendarDates | dateFunc.js:50-57 | the corrected checkStringIsDate accepts an input exactly when it is eight digits naming an existing day |
| DateFuncFixed.IndependentOfRollOver | dateFunc.js:55 | the corrected checkStringIsDate gives the same answer whether or not the host rolls dates over |
| DateFuncFixed.TimestampToDateString | dateFunc.js:41-48 | with the UTC getters, no `+ 1` and the year padded to four, a valid time value is written as its UTC year padded to four characters, its UTC month plus one and its UTC day; NaN and out-of-range values as "0NaN-NaN-NaN" |
| DateFuncFixed.UtcRoundTrip | dateFunc.js:41-48 | parsing what the corrected formatter writes for a UTC midnight of the years 0..9999 gives that midnight back |
| DateFuncExamples.UtcRejectsMidJune | dateFunc.js:46 | at UTC, "20230615" is rejected |
| DateFuncExamples.WestAcceptsMidJune | dateFunc.js:59-77 | one hour west of UTC, "20230615" is accepted |
| DateFuncExamples.WestRejectsFirstOfMonth | dateFunc.js:43-46 | one hour west of UTC, "20230701" is rejected |
| DateFuncExamples.WestAcceptsFebruary29Of2023 | dateFunc.js:43-46 | one hour west of UTC on a host that rolls over, "20230229" is accepted |
| DateFuncExamples.WestRejectsYear999 | dateFunc.js:43 | one hour west of UTC, "09990615" is rejected |
| DateFuncExamples.FixedAcceptsFirstOfMonth | dateFunc.js:50-57 | the corrected checkStringIsDate accepts "20230701" |
| DateFuncExamples.FixedRejectsFebruary29Of2023 | dateFunc.js:50-57 | the corrected checkStringIsDate rejects "20230229" even on a host that rolls over |
| DateFuncExamples.FixedAcceptsYear999 | dateFunc.js:50-57 | the corrected checkStringIsDate accepts "09990615" |

## Left out

- `getTodayTimestamp` (dateFunc.js:9-20): it reads the system clock. It is not part of this model.
- `Date.parse` on anything but the date-only form `YYYY-MM-DD`: here every other string gives NaN. That covers two kinds of string:
  - forms that section 21.4.1.32 of ECMA-262 itself defines: `YYYY`, `YYYY-MM`, the date-time forms with a time part and an optional zone, and the expanded years `+YYYYYY` and `-YYYYYY`;
  - strings that hosts read with their own fallback rules.

  No input of `checkStringIsDate` reaches a standard form other than `YYYY-MM-DD`. The dashed form of an eight-character input is always ten characters with dashes at positions 4 and 7 (`DateFunc.StrToDateStringFields`). `YYYY` and `YYYY-MM` are shorter, and every date-time form is longer. The only ten-character expanded form, `+YYYYYY-MM`, has a digit at position 4. Host fallback on a ten-character string with a non-digit is not modelled, so such an input is never accepted here.
- Strings are sequences of Unicode scalar values, not of UTF-16 code units. For a string with characters outside the Basic Multilingual Plane, `length` and `slice` differ from JavaScript's: JavaScript counts "😀😀😀😀" as eight units and slices it into "😀😀-😀-😀", while here it has length 4 and its dashed form is "😀😀😀😀--". The answer of `checkStringIsDate` is the same on both sides. An accepted string must be eight ASCII digits, and those are one unit each either way. A string that JavaScript measures as eight units but that holds an astral character gives a dashed form with non-digit units. That form is not the date-only form, so the parse gives NaN and the answer is false, as it is here.
- Decimal.NumberToString: writes every integer in plain decimal, while JavaScript switches to exponent form from 10^21 in magnitude. The getters never come near that: years stay within 275760 in magnitude, months are 1..12 and days are at most 32. So no output of `timestampToDateString` is affected.
- Time zones are a single fixed offset. Daylight saving time and time-zone databases are not modelled. The results about the as-written check assume an offset of less than one day in magnitude.
- IEEE-754 arithmetic on time values beyond NaN: time values are mathematical integers within the ECMA-262 range.
- DateFuncFixed.UtcRoundTrip: stated only for the years 0..9999. For a negative year the corrected formatter, like `padStart(4, '0')`, puts the zeros before the minus sign ("00-5"), and for a year above 9999 it writes the plain digits. Neither is the expanded-year form `Date.parse` reads, so those strings do not parse back.

## Findings

| source | as written | input that shows it | evidently intended | confidence | as-written member | corrected member |
|---|---|---|---|---|---|---|
| dateFunc.js:46 | the day is written as `getDate() + 1` | "20230615" on a host at UTC: parsed as 2023-06-15T00:00Z and written back as "2023-06-16", so a real date is rejected; at UTC and east of it every input is rejected | the day written as `getDate()` | not executed | DateFuncExamples.UtcRejectsMidJune | DateFuncFixed.AcceptsExactlyCalendarDates |
| dateFunc.js:43-46 | the time value is read back with the local getters, but `Date.parse` read the date-only string as UTC | "20230701" one hour west of UTC: the local day is June 30, so with the `+ 1` it is written back as "2023-06-31" and the first of a month is rejected | the UTC getters, with no `+ 1` | not executed | DateFuncExamples.WestRejectsFirstOfMonth | DateFuncFixed.AcceptsExactlyCalendarDates |
| dateFunc.js:43-46 | the local getters and the `+ 1` cancel out for a rolled-over date | "20230229" one hour west of UTC, on a host that rolls it over to 2023-03-01: the local day is February 28, written back as "2023-02-29", so a date that does not exist is accepted | the UTC getters, with no `+ 1` | not executed | DateFuncExamples.WestAcceptsFebruary29Of2023 | DateFuncFixed.AcceptsExactlyCalendarDates |
| dateFunc.js:43 | the year is written unpadded with `getFullYear().toString()` | "09990615" one hour west of UTC: the year is written back as "999", so a real date is rejected | the year padded to four digits | not executed | DateFuncExamples.WestRejectsYear999 | DateFuncFixed.AcceptsExactlyCalendarDates |
