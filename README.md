# httpdate in Dafny

A model of `httpdate`, a small Python library that parses and formats the HTTP
date field of section 5.6.7 of RFC 9110, with the weekday rule of section 3.3 of
RFC 5322. It covers the whole of `src/httpdate/httpdate.py`:

- the three `RFC9110` patterns, tried in the order IMF-fixdate, rfc850-date,
  asctime-date, where the first pattern that matches decides;
- the `MONTHS` and `WEEKDAYS` tables;
- `_normalize_for_strptime`, with the rfc850 century rule;
- `_string_to_unixtime`, with its range, weekday and leap-second checks;
- the public `httpdate_to_unixtime`, `unixtime_to_httpdate` and `is_valid_httpdate`.

Everything in the source is a pure function of its input, so the model is
datatypes, functions and lemmas. There are five modules:

- `Wrappers` (`wrappers.dfy`): the `Option` type. The source's `None` input and
  `None` result are `Option` values.
- `Calendar` (`calendar.dfy`): the proleptic Gregorian calendar as a day count
  from 1970-01-01. It stands in for `time.strptime`, `calendar.timegm` and
  `datetime.fromtimestamp`. It gives the forward conversion (`DaysFromCivil`,
  `Timestamp`) and the inverse (`CivilFromDay`, `CivilFromTimestamp`), and
  proves that they are inverse.
- `HttpDate` (`httpdate.dfy`): the library itself. The wall clock is an explicit
  `now: Instant` parameter.
- `HttpDateProperties` (`properties.dfy`): what the library promises over all
  inputs. This covers match order, each rejection reason, what every accepted
  date satisfies, the century rule, the trailing-newline quirk and both round
  trips between parser and formatter.
- `HttpDateExamples` (`vectors.dfy`): the input/output pairs of the repository's
  tests, proved of the model. This covers every pair in
  `tests/test_unixtime_to_httpdate.py` and `tests/test_is_valid_httpdate.py`, and
  every pair in `tests/test_httpdate_to_unixtime.py` except the one that mocks
  `calendar.timegm` (see "Left out"). The rfc850-date cases use the clock that
  those tests pin, 2020-01-01 00:00:00. Where a test reads the real clock, the
  model uses the same 2020 clock; the result does not depend on the clock
  there.

Where the tests and the code disagree, the model follows the code. The tests
expect `TypeError` for a `None` input and `ValueError` with messages for invalid
dates. The code returns `None` on every failure, and the model does the same.

## Model

| member | source | states |
|---|---|---|
| HttpDate.MonthTablesAgree | src/httpdate/httpdate.py:62-75 | the twelve month abbreviations and their numbers 1..12 form one bijection, read either way |
| HttpDate.TableTokensAreWords | src/httpdate/httpdate.py:76-84 | every weekday and month abbreviation is a three-character `\w` token, so the IMF-fixdate pattern can read what the formatter writes |
| HttpDate.Pad2 | src/httpdate/httpdate.py:301 | `%d`, `%H`, `%M` and `%S` write two digits that read back as the number written |
| HttpDate.Pad4 | src/httpdate/httpdate.py:301 | `%Y` writes four digits that read back as the year written |
| HttpDate.BeforeFinalNewline | src/httpdate/httpdate.py:40 | the text an anchored pattern sees is the input less its final newline when it ends in one, and the input itself otherwise (Python's `$`) |
| HttpDate.MatchImfFixdate | src/httpdate/httpdate.py:40 | matches exactly when the text has the IMF-fixdate shape; the captures are that layout's fields, with a 3-letter weekday and a 4-digit year |
| HttpDate.MatchRfc850 | src/httpdate/httpdate.py:46 | matches exactly when the text has the rfc850-date shape; the weekday is a non-empty `\w+` and the year has two digits |
| HttpDate.MatchAsctime | src/httpdate/httpdate.py:52 | matches exactly when the text has the asctime-date shape, whose day is `\d{2}` or a space and one digit |
| HttpDate.FirstMatch | src/httpdate/httpdate.py:240-242 | a result comes from the first layout in the order whose pattern matches, and every earlier layout failed; no result means no layout matched |
| HttpDate.LayoutsExclusive | src/httpdate/httpdate.py:36-55 | no text matches two of the three patterns |
| HttpDate.TupleOrder | src/httpdate/httpdate.py:134 | Python's `>` on the two 6-tuples is a strict total order: irreflexive, exactly one direction holds between distinct tuples, and transitive |
| HttpDate.CurrentYear | src/httpdate/httpdate.py:103-104 | the year the century rule uses is the clock year, raised to 1900 when the clock is earlier |
| HttpDate.FutureLimit | src/httpdate/httpdate.py:124-131 | the threshold tuple is the clock shifted 50 years ahead: year Y+50 and the clock's month, day, hour, minute and second, so it lies strictly after the clock |
| HttpDate.ResolveCentury | src/httpdate/httpdate.py:103-135 | the resolved year ends in the two written digits and lies in (Y-100, Y+50], where Y = max(now.year, 1900); it keeps this century exactly when that candidate tuple is not greater than the threshold tuple |
| HttpDate.MonthNumber | src/httpdate/httpdate.py:111-112 | a month token yields a number exactly when it is one of the twelve abbreviations, and the number maps back to the token |
| HttpDate.Normalize | src/httpdate/httpdate.py:87-148 | fails exactly on an unknown month token; otherwise keeps day and time as written, keeps the 4-digit year, and gives an rfc850 year with the written last two digits |
| HttpDate.WeekdayOf | src/httpdate/httpdate.py:164 | `tm_wday` is a weekday number 0..6, Monday first |
| HttpDate.StrptimeAccepts | src/httpdate/httpdate.py:156-162 | the ranges `strptime` enforces, together with second ≤ 60, are exactly a valid date-time |
| HttpDate.ExpectedWeekday | src/httpdate/httpdate.py:164 | the expected name is a `\w+` word of at least six letters for rfc850-date, and a `\w{3}` token otherwise, so each layout's pattern can capture it |
| HttpDate.StringToUnixtime | src/httpdate/httpdate.py:151-185 | a timestamp comes back only for a valid date with hour ≤ 23, minute ≤ 59, second ≤ 60 and year 1900..9999; the weekday must equal the expected name, and second 60 must be a listed leap second; the timestamp is the day count conversion |
| HttpDate.ParseCaptures | src/httpdate/httpdate.py:243-253 | whatever a matched layout yields lies between the two formatter bounds |
| HttpDate.MatchLayout | src/httpdate/httpdate.py:240-242 | the captures of the first matching layout, and an rfc850 year has at most two digits |
| HttpDate.HttpdateToUnixtime | src/httpdate/httpdate.py:233-255 | `None` in gives `None` out, and every accepted timestamp lies in [-2208988800, 253402300799] |
| HttpDate.BoundsAreYearLimits | src/httpdate/httpdate.py:287-289 | -2208988800 is 1900-01-01 00:00:00, 253402300799 is 9999-12-31 23:59:59, and one second later is the start of year 10000 |
| HttpDate.AcceptedTimestampInRange | src/httpdate/httpdate.py:171-174 | a date-time that passes the year check, the field checks and the leap-second check has a timestamp between the two formatter bounds |
| HttpDate.UnixtimeToHttpdate | src/httpdate/httpdate.py:280-301 | a text comes back exactly for a timestamp in [-2208988800, 253402300799]; that text has 29 characters and matches the IMF-fixdate pattern |
| HttpDate.CivilYearInRange | src/httpdate/httpdate.py:289-298 | every in-range timestamp converts to a date in the years 1900..9999 |
| HttpDate.ImfFixdateLayoutRead | src/httpdate/httpdate.py:40 | the IMF-fixdate pattern reads each field of a text in that layout back exactly |
| HttpDateExamples.ReadsImfFixdate | src/httpdate/httpdate.py:40 | the parser reads a text in the IMF-fixdate layout as IMF-fixdate, with each field captured as written |
| HttpDateExamples.ReadsRfc850 | src/httpdate/httpdate.py:46 | the parser reads a text in the rfc850-date layout as rfc850-date, with each field captured as written |
| HttpDateExamples.ReadsAsctime | src/httpdate/httpdate.py:52 | the parser reads an asctime-date text whose day is a space and one digit as that digit |
| HttpDateExamples.ReadsAsctimeTwoDigitDay | src/httpdate/httpdate.py:52 | the parser reads an asctime-date text whose day is two digits as the value of both digits |
| HttpDate.ImfFixdateText | src/httpdate/httpdate.py:301 | the `strftime` text of a date-time has exactly 29 characters in the IMF-fixdate shape, with no trailing newline; the pattern captures its weekday abbreviation, day, month abbreviation, year, hour, minute and second |
| HttpDate.IsValidHttpdate | src/httpdate/httpdate.py:318-325 | true exactly when the input is a text that the parser accepts; false for `None` |
| Calendar.YearLength | src/httpdate/httpdate.py:180 | the day count of the next year's first day is this year's plus 365, or 366 in a Gregorian leap year |
| Calendar.DaysFromCivil | src/httpdate/httpdate.py:180 | day numbers count from 1970-01-01 as day 0; the civil dates of January 1970 are days 0 to 30 |
| Calendar.WeekdayOfDay | src/httpdate/httpdate.py:164 | a weekday number 0..6, Monday = 0, with day 0 (1970-01-01) a Thursday |
| Calendar.Timestamp | src/httpdate/httpdate.py:180 | `timegm` of a valid date-time lies between its own midnight and the next one; it reaches the next midnight only for 23:59:60 |
| Calendar.NextDateIsNextDay | src/httpdate/httpdate.py:180 | the day after a valid date is valid and has the next day number, across month and year ends |
| Calendar.NextDateNextWeekday | src/httpdate/httpdate.py:164 | the day after a valid date falls on the next weekday, Sunday wrapping round to Monday |
| Calendar.LeapSecondIsNextMidnight | src/httpdate/httpdate.py:180 | `timegm` gives 23:59:60 the same timestamp as the next day's 00:00:00 |
| Calendar.FourHundredYearCycle | src/httpdate/httpdate.py:164 | moving a date 400 years keeps it valid, adds 146097 days and keeps its weekday |
| Calendar.CivilFromDay | src/httpdate/httpdate.py:295-298 | the civil date of a day number is valid, and converting it forward gives that day number back |
| Calendar.CivilFromDayOfValid | src/httpdate/httpdate.py:295-298 | every valid date is the civil date of its own day number |
| Calendar.CivilFromTimestamp | src/httpdate/httpdate.py:295-298 | `fromtimestamp` yields a valid date-time with second ≤ 59 whose timestamp is the input |
| Calendar.CivilFromTimestampOfValid | src/httpdate/httpdate.py:295-298 | a valid date-time whose second is not 60 is recovered from its own timestamp |
| Calendar.TimestampInjective | src/httpdate/httpdate.py:180 | two valid date-times whose seconds are not 60 share a timestamp only when they are equal |
| HttpDateProperties.MatchLayoutCascade | src/httpdate/httpdate.py:240-255 | the first-match search is IMF-fixdate, else rfc850-date, else asctime-date |
| HttpDateProperties.FirstMatchDecides | src/httpdate/httpdate.py:240-255 | the first matching layout alone decides the result; when its checks fail the result is `None`, with no fallback to later layouts; with no match the result is `None` |
| HttpDateProperties.UnknownMonthRejected | src/httpdate/httpdate.py:245-246 | a matched text whose month token is not one of the twelve abbreviations is rejected |
| HttpDateProperties.LeapSecondOnlyBeforeMidnight | src/httpdate/httpdate.py:182-183 | a listed leap second can only be 23:59:60, and it has the timestamp of the next day's midnight |
| HttpDateProperties.LeapSecondsAreMidnights | src/httpdate/httpdate.py:182 | every value of `LEAP_SECONDS` is a multiple of 86400, a midnight |
| HttpDateProperties.AcceptedHttpdate | src/httpdate/httpdate.py:156-185 | an accepted text has a known month, a valid Gregorian date in 1900..9999, hour ≤ 23, minute ≤ 59 and second ≤ 60, the implied weekday name, and the day-count timestamp; second 60 occurs only as a listed 23:59:60 |
| HttpDateProperties.AcceptedWhenChecksPass | src/httpdate/httpdate.py:164-185 | conversely, a matched text whose date-time passes every check is accepted, with that date-time's timestamp |
| HttpDateProperties.WrongWeekdayRejected | src/httpdate/httpdate.py:164-167 | a weekday other than the one the date implies (full name for rfc850, abbreviation otherwise) rejects the text |
| HttpDateProperties.OutOfRangeRejected | src/httpdate/httpdate.py:156-174 | an impossible date or time, or a year outside 1900..9999, rejects the text |
| HttpDateProperties.UnofficialLeapSecondRejected | src/httpdate/httpdate.py:182-183 | second 60 whose timestamp is not a listed leap second rejects the text |
| HttpDateProperties.AcceptedRfc850Year | src/httpdate/httpdate.py:103-135 | an accepted rfc850 year ends in the written digits and lies in (Y-100, Y+50], where Y = max(clock year, 1900) |
| HttpDateProperties.ThresholdKeepsCentury | src/httpdate/httpdate.py:133-135 | a candidate exactly at the 50-year threshold is not strictly greater, so it keeps this century |
| HttpDateProperties.TrailingNewlineIgnored | src/httpdate/httpdate.py:241 | appending one newline to a text without a final newline does not change the result |
| HttpDateProperties.FormatThenParse | src/httpdate/httpdate.py:289-301 | formatting an in-range timestamp and parsing the text gives the timestamp back, whatever the clock; the text is a valid HTTP date |
| HttpDateProperties.ParsesOwnText | src/httpdate/httpdate.py:240-253 | the parser reads the formatter's text of any date-time of 1900..9999 without second 60 back as that date-time's timestamp, whatever the clock |
| HttpDateProperties.ParseThenFormat | src/httpdate/httpdate.py:188-301 | formatting a parsed timestamp gives the IMF-fixdate text of the parsed date-time, or of the next midnight for a leap second |
| HttpDateProperties.FormatOfDateTime | src/httpdate/httpdate.py:295-301 | a date-time of 1900..9999 whose second is not 60 formats as its own IMF-fixdate text |
| HttpDateProperties.FormatOfLeapSecond | src/httpdate/httpdate.py:295-301 | the timestamp of an official leap second formats as the following midnight |
| HttpDateExamples.ImfFixdateSunday | tests/test_httpdate_to_unixtime.py:36 | `Sun, 06 Nov 1994 08:49:37 GMT` is 784111777 |
| HttpDateExamples.ImfFixdateSep2000 | tests/test_httpdate_to_unixtime.py:37 | `Fri, 01 Sep 2000 00:00:00 GMT` is 967766400 |
| HttpDateExamples.LeapDay | tests/test_httpdate_to_unixtime.py:38 | `Sat, 29 Feb 2020 00:00:00 GMT` is 1582934400 |
| HttpDateExamples.OfficialLeapSecond | tests/test_httpdate_to_unixtime.py:39 | `Sat, 31 Dec 2016 23:59:60 GMT` is 1483228800 |
| HttpDateExamples.ImfFixdateMissingWeekday | tests/test_httpdate_to_unixtime.py:49 | `06 Nov 1994 00:00:00 GMT` matches no layout and is rejected |
| HttpDateExamples.WrongWeekday | tests/test_httpdate_to_unixtime.py:50 | `Snn, 06 Nov 1994 00:00:00 GMT` is rejected |
| HttpDateExamples.ThirtyFirstNovember | tests/test_httpdate_to_unixtime.py:51 | `Sun, 31 Nov 1994 00:00:00 GMT` is rejected |
| HttpDateExamples.UnknownMonth | tests/test_httpdate_to_unixtime.py:52 | `Sun, 06 Nvv 1994 00:00:00 GMT` is rejected |
| HttpDateExamples.ImfFixdateNegativeYear | tests/test_httpdate_to_unixtime.py:53 | `Sun, 06 Nov -994 00:00:00 GMT` matches no layout and is rejected |
| HttpDateExamples.ImfFixdateHour25 | tests/test_httpdate_to_unixtime.py:54 | `Sun, 06 Nov 1994 25:00:00 GMT` is rejected |
| HttpDateExamples.ImfFixdateMinute61 | tests/test_httpdate_to_unixtime.py:55 | `Sun, 06 Nov 1994 00:61:00 GMT` is rejected |
| HttpDateExamples.ImfFixdateSecond61 | tests/test_httpdate_to_unixtime.py:56 | `Sun, 06 Nov 1994 00:00:61 GMT` is rejected: second 61 passes `strptime` but not the parser's own check |
| HttpDateExamples.ImfFixdateZoneNotGmt | tests/test_httpdate_to_unixtime.py:57 | `Sun, 06 Nov 1994 00:00:00 BST` matches no layout and is rejected |
| HttpDateExamples.MissingZone | tests/test_httpdate_to_unixtime.py:58 | `Sun, 06 Nov 1994 00:00:00` matches no layout and is rejected |
| HttpDateExamples.Year1899 | tests/test_httpdate_to_unixtime.py:59 | `Sun, 31 Dec 1899 23:59:59 GMT` is rejected |
| HttpDateExamples.ImfFixdateYear10000 | tests/test_httpdate_to_unixtime.py:60 | `Sun, 31 Dec 10000 23:59:59 GMT` matches no layout and is rejected |
| HttpDateExamples.NotALeapYear | tests/test_httpdate_to_unixtime.py:61 | `Mon, 29 Feb 2021 00:00:00 GMT` is rejected |
| HttpDateExamples.UnofficialLeapSecond | tests/test_httpdate_to_unixtime.py:69-71 | `Thu, 31 Dec 2015 23:59:60 GMT` is rejected, since 1451606400 is not a listed leap second |
| HttpDateExamples.Rfc850Sunday | tests/test_httpdate_to_unixtime.py:87 | with the clock at 2020-01-01, `Sunday, 06-Nov-94 08:49:37 GMT` is 784111777 |
| HttpDateExamples.Rfc850Sep2000 | tests/test_httpdate_to_unixtime.py:88 | with the clock at 2020-01-01, `Friday, 01-Sep-00 00:00:00 GMT` is 967766400 |
| HttpDateExamples.Rfc850LeapDay | tests/test_httpdate_to_unixtime.py:89 | with the clock at 2020-01-01, `Saturday, 29-Feb-20 00:00:00 GMT` is 1582934400 |
| HttpDateExamples.Rfc850LeapSecond | tests/test_httpdate_to_unixtime.py:90 | with the clock at 2020-01-01, `Saturday, 31-Dec-16 23:59:60 GMT` is 1483228800 |
| HttpDateExamples.Rfc850MissingWeekday | tests/test_httpdate_to_unixtime.py:107 | `06-Nov-94 00:00:00 GMT` matches no layout and is rejected, whatever the clock |
| HttpDateExamples.Rfc850WrongWeekday | tests/test_httpdate_to_unixtime.py:108 | with the clock at 2020-01-01, `Snnday, 06-Nov-94 00:00:00 GMT` is rejected |
| HttpDateExamples.Rfc850ThirtyFirstNovember | tests/test_httpdate_to_unixtime.py:109 | with the clock at 2020-01-01, `Sunday, 31-Nov-94 00:00:00 GMT` is rejected |
| HttpDateExamples.Rfc850UnknownMonth | tests/test_httpdate_to_unixtime.py:110 | `Sunday, 06-Nvv-94 00:00:00 GMT` is rejected, whatever the clock |
| HttpDateExamples.Rfc850NegativeYear | tests/test_httpdate_to_unixtime.py:111 | `Sunday, 06-Nov--4 00:00:00 GMT` matches no layout and is rejected, whatever the clock |
| HttpDateExamples.Rfc850Hour25 | tests/test_httpdate_to_unixtime.py:112 | with the clock at 2020-01-01, `Sunday, 06-Nov-94 25:00:00 GMT` is rejected |
| HttpDateExamples.Rfc850Minute61 | tests/test_httpdate_to_unixtime.py:113 | with the clock at 2020-01-01, `Sunday, 06-Nov-94 00:61:00 GMT` is rejected |
| HttpDateExamples.Rfc850Second61 | tests/test_httpdate_to_unixtime.py:114 | with the clock at 2020-01-01, `Sunday, 06-Nov-94 00:00:61 GMT` is rejected |
| HttpDateExamples.Rfc850ZoneNotGmt | tests/test_httpdate_to_unixtime.py:115 | `Sunday, 06-Nov-94 00:00:00 BST` matches no layout and is rejected, whatever the clock |
| HttpDateExamples.Rfc850MissingZone | tests/test_httpdate_to_unixtime.py:116 | `Sunday, 06-Nov-94 00:00:00` matches no layout and is rejected, whatever the clock |
| HttpDateExamples.Rfc850NotALeapYear | tests/test_httpdate_to_unixtime.py:117 | with the clock at 2020-01-01, `Monday, 29-Feb-21 00:00:00 GMT` is rejected |
| HttpDateExamples.Rfc850UnofficialLeapSecond | tests/test_httpdate_to_unixtime.py:132-134 | with the clock at 2020-01-01, `Thursday, 31-Dec-15 23:59:60 GMT` is rejected, since 1451606400 is not a listed leap second |
| HttpDateExamples.Rfc850EndOf1999 | tests/test_httpdate_to_unixtime.py:146 | with the clock at the end of 1949, `Friday, 31-Dec-99 23:59:59 GMT` resolves to 1999 and is 946684799 |
| HttpDateExamples.Rfc850OneSecondLater | tests/test_httpdate_to_unixtime.py:148-149 | one second later, `Friday, 31-Dec-99 23:59:60 GMT` resolves to 1899 and is rejected |
| HttpDateExamples.Rfc850Sunday1899 | tests/test_httpdate_to_unixtime.py:161-162 | with the clock at the end of 1899, `Sunday, 31-Dec-99 23:59:59 GMT` resolves to 1899 and is rejected |
| HttpDateExamples.Rfc850EndOf1949 | tests/test_httpdate_to_unixtime.py:164 | with the clock at the end of 1899, `Saturday, 31-Dec-49 23:59:59 GMT` resolves to 1949 and is -631152001 |
| HttpDateExamples.AsctimeSunday | tests/test_httpdate_to_unixtime.py:174 | `Sun Nov  6 08:49:37 1994`, with its space-padded day, is 784111777 |
| HttpDateExamples.AsctimeSep2000 | tests/test_httpdate_to_unixtime.py:175 | `Fri Sep  1 00:00:00 2000` is 967766400 |
| HttpDateExamples.AsctimeLeapDay | tests/test_httpdate_to_unixtime.py:176 | `Sat Feb 29 00:00:00 2020`, with a two-digit day, is 1582934400 |
| HttpDateExamples.AsctimeLeapSecond | tests/test_httpdate_to_unixtime.py:177 | `Sat Dec 31 23:59:60 2016`, with a two-digit day, is 1483228800 |
| HttpDateExamples.AsctimeMissingWeekday | tests/test_httpdate_to_unixtime.py:187 | `Nov  6 00:00:00 1994` matches no layout and is rejected |
| HttpDateExamples.AsctimeWithZone | tests/test_httpdate_to_unixtime.py:188 | `Sun Nov  6 00:00:00 1994 GMT` matches no layout and is rejected |
| HttpDateExamples.AsctimeWrongWeekday | tests/test_httpdate_to_unixtime.py:189 | `Snn Nov  6 00:00:00 1994` is rejected |
| HttpDateExamples.AsctimeUnknownMonth | tests/test_httpdate_to_unixtime.py:190 | `Sun Nvv  6 00:00:00 1994` is rejected |
| HttpDateExamples.AsctimeThirtyFirstNovember | tests/test_httpdate_to_unixtime.py:191 | `Sun Nov 31 00:00:00 1994` is rejected |
| HttpDateExamples.AsctimeHour25 | tests/test_httpdate_to_unixtime.py:192 | `Sun Nov  6 25:00:00 1994` is rejected |
| HttpDateExamples.AsctimeMinute61 | tests/test_httpdate_to_unixtime.py:193 | `Sun Nov  6 00:61:00 1994` is rejected |
| HttpDateExamples.AsctimeSecond61 | tests/test_httpdate_to_unixtime.py:194 | `Sun Nov  6 00:00:61 1994` is rejected |
| HttpDateExamples.AsctimeNegativeYear | tests/test_httpdate_to_unixtime.py:195 | `Sun Nov  6 00:00:61 -994` matches no layout and is rejected |
| HttpDateExamples.AsctimeYear1899 | tests/test_httpdate_to_unixtime.py:196 | `Sun Dec 31 23:59:59 1899` is rejected |
| HttpDateExamples.AsctimeYear10000 | tests/test_httpdate_to_unixtime.py:197 | `Sun Dec 31 23:59:59 10000` matches no layout and is rejected |
| HttpDateExamples.AsctimeNotALeapYear | tests/test_httpdate_to_unixtime.py:198 | `Mon Feb 29 00:00:00 2021` is rejected |
| HttpDateExamples.AsctimeUnofficialLeapSecond | tests/test_httpdate_to_unixtime.py:206-208 | `Thu Dec 31 23:59:60 2015` is rejected, since 1451606400 is not a listed leap second |
| HttpDateExamples.FormatLowerBound | tests/test_unixtime_to_httpdate.py:22 | -2208988800 formats as `Mon, 01 Jan 1900 00:00:00 GMT` |
| HttpDateExamples.FormatEpoch | tests/test_unixtime_to_httpdate.py:23 | 0 formats as `Thu, 01 Jan 1970 00:00:00 GMT` |
| HttpDateExamples.FormatSunday | tests/test_unixtime_to_httpdate.py:24 | 784111777 formats as `Sun, 06 Nov 1994 08:49:37 GMT` |
| HttpDateExamples.FormatNewYear2017 | tests/test_unixtime_to_httpdate.py:25 | 1483228800 formats as `Sun, 01 Jan 2017 00:00:00 GMT` |
| HttpDateExamples.FormatUpperBound | tests/test_unixtime_to_httpdate.py:26 | 253402300799 formats as `Fri, 31 Dec 9999 23:59:59 GMT` |
| HttpDateExamples.FormatOutOfRange | tests/test_unixtime_to_httpdate.py:36-37 | -2208988801 and 253402300800 give `None` |
| HttpDateExamples.NotHttpdates | tests/test_is_valid_httpdate.py:5-10 | `None` and the empty text are not valid HTTP dates |
| HttpDateExamples.ValidHttpdates | tests/test_is_valid_httpdate.py:18-30 | the three examples of RFC 9110 are valid HTTP dates, the rfc850 one with the 2020 clock |
| HttpDateExamples.InvalidHttpdates | tests/test_is_valid_httpdate.py:33-45 | the same three texts with a misspelt weekday are not valid HTTP dates |

## Left out

- The wall clock (`datetime.datetime.now`, src/httpdate/httpdate.py:103) is the explicit `now: Instant` parameter of the parser. The model does not state that it is a real UTC reading.
- `LEAP_SECONDS` comes from the external `leapseconds` package. It is the constant `HttpDate.LeapSeconds`, holding the timestamps of the 27 positive leap seconds announced so far. A later announcement would change that set.
- The internals of `time.strptime`, `calendar.timegm`, `datetime.fromtimestamp` and `strftime` are foreign code. They are replaced by the explicit day count in `Calendar`, together with the field ranges that `strptime` enforces. The normalised text that the source builds for `strptime` is not modelled as a string, because the model passes the fields directly.
- `strptime`'s `%Y` rejects years that are not four digits. Every such year is also rejected by the 1900..9999 check, so the model keeps only that check.
- The `isinstance` checks and their `TypeError` cannot fail under Dafny's types. Only the `None` case of the input is modelled, as `Option`.
- Python's `\w` and `\d` also match non-ASCII word characters and digits. The model restricts both to ASCII.
- The locale dependence of `%a` and `%b` is left out. The formatter always uses the English tables.
- `src/httpdate/__init__.py` is left out. It only re-exports names, and its `MIN_UNIXTIME` import names something that `httpdate.py` does not define.
- The test that makes a mocked `calendar.timegm` raise (`tests/test_httpdate_to_unixtime.py:74-77`) is left out. In the model `timegm` is the day count, which cannot fail.
- The exception kinds and messages that the tests expect are left out. The source returns `None` on every failure.
- Integers are unbounded, as they are in Python. No width or overflow applies.
