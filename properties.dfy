/** What the parser and the formatter of `src/httpdate/httpdate.py` promise,
    stated over all inputs. */
module HttpDateProperties {

  import opened Wrappers
  import opened Calendar
  import opened HttpDate

  /** The loop over `RFC9110` unrolled: IMF-fixdate, then rfc850-date, then asctime-date. */
  lemma {:induction false} MatchLayoutCascade(s: string)
    ensures MatchLayout(s) == if MatchImfFixdate(s).Some? then MatchImfFixdate(s)
      else if MatchRfc850(s).Some? then MatchRfc850(s) else MatchAsctime(s)
  {
    var order := Rfc9110Order;
    assert order[1..] == [Rfc850Date, AsctimeDate];
    assert order[1..][1..] == [AsctimeDate];
    assert order[1..][1..][1..] == [];
    var last := FirstMatch([AsctimeDate], s);
    assert last == MatchAsctime(s) by {
      assert FirstMatch([], s) == None;
    }
    var middle := FirstMatch([Rfc850Date, AsctimeDate], s);
    assert middle == if MatchRfc850(s).Some? then MatchRfc850(s) else last;
  }

  /** The layouts are tried in the order IMF-fixdate, rfc850-date,
      asctime-date; the first whose pattern matches decides the answer, and a
      later failure is not retried with the next layout. */
  lemma FirstMatchDecides(s: string, now: Instant)
    ensures MatchImfFixdate(s).Some? ==>
      HttpdateToUnixtime(Some(s), now) == ParseCaptures(MatchImfFixdate(s).value, now)
    ensures MatchImfFixdate(s).None? && MatchRfc850(s).Some? ==>
      HttpdateToUnixtime(Some(s), now) == ParseCaptures(MatchRfc850(s).value, now)
    ensures MatchImfFixdate(s).None? && MatchRfc850(s).None? && MatchAsctime(s).Some? ==>
      HttpdateToUnixtime(Some(s), now) == ParseCaptures(MatchAsctime(s).value, now)
    ensures MatchImfFixdate(s).None? && MatchRfc850(s).None? && MatchAsctime(s).None? ==>
      HttpdateToUnixtime(Some(s), now).None?
  {
    MatchLayoutCascade(s);
  }

  /** A month token outside the twelve English abbreviations rejects the text. */
  lemma UnknownMonthRejected(s: string, now: Instant)
    requires MatchLayout(s).Some? && MatchLayout(s).value.month !in Months
    ensures HttpdateToUnixtime(Some(s), now).None?
  {
  }

  /** The only leap second the parser can accept is `23:59:60`, because every
      member of LeapSeconds is a midnight. */
  lemma {:induction false} LeapSecondOnlyBeforeMidnight(c: DateTime)
    requires IsValid(c) && c.second == 60 && Timestamp(c) in LeapSeconds
    ensures c.hour == 23 && c.minute == 59
    ensures var (y, m, d) := NextDate(c.year, c.month, c.day);
      Timestamp(c) == Timestamp(DateTime(y, m, d, 0, 0, 0))
  {
    var n := DaysFromCivil(c.year, c.month, c.day);
    var secs := c.hour * 3600 + c.minute * 60 + c.second;
    assert (n * 86400 + secs) % 86400 == 0 by {
      LeapSecondsAreMidnights();
      assert Timestamp(c) == n * 86400 + secs;
    }
    WholeDays(n, secs);
    LeapSecondIsNextMidnight(c.year, c.month, c.day);
  }

  lemma LeapSecondsAreMidnights()
    ensures forall x | x in LeapSeconds :: x % 86400 == 0
  {
  }

  /** A whole number of days plus `secs` seconds is a midnight only when `secs` is a multiple of a day. */
  lemma WholeDays(n: int, secs: int)
    requires 0 < secs <= 86400 && (n * 86400 + secs) % 86400 == 0
    ensures secs == 86400
  {
  }

  /** What every accepted HTTP date satisfies: a known month, a real Gregorian
      date in the years 1900 to 9999, hour at most 23, minute at most 59,
      second at most 60, the weekday the date implies (full name for
      rfc850-date, abbreviation otherwise), and second 60 only as an official
      leap second, which is then the next day's midnight. */
  lemma {:induction false} AcceptedHttpdate(s: string, now: Instant)
    requires HttpdateToUnixtime(Some(s), now).Some?
    ensures MatchLayout(s).Some? && MatchLayout(s).value.month in Months
    ensures var cap := MatchLayout(s).value;
      Normalize(cap, now).Some?
      && var c := Normalize(cap, now).value;
      var t := HttpdateToUnixtime(Some(s), now).value;
      IsValid(c) && MinYear <= c.year <= MaxYear
      && (c.day, c.hour, c.minute, c.second) == (cap.day, cap.hour, cap.minute, cap.second)
      && MonthAbbrs[c.month - 1] == cap.month
      && cap.weekday == ExpectedWeekday(cap.format, WeekdayOf(c))
      && t == Timestamp(c)
      && (c.second == 60 ==> t in LeapSeconds && c.hour == 23 && c.minute == 59)
  {
    var cap := MatchLayout(s).value;
    var c := Normalize(cap, now).value;
    if c.second == 60 {
      LeapSecondOnlyBeforeMidnight(c);
    }
  }

  /** Conversely, captures that pass every check are accepted, with the timestamp of their date-time. */
  lemma AcceptedWhenChecksPass(s: string, now: Instant, cap: Captures, c: DateTime)
    requires MatchLayout(s) == Some(cap) && Normalize(cap, now) == Some(c)
    requires IsValid(c) && MinYear <= c.year <= MaxYear
    requires cap.weekday == ExpectedWeekday(cap.format, WeekdayOf(c))
    requires c.second == 60 ==> Timestamp(c) in LeapSeconds
    ensures HttpdateToUnixtime(Some(s), now) == Some(Timestamp(c))
  {
  }

  /** A weekday other than the one the date implies rejects the text. */
  lemma WrongWeekdayRejected(s: string, now: Instant)
    requires MatchLayout(s).Some? && MatchLayout(s).value.month in Months
    requires var cap := MatchLayout(s).value;
      var c := Normalize(cap, now).value;
      IsValidDate(c.year, c.month, c.day) && cap.weekday != ExpectedWeekday(cap.format, WeekdayOf(c))
    ensures HttpdateToUnixtime(Some(s), now).None?
  {
  }

  /** A matched text whose fields are out of range, or whose year is before
      1900 or after 9999, is rejected. */
  lemma OutOfRangeRejected(s: string, now: Instant)
    requires MatchLayout(s).Some? && Normalize(MatchLayout(s).value, now).Some?
    requires var c := Normalize(MatchLayout(s).value, now).value;
      !IsValid(c) || c.year < MinYear || c.year > MaxYear
    ensures HttpdateToUnixtime(Some(s), now).None?
  {
  }

  /** Second 60 on a date-time that is not an official leap second is rejected. */
  lemma UnofficialLeapSecondRejected(s: string, now: Instant)
    requires MatchLayout(s).Some? && Normalize(MatchLayout(s).value, now).Some?
    requires var c := Normalize(MatchLayout(s).value, now).value;
      c.second == 60 && (1 <= c.month <= 12 ==> Timestamp(c) !in LeapSeconds)
    ensures HttpdateToUnixtime(Some(s), now).None?
  {
  }

  /** The year of an accepted rfc850-date has the written two digits and lies
      no more than 50 years after `now` and less than 100 years before it. */
  lemma AcceptedRfc850Year(s: string, now: Instant)
    requires HttpdateToUnixtime(Some(s), now).Some? && MatchLayout(s).Some?
    requires MatchLayout(s).value.format == Rfc850Date
    ensures Normalize(MatchLayout(s).value, now).Some?
    ensures var c := Normalize(MatchLayout(s).value, now).value;
      c.year % 100 == MatchLayout(s).value.year
      && CurrentYear(now) - 100 < c.year <= CurrentYear(now) + 50
  {
  }

  /** A candidate exactly at the threshold, 50 years after `now` to the
      second, is not strictly greater and so keeps this century. */
  lemma ThresholdKeepsCentury(yy: nat, now: Instant)
    requires yy <= 99 && CurrentYear(now) / 100 * 100 + yy == CurrentYear(now) + 50
    ensures ResolveCentury(yy, now.month, now.day, now.hour, now.minute, now.second, now)
      == CurrentYear(now) + 50
  {
  }

  /** One trailing newline changes nothing, since Python's `$` matches before it. */
  lemma TrailingNewlineIgnored(s: string, now: Instant)
    requires |s| == 0 || s[|s| - 1] != '\n'
    ensures HttpdateToUnixtime(Some(s + "\n"), now) == HttpdateToUnixtime(Some(s), now)
  {
    assert (s + "\n")[..|s|] == s;
    assert BeforeFinalNewline(s + "\n") == BeforeFinalNewline(s);
    SameAnchoredImfFixdate(s + "\n", s);
    SameAnchoredRfc850(s + "\n", s);
    SameAnchoredAsctime(s + "\n", s);
    MatchLayoutCascade(s);
    MatchLayoutCascade(s + "\n");
  }

  /** The patterns see only the text before a final newline, so two inputs
      that agree there match alike. */
  lemma SameAnchoredImfFixdate(s: string, t: string)
    requires BeforeFinalNewline(s) == BeforeFinalNewline(t)
    ensures MatchImfFixdate(s) == MatchImfFixdate(t)
  {
  }

  lemma SameAnchoredRfc850(s: string, t: string)
    requires BeforeFinalNewline(s) == BeforeFinalNewline(t)
    ensures MatchRfc850(s) == MatchRfc850(t)
  {
  }

  lemma SameAnchoredAsctime(s: string, t: string)
    requires BeforeFinalNewline(s) == BeforeFinalNewline(t)
    ensures MatchAsctime(s) == MatchAsctime(t)
  {
  }

  /** Formatting a timestamp of the years 1900 to 9999 and parsing the text
      gives the timestamp back, whatever the clock says. */
  lemma {:induction false} FormatThenParse(t: int, now: Instant)
    requires MinUnixtime <= t <= MaxUnixtime
    ensures UnixtimeToHttpdate(Some(t)).Some?
    ensures HttpdateToUnixtime(UnixtimeToHttpdate(Some(t)), now) == Some(t)
    ensures IsValidHttpdate(UnixtimeToHttpdate(Some(t)), now)
  {
    var c := CivilFromTimestamp(t);
    CivilYearInRange(t);
    var text := ImfFixdateText(c);
    assert UnixtimeToHttpdate(Some(t)) == Some(text);
    ParsesOwnText(c, now);
    assert HttpdateToUnixtime(Some(text), now) == Some(t);
  }

  /** The parser reads the formatter's text of a date-time back as that date-time's timestamp. */
  lemma ParsesOwnText(c: DateTime, now: Instant)
    requires IsValid(c) && MinYear <= c.year <= MaxYear && c.second <= 59
    ensures HttpdateToUnixtime(Some(ImfFixdateText(c)), now) == Some(Timestamp(c))
  {
    var s := ImfFixdateText(c);
    var cap := MatchImfFixdate(s).value;
    MatchLayoutCascade(s);
    MonthTablesAgree();
    assert Normalize(cap, now) == Some(c);
    AcceptedWhenChecksPass(s, now, cap, c);
  }

  /** Parsing an accepted date and formatting the timestamp gives the
      IMF-fixdate text of the same instant: of the date-time itself, or of the
      next day's midnight for a leap second. */
  lemma {:induction false} ParseThenFormat(s: string, now: Instant)
    requires HttpdateToUnixtime(Some(s), now).Some?
    ensures MatchLayout(s).Some? && Normalize(MatchLayout(s).value, now).Some?
    ensures var c := Normalize(MatchLayout(s).value, now).value;
      var t := HttpdateToUnixtime(Some(s), now).value;
      if c.second <= 59 then
        IsValid(c) && 0 <= c.year <= 9999
        && UnixtimeToHttpdate(Some(t)) == Some(ImfFixdateText(c))
      else
        IsValidDate(c.year, c.month, c.day)
        && var (y, m, d) := NextDate(c.year, c.month, c.day);
        IsValid(DateTime(y, m, d, 0, 0, 0)) && 0 <= y <= 9999
        && UnixtimeToHttpdate(Some(t)) == Some(ImfFixdateText(DateTime(y, m, d, 0, 0, 0)))
  {
    AcceptedHttpdate(s, now);
    var c := Normalize(MatchLayout(s).value, now).value;
    if c.second <= 59 {
      FormatOfDateTime(c);
    } else {
      FormatOfLeapSecond(c);
    }
  }

  /** A date-time of the years 1900 to 9999 without a leap second formats as its own IMF-fixdate text. */
  lemma FormatOfDateTime(c: DateTime)
    requires IsValid(c) && MinYear <= c.year <= MaxYear && c.second <= 59
    ensures UnixtimeToHttpdate(Some(Timestamp(c))) == Some(ImfFixdateText(c))
  {
    AcceptedTimestampInRange(c, Timestamp(c));
    CivilFromTimestampOfValid(c);
  }

  /** An official leap second formats as the IMF-fixdate text of the next day's midnight. */
  lemma FormatOfLeapSecond(c: DateTime)
    requires IsValid(c) && MinYear <= c.year <= MaxYear && c.second == 60
    requires Timestamp(c) in LeapSeconds
    ensures var (y, m, d) := NextDate(c.year, c.month, c.day);
      IsValid(DateTime(y, m, d, 0, 0, 0)) && 0 <= y <= 9999
      && UnixtimeToHttpdate(Some(Timestamp(c))) == Some(ImfFixdateText(DateTime(y, m, d, 0, 0, 0)))
  {
    var t := Timestamp(c);
    var (y, m, d) := NextDate(c.year, c.month, c.day);
    NextDateIsNextDay(c.year, c.month, c.day);
    LeapSecondOnlyBeforeMidnight(c);
    var midnight := DateTime(y, m, d, 0, 0, 0);
    AcceptedTimestampInRange(c, t);
    CivilFromTimestampOfValid(midnight);
    CivilYearInRange(t);
  }

}
