/** Input/output pairs from the repository's tests, proved of the model. Each
    example is split into the match, the calendar arithmetic and the verdict,
    so that the verifier handles one small step at a time. */
module HttpDateExamples {

  import opened Wrappers
  import opened Calendar
  import opened HttpDate
  import opened HttpDateProperties

  /** The clock the rfc850-date tests pin: 2020-01-01 00:00:00 UTC. */
  const Now2020 := Instant(2020, 1, 1, 0, 0, 0)

  /** The clocks of the two century-rule tests: the last second of 1949 and of 1899. */
  const Now1949 := Instant(1949, 12, 31, 23, 59, 59)
  const Now1899 := Instant(1899, 12, 31, 23, 59, 59)

  /** The timestamp of 1970-01-01 00:00:00 UTC. */
  const UnixEpoch := 0

  // ---------------------------------------------------------------------------
  // The calendar facts the examples rest on

  lemma Sunday06Nov1994()
    ensures var c := DateTime(1994, 11, 6, 8, 49, 37);
      IsValid(c) && WeekdayOf(c) == 6 && Timestamp(c) == 784111777
  {
    assert DaysFromCivil(1994, 11, 6) == 9075;
  }

  lemma Saturday31Dec2016()
    ensures var c := DateTime(2016, 12, 31, 23, 59, 60);
      IsValid(c) && WeekdayOf(c) == 5 && Timestamp(c) == 1483228800
  {
    assert DaysFromCivil(2016, 12, 31) == 17166;
  }

  lemma Thursday31Dec2015()
    ensures var c := DateTime(2015, 12, 31, 23, 59, 60);
      IsValid(c) && WeekdayOf(c) == 3 && Timestamp(c) == 1451606400
  {
    assert DaysFromCivil(2015, 12, 31) == 16800;
  }

  lemma Friday31Dec1999()
    ensures var c := DateTime(1999, 12, 31, 23, 59, 59);
      IsValid(c) && WeekdayOf(c) == 4 && Timestamp(c) == 946684799
  {
    assert DaysFromCivil(1999, 12, 31) == 10956;
  }

  lemma Saturday31Dec1949()
    ensures var c := DateTime(1949, 12, 31, 23, 59, 59);
      IsValid(c) && WeekdayOf(c) == 5 && Timestamp(c) == -631152001
  {
    assert DaysFromCivil(1949, 12, 31) == -7306;
  }

  lemma Thursday01Jan1970()
    ensures var c := DateTime(1970, 1, 1, 0, 0, 0);
      IsValid(c) && WeekdayOf(c) == 3
  {
    assert DaysFromCivil(1970, 1, 1) == 0;
  }

  lemma Monday01Jan1900()
    ensures var c := DateTime(1900, 1, 1, 0, 0, 0);
      IsValid(c) && WeekdayOf(c) == 0 && Timestamp(c) == MinUnixtime
  {
    assert DaysFromCivil(1900, 1, 1) == -25567;
  }

  lemma Saturday29Feb2020()
    ensures var c := DateTime(2020, 2, 29, 0, 0, 0);
      IsValid(c) && WeekdayOf(c) == 5 && Timestamp(c) == 1582934400
  {
    assert DaysFromCivil(2020, 2, 29) == 18321;
  }

  lemma Sunday01Jan2017()
    ensures var c := DateTime(2017, 1, 1, 0, 0, 0);
      IsValid(c) && WeekdayOf(c) == 6 && Timestamp(c) == 1483228800
  {
    assert DaysFromCivil(2017, 1, 1) == 17167;
  }

  lemma Friday31Dec9999()
    ensures var c := DateTime(9999, 12, 31, 23, 59, 59);
      IsValid(c) && WeekdayOf(c) == 4 && Timestamp(c) == MaxUnixtime
  {
    assert DaysFromCivil(9999, 12, 31) == 2932896;
  }

  lemma Friday01Sep2000()
    ensures var c := DateTime(2000, 9, 1, 0, 0, 0);
      IsValid(c) && WeekdayOf(c) == 4 && Timestamp(c) == 967766400
  {
    assert DaysFromCivil(2000, 9, 1) == 11201;
  }

  // ---------------------------------------------------------------------------
  // Reading a text assembled from the fields of a layout

  /** A text in the IMF-fixdate layout is read back field by field. */
  lemma ReadsImfFixdate(w: string, d: string, m: string, y: string, h: string, mi: string, se: string)
    requires IsWord3(w) && IsDigits2(d) && IsWord3(m) && IsDigits4(y)
    requires IsDigits2(h) && IsDigits2(mi) && IsDigits2(se)
    ensures MatchLayout(ImfFixdateLayout(w, d, m, y, h, mi, se))
      == Some(Captures(ImfFixdate, w, Number2(d, 0), m, Number4(y, 0),
                       Number2(h, 0), Number2(mi, 0), Number2(se, 0)))
  {
    ImfFixdateLayoutRead(w, d, m, y, h, mi, se);
    MatchLayoutCascade(ImfFixdateLayout(w, d, m, y, h, mi, se));
  }

  /** The rfc850-date layout filled with its seven fields: the weekday, then
      a tail of fixed length. */
  function Rfc850Layout(w: string, d: string, m: string, yy: string, h: string, mi: string, se: string): string {
    w + Rfc850Tail(d, m, yy, h, mi, se)
  }

  function Rfc850Tail(d: string, m: string, yy: string, h: string, mi: string, se: string): string {
    ", " + d + "-" + m + "-" + yy + " " + h + ":" + mi + ":" + se + " GMT"
  }

  lemma Rfc850TailPositions(d: string, m: string, yy: string, h: string, mi: string, se: string)
    requires |d| == 2 && |m| == 3 && |yy| == 2 && |h| == 2 && |mi| == 2 && |se| == 2
    ensures var t := Rfc850Tail(d, m, yy, h, mi, se);
      |t| == 24 && t[0] == ',' && t[1] == ' '
      && t[2] == d[0] && t[3] == d[1] && t[4] == '-' && t[5..8] == m
      && t[8] == '-' && t[9] == yy[0] && t[10] == yy[1] && t[11] == ' '
      && t[12] == h[0] && t[13] == h[1] && t[14] == ':'
      && t[15] == mi[0] && t[16] == mi[1] && t[17] == ':'
      && t[18] == se[0] && t[19] == se[1]
      && t[20] == ' ' && t[21] == 'G' && t[22] == 'M' && t[23] == 'T'
  {
  }

  lemma Rfc850LayoutShape(w: string, d: string, m: string, yy: string, h: string, mi: string, se: string)
    requires |w| >= 1 && AllWordChars(w) && IsDigits2(d) && IsWord3(m) && IsDigits2(yy)
    requires IsDigits2(h) && IsDigits2(mi) && IsDigits2(se)
    ensures var s := Rfc850Layout(w, d, m, yy, h, mi, se);
      IsRfc850Shape(s) && BeforeFinalNewline(s) == s
      && var k := |s| - 24;
      s[..k] == w && s[k + 5..k + 8] == m && Number2(s, k + 2) == Number2(d, 0)
      && Number2(s, k + 9) == Number2(yy, 0) && Number2(s, k + 12) == Number2(h, 0)
      && Number2(s, k + 15) == Number2(mi, 0) && Number2(s, k + 18) == Number2(se, 0)
  {
    var t := Rfc850Tail(d, m, yy, h, mi, se);
    var s := w + t;
    var k := |w|;
    Rfc850TailPositions(d, m, yy, h, mi, se);
    assert s[..k] == w;
    assert s[k..] == t;
    assert s[k + 5..k + 8] == t[5..8];
  }

  /** The rfc850-date pattern reads a text in its layout back field by field. */
  lemma Rfc850LayoutRead(w: string, d: string, m: string, yy: string, h: string, mi: string, se: string)
    requires |w| >= 1 && AllWordChars(w) && IsDigits2(d) && IsWord3(m) && IsDigits2(yy)
    requires IsDigits2(h) && IsDigits2(mi) && IsDigits2(se)
    ensures MatchRfc850(Rfc850Layout(w, d, m, yy, h, mi, se))
      == Some(Captures(Rfc850Date, w, Number2(d, 0), m, Number2(yy, 0),
                       Number2(h, 0), Number2(mi, 0), Number2(se, 0)))
  {
    Rfc850LayoutShape(w, d, m, yy, h, mi, se);
    MatchRfc850OfShape(Rfc850Layout(w, d, m, yy, h, mi, se), w, d, m, yy, h, mi, se);
  }

  /** What the rfc850-date pattern captures from a text of its shape. */
  lemma MatchRfc850OfShape(s: string, w: string, d: string, m: string, yy: string, h: string, mi: string, se: string)
    requires IsDigits2(d) && IsDigits2(yy) && IsDigits2(h) && IsDigits2(mi) && IsDigits2(se)
    requires IsRfc850Shape(s) && BeforeFinalNewline(s) == s
    requires var k := |s| - 24;
      s[..k] == w && s[k + 5..k + 8] == m && Number2(s, k + 2) == Number2(d, 0)
      && Number2(s, k + 9) == Number2(yy, 0) && Number2(s, k + 12) == Number2(h, 0)
      && Number2(s, k + 15) == Number2(mi, 0) && Number2(s, k + 18) == Number2(se, 0)
    ensures MatchRfc850(s) == Some(Captures(Rfc850Date, w, Number2(d, 0), m, Number2(yy, 0),
                                            Number2(h, 0), Number2(mi, 0), Number2(se, 0)))
  {
  }

  /** A text in the rfc850-date layout is read as that layout. */
  lemma ReadsRfc850(w: string, d: string, m: string, yy: string, h: string, mi: string, se: string)
    requires |w| >= 1 && AllWordChars(w) && IsDigits2(d) && IsWord3(m) && IsDigits2(yy)
    requires IsDigits2(h) && IsDigits2(mi) && IsDigits2(se)
    ensures MatchLayout(Rfc850Layout(w, d, m, yy, h, mi, se))
      == Some(Captures(Rfc850Date, w, Number2(d, 0), m, Number2(yy, 0),
                       Number2(h, 0), Number2(mi, 0), Number2(se, 0)))
  {
    var s := Rfc850Layout(w, d, m, yy, h, mi, se);
    Rfc850LayoutRead(w, d, m, yy, h, mi, se);
    LayoutsExclusive(s);
    MatchLayoutCascade(s);
  }

  /** The asctime-date layout filled with its seven fields; `d` is two digits
      or a space and one digit. */
  function AsctimeLayout(w: string, m: string, d: string, h: string, mi: string, se: string, y: string): string {
    w + " " + m + " " + d + " " + h + ":" + mi + ":" + se + " " + y
  }

  lemma AsctimeLayoutPositions(w: string, m: string, d: string, h: string, mi: string, se: string, y: string)
    requires |w| == 3 && |m| == 3 && |d| == 2 && |h| == 2 && |mi| == 2 && |se| == 2 && |y| == 4
    ensures var s := AsctimeLayout(w, m, d, h, mi, se, y);
      |s| == 24 && s[0..3] == w && s[3] == ' ' && s[4..7] == m && s[7] == ' '
      && s[8] == d[0] && s[9] == d[1] && s[10] == ' '
      && s[11] == h[0] && s[12] == h[1] && s[13] == ':'
      && s[14] == mi[0] && s[15] == mi[1] && s[16] == ':'
      && s[17] == se[0] && s[18] == se[1] && s[19] == ' '
      && s[20] == y[0] && s[21] == y[1] && s[22] == y[2] && s[23] == y[3]
  {
  }

  /** A text in the asctime-date layout is read back field by field; a
      space-padded day reads as its one digit. */
  lemma ReadsAsctime(w: string, m: string, d: string, h: string, mi: string, se: string, y: string)
    requires IsWord3(w) && IsWord3(m) && |d| == 2 && d[0] == ' ' && IsDigit(d[1])
    requires IsDigits2(h) && IsDigits2(mi) && IsDigits2(se) && IsDigits4(y)
    ensures MatchLayout(AsctimeLayout(w, m, d, h, mi, se, y))
      == Some(Captures(AsctimeDate, w, DigitValue(d[1]), m, Number4(y, 0),
                       Number2(h, 0), Number2(mi, 0), Number2(se, 0)))
  {
    var s := AsctimeLayout(w, m, d, h, mi, se, y);
    AsctimeLayoutPositions(w, m, d, h, mi, se, y);
    assert BeforeFinalNewline(s) == s;
    assert IsAsctimeShape(s);
    assert Number4(s, 20) == Number4(y, 0);
    assert Number2(s, 11) == Number2(h, 0);
    assert Number2(s, 14) == Number2(mi, 0);
    assert Number2(s, 17) == Number2(se, 0);
    MatchLayoutCascade(s);
  }

  /** A two-digit asctime day is read as both digits. */
  lemma ReadsAsctimeTwoDigitDay(w: string, m: string, d: string, h: string, mi: string, se: string, y: string)
    requires IsWord3(w) && IsWord3(m) && IsDigits2(d)
    requires IsDigits2(h) && IsDigits2(mi) && IsDigits2(se) && IsDigits4(y)
    ensures MatchLayout(AsctimeLayout(w, m, d, h, mi, se, y))
      == Some(Captures(AsctimeDate, w, Number2(d, 0), m, Number4(y, 0),
                       Number2(h, 0), Number2(mi, 0), Number2(se, 0)))
  {
    var s := AsctimeLayout(w, m, d, h, mi, se, y);
    AsctimeLayoutPositions(w, m, d, h, mi, se, y);
    assert BeforeFinalNewline(s) == s;
    assert IsAsctimeShape(s);
    assert Number2(s, 8) == Number2(d, 0);
    assert Number4(s, 20) == Number4(y, 0);
    assert Number2(s, 11) == Number2(h, 0);
    assert Number2(s, 14) == Number2(mi, 0);
    assert Number2(s, 17) == Number2(se, 0);
    MatchLayoutCascade(s);
  }

  // ---------------------------------------------------------------------------
  // Accepted texts

  /** The fields of `Sun, 06 Nov 1994 08:49:37 GMT`. */
  lemma ImfFixdateSundayText()
    ensures ImfFixdateLayout("Sun", "06", "Nov", "1994", "08", "49", "37")
      == "Sun, 06 Nov 1994 08:49:37 GMT"
  {
  }

  lemma ImfFixdateSundayParts()
    ensures IsWord3("Sun") && IsDigits2("06") && IsWord3("Nov") && IsDigits4("1994")
      && IsDigits2("08") && IsDigits2("49") && IsDigits2("37") && Number2("06", 0) == 6
      && Number4("1994", 0) == 1994 && Number2("08", 0) == 8 && Number2("49", 0) == 49
      && Number2("37", 0) == 37
  {
  }

  lemma ImfFixdateSundayMatches()
    ensures MatchLayout("Sun, 06 Nov 1994 08:49:37 GMT")
      == Some(Captures(ImfFixdate, "Sun", 6, "Nov", 1994, 8, 49, 37))
  {
    ImfFixdateSundayText();
    ImfFixdateSundayParts();
    ReadsImfFixdate("Sun", "06", "Nov", "1994", "08", "49", "37");
  }

  /** `Sun, 06 Nov 1994 08:49:37 GMT` is 784111777, whatever the clock says. */
  lemma ImfFixdateSunday(now: Instant)
    ensures HttpdateToUnixtime(Some("Sun, 06 Nov 1994 08:49:37 GMT"), now) == Some(784111777)
  {
    var cap := Captures(ImfFixdate, "Sun", 6, "Nov", 1994, 8, 49, 37);
    var c := DateTime(1994, 11, 6, 8, 49, 37);
    ImfFixdateSundayMatches();
    Sunday06Nov1994();
    assert Normalize(cap, now) == Some(c);
    AcceptedWhenChecksPass("Sun, 06 Nov 1994 08:49:37 GMT", now, cap, c);
  }

  /** The fields of `Sunday, 06-Nov-94 08:49:37 GMT`. */
  lemma Rfc850SundayText()
    ensures Rfc850Layout("Sunday", "06", "Nov", "94", "08", "49", "37")
      == "Sunday, 06-Nov-94 08:49:37 GMT"
  {
  }

  lemma Rfc850SundayParts()
    ensures |"Sunday"| >= 1 && AllWordChars("Sunday") && IsDigits2("06") && IsWord3("Nov")
      && IsDigits2("94") && IsDigits2("08") && IsDigits2("49") && IsDigits2("37")
      && Number2("06", 0) == 6 && Number2("94", 0) == 94 && Number2("08", 0) == 8
      && Number2("49", 0) == 49 && Number2("37", 0) == 37
  {
  }

  lemma Rfc850SundayMatches()
    ensures MatchLayout("Sunday, 06-Nov-94 08:49:37 GMT")
      == Some(Captures(Rfc850Date, "Sunday", 6, "Nov", 94, 8, 49, 37))
  {
    Rfc850SundayText();
    Rfc850SundayParts();
    ReadsRfc850("Sunday", "06", "Nov", "94", "08", "49", "37");
  }

  lemma Resolved1994()
    ensures Normalize(Captures(Rfc850Date, "Sunday", 6, "Nov", 94, 8, 49, 37), Now2020)
      == Some(DateTime(1994, 11, 6, 8, 49, 37))
  {
    assert ResolveCentury(94, 11, 6, 8, 49, 37, Now2020) == 1994;
  }

  /** With the clock at 2020, `94` is 1994, since 2094 is more than 50 years ahead. */
  lemma Rfc850Sunday()
    ensures HttpdateToUnixtime(Some("Sunday, 06-Nov-94 08:49:37 GMT"), Now2020) == Some(784111777)
  {
    var cap := Captures(Rfc850Date, "Sunday", 6, "Nov", 94, 8, 49, 37);
    var c := DateTime(1994, 11, 6, 8, 49, 37);
    Rfc850SundayMatches();
    Sunday06Nov1994();
    Resolved1994();
    AcceptedWhenChecksPass("Sunday, 06-Nov-94 08:49:37 GMT", Now2020, cap, c);
  }

  /** The fields of `Sun Nov  6 08:49:37 1994`. */
  lemma AsctimeSundayText()
    ensures AsctimeLayout("Sun", "Nov", " 6", "08", "49", "37", "1994")
      == "Sun Nov  6 08:49:37 1994"
  {
  }

  lemma AsctimeSundayParts()
    ensures IsWord3("Sun") && IsWord3("Nov") && " 6"[0] == ' ' && IsDigit(" 6"[1])
      && IsDigits2("08") && IsDigits2("49") && IsDigits2("37") && IsDigits4("1994")
      && DigitValue(" 6"[1]) == 6 && Number2("08", 0) == 8 && Number2("49", 0) == 49
      && Number2("37", 0) == 37 && Number4("1994", 0) == 1994
  {
  }

  lemma AsctimeSundayMatches()
    ensures MatchLayout("Sun Nov  6 08:49:37 1994")
      == Some(Captures(AsctimeDate, "Sun", 6, "Nov", 1994, 8, 49, 37))
  {
    AsctimeSundayText();
    AsctimeSundayParts();
    ReadsAsctime("Sun", "Nov", " 6", "08", "49", "37", "1994");
  }

  /** The asctime-date layout pads a one-digit day with a space. */
  lemma AsctimeSunday(now: Instant)
    ensures HttpdateToUnixtime(Some("Sun Nov  6 08:49:37 1994"), now) == Some(784111777)
  {
    var cap := Captures(AsctimeDate, "Sun", 6, "Nov", 1994, 8, 49, 37);
    var c := DateTime(1994, 11, 6, 8, 49, 37);
    AsctimeSundayMatches();
    Sunday06Nov1994();
    assert Normalize(cap, now) == Some(c);
    AcceptedWhenChecksPass("Sun Nov  6 08:49:37 1994", now, cap, c);
  }

  /** The fields of `Sat, 31 Dec 2016 23:59:60 GMT`. */
  lemma OfficialLeapSecondText()
    ensures ImfFixdateLayout("Sat", "31", "Dec", "2016", "23", "59", "60")
      == "Sat, 31 Dec 2016 23:59:60 GMT"
  {
  }

  lemma OfficialLeapSecondParts()
    ensures IsWord3("Sat") && IsDigits2("31") && IsWord3("Dec") && IsDigits4("2016")
      && IsDigits2("23") && IsDigits2("59") && IsDigits2("60") && Number2("31", 0) == 31
      && Number4("2016", 0) == 2016 && Number2("23", 0) == 23 && Number2("59", 0) == 59
      && Number2("60", 0) == 60
  {
  }

  lemma OfficialLeapSecondMatches()
    ensures MatchLayout("Sat, 31 Dec 2016 23:59:60 GMT")
      == Some(Captures(ImfFixdate, "Sat", 31, "Dec", 2016, 23, 59, 60))
  {
    OfficialLeapSecondText();
    OfficialLeapSecondParts();
    ReadsImfFixdate("Sat", "31", "Dec", "2016", "23", "59", "60");
  }

  /** The leap second at the end of 2016 is accepted and shares its timestamp
      with the following midnight. */
  lemma OfficialLeapSecond(now: Instant)
    ensures HttpdateToUnixtime(Some("Sat, 31 Dec 2016 23:59:60 GMT"), now) == Some(1483228800)
  {
    var cap := Captures(ImfFixdate, "Sat", 31, "Dec", 2016, 23, 59, 60);
    var c := DateTime(2016, 12, 31, 23, 59, 60);
    OfficialLeapSecondMatches();
    Saturday31Dec2016();
    assert Normalize(cap, now) == Some(c);
    AcceptedWhenChecksPass("Sat, 31 Dec 2016 23:59:60 GMT", now, cap, c);
  }

  /** The fields of `Sat, 29 Feb 2020 00:00:00 GMT`. */
  lemma LeapDayText()
    ensures ImfFixdateLayout("Sat", "29", "Feb", "2020", "00", "00", "00")
      == "Sat, 29 Feb 2020 00:00:00 GMT"
  {
  }

  lemma LeapDayParts()
    ensures IsWord3("Sat") && IsDigits2("29") && IsWord3("Feb") && IsDigits4("2020")
      && IsDigits2("00") && Number2("29", 0) == 29 && Number4("2020", 0) == 2020
      && Number2("00", 0) == 0
  {
  }

  lemma LeapDayMatches()
    ensures MatchLayout("Sat, 29 Feb 2020 00:00:00 GMT")
      == Some(Captures(ImfFixdate, "Sat", 29, "Feb", 2020, 0, 0, 0))
  {
    LeapDayText();
    LeapDayParts();
    ReadsImfFixdate("Sat", "29", "Feb", "2020", "00", "00", "00");
  }

  lemma LeapDayResolved(now: Instant)
    ensures Normalize(Captures(ImfFixdate, "Sat", 29, "Feb", 2020, 0, 0, 0), now)
      == Some(DateTime(2020, 2, 29, 0, 0, 0))
  {
  }

  /** 29 February exists in 2020, a leap year. */
  lemma LeapDay(now: Instant)
    ensures HttpdateToUnixtime(Some("Sat, 29 Feb 2020 00:00:00 GMT"), now) == Some(1582934400)
  {
    var cap := Captures(ImfFixdate, "Sat", 29, "Feb", 2020, 0, 0, 0);
    var c := DateTime(2020, 2, 29, 0, 0, 0);
    LeapDayMatches();
    Saturday29Feb2020();
    LeapDayResolved(now);
    AcceptedWhenChecksPass("Sat, 29 Feb 2020 00:00:00 GMT", now, cap, c);
  }

  // ---------------------------------------------------------------------------
  // The century rule of rfc850-date

  /** The fields of `Friday, 31-Dec-99 23:59:59 GMT`. */
  lemma Rfc850EndOf1999Text()
    ensures Rfc850Layout("Friday", "31", "Dec", "99", "23", "59", "59")
      == "Friday, 31-Dec-99 23:59:59 GMT"
  {
  }

  lemma Rfc850EndOf1999Parts()
    ensures |"Friday"| >= 1 && AllWordChars("Friday") && IsDigits2("31") && IsWord3("Dec")
      && IsDigits2("99") && IsDigits2("23") && IsDigits2("59") && Number2("31", 0) == 31
      && Number2("99", 0) == 99 && Number2("23", 0) == 23 && Number2("59", 0) == 59
  {
  }

  lemma Rfc850EndOf1999Matches()
    ensures MatchLayout("Friday, 31-Dec-99 23:59:59 GMT")
      == Some(Captures(Rfc850Date, "Friday", 31, "Dec", 99, 23, 59, 59))
  {
    Rfc850EndOf1999Text();
    Rfc850EndOf1999Parts();
    ReadsRfc850("Friday", "31", "Dec", "99", "23", "59", "59");
  }

  lemma EndOf1999Resolved()
    ensures Normalize(Captures(Rfc850Date, "Friday", 31, "Dec", 99, 23, 59, 59), Now1949)
      == Some(DateTime(1999, 12, 31, 23, 59, 59))
  {
    assert ResolveCentury(99, 12, 31, 23, 59, 59, Now1949) == 1999;
  }

  /** With the clock at 1949-12-31 23:59:59, `99` is 1999: exactly 50 years
      ahead is not "more than 50 years". */
  lemma Rfc850EndOf1999()
    ensures HttpdateToUnixtime(Some("Friday, 31-Dec-99 23:59:59 GMT"), Now1949) == Some(946684799)
  {
    var now := Now1949;
    var cap := Captures(Rfc850Date, "Friday", 31, "Dec", 99, 23, 59, 59);
    var c := DateTime(1999, 12, 31, 23, 59, 59);
    Rfc850EndOf1999Matches();
    Friday31Dec1999();
    EndOf1999Resolved();
    AcceptedWhenChecksPass("Friday, 31-Dec-99 23:59:59 GMT", now, cap, c);
  }

  /** The fields of `Friday, 31-Dec-99 23:59:60 GMT`. */
  lemma Rfc850OneSecondLaterText()
    ensures Rfc850Layout("Friday", "31", "Dec", "99", "23", "59", "60")
      == "Friday, 31-Dec-99 23:59:60 GMT"
  {
  }

  lemma Rfc850OneSecondLaterParts()
    ensures |"Friday"| >= 1 && AllWordChars("Friday") && IsDigits2("31") && IsWord3("Dec")
      && IsDigits2("99") && IsDigits2("23") && IsDigits2("59") && IsDigits2("60")
      && Number2("31", 0) == 31 && Number2("99", 0) == 99 && Number2("23", 0) == 23
      && Number2("59", 0) == 59 && Number2("60", 0) == 60
  {
  }

  lemma Rfc850OneSecondLaterMatches()
    ensures MatchLayout("Friday, 31-Dec-99 23:59:60 GMT")
      == Some(Captures(Rfc850Date, "Friday", 31, "Dec", 99, 23, 59, 60))
  {
    Rfc850OneSecondLaterText();
    Rfc850OneSecondLaterParts();
    ReadsRfc850("Friday", "31", "Dec", "99", "23", "59", "60");
  }

  lemma OneSecondLaterResolved()
    ensures Normalize(Captures(Rfc850Date, "Friday", 31, "Dec", 99, 23, 59, 60), Now1949)
      == Some(DateTime(1899, 12, 31, 23, 59, 60))
  {
    assert ResolveCentury(99, 12, 31, 23, 59, 60, Now1949) == 1899;
  }

  /** One second later the fields compare as more than 50 years ahead, so `99`
      is 1899, which is out of range. */
  lemma Rfc850OneSecondLater()
    ensures HttpdateToUnixtime(Some("Friday, 31-Dec-99 23:59:60 GMT"), Now1949).None?
  {
    Rfc850OneSecondLaterMatches();
    OneSecondLaterResolved();
    OutOfRangeRejected("Friday, 31-Dec-99 23:59:60 GMT", Now1949);
  }

  /** The fields of `Sunday, 31-Dec-99 23:59:59 GMT`. */
  lemma Rfc850Sunday1899Text()
    ensures Rfc850Layout("Sunday", "31", "Dec", "99", "23", "59", "59")
      == "Sunday, 31-Dec-99 23:59:59 GMT"
  {
  }

  lemma Rfc850Sunday1899Parts()
    ensures |"Sunday"| >= 1 && AllWordChars("Sunday") && IsDigits2("31") && IsWord3("Dec")
      && IsDigits2("99") && IsDigits2("23") && IsDigits2("59") && Number2("31", 0) == 31
      && Number2("99", 0) == 99 && Number2("23", 0) == 23 && Number2("59", 0) == 59
  {
  }

  lemma Rfc850Sunday1899Matches()
    ensures MatchLayout("Sunday, 31-Dec-99 23:59:59 GMT")
      == Some(Captures(Rfc850Date, "Sunday", 31, "Dec", 99, 23, 59, 59))
  {
    Rfc850Sunday1899Text();
    Rfc850Sunday1899Parts();
    ReadsRfc850("Sunday", "31", "Dec", "99", "23", "59", "59");
  }

  lemma Sunday1899Resolved()
    ensures Normalize(Captures(Rfc850Date, "Sunday", 31, "Dec", 99, 23, 59, 59), Now1899)
      == Some(DateTime(1899, 12, 31, 23, 59, 59))
  {
    assert ResolveCentury(99, 12, 31, 23, 59, 59, Now1899) == 1899;
  }

  /** A clock before 1900 counts as 1900: `99` is 1899 and rejected. */
  lemma Rfc850Sunday1899()
    ensures HttpdateToUnixtime(Some("Sunday, 31-Dec-99 23:59:59 GMT"), Now1899).None?
  {
    Rfc850Sunday1899Matches();
    Sunday1899Resolved();
    OutOfRangeRejected("Sunday, 31-Dec-99 23:59:59 GMT", Now1899);
  }

  /** The fields of `Saturday, 31-Dec-49 23:59:59 GMT`. */
  lemma Rfc850EndOf1949Text()
    ensures Rfc850Layout("Saturday", "31", "Dec", "49", "23", "59", "59")
      == "Saturday, 31-Dec-49 23:59:59 GMT"
  {
  }

  lemma Rfc850EndOf1949Parts()
    ensures |"Saturday"| >= 1 && AllWordChars("Saturday") && IsDigits2("31") && IsWord3("Dec")
      && IsDigits2("49") && IsDigits2("23") && IsDigits2("59") && Number2("31", 0) == 31
      && Number2("49", 0) == 49 && Number2("23", 0) == 23 && Number2("59", 0) == 59
  {
  }

  lemma Rfc850EndOf1949Matches()
    ensures MatchLayout("Saturday, 31-Dec-49 23:59:59 GMT")
      == Some(Captures(Rfc850Date, "Saturday", 31, "Dec", 49, 23, 59, 59))
  {
    Rfc850EndOf1949Text();
    Rfc850EndOf1949Parts();
    ReadsRfc850("Saturday", "31", "Dec", "49", "23", "59", "59");
  }

  lemma EndOf1949Resolved()
    ensures Normalize(Captures(Rfc850Date, "Saturday", 31, "Dec", 49, 23, 59, 59), Now1899)
      == Some(DateTime(1949, 12, 31, 23, 59, 59))
  {
    assert ResolveCentury(49, 12, 31, 23, 59, 59, Now1899) == 1949;
  }

  /** With the same clock, `49` is 1949, before the epoch. */
  lemma Rfc850EndOf1949()
    ensures HttpdateToUnixtime(Some("Saturday, 31-Dec-49 23:59:59 GMT"), Now1899) == Some(-631152001)
  {
    var cap := Captures(Rfc850Date, "Saturday", 31, "Dec", 49, 23, 59, 59);
    var c := DateTime(1949, 12, 31, 23, 59, 59);
    Rfc850EndOf1949Matches();
    Saturday31Dec1949();
    EndOf1949Resolved();
    AcceptedWhenChecksPass("Saturday, 31-Dec-49 23:59:59 GMT", Now1899, cap, c);
  }

  // ---------------------------------------------------------------------------
  // Rejected texts

  /** The fields of `Thu, 31 Dec 2015 23:59:60 GMT`. */
  lemma UnofficialLeapSecondText()
    ensures ImfFixdateLayout("Thu", "31", "Dec", "2015", "23", "59", "60")
      == "Thu, 31 Dec 2015 23:59:60 GMT"
  {
  }

  lemma UnofficialLeapSecondParts()
    ensures IsWord3("Thu") && IsDigits2("31") && IsWord3("Dec") && IsDigits4("2015")
      && IsDigits2("23") && IsDigits2("59") && IsDigits2("60") && Number2("31", 0) == 31
      && Number4("2015", 0) == 2015 && Number2("23", 0) == 23 && Number2("59", 0) == 59
      && Number2("60", 0) == 60
  {
  }

  lemma UnofficialLeapSecondMatches()
    ensures MatchLayout("Thu, 31 Dec 2015 23:59:60 GMT")
      == Some(Captures(ImfFixdate, "Thu", 31, "Dec", 2015, 23, 59, 60))
  {
    UnofficialLeapSecondText();
    UnofficialLeapSecondParts();
    ReadsImfFixdate("Thu", "31", "Dec", "2015", "23", "59", "60");
  }

  lemma NotInLeapSeconds()
    ensures 1451606400 !in LeapSeconds
  {
  }

  /** No leap second was inserted at the end of 2015. */
  lemma UnofficialLeapSecond(now: Instant)
    ensures HttpdateToUnixtime(Some("Thu, 31 Dec 2015 23:59:60 GMT"), now).None?
  {
    var cap := Captures(ImfFixdate, "Thu", 31, "Dec", 2015, 23, 59, 60);
    var c := DateTime(2015, 12, 31, 23, 59, 60);
    UnofficialLeapSecondMatches();
    Thursday31Dec2015();
    assert Normalize(cap, now) == Some(c);
    NotInLeapSeconds();
    UnofficialLeapSecondRejected("Thu, 31 Dec 2015 23:59:60 GMT", now);
  }

  /** The fields of `Sun, 06 Nvv 1994 00:00:00 GMT`. */
  lemma UnknownMonthText()
    ensures ImfFixdateLayout("Sun", "06", "Nvv", "1994", "00", "00", "00")
      == "Sun, 06 Nvv 1994 00:00:00 GMT"
  {
  }

  lemma UnknownMonthParts()
    ensures IsWord3("Sun") && IsDigits2("06") && IsWord3("Nvv") && IsDigits4("1994")
      && IsDigits2("00") && Number2("06", 0) == 6 && Number4("1994", 0) == 1994
      && Number2("00", 0) == 0
  {
  }

  lemma UnknownMonthMatches()
    ensures MatchLayout("Sun, 06 Nvv 1994 00:00:00 GMT")
      == Some(Captures(ImfFixdate, "Sun", 6, "Nvv", 1994, 0, 0, 0))
  {
    UnknownMonthText();
    UnknownMonthParts();
    ReadsImfFixdate("Sun", "06", "Nvv", "1994", "00", "00", "00");
  }

  /** `Nvv` has the shape of a month but is none. */
  lemma UnknownMonth(now: Instant)
    ensures HttpdateToUnixtime(Some("Sun, 06 Nvv 1994 00:00:00 GMT"), now).None?
  {
    UnknownMonthMatches();
    UnknownMonthRejected("Sun, 06 Nvv 1994 00:00:00 GMT", now);
  }

  /** The fields of `Snn, 06 Nov 1994 00:00:00 GMT`. */
  lemma WrongWeekdayText()
    ensures ImfFixdateLayout("Snn", "06", "Nov", "1994", "00", "00", "00")
      == "Snn, 06 Nov 1994 00:00:00 GMT"
  {
  }

  lemma WrongWeekdayParts()
    ensures IsWord3("Snn") && IsDigits2("06") && IsWord3("Nov") && IsDigits4("1994")
      && IsDigits2("00") && Number2("06", 0) == 6 && Number4("1994", 0) == 1994
      && Number2("00", 0) == 0
  {
  }

  lemma WrongWeekdayMatches()
    ensures MatchLayout("Snn, 06 Nov 1994 00:00:00 GMT")
      == Some(Captures(ImfFixdate, "Snn", 6, "Nov", 1994, 0, 0, 0))
  {
    WrongWeekdayText();
    WrongWeekdayParts();
    ReadsImfFixdate("Snn", "06", "Nov", "1994", "00", "00", "00");
  }

  /** `Snn` has the shape of a weekday but is not the one of 1994-11-06. */
  lemma WrongWeekday(now: Instant)
    ensures HttpdateToUnixtime(Some("Snn, 06 Nov 1994 00:00:00 GMT"), now).None?
  {
    var cap := Captures(ImfFixdate, "Snn", 6, "Nov", 1994, 0, 0, 0);
    WrongWeekdayMatches();
    Sunday06Nov1994();
    assert Normalize(cap, now) == Some(DateTime(1994, 11, 6, 0, 0, 0));
    WrongWeekdayRejected("Snn, 06 Nov 1994 00:00:00 GMT", now);
  }

  /** The fields of `Sun, 31 Nov 1994 00:00:00 GMT`. */
  lemma ThirtyFirstNovemberText()
    ensures ImfFixdateLayout("Sun", "31", "Nov", "1994", "00", "00", "00")
      == "Sun, 31 Nov 1994 00:00:00 GMT"
  {
  }

  lemma ThirtyFirstNovemberParts()
    ensures IsWord3("Sun") && IsDigits2("31") && IsWord3("Nov") && IsDigits4("1994")
      && IsDigits2("00") && Number2("31", 0) == 31 && Number4("1994", 0) == 1994
      && Number2("00", 0) == 0
  {
  }

  lemma ThirtyFirstNovemberMatches()
    ensures MatchLayout("Sun, 31 Nov 1994 00:00:00 GMT")
      == Some(Captures(ImfFixdate, "Sun", 31, "Nov", 1994, 0, 0, 0))
  {
    ThirtyFirstNovemberText();
    ThirtyFirstNovemberParts();
    ReadsImfFixdate("Sun", "31", "Nov", "1994", "00", "00", "00");
  }

  /** November has 30 days. */
  lemma ThirtyFirstNovember(now: Instant)
    ensures HttpdateToUnixtime(Some("Sun, 31 Nov 1994 00:00:00 GMT"), now).None?
  {
    var cap := Captures(ImfFixdate, "Sun", 31, "Nov", 1994, 0, 0, 0);
    ThirtyFirstNovemberMatches();
    assert Normalize(cap, now) == Some(DateTime(1994, 11, 31, 0, 0, 0));
  }

  /** The fields of `Mon, 29 Feb 2021 00:00:00 GMT`. */
  lemma NotALeapYearText()
    ensures ImfFixdateLayout("Mon", "29", "Feb", "2021", "00", "00", "00")
      == "Mon, 29 Feb 2021 00:00:00 GMT"
  {
  }

  lemma NotALeapYearParts()
    ensures IsWord3("Mon") && IsDigits2("29") && IsWord3("Feb") && IsDigits4("2021")
      && IsDigits2("00") && Number2("29", 0) == 29 && Number4("2021", 0) == 2021
      && Number2("00", 0) == 0
  {
  }

  lemma NotALeapYearMatches()
    ensures MatchLayout("Mon, 29 Feb 2021 00:00:00 GMT")
      == Some(Captures(ImfFixdate, "Mon", 29, "Feb", 2021, 0, 0, 0))
  {
    NotALeapYearText();
    NotALeapYearParts();
    ReadsImfFixdate("Mon", "29", "Feb", "2021", "00", "00", "00");
  }

  /** 2021 is not a leap year. */
  lemma NotALeapYear(now: Instant)
    ensures HttpdateToUnixtime(Some("Mon, 29 Feb 2021 00:00:00 GMT"), now).None?
  {
    var cap := Captures(ImfFixdate, "Mon", 29, "Feb", 2021, 0, 0, 0);
    NotALeapYearMatches();
    assert Normalize(cap, now) == Some(DateTime(2021, 2, 29, 0, 0, 0));
  }

  /** The fields of `Sun, 31 Dec 1899 23:59:59 GMT`. */
  lemma Year1899Text()
    ensures ImfFixdateLayout("Sun", "31", "Dec", "1899", "23", "59", "59")
      == "Sun, 31 Dec 1899 23:59:59 GMT"
  {
  }

  lemma Year1899Parts()
    ensures IsWord3("Sun") && IsDigits2("31") && IsWord3("Dec") && IsDigits4("1899")
      && IsDigits2("23") && IsDigits2("59") && Number2("31", 0) == 31
      && Number4("1899", 0) == 1899 && Number2("23", 0) == 23 && Number2("59", 0) == 59
  {
  }

  lemma Year1899Matches()
    ensures MatchLayout("Sun, 31 Dec 1899 23:59:59 GMT")
      == Some(Captures(ImfFixdate, "Sun", 31, "Dec", 1899, 23, 59, 59))
  {
    Year1899Text();
    Year1899Parts();
    ReadsImfFixdate("Sun", "31", "Dec", "1899", "23", "59", "59");
  }

  /** A four-digit year before 1900 is rejected. */
  lemma Year1899(now: Instant)
    ensures HttpdateToUnixtime(Some("Sun, 31 Dec 1899 23:59:59 GMT"), now).None?
  {
    var cap := Captures(ImfFixdate, "Sun", 31, "Dec", 1899, 23, 59, 59);
    Year1899Matches();
    assert Normalize(cap, now) == Some(DateTime(1899, 12, 31, 23, 59, 59));
  }

  /** Without the zone none of the three layouts matches. */
  lemma MissingZone(now: Instant)
    ensures HttpdateToUnixtime(Some("Sun, 06 Nov 1994 00:00:00"), now).None?
  {
    var s := "Sun, 06 Nov 1994 00:00:00";
    assert |s| == 25 && s[1] != ',';
    assert !IsImfFixdateShape(s) && !IsRfc850Shape(s) && !IsAsctimeShape(s);
    MatchLayoutCascade(s);
  }

  // ---------------------------------------------------------------------------
  // IMF-fixdate: the remaining tests

  /** The fields of `Fri, 01 Sep 2000 00:00:00 GMT`. */
  lemma ImfFixdateSep2000Text()
    ensures ImfFixdateLayout("Fri", "01", "Sep", "2000", "00", "00", "00")
      == "Fri, 01 Sep 2000 00:00:00 GMT"
  {
  }

  lemma ImfFixdateSep2000Parts()
    ensures IsWord3("Fri") && IsDigits2("01") && IsWord3("Sep") && IsDigits4("2000")
      && IsDigits2("00") && Number2("01", 0) == 1 && Number4("2000", 0) == 2000
      && Number2("00", 0) == 0
  {
  }

  lemma ImfFixdateSep2000Matches()
    ensures MatchLayout("Fri, 01 Sep 2000 00:00:00 GMT")
      == Some(Captures(ImfFixdate, "Fri", 1, "Sep", 2000, 0, 0, 0))
  {
    ImfFixdateSep2000Text();
    ImfFixdateSep2000Parts();
    ReadsImfFixdate("Fri", "01", "Sep", "2000", "00", "00", "00");
  }

  lemma ImfFixdateSep2000Resolved(now: Instant)
    ensures Normalize(Captures(ImfFixdate, "Fri", 1, "Sep", 2000, 0, 0, 0), now)
      == Some(DateTime(2000, 9, 1, 0, 0, 0))
  {
  }

  /** `Fri, 01 Sep 2000 00:00:00 GMT` is 967766400. */
  lemma ImfFixdateSep2000(now: Instant)
    ensures HttpdateToUnixtime(Some("Fri, 01 Sep 2000 00:00:00 GMT"), now) == Some(967766400)
  {
    var cap := Captures(ImfFixdate, "Fri", 1, "Sep", 2000, 0, 0, 0);
    var c := DateTime(2000, 9, 1, 0, 0, 0);
    ImfFixdateSep2000Matches();
    Friday01Sep2000();
    ImfFixdateSep2000Resolved(now);
    AcceptedWhenChecksPass("Fri, 01 Sep 2000 00:00:00 GMT", now, cap, c);
  }

  /** The fields of `Sun, 06 Nov 1994 25:00:00 GMT`. */
  lemma ImfFixdateHour25Text()
    ensures ImfFixdateLayout("Sun", "06", "Nov", "1994", "25", "00", "00")
      == "Sun, 06 Nov 1994 25:00:00 GMT"
  {
  }

  lemma ImfFixdateHour25Parts()
    ensures IsWord3("Sun") && IsDigits2("06") && IsWord3("Nov") && IsDigits4("1994")
      && IsDigits2("25") && IsDigits2("00") && Number2("06", 0) == 6
      && Number4("1994", 0) == 1994 && Number2("25", 0) == 25 && Number2("00", 0) == 0
  {
  }

  lemma ImfFixdateHour25Matches()
    ensures MatchLayout("Sun, 06 Nov 1994 25:00:00 GMT")
      == Some(Captures(ImfFixdate, "Sun", 6, "Nov", 1994, 25, 0, 0))
  {
    ImfFixdateHour25Text();
    ImfFixdateHour25Parts();
    ReadsImfFixdate("Sun", "06", "Nov", "1994", "25", "00", "00");
  }

  lemma ImfFixdateHour25Resolved(now: Instant)
    ensures Normalize(Captures(ImfFixdate, "Sun", 6, "Nov", 1994, 25, 0, 0), now)
      == Some(DateTime(1994, 11, 6, 25, 0, 0))
  {
  }

  /** Hour 25 does not exist. */
  lemma ImfFixdateHour25(now: Instant)
    ensures HttpdateToUnixtime(Some("Sun, 06 Nov 1994 25:00:00 GMT"), now).None?
  {
    var cap := Captures(ImfFixdate, "Sun", 6, "Nov", 1994, 25, 0, 0);
    var c := DateTime(1994, 11, 6, 25, 0, 0);
    ImfFixdateHour25Matches();
    ImfFixdateHour25Resolved(now);
    OutOfRangeRejected("Sun, 06 Nov 1994 25:00:00 GMT", now);
  }

  /** The fields of `Sun, 06 Nov 1994 00:61:00 GMT`. */
  lemma ImfFixdateMinute61Text()
    ensures ImfFixdateLayout("Sun", "06", "Nov", "1994", "00", "61", "00")
      == "Sun, 06 Nov 1994 00:61:00 GMT"
  {
  }

  lemma ImfFixdateMinute61Parts()
    ensures IsWord3("Sun") && IsDigits2("06") && IsWord3("Nov") && IsDigits4("1994")
      && IsDigits2("00") && IsDigits2("61") && Number2("06", 0) == 6
      && Number4("1994", 0) == 1994 && Number2("00", 0) == 0 && Number2("61", 0) == 61
  {
  }

  lemma ImfFixdateMinute61Matches()
    ensures MatchLayout("Sun, 06 Nov 1994 00:61:00 GMT")
      == Some(Captures(ImfFixdate, "Sun", 6, "Nov", 1994, 0, 61, 0))
  {
    ImfFixdateMinute61Text();
    ImfFixdateMinute61Parts();
    ReadsImfFixdate("Sun", "06", "Nov", "1994", "00", "61", "00");
  }

  lemma ImfFixdateMinute61Resolved(now: Instant)
    ensures Normalize(Captures(ImfFixdate, "Sun", 6, "Nov", 1994, 0, 61, 0), now)
      == Some(DateTime(1994, 11, 6, 0, 61, 0))
  {
  }

  /** Minute 61 does not exist. */
  lemma ImfFixdateMinute61(now: Instant)
    ensures HttpdateToUnixtime(Some("Sun, 06 Nov 1994 00:61:00 GMT"), now).None?
  {
    var cap := Captures(ImfFixdate, "Sun", 6, "Nov", 1994, 0, 61, 0);
    var c := DateTime(1994, 11, 6, 0, 61, 0);
    ImfFixdateMinute61Matches();
    ImfFixdateMinute61Resolved(now);
    OutOfRangeRejected("Sun, 06 Nov 1994 00:61:00 GMT", now);
  }

  /** The fields of `Sun, 06 Nov 1994 00:00:61 GMT`. */
  lemma ImfFixdateSecond61Text()
    ensures ImfFixdateLayout("Sun", "06", "Nov", "1994", "00", "00", "61")
      == "Sun, 06 Nov 1994 00:00:61 GMT"
  {
  }

  lemma ImfFixdateSecond61Parts()
    ensures IsWord3("Sun") && IsDigits2("06") && IsWord3("Nov") && IsDigits4("1994")
      && IsDigits2("00") && IsDigits2("61") && Number2("06", 0) == 6
      && Number4("1994", 0) == 1994 && Number2("00", 0) == 0 && Number2("61", 0) == 61
  {
  }

  lemma ImfFixdateSecond61Matches()
    ensures MatchLayout("Sun, 06 Nov 1994 00:00:61 GMT")
      == Some(Captures(ImfFixdate, "Sun", 6, "Nov", 1994, 0, 0, 61))
  {
    ImfFixdateSecond61Text();
    ImfFixdateSecond61Parts();
    ReadsImfFixdate("Sun", "06", "Nov", "1994", "00", "00", "61");
  }

  lemma ImfFixdateSecond61Resolved(now: Instant)
    ensures Normalize(Captures(ImfFixdate, "Sun", 6, "Nov", 1994, 0, 0, 61), now)
      == Some(DateTime(1994, 11, 6, 0, 0, 61))
  {
  }

  /** `strptime` reads second 61, but the parser allows at most 60. */
  lemma ImfFixdateSecond61(now: Instant)
    ensures HttpdateToUnixtime(Some("Sun, 06 Nov 1994 00:00:61 GMT"), now).None?
  {
    var cap := Captures(ImfFixdate, "Sun", 6, "Nov", 1994, 0, 0, 61);
    var c := DateTime(1994, 11, 6, 0, 0, 61);
    ImfFixdateSecond61Matches();
    ImfFixdateSecond61Resolved(now);
    OutOfRangeRejected("Sun, 06 Nov 1994 00:00:61 GMT", now);
  }

  /** Without the weekday none of the three layouts matches. */
  lemma ImfFixdateMissingWeekday(now: Instant)
    ensures HttpdateToUnixtime(Some("06 Nov 1994 00:00:00 GMT"), now).None?
  {
    var s := "06 Nov 1994 00:00:00 GMT";
    assert |s| == 24 && s[2] == ' ';
    assert !IsImfFixdateShape(s) && !IsRfc850Shape(s) && !IsAsctimeShape(s);
    MatchLayoutCascade(s);
  }

  /** A year with a sign is not `\d{4}`. */
  lemma ImfFixdateNegativeYear(now: Instant)
    ensures HttpdateToUnixtime(Some("Sun, 06 Nov -994 00:00:00 GMT"), now).None?
  {
    var s := "Sun, 06 Nov -994 00:00:00 GMT";
    assert |s| == 29 && s[12] == '-' && s[..5][3] == ',';
    assert !IsImfFixdateShape(s) && !IsRfc850Shape(s) && !IsAsctimeShape(s);
    MatchLayoutCascade(s);
  }

  /** Only `GMT` is accepted as the zone. */
  lemma ImfFixdateZoneNotGmt(now: Instant)
    ensures HttpdateToUnixtime(Some("Sun, 06 Nov 1994 00:00:00 BST"), now).None?
  {
    var s := "Sun, 06 Nov 1994 00:00:00 BST";
    assert |s| == 29 && s[26] == 'B' && s[..5][3] == ',';
    assert !IsImfFixdateShape(s) && !IsRfc850Shape(s) && !IsAsctimeShape(s);
    MatchLayoutCascade(s);
  }

  /** A five-digit year matches no layout. */
  lemma ImfFixdateYear10000(now: Instant)
    ensures HttpdateToUnixtime(Some("Sun, 31 Dec 10000 23:59:59 GMT"), now).None?
  {
    var s := "Sun, 31 Dec 10000 23:59:59 GMT";
    assert |s| == 30 && s[..6][3] == ',';
    assert !IsImfFixdateShape(s) && !IsRfc850Shape(s) && !IsAsctimeShape(s);
    MatchLayoutCascade(s);
  }

  // ---------------------------------------------------------------------------
  // rfc850-date, with the clock the tests pin at 2020-01-01

  /** The fields of `Friday, 01-Sep-00 00:00:00 GMT`. */
  lemma Rfc850Sep2000Text()
    ensures Rfc850Layout("Friday", "01", "Sep", "00", "00", "00", "00")
      == "Friday, 01-Sep-00 00:00:00 GMT"
  {
  }

  lemma Rfc850Sep2000Parts()
    ensures |"Friday"| >= 1 && AllWordChars("Friday") && IsDigits2("01") && IsWord3("Sep")
      && IsDigits2("00") && Number2("01", 0) == 1 && Number2("00", 0) == 0
  {
  }

  lemma Rfc850Sep2000Matches()
    ensures MatchLayout("Friday, 01-Sep-00 00:00:00 GMT")
      == Some(Captures(Rfc850Date, "Friday", 1, "Sep", 0, 0, 0, 0))
  {
    Rfc850Sep2000Text();
    Rfc850Sep2000Parts();
    ReadsRfc850("Friday", "01", "Sep", "00", "00", "00", "00");
  }

  lemma Rfc850Sep2000Resolved()
    ensures Normalize(Captures(Rfc850Date, "Friday", 1, "Sep", 0, 0, 0, 0), Now2020)
      == Some(DateTime(2000, 9, 1, 0, 0, 0))
  {
    assert ResolveCentury(0, 9, 1, 0, 0, 0, Now2020) == 2000;
  }

  /** With the clock at 2020, `00` is 2000. */
  lemma Rfc850Sep2000()
    ensures HttpdateToUnixtime(Some("Friday, 01-Sep-00 00:00:00 GMT"), Now2020) == Some(967766400)
  {
    var cap := Captures(Rfc850Date, "Friday", 1, "Sep", 0, 0, 0, 0);
    var c := DateTime(2000, 9, 1, 0, 0, 0);
    Rfc850Sep2000Matches();
    Friday01Sep2000();
    Rfc850Sep2000Resolved();
    AcceptedWhenChecksPass("Friday, 01-Sep-00 00:00:00 GMT", Now2020, cap, c);
  }

  /** The fields of `Saturday, 29-Feb-20 00:00:00 GMT`. */
  lemma Rfc850LeapDayText()
    ensures Rfc850Layout("Saturday", "29", "Feb", "20", "00", "00", "00")
      == "Saturday, 29-Feb-20 00:00:00 GMT"
  {
  }

  lemma Rfc850LeapDayParts()
    ensures |"Saturday"| >= 1 && AllWordChars("Saturday") && IsDigits2("29") && IsWord3("Feb")
      && IsDigits2("20") && IsDigits2("00") && Number2("29", 0) == 29 && Number2("20", 0) == 20
      && Number2("00", 0) == 0
  {
  }

  lemma Rfc850LeapDayMatches()
    ensures MatchLayout("Saturday, 29-Feb-20 00:00:00 GMT")
      == Some(Captures(Rfc850Date, "Saturday", 29, "Feb", 20, 0, 0, 0))
  {
    Rfc850LeapDayText();
    Rfc850LeapDayParts();
    ReadsRfc850("Saturday", "29", "Feb", "20", "00", "00", "00");
  }

  lemma Rfc850LeapDayResolved()
    ensures Normalize(Captures(Rfc850Date, "Saturday", 29, "Feb", 20, 0, 0, 0), Now2020)
      == Some(DateTime(2020, 2, 29, 0, 0, 0))
  {
    assert ResolveCentury(20, 2, 29, 0, 0, 0, Now2020) == 2020;
  }

  /** With the clock at 2020, `20` is 2020, a leap year. */
  lemma Rfc850LeapDay()
    ensures HttpdateToUnixtime(Some("Saturday, 29-Feb-20 00:00:00 GMT"), Now2020) == Some(1582934400)
  {
    var cap := Captures(Rfc850Date, "Saturday", 29, "Feb", 20, 0, 0, 0);
    var c := DateTime(2020, 2, 29, 0, 0, 0);
    Rfc850LeapDayMatches();
    Saturday29Feb2020();
    Rfc850LeapDayResolved();
    AcceptedWhenChecksPass("Saturday, 29-Feb-20 00:00:00 GMT", Now2020, cap, c);
  }

  /** The fields of `Saturday, 31-Dec-16 23:59:60 GMT`. */
  lemma Rfc850LeapSecondText()
    ensures Rfc850Layout("Saturday", "31", "Dec", "16", "23", "59", "60")
      == "Saturday, 31-Dec-16 23:59:60 GMT"
  {
  }

  lemma Rfc850LeapSecondParts()
    ensures |"Saturday"| >= 1 && AllWordChars("Saturday") && IsDigits2("31") && IsWord3("Dec")
      && IsDigits2("16") && IsDigits2("23") && IsDigits2("59") && IsDigits2("60")
      && Number2("31", 0) == 31 && Number2("16", 0) == 16 && Number2("23", 0) == 23
      && Number2("59", 0) == 59 && Number2("60", 0) == 60
  {
  }

  lemma Rfc850LeapSecondMatches()
    ensures MatchLayout("Saturday, 31-Dec-16 23:59:60 GMT")
      == Some(Captures(Rfc850Date, "Saturday", 31, "Dec", 16, 23, 59, 60))
  {
    Rfc850LeapSecondText();
    Rfc850LeapSecondParts();
    ReadsRfc850("Saturday", "31", "Dec", "16", "23", "59", "60");
  }

  lemma Rfc850LeapSecondResolved()
    ensures Normalize(Captures(Rfc850Date, "Saturday", 31, "Dec", 16, 23, 59, 60), Now2020)
      == Some(DateTime(2016, 12, 31, 23, 59, 60))
  {
    assert ResolveCentury(16, 12, 31, 23, 59, 60, Now2020) == 2016;
  }

  /** The 2016 leap second in rfc850-date. */
  lemma Rfc850LeapSecond()
    ensures HttpdateToUnixtime(Some("Saturday, 31-Dec-16 23:59:60 GMT"), Now2020) == Some(1483228800)
  {
    var cap := Captures(Rfc850Date, "Saturday", 31, "Dec", 16, 23, 59, 60);
    var c := DateTime(2016, 12, 31, 23, 59, 60);
    Rfc850LeapSecondMatches();
    Saturday31Dec2016();
    Rfc850LeapSecondResolved();
    AcceptedWhenChecksPass("Saturday, 31-Dec-16 23:59:60 GMT", Now2020, cap, c);
  }

  /** The fields of `Snnday, 06-Nov-94 00:00:00 GMT`. */
  lemma Rfc850WrongWeekdayText()
    ensures Rfc850Layout("Snnday", "06", "Nov", "94", "00", "00", "00")
      == "Snnday, 06-Nov-94 00:00:00 GMT"
  {
  }

  lemma Rfc850WrongWeekdayParts()
    ensures |"Snnday"| >= 1 && AllWordChars("Snnday") && IsDigits2("06") && IsWord3("Nov")
      && IsDigits2("94") && IsDigits2("00") && Number2("06", 0) == 6 && Number2("94", 0) == 94
      && Number2("00", 0) == 0
  {
  }

  lemma Rfc850WrongWeekdayMatches()
    ensures MatchLayout("Snnday, 06-Nov-94 00:00:00 GMT")
      == Some(Captures(Rfc850Date, "Snnday", 6, "Nov", 94, 0, 0, 0))
  {
    Rfc850WrongWeekdayText();
    Rfc850WrongWeekdayParts();
    ReadsRfc850("Snnday", "06", "Nov", "94", "00", "00", "00");
  }

  lemma Rfc850WrongWeekdayResolved()
    ensures Normalize(Captures(Rfc850Date, "Snnday", 6, "Nov", 94, 0, 0, 0), Now2020)
      == Some(DateTime(1994, 11, 6, 0, 0, 0))
  {
    assert ResolveCentury(94, 11, 6, 0, 0, 0, Now2020) == 1994;
  }

  /** `Snnday` is a `\w+` token but not the weekday of 1994-11-06. */
  lemma Rfc850WrongWeekday()
    ensures HttpdateToUnixtime(Some("Snnday, 06-Nov-94 00:00:00 GMT"), Now2020).None?
  {
    var cap := Captures(Rfc850Date, "Snnday", 6, "Nov", 94, 0, 0, 0);
    var c := DateTime(1994, 11, 6, 0, 0, 0);
    Rfc850WrongWeekdayMatches();
    Sunday06Nov1994();
    Rfc850WrongWeekdayResolved();
    WrongWeekdayRejected("Snnday, 06-Nov-94 00:00:00 GMT", Now2020);
  }

  /** The fields of `Sunday, 31-Nov-94 00:00:00 GMT`. */
  lemma Rfc850ThirtyFirstNovemberText()
    ensures Rfc850Layout("Sunday", "31", "Nov", "94", "00", "00", "00")
      == "Sunday, 31-Nov-94 00:00:00 GMT"
  {
  }

  lemma Rfc850ThirtyFirstNovemberParts()
    ensures |"Sunday"| >= 1 && AllWordChars("Sunday") && IsDigits2("31") && IsWord3("Nov")
      && IsDigits2("94") && IsDigits2("00") && Number2("31", 0) == 31 && Number2("94", 0) == 94
      && Number2("00", 0) == 0
  {
  }

  lemma Rfc850ThirtyFirstNovemberMatches()
    ensures MatchLayout("Sunday, 31-Nov-94 00:00:00 GMT")
      == Some(Captures(Rfc850Date, "Sunday", 31, "Nov", 94, 0, 0, 0))
  {
    Rfc850ThirtyFirstNovemberText();
    Rfc850ThirtyFirstNovemberParts();
    ReadsRfc850("Sunday", "31", "Nov", "94", "00", "00", "00");
  }

  lemma Rfc850ThirtyFirstNovemberResolved()
    ensures Normalize(Captures(Rfc850Date, "Sunday", 31, "Nov", 94, 0, 0, 0), Now2020)
      == Some(DateTime(1994, 11, 31, 0, 0, 0))
  {
    assert ResolveCentury(94, 11, 31, 0, 0, 0, Now2020) == 1994;
  }

  /** November has 30 days. */
  lemma Rfc850ThirtyFirstNovember()
    ensures HttpdateToUnixtime(Some("Sunday, 31-Nov-94 00:00:00 GMT"), Now2020).None?
  {
    var cap := Captures(Rfc850Date, "Sunday", 31, "Nov", 94, 0, 0, 0);
    var c := DateTime(1994, 11, 31, 0, 0, 0);
    Rfc850ThirtyFirstNovemberMatches();
    Rfc850ThirtyFirstNovemberResolved();
    OutOfRangeRejected("Sunday, 31-Nov-94 00:00:00 GMT", Now2020);
  }

  /** The fields of `Sunday, 06-Nvv-94 00:00:00 GMT`. */
  lemma Rfc850UnknownMonthText()
    ensures Rfc850Layout("Sunday", "06", "Nvv", "94", "00", "00", "00")
      == "Sunday, 06-Nvv-94 00:00:00 GMT"
  {
  }

  lemma Rfc850UnknownMonthParts()
    ensures |"Sunday"| >= 1 && AllWordChars("Sunday") && IsDigits2("06") && IsWord3("Nvv")
      && IsDigits2("94") && IsDigits2("00") && Number2("06", 0) == 6 && Number2("94", 0) == 94
      && Number2("00", 0) == 0
  {
  }

  lemma Rfc850UnknownMonthMatches()
    ensures MatchLayout("Sunday, 06-Nvv-94 00:00:00 GMT")
      == Some(Captures(Rfc850Date, "Sunday", 6, "Nvv", 94, 0, 0, 0))
  {
    Rfc850UnknownMonthText();
    Rfc850UnknownMonthParts();
    ReadsRfc850("Sunday", "06", "Nvv", "94", "00", "00", "00");
  }

  /** `Nvv` is no month, whatever the clock says. */
  lemma Rfc850UnknownMonth(now: Instant)
    ensures HttpdateToUnixtime(Some("Sunday, 06-Nvv-94 00:00:00 GMT"), now).None?
  {
    Rfc850UnknownMonthMatches();
    UnknownMonthRejected("Sunday, 06-Nvv-94 00:00:00 GMT", now);
  }

  /** The fields of `Sunday, 06-Nov-94 25:00:00 GMT`. */
  lemma Rfc850Hour25Text()
    ensures Rfc850Layout("Sunday", "06", "Nov", "94", "25", "00", "00")
      == "Sunday, 06-Nov-94 25:00:00 GMT"
  {
  }

  lemma Rfc850Hour25Parts()
    ensures |"Sunday"| >= 1 && AllWordChars("Sunday") && IsDigits2("06") && IsWord3("Nov")
      && IsDigits2("94") && IsDigits2("25") && IsDigits2("00") && Number2("06", 0) == 6
      && Number2("94", 0) == 94 && Number2("25", 0) == 25 && Number2("00", 0) == 0
  {
  }

  lemma Rfc850Hour25Matches()
    ensures MatchLayout("Sunday, 06-Nov-94 25:00:00 GMT")
      == Some(Captures(Rfc850Date, "Sunday", 6, "Nov", 94, 25, 0, 0))
  {
    Rfc850Hour25Text();
    Rfc850Hour25Parts();
    ReadsRfc850("Sunday", "06", "Nov", "94", "25", "00", "00");
  }

  lemma Rfc850Hour25Resolved()
    ensures Normalize(Captures(Rfc850Date, "Sunday", 6, "Nov", 94, 25, 0, 0), Now2020)
      == Some(DateTime(1994, 11, 6, 25, 0, 0))
  {
    assert ResolveCentury(94, 11, 6, 25, 0, 0, Now2020) == 1994;
  }

  /** Hour 25 does not exist. */
  lemma Rfc850Hour25()
    ensures HttpdateToUnixtime(Some("Sunday, 06-Nov-94 25:00:00 GMT"), Now2020).None?
  {
    var cap := Captures(Rfc850Date, "Sunday", 6, "Nov", 94, 25, 0, 0);
    var c := DateTime(1994, 11, 6, 25, 0, 0);
    Rfc850Hour25Matches();
    Rfc850Hour25Resolved();
    OutOfRangeRejected("Sunday, 06-Nov-94 25:00:00 GMT", Now2020);
  }

  /** The fields of `Sunday, 06-Nov-94 00:61:00 GMT`. */
  lemma Rfc850Minute61Text()
    ensures Rfc850Layout("Sunday", "06", "Nov", "94", "00", "61", "00")
      == "Sunday, 06-Nov-94 00:61:00 GMT"
  {
  }

  lemma Rfc850Minute61Parts()
    ensures |"Sunday"| >= 1 && AllWordChars("Sunday") && IsDigits2("06") && IsWord3("Nov")
      && IsDigits2("94") && IsDigits2("00") && IsDigits2("61") && Number2("06", 0) == 6
      && Number2("94", 0) == 94 && Number2("00", 0) == 0 && Number2("61", 0) == 61
  {
  }

  lemma Rfc850Minute61Matches()
    ensures MatchLayout("Sunday, 06-Nov-94 00:61:00 GMT")
      == Some(Captures(Rfc850Date, "Sunday", 6, "Nov", 94, 0, 61, 0))
  {
    Rfc850Minute61Text();
    Rfc850Minute61Parts();
    ReadsRfc850("Sunday", "06", "Nov", "94", "00", "61", "00");
  }

  lemma Rfc850Minute61Resolved()
    ensures Normalize(Captures(Rfc850Date, "Sunday", 6, "Nov", 94, 0, 61, 0), Now2020)
      == Some(DateTime(1994, 11, 6, 0, 61, 0))
  {
    assert ResolveCentury(94, 11, 6, 0, 61, 0, Now2020) == 1994;
  }

  /** Minute 61 does not exist. */
  lemma Rfc850Minute61()
    ensures HttpdateToUnixtime(Some("Sunday, 06-Nov-94 00:61:00 GMT"), Now2020).None?
  {
    var cap := Captures(Rfc850Date, "Sunday", 6, "Nov", 94, 0, 61, 0);
    var c := DateTime(1994, 11, 6, 0, 61, 0);
    Rfc850Minute61Matches();
    Rfc850Minute61Resolved();
    OutOfRangeRejected("Sunday, 06-Nov-94 00:61:00 GMT", Now2020);
  }

  /** The fields of `Sunday, 06-Nov-94 00:00:61 GMT`. */
  lemma Rfc850Second61Text()
    ensures Rfc850Layout("Sunday", "06", "Nov", "94", "00", "00", "61")
      == "Sunday, 06-Nov-94 00:00:61 GMT"
  {
  }

  lemma Rfc850Second61Parts()
    ensures |"Sunday"| >= 1 && AllWordChars("Sunday") && IsDigits2("06") && IsWord3("Nov")
      && IsDigits2("94") && IsDigits2("00") && IsDigits2("61") && Number2("06", 0) == 6
      && Number2("94", 0) == 94 && Number2("00", 0) == 0 && Number2("61", 0) == 61
  {
  }

  lemma Rfc850Second61Matches()
    ensures MatchLayout("Sunday, 06-Nov-94 00:00:61 GMT")
      == Some(Captures(Rfc850Date, "Sunday", 6, "Nov", 94, 0, 0, 61))
  {
    Rfc850Second61Text();
    Rfc850Second61Parts();
    ReadsRfc850("Sunday", "06", "Nov", "94", "00", "00", "61");
  }

  lemma Rfc850Second61Resolved()
    ensures Normalize(Captures(Rfc850Date, "Sunday", 6, "Nov", 94, 0, 0, 61), Now2020)
      == Some(DateTime(1994, 11, 6, 0, 0, 61))
  {
    assert ResolveCentury(94, 11, 6, 0, 0, 61, Now2020) == 1994;
  }

  /** Second 61 is rejected. */
  lemma Rfc850Second61()
    ensures HttpdateToUnixtime(Some("Sunday, 06-Nov-94 00:00:61 GMT"), Now2020).None?
  {
    var cap := Captures(Rfc850Date, "Sunday", 6, "Nov", 94, 0, 0, 61);
    var c := DateTime(1994, 11, 6, 0, 0, 61);
    Rfc850Second61Matches();
    Rfc850Second61Resolved();
    OutOfRangeRejected("Sunday, 06-Nov-94 00:00:61 GMT", Now2020);
  }

  /** The fields of `Monday, 29-Feb-21 00:00:00 GMT`. */
  lemma Rfc850NotALeapYearText()
    ensures Rfc850Layout("Monday", "29", "Feb", "21", "00", "00", "00")
      == "Monday, 29-Feb-21 00:00:00 GMT"
  {
  }

  lemma Rfc850NotALeapYearParts()
    ensures |"Monday"| >= 1 && AllWordChars("Monday") && IsDigits2("29") && IsWord3("Feb")
      && IsDigits2("21") && IsDigits2("00") && Number2("29", 0) == 29 && Number2("21", 0) == 21
      && Number2("00", 0) == 0
  {
  }

  lemma Rfc850NotALeapYearMatches()
    ensures MatchLayout("Monday, 29-Feb-21 00:00:00 GMT")
      == Some(Captures(Rfc850Date, "Monday", 29, "Feb", 21, 0, 0, 0))
  {
    Rfc850NotALeapYearText();
    Rfc850NotALeapYearParts();
    ReadsRfc850("Monday", "29", "Feb", "21", "00", "00", "00");
  }

  lemma Rfc850NotALeapYearResolved()
    ensures Normalize(Captures(Rfc850Date, "Monday", 29, "Feb", 21, 0, 0, 0), Now2020)
      == Some(DateTime(2021, 2, 29, 0, 0, 0))
  {
    assert ResolveCentury(21, 2, 29, 0, 0, 0, Now2020) == 2021;
  }

  /** With the clock at 2020, `21` is 2021, not a leap year. */
  lemma Rfc850NotALeapYear()
    ensures HttpdateToUnixtime(Some("Monday, 29-Feb-21 00:00:00 GMT"), Now2020).None?
  {
    var cap := Captures(Rfc850Date, "Monday", 29, "Feb", 21, 0, 0, 0);
    var c := DateTime(2021, 2, 29, 0, 0, 0);
    Rfc850NotALeapYearMatches();
    Rfc850NotALeapYearResolved();
    OutOfRangeRejected("Monday, 29-Feb-21 00:00:00 GMT", Now2020);
  }

  /** The fields of `Thursday, 31-Dec-15 23:59:60 GMT`. */
  lemma Rfc850UnofficialLeapSecondText()
    ensures Rfc850Layout("Thursday", "31", "Dec", "15", "23", "59", "60")
      == "Thursday, 31-Dec-15 23:59:60 GMT"
  {
  }

  lemma Rfc850UnofficialLeapSecondParts()
    ensures |"Thursday"| >= 1 && AllWordChars("Thursday") && IsDigits2("31") && IsWord3("Dec")
      && IsDigits2("15") && IsDigits2("23") && IsDigits2("59") && IsDigits2("60")
      && Number2("31", 0) == 31 && Number2("15", 0) == 15 && Number2("23", 0) == 23
      && Number2("59", 0) == 59 && Number2("60", 0) == 60
  {
  }

  lemma Rfc850UnofficialLeapSecondMatches()
    ensures MatchLayout("Thursday, 31-Dec-15 23:59:60 GMT")
      == Some(Captures(Rfc850Date, "Thursday", 31, "Dec", 15, 23, 59, 60))
  {
    Rfc850UnofficialLeapSecondText();
    Rfc850UnofficialLeapSecondParts();
    ReadsRfc850("Thursday", "31", "Dec", "15", "23", "59", "60");
  }

  lemma Rfc850UnofficialLeapSecondResolved()
    ensures Normalize(Captures(Rfc850Date, "Thursday", 31, "Dec", 15, 23, 59, 60), Now2020)
      == Some(DateTime(2015, 12, 31, 23, 59, 60))
  {
    assert ResolveCentury(15, 12, 31, 23, 59, 60, Now2020) == 2015;
  }

  /** No leap second was inserted at the end of 2015. */
  lemma Rfc850UnofficialLeapSecond()
    ensures HttpdateToUnixtime(Some("Thursday, 31-Dec-15 23:59:60 GMT"), Now2020).None?
  {
    var cap := Captures(Rfc850Date, "Thursday", 31, "Dec", 15, 23, 59, 60);
    var c := DateTime(2015, 12, 31, 23, 59, 60);
    Rfc850UnofficialLeapSecondMatches();
    Thursday31Dec2015();
    Rfc850UnofficialLeapSecondResolved();
    NotInLeapSeconds();
    UnofficialLeapSecondRejected("Thursday, 31-Dec-15 23:59:60 GMT", Now2020);
  }

  /** Without the weekday none of the three layouts matches. */
  lemma Rfc850MissingWeekday(now: Instant)
    ensures HttpdateToUnixtime(Some("06-Nov-94 00:00:00 GMT"), now).None?
  {
    var s := "06-Nov-94 00:00:00 GMT";
    assert |s| == 22;
    assert !IsImfFixdateShape(s) && !IsRfc850Shape(s) && !IsAsctimeShape(s);
    MatchLayoutCascade(s);
  }

  /** A year with a sign is not `\d{2}`. */
  lemma Rfc850NegativeYear(now: Instant)
    ensures HttpdateToUnixtime(Some("Sunday, 06-Nov--4 00:00:00 GMT"), now).None?
  {
    var s := "Sunday, 06-Nov--4 00:00:00 GMT";
    assert |s| == 30 && s[15] == '-';
    assert !IsImfFixdateShape(s) && !IsRfc850Shape(s) && !IsAsctimeShape(s);
    MatchLayoutCascade(s);
  }

  /** Only `GMT` is accepted as the zone. */
  lemma Rfc850ZoneNotGmt(now: Instant)
    ensures HttpdateToUnixtime(Some("Sunday, 06-Nov-94 00:00:00 BST"), now).None?
  {
    var s := "Sunday, 06-Nov-94 00:00:00 BST";
    assert |s| == 30 && s[27] == 'B';
    assert !IsImfFixdateShape(s) && !IsRfc850Shape(s) && !IsAsctimeShape(s);
    MatchLayoutCascade(s);
  }

  /** Without the zone none of the three layouts matches. */
  lemma Rfc850MissingZone(now: Instant)
    ensures HttpdateToUnixtime(Some("Sunday, 06-Nov-94 00:00:00"), now).None?
  {
    var s := "Sunday, 06-Nov-94 00:00:00";
    assert |s| == 26 && s[2] == 'n';
    assert !IsImfFixdateShape(s) && !IsRfc850Shape(s) && !IsAsctimeShape(s);
    MatchLayoutCascade(s);
  }

  // ---------------------------------------------------------------------------
  // asctime-date: the remaining tests

  /** The fields of `Fri Sep  1 00:00:00 2000`. */
  lemma AsctimeSep2000Text()
    ensures AsctimeLayout("Fri", "Sep", " 1", "00", "00", "00", "2000")
      == "Fri Sep  1 00:00:00 2000"
  {
  }

  lemma AsctimeSep2000Parts()
    ensures IsWord3("Fri") && IsWord3("Sep") && " 1"[0] == ' ' && IsDigit(" 1"[1])
      && IsDigits2("00") && IsDigits4("2000") && DigitValue(" 1"[1]) == 1
      && Number2("00", 0) == 0 && Number4("2000", 0) == 2000
  {
  }

  lemma AsctimeSep2000Matches()
    ensures MatchLayout("Fri Sep  1 00:00:00 2000")
      == Some(Captures(AsctimeDate, "Fri", 1, "Sep", 2000, 0, 0, 0))
  {
    AsctimeSep2000Text();
    AsctimeSep2000Parts();
    ReadsAsctime("Fri", "Sep", " 1", "00", "00", "00", "2000");
  }

  lemma AsctimeSep2000Resolved(now: Instant)
    ensures Normalize(Captures(AsctimeDate, "Fri", 1, "Sep", 2000, 0, 0, 0), now)
      == Some(DateTime(2000, 9, 1, 0, 0, 0))
  {
  }

  /** `Fri Sep  1 00:00:00 2000` is 967766400. */
  lemma AsctimeSep2000(now: Instant)
    ensures HttpdateToUnixtime(Some("Fri Sep  1 00:00:00 2000"), now) == Some(967766400)
  {
    var cap := Captures(AsctimeDate, "Fri", 1, "Sep", 2000, 0, 0, 0);
    var c := DateTime(2000, 9, 1, 0, 0, 0);
    AsctimeSep2000Matches();
    Friday01Sep2000();
    AsctimeSep2000Resolved(now);
    AcceptedWhenChecksPass("Fri Sep  1 00:00:00 2000", now, cap, c);
  }

  /** The fields of `Sat Feb 29 00:00:00 2020`. */
  lemma AsctimeLeapDayText()
    ensures AsctimeLayout("Sat", "Feb", "29", "00", "00", "00", "2020")
      == "Sat Feb 29 00:00:00 2020"
  {
  }

  lemma AsctimeLeapDayParts()
    ensures IsWord3("Sat") && IsWord3("Feb") && IsDigits2("29") && IsDigits2("00")
      && IsDigits4("2020") && Number2("29", 0) == 29 && Number2("00", 0) == 0
      && Number4("2020", 0) == 2020
  {
  }

  lemma AsctimeLeapDayMatches()
    ensures MatchLayout("Sat Feb 29 00:00:00 2020")
      == Some(Captures(AsctimeDate, "Sat", 29, "Feb", 2020, 0, 0, 0))
  {
    AsctimeLeapDayText();
    AsctimeLeapDayParts();
    ReadsAsctimeTwoDigitDay("Sat", "Feb", "29", "00", "00", "00", "2020");
  }

  lemma AsctimeLeapDayResolved(now: Instant)
    ensures Normalize(Captures(AsctimeDate, "Sat", 29, "Feb", 2020, 0, 0, 0), now)
      == Some(DateTime(2020, 2, 29, 0, 0, 0))
  {
  }

  /** A two-digit asctime day is read as both digits. */
  lemma AsctimeLeapDay(now: Instant)
    ensures HttpdateToUnixtime(Some("Sat Feb 29 00:00:00 2020"), now) == Some(1582934400)
  {
    var cap := Captures(AsctimeDate, "Sat", 29, "Feb", 2020, 0, 0, 0);
    var c := DateTime(2020, 2, 29, 0, 0, 0);
    AsctimeLeapDayMatches();
    Saturday29Feb2020();
    AsctimeLeapDayResolved(now);
    AcceptedWhenChecksPass("Sat Feb 29 00:00:00 2020", now, cap, c);
  }

  /** The fields of `Sat Dec 31 23:59:60 2016`. */
  lemma AsctimeLeapSecondText()
    ensures AsctimeLayout("Sat", "Dec", "31", "23", "59", "60", "2016")
      == "Sat Dec 31 23:59:60 2016"
  {
  }

  lemma AsctimeLeapSecondParts()
    ensures IsWord3("Sat") && IsWord3("Dec") && IsDigits2("31") && IsDigits2("23")
      && IsDigits2("59") && IsDigits2("60") && IsDigits4("2016") && Number2("31", 0) == 31
      && Number2("23", 0) == 23 && Number2("59", 0) == 59 && Number2("60", 0) == 60
      && Number4("2016", 0) == 2016
  {
  }

  lemma AsctimeLeapSecondMatches()
    ensures MatchLayout("Sat Dec 31 23:59:60 2016")
      == Some(Captures(AsctimeDate, "Sat", 31, "Dec", 2016, 23, 59, 60))
  {
    AsctimeLeapSecondText();
    AsctimeLeapSecondParts();
    ReadsAsctimeTwoDigitDay("Sat", "Dec", "31", "23", "59", "60", "2016");
  }

  lemma AsctimeLeapSecondResolved(now: Instant)
    ensures Normalize(Captures(AsctimeDate, "Sat", 31, "Dec", 2016, 23, 59, 60), now)
      == Some(DateTime(2016, 12, 31, 23, 59, 60))
  {
  }

  /** The 2016 leap second in asctime-date. */
  lemma AsctimeLeapSecond(now: Instant)
    ensures HttpdateToUnixtime(Some("Sat Dec 31 23:59:60 2016"), now) == Some(1483228800)
  {
    var cap := Captures(AsctimeDate, "Sat", 31, "Dec", 2016, 23, 59, 60);
    var c := DateTime(2016, 12, 31, 23, 59, 60);
    AsctimeLeapSecondMatches();
    Saturday31Dec2016();
    AsctimeLeapSecondResolved(now);
    AcceptedWhenChecksPass("Sat Dec 31 23:59:60 2016", now, cap, c);
  }

  /** The fields of `Snn Nov  6 00:00:00 1994`. */
  lemma AsctimeWrongWeekdayText()
    ensures AsctimeLayout("Snn", "Nov", " 6", "00", "00", "00", "1994")
      == "Snn Nov  6 00:00:00 1994"
  {
  }

  lemma AsctimeWrongWeekdayParts()
    ensures IsWord3("Snn") && IsWord3("Nov") && " 6"[0] == ' ' && IsDigit(" 6"[1])
      && IsDigits2("00") && IsDigits4("1994") && DigitValue(" 6"[1]) == 6
      && Number2("00", 0) == 0 && Number4("1994", 0) == 1994
  {
  }

  lemma AsctimeWrongWeekdayMatches()
    ensures MatchLayout("Snn Nov  6 00:00:00 1994")
      == Some(Captures(AsctimeDate, "Snn", 6, "Nov", 1994, 0, 0, 0))
  {
    AsctimeWrongWeekdayText();
    AsctimeWrongWeekdayParts();
    ReadsAsctime("Snn", "Nov", " 6", "00", "00", "00", "1994");
  }

  lemma AsctimeWrongWeekdayResolved(now: Instant)
    ensures Normalize(Captures(AsctimeDate, "Snn", 6, "Nov", 1994, 0, 0, 0), now)
      == Some(DateTime(1994, 11, 6, 0, 0, 0))
  {
  }

  /** `Snn` is not the weekday of 1994-11-06. */
  lemma AsctimeWrongWeekday(now: Instant)
    ensures HttpdateToUnixtime(Some("Snn Nov  6 00:00:00 1994"), now).None?
  {
    var cap := Captures(AsctimeDate, "Snn", 6, "Nov", 1994, 0, 0, 0);
    var c := DateTime(1994, 11, 6, 0, 0, 0);
    AsctimeWrongWeekdayMatches();
    Sunday06Nov1994();
    AsctimeWrongWeekdayResolved(now);
    WrongWeekdayRejected("Snn Nov  6 00:00:00 1994", now);
  }

  /** The fields of `Sun Nvv  6 00:00:00 1994`. */
  lemma AsctimeUnknownMonthText()
    ensures AsctimeLayout("Sun", "Nvv", " 6", "00", "00", "00", "1994")
      == "Sun Nvv  6 00:00:00 1994"
  {
  }

  lemma AsctimeUnknownMonthParts()
    ensures IsWord3("Sun") && IsWord3("Nvv") && " 6"[0] == ' ' && IsDigit(" 6"[1])
      && IsDigits2("00") && IsDigits4("1994") && DigitValue(" 6"[1]) == 6
      && Number2("00", 0) == 0 && Number4("1994", 0) == 1994
  {
  }

  lemma AsctimeUnknownMonthMatches()
    ensures MatchLayout("Sun Nvv  6 00:00:00 1994")
      == Some(Captures(AsctimeDate, "Sun", 6, "Nvv", 1994, 0, 0, 0))
  {
    AsctimeUnknownMonthText();
    AsctimeUnknownMonthParts();
    ReadsAsctime("Sun", "Nvv", " 6", "00", "00", "00", "1994");
  }

  /** `Nvv` is no month. */
  lemma AsctimeUnknownMonth(now: Instant)
    ensures HttpdateToUnixtime(Some("Sun Nvv  6 00:00:00 1994"), now).None?
  {
    AsctimeUnknownMonthMatches();
    UnknownMonthRejected("Sun Nvv  6 00:00:00 1994", now);
  }

  /** The fields of `Sun Nov 31 00:00:00 1994`. */
  lemma AsctimeThirtyFirstNovemberText()
    ensures AsctimeLayout("Sun", "Nov", "31", "00", "00", "00", "1994")
      == "Sun Nov 31 00:00:00 1994"
  {
  }

  lemma AsctimeThirtyFirstNovemberParts()
    ensures IsWord3("Sun") && IsWord3("Nov") && IsDigits2("31") && IsDigits2("00")
      && IsDigits4("1994") && Number2("31", 0) == 31 && Number2("00", 0) == 0
      && Number4("1994", 0) == 1994
  {
  }

  lemma AsctimeThirtyFirstNovemberMatches()
    ensures MatchLayout("Sun Nov 31 00:00:00 1994")
      == Some(Captures(AsctimeDate, "Sun", 31, "Nov", 1994, 0, 0, 0))
  {
    AsctimeThirtyFirstNovemberText();
    AsctimeThirtyFirstNovemberParts();
    ReadsAsctimeTwoDigitDay("Sun", "Nov", "31", "00", "00", "00", "1994");
  }

  lemma AsctimeThirtyFirstNovemberResolved(now: Instant)
    ensures Normalize(Captures(AsctimeDate, "Sun", 31, "Nov", 1994, 0, 0, 0), now)
      == Some(DateTime(1994, 11, 31, 0, 0, 0))
  {
  }

  /** November has 30 days. */
  lemma AsctimeThirtyFirstNovember(now: Instant)
    ensures HttpdateToUnixtime(Some("Sun Nov 31 00:00:00 1994"), now).None?
  {
    var cap := Captures(AsctimeDate, "Sun", 31, "Nov", 1994, 0, 0, 0);
    var c := DateTime(1994, 11, 31, 0, 0, 0);
    AsctimeThirtyFirstNovemberMatches();
    AsctimeThirtyFirstNovemberResolved(now);
    OutOfRangeRejected("Sun Nov 31 00:00:00 1994", now);
  }

  /** The fields of `Sun Nov  6 25:00:00 1994`. */
  lemma AsctimeHour25Text()
    ensures AsctimeLayout("Sun", "Nov", " 6", "25", "00", "00", "1994")
      == "Sun Nov  6 25:00:00 1994"
  {
  }

  lemma AsctimeHour25Parts()
    ensures IsWord3("Sun") && IsWord3("Nov") && " 6"[0] == ' ' && IsDigit(" 6"[1])
      && IsDigits2("25") && IsDigits2("00") && IsDigits4("1994") && DigitValue(" 6"[1]) == 6
      && Number2("25", 0) == 25 && Number2("00", 0) == 0 && Number4("1994", 0) == 1994
  {
  }

  lemma AsctimeHour25Matches()
    ensures MatchLayout("Sun Nov  6 25:00:00 1994")
      == Some(Captures(AsctimeDate, "Sun", 6, "Nov", 1994, 25, 0, 0))
  {
    AsctimeHour25Text();
    AsctimeHour25Parts();
    ReadsAsctime("Sun", "Nov", " 6", "25", "00", "00", "1994");
  }

  lemma AsctimeHour25Resolved(now: Instant)
    ensures Normalize(Captures(AsctimeDate, "Sun", 6, "Nov", 1994, 25, 0, 0), now)
      == Some(DateTime(1994, 11, 6, 25, 0, 0))
  {
  }

  /** Hour 25 does not exist. */
  lemma AsctimeHour25(now: Instant)
    ensures HttpdateToUnixtime(Some("Sun Nov  6 25:00:00 1994"), now).None?
  {
    var cap := Captures(AsctimeDate, "Sun", 6, "Nov", 1994, 25, 0, 0);
    var c := DateTime(1994, 11, 6, 25, 0, 0);
    AsctimeHour25Matches();
    AsctimeHour25Resolved(now);
    OutOfRangeRejected("Sun Nov  6 25:00:00 1994", now);
  }

  /** The fields of `Sun Nov  6 00:61:00 1994`. */
  lemma AsctimeMinute61Text()
    ensures AsctimeLayout("Sun", "Nov", " 6", "00", "61", "00", "1994")
      == "Sun Nov  6 00:61:00 1994"
  {
  }

  lemma AsctimeMinute61Parts()
    ensures IsWord3("Sun") && IsWord3("Nov") && " 6"[0] == ' ' && IsDigit(" 6"[1])
      && IsDigits2("00") && IsDigits2("61") && IsDigits4("1994") && DigitValue(" 6"[1]) == 6
      && Number2("00", 0) == 0 && Number2("61", 0) == 61 && Number4("1994", 0) == 1994
  {
  }

  lemma AsctimeMinute61Matches()
    ensures MatchLayout("Sun Nov  6 00:61:00 1994")
      == Some(Captures(AsctimeDate, "Sun", 6, "Nov", 1994, 0, 61, 0))
  {
    AsctimeMinute61Text();
    AsctimeMinute61Parts();
    ReadsAsctime("Sun", "Nov", " 6", "00", "61", "00", "1994");
  }

  lemma AsctimeMinute61Resolved(now: Instant)
    ensures Normalize(Captures(AsctimeDate, "Sun", 6, "Nov", 1994, 0, 61, 0), now)
      == Some(DateTime(1994, 11, 6, 0, 61, 0))
  {
  }

  /** Minute 61 does not exist. */
  lemma AsctimeMinute61(now: Instant)
    ensures HttpdateToUnixtime(Some("Sun Nov  6 00:61:00 1994"), now).None?
  {
    var cap := Captures(AsctimeDate, "Sun", 6, "Nov", 1994, 0, 61, 0);
    var c := DateTime(1994, 11, 6, 0, 61, 0);
    AsctimeMinute61Matches();
    AsctimeMinute61Resolved(now);
    OutOfRangeRejected("Sun Nov  6 00:61:00 1994", now);
  }

  /** The fields of `Sun Nov  6 00:00:61 1994`. */
  lemma AsctimeSecond61Text()
    ensures AsctimeLayout("Sun", "Nov", " 6", "00", "00", "61", "1994")
      == "Sun Nov  6 00:00:61 1994"
  {
  }

  lemma AsctimeSecond61Parts()
    ensures IsWord3("Sun") && IsWord3("Nov") && " 6"[0] == ' ' && IsDigit(" 6"[1])
      && IsDigits2("00") && IsDigits2("61") && IsDigits4("1994") && DigitValue(" 6"[1]) == 6
      && Number2("00", 0) == 0 && Number2("61", 0) == 61 && Number4("1994", 0) == 1994
  {
  }

  lemma AsctimeSecond61Matches()
    ensures MatchLayout("Sun Nov  6 00:00:61 1994")
      == Some(Captures(AsctimeDate, "Sun", 6, "Nov", 1994, 0, 0, 61))
  {
    AsctimeSecond61Text();
    AsctimeSecond61Parts();
    ReadsAsctime("Sun", "Nov", " 6", "00", "00", "61", "1994");
  }

  lemma AsctimeSecond61Resolved(now: Instant)
    ensures Normalize(Captures(AsctimeDate, "Sun", 6, "Nov", 1994, 0, 0, 61), now)
      == Some(DateTime(1994, 11, 6, 0, 0, 61))
  {
  }

  /** Second 61 is rejected. */
  lemma AsctimeSecond61(now: Instant)
    ensures HttpdateToUnixtime(Some("Sun Nov  6 00:00:61 1994"), now).None?
  {
    var cap := Captures(AsctimeDate, "Sun", 6, "Nov", 1994, 0, 0, 61);
    var c := DateTime(1994, 11, 6, 0, 0, 61);
    AsctimeSecond61Matches();
    AsctimeSecond61Resolved(now);
    OutOfRangeRejected("Sun Nov  6 00:00:61 1994", now);
  }

  /** The fields of `Sun Dec 31 23:59:59 1899`. */
  lemma AsctimeYear1899Text()
    ensures AsctimeLayout("Sun", "Dec", "31", "23", "59", "59", "1899")
      == "Sun Dec 31 23:59:59 1899"
  {
  }

  lemma AsctimeYear1899Parts()
    ensures IsWord3("Sun") && IsWord3("Dec") && IsDigits2("31") && IsDigits2("23")
      && IsDigits2("59") && IsDigits4("1899") && Number2("31", 0) == 31
      && Number2("23", 0) == 23 && Number2("59", 0) == 59 && Number4("1899", 0) == 1899
  {
  }

  lemma AsctimeYear1899Matches()
    ensures MatchLayout("Sun Dec 31 23:59:59 1899")
      == Some(Captures(AsctimeDate, "Sun", 31, "Dec", 1899, 23, 59, 59))
  {
    AsctimeYear1899Text();
    AsctimeYear1899Parts();
    ReadsAsctimeTwoDigitDay("Sun", "Dec", "31", "23", "59", "59", "1899");
  }

  lemma AsctimeYear1899Resolved(now: Instant)
    ensures Normalize(Captures(AsctimeDate, "Sun", 31, "Dec", 1899, 23, 59, 59), now)
      == Some(DateTime(1899, 12, 31, 23, 59, 59))
  {
  }

  /** A year before 1900 is rejected. */
  lemma AsctimeYear1899(now: Instant)
    ensures HttpdateToUnixtime(Some("Sun Dec 31 23:59:59 1899"), now).None?
  {
    var cap := Captures(AsctimeDate, "Sun", 31, "Dec", 1899, 23, 59, 59);
    var c := DateTime(1899, 12, 31, 23, 59, 59);
    AsctimeYear1899Matches();
    AsctimeYear1899Resolved(now);
    OutOfRangeRejected("Sun Dec 31 23:59:59 1899", now);
  }

  /** The fields of `Mon Feb 29 00:00:00 2021`. */
  lemma AsctimeNotALeapYearText()
    ensures AsctimeLayout("Mon", "Feb", "29", "00", "00", "00", "2021")
      == "Mon Feb 29 00:00:00 2021"
  {
  }

  lemma AsctimeNotALeapYearParts()
    ensures IsWord3("Mon") && IsWord3("Feb") && IsDigits2("29") && IsDigits2("00")
      && IsDigits4("2021") && Number2("29", 0) == 29 && Number2("00", 0) == 0
      && Number4("2021", 0) == 2021
  {
  }

  lemma AsctimeNotALeapYearMatches()
    ensures MatchLayout("Mon Feb 29 00:00:00 2021")
      == Some(Captures(AsctimeDate, "Mon", 29, "Feb", 2021, 0, 0, 0))
  {
    AsctimeNotALeapYearText();
    AsctimeNotALeapYearParts();
    ReadsAsctimeTwoDigitDay("Mon", "Feb", "29", "00", "00", "00", "2021");
  }

  lemma AsctimeNotALeapYearResolved(now: Instant)
    ensures Normalize(Captures(AsctimeDate, "Mon", 29, "Feb", 2021, 0, 0, 0), now)
      == Some(DateTime(2021, 2, 29, 0, 0, 0))
  {
  }

  /** 2021 is not a leap year. */
  lemma AsctimeNotALeapYear(now: Instant)
    ensures HttpdateToUnixtime(Some("Mon Feb 29 00:00:00 2021"), now).None?
  {
    var cap := Captures(AsctimeDate, "Mon", 29, "Feb", 2021, 0, 0, 0);
    var c := DateTime(2021, 2, 29, 0, 0, 0);
    AsctimeNotALeapYearMatches();
    AsctimeNotALeapYearResolved(now);
    OutOfRangeRejected("Mon Feb 29 00:00:00 2021", now);
  }

  /** The fields of `Thu Dec 31 23:59:60 2015`. */
  lemma AsctimeUnofficialLeapSecondText()
    ensures AsctimeLayout("Thu", "Dec", "31", "23", "59", "60", "2015")
      == "Thu Dec 31 23:59:60 2015"
  {
  }

  lemma AsctimeUnofficialLeapSecondParts()
    ensures IsWord3("Thu") && IsWord3("Dec") && IsDigits2("31") && IsDigits2("23")
      && IsDigits2("59") && IsDigits2("60") && IsDigits4("2015") && Number2("31", 0) == 31
      && Number2("23", 0) == 23 && Number2("59", 0) == 59 && Number2("60", 0) == 60
      && Number4("2015", 0) == 2015
  {
  }

  lemma AsctimeUnofficialLeapSecondMatches()
    ensures MatchLayout("Thu Dec 31 23:59:60 2015")
      == Some(Captures(AsctimeDate, "Thu", 31, "Dec", 2015, 23, 59, 60))
  {
    AsctimeUnofficialLeapSecondText();
    AsctimeUnofficialLeapSecondParts();
    ReadsAsctimeTwoDigitDay("Thu", "Dec", "31", "23", "59", "60", "2015");
  }

  lemma AsctimeUnofficialLeapSecondResolved(now: Instant)
    ensures Normalize(Captures(AsctimeDate, "Thu", 31, "Dec", 2015, 23, 59, 60), now)
      == Some(DateTime(2015, 12, 31, 23, 59, 60))
  {
  }

  /** No leap second was inserted at the end of 2015. */
  lemma AsctimeUnofficialLeapSecond(now: Instant)
    ensures HttpdateToUnixtime(Some("Thu Dec 31 23:59:60 2015"), now).None?
  {
    var cap := Captures(AsctimeDate, "Thu", 31, "Dec", 2015, 23, 59, 60);
    var c := DateTime(2015, 12, 31, 23, 59, 60);
    AsctimeUnofficialLeapSecondMatches();
    Thursday31Dec2015();
    AsctimeUnofficialLeapSecondResolved(now);
    NotInLeapSeconds();
    UnofficialLeapSecondRejected("Thu Dec 31 23:59:60 2015", now);
  }

  /** Without the weekday none of the three layouts matches. */
  lemma AsctimeMissingWeekday(now: Instant)
    ensures HttpdateToUnixtime(Some("Nov  6 00:00:00 1994"), now).None?
  {
    var s := "Nov  6 00:00:00 1994";
    assert |s| == 20;
    assert !IsImfFixdateShape(s) && !IsRfc850Shape(s) && !IsAsctimeShape(s);
    MatchLayoutCascade(s);
  }

  /** asctime-date carries no zone. */
  lemma AsctimeWithZone(now: Instant)
    ensures HttpdateToUnixtime(Some("Sun Nov  6 00:00:00 1994 GMT"), now).None?
  {
    var s := "Sun Nov  6 00:00:00 1994 GMT";
    assert |s| == 28 && s[..4][3] == ' ';
    assert !IsImfFixdateShape(s) && !IsRfc850Shape(s) && !IsAsctimeShape(s);
    MatchLayoutCascade(s);
  }

  /** A year with a sign is not `\d{4}`. */
  lemma AsctimeNegativeYear(now: Instant)
    ensures HttpdateToUnixtime(Some("Sun Nov  6 00:00:61 -994"), now).None?
  {
    var s := "Sun Nov  6 00:00:61 -994";
    assert |s| == 24 && s[20] == '-';
    assert !IsImfFixdateShape(s) && !IsRfc850Shape(s) && !IsAsctimeShape(s);
    MatchLayoutCascade(s);
  }

  /** A five-digit year matches no layout. */
  lemma AsctimeYear10000(now: Instant)
    ensures HttpdateToUnixtime(Some("Sun Dec 31 23:59:59 10000"), now).None?
  {
    var s := "Sun Dec 31 23:59:59 10000";
    assert |s| == 25 && s[1] == 'u';
    assert !IsImfFixdateShape(s) && !IsRfc850Shape(s) && !IsAsctimeShape(s);
    MatchLayoutCascade(s);
  }

  // ---------------------------------------------------------------------------
  // Formatting and validity

  /** A date-time the parser accepts without a leap second formats as `s`
      when its IMF-fixdate text is `s`. */
  lemma FormatsAs(c: DateTime, t: int, s: string)
    requires IsValid(c) && MinYear <= c.year <= MaxYear && c.second <= 59
    requires Timestamp(c) == t && ImfFixdateText(c) == s
    ensures UnixtimeToHttpdate(Some(t)) == Some(s)
  {
    FormatOfDateTime(c);
  }

  lemma SundayPads()
    ensures Weekdays[6].1 == "Sun" && Pad2(6) == "06" && MonthAbbrs[10] == "Nov" && Pad4(1994) == "1994"
      && Pad2(8) == "08" && Pad2(49) == "49" && Pad2(37) == "37"
  {
  }

  lemma SundayText()
    ensures ImfFixdateText(DateTime(1994, 11, 6, 8, 49, 37)) == "Sun, 06 Nov 1994 08:49:37 GMT"
  {
    Sunday06Nov1994();
    assert ImfFixdateText(DateTime(1994, 11, 6, 8, 49, 37))
      == ImfFixdateLayout(Weekdays[6].1, Pad2(6), MonthAbbrs[10], Pad4(1994), Pad2(8), Pad2(49), Pad2(37));
    SundayPads();
    ImfFixdateSundayText();
  }

  /** 784111777 formats as the first example of RFC 9110. */
  lemma FormatSunday()
    ensures UnixtimeToHttpdate(Some(784111777)) == Some("Sun, 06 Nov 1994 08:49:37 GMT")
  {
    Sunday06Nov1994();
    SundayText();
    FormatsAs(DateTime(1994, 11, 6, 8, 49, 37), 784111777, "Sun, 06 Nov 1994 08:49:37 GMT");
  }

  lemma EpochPads()
    ensures Weekdays[3].1 == "Thu" && Pad2(1) == "01" && MonthAbbrs[0] == "Jan" && Pad4(1970) == "1970"
      && Pad2(0) == "00"
  {
  }

  lemma EpochFields()
    ensures ImfFixdateLayout("Thu", "01", "Jan", "1970", "00", "00", "00")
      == "Thu, 01 Jan 1970 00:00:00 GMT"
  {
  }

  lemma EpochText()
    ensures ImfFixdateText(DateTime(1970, 1, 1, 0, 0, 0)) == "Thu, 01 Jan 1970 00:00:00 GMT"
  {
    Thursday01Jan1970();
    assert ImfFixdateText(DateTime(1970, 1, 1, 0, 0, 0))
      == ImfFixdateLayout(Weekdays[3].1, Pad2(1), MonthAbbrs[0], Pad4(1970), Pad2(0), Pad2(0), Pad2(0));
    EpochPads();
    EpochFields();
  }

  lemma EpochTimestamp()
    ensures Timestamp(DateTime(1970, 1, 1, 0, 0, 0)) == UnixEpoch
  {
  }

  /** The epoch is a Thursday. */
  lemma FormatEpoch()
    ensures UnixtimeToHttpdate(Some(UnixEpoch)) == Some("Thu, 01 Jan 1970 00:00:00 GMT")
  {
    Thursday01Jan1970();
    EpochTimestamp();
    EpochText();
    FormatsAs(DateTime(1970, 1, 1, 0, 0, 0), UnixEpoch, "Thu, 01 Jan 1970 00:00:00 GMT");
  }

  lemma FirstSecondPads()
    ensures Weekdays[0].1 == "Mon" && Pad2(1) == "01" && MonthAbbrs[0] == "Jan" && Pad4(1900) == "1900"
      && Pad2(0) == "00"
  {
  }

  lemma FirstSecondFields()
    ensures ImfFixdateLayout("Mon", "01", "Jan", "1900", "00", "00", "00")
      == "Mon, 01 Jan 1900 00:00:00 GMT"
  {
  }

  lemma FirstSecondText()
    ensures ImfFixdateText(DateTime(1900, 1, 1, 0, 0, 0)) == "Mon, 01 Jan 1900 00:00:00 GMT"
  {
    Monday01Jan1900();
    assert ImfFixdateText(DateTime(1900, 1, 1, 0, 0, 0))
      == ImfFixdateLayout(Weekdays[0].1, Pad2(1), MonthAbbrs[0], Pad4(1900), Pad2(0), Pad2(0), Pad2(0));
    FirstSecondPads();
    FirstSecondFields();
  }

  lemma LastSecondPads()
    ensures Weekdays[4].1 == "Fri" && Pad2(31) == "31" && MonthAbbrs[11] == "Dec" && Pad4(9999) == "9999"
      && Pad2(23) == "23" && Pad2(59) == "59" && Pad2(59) == "59"
  {
  }

  lemma LastSecondFields()
    ensures ImfFixdateLayout("Fri", "31", "Dec", "9999", "23", "59", "59")
      == "Fri, 31 Dec 9999 23:59:59 GMT"
  {
  }

  lemma LastSecondText()
    ensures ImfFixdateText(DateTime(9999, 12, 31, 23, 59, 59)) == "Fri, 31 Dec 9999 23:59:59 GMT"
  {
    Friday31Dec9999();
    assert ImfFixdateText(DateTime(9999, 12, 31, 23, 59, 59))
      == ImfFixdateLayout(Weekdays[4].1, Pad2(31), MonthAbbrs[11], Pad4(9999), Pad2(23), Pad2(59), Pad2(59));
    LastSecondPads();
    LastSecondFields();
  }

  /** The lower bound formats as the first second of 1900. */
  lemma FormatLowerBound()
    ensures UnixtimeToHttpdate(Some(MinUnixtime)) == Some("Mon, 01 Jan 1900 00:00:00 GMT")
  {
    Monday01Jan1900();
    FirstSecondText();
    FormatsAs(DateTime(1900, 1, 1, 0, 0, 0), MinUnixtime, "Mon, 01 Jan 1900 00:00:00 GMT");
  }

  /** The upper bound formats as the last second of 9999. */
  lemma FormatUpperBound()
    ensures UnixtimeToHttpdate(Some(MaxUnixtime)) == Some("Fri, 31 Dec 9999 23:59:59 GMT")
  {
    Friday31Dec9999();
    LastSecondText();
    FormatsAs(DateTime(9999, 12, 31, 23, 59, 59), MaxUnixtime, "Fri, 31 Dec 9999 23:59:59 GMT");
  }

  lemma NewYear2017Pads()
    ensures Weekdays[6].1 == "Sun" && Pad2(1) == "01" && MonthAbbrs[0] == "Jan" && Pad4(2017) == "2017"
      && Pad2(0) == "00"
  {
  }

  lemma NewYear2017Fields()
    ensures ImfFixdateLayout("Sun", "01", "Jan", "2017", "00", "00", "00")
      == "Sun, 01 Jan 2017 00:00:00 GMT"
  {
  }

  lemma NewYear2017Text()
    ensures ImfFixdateText(DateTime(2017, 1, 1, 0, 0, 0)) == "Sun, 01 Jan 2017 00:00:00 GMT"
  {
    Sunday01Jan2017();
    assert ImfFixdateText(DateTime(2017, 1, 1, 0, 0, 0))
      == ImfFixdateLayout(Weekdays[6].1, Pad2(1), MonthAbbrs[0], Pad4(2017), Pad2(0), Pad2(0), Pad2(0));
    NewYear2017Pads();
    NewYear2017Fields();
  }

  /** The timestamp of the 2016 leap second formats as the midnight it shares. */
  lemma FormatNewYear2017()
    ensures UnixtimeToHttpdate(Some(1483228800)) == Some("Sun, 01 Jan 2017 00:00:00 GMT")
  {
    Sunday01Jan2017();
    NewYear2017Text();
    FormatsAs(DateTime(2017, 1, 1, 0, 0, 0), 1483228800, "Sun, 01 Jan 2017 00:00:00 GMT");
  }

  /** One second outside either bound gives `None`. */
  lemma FormatOutOfRange()
    ensures UnixtimeToHttpdate(Some(-2208988801)).None?
    ensures UnixtimeToHttpdate(Some(253402300800)).None?
  {
  }

  /** `None` and the empty text are not HTTP dates. */
  lemma NotHttpdates(now: Instant)
    ensures !IsValidHttpdate(None, now)
    ensures !IsValidHttpdate(Some(""), now)
  {
    MatchLayoutCascade("");
  }

  /** The three examples of RFC 9110 are valid HTTP dates; the rfc850 one with the clock at 2020. */
  lemma ValidHttpdates(now: Instant)
    ensures IsValidHttpdate(Some("Sun, 06 Nov 1994 08:49:37 GMT"), now)
    ensures IsValidHttpdate(Some("Sunday, 06-Nov-94 08:49:37 GMT"), Now2020)
    ensures IsValidHttpdate(Some("Sun Nov  6 08:49:37 1994"), now)
  {
    ImfFixdateSunday(now);
    Rfc850Sunday();
    AsctimeSunday(now);
  }

  /** The fields of `Snn, 06 Nov 1994 08:49:37 GMT`. */
  lemma InvalidImfFixdateText()
    ensures ImfFixdateLayout("Snn", "06", "Nov", "1994", "08", "49", "37")
      == "Snn, 06 Nov 1994 08:49:37 GMT"
  {
  }

  lemma InvalidImfFixdateParts()
    ensures IsWord3("Snn") && IsDigits2("06") && IsWord3("Nov") && IsDigits4("1994")
      && IsDigits2("08") && IsDigits2("49") && IsDigits2("37") && Number2("06", 0) == 6
      && Number4("1994", 0) == 1994 && Number2("08", 0) == 8 && Number2("49", 0) == 49
      && Number2("37", 0) == 37
  {
  }

  lemma InvalidImfFixdateMatches()
    ensures MatchLayout("Snn, 06 Nov 1994 08:49:37 GMT")
      == Some(Captures(ImfFixdate, "Snn", 6, "Nov", 1994, 8, 49, 37))
  {
    InvalidImfFixdateText();
    InvalidImfFixdateParts();
    ReadsImfFixdate("Snn", "06", "Nov", "1994", "08", "49", "37");
  }

  lemma InvalidImfFixdateResolved(now: Instant)
    ensures Normalize(Captures(ImfFixdate, "Snn", 6, "Nov", 1994, 8, 49, 37), now)
      == Some(DateTime(1994, 11, 6, 8, 49, 37))
  {
  }

  /** `Snn, 06 Nov 1994 08:49:37 GMT` has a wrong weekday. */
  lemma InvalidImfFixdate(now: Instant)
    ensures HttpdateToUnixtime(Some("Snn, 06 Nov 1994 08:49:37 GMT"), now).None?
  {
    var cap := Captures(ImfFixdate, "Snn", 6, "Nov", 1994, 8, 49, 37);
    var c := DateTime(1994, 11, 6, 8, 49, 37);
    InvalidImfFixdateMatches();
    Sunday06Nov1994();
    InvalidImfFixdateResolved(now);
    WrongWeekdayRejected("Snn, 06 Nov 1994 08:49:37 GMT", now);
  }

  /** The fields of `Snnday, 06-Nov-94 08:49:37 GMT`. */
  lemma InvalidRfc850Text()
    ensures Rfc850Layout("Snnday", "06", "Nov", "94", "08", "49", "37")
      == "Snnday, 06-Nov-94 08:49:37 GMT"
  {
  }

  lemma InvalidRfc850Parts()
    ensures |"Snnday"| >= 1 && AllWordChars("Snnday") && IsDigits2("06") && IsWord3("Nov")
      && IsDigits2("94") && IsDigits2("08") && IsDigits2("49") && IsDigits2("37")
      && Number2("06", 0) == 6 && Number2("94", 0) == 94 && Number2("08", 0) == 8
      && Number2("49", 0) == 49 && Number2("37", 0) == 37
  {
  }

  lemma InvalidRfc850Matches()
    ensures MatchLayout("Snnday, 06-Nov-94 08:49:37 GMT")
      == Some(Captures(Rfc850Date, "Snnday", 6, "Nov", 94, 8, 49, 37))
  {
    InvalidRfc850Text();
    InvalidRfc850Parts();
    ReadsRfc850("Snnday", "06", "Nov", "94", "08", "49", "37");
  }

  lemma InvalidRfc850Resolved()
    ensures Normalize(Captures(Rfc850Date, "Snnday", 6, "Nov", 94, 8, 49, 37), Now2020)
      == Some(DateTime(1994, 11, 6, 8, 49, 37))
  {
    assert ResolveCentury(94, 11, 6, 8, 49, 37, Now2020) == 1994;
  }

  /** `Snnday, 06-Nov-94 08:49:37 GMT` has a wrong weekday. */
  lemma InvalidRfc850()
    ensures HttpdateToUnixtime(Some("Snnday, 06-Nov-94 08:49:37 GMT"), Now2020).None?
  {
    var cap := Captures(Rfc850Date, "Snnday", 6, "Nov", 94, 8, 49, 37);
    var c := DateTime(1994, 11, 6, 8, 49, 37);
    InvalidRfc850Matches();
    Sunday06Nov1994();
    InvalidRfc850Resolved();
    WrongWeekdayRejected("Snnday, 06-Nov-94 08:49:37 GMT", Now2020);
  }

  /** The fields of `Snn Nov  6 08:49:37 1994`. */
  lemma InvalidAsctimeText()
    ensures AsctimeLayout("Snn", "Nov", " 6", "08", "49", "37", "1994")
      == "Snn Nov  6 08:49:37 1994"
  {
  }

  lemma InvalidAsctimeParts()
    ensures IsWord3("Snn") && IsWord3("Nov") && " 6"[0] == ' ' && IsDigit(" 6"[1])
      && IsDigits2("08") && IsDigits2("49") && IsDigits2("37") && IsDigits4("1994")
      && DigitValue(" 6"[1]) == 6 && Number2("08", 0) == 8 && Number2("49", 0) == 49
      && Number2("37", 0) == 37 && Number4("1994", 0) == 1994
  {
  }

  lemma InvalidAsctimeMatches()
    ensures MatchLayout("Snn Nov  6 08:49:37 1994")
      == Some(Captures(AsctimeDate, "Snn", 6, "Nov", 1994, 8, 49, 37))
  {
    InvalidAsctimeText();
    InvalidAsctimeParts();
    ReadsAsctime("Snn", "Nov", " 6", "08", "49", "37", "1994");
  }

  lemma InvalidAsctimeResolved(now: Instant)
    ensures Normalize(Captures(AsctimeDate, "Snn", 6, "Nov", 1994, 8, 49, 37), now)
      == Some(DateTime(1994, 11, 6, 8, 49, 37))
  {
  }

  /** `Snn Nov  6 08:49:37 1994` has a wrong weekday. */
  lemma InvalidAsctime(now: Instant)
    ensures HttpdateToUnixtime(Some("Snn Nov  6 08:49:37 1994"), now).None?
  {
    var cap := Captures(AsctimeDate, "Snn", 6, "Nov", 1994, 8, 49, 37);
    var c := DateTime(1994, 11, 6, 8, 49, 37);
    InvalidAsctimeMatches();
    Sunday06Nov1994();
    InvalidAsctimeResolved(now);
    WrongWeekdayRejected("Snn Nov  6 08:49:37 1994", now);
  }

  /** The same three texts with a misspelt weekday are not valid HTTP dates. */
  lemma InvalidHttpdates(now: Instant)
    ensures !IsValidHttpdate(Some("Snn, 06 Nov 1994 08:49:37 GMT"), now)
    ensures !IsValidHttpdate(Some("Snnday, 06-Nov-94 08:49:37 GMT"), Now2020)
    ensures !IsValidHttpdate(Some("Snn Nov  6 08:49:37 1994"), now)
  {
    InvalidImfFixdate(now);
    InvalidRfc850();
    InvalidAsctime(now);
  }

}
