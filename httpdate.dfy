/** Parsing and formatting of HTTP dates (section 5.6.7 of RFC 9110), after
    `src/httpdate/httpdate.py`.

    The parser recognises the three layouts RFC 9110 requires recipients to
    accept, tried in this order:

      IMF-fixdate    Sun, 06 Nov 1994 08:49:37 GMT
      rfc850-date    Sunday, 06-Nov-94 08:49:37 GMT
      asctime-date   Sun Nov  6 08:49:37 1994

    and returns a Unix timestamp, or `None` for anything it rejects. The
    formatter emits IMF-fixdate for timestamps of the years 1900 to 9999. The
    wall clock the rfc850 century rule consults is the parameter `now`. */
module HttpDate {

  import opened Wrappers
  import opened Calendar

  /** Earliest year RFC 9110 admits. */
  const MinYear := 1900
  /** Latest year the Python `calendar` and `datetime` modules support. */
  const MaxYear := 9999
  /** 1900-01-01 00:00:00 UTC. */
  const MinUnixtime := -2208988800
  /** 9999-12-31 23:59:59 UTC. */
  const MaxUnixtime := 253402300799

  /** Timestamps of the officially declared positive leap seconds. Each is the
      timestamp `calendar.timegm` gives for `23:59:60` on the last day of June
      or December, which equals the following midnight. */
  const LeapSeconds: set<int> := {
    78796800, 94694400, 126230400, 157766400, 189302400, 220924800,
    252460800, 283996800, 315532800, 362793600, 394329600, 425865600,
    489024000, 567993600, 631152000, 662688000, 709948800, 741484800,
    773020800, 820454400, 867715200, 915148800, 1136073600, 1230768000,
    1341100800, 1435708800, 1483228800
  }

  /** English month abbreviations and their numbers (`MONTHS`). */
  const Months: map<string, int> := map[
    "Jan" := 1, "Feb" := 2, "Mar" := 3, "Apr" := 4, "May" := 5, "Jun" := 6,
    "Jul" := 7, "Aug" := 8, "Sep" := 9, "Oct" := 10, "Nov" := 11, "Dec" := 12
  ]

  /** The same abbreviations by month number minus one, as `%b` prints them. */
  const MonthAbbrs: seq<string> :=
    ["Jan", "Feb", "Mar", "Apr", "May", "Jun", "Jul", "Aug", "Sep", "Oct", "Nov", "Dec"]

  /** Full and abbreviated English weekday names, Monday = 0 (`WEEKDAYS`). */
  const Weekdays: seq<(string, string)> := [
    ("Monday", "Mon"), ("Tuesday", "Tue"), ("Wednesday", "Wed"), ("Thursday", "Thu"),
    ("Friday", "Fri"), ("Saturday", "Sat"), ("Sunday", "Sun")
  ]

  /** The month table read in both directions is one bijection. */
  lemma MonthTablesAgree()
    ensures forall i | 0 <= i < 12 :: MonthAbbrs[i] in Months && Months[MonthAbbrs[i]] == i + 1
    ensures forall k | k in Months :: 1 <= Months[k] <= 12 && MonthAbbrs[Months[k] - 1] == k
  {
  }

  // ---------------------------------------------------------------------------
  // Characters and digit fields (ASCII only)

  predicate IsDigit(c: char) {
    '0' <= c <= '9'
  }

  /** Python's `\w`, restricted to ASCII. */
  predicate IsWordChar(c: char) {
    'a' <= c <= 'z' || 'A' <= c <= 'Z' || IsDigit(c) || c == '_'
  }

  predicate AllWordChars(w: string) {
    forall i | 0 <= i < |w| :: IsWordChar(w[i])
  }

  function DigitValue(c: char): nat
    requires IsDigit(c)
  {
    c as int - '0' as int
  }

  function DigitChar(n: nat): (c: char)
    requires n < 10
    ensures IsDigit(c) && DigitValue(c) == n
  {
    ('0' as int + n) as char
  }

  predicate Digits2At(s: string, i: nat) {
    i + 2 <= |s| && IsDigit(s[i]) && IsDigit(s[i + 1])
  }

  predicate Digits4At(s: string, i: nat) {
    Digits2At(s, i) && Digits2At(s, i + 2)
  }

  predicate Word3At(s: string, i: nat) {
    i + 3 <= |s| && IsWordChar(s[i]) && IsWordChar(s[i + 1]) && IsWordChar(s[i + 2])
  }

  /** `\d{2}:\d{2}:\d{2}` at position `i`. */
  predicate ClockAt(s: string, i: nat) {
    i + 8 <= |s| && Digits2At(s, i) && s[i + 2] == ':' && Digits2At(s, i + 3)
    && s[i + 5] == ':' && Digits2At(s, i + 6)
  }

  /** The value of the two digits at position `i`. */
  function Number2(s: string, i: nat): (n: nat)
    requires Digits2At(s, i)
    ensures n <= 99
  {
    10 * DigitValue(s[i]) + DigitValue(s[i + 1])
  }

  /** The value of the four digits at position `i`. */
  function Number4(s: string, i: nat): (n: nat)
    requires Digits4At(s, i)
    ensures n <= 9999
  {
    100 * Number2(s, i) + Number2(s, i + 2)
  }

  /** `n` as two decimal digits, zero-padded (`%d`, `%H`, `%M`, `%S`). */
  function Pad2(n: nat): (s: string)
    requires n <= 99
    ensures |s| == 2 && Digits2At(s, 0) && Number2(s, 0) == n
  {
    [DigitChar(n / 10), DigitChar(n % 10)]
  }

  /** `n` as four decimal digits, zero-padded (`%Y` for the years 1000 to 9999). */
  function Pad4(n: nat): (s: string)
    requires n <= 9999
    ensures |s| == 4 && Digits4At(s, 0) && Number4(s, 0) == n
  {
    var s := Pad2(n / 100) + Pad2(n % 100);
    assert s[2..] == Pad2(n % 100);
    s
  }

  // ---------------------------------------------------------------------------
  // The three layouts (`RFC9110`)

  datatype Format = ImfFixdate | Rfc850Date | AsctimeDate

  /** The layouts in the order the parser tries them. */
  const Rfc9110Order: seq<Format> := [ImfFixdate, Rfc850Date, AsctimeDate]

  /** What a layout's pattern captures: the weekday and month tokens as
      written, and the numeric fields. For rfc850-date `year` is the two-digit
      year. */
  datatype Captures = Captures(
    format: Format, weekday: string, day: nat, month: string,
    year: nat, hour: nat, minute: nat, second: nat)

  /** The text a pattern ending in `$` must match: Python's `$` matches at the
      end and also just before a final newline, so one trailing newline is
      ignored. */
  function BeforeFinalNewline(s: string): (t: string)
    ensures t == s || t + "\n" == s
    ensures |s| > 0 && s[|s| - 1] == '\n' ==> t + "\n" == s
    ensures |s| == 0 || s[|s| - 1] != '\n' ==> t == s
  {
    if |s| > 0 && s[|s| - 1] == '\n' then s[..|s| - 1] else s
  }

  /** `(\w{3}), (\d{2}) (\w{3}) (\d{4} \d{2}:\d{2}:\d{2} GMT)` */
  predicate IsImfFixdateShape(s: string) {
    |s| == 29 && Word3At(s, 0) && s[3] == ',' && s[4] == ' ' && Digits2At(s, 5)
    && s[7] == ' ' && Word3At(s, 8) && s[11] == ' ' && Digits4At(s, 12) && s[16] == ' '
    && ClockAt(s, 17) && s[25] == ' ' && s[26] == 'G' && s[27] == 'M' && s[28] == 'T'
  }

  /** `(\w+), (\d{2}-\w{3}-\d{2}) (\d{2}:\d{2}:\d{2}) GMT`: the weekday is
      everything before the fixed 24-character tail. */
  predicate IsRfc850Shape(s: string) {
    |s| >= 25
    && var k := |s| - 24;
    AllWordChars(s[..k]) && s[k] == ',' && s[k + 1] == ' ' && Digits2At(s, k + 2)
    && s[k + 4] == '-' && Word3At(s, k + 5) && s[k + 8] == '-' && Digits2At(s, k + 9)
    && s[k + 11] == ' ' && ClockAt(s, k + 12) && s[k + 20] == ' '
    && s[k + 21] == 'G' && s[k + 22] == 'M' && s[k + 23] == 'T'
  }

  /** `(\w{3}) (\w{3}) ((\d{2}| \d{1}) \d{2}:\d{2}:\d{2} \d{4})` */
  predicate IsAsctimeShape(s: string) {
    |s| == 24 && Word3At(s, 0) && s[3] == ' ' && Word3At(s, 4) && s[7] == ' '
    && (Digits2At(s, 8) || (s[8] == ' ' && IsDigit(s[9])))
    && s[10] == ' ' && ClockAt(s, 11) && s[19] == ' ' && Digits4At(s, 20)
  }

  function MatchImfFixdate(s: string): (r: Option<Captures>)
    ensures r.Some? <==> IsImfFixdateShape(BeforeFinalNewline(s))
    ensures r.Some? ==> (r.value.format == ImfFixdate && |r.value.weekday| == 3
                         && |r.value.month| == 3 && r.value.year <= 9999)
  {
    var t := BeforeFinalNewline(s);
    if IsImfFixdateShape(t) then
      Some(Captures(ImfFixdate, t[0..3], Number2(t, 5), t[8..11], Number4(t, 12),
                    Number2(t, 17), Number2(t, 20), Number2(t, 23)))
    else None
  }

  function MatchRfc850(s: string): (r: Option<Captures>)
    ensures r.Some? <==> IsRfc850Shape(BeforeFinalNewline(s))
    ensures r.Some? ==> (r.value.format == Rfc850Date && |r.value.weekday| >= 1
                         && |r.value.month| == 3 && r.value.year <= 99)
  {
    var t := BeforeFinalNewline(s);
    if IsRfc850Shape(t) then
      var k := |t| - 24;
      Some(Captures(Rfc850Date, t[..k], Number2(t, k + 2), t[k + 5..k + 8], Number2(t, k + 9),
                    Number2(t, k + 12), Number2(t, k + 15), Number2(t, k + 18)))
    else None
  }

  function MatchAsctime(s: string): (r: Option<Captures>)
    ensures r.Some? <==> IsAsctimeShape(BeforeFinalNewline(s))
    ensures r.Some? ==> (r.value.format == AsctimeDate && |r.value.weekday| == 3
                         && |r.value.month| == 3 && r.value.year <= 9999)
  {
    var t := BeforeFinalNewline(s);
    if IsAsctimeShape(t) then
      // `.strip()` turns " 6" into "6"; `%d` reads one or two digits alike
      var day := if t[8] == ' ' then DigitValue(t[9]) else Number2(t, 8);
      Some(Captures(AsctimeDate, t[0..3], day, t[4..7], Number4(t, 20),
                    Number2(t, 11), Number2(t, 14), Number2(t, 17)))
    else None
  }

  function Match(f: Format, s: string): Option<Captures> {
    match f
    case ImfFixdate => MatchImfFixdate(s)
    case Rfc850Date => MatchRfc850(s)
    case AsctimeDate => MatchAsctime(s)
  }

  /** The loop over `RFC9110`: the first layout whose pattern matches decides. */
  function FirstMatch(order: seq<Format>, s: string): (r: Option<Captures>)
    ensures r.Some? ==> exists i | 0 <= i < |order| ::
      order[i] == r.value.format && Match(order[i], s) == r
      && forall j | 0 <= j < i :: Match(order[j], s).None?
    ensures r.None? <==> forall i | 0 <= i < |order| :: Match(order[i], s).None?
  {
    if |order| == 0 then None
    else
      var m := Match(order[0], s);
      if m.Some? then m
      else
        var r := FirstMatch(order[1..], s);
        assert forall i | 1 <= i < |order| :: order[i] == order[1..][i - 1];
        r
  }

  /** At most one layout matches any text, so the trial order never hides a match. */
  lemma LayoutsExclusive(s: string)
    ensures MatchImfFixdate(s).Some? ==> MatchRfc850(s).None? && MatchAsctime(s).None?
    ensures MatchRfc850(s).Some? ==> MatchAsctime(s).None?
  {
    var t := BeforeFinalNewline(s);
    if |t| == 29 {
      // an rfc850 weekday would then span the IMF-fixdate comma at index 3
      assert t[..5][3] == t[3];
    }
  }

  // ---------------------------------------------------------------------------
  // `_normalize_for_strptime`

  /** The wall-clock reading `datetime.datetime.now(datetime.timezone.utc)`. */
  datatype Instant = Instant(year: int, month: int, day: int, hour: int, minute: int, second: int)

  /** Python's comparison of two 6-tuples of integers: strictly greater, lexicographically. */
  predicate TupleGreater(a: (int, int, int, int, int, int), b: (int, int, int, int, int, int)) {
    a.0 > b.0 || (a.0 == b.0 && (a.1 > b.1 || (a.1 == b.1 && (a.2 > b.2 || (a.2 == b.2
      && (a.3 > b.3 || (a.3 == b.3 && (a.4 > b.4 || (a.4 == b.4 && a.5 > b.5)))))))))
  }

  /** Python's tuple `>` is a strict total order: irreflexive, exactly one
      direction holds between distinct tuples, and transitive. */
  lemma TupleOrder(a: (int, int, int, int, int, int), b: (int, int, int, int, int, int),
                   c: (int, int, int, int, int, int))
    ensures !TupleGreater(a, a)
    ensures a != b ==> (TupleGreater(a, b) <==> !TupleGreater(b, a))
    ensures TupleGreater(a, b) && TupleGreater(b, c) ==> TupleGreater(a, c)
  {
  }

  /** The year RFC 9110's rule reads from the clock: never before 1900. */
  function CurrentYear(now: Instant): (y: int)
    ensures y >= MinYear && (y == now.year || y == MinYear)
    ensures now.year >= MinYear ==> y == now.year
  {
    if now.year > MinYear then now.year else MinYear
  }

  /** The instant 50 years after `now`, as the tuple the century rule compares against. */
  function FutureLimit(now: Instant): (limit: (int, int, int, int, int, int))
    ensures limit.0 - CurrentYear(now) == 50
    ensures TupleGreater(limit, (CurrentYear(now), now.month, now.day, now.hour, now.minute, now.second))
    ensures (limit.1, limit.2, limit.3, limit.4, limit.5) == (now.month, now.day, now.hour, now.minute, now.second)
  {
    (CurrentYear(now) + 50, now.month, now.day, now.hour, now.minute, now.second)
  }

  /** The four-digit year of an rfc850-date: this century, unless that would
      put the date-time more than 50 years after `now`, then the century
      before. The other fields are compared as written, before any calendar
      check. `this_c * 100 + yy` is the value of the digits of `this_c`
      followed by the two digits of `yy`. */
  function ResolveCentury(yy: nat, month: int, day: int, hour: int, minute: int, second: int,
                          now: Instant): (year: int)
    requires yy <= 99
    ensures year % 100 == yy
    ensures CurrentYear(now) - 100 < year <= CurrentYear(now) + 50
    ensures !TupleGreater((year, month, day, hour, minute, second), FutureLimit(now))
    ensures year == CurrentYear(now) / 100 * 100 + yy
        <==> !TupleGreater((CurrentYear(now) / 100 * 100 + yy, month, day, hour, minute, second), FutureLimit(now))
  {
    var thisC := CurrentYear(now) / 100;
    var lastC := thisC - 1;
    if TupleGreater((thisC * 100 + yy, month, day, hour, minute, second), FutureLimit(now))
    then lastC * 100 + yy
    else thisC * 100 + yy
  }

  /** The month number of an English abbreviation, or `None` (the source's `ValueError`). */
  function MonthNumber(token: string): (r: Option<int>)
    ensures r.Some? <==> token in Months
    ensures r.Some? ==> 1 <= r.value <= 12 && MonthAbbrs[r.value - 1] == token
  {
    MonthTablesAgree();
    if token in Months then Some(Months[token]) else None
  }

  /** The date and time the captures denote, with the rfc850 year resolved;
      `None` when the month token is unknown. No range check happens yet. */
  function Normalize(cap: Captures, now: Instant): (r: Option<DateTime>)
    requires cap.format == Rfc850Date ==> cap.year <= 99
    ensures r.Some? <==> cap.month in Months
    ensures r.Some? ==> 1 <= r.value.month <= 12 && MonthAbbrs[r.value.month - 1] == cap.month
    ensures r.Some? ==> (r.value.day, r.value.hour, r.value.minute, r.value.second)
                        == (cap.day, cap.hour, cap.minute, cap.second)
    ensures r.Some? && cap.format != Rfc850Date ==> r.value.year == cap.year
    ensures r.Some? && cap.format == Rfc850Date ==> r.value.year % 100 == cap.year
  {
    match MonthNumber(cap.month)
    case None => None
    case Some(m) =>
      var year := if cap.format == Rfc850Date
        then ResolveCentury(cap.year, m, cap.day, cap.hour, cap.minute, cap.second, now)
        else cap.year;
      Some(DateTime(year, m, cap.day, cap.hour, cap.minute, cap.second))
  }

  // ---------------------------------------------------------------------------
  // `_string_to_unixtime`

  /** What `time.strptime` accepts: a real month and day, `%H` up to 23, `%M`
      up to 59 and `%S` up to 61. (Its `%Y` wants four digits; every year
      outside 1900..9999 is rejected below anyway.) */
  predicate StrptimeAccepts(c: DateTime)
    ensures StrptimeAccepts(c) && c.second <= 60 <==> IsValid(c)
  {
    IsValidDate(c.year, c.month, c.day)
    && 0 <= c.hour <= 23 && 0 <= c.minute <= 59 && 0 <= c.second <= 61
  }

  /** The weekday name the layout must carry: the full name for rfc850-date,
      the abbreviation otherwise. */
  function ExpectedWeekday(f: Format, weekday: int): (name: string)
    requires 0 <= weekday < 7
    ensures f == Rfc850Date ==> |name| >= 6 && AllWordChars(name)
    ensures f != Rfc850Date ==> IsWord3(name)
  {
    if f == Rfc850Date then Weekdays[weekday].0 else Weekdays[weekday].1
  }

  /** Weekday (Monday = 0) of a date's day number, `tm_wday`. */
  function WeekdayOf(c: DateTime): (w: int)
    requires 1 <= c.month <= 12
    ensures 0 <= w < 7
  {
    WeekdayOfDay(DaysFromCivil(c.year, c.month, c.day))
  }

  function StringToUnixtime(f: Format, c: DateTime, weekday: string): (r: Option<int>)
    ensures r.Some? ==> (IsValid(c) && MinYear <= c.year <= MaxYear
                         && weekday == ExpectedWeekday(f, WeekdayOf(c))
                         && r.value == Timestamp(c) && (c.second == 60 ==> r.value in LeapSeconds))
  {
    if !StrptimeAccepts(c) then None
    else if weekday != ExpectedWeekday(f, WeekdayOf(c))
         || c.second > 60 || c.year < MinYear || c.year > MaxYear then None
    else
      var t := Timestamp(c);
      if c.second == 60 && t !in LeapSeconds then None else Some(t)
  }

  // ---------------------------------------------------------------------------
  // Public operations

  /** One iteration of the loop once a pattern has matched: normalise, then
      validate and convert. Whatever this yields is the final answer. */
  function ParseCaptures(cap: Captures, now: Instant): (r: Option<int>)
    requires cap.format == Rfc850Date ==> cap.year <= 99
    ensures r.Some? ==> MinUnixtime <= r.value <= MaxUnixtime
  {
    match Normalize(cap, now)
    case None => None
    case Some(c) =>
      var r := StringToUnixtime(cap.format, c, cap.weekday);
      if r.None? then r
      else
        AcceptedTimestampInRange(c, r.value);
        r
  }

  /** The layout the parser settles on: the first of `RFC9110` whose pattern matches. */
  function MatchLayout(s: string): (r: Option<Captures>)
    ensures r.Some? ==> (r.value.format == Rfc850Date ==> r.value.year <= 99)
  {
    FirstMatch(Rfc9110Order, s)
  }

  /** `httpdate_to_unixtime`: the Unix timestamp of an HTTP date, or `None`. */
  function HttpdateToUnixtime(httpdate: Option<string>, now: Instant): (r: Option<int>)
    ensures httpdate.None? ==> r.None?
    ensures r.Some? ==> MinUnixtime <= r.value <= MaxUnixtime
  {
    match httpdate
    case None => None
    case Some(s) =>
      match MatchLayout(s)
      case None => None
      case Some(cap) => ParseCaptures(cap, now)
  }

  /** The two bounds are the first second of 1900 and the last second of 9999. */
  lemma BoundsAreYearLimits()
    ensures MinUnixtime == YearStart(MinYear) * 86400
    ensures MaxUnixtime == Timestamp(DateTime(MaxYear, 12, 31, 23, 59, 59))
    ensures MaxUnixtime + 1 == YearStart(MaxYear + 1) * 86400
  {
  }

  /** An accepted date-time lies between 1900-01-01 00:00:00 and 9999-12-31 23:59:59. */
  lemma AcceptedTimestampInRange(c: DateTime, t: int)
    requires IsValid(c) && MinYear <= c.year <= MaxYear && t == Timestamp(c)
    requires c.second == 60 ==> t in LeapSeconds
    ensures MinUnixtime <= t <= MaxUnixtime
  {
    BoundsAreYearLimits();
    var n := DaysFromCivil(c.year, c.month, c.day);
    DateWithinYear(c.year, c.month, c.day);
    YearStartMonotone(MinYear, c.year);
    YearStartMonotone(c.year + 1, MaxYear + 1);
    assert YearStart(MinYear) <= n < YearStart(MaxYear + 1);
    assert t == n * 86400 + c.hour * 3600 + c.minute * 60 + c.second;
  }

  /** `unixtime_to_httpdate`: the IMF-fixdate text of a timestamp of the years 1900 to 9999. */
  function UnixtimeToHttpdate(unixtime: Option<int>): (r: Option<string>)
    ensures r.Some? <==> unixtime.Some? && MinUnixtime <= unixtime.value <= MaxUnixtime
    ensures r.Some? ==> |r.value| == 29 && MatchImfFixdate(r.value).Some?
  {
    match unixtime
    case None => None
    case Some(t) =>
      if t < MinUnixtime || t > MaxUnixtime then None
      else
        var c := CivilFromTimestamp(t);
        CivilYearInRange(t);
        Some(ImfFixdateText(c))
  }

  /** Timestamps in range have years in range. */
  lemma CivilYearInRange(t: int)
    requires MinUnixtime <= t <= MaxUnixtime
    ensures MinYear <= CivilFromTimestamp(t).year <= MaxYear
  {
    YearOfTimestampInRange(CivilFromTimestamp(t), t);
  }

  /** A date-time whose timestamp is in range has a year in range. */
  lemma YearOfTimestampInRange(c: DateTime, t: int)
    requires IsValid(c) && c.second <= 59 && Timestamp(c) == t
    requires MinUnixtime <= t <= MaxUnixtime
    ensures MinYear <= c.year <= MaxYear
  {
    BoundsAreYearLimits();
    var n := DaysFromCivil(c.year, c.month, c.day);
    assert n * 86400 <= t < n * 86400 + 86400;
    DateWithinYear(c.year, c.month, c.day);
    if c.year < MinYear {
      YearStartMonotone(c.year + 1, MinYear);
    }
    if c.year > MaxYear {
      YearStartMonotone(MaxYear + 1, c.year);
    }
  }

  /** The IMF-fixdate layout filled with its seven fields. */
  function ImfFixdateLayout(weekday: string, day: string, month: string, year: string,
                            hour: string, minute: string, second: string): string
  {
    weekday + ", " + day + " " + month + " " + year + " " + hour + ":" + minute + ":" + second + " GMT"
  }

  /** Where each field of the layout lands. */
  lemma ImfFixdateLayoutPositions(weekday: string, day: string, month: string, year: string,
                                  hour: string, minute: string, second: string)
    requires |weekday| == 3 && |day| == 2 && |month| == 3 && |year| == 4
    requires |hour| == 2 && |minute| == 2 && |second| == 2
    ensures var s := ImfFixdateLayout(weekday, day, month, year, hour, minute, second);
      |s| == 29 && s[0..3] == weekday && s[3] == ',' && s[4] == ' '
      && s[5] == day[0] && s[6] == day[1] && s[7] == ' ' && s[8..11] == month && s[11] == ' '
      && s[12] == year[0] && s[13] == year[1] && s[14] == year[2] && s[15] == year[3] && s[16] == ' '
      && s[17] == hour[0] && s[18] == hour[1] && s[19] == ':'
      && s[20] == minute[0] && s[21] == minute[1] && s[22] == ':'
      && s[23] == second[0] && s[24] == second[1]
      && s[25] == ' ' && s[26] == 'G' && s[27] == 'M' && s[28] == 'T'
  {
  }

  /** A well-formed `\w{3}` field. */
  predicate IsWord3(w: string) {
    |w| == 3 && AllWordChars(w)
  }

  /** A well-formed `\d{2}` field. */
  predicate IsDigits2(d: string) {
    |d| == 2 && Digits2At(d, 0)
  }

  /** A well-formed `\d{4}` field. */
  predicate IsDigits4(y: string) {
    |y| == 4 && Digits4At(y, 0)
  }

  /** The abbreviations `%a` and `%b` print are `\w{3}` tokens. */
  lemma TableTokensAreWords(i: int, j: int)
    requires 0 <= i < 7 && 0 <= j < 12
    ensures IsWord3(Weekdays[i].1) && IsWord3(MonthAbbrs[j])
  {
  }

  /** The IMF-fixdate pattern reads back the fields of a text in its layout. */
  lemma ImfFixdateLayoutRead(w: string, d: string, m: string, y: string, h: string, mi: string, se: string)
    requires IsWord3(w) && IsDigits2(d) && IsWord3(m) && IsDigits4(y)
    requires IsDigits2(h) && IsDigits2(mi) && IsDigits2(se)
    ensures IsImfFixdateShape(ImfFixdateLayout(w, d, m, y, h, mi, se))
    ensures MatchImfFixdate(ImfFixdateLayout(w, d, m, y, h, mi, se))
      == Some(Captures(ImfFixdate, w, Number2(d, 0), m, Number4(y, 0),
                       Number2(h, 0), Number2(mi, 0), Number2(se, 0)))
  {
    var s := ImfFixdateLayout(w, d, m, y, h, mi, se);
    ImfFixdateLayoutPositions(w, d, m, y, h, mi, se);
    assert BeforeFinalNewline(s) == s;
    assert IsImfFixdateShape(s);
    assert Number2(s, 5) == Number2(d, 0);
    assert Number4(s, 12) == Number4(y, 0);
    assert Number2(s, 17) == Number2(h, 0);
    assert Number2(s, 20) == Number2(mi, 0);
    assert Number2(s, 23) == Number2(se, 0);
  }

  /** `strftime("%a, %d %b %Y %H:%M:%S GMT")` with the English tables; the
      IMF-fixdate pattern reads back exactly the fields written. */
  function ImfFixdateText(c: DateTime): (s: string)
    requires IsValid(c) && 0 <= c.year <= 9999 && c.second <= 59
    ensures |s| == 29 && IsImfFixdateShape(s)
    ensures MatchImfFixdate(s) == Some(Captures(ImfFixdate, Weekdays[WeekdayOf(c)].1, c.day,
      MonthAbbrs[c.month - 1], c.year, c.hour, c.minute, c.second))
  {
    var w, d, mo, y := Weekdays[WeekdayOf(c)].1, Pad2(c.day), MonthAbbrs[c.month - 1], Pad4(c.year);
    var h, mi, se := Pad2(c.hour), Pad2(c.minute), Pad2(c.second);
    TableTokensAreWords(WeekdayOf(c), c.month - 1);
    ImfFixdateLayoutRead(w, d, mo, y, h, mi, se);
    ImfFixdateLayout(w, d, mo, y, h, mi, se)
  }

  /** `is_valid_httpdate`: whether the parser accepts the text; false for `None`. */
  function IsValidHttpdate(httpdate: Option<string>, now: Instant): (b: bool)
    ensures b <==> httpdate.Some? && HttpdateToUnixtime(httpdate, now).Some?
  {
    match httpdate
    case None => false
    case Some(_) => HttpdateToUnixtime(httpdate, now).Some?
  }

}
