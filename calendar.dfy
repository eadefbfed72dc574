/** The proleptic Gregorian calendar as an explicit day count.

    This module stands in for the date arithmetic the Python code borrows from
    `time.strptime`, `calendar.timegm` and `datetime.fromtimestamp`: day numbers
    count from 1970-01-01 (day 0), a timestamp is `days * 86400` plus the
    seconds of the day (with no special treatment of second 60), and the weekday
    follows from the day number because 1970-01-01 was a Thursday. */
module Calendar {

  /** Gregorian rule: every fourth year, except centuries not divisible by 400. */
  predicate IsLeapYear(y: int) {
    y % 4 == 0 && (y % 100 != 0 || y % 400 == 0)
  }

  function DaysInYear(y: int): int {
    if IsLeapYear(y) then 366 else 365
  }

  function DaysInMonth(y: int, m: int): (n: int)
    requires 1 <= m <= 12
    ensures 28 <= n <= 31
  {
    if m == 2 then (if IsLeapYear(y) then 29 else 28)
    else if m == 4 || m == 6 || m == 9 || m == 11 then 30
    else 31
  }

  /** Days of year `y` that lie before the first of month `m`; `m == 13` gives the whole year. */
  function DaysBeforeMonth(y: int, m: int): int
    requires 1 <= m <= 13
  {
    [0, 31, 59, 90, 120, 151, 181, 212, 243, 273, 304, 334, 365][m - 1]
    + (if m > 2 && IsLeapYear(y) then 1 else 0)
  }

  /** The cumulative month table agrees with the month lengths, and the months fill the year. */
  lemma MonthsFillYear(y: int, m: int)
    requires 1 <= m <= 12
    ensures DaysBeforeMonth(y, m + 1) == DaysBeforeMonth(y, m) + DaysInMonth(y, m)
    ensures DaysBeforeMonth(y, 13) == DaysInYear(y)
  {
  }

  /** Days from 0001-01-01 to the first of January of year `y`. */
  function DaysBeforeYear(y: int): int {
    var p := y - 1;
    365 * p + p / 4 - p / 100 + p / 400
  }

  /** How the three floor quotients of DaysBeforeYear move from one year to the next. */
  lemma QuotientSteps(p: int)
    ensures (p + 1) / 4 == p / 4 + (if (p + 1) % 4 == 0 then 1 else 0)
    ensures (p + 1) / 100 == p / 100 + (if (p + 1) % 100 == 0 then 1 else 0)
    ensures (p + 1) / 400 == p / 400 + (if (p + 1) % 400 == 0 then 1 else 0)
  {
  }

  /** Each year is as long as the leap-year rule says. */
  lemma {:induction false} YearLength(y: int)
    ensures DaysBeforeYear(y + 1) == DaysBeforeYear(y) + DaysInYear(y)
  {
    QuotientSteps(y - 1);
    LeapDays(y);
  }

  /** The leap-year rule as a count: one day for a multiple of 4, minus one
      for a multiple of 100, plus one for a multiple of 400. */
  lemma LeapDays(y: int)
    ensures DaysInYear(y) == 365 + (if y % 4 == 0 then 1 else 0)
      - (if y % 100 == 0 then 1 else 0) + (if y % 400 == 0 then 1 else 0)
  {
    if y % 400 == 0 {
      MultipleOf100(4 * (y / 400));
    }
    if y % 100 == 0 {
      MultipleOf4(25 * (y / 100));
    }
  }

  lemma MultipleOf100(k: int)
    ensures (100 * k) % 100 == 0
  {
  }

  lemma MultipleOf4(k: int)
    ensures (4 * k) % 4 == 0
  {
  }

  predicate IsValidDate(y: int, m: int, d: int) {
    1 <= m <= 12 && 1 <= d <= DaysInMonth(y, m)
  }

  /** Day number of the civil date y-m-d: days since 1970-01-01, negative before it. */
  function DaysFromCivil(y: int, m: int, d: int): (n: int)
    requires 1 <= m <= 12
    ensures y == 1970 && m == 1 ==> n == d - 1
  {
    DaysBeforeYear(y) - DaysBeforeYear(1970) + DaysBeforeMonth(y, m) + d - 1
  }

  /** Day of the week of day number `n`, Monday = 0 ... Sunday = 6. */
  function WeekdayOfDay(n: int): (w: int)
    ensures 0 <= w < 7
    ensures n == 0 ==> w == 3
  {
    (n + 3) % 7
  }

  /** The calendar date that follows y-m-d. */
  function NextDate(y: int, m: int, d: int): (int, int, int)
    requires IsValidDate(y, m, d)
  {
    if d < DaysInMonth(y, m) then (y, m, d + 1)
    else if m < 12 then (y, m + 1, 1)
    else (y + 1, 1, 1)
  }

  /** Consecutive dates have consecutive day numbers. */
  lemma {:induction false} NextDateIsNextDay(y: int, m: int, d: int)
    requires IsValidDate(y, m, d)
    ensures var (y', m', d') := NextDate(y, m, d);
      IsValidDate(y', m', d') && DaysFromCivil(y', m', d') == DaysFromCivil(y, m, d) + 1
  {
    if d < DaysInMonth(y, m) {
    } else if m < 12 {
      MonthsFillYear(y, m);
    } else {
      MonthsFillYear(y, m);
      YearLength(y);
      assert DaysFromCivil(y + 1, 1, 1) == DaysBeforeYear(y + 1) - DaysBeforeYear(1970);
    }
  }

  /** The day after a valid date falls on the next weekday, Sunday wrapping round to Monday. */
  lemma NextDateNextWeekday(y: int, m: int, d: int)
    requires IsValidDate(y, m, d)
    ensures var (y', m', d') := NextDate(y, m, d);
      WeekdayOfDay(DaysFromCivil(y', m', d')) == (WeekdayOfDay(DaysFromCivil(y, m, d)) + 1) % 7
  {
    var n := DaysFromCivil(y, m, d);
    NextDateIsNextDay(y, m, d);
    WeekdayStep(n);
  }

  lemma WeekdayStep(n: int)
    ensures WeekdayOfDay(n + 1) == (WeekdayOfDay(n) + 1) % 7
  {
  }

  lemma CycleQuotients(p: int)
    ensures (p + 400) / 4 == p / 4 + 100
    ensures (p + 400) / 100 == p / 100 + 4
    ensures (p + 400) / 400 == p / 400 + 1
  {
  }

  lemma LeapCycle(y: int)
    ensures IsLeapYear(y + 400) == IsLeapYear(y)
  {
  }

  lemma WeekCycle(n: int)
    ensures WeekdayOfDay(n + 146097) == WeekdayOfDay(n)
  {
  }

  /** The Gregorian calendar repeats every 400 years, and 146097 days are a whole number of weeks. */
  lemma {:induction false} FourHundredYearCycle(y: int, m: int, d: int)
    requires IsValidDate(y, m, d)
    ensures IsValidDate(y + 400, m, d)
    ensures DaysFromCivil(y + 400, m, d) == DaysFromCivil(y, m, d) + 146097
    ensures WeekdayOfDay(DaysFromCivil(y + 400, m, d)) == WeekdayOfDay(DaysFromCivil(y, m, d))
  {
    LeapCycle(y);
    CycleQuotients(y - 1);
    assert DaysBeforeYear(y + 400) == DaysBeforeYear(y) + 146097;
    WeekCycle(DaysFromCivil(y, m, d));
  }

  /** A civil date and time of day, as the parser extracts it (second 60 denotes a leap second). */
  datatype DateTime = DateTime(year: int, month: int, day: int, hour: int, minute: int, second: int)

  /** The field ranges `time.strptime` enforces, with second 61 excluded. */
  predicate IsValid(c: DateTime) {
    IsValidDate(c.year, c.month, c.day)
    && 0 <= c.hour <= 23 && 0 <= c.minute <= 59 && 0 <= c.second <= 60
  }

  /** Seconds since 1970-01-01 00:00:00 UTC, by plain addition as `calendar.timegm` does. */
  function Timestamp(c: DateTime): (t: int)
    requires 1 <= c.month <= 12
    ensures IsValid(c) ==> var midnight := DaysFromCivil(c.year, c.month, c.day) * 86400;
      midnight <= t <= midnight + 86400
      && (t == midnight + 86400 <==> (c.hour, c.minute, c.second) == (23, 59, 60))
  {
    DaysFromCivil(c.year, c.month, c.day) * 86400 + c.hour * 3600 + c.minute * 60 + c.second
  }

  /** `23:59:60` lands on the following day's `00:00:00`. */
  lemma LeapSecondIsNextMidnight(y: int, m: int, d: int)
    requires IsValidDate(y, m, d)
    ensures var (y', m', d') := NextDate(y, m, d);
      Timestamp(DateTime(y, m, d, 23, 59, 60)) == Timestamp(DateTime(y', m', d', 0, 0, 0))
  {
    NextDateIsNextDay(y, m, d);
  }

  /** Day number of the first of January of year `y`. */
  function YearStart(y: int): int {
    DaysFromCivil(y, 1, 1)
  }

  /** A year adds 365 or 366 days, so `k` years add between `365 * k` and `366 * k`. */
  lemma {:induction false} YearStartGrowth(y: int, k: nat)
    ensures 365 * k <= YearStart(y + k) - YearStart(y) <= 366 * k
    decreases k
  {
    if k > 0 {
      YearStartGrowth(y, k - 1);
      YearLength(y + k - 1);
    }
  }

  lemma YearStartMonotone(a: int, b: int)
    requires a <= b
    ensures YearStart(a) <= YearStart(b)
  {
    YearStartGrowth(a, b - a);
  }

  /** The year that holds day number `n`, searched upwards from a year that starts no later. */
  function FindYear(n: int, y: int): (r: int)
    requires YearStart(y) <= n
    ensures y <= r && YearStart(r) <= n < YearStart(r + 1)
    decreases n - YearStart(y)
  {
    YearStartGrowth(y, 1);
    if n < YearStart(y + 1) then y else FindYear(n, y + 1)
  }

  /** The year that holds day number `n`. */
  function YearOfDay(n: int): (y: int)
    ensures YearStart(y) <= n < YearStart(y + 1)
  {
    FindYear(n, SearchStart(n))
  }

  /** A year that starts no later than day `n`, and not far before it. */
  function SearchStart(n: int): (y: int)
    ensures YearStart(y) <= n
  {
    if n >= 0 then
      var k := n / 366;
      YearStartGrowth(1970, k);
      1970 + k
    else
      var k := -n / 365 + 1;
      YearStartGrowth(1970 - k, k);
      1970 - k
  }

  /** Only one year holds a given day. */
  lemma YearOfDayUnique(n: int, y: int)
    requires YearStart(y) <= n < YearStart(y + 1)
    ensures YearOfDay(n) == y
  {
    var r := YearOfDay(n);
    OneYearHoldsDay(n, r, y);
  }

  lemma OneYearHoldsDay(n: int, r: int, y: int)
    requires YearStart(r) <= n < YearStart(r + 1)
    requires YearStart(y) <= n < YearStart(y + 1)
    ensures r == y
  {
    if r < y {
      YearStartMonotone(r + 1, y);
    } else if y < r {
      YearStartMonotone(y + 1, r);
    }
  }

  /** The month of year `y` that holds day `doy` of that year (counted from 0). */
  function FindMonth(y: int, doy: int, m: int): (r: int)
    requires 1 <= m <= 12 && DaysBeforeMonth(y, m) <= doy < DaysInYear(y)
    ensures m <= r <= 12 && DaysBeforeMonth(y, r) <= doy < DaysBeforeMonth(y, r + 1)
    decreases 12 - m
  {
    MonthsFillYear(y, m);
    if doy < DaysBeforeMonth(y, m + 1) then m else FindMonth(y, doy, m + 1)
  }

  /** Later months start at least 28 days later. */
  lemma {:induction false} DaysBeforeMonthIncreasing(y: int, a: int, b: int)
    requires 1 <= a < b <= 13
    ensures DaysBeforeMonth(y, a) + 28 <= DaysBeforeMonth(y, b)
    decreases b - a
  {
    MonthsFillYear(y, b - 1);
    if a < b - 1 {
      DaysBeforeMonthIncreasing(y, a, b - 1);
    }
  }

  /** Searching from any month not after the right one finds the right one. */
  lemma {:induction false} FindMonthFinds(y: int, doy: int, from: int, m: int)
    requires 1 <= from <= m <= 12
    requires DaysBeforeMonth(y, from) <= doy
    requires DaysBeforeMonth(y, m) <= doy < DaysBeforeMonth(y, m + 1)
    ensures doy < DaysInYear(y)
    ensures FindMonth(y, doy, from) == m
    decreases m - from
  {
    MonthsFillYear(y, 12);
    if m < 12 {
      DaysBeforeMonthIncreasing(y, m + 1, 13);
    }
    if from < m {
      DaysBeforeMonthIncreasing(y, from + 1, m + 1);
      if from + 1 < m {
        DaysBeforeMonthIncreasing(y, from + 1, m);
      }
      MonthsFillYear(y, from);
      FindMonthFinds(y, doy, from + 1, m);
    }
  }

  /** The civil date of day number `n`: the inverse of DaysFromCivil. */
  function CivilFromDay(n: int): (date: (int, int, int))
    ensures IsValidDate(date.0, date.1, date.2)
    ensures DaysFromCivil(date.0, date.1, date.2) == n
  {
    var y := YearOfDay(n);
    YearLength(y);
    var doy := n - YearStart(y);
    var m := FindMonth(y, doy, 1);
    MonthsFillYear(y, m);
    (y, m, doy - DaysBeforeMonth(y, m) + 1)
  }

  /** A valid date's day number lies within its year. */
  lemma DateWithinYear(y: int, m: int, d: int)
    requires IsValidDate(y, m, d)
    ensures YearStart(y) <= DaysFromCivil(y, m, d) < YearStart(y + 1)
  {
    MonthsFillYear(y, m);
    MonthsFillYear(y, 12);
    if m < 12 {
      DaysBeforeMonthIncreasing(y, m + 1, 13);
    }
    YearLength(y);
  }

  /** Every valid date is the civil date of its own day number. */
  lemma CivilFromDayOfValid(y: int, m: int, d: int)
    requires IsValidDate(y, m, d)
    ensures CivilFromDay(DaysFromCivil(y, m, d)) == (y, m, d)
  {
    var n := DaysFromCivil(y, m, d);
    var doy := DaysBeforeMonth(y, m) + d - 1;
    DayOfYear(y, m, d);
    YearOfDayUnique(n, y);
    FindMonthFinds(y, doy, 1, m);
  }

  /** A valid date is day `doy` of its year, counted from 0, and lies within its month. */
  lemma DayOfYear(y: int, m: int, d: int)
    requires IsValidDate(y, m, d)
    ensures var doy := DaysBeforeMonth(y, m) + d - 1;
      DaysBeforeMonth(y, m) <= doy < DaysBeforeMonth(y, m + 1)
      && DaysFromCivil(y, m, d) == YearStart(y) + doy
      && YearStart(y) <= DaysFromCivil(y, m, d) < YearStart(y + 1)
  {
    MonthsFillYear(y, m);
    DateWithinYear(y, m, d);
  }

  /** A timestamp splits into whole days and the hour, minute and second of the day. */
  lemma SplitTimestamp(t: int)
    ensures var secs := t % 86400;
      0 <= secs / 3600 <= 23 && 0 <= secs % 3600 / 60 <= 59 && 0 <= secs % 60 <= 59
      && t == t / 86400 * 86400 + secs / 3600 * 3600 + secs % 3600 / 60 * 60 + secs % 60
  {
  }

  /** The civil date and time of a timestamp, never a leap second. */
  function CivilFromTimestamp(t: int): (c: DateTime)
    ensures IsValid(c) && c.second <= 59
    ensures Timestamp(c) == t
  {
    var (y, m, d) := CivilFromDay(t / 86400);
    var secs := t % 86400;
    SplitTimestamp(t);
    DateTime(y, m, d, secs / 3600, secs % 3600 / 60, secs % 60)
  }

  /** Every valid date and time whose second is not 60 is recovered from its timestamp. */
  lemma CivilFromTimestampOfValid(c: DateTime)
    requires IsValid(c) && c.second <= 59
    ensures CivilFromTimestamp(Timestamp(c)) == c
  {
    TimestampInjective(CivilFromTimestamp(Timestamp(c)), c);
  }

  /** Two valid date-times without a leap second that share a timestamp are equal. */
  lemma TimestampInjective(a: DateTime, b: DateTime)
    requires IsValid(a) && a.second <= 59 && IsValid(b) && b.second <= 59
    requires Timestamp(a) == Timestamp(b)
    ensures a == b
  {
    var na := DaysFromCivil(a.year, a.month, a.day);
    var nb := DaysFromCivil(b.year, b.month, b.day);
    var sa := a.hour * 3600 + a.minute * 60 + a.second;
    var sb := b.hour * 3600 + b.minute * 60 + b.second;
    ClockSplit(a.hour, a.minute, a.second);
    ClockSplit(b.hour, b.minute, b.second);
    DaySplit(na, sa);
    DaySplit(nb, sb);
    assert na == nb && sa == sb;
    CivilFromDayOfValid(a.year, a.month, a.day);
    CivilFromDayOfValid(b.year, b.month, b.day);
  }

  /** Whole days and the seconds of the day are recovered by `/` and `%`. */
  lemma DaySplit(n: int, secs: int)
    requires 0 <= secs < 86400
    ensures (n * 86400 + secs) / 86400 == n && (n * 86400 + secs) % 86400 == secs
  {
  }

  /** Hour, minute and second are recovered from the seconds of the day. */
  lemma ClockSplit(h: int, mi: int, s: int)
    requires 0 <= h <= 23 && 0 <= mi <= 59 && 0 <= s <= 59
    ensures var secs := h * 3600 + mi * 60 + s;
      0 <= secs < 86400 && secs / 3600 == h && secs % 3600 / 60 == mi && secs % 60 == s
  {
    var secs := h * 3600 + mi * 60 + s;
    assert secs % 3600 == mi * 60 + s;
  }

}
