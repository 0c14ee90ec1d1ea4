/** The proleptic Gregorian calendar of chrono's `NaiveDate`, `NaiveTime` and
    `NaiveDateTime`, restricted to whole seconds.

    A date is a valid (year, month, day) triple inside chrono's year range; a
    date-time is a date plus a second of the day.  chrono orders both
    lexicographically; `DayNumber` and `Instant` give the same order as integers
    and are what "one second later" is measured in. */
module Calendar {
  import opened Wrappers

  /** chrono's year range is `i32::MIN >> 13 ..= i32::MAX >> 13`. */
  const MinYear: int := -262144
  const MaxYear: int := 262143
  const SecondsPerDay: int := 86400

  predicate IsLeapYear(y: int) {
    y % 4 == 0 && (y % 100 != 0 || y % 400 == 0)
  }

  function DaysInYear(y: int): int {
    if IsLeapYear(y) then 366 else 365
  }

  function DaysInMonth(y: int, m: int): int
    requires 1 <= m <= 12
  {
    if m == 2 then (if IsLeapYear(y) then 29 else 28)
    else if m == 4 || m == 6 || m == 9 || m == 11 then 30
    else 31
  }

  datatype Ymd = Ymd(year: int, month: int, day: int)

  predicate IsValidDate(d: Ymd) {
    && MinYear <= d.year <= MaxYear
    && 1 <= d.month <= 12
    && 1 <= d.day <= DaysInMonth(d.year, d.month)
  }

  /** chrono's `NaiveDate`: only valid calendar dates exist. */
  type Date = d: Ymd | IsValidDate(d) witness Ymd(1970, 1, 1)

  /** chrono's `NaiveTime` at whole-second resolution. */
  type SecondOfDay = s: int | 0 <= s < 86400

  /** chrono's `NaiveDateTime`. */
  datatype DateTime = DateTime(date: Date, second: SecondOfDay)

  /** `NaiveDate::from_ymd_opt`. */
  function FromYmd(y: int, m: int, d: int): Option<Date> {
    if IsValidDate(Ymd(y, m, d)) then Some(Ymd(y, m, d)) else None
  }

  /** `NaiveDate::and_time`. */
  function AndTime(d: Date, s: SecondOfDay): DateTime {
    DateTime(d, s)
  }

  /** chrono's date order: by year, then month, then day. */
  predicate DateBefore(a: Ymd, b: Ymd) {
    || a.year < b.year
    || (a.year == b.year && a.month < b.month)
    || (a.year == b.year && a.month == b.month && a.day < b.day)
  }

  /** chrono's date-time order: by date, then time of day. */
  predicate Before(a: DateTime, b: DateTime) {
    DateBefore(a.date, b.date) || (a.date == b.date && a.second < b.second)
  }

  lemma BeforeTransitive(a: DateTime, b: DateTime, c: DateTime)
    requires Before(a, b) && Before(b, c)
    ensures Before(a, c)
  {
  }

  /** Any two date-times are ordered one way or the other, or are the same. */
  lemma BeforeTotal(a: DateTime, b: DateTime)
    ensures Before(a, b) || a == b || Before(b, a)
  {
  }

  // ---------------------------------------------------------------------------
  // Day numbers: day 0 is 0000-01-01.

  /** Leap years in [0, y) (negative for y < 0, counting [y, 0)). */
  function LeapYearsBefore(y: int): int {
    (y + 3) / 4 - (y + 99) / 100 + (y + 399) / 400
  }

  function DaysBeforeYear(y: int): int {
    365 * y + LeapYearsBefore(y)
  }

  function DaysBeforeMonth(y: int, m: int): int
    requires 1 <= m <= 12
  {
    [0, 31, 59, 90, 120, 151, 181, 212, 243, 273, 304, 334][m - 1]
      + (if m > 2 && IsLeapYear(y) then 1 else 0)
  }

  function DayNumber(d: Date): int {
    DaysBeforeYear(d.year) + DaysBeforeMonth(d.year, d.month) + d.day - 1
  }

  /** Seconds since 0000-01-01T00:00:00. */
  function Instant(t: DateTime): int {
    DayNumber(t.date) * SecondsPerDay + t.second
  }

  lemma Div4Step(y: int)
    ensures (y + 4) / 4 == (y + 3) / 4 + (if y % 4 == 0 then 1 else 0)
  {
  }

  lemma Div100Step(y: int)
    ensures (y + 100) / 100 == (y + 99) / 100 + (if y % 100 == 0 then 1 else 0)
  {
  }

  lemma Div400Step(y: int)
    ensures (y + 400) / 400 == (y + 399) / 400 + (if y % 400 == 0 then 1 else 0)
  {
  }

  lemma LeapYearsStep(y: int)
    ensures LeapYearsBefore(y + 1) == LeapYearsBefore(y) + (if IsLeapYear(y) then 1 else 0)
  {
    Div4Step(y);
    Div100Step(y);
    Div400Step(y);
    if y % 400 == 0 {
      MultipleOf400(y);
    } else if y % 100 == 0 {
      MultipleOf100(y);
    }
  }

  lemma MultipleOf100(y: int)
    requires y % 100 == 0
    ensures y % 4 == 0
  {
    var q := y / 100;
    assert y == 4 * (25 * q);
  }

  lemma MultipleOf400(y: int)
    requires y % 400 == 0
    ensures y % 100 == 0 && y % 4 == 0
  {
    var q := y / 400;
    assert y == 400 * q;
    var k := 4 * q;
    assert y == 100 * k;
    assert (100 * k) % 100 == 0;
    MultipleOf100(y);
  }

  lemma DaysBeforeYearStep(y: int)
    ensures DaysBeforeYear(y + 1) == DaysBeforeYear(y) + DaysInYear(y)
  {
    LeapYearsStep(y);
  }

  lemma MonthStep(y: int, m: int)
    requires 1 <= m < 12
    ensures DaysBeforeMonth(y, m + 1) == DaysBeforeMonth(y, m) + DaysInMonth(y, m)
  {
  }

  /** The day of the year of a valid date lies inside its year. */
  lemma DayOfYearBounds(d: Date)
    ensures 0 <= DaysBeforeMonth(d.year, d.month) + d.day - 1 < DaysInYear(d.year)
  {
  }

  lemma {:induction false} DaysBeforeYearIncreasing(a: int, b: int)
    requires a < b
    ensures DaysBeforeYear(a) + DaysInYear(a) <= DaysBeforeYear(b)
    decreases b - a
  {
    DaysBeforeYearStep(a);
    if a + 1 < b {
      DaysBeforeYearIncreasing(a + 1, b);
      DaysBeforeYearStep(a + 1);
    }
  }

  /** chrono's lexicographic date order is the order of day numbers. */
  lemma DayNumberOrder(a: Date, b: Date)
    ensures DateBefore(a, b) <==> DayNumber(a) < DayNumber(b)
    ensures a == b <==> DayNumber(a) == DayNumber(b)
  {
    DayOfYearBounds(a);
    DayOfYearBounds(b);
    if a.year < b.year {
      DaysBeforeYearIncreasing(a.year, b.year);
    } else if b.year < a.year {
      DaysBeforeYearIncreasing(b.year, a.year);
    } else if a.month < b.month {
      MonthsIncreasing(a.year, a.month, b.month);
    } else if b.month < a.month {
      MonthsIncreasing(a.year, b.month, a.month);
    }
  }

  lemma {:induction false} MonthsIncreasing(y: int, m: int, n: int)
    requires 1 <= m < n <= 12
    ensures DaysBeforeMonth(y, m) + DaysInMonth(y, m) <= DaysBeforeMonth(y, n)
    decreases n - m
  {
    MonthStep(y, m);
    if m + 1 < n {
      MonthsIncreasing(y, m + 1, n);
    }
  }

  /** chrono's lexicographic date-time order is the order of instants. */
  lemma InstantOrder(a: DateTime, b: DateTime)
    ensures Before(a, b) <==> Instant(a) < Instant(b)
    ensures a == b <==> Instant(a) == Instant(b)
  {
    DayNumberOrder(a.date, b.date);
  }

  // ---------------------------------------------------------------------------
  // Stepping by one day and by one second.

  const LastDate: Date := Ymd(MaxYear, 12, 31)
  const FirstDate: Date := Ymd(MinYear, 1, 1)

  /** `NaiveDate::succ_opt`. */
  function NextDate(d: Date): (r: Option<Date>)
    ensures r.Some? <==> d != LastDate
    ensures r.Some? ==> DayNumber(r.value) == DayNumber(d) + 1
  {
    if d.day < DaysInMonth(d.year, d.month) then
      Some(Ymd(d.year, d.month, d.day + 1))
    else if d.month < 12 then
      MonthStep(d.year, d.month);
      Some(Ymd(d.year, d.month + 1, 1))
    else if d.year < MaxYear then
      DaysBeforeYearStep(d.year);
      Some(Ymd(d.year + 1, 1, 1))
    else
      None
  }

  /** `NaiveDate::pred_opt`. */
  function PrevDate(d: Date): (r: Option<Date>)
    ensures r.Some? <==> d != FirstDate
    ensures r.Some? ==> DayNumber(r.value) + 1 == DayNumber(d)
  {
    if d.day > 1 then
      Some(Ymd(d.year, d.month, d.day - 1))
    else if d.month > 1 then
      MonthStep(d.year, d.month - 1);
      Some(Ymd(d.year, d.month - 1, DaysInMonth(d.year, d.month - 1)))
    else if d.year > MinYear then
      DaysBeforeYearStep(d.year - 1);
      Some(Ymd(d.year - 1, 12, 31))
    else
      None
  }

  /** `NaiveDateTime::checked_add_signed(Duration::seconds(1))`. */
  function AddOneSecond(t: DateTime): (r: Option<DateTime>)
    ensures r.Some? <==> t != DateTime(LastDate, 86399)
    ensures r.Some? ==> Instant(r.value) == Instant(t) + 1
  {
    if t.second < 86399 then
      Some(DateTime(t.date, t.second + 1))
    else
      match NextDate(t.date)
      case Some(d) => Some(DateTime(d, 0))
      case None => None
  }

  /** `NaiveDateTime::checked_sub_signed(Duration::seconds(1))`. */
  function SubOneSecond(t: DateTime): (r: Option<DateTime>)
    ensures r.Some? <==> t != DateTime(FirstDate, 0)
    ensures r.Some? ==> Instant(r.value) + 1 == Instant(t)
  {
    if t.second > 0 then
      Some(DateTime(t.date, t.second - 1))
    else
      match PrevDate(t.date)
      case Some(d) => Some(DateTime(d, 86399))
      case None => None
  }

  /** One second later is the next date-time in chrono's order: later than
      `t`, with nothing strictly between. */
  lemma AddOneSecondIsSuccessor(t: DateTime, x: DateTime)
    requires AddOneSecond(t).Some?
    ensures Before(t, AddOneSecond(t).value)
    ensures !(Before(t, x) && Before(x, AddOneSecond(t).value))
  {
    var u := AddOneSecond(t).value;
    InstantOrder(t, u);
    InstantOrder(t, x);
    InstantOrder(x, u);
  }

  /** One second earlier is the previous date-time in chrono's order. */
  lemma SubOneSecondIsPredecessor(t: DateTime, x: DateTime)
    requires SubOneSecond(t).Some?
    ensures Before(SubOneSecond(t).value, t)
    ensures !(Before(SubOneSecond(t).value, x) && Before(x, t))
  {
    var u := SubOneSecond(t).value;
    InstantOrder(u, t);
    InstantOrder(u, x);
    InstantOrder(x, t);
  }
}
