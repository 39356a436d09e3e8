/**
 * The proleptic Gregorian calendar as Python's `datetime` module computes with it:
 * naive dates and times, the leap-year rule, the day ordinal of `date.toordinal`
 * and `datetime + timedelta(minutes = k)`.
 *
 * Years are unbounded integers here (Dafny's `/` and `%` by a positive constant are
 * the floor division and modulus of Python's `//` and `%`); the range check that makes
 * Python raise `OverflowError` outside the years 1..9999 is not modelled.
 */
module Calendar {

  datatype Date = Date(year: int, month: int, day: int)
  datatype Time = Time(hour: int, minute: int, second: int, microsecond: int)
  datatype DateTime = DateTime(date: Date, time: Time)

  /** Python's `calendar.isleap`: every fourth year, except centuries not divisible by 400. */
  predicate IsLeapYear(y: int) {
    y % 4 == 0 && (y % 100 != 0 || y % 400 == 0)
  }

  function DaysInYear(y: int): int {
    if IsLeapYear(y) then 366 else 365
  }

  function DaysInMonth(y: int, m: int): int
    requires 1 <= m <= 12
  {
    if m == 2 then (if IsLeapYear(y) then 29 else 28)
    else if m == 4 || m == 6 || m == 9 || m == 11 then 30
    else 31
  }

  predicate ValidDate(d: Date) {
    1 <= d.month <= 12 && 1 <= d.day <= DaysInMonth(d.year, d.month)
  }

  predicate ValidTime(t: Time) {
    0 <= t.hour < 24 && 0 <= t.minute < 60 && 0 <= t.second < 60 && 0 <= t.microsecond < 1000000
  }

  predicate ValidDateTime(dt: DateTime) {
    ValidDate(dt.date) && ValidTime(dt.time)
  }

  /**
   * `datetime.combine(date, time)`: the instant is valid exactly when both parts are, and
   * its `.date()` and `.time()` give the parts back.
   */
  function Combine(d: Date, t: Time): (r: DateTime)
    ensures ValidDateTime(r) <==> ValidDate(d) && ValidTime(t)
    ensures r.date == d && r.time == t
  {
    DateTime(d, t)
  }

  /** Days in the years before `y` (counted from year 1), as `_days_before_year`. */
  function DaysBeforeYear(y: int): int {
    var p := y - 1;
    p * 365 + p / 4 - p / 100 + p / 400
  }

  /** Days in the months of year `y` before month `m`, as `_days_before_month`. */
  function DaysBeforeMonth(y: int, m: int): int
    requires 1 <= m <= 12
  {
    var common :=
      if m == 1 then 0 else if m == 2 then 31 else if m == 3 then 59
      else if m == 4 then 90 else if m == 5 then 120 else if m == 6 then 151
      else if m == 7 then 181 else if m == 8 then 212 else if m == 9 then 243
      else if m == 10 then 273 else if m == 11 then 304 else 334;
    if m > 2 && IsLeapYear(y) then common + 1 else common
  }

  /** `date.toordinal()`: 0001-01-01 is day 1. */
  function DayNumber(d: Date): int
    requires ValidDate(d)
  {
    DaysBeforeYear(d.year) + DaysBeforeMonth(d.year, d.month) + d.day
  }

  /**
   * 1440 times the ordinal of the date, plus the minutes of the day; seconds and
   * microseconds are ignored. Only differences of it carry meaning.
   */
  function MinuteIndex(dt: DateTime): int
    requires ValidDateTime(dt)
  {
    DayNumber(dt.date) * 1440 + dt.time.hour * 60 + dt.time.minute
  }

  /** Strict chronological order of dates, field by field. */
  predicate DateBefore(a: Date, b: Date) {
    a.year < b.year
    || (a.year == b.year && a.month < b.month)
    || (a.year == b.year && a.month == b.month && a.day < b.day)
  }

  /** Floor division by 4, 100 and 400 steps up exactly at the multiples. */
  lemma QuotientSteps(y: int)
    ensures y / 4 - (y - 1) / 4 == if y % 4 == 0 then 1 else 0
    ensures y / 100 - (y - 1) / 100 == if y % 100 == 0 then 1 else 0
    ensures y / 400 - (y - 1) / 400 == if y % 400 == 0 then 1 else 0
  {
  }

  /** Multiples of 400 are multiples of 100, and multiples of 100 are multiples of 4. */
  lemma MultiplesNest(y: int)
    ensures y % 400 == 0 ==> y % 100 == 0
    ensures y % 100 == 0 ==> y % 4 == 0
  {
  }

  /** A year is followed by exactly as many days as it has. */
  lemma YearLength(y: int)
    ensures DaysBeforeYear(y + 1) == DaysBeforeYear(y) + DaysInYear(y)
  {
    QuotientSteps(y);
    MultiplesNest(y);
    assert DaysBeforeYear(y + 1) - DaysBeforeYear(y)
        == 365 + (y / 4 - (y - 1) / 4) - (y / 100 - (y - 1) / 100) + (y / 400 - (y - 1) / 400);
  }

  lemma {:induction false} DaysBeforeYearMonotone(a: int, b: int)
    requires a <= b
    ensures DaysBeforeYear(a) + (b - a) * 365 <= DaysBeforeYear(b)
    decreases b - a
  {
    if a < b {
      DaysBeforeYearMonotone(a, b - 1);
      YearLength(b - 1);
    }
  }

  /** Month `m` ends where month `m + 1` begins, and December ends where the year does. */
  lemma MonthLength(y: int, m: int)
    requires 1 <= m <= 12
    ensures m < 12 ==> DaysBeforeMonth(y, m + 1) == DaysBeforeMonth(y, m) + DaysInMonth(y, m)
    ensures m == 12 ==> DaysBeforeMonth(y, m) + DaysInMonth(y, m) == DaysInYear(y)
  {
  }

  lemma MonthsMonotone(y: int, m1: int, m2: int)
    requires 1 <= m1 < m2 <= 12
    ensures DaysBeforeMonth(y, m1) + DaysInMonth(y, m1) <= DaysBeforeMonth(y, m2)
  {
  }

  /** The ordinal of a valid date falls inside the span of its year. */
  lemma DayNumberInYear(d: Date)
    requires ValidDate(d)
    ensures DaysBeforeYear(d.year) < DayNumber(d) <= DaysBeforeYear(d.year + 1)
  {
    YearLength(d.year);
    if d.month < 12 {
      MonthsMonotone(d.year, d.month, 12);
    }
    MonthLength(d.year, 12);
  }

  /** `toordinal` is strictly increasing in chronological order. */
  lemma DayNumberMonotone(a: Date, b: Date)
    requires ValidDate(a) && ValidDate(b) && DateBefore(a, b)
    ensures DayNumber(a) < DayNumber(b)
  {
    if a.year < b.year {
      DayNumberInYear(a);
      DayNumberInYear(b);
      DaysBeforeYearMonotone(a.year + 1, b.year);
    } else if a.month < b.month {
      MonthsMonotone(a.year, a.month, b.month);
    }
  }

  /** Distinct valid dates have distinct ordinals. */
  lemma DayNumberInjective(a: Date, b: Date)
    requires ValidDate(a) && ValidDate(b) && DayNumber(a) == DayNumber(b)
    ensures a == b
  {
    if DateBefore(a, b) {
      DayNumberMonotone(a, b);
    } else if DateBefore(b, a) {
      DayNumberMonotone(b, a);
    }
  }

  /** Two valid instants with the same minute index agree on date, hour and minute. */
  lemma MinuteIndexInjective(a: DateTime, b: DateTime)
    requires ValidDateTime(a) && ValidDateTime(b) && MinuteIndex(a) == MinuteIndex(b)
    ensures a.date == b.date && a.time.hour == b.time.hour && a.time.minute == b.time.minute
  {
    var da, db := DayNumber(a.date), DayNumber(b.date);
    var ra, rb := a.time.hour * 60 + a.time.minute, b.time.hour * 60 + b.time.minute;
    assert da * 1440 + ra == db * 1440 + rb;
    assert da == db;
    DayNumberInjective(a.date, b.date);
  }

  /** The last day of a month is followed by the first of the next month. */
  lemma MonthTurn(y: int, m: int)
    requires 1 <= m < 12
    ensures ValidDate(Date(y, m, DaysInMonth(y, m))) && ValidDate(Date(y, m + 1, 1))
    ensures DayNumber(Date(y, m + 1, 1)) == DayNumber(Date(y, m, DaysInMonth(y, m))) + 1
  {
    MonthLength(y, m);
  }

  /** 31 December is followed by 1 January of the next year. */
  lemma YearTurn(y: int)
    ensures ValidDate(Date(y, 12, 31)) && ValidDate(Date(y + 1, 1, 1))
    ensures DayNumber(Date(y + 1, 1, 1)) == DayNumber(Date(y, 12, 31)) + 1
  {
    YearLength(y);
    MonthLength(y, 12);
  }

  /** The day after `d`. */
  function NextDay(d: Date): (r: Date)
    requires ValidDate(d)
    ensures ValidDate(r) && DayNumber(r) == DayNumber(d) + 1
  {
    if d.day < DaysInMonth(d.year, d.month) then Date(d.year, d.month, d.day + 1)
    else if d.month < 12 then (MonthTurn(d.year, d.month); Date(d.year, d.month + 1, 1))
    else (YearTurn(d.year); Date(d.year + 1, 1, 1))
  }

  /** The day before `d`: borrows across month and year ends, 29 February included. */
  function PrevDay(d: Date): (r: Date)
    requires ValidDate(d)
    ensures ValidDate(r) && DayNumber(r) == DayNumber(d) - 1
  {
    if d.day > 1 then Date(d.year, d.month, d.day - 1)
    else if d.month > 1 then (MonthTurn(d.year, d.month - 1); Date(d.year, d.month - 1, DaysInMonth(d.year, d.month - 1)))
    else (YearTurn(d.year - 1); Date(d.year - 1, 12, 31))
  }

  /** `date + timedelta(days = n)`, one day at a time. */
  function AddDays(d: Date, n: int): (r: Date)
    requires ValidDate(d)
    ensures ValidDate(r) && DayNumber(r) == DayNumber(d) + n
    decreases if n < 0 then -n else n
  {
    if n == 0 then d
    else if n > 0 then AddDays(NextDay(d), n - 1)
    else AddDays(PrevDay(d), n + 1)
  }

  /** The whole days, rounded down, that a shift by `k` minutes carries into the date. */
  function DayCarry(t: Time, k: int): int {
    (t.hour * 60 + t.minute + k) / 1440
  }

  /**
   * `datetime + timedelta(minutes = k)`: the minute of the day is shifted and
   * normalised into 0..1439 with floor division, the quotient moves the date.
   * The result is the valid instant exactly `k` minutes later (earlier when `k < 0`);
   * by MinuteIndexInjective no other valid instant with the same seconds has that index.
   */
  function AddMinutes(dt: DateTime, k: int): (r: DateTime)
    requires ValidDateTime(dt)
    ensures ValidDateTime(r)
    ensures r.time.second == dt.time.second && r.time.microsecond == dt.time.microsecond
    ensures MinuteIndex(r) == MinuteIndex(dt) + k
  {
    var rest := (dt.time.hour * 60 + dt.time.minute + k) % 1440;
    DateTime(AddDays(dt.date, DayCarry(dt.time, k)), Time(rest / 60, rest % 60, dt.time.second, dt.time.microsecond))
  }

  /** Adding zero minutes gives back the same instant. */
  lemma AddZeroMinutes(dt: DateTime)
    requires ValidDateTime(dt)
    ensures AddMinutes(dt, 0) == dt
  {
    MinuteIndexInjective(AddMinutes(dt, 0), dt);
  }

  lemma AddOneDayBack(d: Date)
    requires ValidDate(d)
    ensures AddDays(d, -1) == PrevDay(d)
  {
  }

  /** Going back by at most one day lands on the same date or on the day before. */
  lemma AddMinutesBackWithinDay(dt: DateTime, k: int)
    requires ValidDateTime(dt) && -1440 <= k <= 0
    ensures AddMinutes(dt, k).date == dt.date || AddMinutes(dt, k).date == PrevDay(dt.date)
  {
    var days := DayCarry(dt.time, k);
    assert days == 0 || days == -1;
    assert AddMinutes(dt, k).date == AddDays(dt.date, days);
    AddOneDayBack(dt.date);
  }
}
