/** Naive date-times as Python's `datetime.datetime` has them: proleptic
    Gregorian calendar, years 1 to 9999, microsecond resolution. An instant is
    the number of microseconds since 0001-01-01 00:00:00; `datetime` objects
    compare by it, and adding a `timedelta` moves it. */
module Calendar {
  import opened Wrappers

  const MIN_YEAR := 1
  const MAX_YEAR := 9999
  const MICROS_PER_SECOND := 1000000
  const MICROS_PER_DAY := 86400 * MICROS_PER_SECOND

  /** `timedelta(hours=5, minutes=30)`, the fixed offset to Indian Standard Time. */
  const IST_OFFSET_MINUTES := 5 * 60 + 30
  const IST_OFFSET_MICROS := IST_OFFSET_MINUTES * 60 * MICROS_PER_SECOND

  datatype DateTime = DateTime(year: int, month: int, day: int,
                               hour: int, minute: int, second: int, microsecond: int)
  {
    /** The fields describe a value the `datetime` constructor accepts. */
    predicate Valid() {
      && MIN_YEAR <= year <= MAX_YEAR
      && 1 <= month <= 12
      && 1 <= day <= DaysInMonth(year, month)
      && 0 <= hour < 24
      && 0 <= minute < 60
      && 0 <= second < 60
      && 0 <= microsecond < MICROS_PER_SECOND
    }
  }

  predicate IsLeapYear(y: int) {
    y % 4 == 0 && (y % 100 != 0 || y % 400 == 0)
  }

  function YearLength(y: int): int {
    if IsLeapYear(y) then 366 else 365
  }

  function DaysInMonth(y: int, m: int): int
    requires 1 <= m <= 12
  {
    if m == 2 then (if IsLeapYear(y) then 29 else 28)
    else if m == 4 || m == 6 || m == 9 || m == 11 then 30
    else 31
  }

  /** Days in the years 1 .. y-1 (the closed form `datetime` uses). */
  function DaysBeforeYear(y: int): int
    requires y >= 1
  {
    var p := y - 1;
    p * 365 + p / 4 - p / 100 + p / 400
  }

  /** Days in the months 1 .. m-1 of year y. */
  function DaysBeforeMonth(y: int, m: int): int
    requires 1 <= m <= 12
  {
    var common :=
      if m == 1 then 0 else if m == 2 then 31 else if m == 3 then 59
      else if m == 4 then 90 else if m == 5 then 120 else if m == 6 then 151
      else if m == 7 then 181 else if m == 8 then 212 else if m == 9 then 243
      else if m == 10 then 273 else if m == 11 then 304 else 334;
    common + (if m > 2 && IsLeapYear(y) then 1 else 0)
  }

  /** Whole days between 0001-01-01 and the date of `dt`. */
  function DayNumber(dt: DateTime): int
    requires dt.Valid()
  {
    DaysBeforeYear(dt.year) + DaysBeforeMonth(dt.year, dt.month) + dt.day - 1
  }

  /** Microseconds since 0001-01-01 00:00:00. */
  function Instant(dt: DateTime): int
    requires dt.Valid()
  {
    DayNumber(dt) * MICROS_PER_DAY
      + ((dt.hour * 60 + dt.minute) * 60 + dt.second) * MICROS_PER_SECOND
      + dt.microsecond
  }

  /** The first instant after 9999-12-31 23:59:59.999999. */
  const END_OF_TIME := DaysBeforeYear(MAX_YEAR + 1) * MICROS_PER_DAY

  /** A year contributes exactly its length to the day count. */
  lemma DaysBeforeNextYear(y: int)
    requires y >= 1
    ensures DaysBeforeYear(y + 1) == DaysBeforeYear(y) + YearLength(y)
  {
    var p := y - 1;
    assert y / 4 == p / 4 + (if y % 4 == 0 then 1 else 0);
    assert y / 100 == p / 100 + (if y % 100 == 0 then 1 else 0);
    assert y / 400 == p / 400 + (if y % 400 == 0 then 1 else 0);
  }

  /** Every valid date-time lies in the range `datetime` can represent. */
  lemma {:induction false} InstantInRange(dt: DateTime)
    requires dt.Valid()
    ensures 0 <= Instant(dt) < END_OF_TIME
  {
    DayNumberInRange(dt);
    var t := ((dt.hour * 60 + dt.minute) * 60 + dt.second) * MICROS_PER_SECOND + dt.microsecond;
    assert 0 <= t < MICROS_PER_DAY;
    ScaledInRange(DayNumber(dt), DaysBeforeYear(MAX_YEAR + 1), t, MICROS_PER_DAY);
  }

  /** Every valid date has a day number below that of 10000-01-01. */
  lemma DayNumberInRange(dt: DateTime)
    requires dt.Valid()
    ensures 0 <= DayNumber(dt) < DaysBeforeYear(MAX_YEAR + 1)
  {
    DaysBeforeNextYear(dt.year);
    DaysBeforeYearMonotone(dt.year + 1, MAX_YEAR + 1);
    assert DaysBeforeMonth(dt.year, dt.month) + DaysInMonth(dt.year, dt.month) <= YearLength(dt.year);
  }

  /** A count below `n` of units of size `u`, plus less than one unit, stays
      below `n` units. */
  lemma ScaledInRange(k: int, n: int, t: int, u: int)
    requires 0 <= k < n && 0 <= t < u
    ensures 0 <= k * u + t < n * u
  {
    assert (n - k - 1) * u >= 0;
    assert n * u == k * u + u + (n - k - 1) * u;
  }

  lemma {:induction false} DaysBeforeYearMonotone(a: int, b: int)
    requires 1 <= a <= b
    ensures DaysBeforeYear(a) <= DaysBeforeYear(b)
    decreases b - a
  {
    if a < b {
      DaysBeforeNextYear(a);
      DaysBeforeYearMonotone(a + 1, b);
    }
  }

  /** The calendar date that follows y-m-d, as (year, month, day); the year may
      become MAX_YEAR + 1. */
  function NextDay(y: int, m: int, d: int): (int, int, int)
    requires 1 <= m <= 12 && 1 <= d <= DaysInMonth(y, m)
  {
    if d < DaysInMonth(y, m) then (y, m, d + 1)
    else if m < 12 then (y, m + 1, 1)
    else (y + 1, 1, 1)
  }

  /** The day after a date has the next day number. */
  lemma NextDayNumber(dt: DateTime)
    requires dt.Valid()
    requires dt.year < MAX_YEAR || dt.month < 12 || dt.day < 31
    ensures var (y, m, d) := NextDay(dt.year, dt.month, dt.day);
      var next := dt.(year := y, month := m, day := d);
      next.Valid() && DayNumber(next) == DayNumber(dt) + 1
  {
    DaysBeforeNextYear(dt.year);
  }

  /** `dt + timedelta(hours=5, minutes=30)`, with the carry from minutes to
      hours to days to months to years written out; `None` stands for the
      `OverflowError` raised when the result would be past year 9999. */
  function AddIstOffset(dt: DateTime): (r: Option<DateTime>)
    requires dt.Valid()
    ensures r.Some? ==> r.value.Valid() && Instant(r.value) == Instant(dt) + IST_OFFSET_MICROS
    ensures r.None? <==> Instant(dt) + IST_OFFSET_MICROS >= END_OF_TIME
  {
    var minutes := dt.hour * 60 + dt.minute + IST_OFFSET_MINUTES;
    if minutes < 24 * 60 then
      var r := dt.(hour := minutes / 60, minute := minutes % 60);
      SameDayShift(dt, r);
      Some(r)
    else if dt.year == MAX_YEAR && dt.month == 12 && dt.day == 31 then
      LastDayShift(dt);
      None
    else
      var (y, m, d) := NextDay(dt.year, dt.month, dt.day);
      var rest := minutes - 24 * 60;
      var r := DateTime(y, m, d, rest / 60, rest % 60, dt.second, dt.microsecond);
      NextDayShift(dt, r);
      Some(r)
  }

  /** The shift that stays within the day only moves the clock. */
  lemma SameDayShift(dt: DateTime, r: DateTime)
    requires dt.Valid()
    requires var minutes := dt.hour * 60 + dt.minute + IST_OFFSET_MINUTES;
      minutes < 24 * 60 && r == dt.(hour := minutes / 60, minute := minutes % 60)
    ensures r.Valid() && Instant(r) == Instant(dt) + IST_OFFSET_MICROS
    ensures Instant(dt) + IST_OFFSET_MICROS < END_OF_TIME
  {
    InstantInRange(r);
  }

  /** On the last day of year 9999 a shift past midnight leaves the range. */
  lemma LastDayShift(dt: DateTime)
    requires dt.Valid() && dt.year == MAX_YEAR && dt.month == 12 && dt.day == 31
    requires dt.hour * 60 + dt.minute + IST_OFFSET_MINUTES >= 24 * 60
    ensures Instant(dt) + IST_OFFSET_MICROS >= END_OF_TIME
  {
    DaysBeforeNextYear(MAX_YEAR);
  }

  /** The shift past midnight moves to the next day and the remaining minutes. */
  lemma NextDayShift(dt: DateTime, r: DateTime)
    requires dt.Valid()
    requires dt.year < MAX_YEAR || dt.month < 12 || dt.day < 31
    requires var minutes := dt.hour * 60 + dt.minute + IST_OFFSET_MINUTES;
      var (y, m, d) := NextDay(dt.year, dt.month, dt.day);
      minutes >= 24 * 60
      && r == DateTime(y, m, d, (minutes - 24 * 60) / 60, (minutes - 24 * 60) % 60, dt.second, dt.microsecond)
    ensures r.Valid() && Instant(r) == Instant(dt) + IST_OFFSET_MICROS
    ensures Instant(dt) + IST_OFFSET_MICROS < END_OF_TIME
  {
    NextDayNumber(dt);
    InstantInRange(r);
  }

  /** The test date of the unit tests, 26 Jun 2024 10:30:00, becomes 16:00:00
      the same day. */
  lemma AddIstOffsetExample()
    ensures AddIstOffset(DateTime(2024, 6, 26, 10, 30, 0, 0)) == Some(DateTime(2024, 6, 26, 16, 0, 0, 0))
  {
  }

  /** A late evening on the last day of a leap February rolls over into March. */
  lemma AddIstOffsetLeapRollover()
    ensures AddIstOffset(DateTime(2024, 2, 29, 20, 0, 0, 0)) == Some(DateTime(2024, 3, 1, 1, 30, 0, 0))
    ensures AddIstOffset(DateTime(2023, 12, 31, 23, 59, 59, 0)) == Some(DateTime(2024, 1, 1, 5, 29, 59, 0))
  {
  }
}
