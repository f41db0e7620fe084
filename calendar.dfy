/**
 * The proleptic Gregorian calendar behind Python's `datetime`: leap years,
 * month lengths, day-of-year numbering, a day count that orders dates, and
 * timestamps at microsecond resolution with offset arithmetic.
 */
module Calendar {

  /** The year range of a Python `datetime`. */
  const MinYear: int := 1
  const MaxYear: int := 9999

  const MicrosPerSecond: int := 1000000
  const MicrosPerMinute: int := 60000000
  const MicrosPerHour: int := 3600000000
  const MicrosPerDay: int := 86400000000

  /** The Gregorian rule: every fourth year, except centuries not divisible by 400. */
  predicate IsLeapYear(y: int) {
    y % 4 == 0 && (y % 100 != 0 || y % 400 == 0)
  }

  function DaysInYear(y: int): int {
    if IsLeapYear(y) then 366 else 365
  }

  function DaysInMonth(y: int, m: int): int
    requires 1 <= m <= 12
  {
    if m == 2 then (if IsLeapYear(y) then 29 else 28)
    else if m == 4 || m == 6 || m == 9 || m == 11 then 30
    else 31
  }

  /** Days of a common year before the first of month `m`; month 13 stands for the whole year. */
  function CommonDaysBeforeMonth(m: int): int
    requires 1 <= m <= 13
  {
    if m == 1 then 0 else if m == 2 then 31 else if m == 3 then 59 else if m == 4 then 90
    else if m == 5 then 120 else if m == 6 then 151 else if m == 7 then 181 else if m == 8 then 212
    else if m == 9 then 243 else if m == 10 then 273 else if m == 11 then 304 else if m == 12 then 334
    else 365
  }

  /** Days of year `y` that come before the first of month `m` (month 13 stands for the next January). */
  function DaysBeforeMonth(y: int, m: int): int
    requires 1 <= m <= 13
  {
    CommonDaysBeforeMonth(m) + (if m > 2 && IsLeapYear(y) then 1 else 0)
  }

  lemma DaysBeforeMonthStep(y: int, m: int)
    requires 1 <= m <= 12
    ensures DaysBeforeMonth(y, m + 1) == DaysBeforeMonth(y, m) + DaysInMonth(y, m)
    ensures DaysBeforeMonth(y, 1) == 0 && DaysBeforeMonth(y, 13) == DaysInYear(y)
  {
  }

  /** Months before `b` cover strictly more days than months before `a`. */
  lemma {:induction false} DaysBeforeMonthIncreasing(y: int, a: int, b: int)
    requires 1 <= a < b <= 13
    ensures DaysBeforeMonth(y, a) + DaysInMonth(y, a) <= DaysBeforeMonth(y, b)
    decreases b - a
  {
    DaysBeforeMonthStep(y, a);
    if a + 1 < b {
      DaysBeforeMonthIncreasing(y, a + 1, b);
      DaysBeforeMonthStep(y, a + 1);
    }
  }

  lemma DaysBeforeMonthAtMostYear(y: int, m: int)
    requires 1 <= m <= 13
    ensures DaysBeforeMonth(y, m) <= DaysInYear(y)
  {
    DaysBeforeMonthStep(y, 12);
    if m < 13 {
      DaysBeforeMonthIncreasing(y, m, 13);
    }
  }

  datatype Date = Date(year: int, month: int, day: int)

  predicate ValidDate(d: Date) {
    1 <= d.month <= 12 && 1 <= d.day <= DaysInMonth(d.year, d.month)
  }

  /** The day of the year, counting January 1 as day 1 (strftime's `%j`). */
  function DayOfYear(d: Date): (n: int)
    requires ValidDate(d)
    ensures 1 <= n <= DaysInYear(d.year)
    ensures DaysBeforeMonth(d.year, d.month) < n <= DaysBeforeMonth(d.year, d.month + 1)
  {
    DaysBeforeMonthStep(d.year, d.month);
    DaysBeforeMonthAtMostYear(d.year, d.month + 1);
    DaysBeforeMonth(d.year, d.month) + d.day
  }

  /** The month of year `y` holding day-of-year `n`, searched from month `m` on. */
  function MonthOfDay(y: int, n: int, m: int): (r: int)
    requires 1 <= m <= 12
    requires DaysBeforeMonth(y, m) < n <= DaysInYear(y)
    ensures m <= r <= 12
    ensures DaysBeforeMonth(y, r) < n <= DaysBeforeMonth(y, r + 1)
    decreases 12 - m, y, n
  {
    DaysBeforeMonthStep(y, m);
    if n <= DaysBeforeMonth(y, m + 1) then m else MonthOfDay(y, n, m + 1)
  }

  /** The calendar date of day-of-year `n` of year `y`: the inverse of DayOfYear. */
  function DateOfDayOfYear(y: int, n: int): (d: Date)
    requires 1 <= n <= DaysInYear(y)
    ensures ValidDate(d) && d.year == y && DayOfYear(d) == n
  {
    DaysBeforeMonthStep(y, 1);
    var m := MonthOfDay(y, n, 1);
    DaysBeforeMonthStep(y, m);
    Date(y, m, n - DaysBeforeMonth(y, m))
  }

  /** Within one year, the day of the year determines the date. */
  lemma DayOfYearInjective(d1: Date, d2: Date)
    requires ValidDate(d1) && ValidDate(d2) && d1.year == d2.year
    requires DayOfYear(d1) == DayOfYear(d2)
    ensures d1 == d2
  {
    if d1.month < d2.month {
      DaysBeforeMonthIncreasing(d1.year, d1.month + 1, d2.month + 1);
      DaysBeforeMonthStep(d1.year, d2.month);
      DaysBeforeMonthStep(d1.year, d1.month);
    } else if d2.month < d1.month {
      DaysBeforeMonthIncreasing(d1.year, d2.month + 1, d1.month + 1);
      DaysBeforeMonthStep(d1.year, d1.month);
      DaysBeforeMonthStep(d1.year, d2.month);
    }
  }

  lemma DateOfDayOfYearRoundTrip(d: Date)
    requires ValidDate(d)
    ensures DateOfDayOfYear(d.year, DayOfYear(d)) == d
  {
    DayOfYearInjective(DateOfDayOfYear(d.year, DayOfYear(d)), d);
  }

  /**
   * Days from January 1 of year 1 to January 1 of year `y` (negative before
   * year 1); the proleptic count behind `date.toordinal`.
   */
  function DaysBeforeYear(y: int): int {
    var p := y - 1;
    p * 365 + p / 4 - p / 100 + p / 400
  }

  /** Each year adds its own length to the count. */
  lemma DaysBeforeYearStep(y: int)
    ensures DaysBeforeYear(y + 1) == DaysBeforeYear(y) + DaysInYear(y)
  {
    MultipleStep(y, 4);
    MultipleStep(y, 100);
    MultipleStep(y, 400);
  }

  /** Going from `y - 1` to `y` raises the quotient by `k` exactly when `y` is a multiple of `k`. */
  lemma MultipleStep(y: int, k: int)
    requires k > 0
    ensures y / k - (y - 1) / k == if y % k == 0 then 1 else 0
  {
    var q, r := (y - 1) / k, (y - 1) % k;
    if r + 1 == k {
      DivModUnique(y, k, q + 1, 0);
    } else {
      DivModUnique(y, k, q, r + 1);
    }
  }

  /** Later years start later: all of year `a` lies before year `b` starts. */
  lemma {:induction false} DaysBeforeYearIncreasing(a: int, b: int)
    requires a < b
    ensures DaysBeforeYear(a) + DaysInYear(a) <= DaysBeforeYear(b)
    decreases b - a
  {
    DaysBeforeYearStep(a);
    if a + 1 < b {
      DaysBeforeYearIncreasing(a + 1, b);
      DaysBeforeYearStep(a + 1);
    }
  }

  /** `date.toordinal()`: January 1 of year 1 is day 1. */
  function Ordinal(d: Date): int
    requires ValidDate(d)
  {
    DaysBeforeYear(d.year) + DayOfYear(d)
  }

  /**
   * Day `n` counted from the start of year `y` (any integer: 0 is December 31
   * of the year before, DaysInYear(y) + 1 is January 1 of the next year),
   * carried into the year it falls in, as (year, day of that year).
   */
  function Normalize(y: int, n: int): (r: (int, int))
    ensures 1 <= r.1 <= DaysInYear(r.0)
    ensures DaysBeforeYear(r.0) + r.1 == DaysBeforeYear(y) + n
    decreases if n < 1 then 1 - n else 0, if n > 0 then n else 0
  {
    DaysBeforeYearStep(y);
    DaysBeforeYearStep(y - 1);
    if n > DaysInYear(y) then Normalize(y + 1, n - DaysInYear(y))
    else if n < 1 then Normalize(y - 1, n + DaysInYear(y - 1))
    else (y, n)
  }

  /** The day count determines the date. */
  lemma OrdinalInjective(d1: Date, d2: Date)
    requires ValidDate(d1) && ValidDate(d2)
    requires Ordinal(d1) == Ordinal(d2)
    ensures d1 == d2
  {
    if d1.year < d2.year {
      DaysBeforeYearIncreasing(d1.year, d2.year);
    } else if d2.year < d1.year {
      DaysBeforeYearIncreasing(d2.year, d1.year);
    } else {
      DayOfYearInjective(d1, d2);
    }
  }

  /** The date that lies `n` days after January 1 of year `y` counts as day `n`. */
  function DateAt(y: int, n: int): (d: Date)
    ensures ValidDate(d)
    ensures Ordinal(d) == DaysBeforeYear(y) + n
  {
    var (y', n') := Normalize(y, n);
    DateOfDayOfYear(y', n')
  }

  /** A day of year already within year `y` stays in year `y`. */
  lemma NormalizeWithinYear(y: int, n: int)
    requires 1 <= n <= DaysInYear(y)
    ensures Normalize(y, n) == (y, n)
  {
  }

  /** A Python `datetime` (naive): calendar date, time of day and microseconds. */
  datatype Timestamp = Timestamp(year: int, month: int, day: int,
                                 hour: int, minute: int, second: int, microsecond: int)

  function DateOf(t: Timestamp): Date {
    Date(t.year, t.month, t.day)
  }

  predicate Valid(t: Timestamp) {
    && ValidDate(DateOf(t))
    && 0 <= t.hour < 24 && 0 <= t.minute < 60 && 0 <= t.second < 60
    && 0 <= t.microsecond < MicrosPerSecond
  }

  /** The year lies within what a `datetime` can hold. */
  predicate InRange(t: Timestamp) {
    MinYear <= t.year <= MaxYear
  }

  function Midnight(d: Date): (t: Timestamp)
    ensures DateOf(t) == d && t.hour == 0 && t.minute == 0 && t.second == 0 && t.microsecond == 0
  {
    Timestamp(d.year, d.month, d.day, 0, 0, 0, 0)
  }

  /** Microseconds since the midnight that starts the timestamp's day. */
  function MicroOfDay(t: Timestamp): int {
    t.hour * MicrosPerHour + t.minute * MicrosPerMinute + t.second * MicrosPerSecond + t.microsecond
  }

  lemma MicroOfDayBounds(t: Timestamp)
    requires Valid(t)
    ensures 0 <= MicroOfDay(t) < MicrosPerDay
  {
  }

  /** The timestamp `us` microseconds after the midnight that starts day `d`. */
  function AtMicroOfDay(d: Date, us: int): (t: Timestamp)
    requires ValidDate(d) && 0 <= us < MicrosPerDay
    ensures Valid(t) && DateOf(t) == d && MicroOfDay(t) == us
  {
    ClockOfMicros(us);
    Timestamp(d.year, d.month, d.day,
              us / MicrosPerHour,
              (us % MicrosPerHour) / MicrosPerMinute,
              (us % MicrosPerMinute) / MicrosPerSecond,
              us % MicrosPerSecond)
  }

  /** Microseconds into a day split into in-range hours, minutes, seconds and microseconds that add back up. */
  lemma ClockOfMicros(us: int)
    requires 0 <= us < MicrosPerDay
    ensures 0 <= us / MicrosPerHour < 24 && 0 <= (us % MicrosPerHour) / MicrosPerMinute < 60
    ensures 0 <= (us % MicrosPerMinute) / MicrosPerSecond < 60 && 0 <= us % MicrosPerSecond < MicrosPerSecond
    ensures us == (us / MicrosPerHour) * MicrosPerHour + ((us % MicrosPerHour) / MicrosPerMinute) * MicrosPerMinute
                  + ((us % MicrosPerMinute) / MicrosPerSecond) * MicrosPerSecond + us % MicrosPerSecond
  {
    var h, r1 := us / MicrosPerHour, us % MicrosPerHour;
    var mi, r2 := r1 / MicrosPerMinute, r1 % MicrosPerMinute;
    DivModUnique(us, MicrosPerMinute, h * 60 + mi, r2);
    var s, r3 := r2 / MicrosPerSecond, r2 % MicrosPerSecond;
    DivModUnique(us, MicrosPerSecond, (h * 60 + mi) * 60 + s, r3);
  }

  /** Time of day determines hour, minute, second and microsecond. */
  lemma MicroOfDayInjective(t1: Timestamp, t2: Timestamp)
    requires Valid(t1) && Valid(t2) && DateOf(t1) == DateOf(t2)
    requires MicroOfDay(t1) == MicroOfDay(t2)
    ensures t1 == t2
  {
    DigitsOfMicroOfDay(t1);
    DigitsOfMicroOfDay(t2);
  }

  lemma DigitsOfMicroOfDay(t: Timestamp)
    requires Valid(t)
    ensures t.hour == MicroOfDay(t) / MicrosPerHour
    ensures t.minute == (MicroOfDay(t) % MicrosPerHour) / MicrosPerMinute
    ensures t.second == (MicroOfDay(t) % MicrosPerMinute) / MicrosPerSecond
    ensures t.microsecond == MicroOfDay(t) % MicrosPerSecond
  {
    var r1 := t.minute * MicrosPerMinute + t.second * MicrosPerSecond + t.microsecond;
    assert 0 <= r1 < MicrosPerHour;
    DivModUnique(MicroOfDay(t), MicrosPerHour, t.hour, r1);
    var r2 := t.second * MicrosPerSecond + t.microsecond;
    assert 0 <= r2 < MicrosPerMinute;
    DivModUnique(r1, MicrosPerMinute, t.minute, r2);
    DivModUnique(MicroOfDay(t), MicrosPerMinute, t.hour * 60 + t.minute, r2);
    DivModUnique(r2, MicrosPerSecond, t.second, t.microsecond);
    DivModUnique(MicroOfDay(t), MicrosPerSecond, (t.hour * 60 + t.minute) * 60 + t.second, t.microsecond);
  }

  lemma DivModUnique(a: int, d: int, q: int, r: int)
    requires d > 0 && a == q * d + r && 0 <= r < d
    ensures a / d == q && a % d == r
  {
    var q', r' := a / d, a % d;
    assert q' * d + r' == a;
    if q < q' {
      MulAtLeastDivisor(q' - q, d);
    } else if q' < q {
      MulAtLeastDivisor(q - q', d);
    }
  }

  lemma {:induction false} MulAtLeastDivisor(k: int, d: int)
    requires k >= 1 && d > 0
    ensures k * d >= d
    decreases k
  {
    if k > 1 {
      MulAtLeastDivisor(k - 1, d);
      assert k * d == (k - 1) * d + d;
    }
  }

  /**
   * The instant a valid timestamp denotes: microseconds since the start of
   * January 1 of year 1.
   */
  function Instant(t: Timestamp): int
    requires Valid(t)
  {
    (Ordinal(DateOf(t)) - 1) * MicrosPerDay + MicroOfDay(t)
  }

  /** Distinct valid timestamps denote distinct instants. */
  lemma InstantInjective(t1: Timestamp, t2: Timestamp)
    requires Valid(t1) && Valid(t2)
    requires Instant(t1) == Instant(t2)
    ensures t1 == t2
  {
    MicroOfDayBounds(t1);
    MicroOfDayBounds(t2);
    var o1, o2 := Ordinal(DateOf(t1)) - 1, Ordinal(DateOf(t2)) - 1;
    DivModUnique(Instant(t1), MicrosPerDay, o1, MicroOfDay(t1));
    DivModUnique(Instant(t2), MicrosPerDay, o2, MicroOfDay(t2));
    OrdinalInjective(DateOf(t1), DateOf(t2));
    MicroOfDayInjective(t1, t2);
  }

  /**
   * `t + timedelta(microseconds=delta)`: the timestamp `delta` microseconds
   * later (earlier when negative), carried across days, months and years.
   */
  function AddMicros(t: Timestamp, delta: int): (r: Timestamp)
    requires Valid(t)
    ensures Valid(r) && Instant(r) == Instant(t) + delta
  {
    var total := MicroOfDay(t) + delta;
    var days := total / MicrosPerDay;
    var d := DateAt(t.year, DayOfYear(DateOf(t)) + days);
    AtMicroOfDay(d, total % MicrosPerDay)
  }

  lemma AddMicrosZero(t: Timestamp)
    requires Valid(t)
    ensures AddMicros(t, 0) == t
  {
    InstantInjective(AddMicros(t, 0), t);
  }

  /** Adding two offsets one after the other is adding their sum. */
  lemma AddMicrosAdditive(t: Timestamp, a: int, b: int)
    requires Valid(t)
    ensures AddMicros(AddMicros(t, a), b) == AddMicros(t, a + b)
  {
    InstantInjective(AddMicros(AddMicros(t, a), b), AddMicros(t, a + b));
  }

  /** An offset split in two parts may be added one part after the other. */
  lemma AddMicrosThrough(start: Timestamp, m: Timestamp, days: int, us: int, total: int)
    requires Valid(start) && AddMicros(start, days) == m && total == days + us
    ensures AddMicros(start, total) == AddMicros(m, us)
  {
    InstantInjective(AddMicros(start, total), AddMicros(m, us));
  }

  /** An offset that stays within the day only moves the time of day. */
  lemma AddMicrosWithinDay(t: Timestamp, delta: int)
    requires Valid(t) && 0 <= MicroOfDay(t) + delta < MicrosPerDay
    ensures AddMicros(t, delta) == AtMicroOfDay(DateOf(t), MicroOfDay(t) + delta)
  {
    InstantInjective(AddMicros(t, delta), AtMicroOfDay(DateOf(t), MicroOfDay(t) + delta));
  }
}
