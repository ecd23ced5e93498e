/**
 * The part of Python's `datetime` that the retry hint needs: which
 * (year, month, day, hour, minute, second) tuples `datetime.strptime`
 * accepts, and a point in time as whole seconds since 0001-01-01 00:00:00
 * in the proleptic Gregorian calendar, so that comparing two datetimes is
 * comparing two integers. A reading of the clock is an instant: a point in
 * time in microseconds, `datetime`'s own resolution, that `datetime` can
 * hold (up to 9999-12-31 23:59:59.999999).
 */
module Calendar {
  import opened Wrappers
  import opened Errors

  datatype DateTime = DateTime(year: nat, month: nat, day: nat, hour: nat, minute: nat, second: nat)

  predicate IsLeapYear(y: nat) {
    y % 4 == 0 && (y % 100 != 0 || y % 400 == 0)
  }

  function DaysInYear(y: nat): nat {
    if IsLeapYear(y) then 366 else 365
  }

  function DaysInMonth(y: nat, m: nat): (n: nat)
    requires 1 <= m <= 12
    ensures 28 <= n <= 31
  {
    if m == 2 then (if IsLeapYear(y) then 29 else 28)
    else if m == 4 || m == 6 || m == 9 || m == 11 then 30
    else 31
  }

  /** Days from 0001-01-01 to January 1 of year `y`. */
  function DaysBeforeYear(y: nat): nat
    requires y >= 1
  {
    var n := y - 1;
    365 * n + n / 4 - n / 100 + n / 400
  }

  /** Days from January 1 to the first of month `m` of year `y`. */
  function DaysBeforeMonth(y: nat, m: nat): nat
    requires 1 <= m <= 12
  {
    (if m == 1 then 0 else if m == 2 then 31 else if m == 3 then 59 else if m == 4 then 90
     else if m == 5 then 120 else if m == 6 then 151 else if m == 7 then 181
     else if m == 8 then 212 else if m == 9 then 243 else if m == 10 then 273
     else if m == 11 then 304 else 334)
    + (if m > 2 && IsLeapYear(y) then 1 else 0)
  }

  /**
   * The tuples `datetime` accepts: a year of at least 1, a day that exists
   * in its month, and a time of day without leap seconds. The four-digit
   * year of an IMF-fixdate keeps the year below 10000 on its own.
   */
  predicate IsValid(t: DateTime) {
    && 1 <= t.year
    && 1 <= t.month <= 12
    && 1 <= t.day <= DaysInMonth(t.year, t.month)
    && t.hour < 24 && t.minute < 60 && t.second < 60
  }

  function DayNumber(t: DateTime): nat
    requires IsValid(t)
  {
    DaysBeforeYear(t.year) + DaysBeforeMonth(t.year, t.month) + t.day - 1
  }

  function SecondOfDay(t: DateTime): nat {
    (t.hour * 60 + t.minute) * 60 + t.second
  }

  /** The point in time, in seconds since 0001-01-01 00:00:00. */
  function Timestamp(t: DateTime): int
    requires IsValid(t)
  {
    DayNumber(t) * 86400 + SecondOfDay(t)
  }

  /** Python's `<` on two datetimes: field by field, the year first. */
  predicate Before(a: DateTime, b: DateTime) {
    || a.year < b.year
    || (a.year == b.year && a.month < b.month)
    || (a.year == b.year && a.month == b.month && a.day < b.day)
    || (a.year == b.year && a.month == b.month && a.day == b.day && a.hour < b.hour)
    || (a.year == b.year && a.month == b.month && a.day == b.day && a.hour == b.hour && a.minute < b.minute)
    || (a.year == b.year && a.month == b.month && a.day == b.day && a.hour == b.hour && a.minute == b.minute
        && a.second < b.second)
  }

  /** Division with remainder has one answer. */
  lemma DivModOf(x: nat, k: nat, q: nat, r: nat)
    requires k > 0 && x == q * k + r && r < k
    ensures x / k == q && x % k == r
  {
    var q', r' := x / k, x % k;
    if q > q' {
      MulGrows(q - q', k);
    } else if q < q' {
      MulGrows(q' - q, k);
    }
  }

  lemma MulGrows(d: nat, k: nat)
    requires d >= 1
    ensures d * k >= k
  {
    assert d * k == (d - 1) * k + k;
  }

  lemma DivStep(n: nat, k: nat)
    requires k > 0
    ensures (n + 1) / k == n / k + (if (n + 1) % k == 0 then 1 else 0)
  {
    var q, r := n / k, n % k;
    DivModOf(n, k, q, r);
    if r == k - 1 {
      DivModOf(n + 1, k, q + 1, 0);
    } else {
      DivModOf(n + 1, k, q, r + 1);
    }
  }

  /** A multiple of 400 is one of 100, and a multiple of 100 one of 4. */
  lemma MultiplesNest(y: nat)
    ensures y % 400 == 0 ==> y % 100 == 0
    ensures y % 100 == 0 ==> y % 4 == 0
  {
    if y % 400 == 0 {
      assert y == (4 * (y / 400)) * 100 + 0;
      DivModOf(y, 100, 4 * (y / 400), 0);
    }
    if y % 100 == 0 {
      assert y == (25 * (y / 100)) * 4 + 0;
      DivModOf(y, 4, 25 * (y / 100), 0);
    }
  }

  lemma DaysBeforeYearStep(y: nat)
    requires y >= 1
    ensures DaysBeforeYear(y + 1) == DaysBeforeYear(y) + DaysInYear(y)
  {
    var n := y - 1;
    DivStep(n, 4);
    DivStep(n, 100);
    DivStep(n, 400);
    MultiplesNest(y);
  }

  lemma {:induction false} DaysBeforeYearGrows(a: nat, b: nat)
    requires 1 <= a < b
    ensures DaysBeforeYear(a) + DaysInYear(a) <= DaysBeforeYear(b)
    decreases b - a
  {
    DaysBeforeYearStep(a);
    if a + 1 < b {
      DaysBeforeYearGrows(a + 1, b);
    }
  }

  /** The day of the year stays inside its year. */
  lemma DayOfYearBound(t: DateTime)
    requires IsValid(t)
    ensures DaysBeforeMonth(t.year, t.month) + t.day - 1 < DaysInYear(t.year)
  {
  }

  lemma DaysBeforeMonthGrows(y: nat, a: nat, b: nat)
    requires 1 <= a < b <= 12
    ensures DaysBeforeMonth(y, a) + DaysInMonth(y, a) <= DaysBeforeMonth(y, b)
  {
  }

  lemma SecondOfDayBound(t: DateTime)
    requires t.hour < 24 && t.minute < 60 && t.second < 60
    ensures SecondOfDay(t) < 86400
  {
  }

  lemma SecondOfDayOrder(a: DateTime, b: DateTime)
    requires a.hour < 24 && a.minute < 60 && a.second < 60
    requires b.hour < 24 && b.minute < 60 && b.second < 60
    requires a.hour < b.hour || (a.hour == b.hour && a.minute < b.minute)
             || (a.hour == b.hour && a.minute == b.minute && a.second < b.second)
    ensures SecondOfDay(a) < SecondOfDay(b)
  {
    if a.hour < b.hour {
      assert (a.hour * 60 + a.minute) * 60 + a.second < (a.hour + 1) * 3600;
      assert (a.hour + 1) * 3600 <= b.hour * 3600;
    } else if a.minute < b.minute {
      assert a.minute * 60 + a.second < (a.minute + 1) * 60 <= b.minute * 60;
    }
  }

  lemma DayNumberOrder(a: DateTime, b: DateTime)
    requires IsValid(a) && IsValid(b)
    requires a.year < b.year || (a.year == b.year && a.month < b.month)
             || (a.year == b.year && a.month == b.month && a.day < b.day)
    ensures DayNumber(a) < DayNumber(b)
  {
    DayOfYearBound(a);
    if a.year < b.year {
      DaysBeforeYearGrows(a.year, b.year);
    } else if a.month < b.month {
      DaysBeforeMonthGrows(a.year, a.month, b.month);
    }
  }

  /**
   * Comparing timestamps is comparing the datetimes: the integer encoding
   * keeps Python's order on valid datetimes.
   */
  lemma {:induction false} TimestampOrder(a: DateTime, b: DateTime)
    requires IsValid(a) && IsValid(b)
    ensures Before(a, b) <==> Timestamp(a) < Timestamp(b)
  {
    SecondOfDayBound(a);
    SecondOfDayBound(b);
    if Before(a, b) {
      TimestampBefore(a, b);
    } else if a == b {
    } else {
      assert Before(b, a);
      TimestampBefore(b, a);
    }
  }

  lemma TimestampBefore(a: DateTime, b: DateTime)
    requires IsValid(a) && IsValid(b) && Before(a, b)
    ensures Timestamp(a) < Timestamp(b)
  {
    SecondOfDayBound(a);
    SecondOfDayBound(b);
    if a.year < b.year || (a.year == b.year && a.month < b.month)
       || (a.year == b.year && a.month == b.month && a.day < b.day) {
      DayNumberOrder(a, b);
      assert DayNumber(a) * 86400 + 86400 <= DayNumber(b) * 86400;
    } else {
      SecondOfDayOrder(a, b);
    }
  }

  /** Different valid datetimes are different points in time. */
  lemma TimestampInjective(a: DateTime, b: DateTime)
    requires IsValid(a) && IsValid(b) && Timestamp(a) == Timestamp(b)
    ensures a == b
  {
    TimestampOrder(a, b);
    TimestampOrder(b, a);
  }

  const MicrosPerSecond: nat := 1000000

  /** The last second `datetime` can hold. */
  const LastSecond: DateTime := DateTime(9999, 12, 31, 23, 59, 59)

  /** `datetime.max`, as an instant. */
  const MaxInstant: int := Timestamp(LastSecond) * MicrosPerSecond + (MicrosPerSecond - 1)

  /** The seconds of `timedelta.max`: 999999999 days and 86399 seconds. */
  const MaxDeltaSeconds: nat := 999999999 * 86400 + 86399

  /** A point in time `datetime` can hold, in microseconds since 0001-01-01 00:00:00. */
  predicate IsInstant(t: int) {
    0 <= t <= MaxInstant
  }

  /** The instant of a datetime `strptime` builds: no microseconds. */
  function InstantOf(d: DateTime): (t: int)
    requires IsValid(d)
    ensures t % MicrosPerSecond == 0
  {
    Timestamp(d) * MicrosPerSecond
  }

  /**
   * `t + timedelta(seconds=n)`: `OverflowError` when the `timedelta` or the
   * sum leaves its range.
   */
  function AddSeconds(t: int, n: nat): (r: Result<int, Exc>)
    ensures r.Ok? ==> t <= r.value <= MaxInstant && r.value - t == n * MicrosPerSecond
    ensures r.Err? <==> Overflows(t, n)
    ensures r.Err? ==> r.error == OverflowError
  {
    if Overflows(t, n) then Err(OverflowError) else Ok(t + n * MicrosPerSecond)
  }

  predicate Overflows(t: int, n: nat) {
    n > MaxDeltaSeconds || t + n * MicrosPerSecond > MaxInstant
  }

  /** No valid datetime of a four-digit year comes after the last second. */
  lemma {:induction false} NotAfterLastSecond(d: DateTime)
    requires IsValid(d) && d.year <= 9999
    ensures Timestamp(d) <= Timestamp(LastSecond)
    ensures Timestamp(d) == Timestamp(LastSecond) ==> d == LastSecond
  {
    if d != LastSecond {
      assert Before(d, LastSecond);
      TimestampBefore(d, LastSecond);
    }
  }
}
