/**
 The proleptic Gregorian calendar in UTC, as the cron search sees it through `time.Time`.

 An instant is a number of whole seconds since 0001-01-01 00:00:00 UTC, which is the zero
 time of the source language; a day number counts days from the same origin.
 */
module Calendar {
  import opened Arith

  const MINUTE := 60
  const HOUR := 3600
  const DAY := 86400

  predicate IsLeap(y: int) {
    y % 4 == 0 && (y % 100 != 0 || y % 400 == 0)
  }

  /** The day number of 1 January of year `y`. */
  function YearStart(y: int): int {
    var n := y - 1;
    365 * n + n / 4 - n / 100 + n / 400
  }

  /** Consecutive new years are a leap or a common year apart. */
  lemma YearLength(y: int)
    ensures YearStart(y + 1) - YearStart(y) == if y % 4 == 0 && (y % 100 != 0 || y % 400 == 0) then 366 else 365
  {
    DivStep(y, 4);
    DivStep(y, 100);
    DivStep(y, 400);
    LeapRules(y);
  }

  lemma LeapRules(y: int)
    ensures y % 400 == 0 ==> y % 100 == 0
    ensures y % 100 == 0 ==> y % 4 == 0
  {
    if y % 400 == 0 {
      QuotientUnique(y, 100, 4 * (y / 400), 0);
    }
    if y % 100 == 0 {
      QuotientUnique(y, 4, 25 * (y / 100), 0);
    }
  }

  /** Counting up to `y`, the quotient by `k` moves exactly at the multiples of `k`. */
  lemma DivStep(y: int, k: int)
    requires k > 1
    ensures y / k - (y - 1) / k == if y % k == 0 then 1 else 0
  {
    var q, r := y / k, y % k;
    if r == 0 {
      assert y - 1 == (q - 1) * k + (k - 1);
      QuotientUnique(y - 1, k, q - 1, k - 1);
    } else {
      QuotientUnique(y - 1, k, q, r - 1);
    }
  }

  lemma {:induction false} YearStartMonotone(y: int, z: int)
    requires y <= z
    ensures YearStart(z) - YearStart(y) >= 365 * (z - y)
    decreases z - y
  {
    if y < z {
      YearLength(z - 1);
      YearStartMonotone(y, z - 1);
    }
  }

  /** The year a day falls in: estimated from the mean year length, then corrected. */
  function YearOfDay(d: int): (y: int)
    ensures YearStart(y) <= d < YearStart(y + 1)
  {
    var y := 400 * d / 146097 + 1;
    YearEstimate(d);
    if d < YearStart(y) then y - 1
    else if YearStart(y + 1) <= d then y + 1
    else y
  }

  lemma YearEstimate(d: int)
    ensures var y := 400 * d / 146097 + 1; YearStart(y - 1) <= d < YearStart(y + 2)
  {
  }

  /** Days of year `y` before the first of month `m`; month 13 stands for the next January. */
  function DaysBeforeMonth(y: int, m: int): int
    requires 1 <= m <= 13
  {
    [0, 31, 59, 90, 120, 151, 181, 212, 243, 273, 304, 334, 365][m - 1]
    + if m > 2 && IsLeap(y) then 1 else 0
  }

  /** The day number of the first of month `m` of year `y`. */
  function MonthStart(y: int, m: int): int
    requires 1 <= m <= 13
  {
    YearStart(y) + DaysBeforeMonth(y, m)
  }

  datatype Date = Date(year: int, month: int, day: int)

  predicate ValidDate(c: Date) {
    && 1 <= c.month <= 12
    && 1 <= c.day <= MonthStart(c.year, c.month + 1) - MonthStart(c.year, c.month)
  }

  /** Day number to calendar date. */
  function DateOf(d: int): (c: Date)
    ensures ValidDate(c)
    ensures d == MonthStart(c.year, c.month) + c.day - 1
    ensures YearStart(c.year) <= d < YearStart(c.year + 1)
  {
    var y := YearOfDay(d);
    YearLength(y);
    var m := MonthIn(y, d, 1);
    Date(y, m, d - MonthStart(y, m) + 1)
  }

  function MonthIn(y: int, d: int, m: int): (r: int)
    requires 1 <= m <= 12 && MonthStart(y, m) <= d < MonthStart(y, 13)
    ensures 1 <= r <= 12 && MonthStart(y, r) <= d < MonthStart(y, r + 1)
    decreases 12 - m
  {
    if d < MonthStart(y, m + 1) then m else MonthIn(y, d, m + 1)
  }

  lemma YearUnique(y: int, z: int, d: int)
    requires YearStart(y) <= d < YearStart(y + 1)
    requires YearStart(z) <= d < YearStart(z + 1)
    ensures y == z
  {
    if y < z {
      YearStartMonotone(y + 1, z);
    } else if z < y {
      YearStartMonotone(z + 1, y);
    }
  }

  lemma MonthUnique(y: int, m: int, n: int, d: int)
    requires 1 <= m <= 12 && 1 <= n <= 12
    requires DaysBeforeMonth(y, m) <= d < DaysBeforeMonth(y, m + 1)
    requires DaysBeforeMonth(y, n) <= d < DaysBeforeMonth(y, n + 1)
    ensures m == n
  {
  }

  lemma MonthWithinYear(y: int, m: int)
    requires 1 <= m <= 12
    ensures YearStart(y) <= MonthStart(y, m) < MonthStart(y, m + 1) <= MonthStart(y, 13) == YearStart(y + 1)
  {
    YearLength(y);
  }

  /** A day has one calendar date: every way of writing it agrees with `DateOf`. */
  lemma DateUnique(c: Date)
    requires ValidDate(c)
    ensures DateOf(MonthStart(c.year, c.month) + c.day - 1) == c
  {
    hide DateOf, YearStart, DaysBeforeMonth;
    var d := MonthStart(c.year, c.month) + c.day - 1;
    var r := DateOf(d);
    MonthWithinYear(c.year, c.month);
    MonthWithinYear(r.year, r.month);
    YearUnique(c.year, r.year, d);
    MonthUnique(c.year, c.month, r.month, d - YearStart(c.year));
  }

  // ---------------------------------------------------------------- fields of an instant

  function Year(t: int): int { DateOf(t / DAY).year }
  function Month(t: int): int { DateOf(t / DAY).month }
  function MonthDay(t: int): int { DateOf(t / DAY).day }
  /** Sunday is 0; day number 0 was a Monday. */
  function Weekday(t: int): int { (t / DAY + 1) % 7 }
  function Hour(t: int): int { t % DAY / HOUR }
  function Minute(t: int): int { t % HOUR / MINUTE }
  function Second(t: int): int { t % MINUTE }

  /** `t` rounded down to a multiple of `unit`. */
  function Floor(t: int, unit: int): int
    requires unit > 0
  {
    t - t % unit
  }

  /** Midnight on the first of the month of `t`: `time.Date(y, m, 1, 0, 0, 0, 0, loc)`. */
  function MonthFloor(t: int): int {
    MonthStart(Year(t), Month(t)) * DAY
  }

  /** `t.AddDate(0, 1, 0)`: same day of the following month, overflowing days carried on. */
  function AddMonth(t: int): int {
    var c := DateOf(t / DAY);
    (MonthStart(c.year, c.month + 1) + c.day - 1) * DAY + t % DAY
  }

  lemma NewYears()
    ensures MonthStart(1, 1) == 0 && MonthStart(1970, 1) == 719162 && MonthStart(2001, 1) == 730485
  {
  }

  lemma NewYearDate(y: int)
    ensures DateOf(MonthStart(y, 1)) == Date(y, 1, 1)
  {
    hide DateOf, YearStart, DaysBeforeMonth;
    MonthWithinYear(y, 1);
    DateUnique(Date(y, 1, 1));
  }

  /** The origin, the day on which the Unix epoch starts, and a new year. */
  lemma KnownDays()
    ensures DateOf(0) == Date(1, 1, 1) && DateOf(730485) == Date(2001, 1, 1)
    ensures DateOf(719162) == Date(1970, 1, 1) && 719162 * DAY == 62135596800
  {
    hide DateOf, MonthStart;
    NewYears();
    NewYearDate(1);
    NewYearDate(1970);
    NewYearDate(2001);
  }

  /** Thirty days have April, June, September and November; February has 28, and 29 in leap years. */
  lemma MonthLength(y: int, m: int)
    requires 1 <= m <= 12
    ensures MonthStart(y, m + 1) - MonthStart(y, m) ==
      if m == 2 then (if y % 4 == 0 && (y % 100 != 0 || y % 400 == 0) then 29 else 28)
      else if m in {4, 6, 9, 11} then 30
      else 31
    ensures MonthStart(y, 1) == YearStart(y) && MonthStart(y, 13) == YearStart(y + 1)
  {
    YearLength(y);
    hide YearStart;
  }

  /** A day keeps its weekday, the next day has the next one, and 1 January 2001 was a Monday. */
  lemma WeekdayCycle(t: int, u: int)
    ensures 0 <= Weekday(t) <= 6 && Weekday(t + DAY) == (Weekday(t) + 1) % 7
    ensures t / DAY == u / DAY ==> Weekday(t) == Weekday(u)
    ensures Weekday(MonthStart(2001, 1) * DAY) == 1
  {
    assert (t + DAY) / DAY == t / DAY + 1;
  }

  /** Every date has the weekday that counting the days from that Monday gives it. */
  lemma WeekdayOfDate(c: Date, t: int)
    requires ValidDate(c) && t / DAY == MonthStart(c.year, c.month) + c.day - 1
    ensures Year(t) == c.year && Month(t) == c.month && MonthDay(t) == c.day
    ensures Weekday(t) == (1 + t / DAY - MonthStart(2001, 1)) % 7
  {
    hide DateOf, MonthStart;
    DateUnique(c);
    NewYears();
    Sevens(t / DAY + 1, 104355);
  }

  lemma Sevens(n: int, k: int)
    ensures (n - 7 * k) % 7 == n % 7
  {
  }

  /** An instant is the seconds of its day counted up in hours, minutes and seconds. */
  lemma ClockOfDay(t: int)
    ensures t == t / 86400 * 86400 + Hour(t) * 3600 + Minute(t) * 60 + Second(t)
    ensures 0 <= Hour(t) <= 23 && 0 <= Minute(t) <= 59 && 0 <= Second(t) <= 59
    ensures DateOf(t / 86400) == Date(Year(t), Month(t), MonthDay(t))
  {
    hide DateOf;
    var day, rest := t / 86400, t % 86400;
    QuotientUnique(t, 3600, 24 * day + rest / 3600, rest % 3600);
    QuotientUnique(t, 60, 60 * (t / 3600) + t % 3600 / 60, t % 3600 % 60);
  }

  /** A step by a month moves on by the days of the month and keeps the time of day. */
  lemma AddMonthMoves(t: int)
    ensures AddMonth(t) % DAY == t % DAY
    ensures AddMonth(t) / DAY - t / DAY == MonthStart(Year(t), Month(t) + 1) - MonthStart(Year(t), Month(t))
  {
    var c := DateOf(t / DAY);
    hide DateOf, MonthStart;
    QuotientUnique(AddMonth(t), DAY, MonthStart(c.year, c.month + 1) + c.day - 1, t % DAY);
  }

  lemma MonthSpanDays(c: Date, e: int)
    requires ValidDate(c)
    ensures MonthStart(c.year, c.month) <= e < MonthStart(c.year, c.month + 1)
       <==> (DateOf(e).year == c.year && DateOf(e).month == c.month)
  {
    hide DateOf, YearStart, DaysBeforeMonth;
    if MonthStart(c.year, c.month) <= e < MonthStart(c.year, c.month + 1) {
      DateUnique(Date(c.year, c.month, e - MonthStart(c.year, c.month) + 1));
    }
  }

  lemma MonthFloorDate(t: int)
    ensures DateOf(MonthFloor(t) / DAY) == Date(Year(t), Month(t), 1)
    ensures MonthFloor(t) % DAY == 0
    ensures AddMonth(MonthFloor(t)) == MonthStart(Year(t), Month(t) + 1) * DAY
  {
    var c := DateOf(t / DAY);
    hide DateOf, YearStart, DaysBeforeMonth;
    DateUnique(Date(c.year, c.month, 1));
    assert MonthStart(c.year, c.month) * DAY / DAY == MonthStart(c.year, c.month);
  }

  /** The month of `t` is exactly the seconds from its first midnight to the next month's. */
  lemma MonthSpan(t: int, s: int)
    ensures MonthFloor(t) <= t < AddMonth(MonthFloor(t))
    ensures MonthFloor(t) <= s < AddMonth(MonthFloor(t)) <==> (Year(s) == Year(t) && Month(s) == Month(t))
  {
    MonthFloorDate(t);
    MonthSpanDays(DateOf(t / DAY), s / DAY);
  }
}
