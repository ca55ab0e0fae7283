/**
 The next-fire search: five levels of loops, a carry out of any level going back to the year
 check, and a horizon at the end of the following year.
 */
module CronNext {
  import opened Calendar
  import opened CronSchedule

  const NANOS := 1_000_000_000

  datatype Fire = Never | At(time: int)

  /** No instant from `a` up to but excluding `b` fires. */
  ghost predicate Quiet(e: CronExpr, a: int, b: int) {
    forall s :: a <= s < b ==> !Matches(e, s)
  }

  predicate AtMonthStart(t: int) {
    t % DAY == 0 && MonthDay(t) == 1
  }

  /** Once the search has moved, `t` sits at the start of the first unit that does not match. */
  predicate Aligned(e: CronExpr, t: int) {
    && (!MonthOk(e, t) ==> AtMonthStart(t))
    && (MonthOk(e, t) && !MatchDay(e, t) ==> t % DAY == 0)
    && (MonthOk(e, t) && MatchDay(e, t) && !HourOk(e, t) ==> t % HOUR == 0)
    && (MonthOk(e, t) && MatchDay(e, t) && HourOk(e, t) && !MinuteOk(e, t) ==> t % MINUTE == 0)
  }

  // ------------------------------------------------------------ what each level's test depends on

  lemma SameDay(e: CronExpr, t: int, s: int)
    requires t / DAY == s / DAY
    ensures MonthOk(e, t) == MonthOk(e, s) && MatchDay(e, t) == MatchDay(e, s) && Year(t) == Year(s)
  {
    hide Has, DateOf;
  }

  lemma SameHour(e: CronExpr, t: int, s: int)
    requires t / HOUR == s / HOUR
    ensures t / DAY == s / DAY && HourOk(e, t) == HourOk(e, s)
  {
    assert t / DAY == t / HOUR / 24 && s / DAY == s / HOUR / 24;
    assert Hour(t) == t / HOUR % 24 && Hour(s) == s / HOUR % 24;
  }

  lemma SameMinute(e: CronExpr, t: int, s: int)
    requires t / MINUTE == s / MINUTE
    ensures t / HOUR == s / HOUR && MinuteOk(e, t) == MinuteOk(e, s)
  {
    assert t / HOUR == t / MINUTE / 60 && s / HOUR == s / MINUTE / 60;
    assert Minute(t) == t / MINUTE % 60 && Minute(s) == s / MINUTE % 60;
  }

  // ------------------------------------------------------------ the horizon

  lemma YearFrom(t: int, y: int)
    ensures Year(t) >= y <==> t >= YearStart(y) * DAY
  {
    hide DateOf, YearStart;
    var z := Year(t);
    if z >= y {
      YearStartMonotone(y, z);
    } else {
      YearStartMonotone(z + 1, y);
    }
  }

  // ------------------------------------------------------------ where a step to the next unit lands

  lemma CarryDay(t: int, next: int)
    requires next % HOUR == 0 && next / HOUR == t / HOUR + 1
    ensures next / DAY == t / DAY || (next % DAY == 0 && next / DAY == t / DAY + 1)
  {
    assert t / DAY == t / HOUR / 24 && next / DAY == next / HOUR / 24;
  }

  lemma CarryHour(t: int, next: int)
    requires next % MINUTE == 0 && next / MINUTE == t / MINUTE + 1
    ensures next / HOUR == t / HOUR || (next % HOUR == 0 && next / HOUR == t / HOUR + 1)
  {
    assert t / HOUR == t / MINUTE / 60 && next / HOUR == next / MINUTE / 60;
  }

  lemma DayStartNested(t: int)
    ensures t % DAY == 0 ==> t % HOUR == 0
    ensures t % HOUR == 0 ==> t % MINUTE == 0
  {
  }

  lemma FirstOfMonth(y: int, m: int)
    requires 1 <= m <= 13
    ensures DateOf(MonthStart(y, m)) == if m == 13 then Date(y + 1, 1, 1) else Date(y, m, 1)
  {
    hide DateOf, YearStart;
    var c := if m == 13 then Date(y + 1, 1, 1) else Date(y, m, 1);
    MonthWithinYear(c.year, c.month);
    MonthWithinYear(y, 12);
    DateUnique(c);
  }

  lemma NextMonthDate(t: int)
    ensures AtMonthStart(AddMonth(MonthFloor(t)))
  {
    MonthFloorDate(t);
    hide DateOf, MonthStart, AddMonth, MonthFloor;
    var m := MonthStart(Year(t), Month(t) + 1);
    FirstOfMonth(Year(t), Month(t) + 1);
    assert m * DAY / DAY == m && m * DAY % DAY == 0;
  }

  /** Stepping into a new month from the day before lands on its first midnight. */
  lemma NextDayMonth(t: int, next: int)
    requires next % DAY == 0 && next / DAY == t / DAY + 1
    ensures AtMonthStart(next) || (Year(next) == Year(t) && Month(next) == Month(t))
  {
    MonthSpan(t, next);
    MonthSpan(t, t);
    NextMonthDate(t);
    hide Year, Month, MonthFloor, AddMonth, MonthDay;
    var first := AddMonth(MonthFloor(t));
    if next >= first {
      assert first / DAY > t / DAY;
    }
  }

  lemma NextDayAligned(e: CronExpr, t: int, next: int)
    requires MonthOk(e, t) && next % DAY == 0 && next / DAY == t / DAY + 1
    ensures Aligned(e, next)
  {
    hide Has, Month, Year, MatchDay, HourOk, MinuteOk, AtMonthStart;
    NextDayMonth(t, next);
    DayStartNested(next);
  }

  lemma NextHourAligned(e: CronExpr, t: int, next: int)
    requires MonthOk(e, t) && MatchDay(e, t) && next % HOUR == 0 && next / HOUR == t / HOUR + 1
    ensures Aligned(e, next)
  {
    hide MonthOk, MatchDay, HourOk, MinuteOk, AtMonthStart;
    DayStartNested(next);
    CarryDay(t, next);
    if next / DAY == t / DAY {
      SameDay(e, t, next);
    } else {
      NextDayAligned(e, t, next);
    }
  }

  lemma NextMinuteAligned(e: CronExpr, t: int, next: int)
    requires MonthOk(e, t) && MatchDay(e, t) && HourOk(e, t)
    requires next % MINUTE == 0 && next / MINUTE == t / MINUTE + 1
    ensures Aligned(e, next)
  {
    hide MonthOk, MatchDay, HourOk, MinuteOk, AtMonthStart;
    CarryHour(t, next);
    if next / HOUR == t / HOUR {
      SameHour(e, t, next);
      SameDay(e, t, next);
    } else {
      NextHourAligned(e, t, next);
    }
  }

  lemma NextSecondAligned(e: CronExpr, t: int)
    requires MonthOk(e, t) && MatchDay(e, t) && HourOk(e, t) && MinuteOk(e, t)
    ensures Aligned(e, t + 1)
  {
    hide MonthOk, MatchDay, HourOk, MinuteOk, AtMonthStart;
    if (t + 1) / MINUTE == t / MINUTE {
      SameMinute(e, t, t + 1);
      SameHour(e, t, t + 1);
      SameDay(e, t, t + 1);
    } else {
      NextMinuteAligned(e, t, t + 1);
    }
  }

  // ------------------------------------------------------------ each step skips only silent instants

  lemma MonthFloorOfStart(t: int)
    requires AtMonthStart(t)
    ensures MonthFloor(t) == t
  {
  }

  lemma SkipMonth(e: CronExpr, from: int, t: int)
    requires Quiet(e, from, t) && !MonthOk(e, t)
    ensures var next := AddMonth(MonthFloor(t)); t < next && Quiet(e, from, next) && Aligned(e, next)
  {
    var next := AddMonth(MonthFloor(t));
    forall s | from <= s < next ensures !Matches(e, s) {
      MonthSpan(t, s);
    }
    MonthSpan(t, t);
    NextMonthDate(t);
    DayStartNested(next);
  }

  lemma SkipDay(e: CronExpr, from: int, t: int)
    requires Quiet(e, from, t) && MonthOk(e, t) && !MatchDay(e, t)
    ensures var next := Floor(t, DAY) + DAY; t < next && Quiet(e, from, next) && Aligned(e, next)
  {
    hide MonthOk, MatchDay, HourOk, MinuteOk, SecondOk;
    var next := Floor(t, DAY) + DAY;
    forall s | from <= s < next ensures !Matches(e, s) {
      if t <= s {
        SameDay(e, t, s);
      }
    }
    NextDayAligned(e, t, next);
  }

  lemma SkipHour(e: CronExpr, from: int, t: int)
    requires Quiet(e, from, t) && MonthOk(e, t) && MatchDay(e, t) && !HourOk(e, t)
    ensures var next := Floor(t, HOUR) + HOUR; t < next && Quiet(e, from, next) && Aligned(e, next)
  {
    hide MonthOk, MatchDay, HourOk, MinuteOk, SecondOk;
    var next := Floor(t, HOUR) + HOUR;
    forall s | from <= s < next ensures !Matches(e, s) {
      if t <= s {
        SameHour(e, t, s);
      }
    }
    NextHourAligned(e, t, next);
  }

  lemma SkipMinute(e: CronExpr, from: int, t: int)
    requires Quiet(e, from, t) && MonthOk(e, t) && MatchDay(e, t) && HourOk(e, t) && !MinuteOk(e, t)
    ensures var next := Floor(t, MINUTE) + MINUTE; t < next && Quiet(e, from, next) && Aligned(e, next)
  {
    hide MonthOk, MatchDay, HourOk, MinuteOk, SecondOk;
    var next := Floor(t, MINUTE) + MINUTE;
    forall s | from <= s < next ensures !Matches(e, s) {
      if t <= s {
        SameMinute(e, t, s);
      }
    }
    NextMinuteAligned(e, t, next);
  }

  lemma FloorStepBound(t: int, h: int)
    requires t < h * DAY
    ensures Floor(t, DAY) + DAY <= h * DAY
    ensures Floor(t, HOUR) + HOUR <= h * DAY
    ensures Floor(t, MINUTE) + MINUTE <= h * DAY
  {
    assert t / DAY < h;
    assert t / HOUR < 24 * h;
    assert t / MINUTE < 1440 * h;
  }

  lemma MonthStepBound(t: int, y: int)
    requires t < YearStart(y) * DAY
    ensures AddMonth(MonthFloor(t)) <= YearStart(y) * DAY
  {
    YearFrom(t, y);
    MonthFloorDate(t);
    hide DateOf, YearStart, MonthStart, AddMonth, MonthFloor;
    MonthWithinYear(Year(t), Month(t));
    YearStartMonotone(Year(t) + 1, y);
  }

  /** The horizon is midnight on a first of January, so no step can jump across it. */
  lemma HorizonReached(t: int, y: int)
    requires t < YearStart(y) * DAY
    ensures var h := YearStart(y) * DAY;
      && AddMonth(MonthFloor(t)) <= h
      && Floor(t, DAY) + DAY <= h && Floor(t, HOUR) + HOUR <= h && Floor(t, MINUTE) + MINUTE <= h
      && Month(h) == 1 && MonthDay(h) == 1 && h % DAY == 0
  {
    FirstOfMonth(y, 1);
    MonthStepBound(t, y);
    FloorStepBound(t, YearStart(y));
    assert YearStart(y) == MonthStart(y, 1);
    hide DateOf, YearStart, MonthStart, AddMonth, MonthFloor;
    assert YearStart(y) * DAY / DAY == YearStart(y);
  }

  // ------------------------------------------------------------ the search

  lemma DayBefore(e: CronExpr, t: int)
    ensures var next := Floor(t, DAY) + DAY; MonthDay(next) != 1 ==> MonthOk(e, next) == MonthOk(e, t)
  {
    var next := Floor(t, DAY) + DAY;
    hide Year, Month, Has, MonthDay;
    NextDayMonth(t, next);
  }

  lemma HourBefore(e: CronExpr, t: int)
    ensures var next := Floor(t, HOUR) + HOUR;
      Hour(next) != 0 ==> MonthOk(e, next) == MonthOk(e, t) && MatchDay(e, next) == MatchDay(e, t)
  {
    var next := Floor(t, HOUR) + HOUR;
    hide MonthOk, MatchDay;
    CarryDay(t, next);
    if next / DAY == t / DAY {
      SameDay(e, t, next);
    }
  }

  lemma MinuteBefore(e: CronExpr, t: int)
    ensures var next := Floor(t, MINUTE) + MINUTE;
      Minute(next) != 0 ==>
        MonthOk(e, next) == MonthOk(e, t) && MatchDay(e, next) == MatchDay(e, t) && HourOk(e, next) == HourOk(e, t)
  {
    var next := Floor(t, MINUTE) + MINUTE;
    hide MonthOk, MatchDay, HourOk;
    CarryHour(t, next);
    if next / HOUR == t / HOUR {
      SameHour(e, t, next);
      SameDay(e, t, next);
    }
  }

  lemma SecondBefore(e: CronExpr, t: int)
    ensures Second(t + 1) != 0 ==>
      && MonthOk(e, t + 1) == MonthOk(e, t) && MatchDay(e, t + 1) == MatchDay(e, t)
      && HourOk(e, t + 1) == HourOk(e, t) && MinuteOk(e, t + 1) == MinuteOk(e, t)
  {
    hide MonthOk, MatchDay, HourOk, MinuteOk;
    if (t + 1) / MINUTE == t / MINUTE {
      SameMinute(e, t, t + 1);
      SameHour(e, t, t + 1);
      SameDay(e, t, t + 1);
    }
  }

  lemma SkipSecond(e: CronExpr, from: int, t: int)
    requires Quiet(e, from, t) && MonthOk(e, t) && MatchDay(e, t) && HourOk(e, t) && MinuteOk(e, t) && !SecondOk(e, t)
    ensures Quiet(e, from, t + 1) && Aligned(e, t + 1)
  {
    hide MonthOk, MatchDay, HourOk, MinuteOk, SecondOk;
    NextSecondAligned(e, t);
  }

  // One turn of each loop, from either state of the flag: a step to the next unit misses nothing,
  // stays within the horizon, leaves `t` aligned and, without a carry, keeps the outer tests true.

  lemma MonthTurn(e: CronExpr, from: int, t: int, aligned: bool, y: int)
    requires Quiet(e, from, t) && t < YearStart(y) * DAY && (aligned ==> Aligned(e, t))
    requires !MonthOk(e, t)
    ensures var next := AddMonth(if aligned then t else MonthFloor(t));
      && t < next <= YearStart(y) * DAY && Quiet(e, from, next) && Aligned(e, next)
      && (Month(next) != 1 ==> next < YearStart(y) * DAY)
  {
    hide MonthOk, MatchDay, HourOk, MinuteOk, Year, Month, MonthDay, MonthFloor, AddMonth, YearStart;
    hide AtMonthStart, Quiet;
    SkipMonth(e, from, t);
    HorizonReached(t, y);
    if aligned {
      MonthFloorOfStart(t);
    }
  }

  lemma DayTurn(e: CronExpr, from: int, t: int, aligned: bool, y: int)
    requires Quiet(e, from, t) && t < YearStart(y) * DAY && (aligned ==> Aligned(e, t))
    requires MonthOk(e, t) && !MatchDay(e, t)
    ensures var next := (if aligned then t else Floor(t, DAY)) + DAY;
      && t < next <= YearStart(y) * DAY && Quiet(e, from, next) && Aligned(e, next)
      && (MonthDay(next) != 1 ==> next < YearStart(y) * DAY && MonthOk(e, next))
  {
    hide MonthOk, MatchDay, HourOk, MinuteOk, Year, Month, MonthDay, MonthFloor, AddMonth, YearStart;
    hide AtMonthStart, Quiet;
    SkipDay(e, from, t);
    HorizonReached(t, y);
    DayBefore(e, t);
  }

  lemma HourTurn(e: CronExpr, from: int, t: int, aligned: bool, y: int)
    requires Quiet(e, from, t) && t < YearStart(y) * DAY && (aligned ==> Aligned(e, t))
    requires MonthOk(e, t) && MatchDay(e, t) && !HourOk(e, t)
    ensures var next := (if aligned then t else Floor(t, HOUR)) + HOUR;
      && t < next <= YearStart(y) * DAY && Quiet(e, from, next) && Aligned(e, next)
      && (Hour(next) != 0 ==> next < YearStart(y) * DAY && MonthOk(e, next) && MatchDay(e, next))
  {
    hide MonthOk, MatchDay, HourOk, MinuteOk, Year, Month, MonthDay, MonthFloor, AddMonth, YearStart;
    hide AtMonthStart, Quiet;
    SkipHour(e, from, t);
    HorizonReached(t, y);
    HourBefore(e, t);
  }

  lemma MinuteTurn(e: CronExpr, from: int, t: int, aligned: bool, y: int)
    requires Quiet(e, from, t) && t < YearStart(y) * DAY && (aligned ==> Aligned(e, t))
    requires MonthOk(e, t) && MatchDay(e, t) && HourOk(e, t) && !MinuteOk(e, t)
    ensures var next := (if aligned then t else Floor(t, MINUTE)) + MINUTE;
      && t < next <= YearStart(y) * DAY && Quiet(e, from, next) && Aligned(e, next)
      && (Minute(next) != 0 ==>
        next < YearStart(y) * DAY && MonthOk(e, next) && MatchDay(e, next) && HourOk(e, next))
  {
    hide MonthOk, MatchDay, HourOk, MinuteOk, Year, Month, MonthDay, MonthFloor, AddMonth, YearStart;
    hide AtMonthStart, Quiet;
    SkipMinute(e, from, t);
    HorizonReached(t, y);
    DayStartNested(YearStart(y) * DAY);
    MinuteBefore(e, t);
  }

  lemma SecondTurn(e: CronExpr, from: int, t: int, y: int)
    requires Quiet(e, from, t) && t < YearStart(y) * DAY
    requires MonthOk(e, t) && MatchDay(e, t) && HourOk(e, t) && MinuteOk(e, t) && !SecondOk(e, t)
    ensures Quiet(e, from, t + 1) && Aligned(e, t + 1)
    ensures Second(t + 1) != 0 ==>
      && t + 1 < YearStart(y) * DAY
      && MonthOk(e, t + 1) && MatchDay(e, t + 1) && HourOk(e, t + 1) && MinuteOk(e, t + 1)
  {
    hide MonthOk, MatchDay, HourOk, MinuteOk, Year, Month, MonthDay, MonthFloor, AddMonth, YearStart;
    hide AtMonthStart, Quiet;
    SkipSecond(e, from, t);
    HorizonReached(t, y);
    DayStartNested(YearStart(y) * DAY);
    SecondBefore(e, t);
  }

  /** First whole second strictly after the given time. */
  function FirstSecond(nanos: int): int {
    nanos / NANOS + 1
  }

  /** `s` is the least firing second strictly after the given time. */
  ghost predicate IsNext(e: CronExpr, nanos: int, s: int) {
    && s * NANOS > nanos && Matches(e, s)
    && forall u :: u * NANOS > nanos && Matches(e, u) ==> s <= u
  }

  /** A firing second exists after the given time, no later than the year after the next second's. */
  ghost predicate FiresInReach(e: CronExpr, nanos: int) {
    exists s :: s * NANOS > nanos && Year(s) <= Year(FirstSecond(nanos)) + 1 && Matches(e, s)
  }

  lemma SecondsAfter(nanos: int, s: int)
    ensures s * NANOS > nanos <==> FirstSecond(nanos) <= s
    ensures s * 1_000_000_000 > nanos <==> FirstSecond(nanos) <= s
  {
  }

  lemma Found(e: CronExpr, nanos: int, t: int)
    requires FirstSecond(nanos) <= t && Quiet(e, FirstSecond(nanos), t) && Matches(e, t)
    requires Year(t) <= Year(FirstSecond(nanos)) + 1
    ensures IsNext(e, nanos, t) && FiresInReach(e, nanos)
  {
    hide Matches, Year;
    SecondsAfter(nanos, t);
    forall u | u * NANOS > nanos && Matches(e, u) ensures t <= u {
      SecondsAfter(nanos, u);
    }
  }

  lemma NotFound(e: CronExpr, nanos: int)
    requires Quiet(e, FirstSecond(nanos), YearStart(Year(FirstSecond(nanos)) + 2) * DAY)
    ensures !FiresInReach(e, nanos)
  {
    hide Matches, Year, YearStart;
    forall s | s * NANOS > nanos && Matches(e, s) ensures Year(s) > Year(FirstSecond(nanos)) + 1 {
      SecondsAfter(nanos, s);
      YearFrom(s, Year(FirstSecond(nanos)) + 2);
    }
  }

  lemma NoneInReach(e: CronExpr, nanos: int)
    requires !FiresInReach(e, nanos)
    ensures forall s :: s * 1_000_000_000 > nanos && Year(s) <= Year(FirstSecond(nanos)) + 1 ==> !Matches(e, s)
  {
    hide Matches, Year, FirstSecond;
  }

  method Next(e: CronExpr, nanos: int) returns (r: Fire)
    ensures r.At? ==> IsNext(e, nanos, r.time)
    ensures r.At? ==> Year(r.time) <= Year(FirstSecond(nanos)) + 1
    ensures r.At? <==> FiresInReach(e, nanos)
    ensures r.Never? ==>
      forall s :: s * 1_000_000_000 > nanos && Year(s) <= Year(FirstSecond(nanos)) + 1 ==> !Matches(e, s)
  {
    hide MonthOk, MatchDay, HourOk, MinuteOk, SecondOk, Aligned, Quiet, IsNext, FiresInReach;
    hide Year, Month, MonthDay, Hour, Minute, Second, YearStart, MonthFloor, AddMonth, Floor;
    var t := FirstSecond(nanos);
    ghost var from := t;
    var year := Year(t);
    ghost var limit := YearStart(year + 2) * DAY;
    var initFlag := false;
    YearFrom(t, year + 2);
    assert Quiet(e, from, t) by { QuietEmpty(e, t); }

    label retry: while true
      invariant from <= t <= limit && Quiet(e, from, t)
      invariant initFlag ==> Aligned(e, t)
      decreases limit - t
    {
      YearFrom(t, year + 2);
      if Year(t) > year + 1 {
        assert t == limit;
        NotFound(e, nanos);
        NoneInReach(e, nanos);
        return Never;
      }
      ghost var entry := t;

      while !MonthOk(e, t)
        invariant entry <= t < limit && Quiet(e, from, t)
        invariant initFlag ==> Aligned(e, t)
        decreases limit - t
      {
        MonthTurn(e, from, t, initFlag, year + 2);
        if !initFlag {
          initFlag := true;
          t := MonthFloor(t);
        }
        t := AddMonth(t);
        if Month(t) == 1 {
          continue retry;
        }
      }

      while !MatchDay(e, t)
        invariant entry <= t < limit && Quiet(e, from, t) && MonthOk(e, t)
        invariant initFlag ==> Aligned(e, t)
        decreases limit - t
      {
        DayTurn(e, from, t, initFlag, year + 2);
        if !initFlag {
          initFlag := true;
          t := Floor(t, DAY);
        }
        t := t + DAY;
        if MonthDay(t) == 1 {
          continue retry;
        }
      }

      while !HourOk(e, t)
        invariant entry <= t < limit && Quiet(e, from, t) && MonthOk(e, t) && MatchDay(e, t)
        invariant initFlag ==> Aligned(e, t)
        decreases limit - t
      {
        HourTurn(e, from, t, initFlag, year + 2);
        if !initFlag {
          initFlag := true;
          t := Floor(t, HOUR);
        }
        t := t + HOUR;
        if Hour(t) == 0 {
          continue retry;
        }
      }

      while !MinuteOk(e, t)
        invariant entry <= t < limit && Quiet(e, from, t) && MonthOk(e, t) && MatchDay(e, t) && HourOk(e, t)
        invariant initFlag ==> Aligned(e, t)
        decreases limit - t
      {
        MinuteTurn(e, from, t, initFlag, year + 2);
        if !initFlag {
          initFlag := true;
          t := Floor(t, MINUTE);
        }
        t := t + MINUTE;
        if Minute(t) == 0 {
          continue retry;
        }
      }

      while !SecondOk(e, t)
        invariant entry <= t < limit && Quiet(e, from, t)
        invariant MonthOk(e, t) && MatchDay(e, t) && HourOk(e, t) && MinuteOk(e, t)
        invariant initFlag ==> Aligned(e, t)
        decreases limit - t
      {
        SecondTurn(e, from, t, year + 2);
        if !initFlag {
          initFlag := true;
        }
        t := t + 1;
        if Second(t) == 0 {
          continue retry;
        }
      }

      YearFrom(t, year + 2);
      Found(e, nanos, t);
      return At(t);
    }
  }

  lemma QuietEmpty(e: CronExpr, t: int)
    ensures Quiet(e, t, t)
  {
  }

  // ------------------------------------------------------------ repeated search

  /** The time a search starts from once the results so far are `times`. */
  function After(nanos: int, times: seq<int>): int {
    if times == [] then nanos else times[|times| - 1] * NANOS
  }

  /** `times` is what repeated searches return: each one is searched from the result before it. */
  ghost predicate IsChain(e: CronExpr, nanos: int, times: seq<int>) {
    times == [] ||
    var init := times[..|times| - 1];
    IsChain(e, nanos, init) && IsNext(e, After(nanos, init), times[|times| - 1])
  }

  /** Repeated searches enumerate the firing instants: in order, each once, with none left out. */
  lemma {:induction false} ChainEnumerates(e: CronExpr, nanos: int, times: seq<int>)
    requires IsChain(e, nanos, times)
    ensures forall i, j :: 0 <= i < j < |times| ==> times[i] < times[j]
    ensures times != [] ==>
      forall s :: s in times <==> s * NANOS > nanos && Matches(e, s) && s <= times[|times| - 1]
  {
    hide Matches;
    if times != [] {
      var init, last := times[..|times| - 1], times[|times| - 1];
      ChainEnumerates(e, nanos, init);
      assert times == init + [last];
      if init != [] {
        assert init[|init| - 1] in init;
      }
    }
  }

  /** The first `n` firing instants after the given time, or fewer when a search comes back empty. */
  method FireTimes(e: CronExpr, nanos: int, n: nat) returns (times: seq<int>)
    ensures IsChain(e, nanos, times) && |times| <= n
    ensures |times| < n ==> !FiresInReach(e, After(nanos, times))
  {
    hide IsNext, FiresInReach;
    times := [];
    while |times| < n
      invariant |times| <= n && IsChain(e, nanos, times)
    {
      var r := Next(e, After(nanos, times));
      if r.Never? {
        return;
      }
      assert (times + [r.time])[..|times|] == times;
      times := times + [r.time];
    }
  }
}
