/**
 What a compiled expression means at an instant, and exactly when that is what its text says. Every
 combination of month, day, weekday and time of day occurs at some instant, so a difference between
 masks and text always shows, unless the text names no date at all.
 */
module CronMeaning {
  import opened Arith
  import opened Bits
  import opened Calendar
  import opened Common
  import opened CronText
  import opened CronSchedule
  import opened CronCompile

  // ---------------------------------------------------------------- every combination occurs

  /** The most days the month has in any year. */
  function MaxDay(m: int): int
    requires 1 <= m <= 12
  {
    MonthStart(4, m + 1) - MonthStart(4, m)
  }

  predicate RealDate(m: int, d: int, w: int) {
    1 <= m <= 12 && 1 <= d <= MaxDay(m) && 0 <= w <= 6
  }

  predicate RealTime(h: int, min: int, sec: int) {
    0 <= h <= 23 && 0 <= min <= 59 && 0 <= sec <= 59
  }

  lemma DateIsReal(t: int)
    ensures RealDate(Month(t), MonthDay(t), Weekday(t)) && RealTime(Hour(t), Minute(t), Second(t))
  {
    var c := DateOf(t / DAY);
    MonthLengths(c.year, c.month);
    hide DateOf, MaxDay, YearStart;
    assert 0 <= t % DAY < DAY && 0 <= t % HOUR < HOUR;
  }

  lemma MonthLengths(y: int, m: int)
    requires 1 <= m <= 12
    ensures MonthStart(y, m + 1) - MonthStart(y, m) <= MaxDay(m)
    ensures y % 4 == 0 && 0 < y < 100 ==> MonthStart(y, m + 1) - MonthStart(y, m) == MaxDay(m)
  {
    hide YearStart;
  }

  /** In the leap years 4 to 28 a date falls on every weekday once. */
  function LeapYear(base: int, w: int): int {
    var r := (w - base) % 7;
    4 * (if r == 0 then 7 else 3 * r % 7)
  }

  lemma WeekdayHit(base: int, w: int)
    requires 0 <= w <= 6
    ensures var y := LeapYear(base, w); y % 4 == 0 && 4 <= y <= 28 && (1461 * (y / 4) + base) % 7 == w
  {
    var r := (w - base) % 7;
    var q := (w - base) / 7;
    assert w == base + 7 * q + r;
    var k := if r == 0 then 7 else 3 * r % 7;
    assert r == 0 || r == 1 || r == 2 || r == 3 || r == 4 || r == 5 || r == 6;
    assert (1461 * k - r) % 7 == 0;
    var z := (1461 * k - r) / 7;
    assert 1461 * k + base == 7 * (z - q) + w;
  }

  lemma LeapStart(y: int, m: int)
    requires y % 4 == 0 && 4 <= y <= 28 && 1 <= m <= 12
    ensures MonthStart(y, m) == 1461 * (y / 4) - 366 + DaysBeforeMonth(4, m)
  {
  }

  lemma SomeDay(m: int, d: int, w: int) returns (day: int)
    requires RealDate(m, d, w)
    ensures DateOf(day).month == m && DateOf(day).day == d && (day + 1) % 7 == w
  {
    hide DateOf, YearStart, MonthStart, DaysBeforeMonth, MaxDay, LeapYear;
    var base := DaysBeforeMonth(4, m) + d - 366;
    var y := LeapYear(base, w);
    WeekdayHit(base, w);
    LeapStart(y, m);
    MonthLengths(y, m);
    DateUnique(Date(y, m, d));
    day := MonthStart(y, m) + d - 1;
  }

  /** Every date, weekday and time of day meet at some instant. */
  lemma SomeInstant(m: int, d: int, w: int, h: int, min: int, sec: int) returns (t: int)
    requires RealDate(m, d, w) && RealTime(h, min, sec)
    ensures Month(t) == m && MonthDay(t) == d && Weekday(t) == w
    ensures Hour(t) == h && Minute(t) == min && Second(t) == sec
  {
    hide DateOf, MaxDay, Hour, Minute, Second;
    var day := SomeDay(m, d, w);
    ClockFields(day, h, min, sec);
    t := day * DAY + h * HOUR + min * MINUTE + sec;
  }

  lemma ClockFields(day: int, h: int, min: int, sec: int)
    requires RealTime(h, min, sec)
    ensures var t := day * DAY + h * HOUR + min * MINUTE + sec;
      t / DAY == day && Hour(t) == h && Minute(t) == min && Second(t) == sec
  {
    var t := day * DAY + h * HOUR + min * MINUTE + sec;
    QuotientUnique(t, DAY, day, h * HOUR + min * MINUTE + sec);
    QuotientUnique(h * HOUR + min * MINUTE + sec, HOUR, h, min * MINUTE + sec);
    QuotientUnique(t, HOUR, 24 * day + h, min * MINUTE + sec);
    QuotientUnique(min * MINUTE + sec, MINUTE, min, sec);
    QuotientUnique(t, MINUTE, 1440 * day + 60 * h + min, sec);
  }

  // ---------------------------------------------------------------- what the masks mean

  /** The compiled day field looks like one that was left blank: all of its values and nothing below them. */
  predicate Blank(items: seq<Item>, min: int, max: int)
    requires AllWellFormed(items, min, max)
  {
    forall v :: 0 <= v <= max ==> (Compiled(items, min, max, v) <==> min <= v)
  }

  /** The day rule on what the day fields compile to. */
  predicate DayCompiled(s: Schedule, day: int, weekday: int)
    requires WellFormedSchedule(s)
  {
    if Blank(s.dom, 1, 31) then Compiled(s.dow, 0, 6, weekday)
    else if Blank(s.dow, 0, 6) then Compiled(s.dom, 1, 31, day)
    else Compiled(s.dow, 0, 6, weekday) || Compiled(s.dom, 1, 31, day)
  }

  lemma CompiledBelow(items: seq<Item>, min: int, max: int, v: int)
    requires AllWellFormed(items, min, max) && Compiled(items, min, max, v)
    ensures v <= max
  {
    var i :| 0 <= i < |items| && ItemCompiled(items[i], min, max, v);
    assert WellFormed(items[i], min, max);
  }

  lemma BlankMask(mask: Word, items: seq<Item>, min: nat, max: nat, full: Word)
    requires min <= max && AllWellFormed(items, min, max) && CompiledMask(mask, items, min, max)
    requires full == Pow2(max + 1) - Pow2(min)
    ensures mask == full <==> Blank(items, min, max)
  {
    hide AllWellFormed, Compiled, Bit;
    forall v: nat
      ensures Bit(full, v) <==> min <= v <= max
      ensures Compiled(items, min, max, v) ==> v <= max
    {
      HighBits(max + 1, min, v);
      if Compiled(items, min, max, v) {
        CompiledBelow(items, min, max, v);
      }
    }
    if Blank(items, min, max) {
      BitsDetermine(mask, full);
    } else {
      var v :| 0 <= v <= max && !(Compiled(items, min, max, v) <==> min <= v);
      var n: nat := v;
      assert Bit(mask, n) <==> Compiled(items, min, max, n);
      assert Bit(full, n) <==> min <= n;
    }
  }

  lemma HasCompiled(mask: Word, items: seq<Item>, min: int, max: int, v: nat)
    requires AllWellFormed(items, min, max) && CompiledMask(mask, items, min, max)
    ensures Has(mask, v) <==> Compiled(items, min, max, v)
  {
    MaskTest(mask, v);
  }

  predicate DateCompiled(s: Schedule, m: int, d: int, w: int)
    requires WellFormedSchedule(s)
  {
    Compiled(s.month, 1, 12, m) && DayCompiled(s, d, w)
  }

  predicate DateAdmitted(s: Schedule, m: int, d: int, w: int)
    requires WellFormedSchedule(s)
  {
    Admits(s.month, 1, 12, m) && DayAdmitted(s, d, w)
  }

  predicate TimeCompiled(s: Schedule, h: int, min: int, sec: int)
    requires WellFormedSchedule(s)
  {
    Compiled(s.hour, 0, 23, h) && Compiled(s.min, 0, 59, min) && Compiled(s.sec, 0, 59, sec)
  }

  predicate TimeAdmitted(s: Schedule, h: int, min: int, sec: int)
    requires WellFormedSchedule(s)
  {
    Admits(s.hour, 0, 23, h) && Admits(s.min, 0, 59, min) && Admits(s.sec, 0, 59, sec)
  }

  lemma DayMatches(e: CronExpr, s: Schedule, t: int)
    requires WellFormedSchedule(s) && CompiledExpr(e, s)
    ensures MatchDay(e, t) <==> DayCompiled(s, MonthDay(t), Weekday(t))
  {
    BlankPatterns();
    DateIsReal(t);
    hide Has, Compiled, CompiledMask, AllWellFormed, DateOf, Blank, Pow2, MonthDay, Weekday, MaxDay;
    BlankMask(e.dom, s.dom, 1, 31, DOM_BLANK);
    BlankMask(e.dow, s.dow, 0, 6, DOW_BLANK);
    HasCompiled(e.dow, s.dow, 0, 6, Weekday(t));
    HasCompiled(e.dom, s.dom, 1, 31, MonthDay(t));
  }

  /** The instant has a date and a time of day among those the text compiles to, stray ones included. */
  predicate CompiledFires(s: Schedule, t: int)
    requires WellFormedSchedule(s)
  {
    DateCompiled(s, Month(t), MonthDay(t), Weekday(t)) && TimeCompiled(s, Hour(t), Minute(t), Second(t))
  }

  /** The five tests of the search, in terms of what the fields compile to. */
  lemma MatchesCompiled(e: CronExpr, s: Schedule, t: int)
    requires WellFormedSchedule(s) && CompiledExpr(e, s)
    ensures Matches(e, t) <==> CompiledFires(s, t)
  {
    DateIsReal(t);
    hide Has, Compiled, CompiledMask, AllWellFormed, DateOf, MonthDay, Month, Weekday, Hour, Minute, Second, MaxDay,
      MatchDay, DayCompiled;
    DayMatches(e, s, t);
    HasCompiled(e.month, s.month, 1, 12, Month(t));
    HasCompiled(e.hour, s.hour, 0, 23, Hour(t));
    HasCompiled(e.min, s.min, 0, 59, Minute(t));
    HasCompiled(e.sec, s.sec, 0, 59, Second(t));
  }

  // ---------------------------------------------------------------- when the masks mean what the text says

  predicate DatesAgree(s: Schedule)
    requires WellFormedSchedule(s)
  {
    forall m, d, w | 1 <= m <= 12 && 1 <= d <= 31 && 0 <= w <= 6 && RealDate(m, d, w) ::
      DateCompiled(s, m, d, w) <==> DateAdmitted(s, m, d, w)
  }

  predicate SomeDate(s: Schedule)
    requires WellFormedSchedule(s)
  {
    exists m, d, w | 1 <= m <= 12 && 1 <= d <= 31 && 0 <= w <= 6 && RealDate(m, d, w) :: DateAdmitted(s, m, d, w)
  }

  predicate FieldAgrees(items: seq<Item>, min: int, max: int)
    requires AllWellFormed(items, min, max)
  {
    forall v :: min <= v <= max ==> (Compiled(items, min, max, v) <==> Admits(items, min, max, v))
  }

  /** No stray digit changes a date and, if the text names a date at all, none changes a time of day. */
  predicate MeansText(s: Schedule)
    requires WellFormedSchedule(s)
  {
    && DatesAgree(s)
    && (SomeDate(s) ==> FieldAgrees(s.hour, 0, 23) && FieldAgrees(s.min, 0, 59) && FieldAgrees(s.sec, 0, 59))
  }

  /** At every instant the masks fire exactly when the text says so. */
  ghost predicate Faithful(e: CronExpr, s: Schedule)
    requires WellFormedSchedule(s)
  {
    forall t :: Matches(e, t) <==> Fires(s, t)
  }

  lemma FiresParts(s: Schedule, t: int)
    requires WellFormedSchedule(s)
    ensures Fires(s, t) <==>
      DateAdmitted(s, Month(t), MonthDay(t), Weekday(t)) && TimeAdmitted(s, Hour(t), Minute(t), Second(t))
  {
    hide Admits, DayAdmitted, Month, MonthDay, Weekday, Hour, Minute, Second, AllWellFormed;
  }

  lemma RealDateBounds(m: int, d: int, w: int)
    requires RealDate(m, d, w)
    ensures 1 <= m <= 12 && 1 <= d <= 31 && 0 <= w <= 6
  {
  }

  lemma AgreeingMeaning(e: CronExpr, s: Schedule, t: int)
    requires WellFormedSchedule(s) && CompiledExpr(e, s) && MeansText(s)
    ensures Matches(e, t) <==> Fires(s, t)
  {
    hide Matches, Fires, Compiled, Admits, DateCompiled, DateAdmitted, CompiledExpr, AllWellFormed, Month, MonthDay,
      Weekday, Hour, Minute, Second, MaxDay;
    MatchesCompiled(e, s, t);
    FiresParts(s, t);
    DateIsReal(t);
    RealDateBounds(Month(t), MonthDay(t), Weekday(t));
  }

  /** The first value of a field is admitted, and so compiled. */
  lemma FirstValue(items: seq<Item>, min: int, max: int) returns (v: int)
    requires AllWellFormed(items, min, max) && items != []
    ensures min <= v <= max && Admits(items, min, max, v) && Compiled(items, min, max, v)
  {
    v := Lo(items[0], min);
    assert WellFormed(items[0], min, max);
    assert ItemAdmits(items[0], min, max, v) && ItemCompiled(items[0], min, max, v);
  }

  lemma InstantShows(e: CronExpr, s: Schedule, m: int, d: int, w: int, h: int, min: int, sec: int) returns (t: int)
    requires WellFormedSchedule(s) && CompiledExpr(e, s) && RealDate(m, d, w) && RealTime(h, min, sec)
    ensures Matches(e, t) <==> DateCompiled(s, m, d, w) && TimeCompiled(s, h, min, sec)
    ensures Fires(s, t) <==> DateAdmitted(s, m, d, w) && TimeAdmitted(s, h, min, sec)
  {
    hide Matches, Fires, DateCompiled, DateAdmitted, TimeCompiled, TimeAdmitted, CompiledExpr, Month, MonthDay, Weekday,
      Hour, Minute, Second, MaxDay;
    t := SomeInstant(m, d, w, h, min, sec);
    MatchesCompiled(e, s, t);
    FiresParts(s, t);
  }

  /** Where masks and text differ, they differ at some instant. */
  lemma DifferenceShows(e: CronExpr, s: Schedule) returns (t: int)
    requires WellFormedSchedule(s) && Stated(s) && CompiledExpr(e, s) && !MeansText(s)
    ensures Matches(e, t) != Fires(s, t)
  {
    hide Matches, Fires, Compiled, Admits, DateCompiled, DateAdmitted, CompiledExpr, AllWellFormed, MaxDay;
    var h := FirstValue(s.hour, 0, 23);
    var min := FirstValue(s.min, 0, 59);
    var sec := FirstValue(s.sec, 0, 59);
    var m, d, w;
    if !DatesAgree(s) {
      m, d, w :| RealDate(m, d, w) && DateCompiled(s, m, d, w) != DateAdmitted(s, m, d, w);
    } else {
      m, d, w :| RealDate(m, d, w) && DateAdmitted(s, m, d, w);
      RealDateBounds(m, d, w);
      if !FieldAgrees(s.hour, 0, 23) {
        h :| 0 <= h <= 23 && Compiled(s.hour, 0, 23, h) != Admits(s.hour, 0, 23, h);
      } else if !FieldAgrees(s.min, 0, 59) {
        min :| 0 <= min <= 59 && Compiled(s.min, 0, 59, min) != Admits(s.min, 0, 59, min);
      } else {
        sec :| 0 <= sec <= 59 && Compiled(s.sec, 0, 59, sec) != Admits(s.sec, 0, 59, sec);
      }
    }
    t := InstantShows(e, s, m, d, w, h, min, sec);
  }

  /** Compilation preserves the meaning of an expression if and only if no stray digit matters. */
  lemma CompiledMeaning(e: CronExpr, s: Schedule)
    requires WellFormedSchedule(s) && Stated(s) && CompiledExpr(e, s)
    ensures Faithful(e, s) <==> MeansText(s)
    ensures CoveredSchedule(s) ==> MeansText(s)
  {
    hide Matches, Fires, MeansText, CompiledExpr, ExactExpr, CoveredSchedule;
    if MeansText(s) {
      forall t ensures Matches(e, t) <==> Fires(s, t) {
        AgreeingMeaning(e, s, t);
      }
    } else {
      var t := DifferenceShows(e, s);
    }
    CompiledExact(e, s);
    if CoveredSchedule(s) {
      forall t ensures Matches(e, t) <==> Fires(s, t) {
        ExactMeaning(e, s, t);
      }
    }
  }

  /** The limits of the six fields: seconds, minutes, hours, days of the month, months, weekdays. */
  function Limits(i: nat): (int, int)
    requires i < 6
  {
    [(0, 59), (0, 59), (0, 23), (1, 31), (1, 12), (0, 6)][i]
  }

  predicate ValidAt(f: seq<string>, i: nat)
    requires |f| == 6 && i < 6
  {
    FieldValid(f[i], Limits(i).0, Limits(i).1)
  }

  /** Field `i` is the first one refused, with this error. */
  ghost predicate RefusedAt(f: seq<string>, i: nat, e: FieldError)
    requires |f| == 6 && i < 6
  {
    !ValidAt(f, i) && RefusedWith(f[i], Limits(i).0, Limits(i).1, e) && forall j :: 0 <= j < i ==> ValidAt(f, j)
  }

  /** The error tells the number of words unless there are 5 or 6, else it is that of the first refused field. */
  ghost predicate ExprRefused(expr: string, e: ExprError) {
    match e
    case FieldCount(got) => got == |Fields(expr)| && got != 5 && got != 6
    case BadField(error) =>
      SixFields(expr).Some? && exists i :: 0 <= i < 6 && RefusedAt(SixFields(expr).value, i, error)
  }

  /** A field is refused for its first refused item, and an expression for its first refused field. */
  lemma RefusedMeans(expr: string, f: seq<string>, e: FieldError) returns (i: nat, k: nat)
    requires SixFields(expr) == Some(f) && ExprRefused(expr, BadField(e))
    ensures |f| == 6 && i < 6 && k < |Split(f[i], ',')|
    ensures var limits := [(0, 59), (0, 59), (0, 23), (1, 31), (1, 12), (0, 6)];
      var pieces, min, max := Split(f[i], ','), limits[i].0, limits[i].1;
      && !FieldValid(f[i], min, max) && ParseItem(pieces[k], min, max) == Err(e)
      && (forall m :: 0 <= m < k ==> Accepted(pieces[m], min, max))
      && (forall j :: 0 <= j < i ==> FieldValid(f[j], limits[j].0, limits[j].1))
  {
    hide FieldValid, ParseItem, Split, Accepted;
    var n :| 0 <= n < 6 && RefusedAt(f, n, e);
    i := n;
    assert RefusedWith(f[i], Limits(i).0, Limits(i).1, e);
    var pieces := Split(f[i], ',');
    var m :| 0 <= m < |pieces| && ParseItem(pieces[m], Limits(i).0, Limits(i).1) == Err(e)
      && forall l :: 0 <= l < m ==> Accepted(pieces[l], Limits(i).0, Limits(i).1);
    k := m;
    forall j | 0 <= j < i ensures FieldValid(f[j], Limits(j).0, Limits(j).1) {
      assert ValidAt(f, j);
    }
  }

  method NewCronExpr(expr: string) returns (r: Result<CronExpr, ExprError>)
    ensures r.Ok? <==> ReadExpr(expr).Some?
    ensures r.Ok? ==> CompiledExpr(r.value, ReadExpr(expr).value)
    ensures r.Ok? ==> (ExactExpr(r.value, ReadExpr(expr).value) <==> CoveredSchedule(ReadExpr(expr).value))
    ensures r.Ok? ==> (Faithful(r.value, ReadExpr(expr).value) <==> MeansText(ReadExpr(expr).value))
    ensures r.Err? ==> ExprRefused(expr, r.error)
    ensures r.Err? && r.error.FieldCount? ==>
      r.error.got == |Fields(expr)| && |Fields(expr)| != 5 && |Fields(expr)| != 6
  {
    hide Bit, Compiled, Matches, Fires, AllWellFormed, ReadField, Fields, RefusedWith;
    hide CoveredSchedule, ExactMask, Faithful, MeansText;
    var fields := Fields(expr);
    if |fields| != 5 && |fields| != 6 {
      return Err(FieldCount(|fields|));
    }
    if |fields| == 5 {
      fields := ["0"] + fields;
    }
    var sec := ParseCronField(fields[0], 0, 59);
    if sec.Err? {
      assert RefusedAt(fields, 0, sec.error);
      return Err(BadField(sec.error));
    }
    var min := ParseCronField(fields[1], 0, 59);
    if min.Err? {
      assert RefusedAt(fields, 1, min.error);
      return Err(BadField(min.error));
    }
    var hour := ParseCronField(fields[2], 0, 23);
    if hour.Err? {
      assert RefusedAt(fields, 2, hour.error);
      return Err(BadField(hour.error));
    }
    var dom := ParseCronField(fields[3], 1, 31);
    if dom.Err? {
      assert RefusedAt(fields, 3, dom.error);
      return Err(BadField(dom.error));
    }
    var month := ParseCronField(fields[4], 1, 12);
    if month.Err? {
      assert RefusedAt(fields, 4, month.error);
      return Err(BadField(month.error));
    }
    var dow := ParseCronField(fields[5], 0, 6);
    if dow.Err? {
      assert RefusedAt(fields, 5, dow.error);
      return Err(BadField(dow.error));
    }
    var e := CronExpr(sec.value, min.value, hour.value, dom.value, month.value, dow.value);
    ghost var s := ReadExpr(expr).value;
    assert CompiledExpr(e, s);
    CompiledExact(e, s);
    CompiledMeaning(e, s);
    return Ok(e);
  }
}
