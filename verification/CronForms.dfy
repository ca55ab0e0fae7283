/**
 The forms of a cron field that the source documents, what each one admits in plain arithmetic, and
 what some everyday expressions fire at.
 */
module CronForms {
  import opened Calendar
  import opened Common
  import opened CronText
  import opened CronSchedule
  import opened CronCompile
  import opened CronMeaning
  import opened CronNext
  import opened CronFiring

  /** The text is accepted and admits the value. */
  predicate Names(text: string, min: int, max: int, v: int) {
    FieldValid(text, min, max) && Admits(ReadField(text).value, min, max, v)
  }

  lemma ReadOne(text: string, item: Item)
    requires ReadsItem(text, item) && ',' !in text
    ensures ReadField(text) == Some([item])
  {
    hide ReadField, ReadsItem;
    assert Join([text], ',') == text && ReadsItems([text], [item]);
    ReadFieldExact(text, [item]);
  }

  lemma OneItem(text: string, item: Item, min: int, max: int)
    requires ReadField(text) == Some([item])
    ensures FieldValid(text, min, max) <==> WellFormed(item, min, max)
    ensures FieldValid(text, min, max) ==> forall v :: Names(text, min, max, v) <==> ItemAdmits(item, min, max, v)
  {
    hide ReadField, WellFormed;
    var items := [item];
    assert items[0] == item;
    if WellFormed(item, min, max) {
      forall v ensures Admits(items, min, max, v) <==> ItemAdmits(item, min, max, v) {
        OnlyItem(items, min, max, v);
      }
    } else {
      assert !AllWellFormed(items, min, max);
    }
  }

  lemma Digits(a: nat)
    requires a <= MAX_INT
    ensures Atoi(Decimal(a)) == Some(a) && '-' !in Decimal(a) && '/' !in Decimal(a) && ',' !in Decimal(a)
  {
    AtoiReadsDecimal(a);
    hide Decimal, Atoi;
    DigitsOnly(Decimal(a));
  }

  // ---------------------------------------------------------------- the six forms

  /** `*` admits every value. */
  lemma FormStar(min: int, max: int)
    requires min <= max
    ensures FieldValid("*", min, max) && forall v :: Names("*", min, max, v) <==> min <= v <= max
  {
    ReadStar();
    hide ReadField;
    OneItem("*", Item(Star, None), min, max);
  }

  /** `num` admits that number, which must be within the limits. */
  lemma FormNumber(a: nat, min: int, max: int)
    requires a <= MAX_INT
    ensures FieldValid(Decimal(a), min, max) <==> min <= a <= max
    ensures min <= a <= max ==> forall v :: Names(Decimal(a), min, max, v) <==> v == a
  {
    hide Decimal, Atoi, ReadField;
    Digits(a);
    ReadOne(Decimal(a), Item(From(a), None));
    OneItem(Decimal(a), Item(From(a), None), min, max);
  }

  lemma RangeText(a: nat, b: nat)
    requires a <= MAX_INT && b <= MAX_INT
    ensures ReadsRange(Decimal(a) + "-" + Decimal(b), Between(a, b))
    ensures var text := Decimal(a) + "-" + Decimal(b); '/' !in text && ',' !in text
  {
    hide Decimal, Atoi;
    Digits(a);
    Digits(b);
  }

  /** `num-num` admits the numbers from one to the other, which must be in order and within the limits. */
  lemma FormRange(a: nat, b: nat, min: int, max: int)
    requires a <= MAX_INT && b <= MAX_INT
    ensures var text := Decimal(a) + "-" + Decimal(b);
      && (FieldValid(text, min, max) <==> min <= a <= b <= max)
      && (min <= a <= b <= max ==> forall v :: Names(text, min, max, v) <==> a <= v <= b)
  {
    hide Decimal, Atoi, ReadField, ReadsRange;
    RangeText(a, b);
    var text, item := Decimal(a) + "-" + Decimal(b), Item(Between(a, b), None);
    ReadOne(text, item);
    OneItem(text, item, min, max);
  }

  lemma StepText(range: string, r: Range, n: nat)
    requires n <= MAX_INT && ReadsRange(range, r) && '/' !in range && ',' !in range
    ensures ReadField(range + "/" + Decimal(n)) == Some([Item(r, Some(n))])
  {
    hide Decimal, Atoi, ReadField, ReadsRange;
    Digits(n);
    ReadOne(range + "/" + Decimal(n), Item(r, Some(n)));
  }

  /** `*` with a step starts at the minimum; the step must be positive. */
  lemma FormStarStep(n: nat, min: int, max: int)
    requires n <= MAX_INT && min <= max
    ensures var text := "*" + "/" + Decimal(n);
      && (FieldValid(text, min, max) <==> n >= 1)
      && (n >= 1 ==> forall v :: Names(text, min, max, v) <==> min <= v <= max && (v - min) % n == 0)
  {
    hide Decimal, Atoi, ReadField;
    StepText("*", Star, n);
    OneItem("*" + "/" + Decimal(n), Item(Star, Some(n)), min, max);
  }

  /** `num` with a step runs up to the maximum. */
  lemma FormNumberStep(a: nat, n: nat, min: int, max: int)
    requires a <= MAX_INT && n <= MAX_INT
    ensures var text := Decimal(a) + "/" + Decimal(n);
      && (FieldValid(text, min, max) <==> min <= a <= max && n >= 1)
      && (min <= a <= max && n >= 1 ==>
          forall v :: Names(text, min, max, v) <==> a <= v <= max && (v - a) % n == 0)
  {
    hide Decimal, Atoi, ReadField;
    Digits(a);
    StepText(Decimal(a), From(a), n);
    OneItem(Decimal(a) + "/" + Decimal(n), Item(From(a), Some(n)), min, max);
  }

  /** `num-num` with a step. */
  lemma FormRangeStep(a: nat, b: nat, n: nat, min: int, max: int)
    requires a <= MAX_INT && b <= MAX_INT && n <= MAX_INT
    ensures var text := Decimal(a) + "-" + Decimal(b) + "/" + Decimal(n);
      && (FieldValid(text, min, max) <==> min <= a <= b <= max && n >= 1)
      && (min <= a <= b <= max && n >= 1 ==>
          forall v :: Names(text, min, max, v) <==> a <= v <= b && (v - a) % n == 0)
  {
    hide Decimal, Atoi, ReadField, ReadsRange;
    RangeText(a, b);
    var range := Decimal(a) + "-" + Decimal(b);
    StepText(range, Between(a, b), n);
    OneItem(range + "/" + Decimal(n), Item(Between(a, b), Some(n)), min, max);
  }

  /** A comma joins two texts: both must be accepted, and either may admit. */
  lemma FormList(x: string, y: string, min: int, max: int)
    ensures FieldValid(x + "," + y, min, max) <==> FieldValid(x, min, max) && FieldValid(y, min, max)
    ensures FieldValid(x, min, max) && FieldValid(y, min, max) ==>
      forall v :: Names(x + "," + y, min, max, v) <==> Names(x, min, max, v) || Names(y, min, max, v)
  {
    hide Split, ReadItem, WellFormed;
    SplitSum(x, y, ',');
    ReadItemsSum(Split(x, ','), Split(y, ','));
    hide ReadItems;
    if ReadField(x).Some? && ReadField(y).Some? {
      ItemsSum(ReadField(x).value, ReadField(y).value, min, max);
    }
  }

  /** A text that is accepted and has no comma has one of these forms, with number texts for the numbers. */
  lemma NoOtherForms(text: string, min: int, max: int)
    requires FieldValid(text, min, max) && ',' !in text
    ensures IsRange(text)
      || exists range: string, step: string :: text == range + "/" + step && IsRange(range) && Atoi(step).Some?
  {
    hide Split, Atoi, ReadRange, WellFormed;
    SplitOne(text, ',');
    var items := ReadField(text).value;
    assert ReadItem(text).Some? by {
      assert Split(text, ',') == [text];
    }
    var item := ReadItem(text).value;
    ReadItemExact(text, item);
    hide ReadField, ReadItem, IsRange;
    if item.step.None? {
      RangeForm(text, item.range);
    } else {
      var r, s :| text == r + "/" + s && '/' !in r && '/' !in s && ReadsRange(r, item.range) && Atoi(s) == item.step;
      RangeForm(r, item.range);
    }
  }

  /** The text of a range: a star, a number, or two numbers with a hyphen between them. */
  ghost predicate IsRange(text: string) {
    text == "*" || Atoi(text).Some?
    || exists p: string, q: string :: text == p + "-" + q && Atoi(p).Some? && Atoi(q).Some?
  }

  lemma RangeForm(text: string, r: Range)
    requires ReadsRange(text, r)
    ensures IsRange(text)
  {
    hide Atoi;
  }

  lemma {:induction false} JoinSum(a: seq<string>, b: seq<string>, c: char)
    requires a != [] && b != []
    ensures Join(a + b, c) == Join(a, c) + [c] + Join(b, c)
  {
    if |a| == 1 {
      assert (a + b)[1..] == b;
    } else {
      JoinSum(a[1..], b, c);
      assert (a + b)[1..] == a[1..] + b;
    }
  }

  lemma SplitSum(x: string, y: string, c: char)
    ensures Split(x + [c] + y, c) == Split(x, c) + Split(y, c)
  {
    hide Split, Join;
    SplitJoins(x, c);
    SplitJoins(y, c);
    JoinSum(Split(x, c), Split(y, c), c);
    SplitUnique(Split(x, c) + Split(y, c), c);
  }

  lemma {:induction false} ReadItemsSum(a: seq<string>, b: seq<string>)
    ensures ReadItems(a + b) ==
      if ReadItems(a).Some? && ReadItems(b).Some? then Some(ReadItems(a).value + ReadItems(b).value) else None
  {
    hide ReadItem;
    if a == [] {
      assert a + b == b;
      if ReadItems(b).Some? {
        assert [] + ReadItems(b).value == ReadItems(b).value;
      }
    } else {
      ReadItemsSum(a[1..], b);
      assert (a + b)[0] == a[0] && (a + b)[1..] == a[1..] + b;
      if ReadItems(a).Some? && ReadItems(b).Some? {
        var first, rest := ReadItem(a[0]).value, ReadItems(a[1..]).value;
        assert [first] + (rest + ReadItems(b).value) == [first] + rest + ReadItems(b).value;
      }
    }
  }

  lemma ItemsSum(a: seq<Item>, b: seq<Item>, min: int, max: int)
    ensures AllWellFormed(a + b, min, max) <==> AllWellFormed(a, min, max) && AllWellFormed(b, min, max)
    ensures AllWellFormed(a + b, min, max) ==>
      forall v :: Admits(a + b, min, max, v) <==> Admits(a, min, max, v) || Admits(b, min, max, v)
  {
    hide WellFormed;
    var all := a + b;
    assert forall i :: 0 <= i < |a| ==> all[i] == a[i];
    assert forall i :: 0 <= i < |b| ==> all[|a| + i] == b[i];
    assert forall i :: |a| <= i < |all| ==> all[i] == b[i - |a|];
    if AllWellFormed(all, min, max) {
      hide ItemAdmits;
      forall v ensures Admits(all, min, max, v) <==> Admits(a, min, max, v) || Admits(b, min, max, v) {
        if i :| 0 <= i < |all| && ItemAdmits(all[i], min, max, v) {
          assert i < |a| || all[i] == b[i - |a|];
        }
      }
    }
  }

  // ---------------------------------------------------------------- whole expressions

  /** The six field texts of an expression of 5 or 6 words. */
  predicate HasFields(expr: string, f: seq<string>) {
    |f| == 6 && (Fields(expr) == f || ["0"] + Fields(expr) == f)
  }

  lemma FiveOrSix(expr: string, f: seq<string>)
    requires HasFields(expr, f)
    ensures SixFields(expr) == Some(f)
  {
    hide Fields;
    assert |["0"] + Fields(expr)| == 1 + |Fields(expr)|;
  }

  /** Which date a text that names days of the month and one that names weekdays fire on together. */
  predicate NamesDay(days: string, weekdays: string, day: int, weekday: int) {
    var byDay, byWeekday := Names(days, 1, 31, day), Names(weekdays, 0, 6, weekday);
    if (forall v :: 1 <= v <= 31 ==> Names(days, 1, 31, v)) || (forall v :: 0 <= v <= 6 ==> Names(weekdays, 0, 6, v))
    then byDay && byWeekday
    else byDay || byWeekday
  }

  /**
   What an expression says: seconds, minutes, hours, days of the month, months and weekdays, in this
   order and within their limits; if both day fields leave days out, either may name the day.
   */
  lemma FieldsFire(expr: string, f: seq<string>, t: int)
    requires HasFields(expr, f)
    ensures ReadExpr(expr).Some? <==>
      && FieldValid(f[0], 0, 59) && FieldValid(f[1], 0, 59) && FieldValid(f[2], 0, 23)
      && FieldValid(f[3], 1, 31) && FieldValid(f[4], 1, 12) && FieldValid(f[5], 0, 6)
    ensures ReadExpr(expr).Some? ==> (Fires(ReadExpr(expr).value, t) <==>
      && Names(f[0], 0, 59, Second(t)) && Names(f[1], 0, 59, Minute(t)) && Names(f[2], 0, 23, Hour(t))
      && Names(f[4], 1, 12, Month(t)) && NamesDay(f[3], f[5], MonthDay(t), Weekday(t)))
  {
    FiveOrSix(expr, f);
    DateIsReal(t);
    RealDateBounds(Month(t), MonthDay(t), Weekday(t));
    hide HasFields, SixFields, ReadField, Admits, AllWellFormed, Month, MonthDay, Weekday, Hour, Minute, Second;
    hide RealDate, RealTime, NamesDay, DayAdmitted;
    if ReadExpr(expr).Some? {
      DayAgrees(ReadExpr(expr).value, f[3], f[5], MonthDay(t), Weekday(t));
    }
  }

  lemma DayAgrees(s: Schedule, days: string, weekdays: string, day: int, weekday: int)
    requires WellFormedSchedule(s) && ReadField(days) == Some(s.dom) && ReadField(weekdays) == Some(s.dow)
    requires 1 <= day <= 31 && 0 <= weekday <= 6
    ensures NamesDay(days, weekdays, day, weekday) <==> DayAdmitted(s, day, weekday)
  {
    hide ReadField, Admits, AllWellFormed;
    assert forall v :: Names(days, 1, 31, v) <==> Admits(s.dom, 1, 31, v);
    assert forall v :: Names(weekdays, 0, 6, v) <==> Admits(s.dow, 0, 6, v);
  }

  /** Any other number of words is refused. */
  lemma OtherWordCounts(expr: string)
    requires |Fields(expr)| != 5 && |Fields(expr)| != 6
    ensures ReadExpr(expr) == None
  {
  }

  // ---------------------------------------------------------------- everyday expressions

  lemma NumberWord(a: nat)
    ensures IsWord(Decimal(a))
  {
    hide Decimal;
    DigitsAreNoSpace(Decimal(a));
  }

  lemma DigitsAreNoSpace(s: string)
    requires s != "" && AllDigits(s)
    ensures IsWord(s)
  {
  }

  /** The five words of an expression with a single minute and hour. */
  function AtTime(h: nat, m: nat, days: string, weekdays: string): string {
    Join([Decimal(m), Decimal(h), days, "*", weekdays], ' ')
  }

  lemma AtTimeFields(h: nat, m: nat, days: string, weekdays: string)
    requires IsWord(days) && IsWord(weekdays)
    ensures HasFields(AtTime(h, m, days, weekdays), [Decimal(0), Decimal(m), Decimal(h), days, "*", weekdays])
  {
    var star, words := "*", [Decimal(m), Decimal(h), days, "*", weekdays];
    NumberWord(m);
    NumberWord(h);
    assert IsWord(star) && Decimal(0) == "0";
    hide Decimal, Fields, Join, IsWord;
    FieldsOfJoin(words);
    assert ["0"] + words == ["0", Decimal(m), Decimal(h), days, "*", weekdays];
  }

  /** At second 0 of that minute, on the days that the day fields name. */
  lemma AtTimeFires(h: nat, m: nat, days: string, weekdays: string, t: int)
    requires h <= 23 && m <= 59 && IsWord(days) && IsWord(weekdays)
    ensures ReadExpr(AtTime(h, m, days, weekdays)).Some? <==> FieldValid(days, 1, 31) && FieldValid(weekdays, 0, 6)
    ensures ReadExpr(AtTime(h, m, days, weekdays)).Some? ==>
      (Fires(ReadExpr(AtTime(h, m, days, weekdays)).value, t) <==>
        Hour(t) == h && Minute(t) == m && Second(t) == 0 && NamesDay(days, weekdays, MonthDay(t), Weekday(t)))
  {
    DateIsReal(t);
    RealDateBounds(Month(t), MonthDay(t), Weekday(t));
    hide Decimal, AtTime, HasFields, ReadExpr, FieldValid, Names, NamesDay, Fires, IsWord, WellFormedSchedule;
    hide Hour, Minute, Second, MonthDay, Weekday, Month, RealDate;
    AtTimeFields(h, m, days, weekdays);
    FormNumber(0, 0, 59);
    FormNumber(m, 0, 59);
    FormNumber(h, 0, 23);
    FormStar(1, 12);
    FieldsFire(AtTime(h, m, days, weekdays), [Decimal(0), Decimal(m), Decimal(h), days, "*", weekdays], t);
  }

  /** `m h * * *` fires every day at that time. */
  lemma Daily(h: nat, m: nat, t: int)
    requires h <= 23 && m <= 59
    ensures var r := ReadExpr(AtTime(h, m, "*", "*"));
      r.Some? && (Fires(r.value, t) <==> Hour(t) == h && Minute(t) == m && Second(t) == 0)
  {
    hide AtTime, ReadExpr, FieldValid, Names, NamesDay, Fires, IsWord, WellFormedSchedule;
    hide Hour, Minute, Second, MonthDay, Weekday, Month, MaxDay;
    StarIsWord();
    AnyDay(t);
    AtTimeFires(h, m, "*", "*", t);
  }

  lemma AnyDay(t: int)
    ensures FieldValid("*", 1, 31) && FieldValid("*", 0, 6) && NamesDay("*", "*", MonthDay(t), Weekday(t))
  {
    hide FieldValid, Names, MonthDay, Weekday, Month, MaxDay;
    DateIsReal(t);
    RealDateBounds(Month(t), MonthDay(t), Weekday(t));
    FormStar(1, 31);
    FormStar(0, 6);
  }

  lemma StarIsWord()
    ensures IsWord("*")
  {
    var star := "*";
    assert !IsSpace(star[0]);
  }

  /** `m h * * w` fires at that time on that weekday. */
  lemma Weekly(h: nat, m: nat, w: nat, t: int)
    requires h <= 23 && m <= 59 && w <= 6
    ensures var r := ReadExpr(AtTime(h, m, "*", Decimal(w)));
      r.Some? && (Fires(r.value, t) <==> Hour(t) == h && Minute(t) == m && Second(t) == 0 && Weekday(t) == w)
  {
    DateIsReal(t);
    RealDateBounds(Month(t), MonthDay(t), Weekday(t));
    StarIsWord();
    NumberWord(w);
    hide AtTime, ReadExpr, FieldValid, Names, Fires, IsWord, WellFormedSchedule, Decimal;
    hide Hour, Minute, Second, MonthDay, Weekday, Month, RealDate;
    FormStar(1, 31);
    FormNumber(w, 0, 6);
    AtTimeFires(h, m, "*", Decimal(w), t);
  }

  /** `m h d * w` fires at that time on that day of every month and on that weekday as well. */
  lemma DayOrWeekday(h: nat, m: nat, d: nat, w: nat, t: int)
    requires h <= 23 && m <= 59 && 1 <= d <= 31 && w <= 6
    ensures var r := ReadExpr(AtTime(h, m, Decimal(d), Decimal(w)));
      r.Some? && (Fires(r.value, t) <==>
        Hour(t) == h && Minute(t) == m && Second(t) == 0 && (MonthDay(t) == d || Weekday(t) == w))
  {
    NumberWord(d);
    NumberWord(w);
    hide AtTime, ReadExpr, FieldValid, Names, Fires, IsWord, WellFormedSchedule, Decimal;
    hide Hour, Minute, Second, MonthDay, Weekday, Month;
    FormNumber(d, 1, 31);
    FormNumber(w, 0, 6);
    assert !Names(Decimal(d), 1, 31, if d == 1 then 2 else 1);
    assert !Names(Decimal(w), 0, 6, if w == 0 then 1 else 0);
    AtTimeFires(h, m, Decimal(d), Decimal(w), t);
  }

  /** `0 9 * * 1`, asked in the last second of the year 2023, next fires on Monday, 1 January 2024, at nine. */
  lemma MondayMorning()
    ensures var r, t := ReadExpr(AtTime(9, 0, "*", Decimal(1))), MonthStart(2024, 1) * 86400 + 32400;
      && r.Some? && IsNextByText(r.value, (MonthStart(2024, 1) * 86400 - 1) * 1_000_000_000, t)
      && Year(t) == 2024 && Month(t) == 1 && MonthDay(t) == 1 && Hour(t) == 9 && Minute(t) == 0 && Second(t) == 0
  {
    hide AtTime, ReadExpr, Fires, Decimal, MonthStart, Year, Month, MonthDay, Weekday, Hour, Minute, Second;
    hide WellFormedSchedule;
    var day := MonthStart(2024, 1);
    var t := day * 86400 + 32400;
    MondayAtNine(t);
    Weekly(9, 0, 1, t);
    var s := ReadExpr(AtTime(9, 0, "*", Decimal(1))).value;
    forall u | u * NANOS > (day * 86400 - 1) * NANOS && Fires(s, u) ensures t <= u {
      Weekly(9, 0, 1, u);
      EarlierThatDay(day, u);
    }
  }

  lemma MondayAtNine(t: int)
    requires t == MonthStart(2024, 1) * 86400 + 32400
    ensures Year(t) == 2024 && Month(t) == 1 && MonthDay(t) == 1 && Weekday(t) == 1
    ensures Hour(t) == 9 && Minute(t) == 0 && Second(t) == 0
  {
    hide Year, Month, MonthDay, Weekday, Hour, Minute, Second, MonthStart, ValidDate;
    NewYear2024();
    ClockFields(738885, 9, 0, 0);
    WeekdayOfDate(Date(2024, 1, 1), t);
    assert (1 + 738885 - 730485) % 7 == 1;
  }

  lemma NewYear2024()
    ensures MonthStart(2024, 1) == 738885 && ValidDate(Date(2024, 1, 1)) && MonthStart(2001, 1) == 730485
  {
  }

  lemma EarlierThatDay(day: int, u: int)
    requires day * 86400 <= u && Hour(u) == 9
    ensures day * 86400 + 32400 <= u
  {
    hide Hour, Minute, Second, Year, Month, MonthDay;
    ClockOfDay(u);
    var q := u / 86400;
    assert day <= q;
    assert u >= q * 86400 + 9 * 3600;
  }
}
