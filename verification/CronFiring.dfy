/** From the text of an expression to the instants at which it fires. */
module CronFiring {
  import opened Bits
  import opened Calendar
  import opened Common
  import opened CronText
  import opened CronSchedule
  import opened CronCompile
  import opened CronMeaning
  import opened CronNext

  /** `t` is the least second strictly after the given time at which the text fires. */
  ghost predicate IsNextByText(s: Schedule, nanos: int, t: int)
    requires WellFormedSchedule(s)
  {
    && t * NANOS > nanos && Fires(s, t)
    && forall u :: u * NANOS > nanos && Fires(s, u) ==> t <= u
  }

  /** The text fires after the given time, no later than the year after the next second's. */
  ghost predicate FiresInReachByText(s: Schedule, nanos: int)
    requires WellFormedSchedule(s)
  {
    exists t :: t * NANOS > nanos && Year(t) <= Year(FirstSecond(nanos)) + 1 && Fires(s, t)
  }

  /** `t` is the least second strictly after the given time among those the text compiles to. */
  ghost predicate IsNextCompiled(s: Schedule, nanos: int, t: int)
    requires WellFormedSchedule(s)
  {
    && t * NANOS > nanos && CompiledFires(s, t)
    && forall u :: u * NANOS > nanos && CompiledFires(s, u) ==> t <= u
  }

  lemma NextCompiled(e: CronExpr, s: Schedule, nanos: int, t: int)
    requires WellFormedSchedule(s) && CompiledExpr(e, s)
    ensures IsNext(e, nanos, t) <==> IsNextCompiled(s, nanos, t)
  {
    hide Matches, CompiledFires, CompiledExpr;
    forall u ensures Matches(e, u) <==> CompiledFires(s, u) {
      MatchesCompiled(e, s, u);
    }
  }

  /** Such a second exists after the given time, no later than the year after the next second's. */
  ghost predicate CompiledInReach(s: Schedule, nanos: int)
    requires WellFormedSchedule(s)
  {
    exists t :: t * NANOS > nanos && Year(t) <= Year(FirstSecond(nanos)) + 1 && CompiledFires(s, t)
  }

  lemma ReachCompiled(e: CronExpr, s: Schedule, nanos: int)
    requires WellFormedSchedule(s) && CompiledExpr(e, s)
    ensures FiresInReach(e, nanos) <==> CompiledInReach(s, nanos)
  {
    hide Matches, CompiledFires, CompiledExpr, Year, FirstSecond;
    forall u ensures Matches(e, u) <==> CompiledFires(s, u) {
      MatchesCompiled(e, s, u);
    }
  }

  lemma SameReach(e: CronExpr, s: Schedule, nanos: int)
    requires WellFormedSchedule(s) && Faithful(e, s)
    ensures FiresInReach(e, nanos) <==> FiresInReachByText(s, nanos)
  {
    hide Matches, Fires, Year, FirstSecond;
  }

  lemma SameNext(e: CronExpr, s: Schedule, nanos: int, t: int)
    requires WellFormedSchedule(s) && Faithful(e, s)
    ensures IsNext(e, nanos, t) <==> IsNextByText(s, nanos, t)
  {
    hide Matches, Fires;
  }

  /** Searched from just before an instant, that instant is the result if and only if it matches. */
  lemma JustBefore(e: CronExpr, s: Schedule, t: int)
    requires WellFormedSchedule(s)
    ensures IsNext(e, t * NANOS - 1, t) <==> Matches(e, t)
    ensures IsNextByText(s, t * NANOS - 1, t) <==> Fires(s, t)
  {
    hide Matches, Fires;
    forall u | u * NANOS > t * NANOS - 1 ensures t <= u {
    }
  }

  /** Every search finds what the text says comes next. */
  ghost predicate SearchesByText(e: CronExpr, s: Schedule)
    requires WellFormedSchedule(s)
  {
    forall nanos, t :: IsNext(e, nanos, t) <==> IsNextByText(s, nanos, t)
  }

  /** Searching a compiled expression finds what its text says if and only if no stray digit matters. */
  lemma SearchExact(e: CronExpr, s: Schedule)
    requires WellFormedSchedule(s) && Stated(s) && CompiledExpr(e, s)
    ensures SearchesByText(e, s) <==> MeansText(s)
  {
    hide Matches, Fires, MeansText, CompiledExpr, IsNext, IsNextByText, Faithful;
    CompiledMeaning(e, s);
    if MeansText(s) {
      forall nanos, t ensures IsNext(e, nanos, t) <==> IsNextByText(s, nanos, t) {
        SameNext(e, s, nanos, t);
      }
    } else {
      var t := DifferenceShows(e, s);
      JustBefore(e, s, t);
    }
  }

  /** Compiling a text and searching finds what the text says comes next. */
  method NextOfText(expr: string, nanos: int) returns (r: Result<Fire, ExprError>)
    ensures r.Ok? <==> ReadExpr(expr).Some?
    ensures r.Ok? ==>
      && (r.value.At? <==> CompiledInReach(ReadExpr(expr).value, nanos))
      && (r.value.At? ==> IsNextCompiled(ReadExpr(expr).value, nanos, r.value.time))
    ensures r.Ok? && MeansText(ReadExpr(expr).value) ==>
      && (r.value.At? <==> FiresInReachByText(ReadExpr(expr).value, nanos))
      && (r.value.At? ==> IsNextByText(ReadExpr(expr).value, nanos, r.value.time))
  {
    hide Matches, Fires, CompiledExpr, CoveredSchedule, IsNext, FiresInReach, IsNextByText, FiresInReachByText;
    hide ReadExpr, ExactExpr, MeansText, Faithful, IsNextCompiled, CompiledInReach;
    var e := NewCronExpr(expr);
    if e.Err? {
      return Err(e.error);
    }
    var fire := Next(e.value, nanos);
    ReachCompiled(e.value, ReadExpr(expr).value, nanos);
    if fire.At? {
      NextCompiled(e.value, ReadExpr(expr).value, nanos, fire.time);
    }
    if MeansText(ReadExpr(expr).value) {
      SameReach(e.value, ReadExpr(expr).value, nanos);
      if fire.At? {
        SameNext(e.value, ReadExpr(expr).value, nanos, fire.time);
      }
    }
    return Ok(fire);
  }

  /** Repeated searches list exactly the instants the text names, up to the last one, in order. */
  lemma TextEnumerated(e: CronExpr, s: Schedule, nanos: int, times: seq<int>)
    requires WellFormedSchedule(s) && Stated(s) && CompiledExpr(e, s) && MeansText(s)
    requires IsChain(e, nanos, times) && times != []
    ensures forall i, j :: 0 <= i < j < |times| ==> times[i] < times[j]
    ensures forall t :: t in times <==> t * NANOS > nanos && Fires(s, t) && t <= times[|times| - 1]
  {
    hide Matches, Fires, CompiledExpr, MeansText, IsChain;
    ChainEnumerates(e, nanos, times);
    CompiledMeaning(e, s);
  }

  // ---------------------------------------------------------------- an expression that fires too early

  lemma ReadStar()
    ensures ReadField("*") == Some([Item(Star, None)])
  {
    var item := Item(Star, None);
    hide ReadField;
    assert ReadsItem("*", item);
    assert Join(["*"], ',') == "*" && ReadsItems(["*"], [item]);
    ReadFieldExact("*", [item]);
  }

  lemma ReadZero()
    ensures ReadField("0") == Some([Item(From(0), None)])
  {
    var item := Item(From(0), None);
    AtoiReadsDecimal(0);
    assert Decimal(0) == "0";
    hide ReadField, Atoi, Decimal;
    assert ReadsItem("0", item);
    assert Join(["0"], ',') == "0" && ReadsItems(["0"], [item]);
    ReadFieldExact("0", [item]);
  }

  /** Minute 5 of every hour, stepping by the largest integer there is. */
  function HugeStep(): string {
    Decimal(5) + "/" + Decimal(MAX_INT)
  }

  lemma LayoutFrom(words: seq<string>, gaps: seq<string>, i: nat)
    requires |gaps| == |words| + 1 && i < |words|
    ensures Layout(words[i..], gaps[i..]) == gaps[i] + words[i] + Layout(words[i + 1..], gaps[i + 1..])
  {
    assert words[i..][1..] == words[i + 1..] && gaps[i..][1..] == gaps[i + 1..];
  }

  lemma StarsLayout(words: seq<string>, gaps: seq<string>)
    requires |words| == 5 && words[1..] == ["*", "*", "*", "*"] && gaps == ["", " ", " ", " ", " ", ""]
    ensures Layout(words[1..], gaps[1..]) == " * * * *"
  {
    assert Layout(words[5..], gaps[5..]) == "";
    hide Layout;
    assert words[1] == words[1..][0] && words[2] == words[1..][1];
    assert words[3] == words[1..][2] && words[4] == words[1..][3];
    LayoutFrom(words, gaps, 4);
    assert Layout(words[4..], gaps[4..]) == " *";
    LayoutFrom(words, gaps, 3);
    assert Layout(words[3..], gaps[3..]) == " * *";
    LayoutFrom(words, gaps, 2);
    assert Layout(words[2..], gaps[2..]) == " * * *";
    LayoutFrom(words, gaps, 1);
  }

  lemma FirstLayout(first: string, words: seq<string>, gaps: seq<string>)
    requires words == [first, "*", "*", "*", "*"] && gaps == ["", " ", " ", " ", " ", ""]
    ensures Layout(words, gaps) == first + " * * * *"
  {
    hide Layout;
    StarsLayout(words, gaps);
    LayoutFrom(words, gaps, 0);
    assert words[0..] == words && gaps[0..] == gaps && "" + first == first;
  }

  lemma HugeStepWords()
    ensures Fields(HugeStep() + " * * * *") == [HugeStep(), "*", "*", "*", "*"]
  {
    hide Decimal, Fields, Layout;
    var star, words, gaps := "*", [HugeStep(), "*", "*", "*", "*"], ["", " ", " ", " ", " ", ""];
    DigitsOnly(Decimal(5));
    DigitsOnly(Decimal(MAX_INT));
    assert IsWord(HugeStep()) && IsWord(star);
    FieldsOfLayout(words, gaps);
    FirstLayout(HugeStep(), words, gaps);
  }

  lemma HugeStepReads()
    ensures ReadExpr(HugeStep() + " * * * *") == Some(HugeSchedule())
  {
    hide Fields, ReadField, Decimal, AllWellFormed;
    HugeStepWords();
    ReadStepped(5, MAX_INT);
    ReadStar();
    ReadZero();
    HugeScheduleIsWellFormed();
    var f := ["0", HugeStep(), "*", "*", "*", "*"];
    assert ["0"] + [HugeStep(), "*", "*", "*", "*"] == f;
    assert SixFields(HugeStep() + " * * * *") == Some(f);
    assert SixValid(f);
  }

  /** What that text says: second 0 of minute 5, on every day. */
  function HugeSchedule(): Schedule {
    var star := [Item(Star, None)];
    Schedule([Item(From(0), None)], [Item(From(5), Some(MAX_INT))], star, star, star, star)
  }

  lemma HugeScheduleIsWellFormed()
    ensures WellFormedSchedule(HugeSchedule()) && Stated(HugeSchedule())
  {
  }

  lemma StarAdmits(min: int, max: int, v: int)
    requires min <= v <= max
    ensures AllWellFormed([Item(Star, None)], min, max)
    ensures Admits([Item(Star, None)], min, max, v) && Compiled([Item(Star, None)], min, max, v)
  {
    var items := [Item(Star, None)];
    assert WellFormed(items[0], min, max);
    assert ItemAdmits(items[0], min, max, v) && ItemCompiled(items[0], min, max, v);
  }

  /**
   The expression `5/9223372036854775807 * * * *` says minute 5 of every hour. Compiled, it also fires
   at 00:03:00 of the first day, where its text does not.
   */
  lemma HugeStepFiresEarly(e: CronExpr)
    requires WellFormedSchedule(HugeSchedule()) && CompiledExpr(e, HugeSchedule())
    ensures ReadExpr(HugeStep() + " * * * *") == Some(HugeSchedule())
    ensures Matches(e, 180) && !Fires(HugeSchedule(), 180) && !MeansText(HugeSchedule())
  {
    HugeStepReads();
    var s := HugeSchedule();
    MatchesCompiled(e, s, 180);
    FiresParts(s, 180);
    DateIsReal(180);
    RealDateBounds(Month(180), MonthDay(180), Weekday(180));
    AtThreeMinutes();
    hide ReadExpr, Fires, Matches, MeansText, Month, MonthDay, Weekday, Compiled, Admits, CompiledExpr, MaxDay;
    StarAdmits(1, 12, Month(180));
    StarAdmits(0, 23, 0);
    StarAdmits(0, 6, Weekday(180));
    StarAdmits(1, 31, MonthDay(180));
    assert DayCompiled(s, MonthDay(180), Weekday(180));
    HugeMinutes();
    CompiledMeaning(e, s);
  }

  lemma AtThreeMinutes()
    ensures Hour(180) == 0 && Minute(180) == 3 && Second(180) == 0
  {
  }

  lemma HugeMinutes()
    ensures var s := HugeSchedule();
      && WellFormedSchedule(s)
      && Compiled(s.min, 0, 59, 3) && !Admits(s.min, 0, 59, 3) && Compiled(s.sec, 0, 59, 0)
  {
    HugeScheduleIsWellFormed();
    var s := HugeSchedule();
    hide AllWellFormed;
    OnlyItem(s.min, 0, 59, 3);
    OnlyItem(s.sec, 0, 59, 0);
    OnlyStart(5, 59, MAX_INT, 3);
    assert Stray(5, MAX_INT, 3);
    hide Compiled, Admits;
    assert ItemAdmits(s.sec[0], 0, 59, 0);
  }

  lemma OnlyItem(items: seq<Item>, min: int, max: int, v: int)
    requires |items| == 1 && AllWellFormed(items, min, max)
    ensures WellFormed(items[0], min, max)
    ensures Compiled(items, min, max, v) <==> ItemCompiled(items[0], min, max, v)
    ensures Admits(items, min, max, v) <==> ItemAdmits(items[0], min, max, v)
  {
    assert WellFormed(items[0], min, max);
    hide ItemCompiled, ItemAdmits;
  }
}
