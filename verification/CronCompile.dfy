/** Compilation of cron text into masks, and what the masks mean in terms of the text. */
module CronCompile {
  import opened Arith
  import opened Bits
  import opened Calendar
  import opened Common
  import opened CronText
  import opened CronSchedule

  datatype FieldError = TooManySlashes | TooManyHyphens | InvalidRange | OutOfRange | InvalidIncrement
  datatype Bounds = Bounds(start: int, end: int, incr: int)

  /** One comma-separated item, up to the point where its bits are set. */
  function ParseItem(field: string, min: int, max: int): Result<Bounds, FieldError> {
    var rangeAndIncr := Split(field, '/');
    if |rangeAndIncr| > 2 then Err(TooManySlashes)
    else
      var startAndEnd := Split(rangeAndIncr[0], '-');
      if |startAndEnd| > 2 then Err(TooManyHyphens)
      else match ParseRange(startAndEnd, |rangeAndIncr| == 2, min, max)
        case None => Err(InvalidRange)
        case Some((start, end)) => CheckItem(rangeAndIncr, min, max, start, end)
  }

  /** The ends of a range. */
  function ParseRange(startAndEnd: seq<string>, stepped: bool, min: int, max: int): Option<(int, int)>
    requires 1 <= |startAndEnd| <= 2
  {
    if startAndEnd[0] == "*" then (if |startAndEnd| != 1 then None else Some((min, max)))
    else match Atoi(startAndEnd[0])
      case None => None
      case Some(start) =>
        if |startAndEnd| == 1 then Some((start, if stepped then max else start))
        else match Atoi(startAndEnd[1]) case None => None case Some(end) => Some((start, end))
  }

  function CheckItem(rangeAndIncr: seq<string>, min: int, max: int, start: int, end: int): Result<Bounds, FieldError>
    requires 1 <= |rangeAndIncr| <= 2
  {
    if start > end then Err(InvalidRange)
    else if start < min || end > max then Err(OutOfRange)
    else if |rangeAndIncr| == 1 then Ok(Bounds(start, end, 1))
    else if Atoi(rangeAndIncr[1]).None? then Err(InvalidIncrement)
    else
      var incr := Atoi(rangeAndIncr[1]).value;
      if incr <= 0 then Err(InvalidIncrement) else Ok(Bounds(start, end, incr))
  }

  predicate Accepted(field: string, min: int, max: int) {
    ReadItem(field).Some? && WellFormed(ReadItem(field).value, min, max)
  }

  /** An item is accepted exactly when the grammar reads it as a well-formed one, with its bounds. */
  lemma ParseItemExact(field: string, min: int, max: int)
    requires min <= max
    ensures ParseItem(field, min, max).Ok? <==> Accepted(field, min, max)
    ensures Accepted(field, min, max) ==>
      var item := ReadItem(field).value;
      ParseItem(field, min, max) == Ok(Bounds(Lo(item, min), Hi(item, max), Step(item)))
  {
    hide Split, Atoi;
    var parts := Split(field, '/');
    if |parts| <= 2 {
      RangeParts(parts[0]);
    }
  }

  /** How often a character occurs. */
  function Occurrences(s: string, c: char): nat {
    if s == "" then 0 else (if s[0] == c then 1 else 0) + Occurrences(s[1..], c)
  }

  lemma {:induction false} SplitCounts(s: string, c: char)
    ensures |Split(s, c)| == Occurrences(s, c) + 1
  {
    if s != "" {
      SplitCounts(s[1..], c);
    }
  }

  /** The ends of a range, and the end of a single number that has an increment is the field's maximum. */
  predicate InOrder(r: Range, stepped: bool, min: int, max: int) {
    match r
    case Star => min <= max
    case From(a) => stepped ==> a <= max
    case Between(a, b) => a <= b
  }

  predicate InLimits(r: Range, min: int, max: int) {
    match r
    case Star => true
    case From(a) => min <= a <= max
    case Between(a, b) => min <= a && b <= max
  }

  /**
   Which error a refused item gets: slashes are counted first, then the hyphens before the slash; then the
   range must be readable and in order, then within the limits; last comes the increment.
   */
  lemma WhichError(field: string, min: int, max: int)
    requires min <= max && ParseItem(field, min, max).Err?
    ensures var e, parts := ParseItem(field, min, max).error, Split(field, '/');
      var slashes, hyphens, r := Occurrences(field, '/'), Occurrences(parts[0], '-'), ReadRange(parts[0]);
      && (e.TooManySlashes? <==> slashes >= 2)
      && (e.TooManyHyphens? <==> slashes <= 1 && hyphens >= 2)
      && (e.InvalidRange? <==>
          slashes <= 1 && hyphens <= 1 && (r.None? || !InOrder(r.value, slashes == 1, min, max)))
      && (e.OutOfRange? <==>
          slashes <= 1 && r.Some? && InOrder(r.value, slashes == 1, min, max) && !InLimits(r.value, min, max))
      && (e.InvalidIncrement? <==>
          |parts| == 2 && r.Some? && InOrder(r.value, true, min, max) && InLimits(r.value, min, max)
          && (Atoi(parts[1]).None? || Atoi(parts[1]).value < 1))
  {
    hide Split, Atoi, Occurrences;
    var parts := Split(field, '/');
    SplitCounts(field, '/');
    SplitCounts(parts[0], '-');
    RangeParts(parts[0]);
  }

  lemma RangeParts(range: string)
    ensures var parts := Split(range, '-');
      && (|parts| == 1 ==> parts[0] == range)
      && (|parts| > 1 ==> range != "*")
      && (parts[0] == "*" ==> Atoi(parts[0]) == None)
  {
    SplitOne(range, '-');
    AtoiStar();
  }

  // ---------------------------------------------------------------- setting the bits of one item

  /** `a + b` on 64-bit signed integers. */
  function AddInt(a: int, b: int): int {
    var s := a + b;
    if s > MAX_INT then s - WORD else if s < -MAX_INT - 1 then s + WORD else s
  }

  /** `uint(i)`. */
  function ToUint(i: int): nat
    requires i >= -WORD
  {
    if i < 0 then i + WORD else i
  }

  /** Both conversions keep the number modulo 2^64 and land in the range of their type. */
  lemma WordArithmetic(a: int, b: int)
    requires -0x8000_0000_0000_0000 <= a <= 0x7fff_ffff_ffff_ffff
    requires -0x8000_0000_0000_0000 <= b <= 0x7fff_ffff_ffff_ffff
    ensures -0x8000_0000_0000_0000 <= AddInt(a, b) <= 0x7fff_ffff_ffff_ffff
    ensures (a + b - AddInt(a, b)) % 0x1_0000_0000_0000_0000 == 0
    ensures ToUint(a) < 0x1_0000_0000_0000_0000 && (ToUint(a) - a) % 0x1_0000_0000_0000_0000 == 0
  {
  }

  predicate InProgression(start: int, end: int, incr: int, v: int)
    requires incr > 0
  {
    start <= v <= end && (v - start) % incr == 0
  }

  predicate OnLadder(start: int, d: int, v: int)
    requires d > 0
  {
    (start - v) % d == 0
  }

  /** What an increment so large that the counter wraps twice sets below the start. */
  predicate Stray(start: int, incr: int, v: int) {
    2 * incr < WORD && 0 <= v < start && OnLadder(start, WORD - 2 * incr, v)
  }

  /** `r` has the digits of `field` and those of `extra`. */
  ghost predicate Extends(field: Word, r: Word, extra: nat -> bool) {
    forall v: nat :: Bit(r, v) <==> Bit(field, v) || extra(v)
  }

  const HUGE := 0x4000_0000_0000_0000

  /** The loop with an increment small enough never to wrap: the progression below `i` is set. */
  ghost predicate Climbing(field: Word, r: Word, start: int, end: int, incr: int, i: int)
    requires incr > 0
  {
    && start <= i && (i - start) % incr == 0
    && Extends(field, r, v => InProgression(start, end, incr, v) && v < i)
  }

  /**
   The loop with a huge increment. Adding it twice subtracts `d == WORD - 2 * incr`, so the counter
   alternates between a value `x` at or below the start and one far below zero, until an addition
   does not wrap. The values above `x`, or from `x` on after the odd step, have been set.
   */
  ghost predicate Falling(field: Word, r: Word, start: int, end: int, d: int, i: int, x: int, odd: bool)
    requires d > 0
  {
    if i > end then Extends(field, r, v => v <= start && OnLadder(start, d, v))
    else
      && -200 <= x <= start && OnLadder(start, d, x) && (x < start ==> d <= 128)
      && i == (if odd then x - d / 2 - WORD / 2 else x)
      && (odd ==> x >= d / 2)
      && Extends(field, r, v => (if odd then x <= v else x < v) && v <= start && OnLadder(start, d, v))
  }

  lemma Climb(field: Word, was: Word, r: Word, start: int, end: int, incr: int, i: int)
    requires 0 <= start <= i <= end < 63 && 2 <= incr < HUGE && Climbing(field, was, start, end, incr, i)
    requires forall v: nat :: Bit(r, v) <==> Bit(was, v) || v == i
    ensures Climbing(field, r, start, end, incr, AddInt(i, incr)) && AddInt(i, incr) == i + incr
  {
    hide Bit;
    NextMultiple(i - start, incr);
    forall v: nat ensures Bit(r, v) <==> Bit(field, v) || (InProgression(start, end, incr, v) && v < i + incr) {
      if i <= v && InProgression(start, end, incr, v) && v < i + incr {
        OneMultiple(i - start, v - start, incr);
      }
    }
  }

  lemma Fall(field: Word, was: Word, r: Word, start: int, end: int, incr: int, i: int, x: int, odd: bool)
      returns (x': int, odd': bool)
    requires 0 <= start <= end < 63 && HUGE <= incr <= MAX_INT && i <= end
    requires Falling(field, was, start, end, WORD - 2 * incr, i, x, odd)
    requires forall v: nat :: Bit(r, v) <==> Bit(was, v) || v == i
    ensures Falling(field, r, start, end, WORD - 2 * incr, AddInt(i, incr), x', odd')
    ensures AddInt(i, incr) <= end ==> x' >= -200 && if odd then x' < x && !odd' else x' == x && odd'
  {
    hide Bit;
    var d := WORD - 2 * incr;
    if odd {
      x', odd' := x - d, false;
      NextMultiple(start - x, d);
      forall v: nat ensures Bit(r, v) <==> Bit(field, v) || (x - d < v <= start && (start - v) % d == 0) {
        if x - d < v < x && (start - v) % d == 0 {
          OneMultiple(start - x, start - v, d);
        }
      }
    } else {
      x', odd' := x, true;
      forall v: nat ensures Bit(r, v) <==> Bit(field, v) || (x <= v <= start && (start - v) % d == 0) {
      }
      if x < d / 2 {
        forall v: nat ensures Bit(r, v) <==> Bit(field, v) || (v <= start && (start - v) % d == 0) {
          if v < x && (start - v) % d == 0 {
            OneMultiple(start - x, start - v, d);
          }
        }
      }
    }
  }

  /** The stepping loop, with the counter's 64-bit wrap-around. */
  method AddSteps(field: Word, start: int, end: int, incr: int) returns (r: Word)
    requires 0 <= start <= end < 63 && 2 <= incr <= MAX_INT
    ensures forall v: nat :: Bit(r, v) <==>
      Bit(field, v) || InProgression(start, end, incr, v) || Stray(start, incr, v)
  {
    hide Bit, Or, Shl, Climbing, Falling;
    r := field;
    var i := start;
    ghost var d := WORD - 2 * incr;
    ghost var x, odd := start, false;
    StepsBegin(field, start, end, incr);
    while i <= end
      invariant -MAX_INT - 1 <= i <= MAX_INT
      invariant incr >= HUGE && i <= end ==> x >= -200
      invariant incr < HUGE ==> start <= i && Climbing(field, r, start, end, incr, i)
      invariant incr >= HUGE ==> Falling(field, r, start, end, d, i, x, odd)
      decreases if i > end then -1 else if incr < HUGE then end - i else 2 * x + (if odd then 400 else 401)
    {
      ghost var was := r;
      OrWord(r, Shl(1, ToUint(i)));
      r := Or(r, Shl(1, ToUint(i)));
      forall v: nat ensures Bit(r, v) <==> Bit(was, v) || v == i {
        SetBit(was, ToUint(i), v);
      }
      if incr < HUGE {
        Climb(field, was, r, start, end, incr, i);
      } else {
        x, odd := Fall(field, was, r, start, end, incr, i, x, odd);
      }
      i := AddInt(i, incr);
    }
    if incr < HUGE {
      ClimbEnd(field, r, start, end, incr, i);
    } else {
      FallEnd(field, r, start, end, incr, i, x, odd);
    }
  }

  lemma StepsBegin(field: Word, start: int, end: int, incr: int)
    requires 0 <= start <= end < 63 && 2 <= incr <= MAX_INT
    ensures Climbing(field, field, start, end, incr, start)
    ensures Falling(field, field, start, end, WORD - 2 * incr, start, start, false)
  {
    hide Bit;
  }

  /** No stray digit appears unless twice the increment reaches around to the start. */
  lemma StrayFree(start: int, incr: int, v: int)
    requires 0 < incr <= MAX_INT && start + 2 * incr < WORD
    ensures !Stray(start, incr, v)
  {
    if 0 <= v < start {
      SmallMod(start - v, WORD - 2 * incr);
    }
  }

  lemma OnlyStart(start: int, end: int, incr: int, v: int)
    requires 0 <= start <= end < incr
    ensures InProgression(start, end, incr, v) <==> v == start
  {
    if start <= v <= end {
      SmallMod(v - start, incr);
    }
  }

  lemma ClimbEnd(field: Word, r: Word, start: int, end: int, incr: int, i: int)
    requires 0 <= start <= end < i && end < 63 && 2 <= incr < HUGE
    requires Climbing(field, r, start, end, incr, i)
    ensures Extends(field, r, v => InProgression(start, end, incr, v) || Stray(start, incr, v))
  {
    hide Bit, Stray;
    forall v: nat ensures Bit(r, v) <==>
      Bit(field, v) || InProgression(start, end, incr, v) || Stray(start, incr, v)
    {
      StrayFree(start, incr, v);
    }
  }

  lemma FallEnd(field: Word, r: Word, start: int, end: int, incr: int, i: int, x: int, odd: bool)
    requires 0 <= start <= end < i && end < 63 && HUGE <= incr <= MAX_INT
    requires Falling(field, r, start, end, WORD - 2 * incr, i, x, odd)
    ensures Extends(field, r, v => InProgression(start, end, incr, v) || Stray(start, incr, v))
  {
    assert OnLadder(start, WORD - 2 * incr, start);
    hide Bit, InProgression, OnLadder;
    forall v: nat ensures Bit(r, v) <==>
      Bit(field, v) || InProgression(start, end, incr, v) || Stray(start, incr, v)
    {
      OnlyStart(start, end, incr, v);
    }
  }

  /** A stepped item compiles to its progression exactly when its counter cannot wrap twice. */
  lemma StepsExact(start: int, end: int, incr: int)
    requires 0 <= start <= end && 0 < incr <= MAX_INT
    ensures (forall v: nat :: InProgression(start, end, incr, v) || Stray(start, incr, v)
                              <==> InProgression(start, end, incr, v))
       <==> start + 2 * incr < WORD
  {
    var d := WORD - 2 * incr;
    if start < d {
      forall v: nat ensures !Stray(start, incr, v) {
        StrayFree(start, incr, v);
      }
    } else {
      var v: nat := start - d;
      NextMultiple(0, d);
      assert Stray(start, incr, v) && !InProgression(start, end, incr, v);
    }
  }

  // ---------------------------------------------------------------- one field

  predicate ItemCompiled(item: Item, min: int, max: int, v: int)
    requires WellFormed(item, min, max)
  {
    ItemAdmits(item, min, max, v) || Stray(Lo(item, min), Step(item), v)
  }

  predicate Compiled(items: seq<Item>, min: int, max: int, v: int)
    requires AllWellFormed(items, min, max)
  {
    exists i :: 0 <= i < |items| && ItemCompiled(items[i], min, max, v)
  }

  /** Increments for which no counter wraps twice. */
  predicate Tame(items: seq<Item>, min: int) {
    forall i :: 0 <= i < |items| ==> Lo(items[i], min) + 2 * Step(items[i]) < WORD
  }

  lemma {:induction false} ReadItemsPointwise(pieces: seq<string>)
    ensures ReadItems(pieces).Some? <==> forall i :: 0 <= i < |pieces| ==> ReadItem(pieces[i]).Some?
    ensures ReadItems(pieces).Some? ==>
      && |ReadItems(pieces).value| == |pieces|
      && forall i :: 0 <= i < |pieces| ==> ReadItem(pieces[i]) == Some(ReadItems(pieces).value[i])
  {
    hide ReadItem;
    if pieces != [] {
      ReadItemsPointwise(pieces[1..]);
      assert forall i :: 0 < i < |pieces| ==> pieces[i] == pieces[1..][i - 1];
    }
  }

  predicate PieceCompiled(piece: string, min: int, max: int, v: int) {
    Accepted(piece, min, max) && ItemCompiled(ReadItem(piece).value, min, max, v)
  }

  /** `r` has exactly the digits compiled from the first `k` pieces. */
  ghost predicate CompiledUpTo(pieces: seq<string>, k: nat, min: int, max: int, r: Word)
    requires k <= |pieces|
  {
    forall v: nat :: Bit(r, v) <==> exists i :: 0 <= i < k && PieceCompiled(pieces[i], min, max, v)
  }

  lemma CompiledOne(pieces: seq<string>, k: nat, min: int, max: int, was: Word, r: Word)
    requires k < |pieces| && CompiledUpTo(pieces, k, min, max, was)
    requires forall v: nat :: Bit(r, v) <==> Bit(was, v) || PieceCompiled(pieces[k], min, max, v)
    ensures CompiledUpTo(pieces, k + 1, min, max, r)
  {
    hide PieceCompiled, Bit;
  }

  lemma CompiledAll(field: string, min: int, max: int, r: Word)
    requires var pieces := Split(field, ',');
      (forall i :: 0 <= i < |pieces| ==> Accepted(pieces[i], min, max)) && CompiledUpTo(pieces, |pieces|, min, max, r)
    ensures ReadField(field).Some? && AllWellFormed(ReadField(field).value, min, max)
    ensures forall v: nat :: Bit(r, v) <==> Compiled(ReadField(field).value, min, max, v)
  {
    hide ItemCompiled, Bit, ReadItem, ReadItems, Split, WellFormed;
    ReadItemsPointwise(Split(field, ','));
  }

  /** `cronField |= ...` for one item. */
  method AddItem(field: Word, b: Bounds) returns (r: Word)
    requires 0 <= b.start <= b.end < 63 && 1 <= b.incr <= MAX_INT
    ensures forall v: nat :: Bit(r, v) <==>
      Bit(field, v) || InProgression(b.start, b.end, b.incr, v) || Stray(b.start, b.incr, v)
  {
    hide Bit, Or, And, Not, Shl, Stray;
    if b.incr == 1 {
      var mask := And(Not(Shl(ALL, b.end + 1)), Shl(ALL, b.start));
      OrWord(field, mask);
      r := Or(field, mask);
      forall v: nat ensures Bit(r, v) <==>
        Bit(field, v) || InProgression(b.start, b.end, 1, v) || Stray(b.start, 1, v)
      {
        OrBit(field, mask, v);
        RangeMask(b.start, b.end, v);
        StrayFree(b.start, 1, v);
      }
    } else {
      r := AddSteps(field, b.start, b.end, b.incr);
    }
  }

  /** The error is that of the first refused item of the field. */
  ghost predicate RefusedWith(field: string, min: int, max: int, e: FieldError) {
    var pieces := Split(field, ',');
    exists k :: 0 <= k < |pieces| && ParseItem(pieces[k], min, max) == Err(e)
      && forall i :: 0 <= i < k ==> Accepted(pieces[i], min, max)
  }

  method ParseCronField(field: string, min: int, max: int) returns (r: Result<Word, FieldError>)
    requires 0 <= min <= max < 63
    ensures r.Ok? <==> ReadField(field).Some? && AllWellFormed(ReadField(field).value, min, max)
    ensures r.Ok? ==> forall v: nat :: Bit(r.value, v) <==> Compiled(ReadField(field).value, min, max, v)
    ensures r.Err? ==> RefusedWith(field, min, max, r.error)
  {
    hide Bit, ReadItem, ReadItems, Split, ParseItem, WellFormed, PieceCompiled;
    var fields := Split(field, ',');
    var cronField: Word := 0;
    assert CompiledUpTo(fields, 0, min, max, cronField) by {
      forall v: nat ensures !Bit(cronField, v) {
        ZeroBit(v);
      }
    }
    for k := 0 to |fields|
      invariant forall i :: 0 <= i < k ==> Accepted(fields[i], min, max)
      invariant CompiledUpTo(fields, k, min, max, cronField)
    {
      ParseItemExact(fields[k], min, max);
      var b := ParseItem(fields[k], min, max);
      if b.Err? {
        ReadItemsPointwise(fields);
        return Err(b.error);
      }
      ghost var was := cronField;
      ItemStep(fields[k], min, max);
      cronField := AddItem(cronField, b.value);
      CompiledOne(fields, k, min, max, was, cronField);
    }
    CompiledAll(field, min, max, cronField);
    return Ok(cronField);
  }

  lemma ItemStep(field: string, min: int, max: int)
    requires 0 <= min && Accepted(field, min, max)
    ensures var item := ReadItem(field).value;
      && min <= Lo(item, min) <= Hi(item, max) <= max && 1 <= Step(item) <= MAX_INT
      && forall v: nat :: PieceCompiled(field, min, max, v) <==>
        InProgression(Lo(item, min), Hi(item, max), Step(item), v) || Stray(Lo(item, min), Step(item), v)
  {
  }

  // ---------------------------------------------------------------- a whole expression

  datatype Schedule = Schedule(
    sec: seq<Item>, min: seq<Item>, hour: seq<Item>, dom: seq<Item>, month: seq<Item>, dow: seq<Item>)

  datatype ExprError = FieldCount(got: nat) | BadField(error: FieldError)

  predicate FieldValid(text: string, min: int, max: int) {
    ReadField(text).Some? && AllWellFormed(ReadField(text).value, min, max)
  }

  /** The six field texts, with the implicit seconds `0` of a five-field expression. */
  function SixFields(expr: string): Option<seq<string>> {
    var fields := Fields(expr);
    if |fields| == 6 then Some(fields) else if |fields| == 5 then Some(["0"] + fields) else None
  }

  predicate SixValid(f: seq<string>)
    requires |f| == 6
  {
    && FieldValid(f[0], 0, 59) && FieldValid(f[1], 0, 59) && FieldValid(f[2], 0, 23)
    && FieldValid(f[3], 1, 31) && FieldValid(f[4], 1, 12) && FieldValid(f[5], 0, 6)
  }

  predicate WellFormedSchedule(s: Schedule) {
    && AllWellFormed(s.sec, 0, 59) && AllWellFormed(s.min, 0, 59) && AllWellFormed(s.hour, 0, 23)
    && AllWellFormed(s.dom, 1, 31) && AllWellFormed(s.month, 1, 12) && AllWellFormed(s.dow, 0, 6)
  }

  predicate TameSchedule(s: Schedule) {
    Tame(s.sec, 0) && Tame(s.min, 0) && Tame(s.hour, 0) && Tame(s.dom, 1) && Tame(s.month, 1) && Tame(s.dow, 0)
  }

  /** No field is empty. */
  predicate Stated(s: Schedule) {
    s.sec != [] && s.min != [] && s.hour != [] && s.dom != [] && s.month != [] && s.dow != []
  }

  /** In every field whatever a wrapped counter sets is admitted anyway. */
  predicate CoveredSchedule(s: Schedule)
    requires WellFormedSchedule(s)
  {
    && StraysCovered(s.sec, 0, 59) && StraysCovered(s.min, 0, 59) && StraysCovered(s.hour, 0, 23)
    && StraysCovered(s.dom, 1, 31) && StraysCovered(s.month, 1, 12) && StraysCovered(s.dow, 0, 6)
  }

  lemma TameScheduleIsCovered(s: Schedule)
    requires WellFormedSchedule(s) && TameSchedule(s)
    ensures CoveredSchedule(s)
  {
    hide Tame, AllWellFormed, StraysCovered;
    TameIsCovered(s.sec, 0, 59);
    TameIsCovered(s.min, 0, 59);
    TameIsCovered(s.hour, 0, 23);
    TameIsCovered(s.dom, 1, 31);
    TameIsCovered(s.month, 1, 12);
    TameIsCovered(s.dow, 0, 6);
  }

  /** What the text of an expression says, when it says anything. */
  function ReadExpr(expr: string): (r: Option<Schedule>)
    ensures r.Some? ==> WellFormedSchedule(r.value) && Stated(r.value)
  {
    match SixFields(expr)
    case None => None
    case Some(f) =>
      if SixValid(f) then
        Some(Schedule(ReadField(f[0]).value, ReadField(f[1]).value, ReadField(f[2]).value,
                      ReadField(f[3]).value, ReadField(f[4]).value, ReadField(f[5]).value))
      else None
  }

  predicate Full(items: seq<Item>, min: int, max: int)
    requires AllWellFormed(items, min, max)
  {
    forall v :: min <= v <= max ==> Admits(items, min, max, v)
  }

  /** Either day field may admit the day, unless one of them admits every day and so leaves it to the other. */
  predicate DayAdmitted(s: Schedule, day: int, weekday: int)
    requires WellFormedSchedule(s)
  {
    if Full(s.dom, 1, 31) then Admits(s.dow, 0, 6, weekday)
    else if Full(s.dow, 0, 6) then Admits(s.dom, 1, 31, day)
    else Admits(s.dow, 0, 6, weekday) || Admits(s.dom, 1, 31, day)
  }

  /** The textual meaning of an expression at an instant. */
  predicate Fires(s: Schedule, t: int)
    requires WellFormedSchedule(s)
  {
    && Admits(s.month, 1, 12, Month(t)) && DayAdmitted(s, MonthDay(t), Weekday(t)) && Admits(s.hour, 0, 23, Hour(t))
    && Admits(s.min, 0, 59, Minute(t)) && Admits(s.sec, 0, 59, Second(t))
  }

  /** A mask compiled from the items of a field. */
  ghost predicate CompiledMask(mask: Word, items: seq<Item>, min: int, max: int)
    requires AllWellFormed(items, min, max)
  {
    forall v: nat :: Bit(mask, v) <==> Compiled(items, min, max, v)
  }

  /** A mask whose digits are the admitted values. */
  ghost predicate ExactMask(mask: Word, items: seq<Item>, min: int, max: int)
    requires AllWellFormed(items, min, max)
  {
    forall v: nat :: Has(mask, v) <==> Admits(items, min, max, v)
  }

  /** Whatever a wrapped counter sets in the field, some item of the field admits anyway. */
  predicate StraysCovered(items: seq<Item>, min: int, max: int)
    requires AllWellFormed(items, min, max)
  {
    forall i, v :: 0 <= i < |items| && 0 <= v < Lo(items[i], min) && Stray(Lo(items[i], min), Step(items[i]), v) ==>
      Admits(items, min, max, v)
  }

  /** The mask of a field has the textual meaning exactly when its stray digits are covered. */
  lemma FieldExact(mask: Word, items: seq<Item>, min: int, max: int)
    requires 0 <= min && AllWellFormed(items, min, max) && CompiledMask(mask, items, min, max)
    ensures ExactMask(mask, items, min, max) <==> StraysCovered(items, min, max)
  {
    forall v: nat ensures Has(mask, v) <==> Compiled(items, min, max, v) {
      MaskTest(mask, v);
    }
    hide Bit, And, Shl, Has, Stray, ItemAdmits, CompiledMask;
    forall v: nat ensures Compiled(items, min, max, v) <==>
      Admits(items, min, max, v) || exists i :: 0 <= i < |items| && Stray(Lo(items[i], min), Step(items[i]), v)
    {
      if i :| 0 <= i < |items| && (ItemAdmits(items[i], min, max, v) || Stray(Lo(items[i], min), Step(items[i]), v)) {
        assert ItemCompiled(items[i], min, max, v);
      }
    }
  }

  /** Increments for which no counter wraps twice leave nothing to cover. */
  lemma TameIsCovered(items: seq<Item>, min: int, max: int)
    requires 0 <= min && AllWellFormed(items, min, max) && Tame(items, min)
    ensures StraysCovered(items, min, max)
  {
    hide Stray, Admits;
    forall i, v: nat | 0 <= i < |items| ensures !Stray(Lo(items[i], min), Step(items[i]), v) {
      assert WellFormed(items[i], min, max);
      StrayFree(Lo(items[i], min), Step(items[i]), v);
    }
  }

  /** Only digits from `min` to `max` are set. */
  ghost predicate InRange(mask: Word, min: int, max: int) {
    forall v: nat :: Bit(mask, v) ==> min <= v <= max
  }

  /** No counter of the field wraps to a value below `min`. */
  predicate NoStrayBelow(items: seq<Item>, min: int) {
    forall i, v :: 0 <= i < |items| && 0 <= v < min ==> !Stray(Lo(items[i], min), Step(items[i]), v)
  }

  /** No digit above `max` is ever set, and all stay within the range exactly when no counter wraps below `min`. */
  lemma MaskInRange(mask: Word, items: seq<Item>, min: int, max: int)
    requires 0 <= min && AllWellFormed(items, min, max) && CompiledMask(mask, items, min, max)
    ensures InRange(mask, 0, max)
    ensures InRange(mask, min, max) <==> NoStrayBelow(items, min)
    ensures Tame(items, min) ==> NoStrayBelow(items, min)
  {
    hide Bit;
    forall v: nat | Bit(mask, v) ensures v <= max && (NoStrayBelow(items, min) ==> min <= v) {
      assert Compiled(items, min, max, v);
      var i :| 0 <= i < |items| && ItemCompiled(items[i], min, max, v);
      assert WellFormed(items[i], min, max);
    }
    if !NoStrayBelow(items, min) {
      var i, v :| 0 <= i < |items| && 0 <= v < min && Stray(Lo(items[i], min), Step(items[i]), v);
      var w: nat := v;
      assert WellFormed(items[i], min, max) && ItemCompiled(items[i], min, max, w) && Compiled(items, min, max, w);
      assert Bit(mask, w);
      if Tame(items, min) {
        StrayFree(Lo(items[i], min), Step(items[i]), v);
      }
    }
  }

  lemma AdmittedInRange(items: seq<Item>, min: int, max: int, v: int)
    requires AllWellFormed(items, min, max) && Admits(items, min, max, v)
    ensures min <= v <= max
  {
    var i :| 0 <= i < |items| && ItemAdmits(items[i], min, max, v);
    assert WellFormed(items[i], min, max);
  }

  /** An exact mask equals the pattern of all values from `min` to `max` exactly when it admits them all. */
  lemma FullMask(mask: Word, items: seq<Item>, min: nat, max: nat, full: Word)
    requires min <= max && AllWellFormed(items, min, max) && ExactMask(mask, items, min, max)
    requires full == Pow2(max + 1) - Pow2(min)
    ensures mask == full <==> Full(items, min, max)
  {
    hide AllWellFormed, Admits, And, Shl, Bit;
    forall v: nat
      ensures Bit(mask, v) <==> Admits(items, min, max, v)
      ensures Bit(full, v) <==> min <= v <= max
      ensures Admits(items, min, max, v) ==> min <= v <= max
    {
      MaskTest(mask, v);
      HighBits(max + 1, min, v);
      if Admits(items, min, max, v) {
        AdmittedInRange(items, min, max, v);
      }
    }
    if Full(items, min, max) {
      BitsDetermine(mask, full);
    } else {
      var v :| min <= v <= max && !Admits(items, min, max, v);
      assert !Bit(mask, v) && Bit(full, v);
    }
  }

  lemma BlankPatterns()
    ensures DOM_BLANK == Pow2(32) - Pow2(1)
    ensures DOW_BLANK == Pow2(7) - Pow2(0)
  {
    Pow8(0);
    Pow8(8);
    Pow8(16);
    Pow8(24);
    assert Pow2(8) == 2 * Pow2(7);
  }

  ghost predicate ExactExpr(e: CronExpr, s: Schedule)
    requires WellFormedSchedule(s)
  {
    && ExactMask(e.sec, s.sec, 0, 59) && ExactMask(e.min, s.min, 0, 59) && ExactMask(e.hour, s.hour, 0, 23)
    && ExactMask(e.dom, s.dom, 1, 31) && ExactMask(e.month, s.month, 1, 12) && ExactMask(e.dow, s.dow, 0, 6)
  }

  /** Exact masks give the search the textual meaning. */
  lemma ExactMeaning(e: CronExpr, s: Schedule, t: int)
    requires WellFormedSchedule(s) && ExactExpr(e, s)
    ensures Matches(e, t) <==> Fires(s, t)
  {
    hide Has, Admits, AllWellFormed, DateOf, MatchDay, DayAdmitted;
    ExactDay(e, s, t);
  }

  lemma ExactDay(e: CronExpr, s: Schedule, t: int)
    requires WellFormedSchedule(s) && ExactExpr(e, s)
    ensures MatchDay(e, t) <==> DayAdmitted(s, MonthDay(t), Weekday(t))
  {
    hide Has, Admits, AllWellFormed, DateOf, Full, Pow2;
    BlankPatterns();
    FullMask(e.dom, s.dom, 1, 31, DOM_BLANK);
    FullMask(e.dow, s.dow, 0, 6, DOW_BLANK);
  }

  ghost predicate CompiledExpr(e: CronExpr, s: Schedule)
    requires WellFormedSchedule(s)
  {
    && CompiledMask(e.sec, s.sec, 0, 59) && CompiledMask(e.min, s.min, 0, 59) && CompiledMask(e.hour, s.hour, 0, 23)
    && CompiledMask(e.dom, s.dom, 1, 31) && CompiledMask(e.month, s.month, 1, 12) && CompiledMask(e.dow, s.dow, 0, 6)
  }

  /** The masks have the meaning of their fields' texts exactly when every field covers what strays. */
  lemma CompiledExact(e: CronExpr, s: Schedule)
    requires WellFormedSchedule(s) && CompiledExpr(e, s)
    ensures ExactExpr(e, s) <==> CoveredSchedule(s)
  {
    hide CompiledMask, ExactMask, AllWellFormed, StraysCovered;
    FieldExact(e.sec, s.sec, 0, 59);
    FieldExact(e.min, s.min, 0, 59);
    FieldExact(e.hour, s.hour, 0, 23);
    FieldExact(e.dom, s.dom, 1, 31);
    FieldExact(e.month, s.month, 1, 12);
    FieldExact(e.dow, s.dow, 0, 6);
  }

  /**
   The text `5/9223372036854775807` says minute 5 only. It is accepted, its counter wraps, and the
   mask it compiles to also holds 3 and 1.
   */
  lemma HugeStepMisfires(mask: Word)
    ensures var text := Decimal(5) + "/" + Decimal(MAX_INT);
      && FieldValid(text, 0, 59)
      && var items := ReadField(text).value;
      && (forall v :: Admits(items, 0, 59, v) <==> v == 5)
      && (CompiledMask(mask, items, 0, 59) ==> Has(mask, 3) && Has(mask, 1))
  {
    var items := [Item(From(5), Some(MAX_INT))];
    ReadStepped(5, MAX_INT);
    MaskTest(mask, 3);
    MaskTest(mask, 1);
    hide Bit, And, Shl, ReadField, Decimal;
    assert WellFormed(items[0], 0, 59);
    assert Stray(5, MAX_INT, 3) && Stray(5, MAX_INT, 1);
    assert ItemCompiled(items[0], 0, 59, 3) && ItemCompiled(items[0], 0, 59, 1);
    forall v ensures Admits(items, 0, 59, v) <==> v == 5 {
      OnlyStart(5, 59, MAX_INT, v);
      assert ItemAdmits(items[0], 0, 59, v) <==> v == 5;
    }
  }

  /** The day field `2/9223372036854775807` sets the digit of day 0, outside of its range. */
  lemma HugeStepBelowMinimum(mask: Word)
    ensures var text := Decimal(2) + "/" + Decimal(MAX_INT);
      && FieldValid(text, 1, 31)
      && (CompiledMask(mask, ReadField(text).value, 1, 31) ==> Has(mask, 0))
  {
    var items := [Item(From(2), Some(MAX_INT))];
    ReadStepped(2, MAX_INT);
    MaskTest(mask, 0);
    hide Bit, And, Shl, ReadField, Decimal;
    assert WellFormed(items[0], 1, 31) && Stray(2, MAX_INT, 0);
    assert ItemCompiled(items[0], 1, 31, 0);
  }

  lemma ReadStepped(a: nat, n: nat)
    requires a <= MAX_INT && n <= MAX_INT
    ensures ReadField(Decimal(a) + "/" + Decimal(n)) == Some([Item(From(a), Some(n))])
  {
    hide Decimal, Atoi, ReadField, AllDigits;
    var p, q, item := Decimal(a), Decimal(n), Item(From(a), Some(n));
    var text := p + "/" + q;
    AtoiReadsDecimal(a);
    AtoiReadsDecimal(n);
    DigitsOnly(p);
    DigitsOnly(q);
    assert ReadsRange(p, item.range);
    assert ReadsItem(text, item);
    assert Join([text], ',') == text && ReadsItems([text], [item]);
    ReadFieldExact(text, [item]);
  }

  lemma DigitsOnly(s: string)
    requires AllDigits(s)
    ensures '-' !in s && '/' !in s && ',' !in s
  {
  }
}
