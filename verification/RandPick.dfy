/**
 Random choice. A random draw is an input: the i-th element of a draw sequence stands for the
 value the generator returned, already within the range it was asked for.
 */
module RandPick {
  import opened Common

  type int32 = x: int | -0x8000_0000 <= x < 0x8000_0000

  // ---------------------------------------------------------------- dense Fisher-Yates

  /** Draw `i` is made from a range one smaller than draw `i - 1`. */
  predicate ValidDraws(l: int, draws: seq<int>) {
    forall i :: 0 <= i < |draws| ==> 0 <= draws[i] < l - i
  }

  /** `a` with its last element moved into place `d` and the last place dropped. */
  function Remove(a: seq<int>, d: int): seq<int>
    requires 0 <= d < |a|
  {
    a[d := a[|a| - 1]][..|a| - 1]
  }

  /** The textbook shuffle: take the drawn element, close the gap with the last one, repeat. */
  function Pick(a: seq<int>, draws: seq<int>): (r: seq<int>)
    requires ValidDraws(|a|, draws)
    ensures |r| == |draws|
    decreases |draws|
  {
    if draws == [] then []
    else
      assert 0 <= draws[0] < |a|;
      assert ValidDraws(|a| - 1, draws[1..]) by {
        assert forall i :: 0 <= i < |draws| - 1 ==> draws[1..][i] == draws[i + 1];
      }
      [a[draws[0]]] + Pick(Remove(a, draws[0]), draws[1..])
  }

  /** The first draw takes its element; the last element moves there and the rest of the array is drawn from. */
  lemma PickFirst(a: seq<int>, draws: seq<int>)
    requires ValidDraws(|a|, draws) && draws != []
    ensures 0 <= draws[0] < |a| && ValidDraws(|a| - 1, draws[1..])
    ensures Pick(a, draws)[0] == a[draws[0]]
    ensures Pick(a, draws)[1..] == Pick(a[draws[0] := a[|a| - 1]][..|a| - 1], draws[1..])
  {
    hide ValidDraws, Pick;
    ValidRest(|a|, draws);
    PickDef(a, draws);
  }

  lemma PickDef(a: seq<int>, draws: seq<int>)
    requires ValidDraws(|a|, draws) && draws != [] && 0 <= draws[0] < |a| && ValidDraws(|a| - 1, draws[1..])
    ensures Pick(a, draws)[0] == a[draws[0]] && Pick(a, draws)[1..] == Pick(Remove(a, draws[0]), draws[1..])
  {
    hide ValidDraws, Remove;
  }

  predicate Distinct(a: seq<int>) {
    forall i, j :: 0 <= i < j < |a| ==> a[i] != a[j]
  }

  predicate Within(out: seq<int>, a: seq<int>) {
    forall i :: 0 <= i < |out| ==> out[i] in a
  }

  /** Removal leaves exactly the other elements. */
  lemma RemoveElements(a: seq<int>, d: int)
    requires Distinct(a) && 0 <= d < |a|
    ensures Distinct(Remove(a, d))
    ensures forall x :: x in Remove(a, d) <==> x in a && x != a[d]
  {
    var r := Remove(a, d);
    forall x | x in a && x != a[d] ensures x in r {
      var i :| 0 <= i < |a| && a[i] == x;
      if i == |a| - 1 {
        assert r[d] == x;
      } else {
        assert r[i] == x;
      }
    }
  }

  lemma ValidRest(l: int, draws: seq<int>)
    requires draws != []
    ensures ValidDraws(l, draws) <==> 0 <= draws[0] < l && ValidDraws(l - 1, draws[1..])
  {
    if 0 <= draws[0] < l && ValidDraws(l - 1, draws[1..]) {
      forall i | 0 <= i < |draws| ensures 0 <= draws[i] < l - i {
        assert i > 0 ==> draws[i] == draws[1..][i - 1];
      }
    }
  }

  /** The shuffle returns distinct elements of its array. */
  lemma {:induction false} PickDistinct(a: seq<int>, draws: seq<int>)
    requires Distinct(a) && ValidDraws(|a|, draws)
    ensures Distinct(Pick(a, draws)) && Within(Pick(a, draws), a)
    decreases |draws|
  {
    if draws != [] {
      ValidRest(|a|, draws);
      RemoveElements(a, draws[0]);
      PickDistinct(Remove(a, draws[0]), draws[1..]);
      hide Remove, Distinct;
      DistinctCons(a[draws[0]], Pick(Remove(a, draws[0]), draws[1..]), a);
    }
  }

  /** As many draws as there are elements take them all. */
  lemma {:induction false} PickAll(a: seq<int>, draws: seq<int>, x: int)
    requires Distinct(a) && ValidDraws(|a|, draws) && |draws| == |a| && x in a
    ensures x in Pick(a, draws)
    decreases |draws|
  {
    ValidRest(|a|, draws);
    if x != a[draws[0]] {
      RemoveElements(a, draws[0]);
      PickAll(Remove(a, draws[0]), draws[1..], x);
    }
  }

  lemma DistinctCons(x: int, s: seq<int>, a: seq<int>)
    requires Distinct(s) && x in a && Within(s, a) && forall i :: 0 <= i < |s| ==> s[i] != x
    ensures Distinct([x] + s) && Within([x] + s, a)
  {
    var t := [x] + s;
    assert forall i :: 0 < i < |t| ==> t[i] == s[i - 1];
  }

  function IndexOf(a: seq<int>, x: int): (i: int)
    requires x in a
    ensures 0 <= i < |a| && a[i] == x
  {
    if a[0] == x then 0 else 1 + IndexOf(a[1..], x)
  }

  lemma RestWithin(a: seq<int>, out: seq<int>)
    requires Distinct(a) && Distinct(out) && Within(out, a) && out != []
    ensures Distinct(out[1..]) && Within(out[1..], Remove(a, IndexOf(a, out[0])))
  {
    RemoveElements(a, IndexOf(a, out[0]));
    hide Remove, IndexOf;
    forall i | 0 <= i < |out| - 1 ensures out[1..][i] in Remove(a, IndexOf(a, out[0])) {
      assert out[1..][i] == out[i + 1] != out[0];
    }
  }

  /** The draws that make the shuffle return `out`. */
  function DrawsFor(a: seq<int>, out: seq<int>): (draws: seq<int>)
    requires Distinct(a) && Distinct(out) && Within(out, a)
    ensures |draws| == |out|
    decreases |out|
  {
    if out == [] then []
    else
      var d := IndexOf(a, out[0]);
      RestWithin(a, out);
      RemoveElements(a, d);
      [d] + DrawsFor(Remove(a, d), out[1..])
  }

  /** Every duplicate-free selection is the result of some draws ... */
  lemma {:induction false} PickOnto(a: seq<int>, out: seq<int>)
    requires Distinct(a) && Distinct(out) && Within(out, a)
    ensures ValidDraws(|a|, DrawsFor(a, out)) && Pick(a, DrawsFor(a, out)) == out
    decreases |out|
  {
    if out != [] {
      var d := IndexOf(a, out[0]);
      RestWithin(a, out);
      RemoveElements(a, d);
      PickOnto(Remove(a, d), out[1..]);
      var draws := DrawsFor(a, out);
      hide IndexOf;
      assert draws[1..] == DrawsFor(Remove(a, d), out[1..]);
      ValidRest(|a|, draws);
    }
  }

  /** ... and of only those. */
  lemma {:induction false} PickOneToOne(a: seq<int>, draws: seq<int>)
    requires Distinct(a) && ValidDraws(|a|, draws)
    ensures Distinct(Pick(a, draws)) && Within(Pick(a, draws), a)
    ensures DrawsFor(a, Pick(a, draws)) == draws
    decreases |draws|
  {
    PickDistinct(a, draws);
    if draws != [] {
      ValidRest(|a|, draws);
      var out := Pick(a, draws);
      assert IndexOf(a, out[0]) == draws[0];
      assert out[1..] == Pick(Remove(a, draws[0]), draws[1..]);
      RemoveElements(a, draws[0]);
      PickOneToOne(Remove(a, draws[0]), draws[1..]);
    }
  }

  // ---------------------------------------------------------------- the sparse shuffle

  /** The integers from `lo` up, `l` of them. */
  function Interval(lo: int, l: nat): (a: seq<int>)
    ensures |a| == l && Distinct(a) && forall i :: 0 <= i < l ==> a[i] == lo + i
  {
    seq(l, i => lo + i)
  }

  function Lookup(m: map<int32, int32>, v: int32): int32 {
    if v in m then m[v] else v
  }

  /** The array the map stands for: its live places, each holding itself unless the map says otherwise. */
  ghost function Virtual(m: map<int32, int32>, lo: int, l: nat): (a: seq<int>)
    requires -0x8000_0000 <= lo && lo + l <= 0x8000_0000
    ensures |a| == l && forall i :: 0 <= i < l ==> a[i] == Lookup(m, lo + i)
  {
    seq(l, i requires 0 <= i < l => Lookup(m, lo + i))
  }

  function Min(a: int, b: int): int { if a <= b then a else b }

  /** How many integers lie between two bounds, both included. */
  function Span(b1: int32, b2: int32): nat {
    (if b1 < b2 then b2 - b1 else b1 - b2) + 1
  }

  /** How many values a call returns. */
  function Wanted(b1: int32, b2: int32, n: uint32): nat {
    if b1 == b2 then 1 else Min(n, Span(b1, b2))
  }

  /** The map after place `v` was drawn with `last` the last live place. */
  function Moved(m: map<int32, int32>, v: int32, last: int32): map<int32, int32> {
    if v != last then m[v := Lookup(m, last)] else m
  }

  /** One turn of the sparse shuffle is one turn of the dense one on the array the map stands for. */
  lemma SparseTurn(m: map<int32, int32>, lo: int, l: nat, draws: seq<int>)
    requires -0x8000_0000 <= lo && lo + l <= 0x8000_0000 && draws != [] && ValidDraws(l, draws)
    ensures 0 <= draws[0] < l && ValidDraws(l - 1, draws[1..])
    ensures var out := Pick(Virtual(m, lo, l), draws);
      && out[0] == Lookup(m, lo + draws[0])
      && out[1..] == Pick(Virtual(Moved(m, lo + draws[0], lo + l - 1), lo, l - 1), draws[1..])
  {
    ValidRest(l, draws);
    var a, d := Virtual(m, lo, l), draws[0];
    hide Virtual;
    assert Virtual(Moved(m, lo + d, lo + l - 1), lo, l - 1) == Remove(a, d);
  }

  lemma VirtualStart(lo: int, l: nat)
    requires -0x8000_0000 <= lo && lo + l <= 0x8000_0000
    ensures Virtual(map[], lo, l) == Interval(lo, l)
  {
  }

  /** The loop of the sampler: `n` turns over the `span` integers from `min` up. */
  method Sample(min: int32, span: nat, n: nat, draws: seq<int>) returns (r: array<int32>)
    requires min + span <= 0x8000_0000 && n == |draws| <= span && ValidDraws(span, draws)
    ensures r.Length == n && r[..] == Pick(Interval(min, span), draws)
  {
    hide Pick, Virtual, Interval, ValidDraws, Moved, Lookup;
    r := new int32[n](_ => 0);
    var m: map<int32, int32> := map[];
    var l := span;
    ghost var out := Pick(Interval(min, span), draws);
    VirtualStart(min, span);
    assert draws[0..] == draws && out[0..] == out;
    for i := 0 to n
      invariant l == span - i && ValidDraws(l, draws[i..])
      invariant r[..i] == out[..i] && Pick(Virtual(m, min, l), draws[i..]) == out[i..]
    {
      SparseTurn(m, min, l, draws[i..]);
      assert draws[i..][1..] == draws[i + 1..] && out[i..][1..] == out[i + 1..];
      var v: int32 := draws[i] + min;
      r[i] := Lookup(m, v);
      var lv: int32 := l - 1 + min;
      m := Moved(m, v, lv);
      l := l - 1;
    }
  }

  /** A sample lies in its interval, without duplicates, and holds all of it when it is as long. */
  lemma SampleSpread(lo: int, l: nat, draws: seq<int>)
    requires ValidDraws(l, draws)
    ensures var out := Pick(Interval(lo, l), draws);
      && |out| == |draws| && (forall i :: 0 <= i < |out| ==> lo <= out[i] < lo + l)
      && (forall i, j :: 0 <= i < j < |out| ==> out[i] != out[j])
      && (|draws| == l ==> forall x :: lo <= x < lo + l ==> x in out)
  {
    hide ValidDraws, Pick;
    var a := Interval(lo, l);
    PickDistinct(a, draws);
    if |draws| == l {
      forall x | lo <= x < lo + l ensures x in Pick(a, draws) {
        assert a[x - lo] == x;
        PickAll(a, draws, x);
      }
    }
  }

  method RandIntervalN(b1: int32, b2: int32, count: uint32, draws: seq<int>) returns (r: array<int32>)
    requires b1 != b2 ==> |draws| == Wanted(b1, b2, count) && ValidDraws(Span(b1, b2), draws)
    ensures b1 == b2 ==> r[..] == [b1]
    ensures b1 != b2 ==> r[..] == Pick(Interval(Min(b1, b2), Span(b1, b2)), draws)
    ensures r.Length == Min(count, Span(b1, b2)) <==> b1 != b2 || count > 0
    ensures var lo, hi := (if b1 < b2 then b1 else b2), (if b1 < b2 then b2 else b1);
      && (forall i :: 0 <= i < r.Length ==> lo <= r[i] <= hi)
      && (forall i, j :: 0 <= i < j < r.Length ==> r[i] != r[j])
      && (b1 != b2 ==> r.Length == if count <= hi - lo then count else hi - lo + 1)
      && (count > hi - lo ==> forall x :: lo <= x <= hi ==> x in r[..])
  {
    if b1 == b2 {
      r := new int32[1](_ => b1);
      return;
    }
    var min: int, max: int := b1, b2;
    if min > max {
      min, max := max, min;
    }
    var l: int := max - min + 1;
    var n: int := count;
    if n > l {
      n := l;
    }
    r := Sample(min, l, n, draws);
    SampleSpread(min, l, draws);
    hide Pick, Interval, ValidDraws;
    assert forall i :: 0 <= i < r.Length ==> r[i] == r[..][i];
  }

  /** Every duplicate-free sequence over the interval comes from exactly one draw vector of its length. */
  lemma SampleUniform(lo: int, l: nat, out: seq<int>)
    requires Distinct(out) && forall i :: 0 <= i < |out| ==> lo <= out[i] < lo + l
    ensures exists draws ::
      && ValidDraws(l, draws) && Pick(Interval(lo, l), draws) == out
      && forall other :: ValidDraws(l, other) && Pick(Interval(lo, l), other) == out ==> other == draws
  {
    var a := Interval(lo, l);
    forall i | 0 <= i < |out| ensures out[i] in a {
      assert a[out[i] - lo] == out[i];
    }
    PickOnto(a, out);
    hide Interval, Pick, DrawsFor, ValidDraws;
    forall other | ValidDraws(l, other) && Pick(a, other) == out ensures other == DrawsFor(a, out) {
      PickOneToOne(a, other);
    }
  }

  // ---------------------------------------------------------------- weighted choice

  datatype Choice = Index(i: nat) | Panic

  function Sum(p: seq<uint32>): nat {
    if p == [] then 0 else Sum(p[..|p| - 1]) + p[|p| - 1]
  }

  /** The running totals as 32-bit additions leave them. */
  function Running(p: seq<uint32>, i: nat): uint32
    requires i < |p|
  {
    Sum(p[..i + 1]) % WRAP
  }

  /** Index `i` is the first whose running total exceeds the draw. */
  predicate Selects(p: seq<uint32>, draw: int, i: nat) {
    i < |p| && draw < Running(p, i) && forall j :: 0 <= j < i ==> Running(p, j) <= draw
  }

  /** The size of the range the draw is made from. */
  function DrawRange(p: seq<uint32>): uint32
    requires p != []
  {
    Running(p, |p| - 1)
  }

  method RandGroup(p: seq<uint32>, draw: int) returns (c: Choice)
    requires p != [] && DrawRange(p) > 0 ==> 0 <= draw < DrawRange(p)
    ensures c.Panic? <==> p == []
    ensures c.Index? && DrawRange(p) == 0 ==> c.i == 0
    ensures c.Index? && DrawRange(p) > 0 ==> Selects(p, draw, c.i)
    ensures c.Index? ==> c.i < |p| && (p[c.i] > 0 <==> DrawRange(p) > 0 || p[0] > 0)
    ensures c.Index? && 0 < Sum(p) < WRAP ==> Sum(p[..c.i]) <= draw < Sum(p[..c.i + 1])
  {
    if p == [] {
      return Panic;
    }
    hide Running, Selects;
    var r := new uint32[|p|](_ => 0);
    for i := 0 to |p|
      invariant forall k :: 0 <= k < i ==> r[k] == Running(p, k)
    {
      RunningStep(p, i);
      if i == 0 {
        r[0] := p[0];
      } else {
        r[i] := (r[i - 1] as int + p[i]) % WRAP;
      }
    }
    var rl := r[|p| - 1];
    if rl == 0 {
      if Sum(p) < WRAP {
        NoWrap(p, |p| - 1);
        assert p[..|p|] == p;
      }
      return Index(0);
    }
    for i := 0 to |p|
      invariant forall j :: 0 <= j < i ==> Running(p, j) <= draw
    {
      if draw < r[i] {
        assert Selects(p, draw, i) by { FirstSelects(p, draw, i); }
        SelectedHasWeight(p, draw, i);
        if 0 < Sum(p) < WRAP {
          SelectsBetween(p, draw, i);
        }
        return Index(i);
      }
    }
    assert false;
    return Panic;
  }

  /** Whether or not the running totals wrap, an index of weight zero is never selected by a draw. */
  lemma SelectedHasWeight(p: seq<uint32>, draw: int, i: nat)
    requires 0 <= draw && Selects(p, draw, i)
    ensures p[i] > 0
  {
    RunningStep(p, i);
    if i > 0 {
      assert Running(p, i - 1) <= draw < Running(p, i);
    }
  }

  lemma FirstSelects(p: seq<uint32>, draw: int, i: nat)
    requires i < |p| && draw < Running(p, i) && forall j :: 0 <= j < i ==> Running(p, j) <= draw
    ensures Selects(p, draw, i)
  {
  }

  lemma RunningStep(p: seq<uint32>, i: nat)
    requires i < |p|
    ensures Running(p, i) == if i == 0 then p[0] else (Running(p, i - 1) + p[i]) % WRAP
  {
    SumStep(p, i);
    if i == 0 {
      SumEmpty(p);
    } else {
      AddWrapped(Sum(p[..i]), p[i]);
    }
  }

  /** The draws that lead to index `i`. */
  ghost function Chosen(p: seq<uint32>, i: nat): set<int>
    requires p != []
  {
    set x | 0 <= x < DrawRange(p) && Selects(p, x, i)
  }

  function Range(lo: int, hi: int): (r: set<int>)
    ensures forall x :: x in r <==> lo <= x < hi
    ensures |r| == if lo <= hi then hi - lo else 0
    decreases hi - lo
  {
    if lo >= hi then {} else Range(lo, hi - 1) + {hi - 1}
  }

  lemma {:induction false} PrefixSums(p: seq<uint32>, i: nat, j: nat)
    requires i <= j <= |p|
    ensures Sum(p[..i]) <= Sum(p[..j])
  {
    if i < j {
      PrefixSums(p, i, j - 1);
      assert p[..j][..j - 1] == p[..j - 1];
    }
  }

  lemma SumStep(p: seq<uint32>, i: nat)
    requires i < |p|
    ensures Sum(p[..i + 1]) == Sum(p[..i]) + p[i]
  {
    assert p[..i + 1][..i] == p[..i];
  }

  lemma NoWrap(p: seq<uint32>, i: nat)
    requires i < |p| && Sum(p) < WRAP
    ensures Running(p, i) == Sum(p[..i + 1]) <= Sum(p)
  {
    assert p[..|p|] == p;
    PrefixSums(p, i + 1, |p|);
  }

  lemma SelectsBetween(p: seq<uint32>, x: int, i: nat)
    requires i < |p| && 0 <= x && Sum(p) < WRAP
    ensures Selects(p, x, i) <==> Sum(p[..i]) <= x < Sum(p[..i + 1])
  {
    hide Running, Sum;
    NoWrap(p, i);
    if i > 0 {
      NoWrap(p, i - 1);
    } else {
      assert Sum(p[..0]) == 0 by { SumEmpty(p); }
    }
    forall j | 0 <= j < i ensures Running(p, j) <= Sum(p[..i]) {
      NoWrap(p, j);
      PrefixSums(p, j + 1, i);
    }
  }

  lemma SumEmpty(p: seq<uint32>)
    ensures Sum(p[..0]) == 0
  {
  }

  /** Without overflow, index `i` is chosen by the draws between its two running totals. */
  lemma ChosenIsRange(p: seq<uint32>, i: nat)
    requires i < |p| && Sum(p) < WRAP
    ensures Chosen(p, i) == Range(Sum(p[..i]), Sum(p[..i + 1]))
  {
    hide Running, Sum, Range, Selects;
    NoWrap(p, |p| - 1);
    assert p[..|p|] == p;
    PrefixSums(p, i + 1, |p|);
    forall x: int ensures x in Chosen(p, i) <==> x in Range(Sum(p[..i]), Sum(p[..i + 1])) {
      if x >= 0 {
        SelectsBetween(p, x, i);
      }
    }
  }

  ghost predicate SelectsBelow(p: seq<uint32>, x: int, k: nat) {
    exists i :: 0 <= i < k && Selects(p, x, i)
  }

  /** Draws that choose one of the first `k` indices. */
  ghost function ChosenBelow(p: seq<uint32>, k: nat): set<int>
    requires p != []
  {
    set x | x in Range(0, DrawRange(p)) && SelectsBelow(p, x, k)
  }

  ghost function ChosenTotal(p: seq<uint32>, k: nat): nat
    requires p != []
  {
    if k == 0 then 0 else ChosenTotal(p, k - 1) + |Chosen(p, k - 1)|
  }

  lemma {:induction false} ChosenBelowSize(p: seq<uint32>, k: nat)
    requires p != [] && k <= |p|
    ensures |ChosenBelow(p, k)| == ChosenTotal(p, k)
  {
    hide Running, Range, Selects, SelectsBelow, Chosen, ChosenBelow;
    if k == 0 {
      NoneBelow(p);
    } else {
      ChosenBelowSize(p, k - 1);
      ChosenSplit(p, k - 1);
    }
  }

  lemma NoneBelow(p: seq<uint32>)
    requires p != []
    ensures ChosenBelow(p, 0) == {}
  {
  }

  lemma ChosenSplit(p: seq<uint32>, k: nat)
    requires p != []
    ensures ChosenBelow(p, k) !! Chosen(p, k)
    ensures ChosenBelow(p, k + 1) == ChosenBelow(p, k) + Chosen(p, k)
  {
    hide Running, Range, Selects;
    forall x | x in ChosenBelow(p, k) ensures x !in Chosen(p, k) {
      var i :| 0 <= i < k && Selects(p, x, i);
      SelectsOnce(p, x, i, k);
    }
  }

  lemma SelectsOnce(p: seq<uint32>, x: int, i: nat, j: nat)
    requires i < j && Selects(p, x, i)
    ensures !Selects(p, x, j)
  {
    hide Running;
  }

  lemma {:induction false} SomeSelected(p: seq<uint32>, x: int, k: nat)
    requires k < |p| && x < Running(p, k)
    ensures SelectsBelow(p, x, k + 1)
  {
    hide Running;
    if j: nat :| j < k && x < Running(p, j) {
      SomeSelected(p, x, j);
    } else {
      assert Selects(p, x, k);
    }
  }

  /** Every draw chooses exactly one index, so the choices add up to the draws. */
  lemma ChosenPartition(p: seq<uint32>)
    requires p != []
    ensures ChosenTotal(p, |p|) == DrawRange(p)
  {
    hide Running, Selects, SelectsBelow, Range;
    ChosenBelowSize(p, |p|);
    forall x | x in Range(0, DrawRange(p)) ensures SelectsBelow(p, x, |p|) {
      SomeSelected(p, x, |p| - 1);
    }
    assert ChosenBelow(p, |p|) == Range(0, DrawRange(p));
  }

  lemma {:induction false} TotalOfWeights(p: seq<uint32>, k: nat)
    requires p != [] && k <= |p| && forall i :: 0 <= i < |p| ==> |Chosen(p, i)| == p[i]
    ensures ChosenTotal(p, k) == Sum(p[..k])
  {
    if k > 0 {
      TotalOfWeights(p, k - 1);
      SumStep(p, k - 1);
    }
  }

  /** A draw is made, and every index is chosen by exactly as many draws as its weight. */
  ghost predicate Weighted(p: seq<uint32>)
    requires p != []
  {
    DrawRange(p) > 0 && forall i :: 0 <= i < |p| ==> |Chosen(p, i)| == p[i]
  }

  /** The choice is exactly weighted if and only if the sum of the weights is positive and does not overflow. */
  lemma ExactlyWeighted(p: seq<uint32>)
    requires p != []
    ensures Weighted(p) <==> 0 < Sum(p) < WRAP
  {
    assert p[..|p|] == p;
    if Sum(p) < WRAP {
      NoWrap(p, |p| - 1);
      forall i | 0 <= i < |p| ensures |Chosen(p, i)| == p[i] {
        ChosenIsRange(p, i);
        SumStep(p, i);
      }
    }
    if Weighted(p) {
      TotalOfWeights(p, |p|);
      ChosenPartition(p);
    }
  }

  /** With weights 2^32 - 1 and 2 the one draw there is chooses the first index, and the second never comes up. */
  lemma OverflowMisweights()
    ensures var p := [WRAP - 1, 2];
      && DrawRange(p) == 1 && Chosen(p, 0) == {0} && Chosen(p, 1) == {} && !Weighted(p)
  {
    var p: seq<uint32> := [WRAP - 1, 2];
    RunningStep(p, 0);
    RunningStep(p, 1);
    hide Running;
    assert DrawRange(p) == 1;
    assert Selects(p, 0, 0) && !Selects(p, 0, 1);
  }

  /** With weights 2^32 - 1 and 1 the total wraps to zero: no draw is made and neither weight counts. */
  lemma OverflowDropsWeights()
    ensures var p := [WRAP - 1, 1]; DrawRange(p) == 0 && Chosen(p, 0) == {} && Chosen(p, 1) == {} && !Weighted(p)
  {
    var p: seq<uint32> := [WRAP - 1, 1];
    RunningStep(p, 0);
    RunningStep(p, 1);
  }
}
