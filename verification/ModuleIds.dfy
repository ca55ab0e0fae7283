/**
 Ancestry of modules by their ids: subtrees, the order in which a subtree is released, and the ids
 handed out when a module is added together with what its `OnInit` adds.
 */
module ModuleIds {

  type ModuleId = nat

  // ---------------------------------------------------------------- ancestry

  /** Every id's parent has a smaller id; the root is 0. */
  predicate Descending(up: map<ModuleId, ModuleId>) {
    forall x :: x in up ==> 0 <= up[x] < x
  }

  /** `x` is `id` or lies below it. */
  predicate Below(up: map<ModuleId, ModuleId>, x: ModuleId, id: ModuleId)
    requires Descending(up)
    decreases x
  {
    x == id || (x in up && Below(up, up[x], id))
  }

  /** The ids of the subtree of `id`. */
  ghost function Subtree(up: map<ModuleId, ModuleId>, id: ModuleId): set<ModuleId>
    requires Descending(up)
  {
    set x | x in up && Below(up, x, id)
  }

  lemma {:induction false} BelowIsLarger(up: map<ModuleId, ModuleId>, x: ModuleId, id: ModuleId)
    requires Descending(up) && Below(up, x, id)
    ensures id <= x
    decreases x
  {
    if x != id {
      BelowIsLarger(up, up[x], id);
    }
  }

  /** An id below two ids of the same parent is below one and the same. */
  lemma {:induction false} BelowOneSibling(up: map<ModuleId, ModuleId>, x: ModuleId, c: ModuleId, d: ModuleId)
    requires Descending(up) && c in up && d in up && up[c] == up[d]
    requires Below(up, x, c) && Below(up, x, d)
    ensures c == d
    decreases x
  {
    if x != c && x != d {
      BelowOneSibling(up, up[x], c, d);
    } else if c != d {
      if x == c {
        BelowIsLarger(up, up[c], d);
      } else {
        BelowIsLarger(up, up[d], c);
      }
    }
  }

  /** A proper descendant lies below exactly one child. */
  lemma {:induction false} BelowSomeChild(up: map<ModuleId, ModuleId>, x: ModuleId, id: ModuleId) returns (c: ModuleId)
    requires Descending(up) && Below(up, x, id) && x != id
    ensures c in up && up[c] == id && Below(up, x, c)
    decreases x
  {
    if up[x] == id {
      c := x;
    } else {
      c := BelowSomeChild(up, up[x], id);
    }
  }

  lemma {:induction false} BelowChild(up: map<ModuleId, ModuleId>, x: ModuleId, c: ModuleId)
    requires Descending(up) && c in up && Below(up, x, c)
    ensures Below(up, x, up[c])
    decreases x
  {
    if x != c {
      BelowChild(up, up[x], c);
    }
  }

  /** Taking other subtrees out of the tree does not change what is below `c`. */
  lemma {:induction false} BelowAfterRemoval(up: map<ModuleId, ModuleId>, gone: set<ModuleId>, x: ModuleId, c: ModuleId)
    requires Descending(up) && x in up && x !in gone
    requires forall y :: y in gone ==> !Below(up, y, c)
    ensures Descending(up - gone)
    ensures Below(up - gone, x, c) <==> Below(up, x, c)
    decreases x
  {
    if x != c && up[x] in up && up[x] !in gone {
      BelowAfterRemoval(up, gone, up[x], c);
    }
  }

  lemma BelowSelf(up: map<ModuleId, ModuleId>, c: ModuleId)
    requires Descending(up)
    ensures Below(up, c, c)
  {
  }

  lemma BelowUp(up: map<ModuleId, ModuleId>, x: ModuleId, id: ModuleId)
    requires Descending(up) && x in up && x != id && id in up
    ensures x in Subtree(up, id) <==> up[x] in Subtree(up, id)
  {
    assert Below(up, x, id) <==> Below(up, up[x], id);
    assert Below(up, up[x], id) ==> up[x] in up;
  }

  lemma {:induction false} BelowGrown(up: map<ModuleId, ModuleId>, up': map<ModuleId, ModuleId>,
                                      x: ModuleId, id: ModuleId)
    requires Descending(up) && Descending(up') && Below(up, x, id)
    requires forall y :: y in up ==> y in up' && up'[y] == up[y]
    ensures Below(up', x, id)
    decreases x
  {
    if x != id {
      BelowGrown(up, up', up[x], id);
    }
  }

  lemma SubtreeWithin(up: map<ModuleId, ModuleId>, id: ModuleId)
    requires Descending(up)
    ensures Subtree(up, id) <= up.Keys && (id in up ==> id in Subtree(up, id))
  {
  }

  lemma SubtreeOfChild(up: map<ModuleId, ModuleId>, c: ModuleId)
    requires Descending(up) && c in up
    ensures Subtree(up, c) <= Subtree(up, up[c]) && up[c] !in Subtree(up, c)
  {
    hide Below;
    forall x | x in Subtree(up, c) ensures Below(up, x, up[c]) {
      BelowChild(up, x, c);
    }
    if up[c] in Subtree(up, c) {
      BelowIsLarger(up, up[c], c);
    }
  }

  /** A subtree is its root and the subtrees of the root's children. */
  lemma SubtreeParts(up: map<ModuleId, ModuleId>, id: ModuleId, kids: set<ModuleId>)
    requires Descending(up) && id in up && forall c :: c in kids <==> c in up && up[c] == id
    ensures Subtree(up, id) == Forest(up, kids) + {id} && id !in Forest(up, kids)
    ensures Forest(up, kids) == Subtree(up, id) - {id}
  {
    forall x | x in up ensures x in Subtree(up, id) <==> x in Forest(up, kids) + {id} {
      if x != id && Below(up, x, id) {
        var c := BelowSomeChild(up, x, id);
      }
      if c :| c in kids && Below(up, x, c) {
        BelowChild(up, x, c);
      }
    }
    forall c | c in kids ensures !Below(up, id, c) {
      if Below(up, id, c) {
        BelowIsLarger(up, id, c);
      }
    }
  }

  /** The subtrees of all ids in `tops` together. */
  ghost function Forest(up: map<ModuleId, ModuleId>, tops: set<ModuleId>): set<ModuleId>
    requires Descending(up)
  {
    set x | x in up && exists c :: c in tops && Below(up, x, c)
  }

  lemma ForestStep(up: map<ModuleId, ModuleId>, tops: set<ModuleId>, c: ModuleId)
    requires Descending(up) && c in up && c !in tops
    requires forall d :: d in tops ==> d in up && up[d] == up[c]
    ensures var gone := Forest(up, tops);
      && Descending(up - gone) && c in up - gone
      && Subtree(up - gone, c) == Subtree(up, c) && Subtree(up, c) !! gone
      && Forest(up, tops + {c}) == gone + Subtree(up, c)
      && up - gone - Subtree(up, c) == up - Forest(up, tops + {c})
  {
    hide Below;
    var gone := Forest(up, tops);
    forall x, d | d in tops && Below(up, x, d) ensures !Below(up, x, c) {
      if Below(up, x, c) {
        BelowOneSibling(up, x, c, d);
      }
    }
    BelowSelf(up, c);
    forall x | x in up && x !in gone ensures Descending(up - gone) && (Below(up - gone, x, c) <==> Below(up, x, c)) {
      BelowAfterRemoval(up, gone, x, c);
    }
  }

  /** No id of one child's subtree has its parent in another child's subtree. */
  lemma ParentsApart(up: map<ModuleId, ModuleId>, tops: set<ModuleId>, c: ModuleId, x: ModuleId)
    requires Descending(up) && c in up && c !in tops
    requires forall d :: d in tops ==> d in up && up[d] == up[c]
    requires x in Subtree(up, c)
    ensures up[x] !in Forest(up, tops)
  {
    if d :| d in tops && Below(up, up[x], d) {
      if x == c {
        BelowIsLarger(up, up[d], d);
      } else {
        BelowOneSibling(up, up[x], c, d);
      }
    }
  }

  lemma ForestParents(up: map<ModuleId, ModuleId>, tops: set<ModuleId>, c: ModuleId)
    requires Descending(up) && c in up && c !in tops
    requires forall d :: d in tops ==> d in up && up[d] == up[c]
    ensures forall x :: x in Subtree(up, c) && x in up ==> up[x] !in Forest(up, tops)
  {
    forall x | x in Subtree(up, c) ensures up[x] !in Forest(up, tops) {
      ParentsApart(up, tops, c, x);
    }
  }

  lemma ChildrenGone(up: map<ModuleId, ModuleId>, id: ModuleId)
    requires Descending(up) && id in up
    ensures var rest := up - (Subtree(up, id) - {id}); id in rest && forall x :: x in rest ==> rest[x] != id
    ensures up[id] !in Subtree(up, id)
    ensures up - (Subtree(up, id) - {id}) - {id} == up - Subtree(up, id)
  {
    forall x | x in up && up[x] == id ensures x in Subtree(up, id) - {id} {
      assert Below(up, up[x], id);
    }
    if Below(up, up[id], id) {
      BelowIsLarger(up, up[id], id);
    }
  }

  lemma HasMember(s: set<ModuleId>)
    requires s != {}
    ensures exists c :: c in s
  {
  }

  // ---------------------------------------------------------------- release order

  /** `order` lists the ids of `ids` once each, no module before one of its children. */
  ghost predicate ChildrenFirst(up: map<ModuleId, ModuleId>, ids: set<ModuleId>, order: seq<ModuleId>) {
    && (forall x :: x in order <==> x in ids)
    && (forall i, j :: 0 <= i < j < |order| ==> order[i] != order[j])
    && (forall i, j :: 0 <= i < j < |order| && order[j] in up ==> order[i] != up[order[j]])
  }

  lemma OrderAppend(up: map<ModuleId, ModuleId>, a: set<ModuleId>, b: set<ModuleId>, s: seq<ModuleId>, t: seq<ModuleId>)
    requires ChildrenFirst(up, a, s) && ChildrenFirst(up, b, t) && a !! b
    requires forall x :: x in b && x in up ==> up[x] !in a
    ensures ChildrenFirst(up, a + b, s + t)
  {
    forall i, j | 0 <= i < j < |s + t| && j >= |s| && i < |s|
      ensures (s + t)[i] != (s + t)[j] && ((s + t)[j] in up ==> (s + t)[i] != up[(s + t)[j]])
    {
      assert (s + t)[i] in s && (s + t)[j] in t;
    }
  }

  lemma OrderLast(up: map<ModuleId, ModuleId>, ids: set<ModuleId>, order: seq<ModuleId>, id: ModuleId)
    requires ChildrenFirst(up, ids, order) && id !in ids && (id in up ==> up[id] !in ids)
    ensures ChildrenFirst(up, ids + {id}, order + [id])
  {
    OrderAppend(up, ids, {id}, order, [id]);
  }

  lemma OrderWithin(up: map<ModuleId, ModuleId>, part: map<ModuleId, ModuleId>,
                    ids: set<ModuleId>, order: seq<ModuleId>)
    requires ChildrenFirst(part, ids, order) && ids <= part.Keys
    requires forall x :: x in part ==> x in up && up[x] == part[x]
    ensures ChildrenFirst(up, ids, order)
  {
    forall j | 0 <= j < |order| ensures order[j] in part && order[j] in up && up[order[j]] == part[order[j]] {
      assert order[j] in order;
      assert order[j] in ids;
    }
  }

  /** The `OnRelease` calls since `log` were for the modules `gone`, once each, children first. */
  ghost predicate Logged(up: map<ModuleId, ModuleId>, gone: set<ModuleId>,
                         log: seq<ModuleId>, released: seq<ModuleId>)
  {
    log <= released && ChildrenFirst(up, gone, released[|log|..])
  }

  lemma LoggedMore(up: map<ModuleId, ModuleId>, tops: set<ModuleId>, c: ModuleId,
                   log: seq<ModuleId>, released: seq<ModuleId>, released': seq<ModuleId>)
    requires Descending(up) && c in up && c !in tops && Descending(up - Forest(up, tops))
    requires forall d :: d in tops ==> d in up && up[d] == up[c]
    requires Logged(up, Forest(up, tops), log, released)
    requires Logged(up - Forest(up, tops), Subtree(up - Forest(up, tops), c), released, released')
    ensures Logged(up, Forest(up, tops + {c}), log, released')
  {
    hide Below, Forest, Subtree, ChildrenFirst;
    ForestStep(up, tops, c);
    ForestParents(up, tops, c);
    SubtreeWithin(up, c);
    var order, tail := released[|log|..], released'[|released|..];
    OrderWithin(up, up - Forest(up, tops), Subtree(up, c), tail);
    OrderAppend(up, Forest(up, tops), Subtree(up, c), order, tail);
    assert released'[|log|..] == order + tail;
  }

  lemma LoggedLast(up: map<ModuleId, ModuleId>, id: ModuleId, log: seq<ModuleId>, released: seq<ModuleId>)
    requires Descending(up) && id in up && Logged(up, Subtree(up, id) - {id}, log, released)
    ensures Logged(up, Subtree(up, id), log, released + [id])
  {
    ChildrenGone(up, id);
    SubtreeWithin(up, id);
    hide Subtree, ChildrenFirst;
    var gone, order := Subtree(up, id), released[|log|..];
    OrderLast(up, gone - {id}, order, id);
    assert gone - {id} + {id} == gone;
    assert (released + [id])[|log|..] == order + [id];
  }

  // ---------------------------------------------------------------- additions

  /** What a module's `OnInit` does: it adds one child per element, each with its own `OnInit`. */
  datatype Plan = Plan(children: seq<Plan>)

  /** The number of modules that come with the plan. */
  function Size(plan: Plan): nat
    decreases plan, |plan.children| + 1
  {
    1 + SizeKids(plan, |plan.children|)
  }

  /** The number of modules that come with the first `n` children. */
  function SizeKids(plan: Plan, n: nat): nat
    requires n <= |plan.children|
    decreases plan, n
  {
    if n == 0 then 0 else SizeKids(plan, n - 1) + Size(plan.children[n - 1])
  }

  /** The parents after adding a module as `id` below `p`: ids are handed out parents first. */
  ghost function Plant(up: map<ModuleId, ModuleId>, p: ModuleId, id: ModuleId, plan: Plan): map<ModuleId, ModuleId>
    decreases plan, |plan.children| + 1
  {
    PlantKids(up, id, plan, |plan.children|)[id := p]
  }

  /** The parents after `OnInit` of `id` added the first `n` children. */
  ghost function PlantKids(up: map<ModuleId, ModuleId>, id: ModuleId, plan: Plan, n: nat): map<ModuleId, ModuleId>
    requires n <= |plan.children|
    decreases plan, n
  {
    if n == 0 then up
    else Plant(PlantKids(up, id, plan, n - 1), id, id + 1 + SizeKids(plan, n - 1), plan.children[n - 1])
  }

  /** `up'` has the same parents as `up` and, from `lo` up to `hi`, ids that lie below `id`. */
  ghost predicate Grown(up: map<ModuleId, ModuleId>, up': map<ModuleId, ModuleId>, id: ModuleId, lo: nat, hi: nat) {
    && Descending(up') && (forall x :: x in up' <==> x in up || lo <= x < hi)
    && (forall x :: x in up ==> x < lo && up'[x] == up[x])
    && (forall x :: lo <= x < hi ==> Below(up', x, id))
  }

  lemma PlantDef(up: map<ModuleId, ModuleId>, p: ModuleId, id: ModuleId, plan: Plan)
    ensures Plant(up, p, id, plan) == PlantKids(up, id, plan, |plan.children|)[id := p]
    ensures Size(plan) == 1 + SizeKids(plan, |plan.children|)
  {
  }

  /** An added module and the modules its `OnInit` adds take consecutive ids, all in its subtree. */
  lemma {:induction false} PlantGrows(up: map<ModuleId, ModuleId>, p: ModuleId, id: ModuleId, plan: Plan)
    requires Descending(up) && p < id && forall x :: x in up ==> x < id
    ensures Grown(up, Plant(up, p, id, plan), id, id, id + Size(plan))
    ensures id in Plant(up, p, id, plan) && Plant(up, p, id, plan)[id] == p
    decreases plan, |plan.children| + 1
  {
    hide Below;
    PlantKidsGrows(up, id, plan, |plan.children|);
    var kids, all := PlantKids(up, id, plan, |plan.children|), Plant(up, p, id, plan);
    BelowSelf(all, id);
    forall x | id < x < id + Size(plan) ensures Below(all, x, id) {
      BelowGrown(kids, all, x, id);
    }
  }

  lemma {:induction false} PlantKidsGrows(up: map<ModuleId, ModuleId>, id: ModuleId, plan: Plan, n: nat)
    requires Descending(up) && n <= |plan.children| && forall x :: x in up ==> x < id
    ensures Grown(up, PlantKids(up, id, plan, n), id, id + 1, id + 1 + SizeKids(plan, n))
    decreases plan, n
  {
    if n > 0 {
      hide Below;
      var next := id + 1 + SizeKids(plan, n - 1);
      var before := PlantKids(up, id, plan, n - 1);
      PlantKidsGrows(up, id, plan, n - 1);
      PlantGrows(before, id, next, plan.children[n - 1]);
      var all := PlantKids(up, id, plan, n);
      forall x | id < x < next + Size(plan.children[n - 1]) ensures Below(all, x, id) {
        if x < next {
          BelowGrown(before, all, x, id);
        } else {
          BelowChild(all, x, next);
        }
      }
    }
  }

  /** The subtree of an added module is exactly what came with it, so releasing it undoes the addition. */
  lemma ReleaseUndoesAdd(up: map<ModuleId, ModuleId>, p: ModuleId, id: ModuleId, plan: Plan)
    requires Descending(up) && p < id && forall x :: x in up ==> x < id
    ensures Descending(Plant(up, p, id, plan))
    ensures forall x :: x in Subtree(Plant(up, p, id, plan), id) <==> id <= x < id + Size(plan)
    ensures Plant(up, p, id, plan) - Subtree(Plant(up, p, id, plan), id) == up
  {
    hide Below, Plant;
    PlantGrows(up, p, id, plan);
    var all := Plant(up, p, id, plan);
    forall x | x in up ensures !Below(all, x, id) {
      if Below(all, x, id) {
        BelowIsLarger(all, x, id);
      }
    }
  }

  // ---------------------------------------------------------------- in other words

  /** Each id of the chain is the parent of the one before. */
  ghost predicate IsChain(up: map<ModuleId, ModuleId>, chain: seq<ModuleId>) {
    forall i :: 0 <= i < |chain| - 1 ==> chain[i] in up && up[chain[i]] == chain[i + 1]
  }

  /** An id lies below another one if and only if a chain of parents leads from it to the other. */
  lemma {:induction false} BelowIsChain(up: map<ModuleId, ModuleId>, x: ModuleId, id: ModuleId)
    requires Descending(up)
    ensures Below(up, x, id) <==>
      exists chain :: IsChain(up, chain) && chain != [] && chain[0] == x && chain[|chain| - 1] == id
  {
    if Below(up, x, id) {
      var chain := ChainTo(up, x, id);
    }
    if chain :| IsChain(up, chain) && chain != [] && chain[0] == x && chain[|chain| - 1] == id {
      ChainIsBelow(up, chain);
    }
  }

  lemma {:induction false} ChainTo(up: map<ModuleId, ModuleId>, x: ModuleId, id: ModuleId)
      returns (chain: seq<ModuleId>)
    requires Descending(up) && Below(up, x, id)
    ensures IsChain(up, chain) && chain != [] && chain[0] == x && chain[|chain| - 1] == id
    decreases x
  {
    chain := [x];
    if x != id {
      var rest := ChainTo(up, up[x], id);
      chain := [x] + rest;
    }
  }

  lemma {:induction false} ChainIsBelow(up: map<ModuleId, ModuleId>, chain: seq<ModuleId>)
    requires Descending(up) && IsChain(up, chain) && chain != []
    ensures Below(up, chain[0], chain[|chain| - 1])
    decreases |chain|
  {
    if |chain| > 1 {
      assert chain[0] in up && up[chain[0]] == chain[1];
      ChainIsBelow(up, chain[1..]);
    }
  }

  /** The calls logged since were for exactly the modules that are gone, once each, a child's before its parent's. */
  lemma LoggedMeans(up: map<ModuleId, ModuleId>, gone: set<ModuleId>, log: seq<ModuleId>, released: seq<ModuleId>)
    requires Logged(up, gone, log, released)
    ensures |log| <= |released| && released[..|log|] == log
    ensures forall x :: x in gone <==> x in released[|log|..]
    ensures forall i, j :: |log| <= i < j < |released| ==> released[i] != released[j]
    ensures forall i, j | |log| <= i < |released| && |log| <= j < |released| ::
      ParentOf(up, released[i], released[j]) ==> i < j
  {
    var order := released[|log|..];
    assert forall i :: |log| <= i < |released| ==> released[i] == order[i - |log|];
  }

  predicate ParentOf(up: map<ModuleId, ModuleId>, x: ModuleId, p: ModuleId) {
    x != p && x in up && up[x] == p
  }

  /** The module of a plan and the modules of its children. */
  lemma SizeMeans(plan: Plan, more: Plan)
    ensures Size(Plan([])) == 1 && Size(Plan(plan.children + [more])) == Size(plan) + Size(more)
  {
    var all := Plan(plan.children + [more]);
    SizeOfFirst(plan, all, |plan.children|);
    assert all.children[|plan.children|] == more;
  }

  lemma {:induction false} SizeOfFirst(plan: Plan, all: Plan, n: nat)
    requires n <= |plan.children| <= |all.children| && all.children[..|plan.children|] == plan.children
    ensures SizeKids(all, n) == SizeKids(plan, n)
  {
    if n > 0 {
      assert all.children[n - 1] == all.children[..|plan.children|][n - 1];
      SizeOfFirst(plan, all, n - 1);
    }
  }

  /** What lies below `c` depends on the parents of larger ids only. */
  lemma {:induction false} BelowLocal(up: map<ModuleId, ModuleId>, up': map<ModuleId, ModuleId>,
                                      x: ModuleId, c: ModuleId)
    requires Descending(up) && Descending(up')
    requires forall y :: c < y ==> (y in up <==> y in up') && (y in up ==> up'[y] == up[y])
    ensures Below(up, x, c) <==> Below(up', x, c)
    decreases x
  {
    if x > c && x in up {
      BelowLocal(up, up', up[x], c);
    }
    if x < c {
      if Below(up, x, c) {
        BelowIsLarger(up, x, c);
      }
      if Below(up', x, c) {
        BelowIsLarger(up', x, c);
      }
    }
  }

  /** Adding larger ids does not put smaller ones below `c`. */
  lemma {:induction false} BelowShrunk(up: map<ModuleId, ModuleId>, up': map<ModuleId, ModuleId>, lo: nat, x: ModuleId,
                                       c: ModuleId)
    requires Descending(up) && Descending(up') && x < lo && Below(up', x, c)
    requires forall y :: y in up' && y < lo ==> y in up && up[y] == up'[y]
    ensures Below(up, x, c)
    decreases x
  {
    if x != c {
      BelowShrunk(up, up', lo, up'[x], c);
    }
  }

  /** `c` is a child of `id`, and its subtree are `size` consecutive ids. */
  ghost predicate ChildBlock(up: map<ModuleId, ModuleId>, id: ModuleId, c: ModuleId, size: nat) {
    && Descending(up) && c in up && up[c] == id
    && forall x :: x in up ==> (Below(up, x, c) <==> c <= x < c + size)
  }

  /** The child just added. */
  lemma NewBlock(up: map<ModuleId, ModuleId>, id: ModuleId, c: ModuleId, child: Plan)
    requires Descending(up) && id < c && forall x :: x in up ==> x < c
    ensures ChildBlock(Plant(up, id, c, child), id, c, Size(child))
  {
    hide Below, Plant, Size;
    PlantGrows(up, id, c, child);
    var all := Plant(up, id, c, child);
    forall x | x in all && Below(all, x, c) ensures c <= x < c + Size(child) {
      BelowIsLarger(all, x, c);
    }
  }

  /** A further child leaves it alone. */
  lemma OldBlock(up: map<ModuleId, ModuleId>, id: ModuleId, c: ModuleId, size: nat, next: ModuleId, child: Plan)
    requires ChildBlock(up, id, c, size) && id < c < next && c + size <= next && forall x :: x in up ==> x < next
    ensures ChildBlock(Plant(up, id, next, child), id, c, size)
  {
    hide Below, Plant, Size;
    PlantGrows(up, id, next, child);
    var all := Plant(up, id, next, child);
    forall x | x in all ensures Below(all, x, c) <==> c <= x < c + size {
      if x < next {
        if Below(up, x, c) {
          BelowGrown(up, all, x, c);
        }
        if Below(all, x, c) {
          BelowShrunk(up, all, next, x, c);
        }
      } else if Below(all, x, c) {
        BelowOneSibling(all, x, c, next);
      }
    }
  }

  lemma {:induction false} KidsBlock(up: map<ModuleId, ModuleId>, id: ModuleId, plan: Plan, m: nat, n: nat)
    requires Descending(up) && n < m <= |plan.children| && forall x :: x in up ==> x < id
    ensures ChildBlock(PlantKids(up, id, plan, m), id, id + 1 + SizeKids(plan, n), Size(plan.children[n]))
    ensures SizeKids(plan, n) + Size(plan.children[n]) <= SizeKids(plan, m)
    decreases m
  {
    var before, next := PlantKids(up, id, plan, m - 1), id + 1 + SizeKids(plan, m - 1);
    PlantKidsGrows(up, id, plan, m - 1);
    assert PlantKids(up, id, plan, m) == Plant(before, id, next, plan.children[m - 1]);
    if m == n + 1 {
      hide Below, Plant, PlantKids, Size;
      NewBlock(before, id, next, plan.children[n]);
    } else {
      KidsBlock(up, id, plan, m - 1, n);
      hide Below, Plant, PlantKids, Size, ChildBlock;
      OldBlock(before, id, id + 1 + SizeKids(plan, n), Size(plan.children[n]), next, plan.children[m - 1]);
    }
  }

  /**
   The child number `n` of an added module gets the id after the modules of its elder siblings, and the added module
   as its parent; its own subtree are the modules of its plan.
   */
  lemma PlantChild(up: map<ModuleId, ModuleId>, p: ModuleId, id: ModuleId, plan: Plan, n: nat)
    requires Descending(up) && p < id && (forall x :: x in up ==> x < id) && n < |plan.children|
    ensures ChildBlock(Plant(up, p, id, plan), id, id + 1 + SizeKids(plan, n), Size(plan.children[n]))
  {
    var kids, all, c := PlantKids(up, id, plan, |plan.children|), Plant(up, p, id, plan), id + 1 + SizeKids(plan, n);
    PlantDef(up, p, id, plan);
    PlantGrows(up, p, id, plan);
    KidsBlock(up, id, plan, |plan.children|, n);
    hide Below, Plant, PlantKids, Size, SizeKids;
    forall x | x in all ensures Below(all, x, c) <==> c <= x < c + Size(plan.children[n]) {
      BelowLocal(kids, all, x, c);
      if x == id && Below(all, x, c) {
        BelowIsLarger(all, x, c);
      }
    }
  }
}
