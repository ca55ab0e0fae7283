/**
 Whole runs of a service: any number of additions and releases, starting from an empty tree.
 */
module ModuleSession {
  import opened ModuleIds
  import opened ModuleTree

  /** `Add` is asked of the module `p`, `Release` of the module `p` that lists `id`; 0 is the service. */
  datatype Op = Add(p: ModuleId, plan: Plan) | Release(p: ModuleId, id: ModuleId)

  /** Every live module's parent, and the last id handed out. */
  datatype Shape = Shape(up: map<ModuleId, ModuleId>, seed: nat)

  ghost predicate Fit(s: Shape) {
    Descending(s.up) && INIT_MODULE_ID <= s.seed && forall x :: x in s.up ==> INIT_MODULE_ID < x <= s.seed
  }

  ghost function Step(s: Shape, op: Op): (r: Shape)
    requires Fit(s)
    ensures Fit(r)
  {
    match op
    case Add(p, plan) =>
      if p == 0 || p in s.up then
        PlantGrows(s.up, p, s.seed + 1, plan);
        Shape(Plant(s.up, p, s.seed + 1, plan), s.seed + Size(plan))
      else s
    case Release(p, id) =>
      if id in s.up && s.up[id] == p then s.(up := s.up - Subtree(s.up, id)) else s
  }

  ghost function After(ops: seq<Op>): (r: Shape)
    ensures Fit(r)
  {
    if ops == [] then Shape(map[], INIT_MODULE_ID) else Step(After(ops[..|ops| - 1]), ops[|ops| - 1])
  }

  /** Every id handed out so far is either live or was released, once. */
  ghost predicate Conserved(s: Shape, released: seq<ModuleId>) {
    && (forall x :: INIT_MODULE_ID < x <= s.seed <==> x in s.up || x in released)
    && (forall x :: x in s.up ==> x !in released)
    && (forall i, j :: 0 <= i < j < |released| ==> released[i] != released[j])
  }

  lemma AddConserves(s: Shape, p: ModuleId, plan: Plan, released: seq<ModuleId>)
    requires Fit(s) && Conserved(s, released) && (p == 0 || p in s.up)
    ensures Conserved(Step(s, Add(p, plan)), released)
  {
    PlantGrows(s.up, p, s.seed + 1, plan);
  }

  lemma ReleaseConserves(s: Shape, id: ModuleId, released: seq<ModuleId>, released': seq<ModuleId>)
    requires Fit(s) && Conserved(s, released) && id in s.up
    requires Logged(s.up, Subtree(s.up, id), released, released')
    ensures Conserved(Step(s, Release(s.up[id], id)), released')
  {
    hide Below;
    var gone, order := Subtree(s.up, id), released'[|released|..];
    assert released' == released + order;
    SubtreeWithin(s.up, id);
    forall i, j | 0 <= i < j < |released'| ensures released'[i] != released'[j] {
      if i < |released| <= j {
        assert released'[j] == order[j - |released|] && released'[j] in order;
        assert released'[i] in released;
      } else if |released| <= i {
        assert released'[i] == order[i - |released|] && released'[j] == order[j - |released|];
      }
    }
  }

  /** The service carries the given shape and nothing is half done. */
  ghost predicate Settled(root: Module, s: Shape)
    reads root, root.repr
  {
    && root in root.repr && Tree(root, {}, {}) && root.view.up == s.up && root.seedModuleId == s.seed
    && Fit(s) && Conserved(s, root.released)
  }

  /** A service run: at the end the tree is what the operations say, and no id was lost or released twice. */
  method Session(ops: seq<Op>) returns (root: Module)
    ensures fresh(root) && Settled(root, After(ops))
  {
    hide Settled, After, Step, Tree;
    root := new Module.Root();
    Started(root);
    for i := 0 to |ops|
      invariant fresh(root.repr) && root in root.repr && Settled(root, After(ops[..i]))
    {
      AfterOne(ops[..i + 1]);
      assert ops[..i + 1][..i] == ops[..i];
      Perform(root, ops[i], After(ops[..i]));
    }
    assert ops[..|ops|] == ops;
  }

  lemma Started(root: Module)
    requires Tree(root, {}, {}) && root in root.repr && root.view.up == map[]
    requires root.seedModuleId == INIT_MODULE_ID && root.released == []
    ensures Settled(root, After([]))
  {
    hide Tree;
  }

  lemma AfterOne(ops: seq<Op>)
    requires ops != []
    ensures After(ops) == Step(After(ops[..|ops| - 1]), ops[|ops| - 1])
  {
  }

  method Perform(root: Module, op: Op, ghost s: Shape)
    requires Settled(root, s)
    modifies root.repr
    ensures Settled(root, Step(s, op)) && root in root.repr && fresh(root.repr - old(root.repr))
  {
    hide Agreement, Linked, Fit, Conserved;
    RootInTree(root);
    Found(root, {}, {}, root, op.p);
    var m := if op.p == 0 then root else root.GetModule(op.p);
    if m == null {
      NoParent(root, op.p, s);
    } else {
      Children(root, m);
      match op
      case Add(p, plan) =>
        PerformAdd(root, m, plan, s);
      case Release(p, id) =>
        if id in m.child {
          PerformRelease(root, m, id, s);
        }
    }
  }

  lemma NoParent(root: Module, p: ModuleId, s: Shape)
    requires Settled(root, s) && p != 0 && p !in s.up
    ensures forall c :: c in s.up ==> s.up[c] != p
  {
    forall c | c in s.up ensures s.up[c] != p {
      IsListed(root.view, c);
    }
  }

  lemma Children(root: Module, m: Module)
    requires Tree(root, {}, {}) && m.InTree(root)
    ensures forall c :: c in m.child <==> c in root.view.up && root.view.up[c] == m.moduleId
  {
    hide Agreement;
    var own := m.moduleId;
    KidsOf(root.view, {}, {}, own);
    AgreementIds(root.view, {}, {});
    IntactMember(root.view, own);
    assert m.child == root.view.nodes[own].list;
  }

  method PerformAdd(root: Module, m: Module, plan: Plan, ghost s: Shape)
    requires Settled(root, s) && m.InTree(root) && root in root.repr && (m.moduleId == 0 || m.moduleId in s.up)
    modifies root.repr
    ensures Settled(root, Step(s, Add(old(m.moduleId), plan))) && root in root.repr && fresh(root.repr - old(root.repr))
  {
    hide Tree, Conserved, Fit, Plant, Extends;
    AddConserves(s, m.moduleId, plan, root.released);
    ExtendsSelf(root.view, m.moduleId);
    m.AddNew(root, plan, {}, root.view);
  }

  method PerformRelease(root: Module, m: Module, id: ModuleId, ghost s: Shape)
    requires Settled(root, s) && m.InTree(root) && root in root.repr && id in s.up && s.up[id] == m.moduleId
    modifies root.repr
    ensures Settled(root, Step(s, Release(old(m.moduleId), id))) && root in root.repr && root.repr <= old(root.repr)
  {
    hide Agreement, Linked, Conserved, Fit, Logged, Subtree;
    ghost var log := root.released;
    ParentReleases(root.view, id);
    OwnRoot(root, m);
    var ok := m.ReleaseModule(root, id, {});
    RootInTree(root);
    ReleaseConserves(s, id, log, root.released);
  }

  // ---------------------------------------------------------------- in other words

  /**
   What the operations of a run do: an addition below the service or a live module hands out the next ids, the first
   of them to the module itself; a release asked of the parent takes away the module and what lies below it; anything
   else does nothing.
   */
  lemma StepMeans(s: Shape, p: ModuleId, plan: Plan, id: ModuleId, x: ModuleId)
    requires Fit(s)
    ensures p == 0 || p in s.up ==>
      var t := Step(s, Add(p, plan));
      && t.seed == s.seed + Size(plan) && s.seed + 1 in t.up && t.up[s.seed + 1] == p
      && (x in t.up <==> x in s.up || s.seed < x <= t.seed) && (x in s.up ==> t.up[x] == s.up[x])
    ensures p != 0 && p !in s.up ==> Step(s, Add(p, plan)) == s
    ensures id in s.up && s.up[id] == p ==>
      var t := Step(s, Release(p, id));
      && t.seed == s.seed && (x in t.up <==> x in s.up && !Below(s.up, x, id)) && (x in t.up ==> t.up[x] == s.up[x])
    ensures !(id in s.up && s.up[id] == p) ==> Step(s, Release(p, id)) == s
  {
    hide Below, Plant, Size;
    if p == 0 || p in s.up {
      PlantGrows(s.up, p, s.seed + 1, plan);
    }
  }

  /** A run begins with an empty tree and takes its operations one by one. */
  lemma AfterMore(ops: seq<Op>, op: Op)
    ensures After([]) == Shape(map[], 1_000_000_000_000_000_000) && After(ops + [op]) == Step(After(ops), op)
  {
    assert (ops + [op])[..|ops|] == ops;
  }

  /**
   A service that has settled holds exactly the live modules of the shape, and every id handed out is live or was
   released, and released once.
   */
  lemma SettledMeans(root: Module, s: Shape, x: ModuleId)
    requires Settled(root, s)
    ensures root.descendants.Keys == s.up.Keys && root.seedModuleId == s.seed
    ensures 1_000_000_000_000_000_000 < x <= s.seed <==> x in s.up || x in root.released
    ensures x in s.up ==> x !in root.released
    ensures multiset(root.released)[x] <= 1
  {
    AgreementIds(root.view, {}, {});
    hide Agreement;
    OnceEach(root.released, x);
  }

  lemma {:induction false} OnceEach(ids: seq<ModuleId>, x: ModuleId)
    requires forall i, j :: 0 <= i < j < |ids| ==> ids[i] != ids[j]
    ensures multiset(ids)[x] == if x in ids then 1 else 0
  {
    if ids != [] {
      var init, last := ids[..|ids| - 1], ids[|ids| - 1];
      OnceEach(init, x);
      assert ids == init + [last];
    }
  }

  // ---------------------------------------------------------------- releases by the wrong module

  lemma PlantOne(up: map<ModuleId, ModuleId>, p: ModuleId, id: ModuleId)
    ensures Plant(up, p, id, Plan([])) == up[id := p] && Size(Plan([])) == 1
  {
  }

  /** A service adds a child, and the child adds a grandchild. */
  method TwoLevels() returns (root: Module, grandchild: Module, c: ModuleId, g: ModuleId)
    ensures fresh(root.repr) && root in root.repr && Tree(root, {}, {}) && root.InTree(root) && root.moduleId == 0
    ensures grandchild.InTree(root) && grandchild.moduleId == g && grandchild.ancestor == root
    ensures 0 < c < g && root.view.up == map[c := 0, g := c] && root.ancestor == root
  {
    hide Agreement, Linked, Plant, Size, Extends;
    var child := new Module();
    grandchild := new Module();
    root := new Module.Root();
    RootInTree(root);
    var ok;
    c, ok := root.AddModule(root, child, Plan([]), {});
    PlantOne(map[], 0, c);
    Registered(root);
    g, ok := child.AddModule(root, grandchild, Plan([]), {});
    PlantOne(map[c := 0], c, g);
    RootInTree(root);
    Registered(root);
    OwnRoot(root, grandchild);
  }

  lemma BelowGrandchild(v: View, c: ModuleId, g: ModuleId)
    requires Agreement(v, {}, {}) && 0 < c < g && v.up == map[c := 0, g := c]
    ensures g in v.nodes && 0 in v.nodes && g in v.flat && c in v.flat && Subtree(v.up, g) == {g}
    ensures CanRelease(v, 0, g, {c}) && Survives(v.up, 0, g) && Sound(v, g)
    ensures !Agreement(Prune(Unlist(v, 0, {g}), {g}), {}, {}) && c in v.nodes && g in v.nodes[c].list
    ensures CanRelease(v, g, c, {0}) && !Survives(v.up, g, c)
  {
    hide Agreement, Prune, Unlist, CanRelease, Sound;
    AgreementIds(v, {}, {});
    SubtreeWithin(v.up, g);
    SubtreeOfChild(v.up, g);
    IsListed(v, g);
    AnyoneCanAsk(v, 0, g);
    AnyoneCanAsk(v, g, c);
    ReleaseRestores(v, 0, g);
    assert {c} - {0} == {c} && {0} - {g} == {0};
  }

  /**
   The service releases the grandchild, of which it is not the parent: the call succeeds, and the flat
   map and the child maps disagree from then on.
   */
  method GrandparentRelease() returns (root: Module, ok: bool)
    ensures fresh(root) && Linked(root) && ok && !Agreement(root.view, {}, {})
  {
    hide Agreement, Linked, Prune, Unlist, Subtree, Survives, CanRelease, Logged, Sound;
    var grandchild, c, g;
    root, grandchild, c, g := TwoLevels();
    BelowGrandchild(root.view, c, g);
    ok := root.ReleaseModule(root, g, {c});
  }

  /** After that the service can no longer release the child either, although it is the parent: the call panics. */
  method ReleaseAfterwards() returns (ok: bool)
    ensures !ok
  {
    hide Agreement, Linked, Prune, Unlist, Subtree, Survives, CanRelease, Logged, Sound;
    var root, grandchild, c, g := TwoLevels();
    ghost var v := root.view;
    BelowGrandchild(v, c, g);
    ok := root.ReleaseModule(root, g, {c});
    DanglingChild(v, c, g);
    ok := root.ReleaseModule(root, c, {c});
  }

  lemma DanglingChild(v: View, c: ModuleId, g: ModuleId)
    requires Agreement(v, {}, {}) && 0 < c < g && v.up == map[c := 0, g := c]
    requires 0 in v.nodes && Agreement(Prune(Unlist(v, 0, {g}), {g}), {}, {c})
    ensures var w := Prune(Unlist(v, 0, {g}), {g});
      Descending(w.up) && CanRelease(w, 0, c, {c}) && !Sound(w, c)
  {
    IsListed(v, g);
    hide Agreement, Listed, Below;
    AgreementIds(v, {}, {});
    var w := Prune(Unlist(v, 0, {g}), {g});
    AgreementIds(w, {}, {c});
    SubtreeWithin(w.up, c);
    hide Subtree;
    assert c in w.nodes && g in w.nodes[c].list && g !in w.flat;
    assert !Intact(w, c);
  }

  /** The grandchild is asked to release the child it lies below: the call panics. */
  method ReleaseFromBelow() returns (ok: bool)
    ensures !ok
  {
    hide Agreement, Linked, Prune, Unlist, Subtree, Survives, CanRelease, Logged, Sound;
    var root, grandchild, c, g := TwoLevels();
    BelowGrandchild(root.view, c, g);
    ok := grandchild.ReleaseModule(root, c, {0});
  }
}
