/**
 The module tree of a service: every module keeps a map of its children, and the root, the
 service itself, also keeps a flat map of all its descendants.
 */
module ModuleTree {
  import opened ModuleIds

  const INIT_MODULE_ID := 1_000_000_000_000_000_000

  // ---------------------------------------------------------------- the tree as a value

  /** A module with its child map and its parent link. */
  datatype Node = Node(mod: Module, list: map<ModuleId, Module>, back: Module?)

  /**
   The tree as the root sees it: its modules by id, including the root (id 0) and those whose `OnInit`
   is running; the flat map; every registered module's parent.
   */
  datatype View = View(nodes: map<ModuleId, Node>, flat: map<ModuleId, Module>, up: map<ModuleId, ModuleId>)

  /** What a module passes on as itself: the service never sets its own `self`. */
  ghost function SelfOf(v: View, id: ModuleId): Module?
    requires id in v.nodes
  {
    if id == 0 then null else v.nodes[id].mod
  }

  /**
   Agreement of the flat map and the child maps: every registered module is listed by its parent and points to it, and
   what a module lists is registered as its child. Only the modules in `stale` may still list children
   that are gone. `open` are the modules whose `OnInit` is running, which are not registered yet.
   */
  ghost predicate Agreement(v: View, open: set<ModuleId>, stale: set<ModuleId>) {
    && Descending(v.up) && Covers(v, open)
    && (forall x :: x in v.flat ==> Listed(v, x))
    && (forall p :: p in v.nodes ==> OwnsAll(v.up, p, v.nodes[p].list, p in stale))
  }

  ghost predicate OwnsAll(up: map<ModuleId, ModuleId>, p: ModuleId, list: map<ModuleId, Module>, stale: bool) {
    forall c :: c in list ==> p < c && if c in up then up[c] == p else stale
  }

  ghost predicate Covers(v: View, open: set<ModuleId>) {
    && v.up.Keys == v.flat.Keys
    && v.nodes.Keys == v.flat.Keys + open + {0} && 0 !in v.flat && v.flat.Keys !! open
  }

  ghost predicate Listed(v: View, x: ModuleId)
    requires x in v.flat
  {
    && x in v.nodes && v.nodes[x].mod == v.flat[x] && x in v.up && v.up[x] in v.nodes
    && x in v.nodes[v.up[x]].list && v.nodes[v.up[x]].list[x] == v.flat[x]
    && v.nodes[x].back == SelfOf(v, v.up[x])
  }

  lemma AgreementIds(v: View, open: set<ModuleId>, stale: set<ModuleId>)
    requires Agreement(v, open, stale)
    ensures Descending(v.up) && Covers(v, open)
  {
  }

  lemma IsListed(v: View, id: ModuleId)
    requires Agreement(v, {}, {}) && id in v.flat
    ensures Listed(v, id)
  {
  }

  /** What the module lists is registered. */
  ghost predicate Intact(v: View, p: ModuleId)
    requires p in v.nodes
  {
    forall c :: c in v.nodes[p].list ==> c in v.flat
  }

  /** The modules of the subtree of `id` list registered modules only. */
  ghost predicate Sound(v: View, id: ModuleId)
    requires Descending(v.up)
  {
    forall p :: p in Subtree(v.up, id) && p in v.nodes ==> Intact(v, p)
  }

  /** A module lists exactly the ids whose parent it is, and what is gone. */
  lemma KidsOf(v: View, open: set<ModuleId>, stale: set<ModuleId>, id: ModuleId)
    requires Agreement(v, open, stale) && id in v.nodes
    ensures forall c :: c in v.flat ==> (c in v.nodes[id].list <==> c in v.up && v.up[c] == id)
    ensures forall c :: c in v.nodes[id].list ==> id < c
    ensures id !in stale ==> Intact(v, id)
  {
    assert OwnsAll(v.up, id, v.nodes[id].list, id in stale);
    forall c | c in v.flat && v.up[c] == id ensures c in v.nodes[id].list {
      assert Listed(v, c);
    }
  }

  lemma Misplaced(v: View, p: ModuleId, c: ModuleId)
    requires p in v.nodes && c in v.nodes[p].list && c !in v.up
    ensures !Agreement(v, {}, {})
  {
    hide Listed, Covers;
    assert !OwnsAll(v.up, p, v.nodes[p].list, false);
  }

  // ---------------------------------------------------------------- releases on the value

  /** The modules `gone` leave the tree. */
  ghost function Prune(v: View, gone: set<ModuleId>): View {
    View(v.nodes - gone, v.flat - gone, v.up - gone)
  }

  /** The module `p` no longer lists `ids`. */
  ghost function Unlist(v: View, p: ModuleId, ids: set<ModuleId>): (w: View)
    requires p in v.nodes
    ensures p in w.nodes
  {
    var node := v.nodes[p];
    v.(nodes := v.nodes[p := node.(list := node.list - ids)])
  }

  lemma PruneNothing(v: View)
    requires Descending(v.up)
    ensures Prune(v, Forest(v.up, {})) == v
  {
    assert Forest(v.up, {}) == {};
  }

  lemma PruneTwice(v: View, a: set<ModuleId>, b: set<ModuleId>)
    ensures Prune(Prune(v, a), b) == Prune(v, a + b)
  {
    var w, u := Prune(Prune(v, a), b), Prune(v, a + b);
    assert w.nodes == u.nodes;
    assert w.flat == u.flat;
    assert w.up == u.up;
  }

  /** Neither changes what is registered or who the nodes are. */
  lemma UnlistPruned(v: View, gone: set<ModuleId>, p: ModuleId, ids: set<ModuleId>)
    requires p in v.nodes
    ensures var w := Prune(Unlist(v, p, ids), gone);
      && w.up == v.up - gone && w.flat == v.flat - gone && w.nodes.Keys == v.nodes.Keys - gone
      && forall x :: x in w.nodes ==> w.nodes[x].mod == v.nodes[x].mod
  {
  }

  lemma PruneUnlist(v: View, gone: set<ModuleId>, p: ModuleId, ids: set<ModuleId>)
    requires p in v.nodes && p !in gone
    ensures p in Prune(v, gone).nodes && Unlist(Prune(v, gone), p, ids) == Prune(Unlist(v, p, ids), gone)
  {
    assert Unlist(Prune(v, gone), p, ids).nodes == Prune(Unlist(v, p, ids), gone).nodes;
  }

  /** A module that leaves takes its list with it. */
  lemma PruneForgets(v: View, gone: set<ModuleId>, p: ModuleId, ids: set<ModuleId>)
    requires p in v.nodes && p in gone
    ensures Prune(Unlist(v, p, ids), gone) == Prune(v, gone)
  {
    assert Prune(Unlist(v, p, ids), gone).nodes == Prune(v, gone).nodes;
  }

  lemma UnlistNothing(v: View, p: ModuleId, ids: set<ModuleId>)
    requires p in v.nodes && forall c :: c in ids ==> c !in v.nodes[p].list
    ensures Unlist(v, p, ids) == v
  {
    assert v.nodes[p].list - ids == v.nodes[p].list;
    assert v.nodes[p := v.nodes[p]] == v.nodes;
  }

  lemma UnlistTwice(v: View, p: ModuleId, a: set<ModuleId>, b: set<ModuleId>)
    requires p in v.nodes
    ensures Unlist(Unlist(v, p, a), p, b) == Unlist(v, p, a + b)
  {
    assert v.nodes[p].list - a - b == v.nodes[p].list - (a + b);
    assert Unlist(Unlist(v, p, a), p, b).nodes == Unlist(v, p, a + b).nodes;
  }

  /** `id` is registered, and its parent is `slf` or known to be out of date. */
  ghost predicate CanRelease(v: View, slf: ModuleId, id: ModuleId, stale: set<ModuleId>) {
    && Agreement(v, {}, stale) && slf in v.nodes && id in v.flat && id in v.up
    && (v.up[id] == slf || v.up[id] in stale)
  }

  /** A release of `id` does not take the ground from under the module it is asked of. */
  ghost predicate Survives(up: map<ModuleId, ModuleId>, slf: ModuleId, id: ModuleId)
    requires Descending(up)
  {
    slf == id || slf !in Subtree(up, id)
  }

  /** A set of modules closed under descent, whose only top is `id`, leaves the tree and `slf` stops listing `id`. */
  lemma AgreementPrune(v: View, slf: ModuleId, id: ModuleId, gone: set<ModuleId>,
                       stale: set<ModuleId>, stale': set<ModuleId>)
    requires Agreement(v, {}, stale') && stale' <= stale + gone
    requires slf in v.nodes && id in gone && gone <= v.flat.Keys && gone <= v.up.Keys
    requires v.up[id] !in gone && (v.up[id] == slf || v.up[id] in stale)
    requires forall x :: x in v.up && x != id ==> (x in gone <==> v.up[x] in gone)
    ensures Agreement(Prune(Unlist(v, slf, {id}), gone), {}, stale)
  {
    hide Covers, Listed, OwnsAll;
    CoversPrune(v, slf, id, gone);
    var w := Prune(Unlist(v, slf, {id}), gone);
    forall x | x in w.flat ensures Listed(w, x) {
      ListedPrune(v, slf, id, gone, x);
    }
    forall p | p in w.nodes ensures OwnsAll(w.up, p, w.nodes[p].list, p in stale) {
      OwnsPrune(v.up, p, v.nodes[p].list, id, gone, p in stale', p in stale);
    }
  }

  lemma CoversPrune(v: View, slf: ModuleId, id: ModuleId, gone: set<ModuleId>)
    requires Covers(v, {}) && id in gone && gone <= v.flat.Keys && slf in v.nodes
    ensures Covers(Prune(Unlist(v, slf, {id}), gone), {})
  {
  }

  lemma ListedPrune(v: View, slf: ModuleId, id: ModuleId, gone: set<ModuleId>, x: ModuleId)
    requires slf in v.nodes && id in gone && x in v.flat && x !in gone && Listed(v, x) && v.up[x] !in gone
    ensures Listed(Prune(Unlist(v, slf, {id}), gone), x)
  {
  }

  lemma OwnsPrune(up: map<ModuleId, ModuleId>, p: ModuleId, list: map<ModuleId, Module>, id: ModuleId,
                  gone: set<ModuleId>, stale': bool, stale: bool)
    requires OwnsAll(up, p, list, stale') && (stale' ==> stale) && id in up && p !in gone
    requires forall x :: x in up && x != id ==> (x in gone <==> up[x] in gone)
    ensures OwnsAll(up - gone, p, list - {id}, stale)
    ensures up[id] != p || stale ==> OwnsAll(up - gone, p, list, stale)
  {
  }

  lemma ReleaseFacts(v: View, slf: ModuleId, id: ModuleId, stale: set<ModuleId>)
    requires CanRelease(v, slf, id, stale)
    ensures Descending(v.up) && id in v.nodes && v.nodes[id].mod == v.flat[id] && id != 0
    ensures v.up.Keys == v.flat.Keys && forall c :: c in v.up && v.up[c] == id ==> c in v.nodes[id].list
    ensures forall c :: c in v.nodes[id].list ==> id < c && (c in v.flat ==> c in v.up && v.up[c] == id)
  {
    AgreementIds(v, {}, stale);
    KidsOf(v, {}, stale, id);
    hide OwnsAll, Below, Subtree;
  }

  /** A subtree is sound if its top lists registered modules only and the subtrees of the children are sound. */
  lemma SoundUp(v: View, id: ModuleId)
    requires Descending(v.up) && id in v.up && id in v.nodes && Intact(v, id)
    requires forall c :: c in v.up && v.up[c] == id ==> Sound(v, c)
    ensures Sound(v, id)
  {
    var kids := set c | c in v.up && v.up[c] == id;
    SubtreeParts(v.up, id, kids);
    hide Below, Intact;
    forall p | p in Subtree(v.up, id) && p in v.nodes && p != id ensures Intact(v, p) {
      var c :| c in kids && Below(v.up, p, c);
      InSubtree(v.up, p, c);
      assert Sound(v, c);
    }
  }

  /** And conversely. */
  lemma SoundDown(v: View, id: ModuleId)
    requires Descending(v.up) && id in v.up && id in v.nodes && Sound(v, id)
    ensures Intact(v, id) && forall c :: c in v.up && v.up[c] == id ==> Sound(v, c)
  {
    hide Below, Intact, Subtree;
    SubtreeWithin(v.up, id);
    forall c | c in v.up && v.up[c] == id ensures Sound(v, c) {
      SubtreeOfChild(v.up, c);
    }
  }

  lemma SoundParts(v: View, slf: ModuleId, id: ModuleId, stale: set<ModuleId>)
    requires CanRelease(v, slf, id, stale) && Descending(v.up) && id in v.nodes
    ensures Sound(v, id) <==> Intact(v, id) && forall c :: c in v.up && v.up[c] == id ==> Sound(v, c)
    ensures Sound(v, id) ==> forall c :: c in v.nodes[id].list <==> c in v.up && v.up[c] == id
  {
    hide Agreement, Sound, Below, Intact;
    ReleaseFacts(v, slf, id, stale);
    if Sound(v, id) {
      SoundDown(v, id);
      IntactMember(v, id);
    } else if Intact(v, id) && forall c :: c in v.up && v.up[c] == id ==> Sound(v, c) {
      SoundUp(v, id);
    }
  }

  lemma InSubtree(up: map<ModuleId, ModuleId>, x: ModuleId, c: ModuleId)
    requires Descending(up) && Below(up, x, c) && x in up
    ensures x in Subtree(up, c)
  {
  }

  lemma IntactMember(v: View, p: ModuleId)
    requires p in v.nodes && Intact(v, p)
    ensures forall c :: c in v.nodes[p].list ==> c in v.flat
  {
  }

  lemma ReleaseStart(v: View, slf: ModuleId, id: ModuleId, stale: set<ModuleId>, log: seq<ModuleId>)
    requires Agreement(v, {}, stale) && Descending(v.up) && slf in v.nodes
    ensures Agreement(v, {}, stale + {id}) && Prune(Unlist(v, slf, {}), Forest(v.up, {})) == v
    ensures Logged(v.up, Forest(v.up, {}), log, log) && Forest(v.up, {}) == {}
  {
    hide Listed, Covers;
    PruneNothing(v);
    UnlistNothing(v, slf, {});
    assert Forest(v.up, {}) == {};
    forall p | p in v.nodes ensures OwnsAll(v.up, p, v.nodes[p].list, p in stale + {id}) {
      assert OwnsAll(v.up, p, v.nodes[p].list, p in stale);
    }
  }

  /** The tree while `id` is being released on behalf of `slf`, its children `tops` being gone. */
  ghost function Releasing(v: View, slf: ModuleId, tops: set<ModuleId>): View
    requires slf in v.nodes && Descending(v.up)
  {
    Prune(Unlist(v, slf, tops), Forest(v.up, tops))
  }

  /** While `id` is being released, its child `c` can be released on behalf of `id`. */
  lemma CanReleaseChild(v: View, slf: ModuleId, id: ModuleId, stale: set<ModuleId>, tops: set<ModuleId>, c: ModuleId)
    requires CanRelease(v, slf, id, stale) && c in v.up && v.up[c] == id && c !in tops
    requires forall d :: d in tops ==> d in v.up && v.up[d] == id
    requires var w := Releasing(v, slf, tops); slf in w.nodes && Agreement(w, {}, stale + {id})
    ensures var w := Releasing(v, slf, tops);
      && CanRelease(w, slf, c, stale + {id}) && w.up == v.up - Forest(v.up, tops)
      && Subtree(w.up, c) == Subtree(v.up, c) && (Sound(w, c) <==> Sound(v, c))
  {
    hide Below, Agreement, Forest, Prune, Unlist, Subtree, Intact;
    AgreementIds(v, {}, stale);
    ForestStep(v.up, tops, c);
    UnlistPruned(v, Forest(v.up, tops), slf, tops);
    var w := Releasing(v, slf, tops);
    forall p | p in Subtree(v.up, c) && p in v.nodes ensures p in w.nodes && (Intact(w, p) <==> Intact(v, p)) {
      IntactKept(v, slf, id, stale, tops, c, p);
    }
  }

  /** The lists of the subtree of one child do not depend on the other children. */
  lemma IntactKept(v: View, slf: ModuleId, id: ModuleId, stale: set<ModuleId>, tops: set<ModuleId>, c: ModuleId,
                   p: ModuleId)
    requires CanRelease(v, slf, id, stale) && c in v.up && v.up[c] == id && c !in tops
    requires forall d :: d in tops ==> d in v.up && v.up[d] == id
    requires p in Subtree(v.up, c) && p in v.nodes
    ensures var w := Releasing(v, slf, tops); p in w.nodes && (Intact(w, p) <==> Intact(v, p))
  {
    hide Agreement, Below, Forest, Subtree, Releasing;
    KidsOf(v, {}, stale, p);
    AgreementIds(v, {}, stale);
    ForestStep(v.up, tops, c);
    SubtreeOfChild(v.up, c);
    SubtreeWithin(v.up, c);
    ReleasingNodes(v, slf, tops);
    forall x | x in v.nodes[p].list && x in v.flat ensures x !in Forest(v.up, tops) && x !in tops {
      ChildInSubtree(v.up, x, c);
    }
  }

  lemma ChildInSubtree(up: map<ModuleId, ModuleId>, x: ModuleId, c: ModuleId)
    requires Descending(up) && x in up && up[x] in Subtree(up, c)
    ensures x in Subtree(up, c)
  {
  }

  /** Releasing one more child of `id` on behalf of `id`. */
  lemma PruneChild(v: View, slf: ModuleId, id: ModuleId, stale: set<ModuleId>, tops: set<ModuleId>, c: ModuleId)
    requires CanRelease(v, slf, id, stale) && c in v.up && v.up[c] == id && c !in tops
    requires forall d :: d in tops ==> d in v.up && v.up[d] == id
    requires slf in Releasing(v, slf, tops).nodes
    ensures Prune(Unlist(Releasing(v, slf, tops), slf, {c}), Subtree(v.up, c)) == Releasing(v, slf, tops + {c})
  {
    hide Below, Agreement, Forest, Prune, Unlist, Subtree;
    AgreementIds(v, {}, stale);
    ForestStep(v.up, tops, c);
    UnlistPruned(v, Forest(v.up, tops), slf, tops);
    PruneUnlist(Unlist(v, slf, tops), Forest(v.up, tops), slf, {c});
    UnlistTwice(v, slf, tops, {c});
    PruneTwice(Unlist(v, slf, tops + {c}), Forest(v.up, tops), Subtree(v.up, c));
  }

  lemma ReleasingNone(v: View, slf: ModuleId)
    requires slf in v.nodes && Descending(v.up)
    ensures Releasing(v, slf, {}) == v
  {
    PruneNothing(v);
    UnlistNothing(v, slf, {});
  }

  lemma ReleasingIds(v: View, slf: ModuleId, tops: set<ModuleId>)
    requires slf in v.nodes && Descending(v.up)
    ensures var w := Releasing(v, slf, tops);
      && w.flat == v.flat - Forest(v.up, tops)
      && (forall x :: x in w.nodes <==> x in v.nodes && x !in Forest(v.up, tops))
      && (forall x :: x in w.nodes ==> w.nodes[x].mod == v.nodes[x].mod)
  {
    hide Forest, Releasing;
    ReleasingNodes(v, slf, tops);
  }

  lemma ReleasingNodes(v: View, slf: ModuleId, tops: set<ModuleId>)
    requires slf in v.nodes && Descending(v.up)
    ensures var w := Releasing(v, slf, tops);
      && w.nodes.Keys == v.nodes.Keys - Forest(v.up, tops) && w.flat == v.flat - Forest(v.up, tops)
      && forall x :: x in w.nodes ==>
        && w.nodes[x].mod == v.nodes[x].mod
        && w.nodes[x].list == if x == slf then v.nodes[x].list - tops else v.nodes[x].list
  {
    hide Forest;
  }

  /** When a call for something that `id` lists panics, the call for `id` was bound to. */
  lemma Doomed(v: View, slf: ModuleId, id: ModuleId, stale: set<ModuleId>, tops: set<ModuleId>, c: ModuleId)
    requires CanRelease(v, slf, id, stale) && Descending(v.up) && id in v.nodes && c in v.nodes[id].list
    requires forall d :: d in tops ==> d in v.up && v.up[d] == id
    requires c !in v.flat || slf in tops || !Survives(v.up, slf, c) || !Sound(v, c)
    ensures !Survives(v.up, slf, id) || !Sound(v, id)
  {
    ReleaseFacts(v, slf, id, stale);
    SoundParts(v, slf, id, stale);
    hide Below, Agreement, CanRelease, Sound, Subtree;
    if c in v.flat {
      SubtreeOfChild(v.up, c);
    } else {
      assert !Intact(v, id);
    }
    if slf in tops {
      SubtreeOfChild(v.up, slf);
      SubtreeWithin(v.up, slf);
    }
  }

  lemma AllListed(v: View, id: ModuleId, tops: set<ModuleId>)
    requires id in v.nodes && tops == v.nodes[id].list.Keys && v.up.Keys == v.flat.Keys
    requires forall c :: c in tops ==> c in v.up && v.up[c] == id
    ensures Intact(v, id)
  {
  }

  /** After the loop over the children, the module that was asked is gone if it was one of them, else it survives. */
  lemma AliveOrNot(v: View, slf: ModuleId, id: ModuleId, tops: set<ModuleId>)
    requires Descending(v.up) && slf in v.nodes && forall d :: d in tops ==> d in v.up && v.up[d] == id
    requires Forest(v.up, tops) == Subtree(v.up, id) - {id}
    ensures slf in tops ==> !Survives(v.up, slf, id)
    ensures slf in Releasing(v, slf, tops).nodes ==> Survives(v.up, slf, id)
  {
    hide Below, Forest, Releasing;
    ReleasingNodes(v, slf, tops);
    if slf in tops {
      SubtreeOfChild(v.up, slf);
      SubtreeWithin(v.up, slf);
    }
  }

  /** A module does not list another one's child. */
  lemma NotListed(v: View, slf: ModuleId, id: ModuleId, stale: set<ModuleId>, c: ModuleId)
    requires CanRelease(v, slf, id, stale) && slf != id && c in v.up && v.up[c] == id
    ensures c !in v.nodes[slf].list
  {
    hide Listed;
    assert OwnsAll(v.up, slf, v.nodes[slf].list, slf in stale);
  }

  /** What is left once the children of `id` are gone. */
  lemma BeforeLast(v: View, slf: ModuleId, id: ModuleId, stale: set<ModuleId>, kids: set<ModuleId>)
    requires CanRelease(v, slf, id, stale) && forall c :: c in kids <==> c in v.up && v.up[c] == id
    ensures Descending(v.up)
    ensures var w := Releasing(v, slf, kids);
      && id in w.flat && id in w.up && w.up[id] == v.up[id] && w.flat[id] == v.flat[id]
      && (forall x :: x in w.up ==> w.up[x] != id)
      && (Survives(v.up, slf, id) ==> slf in w.nodes && w.nodes[slf].mod == v.nodes[slf].mod)
      && Forest(v.up, kids) == Subtree(v.up, id) - {id}
  {
    AgreementIds(v, {}, stale);
    hide Agreement, Below, Prune, Unlist;
    SubtreeParts(v.up, id, kids);
    ChildrenGone(v.up, id);
    SubtreeWithin(v.up, id);
    hide Subtree, Forest;
    UnlistPruned(v, Forest(v.up, kids), slf, kids);
  }

  /** Releasing `id` itself after its children. */
  lemma PruneLast(v: View, slf: ModuleId, id: ModuleId, stale: set<ModuleId>, kids: set<ModuleId>)
    requires CanRelease(v, slf, id, stale) && Survives(v.up, slf, id)
    requires forall c :: c in kids <==> c in v.up && v.up[c] == id
    requires slf in Releasing(v, slf, kids).nodes
    ensures Prune(Unlist(Releasing(v, slf, kids), slf, {id}), {id}) == Prune(Unlist(v, slf, {id}), Subtree(v.up, id))
  {
    if slf != id {
      forall c | c in kids ensures c !in v.nodes[slf].list {
        NotListed(v, slf, id, stale, c);
      }
      UnlistNothing(v, slf, kids);
    }
    AgreementIds(v, {}, stale);
    hide Agreement, Below, Prune, Unlist;
    SubtreeParts(v.up, id, kids);
    SubtreeWithin(v.up, id);
    hide Subtree, Forest;
    var rest, all := Forest(v.up, kids), Subtree(v.up, id);
    UnlistPruned(v, rest, slf, kids);
    assert rest + {id} == all;
    PruneUnlist(Unlist(v, slf, kids), rest, slf, {id});
    PruneTwice(Unlist(Unlist(v, slf, kids), slf, {id}), rest, {id});
    if slf == id {
      UnlistTwice(v, slf, kids, {id});
      PruneForgets(v, all, slf, kids + {id});
      PruneForgets(v, all, slf, {id});
    }
  }

  /** In a tree without entries that are gone any module can be asked for any release. */
  lemma AnyoneCanAsk(v: View, slf: ModuleId, id: ModuleId)
    requires Agreement(v, {}, {}) && slf in v.nodes && id in v.flat
    ensures id in v.up && Descending(v.up) && CanRelease(v, slf, id, {v.up[id]} - {slf}) && Sound(v, id)
  {
    hide Below, OwnsAll, Listed, Subtree;
    var p := v.up[id];
    ReleaseStart(v, slf, p, {}, []);
    assert {} + {p} == {p};
    if p == slf {
      assert {p} - {slf} == {};
    } else {
      assert {p} - {slf} == {p};
    }
    forall q | q in v.nodes ensures Intact(v, q) {
      KidsOf(v, {}, {}, q);
    }
  }

  /** A release that does not panic restores agreement if and only if it is asked of the direct parent. */
  lemma ReleaseRestores(v: View, slf: ModuleId, id: ModuleId)
    requires Agreement(v, {}, {}) && slf in v.nodes && id in v.flat && Survives(v.up, slf, id)
    ensures id in v.up
    ensures Agreement(Prune(Unlist(v, slf, {id}), Subtree(v.up, id)), {}, {}) <==> v.up[id] == slf
  {
    hide Below, OwnsAll, Listed;
    var gone, p := Subtree(v.up, id), v.up[id];
    ChildrenGone(v.up, id);
    SubtreeWithin(v.up, id);
    forall x | x in v.up && x != id ensures x in gone <==> v.up[x] in gone {
      BelowUp(v.up, x, id);
    }
    if p == slf {
      AgreementPrune(v, slf, id, gone, {}, {});
    } else {
      StillListed(v, slf, id, gone);
    }
  }

  /** The parent of a module survives its release. */
  lemma ParentReleases(v: View, id: ModuleId)
    requires Agreement(v, {}, {}) && id in v.up
    ensures v.up[id] in v.nodes && id in v.flat && v.up[id] != id
    ensures CanRelease(v, v.up[id], id, {}) && Survives(v.up, v.up[id], id) && Sound(v, id)
  {
    hide OwnsAll;
    assert id in v.flat;
    assert Listed(v, id);
    SubtreeOfChild(v.up, id);
    AnyoneCanAsk(v, v.up[id], id);
    assert {v.up[id]} - {v.up[id]} == {};
  }

  lemma StillListed(v: View, slf: ModuleId, id: ModuleId, gone: set<ModuleId>)
    requires Agreement(v, {}, {}) && slf in v.nodes && id in v.flat && id in gone && id in v.up
    requires v.up[id] != slf && v.up[id] !in gone
    ensures !Agreement(Prune(Unlist(v, slf, {id}), gone), {}, {})
  {
    var p, w := v.up[id], Prune(Unlist(v, slf, {id}), gone);
    hide Agreement;
    IsListed(v, id);
    Misplaced(w, p, id);
  }

  // ---------------------------------------------------------------- additions on the value

  /** A module enters the tree, its `OnInit` still to come. */
  ghost function Attach(v: View, id: ModuleId, m: Module, parent: Module?): View {
    v.(nodes := v.nodes[id := Node(m, map[], parent)])
  }

  /** The module `p` lists `id`. */
  ghost function List(v: View, p: ModuleId, id: ModuleId, m: Module): (w: View)
    requires p in v.nodes
    ensures w.flat == v.flat && w.up == v.up
  {
    var node := v.nodes[p];
    v.(nodes := v.nodes[p := node.(list := node.list[id := m])])
  }

  /** The module `id` is listed by `p` and registered. */
  ghost function Register(v: View, p: ModuleId, id: ModuleId, m: Module): View
    requires p in v.nodes
  {
    List(v, p, id, m).(flat := v.flat[id := m], up := v.up[id := p])
  }

  lemma AgreementAttach(v: View, open: set<ModuleId>, id: ModuleId, m: Module, parent: Module?)
    requires Agreement(v, open, {}) && id !in v.nodes
    ensures Agreement(Attach(v, id, m, parent), open + {id}, {})
  {
    hide OwnsAll;
    var w := Attach(v, id, m, parent);
    forall x | x in w.flat ensures Listed(w, x) {
      assert Listed(v, x);
    }
    OwnsNothing(v.up, id);
  }

  lemma OwnsNothing(up: map<ModuleId, ModuleId>, p: ModuleId)
    ensures OwnsAll(up, p, map[], false)
  {
  }

  lemma AgreementRegister(v: View, open: set<ModuleId>, p: ModuleId, id: ModuleId, m: Module)
    requires Agreement(v, open + {id}, {}) && id !in open && id != 0
    requires p in v.nodes && p < id && id in v.nodes && v.nodes[id].mod == m && v.nodes[id].back == SelfOf(v, p)
    ensures Agreement(Register(v, p, id, m), open, {})
  {
    hide Covers, Listed, OwnsAll;
    CoversRegister(v, open, p, id, m);
    var w := Register(v, p, id, m);
    forall x | x in w.flat ensures Listed(w, x) {
      ListedRegister(v, open, p, id, m, x);
    }
    forall q | q in w.nodes ensures OwnsAll(w.up, q, w.nodes[q].list, false) {
      OwnsRegister(v.up, q, v.nodes[q].list, p, id, m);
    }
  }

  lemma CoversRegister(v: View, open: set<ModuleId>, p: ModuleId, id: ModuleId, m: Module)
    requires Covers(v, open + {id}) && id !in open && id != 0 && p in v.nodes && id in v.nodes
    ensures id !in v.flat && id !in v.up && Covers(Register(v, p, id, m), open)
  {
  }

  lemma ListedRegister(v: View, open: set<ModuleId>, p: ModuleId, id: ModuleId, m: Module, x: ModuleId)
    requires p in v.nodes && id !in v.flat && id in v.nodes && v.nodes[id].mod == m
    requires v.nodes[id].back == SelfOf(v, p)
    requires x == id || (x in v.flat && Listed(v, x))
    ensures Listed(Register(v, p, id, m), x)
  {
  }

  lemma OwnsRegister(up: map<ModuleId, ModuleId>, q: ModuleId, list: map<ModuleId, Module>,
                     p: ModuleId, id: ModuleId, m: Module)
    requires OwnsAll(up, q, list, false) && id !in up && p < id
    ensures OwnsAll(up[id := p], q, if q == p then list[id := m] else list, false)
  {
  }

  /** Everything of `v` is still there in `w`, and only `own` may have new children. */
  ghost predicate Extends(v: View, w: View, own: ModuleId) {
    && (forall x :: x in v.flat ==> x in w.flat && w.flat[x] == v.flat[x])
    && (forall x :: x in v.nodes ==> x in w.nodes && Grows(v.nodes[x], w.nodes[x], x == own))
  }

  ghost predicate Grows(a: Node, b: Node, free: bool) {
    b.mod == a.mod && b.back == a.back && (free || b.list == a.list)
  }

  lemma ExtendsSelf(v: View, own: ModuleId)
    ensures Extends(v, v, own)
  {
  }

  lemma ExtendsMore(u: View, v: View, w: View, own: ModuleId)
    requires Extends(u, v, own) && Extends(v, w, own)
    ensures Extends(u, w, own)
  {
  }

  lemma AddExtends(v: View, w: View, p: ModuleId, id: ModuleId, m: Module, parent: Module?)
    requires id !in v.nodes && id !in v.flat && p in v.nodes && p != id
    requires Extends(Attach(v, id, m, parent), w, id)
    ensures p in w.nodes && w.nodes[p].list == v.nodes[p].list && w.nodes[p].mod == v.nodes[p].mod
    ensures id in w.nodes && w.nodes[id].mod == m && w.nodes[id].back == parent
    ensures Extends(v, Register(w, p, id, m), p)
  {
  }

  // ---------------------------------------------------------------- modules

  class Module {
    var moduleId: ModuleId
    var self: Module?
    var parent: Module?
    var child: map<ModuleId, Module>
    var ancestor: Module?

    // Used by the root only.
    var seedModuleId: nat
    var descendants: map<ModuleId, Module>

    // Kept at the root: the tree, its modules, and the `OnRelease` calls made so far.
    ghost var view: View
    ghost var repr: set<Module>
    ghost var released: seq<ModuleId>

    /** A module as its author creates it. */
    constructor ()
      ensures moduleId == 0 && child == map[]
    {
      moduleId, self, parent, ancestor := 0, null, null, null;
      child, descendants, seedModuleId := map[], map[], 0;
    }

    /** A service that has been initialised: the root of an empty tree. */
    constructor Root()
      ensures Tree(this, {}, {}) && view.up == map[] && repr == {this}
      ensures seedModuleId == INIT_MODULE_ID && released == []
    {
      moduleId, self, parent, ancestor := 0, null, null, this;
      child, descendants, seedModuleId := map[], map[], INIT_MODULE_ID;
      released, repr := [], {this};
      new;
      view := View(map[0 := Node(this, map[], null)], map[], map[]);
    }

    ghost predicate InTree(root: Module)
      reads this`moduleId, root`view
    {
      moduleId in root.view.nodes && root.view.nodes[moduleId].mod == this
    }

    ghost predicate Cleared()
      reads this
    {
      self == parent == ancestor == null && child == map[] && descendants == map[]
    }

    /** Looks an id up in the root's flat map. */
    function GetModule(id: ModuleId): (m: Module?)
      requires ancestor != null
      reads this`ancestor, ancestor`descendants
    {
      if id in ancestor.descendants then ancestor.descendants[id] else null
    }

    /** `NewModuleId`: the root counts up. */
    method NewModuleId(ghost root: Module) returns (id: ModuleId)
      requires Linked(root) && ancestor == root
      modifies root`seedModuleId
      ensures Linked(root) && id == root.seedModuleId == old(root.seedModuleId) + 1
    {
      ancestor.seedModuleId := ancestor.seedModuleId + 1;
      id := ancestor.seedModuleId;
    }

    /** The part of `AddModule` before `OnInit`. */
    method Adopt(ghost root: Module, added: Module, id: ModuleId)
      requires Linked(root) && ancestor == root && added !in root.repr && added.child == map[]
      requires id !in root.view.nodes && 0 < id <= root.seedModuleId && added.moduleId == id
      modifies root`view, root`repr, added`self, added`parent, added`ancestor
      ensures Linked(root) && root.view == Attach(old(root.view), id, added, self)
      ensures root.repr == old(root.repr) + {added} && added.ancestor == root
    {
      added.self := added;
      added.parent := self;
      added.ancestor := ancestor;
      root.Admit(added, id);
    }

    /** A module with its fields set enters the tree. */
    ghost method Admit(added: Module, id: ModuleId)
      requires Linked(this) && id !in view.nodes && added !in repr && Attached(this, added, id, map[], added.parent)
      modifies this`view, this`repr
      ensures Linked(this) && view == Attach(old(view), id, added, added.parent) && repr == old(repr) + {added}
    {
      var v, w := view, Attach(view, id, added, added.parent);
      assert forall x :: x in w.nodes ==> x == id || (x in v.nodes && w.nodes[x] == v.nodes[x]);
      hide Attach;
      view := w;
      repr := repr + {added};
    }

    /** `slf.child[id] = added`. */
    method PutChild(ghost root: Module, added: Module, id: ModuleId)
      requires Linked(root) && InTree(root)
      modifies root`view, this`child
      ensures Linked(root) && InTree(root) && moduleId in old(root.view.nodes)
      ensures root.view == List(old(root.view), moduleId, id, added) && child == old(child)[id := added]
      ensures old(child) == old(root.view.nodes[moduleId].list)
    {
      ghost var v, own := root.view, moduleId;
      assert Attached(root, v.nodes[own].mod, own, v.nodes[own].list, v.nodes[own].back);
      child := child[id := added];
      root.view := List(v, own, id, added);
    }

    /** `descendants[id] = added` at the root. */
    method Enroll(added: Module, id: ModuleId, ghost p: ModuleId)
      requires Linked(this)
      modifies this`descendants, this`view
      ensures Linked(this) && view == old(view).(flat := old(view.flat)[id := added], up := old(view.up)[id := p])
    {
      descendants := descendants[id := added];
      view := view.(flat := view.flat[id := added], up := view.up[id := p]);
    }

    /** The module is listed here and registered at the root. */
    method Enter(ghost root: Module, added: Module, id: ModuleId)
      requires Linked(root) && InTree(root) && ancestor == root
      modifies root`descendants, root`view, this`child
      ensures Linked(root) && InTree(root) && moduleId in old(root.view.nodes)
      ensures root.view == Register(old(root.view), moduleId, id, added)
      ensures child == old(root.view.nodes[moduleId].list)[id := added]
    {
      hide Linked, List;
      PutChild(root, added, id);
      ancestor.Enroll(added, id, moduleId);
    }

    /**
     Adds a new module with an id of the root's choice; `OnInit` of the module follows `plan`. A module
     with an id that this module lists already, such as one added a second time, is refused.
     */
    method AddModule(ghost root: Module, added: Module, plan: Plan, ghost open: set<ModuleId>)
        returns (id: ModuleId, ok: bool)
      requires Tree(root, open, {}) && InTree(root)
      requires added.moduleId == 0 ==> added !in root.repr && added.child == map[]
      requires added.moduleId != 0 ==> added.moduleId in child
      modifies root.repr, added
      ensures Tree(root, open, {}) && InTree(root) && moduleId == old(moduleId)
      ensures root.released == old(root.released)
      ensures ok <==> old(added.moduleId) == 0
      ensures !ok ==> id == 0 && Same(root, old(root.view), old(root.repr), old(root.seedModuleId))
      ensures ok ==>
        id == old(root.seedModuleId) + 1 && root.seedModuleId == old(root.seedModuleId) + Size(plan)
      ensures ok ==> root.view.up == Plant(old(root.view.up), moduleId, id, plan)
      ensures ok ==> Extends(old(root.view), root.view, moduleId) && child == old(child)[id := added]
      ensures ok ==> id in root.view.flat && root.view.flat[id] == added
      ensures ok ==> old(root.repr) + {added} <= root.repr && fresh(root.repr - old(root.repr) - {added})
      decreases plan, |plan.children| + 1
    {
      hide Agreement, Linked, Extends, Attach, Plant;
      ghost var v, own := root.view, moduleId;
      AddFacts(root, this, open);
      id, ok := Begin(root, added, open);
      if ok {
        NotRegistered(root, open + {id}, id);
        added.OnInit(root, plan, open + {id});
        AddExtends(v, root.view, own, id, added, SelfOf(v, own));
        StillThere(root, own);
        PlantDef(v.up, moduleId, id, plan);
        Finish(root, added, id, open, v);
      }
    }

    /** Gives a new module its id and lets it into the tree, unless its id is taken. */
    method Begin(ghost root: Module, added: Module, ghost open: set<ModuleId>) returns (id: ModuleId, ok: bool)
      requires Tree(root, open, {}) && InTree(root)
      requires added.moduleId == 0 ==> added !in root.repr && added.child == map[]
      requires added.moduleId != 0 ==> added.moduleId in child
      modifies root`seedModuleId, root`view, root`repr, added`moduleId, added`self, added`parent, added`ancestor
      ensures (ok <==> old(added.moduleId) == 0) && moduleId == old(moduleId)
      ensures !ok ==> id == 0 && Tree(root, open, {}) && InTree(root)
      ensures !ok ==> Same(root, old(root.view), old(root.repr), old(root.seedModuleId))
      ensures ok ==> id == root.seedModuleId == old(root.seedModuleId) + 1 && id !in open
      ensures ok ==> Tree(root, open + {id}, {}) && added.InTree(root) && added.moduleId == id && root in root.repr
      ensures ok ==> root.repr == old(root.repr) + {added} && root.view.up == old(root.view.up)
      ensures moduleId in old(root.view.nodes) && old(root.view).nodes[moduleId].mod == this
      ensures ok ==> root.view == Attach(old(root.view), id, added, SelfOf(old(root.view), moduleId))
      ensures ok ==> ancestor == root && moduleId < id && this in old(root.repr)
      ensures ok ==> child == old(root.view).nodes[moduleId].list
      ensures ok ==> id !in old(root.view.nodes) && id !in old(root.view.flat)
    {
      hide Agreement, Linked;
      AddFacts(root, this, open);
      if added.moduleId == 0 {
        added.moduleId := NewModuleId(root);
      }
      id := added.moduleId;
      if id in child {
        return 0, false;
      }
      ok := true;
      AgreementAttach(root.view, open, id, added, self);
      Adopt(root, added, id);
    }

    /** Lists and registers the module whose `OnInit` is over. */
    method Finish(ghost root: Module, added: Module, id: ModuleId, ghost open: set<ModuleId>, ghost v: View)
      requires Tree(root, open + {id}, {}) && id !in open && moduleId < id && ancestor == root
      requires moduleId in v.nodes && v.nodes[moduleId].mod == this
      requires id !in v.nodes && id !in v.flat
      requires Extends(Attach(v, id, added, SelfOf(v, moduleId)), root.view, id)
      modifies root`descendants, root`view, this`child
      ensures Tree(root, open, {}) && InTree(root)
      ensures root.view.up == old(root.view.up)[id := moduleId]
      ensures id in root.view.flat && root.view.flat[id] == added
      ensures Extends(v, root.view, moduleId) && child == v.nodes[moduleId].list[id := added]
    {
      hide Agreement, Linked, Extends;
      AddExtends(v, root.view, moduleId, id, added, SelfOf(v, moduleId));
      AgreementRegister(root.view, open, moduleId, id, added);
      Enter(root, added, id);
    }

    /** Adds the children of the plan, each a new module, while this module is in the tree but not registered yet. */
    method OnInit(ghost root: Module, plan: Plan, ghost open: set<ModuleId>)
      requires Tree(root, open, {}) && InTree(root) && moduleId == root.seedModuleId
      requires moduleId in open && moduleId !in root.descendants
      modifies root.repr
      ensures Tree(root, open, {}) && InTree(root) && moduleId == old(moduleId)
      ensures root.seedModuleId == old(root.seedModuleId) + SizeKids(plan, |plan.children|)
      ensures root.view.up == PlantKids(old(root.view.up), moduleId, plan, |plan.children|)
      ensures Extends(old(root.view), root.view, moduleId)
      ensures old(root.repr) <= root.repr && fresh(root.repr - old(root.repr))
      ensures root.released == old(root.released)
      decreases plan, |plan.children|
    {
      hide Agreement, Extends, Plant, Linked;
      ghost var v := root.view;
      ExtendsSelf(v, moduleId);
      for i := 0 to |plan.children|
        invariant Tree(root, open, {}) && InTree(root) && moduleId == old(moduleId)
        invariant root.seedModuleId == old(root.seedModuleId) + SizeKids(plan, i)
        invariant root.view.up == PlantKids(v.up, moduleId, plan, i)
        invariant Extends(v, root.view, moduleId)
        invariant old(root.repr) <= root.repr && fresh(root.repr - old(root.repr))
        invariant root.released == old(root.released)
      {
        AddNew(root, plan.children[i], open, v);
      }
    }

    /** Adds a module created on the spot. */
    method AddNew(ghost root: Module, plan: Plan, ghost open: set<ModuleId>, ghost v: View)
      requires Tree(root, open, {}) && InTree(root) && Extends(v, root.view, moduleId)
      modifies root.repr
      ensures Tree(root, open, {}) && InTree(root) && moduleId == old(moduleId)
      ensures root.seedModuleId == old(root.seedModuleId) + Size(plan)
      ensures root.view.up == Plant(old(root.view.up), moduleId, old(root.seedModuleId) + 1, plan)
      ensures Extends(v, root.view, moduleId)
      ensures old(root.repr) <= root.repr && fresh(root.repr - old(root.repr))
      ensures root.released == old(root.released)
      decreases plan, |plan.children| + 2
    {
      hide Agreement, Extends, Plant;
      ghost var w := root.view;
      var m := new Module();
      var id, ok := AddModule(root, m, plan, open);
      ExtendsMore(v, w, root.view, moduleId);
    }

    /** `delete(slf.child, id)`. */
    method DropChild(ghost root: Module, id: ModuleId)
      requires Linked(root) && InTree(root)
      modifies root`view, this`child
      ensures Linked(root) && InTree(root)
      ensures moduleId in old(root.view.nodes) && root.view == Unlist(old(root.view), moduleId, {id})
      ensures forall x :: x in old(root.view.nodes) ==>
        x in root.view.nodes && root.view.nodes[x].mod == old(root.view.nodes)[x].mod
    {
      ghost var v, own := root.view, moduleId;
      assert Attached(root, v.nodes[own].mod, own, v.nodes[own].list, v.nodes[own].back);
      child := child - {id};
      root.view := Unlist(v, own, {id});
    }

    /** `delete(descendants, id)` at the root: the module leaves the tree. */
    method Unregister(id: ModuleId)
      requires Linked(this) && id in view.nodes && id != 0
      modifies this`descendants, this`view, this`repr
      ensures Linked(this)
      ensures view == Prune(old(view), {id}) && view.nodes == old(view.nodes) - {id}
      ensures repr == old(repr) - {old(view.nodes[id].mod)}
    {
      descendants := descendants - {id};
      repr := repr - {view.nodes[id].mod};
      view := Prune(view, {id});
    }

    /**
     Releases `id` and all below it. It panics, in place of which `ok` is false, exactly if the module
     it is asked of is in no tree, having been released, or `id` is not registered, or the release of `id`
     takes in the module it is asked of, other than as `id` itself, or some module to be released
     lists one that is gone.
     */
    method ReleaseModule(ghost root: Module, id: ModuleId, ghost stale: set<ModuleId>) returns (ok: bool)
      requires ancestor != null ==>
        Linked(root) && InTree(root) && (id in root.view.flat ==> CanRelease(root.view, moduleId, id, stale))
      modifies root.repr
      ensures ok <==>
        old(ancestor != null && id in root.view.flat && Survives(root.view.up, moduleId, id) && Sound(root.view, id))
      ensures ok ==> Tree(root, {}, stale) && moduleId == old(moduleId)
      ensures ok ==> if moduleId == id then ancestor == null else InTree(root)
      ensures ok ==> root.view == Prune(Unlist(old(root.view), moduleId, {id}), Subtree(old(root.view.up), id))
      ensures ok ==> Logged(old(root.view.up), Subtree(old(root.view.up), id), old(root.released), root.released)
      ensures ok ==> Gone(root, old(root.view), Subtree(old(root.view.up), id)) && root.repr <= old(root.repr)
      ensures ok ==> root.seedModuleId == old(root.seedModuleId)
      decreases root.seedModuleId - id, 1
    {
      hide Agreement, Subtree, Below, Prune, Unlist, Logged, Forest, Releasing, Survives, Sound, Linked;
      if ancestor == null {
        return false;
      }
      OwnRoot(root, this);
      ghost var v, log, own := root.view, root.released, moduleId;
      var pModule := GetModule(id);
      if pModule == null {
        return false;
      }
      ReleaseFacts(v, own, id, stale);
      ghost var kids := pModule.child.Keys;
      ok := ReleaseChildren(root, id, pModule, stale);
      if ok {
        SoundParts(v, own, id, stale);
        BeforeLast(v, own, id, stale, kids);
        if Survives(v.up, own, id) {
          OwnRoot(root, this);
        }
        LoggedLast(v.up, id, log, root.released);
        ok := Retire(root, id, pModule, stale);
        if ok {
          PruneLast(v, own, id, stale, kids);
        }
      }
    }

    /** Takes the module `m` out of this module's child map and out of the tree. */
    method Cut(ghost root: Module, id: ModuleId, ghost m: Module)
      requires Linked(root) && InTree(root) && ancestor == root && id != 0
      requires id in root.view.nodes && root.view.nodes[id].mod == m
      modifies root`descendants, root`view, root`repr, this`child
      ensures Linked(root) && (moduleId != id ==> InTree(root))
      ensures moduleId in old(root.view.nodes)
      ensures root.view == Prune(Unlist(old(root.view), moduleId, {id}), {id}) && root.repr == old(root.repr) - {m}
    {
      hide Linked, Prune, Unlist;
      DropChild(root, id);
      ancestor.Unregister(id);
    }

    /**
     The end of `ReleaseModule`, when the children of `id` are gone: it panics, in place of which `ok` is
     false, if this module is among them.
     */
    method Retire(ghost root: Module, id: ModuleId, pModule: Module, ghost stale: set<ModuleId>) returns (ok: bool)
      requires Tree(root, {}, stale + {id}) && id in root.view.flat && id in root.view.up
      requires root.view.flat[id] == pModule && (ancestor != null ==> InTree(root))
      requires ancestor != null ==> root.view.up[id] == moduleId || root.view.up[id] in stale
      requires forall x :: x in root.view.up ==> root.view.up[x] != id
      modifies root`released, root`descendants, root`view, root`repr, this`child
      modifies pModule`self, pModule`parent, pModule`child, pModule`ancestor, pModule`descendants
      ensures ok <==> old(ancestor) != null
      ensures ok ==> Tree(root, {}, stale) && (moduleId != id ==> InTree(root)) && moduleId in old(root.view.nodes)
      ensures ok ==> root.view == Prune(Unlist(old(root.view), moduleId, {id}), {id})
      ensures ok ==> root.released == old(root.released) + [id]
      ensures ok ==> pModule.Cleared() && root.repr == old(root.repr) - {pModule}
    {
      hide Agreement, Linked, Prune, Unlist;
      RetireFacts(root, id, stale + {id});
      pModule.self.OnRelease(root);
      if ancestor == null {
        child := child - {id};
        return false;
      }
      OwnRoot(root, this);
      AgreementPrune(root.view, moduleId, id, {id}, stale, stale + {id});
      Cut(root, id, pModule);
      pModule.Clear(root);
      ok := true;
    }

    /** The loop of `ReleaseModule` over the children of `id`, which ends early when a call panics. */
    method ReleaseChildren(ghost root: Module, ghost id: ModuleId, pModule: Module, ghost stale: set<ModuleId>)
        returns (ok: bool)
      requires Linked(root) && InTree(root) && CanRelease(root.view, moduleId, id, stale)
      requires pModule == root.view.flat[id]
      modifies root.repr
      ensures Survives(old(root.view.up), old(moduleId), id) && Sound(old(root.view), id) ==> ok
      ensures ok ==> Sound(old(root.view), id)
      ensures ok ==> Tree(root, {}, stale + {id}) && moduleId == old(moduleId)
      ensures ok ==> if Survives(old(root.view.up), moduleId, id) then InTree(root) else ancestor == null
      ensures ok ==> root.view == Releasing(old(root.view), moduleId, old(pModule.child.Keys))
      ensures ok ==> Logged(old(root.view.up), Subtree(old(root.view.up), id) - {id}, old(root.released), root.released)
      ensures ok ==> Gone(root, old(root.view), Subtree(old(root.view.up), id) - {id}) && root.repr <= old(root.repr)
      ensures ok ==> root.seedModuleId == old(root.seedModuleId)
      decreases root.seedModuleId - id, 0
    {
      hide Agreement, Subtree, Below, Prune, Unlist, Logged, Forest, Releasing, Survives, Sound, Intact;
      ghost var v, log, own := root.view, root.released, moduleId;
      ReleaseFacts(v, own, id, stale);
      ReleaseStart(v, own, id, stale, log);
      var todo := pModule.child.Keys;
      ghost var tops: set<ModuleId> := {};
      ReleasingNone(v, own);
      while todo != {}
        invariant todo !! tops && todo + tops == old(pModule.child.Keys)
        invariant forall c :: c in tops ==> c in v.up && v.up[c] == id && Sound(v, c)
        invariant Tree(root, {}, stale + {id}) && moduleId == own
        invariant if own in tops then ancestor == null else InTree(root)
        invariant root.view == Releasing(v, own, tops)
        invariant Logged(v.up, Forest(v.up, tops), log, root.released)
        invariant Gone(root, v, Forest(v.up, tops)) && root.repr <= old(root.repr)
        invariant root.seedModuleId == old(root.seedModuleId)
      {
        HasMember(todo);
        var c :| c in todo;
        var done := ReleaseChild(root, c, id, stale, v, tops, log);
        if !done {
          Doomed(v, own, id, stale, tops, c);
          return false;
        }
        todo, tops := todo - {c}, tops + {c};
      }
      AllListed(v, id, tops);
      SoundParts(v, own, id, stale);
      SubtreeParts(v.up, id, tops);
      AliveOrNot(v, own, id, tops);
      ok := true;
    }

    /** One turn of that loop. */
    method ReleaseChild(ghost root: Module, c: ModuleId, ghost id: ModuleId, ghost stale: set<ModuleId>,
                        ghost v: View, ghost tops: set<ModuleId>, ghost log: seq<ModuleId>) returns (ok: bool)
      requires CanRelease(v, moduleId, id, stale) && c !in tops && (c in v.flat ==> c in v.up && v.up[c] == id)
      requires forall d :: d in tops ==> d in v.up && v.up[d] == id
      requires Tree(root, {}, stale + {id}) && root.view == Releasing(v, moduleId, tops)
      requires if moduleId in tops then ancestor == null else InTree(root)
      requires Logged(v.up, Forest(v.up, tops), log, root.released)
      requires Gone(root, v, Forest(v.up, tops))
      modifies root.repr
      ensures ok <==> c in v.flat && old(moduleId) !in tops && Survives(v.up, old(moduleId), c) && Sound(v, c)
      ensures ok ==> Tree(root, {}, stale + {id}) && moduleId == old(moduleId)
      ensures ok ==> if moduleId == c then ancestor == null else InTree(root)
      ensures ok ==> root.view == Releasing(v, moduleId, tops + {c})
      ensures ok ==> Logged(v.up, Forest(v.up, tops + {c}), log, root.released)
      ensures ok ==> Gone(root, v, Forest(v.up, tops + {c})) && root.repr <= old(root.repr)
      ensures ok ==> root.seedModuleId == old(root.seedModuleId)
      decreases root.seedModuleId - c, 2
    {
      hide Agreement, Subtree, Below, Prune, Unlist, Logged, Forest, Releasing, Sound, Covers;
      ghost var rel, w, own := root.released, root.view, moduleId;
      AgreementIds(v, {}, stale);
      ReleasingIds(v, own, tops);
      if c in v.flat {
        ForestStep(v.up, tops, c);
      }
      if own !in tops {
        OwnRoot(root, this);
      }
      if own !in tops && c in v.flat {
        CanReleaseChild(v, own, id, stale, tops, c);
        PruneChild(v, own, id, stale, tops, c);
      }
      ok := ReleaseModule(root, c, stale + {id});
      if ok {
        LoggedMore(v.up, tops, c, log, rel, root.released);
      }
    }

    /** The module's own clean-up code, called while it is still registered; only the call is recorded. */
    method OnRelease(ghost root: Module)
      requires Linked(root) && moduleId in root.descendants && root.descendants[moduleId] == this
      modifies root`released
      ensures Linked(root) && root.released == old(root.released) + [moduleId]
    {
      root.released := root.released + [moduleId];
    }

    /** Drops everything a released module refers to. */
    method Clear(ghost root: Module)
      requires Linked(root) && this !in root.repr
      modifies this`self, this`parent, this`child, this`ancestor, this`descendants
      ensures Linked(root) && Cleared()
    {
      self := null;
      parent := null;
      child := map[];
      ancestor := null;
      descendants := map[];
    }
  }

  // ---------------------------------------------------------------- invariant

  /** The root is set up, and every module of the tree is attached to it under its own id. */
  ghost predicate Linked(root: Module)
    reads root`repr, root`view, root`descendants, root`seedModuleId
    reads root.repr`moduleId, root.repr`ancestor, root.repr`self, root.repr`child, root.repr`parent
  {
    && root in root.repr && INIT_MODULE_ID <= root.seedModuleId && root.descendants == root.view.flat
    && 0 in root.view.nodes && root.view.nodes[0].mod == root
    && forall x :: x in root.view.nodes ==>
        && root.view.nodes[x].mod in root.repr
        && Attached(root, root.view.nodes[x].mod, x, root.view.nodes[x].list, root.view.nodes[x].back)
  }

  ghost predicate Attached(root: Module, m: Module, id: ModuleId, list: map<ModuleId, Module>, parent: Module?)
    reads m`moduleId, m`ancestor, m`self, m`child, m`parent, root`seedModuleId
  {
    && m.moduleId == id <= root.seedModuleId && m.ancestor == root && m.self == (if id == 0 then null else m)
    && m.child == list && m.parent == parent
  }

  /** The invariant. */
  ghost predicate Tree(root: Module, open: set<ModuleId>, stale: set<ModuleId>)
    reads root, root.repr
  {
    Linked(root) && Agreement(root.view, open, stale)
  }

  /** The modules `gone` have left the tree and refer to nothing any more. */
  ghost predicate Gone(root: Module, v: View, gone: set<ModuleId>)
    reads root`repr, (set x | x in v.nodes :: v.nodes[x].mod)
  {
    forall x :: x in gone && x in v.nodes ==> v.nodes[x].mod !in root.repr && v.nodes[x].mod.Cleared()
  }

  /** Asked of any module of the tree, at any time, `GetModule` finds exactly the registered modules. */
  lemma Found(root: Module, open: set<ModuleId>, stale: set<ModuleId>, m: Module, id: ModuleId)
    requires Tree(root, open, stale) && m.InTree(root)
    ensures m.ancestor == root && (m.GetModule(id) != null <==> id in root.view.up)
    ensures m.GetModule(id) != null ==> m.GetModule(id).InTree(root) && m.GetModule(id).moduleId == id
  {
    hide OwnsAll;
    OwnRoot(root, m);
    if id in root.view.flat {
      assert Listed(root.view, id) && id in root.view.nodes;
    }
  }

  lemma AddFacts(root: Module, slf: Module, open: set<ModuleId>)
    requires Tree(root, open, {}) && slf.InTree(root)
    ensures slf.ancestor == root && slf.moduleId in root.view.nodes && slf in root.repr
    ensures slf.self == SelfOf(root.view, slf.moduleId)
    ensures slf.moduleId <= root.seedModuleId && root in root.repr && slf.child == root.view.nodes[slf.moduleId].list
    ensures forall x :: x in root.view.nodes || x in root.view.flat ==> x <= root.seedModuleId
    ensures forall x :: x in slf.child ==> x <= root.seedModuleId
    ensures forall x :: x in open ==> x <= root.seedModuleId
    ensures Descending(root.view.up)
  {
    hide Listed;
    var own := slf.moduleId;
    assert own in root.view.nodes;
    assert OwnsAll(root.view.up, own, root.view.nodes[own].list, false);
    forall x | x in slf.child ensures x <= root.seedModuleId {
      assert x in root.view.up && x in root.view.nodes;
    }
  }

  /** Nothing about the tree has changed. */
  ghost predicate Same(root: Module, view: View, repr: set<Module>, seed: nat)
    reads root`view, root`repr, root`seedModuleId
  {
    root.view == view && root.repr == repr && root.seedModuleId == seed
  }

  lemma NotRegistered(root: Module, open: set<ModuleId>, id: ModuleId)
    requires Tree(root, open, {}) && id in open
    ensures id !in root.descendants
  {
    AgreementIds(root.view, open, {});
  }

  lemma StillThere(root: Module, x: ModuleId)
    requires Linked(root) && x in root.view.nodes
    ensures root.view.nodes[x].mod.moduleId == x && root.view.nodes[x].mod.ancestor == root
  {
  }

  lemma RetireFacts(root: Module, id: ModuleId, stale: set<ModuleId>)
    requires Tree(root, {}, stale) && id in root.view.flat
    ensures id != 0 && id in root.view.nodes && root.view.nodes[id].mod == root.view.flat[id]
    ensures root.view.flat[id].self == root.view.flat[id] && root.view.flat[id].moduleId == id
    ensures root.view.flat[id] != root && root in root.repr && root.descendants == root.view.flat
    ensures Descending(root.view.up)
  {
    hide OwnsAll;
    assert Listed(root.view, id);
  }

  lemma OwnRoot(root: Module, slf: Module)
    requires Linked(root) && slf.InTree(root)
    ensures slf.ancestor == root && slf in root.repr && root in root.repr && root.descendants == root.view.flat
    ensures forall y :: y in root.view.nodes ==>
      && y <= root.seedModuleId && root.view.nodes[y].mod in root.repr
      && root.view.nodes[y].mod.child == root.view.nodes[y].list
  {
    var x := slf.moduleId;
    assert x in root.view.nodes;
  }

  // ---------------------------------------------------------------- in other words

  /**
   What a release leaves: of the registered modules exactly those that are not `id` or below it, each under its id and
   with its parent; every other module lists what it listed before, except that `slf` no longer lists `id`.
   */
  lemma ReleaseMeans(v: View, slf: ModuleId, id: ModuleId, x: ModuleId)
    requires Descending(v.up) && slf in v.nodes && v.up.Keys == v.flat.Keys
    ensures var w := Prune(Unlist(v, slf, {id}), Subtree(v.up, id));
      && (x in w.flat <==> x in v.flat && !Below(v.up, x, id)) && (x in w.flat ==> w.flat[x] == v.flat[x])
      && (x in w.up <==> x in w.flat) && (x in w.up ==> w.up[x] == v.up[x])
      && (x in w.nodes ==> x in v.nodes && w.nodes[x].mod == v.nodes[x].mod && w.nodes[x].back == v.nodes[x].back)
      && (x in w.nodes ==> w.nodes[x].list == if x == slf then v.nodes[x].list - {id} else v.nodes[x].list)
  {
    hide Below;
  }

  /** What is gone from the tree refers to nothing any more. */
  lemma GoneMeans(root: Module, v: View, gone: set<ModuleId>, x: ModuleId)
    requires Gone(root, v, gone) && x in gone && x in v.nodes
    ensures var m := v.nodes[x].mod;
      && m !in root.repr && m.self == null && m.parent == null && m.ancestor == null
      && m.child == map[] && m.descendants == map[]
  {
  }

  /** What an addition keeps: every module, its registration, its parent link and, but for `own`, its list. */
  lemma ExtendsMeans(v: View, w: View, own: ModuleId, x: ModuleId)
    requires Extends(v, w, own)
    ensures x in v.flat ==> x in w.flat && w.flat[x] == v.flat[x]
    ensures x in v.nodes ==> x in w.nodes && w.nodes[x].mod == v.nodes[x].mod && w.nodes[x].back == v.nodes[x].back
    ensures x in v.nodes && x != own ==> w.nodes[x].list == v.nodes[x].list
  {
  }

  /** The view is what the modules' own fields say. */
  lemma ViewMeans(root: Module, x: ModuleId)
    requires Linked(root) && x in root.view.nodes
    ensures var m := root.view.nodes[x].mod;
      && m.moduleId == x && m.ancestor == root && m.child == root.view.nodes[x].list
      && m.parent == root.view.nodes[x].back && m.self == (if m == root then null else m)
    ensures root.descendants == root.view.flat && x <= root.seedModuleId
  {
    var zero := 0;
    assert zero in root.view.nodes;
  }

  // ---------------------------------------------------------------- reachability

  /** A walk from the root along child maps. */
  ghost predicate IsPath(root: Module, path: seq<Module>)
    reads root`repr, root.repr`child
    decreases |path|
  {
    if |path| <= 1 then path == [root]
    else
      var front := path[..|path| - 1];
      IsPath(root, front) && Last(front) in root.repr && Last(path) in Last(front).child.Values
  }

  ghost function Last(path: seq<Module>): Module
    requires path != []
  {
    path[|path| - 1]
  }

  /** `m` is registered, as a child of `p`. */
  ghost predicate ChildOf(root: Module, m: Module, p: Module)
    reads root`view, m`moduleId, p`moduleId
  {
    && m.moduleId in root.view.flat && root.view.flat[m.moduleId] == m
    && m.moduleId in root.view.up && root.view.up[m.moduleId] == p.moduleId
  }

  /** What a module of the tree lists is registered as its child, and only that. */
  lemma ListedIsChild(root: Module, p: Module, m: Module)
    requires Tree(root, {}, {}) && p.InTree(root)
    ensures m in p.child.Values <==> ChildOf(root, m, p)
    ensures ChildOf(root, m, p) ==> m.InTree(root) && m != root && p.moduleId < m.moduleId && p in root.repr
  {
    var v, x, y := root.view, p.moduleId, m.moduleId;
    assert x in v.nodes && p.child == v.nodes[x].list;
    assert OwnsAll(v.up, x, v.nodes[x].list, false);
    if c :| c in p.child && p.child[c] == m {
      assert c in v.flat && Listed(v, c) && c in v.nodes;
    }
    if ChildOf(root, m, p) {
      assert Listed(v, y);
    }
  }

  /** A registered module's parent link is what its parent holds as itself: nil below the service. */
  lemma ParentLink(root: Module, p: Module, m: Module)
    requires Tree(root, {}, {}) && p.InTree(root) && ChildOf(root, m, p)
    ensures m.parent == p.self == if p == root then null else p
  {
    hide OwnsAll;
    RootInTree(root);
    var x, y := p.moduleId, m.moduleId;
    assert Listed(root.view, y) && x in root.view.nodes && y in root.view.nodes;
  }

  lemma {:induction false} PathInTree(root: Module, path: seq<Module>)
    requires Tree(root, {}, {}) && IsPath(root, path)
    ensures Last(path).InTree(root) && (|path| > 1 ==> ChildOf(root, Last(path), Last(path[..|path| - 1])))
    decreases |path|
  {
    if |path| > 1 {
      hide Tree;
      PathInTree(root, path[..|path| - 1]);
      ListedIsChild(root, Last(path[..|path| - 1]), Last(path));
    } else {
      RootInTree(root);
    }
  }

  lemma RootInTree(root: Module)
    requires Linked(root)
    ensures root.InTree(root) && root.moduleId == 0 && root.ancestor == root && root in root.repr
  {
    var x := 0;
    assert x in root.view.nodes;
  }

  lemma {:induction false} PathTo(root: Module, id: ModuleId) returns (path: seq<Module>)
    requires Tree(root, {}, {}) && id in root.view.nodes
    ensures IsPath(root, path) && Last(path) == root.view.nodes[id].mod && (id != 0 ==> |path| > 1)
    decreases id
  {
    hide Agreement, Linked;
    if id == 0 {
      RootInTree(root);
      path := [root];
    } else {
      var p, m := ParentOf(root, id);
      ListedIsChild(root, p, m);
      var front := PathTo(root, p.moduleId);
      path := front + [m];
      assert path[..|path| - 1] == front;
    }
  }

  lemma ParentOf(root: Module, id: ModuleId) returns (p: Module, m: Module)
    requires Tree(root, {}, {}) && id in root.view.nodes && id != 0
    ensures p.InTree(root) && m == root.view.nodes[id].mod && m.moduleId == id && ChildOf(root, m, p)
  {
    hide OwnsAll;
    var v := root.view;
    assert Listed(v, id);
    assert v.up[id] in v.nodes;
    p, m := v.nodes[v.up[id]].mod, v.nodes[id].mod;
  }

  lemma Registered(root: Module)
    requires Tree(root, {}, {})
    ensures root.descendants == root.view.flat && 0 !in root.view.flat
    ensures forall x :: x in root.view.flat ==>
      x in root.view.nodes && root.view.flat[x] == root.view.nodes[x].mod && root.view.flat[x].moduleId == x
  {
    hide OwnsAll;
    forall x | x in root.view.flat ensures x in root.view.nodes && root.view.flat[x] == root.view.nodes[x].mod {
      assert Listed(root.view, x);
    }
  }

  /** The flat map holds exactly the modules reachable through child maps, each under its own id. */
  lemma DescendantsAreReachable(root: Module, m: Module)
    requires Tree(root, {}, {})
    ensures (m.moduleId in root.descendants && root.descendants[m.moduleId] == m) <==>
            exists path :: IsPath(root, path) && |path| > 1 && Last(path) == m
    ensures forall x :: x in root.descendants ==> root.descendants[x].moduleId == x
  {
    hide Agreement;
    Registered(root);
    hide Linked;
    if path :| IsPath(root, path) && |path| > 1 && Last(path) == m {
      PathInTree(root, path);
    }
    var id := m.moduleId;
    if id in root.descendants && root.descendants[id] == m {
      var path := PathTo(root, id);
    }
  }

  /** There is one way to reach a module: the child maps form a tree. */
  lemma {:induction false} PathUnique(root: Module, path: seq<Module>, path': seq<Module>)
    requires Tree(root, {}, {}) && IsPath(root, path) && IsPath(root, path') && Last(path) == Last(path')
    ensures path == path'
    decreases |path|
  {
    hide Agreement, Linked;
    PathInTree(root, path);
    PathInTree(root, path');
    RootInTree(root);
    Registered(root);
    if |path| > 1 && |path'| > 1 {
      var p, p' := path[..|path| - 1], path'[..|path'| - 1];
      PathInTree(root, p);
      PathInTree(root, p');
      PathUnique(root, p, p');
      assert path == p + [Last(path)] && path' == p' + [Last(path')];
    }
  }
}
