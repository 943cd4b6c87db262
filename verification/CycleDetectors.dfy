/** The two cycle detectors of the backlog: the depth-first search of scripts/backlog-lib.ts and the
    peeling of scripts/backlog-policy.ts. */
module CycleDetectors {
  import opened Wrappers
  import opened DependencyGraph

  /** An item or initiative: its id, and its dependencies when they are a list. */
  datatype Entry = Entry(id: string, dependencies: Option<seq<string>>)

  function Listed(e: Entry): seq<string> {
    if e.dependencies.Some? then e.dependencies.value else []
  }

  /** The map from ids to entries: the last of several entries with one id counts. */
  function GraphOf(entries: seq<Entry>): Graph {
    if entries == [] then map[]
    else GraphOf(entries[..|entries| - 1])[entries[|entries| - 1].id := Listed(entries[|entries| - 1])]
  }

  lemma {:induction false} GraphIds(entries: seq<Entry>)
    ensures GraphOf(entries).Keys == set e | e in entries :: e.id
    decreases |entries|
  {
    if entries != [] {
      GraphIds(entries[..|entries| - 1]);
      assert entries == entries[..|entries| - 1] + [entries[|entries| - 1]];
    }
  }

  /** The graph holds the dependencies of the last entry with each id, none where they are no list. */
  lemma {:induction false} GraphLists(entries: seq<Entry>, k: nat)
    requires k < |entries| && forall j | k < j < |entries| :: entries[j].id != entries[k].id
    ensures entries[k].id in GraphOf(entries)
    ensures GraphOf(entries)[entries[k].id]
         == match entries[k].dependencies { case Some(dependencies) => dependencies case None => [] }
    decreases |entries|
  {
    if k < |entries| - 1 {
      GraphLists(entries[..|entries| - 1], k);
    }
  }

  method BuildGraph(entries: seq<Entry>) returns (g: Graph)
    ensures g == GraphOf(entries)
  {
    g := map[];
    for k := 0 to |entries|
      invariant g == GraphOf(entries[..k])
    {
      assert entries[..k + 1][..k] == entries[..k];
      g := g[entries[k].id := Listed(entries[k])];
    }
    assert entries[..|entries|] == entries;
  }

  ghost function Elements(p: seq<string>): set<string> {
    set a | a in p
  }

  /** A trail whose last id occurs before. */
  ghost predicate RunsIntoCycle(g: Graph, e: seq<string>) {
    IsWalk(g, e) && exists i :: 0 <= i < |e| - 1 && e[i] == e[|e| - 1]
  }

  lemma ElementsAppend(p: seq<string>, a: string)
    ensures Elements(p + [a]) == Elements(p) + {a}
  {
  }

  lemma WalkExtends(g: Graph, trail: seq<string>, id: string)
    requires id in g && (trail != [] ==> IsWalk(g, trail) && id in g[trail[|trail| - 1]])
    ensures IsWalk(g, trail + [id]) && Elements(trail + [id]) == Elements(trail) + {id}
  {
  }

  lemma TrailRunsIntoCycle(g: Graph, trail: seq<string>, id: string)
    requires id in trail && IsWalk(g, trail) && id in g[trail[|trail| - 1]]
    ensures RunsIntoCycle(g, trail + [id])
  {
    WalkExtends(g, trail, id);
    var i :| 0 <= i < |trail| && trail[i] == id;
    assert (trail + [id])[i] == (trail + [id])[|trail|];
  }

  /** Some trail ends with the step from a to d. */
  ghost predicate Blamed(errors: seq<seq<string>>, a: string, d: string) {
    exists e :: e in errors && |e| > 1 && e[|e| - 2] == a && e[|e| - 1] == d
  }

  ghost function Unblamed(dependencies: seq<string>, errors: seq<seq<string>>, a: string): (r: seq<string>)
    ensures forall d :: d in r <==> d in dependencies && !Blamed(errors, a, d)
  {
    if dependencies == [] then []
    else
      assert dependencies == [dependencies[0]] + dependencies[1..];
      (if Blamed(errors, a, dependencies[0]) then [] else [dependencies[0]]) + Unblamed(dependencies[1..], errors, a)
  }

  /** The graph without the last step of every trail. */
  ghost function Cut(g: Graph, errors: seq<seq<string>>): Graph {
    map a | a in g :: Unblamed(g[a], errors, a)
  }

  lemma StillBlamed(before: seq<seq<string>>, after: seq<seq<string>>, a: string)
    requires before <= after
    ensures forall d | Blamed(before, a, d) :: Blamed(after, a, d)
  {
  }

  lemma CutMore(g: Graph, errors: seq<seq<string>>, e: seq<string>, order: seq<string>)
    requires Topological(Cut(g, errors), order)
    ensures Topological(Cut(g, errors + [e]), order)
  {
    var h, k := Cut(g, errors), Cut(g, errors + [e]);
    forall a, d | a in g && d in k[a]
      ensures d in h[a]
    {
      StillBlamed(errors, errors + [e], a);
    }
  }

  /** With no trail nothing is cut. */
  lemma UncutCycle(g: Graph)
    ensures HasCycle(g) ==> HasCycle(Cut(g, []))
  {
    if p :| IsCycle(g, p) {
      assert IsCycle(Cut(g, []), p);
    }
  }

  /** The depth-first search. An error is the trail from a visited item to a repeated one. */
  class DepthFirst {
    const byId: Graph
    var active: set<string>
    var done: set<string>
    var errors: seq<seq<string>>
    /** The done ids in the order they were finished. */
    ghost var finished: seq<string>

    constructor (byId: Graph)
      ensures this.byId == byId && Valid() && active == {} && done == {} && errors == []
    {
      this.byId := byId;
      active, done, errors, finished := {}, {}, [], [];
    }

    ghost predicate Valid()
      reads this
    {
      && active !! done && active <= byId.Keys && done <= byId.Keys
      && done == Elements(finished)
      && Topological(Cut(byId, errors), finished)
      && (forall e | e in errors :: RunsIntoCycle(byId, e))
    }

    /** The visits under way, outermost first, lead to the id. */
    ghost predicate OnTrail(trail: seq<string>, id: string)
      reads this
    {
      && active == Elements(trail)
      && (trail != [] ==> IsWalk(byId, trail) && id in byId[trail[|trail| - 1]])
    }

    method Report(id: string, trail: seq<string>)
      requires Valid() && OnTrail(trail, id) && id in active
      modifies this`errors
      ensures Valid() && errors == old(errors) + [trail + [id]]
    {
      TrailRunsIntoCycle(byId, trail, id);
      CutMore(byId, errors, trail + [id], finished);
      errors := errors + [trail + [id]];
    }

    /** Every known dependency is done, or a trail ends with the step to it. */
    ghost predicate Explored(id: string, dependencies: seq<string>)
      reads this
    {
      forall d | d in dependencies && d in byId :: d in done || Blamed(errors, id, d)
    }

    method Close(id: string)
      requires Valid() && id in active && Explored(id, byId[id])
      modifies this
      ensures Valid() && active == old(active) - {id} && done == old(done) + {id} && errors == old(errors)
    {
      AppendTopological(Cut(byId, errors), finished, id);
      active := active - {id};
      done := done + {id};
      finished := finished + [id];
    }

    lemma StillExplored(before: seq<seq<string>>, seen: set<string>, trail: seq<string>, id: string,
                        dependencies: seq<string>, k: nat)
      requires before <= errors && seen <= done && k < |dependencies|
      requires forall d | d in dependencies[..k] && d in byId :: d in seen || Blamed(before, id, d)
      requires dependencies[k] in byId && dependencies[k] !in done ==> trail + [id] + [dependencies[k]] in errors
      ensures Explored(id, dependencies[..k + 1])
    {
      hide Blamed;
      assert dependencies[..k + 1] == dependencies[..k] + [dependencies[k]];
      StillBlamed(before, errors, id);
      LastStep(errors, trail, id, dependencies[k]);
    }

    method Visit(id: string, trail: seq<string>)
      requires Valid() && OnTrail(trail, id)
      modifies this
      ensures Valid() && active == old(active)
      ensures old(done) <= done && old(errors) <= errors
      ensures id in byId && id !in done ==> trail != [] && trail + [id] in errors
      decreases byId.Keys - active - done
    {
      hide Cut, IsWalk, RunsIntoCycle, Blamed, Topological;
      if id in active {
        Report(id, trail);
        return;
      }
      if id in done { return; }
      if id !in byId { return; }
      WalkExtends(byId, trail, id);
      active := active + {id};
      var dependencies := byId[id];
      for k := 0 to |dependencies|
        invariant Valid() && active == old(active) + {id}
        invariant old(done) <= done && old(errors) <= errors
        invariant Explored(id, dependencies[..k])
      {
        assert id in old(byId.Keys - active - done) && id !in byId.Keys - active - done;
        ghost var before, seen := errors, done;
        Visit(dependencies[k], trail + [id]);
        StillExplored(before, seen, trail, id, dependencies, k);
      }
      assert dependencies[..|dependencies|] == dependencies;
      Close(id);
    }

    /** The whole search: it reports nothing exactly when there is no cycle, every trail it reports is a walk that
        ends in a cycle, and every cycle takes the last step of some trail. */
    method Search(items: seq<Entry>)
      requires Valid() && byId == GraphOf(items) && active == {} && done == {} && errors == []
      modifies this
      ensures errors == [] <==> !HasCycle(byId)
      ensures forall e | e in errors :: RunsIntoCycle(byId, e)
      ensures !HasCycle(Cut(byId, errors))
    {
      hide Cut, IsWalk, Blamed, RunsIntoCycle, HasCycle;
      GraphIds(items);
      for k := 0 to |items|
        invariant Valid() && active == {}
        invariant forall j | 0 <= j < k :: items[j].id in done
      {
        Visit(items[k].id, []);
      }
      assert forall a | a in byId :: a in done;
      hide Topological;
      TrailsTell(byId, errors, finished);
    }
  }

  lemma LastStep(errors: seq<seq<string>>, trail: seq<string>, a: string, d: string)
    ensures trail + [a] + [d] in errors ==> Blamed(errors, a, d)
  {
    var e := trail + [a] + [d];
    assert |e| > 1 && e[|e| - 2] == a && e[|e| - 1] == d;
  }

  /** Trails into cycles, and an order of what is left of the graph without their last steps. */
  lemma TrailsTell(g: Graph, errors: seq<seq<string>>, order: seq<string>)
    requires (forall e | e in errors :: RunsIntoCycle(g, e))
    requires Topological(Cut(g, errors), order) && g.Keys <= Elements(order)
    ensures !HasCycle(Cut(g, errors)) && (errors == [] <==> !HasCycle(g))
  {
    hide Topological, RunsIntoCycle, IsCycle;
    assert Cut(g, errors).Keys == g.Keys;
    hide Cut;
    AllOrdered(Cut(g, errors), order);
    if errors == [] {
      UncutCycle(g);
    } else {
      assert errors[0] in errors;
      RunHasCycle(g, errors[0]);
    }
  }

  lemma AllOrdered(g: Graph, order: seq<string>)
    requires Topological(g, order) && g.Keys <= Elements(order)
    ensures !HasCycle(g)
  {
    CycleIffReached(g);
    forall a
      ensures !ReachesCycle(g, a)
    {
      if a in g {
        OrderedReachesNoCycle(g, order, a);
      }
    }
  }

  lemma RunHasCycle(g: Graph, e: seq<string>)
    requires RunsIntoCycle(g, e)
    ensures exists i :: 0 <= i < |e| && IsCycle(g, e[i..])
  {
    var i :| 0 <= i < |e| - 1 && e[i] == e[|e| - 1];
    RepeatIsCycle(g, e, i, |e| - 1);
    assert e[i..|e| - 1 + 1] == e[i..];
  }

  lemma AppendTopological(g: Graph, order: seq<string>, id: string)
    requires Topological(g, order) && id in g && forall d | d in g[id] && d in g :: d in order
    ensures Topological(g, order + [id])
  {
    var longer := order + [id];
    forall k | 0 <= k < |longer|
      ensures longer[k] in g && forall d | d in g[longer[k]] && d in g :: d in longer[..k]
    {
      assert longer[..k] == order[..k];
    }
  }

  /** dependencyCycles. */
  method DependencyCycles(items: seq<Entry>) returns (errors: seq<seq<string>>)
    ensures errors == [] <==> !HasCycle(GraphOf(items))
    ensures forall e | e in errors :: RunsIntoCycle(GraphOf(items), e)
    ensures forall e | e in errors :: exists i :: 0 <= i < |e| && IsCycle(GraphOf(items), e[i..])
    ensures !HasCycle(Cut(GraphOf(items), errors))
  {
    var byId := BuildGraph(items);
    var search := new DepthFirst(byId);
    search.Search(items);
    errors := search.errors;
    forall e | e in errors
      ensures exists i :: 0 <= i < |e| && IsCycle(byId, e[i..])
    {
      RunHasCycle(byId, e);
    }
  }

  // ---------------------------------------------------------------- peeling

  /** The ids of a list, each once, in order of first occurrence. */
  method DistinctIds(initiatives: seq<Entry>) returns (ids: seq<string>)
    ensures Elements(ids) == GraphOf(initiatives).Keys
  {
    ids := [];
    for k := 0 to |initiatives|
      invariant Elements(ids) == set e | e in initiatives[..k] :: e.id
    {
      assert initiatives[..k + 1] == initiatives[..k] + [initiatives[k]];
      assert forall e | e in initiatives[..k + 1] :: e in initiatives[..k] || e == initiatives[k];
      if initiatives[k].id !in ids {
        ElementsAppend(ids, initiatives[k].id);
        ids := ids + [initiatives[k].id];
      }
    }
    assert initiatives[..|initiatives|] == initiatives;
    GraphIds(initiatives);
  }

  /** The ids outside `remaining` can be ordered by dependency. */
  ghost predicate Peeled(g: Graph, remaining: set<string>, order: seq<string>) {
    remaining <= g.Keys && Elements(order) == g.Keys - remaining && Topological(g, order)
  }

  /** One pass over a snapshot of the remaining ids. */
  method PeelPass(g: Graph, ids: seq<string>, remaining: set<string>, ghost order: seq<string>)
    returns (left: set<string>, removed: bool, ghost longer: seq<string>)
    requires Peeled(g, remaining, order) && Elements(ids) == g.Keys
    ensures Peeled(g, left, longer) && left <= remaining
    ensures removed <==> left != remaining
    ensures !removed ==> forall a | a in left :: exists d :: d in g[a] && d in left
  {
    left, removed, longer := remaining, false, order;
    for k := 0 to |ids|
      invariant Peeled(g, left, longer) && left <= remaining && (removed <==> left != remaining)
      invariant !removed ==> forall j | 0 <= j < k && ids[j] in left :: exists d :: d in g[ids[j]] && d in left
    {
      var id := ids[k];
      if id in left && forall d | d in g[id] :: d !in left {
        assert forall d | d in g[id] && d in g :: d in Elements(longer);
        ElementsAppend(longer, id);
        AppendTopological(g, longer, id);
        left, removed, longer := left - {id}, true, longer + [id];
      }
    }
    assert !removed ==> forall a | a in left :: a in ids;
  }

  /** initiativeCycleErrors: what peeling leaves is exactly the ids that reach a cycle, so it leaves
      something exactly when there is one. */
  method InitiativeCycles(initiatives: seq<Entry>) returns (remaining: set<string>)
    ensures var g := GraphOf(initiatives);
            && remaining <= g.Keys
            && (forall a | a in g :: a in remaining <==> ReachesCycle(g, a))
            && (remaining != {} <==> HasCycle(g))
  {
    var g := BuildGraph(initiatives);
    var ids := DistinctIds(initiatives);
    remaining := g.Keys;
    ghost var order := [];
    var removed := true;
    while removed && remaining != {}
      invariant Peeled(g, remaining, order)
      invariant !removed ==> Trapped(g, remaining)
      decreases remaining, removed
    {
      remaining, removed, order := PeelPass(g, ids, remaining, order);
      assert !removed ==> forall a | a in remaining :: DependsInto(g, remaining, a);
    }
    PeelingRemainder(g, remaining, order);
  }

  lemma PeelingRemainder(g: Graph, remaining: set<string>, order: seq<string>)
    requires Peeled(g, remaining, order) && Trapped(g, remaining)
    ensures forall a | a in g :: a in remaining <==> ReachesCycle(g, a)
    ensures remaining != {} <==> HasCycle(g)
  {
    forall a | a in g
      ensures a in remaining <==> ReachesCycle(g, a)
    {
      if a in remaining {
        TrappedReachesCycle(g, remaining, a);
      } else {
        assert a in Elements(order);
        OrderedReachesNoCycle(g, order, a);
      }
    }
    CycleIffReached(g);
    if a :| ReachesCycle(g, a) {
      assert a in g;
    }
  }

  /** Both detectors on one list: one complains exactly when the other does, and the ids on the trails of
      the first are among those the second names. */
  method DetectorsAgree(entries: seq<Entry>)
    returns (errors: seq<seq<string>>, remaining: set<string>)
    ensures errors == [] <==> remaining == {}
    ensures errors == [] <==> !HasCycle(GraphOf(entries))
    ensures forall e, a | e in errors && a in e :: a in remaining
  {
    errors := DependencyCycles(entries);
    remaining := InitiativeCycles(entries);
    forall e, a | e in errors && a in e
      ensures a in remaining
    {
      TrailReachesCycle(GraphOf(entries), e, a);
    }
  }

  lemma TrailReachesCycle(g: Graph, e: seq<string>, a: string)
    requires RunsIntoCycle(g, e) && a in e
    ensures a in g && ReachesCycle(g, a)
  {
    var i :| 0 <= i < |e| - 1 && e[i] == e[|e| - 1];
    var k :| 0 <= k < |e| && e[k] == a;
    if k <= i {
      var p := e[k..];
      assert p[i - k] == p[|p| - 1];
      assert IsWalk(g, p) && p[0] == a && Repeats(p);
    } else {
      RepeatIsCycle(g, e, i, |e| - 1);
      CycleReachesItself(g, e[i..|e| - 1 + 1], k - i);
    }
  }
}
