/** The process-tree walk of src/process.ts: from tracked pids to everything the process listing puts below
    them. A Set keeps the order in which its members were added, so a set of pids is that order. */
module ProcessTree {
  import opened Wrappers

  /** A line of the listing, with two integers or without. */
  datatype Line = Row(pid: int, parent: int) | Other

  predicate ChildOf(lines: seq<Line>, pid: int, parent: int) {
    Row(pid, parent) in lines
  }

  ghost predicate IsPath(lines: seq<Line>, path: seq<int>) {
    && |path| > 0
    && (|path| > 1 ==> ChildOf(lines, path[|path| - 1], path[|path| - 2]) && IsPath(lines, path[..|path| - 1]))
  }

  ghost predicate Reachable(lines: seq<Line>, roots: seq<int>, pid: int) {
    exists path :: IsPath(lines, path) && path[0] in roots && path[|path| - 1] == pid
  }

  ghost predicate NoRepeats(s: seq<int>) {
    forall i, j | 0 <= i < j < |s| :: s[i] != s[j]
  }

  /** Everything from index n on stands after one of its parents. */
  ghost predicate ParentsFirst(lines: seq<Line>, s: seq<int>, n: nat) {
    forall k {:trigger s[k]} | n <= k < |s| :: HasParentIn(lines, s[k], s[..k])
  }

  ghost predicate HasParentIn(lines: seq<Line>, pid: int, s: seq<int>) {
    exists j :: 0 <= j < |s| && ChildOf(lines, pid, s[j])
  }

  ghost predicate ChildrenIn(lines: seq<Line>, parent: int, s: seq<int>) {
    forall k | 0 <= k < |lines| && lines[k].Row? && lines[k].parent == parent :: lines[k].pid in s
  }

  // ---------------------------------------------------------------- reachability

  lemma RootReached(lines: seq<Line>, roots: seq<int>, pid: int)
    requires pid in roots
    ensures Reachable(lines, roots, pid)
  {
    assert IsPath(lines, [pid]);
  }

  lemma ChildReached(lines: seq<Line>, roots: seq<int>, parent: int, pid: int)
    requires Reachable(lines, roots, parent) && ChildOf(lines, pid, parent)
    ensures Reachable(lines, roots, pid)
  {
    var path :| IsPath(lines, path) && path[0] in roots && path[|path| - 1] == parent;
    assert (path + [pid])[..|path|] == path;
    assert IsPath(lines, path + [pid]);
  }

  /** A set that holds the roots and the children of its members holds everything reachable. */
  lemma {:induction false} ClosedHoldsPaths(lines: seq<Line>, s: seq<int>, path: seq<int>)
    requires (forall p | p in s :: ChildrenIn(lines, p, s)) && IsPath(lines, path) && path[0] in s
    ensures path[|path| - 1] in s
    decreases |path|
  {
    if |path| > 1 {
      ClosedHoldsPaths(lines, s, path[..|path| - 1]);
      assert ChildrenIn(lines, path[|path| - 2], s);
    }
  }

  lemma ClosedHoldsReachable(lines: seq<Line>, roots: seq<int>, s: seq<int>, pid: int)
    requires (forall p | p in s :: ChildrenIn(lines, p, s)) && (forall p | p in roots :: p in s)
    ensures Reachable(lines, roots, pid) ==> pid in s
  {
    if Reachable(lines, roots, pid) {
      var path :| IsPath(lines, path) && path[0] in roots && path[|path| - 1] == pid;
      var first := path[0];
      assert first in roots;
      ClosedHoldsPaths(lines, s, path);
    }
  }

  // ---------------------------------------------------------------- how many pids there can be

  function Pids(lines: seq<Line>, roots: seq<int>): set<int> {
    (set k | 0 <= k < |lines| && lines[k].Row? :: lines[k].pid) + (set p | p in roots)
  }

  lemma ChildCounted(lines: seq<Line>, roots: seq<int>, pid: int, parent: int)
    requires ChildOf(lines, pid, parent)
    ensures pid in Pids(lines, roots)
  {
  }

  lemma {:induction false} NoRepeatsFit(s: seq<int>, all: set<int>)
    requires NoRepeats(s) && forall p | p in s :: p in all
    ensures |s| <= |all|
    decreases |s|
  {
    if s != [] {
      var n := |s| - 1;
      assert s[n] in s && forall p | p in s[..n] :: p in s;
      NoRepeatsFit(s[..n], all - {s[n]});
      assert all == all - {s[n]} + {s[n]};
    }
  }

  // ---------------------------------------------------------------- the code

  class PidSet {
    var order: seq<int>

    constructor (order: seq<int>)
      ensures this.order == order
    {
      this.order := order;
    }
  }

  /** The child lists, in listing order. */
  method ChildLists(lines: seq<Line>) returns (children: map<int, seq<int>>)
    ensures forall parent, pid ::
      (parent in children && pid in children[parent]) <==> ChildOf(lines, pid, parent)
  {
    children := map[];
    for k := 0 to |lines|
      invariant forall parent, pid ::
        (parent in children && pid in children[parent]) <==> ChildOf(lines[..k], pid, parent)
    {
      assert lines[..k + 1] == lines[..k] + [lines[k]];
      if lines[k].Row? {
        var parent := lines[k].parent;
        children := children[parent := (if parent in children then children[parent] else []) + [lines[k].pid]];
      }
      assert forall pid, parent ::
        ChildOf(lines[..k + 1], pid, parent) <==> ChildOf(lines[..k], pid, parent) || lines[k] == Row(pid, parent);
    }
    assert lines[..|lines|] == lines;
  }

  /** The walk so far: what it holds is reachable, once, after a parent. */
  ghost predicate Discovered(lines: seq<Line>, roots: seq<int>, s: seq<int>) {
    && roots <= s && NoRepeats(s) && ParentsFirst(lines, s, |roots|)
    && (forall p | p in s :: Reachable(lines, roots, p))
  }

  lemma DiscoverOne(lines: seq<Line>, roots: seq<int>, s: seq<int>, index: nat, pid: int)
    requires Discovered(lines, roots, s) && index < |s| && ChildOf(lines, pid, s[index]) && pid !in s
    ensures Discovered(lines, roots, s + [pid])
  {
    ChildReached(lines, roots, s[index], pid);
    var t := s + [pid];
    forall k {:trigger t[k]} | |roots| <= k < |t|
      ensures HasParentIn(lines, t[k], t[..k])
    {
      assert t[..k] == s[..k];
      if k < |s| {
        assert HasParentIn(lines, s[k], s[..k]);
      } else {
        assert s[..k][index] == s[index];
      }
    }
  }

  /** Exactly the pids reachable from the roots, none twice, each but the roots after one of its parents; the
      tracked set grows to the same list. Without a listing only the roots. */
  method Tree(roots: PidSet, listing: Option<seq<Line>>) returns (discovered: seq<int>)
    requires NoRepeats(roots.order)
    modifies roots
    ensures discovered == roots.order && NoRepeats(discovered) && old(roots.order) <= discovered
    ensures listing.None? ==> discovered == old(roots.order)
    ensures listing.Some? ==> ParentsFirst(listing.value, discovered, |old(roots.order)|)
    ensures listing.Some? ==> forall p :: p in discovered <==> Reachable(listing.value, old(roots.order), p)
  {
    if listing.None? {
      return roots.order;
    }
    var lines := listing.value;
    var children := ChildLists(lines);
    ghost var start := roots.order;
    discovered := roots.order;
    forall p | p in start
      ensures Reachable(lines, start, p)
    {
      RootReached(lines, start, p);
    }
    ghost var all := Pids(lines, start);
    NoRepeatsFit(discovered, all);
    hide Reachable, ParentsFirst, ChildrenIn, NoRepeats;
    var index := 0;
    while index < |discovered|
      invariant index <= |discovered| <= |all| && discovered == roots.order
      invariant Discovered(lines, start, discovered) && forall p | p in discovered :: p in all
      invariant forall p | p in discovered[..index] :: ChildrenIn(lines, p, discovered)
      decreases |all| - index
    {
      Visit(roots, lines, start, children, discovered, index);
      ChildrenKept(lines, discovered, index, roots.order);
      discovered := roots.order;
      NoRepeatsFit(discovered, all);
      index := index + 1;
    }
    assert discovered[..index] == discovered;
    forall p
      ensures p in discovered <==> Reachable(lines, start, p)
    {
      ClosedHoldsReachable(lines, start, discovered, p);
    }
  }

  lemma ChildrenKept(lines: seq<Line>, s: seq<int>, index: nat, t: seq<int>)
    requires index < |s| && s <= t && ChildrenIn(lines, s[index], t)
    requires forall p | p in s[..index] :: ChildrenIn(lines, p, s)
    ensures forall p | p in t[..index + 1] :: ChildrenIn(lines, p, t)
  {
    assert t[..index + 1] == s[..index] + [s[index]];
  }

  /** The inner loop: the unseen children of one pid are added. */
  method Visit(roots: PidSet, lines: seq<Line>, ghost start: seq<int>, children: map<int, seq<int>>,
               discovered: seq<int>, index: nat)
    requires index < |discovered| && discovered == roots.order && Discovered(lines, start, discovered)
    requires forall parent, pid :: (parent in children && pid in children[parent]) <==> ChildOf(lines, pid, parent)
    requires forall p | p in discovered :: p in Pids(lines, start)
    modifies roots
    ensures discovered <= roots.order && Discovered(lines, start, roots.order)
    ensures forall p | p in roots.order :: p in Pids(lines, start)
    ensures ChildrenIn(lines, discovered[index], roots.order)
  {
    hide Discovered, Pids;
    ghost var all := Pids(lines, start);
    var parent := discovered[index];
    var pids := if parent in children then children[parent] else [];
    for k := 0 to |pids|
      invariant discovered <= roots.order && Discovered(lines, start, roots.order)
      invariant forall p | p in roots.order :: p in all
      invariant forall j | 0 <= j < k :: pids[j] in roots.order
    {
      assert pids[k] in children[parent] && ChildOf(lines, pids[k], parent);
      if pids[k] !in roots.order {
        DiscoverOne(lines, start, roots.order, index, pids[k]);
        ChildCounted(lines, start, pids[k], parent);
        roots.order := roots.order + [pids[k]];
      }
    }
    forall k | 0 <= k < |lines| && lines[k].Row? && lines[k].parent == parent
      ensures lines[k].pid in roots.order
    {
      assert ChildOf(lines, lines[k].pid, parent);
    }
  }

  /** The order in which signals are sent: every pid that is not a root before one of its parents. */
  method KillOrder(roots: PidSet, listing: Option<seq<Line>>) returns (pids: seq<int>)
    requires NoRepeats(roots.order)
    modifies roots
    ensures |pids| == |roots.order| && forall k | 0 <= k < |pids| :: pids[k] == roots.order[|pids| - 1 - k]
    ensures listing.Some? ==> forall k | 0 <= k < |pids| && pids[k] !in old(roots.order) ::
      HasParentIn(listing.value, pids[k], pids[k + 1..])
  {
    ghost var start := roots.order;
    var tree := Tree(roots, listing);
    pids := seq(|tree|, k requires 0 <= k < |tree| => tree[|tree| - 1 - k]);
    if listing.Some? {
      forall k | 0 <= k < |pids| && pids[k] !in start
        ensures HasParentIn(listing.value, pids[k], pids[k + 1..])
      {
        ParentLater(listing.value, start, tree, pids, k);
      }
    }
  }

  lemma ParentLater(lines: seq<Line>, start: seq<int>, tree: seq<int>, pids: seq<int>, k: nat)
    requires start <= tree && ParentsFirst(lines, tree, |start|)
    requires |pids| == |tree| && forall j | 0 <= j < |pids| :: pids[j] == tree[|tree| - 1 - j]
    requires k < |pids| && pids[k] !in start
    ensures HasParentIn(lines, pids[k], pids[k + 1..])
  {
    var i := |tree| - 1 - k;
    assert forall j | 0 <= j < |start| :: tree[j] in start;
    assert HasParentIn(lines, tree[i], tree[..i]);
    var j :| 0 <= j < i && ChildOf(lines, tree[i], tree[..i][j]);
    assert pids[k + 1..][i - 1 - j] == tree[j];
  }

  lemma ReachableIsClosed(lines: seq<Line>, roots: seq<int>, s: seq<int>)
    requires forall p :: p in s <==> Reachable(lines, roots, p)
    ensures forall p | p in s :: ChildrenIn(lines, p, s)
  {
    hide Reachable;
    forall p, k | p in s && 0 <= k < |lines| && lines[k].Row? && lines[k].parent == p
      ensures lines[k].pid in s
    {
      ChildReached(lines, roots, p, lines[k].pid);
    }
  }

  /** A second walk over the same listing, from the set that the first one left, adds nothing and keeps the order. */
  lemma SecondWalk(lines: seq<Line>, roots: seq<int>, first: seq<int>, second: seq<int>)
    requires forall p :: p in first <==> Reachable(lines, roots, p)
    requires NoRepeats(second) && first <= second && forall p :: p in second <==> Reachable(lines, first, p)
    ensures second == first
  {
    hide Reachable, ChildrenIn;
    if |second| > |first| {
      var p := second[|first|];
      ReachableIsClosed(lines, roots, first);
      ClosedHoldsReachable(lines, first, first, p);
    }
  }
}
