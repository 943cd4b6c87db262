/** Dependency graphs: each known id with the ids it depends on. An id that is not a key is unknown and
    has no dependencies. */
module DependencyGraph {
  type Graph = map<string, seq<string>>

  ghost predicate IsWalk(g: Graph, p: seq<string>) {
    && |p| > 0
    && (forall k | 0 <= k < |p| :: p[k] in g)
    && (forall k | 0 <= k < |p| - 1 :: p[k + 1] in g[p[k]])
  }

  /** A closed walk along at least one dependency. */
  ghost predicate IsCycle(g: Graph, p: seq<string>) {
    IsWalk(g, p) && |p| > 1 && p[0] == p[|p| - 1]
  }

  ghost predicate HasCycle(g: Graph) {
    exists p :: IsCycle(g, p)
  }

  ghost predicate Repeats(p: seq<string>) {
    exists i, j :: 0 <= i < j < |p| && p[i] == p[j]
  }

  /** A walk from a that runs into a cycle. */
  ghost predicate ReachesCycle(g: Graph, a: string) {
    exists p :: IsWalk(g, p) && p[0] == a && Repeats(p)
  }

  /** Every known dependency of a listed id is listed before it. */
  ghost predicate Topological(g: Graph, order: seq<string>) {
    forall k | 0 <= k < |order| ::
      order[k] in g && forall d | d in g[order[k]] && d in g :: d in order[..k]
  }

  lemma RepeatIsCycle(g: Graph, p: seq<string>, i: int, j: int)
    requires IsWalk(g, p) && 0 <= i < j < |p| && p[i] == p[j]
    ensures IsCycle(g, p[i..j + 1])
  {
  }

  lemma CycleReachesItself(g: Graph, p: seq<string>, k: int)
    requires IsCycle(g, p) && 0 <= k < |p|
    ensures ReachesCycle(g, p[k])
  {
    if k == |p| - 1 {
      assert p[0] == p[k] && Repeats(p);
    } else {
      var q := p[k..] + p[1..];
      assert forall m | 0 <= m < |q| - 1 :: q[m + 1] in g[q[m]] by {
        forall m | 0 <= m < |q| - 1
          ensures q[m + 1] in g[q[m]]
        {
          if m < |p| - k - 1 {
            assert q[m] == p[k + m] && q[m + 1] == p[k + m + 1];
          } else {
            assert q[m] == p[m - (|p| - k - 1)] && q[m + 1] == p[m + 1 - (|p| - k - 1)];
          }
        }
      }
      assert q[|p| - k - 1] == p[|p| - 1] && q[|q| - 1] == p[|p| - 1];
      assert Repeats(q);
    }
  }

  lemma CycleIffReached(g: Graph)
    ensures HasCycle(g) <==> exists a :: ReachesCycle(g, a)
  {
    if HasCycle(g) {
      var p :| IsCycle(g, p);
      CycleReachesItself(g, p, 0);
    }
    if a :| ReachesCycle(g, a) {
      var p :| IsWalk(g, p) && p[0] == a && Repeats(p);
      var i, j :| 0 <= i < j < |p| && p[i] == p[j];
      RepeatIsCycle(g, p, i, j);
    }
  }

  lemma PrefixTopological(g: Graph, order: seq<string>, k: nat)
    requires Topological(g, order) && k <= |order|
    ensures Topological(g, order[..k])
  {
    forall j | 0 <= j < k
      ensures order[..k][j] in g && forall d | d in g[order[..k][j]] && d in g :: d in order[..k][..j]
    {
      assert order[..k][..j] == order[..j];
    }
  }

  /** A walk never returns to an id once a topological order covers its start. */
  lemma {:induction false} OrderedWalk(g: Graph, order: seq<string>, p: seq<string>)
    requires Topological(g, order) && IsWalk(g, p) && p[0] in order
    ensures !Repeats(p) && forall a | a in p :: a in order
    decreases |p|
  {
    if |p| > 1 {
      var k :| 0 <= k < |order| && order[k] == p[0] && p[0] !in order[..k] by { FirstIndex(order, p[0]); }
      assert p[1] in order[..k];
      PrefixTopological(g, order, k);
      OrderedWalk(g, order[..k], p[1..]);
      assert forall a | a in p :: a == p[0] || a in p[1..];
      assert forall i, j | 0 <= i < j < |p| :: p[j] == p[1..][j - 1] && (i > 0 ==> p[i] == p[1..][i - 1]);
    }
  }

  lemma {:induction false} FirstIndex(order: seq<string>, a: string)
    requires a in order
    ensures exists k :: 0 <= k < |order| && order[k] == a && a !in order[..k]
    decreases |order|
  {
    var n := |order| - 1;
    if a in order[..n] {
      FirstIndex(order[..n], a);
      var k :| 0 <= k < n && order[..n][k] == a && a !in order[..n][..k];
      assert order[..n][..k] == order[..k];
    }
  }

  lemma OrderedReachesNoCycle(g: Graph, order: seq<string>, a: string)
    requires Topological(g, order) && a in order
    ensures !ReachesCycle(g, a)
  {
    if ReachesCycle(g, a) {
      var p :| IsWalk(g, p) && p[0] == a && Repeats(p);
      OrderedWalk(g, order, p);
    }
  }

  ghost predicate DependsInto(g: Graph, s: set<string>, a: string) {
    a in g && exists d :: d in g[a] && d in s
  }

  /** A set in which every id has a dependency inside the set. */
  ghost predicate Trapped(g: Graph, s: set<string>) {
    forall a {:trigger DependsInto(g, s, a)} | a in s :: DependsInto(g, s, a)
  }

  lemma {:induction false} TrappedWalk(g: Graph, s: set<string>, a: string, n: nat) returns (p: seq<string>)
    requires Trapped(g, s) && a in s
    ensures IsWalk(g, p) && p[0] == a && |p| == n + 1 && forall b | b in p :: b in s
    decreases n
  {
    assert DependsInto(g, s, a);
    if n == 0 {
      p := [a];
    } else {
      var d :| d in g[a] && d in s;
      var q := TrappedWalk(g, s, d, n - 1);
      p := [a] + q;
    }
  }

  lemma {:induction false} Pigeonhole(s: set<string>, p: seq<string>)
    requires |p| > |s| && forall a | a in p :: a in s
    ensures Repeats(p)
    decreases |p|
  {
    var last := p[|p| - 1];
    var q := p[..|p| - 1];
    if last in q {
      var i :| 0 <= i < |q| && q[i] == last;
      assert p[i] == p[|p| - 1];
    } else {
      Pigeonhole(s - {last}, q);
      var i, j :| 0 <= i < j < |q| && q[i] == q[j];
      assert p[i] == p[j];
    }
  }

  /** Every id of a trapped set reaches a cycle: a walk in it longer than the set repeats an id. */
  lemma TrappedReachesCycle(g: Graph, s: set<string>, a: string)
    requires Trapped(g, s) && a in s
    ensures ReachesCycle(g, a)
  {
    var p := TrappedWalk(g, s, a, |s|);
    Pigeonhole(s, p);
  }
}
