/** Directed graphs as adjacency maps, their paths and reachability. */
module Graphs {

  /** From a vertex to the set of its out-neighbours; a vertex may be missing. */
  type Graph<V> = map<V, set<V>>

  predicate Edge<V(==)>(g: Graph<V>, x: V, y: V) {
    x in g && y in g[x]
  }

  ghost predicate IsPath<V>(g: Graph<V>, p: seq<V>) {
    1 <= |p| && forall i | 0 <= i < |p| - 1 :: Edge(g, p[i], p[i + 1])
  }

  ghost predicate PathFromTo<V>(g: Graph<V>, p: seq<V>, x: V, y: V) {
    IsPath(g, p) && p[0] == x && p[|p| - 1] == y
  }

  /** Some path, possibly the one of a single vertex, leads from `x` to `y`. */
  ghost predicate Reach<V(!new)>(g: Graph<V>, x: V, y: V) {
    exists p: seq<V> :: PathFromTo(g, p, x, y)
  }

  lemma ReachRefl<V(!new)>(g: Graph<V>, x: V)
    ensures Reach(g, x, x)
  {
    assert PathFromTo(g, [x], x, x);
  }

  lemma ReachEdge<V(!new)>(g: Graph<V>, x: V, y: V)
    requires Edge(g, x, y)
    ensures Reach(g, x, y)
  {
    assert PathFromTo(g, [x, y], x, y);
  }

  lemma ReachTrans<V(!new)>(g: Graph<V>, x: V, y: V, z: V)
    requires Reach(g, x, y) && Reach(g, y, z)
    ensures Reach(g, x, z)
  {
    var p: seq<V> :| PathFromTo(g, p, x, y);
    var q: seq<V> :| PathFromTo(g, q, y, z);
    var r := p + q[1..];
    forall i | 0 <= i < |r| - 1
      ensures Edge(g, r[i], r[i + 1])
    {
      if i >= |p| - 1 {
        assert r[i] == q[i - (|p| - 1)] && r[i + 1] == q[i - (|p| - 1) + 1];
      }
    }
    assert PathFromTo(g, r, x, z);
  }

  /** A set closed under edges is closed under reachability. */
  lemma ClosedUnderReach<V(!new)>(g: Graph<V>, s: set<V>, x: V, y: V)
    requires forall u, w | u in s && Edge(g, u, w) :: w in s
    requires x in s && Reach(g, x, y)
    ensures y in s
  {
    var p: seq<V> :| PathFromTo(g, p, x, y);
    var i := 0;
    while i < |p| - 1
      invariant 0 <= i <= |p| - 1
      invariant p[i] in s
    {
      assert Edge(g, p[i], p[i + 1]);
      i := i + 1;
    }
  }

  /** Some edge lies on a way back to its source. */
  ghost predicate Cyclic<V(!new)>(g: Graph<V>) {
    exists x, y :: Edge(g, x, y) && Reach(g, y, x)
  }

  lemma PrefixIsPath<V>(g: Graph<V>, p: seq<V>)
    requires IsPath(g, p) && |p| > 1
    ensures IsPath(g, p[..|p| - 1])
  {
    var q := p[..|p| - 1];
    forall i | 0 <= i < |q| - 1
      ensures Edge(g, q[i], q[i + 1])
    {
      assert Edge(g, p[i], p[i + 1]);
    }
  }

  /** A closed walk is a cycle. */
  lemma ClosedWalkIsCycle<V(!new)>(g: Graph<V>, p: seq<V>)
    requires IsPath(g, p) && |p| > 1 && p[0] == p[|p| - 1]
    ensures Cyclic(g)
  {
    assert Edge(g, p[0], p[1]);
    assert PathFromTo(g, p[1..], p[1], p[0]);
    assert Reach(g, p[1], p[0]);
  }

  ghost predicate In<V>(p: seq<V>, s: set<V>) {
    forall i | 0 <= i < |p| :: p[i] in s
  }

  /** More positions than values: some value repeats. */
  lemma {:induction false} Pigeonhole<V>(p: seq<V>, s: set<V>) returns (i: nat, j: nat)
    requires In(p, s) && |p| > |s|
    ensures i < j < |p| && p[i] == p[j]
    decreases |p|
  {
    var last := p[|p| - 1];
    var t := p[..|p| - 1];
    if k: nat :| k < |t| && t[k] == last {
      return k, |p| - 1;
    }
    i, j := Pigeonhole(t, s - {last});
  }

  /** A path with more vertices than there are holds a cycle. */
  lemma LongPathIsCyclic<V(!new)>(g: Graph<V>, p: seq<V>, s: set<V>)
    requires IsPath(g, p) && In(p, s) && |p| > |s|
    ensures Cyclic(g)
  {
    var i, j := Pigeonhole(p, s);
    var c := p[i..j + 1];
    forall k | 0 <= k < |c| - 1
      ensures Edge(g, c[k], c[k + 1])
    {
      assert Edge(g, p[i + k], p[i + k + 1]);
    }
    ClosedWalkIsCycle(g, c);
  }
}
