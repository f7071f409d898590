/**
 Tarjan's strongly connected components, as in
 xls/data_structures/strongly_connected_components.h.
 The invariants and every step are stated on a snapshot of the algorithm's variables;
 the class at the end is the algorithm, mutating those variables.
 */
module Scc {
  import opened Collections
  import opened Graphs

  /** A snapshot of the variables that the recursive closure shares. */
  datatype State<V> = State(
    index: int,
    stack: seq<V>,
    indexes: map<V, int>,
    lowLinks: map<V, int>,
    onStack: set<V>,
    result: seq<set<V>>)

  lemma UnionAppend<V>(r: seq<set<V>>, c: set<V>)
    ensures Union(r + [c]) == Union(r) + c
  {
    assert (r + [c])[..|r|] == r;
  }

  lemma {:induction false} UnionHasElement<V>(r: seq<set<V>>, x: V)
    ensures x in Union(r) <==> exists k :: 0 <= k < |r| && x in r[k]
  {
    if r != [] {
      UnionHasElement(r[..|r| - 1], x);
      if k :| 0 <= k < |r| && x in r[k] && k < |r| - 1 {
        assert x in r[..|r| - 1][k];
      }
      if x in Union(r[..|r| - 1]) {
        var k :| 0 <= k < |r| - 1 && x in r[..|r| - 1][k];
        assert x in r[k];
      }
    }
  }

  /** A non-empty set of mutually reachable vertices that no vertex could be added to. */
  ghost predicate IsScc<V(!new)>(g: Graph<V>, c: set<V>) {
    && c != {}
    && forall x, y: V {:trigger Reach(g, x, y)} | x in c :: y in c <==> Reach(g, x, y) && Reach(g, y, x)
  }

  // ---------------------------------------------------------------------------
  // Invariants
  // ---------------------------------------------------------------------------

  /** The maps cover the stack. */
  ghost predicate Keyed<V(!new)>(s: State<V>) {
    s.onStack <= s.indexes.Keys && s.lowLinks.Keys == s.indexes.Keys
  }

  /** The stack is sorted by index and holds exactly the visited vertices not yet in a component. */
  ghost predicate Numbered<V(!new)>(s: State<V>) {
    && Keyed(s)
    && (forall x :: x in s.onStack <==> x in s.stack)
    && (forall x | x in s.indexes :: 0 <= s.indexes[x] < s.index)
    && s.indexes.Keys == s.onStack + Union(s.result)
    && s.onStack !! Union(s.result)
    && (forall i, j | 0 <= i < j < |s.stack| :: s.indexes[s.stack[i]] < s.indexes[s.stack[j]])
  }

  /** `gray` are the vertices whose visit has not returned. A vertex on the stack reaches those above
      it and some gray vertex that is not above it; vertices that are not gray have only visited successors. */
  ghost predicate Linked<V(!new)>(g: Graph<V>, s: State<V>, gray: set<V>)
    requires Keyed(s)
  {
    && gray <= s.onStack
    && (forall x, y {:trigger Edge(g, x, y)} | x in s.indexes && x !in gray && Edge(g, x, y) :: y in s.indexes)
    && (forall x, y {:trigger Reach(g, x, y)} | x in s.onStack && y in s.onStack && s.indexes[x] <= s.indexes[y] :: Reach(g, x, y))
    && (forall y {:trigger ReachesGray(g, s, gray, y)} | y in s.onStack :: ReachesGray(g, s, gray, y))
  }

  ghost predicate ReachesGray<V(!new)>(g: Graph<V>, s: State<V>, gray: set<V>, y: V)
    requires Keyed(s) && gray <= s.onStack && y in s.onStack
  {
    exists x :: x in gray && s.indexes[x] <= s.indexes[y] && Reach(g, y, x)
  }

  /** The components found so far are components of the graph, disjoint, with edges only to themselves and earlier ones. */
  ghost predicate Components<V(!new)>(g: Graph<V>, r: seq<set<V>>) {
    && (forall k | 0 <= k < |r| :: IsScc(g, r[k]))
    && (forall j, k | 0 <= j < k < |r| :: r[j] !! r[k])
    && (forall k | 0 <= k < |r| :: EdgesStayIn(g, r[k], Union(r[..k + 1])))
  }

  ghost predicate EdgesStayIn<V(!new)>(g: Graph<V>, c: set<V>, u: set<V>) {
    forall x, y {:trigger Edge(g, x, y)} | x in c && Edge(g, x, y) :: y in u
  }

  ghost predicate Inv<V(!new)>(g: Graph<V>, s: State<V>, gray: set<V>) {
    Keyed(s) && Numbered(s) && Linked(g, s, gray) && Components(g, s.result)
  }

  /** Later states keep indexes and links of visited vertices, the lower stack and the components. */
  ghost predicate Grows<V(!new)>(s0: State<V>, s: State<V>)
    requires Keyed(s0) && Keyed(s)
  {
    && s0.index <= s.index
    && s0.stack <= s.stack
    && s0.result <= s.result
    && s0.indexes.Keys <= s.indexes.Keys
    && (forall x | x in s0.indexes :: s.indexes[x] == s0.indexes[x] && s.lowLinks[x] == s0.lowLinks[x])
    && (forall x | x in s.indexes && x !in s0.indexes :: s0.index <= s.indexes[x])
  }

  /** What a returned visit of `v`, started in `s0`, says about the low link of `v`. */
  ghost predicate Visited<V(!new)>(g: Graph<V>, s0: State<V>, s: State<V>, v: V)
    requires Keyed(s0) && Keyed(s) && Grows(s0, s)
  {
    && v in s.indexes && s.indexes[v] == s0.index
    && (if v in s.onStack then s.lowLinks[v] < s.indexes[v] && LinksTo(g, s, v)
        else s.lowLinks[v] == s.indexes[v] && s.stack == s0.stack)
    && LinkBound(g, s0, s, v, Successors(g, v))
  }

  /** The low link of `v` is the index of a vertex on the stack that `v` reaches. */
  ghost predicate LinksTo<V(!new)>(g: Graph<V>, s: State<V>, v: V)
    requires Keyed(s) && v in s.indexes
  {
    exists z :: z in s.onStack && s.indexes[z] == s.lowLinks[v] && Reach(g, v, z)
  }

  /** The loop over the neighbours of `v`, those in `done` having been looked at. */
  ghost predicate Looping<V(!new)>(g: Graph<V>, s0: State<V>, s: State<V>, v: V, gray: set<V>, done: set<V>) {
    && Inv(g, s0, gray) && v !in s0.indexes && (forall x | x in gray :: Reach(g, x, v))
    && Inv(g, s, gray + {v}) && Grows(s0, s)
    && s0.stack + [v] <= s.stack
    && v in s.indexes && s.indexes[v] == s0.index
    && done <= s.indexes.Keys
    && s.lowLinks[v] <= s.indexes[v] && LinksTo(g, s, v)
    && LinkBound(g, s0, s, v, done)
  }

  /** The link of `v` is at most the index of every vertex below `v` that an edge looked at leads to. */
  ghost predicate LinkBound<V(!new)>(g: Graph<V>, s0: State<V>, s: State<V>, v: V, done: set<V>)
    requires Keyed(s0) && Keyed(s) && s0.indexes.Keys <= s.indexes.Keys && v in s.indexes
  {
    forall x, y {:trigger Edge(g, x, y)} | x in s.onStack && s0.index <= s.indexes[x] && y in s0.onStack && Edge(g, x, y)
      && (x == v ==> y in done) :: s.lowLinks[v] <= s.indexes[y]
  }

  // ---------------------------------------------------------------------------
  // Steps
  // ---------------------------------------------------------------------------

  function Push<V(==)>(s: State<V>, v: V): State<V> {
    State(s.index + 1, s.stack + [v], s.indexes[v := s.index], s.lowLinks[v := s.index], s.onStack + {v}, s.result)
  }

  lemma PushNumbered<V(!new)>(s: State<V>, v: V)
    requires Numbered(s) && v !in s.indexes && 0 <= s.index
    ensures Numbered(Push(s, v)) && Grows(s, Push(s, v))
  {
    var t := Push(s, v);
    forall i, j | 0 <= i < j < |t.stack|
      ensures t.indexes[t.stack[i]] < t.indexes[t.stack[j]]
    {
      assert s.stack[i] in s.onStack;
      if j < |s.stack| {
        assert s.stack[j] in s.onStack;
      }
    }
  }

  lemma PushLinked<V(!new)>(g: Graph<V>, s: State<V>, gray: set<V>, v: V)
    requires Inv(g, s, gray) && v !in s.indexes && 0 <= s.index
    requires forall x | x in gray :: Reach(g, x, v)
    ensures Numbered(Push(s, v)) && Linked(g, Push(s, v), gray + {v})
  {
    hide Reach, Components;
    PushNumbered(s, v);
    var t := Push(s, v);
    forall x, y | x in t.onStack && y in t.onStack && t.indexes[x] <= t.indexes[y]
      ensures Reach(g, x, y)
    {
      if x == v {
        ReachRefl(g, v);
      } else if y == v {
        assert ReachesGray(g, s, gray, x);
        var w :| w in gray && s.indexes[w] <= s.indexes[x] && Reach(g, x, w);
        ReachTrans(g, x, w, v);
      }
    }
    forall y | y in t.onStack
      ensures ReachesGray(g, t, gray + {v}, y)
    {
      if y == v {
        ReachRefl(g, v);
      } else {
        assert ReachesGray(g, s, gray, y);
        var w :| w in gray && s.indexes[w] <= s.indexes[y] && Reach(g, y, w);
        assert w in gray + {v} && t.indexes[w] <= t.indexes[y];
      }
    }
  }

  /** Entering the loop. */
  lemma PushStartsLoop<V(!new)>(g: Graph<V>, s: State<V>, gray: set<V>, v: V)
    requires Inv(g, s, gray) && v !in s.indexes && 0 <= s.index
    requires forall x | x in gray :: Reach(g, x, v)
    ensures Looping(g, s, Push(s, v), v, gray, {})
  {
    PushNumbered(s, v);
    PushLinked(g, s, gray, v);
    ReachRefl(g, v);
    var t := Push(s, v);
    assert v in t.onStack && t.indexes[v] == t.lowLinks[v] && Reach(g, v, v);
  }

  function Lower<V(==)>(s: State<V>, v: V, n: int): State<V>
    requires v in s.lowLinks
  {
    s.(lowLinks := s.lowLinks[v := if n < s.lowLinks[v] then n else s.lowLinks[v]])
  }

  lemma StackKept<V(!new)>(s0: State<V>, s: State<V>)
    requires Numbered(s0) && Numbered(s) && s0.stack <= s.stack
    ensures s0.onStack <= s.onStack
  {
    forall x | x in s0.onStack
      ensures x in s.onStack
    {
      var i :| 0 <= i < |s0.stack| && s0.stack[i] == x;
      assert s.stack[i] == x;
    }
  }

  lemma LowerNumbered<V(!new)>(s: State<V>, v: V, n: int)
    requires Numbered(s) && v in s.lowLinks
    ensures Numbered(Lower(s, v, n))
  {
  }

  lemma LowerLinked<V(!new)>(g: Graph<V>, s: State<V>, gray: set<V>, v: V, n: int)
    requires Keyed(s) && Linked(g, s, gray) && v in s.lowLinks
    ensures Linked(g, Lower(s, v, n), gray)
  {
    hide Reach;
    var t := Lower(s, v, n);
    forall y | y in t.onStack
      ensures ReachesGray(g, t, gray, y)
    {
      assert ReachesGray(g, s, gray, y);
      var w :| w in gray && s.indexes[w] <= s.indexes[y] && Reach(g, y, w);
      assert w in gray && t.indexes[w] <= t.indexes[y];
    }
  }

  lemma LowerKeepsInv<V(!new)>(g: Graph<V>, s: State<V>, gray: set<V>, v: V, n: int)
    requires Inv(g, s, gray) && v in s.lowLinks
    ensures Inv(g, Lower(s, v, n), gray)
  {
    hide Numbered, Linked, Components;
    LowerNumbered(s, v, n);
    LowerLinked(g, s, gray, v, n);
  }

  /** Neighbour on the stack: the link drops to its index. */
  lemma LookAtStacked<V(!new)>(g: Graph<V>, s0: State<V>, s: State<V>, v: V, gray: set<V>, done: set<V>, nb: V)
    requires Looping(g, s0, s, v, gray, done) && Edge(g, v, nb) && nb in s.onStack
    ensures Looping(g, s0, Lower(s, v, s.indexes[nb]), v, gray, done + {nb})
  {
    hide Reach, Components, Linked, Numbered, LinkBound, LinksTo;
    LowerKeepsInv(g, s, gray + {v}, v, s.indexes[nb]);
    StackedLinks(g, s, v, nb);
    StackedEdges(g, s0, s, v, done, nb);
  }

  lemma StackedLinks<V(!new)>(g: Graph<V>, s: State<V>, v: V, nb: V)
    requires Keyed(s) && v in s.indexes && LinksTo(g, s, v) && Edge(g, v, nb) && nb in s.onStack
    ensures LinksTo(g, Lower(s, v, s.indexes[nb]), v)
  {
    hide Reach;
    var t := Lower(s, v, s.indexes[nb]);
    ReachEdge(g, v, nb);
    var z :| z in s.onStack && s.indexes[z] == s.lowLinks[v] && Reach(g, v, z);
    var z' := if s.indexes[nb] < s.lowLinks[v] then nb else z;
    assert z' in t.onStack && t.indexes[z'] == t.lowLinks[v] && Reach(g, v, z');
  }

  lemma StackedEdges<V(!new)>(g: Graph<V>, s0: State<V>, s: State<V>, v: V, done: set<V>, nb: V)
    requires Keyed(s0) && Keyed(s) && Grows(s0, s) && v in s.indexes && LinkBound(g, s0, s, v, done) && nb in s.onStack
    ensures LinkBound(g, s0, Lower(s, v, s.indexes[nb]), v, done + {nb})
  {
  }

  /** Neighbour already in a component: nothing changes. */
  lemma LookAtFinished<V(!new)>(g: Graph<V>, s0: State<V>, s: State<V>, v: V, gray: set<V>, done: set<V>, nb: V)
    requires Looping(g, s0, s, v, gray, done) && Edge(g, v, nb) && nb in s.indexes && nb !in s.onStack
    ensures Looping(g, s0, s, v, gray, done + {nb})
  {
    hide Reach, Components, Linked;
    StackKept(s0, s);
  }

  /** A recursive visit of the neighbour may start. */
  lemma MayVisit<V(!new)>(g: Graph<V>, s0: State<V>, s: State<V>, v: V, gray: set<V>, done: set<V>, nb: V)
    requires Looping(g, s0, s, v, gray, done) && Edge(g, v, nb)
    ensures forall x | x in gray + {v} :: Reach(g, x, nb)
  {
    hide Inv, LinkBound, Grows, LinksTo;
    ReachEdge(g, v, nb);
    forall x | x in gray + {v}
      ensures Reach(g, x, nb)
    {
      if x != v {
        ReachTrans(g, x, v, nb);
      }
    }
  }

  /** ... and the link of `v` then drops to that of the neighbour. */
  lemma LookAtVisited<V(!new)>(g: Graph<V>, s0: State<V>, s: State<V>, s': State<V>, v: V, gray: set<V>,
                               done: set<V>, nb: V)
    requires Looping(g, s0, s, v, gray, done) && Edge(g, v, nb) && nb !in s.indexes
    requires Inv(g, s', gray + {v}) && Grows(s, s') && Visited(g, s, s', nb)
    ensures Looping(g, s0, Lower(s', v, s'.lowLinks[nb]), v, gray, done + {nb})
  {
    hide Reach, Components, Linked, Numbered, LinkBound, LinksTo;
    var t := Lower(s', v, s'.lowLinks[nb]);
    LowerKeepsInv(g, s', gray + {v}, v, s'.lowLinks[nb]);
    assert s0.stack + [v] <= t.stack;
    VisitedLinks(g, s, s', v, nb);
    VisitedEdges(g, s0, s, s', v, done, nb);
  }

  lemma VisitedLinks<V(!new)>(g: Graph<V>, s: State<V>, s': State<V>, v: V, nb: V)
    requires Numbered(s) && Numbered(s') && Grows(s, s') && Visited(g, s, s', nb)
    requires v in s.indexes && LinksTo(g, s, v) && s.lowLinks[v] <= s.indexes[v] && Edge(g, v, nb)
    ensures Numbered(Lower(s', v, s'.lowLinks[nb])) && LinksTo(g, Lower(s', v, s'.lowLinks[nb]), v)
  {
    hide Reach, LinkBound;
    var t := Lower(s', v, s'.lowLinks[nb]);
    LowerNumbered(s', v, s'.lowLinks[nb]);
    StackKept(s, s');
    if s'.lowLinks[nb] < s'.lowLinks[v] {
      var z :| z in s'.onStack && s'.indexes[z] == s'.lowLinks[nb] && Reach(g, nb, z);
      ReachEdge(g, v, nb);
      ReachTrans(g, v, nb, z);
      assert z in t.onStack && t.indexes[z] == t.lowLinks[v];
    } else {
      var z :| z in s.onStack && s.indexes[z] == s.lowLinks[v] && Reach(g, v, z);
      assert z in t.onStack && t.indexes[z] == t.lowLinks[v];
    }
  }

  lemma VisitedEdges<V(!new)>(g: Graph<V>, s0: State<V>, s: State<V>, s': State<V>, v: V, done: set<V>, nb: V)
    requires Numbered(s0) && Numbered(s) && Numbered(s') && Grows(s0, s) && Grows(s, s') && Visited(g, s, s', nb)
    requires v in s.indexes && LinkBound(g, s0, s, v, done) && nb !in s.indexes
    ensures LinkBound(g, s0, Lower(s', v, s'.lowLinks[nb]), v, done + {nb})
  {
    hide Reach, LinksTo;
    var t := Lower(s', v, s'.lowLinks[nb]);
    StackKept(s0, s);
    forall x, y | x in t.onStack && s0.index <= t.indexes[x] && y in s0.onStack && Edge(g, x, y)
                  && (x == v ==> y in done + {nb})
      ensures t.lowLinks[v] <= t.indexes[y]
    {
      if x in s.indexes {
        StillStacked(s, s', x);
      }
    }
  }

  /** A visited vertex on the stack later on was already on the stack. */
  lemma StillStacked<V(!new)>(s: State<V>, s': State<V>, x: V)
    requires Numbered(s) && Numbered(s') && Grows(s, s') && x in s.indexes && x in s'.onStack
    ensures x in s.onStack
  {
    if x in Union(s.result) {
      UnionPrefix(s.result, s'.result);
      assert false;
    }
  }

  lemma {:induction false} UnionPrefix<V>(r: seq<set<V>>, r': seq<set<V>>)
    requires r <= r'
    ensures Union(r) <= Union(r')
  {
    if |r| < |r'| {
      UnionPrefix(r, r'[..|r'| - 1]);
    } else {
      assert r == r';
    }
  }

  // ---------------------------------------------------------------------------
  // Leaving the visit
  // ---------------------------------------------------------------------------

  /** The link is below the index of `v`: `v` stays on the stack and reaches a gray vertex below it. */
  lemma LeaveStacked<V(!new)>(g: Graph<V>, s0: State<V>, s: State<V>, v: V, gray: set<V>, done: set<V>)
    requires Looping(g, s0, s, v, gray, done) && done == Successors(g, v)
    requires s.lowLinks[v] < s.indexes[v]
    ensures Inv(g, s, gray) && Grows(s0, s) && Visited(g, s0, s, v)
  {
    hide Reach, Components, Linked, LinkBound, LinksTo;
    assert v in s.onStack by {
      assert s.stack[|s0.stack|] == v;
    }
    GrayIsStacked(g, s, gray + {v});
    LeaveGray(g, s, v, gray);
  }

  function Successors<V(==)>(g: Graph<V>, v: V): set<V> {
    if v in g then g[v] else {}
  }

  lemma GrayBelow<V(!new)>(g: Graph<V>, s: State<V>, gray: set<V>, y: V) returns (x: V)
    requires Keyed(s) && Linked(g, s, gray) && y in s.onStack
    ensures x in gray && s.indexes[x] <= s.indexes[y] && Reach(g, y, x)
  {
    hide Reach;
    assert ReachesGray(g, s, gray, y);
    x :| x in gray && s.indexes[x] <= s.indexes[y] && Reach(g, y, x);
  }

  /** A vertex that links to a lower one need not be gray any more. */
  lemma LeaveGray<V(!new)>(g: Graph<V>, s: State<V>, v: V, gray: set<V>)
    requires Keyed(s) && Linked(g, s, gray + {v}) && Successors(g, v) <= s.indexes.Keys && gray <= s.onStack
    requires v in s.onStack && s.lowLinks[v] < s.indexes[v] && LinksTo(g, s, v)
    ensures Linked(g, s, gray)
  {
    hide Reach, ReachesGray, LinksTo;
    forall y | y in s.onStack
      ensures ReachesGray(g, s, gray, y)
    {
      LeaveGrayAt(g, s, v, gray, y);
    }
    forall x, y | x in s.indexes && x !in gray && Edge(g, x, y)
      ensures y in s.indexes
    {
      if x == v {
        assert y in Successors(g, v);
      }
    }
  }

  lemma LeaveGrayAt<V(!new)>(g: Graph<V>, s: State<V>, v: V, gray: set<V>, y: V)
    requires Keyed(s) && Linked(g, s, gray + {v}) && gray <= s.onStack && y in s.onStack
    requires v in s.onStack && s.lowLinks[v] < s.indexes[v] && LinksTo(g, s, v)
    ensures ReachesGray(g, s, gray, y)
  {
    hide Reach, Linked;
    var u := GrayBelow(g, s, gray + {v}, y);
    if u == v {
      var z :| z in s.onStack && s.indexes[z] == s.lowLinks[v] && Reach(g, v, z);
      var w := GrayBelow(g, s, gray + {v}, z);
      ReachTrans(g, v, z, w);
      ReachTrans(g, y, v, w);
    }
  }

  /** The vertices from `v` up. */
  ghost function Above<V(!new)>(s: State<V>, v: V): set<V>
    requires Numbered(s) && v in s.indexes
  {
    set x | x in s.onStack && s.indexes[v] <= s.indexes[x]
  }

  function Pop<V(==)>(s: State<V>, n: nat, scc: set<V>): State<V>
    requires n <= |s.stack|
  {
    s.(stack := s.stack[..n], onStack := s.onStack - scc, result := s.result + [scc])
  }

  /** No edge leaves the popped vertices except into finished components. */
  lemma PoppedIsClosed<V(!new)>(g: Graph<V>, s0: State<V>, s: State<V>, v: V, gray: set<V>, done: set<V>)
    requires Looping(g, s0, s, v, gray, done) && done == Successors(g, v)
    requires s.lowLinks[v] == s.indexes[v]
    ensures EdgesStayIn(g, Above(s, v), Above(s, v) + Union(s.result))
  {
    hide Reach, Components, LinksTo;
    forall x, y | x in Above(s, v) && Edge(g, x, y)
      ensures y in Above(s, v) + Union(s.result)
    {
      assert x !in gray by {
        assert x in gray ==> x in s0.onStack;
      }
      assert y in s.indexes;
      if y in s.onStack && s.indexes[y] < s.indexes[v] {
        BelowIsOld(s0, s, v, y);
        assert false;
      }
    }
  }

  lemma BelowIsOld<V(!new)>(s0: State<V>, s: State<V>, v: V, y: V)
    requires Numbered(s0) && Numbered(s) && Grows(s0, s) && y in s.onStack && s.indexes[y] < s0.index
    ensures y in s0.onStack
  {
    StillStacked(s0, s, y);
  }

  lemma {:induction false} FinishedIsClosed<V(!new)>(g: Graph<V>, r: seq<set<V>>, n: nat)
    requires Components(g, r) && n <= |r|
    ensures EdgesStayIn(g, Union(r[..n]), Union(r[..n]))
  {
    if n > 0 {
      FinishedIsClosed(g, r, n - 1);
      assert r[..n][..n - 1] == r[..n - 1];
      assert EdgesStayIn(g, r[n - 1], Union(r[..n - 1 + 1]));
    }
  }

  lemma PoppedIsScc<V(!new)>(g: Graph<V>, s0: State<V>, s: State<V>, v: V, gray: set<V>, done: set<V>)
    requires Looping(g, s0, s, v, gray, done) && done == Successors(g, v)
    requires s.lowLinks[v] == s.indexes[v]
    ensures IsScc(g, Above(s, v))
  {
    hide Reach, Components, LinkBound, Grows, LinksTo;
    var c := Above(s, v);
    assert v in s.onStack by {
      assert s.stack[|s0.stack|] == v;
    }
    forall x | x in c
      ensures Reach(g, v, x) && Reach(g, x, v)
    {
      assert ReachesGray(g, s, gray + {v}, x);
      var w :| w in gray + {v} && s.indexes[w] <= s.indexes[x] && Reach(g, x, w);
      if w != v {
        ReachTrans(g, x, w, v);
      }
    }
    forall x, y: V | x in c
      ensures y in c <==> Reach(g, x, y) && Reach(g, y, x)
    {
      if y in c {
        ReachTrans(g, x, v, y);
        ReachTrans(g, y, v, x);
      }
      if Reach(g, x, y) && Reach(g, y, x) {
        PoppedIsClosed(g, s0, s, v, gray, done);
        FinishedIsClosed(g, s.result, |s.result|);
        assert s.result[..|s.result|] == s.result;
        ClosedUnderReach(g, c + Union(s.result), x, y);
        if y !in c {
          ClosedUnderReach(g, Union(s.result), y, x);
          assert false;
        }
      }
    }
  }

  lemma AppendComponent<V(!new)>(g: Graph<V>, r: seq<set<V>>, c: set<V>)
    requires Components(g, r) && IsScc(g, c) && c !! Union(r) && EdgesStayIn(g, c, c + Union(r))
    ensures Components(g, r + [c]) && Union(r + [c]) == Union(r) + c
  {
    UnionAppend(r, c);
    var r' := r + [c];
    forall k | 0 <= k < |r'|
      ensures EdgesStayIn(g, r'[k], Union(r'[..k + 1]))
    {
      if k < |r| {
        assert r'[..k + 1] == r[..k + 1];
      } else {
        assert r'[..k + 1] == r';
      }
    }
    forall j, k | 0 <= j < k < |r'|
      ensures r'[j] !! r'[k]
    {
      if k == |r| {
        forall x | x in r[j] ensures x in Union(r) {
          UnionHasElement(r, x);
        }
      }
    }
  }

  /** Popping down to `v` yields its component and restores the state before the visit. */
  lemma LeavePopped<V(!new)>(g: Graph<V>, s0: State<V>, s: State<V>, v: V, gray: set<V>, done: set<V>)
    requires Looping(g, s0, s, v, gray, done) && done == Successors(g, v)
    requires s.lowLinks[v] == s.indexes[v]
    ensures var t := Pop(s, |s0.stack|, Above(s, v));
            Inv(g, t, gray) && Grows(s0, t) && Visited(g, s0, t, v)
  {
    hide Reach, Components, IsScc, EdgesStayIn, Linked, LinksTo;
    PoppedIsScc(g, s0, s, v, gray, done);
    PoppedIsClosed(g, s0, s, v, gray, done);
    AppendComponent(g, s.result, Above(s, v));
    PopNumbered(s0, s, v);
    assert gray <= s0.onStack by {
      GrayIsStacked(g, s0, gray);
    }
    PopLinked(g, s0, s, v, gray);
    var t := Pop(s, |s0.stack|, Above(s, v));
    assert v !in t.onStack;
  }

  lemma GrayIsStacked<V(!new)>(g: Graph<V>, s: State<V>, gray: set<V>)
    requires Keyed(s) && Linked(g, s, gray)
    ensures gray <= s.onStack
  {
  }

  lemma PopLinked<V(!new)>(g: Graph<V>, s0: State<V>, s: State<V>, v: V, gray: set<V>)
    requires Keyed(s) && Linked(g, s, gray + {v}) && Successors(g, v) <= s.indexes.Keys
    requires |s0.stack| <= |s.stack| && gray <= s0.onStack <= s.onStack && v in s.indexes
    requires forall x | x in s.onStack :: x in s0.onStack <==> s.indexes[x] < s.indexes[v]
    ensures Linked(g, Pop(s, |s0.stack|, s.onStack - s0.onStack), gray)
  {
    hide Reach;
    var t := Pop(s, |s0.stack|, s.onStack - s0.onStack);
    forall y | y in t.onStack
      ensures ReachesGray(g, t, gray, y)
    {
      assert ReachesGray(g, s, gray + {v}, y);
      var w :| w in gray + {v} && s.indexes[w] <= s.indexes[y] && Reach(g, y, w);
      assert w in gray && t.indexes[w] <= t.indexes[y];
    }
  }

  lemma PopNumbered<V(!new)>(s0: State<V>, s: State<V>, v: V)
    requires Numbered(s0) && Numbered(s) && Grows(s0, s) && v in s.indexes && s.indexes[v] == s0.index
    requires s0.stack + [v] <= s.stack
    ensures var t := Pop(s, |s0.stack|, Above(s, v)); Numbered(t) && t.stack == s0.stack && t.onStack == s0.onStack
    ensures Above(s, v) == s.onStack - s0.onStack && s0.onStack <= s.onStack
    ensures forall x | x in s.onStack :: x in s0.onStack <==> s.indexes[x] < s0.index
  {
    UnionAppend(s.result, Above(s, v));
    var t := Pop(s, |s0.stack|, Above(s, v));
    StackKept(s0, s);
    forall x | x in s.onStack
      ensures x in s0.onStack <==> s.indexes[x] < s0.index
    {
      if s.indexes[x] < s0.index {
        BelowIsOld(s0, s, v, x);
      }
    }
    assert t.stack == s0.stack;
    assert t.onStack == s0.onStack;
    assert t.indexes.Keys == t.onStack + Union(t.result);
  }

  /** The stack from position `n` up, as a set. */
  lemma AboveIsSuffix<V(!new)>(s: State<V>, n: nat)
    requires Numbered(s) && n < |s.stack|
    ensures (set i | n <= i < |s.stack| :: s.stack[i]) == Above(s, s.stack[n])
    ensures forall i | n < i < |s.stack| :: s.stack[i] != s.stack[n]
  {
    forall i | 0 <= i < |s.stack|
      ensures s.stack[i] in s.onStack && (n <= i <==> s.stack[i] in Above(s, s.stack[n]))
    {
      assert s.stack[i] in s.stack && s.stack[n] in s.stack;
    }
  }

  // ---------------------------------------------------------------------------
  // The algorithm
  // ---------------------------------------------------------------------------

  /** Endpoints of the edges; an isolated key of the map is not one. */
  ghost function Endpoints<V>(g: Graph<V>): set<V> {
    (set x | x in g && g[x] != {} :: x) + (set x, y | x in g && y in g[x] :: y)
  }

  class Tarjan<V(==, !new)> {
    const graph: Graph<V>
    var index: int
    var stack: seq<V>
    var indexes: map<V, int>
    var lowLinks: map<V, int>
    var onStack: set<V>
    var result: seq<set<V>>

    ghost function Snapshot(): State<V>
      reads this
    {
      State(index, stack, indexes, lowLinks, onStack, result)
    }

    constructor (g: Graph<V>)
      ensures graph == g && index == 0
      ensures Inv(g, Snapshot(), {}) && indexes == map[]
    {
      graph := g;
      index, stack, indexes, lowLinks, onStack, result := 0, [], map[], map[], {}, [];
    }

    method StrongConnect(v: V, ghost gray: set<V>)
      requires Inv(graph, Snapshot(), gray) && 0 <= index
      requires v in Endpoints(graph) - indexes.Keys
      requires forall x | x in gray :: Reach(graph, x, v)
      modifies this
      ensures Inv(graph, Snapshot(), gray) && Grows(old(Snapshot()), Snapshot())
      ensures Visited(graph, old(Snapshot()), Snapshot(), v)
      ensures indexes.Keys <= old(indexes).Keys + Endpoints(graph)
      decreases Endpoints(graph) - indexes.Keys, 1
    {
      hide Reach, Components, Linked, Numbered, LinkBound, LinksTo, Visited;
      ghost var s0 := Snapshot();
      PushStartsLoop(graph, s0, gray, v);
      indexes := indexes[v := index];
      lowLinks := lowLinks[v := index];
      index := index + 1;
      stack := stack + [v];
      onStack := onStack + {v};
      assert Snapshot() == Push(s0, v);

      LookAtAll(v, s0, gray);
      ghost var s := Snapshot();
      if lowLinks[v] == indexes[v] {
        LeavePopped(graph, s0, s, v, gray, Successors(graph, v));
        assert stack[|s0.stack|] == v;
        PopComponent(v, |s0.stack|);
      } else {
        LeaveStacked(graph, s0, s, v, gray, Successors(graph, v));
      }
    }

    /** The loop over the neighbours of `v`. */
    method LookAtAll(v: V, ghost s0: State<V>, ghost gray: set<V>)
      requires Looping(graph, s0, Snapshot(), v, gray, {}) && 0 <= s0.index
      modifies this
      ensures Looping(graph, s0, Snapshot(), v, gray, Successors(graph, v))
      ensures indexes.Keys <= old(indexes).Keys + Endpoints(graph)
      decreases Endpoints(graph) - indexes.Keys, 3
    {
      hide Reach, Components, Linked, Numbered, LinkBound, LinksTo, Visited;
      if v in graph {
        var todo := graph[v];
        assert graph[v] - todo == {};
        while todo != {}
          invariant todo <= graph[v]
          invariant Looping(graph, s0, Snapshot(), v, gray, graph[v] - todo)
          invariant old(indexes).Keys <= indexes.Keys <= old(indexes).Keys + Endpoints(graph)
        {
          var neighbor :| neighbor in todo;
          Look(v, neighbor, s0, gray, graph[v] - todo);
          assert graph[v] - todo + {neighbor} == graph[v] - (todo - {neighbor});
          todo := todo - {neighbor};
        }
        assert graph[v] - todo == graph[v];
      }
    }

    /** One turn of the loop over the neighbours of `v`. */
    method Look(v: V, neighbor: V, ghost s0: State<V>, ghost gray: set<V>, ghost done: set<V>)
      requires Looping(graph, s0, Snapshot(), v, gray, done) && Edge(graph, v, neighbor) && 0 <= s0.index
      modifies this
      ensures Looping(graph, s0, Snapshot(), v, gray, done + {neighbor})
      ensures old(indexes).Keys <= indexes.Keys <= old(indexes).Keys + Endpoints(graph)
      decreases Endpoints(graph) - indexes.Keys, 2
    {
      hide Reach, Components, Linked, Numbered, LinkBound, LinksTo;
      ghost var s := Snapshot();
      if neighbor !in indexes {
        MayVisit(graph, s0, s, v, gray, done, neighbor);
        StrongConnect(neighbor, gray + {v});
        LookAtVisited(graph, s0, s, Snapshot(), v, gray, done, neighbor);
        lowLinks := lowLinks[v := if lowLinks[neighbor] < lowLinks[v] then lowLinks[neighbor] else lowLinks[v]];
      } else if neighbor in onStack {
        LookAtStacked(graph, s0, s, v, gray, done, neighbor);
        lowLinks := lowLinks[v := if indexes[neighbor] < lowLinks[v] then indexes[neighbor] else lowLinks[v]];
      } else {
        LookAtFinished(graph, s0, s, v, gray, done, neighbor);
      }
    }

    /** Pops the stack down to and including `v`, at position `n`. */
    method PopComponent(v: V, ghost n: nat)
      requires Numbered(Snapshot()) && n < |stack| && stack[n] == v
      modifies this`stack, this`onStack, this`result
      ensures Snapshot() == Pop(old(Snapshot()), n, Above(old(Snapshot()), v))
    {
      ghost var s := Snapshot();
      AboveIsSuffix(s, n);
      hide Numbered;
      var scc: set<V> := {};
      var w := v;
      while true
        invariant n < |stack| && stack <= s.stack
        invariant scc == set i | |stack| <= i < |s.stack| :: s.stack[i]
        invariant onStack == s.onStack - scc && result == s.result
        decreases |stack|
      {
        w := stack[|stack| - 1];
        stack := stack[..|stack| - 1];
        onStack := onStack - {w};
        scc := scc + {w};
        if w == v { break; }
      }
      assert stack == s.stack[..n] && scc == Above(s, v);
      result := result + [scc];
    }
  }

  /** Vertices of an earlier component do not reach a later one. */
  lemma ComponentsAreOrdered<V(!new)>(g: Graph<V>, r: seq<set<V>>, j: nat, k: nat, x: V, y: V)
    requires Components(g, r) && j < k < |r| && x in r[j] && y in r[k]
    ensures !Reach(g, x, y)
  {
    hide Reach, IsScc;
    assert y !in Union(r[..j + 1]) by {
      UnionHasElement(r[..j + 1], y);
      assert forall i | 0 <= i <= j :: r[i] !! r[k];
    }
    if Reach(g, x, y) {
      FinishedIsClosed(g, r, j + 1);
      UnionHasElement(r[..j + 1], x);
      assert x in r[..j + 1][j];
      ClosedUnderReach(g, Union(r[..j + 1]), x, y);
    }
  }

  /** When no visit is under way the stack is empty. */
  lemma NoGrayNoStack<V(!new)>(g: Graph<V>, s: State<V>)
    requires Inv(g, s, {})
    ensures s.indexes.Keys == Union(s.result)
  {
    hide Reach, Components;
    if x :| x in s.onStack {
      var w := GrayBelow(g, s, {}, x);
    }
  }

  /** Tarjan's algorithm finds exactly the strongly connected components on the endpoints of edges,
      each after every other component that it can reach. */
  method StronglyConnectedComponents<V(==, !new)>(graph: Graph<V>) returns (result: seq<set<V>>)
    ensures Union(result) == Endpoints(graph)
    ensures forall k | 0 <= k < |result| :: IsScc(graph, result[k])
    ensures forall j, k | 0 <= j < k < |result| :: result[j] !! result[k]
    ensures forall j, k, x, y | 0 <= j < k < |result| && x in result[j] && y in result[k] :: !Reach(graph, x, y)
  {
    hide Reach, Numbered, Linked, IsScc, Visited;
    var vertices: set<V> := (set x | x in graph && graph[x] != {} :: x) + (set x, y | x in graph && y in graph[x] :: y);
    var t := new Tarjan<V>(graph);
    var todo := vertices;
    while todo != {}
      invariant todo <= vertices
      invariant fresh(t) && t.graph == graph && 0 <= t.index
      invariant Inv(graph, t.Snapshot(), {})
      invariant vertices - todo <= t.indexes.Keys <= vertices
    {
      var vertex :| vertex in todo;
      if vertex !in t.indexes {
        VisitAll(t, vertex);
      }
      todo := todo - {vertex};
    }
    result := t.result;
    NoGrayNoStack(graph, t.Snapshot());
    forall j, k, x, y | 0 <= j < k < |result| && x in result[j] && y in result[k]
      ensures !Reach(graph, x, y)
    {
      ComponentsAreOrdered(graph, result, j, k, x, y);
    }
  }

  method VisitAll<V(==, !new)>(t: Tarjan<V>, vertex: V)
    requires Inv(t.graph, t.Snapshot(), {}) && 0 <= t.index
    requires vertex in Endpoints(t.graph) - t.indexes.Keys && t.indexes.Keys <= Endpoints(t.graph)
    modifies t
    ensures Inv(t.graph, t.Snapshot(), {}) && 0 <= t.index
    ensures old(t.indexes).Keys + {vertex} <= t.indexes.Keys <= Endpoints(t.graph)
  {
    hide Reach, Numbered, Linked, Components;
    t.StrongConnect(vertex, {});
  }
}
