/**
 Kahn's topological sort and all-pairs longest paths, as in
 xls/data_structures/graph_contraction.h, on the quotient graph that vertex identification leaves.
 */
module LongestPaths {
  import opened Collections
  import opened Graphs
  import opened Options

  /** Vertices with weights, and edges in both directions. */
  datatype Quotient<V> = Quotient(vertices: set<V>, weight: map<V, int>, out: Graph<V>, into: Graph<V>)

  /** Every vertex has its entries, and the two edge maps agree. */
  ghost predicate Consistent<V(!new)>(q: Quotient<V>) {
    && q.weight.Keys == q.out.Keys == q.into.Keys == q.vertices
    && (forall x, y :: Edge(q.out, x, y) <==> Edge(q.into, y, x))
  }

  /** Every vertex once, edges going forward. */
  ghost predicate IsTopologicalOrder<V(!new)>(q: Quotient<V>, order: seq<V>) {
    && (forall x :: x in order <==> x in q.vertices)
    && Distinct(order)
    && (forall i, j | 0 <= i < |order| && 0 <= j < |order| && Edge(q.out, order[i], order[j]) :: i < j)
  }

  ghost predicate Distinct<V>(s: seq<V>) {
    forall i, j | 0 <= i < j < |s| :: s[i] != s[j]
  }

  ghost function Elements<V>(s: seq<V>): set<V> {
    set x | x in s
  }

  lemma {:induction false} DistinctSize<V>(s: seq<V>)
    requires Distinct(s)
    ensures |Elements(s)| == |s|
  {
    if s != [] {
      var t := s[..|s| - 1];
      DistinctSize(t);
      assert Elements(s) == Elements(t) + {s[|s| - 1]};
      assert s[|s| - 1] !in t;
    }
  }

  // ---------------------------------------------------------------------------
  // Orders and cycles
  // ---------------------------------------------------------------------------

  lemma {:induction false} OrderGrowsAlongPath<V(!new)>(q: Quotient<V>, order: seq<V>, p: seq<V>, i: nat, j: nat)
    requires Consistent(q) && IsTopologicalOrder(q, order) && IsPath(q.out, p)
    requires i < |order| && j < |order| && p[0] == order[i] && p[|p| - 1] == order[j]
    ensures i <= j && (|p| > 1 ==> i < j)
    decreases |p|
  {
    if |p| > 1 {
      assert Edge(q.out, p[0], p[1]);
      assert Edge(q.into, p[1], p[0]);
      var k :| 0 <= k < |order| && order[k] == p[1];
      assert Edge(q.out, order[i], order[k]);
      OrderGrowsAlongPath(q, order, p[1..], k, j);
    }
  }

  /** A graph with a topological order has no cycle. */
  lemma OrderMeansAcyclic<V(!new)>(q: Quotient<V>, order: seq<V>)
    requires Consistent(q) && IsTopologicalOrder(q, order)
    ensures !Cyclic(q.out)
  {
    if x, y :| Edge(q.out, x, y) && Reach(q.out, y, x) {
      var p: seq<V> :| PathFromTo(q.out, p, y, x);
      assert Edge(q.into, y, x);
      var i :| 0 <= i < |order| && order[i] == x;
      var j :| 0 <= j < |order| && order[j] == y;
      assert Edge(q.out, order[i], order[j]);
      OrderGrowsAlongPath(q, order, p, j, i);
    }
  }

  ghost predicate EachHasPredecessor<V(!new)>(g: Graph<V>, s: set<V>) {
    forall y | y in s :: HasPredecessorIn(g, s, y)
  }

  ghost predicate HasPredecessorIn<V(!new)>(g: Graph<V>, s: set<V>, y: V) {
    exists x :: x in s && Edge(g, x, y)
  }

  lemma {:induction false} LongWalk<V(!new)>(g: Graph<V>, s: set<V>, n: nat) returns (p: seq<V>)
    requires EachHasPredecessor(g, s) && s != {}
    ensures |p| == n + 1 && IsPath(g, p) && In(p, s)
  {
    if n == 0 {
      var x :| x in s;
      p := [x];
    } else {
      var p0 := LongWalk(g, s, n - 1);
      assert HasPredecessorIn(g, s, p0[0]);
      var x :| x in s && Edge(g, x, p0[0]);
      p := [x] + p0;
      forall i | 0 <= i < |p| - 1
        ensures Edge(g, p[i], p[i + 1])
      {
        if i > 0 {
          assert Edge(g, p0[i - 1], p0[i]);
        }
      }
    }
  }

  /** A non-empty set in which every vertex has a predecessor holds a cycle. */
  lemma NoSourceMeansCyclic<V(!new)>(g: Graph<V>, s: set<V>)
    requires EachHasPredecessor(g, s) && s != {}
    ensures Cyclic(g)
  {
    var p := LongWalk(g, s, |s|);
    LongPathIsCyclic(g, p, s);
  }

  // ---------------------------------------------------------------------------
  // Kahn's algorithm
  // ---------------------------------------------------------------------------

  /** Listed vertices come after all their predecessors. */
  ghost predicate Listed<V(!new)>(q: Quotient<V>, result: seq<V>)
    requires Consistent(q)
  {
    forall j | 0 <= j < |result| :: result[j] in q.vertices && q.into[result[j]] <= Elements(result[..j])
  }

  /** The sequence lists the set without repetition. */
  ghost predicate Lists<V(!new)>(s: seq<V>, elements: set<V>) {
    Distinct(s) && Elements(s) == elements
  }

  lemma ListsAppend<V(!new)>(s: seq<V>, elements: set<V>, x: V)
    requires Lists(s, elements) && x !in elements
    ensures Lists(s + [x], elements + {x})
  {
    assert x !in s by {
      assert x in s ==> x in Elements(s);
    }
  }

  lemma ListsPop<V(!new)>(s: seq<V>, elements: set<V>)
    requires Lists(s, elements) && s != []
    ensures var x := s[|s| - 1]; x in elements && Lists(s[..|s| - 1], elements - {x})
  {
    var x := s[|s| - 1];
    assert s[..|s| - 1] + [x] == s;
    assert x in s;
  }

  /** Every count is the size of what remains, and the vertices in `known` are those with count zero. */
  ghost predicate Counted<V(!new)>(q: Quotient<V>, count: map<V, int>, remaining: map<V, set<V>>, known: set<V>) {
    && count.Keys == remaining.Keys == q.vertices
    && (forall y {:trigger count[y]} | y in count :: count[y] == |remaining[y]| && (y in known <==> count[y] == 0))
  }

  /** Predecessors outside `listed`. */
  ghost function Unlisted<V(!new)>(q: Quotient<V>, listed: set<V>): (m: map<V, set<V>>)
    requires Consistent(q)
  {
    map y | y in q.vertices :: q.into[y] - listed
  }

  /** Predecessors not counted down yet, while the targets of `source` are being visited. */
  ghost function Remaining<V(!new)>(q: Quotient<V>, listed: set<V>, source: V, handled: set<V>): (m: map<V, set<V>>)
    requires Consistent(q)
  {
    map y | y in q.vertices :: if y in handled then q.into[y] - listed - {source} else q.into[y] - listed
  }

  /** Between visits: `listed` is the result so far and `waiting` the active vertices. */
  ghost predicate Sorting<V(!new)>(q: Quotient<V>, result: seq<V>, listed: set<V>, active: seq<V>, waiting: set<V>,
                                   count: map<V, int>)
    requires Consistent(q)
  {
    && Lists(result, listed) && Lists(active, waiting) && listed !! waiting && listed + waiting <= q.vertices
    && Counted(q, count, Unlisted(q, listed), listed + waiting)
    && Listed(q, result)
  }

  /** While the targets of `source`, the next to be listed, are being visited. */
  ghost predicate Visiting<V(!new)>(q: Quotient<V>, listed: set<V>, source: V, active: seq<V>, waiting: set<V>,
                                    count: map<V, int>, handled: set<V>)
    requires Consistent(q)
  {
    && source in q.vertices && source !in listed && source !in waiting && handled <= q.out[source]
    && Lists(active, waiting) && listed !! waiting && listed + waiting <= q.vertices
    && Counted(q, count, Remaining(q, listed, source, handled), listed + {source} + waiting)
  }

  lemma NothingHandled<V(!new)>(q: Quotient<V>, listed: set<V>, source: V)
    requires Consistent(q)
    ensures Remaining(q, listed, source, {}) == Unlisted(q, listed)
  {
  }

  lemma AllHandled<V(!new)>(q: Quotient<V>, listed: set<V>, source: V)
    requires Consistent(q) && source in q.vertices
    ensures Remaining(q, listed, source, q.out[source]) == Unlisted(q, listed + {source})
  {
    forall y | y in q.vertices
      ensures Remaining(q, listed, source, q.out[source])[y] == Unlisted(q, listed + {source})[y]
    {
      assert Edge(q.out, source, y) <==> Edge(q.into, y, source);
    }
  }

  lemma OneHandled<V(!new)>(q: Quotient<V>, listed: set<V>, source: V, handled: set<V>, target: V)
    requires Consistent(q) && source in q.vertices && source !in listed && target in q.out[source] - handled
    ensures target in q.vertices
    ensures var before, after := Remaining(q, listed, source, handled), Remaining(q, listed, source, handled + {target});
            && |before[target]| == |after[target]| + 1
            && after == before[target := after[target]]
  {
    assert Edge(q.out, source, target) && Edge(q.into, target, source);
    var before, after := Remaining(q, listed, source, handled), Remaining(q, listed, source, handled + {target});
    assert before[target] == after[target] + {source};
  }

  lemma StartVisit<V(!new)>(q: Quotient<V>, result: seq<V>, listed: set<V>, active: seq<V>, waiting: set<V>,
                            count: map<V, int>)
    requires Consistent(q) && Sorting(q, result, listed, active, waiting, count) && active != []
    ensures var source := active[|active| - 1];
            && Visiting(q, listed, source, active[..|active| - 1], waiting - {source}, count, {})
            && Listed(q, result + [source]) && Lists(result + [source], listed + {source})
  {
    hide Listed, Lists, Counted, Unlisted, Remaining;
    var source := active[|active| - 1];
    ListsPop(active, waiting);
    ListsAppend(result, listed, source);
    NothingHandled(q, listed, source);
    assert listed + {source} + (waiting - {source}) == listed + waiting;
    WaitingHasNone(q, listed, waiting, count, source);
    ListOne(q, result, listed, source);
  }

  lemma WaitingHasNone<V(!new)>(q: Quotient<V>, listed: set<V>, waiting: set<V>, count: map<V, int>, source: V)
    requires Consistent(q) && Counted(q, count, Unlisted(q, listed), listed + waiting) && source in waiting
    requires source in q.vertices
    ensures q.into[source] <= listed
  {
    assert count[source] == 0;
    assert Unlisted(q, listed)[source] == {};
    assert q.into[source] - listed == {};
    forall x | x in q.into[source]
      ensures x in listed
    {
      assert x in q.into[source] - listed || x in listed;
    }
  }

  lemma ListOne<V(!new)>(q: Quotient<V>, result: seq<V>, listed: set<V>, source: V)
    requires Consistent(q) && Listed(q, result) && Lists(result, listed)
    requires source in q.vertices && q.into[source] <= listed
    ensures Listed(q, result + [source])
  {
    var r := result + [source];
    forall j | 0 <= j < |r|
      ensures r[j] in q.vertices && q.into[r[j]] <= Elements(r[..j])
    {
      assert r[..j] == result[..j];
      assert j == |result| ==> result[..j] == result;
    }
  }

  /** Counting down one target. */
  lemma CountDown<V(!new)>(q: Quotient<V>, listed: set<V>, source: V, active: seq<V>, waiting: set<V>,
                           count: map<V, int>, handled: set<V>, target: V)
    requires Consistent(q) && Visiting(q, listed, source, active, waiting, count, handled)
    requires target in q.out[source] - handled
    ensures target in count
    ensures var count' := count[target := count[target] - 1];
            if count'[target] == 0 then
              Visiting(q, listed, source, active + [target], waiting + {target}, count', handled + {target})
            else
              Visiting(q, listed, source, active, waiting, count', handled + {target})
  {
    hide Lists, Remaining, Consistent;
    OneHandled(q, listed, source, handled, target);
    assert count[target] > 0;
    if count[target] == 1 {
      ListsAppend(active, waiting, target);
      assert listed + {source} + (waiting + {target}) == listed + {source} + waiting + {target};
    }
  }

  lemma EndVisit<V(!new)>(q: Quotient<V>, result: seq<V>, listed: set<V>, source: V, active: seq<V>, waiting: set<V>,
                          count: map<V, int>)
    requires Consistent(q) && source in q.vertices
    requires Visiting(q, listed, source, active, waiting, count, q.out[source])
    requires Listed(q, result + [source]) && Lists(result + [source], listed + {source})
    ensures Sorting(q, result + [source], listed + {source}, active, waiting, count)
  {
    hide Lists, Listed, Counted, Remaining, Unlisted;
    AllHandled(q, listed, source);
  }

  method InitialCounts<V(==, !new)>(q: Quotient<V>) returns (active: seq<V>, count: map<V, int>, ghost waiting: set<V>)
    requires Consistent(q)
    ensures Sorting(q, [], {}, active, waiting, count)
  {
    hide Lists, Unlisted;
    active, count, waiting := [], map[], {};
    EmptyLists<V>();
    var todo := q.vertices;
    while todo != {}
      invariant todo <= q.vertices && count.Keys == q.vertices - todo && waiting <= count.Keys
      invariant Lists(active, waiting)
      invariant forall y {:trigger count[y]} | y in count :: count[y] == |q.into[y]| && (y in waiting <==> count[y] == 0)
    {
      var vertex :| vertex in todo;
      todo := todo - {vertex};
      count := count[vertex := |q.into[vertex]|];
      if count[vertex] == 0 {
        ListsAppend(active, waiting, vertex);
        active := active + [vertex];
        waiting := waiting + {vertex};
      }
    }
    NothingListed(q);
    assert {} + waiting == waiting;
  }

  lemma NothingListed<V(!new)>(q: Quotient<V>)
    requires Consistent(q)
    ensures Unlisted(q, {}) == q.into && Listed(q, [])
  {
    assert forall y | y in q.vertices :: Unlisted(q, {})[y] == q.into[y];
  }

  lemma EmptyLists<V(!new)>()
    ensures Lists<V>([], {})
  {
  }

  method VisitTargets<V(==, !new)>(q: Quotient<V>, ghost listed: set<V>, source: V, active0: seq<V>,
                                   ghost waiting0: set<V>, count0: map<V, int>)
    returns (active: seq<V>, count: map<V, int>, ghost waiting: set<V>)
    requires Consistent(q) && source in q.vertices && Visiting(q, listed, source, active0, waiting0, count0, {})
    ensures Visiting(q, listed, source, active, waiting, count, q.out[source])
  {
    hide Visiting;
    active, count, waiting := active0, count0, waiting0;
    var todo := q.out[source];
    assert q.out[source] - todo == {};
    while todo != {}
      invariant todo <= q.out[source]
      invariant Visiting(q, listed, source, active, waiting, count, q.out[source] - todo)
    {
      var target :| target in todo;
      CountDown(q, listed, source, active, waiting, count, q.out[source] - todo, target);
      assert q.out[source] - todo + {target} == q.out[source] - (todo - {target});
      todo := todo - {target};
      count := count[target := count[target] - 1];
      if count[target] == 0 {
        active := active + [target];
        waiting := waiting + {target};
      }
    }
    assert q.out[source] - todo == q.out[source];
  }

  /** What is listed when nothing waits any more: everything, in order, or else there is a cycle. */
  lemma NothingWaits<V(!new)>(q: Quotient<V>, result: seq<V>, listed: set<V>, waiting: set<V>, count: map<V, int>)
    requires Consistent(q) && Sorting(q, result, listed, [], waiting, count)
    ensures if |result| == |q.vertices| then IsTopologicalOrder(q, result) else Cyclic(q.out)
  {
    hide Listed, Cyclic, IsTopologicalOrder;
    DistinctSize(result);
    assert waiting == {};
    hide Lists;
    if |result| == |q.vertices| {
      SubsetSmaller(listed, q.vertices);
      ListedIsOrder(q, result, listed);
    } else {
      var rest := q.vertices - listed;
      assert rest != {};
      forall y | y in rest
        ensures HasPredecessorIn(q.out, rest, y)
      {
        assert count[y] != 0 && Unlisted(q, listed)[y] != {};
        var x :| x in q.into[y] - listed;
        assert Edge(q.into, y, x) && Edge(q.out, x, y);
      }
      NoSourceMeansCyclic(q.out, rest);
    }
  }

  lemma ListedIsOrder<V(!new)>(q: Quotient<V>, result: seq<V>, listed: set<V>)
    requires Consistent(q) && Listed(q, result) && Lists(result, listed) && listed == q.vertices
    ensures IsTopologicalOrder(q, result)
  {
    forall x
      ensures x in result <==> x in q.vertices
    {
      assert x in Elements(result) <==> x in result;
    }
    forall i, j | 0 <= i < |result| && 0 <= j < |result| && Edge(q.out, result[i], result[j])
      ensures i < j
    {
      assert Edge(q.into, result[j], result[i]);
      assert result[i] in Elements(result[..j]);
      var k :| 0 <= k < j && result[..j][k] == result[i];
      assert result[k] == result[i];
    }
  }

  /** A topological sort is returned exactly when the graph has no cycle. */
  method TopologicalSort<V(==, !new)>(q: Quotient<V>) returns (r: Option<seq<V>>)
    requires Consistent(q)
    ensures r.None? <==> Cyclic(q.out)
    ensures r.Some? ==> IsTopologicalOrder(q, r.value)
  {
    hide Cyclic, Listed, Counted, IsTopologicalOrder, Lists;
    var result: seq<V> := [];
    ghost var listed: set<V> := {};
    var active, count, waiting := InitialCounts(q);
    while active != []
      invariant Sorting(q, result, listed, active, waiting, count)
      decreases q.vertices - listed
    {
      StartVisit(q, result, listed, active, waiting, count);
      var source := active[|active| - 1];
      active := active[..|active| - 1];
      active, count, waiting := VisitTargets(q, listed, source, active, waiting - {source}, count);
      EndVisit(q, result, listed, source, active, waiting, count);
      result, listed := result + [source], listed + {source};
    }
    NothingWaits(q, result, listed, waiting, count);
    if |result| != |q.vertices| {
      return None;
    }
    OrderMeansAcyclic(q, result);
    return Some(result);
  }

  // ---------------------------------------------------------------------------
  // Longest paths
  // ---------------------------------------------------------------------------

  ghost predicate Inside<V>(q: Quotient<V>, p: seq<V>) {
    forall i | 0 <= i < |p| :: p[i] in q.weight
  }

  /** Total vertex weight along a path. */
  ghost function Weight<V>(q: Quotient<V>, p: seq<V>): int
    requires Inside(q, p)
  {
    if p == [] then 0 else Weight(q, p[..|p| - 1]) + q.weight[p[|p| - 1]]
  }

  ghost predicate IsPathIn<V(!new)>(q: Quotient<V>, p: seq<V>, s: V, t: V) {
    PathFromTo(q.out, p, s, t) && Inside(q, p)
  }

  /** `d` is the greatest weight of a path from `s` to `t`. */
  ghost predicate IsLongest<V(!new)>(q: Quotient<V>, s: V, t: V, d: int) {
    && (exists p: seq<V> :: IsPathIn(q, p, s, t) && Weight(q, p) == d)
    && (forall p: seq<V> | IsPathIn(q, p, s, t) :: Weight(q, p) <= d)
  }

  /** A path that starts at a vertex stays among the vertices. */
  lemma {:induction false} PathInside<V(!new)>(q: Quotient<V>, p: seq<V>)
    requires Consistent(q) && IsPath(q.out, p) && p[0] in q.vertices
    ensures Inside(q, p)
  {
    forall i | 0 <= i < |p|
      ensures p[i] in q.weight
    {
      if i > 0 {
        assert Edge(q.out, p[i - 1], p[i - 1 + 1]);
        assert Edge(q.into, p[i], p[i - 1]);
      }
    }
  }

  /** A path of more than one vertex is a path to a predecessor, and the last vertex. */
  lemma PathSplits<V(!new)>(q: Quotient<V>, p: seq<V>, s: V, t: V) returns (u: V, p0: seq<V>)
    requires Consistent(q) && IsPathIn(q, p, s, t) && |p| > 1
    ensures p == p0 + [t] && IsPathIn(q, p0, s, u) && Edge(q.out, u, t) && u in q.into[t] && t in q.vertices
    ensures Weight(q, p) == Weight(q, p0) + q.weight[t]
  {
    p0 := p[..|p| - 1];
    u := p0[|p0| - 1];
    assert Edge(q.out, p[|p| - 2], p[|p| - 2 + 1]);
    assert Edge(q.into, t, u);
    forall i | 0 <= i < |p0| - 1
      ensures Edge(q.out, p0[i], p0[i + 1])
    {
      assert Edge(q.out, p[i], p[i + 1]);
    }
  }

  lemma PathExtends<V(!new)>(q: Quotient<V>, p0: seq<V>, s: V, u: V, t: V)
    requires Consistent(q) && IsPathIn(q, p0, s, u) && t in q.vertices && u in q.into[t]
    ensures IsPathIn(q, p0 + [t], s, t) && Weight(q, p0 + [t]) == Weight(q, p0) + q.weight[t]
  {
    assert Edge(q.into, t, u) && Edge(q.out, u, t);
    assert (p0 + [t])[..|p0|] == p0;
  }

  /** Row `s` is right at `t`: an entry exactly if there is a path, and then the greatest weight. */
  ghost predicate RightAt<V(!new)>(q: Quotient<V>, row: map<V, int>, s: V, t: V) {
    && (t in row ==> IsLongest(q, s, t, row[t]))
    && (t !in row ==> forall p: seq<V> :: !IsPathIn(q, p, s, t))
  }

  /** Before a vertex has been processed its row entry is only the path of `s` alone. */
  ghost predicate Fresh<V(!new)>(q: Quotient<V>, row: map<V, int>, s: V, t: V)
    requires Consistent(q) && s in q.vertices
  {
    if t == s then t in row && row[t] == q.weight[s] else t !in row
  }

  /** `d`, if any, is the greatest weight of a path to `t` whose last edge comes from `preds`, or of the path of
      `s` alone. */
  ghost predicate BestVia<V(!new)>(q: Quotient<V>, row: map<V, int>, s: V, t: V, preds: set<V>) {
    && (t in row ==> (exists p: seq<V> :: IsPathIn(q, p, s, t) && Weight(q, p) == row[t]))
    && (forall p: seq<V> | IsPathIn(q, p, s, t) && (|p| == 1 || p[|p| - 2] in preds) :: t in row && Weight(q, p) <= row[t])
  }

  function Relaxed<V(==)>(q: Quotient<V>, row: map<V, int>, t: V, pred: V): map<V, int>
    requires t in q.weight
  {
    if pred !in row then row
    else
      var w := row[pred] + q.weight[t];
      row[t := if t in row && w <= row[t] then row[t] else w]
  }

  lemma RelaxStep<V(!new)>(q: Quotient<V>, row: map<V, int>, s: V, t: V, preds: set<V>, pred: V)
    requires Consistent(q) && t in q.vertices && pred in q.into[t] && pred != t
    requires RightAt(q, row, s, pred) && BestVia(q, row, s, t, preds)
    ensures BestVia(q, Relaxed(q, row, t, pred), s, t, preds + {pred})
  {
    var row' := Relaxed(q, row, t, pred);
    if pred in row {
      var p0: seq<V> :| IsPathIn(q, p0, s, pred) && Weight(q, p0) == row[pred];
      PathExtends(q, p0, s, pred, t);
      assert exists p: seq<V> :: IsPathIn(q, p, s, t) && Weight(q, p) == row'[t];
    }
    forall p: seq<V> | IsPathIn(q, p, s, t) && (|p| == 1 || p[|p| - 2] in preds + {pred})
      ensures t in row' && Weight(q, p) <= row'[t]
    {
      if |p| > 1 && p[|p| - 2] !in preds {
        var u, p1 := PathSplits(q, p, s, t);
        assert u == pred;
      }
    }
  }

  method RelaxRow<V(==, !new)>(q: Quotient<V>, row0: map<V, int>, s: V, t: V) returns (row: map<V, int>)
    requires Consistent(q) && s in q.vertices && t in q.vertices && t !in q.into[t]
    requires Fresh(q, row0, s, t) && forall u | u in q.into[t] :: RightAt(q, row0, s, u)
    ensures RightAt(q, row, s, t)
    ensures forall x | x != t :: (x in row <==> x in row0) && (x in row ==> row[x] == row0[x])
  {
    hide RightAt, BestVia;
    row := row0;
    var todo := q.into[t];
    assert q.into[t] - todo == {};
    FreshIsBest(q, row, s, t);
    while todo != {}
      invariant todo <= q.into[t]
      invariant forall x | x != t :: (x in row <==> x in row0) && (x in row ==> row[x] == row0[x])
      invariant BestVia(q, row, s, t, q.into[t] - todo)
    {
      var pred :| pred in todo;
      SameRight(q, row0, row, s, pred);
      RelaxStep(q, row, s, t, q.into[t] - todo, pred);
      assert q.into[t] - todo + {pred} == q.into[t] - (todo - {pred});
      todo := todo - {pred};
      if pred in row {
        var w := row[pred] + q.weight[t];
        row := row[t := if t in row && w <= row[t] then row[t] else w];
      }
    }
    assert q.into[t] - todo == q.into[t];
    BestIsRight(q, row, s, t);
  }

  lemma SameRight<V(!new)>(q: Quotient<V>, row0: map<V, int>, row: map<V, int>, s: V, u: V)
    requires RightAt(q, row0, s, u) && (u in row <==> u in row0) && (u in row ==> row[u] == row0[u])
    ensures RightAt(q, row, s, u)
  {
  }

  lemma FreshIsBest<V(!new)>(q: Quotient<V>, row: map<V, int>, s: V, t: V)
    requires Consistent(q) && s in q.vertices && t in q.vertices && Fresh(q, row, s, t)
    ensures BestVia(q, row, s, t, {})
  {
    if t == s {
      assert IsPathIn(q, [s], s, s) && [s][..0] == [] && Weight(q, [s]) == q.weight[s];
    }
    forall p: seq<V> | IsPathIn(q, p, s, t) && (|p| == 1 || p[|p| - 2] in {})
      ensures t in row && Weight(q, p) <= row[t]
    {
      assert p == [s] && p[..0] == [];
    }
  }

  lemma BestIsRight<V(!new)>(q: Quotient<V>, row: map<V, int>, s: V, t: V)
    requires Consistent(q) && t in q.vertices && BestVia(q, row, s, t, q.into[t])
    ensures RightAt(q, row, s, t)
  {
    forall p: seq<V> | IsPathIn(q, p, s, t)
      ensures t in row && Weight(q, p) <= row[t]
    {
      if |p| > 1 {
        var u, p0 := PathSplits(q, p, s, t);
        assert p[|p| - 2] == u;
      }
    }
  }

  /** Row `s` once the first `n` vertices of the order have been processed. */
  ghost predicate RowUpTo<V(!new)>(q: Quotient<V>, order: seq<V>, n: nat, row: map<V, int>, s: V)
    requires Consistent(q) && s in q.vertices && n <= |order|
  {
    && (forall t | t in order[..n] :: RightAt(q, row, s, t))
    && (forall t | t in order[n..] :: Fresh(q, row, s, t))
    && row.Keys <= q.vertices
  }

  lemma PredecessorsProcessed<V(!new)>(q: Quotient<V>, order: seq<V>, n: nat)
    requires Consistent(q) && IsTopologicalOrder(q, order) && n < |order|
    ensures order[n] in q.vertices && order[n] !in q.into[order[n]]
    ensures forall u | u in q.into[order[n]] :: u in order[..n]
    ensures order[n] !in order[..n] && order[n] !in order[n + 1..]
  {
    var t := order[n];
    assert t in order;
    forall u | u in q.into[t]
      ensures u in order[..n] && u != t
    {
      assert Edge(q.into, t, u) && Edge(q.out, u, t);
      assert u in q.out;
      var i :| 0 <= i < |order| && order[i] == u;
      assert Edge(q.out, order[i], order[n]);
      assert order[..n][i] == u;
    }
  }

  method ProcessRow<V(==, !new)>(q: Quotient<V>, ghost order: seq<V>, ghost n: nat, t: V, row0: map<V, int>, s: V)
    returns (row: map<V, int>)
    requires Consistent(q) && IsTopologicalOrder(q, order) && n < |order| && order[n] == t && s in q.vertices
    requires RowUpTo(q, order, n, row0, s)
    ensures RowUpTo(q, order, n + 1, row, s)
  {
    PredecessorsProcessed(q, order, n);
    hide RightAt, IsTopologicalOrder, Consistent;
    assert t in order[n..];
    row := RelaxRow(q, row0, s, t);
    forall x | x in order[..n + 1]
      ensures RightAt(q, row, s, x)
    {
      if x != t {
        assert x in order[..n];
        SameRight(q, row0, row, s, x);
      }
    }
    forall x | x in order[n + 1..]
      ensures Fresh(q, row, s, x)
    {
      assert x in order[n..] && x != t;
    }
  }

  /** All rows, once the first `n` vertices of the order have been processed. */
  ghost predicate TableUpTo<V(!new)>(q: Quotient<V>, order: seq<V>, n: nat, table: map<V, map<V, int>>)
    requires Consistent(q) && n <= |order|
  {
    table.Keys == q.vertices && forall s | s in q.vertices :: RowUpTo(q, order, n, table[s], s)
  }

  method ProcessVertex<V(==, !new)>(q: Quotient<V>, ghost order: seq<V>, ghost n: nat, t: V, table0: map<V, map<V, int>>)
    returns (table: map<V, map<V, int>>)
    requires Consistent(q) && IsTopologicalOrder(q, order) && n < |order| && order[n] == t
    requires TableUpTo(q, order, n, table0)
    ensures TableUpTo(q, order, n + 1, table)
  {
    hide RowUpTo, IsTopologicalOrder;
    table := table0;
    var todo := q.vertices;
    while todo != {}
      invariant todo <= q.vertices == table.Keys
      invariant forall s | s in q.vertices :: RowUpTo(q, order, if s in todo then n else n + 1, table[s], s)
    {
      var source :| source in todo;
      var row := ProcessRow(q, order, n, t, table[source], source);
      table := table[source := row];
      todo := todo - {source};
    }
  }

  method InitialTable<V(==, !new)>(q: Quotient<V>, ghost order: seq<V>) returns (table: map<V, map<V, int>>)
    requires Consistent(q)
    ensures TableUpTo(q, order, 0, table)
  {
    hide RowUpTo;
    table := map[];
    var todo := q.vertices;
    while todo != {}
      invariant todo <= q.vertices && table.Keys == q.vertices - todo
      invariant forall s | s in table :: table[s] == map[s := q.weight[s]]
    {
      var vertex :| vertex in todo;
      table := table[vertex := map[vertex := q.weight[vertex]]];
      todo := todo - {vertex};
    }
    forall s | s in q.vertices
      ensures RowUpTo(q, order, 0, table[s], s)
    {
      InitialRow(q, order, s);
    }
  }

  lemma InitialRow<V(!new)>(q: Quotient<V>, order: seq<V>, s: V)
    requires Consistent(q) && s in q.vertices
    ensures RowUpTo(q, order, 0, map[s := q.weight[s]], s)
  {
  }

  /** The entries of row `s` are the vertices reachable from `s`, each with the greatest weight of a path. */
  ghost predicate RowCorrect<V(!new)>(q: Quotient<V>, row: map<V, int>, s: V) {
    && (forall t :: t in row <==> Reach(q.out, s, t))
    && (forall t | t in row :: IsLongest(q, s, t, row[t]))
  }

  lemma FinishedRow<V(!new)>(q: Quotient<V>, order: seq<V>, row: map<V, int>, s: V)
    requires Consistent(q) && IsTopologicalOrder(q, order) && s in q.vertices && RowUpTo(q, order, |order|, row, s)
    ensures RowCorrect(q, row, s)
  {
    hide IsLongest;
    assert order[..|order|] == order;
    forall t
      ensures t in row <==> Reach(q.out, s, t)
      ensures t in row ==> IsLongest(q, s, t, row[t])
    {
      if t in row {
        assert t in order && RightAt(q, row, s, t);
        LongestReaches(q, s, t, row[t]);
      }
      if Reach(q.out, s, t) {
        var p: seq<V> :| PathFromTo(q.out, p, s, t);
        PathInside(q, p);
        assert p[|p| - 1] in q.weight && IsPathIn(q, p, s, t);
        assert t in order && RightAt(q, row, s, t);
      }
    }
  }

  lemma LongestReaches<V(!new)>(q: Quotient<V>, s: V, t: V, d: int)
    requires IsLongest(q, s, t, d)
    ensures Reach(q.out, s, t)
  {
    var p: seq<V> :| IsPathIn(q, p, s, t) && Weight(q, p) == d;
    assert PathFromTo(q.out, p, s, t);
  }

  /** All-pairs longest paths: nothing exactly when the graph has a cycle; otherwise an entry from `s` to `t` exactly
      if `t` can be reached from `s`, equal to the greatest total weight of such a path. */
  method LongestNodePaths<V(==, !new)>(q: Quotient<V>) returns (r: Option<map<V, map<V, int>>>)
    requires Consistent(q)
    ensures r.None? <==> Cyclic(q.out)
    ensures r.Some? ==> r.value.Keys == q.vertices && forall s | s in q.vertices :: RowCorrect(q, r.value[s], s)
  {
    hide RowUpTo, Cyclic, IsTopologicalOrder, RowCorrect;
    var topo := TopologicalSort(q);
    var table := InitialTable(q, if topo.Some? then topo.value else []);
    if topo.None? {
      return None;
    }
    var order := topo.value;
    for n := 0 to |order|
      invariant TableUpTo(q, order, n, table)
    {
      table := ProcessVertex(q, order, n, order[n], table);
    }
    forall s | s in q.vertices
      ensures RowCorrect(q, table[s], s)
    {
      FinishedRow(q, order, table[s], s);
    }
    return Some(table);
  }
}
