/** Recursive-Largest-First graph colouring, as in xls/data_structures/graph_coloring.h. */
module Coloring {
  import opened Collections
  import opened Options

  /** The neighbours of every vertex. */
  type Neighborhood<!V> = V -> set<V>

  /** Among `vertices`, neighbours are mutual and none is its own. */
  ghost predicate IsUndirected<V(!new)>(vertices: set<V>, nb: Neighborhood<V>) {
    && (forall x, y | x in vertices && y in vertices :: x in nb(y) <==> y in nb(x))
    && (forall x | x in vertices :: x !in nb(x))
  }

  /** No two members are neighbours. */
  ghost predicate Independent<V(!new)>(nb: Neighborhood<V>, s: set<V>) {
    forall x, y | x in s && y in s :: y !in nb(x)
  }

  /** Every other vertex has a neighbour in the set. */
  ghost predicate Dominates<V(!new)>(nb: Neighborhood<V>, s: set<V>, vertices: set<V>) {
    forall y | y in vertices && y !in s :: HasNeighborIn(nb, s, y)
  }

  ghost predicate HasNeighborIn<V(!new)>(nb: Neighborhood<V>, s: set<V>, y: V) {
    exists x :: x in s && y in nb(x)
  }

  // ---------------------------------------------------------------------------
  // One colour class
  // ---------------------------------------------------------------------------

  ghost function Picked<V>(picks: seq<V>): set<V> {
    set x | x in picks
  }

  /** All neighbours of the vertices picked. */
  ghost function Blocked<V>(nb: Neighborhood<V>, picks: seq<V>): set<V> {
    if picks == [] then {} else Blocked(nb, picks[..|picks| - 1]) + nb(picks[|picks| - 1])
  }

  /** The measure: neighbours already blocked, then fewest neighbours still available. */
  function Measure<V(==)>(nb: Neighborhood<V>, blocked: set<V>, available: set<V>, v: V): (int, int) {
    Tally(nb(v), blocked, available)
  }

  function Tally<V(==)>(s: set<V>, blocked: set<V>, available: set<V>): (int, int) {
    (|s * blocked|, -|s * available|)
  }

  predicate Exceeds(a: (int, int), b: (int, int)) {
    a.0 > b.0 || (a.0 == b.0 && a.1 > b.1)
  }

  /** `v` may be picked next: no other unblocked vertex has more blocked neighbours, or as many and fewer available ones. */
  ghost predicate IsBest<V(!new)>(nb: Neighborhood<V>, blocked: set<V>, available: set<V>, v: V) {
    && v in available && v !in blocked
    && forall x | x in available && x !in blocked ::
         || |nb(x) * blocked| < |nb(v) * blocked|
         || (|nb(x) * blocked| == |nb(v) * blocked| && |nb(v) * available| <= |nb(x) * available|)
  }

  lemma BestByMeasure<V(!new)>(nb: Neighborhood<V>, blocked: set<V>, available: set<V>, v: V)
    requires v in available && v !in blocked
    requires forall x | x in available && x !in blocked ::
               !Exceeds(Measure(nb, blocked, available, x), Measure(nb, blocked, available, v))
    ensures IsBest(nb, blocked, available, v)
  {
    forall x | x in available && x !in blocked
      ensures || |nb(x) * blocked| < |nb(v) * blocked|
              || (|nb(x) * blocked| == |nb(v) * blocked| && |nb(v) * available| <= |nb(x) * available|)
    {
      assert !Exceeds(Measure(nb, blocked, available, x), Measure(nb, blocked, available, v));
    }
  }

  /** The picks of the heuristic: first a vertex of highest degree, then best vertices. */
  ghost predicate Greedy<V(!new)>(vertices: set<V>, nb: Neighborhood<V>, picks: seq<V>) {
    && (|picks| > 0 ==> picks[0] in vertices && forall x | x in vertices :: |nb(x)| <= |nb(picks[0])|)
    && (forall k | 1 <= k < |picks| ::
          IsBest(nb, Blocked(nb, picks[..k]), vertices - Picked(picks[..k]), picks[k]))
  }

  lemma {:induction false} BlockedMeans<V(!new)>(nb: Neighborhood<V>, picks: seq<V>, y: V)
    ensures y in Blocked(nb, picks) <==> HasNeighborIn(nb, Picked(picks), y)
  {
    if picks != [] {
      var init, last := picks[..|picks| - 1], picks[|picks| - 1];
      BlockedMeans(nb, init, y);
      assert Picked(picks) == Picked(init) + {last};
    }
  }

  /** What the loop of the class search keeps. */
  ghost predicate Growing<V(!new)>(vertices: set<V>, nb: Neighborhood<V>, result: set<V>, available: set<V>,
                                   blocked: set<V>, picks: seq<V>) {
    && picks != [] && result == Picked(picks) && result <= vertices && available == vertices - result
    && blocked == Blocked(nb, picks)
    && Independent(nb, result)
    && Greedy(vertices, nb, picks)
  }

  lemma PickKeeps<V(!new)>(vertices: set<V>, nb: Neighborhood<V>, result: set<V>, available: set<V>,
                           blocked: set<V>, picks: seq<V>, v: V)
    requires IsUndirected(vertices, nb) && Growing(vertices, nb, result, available, blocked, picks)
    requires IsBest(nb, blocked, available, v)
    ensures Growing(vertices, nb, result + {v}, available - {v}, blocked + nb(v), picks + [v])
  {
    hide Independent, Greedy, IsUndirected, Picked, Blocked, Measure, Exceeds;
    PickedMore(nb, picks, v);
    StillIndependent(vertices, nb, result, picks, v);
    StillGreedy(vertices, nb, picks, v);
    assert vertices - (result + {v}) == available - {v};
  }

  lemma PickedMore<V(!new)>(nb: Neighborhood<V>, picks: seq<V>, v: V)
    ensures Picked(picks + [v]) == Picked(picks) + {v}
    ensures Blocked(nb, picks + [v]) == Blocked(nb, picks) + nb(v)
  {
    assert (picks + [v])[..|picks|] == picks;
  }

  lemma StillIndependent<V(!new)>(vertices: set<V>, nb: Neighborhood<V>, result: set<V>, picks: seq<V>, v: V)
    requires IsUndirected(vertices, nb) && result == Picked(picks) && result <= vertices && Independent(nb, result)
    requires v in vertices && v !in Blocked(nb, picks)
    ensures Independent(nb, result + {v})
  {
    BlockedMeans(nb, picks, v);
    forall x, y | x in result + {v} && y in result + {v}
      ensures y !in nb(x)
    {
      assert v in nb(y) <==> y in nb(v);
    }
  }

  lemma StillGreedy<V(!new)>(vertices: set<V>, nb: Neighborhood<V>, picks: seq<V>, v: V)
    requires Greedy(vertices, nb, picks) && picks != []
    requires IsBest(nb, Blocked(nb, picks), vertices - Picked(picks), v)
    ensures Greedy(vertices, nb, picks + [v])
  {
    hide IsBest, Blocked, Picked;
    var picks' := picks + [v];
    forall k | 1 <= k < |picks'|
      ensures IsBest(nb, Blocked(nb, picks'[..k]), vertices - Picked(picks'[..k]), picks'[k])
    {
      if k < |picks| {
        assert picks'[..k] == picks[..k];
      } else {
        assert picks'[..k] == picks;
      }
    }
  }

  method HighestDegree<V(==, !new)>(vertices: set<V>, nb: Neighborhood<V>) returns (v: V)
    requires vertices != {}
    ensures v in vertices && forall x | x in vertices :: |nb(x)| <= |nb(v)|
  {
    v :| v in vertices;
    var largest := 0;
    var todo := vertices;
    while todo != {}
      invariant todo <= vertices && v in vertices && 0 <= largest
      invariant largest == if todo == vertices then 0 else |nb(v)|
      invariant forall x | x in vertices - todo :: |nb(x)| <= largest
    {
      var vertex :| vertex in todo;
      todo := todo - {vertex};
      var size := |nb(vertex)|;
      if size >= largest {
        largest, v := size, vertex;
      }
    }
  }

  lemma OneMore<V>(done: set<V>, x: V, s: set<V>)
    requires x !in done
    ensures |(done + {x}) * s| == |done * s| + if x in s then 1 else 0
  {
    if x in s {
      assert (done + {x}) * s == done * s + {x};
    } else {
      assert (done + {x}) * s == done * s;
    }
  }

  /** Counting `x` off the members still to be counted. */
  lemma TallyNext<V>(s: set<V>, todo: set<V>, x: V, blocked: set<V>, available: set<V>)
    requires x in todo && todo <= s
    ensures Tally(s - (todo - {x}), blocked, available)
         == (Tally(s - todo, blocked, available).0 + (if x in blocked then 1 else 0),
             Tally(s - todo, blocked, available).1 - (if x in available then 1 else 0))
  {
    OneMore(s - todo, x, blocked);
    OneMore(s - todo, x, available);
    assert s - (todo - {x}) == s - todo + {x};
  }

  lemma TallyEnds<V>(s: set<V>, blocked: set<V>, available: set<V>)
    ensures Tally(s - s, blocked, available) == (0, 0)
    ensures Tally(s - {}, blocked, available) == Tally(s, blocked, available)
  {
    assert s - s == {} && s - {} == s;
  }

  /** Counts one neighbour at a time. */
  method MeasureOf<V(==, !new)>(nb: Neighborhood<V>, blocked: set<V>, available: set<V>, v: V) returns (m: (int, int))
    ensures m == Measure(nb, blocked, available, v)
  {
    hide Tally;
    m := (0, 0);
    var all := nb(v);
    var todo := all;
    TallyEnds(all, blocked, available);
    while todo != {}
      invariant todo <= all && m == Tally(all - todo, blocked, available)
    {
      var neighbor :| neighbor in todo;
      TallyNext(all, todo, neighbor, blocked, available);
      todo := todo - {neighbor};
      m := (if neighbor in blocked then m.0 + 1 else m.0, if neighbor in available then m.1 - 1 else m.1);
    }
  }

  method FindBest<V(==, !new)>(nb: Neighborhood<V>, blocked: set<V>, available: set<V>) returns (best: Option<V>)
    ensures best.None? ==> available <= blocked
    ensures best.Some? ==> IsBest(nb, blocked, available, best.value)
  {
    hide Measure, IsBest;
    best := None;
    var measure := (-1, -1);
    var todo := available;
    while todo != {}
      invariant todo <= available
      invariant best.None? ==> measure == (-1, -1) && available - todo <= blocked
      invariant best.Some? ==> best.value in available - blocked && measure == Measure(nb, blocked, available, best.value)
      invariant forall x | x in available - todo && x !in blocked :: !Exceeds(Measure(nb, blocked, available, x), measure)
    {
      var vertex :| vertex in todo;
      todo := todo - {vertex};
      if vertex !in blocked {
        var m := MeasureOf(nb, blocked, available, vertex);
        MeasureSign(nb, blocked, available, vertex);
        if Exceeds(m, measure) {
          best, measure := Some(vertex), m;
        }
      }
    }
    if best.Some? {
      BestByMeasure(nb, blocked, available, best.value);
    }
  }

  lemma MeasureSign<V(!new)>(nb: Neighborhood<V>, blocked: set<V>, available: set<V>, v: V)
    ensures Measure(nb, blocked, available, v).0 >= 0
  {
  }

  /** A maximal independent set, picked greedily. */
  method FindMaximalIndependentSet<V(==, !new)>(vertices: set<V>, nb: Neighborhood<V>)
    returns (result: set<V>, ghost picks: seq<V>)
    requires vertices != {} && IsUndirected(vertices, nb)
    ensures result != {} && result <= vertices
    ensures Independent(nb, result) && Dominates(nb, result, vertices)
    ensures result == Picked(picks) && Greedy(vertices, nb, picks)
  {
    hide Growing, IsBest, IsUndirected;
    var first := HighestDegree(vertices, nb);
    result, picks := {first}, [first];
    var available, blocked := vertices - {first}, nb(first);
    FirstPick(vertices, nb, first);
    while available != {}
      invariant Growing(vertices, nb, result, available, blocked, picks)
      decreases available
    {
      var best := FindBest(nb, blocked, available);
      if best.None? {
        break;
      }
      BestIsAvailable(nb, blocked, available, best.value);
      PickKeeps(vertices, nb, result, available, blocked, picks, best.value);
      result, picks := result + {best.value}, picks + [best.value];
      available, blocked := available - {best.value}, blocked + nb(best.value);
    }
    AllBlocked(vertices, nb, result, available, blocked, picks);
  }

  lemma FirstPick<V(!new)>(vertices: set<V>, nb: Neighborhood<V>, first: V)
    requires IsUndirected(vertices, nb) && first in vertices && forall x | x in vertices :: |nb(x)| <= |nb(first)|
    ensures Growing(vertices, nb, {first}, vertices - {first}, nb(first), [first])
  {
    assert [first][..0] == [];
    assert Blocked(nb, [first]) == {} + nb(first);
  }

  lemma BestIsAvailable<V(!new)>(nb: Neighborhood<V>, blocked: set<V>, available: set<V>, v: V)
    requires IsBest(nb, blocked, available, v)
    ensures v in available
  {
  }

  lemma AllBlocked<V(!new)>(vertices: set<V>, nb: Neighborhood<V>, result: set<V>, available: set<V>,
                            blocked: set<V>, picks: seq<V>)
    requires Growing(vertices, nb, result, available, blocked, picks) && available <= blocked
    ensures result != {} && result <= vertices && result == Picked(picks) && Greedy(vertices, nb, picks)
    ensures Independent(nb, result) && Dominates(nb, result, vertices)
  {
    hide Greedy, Independent;
    assert picks[0] in result;
    forall y | y in vertices && y !in result
      ensures HasNeighborIn(nb, result, y)
    {
      assert y in available;
      BlockedMeans(nb, picks, y);
    }
  }

  // ---------------------------------------------------------------------------
  // The colouring
  // ---------------------------------------------------------------------------

  /** The neighbourhood in the subgraph of `available`. */
  function Induced<V(==)>(nb: Neighborhood<V>, available: set<V>): Neighborhood<V> {
    v => nb(v) * available
  }

  /** Class `k` is an independent set that dominates what the classes before it leave. */
  ghost predicate ClassOk<V(!new)>(vertices: set<V>, nb: Neighborhood<V>, classes: seq<set<V>>, k: nat)
    requires k < |classes|
  {
    var left := vertices - Union(classes[..k]);
    classes[k] != {} && classes[k] <= left && Independent(nb, classes[k]) && Dominates(nb, classes[k], left)
  }

  lemma InducedClass<V(!new)>(nb: Neighborhood<V>, available: set<V>, s: set<V>)
    requires s <= available && Independent(Induced(nb, available), s) && Dominates(Induced(nb, available), s, available)
    ensures Independent(nb, s) && Dominates(nb, s, available)
  {
    forall x, y | x in s && y in s
      ensures y !in nb(x)
    {
      assert y !in Induced(nb, available)(x);
    }
    forall y | y in available && y !in s
      ensures HasNeighborIn(nb, s, y)
    {
      assert HasNeighborIn(Induced(nb, available), s, y);
      var x :| x in s && y in Induced(nb, available)(x);
      assert y in nb(x);
    }
  }

  lemma InducedUndirected<V(!new)>(vertices: set<V>, nb: Neighborhood<V>, available: set<V>)
    requires IsUndirected(vertices, nb) && available <= vertices
    ensures IsUndirected(available, Induced(nb, available))
  {
    forall x, y | x in available && y in available
      ensures x in Induced(nb, available)(y) <==> y in Induced(nb, available)(x)
    {
      assert x in nb(y) <==> y in nb(x);
    }
  }

  /** A vertex left over by `k` classes has at least `k` neighbours among them. */
  lemma {:induction false} LeftOverHasNeighbors<V(!new)>(vertices: set<V>, nb: Neighborhood<V>, classes: seq<set<V>>,
                                                         k: nat, v: V)
    requires IsUndirected(vertices, nb) && k <= |classes| && (forall j | 0 <= j < |classes| :: ClassOk(vertices, nb, classes, j))
    requires v in vertices && v !in Union(classes[..k])
    ensures |nb(v) * Union(classes[..k])| >= k && Union(classes[..k]) <= vertices
  {
    if k > 0 {
      assert classes[..k][..k - 1] == classes[..k - 1];
      LeftOverHasNeighbors(vertices, nb, classes, k - 1, v);
      var before, color := Union(classes[..k - 1]), classes[k - 1];
      assert ClassOk(vertices, nb, classes, k - 1);
      assert HasNeighborIn(nb, color, v);
      var x :| x in color && v in nb(x);
      assert x in nb(v);
      assert nb(v) * (before + color) == nb(v) * before + nb(v) * color;
      assert (nb(v) * before) !! (nb(v) * color);
      assert x in nb(v) * color;
      assert |nb(v) * color| >= 1;
    }
  }

  ghost predicate BoundsDegrees<V(!new)>(vertices: set<V>, nb: Neighborhood<V>, degree: nat) {
    forall v | v in vertices :: |nb(v) * vertices| <= degree
  }

  /** At most one colour more than the highest degree. */
  lemma FewClasses<V(!new)>(vertices: set<V>, nb: Neighborhood<V>, classes: seq<set<V>>, degree: nat)
    requires IsUndirected(vertices, nb) && (forall j | 0 <= j < |classes| :: ClassOk(vertices, nb, classes, j))
    requires BoundsDegrees(vertices, nb, degree)
    ensures |classes| <= degree + 1
  {
    if |classes| > 0 {
      var k := |classes| - 1;
      assert ClassOk(vertices, nb, classes, k);
      var v :| v in classes[k];
      LeftOverHasNeighbors(vertices, nb, classes, k, v);
      SubsetSmaller(nb(v) * Union(classes[..k]), nb(v) * vertices);
    }
  }

  /** The colouring: the classes partition the vertices, no class holds two neighbours, each class is maximal in what
      the earlier ones leave, and there are at most one more of them than the highest degree. */
  method RecursiveLargestFirstColoring<V(==, !new)>(vertices: set<V>, nb: Neighborhood<V>) returns (classes: seq<set<V>>)
    requires IsUndirected(vertices, nb)
    ensures Union(classes) == vertices
    ensures forall j, k | 0 <= j < k < |classes| :: classes[j] !! classes[k]
    ensures forall k | 0 <= k < |classes| :: ClassOk(vertices, nb, classes, k)
    ensures forall degree: nat | BoundsDegrees(vertices, nb, degree) :: |classes| <= degree + 1
  {
    hide IsUndirected, Greedy, Independent, Dominates, ClassOk, BoundsDegrees;
    classes := [];
    var available := vertices;
    while available != {}
      invariant available == vertices - Union(classes) && Union(classes) <= vertices
      invariant forall k | 0 <= k < |classes| :: ClassOk(vertices, nb, classes, k)
      decreases available
    {
      InducedUndirected(vertices, nb, available);
      var chosen, picks := FindMaximalIndependentSet(available, Induced(nb, available));
      InducedClass(nb, available, chosen);
      AppendClass(vertices, nb, classes, chosen);
      available := available - chosen;
      classes := classes + [chosen];
    }
    ClassesDisjoint(vertices, nb, classes);
    forall degree: nat | BoundsDegrees(vertices, nb, degree)
      ensures |classes| <= degree + 1
    {
      FewClasses(vertices, nb, classes, degree);
    }
  }

  lemma AppendClass<V(!new)>(vertices: set<V>, nb: Neighborhood<V>, classes: seq<set<V>>, chosen: set<V>)
    requires forall k | 0 <= k < |classes| :: ClassOk(vertices, nb, classes, k)
    requires chosen != {} && chosen <= vertices - Union(classes)
    requires Independent(nb, chosen) && Dominates(nb, chosen, vertices - Union(classes))
    ensures forall k | 0 <= k < |classes| + 1 :: ClassOk(vertices, nb, classes + [chosen], k)
    ensures Union(classes + [chosen]) == Union(classes) + chosen
  {
    hide Independent, Dominates;
    var classes' := classes + [chosen];
    assert classes'[..|classes|] == classes;
    forall k | 0 <= k < |classes'|
      ensures ClassOk(vertices, nb, classes', k)
    {
      if k < |classes| {
        assert classes'[..k] == classes[..k];
        assert ClassOk(vertices, nb, classes, k);
      }
    }
  }

  lemma ClassesDisjoint<V(!new)>(vertices: set<V>, nb: Neighborhood<V>, classes: seq<set<V>>)
    requires forall k | 0 <= k < |classes| :: ClassOk(vertices, nb, classes, k)
    ensures forall j, k | 0 <= j < k < |classes| :: classes[j] !! classes[k]
  {
    hide Independent, Dominates;
    forall j, k | 0 <= j < k < |classes|
      ensures classes[j] !! classes[k]
    {
      assert ClassOk(vertices, nb, classes, k);
      MemberOfUnion(classes, k, j);
    }
  }

  lemma {:induction false} MemberOfUnion<V>(classes: seq<set<V>>, k: nat, j: nat)
    requires j < k <= |classes|
    ensures classes[j] <= Union(classes[..k])
  {
    assert classes[..k][..k - 1] == classes[..k - 1];
    if j < k - 1 {
      MemberOfUnion(classes, k - 1, j);
    }
  }
}
