/**
 The binary decision diagram package of xls/data_structures: one growing node table
 shared by all expressions, a uniqueness map, and a memo map for if-then-else.
 The first half of the module gives the table its meaning as Boolean functions and
 proves canonicity; the second half is the mutable package itself.
 */
module Bdd {

  const INT32_MAX: int := 0x7fff_ffff

  /** Index of the leaf for false. */
  const ZERO: int := 0
  /** Index of the leaf for true. */
  const ONE: int := 1

  datatype BddNode = BddNode(variable: int, high: int, low: int, pathCount: int)

  type Key = (int, int, int)

  /** A valuation of all BDD variables. */
  type Valuation = int -> bool

  datatype Result<+T> = Ok(value: T) | MissingVariable(variable: int, baseNode: int)

  function KeyOf(n: BddNode): Key {
    (n.variable, n.high, n.low)
  }

  // ---------------------------------------------------------------------------
  // The node table and its meaning
  // ---------------------------------------------------------------------------

  ghost predicate InTable(nodes: seq<BddNode>, i: int) {
    0 <= i < |nodes|
  }

  /** Node `i` is a leaf or tests a variable numbered `v` or more. */
  ghost predicate AtLeast(nodes: seq<BddNode>, i: int, v: int)
    requires InTable(nodes, i)
  {
    i < 2 || v <= nodes[i].variable
  }

  /** Children precede their parent, differ from each other, and test later variables. */
  ghost predicate NodeOk(nodes: seq<BddNode>, i: int)
    requires 2 <= i < |nodes|
  {
    var n := nodes[i];
    && 0 <= n.variable
    && 0 <= n.high < i
    && 0 <= n.low < i
    && n.high != n.low
    && AtLeast(nodes, n.high, n.variable + 1)
    && AtLeast(nodes, n.low, n.variable + 1)
  }

  /** The table is ordered and reduced. */
  ghost predicate Ordered(nodes: seq<BddNode>) {
    && 2 <= |nodes|
    && forall i | 2 <= i < |nodes| :: NodeOk(nodes, i)
  }

  /** No two inner nodes have the same variable and children. */
  ghost predicate DuplicateFree(nodes: seq<BddNode>) {
    forall i, j | 2 <= i < |nodes| && 2 <= j < |nodes| && KeyOf(nodes[i]) == KeyOf(nodes[j]) :: i == j
  }

  /** The Boolean function that node `i` denotes. */
  ghost function Denotes(nodes: seq<BddNode>, i: int, a: Valuation): bool
    requires Ordered(nodes) && InTable(nodes, i)
    decreases i
  {
    if i < 2 then i == ONE
    else
      assert NodeOk(nodes, i);
      if a(nodes[i].variable) then Denotes(nodes, nodes[i].high, a) else Denotes(nodes, nodes[i].low, a)
  }

  /** Number of paths from node `i` to the leaves. */
  ghost function Paths(nodes: seq<BddNode>, i: int): nat
    requires Ordered(nodes) && InTable(nodes, i)
    decreases i
  {
    if i < 2 then 1
    else
      assert NodeOk(nodes, i);
      Paths(nodes, nodes[i].high) + Paths(nodes, nodes[i].low)
  }

  ghost function Saturated(n: int): int {
    if n < INT32_MAX then n else INT32_MAX
  }

  ghost function Update(a: Valuation, v: int, b: bool): Valuation {
    x => if x == v then b else a(x)
  }

  /** A node that only tests variables from `v + 1` on does not depend on variable `v`. */
  lemma {:induction false} IndependentOfEarlier(nodes: seq<BddNode>, i: int, v: int, a: Valuation, b: bool)
    requires Ordered(nodes) && InTable(nodes, i) && AtLeast(nodes, i, v + 1)
    ensures Denotes(nodes, i, Update(a, v, b)) == Denotes(nodes, i, a)
    decreases i
  {
    if i >= 2 {
      assert NodeOk(nodes, i);
      IndependentOfEarlier(nodes, nodes[i].high, v, a, b);
      IndependentOfEarlier(nodes, nodes[i].low, v, a, b);
    }
  }

  ghost predicate Distinguishes(nodes: seq<BddNode>, i: int, j: int, a: Valuation)
    requires Ordered(nodes) && InTable(nodes, i) && InTable(nodes, j)
  {
    Denotes(nodes, i, a) != Denotes(nodes, j, a)
  }

  /** Two different nodes are told apart by some valuation, built along the two diagrams. */
  lemma {:induction false} DifferentNodesDiffer(nodes: seq<BddNode>, i: int, j: int) returns (a: Valuation)
    requires Ordered(nodes) && DuplicateFree(nodes) && InTable(nodes, i) && InTable(nodes, j) && i != j
    ensures Distinguishes(nodes, i, j, a)
    decreases i + j
  {
    if i < 2 && j < 2 {
      a := (x: int) => false;
    } else if i < 2 || (j >= 2 && nodes[j].variable < nodes[i].variable) {
      a := DifferFromTop(nodes, j, i);
    } else if j < 2 || nodes[i].variable < nodes[j].variable {
      a := DifferFromTop(nodes, i, j);
    } else {
      assert NodeOk(nodes, i) && NodeOk(nodes, j);
      var v := nodes[i].variable;
      if nodes[i].high != nodes[j].high {
        var a0 := DifferentNodesDiffer(nodes, nodes[i].high, nodes[j].high);
        IndependentOfEarlier(nodes, nodes[i].high, v, a0, true);
        IndependentOfEarlier(nodes, nodes[j].high, v, a0, true);
        a := Update(a0, v, true);
      } else {
        var a0 := DifferentNodesDiffer(nodes, nodes[i].low, nodes[j].low);
        IndependentOfEarlier(nodes, nodes[i].low, v, a0, false);
        IndependentOfEarlier(nodes, nodes[j].low, v, a0, false);
        a := Update(a0, v, false);
      }
    }
  }

  /** The case where only `i` tests the top variable: its two cofactors cannot both be `j`. */
  lemma {:induction false} DifferFromTop(nodes: seq<BddNode>, i: int, j: int) returns (a: Valuation)
    requires Ordered(nodes) && DuplicateFree(nodes) && 2 <= i < |nodes| && InTable(nodes, j) && i != j
    requires AtLeast(nodes, j, nodes[i].variable + 1)
    ensures Distinguishes(nodes, i, j, a)
    decreases i + j, 0
  {
    assert NodeOk(nodes, i);
    var v := nodes[i].variable;
    var b := nodes[i].high != j;
    var child := if b then nodes[i].high else nodes[i].low;
    var a0 := DifferentNodesDiffer(nodes, child, j);
    IndependentOfEarlier(nodes, child, v, a0, b);
    IndependentOfEarlier(nodes, j, v, a0, b);
    a := Update(a0, v, b);
  }

  ghost predicate Equivalent(nodes: seq<BddNode>, i: int, j: int)
    requires Ordered(nodes) && InTable(nodes, i) && InTable(nodes, j)
  {
    forall a: Valuation :: Denotes(nodes, i, a) == Denotes(nodes, j, a)
  }

  /** Canonicity: nodes denote the same Boolean function exactly when they are the same node. */
  lemma Canonicity(nodes: seq<BddNode>, i: int, j: int)
    requires Ordered(nodes) && DuplicateFree(nodes) && InTable(nodes, i) && InTable(nodes, j)
    ensures Equivalent(nodes, i, j) <==> i == j
  {
    if i != j {
      var a := DifferentNodesDiffer(nodes, i, j);
      assert Denotes(nodes, i, a) != Denotes(nodes, j, a);
    }
  }

  ghost predicate Unsatisfiable(nodes: seq<BddNode>, i: int)
    requires Ordered(nodes) && InTable(nodes, i)
  {
    forall a: Valuation :: !Denotes(nodes, i, a)
  }

  ghost predicate Tautology(nodes: seq<BddNode>, i: int)
    requires Ordered(nodes) && InTable(nodes, i)
  {
    forall a: Valuation :: Denotes(nodes, i, a)
  }

  /** An unsatisfiable node is the leaf zero, a valid node the leaf one. */
  lemma ConstantsAreLeaves(nodes: seq<BddNode>, i: int)
    requires Ordered(nodes) && DuplicateFree(nodes) && InTable(nodes, i)
    ensures Unsatisfiable(nodes, i) <==> i == ZERO
    ensures Tautology(nodes, i) <==> i == ONE
  {
    Canonicity(nodes, i, ZERO);
    Canonicity(nodes, i, ONE);
    assert Unsatisfiable(nodes, ZERO) && Tautology(nodes, ONE);
    assert Unsatisfiable(nodes, i) ==> Equivalent(nodes, i, ZERO);
    assert Tautology(nodes, i) ==> Equivalent(nodes, i, ONE);
  }

  // ---------------------------------------------------------------------------
  // Growth of the table
  // ---------------------------------------------------------------------------

  ghost predicate Extends(before: seq<BddNode>, after: seq<BddNode>) {
    |before| <= |after| && forall i | 0 <= i < |before| :: after[i] == before[i]
  }

  /** A node keeps its meaning and its path count when the table grows. */
  lemma {:induction false} GrowthKeepsMeaning(before: seq<BddNode>, after: seq<BddNode>, i: int, a: Valuation)
    requires Ordered(before) && Ordered(after) && Extends(before, after) && InTable(before, i)
    ensures Denotes(after, i, a) == Denotes(before, i, a)
    ensures Paths(after, i) == Paths(before, i)
    decreases i
  {
    if i >= 2 {
      assert NodeOk(before, i);
      GrowthKeepsMeaning(before, after, before[i].high, a);
      GrowthKeepsMeaning(before, after, before[i].low, a);
    }
  }

  /** Node `r` denotes the if-then-else of `c`, `t` and `f`, and tests no earlier variable than they do. */
  ghost predicate IsIte(nodes: seq<BddNode>, r: int, c: int, t: int, f: int) {
    && Ordered(nodes)
    && InTable(nodes, r) && InTable(nodes, c) && InTable(nodes, t) && InTable(nodes, f)
    && (forall a: Valuation ::
          Denotes(nodes, r, a) == if Denotes(nodes, c, a) then Denotes(nodes, t, a) else Denotes(nodes, f, a))
    && (forall v: int :: AtLeast(nodes, c, v) && AtLeast(nodes, t, v) && AtLeast(nodes, f, v) ==> AtLeast(nodes, r, v))
  }

  lemma GrowthKeepsIte(before: seq<BddNode>, after: seq<BddNode>, r: int, c: int, t: int, f: int)
    requires IsIte(before, r, c, t, f) && Ordered(after) && Extends(before, after)
    ensures IsIte(after, r, c, t, f)
  {
    forall a: Valuation
      ensures Denotes(after, r, a) == if Denotes(after, c, a) then Denotes(after, t, a) else Denotes(after, f, a)
    {
      GrowthKeepsMeaning(before, after, r, a);
      GrowthKeepsMeaning(before, after, c, a);
      GrowthKeepsMeaning(before, after, t, a);
      GrowthKeepsMeaning(before, after, f, a);
    }
    forall v: int | AtLeast(after, c, v) && AtLeast(after, t, v) && AtLeast(after, f, v)
      ensures AtLeast(after, r, v)
    {
      assert AtLeast(before, c, v) && AtLeast(before, t, v) && AtLeast(before, f, v);
    }
  }

  /** The cofactor of node `i` when variable `v` is `b`; `v` must not come after the variable of `i`. */
  function Cofactor(nodes: seq<BddNode>, i: int, v: int, b: bool): int
    requires 0 <= i < |nodes|
  {
    if i < 2 || nodes[i].variable != v then i else if b then nodes[i].high else nodes[i].low
  }

  /** The cofactor is `i` with `v` fixed to `b`, and depends on later variables only. */
  lemma CofactorFixesVariable(nodes: seq<BddNode>, i: int, v: int, b: bool, a: Valuation)
    requires Ordered(nodes) && InTable(nodes, i) && AtLeast(nodes, i, v)
    ensures InTable(nodes, Cofactor(nodes, i, v, b))
    ensures AtLeast(nodes, Cofactor(nodes, i, v, b), v + 1)
    ensures a(v) == b ==> Denotes(nodes, Cofactor(nodes, i, v, b), a) == Denotes(nodes, i, a)
  {
    if i >= 2 {
      assert NodeOk(nodes, i);
    }
  }

  /** `v` is the earliest variable that an inner node among `c`, `t` and `f` tests. */
  ghost predicate Expandable(nodes: seq<BddNode>, c: int, t: int, f: int, v: int) {
    && Ordered(nodes)
    && InTable(nodes, c) && InTable(nodes, t) && InTable(nodes, f)
    && AtLeast(nodes, c, v) && AtLeast(nodes, t, v) && AtLeast(nodes, f, v)
    && 2 <= c && 0 <= v
    && (nodes[c].variable == v || (2 <= t && nodes[t].variable == v) || (2 <= f && nodes[f].variable == v))
  }

  ghost predicate IsIteOfCofactors(nodes: seq<BddNode>, x: int, c: int, t: int, f: int, v: int, b: bool) {
    && InTable(nodes, c) && InTable(nodes, t) && InTable(nodes, f)
    && IsIte(nodes, x, Cofactor(nodes, c, v, b), Cofactor(nodes, t, v, b), Cofactor(nodes, f, v, b))
  }

  lemma GrowthKeepsIteOfCofactors(before: seq<BddNode>, after: seq<BddNode>, x: int,
                                  c: int, t: int, f: int, v: int, b: bool)
    requires IsIteOfCofactors(before, x, c, t, f, v, b) && Ordered(after) && Extends(before, after)
    ensures IsIteOfCofactors(after, x, c, t, f, v, b)
  {
    GrowthKeepsIte(before, after, x, Cofactor(before, c, v, b), Cofactor(before, t, v, b), Cofactor(before, f, v, b));
  }

  /** Shannon expansion: a node joining the if-then-else of both cofactors is the if-then-else. */
  lemma ShannonExpansion(nodes: seq<BddNode>, r: int, c: int, t: int, f: int, v: int, hi: int, lo: int)
    requires Expandable(nodes, c, t, f, v) && InTable(nodes, r)
    requires IsIteOfCofactors(nodes, hi, c, t, f, v, true) && IsIteOfCofactors(nodes, lo, c, t, f, v, false)
    requires if hi == lo then r == hi else r >= 2 && KeyOf(nodes[r]) == (v, hi, lo)
    ensures IsIte(nodes, r, c, t, f)
  {
    forall a: Valuation
      ensures Denotes(nodes, r, a) == if Denotes(nodes, c, a) then Denotes(nodes, t, a) else Denotes(nodes, f, a)
    {
      CofactorFixesVariable(nodes, c, v, a(v), a);
      CofactorFixesVariable(nodes, t, v, a(v), a);
      CofactorFixesVariable(nodes, f, v, a(v), a);
    }
    forall w: int | AtLeast(nodes, c, w) && AtLeast(nodes, t, w) && AtLeast(nodes, f, w)
      ensures AtLeast(nodes, r, w)
    {
      CofactorsAtLeast(nodes, hi, c, t, f, v, true);
      assert w <= v;
    }
  }

  /** The if-then-else of three cofactors tests only variables after `v`. */
  lemma CofactorsAtLeast(nodes: seq<BddNode>, x: int, c: int, t: int, f: int, v: int, b: bool)
    requires Expandable(nodes, c, t, f, v) && IsIteOfCofactors(nodes, x, c, t, f, v, b)
    ensures AtLeast(nodes, x, v + 1)
  {
    var a: Valuation := (y: int) => b;
    CofactorFixesVariable(nodes, c, v, b, a);
    CofactorFixesVariable(nodes, t, v, b, a);
    CofactorFixesVariable(nodes, f, v, b, a);
  }

  // ---------------------------------------------------------------------------
  // Invariants of the two maps
  // ---------------------------------------------------------------------------

  /** The uniqueness map lists exactly the inner nodes of the table. */
  ghost predicate MapsNodes(nodes: seq<BddNode>, nodeMap: map<Key, int>) {
    && (forall k | k in nodeMap :: 2 <= nodeMap[k] < |nodes| && KeyOf(nodes[nodeMap[k]]) == k)
    && (forall i | 2 <= i < |nodes| :: KeyOf(nodes[i]) in nodeMap && nodeMap[KeyOf(nodes[i])] == i)
  }

  /** Every memo entry is the if-then-else of its key. */
  ghost predicate MemoOk(nodes: seq<BddNode>, iteMap: map<Key, int>) {
    forall k | k in iteMap :: IsIte(nodes, iteMap[k], k.0, k.1, k.2)
  }

  /** Exactly the created variables occur, and each has its base node. */
  ghost predicate VariablesOk(nodes: seq<BddNode>, nodeMap: map<Key, int>, nextVar: int) {
    && 0 <= nextVar
    && (forall i | 2 <= i < |nodes| :: 0 <= nodes[i].variable < nextVar)
    && (forall v | 0 <= v < nextVar :: (v, ONE, ZERO) in nodeMap)
  }

  /** Stored path counts are the true ones, saturated. */
  ghost predicate CountsOk(nodes: seq<BddNode>)
    requires Ordered(nodes)
  {
    forall i | 0 <= i < |nodes| :: nodes[i].pathCount == Saturated(Paths(nodes, i))
  }

  lemma MemoSurvivesGrowth(before: seq<BddNode>, after: seq<BddNode>, iteMap: map<Key, int>)
    requires MemoOk(before, iteMap) && Ordered(after) && Extends(before, after)
    ensures MemoOk(after, iteMap)
  {
    forall k | k in iteMap
      ensures IsIte(after, iteMap[k], k.0, k.1, k.2)
    {
      GrowthKeepsIte(before, after, iteMap[k], k.0, k.1, k.2);
    }
  }

  ghost predicate CanAppend(nodes: seq<BddNode>, n: BddNode)
    requires Ordered(nodes)
  {
    && 0 <= n.variable && InTable(nodes, n.high) && InTable(nodes, n.low) && n.high != n.low
    && AtLeast(nodes, n.high, n.variable + 1) && AtLeast(nodes, n.low, n.variable + 1)
  }

  lemma AppendKeepsOrder(nodes: seq<BddNode>, n: BddNode)
    requires Ordered(nodes) && CanAppend(nodes, n)
    ensures Ordered(nodes + [n]) && Extends(nodes, nodes + [n])
  {
    var after := nodes + [n];
    forall i | 2 <= i < |after|
      ensures NodeOk(after, i)
    {
      assert i < |nodes| ==> NodeOk(nodes, i);
    }
  }

  lemma AppendKeepsMap(nodes: seq<BddNode>, n: BddNode, nodeMap: map<Key, int>)
    requires MapsNodes(nodes, nodeMap) && KeyOf(n) !in nodeMap && 2 <= |nodes|
    ensures MapsNodes(nodes + [n], nodeMap[KeyOf(n) := |nodes|])
  {
  }

  lemma AppendKeepsCounts(nodes: seq<BddNode>, n: BddNode)
    requires Ordered(nodes) && CanAppend(nodes, n) && CountsOk(nodes)
    requires n.pathCount == Saturated(nodes[n.low].pathCount + nodes[n.high].pathCount)
    ensures Ordered(nodes + [n]) && CountsOk(nodes + [n])
  {
    AppendKeepsOrder(nodes, n);
    var after := nodes + [n];
    forall i | 0 <= i < |after|
      ensures after[i].pathCount == Saturated(Paths(after, i))
    {
      var a: Valuation := (x: int) => false;
      if i < |nodes| {
        GrowthKeepsMeaning(nodes, after, i, a);
      } else {
        GrowthKeepsMeaning(nodes, after, n.high, a);
        GrowthKeepsMeaning(nodes, after, n.low, a);
      }
    }
  }

  ghost predicate HasBases(nodes: seq<BddNode>, nodeMap: map<Key, int>) {
    forall v | 2 <= v < |nodes| :: (nodes[v].variable, ONE, ZERO) in nodeMap
  }

  /** Node `i` is an inner node whose variable has a value, and `j` is the child that it selects. */
  ghost predicate Selects(nodes: seq<BddNode>, nodeMap: map<Key, int>, values: map<int, bool>, i: int, j: int)
    requires HasBases(nodes, nodeMap)
  {
    && 2 <= i < |nodes|
    && var base := nodeMap[(nodes[i].variable, ONE, ZERO)];
    && base in values
    && j == if values[base] then nodes[i].high else nodes[i].low
  }

  /** Nodes, each selected by the one before. */
  ghost predicate Followed(nodes: seq<BddNode>, nodeMap: map<Key, int>, values: map<int, bool>, path: seq<int>)
    requires HasBases(nodes, nodeMap)
  {
    && path != [] && (forall k | 0 <= k < |path| :: InTable(nodes, path[k]))
    && forall k | 0 <= k < |path| - 1 :: Selects(nodes, nodeMap, values, path[k], path[k + 1])
  }

  /** Node `i` is a leaf, or its variable has no value. */
  ghost predicate Ends(nodes: seq<BddNode>, nodeMap: map<Key, int>, values: map<int, bool>, i: int)
    requires HasBases(nodes, nodeMap) && InTable(nodes, i)
  {
    i < 2 || nodeMap[(nodes[i].variable, ONE, ZERO)] !in values
  }

  /** Valuation `a` gives each variable that has a value in `values` (keyed by base node) that value. */
  ghost predicate Agrees(nodeMap: map<Key, int>, values: map<int, bool>, a: Valuation) {
    forall v: int | (v, ONE, ZERO) in nodeMap && nodeMap[(v, ONE, ZERO)] in values ::
      a(v) == values[nodeMap[(v, ONE, ZERO)]]
  }

  /** Following values keeps the meaning under every agreeing valuation. */
  lemma {:induction false} FollowedMeans(nodes: seq<BddNode>, nodeMap: map<Key, int>, values: map<int, bool>,
                                         path: seq<int>, a: Valuation)
    requires Ordered(nodes) && HasBases(nodes, nodeMap) && Followed(nodes, nodeMap, values, path)
    requires Agrees(nodeMap, values, a)
    ensures Denotes(nodes, path[0], a) == Denotes(nodes, path[|path| - 1], a)
    decreases |path|
  {
    if |path| > 1 {
      var rest := path[1..];
      FollowedLater(nodes, nodeMap, values, path);
      FollowedMeans(nodes, nodeMap, values, rest, a);
      assert NodeOk(nodes, path[0]) && Selects(nodes, nodeMap, values, path[0], path[0 + 1]);
    }
  }

  lemma FollowedLater(nodes: seq<BddNode>, nodeMap: map<Key, int>, values: map<int, bool>, path: seq<int>)
    requires HasBases(nodes, nodeMap) && Followed(nodes, nodeMap, values, path) && |path| > 1
    ensures Followed(nodes, nodeMap, values, path[1..])
  {
    var rest := path[1..];
    forall k | 0 <= k < |rest| - 1
      ensures Selects(nodes, nodeMap, values, rest[k], rest[k + 1])
    {
      assert Selects(nodes, nodeMap, values, path[k + 1], path[k + 1 + 1]);
    }
  }

  lemma FollowedFurther(nodes: seq<BddNode>, nodeMap: map<Key, int>, values: map<int, bool>, path: seq<int>, i: int)
    requires HasBases(nodes, nodeMap) && Followed(nodes, nodeMap, values, path) && InTable(nodes, i)
    requires Selects(nodes, nodeMap, values, path[|path| - 1], i)
    ensures Followed(nodes, nodeMap, values, path + [i])
  {
    var further := path + [i];
    forall k | 0 <= k < |further| - 1
      ensures Selects(nodes, nodeMap, values, further[k], further[k + 1])
    {
      if k < |path| - 1 {
        assert Selects(nodes, nodeMap, values, path[k], path[k + 1]);
      }
    }
  }

  /** Two ways followed from the same node to an end are the same. */
  lemma {:induction false} OneWay(nodes: seq<BddNode>, nodeMap: map<Key, int>, values: map<int, bool>, p: seq<int>, q: seq<int>)
    requires HasBases(nodes, nodeMap) && Followed(nodes, nodeMap, values, p) && Followed(nodes, nodeMap, values, q)
    requires p[0] == q[0] && Ends(nodes, nodeMap, values, p[|p| - 1]) && Ends(nodes, nodeMap, values, q[|q| - 1])
    ensures p == q
    decreases |p|
  {
    assert |p| > 1 ==> Selects(nodes, nodeMap, values, p[0], p[0 + 1]);
    assert |q| > 1 ==> Selects(nodes, nodeMap, values, q[0], q[0 + 1]);
    if |p| > 1 && |q| > 1 {
      FollowedLater(nodes, nodeMap, values, p);
      FollowedLater(nodes, nodeMap, values, q);
      OneWay(nodes, nodeMap, values, p[1..], q[1..]);
      assert p == [p[0]] + p[1..] && q == [q[0]] + q[1..];
    }
  }

  lemma OnlyWay(nodes: seq<BddNode>, nodeMap: map<Key, int>, values: map<int, bool>, path: seq<int>)
    requires HasBases(nodes, nodeMap) && Followed(nodes, nodeMap, values, path) && Ends(nodes, nodeMap, values, path[|path| - 1])
    ensures forall q | Followed(nodes, nodeMap, values, q) && q[0] == path[0] && Ends(nodes, nodeMap, values, q[|q| - 1]) ::
              q == path
  {
    forall q | Followed(nodes, nodeMap, values, q) && q[0] == path[0] && Ends(nodes, nodeMap, values, q[|q| - 1])
      ensures q == path
    {
      OneWay(nodes, nodeMap, values, q, path);
    }
  }

  // ---------------------------------------------------------------------------
  // The package
  // ---------------------------------------------------------------------------

  class BinaryDecisionDiagram {
    var nodes: seq<BddNode>
    var nodeMap: map<Key, int>
    var iteMap: map<Key, int>
    var nextVar: int

    /** The table is ordered, reduced and duplicate-free, and both maps and all path counts agree with it. */
    ghost predicate Valid()
      reads this
    {
      && Ordered(nodes)
      && MapsNodes(nodes, nodeMap)
      && MemoOk(nodes, iteMap)
      && VariablesOk(nodes, nodeMap, nextVar)
      && CountsOk(nodes)
    }

    /** In every reachable state, equal meaning is equal index; in particular an expression is
        unsatisfiable exactly when it is the leaf zero and valid exactly when it is the leaf one. */
    lemma StateIsCanonical(i: int, j: int)
      requires Valid() && InTable(nodes, i) && InTable(nodes, j)
      ensures DuplicateFree(nodes)
      ensures Equivalent(nodes, i, j) <==> i == j
      ensures Unsatisfiable(nodes, i) <==> i == ZERO
      ensures Tautology(nodes, i) <==> i == ONE
    {
      Canonicity(nodes, i, j);
      ConstantsAreLeaves(nodes, i);
    }

    constructor ()
      ensures Valid()
      ensures |nodes| == 2 && nextVar == 0
    {
      nodes := [BddNode(-1, -1, -1, 1), BddNode(-1, -1, -1, 1)];
      nodeMap := map[];
      iteMap := map[];
      nextVar := 0;
    }

    method GetOrCreateNode(variable: int, high: int, low: int) returns (r: int)
      requires Ordered(nodes) && MapsNodes(nodes, nodeMap) && MemoOk(nodes, iteMap) && CountsOk(nodes)
      requires 0 <= variable && InTable(nodes, high) && InTable(nodes, low)
      requires AtLeast(nodes, high, variable + 1) && AtLeast(nodes, low, variable + 1)
      modifies this`nodes, this`nodeMap
      ensures Ordered(nodes) && MapsNodes(nodes, nodeMap) && MemoOk(nodes, iteMap) && CountsOk(nodes)
      ensures Extends(old(nodes), nodes)
      ensures |nodes| <= |old(nodes)| + 1
      ensures |nodes| > |old(nodes)| ==> nodes[|old(nodes)|].variable == variable
      ensures forall k | k in old(nodeMap) :: k in nodeMap && nodeMap[k] == old(nodeMap)[k]
      ensures InTable(nodes, r)
      ensures if high == low then r == low && nodes == old(nodes)
              else 2 <= r && KeyOf(nodes[r]) == (variable, high, low) && nodeMap[(variable, high, low)] == r
    {
      var key := (variable, high, low);
      if key in nodeMap {
        r := nodeMap[key];
        assert NodeOk(nodes, r);
        return;
      }
      if low == high {
        return low;
      }
      var sum := nodes[low].pathCount + nodes[high].pathCount;
      var paths := if sum < INT32_MAX then sum else INT32_MAX;
      var n := BddNode(variable, high, low, paths);
      AppendKeepsOrder(nodes, n);
      AppendKeepsCounts(nodes, n);
      MemoSurvivesGrowth(nodes, nodes + [n], iteMap);
      AppendKeepsMap(nodes, n, nodeMap);
      nodes := nodes + [n];
      r := |nodes| - 1;
      nodeMap := nodeMap[key := r];
    }

    /** The ordering check of the source never fails here: its condition is the precondition. */
    method Restrict(expr: int, variable: int, value: bool) returns (r: int)
      requires Ordered(nodes) && InTable(nodes, expr)
      requires AtLeast(nodes, expr, variable)
      ensures r == Cofactor(nodes, expr, variable, value)
      ensures InTable(nodes, r) && r <= expr
      ensures expr >= 2 && nodes[expr].variable == variable ==> r < expr
    {
      if expr == ZERO || expr == ONE {
        return expr;
      }
      var node := nodes[expr];
      assert NodeOk(nodes, expr);
      assert variable <= node.variable;
      if node.variable == variable {
        return if value then node.high else node.low;
      }
      return expr;
    }

    method IfThenElse(cond: int, ifTrue: int, ifFalse: int) returns (r: int)
      requires Valid() && InTable(nodes, cond) && InTable(nodes, ifTrue) && InTable(nodes, ifFalse)
      modifies this`nodes, this`nodeMap, this`iteMap
      ensures Valid() && Extends(old(nodes), nodes)
      ensures forall k | k in old(nodeMap) :: k in nodeMap && nodeMap[k] == old(nodeMap)[k]
      ensures IsIte(nodes, r, cond, ifTrue, ifFalse)
      ensures forall k | k in old(iteMap) :: k in iteMap && iteMap[k] == old(iteMap)[k]
      ensures (cond, ifTrue, ifFalse) in old(iteMap) ==> nodes == old(nodes) && nodeMap == old(nodeMap) && iteMap == old(iteMap)
      ensures cond < 2 || ifTrue == ifFalse || (ifTrue == ONE && ifFalse == ZERO)
              || ((cond, ifTrue, ifFalse) in iteMap && iteMap[(cond, ifTrue, ifFalse)] == r)
      decreases cond + ifTrue + ifFalse
    {
      if cond == ONE {
        return ifTrue;
      }
      if cond == ZERO {
        return ifFalse;
      }
      if ifTrue == ONE && ifFalse == ZERO {
        return cond;
      }
      if ifTrue == ifFalse {
        return ifTrue;
      }
      var key := (cond, ifTrue, ifFalse);
      if key in iteMap {
        return iteMap[key];
      }

      var minVar := MinVariable(cond, ifTrue, ifFalse);
      r := Expand(cond, ifTrue, ifFalse, minVar);
      iteMap := iteMap[key := r];
    }

    /** The earliest variable tested by the three arguments; only inner nodes have one. */
    method MinVariable(cond: int, ifTrue: int, ifFalse: int) returns (minVar: int)
      requires Ordered(nodes) && 2 <= cond < |nodes| && InTable(nodes, ifTrue) && InTable(nodes, ifFalse)
      ensures Expandable(nodes, cond, ifTrue, ifFalse, minVar)
    {
      assert NodeOk(nodes, cond) && (2 <= ifTrue ==> NodeOk(nodes, ifTrue)) && (2 <= ifFalse ==> NodeOk(nodes, ifFalse));
      minVar := nodes[cond].variable;
      if ifTrue != ZERO && ifTrue != ONE && nodes[ifTrue].variable < minVar {
        minVar := nodes[ifTrue].variable;
      }
      if ifFalse != ZERO && ifFalse != ONE && nodes[ifFalse].variable < minVar {
        minVar := nodes[ifFalse].variable;
      }
    }

    /** Shannon expansion about `minVar`: computes both cofactors recursively and joins them. */
    method Expand(cond: int, ifTrue: int, ifFalse: int, minVar: int) returns (r: int)
      requires Valid() && Expandable(nodes, cond, ifTrue, ifFalse, minVar)
      modifies this`nodes, this`nodeMap, this`iteMap
      ensures Valid() && Extends(old(nodes), nodes)
      ensures forall k | k in old(nodeMap) :: k in nodeMap && nodeMap[k] == old(nodeMap)[k]
      ensures IsIte(nodes, r, cond, ifTrue, ifFalse)
      ensures forall k | k in old(iteMap) :: k in iteMap && iteMap[k] == old(iteMap)[k]
      decreases cond + ifTrue + ifFalse, 1
    {
      var trueCofactor := IteOfCofactors(cond, ifTrue, ifFalse, minVar, true);
      ghost var nodes1 := nodes;
      var falseCofactor := IteOfCofactors(cond, ifTrue, ifFalse, minVar, false);
      GrowthKeepsIteOfCofactors(nodes1, nodes, trueCofactor, cond, ifTrue, ifFalse, minVar, true);
      r := Join(cond, ifTrue, ifFalse, minVar, trueCofactor, falseCofactor);
    }

    method IteOfCofactors(cond: int, ifTrue: int, ifFalse: int, minVar: int, value: bool) returns (r: int)
      requires Valid() && Expandable(nodes, cond, ifTrue, ifFalse, minVar)
      modifies this`nodes, this`nodeMap, this`iteMap
      ensures Valid() && Extends(old(nodes), nodes)
      ensures forall k | k in old(nodeMap) :: k in nodeMap && nodeMap[k] == old(nodeMap)[k]
      ensures Expandable(nodes, cond, ifTrue, ifFalse, minVar)
      ensures IsIteOfCofactors(nodes, r, cond, ifTrue, ifFalse, minVar, value)
      ensures forall k | k in old(iteMap) :: k in iteMap && iteMap[k] == old(iteMap)[k]
      decreases cond + ifTrue + ifFalse, 0
    {
      var c := Restrict(cond, minVar, value);
      var t := Restrict(ifTrue, minVar, value);
      var f := Restrict(ifFalse, minVar, value);
      r := IfThenElse(c, t, f);
    }

    method Join(cond: int, ifTrue: int, ifFalse: int, minVar: int, trueCofactor: int, falseCofactor: int) returns (r: int)
      requires Valid() && Expandable(nodes, cond, ifTrue, ifFalse, minVar)
      requires IsIteOfCofactors(nodes, trueCofactor, cond, ifTrue, ifFalse, minVar, true)
      requires IsIteOfCofactors(nodes, falseCofactor, cond, ifTrue, ifFalse, minVar, false)
      modifies this`nodes, this`nodeMap
      ensures Valid() && Extends(old(nodes), nodes)
      ensures forall k | k in old(nodeMap) :: k in nodeMap && nodeMap[k] == old(nodeMap)[k]
      ensures IsIte(nodes, r, cond, ifTrue, ifFalse)
    {
      CofactorsAtLeast(nodes, trueCofactor, cond, ifTrue, ifFalse, minVar, true);
      CofactorsAtLeast(nodes, falseCofactor, cond, ifTrue, ifFalse, minVar, false);
      if trueCofactor == falseCofactor {
        r := trueCofactor;
      } else {
        ghost var nodes0 := nodes;
        r := GetOrCreateNode(minVar, trueCofactor, falseCofactor);
        GrowthKeepsIteOfCofactors(nodes0, nodes, trueCofactor, cond, ifTrue, ifFalse, minVar, true);
        GrowthKeepsIteOfCofactors(nodes0, nodes, falseCofactor, cond, ifTrue, ifFalse, minVar, false);
      }
      ShannonExpansion(nodes, r, cond, ifTrue, ifFalse, minVar, trueCofactor, falseCofactor);
    }

    /** A fresh variable: its node denotes the variable itself and no earlier node depends on it. */
    method NewVariable() returns (r: int)
      requires Valid()
      modifies this
      ensures Valid() && Extends(old(nodes), nodes)
      ensures nextVar == old(nextVar) + 1
      ensures |old(nodes)| <= r < |nodes|
      ensures forall a: Valuation :: Denotes(nodes, r, a) == a(old(nextVar))
      ensures nodes[r].high == ONE && nodes[r].low == ZERO
    {
      var variable := nextVar;
      nextVar := nextVar + 1;
      r := GetOrCreateNode(variable, ONE, ZERO);
    }

    method Not(expr: int) returns (r: int)
      requires Valid() && InTable(nodes, expr)
      modifies this`nodes, this`nodeMap, this`iteMap
      ensures Valid() && Extends(old(nodes), nodes) && InTable(nodes, r)
      ensures forall a: Valuation :: Denotes(nodes, r, a) == !Denotes(nodes, expr, a)
    {
      r := IfThenElse(expr, ZERO, ONE);
    }

    method Or(a: int, b: int) returns (r: int)
      requires Valid() && InTable(nodes, a) && InTable(nodes, b)
      modifies this`nodes, this`nodeMap, this`iteMap
      ensures Valid() && Extends(old(nodes), nodes) && InTable(nodes, r)
      ensures forall v: Valuation :: Denotes(nodes, r, v) == (Denotes(nodes, a, v) || Denotes(nodes, b, v))
    {
      r := IfThenElse(a, ONE, b);
    }

    method And(a: int, b: int) returns (r: int)
      requires Valid() && InTable(nodes, a) && InTable(nodes, b)
      modifies this`nodes, this`nodeMap, this`iteMap
      ensures Valid() && Extends(old(nodes), nodes) && InTable(nodes, r)
      ensures forall v: Valuation :: Denotes(nodes, r, v) == (Denotes(nodes, a, v) && Denotes(nodes, b, v))
    {
      r := IfThenElse(a, b, ZERO);
    }

    /** Follows one way; an error names the first variable on it that has no value. */
    method Evaluate(expr: int, values: map<int, bool>) returns (r: Result<bool>)
      requires Valid() && InTable(nodes, expr)
      ensures HasBases(nodes, nodeMap)
      ensures forall path | Followed(nodes, nodeMap, values, path) && path[0] == expr ::
                var last := path[|path| - 1];
                && (last < 2 ==> r == Ok(last == ONE))
                && (2 <= last && nodeMap[(nodes[last].variable, ONE, ZERO)] !in values ==>
                      r == MissingVariable(nodes[last].variable, nodeMap[(nodes[last].variable, ONE, ZERO)]))
      ensures exists path :: Followed(nodes, nodeMap, values, path) && path[0] == expr
                             && Ends(nodes, nodeMap, values, path[|path| - 1])
      ensures r.Ok? <==> exists path :: Followed(nodes, nodeMap, values, path) && path[0] == expr && path[|path| - 1] < 2
      ensures r.Ok? ==> forall a: Valuation | Agrees(nodeMap, values, a) :: r.value == Denotes(nodes, expr, a)
      ensures r.MissingVariable? ==>
                0 <= r.variable < nextVar && nodeMap[(r.variable, ONE, ZERO)] == r.baseNode && r.baseNode !in values
      ensures (forall v | 0 <= v < nextVar :: nodeMap[(v, ONE, ZERO)] in values) ==> r.Ok?
    {
      assert HasBases(nodes, nodeMap) by {
        forall v | 2 <= v < |nodes|
          ensures (nodes[v].variable, ONE, ZERO) in nodeMap
        {
          assert NodeOk(nodes, v);
        }
      }
      var result := expr;
      ghost var path := [expr];
      while result != ZERO && result != ONE
        invariant Followed(nodes, nodeMap, values, path) && path[0] == expr && path[|path| - 1] == result
        decreases result
      {
        assert NodeOk(nodes, result);
        var varNode := nodeMap[(nodes[result].variable, ONE, ZERO)];
        if varNode !in values {
          OnlyWay(nodes, nodeMap, values, path);
          return MissingVariable(nodes[result].variable, varNode);
        }
        result := if values[varNode] then nodes[result].high else nodes[result].low;
        FollowedFurther(nodes, nodeMap, values, path, result);
        path := path + [result];
      }
      OnlyWay(nodes, nodeMap, values, path);
      forall a: Valuation | Agrees(nodeMap, values, a)
        ensures (result == ONE) == Denotes(nodes, expr, a)
      {
        FollowedMeans(nodes, nodeMap, values, path, a);
      }
      return Ok(result == ONE);
    }
  }
}
