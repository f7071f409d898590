/**
 Reconstructing pipeline stages from a block, as SplitBlockIntoStages in block_generator.cc does:
 a worklist raises every node to the earliest stage its operands and registers allow, then logic is
 moved as late as its users allow.
 */
module StageSplit {
  import opened Collections
  import Graphs

  datatype Kind = InputPort | OutputPort | RegisterRead(reg: nat) | RegisterWrite(reg: nat) | Logic

  /** The first operand of a register write is its data. */
  datatype Node = Node(kind: Kind, operands: seq<nat>)

  type Block = seq<Node>

  ghost predicate BlockOk(b: Block) {
    && (forall i, k | 0 <= i < |b| && 0 <= k < |b[i].operands| :: b[i].operands[k] < |b|)
    && (forall i | 0 <= i < |b| && b[i].kind.RegisterWrite? :: 1 <= |b[i].operands|)
    && (forall i | 0 <= i < |b| && b[i].kind.RegisterRead? :: b[i].operands == [])
  }

  predicate IsUser(b: Block, u: nat, i: nat)
    requires u < |b|
  {
    i in b[u].operands
  }

  /** Node `w` writes the register that node `r` reads. */
  predicate WritesTo(b: Block, w: nat, r: nat)
    requires w < |b| && r < |b|
  {
    b[w].kind.RegisterWrite? && b[r].kind == RegisterRead(b[w].kind.reg)
  }

  /** No node is earlier than an operand, and a register is read exactly one stage after it is written. */
  ghost predicate IsPipelining(b: Block, stage: seq<int>) {
    && |stage| == |b|
    && (forall i | 0 <= i < |b| :: 0 <= stage[i])
    && (forall u, i | 0 <= u < |b| && 0 <= i < |b| && IsUser(b, u, i) :: stage[i] <= stage[u])
    && (forall w, r | 0 <= w < |b| && 0 <= r < |b| && WritesTo(b, w, r) :: stage[r] == stage[w] + 1)
  }

  ghost predicate Below(s: seq<int>, t: seq<int>) {
    |s| == |t| && forall i | 0 <= i < |s| :: s[i] <= t[i]
  }

  // ---------------------------------------------------------------------------
  // The stage graph
  // ---------------------------------------------------------------------------

  /** The target must be at least `distance` stages after the source. */
  datatype Edge = Edge(target: nat, distance: int)

  ghost predicate Justified(b: Block, source: nat, e: Edge)
    requires source < |b|
  {
    && e.target < |b|
    && match e.distance
       case 0 => IsUser(b, e.target, source)
       case 1 => WritesTo(b, source, e.target)
       case -1 => WritesTo(b, e.target, source)
       case _ => false
  }

  /** The edges out of each node are those that the two conditions on stages ask for. */
  ghost predicate IsStageGraph(b: Block, graph: seq<seq<Edge>>) {
    && |graph| == |b|
    && (forall i, k | 0 <= i < |b| && 0 <= k < |graph[i]| :: Justified(b, i, graph[i][k]))
    && (forall u | 0 <= u < |b| :: CoversNode(b, graph, u))
  }

  /** All edges that the creation of node `u` adds are there. */
  ghost predicate CoversNode(b: Block, graph: seq<seq<Edge>>, u: nat)
    requires u < |b| == |graph|
  {
    && (forall i | 0 <= i < |b| && IsUser(b, u, i) :: Edge(u, 0) in graph[i])
    && (forall r | 0 <= r < |b| && WritesTo(b, u, r) :: Edge(r, 1) in graph[u] && Edge(u, -1) in graph[r])
  }

  ghost predicate Satisfied(stage: seq<int>, i: nat, e: Edge)
    requires i < |stage| && e.target < |stage|
  {
    stage[i] + e.distance <= stage[e.target]
  }

  ghost predicate AllSatisfied(b: Block, graph: seq<seq<Edge>>, stage: seq<int>)
    requires IsStageGraph(b, graph) && |stage| == |b|
  {
    forall i, k | 0 <= i < |b| && 0 <= k < |graph[i]| :: Satisfied(stage, i, graph[i][k])
  }

  /** Meeting all minimum distances is the same as being a pipelining. */
  lemma DistancesArePipelining(b: Block, graph: seq<seq<Edge>>, stage: seq<int>)
    requires IsStageGraph(b, graph) && |stage| == |b| && forall i | 0 <= i < |b| :: 0 <= stage[i]
    ensures AllSatisfied(b, graph, stage) <==> IsPipelining(b, stage)
  {
    hide Satisfied;
    if AllSatisfied(b, graph, stage) {
      forall u, i | 0 <= u < |b| && 0 <= i < |b| && IsUser(b, u, i)
        ensures stage[i] <= stage[u]
      {
        assert CoversNode(b, graph, u);
        EdgeGives(b, graph, stage, i, Edge(u, 0));
      }
      forall w, r | 0 <= w < |b| && 0 <= r < |b| && WritesTo(b, w, r)
        ensures stage[r] == stage[w] + 1
      {
        assert CoversNode(b, graph, w);
        EdgeGives(b, graph, stage, w, Edge(r, 1));
        EdgeGives(b, graph, stage, r, Edge(w, -1));
      }
    }
    if IsPipelining(b, stage) {
      forall i, k | 0 <= i < |b| && 0 <= k < |graph[i]|
        ensures Satisfied(stage, i, graph[i][k])
      {
        PipeliningGives(b, stage, i, graph[i][k]);
      }
    }
  }

  lemma EdgeGives(b: Block, graph: seq<seq<Edge>>, stage: seq<int>, i: nat, e: Edge)
    requires IsStageGraph(b, graph) && |stage| == |b| && AllSatisfied(b, graph, stage) && i < |b| && e in graph[i]
    ensures e.target < |b| && stage[i] + e.distance <= stage[e.target]
  {
    var k :| 0 <= k < |graph[i]| && graph[i][k] == e;
    assert Satisfied(stage, i, graph[i][k]);
  }

  lemma PipeliningGives(b: Block, stage: seq<int>, i: nat, e: Edge)
    requires IsPipelining(b, stage) && i < |b| && Justified(b, i, e)
    ensures Satisfied(stage, i, e)
  {
  }

  datatype Result<+T> = Ok(value: T) | NoUniqueRead(reg: nat) | NotAPipeline | DataElsewhere(write: nat)

  ghost predicate UniqueRead(b: Block, reg: nat, r: nat) {
    && r < |b| && b[r].kind == RegisterRead(reg)
    && forall j | 0 <= j < |b| && b[j].kind == RegisterRead(reg) :: j == r
  }

  ghost predicate ReadsUnique(b: Block) {
    forall w | 0 <= w < |b| && b[w].kind.RegisterWrite? :: exists r: nat :: UniqueRead(b, b[w].kind.reg, r)
  }

  method GetRegisterRead(b: Block, reg: nat) returns (r: Result<nat>)
    ensures r.Ok? ==> UniqueRead(b, reg, r.value)
    ensures !r.Ok? ==> r == NoUniqueRead(reg) && forall j: nat :: !UniqueRead(b, reg, j)
  {
    r := NoUniqueRead(reg);
    for i := 0 to |b|
      invariant r.Ok? ==> r.value < i && b[r.value].kind == RegisterRead(reg)
      invariant r.Ok? ==> forall j | 0 <= j < i && b[j].kind == RegisterRead(reg) :: j == r.value
      invariant !r.Ok? ==> r == NoUniqueRead(reg) && forall j | 0 <= j < i :: b[j].kind != RegisterRead(reg)
    {
      if b[i].kind == RegisterRead(reg) {
        if r.Ok? {
          assert forall j: nat :: !UniqueRead(b, reg, j);
          return NoUniqueRead(reg);
        }
        r := Ok(i);
      }
    }
  }

  /** The first register write in the block whose register has no unique read writes register `reg`. */
  ghost predicate FirstUnread(b: Block, reg: nat) {
    exists w: nat ::
      && w < |b| && b[w].kind == RegisterWrite(reg) && (forall r: nat :: !UniqueRead(b, reg, r))
      && forall v | 0 <= v < w && b[v].kind.RegisterWrite? :: exists r: nat :: UniqueRead(b, b[v].kind.reg, r)
  }

  method BuildStageGraph(b: Block) returns (r: Result<seq<seq<Edge>>>)
    requires BlockOk(b)
    ensures r.Ok? ==> ReadsUnique(b) && IsStageGraph(b, r.value)
    ensures !r.Ok? ==> r.NoUniqueRead? && !ReadsUnique(b) && FirstUnread(b, r.reg)
  {
    var graph: seq<seq<Edge>> := seq(|b|, _ => []);
    for u := 0 to |b|
      invariant |graph| == |b|
      invariant forall i, k | 0 <= i < |b| && 0 <= k < |graph[i]| :: Justified(b, i, graph[i][k])
      invariant forall v | 0 <= v < u :: CoversNode(b, graph, v)
      invariant forall w | 0 <= w < u && b[w].kind.RegisterWrite? :: exists r: nat :: UniqueRead(b, b[w].kind.reg, r)
    {
      ghost var graph0 := graph;
      graph := AddOperandEdges(b, graph, u);
      ghost var graph1 := graph;
      if b[u].kind.RegisterWrite? {
        var read := GetRegisterRead(b, b[u].kind.reg);
        if !read.Ok? {
          assert FirstUnread(b, b[u].kind.reg);
          return NoUniqueRead(b[u].kind.reg);
        }
        graph := AddRegisterEdges(b, graph, u, read.value);
      }
      assert CoversNode(b, graph, u);
      forall v | 0 <= v < u
        ensures CoversNode(b, graph, v)
      {
        CoveredStays(b, graph0, graph1, v);
        CoveredStays(b, graph1, graph, v);
      }
    }
    return Ok(graph);
  }

  /** Edges are only added. */
  ghost predicate Keeps(graph: seq<seq<Edge>>, graph': seq<seq<Edge>>) {
    |graph| == |graph'| && forall i, e | 0 <= i < |graph| && e in graph[i] :: e in graph'[i]
  }

  lemma CoveredStays(b: Block, graph: seq<seq<Edge>>, graph': seq<seq<Edge>>, v: nat)
    requires v < |b| == |graph| && CoversNode(b, graph, v) && Keeps(graph, graph')
    ensures CoversNode(b, graph', v)
  {
  }

  method AddOperandEdges(b: Block, graph0: seq<seq<Edge>>, u: nat) returns (graph: seq<seq<Edge>>)
    requires BlockOk(b) && |graph0| == |b| && u < |b|
    requires forall i, k | 0 <= i < |b| && 0 <= k < |graph0[i]| :: Justified(b, i, graph0[i][k])
    ensures |graph| == |b| && Keeps(graph0, graph)
    ensures forall i, k | 0 <= i < |b| && 0 <= k < |graph[i]| :: Justified(b, i, graph[i][k])
    ensures forall i | 0 <= i < |b| && IsUser(b, u, i) :: Edge(u, 0) in graph[i]
  {
    graph := graph0;
    for k := 0 to |b[u].operands|
      invariant |graph| == |b| && Keeps(graph0, graph)
      invariant forall i, k | 0 <= i < |b| && 0 <= k < |graph[i]| :: Justified(b, i, graph[i][k])
      invariant forall j | 0 <= j < k :: Edge(u, 0) in graph[b[u].operands[j]]
    {
      var operand := b[u].operands[k];
      graph := graph[operand := graph[operand] + [Edge(u, 0)]];
    }
  }

  method AddRegisterEdges(b: Block, graph0: seq<seq<Edge>>, u: nat, read: nat) returns (graph: seq<seq<Edge>>)
    requires |graph0| == |b| && u < |b| && b[u].kind.RegisterWrite? && UniqueRead(b, b[u].kind.reg, read)
    requires forall i, k | 0 <= i < |b| && 0 <= k < |graph0[i]| :: Justified(b, i, graph0[i][k])
    ensures |graph| == |b| && Keeps(graph0, graph)
    ensures forall i, k | 0 <= i < |b| && 0 <= k < |graph[i]| :: Justified(b, i, graph[i][k])
    ensures forall r | 0 <= r < |b| && WritesTo(b, u, r) :: Edge(r, 1) in graph[u] && Edge(u, -1) in graph[r]
  {
    graph := graph0[u := graph0[u] + [Edge(read, 1)]];
    graph := graph[read := graph[read] + [Edge(u, -1)]];
  }

  // ---------------------------------------------------------------------------
  // Least stages
  // ---------------------------------------------------------------------------

  /** How far all stages together are below `n`. */
  ghost function Slack(stage: seq<int>, n: int): int {
    if stage == [] then 0 else n - stage[0] + Slack(stage[1..], n)
  }

  lemma {:induction false} SlackNonNegative(stage: seq<int>, n: int)
    requires forall i | 0 <= i < |stage| :: stage[i] <= n
    ensures 0 <= Slack(stage, n)
  {
    if stage != [] {
      SlackNonNegative(stage[1..], n);
    }
  }

  lemma {:induction false} RaisingLowersSlack(stage: seq<int>, n: int, i: nat, v: int)
    requires i < |stage|
    ensures Slack(stage[i := v], n) == Slack(stage, n) - (v - stage[i])
  {
    if i > 0 {
      RaisingLowersSlack(stage[1..], n, i - 1, v);
      assert stage[i := v][1..] == stage[1..][i - 1 := v];
    } else {
      assert stage[i := v][1..] == stage[1..];
    }
  }

  /** Every edge is satisfied, or its source is still to be looked at. */
  ghost predicate Pending(graph: seq<seq<Edge>>, stage: seq<int>, work: seq<nat>)
    requires |graph| == |stage|
    requires forall i, k | 0 <= i < |graph| && 0 <= k < |graph[i]| :: graph[i][k].target < |graph|
  {
    forall i, k | 0 <= i < |graph| && i !in work && 0 <= k < |graph[i]| :: Satisfied(stage, i, graph[i][k])
  }

  /** No pipelining is below the stages reached so far. */
  ghost predicate Least(b: Block, stage: seq<int>) {
    forall a | IsPipelining(b, a) :: Below(stage, a)
  }

  /** The bounds on stages while the worklist runs. */
  ghost predicate InRange(b: Block, stage: seq<int>, maxStage: int) {
    && |stage| == |b|
    && (forall i | 0 <= i < |b| :: 0 <= stage[i] <= |b| && stage[i] <= maxStage)
    && (maxStage == 0 || exists i :: 0 <= i < |b| && stage[i] == maxStage)
  }

  /** Relaxes the edges out of `source`. */
  method Relax(b: Block, graph: seq<seq<Edge>>, stage0: seq<int>, work0: seq<nat>, max0: int, source: nat)
    returns (stage: seq<int>, work: seq<nat>, maxStage: int)
    requires IsStageGraph(b, graph) && InRange(b, stage0, max0) && Least(b, stage0)
    requires source < |b| && stage0[source] < |b| && (forall j | 0 <= j < |work0| :: work0[j] < |b|)
    requires Pending(graph, stage0, work0 + [source])
    ensures InRange(b, stage, maxStage) && Least(b, stage) && (forall j | 0 <= j < |work| :: work[j] < |b|)
    ensures Pending(graph, stage, work)
    ensures Slack(stage, |b|) < Slack(stage0, |b|) || (Slack(stage, |b|) == Slack(stage0, |b|) && work == work0)
  {
    stage, work, maxStage := stage0, work0, max0;
    for k := 0 to |graph[source]|
      invariant InRange(b, stage, maxStage) && Least(b, stage) && (forall j | 0 <= j < |work| :: work[j] < |b|)
      invariant stage[source] == stage0[source]
      invariant Pending(graph, stage, work + [source])
      invariant forall j | 0 <= j < k :: Satisfied(stage, source, graph[source][j])
      invariant Slack(stage, |b|) < Slack(stage0, |b|) || (Slack(stage, |b|) == Slack(stage0, |b|) && work == work0)
    {
      var edge := graph[source][k];
      var minStage := stage[source] + edge.distance;
      if stage[edge.target] < minStage {
        RaiseKeepsLeast(b, stage, source, edge);
        RaisingLowersSlack(stage, |b|, edge.target, minStage);
        RaiseKeepsPending(b, graph, stage, work, source, edge.target, minStage);
        RaiseInRange(b, stage, maxStage, edge.target, minStage);
        stage := stage[edge.target := minStage];
        maxStage := if maxStage < minStage then minStage else maxStage;
        work := work + [edge.target];
      }
    }
  }

  lemma RaiseInRange(b: Block, stage: seq<int>, maxStage: int, target: nat, v: int)
    requires InRange(b, stage, maxStage) && target < |b| && stage[target] < v <= |b|
    ensures InRange(b, stage[target := v], if maxStage < v then v else maxStage)
  {
    var stage' := stage[target := v];
    if maxStage < v {
      assert stage'[target] == v;
    } else if i :| 0 <= i < |b| && stage[i] == maxStage {
      assert stage'[if i == target then target else i] == maxStage;
    }
  }

  lemma RaiseKeepsLeast(b: Block, stage: seq<int>, source: nat, e: Edge)
    requires |stage| == |b| && Least(b, stage) && source < |b| && Justified(b, source, e)
    ensures Least(b, stage[e.target := stage[source] + e.distance])
  {
    forall a | IsPipelining(b, a)
      ensures Below(stage[e.target := stage[source] + e.distance], a)
    {
      assert Below(stage, a);
      PipeliningGives(b, a, source, e);
    }
  }

  lemma RaiseKeepsPending(b: Block, graph: seq<seq<Edge>>, stage: seq<int>, work: seq<nat>, source: nat, target: nat, v: int)
    requires IsStageGraph(b, graph) && |stage| == |b| && Pending(graph, stage, work + [source])
    requires target < |b| && stage[target] < v
    ensures Pending(graph, stage[target := v], work + [target] + [source])
  {
    var stage', work' := stage[target := v], work + [target] + [source];
    forall i, k | 0 <= i < |graph| && i !in work' && 0 <= k < |graph[i]|
      ensures Satisfied(stage', i, graph[i][k])
    {
      assert i !in work + [source] && i != target;
      assert Satisfied(stage, i, graph[i][k]);
    }
  }

  // ---------------------------------------------------------------------------
  // Infeasibility
  // ---------------------------------------------------------------------------

  ghost function ValuesBelow(s: seq<int>, x: int): set<int> {
    set v | v in s && v < x
  }

  lemma {:induction false} FewValues(s: seq<int>)
    ensures |set v | v in s| <= |s|
  {
    if s != [] {
      FewValues(s[1..]);
      assert (set v | v in s) == {s[0]} + (set v | v in s[1..]);
    }
  }

  /** Renumbering the stages of a pipelining without gaps. */
  ghost function Compressed(s: seq<int>): seq<int> {
    seq(|s|, i requires 0 <= i < |s| => |ValuesBelow(s, s[i])|)
  }

  /** If there is a pipelining, there is one with fewer stages than the block has nodes. */
  lemma CompressedIsPipelining(b: Block, a: seq<int>)
    requires IsPipelining(b, a)
    ensures IsPipelining(b, Compressed(a))
    ensures forall i | 0 <= i < |b| :: Compressed(a)[i] < |b|
  {
    var c := Compressed(a);
    forall i | 0 <= i < |b|
      ensures c[i] < |b|
    {
      FewValues(a);
      var all := set v | v in a;
      SubsetSmaller(ValuesBelow(a, a[i]) + {a[i]}, all);
    }
    forall u, i | 0 <= u < |b| && 0 <= i < |b| && IsUser(b, u, i)
      ensures c[i] <= c[u]
    {
      SubsetSmaller(ValuesBelow(a, a[i]), ValuesBelow(a, a[u]));
    }
    forall w, r | 0 <= w < |b| && 0 <= r < |b| && WritesTo(b, w, r)
      ensures c[r] == c[w] + 1
    {
      assert ValuesBelow(a, a[r]) == ValuesBelow(a, a[w]) + {a[w]};
    }
  }

  /** A stage as high as the number of nodes means that there is no pipelining. */
  lemma TooHighMeansNone(b: Block, stage: seq<int>, i: nat)
    requires Least(b, stage) && i < |b| == |stage| && |b| <= stage[i]
    ensures forall a :: !IsPipelining(b, a)
  {
    forall a
      ensures !IsPipelining(b, a)
    {
      if IsPipelining(b, a) {
        CompressedIsPipelining(b, a);
      }
    }
  }

  /** The worklist. It gives up exactly when the block is no pipeline, and otherwise finds the least pipelining. */
  method LeastStages(b: Block, graph: seq<seq<Edge>>) returns (ok: bool, stage: seq<int>, maxStage: int)
    requires IsStageGraph(b, graph)
    ensures ok ==> IsPipelining(b, stage) && Least(b, stage) && InRange(b, stage, maxStage)
    ensures !ok ==> forall a :: !IsPipelining(b, a)
  {
    hide Slack;
    stage := seq(|b|, _ => 0);
    var work: seq<nat> := seq(|b|, i => i);
    maxStage := 0;
    forall i | 0 <= i < |b|
      ensures i in work
    {
      assert work[i] == i;
    }
    while work != []
      invariant InRange(b, stage, maxStage) && Least(b, stage)
      invariant forall j | 0 <= j < |work| :: work[j] < |b|
      invariant Pending(graph, stage, work)
      decreases Slack(stage, |b|), |work|
    {
      SlackNonNegative(stage, |b|);
      var source := work[0];
      assert forall i | i in work :: i == source || i in work[1..];
      work := work[1..];
      if stage[source] >= |b| {
        TooHighMeansNone(b, stage, source);
        return false, stage, maxStage;
      }
      stage, work, maxStage := Relax(b, graph, stage, work, maxStage, source);
      SlackNonNegative(stage, |b|);
    }
    DistancesArePipelining(b, graph, stage);
    return true, stage, maxStage;
  }

  // ---------------------------------------------------------------------------
  // Latest stages
  // ---------------------------------------------------------------------------

  /** A topological order: every node once, after its operands. */
  ghost predicate IsTopoSort(b: Block, order: seq<nat>) {
    && (forall p | 0 <= p < |order| :: order[p] < |b|)
    && (forall i | 0 <= i < |b| :: i in order)
    && (forall p, q | 0 <= p < |order| && 0 <= q < |order| && order[p] == order[q] :: p == q)
    && (forall p, q | 0 <= p < |order| && 0 <= q < |order| && IsUser(b, order[q], order[p]) :: p < q)
  }

  predicate HasUsers(b: Block, i: nat) {
    exists u | 0 <= u < |b| :: IsUser(b, u, i)
  }

  /** Registers and nodes without users stay where they are. */
  predicate Movable(b: Block, i: nat)
    requires i < |b|
  {
    HasUsers(b, i) && !b[i].kind.RegisterRead? && !b[i].kind.RegisterWrite?
  }

  /** A read or write of a register, or a node that nothing uses. */
  ghost predicate IsFixed(b: Block, i: nat)
    requires i < |b|
  {
    b[i].kind.RegisterRead? || b[i].kind.RegisterWrite? || forall u | 0 <= u < |b| :: !IsUser(b, u, i)
  }

  ghost predicate SharesStageWithUser(b: Block, stage: seq<int>, i: nat)
    requires i < |b| == |stage|
  {
    exists u :: 0 <= u < |b| && IsUser(b, u, i) && stage[u] == stage[i]
  }

  /** Every node that is not fixed is in the stage of one of its users. */
  ghost predicate Latest(b: Block, stage: seq<int>)
    requires |stage| == |b|
  {
    forall i | 0 <= i < |b| && !IsFixed(b, i) :: SharesStageWithUser(b, stage, i)
  }

  method EarliestUser(b: Block, stage: seq<int>, i: nat) returns (v: int)
    requires i < |b| == |stage| && HasUsers(b, i)
    ensures exists u :: 0 <= u < |b| && IsUser(b, u, i) && stage[u] == v
    ensures forall u | 0 <= u < |b| && IsUser(b, u, i) :: v <= stage[u]
  {
    var first := 0;
    while !IsUser(b, first, i)
      invariant 0 <= first < |b|
      invariant forall u | 0 <= u < first :: !IsUser(b, u, i)
      decreases |b| - first
    {
      first := first + 1;
    }
    v := stage[first];
    ghost var user := first;
    for u := 0 to |b|
      invariant 0 <= user < |b| && IsUser(b, user, i) && stage[user] == v
      invariant forall w | 0 <= w < u && IsUser(b, w, i) :: v <= stage[w]
    {
      if IsUser(b, u, i) && stage[u] < v {
        v, user := stage[u], u;
      }
    }
  }

  /** Moves logic to the latest stage its users allow, last nodes first. */
  method MoveToLatest(b: Block, order: seq<nat>, least: seq<int>, maxStage: int) returns (stage: seq<int>)
    requires IsTopoSort(b, order) && IsPipelining(b, least) && InRange(b, least, maxStage)
    ensures IsPipelining(b, stage) && Below(least, stage) && Latest(b, stage)
    ensures forall i | 0 <= i < |b| && IsFixed(b, i) :: stage[i] == least[i]
    ensures forall i | 0 <= i < |b| :: stage[i] <= maxStage
    ensures maxStage == 0 || exists i :: 0 <= i < |b| && stage[i] == maxStage
  {
    hide InRange, SharesStageWithUser, IsTopoSort;
    assert forall p | 0 <= p < |order| :: order[p] < |b| by {
      OrderInBlock(b, order);
    }
    assert forall i | 0 <= i < |b| :: least[i] <= maxStage by {
      LeastBounded(b, least, maxStage);
    }
    stage := least;
    for p := |order| downto 0
      invariant IsPipelining(b, stage) && Below(least, stage)
      invariant forall i | 0 <= i < |b| && IsFixed(b, i) :: stage[i] == least[i]
      invariant forall i | 0 <= i < |b| :: stage[i] <= maxStage
      invariant forall q | p <= q < |order| && !IsFixed(b, order[q]) :: SharesStageWithUser(b, stage, order[q])
    {
      var node := order[p];
      if Movable(b, node) {
        var v := EarliestUser(b, stage, node);
        MoveKeepsPipelining(b, stage, node, v);
        MoveKeepsShared(b, order, stage, p, v);
        stage := stage[node := v];
      }
    }
    AllShared(b, order, stage);
    LastIsReached(b, least, stage, maxStage);
  }

  lemma LastIsReached(b: Block, least: seq<int>, stage: seq<int>, maxStage: int)
    requires InRange(b, least, maxStage) && Below(least, stage) && forall i | 0 <= i < |b| :: stage[i] <= maxStage
    ensures maxStage == 0 || exists i :: 0 <= i < |b| && stage[i] == maxStage
  {
    if maxStage != 0 {
      var i :| 0 <= i < |b| && least[i] == maxStage;
      assert stage[i] == maxStage;
    }
  }

  lemma AllShared(b: Block, order: seq<nat>, stage: seq<int>)
    requires IsTopoSort(b, order) && |stage| == |b|
    requires forall q | 0 <= q < |order| && !IsFixed(b, order[q]) :: SharesStageWithUser(b, stage, order[q])
    ensures Latest(b, stage)
  {
    hide IsFixed, SharesStageWithUser;
    forall i | 0 <= i < |b| && !IsFixed(b, i)
      ensures SharesStageWithUser(b, stage, i)
    {
      assert i in order;
      var q :| 0 <= q < |order| && order[q] == i;
      assert !IsFixed(b, order[q]);
    }
  }

  lemma OrderInBlock(b: Block, order: seq<nat>)
    requires IsTopoSort(b, order)
    ensures forall p | 0 <= p < |order| :: order[p] < |b|
  {
  }

  lemma LeastBounded(b: Block, stage: seq<int>, maxStage: int)
    requires InRange(b, stage, maxStage)
    ensures forall i | 0 <= i < |b| :: stage[i] <= maxStage
  {
  }

  lemma MoveKeepsPipelining(b: Block, stage: seq<int>, node: nat, v: int)
    requires IsPipelining(b, stage) && node < |b| && !IsFixed(b, node)
    requires exists u :: 0 <= u < |b| && IsUser(b, u, node) && stage[u] == v
    requires forall u | 0 <= u < |b| && IsUser(b, u, node) :: v <= stage[u]
    ensures IsPipelining(b, stage[node := v]) && stage[node] <= v
  {
  }

  lemma MoveKeepsShared(b: Block, order: seq<nat>, stage: seq<int>, p: nat, v: int)
    requires IsTopoSort(b, order) && |stage| == |b| && p < |order|
    requires exists u :: 0 <= u < |b| && IsUser(b, u, order[p]) && stage[u] == v
    requires forall q | p < q < |order| && !IsFixed(b, order[q]) :: SharesStageWithUser(b, stage, order[q])
    ensures forall q | p <= q < |order| && !IsFixed(b, order[q]) :: SharesStageWithUser(b, stage[order[p] := v], order[q])
  {
    var stage' := stage[order[p] := v];
    forall q | p <= q < |order| && !IsFixed(b, order[q])
      ensures SharesStageWithUser(b, stage', order[q])
    {
      var u :| 0 <= u < |b| && IsUser(b, u, order[q]) && stage[u] == if q == p then v else stage[order[q]];
      assert u in order;
      var r :| 0 <= r < |order| && order[r] == u;
      assert IsUser(b, order[r], order[q]);
      assert stage'[u] == stage'[order[q]];
    }
  }

  /** A latest pipelining is the greatest one with the same registers and outputs. */
  lemma {:induction false} LatestIsGreatest(b: Block, order: seq<nat>, stage: seq<int>, a: seq<int>, p: nat)
    requires IsTopoSort(b, order) && IsPipelining(b, stage) && Latest(b, stage) && IsPipelining(b, a)
    requires forall i | 0 <= i < |b| && IsFixed(b, i) :: a[i] == stage[i]
    requires p < |order|
    ensures a[order[p]] <= stage[order[p]]
    decreases |order| - p
  {
    var i := order[p];
    if !IsFixed(b, i) {
      assert SharesStageWithUser(b, stage, i);
      var u :| 0 <= u < |b| && IsUser(b, u, i) && stage[u] == stage[i];
      assert u in order;
      var q :| 0 <= q < |order| && order[q] == u;
      assert IsUser(b, order[q], order[p]);
      LatestIsGreatest(b, order, stage, a, q);
    }
  }

  // ---------------------------------------------------------------------------
  // The stages
  // ---------------------------------------------------------------------------

  datatype Slot = Reads | Combinational | Writes | Skipped

  function SlotOf(k: Kind): Slot {
    match k
    case InputPort => Skipped
    case OutputPort => Skipped
    case RegisterRead(_) => Reads
    case RegisterWrite(_) => Writes
    case Logic => Combinational
  }

  datatype Stage = Stage(regReads: seq<nat>, logic: seq<nat>, regWrites: seq<nat>, registers: seq<nat>)

  /** The nodes of stage `k` that go into a slot, in the order given, among the first `n`. */
  ghost function Members(b: Block, order: seq<nat>, stage: seq<int>, n: nat, k: int, slot: Slot): seq<nat>
    requires n <= |order| && |stage| == |b| && forall p | 0 <= p < |order| :: order[p] < |b|
  {
    if n == 0 then []
    else
      var i := order[n - 1];
      Members(b, order, stage, n - 1, k, slot) + if stage[i] == k && SlotOf(b[i].kind) == slot then [i] else []
  }

  ghost predicate Holds(b: Block, order: seq<nat>, stage: seq<int>, n: nat, k: int, s: Stage)
    requires n <= |order| && |stage| == |b| && forall p | 0 <= p < |order| :: order[p] < |b|
  {
    && s.regReads == Members(b, order, stage, n, k, Reads)
    && s.logic == Members(b, order, stage, n, k, Combinational)
    && s.regWrites == Members(b, order, stage, n, k, Writes)
    && s.registers == Registers(b, s.regWrites)
  }

  /** The registers that nodes write. */
  ghost function Registers(b: Block, writes: seq<nat>): seq<nat> {
    if writes == [] then []
    else
      var w := writes[|writes| - 1];
      Registers(b, writes[..|writes| - 1]) + if w < |b| && b[w].kind.RegisterWrite? then [b[w].kind.reg] else []
  }

  /** The stage with a node added to the lists it belongs to. */
  function Placed(b: Block, node: nat, s: Stage): Stage
    requires node < |b|
  {
    match b[node].kind
    case InputPort => s
    case OutputPort => s
    case RegisterWrite(reg) => s.(regWrites := s.regWrites + [node], registers := s.registers + [reg])
    case RegisterRead(_) => s.(regReads := s.regReads + [node])
    case Logic => s.(logic := s.logic + [node])
  }

  lemma NothingPlaced(b: Block, order: seq<nat>, stage: seq<int>)
    requires |stage| == |b| && forall p | 0 <= p < |order| :: order[p] < |b|
    ensures forall k: nat :: Holds(b, order, stage, 0, k, Stage([], [], [], []))
  {
  }

  lemma HoldsNext(b: Block, order: seq<nat>, stage: seq<int>, n: nat, k: int, s: Stage)
    requires n < |order| && |stage| == |b| && (forall p | 0 <= p < |order| :: order[p] < |b|)
    requires Holds(b, order, stage, n, k, s)
    ensures Holds(b, order, stage, n + 1, k, if k == stage[order[n]] then Placed(b, order[n], s) else s)
  {
    var node := order[n];
    assert (s.regWrites + [node])[..|s.regWrites|] == s.regWrites;
    assert s.regWrites + [] == s.regWrites && s.regReads + [] == s.regReads && s.logic + [] == s.logic;
  }

  method Gather(b: Block, order: seq<nat>, stage: seq<int>, maxStage: nat) returns (stages: seq<Stage>)
    requires |stage| == |b| && forall p | 0 <= p < |order| :: order[p] < |b|
    requires forall i | 0 <= i < |b| :: 0 <= stage[i] <= maxStage
    ensures |stages| == maxStage + 1
    ensures forall k | 0 <= k <= maxStage :: Holds(b, order, stage, |order|, k, stages[k])
  {
    hide Holds, Placed;
    NothingPlaced(b, order, stage);
    stages := seq(maxStage + 1, _ => Stage([], [], [], []));
    for n := 0 to |order|
      invariant |stages| == maxStage + 1
      invariant forall k | 0 <= k <= maxStage :: Holds(b, order, stage, n, k, stages[k])
    {
      var node := order[n];
      var k := stage[node];
      forall j | 0 <= j <= maxStage
        ensures Holds(b, order, stage, n + 1, j, if j == k then Placed(b, node, stages[j]) else stages[j])
      {
        HoldsNext(b, order, stage, n, j, stages[j]);
      }
      stages := stages[k := Placed(b, node, stages[k])];
    }
  }

  /** The assignment that the algorithm arrives at: registers and outputs in the earliest stage possible in any
      pipelining, everything else as late as its users allow. */
  ghost predicate Canonical(b: Block, stage: seq<int>) {
    && IsPipelining(b, stage) && Latest(b, stage)
    && forall a, i | IsPipelining(b, a) && 0 <= i < |b| && IsFixed(b, i) :: stage[i] <= a[i]
  }

  // ---------------------------------------------------------------------------
  // Which blocks are refused
  // ---------------------------------------------------------------------------

  /** A walk of `n` minimum distances to node `i` adds up to `d`. */
  ghost predicate WalkTo(b: Block, i: nat, d: int, n: nat)
    requires i < |b|
    decreases n
  {
    if n == 0 then d == 0
    else exists j: nat, e | j < |b| && Justified(b, j, e) && e.target == i :: WalkTo(b, j, d - e.distance, n - 1)
  }

  /** The greatest distance of a walk to node `i`. */
  ghost predicate IsDepth(b: Block, i: nat, d: int)
    requires i < |b|
  {
    && (exists n: nat :: WalkTo(b, i, d, n))
    && (forall d', n: nat | WalkTo(b, i, d', n) :: d' <= d)
  }

  lemma WalkExtends(b: Block, j: nat, d: int, n: nat, e: Edge)
    requires j < |b| && WalkTo(b, j, d, n) && Justified(b, j, e)
    ensures WalkTo(b, e.target, d + e.distance, n + 1)
  {
    assert d + e.distance - e.distance == d;
  }

  /** Walks stay below every pipelining. */
  lemma {:induction false} WalkBelow(b: Block, a: seq<int>, i: nat, d: int, n: nat)
    requires IsPipelining(b, a) && i < |b| && WalkTo(b, i, d, n)
    ensures d <= a[i]
    decreases n
  {
    if n > 0 {
      var j: nat, e :| j < |b| && Justified(b, j, e) && e.target == i && WalkTo(b, j, d - e.distance, n - 1);
      WalkBelow(b, a, j, d - e.distance, n - 1);
      PipeliningGives(b, a, j, e);
    }
  }

  lemma {:induction false} Deepen(b: Block, i: nat, bound: int, d: int, n: nat) returns (depth: int)
    requires i < |b| && WalkTo(b, i, d, n) && forall d', n': nat | WalkTo(b, i, d', n') :: d' <= bound
    ensures IsDepth(b, i, depth)
    decreases bound - d
  {
    if d', n': nat :| WalkTo(b, i, d', n') && d' > d {
      depth := Deepen(b, i, bound, d', n');
    } else {
      depth := d;
    }
  }

  lemma {:induction false} DepthsOfFirst(b: Block, bound: seq<int>, k: nat) returns (depths: seq<int>)
    requires k <= |b| == |bound| && forall i: nat, d, n: nat | i < |b| && WalkTo(b, i, d, n) :: d <= bound[i]
    ensures |depths| == k && forall i | 0 <= i < k :: IsDepth(b, i, depths[i])
  {
    depths := [];
    if k > 0 {
      depths := DepthsOfFirst(b, bound, k - 1);
      var depth := Deepen(b, k - 1, bound[k - 1], 0, 0);
      depths := depths + [depth];
    }
  }

  lemma DepthsFollow(b: Block, depths: seq<int>, j: nat, e: Edge)
    requires |depths| == |b| && forall i | 0 <= i < |b| :: IsDepth(b, i, depths[i])
    requires j < |b| && Justified(b, j, e)
    ensures depths[j] + e.distance <= depths[e.target]
  {
    hide WalkTo;
    assert IsDepth(b, j, depths[j]) && IsDepth(b, e.target, depths[e.target]);
    var n: nat :| WalkTo(b, j, depths[j], n);
    WalkExtends(b, j, depths[j], n, e);
  }

  /** Where walks are bounded, the depths are a pipelining. */
  lemma DepthsArePipelining(b: Block, depths: seq<int>)
    requires |depths| == |b| && forall i | 0 <= i < |b| :: IsDepth(b, i, depths[i])
    ensures IsPipelining(b, depths)
  {
    forall i | 0 <= i < |b|
      ensures 0 <= depths[i]
    {
      assert IsDepth(b, i, depths[i]) && WalkTo(b, i, 0, 0);
    }
    hide WalkTo, IsDepth;
    forall u, i | 0 <= u < |b| && 0 <= i < |b| && IsUser(b, u, i)
      ensures depths[i] <= depths[u]
    {
      DepthsFollow(b, depths, i, Edge(u, 0));
    }
    forall w, r | 0 <= w < |b| && 0 <= r < |b| && WritesTo(b, w, r)
      ensures depths[r] == depths[w] + 1
    {
      DepthsFollow(b, depths, w, Edge(r, 1));
      DepthsFollow(b, depths, r, Edge(w, -1));
    }
  }

  /** A stage that is the least in any pipelining is the depth. */
  lemma LeastIsDepth(b: Block, s: seq<int>, i: nat)
    requires IsPipelining(b, s) && i < |b| && forall a | IsPipelining(b, a) :: s[i] <= a[i]
    ensures IsDepth(b, i, s[i])
  {
    forall i: nat, d, n: nat | i < |b| && WalkTo(b, i, d, n)
      ensures d <= s[i]
    {
      WalkBelow(b, s, i, d, n);
    }
    hide WalkTo, IsPipelining;
    var depths := DepthsOfFirst(b, s, |b|);
    DepthsArePipelining(b, depths);
    assert IsDepth(b, i, depths[i]);
  }

  /** No walk is as long as the number of nodes. */
  ghost predicate WalksBounded(b: Block) {
    forall i: nat, d, n: nat | i < |b| && WalkTo(b, i, d, n) :: d < |b|
  }

  /** A block can be pipelined exactly when its walks are bounded. */
  lemma PipelinableExactly(b: Block)
    ensures (exists a :: IsPipelining(b, a)) <==> WalksBounded(b)
  {
    hide WalkTo, IsPipelining;
    if a :| IsPipelining(b, a) {
      CompressedBounds(b, a);
    }
    if WalksBounded(b) {
      var depths := DepthsOfFirst(b, seq(|b|, _ => |b|), |b|);
      DepthsArePipelining(b, depths);
    }
  }

  lemma CompressedBounds(b: Block, a: seq<int>)
    requires IsPipelining(b, a)
    ensures WalksBounded(b)
  {
    hide WalkTo;
    CompressedIsPipelining(b, a);
    forall i: nat, d, n: nat | i < |b| && WalkTo(b, i, d, n)
      ensures d < |b|
    {
      WalkBelow(b, Compressed(a), i, d, n);
    }
  }

  // ---------------------------------------------------------------------------
  // Dependencies
  // ---------------------------------------------------------------------------

  function NumbersBelow(n: nat): (s: set<nat>)
    ensures |s| == n && forall i: nat :: i in s <==> i < n
  {
    if n == 0 then {} else NumbersBelow(n - 1) + {n - 1}
  }

  /** From a node to its users, and from a register's write to its read. */
  function Dependencies(b: Block): Graphs.Graph<nat> {
    map i | i in NumbersBelow(|b|) :: set j | j in NumbersBelow(|b|) && (IsUser(b, j, i) || WritesTo(b, i, j))
  }

  /** No register has two writes. */
  predicate SingleWrites(b: Block) {
    forall v, w | 0 <= v < |b| && 0 <= w < |b| && b[v].kind.RegisterWrite? && b[w].kind == b[v].kind :: v == w
  }

  /** A path of dependencies, counting those through registers. */
  ghost predicate DependencyPath(b: Block, p: seq<nat>) {
    Graphs.IsPath(Dependencies(b), p) && forall k | 0 <= k < |p| :: p[k] < |b|
  }

  ghost predicate PathTo(b: Block, p: seq<nat>, i: nat) {
    DependencyPath(b, p) && p[|p| - 1] == i
  }

  /** The number of registers that a path passes through. */
  ghost function RegistersOn(b: Block, p: seq<nat>): nat
    requires DependencyPath(b, p)
  {
    if |p| == 1 then 0
    else RegistersOn(b, Shorter(b, p)) + if b[p[|p| - 1]].kind.RegisterRead? then 1 else 0
  }

  ghost function Shorter(b: Block, p: seq<nat>): (q: seq<nat>)
    requires DependencyPath(b, p) && |p| > 1
    ensures DependencyPath(b, q) && |q| == |p| - 1 && q[|q| - 1] == p[|p| - 2]
  {
    Graphs.PrefixIsPath(Dependencies(b), p);
    p[..|p| - 1]
  }

  lemma LastStep(b: Block, p: seq<nat>)
    requires DependencyPath(b, p) && |p| > 1
    ensures IsUser(b, p[|p| - 1], p[|p| - 2]) || WritesTo(b, p[|p| - 2], p[|p| - 1])
  {
    var k := |p| - 2;
    assert Graphs.Edge(Dependencies(b), p[k], p[k + 1]);
  }

  lemma PathExtends(b: Block, p: seq<nat>, i: nat, j: nat)
    requires PathTo(b, p, i) && j < |b| && (IsUser(b, j, i) || WritesTo(b, i, j))
    ensures PathTo(b, p + [j], j)
    ensures RegistersOn(b, p + [j]) == RegistersOn(b, p) + if b[j].kind.RegisterRead? then 1 else 0
  {
    var q := p + [j];
    forall k | 0 <= k < |q| - 1
      ensures Graphs.Edge(Dependencies(b), q[k], q[k + 1])
    {
      if k < |p| - 1 {
        assert Graphs.Edge(Dependencies(b), p[k], p[k + 1]);
      }
    }
    assert Shorter(b, q) == p;
  }

  lemma OneNode(b: Block, i: nat)
    requires i < |b|
    ensures PathTo(b, [i], i) && RegistersOn(b, [i]) == 0
  {
  }

  /** The registers on a path are a distance that its last node keeps. */
  lemma {:induction false} PathIsWalk(b: Block, p: seq<nat>)
    requires BlockOk(b) && DependencyPath(b, p)
    ensures WalkTo(b, p[|p| - 1], RegistersOn(b, p), |p| - 1)
    decreases |p|
  {
    hide WalkTo, Dependencies;
    if |p| > 1 {
      var q := Shorter(b, p);
      PathIsWalk(b, q);
      LastStep(b, p);
      var i, j := p[|p| - 2], p[|p| - 1];
      WalkExtends(b, i, RegistersOn(b, q), |q| - 1, Edge(j, if b[j].kind.RegisterRead? then 1 else 0));
    } else {
      EmptyWalk(b, p[0]);
    }
  }

  lemma EmptyWalk(b: Block, i: nat)
    requires i < |b|
    ensures WalkTo(b, i, 0, 0)
  {
  }

  /** The way back from a read to its write gains nothing: where a register has one write, no walk is longer than the
      registers on some path. */
  lemma {:induction false} WalkHasPath(b: Block, i: nat, d: int, n: nat) returns (p: seq<nat>)
    requires BlockOk(b) && SingleWrites(b) && i < |b| && WalkTo(b, i, d, n)
    ensures PathTo(b, p, i) && d <= RegistersOn(b, p)
    decreases n
  {
    if n == 0 {
      OneNode(b, i);
      return [i];
    }
    var j: nat, e :| j < |b| && Justified(b, j, e) && e.target == i && WalkTo(b, j, d - e.distance, n - 1);
    var q := WalkHasPath(b, j, d - e.distance, n - 1);
    p := StepKeepsPath(b, q, j, d - e.distance, e);
  }

  lemma StepKeepsPath(b: Block, q: seq<nat>, j: nat, d: int, e: Edge) returns (p: seq<nat>)
    requires BlockOk(b) && SingleWrites(b) && j < |b| && Justified(b, j, e) && PathTo(b, q, j) && d <= RegistersOn(b, q)
    ensures PathTo(b, p, e.target) && d + e.distance <= RegistersOn(b, p)
  {
    hide Graphs.IsPath, Dependencies;
    if e.distance >= 0 {
      PathExtends(b, q, j, e.target);
      p := q + [e.target];
    } else if |q| == 1 {
      OneNode(b, e.target);
      p := [e.target];
    } else {
      LastStep(b, q);
      p := Shorter(b, q);
    }
  }

  lemma {:induction false} FewerRegisters(b: Block, p: seq<nat>)
    requires DependencyPath(b, p)
    ensures RegistersOn(b, p) < |p|
    decreases |p|
  {
    if |p| > 1 {
      FewerRegisters(b, Shorter(b, p));
    }
  }

  /** Without a cycle, no path has as many registers as there are nodes. */
  lemma AcyclicIsShort(b: Block, p: seq<nat>)
    requires DependencyPath(b, p) && !Graphs.Cyclic(Dependencies(b))
    ensures RegistersOn(b, p) < |b|
  {
    FewerRegisters(b, p);
    if |p| > |b| {
      Graphs.LongPathIsCyclic(Dependencies(b), p, NumbersBelow(|b|));
      assert false;
    }
  }

  ghost function Position(b: Block, order: seq<nat>, i: nat): (p: nat)
    requires IsTopoSort(b, order) && i < |b|
    ensures p < |order| && order[p] == i
  {
    assert i in order;
    var p: nat :| p < |order| && order[p] == i;
    p
  }

  /** Of stages and positions in the order: earlier in the one, or equal and no later in the other. */
  predicate NoLater(s: int, p: nat, t: int, q: nat) {
    s < t || (s == t && p <= q)
  }

  lemma DependencyRises(b: Block, order: seq<nat>, a: seq<int>, x: nat, y: nat)
    requires IsTopoSort(b, order) && IsPipelining(b, a) && Graphs.Edge(Dependencies(b), x, y)
    ensures x < |b| && y < |b| && NoLater(a[x], Position(b, order, x) + 1, a[y], Position(b, order, y))
  {
    if IsUser(b, y, x) {
      assert IsUser(b, order[Position(b, order, y)], order[Position(b, order, x)]);
    }
  }

  lemma {:induction false} PathRises(b: Block, order: seq<nat>, a: seq<int>, p: seq<nat>)
    requires IsTopoSort(b, order) && IsPipelining(b, a) && DependencyPath(b, p)
    ensures NoLater(a[p[0]], Position(b, order, p[0]), a[p[|p| - 1]], Position(b, order, p[|p| - 1]))
    decreases |p|
  {
    if |p| > 1 {
      PathRises(b, order, a, Shorter(b, p));
      var k := |p| - 2;
      assert Graphs.Edge(Dependencies(b), p[k], p[k + 1]);
      DependencyRises(b, order, a, p[k], p[k + 1]);
    }
  }

  /** Where there is a pipelining, no dependencies are cyclic. */
  lemma PipeliningIsAcyclic(b: Block, order: seq<nat>, a: seq<int>)
    requires IsTopoSort(b, order) && IsPipelining(b, a)
    ensures !Graphs.Cyclic(Dependencies(b))
  {
    hide IsTopoSort, IsPipelining;
    var g := Dependencies(b);
    if x: nat, y: nat :| Graphs.Edge(g, x, y) && Graphs.Reach(g, y, x) {
      var p: seq<nat> :| Graphs.PathFromTo(g, p, y, x);
      DependencyRises(b, order, a, x, y);
      PathInBlock(b, p);
      PathRises(b, order, a, p);
      assert false;
    }
  }

  lemma PathInBlock(b: Block, p: seq<nat>)
    requires Graphs.IsPath(Dependencies(b), p) && p[0] < |b|
    ensures DependencyPath(b, p)
  {
    forall k | 0 <= k < |p|
      ensures p[k] < |b|
    {
      if k > 0 {
        assert Graphs.Edge(Dependencies(b), p[k - 1], p[k - 1 + 1]);
      }
    }
  }

  /** A block can be pipelined exactly when its dependencies, counting those through registers, are acyclic. */
  lemma AcyclicExactly(b: Block, order: seq<nat>)
    requires BlockOk(b) && SingleWrites(b) && IsTopoSort(b, order)
    ensures (exists a :: IsPipelining(b, a)) <==> !Graphs.Cyclic(Dependencies(b))
  {
    hide WalkTo, IsPipelining, IsTopoSort, Graphs.Cyclic, DependencyPath;
    if a :| IsPipelining(b, a) {
      PipeliningIsAcyclic(b, order, a);
    }
    if !Graphs.Cyclic(Dependencies(b)) {
      forall i: nat, d, n: nat | i < |b| && WalkTo(b, i, d, n)
        ensures d < |b|
      {
        var p := WalkHasPath(b, i, d, n);
        AcyclicIsShort(b, p);
      }
      PipelinableExactly(b);
    }
  }

  /** The most registers on a path to node `i`. */
  ghost predicate MostRegisters(b: Block, i: nat, d: int) {
    && (exists p :: PathTo(b, p, i) && RegistersOn(b, p) == d)
    && (forall p | PathTo(b, p, i) :: RegistersOn(b, p) <= d)
  }

  /** The depth of a node is the most registers on a path to it. */
  lemma DepthIsMostRegisters(b: Block, i: nat, d: int)
    requires BlockOk(b) && SingleWrites(b) && i < |b|
    ensures IsDepth(b, i, d) <==> MostRegisters(b, i, d)
  {
    hide WalkTo, DependencyPath;
    forall p | PathTo(b, p, i)
      ensures WalkTo(b, i, RegistersOn(b, p), |p| - 1)
    {
      PathIsWalk(b, p);
    }
    if IsDepth(b, i, d) {
      var n: nat :| WalkTo(b, i, d, n);
      var p := WalkHasPath(b, i, d, n);
      assert WalkTo(b, i, RegistersOn(b, p), |p| - 1);
    }
    if MostRegisters(b, i, d) {
      forall d', n: nat | WalkTo(b, i, d', n)
        ensures d' <= d
      {
        var p := WalkHasPath(b, i, d', n);
      }
    }
  }

  /** Two paths between the same nodes pass through different numbers of registers. */
  ghost predicate UnevenPaths(b: Block) {
    exists p, q :: Uneven(b, p, q)
  }

  ghost predicate Uneven(b: Block, p: seq<nat>, q: seq<nat>) {
    && DependencyPath(b, p) && DependencyPath(b, q) && p[0] == q[0] && p[|p| - 1] == q[|q| - 1]
    && RegistersOn(b, p) != RegistersOn(b, q)
  }

  lemma {:induction false} RegistersAreStages(b: Block, s: seq<int>, p: seq<nat>)
    requires BlockOk(b) && IsPipelining(b, s) && DependencyPath(b, p)
    requires forall u, i | 0 <= u < |b| && 0 <= i < |b| && IsUser(b, u, i) :: s[i] == s[u]
    ensures RegistersOn(b, p) == s[p[|p| - 1]] - s[p[0]]
    decreases |p|
  {
    if |p| > 1 {
      RegistersAreStages(b, s, Shorter(b, p));
      LastStep(b, p);
    }
  }

  /** Where all nodes can be in the stages of their operands, paths are even. */
  lemma SameStagesMeanEven(b: Block, s: seq<int>)
    requires BlockOk(b) && IsPipelining(b, s)
    requires forall u, i | 0 <= u < |b| && 0 <= i < |b| && IsUser(b, u, i) :: s[i] == s[u]
    ensures !UnevenPaths(b)
  {
    hide DependencyPath;
    forall p, q
      ensures !Uneven(b, p, q)
    {
      if Uneven(b, p, q) {
        RegistersAreStages(b, s, p);
        RegistersAreStages(b, s, q);
        assert false;
      }
    }
  }

  // ---------------------------------------------------------------------------
  // Data beside writes
  // ---------------------------------------------------------------------------

  /** Node `x` does not move and is reached from `i` in `n` steps from node to user, over nodes that move. */
  ghost predicate AnchorIn(b: Block, i: nat, x: nat, n: nat)
    requires i < |b|
    decreases n
  {
    if IsFixed(b, i) then x == i
    else n > 0 && exists u: nat :: u < |b| && IsUser(b, u, i) && AnchorIn(b, u, x, n - 1)
  }

  ghost predicate IsAnchor(b: Block, i: nat, x: nat)
    requires i < |b|
  {
    exists n: nat :: AnchorIn(b, i, x, n)
  }

  lemma {:induction false} AnchorsAfter(b: Block, s: seq<int>, i: nat, x: nat, n: nat)
    requires IsPipelining(b, s) && i < |b| && AnchorIn(b, i, x, n)
    ensures x < |b| && IsFixed(b, x) && s[i] <= s[x]
    decreases n
  {
    hide IsFixed;
    if !IsFixed(b, i) {
      var u: nat :| u < |b| && IsUser(b, u, i) && AnchorIn(b, u, x, n - 1);
      AnchorsAfter(b, s, u, x, n - 1);
    }
  }

  lemma {:induction false} LatestReachesAnchor(b: Block, order: seq<nat>, s: seq<int>, p: nat) returns (x: nat)
    requires IsTopoSort(b, order) && IsPipelining(b, s) && Latest(b, s) && p < |order|
    ensures x < |b| && IsAnchor(b, order[p], x) && s[x] == s[order[p]]
    decreases |order| - p
  {
    hide IsFixed;
    var i := order[p];
    if !IsFixed(b, i) {
      assert SharesStageWithUser(b, s, i);
      var u :| 0 <= u < |b| && IsUser(b, u, i) && s[u] == s[i];
      assert u in order;
      var q :| 0 <= q < |order| && order[q] == u;
      assert IsUser(b, order[q], order[p]);
      x := LatestReachesAnchor(b, order, s, q);
      var n: nat :| AnchorIn(b, u, x, n);
      assert AnchorIn(b, i, x, n + 1);
    } else {
      x := i;
      assert AnchorIn(b, i, i, 0);
    }
  }

  /** In the canonical pipelining a node is in the stage of the earliest node that it reaches over nodes that move, and
      nodes that do not move are at their depth. */
  lemma CanonicalStage(b: Block, order: seq<nat>, s: seq<int>, i: nat)
    requires IsTopoSort(b, order) && Canonical(b, s) && i < |b|
    ensures exists x: nat :: IsAnchor(b, i, x) && x < |b| && IsDepth(b, x, s[i])
    ensures forall x: nat | IsAnchor(b, i, x) :: x < |b| && IsDepth(b, x, s[x]) && s[i] <= s[x]
  {
    hide IsFixed, WalkTo, Latest, IsDepth;
    assert i in order;
    var p :| 0 <= p < |order| && order[p] == i;
    var first := LatestReachesAnchor(b, order, s, p);
    forall x: nat | IsAnchor(b, i, x)
      ensures x < |b| && IsDepth(b, x, s[x]) && s[i] <= s[x]
    {
      var n: nat :| AnchorIn(b, i, x, n);
      AnchorsAfter(b, s, i, x, n);
      LeastIsDepth(b, s, x);
    }
    assert IsAnchor(b, i, first);
  }

  /** No register's data reaches, over nodes that move, one that is less deep than the register's write. */
  ghost predicate DataBesideWrites(b: Block)
    requires BlockOk(b)
  {
    forall w: nat, x: nat | w < |b| && b[w].kind.RegisterWrite? && IsAnchor(b, Data(b, w), x) :: NoLessDeep(b, w, x)
  }

  ghost predicate NoLessDeep(b: Block, w: nat, x: nat)
    requires w < |b|
  {
    forall dw, dx | x < |b| && IsDepth(b, w, dw) && IsDepth(b, x, dx) :: dw <= dx
  }

  function Data(b: Block, w: nat): nat
    requires w < |b| && |b[w].operands| > 0
  {
    b[w].operands[0]
  }

  /** The same, with the depth of a node told from the paths to it. */
  ghost predicate DataPathsReachWrites(b: Block)
    requires BlockOk(b)
  {
    forall w: nat, x: nat | w < |b| && b[w].kind.RegisterWrite? && IsAnchor(b, Data(b, w), x) :: NoFewerRegisters(b, w, x)
  }

  ghost predicate NoFewerRegisters(b: Block, w: nat, x: nat) {
    forall dw, dx | x < |b| && MostRegisters(b, w, dw) && MostRegisters(b, x, dx) :: dw <= dx
  }

  lemma DataToldFromPaths(b: Block)
    requires BlockOk(b) && SingleWrites(b)
    ensures DataBesideWrites(b) <==> DataPathsReachWrites(b)
  {
    hide IsDepth, MostRegisters, IsAnchor;
    forall i: nat, d | i < |b|
      ensures IsDepth(b, i, d) <==> MostRegisters(b, i, d)
    {
      DepthIsMostRegisters(b, i, d);
    }
    forall w: nat, x: nat | w < |b|
      ensures NoLessDeep(b, w, x) <==> NoFewerRegisters(b, w, x)
    {
      assert forall d | x < |b| :: IsDepth(b, x, d) <==> MostRegisters(b, x, d);
    }
  }

  /** The canonical pipelining has the data of every register beside its write exactly when this can be read off the
      depths. */
  lemma BesideExactly(b: Block, order: seq<nat>, s: seq<int>)
    requires BlockOk(b) && IsTopoSort(b, order) && Canonical(b, s)
    ensures DataBesideWrites(b) <==> forall w | 0 <= w < |b| && b[w].kind.RegisterWrite? :: s[b[w].operands[0]] == s[w]
  {
    hide IsFixed, WalkTo, Latest, IsAnchor, IsTopoSort;
    forall w: nat | w < |b| && b[w].kind.RegisterWrite?
      ensures s[b[w].operands[0]] == s[w] <==> forall x: nat | IsAnchor(b, Data(b, w), x) :: NoLessDeep(b, w, x)
    {
      BesideAt(b, order, s, w);
    }
  }

  lemma BesideAt(b: Block, order: seq<nat>, s: seq<int>, w: nat)
    requires BlockOk(b) && IsTopoSort(b, order) && Canonical(b, s) && w < |b| && b[w].kind.RegisterWrite?
    ensures s[b[w].operands[0]] == s[w] <==> forall x: nat | IsAnchor(b, Data(b, w), x) :: NoLessDeep(b, w, x)
  {
    hide WalkTo, Latest, IsAnchor, IsTopoSort;
    var d := Data(b, w);
    assert IsUser(b, w, d);
    LeastIsDepth(b, s, w);
    CanonicalStage(b, order, s, d);
    hide IsPipelining, IsFixed;
    if forall x: nat | IsAnchor(b, d, x) :: NoLessDeep(b, w, x) {
      var x: nat :| IsAnchor(b, d, x) && x < |b| && IsDepth(b, x, s[d]);
      assert NoLessDeep(b, w, x);
    }
  }

  /** The register writes among the first `n` nodes are in the stages of their data. */
  ghost predicate WritesBeside(b: Block, stage: seq<int>, n: nat)
    requires BlockOk(b) && |stage| == |b| && n <= |b|
  {
    forall w | 0 <= w < n && b[w].kind.RegisterWrite? :: stage[b[w].operands[0]] == stage[w]
  }

  /** Node `w` is the first register write with its data in an earlier stage. */
  ghost predicate FirstApart(b: Block, stage: seq<int>, w: nat)
    requires BlockOk(b) && |stage| == |b|
  {
    w < |b| && b[w].kind.RegisterWrite? && stage[b[w].operands[0]] < stage[w] && WritesBeside(b, stage, w)
  }

  /** Refuses exactly the blocks in which a register has no unique read, those that cannot be pipelined, and those in
      which a register's data reaches something less deep than the register's write; otherwise returns the stages of
      the canonical pipelining. Where a register has one write, the blocks that cannot be pipelined are those with
      cyclic dependencies. */
  method SplitBlockIntoStages(b: Block, order: seq<nat>) returns (r: Result<seq<Stage>>, ghost stage: seq<int>)
    requires BlockOk(b) && IsTopoSort(b, order)
    ensures r.NoUniqueRead? <==> !ReadsUnique(b)
    ensures r.NoUniqueRead? ==> FirstUnread(b, r.reg)
    ensures r.NotAPipeline? <==> ReadsUnique(b) && forall a :: !IsPipelining(b, a)
    ensures r.Ok? <==> ReadsUnique(b) && WalksBounded(b) && DataBesideWrites(b)
    ensures SingleWrites(b) ==> (r.NotAPipeline? <==> ReadsUnique(b) && Graphs.Cyclic(Dependencies(b)))
    ensures SingleWrites(b) ==> (r.Ok? <==> ReadsUnique(b) && !Graphs.Cyclic(Dependencies(b)) && DataPathsReachWrites(b))
    ensures r.Ok? || r.DataElsewhere? ==> Canonical(b, stage) && Greatest(b, stage)
    ensures r.DataElsewhere? ==> FirstApart(b, stage, r.write)
    ensures r.Ok? ==> WritesBeside(b, stage, |b|)
    ensures r.Ok? ==> |r.value| == 1 || exists i :: 0 <= i < |b| && stage[i] == |r.value| - 1
    ensures r.Ok? ==> (forall i | 0 <= i < |b| :: 0 <= stage[i] < |r.value|)
                      && forall k | 0 <= k < |r.value| :: Holds(b, order, stage, |order|, k, r.value[k])
  {
    hide IsTopoSort, Latest, IsFixed, DataBesideWrites, DataPathsReachWrites, IsStageGraph, Least, WalksBounded,
         Graphs.Cyclic, Dependencies;
    OrderInBlock(b, order);
    PipelinableExactly(b);
    if SingleWrites(b) {
      AcyclicExactly(b, order);
      DataToldFromPaths(b);
    }
    stage := [];
    var graph := BuildStageGraph(b);
    if !graph.Ok? {
      return NoUniqueRead(graph.reg), stage;
    }
    var ok, least, maxStage := LeastStages(b, graph.value);
    if !ok {
      return NotAPipeline, stage;
    }
    var late := MoveToLatest(b, order, least, maxStage);
    stage := late;
    CanonicalIntro(b, least, late);
    CanonicalIsGreatest(b, order, late);
    BesideExactly(b, order, late);
    var w, ok2 := CheckWrites(b, late);
    if !ok2 {
      return DataElsewhere(w), stage;
    }
    var stages := Gather(b, order, late, maxStage);
    return Ok(stages), stage;
  }

  /** No pipelining with the same fixed nodes has a node in a later stage. */
  ghost predicate Greatest(b: Block, stage: seq<int>)
    requires |stage| == |b|
  {
    forall a | IsPipelining(b, a) && (forall i | 0 <= i < |b| && IsFixed(b, i) :: a[i] == stage[i]) :: Below(a, stage)
  }

  lemma CanonicalIsGreatest(b: Block, order: seq<nat>, stage: seq<int>)
    requires IsTopoSort(b, order) && Canonical(b, stage)
    ensures Greatest(b, stage)
  {
    hide Latest, IsFixed;
    forall a | IsPipelining(b, a) && forall i | 0 <= i < |b| && IsFixed(b, i) :: a[i] == stage[i]
      ensures Below(a, stage)
    {
      forall i | 0 <= i < |b|
        ensures a[i] <= stage[i]
      {
        assert i in order;
        var p :| 0 <= p < |order| && order[p] == i;
        LatestIsGreatest(b, order, stage, a, p);
      }
    }
  }

  /** There is only one canonical pipelining, so which blocks are refused does not depend on the worklist's order. */
  lemma CanonicalIsUnique(b: Block, order: seq<nat>, s: seq<int>, t: seq<int>)
    requires IsTopoSort(b, order) && Canonical(b, s) && Canonical(b, t)
    ensures s == t
  {
    hide Latest, IsFixed;
    forall i | 0 <= i < |b|
      ensures s[i] == t[i]
    {
      assert i in order;
      var p :| 0 <= p < |order| && order[p] == i;
      LatestIsGreatest(b, order, s, t, p);
      LatestIsGreatest(b, order, t, s, p);
    }
  }

  lemma CanonicalIntro(b: Block, least: seq<int>, late: seq<int>)
    requires Least(b, least) && IsPipelining(b, late) && Latest(b, late) && Below(least, late)
    requires forall i | 0 <= i < |b| && IsFixed(b, i) :: late[i] == least[i]
    ensures Canonical(b, late)
  {
    forall a, i | IsPipelining(b, a) && 0 <= i < |b| && IsFixed(b, i)
      ensures late[i] <= a[i]
    {
      assert Below(least, a);
    }
  }

  /** Looks for a register write whose data is not in its stage. That the read is one stage later needs no check. */
  method CheckWrites(b: Block, stage: seq<int>) returns (w: nat, ok: bool)
    requires BlockOk(b) && IsPipelining(b, stage)
    ensures if ok then WritesBeside(b, stage, |b|) else FirstApart(b, stage, w)
  {
    for i := 0 to |b|
      invariant WritesBeside(b, stage, i)
    {
      if b[i].kind.RegisterWrite? && stage[i] != stage[b[i].operands[0]] {
        assert IsUser(b, i, b[i].operands[0]);
        return i, false;
      }
    }
    return 0, true;
  }
}
