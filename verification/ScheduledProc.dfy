/**
 A proc as a graph of nodes, and its stages as its schedule cuts them: what is used in a later
 stage is carried on, receives and sends are those of the stage, and state is held where it is
 used. Running the stages in order is running the nodes in order.
 */
module ScheduledProc {
  import opened Options
  import opened IrValues
  import opened ElasticPipeline
  import opened ProcOutputs
  import opened SequentialProc
  import FunctionPipeline

  // ---------------------------------------------------------------------------
  // Procs
  // ---------------------------------------------------------------------------

  /** A receive yields the data, a send nothing. Predicates are nodes. */
  datatype Node =
    | StateParam(element: nat)
    | Recv(pred: Option<nat>, zero: Value)
    | SendTo(pred: Option<nat>, data: nat)
    | Op(apply: seq<Value> -> Value, operands: seq<nat>)

  /** Node `next[k]` is the next value of state element `k`. */
  datatype NodeProc = NodeProc(nodes: seq<Node>, next: seq<nat>, init: seq<Value>)

  const NOTHING: Value := TupleValue([])

  predicate IsOperand(node: Node, o: nat) {
    match node
    case StateParam(_) => false
    case Recv(pred, _) => pred == Some(o)
    case SendTo(pred, data) => pred == Some(o) || data == o
    case Op(_, operands) => o in operands
  }

  /** Nodes are numbered in topological order. */
  ghost predicate ProcOk(p: NodeProc) {
    && |p.next| == |p.init|
    && (forall k | 0 <= k < |p.next| :: p.next[k] < |p.nodes|)
    && (forall i | 0 <= i < |p.nodes| && p.nodes[i].StateParam? :: p.nodes[i].element < |p.init|)
    && (forall i, o: nat | 0 <= i < |p.nodes| && IsOperand(p.nodes[i], o) :: o < i)
  }

  predicate IsTrue(v: Value) {
    v == BitsValue([true])
  }

  /** The state before an iteration, and the items to come at each receive. */
  datatype Input = Input(state: seq<Value>, queues: seq<seq<Value>>)

  ghost predicate Suits(p: NodeProc, x: Input) {
    ProcOk(p) && |x.state| == |p.init| && |x.queues| == |p.nodes|
  }

  function Gathered(vals: seq<Value>, operands: seq<nat>): (vs: seq<Value>)
    requires forall k | 0 <= k < |operands| :: operands[k] < |vals|
  {
    seq(|operands|, k requires 0 <= k < |operands| => vals[operands[k]])
  }

  /** Runs those of the first `i` nodes that are in `which`, one after the other: their values, and the items left. */
  ghost function RunNodes(p: NodeProc, which: set<nat>, i: nat, x: Input): (o: Option<(seq<Value>, seq<seq<Value>>)>)
    requires Suits(p, x) && i <= |p.nodes|
    ensures o.Some? ==> |o.value.0| == i && |o.value.1| == |p.nodes|
  {
    if i == 0 then Some(([], x.queues))
    else
      match RunNodes(p, which, i - 1, x)
      case None => None
      case Some((vals, q)) =>
        if i - 1 !in which then Some((vals + [NOTHING], q))
        else
          match p.nodes[i - 1]
          case StateParam(k) => Some((vals + [x.state[k]], q))
          case SendTo(_, _) => Some((vals + [NOTHING], q))
          case Op(apply, operands) =>
            assert forall k | 0 <= k < |operands| :: IsOperand(p.nodes[i - 1], operands[k]);
            Some((vals + [apply(Gathered(vals, operands))], q))
          case Recv(pred, zero) =>
            assert pred.Some? ==> IsOperand(p.nodes[i - 1], pred.value);
            if pred.Some? && vals[pred.value] != BitsValue([true]) then Some((vals + [zero], q))
            else if q[i - 1] == [] then None
            else Some((vals + [q[i - 1][0]], q[i - 1 := q[i - 1][1..]]))
  }

  /** What is left for the next iteration. */
  ghost function Following(p: NodeProc, which: set<nat>, x: Input, vals: seq<Value>, q: seq<seq<Value>>): (x': Input)
    requires Suits(p, x) && |vals| == |q| == |p.nodes|
    ensures Suits(p, x')
  {
    Input(seq(|p.init|, k requires 0 <= k < |p.init| => if p.next[k] in which then vals[p.next[k]] else x.state[k]), q)
  }

  /** Runs `k` iterations: what is left, and the values of all nodes in each iteration. */
  ghost function IterateNodes(p: NodeProc, which: set<nat>, k: nat, x: Input): (o: Option<(Input, seq<seq<Value>>)>)
    requires Suits(p, x)
    ensures o.Some? ==> Suits(p, o.value.0) && |o.value.1| == k && forall r | 0 <= r < k :: |o.value.1[r]| == |p.nodes|
  {
    if k == 0 then Some((x, []))
    else
      match IterateNodes(p, which, k - 1, x)
      case None => None
      case Some((x1, rows)) =>
        match RunNodes(p, which, |p.nodes|, x1)
        case None => None
        case Some((vals, q)) => Some((Following(p, which, x1, vals, q), rows + [vals]))
  }

  /** What send `j` sends in an iteration with the given values. */
  function SentIn(p: NodeProc, j: nat, vals: seq<Value>): seq<Value>
    requires j < |p.nodes| == |vals| && p.nodes[j].SendTo? && forall o: nat | IsOperand(p.nodes[j], o) :: o < |vals|
  {
    var pred, data := p.nodes[j].pred, p.nodes[j].data;
    assert IsOperand(p.nodes[j], data) && (pred.Some? ==> IsOperand(p.nodes[j], pred.value));
    if pred.None? || vals[pred.value] == BitsValue([true]) then [vals[data]] else []
  }

  ghost function SentBy(p: NodeProc, j: nat, rows: seq<seq<Value>>): seq<Value>
    requires ProcOk(p) && j < |p.nodes| && p.nodes[j].SendTo? && forall r | 0 <= r < |rows| :: |rows[r]| == |p.nodes|
  {
    if rows == [] then [] else SentBy(p, j, rows[..|rows| - 1]) + SentIn(p, j, rows[|rows| - 1])
  }

  // ---------------------------------------------------------------------------
  // What nodes mean, whatever the order they run in
  // ---------------------------------------------------------------------------

  /** The value of node `i`, where no receive blocks. */
  ghost function Val(p: NodeProc, x: Input, i: nat): Value
    requires Suits(p, x) && i < |p.nodes|
  {
    match p.nodes[i]
    case StateParam(k) => x.state[k]
    case SendTo(_, _) => NOTHING
    case Op(apply, operands) =>
      assert forall k | 0 <= k < |operands| :: IsOperand(p.nodes[i], operands[k]);
      apply(seq(|operands|, k requires 0 <= k < |operands| => Val(p, x, operands[k])))
    case Recv(pred, zero) =>
      assert pred.Some? ==> IsOperand(p.nodes[i], pred.value);
      if (pred.None? || IsTrue(Val(p, x, pred.value))) && x.queues[i] != [] then x.queues[i][0] else zero
  }

  ghost predicate On(p: NodeProc, x: Input, pred: Option<nat>)
    requires Suits(p, x) && (pred.Some? ==> pred.value < |p.nodes|)
  {
    pred.None? || IsTrue(Val(p, x, pred.value))
  }

  /** Node `i` is a receive that takes an item. */
  ghost predicate Takes(p: NodeProc, x: Input, i: nat)
    requires Suits(p, x) && i < |p.nodes|
  {
    && p.nodes[i].Recv?
    && assert p.nodes[i].pred.Some? ==> IsOperand(p.nodes[i], p.nodes[i].pred.value);
       On(p, x, p.nodes[i].pred)
  }

  ghost predicate Blocked(p: NodeProc, x: Input, i: nat)
    requires Suits(p, x) && i < |p.nodes|
  {
    Takes(p, x, i) && x.queues[i] == []
  }

  ghost function ItemsLeft(p: NodeProc, x: Input, i: nat): seq<Value>
    requires Suits(p, x) && i < |p.nodes|
  {
    if Takes(p, x, i) && x.queues[i] != [] then x.queues[i][1..] else x.queues[i]
  }

  ghost predicate Closed(p: NodeProc, which: set<nat>) {
    forall i, o: nat | 0 <= i < |p.nodes| && i in which && IsOperand(p.nodes[i], o) :: o in which
  }

  ghost predicate SomeBlocked(p: NodeProc, which: set<nat>, i: nat, x: Input)
    requires Suits(p, x) && i <= |p.nodes|
  {
    exists j: nat :: j < i && j in which && Blocked(p, x, j)
  }

  ghost function ValsOf(p: NodeProc, which: set<nat>, i: nat, x: Input): (vals: seq<Value>)
    requires Suits(p, x) && i <= |p.nodes|
    ensures |vals| == i
  {
    seq(i, j requires 0 <= j < i => if j in which then Val(p, x, j) else NOTHING)
  }

  ghost function QueuesLeft(p: NodeProc, which: set<nat>, i: nat, x: Input): seq<seq<Value>>
    requires Suits(p, x) && i <= |p.nodes|
  {
    seq(|p.nodes|, j requires 0 <= j < |p.nodes| => if j < i && j in which then ItemsLeft(p, x, j) else x.queues[j])
  }

  ghost function Vals(p: NodeProc, x: Input, operands: seq<nat>): seq<Value>
    requires Suits(p, x) && forall k | 0 <= k < |operands| :: operands[k] < |p.nodes|
  {
    seq(|operands|, k requires 0 <= k < |operands| => Val(p, x, operands[k]))
  }

  lemma OpMeans(p: NodeProc, x: Input, i: nat)
    requires Suits(p, x) && i < |p.nodes| && p.nodes[i].Op?
    ensures forall k | 0 <= k < |p.nodes[i].operands| :: IsOperand(p.nodes[i], p.nodes[i].operands[k])
    ensures Val(p, x, i) == p.nodes[i].apply(Vals(p, x, p.nodes[i].operands))
  {
    var operands := p.nodes[i].operands;
    assert forall k | 0 <= k < |operands| :: IsOperand(p.nodes[i], operands[k]);
    assert Vals(p, x, operands) == seq(|operands|, k requires 0 <= k < |operands| => Val(p, x, operands[k]));
  }

  /** Running nodes one after the other gives each the value it means, and stops exactly when a receive blocks. */
  lemma {:induction false} NodesMean(p: NodeProc, which: set<nat>, i: nat, x: Input)
    requires Suits(p, x) && i <= |p.nodes| && Closed(p, which)
    ensures RunNodes(p, which, i, x)
         == if SomeBlocked(p, which, i, x) then None
            else Some((ValsOf(p, which, i, x), QueuesLeft(p, which, i, x)))
  {
    if i == 0 {
      assert QueuesLeft(p, which, 0, x) == x.queues && ValsOf(p, which, 0, x) == [];
    } else {
      NodesMean(p, which, i - 1, x);
      NodeMeans(p, which, i - 1, x);
    }
  }

  lemma NodeMeans(p: NodeProc, which: set<nat>, i: nat, x: Input)
    requires Suits(p, x) && i < |p.nodes| && Closed(p, which)
    requires RunNodes(p, which, i, x)
          == if SomeBlocked(p, which, i, x) then None
             else Some((ValsOf(p, which, i, x), QueuesLeft(p, which, i, x)))
    ensures RunNodes(p, which, i + 1, x)
         == if SomeBlocked(p, which, i + 1, x) then None
            else Some((ValsOf(p, which, i + 1, x), QueuesLeft(p, which, i + 1, x)))
  {
    var vals, q := ValsOf(p, which, i, x), QueuesLeft(p, which, i, x);
    assert ValsOf(p, which, i + 1, x) == vals + [if i in which then Val(p, x, i) else NOTHING];
    assert QueuesLeft(p, which, i + 1, x) == if i in which then q[i := ItemsLeft(p, x, i)] else q;
    assert SomeBlocked(p, which, i + 1, x) <==> SomeBlocked(p, which, i, x) || (i in which && Blocked(p, x, i));
    if i in which && p.nodes[i].Op? {
      var operands := p.nodes[i].operands;
      OpMeans(p, x, i);
      assert Gathered(vals, operands) == Vals(p, x, operands);
    }
    if i in which && p.nodes[i].Recv? {
      var pred := p.nodes[i].pred;
      assert pred.Some? ==> IsOperand(p.nodes[i], pred.value) && vals[pred.value] == Val(p, x, pred.value);
      assert q[i] == x.queues[i] && q[i := q[i]] == q;
    } else {
      assert QueuesLeft(p, which, i + 1, x) == q;
    }
  }

  // ---------------------------------------------------------------------------
  // The stages that a schedule makes
  // ---------------------------------------------------------------------------

  type Schedule = FunctionPipeline.Schedule

  /** Operands are no later than their users, and a state element is used where its next value is computed. */
  ghost predicate Legal(p: NodeProc, s: Schedule) {
    && ProcOk(p) && |s.cycle| == |p.nodes| && 1 <= s.length
    && (forall i | 0 <= i < |p.nodes| :: s.cycle[i] < s.length)
    && (forall i, o: nat | 0 <= i < |p.nodes| && IsOperand(p.nodes[i], o) :: o < i && s.cycle[o] <= s.cycle[i])
    && (forall i | 0 <= i < |p.nodes| && p.nodes[i].StateParam? ::
          p.nodes[i].element < |p.next| && s.cycle[i] == s.cycle[p.next[p.nodes[i].element]])
  }

  /** Node `i` goes through the registers into stage `n`: it is computed before and used in the stage or later. */
  ghost predicate Live(p: NodeProc, s: Schedule, i: nat, n: nat)
    requires |s.cycle| == |p.nodes| && i < |p.nodes|
  {
    s.cycle[i] < n && exists u :: 0 <= u < |p.nodes| && IsOperand(p.nodes[u], i) && n <= s.cycle[u]
  }

  ghost predicate Listed(p: NodeProc, s: Schedule, n: nat, sends: bool, i: nat)
    requires |s.cycle| == |p.nodes| && i < |p.nodes|
  {
    s.cycle[i] == n && if sends then p.nodes[i].SendTo? else p.nodes[i].Recv?
  }

  /** The receives, or the sends, of stage `n` among the first `k` nodes. */
  ghost function InStage(p: NodeProc, s: Schedule, n: nat, sends: bool, k: nat): (list: seq<nat>)
    requires |s.cycle| == |p.nodes| && k <= |p.nodes|
    ensures forall r | 0 <= r < |list| :: list[r] < k && Listed(p, s, n, sends, list[r])
  {
    if k == 0 then []
    else InStage(p, s, n, sends, k - 1) + if Listed(p, s, n, sends, k - 1) then [k - 1] else []
  }

  ghost function Receives(p: NodeProc, s: Schedule, n: nat): (list: seq<nat>)
    requires |s.cycle| == |p.nodes|
    ensures forall r | 0 <= r < |list| :: list[r] < |p.nodes| && Listed(p, s, n, false, list[r])
  {
    InStage(p, s, n, false, |p.nodes|)
  }

  ghost function SendNodes(p: NodeProc, s: Schedule, n: nat): (list: seq<nat>)
    requires |s.cycle| == |p.nodes|
    ensures forall r | 0 <= r < |list| :: list[r] < |p.nodes| && Listed(p, s, n, true, list[r])
  {
    InStage(p, s, n, true, |p.nodes|)
  }

  ghost function Part(v: Value, i: nat): Value {
    if v.TupleValue? && i < |v.members| then v.members[i] else NOTHING
  }

  /** The value of node `i` in stage `n`, from the stage's registers, state and received data. */
  ghost function StageVal(p: NodeProc, s: Schedule, n: nat, i: nat, d: Value, st: Value, e: seq<Value>): Value
    requires Legal(p, s) && i < |p.nodes|
    decreases i
  {
    if s.cycle[i] < n then Part(d, i)
    else
      match p.nodes[i]
      case StateParam(k) => Part(st, k)
      case SendTo(_, _) => NOTHING
      case Recv(_, zero) =>
        var r := |InStage(p, s, n, false, i)|;
        if r < |e| then e[r] else zero
      case Op(apply, operands) =>
        assert forall k | 0 <= k < |operands| :: IsOperand(p.nodes[i], operands[k]);
        apply(seq(|operands|, k requires 0 <= k < |operands| => StageVal(p, s, n, operands[k], d, st, e)))
  }

  ghost predicate StageOn(p: NodeProc, s: Schedule, n: nat, pred: Option<nat>, d: Value, st: Value, e: seq<Value>)
    requires Legal(p, s)
  {
    pred.None? || (pred.value < |p.nodes| && IsTrue(StageVal(p, s, n, pred.value, d, st, e)))
  }

  /** What goes on to the next stage, each value in its place. */
  ghost function Carried(p: NodeProc, s: Schedule, n: nat, d: Value, st: Value, e: seq<Value>): Value
    requires Legal(p, s)
  {
    TupleValue(seq(|p.nodes|, i requires 0 <= i < |p.nodes| =>
                     if Live(p, s, i, n + 1) then StageVal(p, s, n, i, d, st, e) else NOTHING))
  }

  ghost function NextState(p: NodeProc, s: Schedule, n: nat, d: Value, st: Value, e: seq<Value>): Value
    requires Legal(p, s)
  {
    TupleValue(seq(|p.init|, k requires 0 <= k < |p.init| =>
                     if s.cycle[p.next[k]] == n then StageVal(p, s, n, p.next[k], d, st, e) else NOTHING))
  }

  ghost function SendDataIn(p: NodeProc, s: Schedule, n: nat, data: nat, d: Value, st: Value, e: seq<Value>): Value
    requires Legal(p, s)
  {
    if data < |p.nodes| then StageVal(p, s, n, data, d, st, e) else NOTHING
  }

  ghost function StageOf(p: NodeProc, s: Schedule, n: nat): (stage: Stage)
    requires Legal(p, s)
    ensures |stage.receives| == |Receives(p, s, n)| && |stage.sends| == |SendNodes(p, s, n)|
  {
    var rs, ss := Receives(p, s, n), SendNodes(p, s, n);
    Stage(
      seq(|rs|, r requires 0 <= r < |rs| =>
            Receive((d: Value, st: Value, e: seq<Value>) => StageOn(p, s, n, p.nodes[rs[r]].pred, d, st, e),
                    p.nodes[rs[r]].zero)),
      seq(|ss|, r requires 0 <= r < |ss| =>
            Send((d: Value, st: Value, e: seq<Value>) => StageOn(p, s, n, p.nodes[ss[r]].pred, d, st, e),
                 (d: Value, st: Value, e: seq<Value>) => SendDataIn(p, s, n, p.nodes[ss[r]].data, d, st, e))),
      (d: Value, st: Value, e: seq<Value>) => Carried(p, s, n, d, st, e),
      (d: Value, st: Value, e: seq<Value>) => NextState(p, s, n, d, st, e))
  }

  /** The state elements that stage `n` holds, each in its place. */
  ghost function StateIn(p: NodeProc, s: Schedule, n: nat, state: seq<Value>): Value
    requires Legal(p, s) && |state| == |p.init|
  {
    TupleValue(seq(|p.init|, k requires 0 <= k < |p.init| => if s.cycle[p.next[k]] == n then state[k] else NOTHING))
  }

  /** The first `c` stages. */
  ghost function Staged(p: NodeProc, s: Schedule, c: nat, oneShot: bool): (q: Proc)
    requires Legal(p, s) && 1 <= c
    ensures WellFormed(q) && |q.stages| == c
  {
    Proc(seq(c, n requires 0 <= n < c => StageOf(p, s, n)),
         TupleValue(seq(|p.nodes|, _ => NOTHING)),
         seq(c, n requires 0 <= n < c => StateIn(p, s, n, p.init)),
         oneShot)
  }

  // ---------------------------------------------------------------------------
  // What a stage computes
  // ---------------------------------------------------------------------------

  /** What enters stage `n`. */
  ghost function Entering(p: NodeProc, s: Schedule, n: nat, x: Input): Value
    requires Legal(p, s) && Suits(p, x)
  {
    TupleValue(seq(|p.nodes|, i requires 0 <= i < |p.nodes| => if Live(p, s, i, n) then Val(p, x, i) else NOTHING))
  }

  /** What the first `r` receives of stage `n` yield. */
  ghost function Got(p: NodeProc, s: Schedule, n: nat, r: nat, x: Input): (e: seq<Value>)
    requires Legal(p, s) && Suits(p, x) && r <= |Receives(p, s, n)|
    ensures |e| == r
  {
    Vals(p, x, Receives(p, s, n)[..r])
  }

  lemma {:induction false} InStageGrows(p: NodeProc, s: Schedule, n: nat, sends: bool, k: nat, m: nat)
    requires |s.cycle| == |p.nodes| && k <= m <= |p.nodes|
    ensures InStage(p, s, n, sends, k) <= InStage(p, s, n, sends, m)
    decreases m
  {
    hide Listed;
    if k < m {
      InStageGrows(p, s, n, sends, k, m - 1);
    }
  }

  /** A receive of the stage is listed after those among the nodes before it. */
  lemma RankOf(p: NodeProc, s: Schedule, n: nat, i: nat)
    requires |s.cycle| == |p.nodes| && i < |p.nodes| && Listed(p, s, n, false, i)
    ensures |InStage(p, s, n, false, i)| < |Receives(p, s, n)|
    ensures |InStage(p, s, n, false, i + 1)| == |InStage(p, s, n, false, i)| + 1
    ensures Receives(p, s, n)[|InStage(p, s, n, false, i)|] == i
  {
    InStageGrows(p, s, n, false, i + 1, |p.nodes|);
    assert InStage(p, s, n, false, i + 1)[|InStage(p, s, n, false, i)|] == i;
  }

  /** What is used in stage `n` is computed there or carried into it. */
  lemma UsedIsThere(p: NodeProc, s: Schedule, n: nat, u: nat, o: nat)
    requires Legal(p, s) && u < |p.nodes| && s.cycle[u] == n && IsOperand(p.nodes[u], o)
    ensures o < u && (s.cycle[o] == n || Live(p, s, o, n))
  {
  }

  /** In stage `n`, nodes have the values that they mean, as soon as the receives before them are served. */
  lemma {:induction false} StageValMeans(p: NodeProc, s: Schedule, n: nat, i: nat, r: nat, x: Input)
    requires Legal(p, s) && Suits(p, x) && i < |p.nodes| && (s.cycle[i] == n || Live(p, s, i, n))
    requires r <= |Receives(p, s, n)| && |InStage(p, s, n, false, i + 1)| <= r
    ensures StageVal(p, s, n, i, Entering(p, s, n, x), StateIn(p, s, n, x.state), Got(p, s, n, r, x)) == Val(p, x, i)
    decreases i
  {
    hide InStage;
    var d, st, e := Entering(p, s, n, x), StateIn(p, s, n, x.state), Got(p, s, n, r, x);
    if s.cycle[i] == n {
      match p.nodes[i]
      case StateParam(_) =>
      case SendTo(_, _) =>
      case Recv(_, _) => RankOf(p, s, n, i);
      case Op(apply, operands) => StageOpMeans(p, s, n, i, r, x);
    }
  }

  lemma {:induction false} StageOpMeans(p: NodeProc, s: Schedule, n: nat, i: nat, r: nat, x: Input)
    requires Legal(p, s) && Suits(p, x) && i < |p.nodes| && s.cycle[i] == n && p.nodes[i].Op?
    requires r <= |Receives(p, s, n)| && |InStage(p, s, n, false, i + 1)| <= r
    ensures StageVal(p, s, n, i, Entering(p, s, n, x), StateIn(p, s, n, x.state), Got(p, s, n, r, x)) == Val(p, x, i)
    decreases i, 0
  {
    hide Live, InStage, Val, StageVal, Entering, StateIn, Got, Receives;
    var d, st, e := Entering(p, s, n, x), StateIn(p, s, n, x.state), Got(p, s, n, r, x);
    var operands := p.nodes[i].operands;
    OpMeans(p, x, i);
    forall k | 0 <= k < |operands|
      ensures StageVal(p, s, n, operands[k], d, st, e) == Val(p, x, operands[k])
    {
      UsedIsThere(p, s, n, i, operands[k]);
      InStageGrows(p, s, n, false, operands[k] + 1, i + 1);
      StageValMeans(p, s, n, operands[k], r, x);
    }
    StageOpIs(p, s, n, i, d, st, e);
    assert StageVals(p, s, n, operands, d, st, e) == Vals(p, x, operands);
  }

  ghost function StageVals(p: NodeProc, s: Schedule, n: nat, operands: seq<nat>, d: Value, st: Value, e: seq<Value>): seq<Value>
    requires Legal(p, s) && forall k | 0 <= k < |operands| :: operands[k] < |p.nodes|
  {
    seq(|operands|, k requires 0 <= k < |operands| => StageVal(p, s, n, operands[k], d, st, e))
  }

  lemma StageOpIs(p: NodeProc, s: Schedule, n: nat, i: nat, d: Value, st: Value, e: seq<Value>)
    requires Legal(p, s) && i < |p.nodes| && s.cycle[i] == n && p.nodes[i].Op?
    ensures forall k | 0 <= k < |p.nodes[i].operands| :: IsOperand(p.nodes[i], p.nodes[i].operands[k])
    ensures StageVal(p, s, n, i, d, st, e) == p.nodes[i].apply(StageVals(p, s, n, p.nodes[i].operands, d, st, e))
  {
    var operands := p.nodes[i].operands;
    assert forall k | 0 <= k < |operands| :: IsOperand(p.nodes[i], operands[k]);
    assert StageVals(p, s, n, operands, d, st, e)
        == seq(|operands|, k requires 0 <= k < |operands| => StageVal(p, s, n, operands[k], d, st, e));
  }

  lemma StageParts(p: NodeProc, s: Schedule, n: nat)
    requires Legal(p, s)
    ensures var stage, rs, ss := StageOf(p, s, n), Receives(p, s, n), SendNodes(p, s, n);
            && |stage.receives| == |rs| && |stage.sends| == |ss|
            && (forall r | 0 <= r < |rs| :: stage.receives[r].zero == p.nodes[rs[r]].zero)
            && (forall r, d, st, e | 0 <= r < |rs| ::
                  stage.receives[r].pred(d, st, e) == StageOn(p, s, n, p.nodes[rs[r]].pred, d, st, e))
            && (forall r, d, st, e | 0 <= r < |ss| ::
                  stage.sends[r].pred(d, st, e) == StageOn(p, s, n, p.nodes[ss[r]].pred, d, st, e))
            && (forall r, d, st, e | 0 <= r < |ss| ::
                  stage.sends[r].data(d, st, e) == SendDataIn(p, s, n, p.nodes[ss[r]].data, d, st, e))
  {
    hide StageOn, SendDataIn, Carried, NextState, Legal;
  }

  /** Predicates of receives and sends hold in the stage exactly when they hold in the proc. */
  lemma PredMeans(p: NodeProc, s: Schedule, n: nat, i: nat, r: nat, x: Input)
    requires Legal(p, s) && Suits(p, x) && i < |p.nodes| && s.cycle[i] == n && (p.nodes[i].Recv? || p.nodes[i].SendTo?)
    requires |InStage(p, s, n, false, i)| <= r <= |Receives(p, s, n)|
    ensures p.nodes[i].pred.Some? ==> p.nodes[i].pred.value < |p.nodes|
    ensures StageOn(p, s, n, p.nodes[i].pred, Entering(p, s, n, x), StateIn(p, s, n, x.state), Got(p, s, n, r, x))
         == On(p, x, p.nodes[i].pred)
  {
    hide Live, InStage, Val, Entering, StateIn, Got, Receives, StageVal;
    if p.nodes[i].pred.Some? {
      var o := p.nodes[i].pred.value;
      UsedIsThere(p, s, n, i, o);
      InStageGrows(p, s, n, false, o + 1, i);
      StageValMeans(p, s, n, o, r, x);
    }
  }

  // ---------------------------------------------------------------------------
  // Running the stages
  // ---------------------------------------------------------------------------

  /** The queues of the receives of stage `n`. */
  ghost function StageQueues(p: NodeProc, s: Schedule, n: nat, queues: seq<seq<Value>>): (q: seq<seq<Value>>)
    requires |s.cycle| == |p.nodes| == |queues|
    ensures |q| == |Receives(p, s, n)|
  {
    var rs := Receives(p, s, n);
    seq(|rs|, r requires 0 <= r < |rs| => queues[rs[r]])
  }

  /** ... after the first `k` of them have been served. */
  ghost function ServedQueues(p: NodeProc, s: Schedule, n: nat, k: nat, x: Input): (q: seq<seq<Value>>)
    requires |s.cycle| == |p.nodes| && Suits(p, x)
    ensures |q| == |Receives(p, s, n)|
  {
    var rs := Receives(p, s, n);
    seq(|rs|, r requires 0 <= r < |rs| => if r < k then ItemsLeft(p, x, rs[r]) else x.queues[rs[r]])
  }

  ghost predicate StageBlocked(p: NodeProc, s: Schedule, n: nat, k: nat, x: Input)
    requires |s.cycle| == |p.nodes| && Suits(p, x) && k <= |Receives(p, s, n)|
  {
    exists r: nat :: r < k && Blocked(p, x, Receives(p, s, n)[r])
  }

  lemma ReceiveRank(p: NodeProc, s: Schedule, n: nat, r: nat)
    requires |s.cycle| == |p.nodes| && r < |Receives(p, s, n)|
    ensures |InStage(p, s, n, false, Receives(p, s, n)[r])| == r
  {
    var i := Receives(p, s, n)[r];
    RankOf(p, s, n, i);
    Increasing(p, s, n, false, |p.nodes|);
  }

  lemma {:induction false} Increasing(p: NodeProc, s: Schedule, n: nat, sends: bool, k: nat)
    requires |s.cycle| == |p.nodes| && k <= |p.nodes|
    ensures forall q, r | 0 <= q < r < |InStage(p, s, n, sends, k)| ::
              InStage(p, s, n, sends, k)[q] < InStage(p, s, n, sends, k)[r]
  {
    hide Listed;
    if k > 0 {
      Increasing(p, s, n, sends, k - 1);
    }
  }

  /** Serving the receives of a stage in order gives each the value it means, and stops exactly when one blocks. */
  lemma {:induction false} TakeInputsMeans(p: NodeProc, s: Schedule, n: nat, k: nat, x: Input)
    requires Legal(p, s) && Suits(p, x) && k <= |Receives(p, s, n)|
    ensures TakeInputs(StageOf(p, s, n), Entering(p, s, n, x), StateIn(p, s, n, x.state), StageQueues(p, s, n, x.queues), k)
         == if StageBlocked(p, s, n, k, x) then None
            else Some((Got(p, s, n, k, x), ServedQueues(p, s, n, k, x)))
  {
    hide StageOf, Entering, StateIn, Got, StageQueues, ServedQueues, StageBlocked, Receives, Val, Takes, ItemsLeft;
    if k == 0 {
      NoneServed(p, s, n, x);
    } else {
      TakeInputsMeans(p, s, n, k - 1, x);
      NextServed(p, s, n, k - 1, x);
      NextReceive(p, s, n, k - 1, x);
    }
  }

  lemma NoneServed(p: NodeProc, s: Schedule, n: nat, x: Input)
    requires Legal(p, s) && Suits(p, x)
    ensures ServedQueues(p, s, n, 0, x) == StageQueues(p, s, n, x.queues)
    ensures Got(p, s, n, 0, x) == [] && !StageBlocked(p, s, n, 0, x)
  {
    hide Val;
  }

  lemma NextServed(p: NodeProc, s: Schedule, n: nat, k: nat, x: Input)
    requires Legal(p, s) && Suits(p, x) && k < |Receives(p, s, n)|
    ensures var i := Receives(p, s, n)[k];
            && Got(p, s, n, k + 1, x) == Got(p, s, n, k, x) + [Val(p, x, i)]
            && ServedQueues(p, s, n, k, x)[k] == x.queues[i]
            && ServedQueues(p, s, n, k + 1, x) == ServedQueues(p, s, n, k, x)[k := ItemsLeft(p, x, i)]
            && ServedQueues(p, s, n, k, x)[k := x.queues[i]] == ServedQueues(p, s, n, k, x)
            && (StageBlocked(p, s, n, k + 1, x) <==> StageBlocked(p, s, n, k, x) || Blocked(p, x, i))
  {
    hide Val, Blocked, ItemsLeft, InStage;
    var rs := Receives(p, s, n);
    assert rs[..k + 1] == rs[..k] + [rs[k]];
  }

  lemma NextReceive(p: NodeProc, s: Schedule, n: nat, k: nat, x: Input)
    requires Legal(p, s) && Suits(p, x) && k < |Receives(p, s, n)|
    ensures var i, receive := Receives(p, s, n)[k], StageOf(p, s, n).receives[k];
            && receive.pred(Entering(p, s, n, x), StateIn(p, s, n, x.state), Got(p, s, n, k, x)) == Takes(p, x, i)
            && (Takes(p, x, i) && x.queues[i] != [] ==>
                  Val(p, x, i) == x.queues[i][0] && ItemsLeft(p, x, i) == x.queues[i][1..])
            && (!Takes(p, x, i) ==> Val(p, x, i) == receive.zero && ItemsLeft(p, x, i) == x.queues[i])
  {
    hide StageOf, Entering, StateIn, Got, InStage;
    var i := Receives(p, s, n)[k];
    StageParts(p, s, n);
    ReceiveRank(p, s, n, k);
    PredMeans(p, s, n, i, k, x);
  }

  lemma LiveBefore(p: NodeProc, s: Schedule, i: nat, n: nat)
    requires |s.cycle| == |p.nodes| && i < |p.nodes| && Live(p, s, i, n + 1)
    ensures s.cycle[i] == n || Live(p, s, i, n)
  {
  }

  ghost function FiringOf(p: NodeProc, s: Schedule, n: nat, x: Input): Firing
    requires Legal(p, s) && Suits(p, x)
  {
    Firing(Entering(p, s, n, x), StateIn(p, s, n, x.state), Got(p, s, n, |Receives(p, s, n)|, x))
  }

  lemma AllServed(p: NodeProc, s: Schedule, n: nat, i: nat, x: Input)
    requires Legal(p, s) && Suits(p, x) && i < |p.nodes| && (s.cycle[i] == n || Live(p, s, i, n))
    ensures var f := FiringOf(p, s, n, x); StageVal(p, s, n, i, f.d, f.s, f.received) == Val(p, x, i)
  {
    hide StageVal, Val, Entering, StateIn, Got, InStage, Live;
    InStageGrows(p, s, n, false, i + 1, |p.nodes|);
    StageValMeans(p, s, n, i, |Receives(p, s, n)|, x);
  }

  /** What leaves stage `n` is what enters the next. */
  lemma OutMeans(p: NodeProc, s: Schedule, n: nat, x: Input)
    requires Legal(p, s) && Suits(p, x)
    ensures OutOf(StageOf(p, s, n), FiringOf(p, s, n, x)) == Entering(p, s, n + 1, x)
  {
    hide StageVal, Val, FiringOf, Live, InStage;
    var f := FiringOf(p, s, n, x);
    forall i | 0 <= i < |p.nodes| && Live(p, s, i, n + 1)
      ensures StageVal(p, s, n, i, f.d, f.s, f.received) == Val(p, x, i)
    {
      LiveBefore(p, s, i, n);
      AllServed(p, s, n, i, x);
    }
    assert Carried(p, s, n, f.d, f.s, f.received).members == Entering(p, s, n + 1, x).members;
  }

  /** Nothing is carried on that is not computed yet or not used after the stage. */
  lemma CarriesOnlyWhatIsUsed(p: NodeProc, s: Schedule, n: nat, f: Firing, i: nat)
    requires Legal(p, s) && i < |p.nodes|
    requires n < s.cycle[i] || forall u | 0 <= u < |p.nodes| && IsOperand(p.nodes[u], i) :: s.cycle[u] <= n
    ensures var v := OutOf(StageOf(p, s, n), f); v.TupleValue? && |v.members| == |p.nodes| && v.members[i] == NOTHING
  {
    hide StageVal, StageOn, SendDataIn, NextState, Receives, SendNodes;
    assert !Live(p, s, i, n + 1);
    assert OutOf(StageOf(p, s, n), f) == Carried(p, s, n, f.d, f.s, f.received);
  }

  /** The nodes of the first `c` stages. */
  ghost function Before(p: NodeProc, s: Schedule, c: nat): set<nat>
    requires |s.cycle| == |p.nodes|
  {
    set i: nat | i < |p.nodes| && s.cycle[i] < c
  }

  ghost function After(p: NodeProc, s: Schedule, c: nat, x: Input): (x': Input)
    requires Legal(p, s) && Suits(p, x)
    ensures Suits(p, x')
  {
    var which, k := Before(p, s, c), |p.nodes|;
    Following(p, which, x, ValsOf(p, which, k, x), QueuesLeft(p, which, k, x))
  }

  lemma ElementAfter(p: NodeProc, s: Schedule, c: nat, k: nat, x: Input)
    requires Legal(p, s) && Suits(p, x) && k < |p.init| && s.cycle[p.next[k]] < c
    ensures After(p, s, c, x).state[k] == Val(p, x, p.next[k])
  {
    hide Val, QueuesLeft;
    assert p.next[k] in Before(p, s, c);
  }

  lemma StateMeans(p: NodeProc, s: Schedule, c: nat, n: nat, x: Input)
    requires Legal(p, s) && Suits(p, x) && n < c
    ensures NextOf(StageOf(p, s, n), FiringOf(p, s, n, x)) == StateIn(p, s, n, After(p, s, c, x).state)
  {
    hide StageVal, Val, FiringOf, Live, InStage, After, Receives, SendNodes, StageOn, SendDataIn, Carried;
    var f := FiringOf(p, s, n, x);
    forall k | 0 <= k < |p.init| && s.cycle[p.next[k]] == n
      ensures StageVal(p, s, n, p.next[k], f.d, f.s, f.received) == After(p, s, c, x).state[k]
    {
      AllServed(p, s, n, p.next[k], x);
      ElementAfter(p, s, c, k, x);
    }
    assert NextState(p, s, n, f.d, f.s, f.received).members == StateIn(p, s, n, After(p, s, c, x).state).members;
  }

  lemma QueuesMean(p: NodeProc, s: Schedule, c: nat, n: nat, x: Input)
    requires Legal(p, s) && Suits(p, x) && n < c
    ensures ServedQueues(p, s, n, |Receives(p, s, n)|, x) == StageQueues(p, s, n, After(p, s, c, x).queues)
  {
    hide Val, ItemsLeft, InStage;
  }

  ghost function StatesOf(p: NodeProc, s: Schedule, n: nat, m: nat, x: Input, x': Input): Value
    requires Legal(p, s) && Suits(p, x) && Suits(p, x')
  {
    StateIn(p, s, n, if n < m then x'.state else x.state)
  }

  ghost function QueuesOf(p: NodeProc, s: Schedule, n: nat, m: nat, x: Input, x': Input): (q: seq<seq<Value>>)
    requires Legal(p, s) && Suits(p, x) && Suits(p, x')
    ensures |q| == |StageOf(p, s, n).receives|
  {
    StageQueues(p, s, n, if n < m then x'.queues else x.queues)
  }

  /** The machine that the first `c` stages run on, when the first `m` of them have run. */
  ghost function MachineDuring(p: NodeProc, s: Schedule, c: nat, m: nat, x: Input, x': Input, oneShot: bool): (r: Machine)
    requires Legal(p, s) && Suits(p, x) && Suits(p, x') && 1 <= c
    ensures MachineFits(Staged(p, s, c, oneShot), r)
  {
    Machine(seq(c, n requires 0 <= n < c => StatesOf(p, s, n, m, x, x')),
            seq(c, n requires 0 <= n < c => QueuesOf(p, s, n, m, x, x')))
  }

  ghost function MachineOf(p: NodeProc, s: Schedule, c: nat, x: Input, oneShot: bool): (r: Machine)
    requires Legal(p, s) && Suits(p, x) && 1 <= c
    ensures MachineFits(Staged(p, s, c, oneShot), r)
  {
    MachineDuring(p, s, c, 0, x, x, oneShot)
  }

  lemma MachineEnds(p: NodeProc, s: Schedule, c: nat, x: Input, x': Input, oneShot: bool)
    requires Legal(p, s) && Suits(p, x) && Suits(p, x') && 1 <= c
    ensures MachineDuring(p, s, c, 0, x, x', oneShot) == MachineOf(p, s, c, x, oneShot)
    ensures MachineDuring(p, s, c, c, x, x', oneShot) == MachineOf(p, s, c, x', oneShot)
  {
    hide Receives, Legal;
    var a, b := MachineDuring(p, s, c, 0, x, x', oneShot), MachineOf(p, s, c, x, oneShot);
    assert a.state == b.state && a.queues == b.queues;
    var d, e := MachineDuring(p, s, c, c, x, x', oneShot), MachineOf(p, s, c, x', oneShot);
    assert d.state == e.state && d.queues == e.queues;
  }

  ghost predicate StagesBlocked(p: NodeProc, s: Schedule, c: nat, m: nat, x: Input)
    requires Legal(p, s) && Suits(p, x)
  {
    exists n: nat :: m <= n < c && StageBlocked(p, s, n, |Receives(p, s, n)|, x)
  }

  ghost function RowOf(p: NodeProc, s: Schedule, c: nat, m: nat, x: Input): seq<Firing>
    requires Legal(p, s) && Suits(p, x) && m <= c
  {
    seq(c - m, n requires 0 <= n < c - m => FiringOf(p, s, m + n, x))
  }

  /** One stage of an iteration. */
  lemma StageRuns(p: NodeProc, s: Schedule, c: nat, m: nat, x: Input, oneShot: bool)
    requires Legal(p, s) && Suits(p, x) && m < c
    ensures var stage, q := StageOf(p, s, m), Staged(p, s, c, oneShot);
            var x' := After(p, s, c, x);
            var before, after := MachineDuring(p, s, c, m, x, x', oneShot), MachineDuring(p, s, c, m + 1, x, x', oneShot);
            && q.stages[m] == stage && |stage.receives| == |before.queues[m]|
            && (var taken := TakeInputs(stage, Entering(p, s, m, x), before.state[m], before.queues[m], |stage.receives|);
                if StageBlocked(p, s, m, |Receives(p, s, m)|, x) then taken == None
                else
                  && taken == Some((FiringOf(p, s, m, x).received, after.queues[m]))
                  && FiringOf(p, s, m, x).s == before.state[m]
                  && after == Machine(before.state[m := NextOf(stage, FiringOf(p, s, m, x))],
                                      before.queues[m := after.queues[m]]))
  {
    hide TakeInputs, StageBlocked, Val, Entering, StateIn, InStage, StageVal, After;
    var x' := After(p, s, c, x);
    var before, after := MachineDuring(p, s, c, m, x, x', oneShot), MachineDuring(p, s, c, m + 1, x, x', oneShot);
    StageParts(p, s, m);
    TakeInputsMeans(p, s, m, |Receives(p, s, m)|, x);
    QueuesMean(p, s, c, m, x);
    StateMeans(p, s, c, m, x);
    hide StageOf, Receives, FiringOf, StageQueues, ServedQueues;
    assert after.state == before.state[m := after.state[m]];
    assert after.queues == before.queues[m := after.queues[m]];
  }

  /** Running the stages of an iteration gives each node the value it means, and stops exactly when a receive blocks. */
  lemma {:induction false} StagesRun(p: NodeProc, s: Schedule, c: nat, m: nat, x: Input, oneShot: bool)
    requires Legal(p, s) && Suits(p, x) && m <= c && 1 <= c
    ensures var x' := After(p, s, c, x);
            RunStages(Staged(p, s, c, oneShot), m, Entering(p, s, m, x), MachineDuring(p, s, c, m, x, x', oneShot))
            == if StagesBlocked(p, s, c, m, x) then None
               else Some((MachineDuring(p, s, c, c, x, x', oneShot), RowOf(p, s, c, m, x)))
    decreases c - m
  {
    hide TakeInputs, StageBlocked, Val, Entering, StateIn, InStage, StageVal, After, MachineDuring, Staged,
         StageOf, Receives, OutOf, NextOf;
    StagedLength(p, s, c, oneShot);
    if m == c {
      assert RowOf(p, s, c, m, x) == [];
    } else {
      StageRuns(p, s, c, m, x, oneShot);
      OutMeans(p, s, m, x);
      StagesRun(p, s, c, m + 1, x, oneShot);
      assert RowOf(p, s, c, m, x) == [FiringOf(p, s, m, x)] + RowOf(p, s, c, m + 1, x);
      assert StagesBlocked(p, s, c, m, x)
        <==> StageBlocked(p, s, m, |Receives(p, s, m)|, x) || StagesBlocked(p, s, c, m + 1, x);
    }
  }

  lemma StagedLength(p: NodeProc, s: Schedule, c: nat, oneShot: bool)
    requires Legal(p, s) && 1 <= c
    ensures |Staged(p, s, c, oneShot).stages| == c
  {
  }

  lemma BlockedInSomeStage(p: NodeProc, s: Schedule, c: nat, x: Input)
    requires Legal(p, s) && Suits(p, x)
    ensures SomeBlocked(p, Before(p, s, c), |p.nodes|, x) <==> StagesBlocked(p, s, c, 0, x)
  {
    hide Val, InStage;
    if j: nat :| j < |p.nodes| && j in Before(p, s, c) && Blocked(p, x, j) {
      var n := s.cycle[j];
      RankOf(p, s, n, j);
      assert Blocked(p, x, Receives(p, s, n)[|InStage(p, s, n, false, j)|]);
      assert StageBlocked(p, s, n, |Receives(p, s, n)|, x);
    }
    if n: nat :| n < c && StageBlocked(p, s, n, |Receives(p, s, n)|, x) {
      var r: nat :| r < |Receives(p, s, n)| && Blocked(p, x, Receives(p, s, n)[r]);
      assert Receives(p, s, n)[r] in Before(p, s, c);
    }
  }

  lemma BeforeIsClosed(p: NodeProc, s: Schedule, c: nat)
    requires Legal(p, s)
    ensures Closed(p, Before(p, s, c))
  {
  }

  lemma NothingEnters(p: NodeProc, s: Schedule, c: nat, x: Input, oneShot: bool)
    requires Legal(p, s) && Suits(p, x) && 1 <= c
    ensures Entering(p, s, 0, x) == Staged(p, s, c, oneShot).start
  {
    hide Val, StageOf;
    assert Entering(p, s, 0, x).members == seq(|p.nodes|, _ => NOTHING);
  }

  /** One iteration of the stages is one iteration of the nodes, whatever the schedule. */
  lemma IterationIsUnscheduled(p: NodeProc, s: Schedule, c: nat, x: Input, oneShot: bool)
    requires Legal(p, s) && Suits(p, x) && 1 <= c
    ensures var q := Staged(p, s, c, oneShot);
            var run := RunNodes(p, Before(p, s, c), |p.nodes|, x);
            RunStages(q, 0, q.start, MachineOf(p, s, c, x, oneShot))
            == match run
               case None => None
               case Some((vals, left)) =>
                 Some((MachineOf(p, s, c, Following(p, Before(p, s, c), x, vals, left), oneShot), RowOf(p, s, c, 0, x)))
    ensures var run := RunNodes(p, Before(p, s, c), |p.nodes|, x);
            run.Some? ==> run.value.0 == ValsOf(p, Before(p, s, c), |p.nodes|, x)
  {
    BeforeIsClosed(p, s, c);
    NodesMean(p, Before(p, s, c), |p.nodes|, x);
    BlockedInSomeStage(p, s, c, x);
    NothingEnters(p, s, c, x, oneShot);
    hide RunStages, RunNodes, Staged, MachineDuring, SomeBlocked, StagesBlocked, RowOf, Entering, ValsOf, QueuesLeft, Before;
    StagesRun(p, s, c, 0, x, oneShot);
    MachineEnds(p, s, c, x, After(p, s, c, x), oneShot);
  }

  // ---------------------------------------------------------------------------
  // What is sent
  // ---------------------------------------------------------------------------

  /** A send of stage `n` sends in the stage what it sends in the proc. */
  lemma SendMeans(p: NodeProc, s: Schedule, c: nat, n: nat, j: nat, x: Input)
    requires Legal(p, s) && Suits(p, x) && n < c && j < |SendNodes(p, s, n)|
    ensures var f, stage := FiringOf(p, s, n, x), StageOf(p, s, n);
            (if Sends(stage, f, j) then [SendData(stage, f, j)] else [])
            == SentIn(p, SendNodes(p, s, n)[j], ValsOf(p, Before(p, s, c), |p.nodes|, x))
  {
    hide Val, StageVal, Live, StageOf, Got, Entering, StateIn;
    var i := SendNodes(p, s, n)[j];
    var pred, data := p.nodes[i].pred, p.nodes[i].data;
    StageParts(p, s, n);
    InStageGrows(p, s, n, false, i, |p.nodes|);
    PredMeans(p, s, n, i, |Receives(p, s, n)|, x);
    assert IsOperand(p.nodes[i], data) && (pred.Some? ==> IsOperand(p.nodes[i], pred.value));
    UsedIsThere(p, s, n, i, data);
    AllServed(p, s, n, data, x);
  }

  /** The firings of the stages send what the nodes send. */
  ghost predicate SendsAgree(p: NodeProc, s: Schedule, c: nat, rows: seq<seq<Firing>>, vals: seq<seq<Value>>)
    requires Legal(p, s)
    requires (forall r | 0 <= r < |rows| :: |rows[r]| == c) && (forall r | 0 <= r < |vals| :: |vals[r]| == |p.nodes|)
  {
    forall n: nat, j: nat | n < c && j < |SendNodes(p, s, n)| ::
      Given(StageOf(p, s, n), Column(rows, n), j) == SentBy(p, SendNodes(p, s, n)[j], vals)
  }

  lemma SendsAgreeNext(p: NodeProc, s: Schedule, c: nat, rows: seq<seq<Firing>>, vals: seq<seq<Value>>, x: Input)
    requires Legal(p, s) && Suits(p, x)
    requires (forall r | 0 <= r < |rows| :: |rows[r]| == c) && (forall r | 0 <= r < |vals| :: |vals[r]| == |p.nodes|)
    requires SendsAgree(p, s, c, rows, vals)
    ensures SendsAgree(p, s, c, rows + [RowOf(p, s, c, 0, x)], vals + [ValsOf(p, Before(p, s, c), |p.nodes|, x)])
  {
    hide StageOf, SendNodes, FiringOf, ValsOf, Before, SentIn, Sends, SendData;
    var row, val := RowOf(p, s, c, 0, x), ValsOf(p, Before(p, s, c), |p.nodes|, x);
    forall n: nat, j: nat | n < c && j < |SendNodes(p, s, n)|
      ensures Given(StageOf(p, s, n), Column(rows + [row], n), j) == SentBy(p, SendNodes(p, s, n)[j], vals + [val])
    {
      SendMeans(p, s, c, n, j, x);
      assert Column(rows + [row], n) == Column(rows, n) + [FiringOf(p, s, n, x)];
      assert (Column(rows, n) + [FiringOf(p, s, n, x)])[..|rows|] == Column(rows, n);
      assert (vals + [val])[..|vals|] == vals;
    }
  }

  /** Iterations of the stages are iterations of the nodes, and send the same. */
  lemma {:induction false} IterationsAreUnscheduled(p: NodeProc, s: Schedule, c: nat, k: nat, x: Input, oneShot: bool)
    requires Legal(p, s) && Suits(p, x) && 1 <= c
    ensures var o := IterateNodes(p, Before(p, s, c), k, x);
            var o' := Iterate(Staged(p, s, c, oneShot), k, MachineOf(p, s, c, x, oneShot));
            && (o.None? <==> o'.None?)
            && (o.Some? ==> o'.value.0 == MachineOf(p, s, c, o.value.0, oneShot)
                            && SendsAgree(p, s, c, o'.value.1, o.value.1))
  {
    hide StageOf, MachineOf, RunStages, RunNodes, Before, SendsAgree, SendNodes, RowOf, ValsOf;
    StagedLength(p, s, c, oneShot);
    if k == 0 {
      NothingSent(p, s, c);
    } else {
      IterationsAreUnscheduled(p, s, c, k - 1, x, oneShot);
      var o := IterateNodes(p, Before(p, s, c), k - 1, x);
      if o.Some? {
        var o' := Iterate(Staged(p, s, c, oneShot), k - 1, MachineOf(p, s, c, x, oneShot));
        IterationIsUnscheduled(p, s, c, o.value.0, oneShot);
        SendsAgreeNext(p, s, c, o'.value.1, o.value.1, o.value.0);
      }
    }
  }

  lemma NothingSent(p: NodeProc, s: Schedule, c: nat)
    requires Legal(p, s)
    ensures SendsAgree(p, s, c, [], [])
  {
  }
}
