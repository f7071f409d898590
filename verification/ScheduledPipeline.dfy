/**
 The pipeline of a scheduled proc. What it sends is what the nodes send, with one-shot logic, and without
 it where the nodes never have two sends of a stage active together, whatever the registers carry.
 */
module ScheduledPipeline {
  import opened Options
  import opened IrValues
  import opened ElasticPipeline
  import opened ProcOutputs
  import opened SequentialProc
  import opened PipelineCompleteness
  import opened ScheduledProc
  import FunctionPipeline

  // ---------------------------------------------------------------------------
  // Firings of the pipeline are firings of iterations
  // ---------------------------------------------------------------------------

  /** What a state element can hold and what a receive can take, such as the values of its type. */
  datatype Domain = Domain(state: (nat, Value) -> bool, item: (nat, Value) -> bool)

  ghost predicate Within(p: NodeProc, dom: Domain, x: Input)
    requires Suits(p, x)
  {
    && (forall k: nat | k < |p.init| :: dom.state(k, x.state[k]))
    && (forall i: nat, v | i < |p.nodes| && v in x.queues[i] :: dom.item(i, v))
  }

  /** Iterations stay within the domain. */
  ghost predicate IsDomain(p: NodeProc, dom: Domain)
    requires ProcOk(p)
  {
    && (forall k: nat | k < |p.init| :: dom.state(k, p.init[k]))
    && (forall x, k: nat | Suits(p, x) && Within(p, dom, x) && k < |p.init| :: dom.state(k, Val(p, x, p.next[k])))
  }

  /** Two inputs that agree on the stages before `n`. */
  ghost predicate AgreeBefore(p: NodeProc, s: Schedule, n: nat, x: Input, y: Input)
    requires Legal(p, s) && Suits(p, x) && Suits(p, y)
  {
    && (forall k | 0 <= k < |p.init| && s.cycle[p.next[k]] < n :: x.state[k] == y.state[k])
    && (forall i | 0 <= i < |p.nodes| && s.cycle[i] < n :: x.queues[i] == y.queues[i])
  }

  lemma {:induction false} EarlierSame(p: NodeProc, s: Schedule, n: nat, x: Input, y: Input, i: nat)
    requires Legal(p, s) && Suits(p, x) && Suits(p, y) && AgreeBefore(p, s, n, x, y) && i < |p.nodes| && s.cycle[i] < n
    ensures Val(p, x, i) == Val(p, y, i)
    decreases i
  {
    match p.nodes[i]
    case StateParam(_) =>
    case SendTo(_, _) =>
    case Recv(pred, _) =>
      if pred.Some? {
        assert IsOperand(p.nodes[i], pred.value);
        EarlierSame(p, s, n, x, y, pred.value);
      }
    case Op(_, operands) =>
      OpMeans(p, x, i);
      OpMeans(p, y, i);
      forall k | 0 <= k < |operands|
        ensures Val(p, x, operands[k]) == Val(p, y, operands[k])
      {
        EarlierSame(p, s, n, x, y, operands[k]);
      }
      assert Vals(p, x, operands) == Vals(p, y, operands);
  }

  lemma EntersSame(p: NodeProc, s: Schedule, n: nat, x: Input, y: Input)
    requires Legal(p, s) && Suits(p, x) && Suits(p, y) && AgreeBefore(p, s, n, x, y)
    ensures Entering(p, s, n, x) == Entering(p, s, n, y)
  {
    hide Val;
    forall i | 0 <= i < |p.nodes| && Live(p, s, i, n)
      ensures Val(p, x, i) == Val(p, y, i)
    {
      EarlierSame(p, s, n, x, y, i);
    }
    assert Entering(p, s, n, x).members == Entering(p, s, n, y).members;
  }

  /** What receive `i` of stage `n` finds in a firing: the item it takes, if it takes one. */
  ghost function QueueFor(p: NodeProc, s: Schedule, n: nat, f: Firing, i: nat): seq<Value>
    requires Legal(p, s) && i < |p.nodes|
  {
    var r := |InStage(p, s, n, false, i)|;
    if r < |StageOf(p, s, n).receives| == |f.received| && Active(StageOf(p, s, n), f, r) then [f.received[r]] else []
  }

  /** An iteration that is `x` before stage `n`, and has the state and the items of a firing in the stage. */
  ghost function Joined(p: NodeProc, s: Schedule, n: nat, x: Input, state: seq<Value>, f: Firing): (y: Input)
    requires Legal(p, s) && Suits(p, x) && |state| == |p.init|
    ensures Suits(p, y) && AgreeBefore(p, s, n, x, y)
  {
    Input(seq(|p.init|, k requires 0 <= k < |p.init| => if s.cycle[p.next[k]] == n then state[k] else x.state[k]),
          seq(|p.nodes|, i requires 0 <= i < |p.nodes| =>
                if Listed(p, s, n, false, i) then QueueFor(p, s, n, f, i) else x.queues[i]))
  }

  /** A firing of stage `n` on what enters it, on some state, and on any items. */
  ghost predicate Fitting(p: NodeProc, s: Schedule, n: nat, x: Input, state: seq<Value>, f: Firing)
    requires Legal(p, s) && Suits(p, x) && |state| == |p.init|
  {
    Gated(StageOf(p, s, n), f) && f.d == Entering(p, s, n, x) && f.s == StateIn(p, s, n, state)
  }

  lemma StateJoined(p: NodeProc, s: Schedule, n: nat, x: Input, state: seq<Value>, f: Firing)
    requires Legal(p, s) && Suits(p, x) && |state| == |p.init| && Fitting(p, s, n, x, state, f)
    ensures f.d == Entering(p, s, n, Joined(p, s, n, x, state, f))
    ensures f.s == StateIn(p, s, n, Joined(p, s, n, x, state, f).state)
  {
    hide Entering, Gated, QueueFor, StageOf;
    var y := Joined(p, s, n, x, state, f);
    EntersSame(p, s, n, x, y);
    assert StateIn(p, s, n, y.state).members == StateIn(p, s, n, state).members;
  }

  lemma {:induction false} GotJoined(p: NodeProc, s: Schedule, n: nat, x: Input, state: seq<Value>, f: Firing, r: nat)
    requires Legal(p, s) && Suits(p, x) && |state| == |p.init| && Fitting(p, s, n, x, state, f)
    requires r <= |Receives(p, s, n)|
    ensures Got(p, s, n, r, Joined(p, s, n, x, state, f)) == f.received[..r]
  {
    hide Val, Entering, StateIn, StageOf, Joined, InStage;
    if r > 0 {
      GotJoined(p, s, n, x, state, f, r - 1);
      ReceiveJoined(p, s, n, x, state, f, r - 1);
      var rs := Receives(p, s, n);
      assert rs[..r] == rs[..r - 1] + [rs[r - 1]];
      assert f.received[..r] == f.received[..r - 1] + [f.received[r - 1]];
    }
  }

  lemma ReceiveJoined(p: NodeProc, s: Schedule, n: nat, x: Input, state: seq<Value>, f: Firing, r: nat)
    requires Legal(p, s) && Suits(p, x) && |state| == |p.init| && Fitting(p, s, n, x, state, f)
    requires r < |Receives(p, s, n)| && Got(p, s, n, r, Joined(p, s, n, x, state, f)) == f.received[..r]
    ensures Val(p, Joined(p, s, n, x, state, f), Receives(p, s, n)[r]) == f.received[r]
  {
    var i, y := Receives(p, s, n)[r], Joined(p, s, n, x, state, f);
    ReceiveRank(p, s, n, r);
    assert y.queues[i] == QueueFor(p, s, n, f, i);
    hide Entering, StateIn, Got, InStage, Receives, StageOf, Joined;
    StateJoined(p, s, n, x, state, f);
    StageParts(p, s, n);
    PredMeans(p, s, n, i, r, y);
  }

  /** It is the firing of an iteration. */
  lemma FiringJoined(p: NodeProc, s: Schedule, n: nat, x: Input, state: seq<Value>, f: Firing)
    requires Legal(p, s) && Suits(p, x) && |state| == |p.init| && Fitting(p, s, n, x, state, f)
    ensures FiringOf(p, s, n, Joined(p, s, n, x, state, f)) == f
  {
    hide Entering, StateIn, Got, Joined, Receives;
    StateJoined(p, s, n, x, state, f);
    GotJoined(p, s, n, x, state, f, |Receives(p, s, n)|);
    assert f.received[..|f.received|] == f.received;
  }

  // ---------------------------------------------------------------------------
  // ... in every run
  // ---------------------------------------------------------------------------

  /** The items that the firing takes are in the domain. */
  ghost predicate TakesWithin(p: NodeProc, s: Schedule, dom: Domain, n: nat, f: Firing)
    requires Legal(p, s) && |f.received| == |StageOf(p, s, n).receives|
  {
    forall r | 0 <= r < |Receives(p, s, n)| && Active(StageOf(p, s, n), f, r) :: dom.item(Receives(p, s, n)[r], f.received[r])
  }

  ghost predicate StateWithin(p: NodeProc, dom: Domain, state: seq<Value>) {
    |state| == |p.init| && forall k: nat | k < |p.init| :: dom.state(k, state[k])
  }

  lemma JoinedWithin(p: NodeProc, s: Schedule, dom: Domain, n: nat, x: Input, state: seq<Value>, f: Firing)
    requires Legal(p, s) && Suits(p, x) && Within(p, dom, x) && StateWithin(p, dom, state)
    requires Gated(StageOf(p, s, n), f) && TakesWithin(p, s, dom, n, f)
    ensures Within(p, dom, Joined(p, s, n, x, state, f))
  {
    hide StageOf, InStage, Active;
    var y := Joined(p, s, n, x, state, f);
    forall i: nat, v | i < |p.nodes| && v in y.queues[i]
      ensures dom.item(i, v)
    {
      if Listed(p, s, n, false, i) {
        RankOf(p, s, n, i);
      }
    }
  }

  lemma AfterWithin(p: NodeProc, s: Schedule, dom: Domain, c: nat, x: Input)
    requires Legal(p, s) && IsDomain(p, dom) && Suits(p, x) && Within(p, dom, x)
    ensures StateWithin(p, dom, After(p, s, c, x).state)
  {
    hide Val, QueuesLeft;
  }

  /** The items taken so far are in the domain. */
  ghost predicate ConsumedWithin(p: NodeProc, s: Schedule, dom: Domain, h: History)
    requires Legal(p, s)
  {
    && |h.consumed| == s.length
    && forall n | 0 <= n < s.length ::
         && |h.consumed[n]| == |Receives(p, s, n)|
         && forall r, v | 0 <= r < |h.consumed[n]| && v in h.consumed[n][r] :: dom.item(Receives(p, s, n)[r], v)
  }

  lemma LoggedWithin(p: NodeProc, s: Schedule, oneShot: bool, dom: Domain, r: Registers, h: History, n: nat, k: nat)
    requires Legal(p, s) && Traced(Staged(p, s, s.length, oneShot), r, h) && ConsumedWithin(p, s, dom, h)
    requires n < s.length && k < |h.log[n]|
    ensures Gated(StageOf(p, s, n), h.log[n][k]) && TakesWithin(p, s, dom, n, h.log[n][k])
  {
    hide StageOf, Taken, LinkTraced, Receives;
    var stage := StageOf(p, s, n);
    assert StageTraced(Staged(p, s, s.length, oneShot), r, h, n);
    assert Staged(p, s, s.length, oneShot).stages[n] == stage;
    forall i | 0 <= i < |Receives(p, s, n)| && Active(stage, h.log[n][k], i)
      ensures dom.item(Receives(p, s, n)[i], h.log[n][k].received[i])
    {
      TakenHolds(stage, h.log[n], k, i);
    }
  }

  /** Every firing that the pipeline made or is about to make is that of an iteration of the nodes. */
  lemma {:induction false} FiringReached(p: NodeProc, s: Schedule, oneShot: bool, dom: Domain, r: Registers, h: History,
                                         n: nat, k: nat, f: Firing) returns (x: Input)
    requires Legal(p, s) && IsDomain(p, dom) && n < s.length
    requires Traced(Staged(p, s, s.length, oneShot), r, h) && ConsumedWithin(p, s, dom, h)
    requires Sees(Staged(p, s, s.length, oneShot), h, n, k, f)
    requires Gated(StageOf(p, s, n), f) && TakesWithin(p, s, dom, n, f)
    ensures Suits(p, x) && Within(p, dom, x) && FiringOf(p, s, n, x) == f
    decreases n, k, 1
  {
    hide Gated, TakesWithin, StageTraced, LinkTraced, StateFrom, Entering, StateIn, FiringOf, Joined, StageOf, Staged,
         IsDomain, Within, OutOf, ConsumedWithin;
    var x0 := DataReached(p, s, oneShot, dom, r, h, n, k, f);
    var state := StateReached(p, s, oneShot, dom, r, h, n, k);
    FiringJoined(p, s, n, x0, state, f);
    JoinedWithin(p, s, dom, n, x0, state, f);
    x := Joined(p, s, n, x0, state, f);
  }

  lemma {:induction false} DataReached(p: NodeProc, s: Schedule, oneShot: bool, dom: Domain, r: Registers, h: History,
                                       n: nat, k: nat, f: Firing) returns (x: Input)
    requires Legal(p, s) && IsDomain(p, dom) && n < s.length
    requires Traced(Staged(p, s, s.length, oneShot), r, h) && ConsumedWithin(p, s, dom, h)
    requires Sees(Staged(p, s, s.length, oneShot), h, n, k, f)
    ensures Suits(p, x) && Within(p, dom, x) && Entering(p, s, n, x) == f.d
    decreases n, k, 0
  {
    hide Gated, TakesWithin, StageTraced, LinkTraced, StateFrom, Entering, StateIn, FiringOf, StageOf, OutOf,
         ConsumedWithin, Val;
    var q := Staged(p, s, s.length, oneShot);
    if n > 0 {
      LoggedWithin(p, s, oneShot, dom, r, h, n - 1, k);
      LoggedSees(q, r, h, n - 1, k);
      x := FiringReached(p, s, oneShot, dom, r, h, n - 1, k, h.log[n - 1][k]);
      OutMeans(p, s, n - 1, x);
    } else {
      x := Input(p.init, seq(|p.nodes|, _ => []));
      NothingEnters(p, s, s.length, x, oneShot);
    }
  }

  lemma {:induction false} StateReached(p: NodeProc, s: Schedule, oneShot: bool, dom: Domain, r: Registers, h: History,
                                        n: nat, k: nat) returns (state: seq<Value>)
    requires Legal(p, s) && IsDomain(p, dom) && n < s.length
    requires Traced(Staged(p, s, s.length, oneShot), r, h) && ConsumedWithin(p, s, dom, h) && k <= |h.log[n]|
    ensures StateWithin(p, dom, state)
    ensures StateIn(p, s, n, state) == StateFrom(Staged(p, s, s.length, oneShot), h.log[n][..k], n)
    decreases n, k, 0
  {
    hide Gated, TakesWithin, StageTraced, LinkTraced, Entering, StateIn, FiringOf, StageOf, Staged, NextOf,
         ConsumedWithin, Val, After, StateFrom;
    var q := Staged(p, s, s.length, oneShot);
    StateOfLog(p, s, oneShot, h, n, k);
    if k > 0 {
      LoggedWithin(p, s, oneShot, dom, r, h, n, k - 1);
      LoggedSees(q, r, h, n, k - 1);
      var x := FiringReached(p, s, oneShot, dom, r, h, n, k - 1, h.log[n][k - 1]);
      StateMeans(p, s, n + 1, n, x);
      AfterWithin(p, s, dom, n + 1, x);
      state := After(p, s, n + 1, x).state;
    } else {
      state := p.init;
    }
  }

  lemma StateOfLog(p: NodeProc, s: Schedule, oneShot: bool, h: History, n: nat, k: nat)
    requires Legal(p, s) && HistoryFits(Staged(p, s, s.length, oneShot), h) && n < s.length && k <= |h.log[n]|
    ensures var q := Staged(p, s, s.length, oneShot);
            StateFrom(q, h.log[n][..k], n)
            == if k == 0 then StateIn(p, s, n, p.init) else NextOf(StageOf(p, s, n), h.log[n][k - 1])
  {
    hide StageOf, StateIn, NextOf;
    var q := Staged(p, s, s.length, oneShot);
    assert q.stages[n] == StageOf(p, s, n) && q.init[n] == StateIn(p, s, n, p.init);
    assert k > 0 ==> h.log[n][..k][k - 1] == h.log[n][k - 1];
  }

  // ---------------------------------------------------------------------------
  // Exclusive sends
  // ---------------------------------------------------------------------------

  /** Node `i` is a send that is active. */
  ghost predicate SendsOn(p: NodeProc, x: Input, i: nat)
    requires Suits(p, x) && i < |p.nodes|
  {
    && p.nodes[i].SendTo?
    && assert p.nodes[i].pred.Some? ==> IsOperand(p.nodes[i], p.nodes[i].pred.value);
       On(p, x, p.nodes[i].pred)
  }

  /** In no iteration within the domain are two sends of one stage active. */
  ghost predicate NodesExclusive(p: NodeProc, s: Schedule, dom: Domain)
    requires Legal(p, s)
  {
    forall x, i: nat, j: nat | Suits(p, x) && Within(p, dom, x) && i < |p.nodes| && j < |p.nodes|
                               && s.cycle[i] == s.cycle[j] && SendsOn(p, x, i) && SendsOn(p, x, j) ::
      i == j
  }

  /** What arrives on the ports is in the domain. */
  ghost predicate PortsWithin(p: NodeProc, s: Schedule, dom: Domain, w: Ports)
    requires Legal(p, s)
  {
    forall n, r | 0 <= n < |w.valid| && n < |w.data| && 0 <= r < |w.valid[n]| && r < |w.data[n]|
                  && r < |Receives(p, s, n)| && w.valid[n][r] ::
      dom.item(Receives(p, s, n)[r], w.data[n][r])
  }

  lemma {:induction false} RunConsumesWithin(p: NodeProc, s: Schedule, oneShot: bool, dom: Domain,
                                             data: seq<Value>, ws: seq<Ports>, t: nat)
    requires Legal(p, s) && IsRun(Staged(p, s, s.length, oneShot), data, ws) && t <= |ws|
    requires forall u | 0 <= u < |ws| :: PortsWithin(p, s, dom, ws[u])
    ensures ConsumedWithin(p, s, dom, HistoryAt(Staged(p, s, s.length, oneShot), data, ws, t))
  {
    hide StageOf, Receives, RegistersAt, Record, NoHistory, ConsumedWithin, PortsWithin, Staged;
    var q := Staged(p, s, s.length, oneShot);
    if t > 0 {
      RunConsumesWithin(p, s, oneShot, dom, data, ws, t - 1);
      StepConsumesWithin(p, s, oneShot, dom, RegistersAt(q, data, ws, t - 1), ws[t - 1], HistoryAt(q, data, ws, t - 1));
    } else {
      NothingConsumed(p, s, oneShot, dom);
    }
  }

  lemma NothingConsumed(p: NodeProc, s: Schedule, oneShot: bool, dom: Domain)
    requires Legal(p, s)
    ensures ConsumedWithin(p, s, dom, NoHistory(Staged(p, s, s.length, oneShot)))
  {
    hide StageOf, Receives;
    var q := Staged(p, s, s.length, oneShot);
    assert forall n | 0 <= n < s.length :: q.stages[n] == StageOf(p, s, n);
  }

  lemma StepConsumesWithin(p: NodeProc, s: Schedule, oneShot: bool, dom: Domain, r: Registers, w: Ports, h: History)
    requires Legal(p, s) && Fits(Staged(p, s, s.length, oneShot), r, w) && HistoryFits(Staged(p, s, s.length, oneShot), h)
    requires ConsumedWithin(p, s, dom, h) && PortsWithin(p, s, dom, w)
    ensures ConsumedWithin(p, s, dom, Record(Staged(p, s, s.length, oneShot), r, w, h))
  {
    hide StageOf, Receives, InputReady, Log, Delivered;
    var q := Staged(p, s, s.length, oneShot);
    var h' := Record(q, r, w, h);
    forall n | 0 <= n < s.length
      ensures |h'.consumed[n]| == |Receives(p, s, n)|
      ensures forall i, v | 0 <= i < |h'.consumed[n]| && v in h'.consumed[n][i] :: dom.item(Receives(p, s, n)[i], v)
    {
      assert q.stages[n] == StageOf(p, s, n);
      forall i, v | 0 <= i < |h'.consumed[n]| && v in h'.consumed[n][i]
        ensures dom.item(Receives(p, s, n)[i], v)
      {
        assert h'.consumed[n][i] == Consumed(q, r, w, h, n, i);
      }
    }
  }

  /** What a valid stage is about to do is a firing of an iteration. */
  lemma NowReached(p: NodeProc, s: Schedule, oneShot: bool, dom: Domain, r: Registers, w: Ports, h: History, n: nat)
    returns (x: Input)
    requires Legal(p, s) && IsDomain(p, dom) && n < s.length && PortsWithin(p, s, dom, w)
    requires Fits(Staged(p, s, s.length, oneShot), r, w) && Traced(Staged(p, s, s.length, oneShot), r, h)
    requires ConsumedWithin(p, s, dom, h) && Waiting(Staged(p, s, s.length, oneShot), r, w, n)
    ensures Suits(p, x) && Within(p, dom, x) && FiringOf(p, s, n, x) == Now(Staged(p, s, s.length, oneShot), r, w, n)
  {
    var q := Staged(p, s, s.length, oneShot);
    var f := Now(q, r, w, n);
    NowSees(q, r, w, h, n);
    NowWithin(p, s, oneShot, dom, r, w, n);
    x := FiringReached(p, s, oneShot, dom, r, h, n, |h.log[n]|, f);
  }

  lemma NowWithin(p: NodeProc, s: Schedule, oneShot: bool, dom: Domain, r: Registers, w: Ports, n: nat)
    requires Legal(p, s) && n < s.length && PortsWithin(p, s, dom, w)
    requires Fits(Staged(p, s, s.length, oneShot), r, w) && InputsValid(Staged(p, s, s.length, oneShot), r, w, n)
    ensures var f := Now(Staged(p, s, s.length, oneShot), r, w, n);
            Gated(StageOf(p, s, n), f) && TakesWithin(p, s, dom, n, f)
  {
    hide StageOf, Receives;
    var q := Staged(p, s, s.length, oneShot);
    assert q.stages[n] == StageOf(p, s, n);
    NowIsGated(q, r, w, n);
  }

  /** Exclusive nodes make exclusive sends in every run, also where their predicates come out of registers. */
  lemma ExclusiveNodesSendExclusively(p: NodeProc, s: Schedule, oneShot: bool, dom: Domain, data: seq<Value>, ws: seq<Ports>)
    requires Legal(p, s) && IsDomain(p, dom) && NodesExclusive(p, s, dom)
    requires IsRun(Staged(p, s, s.length, oneShot), data, ws) && forall t | 0 <= t < |ws| :: PortsWithin(p, s, dom, ws[t])
    ensures SendsExclusive(Staged(p, s, s.length, oneShot), data, ws)
  {
    hide StageOf, RegistersAt, HistoryAt, Waiting, Sends, Now, Traced, ConsumedWithin, FiringOf, Receives, SendNodes,
         PortsWithin, NodesExclusive, IsDomain;
    var q := Staged(p, s, s.length, oneShot);
    forall t | 0 <= t < |ws|
      ensures Exclusive(q, RegistersAt(q, data, ws, t), ws[t])
    {
      var r := RegistersAt(q, data, ws, t);
      EveryRunIsTraced(q, data, ws, t);
      RunConsumesWithin(p, s, oneShot, dom, data, ws, t);
      forall n, j, k | 0 <= n < |q.stages| && 0 <= j < |q.stages[n].sends| && 0 <= k < |q.stages[n].sends|
                       && Waiting(q, r, ws[t], n)
                       && Sends(q.stages[n], Now(q, r, ws[t], n), j) && Sends(q.stages[n], Now(q, r, ws[t], n), k)
        ensures j == k
      {
        var x := NowReached(p, s, oneShot, dom, r, ws[t], HistoryAt(q, data, ws, t), n);
        SendsOfFiring(p, s, dom, n, x, j, k);
      }
    }
  }

  lemma SendsOfFiring(p: NodeProc, s: Schedule, dom: Domain, n: nat, x: Input, j: nat, k: nat)
    requires Legal(p, s) && NodesExclusive(p, s, dom) && Suits(p, x) && Within(p, dom, x)
    requires j < |SendNodes(p, s, n)| && k < |SendNodes(p, s, n)|
    requires Sends(StageOf(p, s, n), FiringOf(p, s, n, x), j) && Sends(StageOf(p, s, n), FiringOf(p, s, n, x), k)
    ensures j == k
  {
    hide InStage, StageOf, Entering, StateIn, Got, Val, Within;
    SendIsOn(p, s, n, x, j);
    SendIsOn(p, s, n, x, k);
    Increasing(p, s, n, true, |p.nodes|);
  }

  lemma SendIsOn(p: NodeProc, s: Schedule, n: nat, x: Input, j: nat)
    requires Legal(p, s) && Suits(p, x) && j < |SendNodes(p, s, n)|
    ensures Sends(StageOf(p, s, n), FiringOf(p, s, n, x), j) == SendsOn(p, x, SendNodes(p, s, n)[j])
  {
    hide InStage, StageOf, Entering, StateIn, Got, Val;
    var i := SendNodes(p, s, n)[j];
    StageParts(p, s, n);
    InStageGrows(p, s, n, false, i, |p.nodes|);
    PredMeans(p, s, n, i, |Receives(p, s, n)|, x);
  }

  // ---------------------------------------------------------------------------
  // What is sent
  // ---------------------------------------------------------------------------

  /** The initial state, and what the receives of a pipeline have taken, by node. */
  ghost function Items(p: NodeProc, s: Schedule, oneShot: bool, h: History): (x: Input)
    requires Legal(p, s) && HistoryFits(Staged(p, s, s.length, oneShot), h)
    ensures Suits(p, x)
  {
    Input(p.init, seq(|p.nodes|, i requires 0 <= i < |p.nodes| => ItemsAt(p, s, oneShot, h, i)))
  }

  ghost function ItemsAt(p: NodeProc, s: Schedule, oneShot: bool, h: History, i: nat): seq<Value>
    requires Legal(p, s) && HistoryFits(Staged(p, s, s.length, oneShot), h) && i < |p.nodes|
  {
    var n, r := s.cycle[i], |InStage(p, s, s.cycle[i], false, i)|;
    if r < |h.consumed[n]| then h.consumed[n][r] else []
  }

  lemma ItemsInStages(p: NodeProc, s: Schedule, oneShot: bool, h: History, n: nat)
    requires Legal(p, s) && HistoryFits(Staged(p, s, s.length, oneShot), h) && n < s.length
    ensures var q := Staged(p, s, s.length, oneShot);
            Machine(q.init[..n + 1], h.consumed[..n + 1]) == MachineOf(p, s, n + 1, Items(p, s, oneShot, h), oneShot)
  {
    hide InStage;
    var q, x := Staged(p, s, s.length, oneShot), Items(p, s, oneShot, h);
    var m := MachineOf(p, s, n + 1, x, oneShot);
    forall k | 0 <= k <= n
      ensures m.queues[k] == h.consumed[k]
    {
      assert q.stages[k] == StageOf(p, s, k);
      forall r | 0 <= r < |Receives(p, s, k)|
        ensures m.queues[k][r] == h.consumed[k][r]
      {
        ReceiveRank(p, s, k, r);
      }
    }
    assert m.queues == h.consumed[..n + 1] && m.state == q.init[..n + 1];
  }

  lemma CutIsStaged(p: NodeProc, s: Schedule, oneShot: bool, n: nat)
    requires Legal(p, s) && n < s.length
    ensures Cut(Staged(p, s, s.length, oneShot), n) == Staged(p, s, n + 1, oneShot)
  {
    hide StageOf, StateIn;
    var a, b := Cut(Staged(p, s, s.length, oneShot), n), Staged(p, s, n + 1, oneShot);
    assert a.stages == b.stages && a.init == b.init;
  }

  /** What an output of the pipeline of a scheduled proc has delivered is what its send node sends when the nodes of the
      stages so far run one after the other, iteration after iteration, on the items taken, followed, with one-shot
      logic, by at most the item of the firing that its stage is waiting to make. Without one-shot logic the nodes are
      to be exclusive, which says nothing of registers. Up to the last stage, these are all nodes, and nothing is left
      of the schedule. */
  lemma PipelineSendsWhatNodesSend(p: NodeProc, s: Schedule, oneShot: bool, dom: Domain, data: seq<Value>, ws: seq<Ports>,
                                   t: nat, n: nat, j: nat)
    requires Legal(p, s) && IsRun(Staged(p, s, s.length, oneShot), data, ws)
    requires t < |ws| && n < s.length && j < |SendNodes(p, s, n)|
    requires oneShot ==> UpstreamHolds(Staged(p, s, s.length, oneShot), data, ws)
    requires !oneShot ==> IsDomain(p, dom) && NodesExclusive(p, s, dom)
    requires !oneShot ==> forall u | 0 <= u < |ws| :: PortsWithin(p, s, dom, ws[u])
    ensures var q := Staged(p, s, s.length, oneShot);
            var r, h := RegistersAt(q, data, ws, t), HistoryAt(q, data, ws, t);
            var o := IterateNodes(p, Before(p, s, n + 1), |h.log[n]|, Items(p, s, oneShot, h));
            && o.Some?
            && h.delivered[n][j]
               == SentBy(p, SendNodes(p, s, n)[j], o.value.1)
                  + (if oneShot && r.sent[n][j] then [SendData(q.stages[n], Now(q, r, ws[t], n), j)] else [])
    ensures forall i: nat | i < |p.nodes| :: i in Before(p, s, s.length)
  {
    hide RegistersAt, HistoryAt, UpstreamHolds, SendsExclusive, IsDomain, NodesExclusive, PortsWithin, Now, SendData,
         StageOf, SendNodes, Given, Column, Items, Iterate, IterateNodes, MachineOf, Waiting, Sends, Before;
    var q := Staged(p, s, s.length, oneShot);
    var h := HistoryAt(q, data, ws, t);
    if !oneShot {
      ExclusiveNodesSendExclusively(p, s, oneShot, dom, data, ws);
    }
    PipelineSendsWhatProcSends(q, data, ws, t, n, j);
    CutIsStaged(p, s, oneShot, n);
    ItemsInStages(p, s, oneShot, h, n);
    IterationsAreUnscheduled(p, s, n + 1, |h.log[n]|, Items(p, s, oneShot, h), oneShot);
    AllNodes(p, s);
  }

  lemma AllNodes(p: NodeProc, s: Schedule)
    requires Legal(p, s)
    ensures forall i: nat | i < |p.nodes| :: i in Before(p, s, s.length)
  {
  }

  // ---------------------------------------------------------------------------
  // What gets done
  // ---------------------------------------------------------------------------

  /** If the nodes can run `k` iterations one after the other on the queues that the ports supply, and active sends are
      ready, then after `k + n` cycles stage `n` of the pipeline has made them and its sends gave what the nodes send. */
  lemma PipelineDoesWhatNodesCan(p: NodeProc, s: Schedule, oneShot: bool, queues: seq<seq<Value>>, k: nat,
                                 data: seq<Value>, ws: seq<Ports>, n: nat, u: nat, j: nat)
    requires Legal(p, s) && |queues| == |p.nodes| && IsRun(Staged(p, s, s.length, oneShot), data, ws)
    requires IterateNodes(p, Before(p, s, s.length), k, Input(p.init, queues)).Some?
    requires var q, m := Staged(p, s, s.length, oneShot), MachineOf(p, s, s.length, Input(p.init, queues), oneShot);
             Suit(q, m.queues) && SuppliedRun(q, m.queues, data, ws)
    requires n < s.length && k + n <= u <= |ws| && j < |SendNodes(p, s, n)|
    ensures var log := HistoryAt(Staged(p, s, s.length, oneShot), data, ws, u).log[n];
            && k <= |log|
            && Given(StageOf(p, s, n), log[..k], j)
               == SentBy(p, SendNodes(p, s, n)[j], IterateNodes(p, Before(p, s, s.length), k, Input(p.init, queues)).value.1)
    ensures forall i: nat | i < |p.nodes| :: i in Before(p, s, s.length)
  {
    var q, x := Staged(p, s, s.length, oneShot), Input(p.init, queues);
    var m := MachineOf(p, s, s.length, x, oneShot);
    assert m.state == q.init;
    hide HistoryAt, SuppliedRun, Iterate, IterateNodes, MachineOf, Before, SendNodes, StageOf, Staged, Given;
    IterationsAreUnscheduled(p, s, s.length, k, x, oneShot);
    PipelineDoesWhatProcCan(q, m.queues, k, data, ws, n, u);
    var rows, log := Iterate(q, k, m).value.1, HistoryAt(q, data, ws, u).log[n];
    assert log[..k] == Column(rows, n);
    AllNodes(p, s);
  }

  // ---------------------------------------------------------------------------
  // An example
  // ---------------------------------------------------------------------------

  function Not(vs: seq<Value>): Value {
    BitsValue([|vs| != 1 || !IsTrue(vs[0])])
  }

  /** Sends in turn on one of two channels. */
  const ALTERNATING: NodeProc :=
    NodeProc([StateParam(0), Op(Not, [0]), SendTo(Some(0), 0), SendTo(Some(1), 1)], [1], [BitsValue([false])])

  const SENDS_LATER: Schedule := FunctionPipeline.Schedule([0, 0, 1, 1], 2)

  const ANYTHING: Domain := Domain((k, v) => true, (i, v) => true)

  lemma AlternatingLegal()
    ensures Legal(ALTERNATING, SENDS_LATER)
  {
    var p, s := ALTERNATING, SENDS_LATER;
    forall i, o: nat | 0 <= i < |p.nodes| && IsOperand(p.nodes[i], o)
      ensures (i == 1 && o == 0) || (i == 2 && o == 0) || (i == 3 && o == 1)
    {
    }
  }

  lemma AlternatingValues(x: Input)
    requires Suits(ALTERNATING, x)
    ensures Val(ALTERNATING, x, 1) == BitsValue([!IsTrue(Val(ALTERNATING, x, 0))])
  {
    OpMeans(ALTERNATING, x, 1);
  }

  /** The nodes are exclusive, although both predicates come out of registers, which could hold two trues. */
  lemma PredicatesInRegisters()
    ensures Legal(ALTERNATING, SENDS_LATER) && IsDomain(ALTERNATING, ANYTHING)
    ensures Live(ALTERNATING, SENDS_LATER, 0, 1) && Live(ALTERNATING, SENDS_LATER, 1, 1)
    ensures NodesExclusive(ALTERNATING, SENDS_LATER, ANYTHING)
  {
    hide Val;
    var p := ALTERNATING;
    AlternatingLegal();
    assert IsOperand(p.nodes[2], 0) && IsOperand(p.nodes[3], 1);
    forall x | Suits(p, x)
      ensures Val(p, x, 1) == BitsValue([!IsTrue(Val(p, x, 0))])
    {
      AlternatingValues(x);
    }
  }
}
