/**
 The proc without its pipeline: one iteration after another, each running the stages in order,
 taking the next item of a channel whenever a receive is active and blocking when there is none.
 The pipelined circuit refines it.
 */
module SequentialProc {
  import opened Options
  import opened IrValues
  import opened ElasticPipeline
  import opened ProcOutputs

  /** State of each stage, and the items still to come on each input. */
  datatype Machine = Machine(state: seq<Value>, queues: seq<seq<seq<Value>>>)

  ghost predicate MachineFits(p: Proc, m: Machine) {
    && WellFormed(p) && |m.state| == |m.queues| == |p.stages|
    && forall n | 0 <= n < |p.stages| :: |m.queues[n]| == |p.stages[n].receives|
  }

  /** Runs the first `k` receives of a stage. */
  function TakeInputs(stage: Stage, d: Value, s: Value, queues: seq<seq<Value>>, k: nat)
    : (o: Option<(seq<Value>, seq<seq<Value>>)>)
    requires k <= |stage.receives| == |queues|
    ensures o.Some? ==> |o.value.0| == k && |o.value.1| == |queues|
    decreases k
  {
    if k == 0 then Some(([], queues))
    else
      match TakeInputs(stage, d, s, queues, k - 1)
      case None => None
      case Some((e, q)) =>
        if !stage.receives[k - 1].pred(d, s, e) then Some((e + [stage.receives[k - 1].zero], q))
        else if q[k - 1] == [] then None
        else Some((e + [q[k - 1][0]], q[k - 1 := q[k - 1][1..]]))
  }

  /** Runs the stages from `n` on in one iteration. */
  ghost function RunStages(p: Proc, n: nat, d: Value, m: Machine): (o: Option<(Machine, seq<Firing>)>)
    requires MachineFits(p, m) && n <= |p.stages|
    ensures o.Some? ==> MachineFits(p, o.value.0) && |o.value.1| == |p.stages| - n
    decreases |p.stages| - n
  {
    if n == |p.stages| then Some((m, []))
    else
      var stage := p.stages[n];
      match TakeInputs(stage, d, m.state[n], m.queues[n], |stage.receives|)
      case None => None
      case Some((e, q)) =>
        var f := Firing(d, m.state[n], e);
        var m' := Machine(m.state[n := NextOf(stage, f)], m.queues[n := q]);
        match RunStages(p, n + 1, OutOf(stage, f), m')
        case None => None
        case Some((m2, fs)) => Some((m2, [f] + fs))
  }

  /** Runs `k` iterations. */
  ghost function Iterate(p: Proc, k: nat, m: Machine): (o: Option<(Machine, seq<seq<Firing>>)>)
    requires MachineFits(p, m)
    ensures o.Some? ==> MachineFits(p, o.value.0) && |o.value.1| == k
                        && forall i | 0 <= i < k :: |o.value.1[i]| == |p.stages|
  {
    if k == 0 then Some((m, []))
    else
      match Iterate(p, k - 1, m)
      case None => None
      case Some((m1, rows)) =>
        match RunStages(p, 0, p.start, m1)
        case None => None
        case Some((m2, row)) => Some((m2, rows + [row]))
  }

  // ---------------------------------------------------------------------------
  // Queues seen from the log
  // ---------------------------------------------------------------------------

  ghost predicate LogFits(stage: Stage, log: seq<Firing>) {
    forall k | 0 <= k < |log| :: |log[k].received| == |stage.receives|
  }

  /** The first firing takes the first item. */
  lemma {:induction false} TakenFirst(stage: Stage, log: seq<Firing>, i: nat)
    requires i < |stage.receives| && LogFits(stage, log) && log != []
    ensures Taken(stage, log, i) == (if Active(stage, log[0], i) then [log[0].received[i]] else [])
                                    + Taken(stage, log[1..], i)
  {
    hide Active;
    var last := |log| - 1;
    if last == 0 {
      assert log[..0] == [] && log[1..] == [];
    } else {
      TakenFirst(stage, log[..last], i);
      assert log[..last][1..] == log[1..][..last - 1];
    }
  }

  /** What the firings from `k` on take, by receive: the queues before firing `k`. */
  ghost function QueuesFrom(stage: Stage, log: seq<Firing>, k: nat): (q: seq<seq<Value>>)
    requires LogFits(stage, log) && k <= |log|
    ensures |q| == |stage.receives|
  {
    seq(|stage.receives|, i requires 0 <= i < |stage.receives| => Taken(stage, log[k..], i))
  }

  /** Queues of which the first `i` receives have been served for firing `k`. */
  ghost function QueuesAt(stage: Stage, log: seq<Firing>, k: nat, i: nat): (q: seq<seq<Value>>)
    requires LogFits(stage, log) && k < |log| && i <= |stage.receives|
    ensures |q| == |stage.receives|
  {
    QueuesFrom(stage, log, k + 1)[..i] + QueuesFrom(stage, log, k)[i..]
  }

  lemma QueueStep(stage: Stage, log: seq<Firing>, k: nat, i: nat)
    requires LogFits(stage, log) && k < |log| && i < |stage.receives|
    ensures QueuesFrom(stage, log, k)[i]
         == (if Active(stage, log[k], i) then [log[k].received[i]] else []) + QueuesFrom(stage, log, k + 1)[i]
  {
    TakenFirst(stage, log[k..], i);
    assert log[k..][1..] == log[k + 1..];
  }

  lemma QueuesAtStep(stage: Stage, log: seq<Firing>, k: nat, i: nat)
    requires LogFits(stage, log) && k < |log| && i < |stage.receives|
    ensures QueuesAt(stage, log, k, i)[i] == QueuesFrom(stage, log, k)[i]
    ensures QueuesAt(stage, log, k, i + 1) == QueuesAt(stage, log, k, i)[i := QueuesFrom(stage, log, k + 1)[i]]
  {
    hide QueuesFrom;
  }

  /** The sequential receives of a stage, on the queues that the log left, reproduce the logged firing. */
  lemma {:induction false} TakeInputsReplays(stage: Stage, log: seq<Firing>, k: nat, i: nat)
    requires LogFits(stage, log) && k < |log| && i <= |stage.receives| && Gated(stage, log[k])
    ensures TakeInputs(stage, log[k].d, log[k].s, QueuesFrom(stage, log, k), i)
         == Some((log[k].received[..i], QueuesAt(stage, log, k, i)))
  {
    if i == 0 {
      assert QueuesAt(stage, log, k, 0) == QueuesFrom(stage, log, k);
    } else {
      hide Taken, QueuesFrom, QueuesAt;
      TakeInputsReplays(stage, log, k, i - 1);
      QueueStep(stage, log, k, i - 1);
      QueuesAtStep(stage, log, k, i - 1);
      var e, q := log[k].received[..i - 1], QueuesAt(stage, log, k, i - 1);
      assert log[k].received[..i] == e + [log[k].received[i - 1]];
      var rest := QueuesFrom(stage, log, k + 1)[i - 1];
      if Active(stage, log[k], i - 1) {
        assert q[i - 1][1..] == rest;
      } else {
        assert q[i - 1] == rest && q[i - 1 := rest] == q;
      }
    }
  }

  // ---------------------------------------------------------------------------
  // Refinement
  // ---------------------------------------------------------------------------

  /** Number of iterations that have left the last stage. */
  ghost function Finished(p: Proc, h: History): nat
    requires WellFormed(p) && HistoryFits(p, h)
  {
    |h.log[|p.stages| - 1]|
  }

  /** Earlier stages have fired at least as often as later ones. */
  lemma {:induction false} EarlierStagesAhead(p: Proc, r: Registers, h: History, n: nat, m: nat)
    requires Traced(p, r, h) && n <= m < |p.stages|
    ensures |h.log[m]| <= |h.log[n]|
    decreases m - n
  {
    if n < m {
      EarlierStagesAhead(p, r, h, n + 1, m);
      assert LinkTraced(p, r, h, n);
    }
  }

  ghost predicate LogsReach(p: Proc, h: History, k: nat) {
    && WellFormed(p) && HistoryFits(p, h)
    && forall n | 0 <= n < |p.stages| :: k <= |h.log[n]| && LogFits(p.stages[n], h.log[n])
  }

  /** The machine in iteration `k`, before stage `n`: the stages before `n` have already run this iteration. */
  ghost function MachineAt(p: Proc, h: History, k: nat, n: nat): (m: Machine)
    requires LogsReach(p, h, if n > 0 then k + 1 else k)
    ensures MachineFits(p, m)
  {
    var N := |p.stages|;
    Machine(seq(N, m requires 0 <= m < N => StateFrom(p, h.log[m][..if m < n then k + 1 else k], m)),
            seq(N, m requires 0 <= m < N => QueuesFrom(p.stages[m], h.log[m], if m < n then k + 1 else k)))
  }

  lemma MachineStep(p: Proc, r: Registers, h: History, k: nat, n: nat)
    requires Traced(p, r, h) && LogsReach(p, h, k + 1) && n < |p.stages|
    ensures var m, m' := MachineAt(p, h, k, n), MachineAt(p, h, k, n + 1);
            && m.state[n] == h.log[n][k].s
            && m.queues[n] == QueuesFrom(p.stages[n], h.log[n], k)
            && m' == Machine(m.state[n := NextOf(p.stages[n], h.log[n][k])],
                             m.queues[n := QueuesFrom(p.stages[n], h.log[n], k + 1)])
  {
    hide QueuesFrom, NextOf, InputsTraced, LinkTraced, Gated;
    assert StageTraced(p, r, h, n);
    var m, m' := MachineAt(p, h, k, n), MachineAt(p, h, k, n + 1);
    var log := h.log[n];
    assert log[..k + 1][|log[..k + 1]| - 1] == log[k];
    assert m'.state == m.state[n := NextOf(p.stages[n], log[k])];
    assert m'.queues == m.queues[n := QueuesFrom(p.stages[n], log, k + 1)];
  }

  /** Row `k` of the log from stage `n` on. */
  ghost function RowFrom(p: Proc, h: History, k: nat, n: nat): seq<Firing>
    requires LogsReach(p, h, k + 1) && n <= |p.stages|
  {
    seq(|p.stages| - n, i requires 0 <= i < |p.stages| - n => h.log[n + i][k])
  }

  lemma StageReplays(p: Proc, r: Registers, h: History, k: nat, n: nat)
    requires Traced(p, r, h) && LogsReach(p, h, k + 1) && n < |p.stages|
    ensures var stage, log := p.stages[n], h.log[n];
            TakeInputs(stage, log[k].d, log[k].s, QueuesFrom(stage, log, k), |stage.receives|)
            == Some((log[k].received, QueuesFrom(stage, log, k + 1)))
  {
    hide TakeInputs, Taken, LinkTraced;
    var stage, log := p.stages[n], h.log[n];
    assert StageTraced(p, r, h, n);
    TakeInputsReplays(stage, log, k, |stage.receives|);
    assert QueuesAt(stage, log, k, |stage.receives|) == QueuesFrom(stage, log, k + 1);
    assert log[k].received[..|stage.receives|] == log[k].received;
  }

  lemma NextStageInput(p: Proc, r: Registers, h: History, k: nat, n: nat)
    requires Traced(p, r, h) && LogsReach(p, h, k + 1) && n < |p.stages| - 1
    ensures h.log[n + 1][k].d == OutOf(p.stages[n], h.log[n][k])
  {
    assert LinkTraced(p, r, h, n);
  }

  /** One sequential iteration reproduces row `k` of the log. */
  lemma {:induction false} RunStagesReplays(p: Proc, r: Registers, h: History, k: nat, n: nat, d: Value)
    requires Traced(p, r, h) && LogsReach(p, h, k + 1) && n <= |p.stages|
    requires n < |p.stages| ==> d == h.log[n][k].d
    ensures RunStages(p, n, d, MachineAt(p, h, k, n)) == Some((MachineAt(p, h, k, |p.stages|), RowFrom(p, h, k, n)))
    decreases |p.stages| - n
  {
    hide MachineAt, Traced, TakeInputs, QueuesFrom, OutOf, NextOf;
    if n == |p.stages| {
      assert RowFrom(p, h, k, n) == [];
    } else {
      var f := h.log[n][k];
      MachineStep(p, r, h, k, n);
      StageReplays(p, r, h, k, n);
      if n < |p.stages| - 1 {
        NextStageInput(p, r, h, k, n);
      }
      RunStagesReplays(p, r, h, k, n + 1, OutOf(p.stages[n], f));
      assert RowFrom(p, h, k, n) == [f] + RowFrom(p, h, k, n + 1);
    }
  }

  lemma NextIteration(p: Proc, h: History, k: nat)
    requires LogsReach(p, h, k + 1)
    ensures MachineAt(p, h, k, |p.stages|) == MachineAt(p, h, k + 1, 0)
  {
    var m, m' := MachineAt(p, h, k, |p.stages|), MachineAt(p, h, k + 1, 0);
    assert m.state == m'.state && m.queues == m'.queues;
  }

  ghost function Rows(p: Proc, h: History, k: nat): seq<seq<Firing>>
    requires LogsReach(p, h, k)
  {
    seq(k, i requires 0 <= i < k => RowFrom(p, h, i, 0))
  }

  lemma {:induction false} IterationsReplay(p: Proc, r: Registers, h: History, k: nat)
    requires Traced(p, r, h) && LogsReach(p, h, k)
    ensures Iterate(p, k, MachineAt(p, h, 0, 0)) == Some((MachineAt(p, h, k, 0), Rows(p, h, k)))
  {
    hide MachineAt, StageTraced, LinkTraced, RunStages, RowFrom;
    if k > 0 {
      IterationsReplay(p, r, h, k - 1);
      FirstStageInput(p, r, h, k - 1);
      RunStagesReplays(p, r, h, k - 1, 0, p.start);
      NextIteration(p, h, k - 1);
      assert Rows(p, h, k) == Rows(p, h, k - 1) + [RowFrom(p, h, k - 1, 0)];
    }
  }

  lemma FirstStageInput(p: Proc, r: Registers, h: History, k: nat)
    requires Traced(p, r, h) && LogsReach(p, h, k + 1)
    ensures h.log[0][k].d == p.start
  {
    assert StageTraced(p, r, h, 0);
  }

  lemma MachineAtStart(p: Proc, r: Registers, h: History)
    requires Traced(p, r, h) && LogsReach(p, h, 0)
    ensures MachineAt(p, h, 0, 0) == Machine(p.init, h.consumed)
  {
    var m := MachineAt(p, h, 0, 0);
    forall n | 0 <= n < |p.stages|
      ensures m.state[n] == p.init[n] && m.queues[n] == h.consumed[n]
    {
      assert StageTraced(p, r, h, n);
      assert h.log[n][..0] == [] && h.log[n][0..] == h.log[n];
    }
  }

  lemma TracedLogsReach(p: Proc, r: Registers, h: History)
    requires Traced(p, r, h)
    ensures LogsReach(p, h, Finished(p, h))
  {
    forall n | 0 <= n < |p.stages|
      ensures Finished(p, h) <= |h.log[n]| && LogFits(p.stages[n], h.log[n])
    {
      assert StageTraced(p, r, h, n);
      EarlierStagesAhead(p, r, h, n, |p.stages| - 1);
    }
  }

  /** The first `n + 1` stages of the proc. */
  ghost function Cut(p: Proc, n: nat): (q: Proc)
    requires WellFormed(p) && n < |p.stages|
    ensures WellFormed(q)
  {
    Proc(p.stages[..n + 1], p.start, p.init[..n + 1], p.oneShot)
  }

  ghost function CutRegisters(p: Proc, r: Registers, n: nat): (q: Registers)
    requires WellFormed(p) && RegistersFit(p, r) && n < |p.stages|
    ensures RegistersFit(Cut(p, n), q)
  {
    Registers(r.valid[..n], r.data[..n], r.state[..n + 1], r.sent[..n + 1])
  }

  ghost function CutHistory(p: Proc, h: History, n: nat): (q: History)
    requires WellFormed(p) && HistoryFits(p, h) && n < |p.stages|
    ensures HistoryFits(Cut(p, n), q)
  {
    History(h.log[..n + 1], h.consumed[..n + 1], h.delivered[..n + 1])
  }

  lemma CutStageTraced(p: Proc, r: Registers, h: History, n: nat, m: nat)
    requires WellFormed(p) && RegistersFit(p, r) && HistoryFits(p, h) && m <= n < |p.stages| && StageTraced(p, r, h, m)
    ensures StageTraced(Cut(p, n), CutRegisters(p, r, n), CutHistory(p, h, n), m)
  {
    hide Gated, InputsTraced;
  }

  /** The first stages run as a pipeline of their own. */
  lemma CutIsTraced(p: Proc, r: Registers, h: History, n: nat)
    requires Traced(p, r, h) && n < |p.stages|
    ensures Traced(Cut(p, n), CutRegisters(p, r, n), CutHistory(p, h, n))
  {
    hide StageTraced;
    var p', r', h' := Cut(p, n), CutRegisters(p, r, n), CutHistory(p, h, n);
    forall m | 0 <= m < |p'.stages|
      ensures StageTraced(p', r', h', m)
    {
      CutStageTraced(p, r, h, n, m);
    }
    forall m | 0 <= m < |p'.stages| - 1
      ensures LinkTraced(p', r', h', m)
    {
      assert LinkTraced(p, r, h, m);
    }
  }

  /** What stages `0` to `n` do in the first `|h.log[n]|` iterations of the sequential proc, on the items taken. */
  ghost function SequentialRows(p: Proc, h: History, n: nat): Option<(Machine, seq<seq<Firing>>)>
    requires WellFormed(p) && HistoryFits(p, h) && n < |p.stages|
  {
    Iterate(Cut(p, n), |h.log[n]|, Machine(p.init[..n + 1], h.consumed[..n + 1]))
  }

  /** Iteration `k` did, up to stage `n`, what the k-th firings of the stages did. */
  ghost predicate Refines(p: Proc, h: History, n: nat)
    requires WellFormed(p) && HistoryFits(p, h) && n < |p.stages|
  {
    var o := SequentialRows(p, h, n);
    && o.Some?
    && (forall m | 0 <= m <= n :: |h.log[n]| <= |h.log[m]|)
    && (forall k, m | 0 <= k < |h.log[n]| && 0 <= m <= n :: o.value.1[k][m] == h.log[m][k])
  }

  lemma TracedRefines(p: Proc, r: Registers, h: History, n: nat)
    requires Traced(p, r, h) && n < |p.stages|
    ensures Refines(p, h, n)
  {
    hide Iterate, MachineAt, StageTraced, LinkTraced;
    CutIsTraced(p, r, h, n);
    var p', r', h' := Cut(p, n), CutRegisters(p, r, n), CutHistory(p, h, n);
    TracedLogsReach(p', r', h');
    MachineAtStart(p', r', h');
    IterationsReplay(p', r', h', Finished(p', h'));
  }

  /** The circuit does, in every stage, what the sequential proc does on the items the circuit took: run up to stage `n`
      for as many iterations as stage `n` has fired, the proc does not block, and iteration `k` does in every stage
      what the k-th firing of the stage did. The last stage gives the iterations that have left the pipeline. */
  lemma PipelineRefinesProc(p: Proc, data: seq<Value>, ws: seq<Ports>, t: nat)
    requires IsRun(p, data, ws) && t <= |ws|
    ensures forall n | 0 <= n < |p.stages| :: Refines(p, HistoryAt(p, data, ws, t), n)
    ensures Cut(p, |p.stages| - 1) == p
  {
    var r, h := RegistersAt(p, data, ws, t), HistoryAt(p, data, ws, t);
    EveryRunIsTraced(p, data, ws, t);
    hide Traced, HistoryAt, RegistersAt, Refines;
    forall n | 0 <= n < |p.stages|
      ensures Refines(p, h, n)
    {
      TracedRefines(p, r, h, n);
    }
    assert p.stages[..|p.stages|] == p.stages && p.init[..|p.stages|] == p.init;
  }

  // ---------------------------------------------------------------------------
  // What a firing sees
  // ---------------------------------------------------------------------------

  /** What firing `k` of stage `n` sees: what the k-th firing of the stage before put out, and what its own firings left. */
  ghost predicate Sees(q: Proc, h: History, n: nat, k: nat, f: Firing)
    requires WellFormed(q) && HistoryFits(q, h) && n < |q.stages|
  {
    && k <= |h.log[n]| && f.s == StateFrom(q, h.log[n][..k], n)
    && if n == 0 then f.d == q.start else k < |h.log[n - 1]| && f.d == OutOf(q.stages[n - 1], h.log[n - 1][k])
  }

  lemma LoggedSees(q: Proc, r: Registers, h: History, n: nat, k: nat)
    requires Traced(q, r, h) && n < |q.stages| && k < |h.log[n]|
    ensures Sees(q, h, n, k, h.log[n][k])
  {
    hide Gated, InputsTraced;
    assert StageTraced(q, r, h, n);
    if n > 0 {
      assert LinkTraced(q, r, h, n - 1);
    }
  }

  lemma NowSees(q: Proc, r: Registers, w: Ports, h: History, n: nat)
    requires Fits(q, r, w) && Traced(q, r, h) && n < |q.stages| && StageValid(q, r, n)
    ensures Sees(q, h, n, |h.log[n]|, Now(q, r, w, n))
  {
    hide AllReceived, Gated, InputsTraced;
    assert StageTraced(q, r, h, n);
    assert h.log[n][..|h.log[n]|] == h.log[n];
    if n > 0 {
      assert LinkTraced(q, r, h, n - 1);
    }
  }

  lemma {:induction false} TakenHolds(stage: Stage, log: seq<Firing>, k: nat, i: nat)
    requires i < |stage.receives| && LogFits(stage, log) && k < |log| && Active(stage, log[k], i)
    ensures log[k].received[i] in Taken(stage, log, i)
    decreases |log|
  {
    hide Active;
    var last := |log| - 1;
    if k < last {
      TakenHolds(stage, log[..last], k, i);
    }
  }

  // ---------------------------------------------------------------------------
  // Outputs
  // ---------------------------------------------------------------------------

  /** The firings of stage `n` in the iterations of the sequential proc. */
  ghost function Column(rows: seq<seq<Firing>>, n: nat): (c: seq<Firing>)
    requires forall k | 0 <= k < |rows| :: n < |rows[k]|
  {
    seq(|rows|, k requires 0 <= k < |rows| => rows[k][n])
  }

  /** What each output delivered is what the sequential proc sends on it in those iterations, in order, followed, with
      one-shot logic, by at most the item of the firing that its stage is waiting to make. */
  lemma PipelineSendsWhatProcSends(p: Proc, data: seq<Value>, ws: seq<Ports>, t: nat, n: nat, j: nat)
    requires IsRun(p, data, ws) && t < |ws| && n < |p.stages| && j < |p.stages[n].sends|
    requires if p.oneShot then UpstreamHolds(p, data, ws) else SendsExclusive(p, data, ws)
    ensures var r, h := RegistersAt(p, data, ws, t), HistoryAt(p, data, ws, t);
            var o := SequentialRows(p, h, n);
            && o.Some?
            && h.delivered[n][j]
               == Given(p.stages[n], Column(o.value.1, n), j)
                  + (if p.oneShot && r.sent[n][j] then [SendData(p.stages[n], Now(p, r, ws[t], n), j)] else [])
            && (p.oneShot && r.sent[n][j] ==>
                  Waiting(p, r, ws[t], n) && Sends(p.stages[n], Now(p, r, ws[t], n), j))
  {
    PipelineRefinesProc(p, data, ws, t);
    if p.oneShot {
      OneShotOutputsExactlyOnce(p, data, ws, t);
    } else {
      ExclusiveOutputsExactlyOnce(p, data, ws, t);
    }
    hide HistoryAt, RegistersAt, SequentialRows, UpstreamHolds, SendsExclusive, Waiting, Now;
    var h := HistoryAt(p, data, ws, t);
    assert Refines(p, h, n);
    assert Column(SequentialRows(p, h, n).value.1, n) == h.log[n];
  }
}
