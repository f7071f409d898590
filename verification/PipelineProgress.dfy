/**
 Progress of the generated circuit: it never blocks itself, and where the ports do not hinder it, every
 stage fires in every cycle, after as many cycles as there are stages before it.
 */
module PipelineProgress {
  import opened IrValues
  import opened ElasticPipeline
  import opened ProcOutputs

  /** The ports of the active receives of stage `n` are valid, and those of its active sends are ready. */
  ghost predicate Served(p: Proc, r: Registers, w: Ports, n: nat)
    requires Fits(p, r, w) && n < |p.stages|
  {
    && (forall i | 0 <= i < |p.stages[n].receives| && Active(p.stages[n], Now(p, r, w, n), i) :: w.valid[n][i])
    && (forall j | 0 <= j < |p.stages[n].sends| && Sends(p.stages[n], Now(p, r, w, n), j) :: w.ready[n][j])
  }

  /** ... or, with one-shot logic, have been ready before. */
  ghost predicate Unhindered(p: Proc, r: Registers, w: Ports, n: nat)
    requires Fits(p, r, w) && n < |p.stages|
  {
    && (forall i | 0 <= i < |p.stages[n].receives| && Active(p.stages[n], Now(p, r, w, n), i) :: w.valid[n][i])
    && (forall j | 0 <= j < |p.stages[n].sends| && Sends(p.stages[n], Now(p, r, w, n), j) ::
          w.ready[n][j] || (p.oneShot && r.sent[n][j]))
  }

  lemma ServedIsUnhindered(p: Proc, r: Registers, w: Ports, n: nat)
    requires Fits(p, r, w) && n < |p.stages| && Served(p, r, w, n)
    ensures Unhindered(p, r, w, n)
  {
    hide Now, Active, Sends;
  }

  /** A stage is done exactly when it has a token and the ports of its active receives and sends let it. */
  lemma DoneExactly(p: Proc, r: Registers, w: Ports, n: nat)
    requires Fits(p, r, w) && n < |p.stages|
    ensures Done(p, r, w, n) <==> StageValid(p, r, n) && Unhindered(p, r, w, n)
  {
    hide Now, Active, Sends;
    assert forall j | 0 <= j < |p.stages[n].sends| ::
        ReadySeen(p, r, w, n, j) <==> w.ready[n][j] || (p.oneShot && r.sent[n][j]);
  }

  /** A stage without a token, one that waits for a port and one that is blocked change no register of data or state and
      take nothing. */
  lemma IdleKeeps(p: Proc, r: Registers, w: Ports, n: nat)
    requires Fits(p, r, w) && n < |p.stages|
    requires || (n > 0 && !r.valid[n - 1]) || !Unhindered(p, r, w, n)
             || exists m: nat :: n < m < |p.stages| && BlockedBy(p, r, w, n, m)
    ensures n < |p.stages| - 1 ==> Step(p, r, w).data[n] == r.data[n]
    ensures Step(p, r, w).state[n] == r.state[n]
    ensures forall i | 0 <= i < |p.stages[n].receives| :: !InputReady(p, r, w, n, i)
  {
    hide NextStageOpen, Done, BlockedBy, Unhindered, Active, OutOf, NextOf, ValidAfter, SentAfter, AllReceived;
    DoneExactly(p, r, w, n);
    BlockedExactlyByFullRow(p, r, w, n);
  }

  /** All inputs are valid and all outputs ready. */
  ghost predicate PortsOpen(w: Ports) {
    && (forall n, i | 0 <= n < |w.valid| && 0 <= i < |w.valid[n]| :: w.valid[n][i])
    && (forall n, j | 0 <= n < |w.ready| && 0 <= j < |w.ready[n]| :: w.ready[n][j])
  }

  lemma OpenPortsUnhindered(p: Proc, r: Registers, w: Ports, n: nat)
    requires Fits(p, r, w) && n < |p.stages| && PortsOpen(w)
    ensures Unhindered(p, r, w, n)
  {
    hide Now, Active, Sends;
  }

  // ---------------------------------------------------------------------------
  // One cycle
  // ---------------------------------------------------------------------------

  ghost predicate LastValid(p: Proc, r: Registers, n: nat)
    requires |r.valid| == |p.stages| - 1
  {
    n < |p.stages| && StageValid(p, r, n) && forall m | n < m < |p.stages| :: !StageValid(p, r, m)
  }

  lemma {:induction false} FindLastValid(p: Proc, r: Registers, m: nat) returns (n: nat)
    requires WellFormed(p) && RegistersFit(p, r) && m < |p.stages|
    requires forall k | m < k < |p.stages| :: !StageValid(p, r, k)
    ensures LastValid(p, r, n)
  {
    n := m;
    if !StageValid(p, r, m) {
      n := FindLastValid(p, r, m - 1);
    }
  }

  /** The circuit never blocks itself: the last stage that has a token fires, unless a port hinders it. */
  lemma NeverBlocksItself(p: Proc, r: Registers, w: Ports) returns (n: nat)
    requires Fits(p, r, w)
    ensures LastValid(p, r, n) && (Fires(p, r, w, n) <==> Unhindered(p, r, w, n))
  {
    hide Done, Unhindered;
    n := FindLastValid(p, r, |p.stages| - 1);
    assert n == |p.stages| - 1 || !StageValid(p, r, n + 1);
    DoneExactly(p, r, w, n);
  }

  /** Where no stage from `m` on is hindered, those that have a token fire. */
  lemma {:induction false} UnhinderedFires(p: Proc, r: Registers, w: Ports, m: nat, n: nat)
    requires Fits(p, r, w) && m <= n < |p.stages| && forall k | m <= k < |p.stages| :: Unhindered(p, r, w, k)
    ensures NextStageOpen(p, r, w, n) && (Fires(p, r, w, n) <==> StageValid(p, r, n))
    decreases |p.stages| - n
  {
    hide Done, Unhindered, StageValid;
    DoneExactly(p, r, w, n);
    if n < |p.stages| - 1 {
      DoneExactly(p, r, w, n + 1);
      UnhinderedFires(p, r, w, m, n + 1);
    }
  }

  // ---------------------------------------------------------------------------
  // Runs
  // ---------------------------------------------------------------------------

  /** From cycle `t` on no stage is hindered. */
  ghost predicate FlowsFrom(p: Proc, data: seq<Value>, ws: seq<Ports>, t: nat)
    requires IsRun(p, data, ws)
  {
    forall u, n | t <= u < |ws| && 0 <= n < |p.stages| :: Unhindered(p, RegistersAt(p, data, ws, u), ws[u], n)
  }

  lemma OpenPortsFlow(p: Proc, data: seq<Value>, ws: seq<Ports>, t: nat)
    requires IsRun(p, data, ws) && forall u | t <= u < |ws| :: PortsOpen(ws[u])
    ensures FlowsFrom(p, data, ws, t)
  {
    hide RegistersAt, PortsOpen, Unhindered;
    forall u, n | t <= u < |ws| && 0 <= n < |p.stages|
      ensures Unhindered(p, RegistersAt(p, data, ws, u), ws[u], n)
    {
      OpenPortsUnhindered(p, RegistersAt(p, data, ws, u), ws[u], n);
    }
  }

  /** Where nothing hinders the pipeline from cycle `t` on, stage `n` fires in every cycle from `t + n` on. */
  lemma {:induction false} FullThroughput(p: Proc, data: seq<Value>, ws: seq<Ports>, t: nat, n: nat, u: nat)
    requires IsRun(p, data, ws) && FlowsFrom(p, data, ws, t) && n < |p.stages| && t + n <= u < |ws|
    ensures Fires(p, RegistersAt(p, data, ws, u), ws[u], n)
    decreases n
  {
    hide InputsValid, OutputsReady, NextStageOpen, DataAfter, StateAfter, SentAfter, Unhindered;
    var r := RegistersAt(p, data, ws, u);
    if n > 0 {
      FullThroughput(p, data, ws, t, n - 1, u - 1);
      assert r == Step(p, RegistersAt(p, data, ws, u - 1), ws[u - 1]);
    }
    forall k | 0 <= k < |p.stages|
      ensures Unhindered(p, r, ws[u], k)
    {
    }
    UnhinderedFires(p, r, ws[u], 0, n);
  }

  /** No token is in stage `n` before cycle `n`. */
  lemma {:induction false} NotEarly(p: Proc, data: seq<Value>, ws: seq<Ports>, n: nat, u: nat)
    requires IsRun(p, data, ws) && n < |p.stages| && u <= |ws| && StageValid(p, RegistersAt(p, data, ws, u), n)
    ensures n <= u
    decreases u, n
  {
    hide InputsValid, OutputsReady, DataAfter, StateAfter, SentAfter, NextStageOpen;
    if n > 0 && u > 0 {
      var r, w := RegistersAt(p, data, ws, u - 1), ws[u - 1];
      assert r.valid[n - 1] || StageValid(p, r, n - 1) by {
        assert RegistersAt(p, data, ws, u).valid[n - 1] == ValidAfter(p, r, w, n - 1);
      }
      if StageValid(p, r, n - 1) {
        NotEarly(p, data, ws, n - 1, u - 1);
      } else {
        NotEarly(p, data, ws, n, u - 1);
      }
    }
  }

  /** Where nothing hinders the pipeline from reset on, stage `n` has, before cycle `u`, finished exactly the iterations
      that one per cycle after a latency of `n` cycles makes. */
  lemma {:induction false} OneIterationPerCycle(p: Proc, data: seq<Value>, ws: seq<Ports>, n: nat, u: nat)
    requires IsRun(p, data, ws) && FlowsFrom(p, data, ws, 0) && n < |p.stages| && u <= |ws|
    ensures |HistoryAt(p, data, ws, u).log[n]| == if n <= u then u - n else 0
  {
    hide RegistersAt, FlowsFrom, Now, Consumed, Delivered, InputsValid, OutputsReady, NextStageOpen;
    if u > 0 {
      OneIterationPerCycle(p, data, ws, n, u - 1);
      var r := RegistersAt(p, data, ws, u - 1);
      if n < u {
        FullThroughput(p, data, ws, 0, n, u - 1);
      } else if StageValid(p, r, n) {
        NotEarly(p, data, ws, n, u - 1);
        assert false;
      }
    }
  }

  // ---------------------------------------------------------------------------
  // Stages that wait for their outputs
  // ---------------------------------------------------------------------------

  /** Send `j` of stage `n` is ready in some cycle from `t` to `t'`. */
  ghost predicate ReadyWithin(ws: seq<Ports>, t: nat, t': nat, n: nat, j: nat) {
    exists u :: t <= u <= t' && u < |ws| && n < |ws[u].ready| && j < |ws[u].ready[n]| && ws[u].ready[n][j]
  }

  /** What a waiting stage that does not fire leaves: an active send that was or is ready has then been sent. */
  lemma WaitingSends(p: Proc, r: Registers, w: Ports, n: nat, j: nat)
    requires Fits(p, r, w) && p.oneShot && n < |p.stages| && j < |p.stages[n].sends|
    requires Waiting(p, r, w, n) && !Fires(p, r, w, n)
    requires Sends(p.stages[n], Now(p, r, w, n), j) && (r.sent[n][j] || w.ready[n][j])
    ensures Step(p, r, w).sent[n][j]
  {
    hide Now, Sends, InputsValid, NextStageOpen, StageValid, DataAfter, StateAfter, ValidAfter;
    assert Step(p, r, w).sent[n][j] == SentAfter(p, r, w, n, j);
  }

  /** With one-shot logic a stage that waits for its outputs fires once each active send has been ready, no matter in which
      cycles. */
  lemma {:induction false} OneShotFires(p: Proc, data: seq<Value>, ws: seq<Ports>, t: nat, t': nat, n: nat) returns (u: nat)
    requires IsRun(p, data, ws) && p.oneShot && UpstreamHolds(p, data, ws) && t <= t' < |ws| && n < |p.stages|
    requires Waiting(p, RegistersAt(p, data, ws, t), ws[t], n)
    requires forall j | 0 <= j < |p.stages[n].sends| && Sends(p.stages[n], Now(p, RegistersAt(p, data, ws, t), ws[t], n), j) ::
               RegistersAt(p, data, ws, t).sent[n][j] || ReadyWithin(ws, t, t', n, j)
    ensures t <= u <= t' && Fires(p, RegistersAt(p, data, ws, u), ws[u], n)
    ensures Now(p, RegistersAt(p, data, ws, u), ws[u], n) == Now(p, RegistersAt(p, data, ws, t), ws[t], n)
    decreases t' - t
  {
    hide Now, Sends, Waiting, Fires, Holds, Step;
    var r := RegistersAt(p, data, ws, t);
    if Fires(p, r, ws[t], n) {
      u := t;
    } else if t == t' {
      WaitingAllReady(p, r, ws[t], n);
      assert false;
    } else {
      assert Holds(p, r, ws[t], ws[t + 1]);
      WaitingPersists(p, r, ws[t], ws[t + 1], n);
      var r' := RegistersAt(p, data, ws, t + 1);
      assert r' == Step(p, r, ws[t]);
      forall j | 0 <= j < |p.stages[n].sends| && Sends(p.stages[n], Now(p, r', ws[t + 1], n), j)
        ensures r'.sent[n][j] || ReadyWithin(ws, t + 1, t', n, j)
      {
        if r.sent[n][j] || ws[t].ready[n][j] {
          WaitingSends(p, r, ws[t], n, j);
        }
      }
      u := OneShotFires(p, data, ws, t + 1, t', n);
    }
  }

  lemma WaitingAllReady(p: Proc, r: Registers, w: Ports, n: nat)
    requires Fits(p, r, w) && n < |p.stages| && Waiting(p, r, w, n)
    requires forall j | 0 <= j < |p.stages[n].sends| && Sends(p.stages[n], Now(p, r, w, n), j) ::
               w.ready[n][j] || (p.oneShot && r.sent[n][j])
    ensures Fires(p, r, w, n)
  {
    hide Now, Sends, InputsValid, NextStageOpen, StageValid;
    assert forall j | 0 <= j < |p.stages[n].sends| && Sends(p.stages[n], Now(p, r, w, n), j) :: ReadySeen(p, r, w, n, j);
  }

  /** Without it, a stage with exclusive sends fires when its active send is ready. */
  lemma {:induction false} ExclusiveFires(p: Proc, data: seq<Value>, ws: seq<Ports>, t: nat, t': nat, n: nat, j: nat)
    returns (u: nat)
    requires IsRun(p, data, ws) && UpstreamHolds(p, data, ws) && SendsExclusive(p, data, ws)
    requires t <= t' < |ws| && n < |p.stages| && j < |p.stages[n].sends|
    requires Waiting(p, RegistersAt(p, data, ws, t), ws[t], n)
    requires Sends(p.stages[n], Now(p, RegistersAt(p, data, ws, t), ws[t], n), j) && ReadyWithin(ws, t, t', n, j)
    ensures t <= u <= t' && Fires(p, RegistersAt(p, data, ws, u), ws[u], n)
    ensures Now(p, RegistersAt(p, data, ws, u), ws[u], n) == Now(p, RegistersAt(p, data, ws, t), ws[t], n)
    decreases t' - t
  {
    hide Now, Sends, Waiting, Fires, Holds, Step;
    var r := RegistersAt(p, data, ws, t);
    if Fires(p, r, ws[t], n) {
      u := t;
    } else if ws[t].ready[n][j] {
      assert Exclusive(p, r, ws[t]);
      WaitingAllReady(p, r, ws[t], n);
      assert false;
    } else {
      assert Holds(p, r, ws[t], ws[t + 1]);
      WaitingPersists(p, r, ws[t], ws[t + 1], n);
      assert RegistersAt(p, data, ws, t + 1) == Step(p, r, ws[t]);
      u := ExclusiveFires(p, data, ws, t + 1, t', n, j);
    }
  }
}
