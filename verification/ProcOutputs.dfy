/**
 What the generated circuit sends. With mutually exclusive send predicates an output transfers
 exactly when its stage fires with its predicate true. Otherwise the one-shot logic makes every
 send transfer exactly once per firing, provided that upstream holds its data until accepted.
 */
module ProcOutputs {
  import opened IrValues
  import opened ElasticPipeline

  // ---------------------------------------------------------------------------
  // Mutually exclusive sends, no one-shot logic
  // ---------------------------------------------------------------------------

  /** The stage could fire if only its outputs were ready. */
  ghost predicate Waiting(p: Proc, r: Registers, w: Ports, n: nat)
    requires Fits(p, r, w) && n < |p.stages|
  {
    StageValid(p, r, n) && InputsValid(p, r, w, n) && NextStageOpen(p, r, w, n)
  }

  /** No two sends of a stage that waits only for its outputs are active together. */
  ghost predicate Exclusive(p: Proc, r: Registers, w: Ports)
    requires Fits(p, r, w)
  {
    forall n, j, k | 0 <= n < |p.stages| && 0 <= j < |p.stages[n].sends| && 0 <= k < |p.stages[n].sends|
                     && Waiting(p, r, w, n)
                     && Sends(p.stages[n], Now(p, r, w, n), j) && Sends(p.stages[n], Now(p, r, w, n), k) ::
      j == k
  }

  /** ... in any cycle of the run. */
  ghost predicate SendsExclusive(p: Proc, data: seq<Value>, ws: seq<Ports>)
    requires IsRun(p, data, ws)
  {
    forall t {:trigger RegistersAt(p, data, ws, t)} | 0 <= t < |ws| :: Exclusive(p, RegistersAt(p, data, ws, t), ws[t])
  }

  /** A send transfers exactly when its stage fires with its predicate true. */
  lemma ExclusiveTransfersExactlyOnFiring(p: Proc, r: Registers, w: Ports, n: nat, j: nat)
    requires Fits(p, r, w) && n < |p.stages| && j < |p.stages[n].sends|
    requires !p.oneShot && Exclusive(p, r, w)
    ensures Transfers(p, r, w, n, j) <==> Fires(p, r, w, n) && Sends(p.stages[n], Now(p, r, w, n), j)
  {
    hide NextStageOpen, InputsValid, Now, Sends;
    if Transfers(p, r, w, n, j) {
      forall k | 0 <= k < |p.stages[n].sends|
        ensures !Sends(p.stages[n], Now(p, r, w, n), k) || ReadySeen(p, r, w, n, k)
      {
      }
    }
  }

  ghost predicate OutputsTraced(p: Proc, h: History) {
    && HistoryFits(p, h)
    && forall n, j | 0 <= n < |p.stages| && 0 <= j < |p.stages[n].sends| ::
         h.delivered[n][j] == Given(p.stages[n], h.log[n], j)
  }

  lemma ExclusiveStep(p: Proc, r: Registers, w: Ports, h: History)
    requires Fits(p, r, w) && !p.oneShot && Exclusive(p, r, w) && OutputsTraced(p, h)
    ensures OutputsTraced(p, Record(p, r, w, h))
  {
    hide Exclusive, Transfers, Fires, Sends, Now;
    forall n, j | 0 <= n < |p.stages| && 0 <= j < |p.stages[n].sends|
      ensures Delivered(p, r, w, h, n, j) == Given(p.stages[n], Log(p, r, w, h, n), j)
    {
      ExclusiveTransfersExactlyOnFiring(p, r, w, n, j);
      assert (h.log[n] + [Now(p, r, w, n)])[..|h.log[n]|] == h.log[n];
      assert h.log[n] + [] == h.log[n];
    }
  }

  /** In every run, what each output delivered is what the firings gave it, in order. */
  lemma {:induction false} ExclusiveOutputsExactlyOnce(p: Proc, data: seq<Value>, ws: seq<Ports>, t: nat)
    requires IsRun(p, data, ws) && t <= |ws| && !p.oneShot && SendsExclusive(p, data, ws)
    ensures OutputsTraced(p, HistoryAt(p, data, ws, t))
  {
    hide Exclusive, Record, Step;
    if t > 0 {
      ExclusiveOutputsExactlyOnce(p, data, ws, t - 1);
      ExclusiveStep(p, RegistersAt(p, data, ws, t - 1), ws[t - 1], HistoryAt(p, data, ws, t - 1));
    }
  }

  // ---------------------------------------------------------------------------
  // One-shot logic
  // ---------------------------------------------------------------------------

  /** Upstream holds valid and data, from one cycle to the next, until accepted. */
  ghost predicate Holds(p: Proc, r: Registers, w: Ports, w': Ports)
    requires Fits(p, r, w) && PortsFit(p, w')
  {
    forall n, i | 0 <= n < |p.stages| && 0 <= i < |p.stages[n].receives|
                  && w.valid[n][i] && !InputReady(p, r, w, n, i) ::
      w'.valid[n][i] && w'.data[n][i] == w.data[n][i]
  }

  /** If receive `i` is active, the two ports carry the same data. */
  ghost predicate SameIfActive(stage: Stage, d: Value, s: Value, port: seq<Value>, port': seq<Value>, i: nat)
    requires i < |stage.receives| == |port| == |port'|
  {
    stage.receives[i].pred(d, s, Received(stage, d, s, port, i)) ==> port[i] == port'[i]
  }

  lemma {:induction false} ReceivedSame(stage: Stage, d: Value, s: Value,
                                        port: seq<Value>, port': seq<Value>, k: nat)
    requires k <= |stage.receives| == |port| == |port'|
    requires forall i | 0 <= i < k :: SameIfActive(stage, d, s, port, port', i)
    ensures Received(stage, d, s, port, k) == Received(stage, d, s, port', k)
  {
    if k > 0 {
      ReceivedSame(stage, d, s, port, port', k - 1);
      assert SameIfActive(stage, d, s, port, port', k - 1);
    }
  }

  lemma WaitingKeepsRegisters(p: Proc, r: Registers, w: Ports, n: nat)
    requires Fits(p, r, w) && n < |p.stages| && Waiting(p, r, w, n) && !Fires(p, r, w, n)
    ensures var r' := Step(p, r, w);
            DataIn(p, r', n) == DataIn(p, r, n) && r'.state[n] == r.state[n] && StageValid(p, r', n)
            && (n == |p.stages| - 1 || !r'.valid[n])
  {
    hide InputsValid, OutputsReady;
    if n > 0 {
      RegisterBalance(p, r, w, n - 1);
    }
    if n < |p.stages| - 1 {
      RegisterBalance(p, r, w, n);
    }
  }

  /** Once a stage waits only for its outputs, it keeps waiting, on the same data, until it fires. */
  lemma WaitingPersists(p: Proc, r: Registers, w: Ports, w': Ports, n: nat)
    requires Fits(p, r, w) && PortsFit(p, w') && n < |p.stages| && Holds(p, r, w, w')
    requires Waiting(p, r, w, n) && !Fires(p, r, w, n)
    ensures Waiting(p, Step(p, r, w), w', n)
    ensures Now(p, Step(p, r, w), w', n) == Now(p, r, w, n)
  {
    var r' := Step(p, r, w);
    WaitingKeepsRegisters(p, r, w, n);
    SameReceived(p, r, w, w', n);
    assert Now(p, r', w', n) == Now(p, r, w, n);
    hide Step, Now, Done;
    assert InputsValid(p, r', w', n);
    if n < |p.stages| - 1 {
      assert !StageValid(p, r', n + 1);
    }
    assert NextStageOpen(p, r', w', n);
  }

  lemma SameReceived(p: Proc, r: Registers, w: Ports, w': Ports, n: nat)
    requires Fits(p, r, w) && PortsFit(p, w') && n < |p.stages| && Holds(p, r, w, w')
    requires Waiting(p, r, w, n) && !Fires(p, r, w, n)
    ensures Received(p.stages[n], DataIn(p, r, n), r.state[n], w'.data[n], |p.stages[n].receives|)
         == AllReceived(p, r, w, n)
  {
    hide NextStageOpen, OutputsReady, StageValid;
    var stage := p.stages[n];
    var d, s, K := DataIn(p, r, n), r.state[n], |stage.receives|;
    forall i | 0 <= i < K
      ensures SameIfActive(stage, d, s, w.data[n], w'.data[n], i)
    {
      if stage.receives[i].pred(d, s, Received(stage, d, s, w.data[n], i)) {
        ReceivedPrefix(stage, d, s, w.data[n], i, K);
        assert Active(stage, Now(p, r, w, n), i);
        assert w.valid[n][i] && !InputReady(p, r, w, n, i);
      }
    }
    ReceivedSame(stage, d, s, w.data[n], w'.data[n], K);
  }

  /** A send already made belongs to a stage that still waits with that send active. */
  ghost predicate SentOk(p: Proc, r: Registers, w: Ports)
    requires Fits(p, r, w)
  {
    forall n, j | 0 <= n < |p.stages| && 0 <= j < |p.stages[n].sends| && r.sent[n][j] ::
      Waiting(p, r, w, n) && Sends(p.stages[n], Now(p, r, w, n), j)
  }

  /** Delivered so far: what the firings gave, and the item already sent for the firing to come. */
  ghost predicate OneShotTraced(p: Proc, r: Registers, w: Ports, h: History)
    requires Fits(p, r, w)
  {
    && HistoryFits(p, h)
    && forall n, j | 0 <= n < |p.stages| && 0 <= j < |p.stages[n].sends| ::
         h.delivered[n][j] == Given(p.stages[n], h.log[n], j)
                              + if r.sent[n][j] then [SendData(p.stages[n], Now(p, r, w, n), j)] else []
  }

  /** What one cycle does to the has-been-sent register and the transfer of one send. */
  lemma OneShotCases(p: Proc, r: Registers, w: Ports, n: nat, j: nat)
    requires Fits(p, r, w) && p.oneShot && n < |p.stages| && j < |p.stages[n].sends| && SentOk(p, r, w)
    ensures var f := Now(p, r, w, n);
            if Fires(p, r, w, n) then
              !SentAfter(p, r, w, n, j)
              && (Transfers(p, r, w, n, j) <==> Sends(p.stages[n], f, j) && !r.sent[n][j])
              && (r.sent[n][j] ==> Sends(p.stages[n], f, j))
            else if SentAfter(p, r, w, n, j) then
              Waiting(p, r, w, n) && Sends(p.stages[n], f, j) && (Transfers(p, r, w, n, j) <==> !r.sent[n][j])
            else
              !r.sent[n][j] && !Transfers(p, r, w, n, j)
  {
    hide NextStageOpen, InputsValid, StageValid, Sends, Now;
  }

  /** A send is marked as sent if and only if it was or is transferred, and some active send of the stage has not been ready
      yet: the marks of a stage are kept and cleared together. */
  lemma MarkedExactly(p: Proc, r: Registers, w: Ports, n: nat, j: nat)
    requires Fits(p, r, w) && p.oneShot && n < |p.stages| && j < |p.stages[n].sends|
    ensures Step(p, r, w).sent[n][j] <==>
              && (r.sent[n][j] || Transfers(p, r, w, n, j))
              && exists k :: 0 <= k < |p.stages[n].sends| && Sends(p.stages[n], Now(p, r, w, n), k)
                             && !w.ready[n][k] && !r.sent[n][k]
  {
    hide Transfers, Sends, Now, ValidAfter, DataAfter, StateAfter;
    if !OutputsReady(p, r, w, n) {
      var k :| 0 <= k < |p.stages[n].sends| && Sends(p.stages[n], Now(p, r, w, n), k) && !ReadySeen(p, r, w, n, k);
    }
  }

  lemma OneShotStep(p: Proc, r: Registers, w: Ports, w': Ports, h: History)
    requires Fits(p, r, w) && PortsFit(p, w') && p.oneShot && Holds(p, r, w, w')
    requires SentOk(p, r, w) && OneShotTraced(p, r, w, h)
    ensures SentOk(p, Step(p, r, w), w')
    ensures OneShotTraced(p, Step(p, r, w), w', Record(p, r, w, h))
  {
    hide Holds, Waiting, Fires, Transfers, Sends, SendData, SentAfter, SentOk, Now;
    var r' := Step(p, r, w);
    forall n, j | 0 <= n < |p.stages| && 0 <= j < |p.stages[n].sends|
      ensures r'.sent[n][j] ==> Waiting(p, r', w', n) && Sends(p.stages[n], Now(p, r', w', n), j)
      ensures Delivered(p, r, w, h, n, j) == Given(p.stages[n], Log(p, r, w, h, n), j)
                + if r'.sent[n][j] then [SendData(p.stages[n], Now(p, r', w', n), j)] else []
    {
      OneShotCases(p, r, w, n, j);
      assert r'.sent[n][j] == SentAfter(p, r, w, n, j);
      if !Fires(p, r, w, n) && SentAfter(p, r, w, n, j) {
        WaitingPersists(p, r, w, w', n);
      }
      assert (h.log[n] + [Now(p, r, w, n)])[..|h.log[n]|] == h.log[n];
      assert h.log[n] + [] == h.log[n];
    }
    SentOkIntro(p, r', w');
  }

  lemma SentOkIntro(p: Proc, r: Registers, w: Ports)
    requires Fits(p, r, w)
    requires forall n, j | 0 <= n < |p.stages| && 0 <= j < |p.stages[n].sends| && r.sent[n][j] ::
               Waiting(p, r, w, n) && Sends(p.stages[n], Now(p, r, w, n), j)
    ensures SentOk(p, r, w)
  {
  }

  ghost predicate UpstreamHolds(p: Proc, data: seq<Value>, ws: seq<Ports>)
    requires IsRun(p, data, ws)
  {
    forall t {:trigger RegistersAt(p, data, ws, t)} | 0 <= t < |ws| - 1 ::
      Holds(p, RegistersAt(p, data, ws, t), ws[t], ws[t + 1])
  }

  /** With one-shot logic and upstreams that hold, every send transfers exactly once per firing with its predicate
      true and never otherwise: at any time an output has delivered what the firings gave it, plus at most the item
      of the firing that its stage is waiting to make. */
  lemma {:induction false} OneShotOutputsExactlyOnce(p: Proc, data: seq<Value>, ws: seq<Ports>, t: nat)
    requires IsRun(p, data, ws) && t < |ws| && p.oneShot && UpstreamHolds(p, data, ws)
    ensures SentOk(p, RegistersAt(p, data, ws, t), ws[t])
    ensures OneShotTraced(p, RegistersAt(p, data, ws, t), ws[t], HistoryAt(p, data, ws, t))
  {
    hide Holds, Record, Step, SentOk, OneShotTraced;
    if t == 0 {
      OneShotReset(p, data, ws[0]);
    } else {
      OneShotOutputsExactlyOnce(p, data, ws, t - 1);
      assert ws[t - 1 + 1] == ws[t];
      OneShotStep(p, RegistersAt(p, data, ws, t - 1), ws[t - 1], ws[t], HistoryAt(p, data, ws, t - 1));
    }
  }

  lemma OneShotReset(p: Proc, data: seq<Value>, w: Ports)
    requires WellFormed(p) && |data| == |p.stages| - 1 && PortsFit(p, w)
    ensures SentOk(p, AfterReset(p, data), w) && OneShotTraced(p, AfterReset(p, data), w, NoHistory(p))
  {
  }
}
