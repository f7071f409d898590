/**
 The circuit that xls/codegen/block_conversion.cc generates for a scheduled proc: pipeline
 registers between stages, bubble flow control, ready/valid ports for receives and sends, and
 one-shot output logic. The circuit is a step function on its registers, for any number of
 stages and any behaviour of the ports. Runs start in the state after reset.
 */
module ElasticPipeline {
  import opened IrValues

  /** What a stage's logic may depend on: the datapath value, the state held in the stage, and the received data. */
  type Logic<T> = (Value, Value, seq<Value>) -> T

  /** A blocking receive; without a predicate the predicate is constantly true, and `zero`, of the type of the port, is
      what it yields when the predicate is false. A receive sees the data of the receives before it. */
  datatype Receive = Receive(pred: Logic<bool>, zero: Value)

  datatype Send = Send(pred: Logic<bool>, data: Logic<Value>)

  /** One pipeline stage: its receives and sends, its outgoing datapath value and next state. */
  datatype Stage = Stage(receives: seq<Receive>, sends: seq<Send>, out: Logic<Value>, next: Logic<Value>)

  /** `start` enters stage 0, and `init` is the reset value of each stage's state. */
  datatype Proc = Proc(stages: seq<Stage>, start: Value, init: seq<Value>, oneShot: bool)

  ghost predicate WellFormed(p: Proc) {
    1 <= |p.stages| == |p.init|
  }

  // ---------------------------------------------------------------------------
  // Signals of one cycle
  // ---------------------------------------------------------------------------

  /** Registers: `valid[n]` and `data[n]` lie between stages n and n + 1. */
  datatype Registers = Registers(valid: seq<bool>, data: seq<Value>, state: seq<Value>, sent: seq<seq<bool>>)

  /** Port inputs in one cycle, by stage and channel. */
  datatype Ports = Ports(valid: seq<seq<bool>>, data: seq<seq<Value>>, ready: seq<seq<bool>>)

  ghost predicate RegistersFit(p: Proc, r: Registers) {
    && |r.valid| == |r.data| == |p.stages| - 1
    && |r.state| == |r.sent| == |p.stages|
    && forall n | 0 <= n < |p.stages| :: |r.sent[n]| == |p.stages[n].sends|
  }

  ghost predicate PortsFit(p: Proc, w: Ports) {
    && |w.valid| == |w.data| == |w.ready| == |p.stages|
    && forall n | 0 <= n < |p.stages| ::
         |w.valid[n]| == |w.data[n]| == |p.stages[n].receives| && |w.ready[n]| == |p.stages[n].sends|
  }

  ghost predicate Fits(p: Proc, r: Registers, w: Ports) {
    WellFormed(p) && RegistersFit(p, r) && PortsFit(p, w)
  }

  /** Data of the first `k` receives: the port's data, or zero when the predicate is false. */
  function Received(stage: Stage, d: Value, s: Value, port: seq<Value>, k: nat): (e: seq<Value>)
    requires k <= |stage.receives| == |port|
    ensures |e| == k
    decreases k
  {
    if k == 0 then []
    else
      var e := Received(stage, d, s, port, k - 1);
      e + [if stage.receives[k - 1].pred(d, s, e) then port[k - 1] else stage.receives[k - 1].zero]
  }

  function DataIn(p: Proc, r: Registers, n: nat): Value
    requires n < |p.stages| && |r.data| == |p.stages| - 1
  {
    if n == 0 then p.start else r.data[n - 1]
  }

  function AllReceived(p: Proc, r: Registers, w: Ports, n: nat): seq<Value>
    requires n < |p.stages| == |w.data| == |r.state| && |r.data| == |p.stages| - 1
    requires |w.data[n]| == |p.stages[n].receives|
  {
    Received(p.stages[n], DataIn(p, r, n), r.state[n], w.data[n], |p.stages[n].receives|)
  }

  /** What a stage computes on. */
  datatype Firing = Firing(d: Value, s: Value, received: seq<Value>)

  ghost function Now(p: Proc, r: Registers, w: Ports, n: nat): Firing
    requires Fits(p, r, w) && n < |p.stages|
  {
    Firing(DataIn(p, r, n), r.state[n], AllReceived(p, r, w, n))
  }

  /** The predicate of receive `i`. */
  ghost predicate Active(stage: Stage, f: Firing, i: nat)
    requires i < |stage.receives| == |f.received|
  {
    stage.receives[i].pred(f.d, f.s, f.received[..i])
  }

  ghost predicate Sends(stage: Stage, f: Firing, j: nat)
    requires j < |stage.sends|
  {
    stage.sends[j].pred(f.d, f.s, f.received)
  }

  ghost function SendData(stage: Stage, f: Firing, j: nat): Value
    requires j < |stage.sends|
  {
    stage.sends[j].data(f.d, f.s, f.received)
  }

  ghost function OutOf(stage: Stage, f: Firing): Value {
    stage.out(f.d, f.s, f.received)
  }

  ghost function NextOf(stage: Stage, f: Firing): Value {
    stage.next(f.d, f.s, f.received)
  }

  /** All receives with a true predicate have valid data. */
  ghost predicate InputsValid(p: Proc, r: Registers, w: Ports, n: nat)
    requires Fits(p, r, w) && n < |p.stages|
  {
    forall i | 0 <= i < |p.stages[n].receives| :: !Active(p.stages[n], Now(p, r, w, n), i) || w.valid[n][i]
  }

  /** The ready signal that a send sees: with one-shot logic, a send already made counts as ready. */
  ghost predicate ReadySeen(p: Proc, r: Registers, w: Ports, n: nat, j: nat)
    requires Fits(p, r, w) && n < |p.stages| && j < |p.stages[n].sends|
  {
    w.ready[n][j] || (p.oneShot && r.sent[n][j])
  }

  ghost predicate OutputsReady(p: Proc, r: Registers, w: Ports, n: nat)
    requires Fits(p, r, w) && n < |p.stages|
  {
    forall j | 0 <= j < |p.stages[n].sends| :: !Sends(p.stages[n], Now(p, r, w, n), j) || ReadySeen(p, r, w, n, j)
  }

  ghost predicate StageValid(p: Proc, r: Registers, n: nat)
    requires n < |p.stages| && |r.valid| == |p.stages| - 1
  {
    n == 0 || r.valid[n - 1]
  }

  ghost predicate Done(p: Proc, r: Registers, w: Ports, n: nat)
    requires Fits(p, r, w) && n < |p.stages|
  {
    StageValid(p, r, n) && InputsValid(p, r, w, n) && OutputsReady(p, r, w, n)
  }

  /** The next stage can accept data: it is empty or it fires. */
  ghost predicate NextStageOpen(p: Proc, r: Registers, w: Ports, n: nat)
    requires Fits(p, r, w) && n < |p.stages|
    decreases |p.stages| - n
  {
    n == |p.stages| - 1 || (NextStageOpen(p, r, w, n + 1) && Done(p, r, w, n + 1)) || !StageValid(p, r, n + 1)
  }

  /** The stage loads its outgoing registers, its state and its inputs. */
  ghost predicate Fires(p: Proc, r: Registers, w: Ports, n: nat)
    requires Fits(p, r, w) && n < |p.stages|
  {
    NextStageOpen(p, r, w, n) && Done(p, r, w, n)
  }

  ghost predicate OutputValid(p: Proc, r: Registers, w: Ports, n: nat, j: nat)
    requires Fits(p, r, w) && n < |p.stages| && j < |p.stages[n].sends|
  {
    && InputsValid(p, r, w, n) && StageValid(p, r, n) && NextStageOpen(p, r, w, n)
    && Sends(p.stages[n], Now(p, r, w, n), j)
    && !(p.oneShot && r.sent[n][j])
  }

  ghost predicate InputReady(p: Proc, r: Registers, w: Ports, n: nat, i: nat)
    requires Fits(p, r, w) && n < |p.stages| && i < |p.stages[n].receives|
  {
    Fires(p, r, w, n) && Active(p.stages[n], Now(p, r, w, n), i)
  }

  /** Send `j` transfers in this cycle. */
  ghost predicate Transfers(p: Proc, r: Registers, w: Ports, n: nat, j: nat)
    requires Fits(p, r, w) && n < |p.stages| && j < |p.stages[n].sends|
  {
    OutputValid(p, r, w, n, j) && w.ready[n][j]
  }

  // ---------------------------------------------------------------------------
  // Steps and runs
  // ---------------------------------------------------------------------------

  ghost function ValidAfter(p: Proc, r: Registers, w: Ports, n: nat): bool
    requires Fits(p, r, w) && n < |p.stages| - 1
  {
    if NextStageOpen(p, r, w, n) then Done(p, r, w, n) else r.valid[n]
  }

  ghost function DataAfter(p: Proc, r: Registers, w: Ports, n: nat): Value
    requires Fits(p, r, w) && n < |p.stages| - 1
  {
    if Fires(p, r, w, n) then OutOf(p.stages[n], Now(p, r, w, n)) else r.data[n]
  }

  ghost function StateAfter(p: Proc, r: Registers, w: Ports, n: nat): Value
    requires Fits(p, r, w) && n < |p.stages|
  {
    if Fires(p, r, w, n) then NextOf(p.stages[n], Now(p, r, w, n)) else r.state[n]
  }

  /** The has-been-sent register is cleared when all active outputs are ready and set by a transfer. */
  ghost function SentAfter(p: Proc, r: Registers, w: Ports, n: nat, j: nat): bool
    requires Fits(p, r, w) && n < |p.stages| && j < |p.stages[n].sends|
  {
    p.oneShot && (if Transfers(p, r, w, n, j) || OutputsReady(p, r, w, n) then !OutputsReady(p, r, w, n)
                  else r.sent[n][j])
  }

  ghost function Step(p: Proc, r: Registers, w: Ports): (r': Registers)
    requires Fits(p, r, w)
    ensures RegistersFit(p, r')
  {
    var N := |p.stages|;
    Registers(
      seq(N - 1, n requires 0 <= n < N - 1 => ValidAfter(p, r, w, n)),
      seq(N - 1, n requires 0 <= n < N - 1 => DataAfter(p, r, w, n)),
      seq(N, n requires 0 <= n < N => StateAfter(p, r, w, n)),
      seq(N, n requires 0 <= n < N => seq(|p.stages[n].sends|, j requires 0 <= j < |p.stages[n].sends| =>
                                                                 SentAfter(p, r, w, n, j))))
  }

  ghost function AfterReset(p: Proc, data: seq<Value>): (r: Registers)
    requires WellFormed(p) && |data| == |p.stages| - 1
    ensures RegistersFit(p, r)
  {
    Registers(seq(|p.stages| - 1, _ => false), data, p.init,
              seq(|p.stages|, n requires 0 <= n < |p.stages| => seq(|p.stages[n].sends|, _ => false)))
  }

  /** What happened so far: the firings of each stage, the items taken from each input, the items given to each output. */
  datatype History = History(log: seq<seq<Firing>>, consumed: seq<seq<seq<Value>>>, delivered: seq<seq<seq<Value>>>)

  ghost predicate HistoryFits(p: Proc, h: History) {
    && |h.log| == |h.consumed| == |h.delivered| == |p.stages|
    && forall n | 0 <= n < |p.stages| ::
         |h.consumed[n]| == |p.stages[n].receives| && |h.delivered[n]| == |p.stages[n].sends|
  }

  ghost function NoHistory(p: Proc): (h: History)
    ensures HistoryFits(p, h)
  {
    var N := |p.stages|;
    History(
      seq(N, _ => []),
      seq(N, n requires 0 <= n < N => seq(|p.stages[n].receives|, _ => [])),
      seq(N, n requires 0 <= n < N => seq(|p.stages[n].sends|, _ => [])))
  }

  ghost function Log(p: Proc, r: Registers, w: Ports, h: History, n: nat): seq<Firing>
    requires Fits(p, r, w) && HistoryFits(p, h) && n < |p.stages|
  {
    h.log[n] + if Fires(p, r, w, n) then [Now(p, r, w, n)] else []
  }

  ghost function Consumed(p: Proc, r: Registers, w: Ports, h: History, n: nat, i: nat): seq<Value>
    requires Fits(p, r, w) && HistoryFits(p, h) && n < |p.stages| && i < |p.stages[n].receives|
  {
    h.consumed[n][i] + if InputReady(p, r, w, n, i) && w.valid[n][i] then [w.data[n][i]] else []
  }

  ghost function Delivered(p: Proc, r: Registers, w: Ports, h: History, n: nat, j: nat): seq<Value>
    requires Fits(p, r, w) && HistoryFits(p, h) && n < |p.stages| && j < |p.stages[n].sends|
  {
    h.delivered[n][j] + if Transfers(p, r, w, n, j) then [SendData(p.stages[n], Now(p, r, w, n), j)] else []
  }

  ghost function Record(p: Proc, r: Registers, w: Ports, h: History): (h': History)
    requires Fits(p, r, w) && HistoryFits(p, h)
    ensures HistoryFits(p, h')
  {
    var N := |p.stages|;
    History(
      seq(N, n requires 0 <= n < N => Log(p, r, w, h, n)),
      seq(N, n requires 0 <= n < N => seq(|p.stages[n].receives|, i requires 0 <= i < |p.stages[n].receives| =>
                                                                    Consumed(p, r, w, h, n, i))),
      seq(N, n requires 0 <= n < N => seq(|p.stages[n].sends|, j requires 0 <= j < |p.stages[n].sends| =>
                                                                 Delivered(p, r, w, h, n, j))))
  }

  ghost predicate IsRun(p: Proc, data: seq<Value>, ws: seq<Ports>) {
    && WellFormed(p) && |data| == |p.stages| - 1
    && forall t | 0 <= t < |ws| :: PortsFit(p, ws[t])
  }

  /** The registers before cycle `t`. */
  ghost function RegistersAt(p: Proc, data: seq<Value>, ws: seq<Ports>, t: nat): (r: Registers)
    requires IsRun(p, data, ws) && t <= |ws|
    ensures RegistersFit(p, r)
  {
    if t == 0 then AfterReset(p, data) else Step(p, RegistersAt(p, data, ws, t - 1), ws[t - 1])
  }

  /** What happened before cycle `t`. */
  ghost function HistoryAt(p: Proc, data: seq<Value>, ws: seq<Ports>, t: nat): (h: History)
    requires IsRun(p, data, ws) && t <= |ws|
    ensures HistoryFits(p, h)
  {
    if t == 0 then NoHistory(p)
    else Record(p, RegistersAt(p, data, ws, t - 1), ws[t - 1], HistoryAt(p, data, ws, t - 1))
  }

  // ---------------------------------------------------------------------------
  // Flow control
  // ---------------------------------------------------------------------------

  /** Stage `n` is blocked by stage `m`: every stage from n + 1 to m is full and m is not done. */
  ghost predicate BlockedBy(p: Proc, r: Registers, w: Ports, n: nat, m: nat)
    requires Fits(p, r, w) && n < m < |p.stages|
  {
    (forall i | n < i <= m :: StageValid(p, r, i)) && !Done(p, r, w, m)
  }

  /** Bubbles collapse: a stage is blocked exactly when an unbroken row of full stages ends in one that is not done. */
  lemma {:induction false} BlockedExactlyByFullRow(p: Proc, r: Registers, w: Ports, n: nat)
    requires Fits(p, r, w) && n < |p.stages|
    ensures !NextStageOpen(p, r, w, n) <==> exists m :: n < m < |p.stages| && BlockedBy(p, r, w, n, m)
    decreases |p.stages| - n
  {
    hide Done, StageValid;
    if n < |p.stages| - 1 {
      BlockedExactlyByFullRow(p, r, w, n + 1);
      if !NextStageOpen(p, r, w, n) {
        if Done(p, r, w, n + 1) {
          var m :| n + 1 < m < |p.stages| && BlockedBy(p, r, w, n + 1, m);
          assert BlockedBy(p, r, w, n, m);
        } else {
          assert BlockedBy(p, r, w, n, n + 1);
        }
      }
      if m :| n < m < |p.stages| && BlockedBy(p, r, w, n, m) {
        assert StageValid(p, r, n + 1);
        if m > n + 1 {
          assert BlockedBy(p, r, w, n + 1, m);
        }
      }
    }
  }

  /** The two loops that build the flow control, on the signals of one cycle: stage valids and dones from the
      first stage to the last, then enables from the last stage back to the first. */
  method FlowControl(valid: seq<bool>, recvsValid: seq<bool>, sendsReady: seq<bool>,
                     ghost p: Proc, ghost r: Registers, ghost w: Ports)
    returns (stageValid: array<bool>, stageDone: array<bool>, nextStageOpen: array<bool>, dataLoadEnable: array<bool>)
    requires Fits(p, r, w) && valid == r.valid && |recvsValid| == |sendsReady| == |p.stages|
    requires forall n | 0 <= n < |p.stages| ::
               recvsValid[n] == InputsValid(p, r, w, n) && sendsReady[n] == OutputsReady(p, r, w, n)
    ensures stageValid.Length == stageDone.Length == nextStageOpen.Length == dataLoadEnable.Length == |p.stages|
    ensures forall n | 0 <= n < |p.stages| ::
              && stageValid[n] == StageValid(p, r, n) && stageDone[n] == Done(p, r, w, n)
              && nextStageOpen[n] == NextStageOpen(p, r, w, n) && dataLoadEnable[n] == Fires(p, r, w, n)
  {
    hide InputsValid, OutputsReady;
    var stageCount := |valid| + 1;
    stageValid, stageDone := new bool[stageCount], new bool[stageCount];
    stageValid[0] := true;
    for stage := 0 to stageCount
      invariant forall n | 0 <= n <= stage && n < stageCount :: stageValid[n] == StageValid(p, r, n)
      invariant forall n | 0 <= n < stage :: stageDone[n] == Done(p, r, w, n)
    {
      stageDone[stage] := stageValid[stage] && recvsValid[stage] && sendsReady[stage];
      if stage < stageCount - 1 {
        stageValid[stage + 1] := valid[stage];
      }
    }

    nextStageOpen, dataLoadEnable := new bool[stageCount], new bool[stageCount];
    nextStageOpen[stageCount - 1] := true;
    dataLoadEnable[stageCount - 1] := stageDone[stageCount - 1];
    for stage := stageCount - 1 downto 0
      invariant forall n | stage <= n < stageCount ::
                  nextStageOpen[n] == NextStageOpen(p, r, w, n) && dataLoadEnable[n] == Fires(p, r, w, n)
      invariant forall n | 0 <= n < stageCount ::
                  stageValid[n] == StageValid(p, r, n) && stageDone[n] == Done(p, r, w, n)
    {
      var enable := dataLoadEnable[stage + 1] || !stageValid[stage + 1];
      nextStageOpen[stage] := enable;
      dataLoadEnable[stage] := enable && stageDone[stage];
    }
  }

  /** A valid register gains a token when its stage fires and loses one when the next stage fires. */
  lemma RegisterBalance(p: Proc, r: Registers, w: Ports, n: nat)
    requires Fits(p, r, w) && n < |p.stages| - 1
    ensures Fires(p, r, w, n + 1) ==> r.valid[n]
    ensures Fires(p, r, w, n) ==> !r.valid[n] || Fires(p, r, w, n + 1)
    ensures Step(p, r, w).valid[n] <==> Fires(p, r, w, n) || (r.valid[n] && !Fires(p, r, w, n + 1))
  {
    hide InputsValid, OutputsReady;
  }

  // ---------------------------------------------------------------------------
  // Invariant of every run
  // ---------------------------------------------------------------------------

  /** What stage `n` does next, from what it did. */
  ghost function StateFrom(p: Proc, log: seq<Firing>, n: nat): Value
    requires WellFormed(p) && n < |p.stages|
  {
    if log == [] then p.init[n] else NextOf(p.stages[n], log[|log| - 1])
  }

  /** A firing's data is zero where its receive was not active. */
  ghost predicate Gated(stage: Stage, f: Firing) {
    && |f.received| == |stage.receives|
    && forall i | 0 <= i < |stage.receives| :: Active(stage, f, i) || f.received[i] == stage.receives[i].zero
  }

  /** The items that the firings take from receive `i`. */
  ghost function Taken(stage: Stage, log: seq<Firing>, i: nat): seq<Value>
    requires i < |stage.receives| && forall k | 0 <= k < |log| :: |log[k].received| == |stage.receives|
  {
    if log == [] then []
    else
      var f := log[|log| - 1];
      Taken(stage, log[..|log| - 1], i) + if Active(stage, f, i) then [f.received[i]] else []
  }

  /** The items that the firings give to send `j`. */
  ghost function Given(stage: Stage, log: seq<Firing>, j: nat): seq<Value>
    requires j < |stage.sends|
  {
    if log == [] then []
    else
      var f := log[|log| - 1];
      Given(stage, log[..|log| - 1], j) + if Sends(stage, f, j) then [SendData(stage, f, j)] else []
  }

  /** The firings of stage `n` are gated, and thread the stage's state from its initial value to `state`. */
  ghost predicate Threaded(p: Proc, n: nat, log: seq<Firing>, state: Value)
    requires WellFormed(p) && n < |p.stages|
  {
    && (forall k | 0 <= k < |log| :: Gated(p.stages[n], log[k]))
    && (forall k | 0 <= k < |log| :: log[k].s == StateFrom(p, log[..k], n))
    && state == StateFrom(p, log, n)
    && (n == 0 ==> forall k | 0 <= k < |log| :: log[k].d == p.start)
  }

  /** What was taken from each input is what the firings took. */
  ghost predicate InputsTraced(stage: Stage, log: seq<Firing>, consumed: seq<seq<Value>>) {
    && |consumed| == |stage.receives|
    && (forall k | 0 <= k < |log| :: |log[k].received| == |stage.receives|)
    && (forall i | 0 <= i < |stage.receives| :: consumed[i] == Taken(stage, log, i))
  }

  ghost predicate StageTraced(p: Proc, r: Registers, h: History, n: nat)
    requires WellFormed(p) && RegistersFit(p, r) && HistoryFits(p, h) && n < |p.stages|
  {
    Threaded(p, n, h.log[n], r.state[n]) && InputsTraced(p.stages[n], h.log[n], h.consumed[n])
  }

  /** Stage n + 1 has processed the outputs of stage n in order, and at most one of them waits in between. */
  ghost predicate LinkTraced(p: Proc, r: Registers, h: History, n: nat)
    requires WellFormed(p) && RegistersFit(p, r) && HistoryFits(p, h) && n < |p.stages| - 1
  {
    && |h.log[n]| == |h.log[n + 1]| + (if r.valid[n] then 1 else 0)
    && (forall k | 0 <= k < |h.log[n + 1]| :: h.log[n + 1][k].d == OutOf(p.stages[n], h.log[n][k]))
    && (r.valid[n] ==> r.data[n] == OutOf(p.stages[n], h.log[n][|h.log[n]| - 1]))
  }

  ghost predicate Traced(p: Proc, r: Registers, h: History) {
    && WellFormed(p) && RegistersFit(p, r) && HistoryFits(p, h)
    && (forall n | 0 <= n < |p.stages| :: StageTraced(p, r, h, n))
    && (forall n | 0 <= n < |p.stages| - 1 :: LinkTraced(p, r, h, n))
  }

  lemma ReceivedPrefix(stage: Stage, d: Value, s: Value, port: seq<Value>, k: nat, m: nat)
    requires k <= m <= |stage.receives| == |port|
    ensures Received(stage, d, s, port, m)[..k] == Received(stage, d, s, port, k)
    decreases m
  {
    if k < m {
      ReceivedPrefix(stage, d, s, port, k, m - 1);
    }
  }

  /** The current data is gated, and is the port's data where the receive is active. */
  lemma NowIsGated(p: Proc, r: Registers, w: Ports, n: nat)
    requires Fits(p, r, w) && n < |p.stages|
    ensures Gated(p.stages[n], Now(p, r, w, n))
    ensures forall i | 0 <= i < |p.stages[n].receives| ::
              Active(p.stages[n], Now(p, r, w, n), i) ==> Now(p, r, w, n).received[i] == w.data[n][i]
  {
    var stage := p.stages[n];
    var f := Now(p, r, w, n);
    forall i | 0 <= i < |stage.receives|
      ensures if Active(stage, f, i) then f.received[i] == w.data[n][i] else f.received[i] == stage.receives[i].zero
    {
      ReceivedPrefix(stage, f.d, f.s, w.data[n], i, |stage.receives|);
      ReceivedPrefix(stage, f.d, f.s, w.data[n], i + 1, |stage.receives|);
      assert f.received[i] == f.received[..i + 1][i];
    }
  }

  lemma ThreadedExtends(p: Proc, n: nat, log: seq<Firing>, state: Value, f: Firing)
    requires WellFormed(p) && n < |p.stages| && Threaded(p, n, log, state)
    requires Gated(p.stages[n], f) && f.s == state && (n == 0 ==> f.d == p.start)
    ensures Threaded(p, n, log + [f], NextOf(p.stages[n], f))
  {
    hide Gated;
    var log' := log + [f];
    forall k | 0 <= k < |log'|
      ensures log'[k].s == StateFrom(p, log'[..k], n)
    {
      assert log'[..k] == log[..k];
      assert k == |log| ==> log[..k] == log;
    }
  }

  lemma InputsExtend(stage: Stage, log: seq<Firing>, consumed: seq<seq<Value>>, f: Firing, consumed': seq<seq<Value>>)
    requires InputsTraced(stage, log, consumed) && |f.received| == |consumed'| == |stage.receives|
    requires forall i | 0 <= i < |stage.receives| ::
               consumed'[i] == consumed[i] + if Active(stage, f, i) then [f.received[i]] else []
    ensures InputsTraced(stage, log + [f], consumed')
  {
    hide Active;
    assert (log + [f])[..|log|] == log;
  }

  lemma StageStep(p: Proc, r: Registers, w: Ports, h: History, n: nat)
    requires Fits(p, r, w) && HistoryFits(p, h) && n < |p.stages| && StageTraced(p, r, h, n)
    ensures StageTraced(p, Step(p, r, w), Record(p, r, w, h), n)
  {
    hide NextStageOpen, Done, Active, Now, Threaded, InputsTraced;
    var stage := p.stages[n];
    NowIsGated(p, r, w, n);
    FiringTakesOnlyActive(p, r, w, n);
    var consumed' := Record(p, r, w, h).consumed[n];
    if Fires(p, r, w, n) {
      NowFields(p, r, w, n);
      ThreadedExtends(p, n, h.log[n], r.state[n], Now(p, r, w, n));
      InputsExtend(stage, h.log[n], h.consumed[n], Now(p, r, w, n), consumed');
    } else {
      assert Log(p, r, w, h, n) == h.log[n];
      assert forall i | 0 <= i < |stage.receives| :: consumed'[i] == h.consumed[n][i];
      assert consumed' == h.consumed[n];
    }
  }

  lemma NowFields(p: Proc, r: Registers, w: Ports, n: nat)
    requires Fits(p, r, w) && n < |p.stages|
    ensures Now(p, r, w, n).d == DataIn(p, r, n) && Now(p, r, w, n).s == r.state[n]
    ensures |Now(p, r, w, n).received| == |p.stages[n].receives|
  {
  }

  /** In a cycle an item is taken from a receive exactly when its stage fires with the receive active. */
  lemma FiringTakesOnlyActive(p: Proc, r: Registers, w: Ports, n: nat)
    requires Fits(p, r, w) && n < |p.stages|
    ensures |Now(p, r, w, n).received| == |p.stages[n].receives|
    ensures forall i | 0 <= i < |p.stages[n].receives| ::
              (InputReady(p, r, w, n, i) && w.valid[n][i] <==>
               Fires(p, r, w, n) && Active(p.stages[n], Now(p, r, w, n), i))
  {
    hide NextStageOpen, OutputsReady, Active;
  }

  lemma LinkStep(p: Proc, r: Registers, w: Ports, h: History, n: nat)
    requires Fits(p, r, w) && HistoryFits(p, h) && n < |p.stages| - 1 && LinkTraced(p, r, h, n)
    ensures LinkTraced(p, Step(p, r, w), Record(p, r, w, h), n)
  {
    RegisterBalance(p, r, w, n);
    NowFields(p, r, w, n + 1);
    hide Fires, Now;
  }

  lemma TracedStep(p: Proc, r: Registers, w: Ports, h: History)
    requires Fits(p, r, w) && Traced(p, r, h)
    ensures Traced(p, Step(p, r, w), Record(p, r, w, h))
  {
    hide StageTraced, LinkTraced, Step, Record;
    forall n | 0 <= n < |p.stages|
      ensures StageTraced(p, Step(p, r, w), Record(p, r, w, h), n)
    {
      StageStep(p, r, w, h, n);
    }
    forall n | 0 <= n < |p.stages| - 1
      ensures LinkTraced(p, Step(p, r, w), Record(p, r, w, h), n)
    {
      LinkStep(p, r, w, h, n);
    }
  }

  lemma ResetIsTraced(p: Proc, data: seq<Value>)
    requires WellFormed(p) && |data| == |p.stages| - 1
    ensures Traced(p, AfterReset(p, data), NoHistory(p))
  {
  }

  /** Tokens are neither lost, duplicated nor reordered, and each stage threads its state, in every run. */
  lemma {:induction false} EveryRunIsTraced(p: Proc, data: seq<Value>, ws: seq<Ports>, t: nat)
    requires IsRun(p, data, ws) && t <= |ws|
    ensures Traced(p, RegistersAt(p, data, ws, t), HistoryAt(p, data, ws, t))
  {
    hide Traced, AfterReset, NoHistory, Step, Record;
    if t == 0 {
      ResetIsTraced(p, data);
    } else {
      EveryRunIsTraced(p, data, ws, t - 1);
      TracedStep(p, RegistersAt(p, data, ws, t - 1), ws[t - 1], HistoryAt(p, data, ws, t - 1));
    }
  }
}
