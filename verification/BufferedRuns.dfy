/**
 A pipelined proc with buffers all around has no combinational loop: whatever its outer ports see, there is
 a run in which all wires agree. In each cycle the inputs are told from the buffers before them, and then
 the ready signals from the last stage to the first.
 */
module BufferedRuns {
  import opened IrValues
  import opened ElasticPipeline
  import opened BufferedPipeline
  import Buffers = HandshakeBuffers

  /** What is driven from outside, by stage, channel and cycle: valid and data of inputs, ready of outputs. */
  datatype Outside = Outside(valid: (nat, nat, nat) -> bool, data: (nat, nat, nat) -> Value, ready: (nat, nat, nat) -> bool)

  type Bank = seq<seq<Buffers.Buffer<Value>>>

  ghost predicate FitsInputs(p: Proc, b: Bank) {
    |b| == |p.stages| && forall n | 0 <= n < |p.stages| :: |b[n]| == |p.stages[n].receives|
  }

  ghost predicate FitsOutputs(p: Proc, b: Bank) {
    |b| == |p.stages| && forall n | 0 <= n < |p.stages| :: |b[n]| == |p.stages[n].sends|
  }

  /** The registers of the pipeline and of its buffers. */
  datatype System = System(r: Registers, ins: Bank, outs: Bank)

  ghost predicate SystemFits(p: Proc, y: System) {
    WellFormed(p) && RegistersFit(p, y.r) && FitsInputs(p, y.ins) && FitsOutputs(p, y.outs)
  }

  // ---------------------------------------------------------------------------
  // One cycle
  // ---------------------------------------------------------------------------

  function Offered(o: Outside, n: nat, i: nat, t: nat, ready: bool): Buffers.Wires<Value> {
    Buffers.Wires(o.valid(n, i, t), o.data(n, i, t), ready)
  }

  /** What a buffer offers does not depend on whether it is accepted. */
  lemma OfferIsFree(b: Buffers.Buffer<Value>, x: Buffers.Wires<Value>, ready: bool)
    ensures Buffers.ToValid(b, x) == Buffers.ToValid(b, x.(toReady := ready))
    ensures Buffers.ToData(b, x) == Buffers.ToData(b, x.(toReady := ready))
  {
  }

  /** The inputs as the buffers offer them, and no output ready. */
  ghost function Unready(p: Proc, y: System, o: Outside, t: nat): (w: Ports)
    requires SystemFits(p, y)
    ensures PortsFit(p, w)
  {
    var N := |p.stages|;
    Ports(
      seq(N, n requires 0 <= n < N => seq(|p.stages[n].receives|, i requires 0 <= i < |p.stages[n].receives| =>
                                            Buffers.ToValid(y.ins[n][i], Offered(o, n, i, t, false)))),
      seq(N, n requires 0 <= n < N => seq(|p.stages[n].receives|, i requires 0 <= i < |p.stages[n].receives| =>
                                            Buffers.ToData(y.ins[n][i], Offered(o, n, i, t, false)))),
      seq(N, n requires 0 <= n < N => seq(|p.stages[n].sends|, _ => false)))
  }

  /** The wires before the buffer of send `j`. */
  ghost function Sent(p: Proc, y: System, w: Ports, o: Outside, t: nat, n: nat, j: nat): Buffers.Wires<Value>
    requires Fits(p, y.r, w) && n < |p.stages| && j < |p.stages[n].sends|
  {
    Buffers.Wires(OutputValid(p, y.r, w, n, j), SendData(p.stages[n], Now(p, y.r, w, n), j), o.ready(n, j, t))
  }

  ghost function ReadyOf(p: Proc, y: System, w: Ports, o: Outside, t: nat, n: nat): (ready: seq<bool>)
    requires SystemFits(p, y) && PortsFit(p, w) && n < |p.stages|
    ensures |ready| == |p.stages[n].sends|
  {
    seq(|p.stages[n].sends|, j requires 0 <= j < |p.stages[n].sends| =>
          Buffers.FromReady(y.outs[n][j], Sent(p, y, w, o, t, n, j)))
  }

  /** The ready signals of the stages from `m` on settled. */
  ghost function Settled(p: Proc, y: System, o: Outside, t: nat, m: nat): (w: Ports)
    requires SystemFits(p, y) && m <= |p.stages|
    ensures PortsFit(p, w)
    decreases |p.stages| - m
  {
    if m == |p.stages| then Unready(p, y, o, t)
    else
      var w := Settled(p, y, o, t, m + 1);
      w.(ready := w.ready[m := ReadyOf(p, y, w, o, t, m)])
  }

  /** The two differ at most in the ready signals of the stages up to `n`. */
  ghost predicate SameAfter(p: Proc, w: Ports, w': Ports, n: nat)
    requires PortsFit(p, w) && PortsFit(p, w')
  {
    w.valid == w'.valid && w.data == w'.data && forall m | n < m < |p.stages| :: w.ready[m] == w'.ready[m]
  }

  lemma {:induction false} OpenSame(p: Proc, r: Registers, w: Ports, w': Ports, n: nat)
    requires Fits(p, r, w) && PortsFit(p, w') && n < |p.stages| && SameAfter(p, w, w', n)
    ensures NextStageOpen(p, r, w, n) == NextStageOpen(p, r, w', n)
    decreases |p.stages| - n
  {
    if n < |p.stages| - 1 {
      OpenSame(p, r, w, w', n + 1);
      DoneSame(p, r, w, w', n + 1);
    }
  }

  lemma DoneSame(p: Proc, r: Registers, w: Ports, w': Ports, n: nat)
    requires Fits(p, r, w) && PortsFit(p, w') && n < |p.stages|
    requires w.valid == w'.valid && w.data == w'.data && w.ready[n] == w'.ready[n]
    ensures Now(p, r, w, n) == Now(p, r, w', n)
    ensures Done(p, r, w, n) == Done(p, r, w', n)
  {
    hide Sends, Active;
    assert Now(p, r, w, n) == Now(p, r, w', n);
    assert forall j | 0 <= j < |p.stages[n].sends| :: ReadySeen(p, r, w, n, j) == ReadySeen(p, r, w', n, j);
    hide Now;
  }

  /** What a stage offers does not depend on whether it is accepted there or before. */
  lemma SentSame(p: Proc, y: System, w: Ports, w': Ports, o: Outside, t: nat, n: nat, j: nat)
    requires Fits(p, y.r, w) && PortsFit(p, w') && n < |p.stages| && j < |p.stages[n].sends| && SameAfter(p, w, w', n)
    ensures Sent(p, y, w, o, t, n, j) == Sent(p, y, w', o, t, n, j)
  {
    OpenSame(p, y.r, w, w', n);
    hide NextStageOpen, Sends, Active, SendData;
    assert Now(p, y.r, w, n) == Now(p, y.r, w', n);
    hide Now;
  }

  lemma ReadySame(p: Proc, y: System, w: Ports, w': Ports, o: Outside, t: nat, n: nat)
    requires SystemFits(p, y) && PortsFit(p, w) && PortsFit(p, w') && n < |p.stages| && SameAfter(p, w, w', n)
    ensures ReadyOf(p, y, w, o, t, n) == ReadyOf(p, y, w', o, t, n)
  {
    hide Sent, Buffers.FromReady, SameAfter;
    forall j | 0 <= j < |p.stages[n].sends|
      ensures Sent(p, y, w, o, t, n, j) == Sent(p, y, w', o, t, n, j)
    {
      SentSame(p, y, w, w', o, t, n, j);
    }
  }

  /** Settled signals are what the buffers make of them. */
  lemma {:induction false} SettledAgrees(p: Proc, y: System, o: Outside, t: nat, m: nat, n: nat)
    requires SystemFits(p, y) && m <= n < |p.stages|
    ensures var w := Settled(p, y, o, t, m); w.ready[n] == ReadyOf(p, y, w, o, t, n)
    decreases |p.stages| - m
  {
    hide ReadyOf, Unready;
    var w', w := Settled(p, y, o, t, m + 1), Settled(p, y, o, t, m);
    assert SameAfter(p, w', w, n);
    ReadySame(p, y, w', w, o, t, n);
    if m < n {
      SettledAgrees(p, y, o, t, m + 1, n);
    }
  }

  lemma {:induction false} InputsKept(p: Proc, y: System, o: Outside, t: nat, m: nat)
    requires SystemFits(p, y) && m <= |p.stages|
    ensures var w, w' := Settled(p, y, o, t, m), Unready(p, y, o, t); w.valid == w'.valid && w.data == w'.data
    decreases |p.stages| - m
  {
    hide ReadyOf, Unready;
    if m < |p.stages| {
      InputsKept(p, y, o, t, m + 1);
    }
  }

  /** The ports in a cycle. */
  ghost function PortsNow(p: Proc, y: System, o: Outside, t: nat): (w: Ports)
    requires SystemFits(p, y)
    ensures PortsFit(p, w)
  {
    Settled(p, y, o, t, 0)
  }

  /** The wires before and after the buffer of receive `i`. */
  ghost function Arriving(p: Proc, y: System, w: Ports, o: Outside, t: nat, n: nat, i: nat): Buffers.Wires<Value>
    requires Fits(p, y.r, w) && n < |p.stages| && i < |p.stages[n].receives|
  {
    Offered(o, n, i, t, InputReady(p, y.r, w, n, i))
  }

  lemma InputAgrees(p: Proc, y: System, o: Outside, t: nat, n: nat, i: nat)
    requires SystemFits(p, y) && n < |p.stages| && i < |p.stages[n].receives|
    ensures var w := PortsNow(p, y, o, t);
            InputConnected(p, y.r, w, n, i, y.ins[n][i], Arriving(p, y, w, o, t, n, i))
  {
    hide InputReady, Settled, Buffers.ToValid, Buffers.ToData;
    var w := PortsNow(p, y, o, t);
    InputsKept(p, y, o, t, 0);
    OfferIsFree(y.ins[n][i], Offered(o, n, i, t, false), InputReady(p, y.r, w, n, i));
    assert w.valid[n][i] == Unready(p, y, o, t).valid[n][i] && w.data[n][i] == Unready(p, y, o, t).data[n][i];
  }

  lemma OutputAgrees(p: Proc, y: System, o: Outside, t: nat, n: nat, j: nat)
    requires SystemFits(p, y) && n < |p.stages| && j < |p.stages[n].sends|
    ensures var w := PortsNow(p, y, o, t);
            OutputConnected(p, y.r, w, n, j, y.outs[n][j], Sent(p, y, w, o, t, n, j))
  {
    hide OutputValid, SendData, Now, Settled, Buffers.FromReady;
    SettledAgrees(p, y, o, t, 0, n);
    var w := PortsNow(p, y, o, t);
    assert w.ready[n][j] == ReadyOf(p, y, w, o, t, n)[j];
  }

  // ---------------------------------------------------------------------------
  // Runs
  // ---------------------------------------------------------------------------

  ghost function Next(p: Proc, y: System, o: Outside, t: nat): (y': System)
    requires SystemFits(p, y)
    ensures SystemFits(p, y')
  {
    var w, N := PortsNow(p, y, o, t), |p.stages|;
    System(
      Step(p, y.r, w),
      seq(N, n requires 0 <= n < N => seq(|p.stages[n].receives|, i requires 0 <= i < |p.stages[n].receives| =>
                                            Buffers.Tick(y.ins[n][i], Arriving(p, y, w, o, t, n, i)))),
      seq(N, n requires 0 <= n < N => seq(|p.stages[n].sends|, j requires 0 <= j < |p.stages[n].sends| =>
                                            Buffers.Tick(y.outs[n][j], Sent(p, y, w, o, t, n, j)))))
  }

  ghost function SystemAt(p: Proc, y: System, o: Outside, t: nat): (y': System)
    requires SystemFits(p, y)
    ensures SystemFits(p, y')
  {
    if t == 0 then y else Next(p, SystemAt(p, y, o, t - 1), o, t - 1)
  }

  ghost function PortsAt(p: Proc, y: System, o: Outside, t: nat): (w: Ports)
    requires SystemFits(p, y)
    ensures PortsFit(p, w)
  {
    PortsNow(p, SystemAt(p, y, o, t), o, t)
  }

  ghost function AllPorts(p: Proc, y: System, o: Outside, cycles: nat): (ws: seq<Ports>)
    requires SystemFits(p, y)
    ensures |ws| == cycles && forall t | 0 <= t < cycles :: ws[t] == PortsAt(p, y, o, t) && PortsFit(p, ws[t])
  {
    seq(cycles, t requires 0 <= t < cycles => PortsAt(p, y, o, t))
  }

  ghost function ArrivingAt(p: Proc, y: System, o: Outside, n: nat, i: nat, t: nat): Buffers.Wires<Value>
    requires SystemFits(p, y) && n < |p.stages| && i < |p.stages[n].receives|
  {
    Arriving(p, SystemAt(p, y, o, t), PortsAt(p, y, o, t), o, t, n, i)
  }

  ghost function SentAt(p: Proc, y: System, o: Outside, n: nat, j: nat, t: nat): Buffers.Wires<Value>
    requires SystemFits(p, y) && n < |p.stages| && j < |p.stages[n].sends|
  {
    Sent(p, SystemAt(p, y, o, t), PortsAt(p, y, o, t), o, t, n, j)
  }

  ghost function InputChannels(p: Proc, y: System, o: Outside, cycles: nat): (c: Channels)
    requires SystemFits(p, y)
    ensures c.buffers == y.ins && |c.wires| == |p.stages|
    ensures forall n | 0 <= n < |p.stages| :: |c.wires[n]| == |p.stages[n].receives|
    ensures forall n, i | 0 <= n < |p.stages| && 0 <= i < |p.stages[n].receives| :: |c.wires[n][i]| == cycles
  {
    Channels(y.ins,
             seq(|p.stages|, n requires 0 <= n < |p.stages| =>
                   seq(|p.stages[n].receives|, i requires 0 <= i < |p.stages[n].receives| =>
                         seq(cycles, t requires 0 <= t < cycles => ArrivingAt(p, y, o, n, i, t)))))
  }

  ghost function OutputChannels(p: Proc, y: System, o: Outside, cycles: nat): (c: Channels)
    requires SystemFits(p, y)
    ensures c.buffers == y.outs && |c.wires| == |p.stages|
    ensures forall n | 0 <= n < |p.stages| :: |c.wires[n]| == |p.stages[n].sends|
    ensures forall n, j | 0 <= n < |p.stages| && 0 <= j < |p.stages[n].sends| :: |c.wires[n][j]| == cycles
  {
    Channels(y.outs,
             seq(|p.stages|, n requires 0 <= n < |p.stages| =>
                   seq(|p.stages[n].sends|, j requires 0 <= j < |p.stages[n].sends| =>
                         seq(cycles, t requires 0 <= t < cycles => SentAt(p, y, o, n, j, t)))))
  }

  lemma {:induction false} RegistersAgree(p: Proc, data: seq<Value>, y: System, o: Outside, cycles: nat, t: nat)
    requires SystemFits(p, y) && |data| == |p.stages| - 1 && y.r == AfterReset(p, data) && t <= cycles
    ensures RegistersAt(p, data, AllPorts(p, y, o, cycles), t) == SystemAt(p, y, o, t).r
  {
    hide Step, PortsNow, Arriving, Sent, Buffers.Tick, AfterReset;
    if t > 0 {
      RegistersAgree(p, data, y, o, cycles, t - 1);
    }
  }

  lemma InputWire(p: Proc, y: System, o: Outside, cycles: nat, n: nat, i: nat, t: nat)
    requires SystemFits(p, y) && n < |p.stages| && i < |p.stages[n].receives| && t < cycles
    ensures InputChannels(p, y, o, cycles).wires[n][i][t] == ArrivingAt(p, y, o, n, i, t)
  {
    hide ArrivingAt;
  }

  lemma InputTicks(p: Proc, y: System, o: Outside, n: nat, i: nat, t: nat)
    requires SystemFits(p, y) && n < |p.stages| && i < |p.stages[n].receives|
    ensures SystemAt(p, y, o, t + 1).ins[n][i] == Buffers.Tick(SystemAt(p, y, o, t).ins[n][i], ArrivingAt(p, y, o, n, i, t))
  {
    hide Step, PortsNow, Arriving, Sent, Buffers.Tick;
  }

  lemma {:induction false} InputBufferAgrees(p: Proc, y: System, o: Outside, cycles: nat, n: nat, i: nat, t: nat)
    requires SystemFits(p, y) && n < |p.stages| && i < |p.stages[n].receives| && t <= cycles
    ensures BufferAt(InputChannels(p, y, o, cycles), n, i, t) == SystemAt(p, y, o, t).ins[n][i]
  {
    hide Next, PortsAt, Arriving, Sent, Buffers.Tick, InputChannels;
    if t > 0 {
      InputBufferAgrees(p, y, o, cycles, n, i, t - 1);
      InputWire(p, y, o, cycles, n, i, t - 1);
      InputTicks(p, y, o, n, i, t - 1);
    }
  }

  lemma OutputWire(p: Proc, y: System, o: Outside, cycles: nat, n: nat, j: nat, t: nat)
    requires SystemFits(p, y) && n < |p.stages| && j < |p.stages[n].sends| && t < cycles
    ensures OutputChannels(p, y, o, cycles).wires[n][j][t] == SentAt(p, y, o, n, j, t)
  {
    hide SentAt;
  }

  lemma OutputTicks(p: Proc, y: System, o: Outside, n: nat, j: nat, t: nat)
    requires SystemFits(p, y) && n < |p.stages| && j < |p.stages[n].sends|
    ensures SystemAt(p, y, o, t + 1).outs[n][j] == Buffers.Tick(SystemAt(p, y, o, t).outs[n][j], SentAt(p, y, o, n, j, t))
  {
    hide Step, PortsNow, Arriving, Sent, Buffers.Tick;
  }

  lemma {:induction false} OutputBufferAgrees(p: Proc, y: System, o: Outside, cycles: nat, n: nat, j: nat, t: nat)
    requires SystemFits(p, y) && n < |p.stages| && j < |p.stages[n].sends| && t <= cycles
    ensures BufferAt(OutputChannels(p, y, o, cycles), n, j, t) == SystemAt(p, y, o, t).outs[n][j]
  {
    hide Next, PortsAt, Arriving, Sent, Buffers.Tick, OutputChannels;
    if t > 0 {
      OutputBufferAgrees(p, y, o, cycles, n, j, t - 1);
      OutputWire(p, y, o, cycles, n, j, t - 1);
      OutputTicks(p, y, o, n, j, t - 1);
    }
  }

  ghost predicate AllEmpty(b: Bank) {
    forall n, i | 0 <= n < |b| && 0 <= i < |b[n]| :: Empty(b[n][i])
  }

  /** The outer sides of the buffers see what is driven from outside. */
  ghost predicate DrivenFrom(o: Outside, ins: Channels, outs: Channels) {
    && (forall n: nat, i: nat, t: nat | n < |ins.wires| && i < |ins.wires[n]| && t < |ins.wires[n][i]| ::
          ins.wires[n][i][t].fromValid == o.valid(n, i, t) && ins.wires[n][i][t].fromData == o.data(n, i, t))
    && (forall n: nat, j: nat, t: nat | n < |outs.wires| && j < |outs.wires[n]| && t < |outs.wires[n][j]| ::
          outs.wires[n][j][t].toReady == o.ready(n, j, t))
  }

  /** Whatever is driven from outside, for any number of cycles there is a run in which all wires agree. */
  lemma BufferedRunExists(p: Proc, data: seq<Value>, ins: Bank, outs: Bank, o: Outside, cycles: nat)
    returns (ws: seq<Ports>, i: Channels, j: Channels)
    requires WellFormed(p) && |data| == |p.stages| - 1
    requires FitsInputs(p, ins) && FitsOutputs(p, outs) && AllEmpty(ins) && AllEmpty(outs)
    ensures IsRun(p, data, ws) && |ws| == cycles && i.buffers == ins && j.buffers == outs && DrivenFrom(o, i, j)
    ensures InputsBuffered(p, data, ws, i) && OutputsBuffered(p, data, ws, j)
  {
    hide AfterReset, SystemAt, PortsAt, Arriving, Sent, InputConnected, OutputConnected, Empty, RegistersAt, BufferAt;
    var y := System(AfterReset(p, data), ins, outs);
    ws := AllPorts(p, y, o, cycles);
    i := InputChannels(p, y, o, cycles);
    j := OutputChannels(p, y, o, cycles);
    InputsAgree(p, data, y, o, cycles);
    OutputsAgree(p, data, y, o, cycles);
    OuterAgrees(p, y, o, cycles);
  }

  lemma OuterAgrees(p: Proc, y: System, o: Outside, cycles: nat)
    requires SystemFits(p, y)
    ensures DrivenFrom(o, InputChannels(p, y, o, cycles), OutputChannels(p, y, o, cycles))
  {
    hide SystemAt, PortsAt, InputReady, OutputValid, SendData, Now;
  }

  lemma InputsAgree(p: Proc, data: seq<Value>, y: System, o: Outside, cycles: nat)
    requires SystemFits(p, y) && |data| == |p.stages| - 1 && y.r == AfterReset(p, data) && AllEmpty(y.ins)
    ensures InputsBuffered(p, data, AllPorts(p, y, o, cycles), InputChannels(p, y, o, cycles))
  {
    hide AfterReset, SystemAt, PortsNow, Arriving, Sent, InputConnected, Empty, RegistersAt, BufferAt;
    var ws, c := AllPorts(p, y, o, cycles), InputChannels(p, y, o, cycles);
    forall n, i, t | 0 <= n < |p.stages| && 0 <= i < |p.stages[n].receives| && 0 <= t < |ws|
      ensures InputConnected(p, RegistersAt(p, data, ws, t), ws[t], n, i, BufferAt(c, n, i, t), c.wires[n][i][t])
    {
      RegistersAgree(p, data, y, o, cycles, t);
      InputBufferAgrees(p, y, o, cycles, n, i, t);
      InputWire(p, y, o, cycles, n, i, t);
      InputAgrees(p, SystemAt(p, y, o, t), o, t, n, i);
    }
  }

  lemma OutputsAgree(p: Proc, data: seq<Value>, y: System, o: Outside, cycles: nat)
    requires SystemFits(p, y) && |data| == |p.stages| - 1 && y.r == AfterReset(p, data) && AllEmpty(y.outs)
    ensures OutputsBuffered(p, data, AllPorts(p, y, o, cycles), OutputChannels(p, y, o, cycles))
  {
    hide AfterReset, SystemAt, PortsNow, Arriving, Sent, OutputConnected, Empty, RegistersAt, BufferAt;
    var ws, c := AllPorts(p, y, o, cycles), OutputChannels(p, y, o, cycles);
    forall n, j, t | 0 <= n < |p.stages| && 0 <= j < |p.stages[n].sends| && 0 <= t < |ws|
      ensures OutputConnected(p, RegistersAt(p, data, ws, t), ws[t], n, j, BufferAt(c, n, j, t), c.wires[n][j][t])
    {
      RegistersAgree(p, data, y, o, cycles, t);
      OutputBufferAgrees(p, y, o, cycles, n, j, t);
      OutputWire(p, y, o, cycles, n, j, t);
      OutputAgrees(p, SystemAt(p, y, o, t), o, t, n, j);
    }
  }
}
