/**
 A pipelined proc with a buffer on every input and every output: what its outer ports deliver is
 what the sequential proc sends on what its outer ports accept.
 */
module BufferedPipeline {
  import opened IrValues
  import opened Options
  import opened ElasticPipeline
  import opened ProcOutputs
  import opened SequentialProc
  import Buffers = HandshakeBuffers

  /** The buffers of all channels of one direction, after reset, and the wires on both sides of each in every cycle, by
      stage and channel. */
  datatype Channels = Channels(buffers: seq<seq<Buffers.Buffer<Value>>>, wires: seq<seq<seq<Buffers.Wires<Value>>>>)

  ghost predicate Empty(b: Buffers.Buffer<Value>) {
    Buffers.Consistent(b) && Buffers.Contents(b) == []
  }

  ghost predicate HasChannels(c: Channels, n: nat, size: nat, cycles: nat) {
    && n < |c.buffers| && n < |c.wires|
    && |c.buffers[n]| == |c.wires[n]| == size
    && forall i | 0 <= i < size :: Empty(c.buffers[n][i]) && |c.wires[n][i]| == cycles
  }

  ghost function BufferAt(c: Channels, n: nat, i: nat, t: nat): Buffers.Buffer<Value>
    requires n < |c.buffers| && n < |c.wires| && i < |c.buffers[n]| == |c.wires[n]| && t <= |c.wires[n][i]|
  {
    Buffers.At(c.buffers[n][i], c.wires[n][i], t)
  }

  /** Receive `i` of stage `n` sees in cycle `t` what the buffer offers, and the buffer sees its ready. */
  ghost predicate InputConnected(p: Proc, r: Registers, w: Ports, n: nat, i: nat,
                                 b: Buffers.Buffer<Value>, x: Buffers.Wires<Value>)
    requires Fits(p, r, w) && n < |p.stages| && i < |p.stages[n].receives|
  {
    && w.valid[n][i] == Buffers.ToValid(b, x)
    && w.data[n][i] == Buffers.ToData(b, x)
    && x.toReady == InputReady(p, r, w, n, i)
  }

  /** The buffer sees in cycle `t` what send `j` of stage `n` offers, and the send sees its ready. */
  ghost predicate OutputConnected(p: Proc, r: Registers, w: Ports, n: nat, j: nat,
                                  b: Buffers.Buffer<Value>, x: Buffers.Wires<Value>)
    requires Fits(p, r, w) && n < |p.stages| && j < |p.stages[n].sends|
  {
    && x.fromValid == OutputValid(p, r, w, n, j)
    && x.fromData == SendData(p.stages[n], Now(p, r, w, n), j)
    && w.ready[n][j] == Buffers.FromReady(b, x)
  }

  ghost predicate InputsBuffered(p: Proc, data: seq<Value>, ws: seq<Ports>, c: Channels)
    requires IsRun(p, data, ws)
  {
    && |c.buffers| == |c.wires| == |p.stages|
    && (forall n | 0 <= n < |p.stages| :: HasChannels(c, n, |p.stages[n].receives|, |ws|))
    && forall n, i, t | 0 <= n < |p.stages| && 0 <= i < |p.stages[n].receives| && 0 <= t < |ws| ::
         InputConnected(p, RegistersAt(p, data, ws, t), ws[t], n, i, BufferAt(c, n, i, t), c.wires[n][i][t])
  }

  ghost predicate OutputsBuffered(p: Proc, data: seq<Value>, ws: seq<Ports>, c: Channels)
    requires IsRun(p, data, ws)
  {
    && |c.buffers| == |c.wires| == |p.stages|
    && (forall n | 0 <= n < |p.stages| :: HasChannels(c, n, |p.stages[n].sends|, |ws|))
    && forall n, j, t | 0 <= n < |p.stages| && 0 <= j < |p.stages[n].sends| && 0 <= t < |ws| ::
         OutputConnected(p, RegistersAt(p, data, ws, t), ws[t], n, j, BufferAt(c, n, j, t), c.wires[n][j][t])
  }

  // ---------------------------------------------------------------------------
  // Inputs
  // ---------------------------------------------------------------------------

  /** With buffered inputs the pipeline's upstream holds, so the one-shot guarantee needs nothing of the environment. */
  lemma BufferedUpstreamHolds(p: Proc, data: seq<Value>, ws: seq<Ports>, c: Channels)
    requires IsRun(p, data, ws) && InputsBuffered(p, data, ws, c)
    ensures UpstreamHolds(p, data, ws)
  {
    hide InputReady, RegistersAt, InputConnected;
    forall t | 0 <= t < |ws| - 1
      ensures Holds(p, RegistersAt(p, data, ws, t), ws[t], ws[t + 1])
    {
      var r, r' := RegistersAt(p, data, ws, t), RegistersAt(p, data, ws, t + 1);
      forall n, i | 0 <= n < |p.stages| && 0 <= i < |p.stages[n].receives|
                    && ws[t].valid[n][i] && !InputReady(p, r, ws[t], n, i)
        ensures ws[t + 1].valid[n][i] && ws[t + 1].data[n][i] == ws[t].data[n][i]
      {
        assert HasChannels(c, n, |p.stages[n].receives|, |ws|);
        assert InputConnected(p, r', ws[t + 1], n, i, BufferAt(c, n, i, t + 1), c.wires[n][i][t + 1]);
        Buffers.BufferIsQueue(c.buffers[n][i], c.wires[n][i], t);
        ConnectedHolds(p, r, r', ws[t], ws[t + 1], n, i, BufferAt(c, n, i, t), c.wires[n][i][t], c.wires[n][i][t + 1]);
      }
    }
  }

  lemma ConnectedHolds(p: Proc, r: Registers, r': Registers, w: Ports, w': Ports, n: nat, i: nat,
                       b: Buffers.Buffer<Value>, x: Buffers.Wires<Value>, x': Buffers.Wires<Value>)
    requires Fits(p, r, w) && Fits(p, r', w') && n < |p.stages| && i < |p.stages[n].receives|
    requires InputConnected(p, r, w, n, i, b, x) && InputConnected(p, r', w', n, i, Buffers.Tick(b, x), x')
    requires Buffers.Consistent(b) && w.valid[n][i] && !InputReady(p, r, w, n, i)
    ensures w'.valid[n][i] && w'.data[n][i] == w.data[n][i]
  {
    hide InputReady, Buffers.Tick, Buffers.ToValid, Buffers.ToData;
    Buffers.BufferHolds(b, x, x');
  }

  /** What a stage has taken from a receive is what the buffer has delivered. */
  lemma {:induction false} TakenFromBuffer(p: Proc, data: seq<Value>, ws: seq<Ports>, c: Channels, n: nat, i: nat, t: nat)
    requires IsRun(p, data, ws) && InputsBuffered(p, data, ws, c)
    requires n < |p.stages| && i < |p.stages[n].receives| && t <= |ws|
    ensures HasChannels(c, n, |p.stages[n].receives|, |ws|)
    ensures HistoryAt(p, data, ws, t).consumed[n][i] == Buffers.AllDelivered(c.buffers[n][i], c.wires[n][i], t)
  {
    hide InputReady, RegistersAt, Buffers.ToValid, Buffers.ToData, Buffers.Tick, Log, ElasticPipeline.Delivered, Empty;
    assert HasChannels(c, n, |p.stages[n].receives|, |ws|);
    if t > 0 {
      TakenFromBuffer(p, data, ws, c, n, i, t - 1);
      assert InputConnected(p, RegistersAt(p, data, ws, t - 1), ws[t - 1], n, i, BufferAt(c, n, i, t - 1), c.wires[n][i][t - 1]);
    }
  }

  // ---------------------------------------------------------------------------
  // Outputs
  // ---------------------------------------------------------------------------

  /** What a stage has given to a send is what the buffer has accepted. */
  lemma {:induction false} GivenToBuffer(p: Proc, data: seq<Value>, ws: seq<Ports>, c: Channels, n: nat, j: nat, t: nat)
    requires IsRun(p, data, ws) && OutputsBuffered(p, data, ws, c)
    requires n < |p.stages| && j < |p.stages[n].sends| && t <= |ws|
    ensures HasChannels(c, n, |p.stages[n].sends|, |ws|)
    ensures HistoryAt(p, data, ws, t).delivered[n][j] == Buffers.AllAccepted(c.buffers[n][j], c.wires[n][j], t)
  {
    hide OutputValid, RegistersAt, Now, SendData, Buffers.FromReady, Buffers.Tick, Log, Consumed, Empty;
    assert HasChannels(c, n, |p.stages[n].sends|, |ws|);
    if t > 0 {
      GivenToBuffer(p, data, ws, c, n, j, t - 1);
      assert OutputConnected(p, RegistersAt(p, data, ws, t - 1), ws[t - 1], n, j, BufferAt(c, n, j, t - 1), c.wires[n][j][t - 1]);
    }
  }

  // ---------------------------------------------------------------------------
  // The whole
  // ---------------------------------------------------------------------------

  /** What the buffers of the inputs of stages `0` to `n` have delivered. */
  ghost function ItemsDelivered(p: Proc, data: seq<Value>, ws: seq<Ports>, c: Channels, n: nat, t: nat): (q: seq<seq<seq<Value>>>)
    requires IsRun(p, data, ws) && InputsBuffered(p, data, ws, c) && n < |p.stages| && t <= |ws|
    ensures |q| == n + 1 && forall m | 0 <= m <= n :: |q[m]| == |p.stages[m].receives|
  {
    seq(n + 1, m requires 0 <= m <= n =>
          assert HasChannels(c, m, |p.stages[m].receives|, |ws|);
          seq(|p.stages[m].receives|, i requires 0 <= i < |p.stages[m].receives| =>
                Buffers.AllDelivered(c.buffers[m][i], c.wires[m][i], t)))
  }

  lemma ItemsAreConsumed(p: Proc, data: seq<Value>, ws: seq<Ports>, c: Channels, n: nat, t: nat)
    requires IsRun(p, data, ws) && InputsBuffered(p, data, ws, c) && n < |p.stages| && t <= |ws|
    ensures ItemsDelivered(p, data, ws, c, n, t) == HistoryAt(p, data, ws, t).consumed[..n + 1]
  {
    hide HistoryAt, InputConnected, RegistersAt, Buffers.AllDelivered;
    var q, consumed := ItemsDelivered(p, data, ws, c, n, t), HistoryAt(p, data, ws, t).consumed;
    forall m | 0 <= m <= n
      ensures q[m] == consumed[m]
    {
      forall i | 0 <= i < |p.stages[m].receives|
        ensures q[m][i] == consumed[m][i]
      {
        TakenFromBuffer(p, data, ws, c, m, i, t);
      }
    }
  }

  /** What the sequential proc does, up to stage `n`, on what the input buffers have delivered. */
  ghost function SequentialRowsOnBuffers(p: Proc, data: seq<Value>, ws: seq<Ports>, c: Channels, n: nat, t: nat)
    : Option<(Machine, seq<seq<Firing>>)>
    requires IsRun(p, data, ws) && InputsBuffered(p, data, ws, c) && n < |p.stages| && t <= |ws|
  {
    Iterate(Cut(p, n), |HistoryAt(p, data, ws, t).log[n]|,
            Machine(p.init[..n + 1], ItemsDelivered(p, data, ws, c, n, t)))
  }

  /** What a channel's buffer has accepted is what it has delivered, followed by what it holds. */
  ghost predicate IsQueue(c: Channels, n: nat, i: nat, t: nat) {
    && n < |c.buffers| && n < |c.wires| && i < |c.buffers[n]| == |c.wires[n]| && t <= |c.wires[n][i]|
    && Buffers.AllAccepted(c.buffers[n][i], c.wires[n][i], t)
       == Buffers.AllDelivered(c.buffers[n][i], c.wires[n][i], t) + Buffers.Contents(BufferAt(c, n, i, t))
  }

  lemma ChannelIsQueue(c: Channels, n: nat, size: nat, cycles: nat, i: nat, t: nat)
    requires HasChannels(c, n, size, cycles) && i < size && t <= cycles
    ensures IsQueue(c, n, i, t)
  {
    Buffers.BufferIsQueue(c.buffers[n][i], c.wires[n][i], t);
  }

  /** With one-shot logic, the item that send `j` has already given for the firing that its stage is waiting to make. */
  ghost function GivenAhead(p: Proc, r: Registers, w: Ports, n: nat, j: nat): seq<Value>
    requires Fits(p, r, w) && n < |p.stages| && j < |p.stages[n].sends|
  {
    if p.oneShot && r.sent[n][j] then [SendData(p.stages[n], Now(p, r, w, n), j)] else []
  }

  /** What the pipeline has given to a send is what the sequential proc sends on what the input buffers delivered. */
  lemma GivenOnBuffers(p: Proc, data: seq<Value>, ws: seq<Ports>, c: Channels, t: nat, n: nat, j: nat)
    requires IsRun(p, data, ws) && InputsBuffered(p, data, ws, c)
    requires t < |ws| && n < |p.stages| && j < |p.stages[n].sends| && (p.oneShot || SendsExclusive(p, data, ws))
    ensures var o := SequentialRowsOnBuffers(p, data, ws, c, n, t);
            && o.Some?
            && HistoryAt(p, data, ws, t).delivered[n][j]
               == Given(p.stages[n], Column(o.value.1, n), j) + GivenAhead(p, RegistersAt(p, data, ws, t), ws[t], n, j)
  {
    hide RegistersAt, HistoryAt, UpstreamHolds, SendsExclusive, Iterate, InputsBuffered, Given, Now, SendData, Sends, Waiting,
         ItemsDelivered;
    if p.oneShot {
      BufferedUpstreamHolds(p, data, ws, c);
    }
    PipelineSendsWhatProcSends(p, data, ws, t, n, j);
    ItemsAreConsumed(p, data, ws, c, n, t);
  }

  /** What an outer output port has delivered, followed by what its buffer holds, is what the sequential proc sends on
      what the input buffers have delivered, followed, with one-shot logic, by at most the item of the firing that the
      stage is waiting to make; and what an outer input port has accepted is what its buffer has delivered, followed by
      what it holds. */
  lemma BufferedPipelineSendsWhatProcSends(p: Proc, data: seq<Value>, ws: seq<Ports>, ins: Channels, outs: Channels,
                                           t: nat, n: nat, j: nat)
    requires IsRun(p, data, ws) && InputsBuffered(p, data, ws, ins) && OutputsBuffered(p, data, ws, outs)
    requires t < |ws| && n < |p.stages| && j < |p.stages[n].sends| && (p.oneShot || SendsExclusive(p, data, ws))
    ensures IsQueue(outs, n, j, t)
    ensures var o := SequentialRowsOnBuffers(p, data, ws, ins, n, t);
            && o.Some?
            && Buffers.AllDelivered(outs.buffers[n][j], outs.wires[n][j], t) + Buffers.Contents(BufferAt(outs, n, j, t))
               == Given(p.stages[n], Column(o.value.1, n), j) + GivenAhead(p, RegistersAt(p, data, ws, t), ws[t], n, j)
    ensures forall m, i | 0 <= m < |p.stages| && 0 <= i < |p.stages[m].receives| :: IsQueue(ins, m, i, t)
  {
    hide RegistersAt, HistoryAt, SendsExclusive, InputConnected, OutputConnected, Given, GivenAhead, SequentialRowsOnBuffers,
         Column, Buffers.AllDelivered, Buffers.AllAccepted, Buffers.Contents, BufferAt, Empty;
    GivenOnBuffers(p, data, ws, ins, t, n, j);
    GivenToBuffer(p, data, ws, outs, n, j, t);
    ChannelIsQueue(outs, n, |p.stages[n].sends|, |ws|, j, t);
    forall m, i | 0 <= m < |p.stages| && 0 <= i < |p.stages[m].receives|
      ensures IsQueue(ins, m, i, t)
    {
      ChannelIsQueue(ins, m, |p.stages[m].receives|, |ws|, i, t);
    }
  }
}
