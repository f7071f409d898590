/** The pipeline of a scheduled proc with a buffer on every input and every output, seen from its outer ports. */
module BufferedNodes {
  import opened Options
  import opened IrValues
  import opened ElasticPipeline
  import opened ProcOutputs
  import opened SequentialProc
  import opened ScheduledProc
  import opened ScheduledPipeline
  import opened BufferedPipeline
  import Buffers = HandshakeBuffers

  /** What arrives at the outer ports is in the domain. */
  ghost predicate ArrivalsWithin(p: NodeProc, s: Schedule, dom: Domain, c: Channels)
    requires Legal(p, s)
  {
    forall n, i, t | 0 <= n < |c.wires| && 0 <= i < |c.wires[n]| && i < |Receives(p, s, n)| && 0 <= t < |c.wires[n][i]|
                     && c.wires[n][i][t].fromValid ::
      dom.item(Receives(p, s, n)[i], c.wires[n][i][t].fromData)
  }

  /** So is what the buffers offer. */
  lemma OffersWithin(p: NodeProc, s: Schedule, oneShot: bool, dom: Domain, data: seq<Value>, ws: seq<Ports>, c: Channels, t: nat)
    requires Legal(p, s) && IsRun(Staged(p, s, s.length, oneShot), data, ws) && t < |ws|
    requires InputsBuffered(Staged(p, s, s.length, oneShot), data, ws, c) && ArrivalsWithin(p, s, dom, c)
    ensures PortsWithin(p, s, dom, ws[t])
  {
    hide StageOf, Receives, RegistersAt, InputReady, Buffers.ToValid, Buffers.ToData, Buffers.At;
    var q, w := Staged(p, s, s.length, oneShot), ws[t];
    forall n, i | 0 <= n < |w.valid| && n < |w.data| && 0 <= i < |w.valid[n]| && i < |w.data[n]|
                  && i < |Receives(p, s, n)| && w.valid[n][i]
      ensures dom.item(Receives(p, s, n)[i], w.data[n][i])
    {
      assert HasChannels(c, n, |q.stages[n].receives|, |ws|);
      assert InputConnected(q, RegistersAt(q, data, ws, t), w, n, i, BufferAt(c, n, i, t), c.wires[n][i][t]);
      Buffers.OfferedArrived(c.buffers[n][i], c.wires[n][i], t);
      var u :| 0 <= u < t + 1 && c.wires[n][i][u].fromValid && c.wires[n][i][u].fromData == w.data[n][i];
    }
  }

  /** What an outer output port of a scheduled proc has delivered, followed by what its buffer holds, is what its send
      node sends when the nodes run one after the other, iteration after iteration, on what the input buffers have
      delivered, followed, with one-shot logic, by at most the item of the firing that the stage is waiting to make. */
  lemma BufferedPipelineSendsWhatNodesSend(p: NodeProc, s: Schedule, oneShot: bool, dom: Domain,
                                           data: seq<Value>, ws: seq<Ports>, ins: Channels, outs: Channels,
                                           t: nat, n: nat, j: nat)
    requires Legal(p, s) && IsRun(Staged(p, s, s.length, oneShot), data, ws)
    requires InputsBuffered(Staged(p, s, s.length, oneShot), data, ws, ins)
    requires OutputsBuffered(Staged(p, s, s.length, oneShot), data, ws, outs)
    requires t < |ws| && n < s.length && j < |SendNodes(p, s, n)|
    requires !oneShot ==> IsDomain(p, dom) && NodesExclusive(p, s, dom) && ArrivalsWithin(p, s, dom, ins)
    ensures IsQueue(outs, n, j, t)
    ensures var q := Staged(p, s, s.length, oneShot);
            var r, h := RegistersAt(q, data, ws, t), HistoryAt(q, data, ws, t);
            var o := IterateNodes(p, Before(p, s, n + 1), |h.log[n]|, Items(p, s, oneShot, h));
            && o.Some?
            && Buffers.AllDelivered(outs.buffers[n][j], outs.wires[n][j], t) + Buffers.Contents(BufferAt(outs, n, j, t))
               == SentBy(p, SendNodes(p, s, n)[j], o.value.1) + GivenAhead(q, r, ws[t], n, j)
    ensures ItemsDelivered(Staged(p, s, s.length, oneShot), data, ws, ins, s.length - 1, t)
         == HistoryAt(Staged(p, s, s.length, oneShot), data, ws, t).consumed
  {
    hide RegistersAt, HistoryAt, UpstreamHolds, InputsBuffered, IsDomain, NodesExclusive, PortsWithin, ArrivalsWithin,
         OutputConnected, Items, IterateNodes, SentBy, SendNodes, StageOf, Before, Now, SendData, BufferAt, Empty,
         Buffers.AllDelivered, Buffers.AllAccepted, Buffers.Contents, ItemsDelivered;
    var q := Staged(p, s, s.length, oneShot);
    if oneShot {
      BufferedUpstreamHolds(q, data, ws, ins);
    } else {
      forall u | 0 <= u < |ws|
        ensures PortsWithin(p, s, dom, ws[u])
      {
        OffersWithin(p, s, oneShot, dom, data, ws, ins, u);
      }
    }
    PipelineSendsWhatNodesSend(p, s, oneShot, dom, data, ws, t, n, j);
    GivenToBuffer(q, data, ws, outs, n, j, t);
    ChannelIsQueue(outs, n, |q.stages[n].sends|, |ws|, j, t);
    ItemsAreConsumed(q, data, ws, ins, s.length - 1, t);
    var h := HistoryAt(q, data, ws, t);
    assert h.consumed[..s.length] == h.consumed;
  }
}
