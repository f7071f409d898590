/**
 The three kinds of buffer that block_conversion.cc can insert on a ready/valid channel:
 a plain flop, a skid buffer and a zero-latency buffer. Each is a little circuit; over every run
 each is a queue, and each holds what it offers until it is accepted.
 */
module HandshakeBuffers {

  /** The registers of a buffer. */
  datatype Buffer<T> =
    | Flop(valid: bool, data: T)
    | Skid(valid: bool, data: T, skidValid: bool, skidData: T)
    | ZeroLatency(skidValid: bool, skidData: T)

  /** What the two sides drive in one cycle. */
  datatype Wires<T> = Wires(fromValid: bool, fromData: T, toReady: bool)

  predicate ToValid<T>(b: Buffer<T>, w: Wires<T>) {
    match b
    case Flop(valid, _) => valid
    case Skid(valid, _, skidValid, _) => valid || skidValid
    case ZeroLatency(skidValid, _) => w.fromValid || skidValid
  }

  function ToData<T>(b: Buffer<T>, w: Wires<T>): T {
    match b
    case Flop(_, data) => data
    case Skid(_, data, skidValid, skidData) => if skidValid then skidData else data
    case ZeroLatency(skidValid, skidData) => if skidValid then skidData else w.fromData
  }

  predicate FromReady<T>(b: Buffer<T>, w: Wires<T>) {
    match b
    case Flop(valid, _) => w.fromValid && (w.toReady || !valid)
    case Skid(_, _, skidValid, _) => !skidValid
    case ZeroLatency(skidValid, _) => !skidValid
  }

  /** The registers after the clock edge. */
  function Tick<T>(b: Buffer<T>, w: Wires<T>): Buffer<T> {
    match b
    case Flop(valid, data) =>
      var validLoadEn := w.toReady || !valid;
      var dataLoadEn := w.fromValid && validLoadEn;
      Flop(if validLoadEn then w.fromValid else valid, if dataLoadEn then w.fromData else data)
    case Skid(valid, data, skidValid, skidData) =>
      var fromSkidReady := !skidValid;
      var inputReadyAndValid := w.fromValid && fromSkidReady;
      var dataIsSentTo := valid && w.toReady && fromSkidReady;
      var validLoadEn := dataIsSentTo || inputReadyAndValid;
      var skidDataLoadEn := valid && inputReadyAndValid && !w.toReady;
      var skidValidSetZero := skidValid && w.toReady;
      Skid(if validLoadEn then w.fromValid else valid,
           if inputReadyAndValid then w.fromData else data,
           if skidDataLoadEn || skidValidSetZero then fromSkidReady else skidValid,
           if skidDataLoadEn then data else skidData)
    case ZeroLatency(skidValid, skidData) =>
      var fromSkidReady := !skidValid;
      var skidDataLoadEn := w.fromValid && fromSkidReady && !w.toReady;
      var skidValidSetZero := skidValid && w.toReady;
      ZeroLatency(if skidDataLoadEn || skidValidSetZero then fromSkidReady else skidValid,
                  if skidDataLoadEn then w.fromData else skidData)
  }

  /** The queue that the registers hold, oldest item first. */
  function Contents<T>(b: Buffer<T>): seq<T> {
    match b
    case Flop(valid, data) => if valid then [data] else []
    case Skid(valid, data, skidValid, skidData) =>
      (if skidValid then [skidData] else []) + if valid then [data] else []
    case ZeroLatency(skidValid, skidData) => if skidValid then [skidData] else []
  }

  /** The skid register is only in use while the main one is. */
  predicate Consistent<T>(b: Buffer<T>) {
    b.Skid? && b.skidValid ==> b.valid
  }

  function Capacity<T>(b: Buffer<T>): nat {
    if b.Skid? then 2 else 1
  }

  function Accepted<T>(b: Buffer<T>, w: Wires<T>): seq<T> {
    if w.fromValid && FromReady(b, w) then [w.fromData] else []
  }

  function Delivered<T>(b: Buffer<T>, w: Wires<T>): seq<T> {
    if ToValid(b, w) && w.toReady then [ToData(b, w)] else []
  }

  /** One cycle is one step of a queue of the buffer's capacity; only the zero-latency buffer delivers an item
      in the cycle it is accepted. */
  lemma TickIsQueueStep<T>(b: Buffer<T>, w: Wires<T>)
    requires Consistent(b)
    ensures Consistent(Tick(b, w)) && Capacity(Tick(b, w)) == Capacity(b)
    ensures |Contents(b)| <= Capacity(b)
    ensures Contents(b) + Accepted(b, w) == Delivered(b, w) + Contents(Tick(b, w))
    ensures Contents(b) == [] && Delivered(b, w) != [] ==> b.ZeroLatency?
  {
    if Contents(b) == [] {
      assert Contents(b) + Accepted(b, w) == Accepted(b, w);
    }
  }

  /** When a buffer accepts: skid and zero-latency exactly while they have room, whatever the wires;
      the flop also when its item leaves in the same cycle. */
  lemma AcceptsWhenRoom<T>(b: Buffer<T>, w: Wires<T>)
    requires Consistent(b)
    ensures !b.Flop? ==> (FromReady(b, w) <==> |Contents(b)| < Capacity(b))
    ensures b.Flop? ==> (FromReady(b, w) <==> w.fromValid && (|Contents(b)| < Capacity(b) || w.toReady))
    ensures ToValid(b, w) <==> Contents(b) != [] || (b.ZeroLatency? && w.fromValid)
    ensures Contents(b) != [] ==> ToData(b, w) == Contents(b)[0]
  {
  }

  ghost function At<T>(b: Buffer<T>, ws: seq<Wires<T>>, t: nat): Buffer<T>
    requires t <= |ws|
  {
    if t == 0 then b else Tick(At(b, ws, t - 1), ws[t - 1])
  }

  ghost function AllAccepted<T>(b: Buffer<T>, ws: seq<Wires<T>>, t: nat): seq<T>
    requires t <= |ws|
  {
    if t == 0 then [] else AllAccepted(b, ws, t - 1) + Accepted(At(b, ws, t - 1), ws[t - 1])
  }

  ghost function AllDelivered<T>(b: Buffer<T>, ws: seq<Wires<T>>, t: nat): seq<T>
    requires t <= |ws|
  {
    if t == 0 then [] else AllDelivered(b, ws, t - 1) + Delivered(At(b, ws, t - 1), ws[t - 1])
  }

  /** Over every run from reset, the items accepted are the items delivered followed by the items held, in order. */
  lemma {:induction false} BufferIsQueue<T>(b: Buffer<T>, ws: seq<Wires<T>>, t: nat)
    requires t <= |ws| && Consistent(b) && Contents(b) == []
    ensures AllAccepted(b, ws, t) == AllDelivered(b, ws, t) + Contents(At(b, ws, t))
    ensures Consistent(At(b, ws, t)) && |Contents(At(b, ws, t))| <= Capacity(b) == Capacity(At(b, ws, t))
  {
    hide Contents, Accepted, Delivered, Tick, Capacity, Consistent;
    if t > 0 {
      BufferIsQueue(b, ws, t - 1);
      var b0, w := At(b, ws, t - 1), ws[t - 1];
      TickIsQueueStep(b0, w);
      TickIsQueueStep(Tick(b0, w), w);
      calc {
        AllAccepted(b, ws, t - 1) + Accepted(b0, w);
        AllDelivered(b, ws, t - 1) + Contents(b0) + Accepted(b0, w);
        AllDelivered(b, ws, t - 1) + (Contents(b0) + Accepted(b0, w));
        AllDelivered(b, ws, t - 1) + (Delivered(b0, w) + Contents(Tick(b0, w)));
        AllDelivered(b, ws, t - 1) + Delivered(b0, w) + Contents(Tick(b0, w));
      }
    }
  }

  /** A buffer holds what it offers until it is accepted, whatever upstream does. */
  lemma BufferHolds<T>(b: Buffer<T>, w: Wires<T>, w': Wires<T>)
    requires Consistent(b) && ToValid(b, w) && !w.toReady
    ensures ToValid(Tick(b, w), w') && ToData(Tick(b, w), w') == ToData(b, w)
  {
  }

  /** The item arrived in a cycle before `t`. */
  ghost predicate Arrived<T>(ws: seq<Wires<T>>, t: nat, v: T) {
    exists u :: 0 <= u < t && u < |ws| && ws[u].fromValid && ws[u].fromData == v
  }

  lemma {:induction false} AcceptedArrived<T>(b: Buffer<T>, ws: seq<Wires<T>>, t: nat, v: T)
    requires t <= |ws| && v in AllAccepted(b, ws, t)
    ensures Arrived(ws, t, v)
  {
    hide FromReady, At;
    if v in AllAccepted(b, ws, t - 1) {
      AcceptedArrived(b, ws, t - 1, v);
    } else {
      assert ws[t - 1].fromValid && ws[t - 1].fromData == v;
    }
  }

  /** A buffer offers only what arrived. */
  lemma OfferedArrived<T>(b: Buffer<T>, ws: seq<Wires<T>>, t: nat)
    requires t < |ws| && Consistent(b) && Contents(b) == [] && ToValid(At(b, ws, t), ws[t])
    ensures Arrived(ws, t + 1, ToData(At(b, ws, t), ws[t]))
  {
    hide At, Tick, AllAccepted, AllDelivered;
    var b', v := At(b, ws, t), ToData(At(b, ws, t), ws[t]);
    BufferIsQueue(b, ws, t);
    AcceptsWhenRoom(b', ws[t]);
    if Contents(b') != [] {
      assert v in AllDelivered(b, ws, t) + Contents(b');
      AcceptedArrived(b, ws, t, v);
    } else {
      assert ws[t].fromValid && ws[t].fromData == v;
    }
  }
}
