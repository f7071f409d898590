/**
 Turning a scheduled function into a pipelined block, as CloneNodesIntoBlockHandler in
 block_conversion.cc does: nodes are cloned stage by stage, and whatever is live out of a stage
 goes through a register. The block computes the function, one result per cycle.
 */
module FunctionPipeline {
  import opened IrValues

  // ---------------------------------------------------------------------------
  // Functions and schedules
  // ---------------------------------------------------------------------------

  /** A node of the function; operands are indices of earlier nodes. */
  datatype Node = Param(index: nat) | Op(apply: seq<Value> -> Value, operands: seq<nat>)

  datatype Function = Function(nodes: seq<Node>, returnValue: nat)

  ghost predicate FunctionOk(f: Function) {
    && f.returnValue < |f.nodes|
    && forall i, k | 0 <= i < |f.nodes| && f.nodes[i].Op? && 0 <= k < |f.nodes[i].operands| ::
         f.nodes[i].operands[k] < i
  }

  /** The value of node `i` on the given arguments. */
  ghost function Meaning(f: Function, i: nat, args: nat -> Value): Value
    requires FunctionOk(f) && i < |f.nodes|
  {
    match f.nodes[i]
    case Param(index) => args(index)
    case Op(apply, operands) =>
      apply(seq(|operands|, k requires 0 <= k < |operands| => Meaning(f, operands[k], args)))
  }

  datatype Schedule = Schedule(cycle: seq<nat>, length: nat)

  /** Operands are no later than their users and everything is within the length. */
  ghost predicate Legal(f: Function, s: Schedule) {
    && |s.cycle| == |f.nodes| && 1 <= s.length
    && (forall i | 0 <= i < |f.nodes| :: s.cycle[i] < s.length)
    && (forall i, k | 0 <= i < |f.nodes| && f.nodes[i].Op? && 0 <= k < |f.nodes[i].operands| ::
          f.nodes[i].operands[k] < i && s.cycle[f.nodes[i].operands[k]] <= s.cycle[i])
  }

  datatype Result<+T> = Ok(value: T) | ParamNotInFirstCycle(param: nat)

  /** Makes room for registers after the inputs and before the outputs. */
  method MaybeAddInputOutputFlops(f: Function, s: Schedule, flopInputs: bool, flopOutputs: bool)
    returns (r: Result<Schedule>)
    requires FunctionOk(f) && Legal(f, s)
    ensures r.Ok? <==> forall i | 0 <= i < |f.nodes| && f.nodes[i].Param? :: s.cycle[i] == 0
    ensures !r.Ok? ==> r.param < |f.nodes| && f.nodes[r.param].Param? && s.cycle[r.param] != 0
                       && forall i | 0 <= i < r.param && f.nodes[i].Param? :: s.cycle[i] == 0
    ensures r.Ok? ==> Legal(f, r.value)
    ensures r.Ok? ==> r.value.length == s.length + (if flopInputs then 1 else 0) + (if flopOutputs then 1 else 0)
    ensures r.Ok? ==> forall i | 0 <= i < |f.nodes| && f.nodes[i].Param? :: r.value.cycle[i] == 0
    ensures r.Ok? ==> forall i | 0 <= i < |f.nodes| && !f.nodes[i].Param? ::
                        r.value.cycle[i] == s.cycle[i] + if flopInputs then 1 else 0
    ensures r.Ok? && flopInputs ==> forall i | 0 <= i < |f.nodes| :: r.value.cycle[i] == 0 <==> f.nodes[i].Param?
    ensures r.Ok? && flopOutputs ==> forall i | 0 <= i < |f.nodes| :: r.value.cycle[i] < r.value.length - 1
  {
    var offset := if flopInputs then 1 else 0;
    var cycle := [];
    for i := 0 to |f.nodes|
      invariant |cycle| == i
      invariant forall k | 0 <= k < i && f.nodes[k].Param? :: s.cycle[k] == 0
      invariant forall k | 0 <= k < i :: cycle[k] == if f.nodes[k].Param? then 0 else s.cycle[k] + offset
    {
      if f.nodes[i].Param? && s.cycle[i] != 0 {
        return ParamNotInFirstCycle(i);
      }
      cycle := cycle + [if f.nodes[i].Param? then 0 else s.cycle[i] + offset];
    }
    if flopOutputs {
      offset := offset + 1;
    }
    return Ok(Schedule(cycle, s.length + offset));
  }

  // ---------------------------------------------------------------------------
  // Blocks and what they do
  // ---------------------------------------------------------------------------

  datatype BlockNode = InputPort(index: nat) | RegisterRead(reg: nat) | Comb(apply: seq<Value> -> Value, operands: seq<nat>)

  /** A pipeline register: the node it is written from and the stage at whose end it sits. */
  datatype Register = Register(data: nat, stage: nat)

  datatype Block = Block(nodes: seq<BlockNode>, registers: seq<Register>)

  ghost predicate BlockOk(b: Block) {
    && (forall i, k | 0 <= i < |b.nodes| && b.nodes[i].Comb? && 0 <= k < |b.nodes[i].operands| ::
          b.nodes[i].operands[k] < i)
    && (forall i | 0 <= i < |b.nodes| && b.nodes[i].RegisterRead? :: b.nodes[i].reg < |b.registers|)
    && (forall g | 0 <= g < |b.registers| :: b.registers[g].data < |b.nodes|)
  }

  /** What surrounds the block: arguments and valid input in each cycle, register contents at reset, and whether
      pipeline registers only load valid data. */
  datatype Env = Env(args: nat -> nat -> Value, validIn: nat -> bool, init: nat -> Value, gated: bool)

  /** The valid signal of stage `s` in cycle `t`; its registers are clear after reset. */
  ghost predicate PipelinedValid(e: Env, s: nat, t: nat) {
    if s == 0 then e.validIn(t) else t > 0 && PipelinedValid(e, s - 1, t - 1)
  }

  ghost predicate LoadEnabled(e: Env, s: nat, t: nat) {
    !e.gated || PipelinedValid(e, s, t)
  }

  /** The value of block node `i` in cycle `t`. */
  ghost function ValueAt(b: Block, e: Env, t: nat, i: nat): Value
    requires BlockOk(b) && i < |b.nodes|
    decreases t, i
  {
    match b.nodes[i]
    case InputPort(index) => e.args(t)(index)
    case Comb(apply, operands) =>
      apply(seq(|operands|, k requires 0 <= k < |operands| => ValueAt(b, e, t, operands[k])))
    case RegisterRead(g) =>
      if t == 0 then e.init(g)
      else if LoadEnabled(e, b.registers[g].stage, t - 1) then ValueAt(b, e, t - 1, b.registers[g].data)
      else ValueAt(b, e, t - 1, i)
  }

  /** Block node `i` shows in cycle t + `delay` what function node `n` is on the arguments of cycle t, for every t
      (whose input was valid, if registers are gated), in every environment. */
  ghost predicate Computes(f: Function, n: nat, b: Block, i: nat, delay: nat)
    requires FunctionOk(f) && n < |f.nodes|
  {
    && BlockOk(b) && i < |b.nodes|
    && forall e: Env, t: nat | e.gated ==> e.validIn(t) :: ValueAt(b, e, t + delay, i) == Meaning(f, n, e.args(t))
  }

  /** The valid signal is the valid input, delayed. */
  lemma {:induction false} ValidIsDelayed(e: Env, s: nat, t: nat)
    ensures PipelinedValid(e, s, t) <==> t >= s && e.validIn(t - s)
  {
    if s > 0 && t > 0 {
      ValidIsDelayed(e, s - 1, t - 1);
    }
  }

  ghost predicate Extends(b: Block, b': Block) {
    b.nodes <= b'.nodes && b.registers <= b'.registers
  }

  lemma {:induction false} ExtensionKeepsValue(b: Block, b': Block, e: Env, t: nat, i: nat)
    requires BlockOk(b) && BlockOk(b') && Extends(b, b') && i < |b.nodes|
    ensures ValueAt(b', e, t, i) == ValueAt(b, e, t, i)
    decreases t, i
  {
    match b.nodes[i]
    case InputPort(_) =>
    case Comb(apply, operands) =>
      assert b'.nodes[i] == b.nodes[i];
      forall k | 0 <= k < |operands|
        ensures ValueAt(b', e, t, operands[k]) == ValueAt(b, e, t, operands[k])
      {
        ExtensionKeepsValue(b, b', e, t, operands[k]);
      }
      assert seq(|operands|, k requires 0 <= k < |operands| => ValueAt(b', e, t, operands[k]))
          == seq(|operands|, k requires 0 <= k < |operands| => ValueAt(b, e, t, operands[k]));
    case RegisterRead(g) =>
      assert b'.nodes[i] == b.nodes[i] && b'.registers[g] == b.registers[g];
      if t > 0 {
        ExtensionKeepsValue(b, b', e, t - 1, b.registers[g].data);
        ExtensionKeepsValue(b, b', e, t - 1, i);
      }
  }

  lemma ExtensionKeepsComputes(f: Function, n: nat, b: Block, b': Block, i: nat, delay: nat)
    requires FunctionOk(f) && n < |f.nodes| && Computes(f, n, b, i, delay) && BlockOk(b') && Extends(b, b')
    ensures Computes(f, n, b', i, delay)
  {
    hide ValueAt, Meaning;
    forall e: Env, t: nat | e.gated ==> e.validIn(t)
      ensures ValueAt(b', e, t + delay, i) == Meaning(f, n, e.args(t))
    {
      ExtensionKeepsValue(b, b', e, t + delay, i);
    }
  }

  // ---------------------------------------------------------------------------
  // Each piece that the cloner adds
  // ---------------------------------------------------------------------------

  lemma InputPortComputes(f: Function, n: nat, b: Block)
    requires FunctionOk(f) && n < |f.nodes| && f.nodes[n].Param? && BlockOk(b)
    ensures BlockOk(b.(nodes := b.nodes + [InputPort(f.nodes[n].index)]))
    ensures Computes(f, n, b.(nodes := b.nodes + [InputPort(f.nodes[n].index)]), |b.nodes|, 0)
  {
  }

  /** A clone on operands that all have the same delay has that delay. */
  lemma CloneComputes(f: Function, n: nat, b: Block, operands: seq<nat>, delay: nat)
    requires FunctionOk(f) && n < |f.nodes| && f.nodes[n].Op? && BlockOk(b) && |operands| == |f.nodes[n].operands|
    requires forall k | 0 <= k < |operands| :: Computes(f, f.nodes[n].operands[k], b, operands[k], delay)
    ensures BlockOk(b.(nodes := b.nodes + [Comb(f.nodes[n].apply, operands)]))
    ensures Computes(f, n, b.(nodes := b.nodes + [Comb(f.nodes[n].apply, operands)]), |b.nodes|, delay)
  {
    hide ValueAt, Meaning;
    var b' := b.(nodes := b.nodes + [Comb(f.nodes[n].apply, operands)]);
    assert BlockOk(b') by {
      assert forall k | 0 <= k < |operands| :: Computes(f, f.nodes[n].operands[k], b, operands[k], delay);
    }
    forall e: Env, t: nat | e.gated ==> e.validIn(t)
      ensures ValueAt(b', e, t + delay, |b.nodes|) == Meaning(f, n, e.args(t))
    {
      OperandValues(f, n, b, b', operands, delay, e, t);
      CombValue(b', e, t + delay, |b.nodes|);
      OpMeaning(f, n, e.args(t));
    }
  }

  ghost function ValuesAt(b: Block, e: Env, t: nat, nodes: seq<nat>): seq<Value>
    requires BlockOk(b) && forall k | 0 <= k < |nodes| :: nodes[k] < |b.nodes|
  {
    seq(|nodes|, k requires 0 <= k < |nodes| => ValueAt(b, e, t, nodes[k]))
  }

  ghost function Meanings(f: Function, nodes: seq<nat>, args: nat -> Value): seq<Value>
    requires FunctionOk(f) && forall k | 0 <= k < |nodes| :: nodes[k] < |f.nodes|
  {
    seq(|nodes|, k requires 0 <= k < |nodes| => Meaning(f, nodes[k], args))
  }

  lemma CombValue(b: Block, e: Env, t: nat, i: nat)
    requires BlockOk(b) && i < |b.nodes| && b.nodes[i].Comb?
    ensures ValueAt(b, e, t, i) == b.nodes[i].apply(ValuesAt(b, e, t, b.nodes[i].operands))
  {
    var operands := b.nodes[i].operands;
    assert ValuesAt(b, e, t, operands) == seq(|operands|, k requires 0 <= k < |operands| => ValueAt(b, e, t, operands[k]));
  }

  lemma OpMeaning(f: Function, n: nat, args: nat -> Value)
    requires FunctionOk(f) && n < |f.nodes| && f.nodes[n].Op?
    ensures Meaning(f, n, args) == f.nodes[n].apply(Meanings(f, f.nodes[n].operands, args))
  {
    var operands := f.nodes[n].operands;
    assert Meanings(f, operands, args) == seq(|operands|, k requires 0 <= k < |operands| => Meaning(f, operands[k], args));
  }

  lemma OperandValues(f: Function, n: nat, b: Block, b': Block, operands: seq<nat>, delay: nat, e: Env, t: nat)
    requires FunctionOk(f) && n < |f.nodes| && f.nodes[n].Op? && |operands| == |f.nodes[n].operands|
    requires BlockOk(b) && BlockOk(b') && Extends(b, b') && (e.gated ==> e.validIn(t))
    requires forall k | 0 <= k < |operands| :: Computes(f, f.nodes[n].operands[k], b, operands[k], delay)
    ensures forall k | 0 <= k < |operands| :: operands[k] < |b'.nodes|
    ensures ValuesAt(b', e, t + delay, operands) == Meanings(f, f.nodes[n].operands, e.args(t))
  {
    hide ValueAt, Meaning, BlockOk;
    forall k | 0 <= k < |operands|
      ensures operands[k] < |b'.nodes|
      ensures ValueAt(b', e, t + delay, operands[k]) == Meaning(f, f.nodes[n].operands[k], e.args(t))
    {
      assert Computes(f, f.nodes[n].operands[k], b, operands[k], delay);
      ExtensionKeepsValue(b, b', e, t + delay, operands[k]);
    }
  }

  function WithRegister(b: Block, i: nat, stage: nat): Block {
    Block(b.nodes + [RegisterRead(|b.registers|)], b.registers + [Register(i, stage)])
  }

  /** What a register shows is what it was written from in the cycle before, if it loaded. */
  lemma RegisterShows(b: Block, e: Env, t: nat, i: nat, stage: nat)
    requires BlockOk(b) && i < |b.nodes| && LoadEnabled(e, stage, t)
    ensures BlockOk(WithRegister(b, i, stage))
    ensures ValueAt(WithRegister(b, i, stage), e, t + 1, |b.nodes|) == ValueAt(b, e, t, i)
  {
    var b' := WithRegister(b, i, stage);
    assert BlockOk(b');
    ExtensionKeepsValue(b, b', e, t, i);
  }

  /** A register that loads valid data only keeps what it shows in a cycle whose data, from `stage` cycles earlier, is not
      valid. */
  lemma RegisterKeeps(b: Block, e: Env, t: nat, i: nat, stage: nat)
    requires BlockOk(b) && i < |b.nodes| && e.gated && (t < stage || !e.validIn(t - stage))
    ensures BlockOk(WithRegister(b, i, stage))
    ensures ValueAt(WithRegister(b, i, stage), e, t + 1, |b.nodes|) == ValueAt(WithRegister(b, i, stage), e, t, |b.nodes|)
  {
    ValidIsDelayed(e, stage, t);
    assert BlockOk(WithRegister(b, i, stage));
  }

  /** A register at the end of a stage adds one cycle, also when it only loads valid data. */
  lemma RegisterComputes(f: Function, n: nat, b: Block, i: nat, stage: nat)
    requires FunctionOk(f) && n < |f.nodes| && Computes(f, n, b, i, stage)
    ensures BlockOk(WithRegister(b, i, stage)) && Computes(f, n, WithRegister(b, i, stage), |b.nodes|, stage + 1)
  {
    hide ValueAt, Meaning, PipelinedValid;
    var b' := WithRegister(b, i, stage);
    assert BlockOk(b');
    forall e: Env, t: nat | e.gated ==> e.validIn(t)
      ensures ValueAt(b', e, t + (stage + 1), |b.nodes|) == Meaning(f, n, e.args(t))
    {
      ValidIsDelayed(e, stage, t + stage);
      RegisterShows(b, e, t + stage, i, stage);
      assert t + (stage + 1) == t + stage + 1;
    }
  }

  // ---------------------------------------------------------------------------
  // The cloner
  // ---------------------------------------------------------------------------

  predicate HasUser(f: Function, n: nat, user: nat)
    requires user < |f.nodes|
  {
    f.nodes[user].Op? && n in f.nodes[user].operands
  }

  /** The node is needed after stage `stage`: it is returned or used there. */
  predicate LiveOut(f: Function, s: Schedule, n: nat, stage: int)
    requires |s.cycle| == |f.nodes|
  {
    stage < s.length - 1 && (n == f.returnValue || exists u | 0 <= u < |f.nodes| :: HasUser(f, n, u) && s.cycle[u] > stage)
  }

  /** Node `n` is returned, or some node scheduled after stage `stage` uses it. */
  ghost predicate NeededLater(f: Function, s: Schedule, n: nat, stage: nat)
    requires |s.cycle| == |f.nodes|
  {
    n == f.returnValue || exists u :: 0 <= u < |f.nodes| && f.nodes[u].Op? && n in f.nodes[u].operands && stage < s.cycle[u]
  }

  /** Those of the first `k` nodes that are computed by the end of stage `stage` and needed after it. */
  ghost function Carried(f: Function, s: Schedule, stage: nat, k: nat): seq<nat>
    requires |s.cycle| == |f.nodes| && k <= |f.nodes|
  {
    if k == 0 then []
    else
      Carried(f, s, stage, k - 1)
      + if stage < s.length - 1 && s.cycle[k - 1] <= stage && NeededLater(f, s, k - 1, stage) then [k - 1] else []
  }

  /** Among the first `k` nodes, each value carried out of the stage, and no other, got a register, written from where the
      value was found. */
  ghost predicate CarriedByRegisters(f: Function, s: Schedule, stage: nat, k: nat, nodeMap: map<nat, nat>,
                                     before: seq<Register>, after: seq<Register>)
    requires |s.cycle| == |f.nodes| && k <= |f.nodes|
  {
    var carried := Carried(f, s, stage, k);
    && |after| == |before| + |carried| && before <= after
    && forall g | 0 <= g < |carried| ::
         carried[g] in nodeMap && after[|before| + g] == Register(nodeMap[carried[g]], stage)
  }

  lemma NothingCarried(f: Function, s: Schedule, stage: nat, nodeMap: map<nat, nat>, registers: seq<Register>)
    requires |s.cycle| == |f.nodes|
    ensures CarriedByRegisters(f, s, stage, 0, nodeMap, registers, registers)
  {
  }

  lemma CarriedNext(f: Function, s: Schedule, stage: nat, k: nat, nodeMap: map<nat, nat>,
                    before: seq<Register>, after: seq<Register>)
    requires |s.cycle| == |f.nodes| && k < |f.nodes| && CarriedByRegisters(f, s, stage, k, nodeMap, before, after)
    ensures if stage < s.length - 1 && s.cycle[k] <= stage && NeededLater(f, s, k, stage)
            then k in nodeMap ==>
                   CarriedByRegisters(f, s, stage, k + 1, nodeMap, before, after + [Register(nodeMap[k], stage)])
            else CarriedByRegisters(f, s, stage, k + 1, nodeMap, before, after)
  {
    hide NeededLater;
  }

  lemma LiveOutMeans(f: Function, s: Schedule, n: nat, stage: nat)
    requires |s.cycle| == |f.nodes|
    ensures LiveOut(f, s, n, stage) <==> stage < s.length - 1 && NeededLater(f, s, n, stage)
  {
    if n != f.returnValue && LiveOut(f, s, n, stage) {
      var u :| 0 <= u < |f.nodes| && HasUser(f, n, u) && s.cycle[u] > stage;
      assert f.nodes[u].Op? && n in f.nodes[u].operands;
    }
    if n != f.returnValue && NeededLater(f, s, n, stage) {
      var u :| 0 <= u < |f.nodes| && f.nodes[u].Op? && n in f.nodes[u].operands && stage < s.cycle[u];
      assert HasUser(f, n, u);
    }
  }

  lemma StagesGrow(f: Function, s: Schedule, stage: nat, nodeMap: map<nat, nat>, before: seq<Register>, after: seq<Register>)
    requires |s.cycle| == |f.nodes| && CarriedByRegisters(f, s, stage, |f.nodes|, nodeMap, before, after)
    requires StagesOf(before) == RegisterStages(f, s, stage)
    ensures StagesOf(after) == RegisterStages(f, s, stage + 1)
  {
    hide Carried;
    var carried := Carried(f, s, stage, |f.nodes|);
    forall g | 0 <= g < |after|
      ensures after[g].stage == (StagesOf(before) + seq(|carried|, _ => stage))[g]
    {
      if g >= |before| {
        assert carried[g - |before|] in nodeMap && after[|before| + (g - |before|)].stage == stage;
      } else {
        assert after[g] == before[g];
      }
    }
  }

  /** The stages of the registers of the first stages: one register for each value carried out of a stage. */
  ghost function RegisterStages(f: Function, s: Schedule, stages: nat): seq<nat>
    requires |s.cycle| == |f.nodes|
  {
    if stages == 0 then []
    else RegisterStages(f, s, stages - 1) + seq(|Carried(f, s, stages - 1, |f.nodes|)|, _ => stages - 1)
  }

  /** The stages of the registers in a block, in order. */
  ghost function StagesOf(registers: seq<Register>): (r: seq<nat>)
    ensures |r| == |registers|
  {
    seq(|registers|, g requires 0 <= g < |registers| => registers[g].stage)
  }

  /** The node is computed in stage `stage` or carried into it. */
  ghost predicate AliveIn(f: Function, s: Schedule, n: nat, stage: nat)
    requires |s.cycle| == |f.nodes| && n < |f.nodes|
  {
    s.cycle[n] == stage || (s.cycle[n] < stage && LiveOut(f, s, n, stage - 1))
  }

  /** The node map finds what stage `stage` needs of node `n`, with the stage's delay. */
  ghost predicate Found(f: Function, n: nat, b: Block, nodeMap: map<nat, nat>, stage: nat)
    requires FunctionOk(f) && n < |f.nodes|
  {
    n in nodeMap && Computes(f, n, b, nodeMap[n], stage)
  }

  class Cloner {
    const f: Function
    const schedule: Schedule
    var block: Block
    var nodeMap: map<nat, nat>

    ghost predicate Valid()
      reads this
    {
      && FunctionOk(f) && Legal(f, schedule) && BlockOk(block)
      && (forall n | 0 <= n < |f.nodes| && f.nodes[n].Param? :: schedule.cycle[n] == 0)
    }

    constructor (f: Function, schedule: Schedule)
      requires FunctionOk(f) && Legal(f, schedule)
      requires forall n | 0 <= n < |f.nodes| && f.nodes[n].Param? :: schedule.cycle[n] == 0
      ensures Valid() && this.f == f && this.schedule == schedule && nodeMap == map[] && block == Block([], [])
    {
      this.f := f;
      this.schedule := schedule;
      block := Block([], []);
      nodeMap := map[];
    }

    /** Everything that stage `stage` or a later one needs from before is found with delay `stage`. */
    ghost predicate ReadyFor(stage: nat)
      reads this
      requires Valid()
    {
      forall n | 0 <= n < |f.nodes| && schedule.cycle[n] < stage && LiveOut(f, schedule, n, stage - 1) ::
        Found(f, n, block, nodeMap, stage)
    }

    /** ... and everything scheduled in stage `stage` among the first `upTo` nodes as well. */
    ghost predicate ClonedIn(stage: nat, upTo: nat)
      reads this
      requires Valid()
    {
      forall n | 0 <= n < |f.nodes| && n < upTo && schedule.cycle[n] == stage :: Found(f, n, block, nodeMap, stage)
    }

    /** Clones the nodes of one stage. */
    method CloneNodes(stage: nat)
      requires Valid() && ReadyFor(stage)
      modifies this
      ensures Valid() && ReadyFor(stage) && ClonedIn(stage, |f.nodes|) && block.registers == old(block.registers)
    {
      for n := 0 to |f.nodes|
        invariant Valid() && ReadyFor(stage) && ClonedIn(stage, n) && block.registers == old(block.registers)
      {
        if schedule.cycle[n] == stage {
          CloneNode(n, stage);
        }
      }
    }

    method CloneNode(n: nat, stage: nat)
      requires Valid() && ReadyFor(stage) && n < |f.nodes| && schedule.cycle[n] == stage && ClonedIn(stage, n)
      modifies this
      ensures Valid() && ReadyFor(stage) && ClonedIn(stage, n + 1) && block.registers == old(block.registers)
    {
      hide Computes, BlockOk, FunctionOk, LiveOut;
      ghost var block0, map0 := block, nodeMap;
      match f.nodes[n] {
        case Param(index) =>
          InputPortComputes(f, n, block);
          block := block.(nodes := block.nodes + [InputPort(index)]);
        case Op(apply, operands) =>
          var newOperands := NewOperands(n, stage);
          CloneComputes(f, n, block, newOperands, stage);
          block := block.(nodes := block.nodes + [Comb(apply, newOperands)]);
      }
      nodeMap := nodeMap[n := |block.nodes| - 1];
      forall m | 0 <= m < |f.nodes| && m != n && Found(f, m, block0, map0, stage)
        ensures Found(f, m, block, nodeMap, stage)
      {
        ExtensionKeepsComputes(f, m, block0, block, map0[m], stage);
      }
    }

    /** Looks every operand up; none is missing. */
    method NewOperands(n: nat, stage: nat) returns (newOperands: seq<nat>)
      requires Valid() && ReadyFor(stage) && n < |f.nodes| && schedule.cycle[n] == stage && ClonedIn(stage, n)
      requires f.nodes[n].Op?
      ensures |newOperands| == |f.nodes[n].operands|
      ensures forall k | 0 <= k < |newOperands| :: Computes(f, f.nodes[n].operands[k], block, newOperands[k], stage)
    {
      hide Computes;
      newOperands := [];
      for k := 0 to |f.nodes[n].operands|
        invariant |newOperands| == k
        invariant forall j | 0 <= j < k :: Computes(f, f.nodes[n].operands[j], block, newOperands[j], stage)
      {
        var operand := f.nodes[n].operands[k];
        assert HasUser(f, operand, n);
        assert Found(f, operand, block, nodeMap, stage);
        newOperands := newOperands + [nodeMap[operand]];
      }
    }

    /** Adds a register for every node that is live out of the stage, and for no other. */
    method AddNextPipelineStage(stage: nat)
      requires Valid() && ReadyFor(stage) && ClonedIn(stage, |f.nodes|)
      modifies this
      ensures Valid() && ReadyFor(stage + 1)
      ensures CarriedByRegisters(f, schedule, stage, |f.nodes|, old(nodeMap), old(block.registers), block.registers)
      ensures stage >= schedule.length - 1 ==> block == old(block) && nodeMap == old(nodeMap)
    {
      hide Computes, BlockOk, FunctionOk, CarriedByRegisters, LiveOut, NeededLater;
      ghost var block0, map0 := block, nodeMap;
      NothingCarried(f, schedule, stage, map0, block0.registers);
      for n := 0 to |f.nodes|
        invariant Valid()
        invariant forall m | n <= m < |f.nodes| && Found(f, m, block0, map0, stage) :: Found(f, m, block, nodeMap, stage)
        invariant forall m | 0 <= m < n && schedule.cycle[m] <= stage && LiveOut(f, schedule, m, stage) ::
                    Found(f, m, block, nodeMap, stage + 1)
        invariant stage >= schedule.length - 1 ==> block == block0 && nodeMap == map0
        invariant forall m | n <= m < |f.nodes| && m in map0 :: m in nodeMap && nodeMap[m] == map0[m]
        invariant CarriedByRegisters(f, schedule, stage, n, map0, block0.registers, block.registers)
      {
        LiveOutMeans(f, schedule, n, stage);
        CarriedNext(f, schedule, stage, n, map0, block0.registers, block.registers);
        if schedule.cycle[n] <= stage && LiveOut(f, schedule, n, stage) {
          StillLive(f, schedule, n, stage);
          assert Found(f, n, block0, map0, stage);
          AddRegister(n, stage);
        }
      }
    }

    method AddRegister(n: nat, stage: nat)
      requires Valid() && n < |f.nodes| && Found(f, n, block, nodeMap, stage)
      modifies this
      ensures Valid() && Found(f, n, block, nodeMap, stage + 1)
      ensures n in old(nodeMap) && block.registers == old(block.registers) + [Register(old(nodeMap)[n], stage)]
      ensures forall m | m in old(nodeMap) && m != n :: m in nodeMap && nodeMap[m] == old(nodeMap)[m]
      ensures forall m, d: nat | 0 <= m < |f.nodes| && m != n && Found(f, m, old(block), old(nodeMap), d) ::
                Found(f, m, block, nodeMap, d)
    {
      hide Computes, BlockOk, FunctionOk;
      ghost var block0, map0 := block, nodeMap;
      RegisterComputes(f, n, block, nodeMap[n], stage);
      block := WithRegister(block, nodeMap[n], stage);
      nodeMap := nodeMap[n := |block.nodes| - 1];
      forall m, d: nat | 0 <= m < |f.nodes| && m != n && Found(f, m, block0, map0, d)
        ensures Found(f, m, block, nodeMap, d)
      {
        ExtensionKeepsComputes(f, m, block0, block, map0[m], d);
      }
    }
  }

  lemma StillLive(f: Function, s: Schedule, n: nat, stage: nat)
    requires |s.cycle| == |f.nodes| && n < |f.nodes| && LiveOut(f, s, n, stage) && s.cycle[n] <= stage
    ensures AliveIn(f, s, n, stage)
  {
    if n != f.returnValue {
      var u :| 0 <= u < |f.nodes| && HasUser(f, n, u) && s.cycle[u] > stage;
      assert s.cycle[u] > stage - 1;
    }
  }

  lemma NoRegisters(f: Function, s: Schedule)
    requires |s.cycle| == |f.nodes|
    ensures StagesOf([]) == RegisterStages(f, s, 0)
  {
  }

  /** The pipelined block of a legal schedule shows, `schedule.length - 1` cycles later, the function of the arguments. */
  method CloneNodesIntoPipelinedBlock(f: Function, schedule: Schedule) returns (block: Block, out: nat)
    requires FunctionOk(f) && Legal(f, schedule)
    requires forall n | 0 <= n < |f.nodes| && f.nodes[n].Param? :: schedule.cycle[n] == 0
    ensures Computes(f, f.returnValue, block, out, schedule.length - 1)
    ensures StagesOf(block.registers) == RegisterStages(f, schedule, schedule.length)
  {
    hide Computes, BlockOk, CarriedByRegisters, RegisterStages;
    NoRegisters(f, schedule);
    var cloner := new Cloner(f, schedule);
    for stage := 0 to schedule.length
      invariant cloner.Valid() && cloner.f == f && cloner.schedule == schedule && fresh(cloner)
      invariant cloner.ReadyFor(stage)
      invariant StagesOf(cloner.block.registers) == RegisterStages(f, schedule, stage)
      invariant stage == schedule.length ==> Found(f, f.returnValue, cloner.block, cloner.nodeMap, schedule.length - 1)
    {
      cloner.CloneNodes(stage);
      if stage == schedule.length - 1 {
        assert Found(f, f.returnValue, cloner.block, cloner.nodeMap, stage);
      }
      ghost var before, map0 := cloner.block.registers, cloner.nodeMap;
      cloner.AddNextPipelineStage(stage);
      StagesGrow(f, schedule, stage, map0, before, cloner.block.registers);
    }
    return cloner.block, cloner.nodeMap[f.returnValue];
  }

  // ---------------------------------------------------------------------------
  // The valid signal
  // ---------------------------------------------------------------------------

  /** The valid input port, or the read of a valid register. */
  datatype ValidNode = ValidIn | ValidRead(reg: nat)

  /** The valid registers, by what each is written from. */
  type ValidChain = seq<ValidNode>

  /** What a node of the valid chain shows in cycle `t`; the registers are clear after reset. */
  ghost predicate ValidAt(chain: ValidChain, e: Env, t: nat, n: ValidNode) {
    match n
    case ValidIn => e.validIn(t)
    case ValidRead(g) => t > 0 && g < |chain| && ValidAt(chain, e, t - 1, chain[g])
  }

  function ValidOf(stage: nat): ValidNode {
    if stage == 0 then ValidIn else ValidRead(stage - 1)
  }

  lemma {:induction false} ChainShows(chain: ValidChain, e: Env, s: nat, t: nat)
    requires s <= |chain| && forall g | 0 <= g < |chain| :: chain[g] == ValidOf(g)
    ensures ValidAt(chain, e, t, ValidOf(s)) <==> PipelinedValid(e, s, t)
  {
    if s > 0 && t > 0 {
      ChainShows(chain, e, s - 1, t - 1);
    }
  }

  /** One valid register per stage boundary: the valid of every stage is the valid input, delayed by the stage. */
  method MakePipelineStagesForValid(boundaries: nat) returns (chain: ValidChain, valids: seq<ValidNode>)
    ensures |chain| == boundaries && |valids| == boundaries + 1
    ensures forall e: Env, s: nat, t: nat | s <= boundaries ::
              && (ValidAt(chain, e, t, valids[s]) <==> t >= s && e.validIn(t - s))
              && (ValidAt(chain, e, t, valids[s]) <==> PipelinedValid(e, s, t))
  {
    chain, valids := [], [ValidIn];
    for stage := 0 to boundaries
      invariant |chain| == stage && |valids| == stage + 1
      invariant forall g | 0 <= g < stage :: chain[g] == ValidOf(g)
      invariant forall g | 0 <= g <= stage :: valids[g] == ValidOf(g)
    {
      chain := chain + [valids[stage]];
      valids := valids + [ValidRead(|chain| - 1)];
    }
    forall e: Env, s: nat, t: nat | s <= boundaries
      ensures && (ValidAt(chain, e, t, valids[s]) <==> t >= s && e.validIn(t - s))
              && (ValidAt(chain, e, t, valids[s]) <==> PipelinedValid(e, s, t))
    {
      ChainShows(chain, e, s, t);
      ValidIsDelayed(e, s, t);
    }
  }

  /** A pipelined block with its output node, its valid registers and its valid output. */
  datatype Pipelined = Pipelined(block: Block, out: nat, chain: ValidChain, validOut: ValidNode)

  /** The whole conversion. It fails exactly when a parameter is not scheduled in cycle 0. The output port shows the
      function of the arguments of L cycles earlier, where L is the schedule's length less one, plus one for each
      flopped side, and the valid output shows the valid input of L cycles earlier. */
  method FunctionToPipelinedBlock(f: Function, schedule: Schedule, flopInputs: bool, flopOutputs: bool)
    returns (r: Result<Pipelined>)
    requires FunctionOk(f) && Legal(f, schedule)
    ensures r.Ok? <==> forall n | 0 <= n < |f.nodes| && f.nodes[n].Param? :: schedule.cycle[n] == 0
    ensures !r.Ok? ==> r.param < |f.nodes| && f.nodes[r.param].Param? && schedule.cycle[r.param] != 0
                       && forall n | 0 <= n < r.param && f.nodes[n].Param? :: schedule.cycle[n] == 0
    ensures r.Ok? ==>
              var latency := schedule.length - 1 + (if flopInputs then 1 else 0) + (if flopOutputs then 1 else 0);
              && Computes(f, f.returnValue, r.value.block, r.value.out, latency)
              && forall e: Env, t: nat :: ValidAt(r.value.chain, e, t, r.value.validOut)
                                          <==> t >= latency && e.validIn(t - latency)
  {
    hide Computes, FunctionOk, Legal, ValidAt;
    var transformed := MaybeAddInputOutputFlops(f, schedule, flopInputs, flopOutputs);
    if transformed.ParamNotInFirstCycle? {
      return ParamNotInFirstCycle(transformed.param);
    }
    var block, out := CloneNodesIntoPipelinedBlock(f, transformed.value);
    ScheduleLonger(f, schedule);
    var chain, valids := MakePipelineStagesForValid(transformed.value.length - 1);
    return Ok(Pipelined(block, out, chain, valids[|valids| - 1]));
  }

  lemma ScheduleLonger(f: Function, s: Schedule)
    requires Legal(f, s)
    ensures s.length >= 1
  {
  }
}
