/** Blocks that show where SplitBlockIntoStages departs from what is documented of it. */
module StageSplitCases {
  import opened StageSplit
  import Graphs

  /** The nodes as they are listed. */
  function Listed(b: Block): seq<nat> {
    seq(|b|, i => i)
  }

  lemma ListedIsTopoSort(b: Block)
    requires forall u, i | 0 <= u < |b| && 0 <= i < |b| && IsUser(b, u, i) :: i < u
    ensures IsTopoSort(b, Listed(b))
  {
    var order := Listed(b);
    forall i | 0 <= i < |b|
      ensures i in order
    {
      assert order[i] == i;
    }
  }

  /** A node used directly and out of a register. */
  lemma UsedTwice(b: Block, i: nat, w: nat, r: nat, j: nat)
    requires i < |b| && w < |b| && r < |b| && j < |b| && !b[w].kind.RegisterRead? && !b[j].kind.RegisterRead?
    requires IsUser(b, j, i) && IsUser(b, w, i) && WritesTo(b, w, r) && IsUser(b, j, r)
    ensures UnevenPaths(b)
  {
    hide DependencyPath, RegistersOn;
    OneNode(b, i);
    PathExtends(b, [i], i, j);
    assert [i] + [j] == [i, j];
    PathExtends(b, [i], i, w);
    assert [i] + [w] == [i, w];
    PathExtends(b, [i, w], w, r);
    assert [i, w] + [r] == [i, w, r];
    PathExtends(b, [i, w, r], r, j);
    assert [i, w, r] + [j] == [i, w, r, j];
    assert Uneven(b, [i, j], [i, w, r, j]);
  }

  /** A register whose load enable comes from a later stage than its data. */
  const LATE_ENABLE: Block := [
    Node(InputPort, []), Node(RegisterWrite(0), [0]), Node(RegisterRead(0), []),
    Node(RegisterWrite(1), [2]), Node(RegisterRead(1), []),
    Node(RegisterWrite(2), [2, 4]), Node(RegisterRead(2), [])]

  lemma LateEnableUsers(u: nat, i: nat)
    requires u < |LATE_ENABLE| && IsUser(LATE_ENABLE, u, i)
    ensures (u == 1 && i == 0) || (u == 3 && i == 2) || (u == 5 && (i == 2 || i == 4))
  {
  }

  lemma LateEnableWrites(w: nat, r: nat)
    requires w < |LATE_ENABLE| && r < |LATE_ENABLE| && WritesTo(LATE_ENABLE, w, r)
    ensures (w == 1 && r == 2) || (w == 3 && r == 4) || (w == 5 && r == 6)
  {
  }

  /** Uneven paths, which are documented as an error, and refused: a pipelining exists, but in every one the data is in
      an earlier stage than the write. */
  lemma UnevenRefused()
    ensures UnevenPaths(LATE_ENABLE)
    ensures IsPipelining(LATE_ENABLE, [0, 0, 1, 1, 2, 2, 3])
    ensures forall a | IsPipelining(LATE_ENABLE, a) :: a[LATE_ENABLE[5].operands[0]] < a[5]
  {
    hide UnevenPaths;
    var b, s := LATE_ENABLE, [0, 0, 1, 1, 2, 2, 3];
    assert IsUser(b, 5, 2) && IsUser(b, 3, 2) && WritesTo(b, 3, 4) && IsUser(b, 5, 4);
    UsedTwice(b, 2, 3, 4, 5);
    forall u, i | 0 <= u < |b| && 0 <= i < |b| && IsUser(b, u, i)
      ensures s[i] <= s[u]
    {
      LateEnableUsers(u, i);
    }
    forall w, r | 0 <= w < |b| && 0 <= r < |b| && WritesTo(b, w, r)
      ensures s[r] == s[w] + 1
    {
      LateEnableWrites(w, r);
    }
    forall a | IsPipelining(b, a)
      ensures a[2] < a[5]
    {
      assert a[3] <= a[4] <= a[5];
    }
  }

  /** A node that uses an input directly and out of a register. */
  const BOTH_WAYS: Block := [
    Node(InputPort, []), Node(RegisterWrite(0), [0]), Node(RegisterRead(0), []), Node(Logic, [0, 2]), Node(OutputPort, [3])]

  const BOTH_WAYS_STAGES: seq<int> := [0, 0, 1, 1, 1]

  lemma BothWaysUsers(u: nat, i: nat)
    requires u < |BOTH_WAYS| && IsUser(BOTH_WAYS, u, i)
    ensures (u == 1 && i == 0) || (u == 3 && (i == 0 || i == 2)) || (u == 4 && i == 3)
  {
  }

  lemma BothWaysWrites(w: nat, r: nat)
    requires w < |BOTH_WAYS| && r < |BOTH_WAYS| && WritesTo(BOTH_WAYS, w, r)
    ensures w == 1 && r == 2
  {
  }

  lemma BothWaysPipelining()
    ensures IsPipelining(BOTH_WAYS, BOTH_WAYS_STAGES)
  {
    var b, s := BOTH_WAYS, BOTH_WAYS_STAGES;
    forall u, i | 0 <= u < |b| && 0 <= i < |b| && IsUser(b, u, i)
      ensures s[i] <= s[u]
    {
      BothWaysUsers(u, i);
    }
    forall w, r | 0 <= w < |b| && 0 <= r < |b| && WritesTo(b, w, r)
      ensures s[r] == s[w] + 1
    {
      BothWaysWrites(w, r);
    }
  }

  lemma BothWaysLatest()
    ensures Latest(BOTH_WAYS, BOTH_WAYS_STAGES)
  {
    var b, s := BOTH_WAYS, BOTH_WAYS_STAGES;
    assert IsUser(b, 1, 0) && IsUser(b, 4, 3);
    assert SharesStageWithUser(b, s, 0) && SharesStageWithUser(b, s, 3);
    forall i | 0 <= i < |b| && !IsFixed(b, i)
      ensures i == 0 || i == 3
    {
      var u :| 0 <= u < |b| && IsUser(b, u, i);
      BothWaysUsers(u, i);
    }
  }

  lemma BothWaysLeast(a: seq<int>)
    requires IsPipelining(BOTH_WAYS, a)
    ensures 0 <= a[1] && 1 <= a[2] && 1 <= a[4]
  {
    var b := BOTH_WAYS;
    assert IsUser(b, 4, 3) && IsUser(b, 3, 2) && WritesTo(b, 1, 2);
  }

  lemma BothWaysCanonical()
    ensures Canonical(BOTH_WAYS, BOTH_WAYS_STAGES)
  {
    hide Latest, IsPipelining;
    var b, s := BOTH_WAYS, BOTH_WAYS_STAGES;
    BothWaysPipelining();
    BothWaysLatest();
    forall a, i | IsPipelining(b, a) && 0 <= i < |b| && IsFixed(b, i)
      ensures i < |a| && s[i] <= a[i]
    {
      BothWaysLeast(a);
      PipeliningLength(b, a);
      assert i == 3 ==> IsUser(b, 4, 3);
    }
  }

  lemma PipeliningLength(b: Block, a: seq<int>)
    requires IsPipelining(b, a)
    ensures |a| == |b| && forall i | 0 <= i < |a| :: 0 <= a[i]
  {
  }

  lemma BothWaysRegisters()
    ensures SingleWrites(BOTH_WAYS) && ReadsUnique(BOTH_WAYS)
  {
    assert UniqueRead(BOTH_WAYS, 0, 2);
  }

  lemma BothWaysOperands(i: nat, k: nat)
    requires i < |BOTH_WAYS| && k < |BOTH_WAYS[i].operands|
    ensures BOTH_WAYS[i].operands[k] < |BOTH_WAYS|
  {
  }

  lemma BothWaysOk()
    ensures BlockOk(BOTH_WAYS)
  {
    var b := BOTH_WAYS;
    forall i, k | 0 <= i < |b| && 0 <= k < |b[i].operands|
      ensures b[i].operands[k] < |b|
    {
      BothWaysOperands(i, k);
    }
  }

  lemma BothWaysOrder()
    ensures IsTopoSort(BOTH_WAYS, Listed(BOTH_WAYS))
  {
    hide IsTopoSort;
    var b := BOTH_WAYS;
    forall u, i | 0 <= u < |b| && 0 <= i < |b| && IsUser(b, u, i)
      ensures i < u
    {
      BothWaysUsers(u, i);
    }
    ListedIsTopoSort(b);
  }

  /** Uneven paths, which are documented as an error, and accepted. */
  lemma UnevenAccepted()
    ensures BlockOk(BOTH_WAYS) && SingleWrites(BOTH_WAYS) && IsTopoSort(BOTH_WAYS, Listed(BOTH_WAYS))
    ensures UnevenPaths(BOTH_WAYS)
    ensures ReadsUnique(BOTH_WAYS) && !Graphs.Cyclic(Dependencies(BOTH_WAYS)) && DataPathsReachWrites(BOTH_WAYS)
  {
    hide UnevenPaths, IsTopoSort, Canonical, IsPipelining, Dependencies, Graphs.Cyclic, DataBesideWrites,
         DataPathsReachWrites, BlockOk, SingleWrites, ReadsUnique;
    var b, s := BOTH_WAYS, BOTH_WAYS_STAGES;
    BothWaysOk();
    BothWaysRegisters();
    BothWaysOrder();
    assert IsUser(b, 3, 0) && IsUser(b, 1, 0) && WritesTo(b, 1, 2) && IsUser(b, 3, 2);
    UsedTwice(b, 0, 1, 2, 3);
    BothWaysPipelining();
    PipeliningIsAcyclic(b, Listed(b), s);
    BothWaysCanonical();
    BesideExactly(b, Listed(b), s);
    DataToldFromPaths(b);
  }

  /** A register that takes an input under a load enable from a later stage. */
  const LATE_INPUT: Block := [
    Node(InputPort, []), Node(RegisterWrite(0), [0]), Node(RegisterRead(0), []),
    Node(InputPort, []), Node(RegisterWrite(1), [3, 2]), Node(RegisterRead(1), [])]

  const LATE_INPUT_STAGES: seq<int> := [0, 0, 1, 1, 1, 2]

  lemma LateInputUsers(u: nat, i: nat)
    requires u < |LATE_INPUT| && IsUser(LATE_INPUT, u, i)
    ensures (u == 1 && i == 0) || (u == 4 && (i == 2 || i == 3))
  {
  }

  lemma LateInputWrites(w: nat, r: nat)
    requires w < |LATE_INPUT| && r < |LATE_INPUT| && WritesTo(LATE_INPUT, w, r)
    ensures (w == 1 && r == 2) || (w == 4 && r == 5)
  {
  }

  lemma LateInputPipelining()
    ensures IsPipelining(LATE_INPUT, LATE_INPUT_STAGES)
  {
    var b, s := LATE_INPUT, LATE_INPUT_STAGES;
    forall u, i | 0 <= u < |b| && 0 <= i < |b| && IsUser(b, u, i)
      ensures s[i] <= s[u]
    {
      LateInputUsers(u, i);
    }
    forall w, r | 0 <= w < |b| && 0 <= r < |b| && WritesTo(b, w, r)
      ensures s[r] == s[w] + 1
    {
      LateInputWrites(w, r);
    }
  }

  lemma LateInputLatest()
    ensures Latest(LATE_INPUT, LATE_INPUT_STAGES)
  {
    var b, s := LATE_INPUT, LATE_INPUT_STAGES;
    assert IsUser(b, 1, 0) && IsUser(b, 4, 3);
    assert SharesStageWithUser(b, s, 0) && SharesStageWithUser(b, s, 3);
    forall i | 0 <= i < |b| && !IsFixed(b, i)
      ensures i == 0 || i == 3
    {
      var u :| 0 <= u < |b| && IsUser(b, u, i);
      LateInputUsers(u, i);
    }
  }

  lemma LateInputLeast(a: seq<int>)
    requires IsPipelining(LATE_INPUT, a)
    ensures 0 <= a[1] && 1 <= a[2] && 1 <= a[4] && 2 <= a[5]
  {
    var b := LATE_INPUT;
    assert WritesTo(b, 1, 2) && IsUser(b, 4, 2) && WritesTo(b, 4, 5);
  }

  lemma LateInputCanonical()
    ensures Canonical(LATE_INPUT, LATE_INPUT_STAGES)
  {
    hide Latest, IsPipelining;
    var b, s := LATE_INPUT, LATE_INPUT_STAGES;
    LateInputPipelining();
    LateInputLatest();
    forall a, i | IsPipelining(b, a) && 0 <= i < |b| && IsFixed(b, i)
      ensures i < |a| && s[i] <= a[i]
    {
      LateInputLeast(a);
      PipeliningLength(b, a);
      assert i == 3 ==> IsUser(b, 4, 3);
    }
  }

  lemma LateInputOperands(i: nat, k: nat)
    requires i < |LATE_INPUT| && k < |LATE_INPUT[i].operands|
    ensures LATE_INPUT[i].operands[k] < |LATE_INPUT|
  {
  }

  lemma LateInputOk()
    ensures BlockOk(LATE_INPUT)
  {
    var b := LATE_INPUT;
    forall i, k | 0 <= i < |b| && 0 <= k < |b[i].operands|
      ensures b[i].operands[k] < |b|
    {
      LateInputOperands(i, k);
    }
  }

  lemma LateInputOrder()
    ensures IsTopoSort(LATE_INPUT, Listed(LATE_INPUT))
  {
    hide IsTopoSort;
    var b := LATE_INPUT;
    forall u, i | 0 <= u < |b| && 0 <= i < |b| && IsUser(b, u, i)
      ensures i < u
    {
      LateInputUsers(u, i);
    }
    ListedIsTopoSort(b);
  }

  lemma LateInputReads()
    ensures ReadsUnique(LATE_INPUT)
  {
    assert UniqueRead(LATE_INPUT, 0, 2) && UniqueRead(LATE_INPUT, 1, 5);
  }

  /** The input moves beside the write, so the block is accepted. */
  lemma LateInputAccepted()
    ensures BlockOk(LATE_INPUT) && IsTopoSort(LATE_INPUT, Listed(LATE_INPUT))
    ensures ReadsUnique(LATE_INPUT) && WalksBounded(LATE_INPUT) && DataBesideWrites(LATE_INPUT)
  {
    hide IsTopoSort, Canonical, IsPipelining, WalksBounded, DataBesideWrites, BlockOk, ReadsUnique;
    var b, s := LATE_INPUT, LATE_INPUT_STAGES;
    LateInputOk();
    LateInputReads();
    LateInputOrder();
    LateInputPipelining();
    PipelinableExactly(b);
    LateInputCanonical();
    BesideExactly(b, Listed(b), s);
  }

  /** A register whose data is ready earlier than its other operand. */
  const EARLY_DATA: Block := [
    Node(InputPort, []), Node(InputPort, []),
    Node(RegisterWrite(0), [0]), Node(RegisterRead(0), []),
    Node(RegisterWrite(1), [1]), Node(RegisterRead(1), []),
    Node(RegisterWrite(2), [5]), Node(RegisterRead(2), []),
    Node(RegisterWrite(3), [3, 7]), Node(RegisterRead(3), [])]

  const EARLY_DATA_STAGES: seq<int> := [1, 0, 1, 2, 0, 1, 1, 2, 2, 3]
  const EARLIEST_STAGES: seq<int> := [0, 0, 0, 1, 0, 1, 1, 2, 2, 3]

  lemma EarlyDataUsers(u: nat, i: nat)
    requires u < |EARLY_DATA| && IsUser(EARLY_DATA, u, i)
    ensures (u == 2 && i == 0) || (u == 4 && i == 1) || (u == 6 && i == 5) || (u == 8 && (i == 3 || i == 7))
  {
  }

  lemma EarlyDataWrites(w: nat, r: nat)
    requires w < |EARLY_DATA| && r < |EARLY_DATA| && WritesTo(EARLY_DATA, w, r)
    ensures (w == 2 && r == 3) || (w == 4 && r == 5) || (w == 6 && r == 7) || (w == 8 && r == 9)
  {
  }

  lemma EarlyDataPipelining(s: seq<int>)
    requires s == EARLY_DATA_STAGES || s == EARLIEST_STAGES
    ensures IsPipelining(EARLY_DATA, s)
  {
    var b := EARLY_DATA;
    forall u, i | 0 <= u < |b| && 0 <= i < |b| && IsUser(b, u, i)
      ensures s[i] <= s[u]
    {
      EarlyDataUsers(u, i);
    }
    forall w, r | 0 <= w < |b| && 0 <= r < |b| && WritesTo(b, w, r)
      ensures s[r] == s[w] + 1
    {
      EarlyDataWrites(w, r);
    }
  }

  /** Neither uneven paths nor a cycle, so no documented error. */
  lemma EarlyDataDocumented()
    ensures BlockOk(EARLY_DATA) && SingleWrites(EARLY_DATA)
    ensures !UnevenPaths(EARLY_DATA) && !Graphs.Cyclic(Dependencies(EARLY_DATA))
  {
    hide UnevenPaths, Graphs.Cyclic, Dependencies, IsTopoSort, IsPipelining;
    var b, s := EARLY_DATA, EARLY_DATA_STAGES;
    EarlyDataPipelining(s);
    forall u, i | 0 <= u < |b| && 0 <= i < |b| && IsUser(b, u, i)
      ensures s[i] == s[u] && i < u
    {
      EarlyDataUsers(u, i);
    }
    ListedIsTopoSort(b);
    PipeliningIsAcyclic(b, Listed(b), s);
    SameStagesMeanEven(b, s);
  }

  /** This block has a pipelining with the data of every register beside its write, and is refused all the same: the
      canonical pipelining puts registers as early as possible, and data and write apart. */
  lemma BesideRefused()
    ensures !UnevenPaths(EARLY_DATA) && !Graphs.Cyclic(Dependencies(EARLY_DATA))
    ensures IsPipelining(EARLY_DATA, EARLY_DATA_STAGES)
    ensures forall w | 0 <= w < |EARLY_DATA| && EARLY_DATA[w].kind.RegisterWrite? ::
              EARLY_DATA_STAGES[EARLY_DATA[w].operands[0]] == EARLY_DATA_STAGES[w]
    ensures forall s | Canonical(EARLY_DATA, s) :: s[EARLY_DATA[8].operands[0]] < s[8]
  {
    hide UnevenPaths, Graphs.Cyclic, Dependencies;
    var b := EARLY_DATA;
    EarlyDataDocumented();
    EarlyDataPipelining(EARLY_DATA_STAGES);
    EarlyDataPipelining(EARLIEST_STAGES);
    forall s | Canonical(b, s)
      ensures s[3] < s[8]
    {
      CanonicalApart(s);
    }
  }

  lemma CanonicalApart(s: seq<int>)
    requires Canonical(EARLY_DATA, s) && IsPipelining(EARLY_DATA, EARLIEST_STAGES)
    ensures s[3] < s[8]
  {
    hide Latest;
    var b := EARLY_DATA;
    assert IsFixed(b, 3) && s[3] <= EARLIEST_STAGES[3];
    assert WritesTo(b, 4, 5) && IsUser(b, 6, 5) && WritesTo(b, 6, 7) && IsUser(b, 8, 7);
  }
}
