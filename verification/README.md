# Verified core of the XLS code generator

XLS compiles a dataflow IR to Verilog. This project models its most intricate algorithms in Dafny
and proves what they promise. `dafny verify dfyconfig.toml` checks everything.

**Elastic pipelines** (`ElasticPipeline`, `ProcOutputs`, `PipelineProgress`, `SequentialProc`, `PipelineCompleteness`,
`ScheduledProc`, `ScheduledPipeline`, `HandshakeBuffers`, `BufferedPipeline`, `BufferedRuns`, `BufferedNodes`). A scheduled proc becomes pipeline stages with valid registers, bubble flow control, ready/valid
ports, one-shot output logic and optional buffers. The generated circuit is a step function on its registers, for any number of stages and arbitrary
port behaviour, and the theorems are about every run: tokens are conserved and stay in order, a stage is blocked
exactly by an unbroken row of full stages, every send transfers exactly once per firing, and the iterations that leave
the pipeline are those of the sequential proc on the items consumed. For the stages that any legal schedule cuts out of
a graph of nodes, these are the iterations of the nodes run one after the other; one-shot logic may be left out where
the nodes have exclusive sends, wherever the schedule puts them. Each buffer is a queue, and with buffers all around the
same holds between the outer ports, for whatever is driven there. The pipeline never blocks itself, and where no port
hinders it, it finishes one iteration per cycle. Conversely, whatever the nodes can do with the items offered the
pipeline does, one iteration per cycle after it has filled, and a stage that waits for its outputs fires once each of them
has been ready.

**Function pipelines** (`FunctionPipeline`). The cloning pass works on its node map and block in place. For every legal
schedule its lookups never miss and the output is the function of the arguments of exactly L cycles earlier. A stage has
a register for exactly the values that are used later.

**Decision diagrams** (`Bdd`). The node table, uniqueness map and memo are fields of a class. If-then-else is correct
under every valuation, and in every reachable state equal functions have equal indices. Evaluation fails exactly where
the way that the given values select meets a variable without one.

**Graph algorithms** (`Graphs`, `Scc`, `LongestPaths`, `Coloring`). Tarjan's components, Kahn's sort with all-pairs
longest paths, and Recursive-Largest-First colouring with its bound.

**Finite state machines** (`FsmBlocks`, `FsmOutputs`). Sinking defaults, hoisting common assignments and emission leave every output
assigned exactly once on every path of every state. An output is hoisted exactly when all its right-hand sides are the
same, and no conditional is left that assigns it the same on all alternates.

**Stage reconstruction** (`StageSplit`, `StageSplitCases`). The worklist terminates on every block and finds the least
assignment or shows that there is none, which, with one write to each register as the IR verifier demands, is so exactly
when the dependencies through registers are cyclic.

**Lowering to Verilog** (`VastPrinter`, `VastParentheses`, `Words`, `Verilog`, `VerilogText`, `IrValues`, `Flattening`, `ArrayLowering`, `ModuleBuilding`,
`BitLowering`). `Verilog` gives the generated expressions a meaning in which an illegal expression, an index out of
bounds or a shift by the width or more denotes nothing, so that a theorem about a value also says that every omitted
guard is unreachable. `VerilogText` carries these theorems over to the emitted text. `UBits` may only be called with a value that fits, so no literal overflows its width.
The text reads back as the expression, and its parentheses are the fewest with which it does, apart from those around
reductions in binary expressions and around conditionals in the branches of others, which are written for the reader.

Where the code and its documentation disagree the code is followed.

- `SplitBlockIntoStages` documents two errors: cyclic dependencies, counting paths through registers, and two paths
  between the same nodes with different numbers of registers. A stage assignment is impossible exactly in the first
  case (`AcyclicExactly`). The second is neither needed for an error nor enough for one: `UnevenAccepted` gives a block
  in that case that is accepted, and `BesideRefused` one in neither case that is refused. What is also checked is that
  the data of a register is in the stage of its write, after the stages have been chosen with registers as early as
  possible. The contract of `SplitBlockIntoStages` says on the block alone which blocks are refused.
- `AddDefaultOutputAssignments` refuses an output that may be assigned more than once along a code path. It counts as if
  all conditions were independent, so a block that asks the same condition twice may be refused although every path
  assigns the output once. `RefusedWithoutTwice` gives such a block and `RefusalIsExact` says which blocks these are.
- The output logic means to assign every output exactly once on every path. Outputs that share a variable are assigned
  once each where the state register holds no state; `OnceUnlessShared` gives the condition.
- An expression is not always read back from its text: an index or slice of a variable declared without a width is left
  out. `TextReads` says exactly when it is read back, and `DroppedMeans` that its value is the same.
- The comment in `graph_coloring.h` calls the first part of a measure positive; it is non-negative, which suffices.

## Model

| member | source | states |
|---|---|---|
| ElasticPipeline.FlowControl | xls/codegen/block_conversion.cc:375-515 | The two loops over the stages compute, for every stage, exactly the valid, done, next-stage-open and load-enable signals of the circuit |
| ElasticPipeline.BlockedExactlyByFullRow | xls/codegen/block_conversion.cc:462-512 | Bubbles collapse: a stage is blocked if and only if an unbroken row of valid stages after it ends in one that is not done |
| ElasticPipeline.RegisterBalance | xls/codegen/block_conversion.cc:462-512 | A valid register is set exactly when its stage fires or it stays unread; a stage only fires into an empty or draining register and only fires on a token |
| ElasticPipeline.FiringTakesOnlyActive | xls/codegen/block_conversion.cc:842-962 | An item is accepted on an input exactly in the cycles in which its stage fires with the receive predicate true |
| ElasticPipeline.NowIsGated | xls/codegen/block_conversion.cc:2004-2181 | An active receive yields the port data and an inactive one yields zero |
| ElasticPipeline.StageStep | xls/codegen/block_conversion.cc:2185-2219 | One cycle keeps: the state register holds the next-state iterate of the firings so far, and the consumed items are those of the active receives |
| ElasticPipeline.LinkStep | xls/codegen/block_conversion.cc:181-234 | One cycle keeps: firings of a stage exceed those of the next by one exactly when the register between them is valid, and the k-th firing downstream sees the output of the k-th firing upstream |
| ElasticPipeline.EveryRunIsTraced | xls/codegen/block_conversion.cc:181-515 | In every run of any length, with any number of stages and any port behaviour, no token is lost, duplicated or reordered, and every stage threads its state |
| ProcOutputs.ExclusiveTransfersExactlyOnFiring | xls/codegen/block_conversion.cc:779-933 | In a cycle in which no waiting stage has two active sends, an output transfers if and only if its stage fires with the predicate true |
| ProcOutputs.ExclusiveOutputsExactlyOnce | xls/codegen/block_conversion.cc:779-933 | In every run without such a cycle the delivered items of each output are those its firings gave it, in order |
| ProcOutputs.WaitingPersists | xls/codegen/block_conversion.cc:1400-1495 | Once the next stage is open and the inputs are there, both stay so, on the same data, until the stage fires, provided upstream holds |
| ProcOutputs.OneShotCases | xls/codegen/block_conversion.cc:1400-1495 | What one cycle does to a has-been-sent register and a transfer, in the three cases firing, waiting after a send, and neither |
| ProcOutputs.MarkedExactly | xls/codegen/block_conversion.cc:1461-1493 | A send is marked as sent if and only if it was or is transferred and some active send of the stage has not been ready yet |
| ProcOutputs.OneShotStep | xls/codegen/block_conversion.cc:1400-1495 | One cycle keeps the exactly-once invariant and that a recorded send belongs to a stage that still waits with it active |
| ProcOutputs.OneShotOutputsExactlyOnce | xls/codegen/block_conversion.cc:1400-1495 | When upstream holds until accepted, every send transfers exactly once per firing with its predicate true and never otherwise, over every run; that the stage does fire is said by OneShotFires |
| SequentialProc.TakeInputsReplays | xls/codegen/block_conversion.cc:2004-2181 | The sequential receives of a stage, on the items the circuit took, reproduce the logged firing |
| SequentialProc.StageReplays | xls/codegen/block_conversion.cc:2004-2219 | All receives of a stage replay, leaving the items of the later firings |
| SequentialProc.RunStagesReplays | xls/codegen/block_conversion.cc:1947-2219 | One sequential iteration does, stage by stage, what the k-th firings did |
| SequentialProc.IterationsReplay | xls/codegen/block_conversion.cc:1947-2219 | k sequential iterations reach the state registers and queues that k firings of every stage leave |
| SequentialProc.EarlierStagesAhead | xls/codegen/block_conversion.cc:181-515 | At any time an earlier stage has fired at least as often as a later one |
| SequentialProc.PipelineRefinesProc | xls/codegen/block_conversion.cc:779-962 | Refinement, in-flight iterations included: run up to any stage for as many iterations as that stage fired, on the items the circuit consumed, the sequential proc does not block and does in each stage what the firings did |
| SequentialProc.PipelineSendsWhatProcSends | xls/codegen/block_conversion.cc:779-962 | What each output delivered is what the sequential proc sends in those iterations, in order, followed with one-shot logic by at most the item of the firing its stage waits to make; without it no waiting stage of the run may have two active sends |
| SequentialProc.CutIsTraced | xls/codegen/block_conversion.cc:181-515 | The first stages of a pipeline run as a pipeline of their own |
| ScheduledProc.NodesMean | xls/codegen/block_conversion.cc:1838-1882 | Running the nodes of a proc one after the other gives each the value it means, and stops exactly when an active receive has no item |
| ScheduledProc.StageValMeans | xls/codegen/block_conversion.cc:1838-1922 | In its stage a node has the value it means, from what is carried in, the state held there and the data received so far |
| ScheduledProc.PredMeans | xls/codegen/block_conversion.cc:2004-2181 | The predicate of a receive or send holds in its stage exactly when it holds in the proc |
| ScheduledProc.TakeInputsMeans | xls/codegen/block_conversion.cc:2004-2134 | The receives of a stage take the items they take in the proc, and one blocks exactly when it does there |
| ScheduledProc.OutMeans | xls/codegen/block_conversion.cc:1885-1922 | Carrying exactly the values with a later use, what leaves a stage is what the next one needs |
| ScheduledProc.StateMeans | xls/codegen/block_conversion.cc:1947-2219 | The next state of a stage holds, in their places, the next values of the elements it holds |
| ScheduledProc.StagesRun | xls/codegen/block_conversion.cc:1838-1922 | Running the stages of a legal schedule gives every node the value it means, and stops exactly when a receive blocks |
| ScheduledProc.IterationIsUnscheduled | xls/codegen/block_conversion.cc:1838-2219 | One iteration of the stages cut by any legal schedule is one iteration of the nodes of the proc: it blocks exactly when that does, and leaves the same state and items |
| ScheduledProc.CarriesOnlyWhatIsUsed | xls/codegen/block_conversion.cc:1885-1922 | A stage carries nothing on that is not computed yet or not used after it |
| ScheduledProc.SendMeans | xls/codegen/block_conversion.cc:2136-2181 | A send gives in its stage what it sends in the proc |
| ScheduledProc.IterationsAreUnscheduled | xls/codegen/block_conversion.cc:1838-2219 | k iterations of the stages are k iterations of the nodes and send the same items |
| ScheduledPipeline.FiringJoined | xls/codegen/block_conversion.cc:1838-2181 | Any gated firing of a stage on what enters it in one iteration and on the state of another is the firing of an iteration |
| ScheduledPipeline.FiringReached | xls/codegen/block_conversion.cc:1838-2219 | Every firing that the pipeline made or is about to make, in any run, is that of an iteration of the nodes, on values that the state and the ports can hold |
| ScheduledPipeline.ExclusiveNodesSendExclusively | xls/codegen/bdd_io_analysis.cc:54-95 | If in no iteration of the nodes two sends of a stage are active, then in no run of the pipeline of any legal schedule they are, also when the predicates come out of registers |
| ScheduledPipeline.PredicatesInRegisters | xls/codegen/bdd_io_analysis.cc:54-95 | A proc with exclusive sends and a schedule that carries both predicates in registers, so that the stage alone does not show them exclusive |
| ScheduledPipeline.PipelineSendsWhatNodesSend | xls/codegen/block_conversion.cc:2656-2688 | End to end: what an output of the pipelined circuit of a scheduled proc delivered is what its send node sends when the nodes run one after the other, iteration after iteration, on the items taken; one-shot logic may be left out if the nodes of each stage are exclusive; up to the last stage nothing is left of the schedule |
| ScheduledPipeline.PipelineDoesWhatNodesCan | xls/codegen/block_conversion.cc:2656-2688 | If the nodes can run k iterations one after the other on the queues that the ports supply, and active sends are ready, stage n has made them after k + n cycles and its sends gave what the nodes send |
| HandshakeBuffers.TickIsQueueStep | xls/codegen/block_conversion.cc:991-1154 | One clock edge of any of the three buffers appends what is accepted and removes what is delivered, and never exceeds the capacity |
| HandshakeBuffers.AcceptsWhenRoom | xls/codegen/block_conversion.cc:991-1216 | When a buffer is ready and when it offers: exactly by its contents, except that the flop also accepts while it drains and is ready for valid data only, and that the zero-latency buffer passes data on |
| HandshakeBuffers.BufferIsQueue | xls/codegen/block_conversion.cc:991-1216 | Over every run, accepted items are delivered items followed by held items, in order: the skid buffer is a queue of two, the flop and the zero-latency buffer queues of one |
| HandshakeBuffers.BufferHolds | xls/codegen/block_conversion.cc:2421-2533 | What a buffer offers it keeps offering, with the same data, until it is accepted, whatever upstream does |
| HandshakeBuffers.OfferedArrived | xls/codegen/block_conversion.cc:991-1216 | A buffer offers only items that arrived |
| BufferedPipeline.BufferedUpstreamHolds | xls/codegen/block_conversion.cc:1219-1247 | Buffered inputs satisfy the assumption of the one-shot guarantee in every run |
| BufferedPipeline.TakenFromBuffer | xls/codegen/block_conversion.cc:1219-1247 | What a stage has taken from a receive is what the buffer before it has delivered |
| BufferedPipeline.GivenToBuffer | xls/codegen/block_conversion.cc:1250-1313 | What a stage has given to a send is what the buffer after it has accepted |
| BufferedPipeline.BufferedPipelineSendsWhatProcSends | xls/codegen/block_conversion.cc:1316-1360 | With buffers on all inputs and outputs, what an outer output delivered followed by what its buffer holds is what the sequential proc sends on what the input buffers delivered, followed with one-shot logic by at most one item of the firing its stage waits to make; with one-shot logic nothing is asked of the environment |
| BufferedRuns.SettledAgrees | xls/codegen/block_conversion.cc:1316-1360 | The ready signals settle from the last stage to the first: no signal of a cycle depends on itself |
| BufferedRuns.BufferedRunExists | xls/codegen/block_conversion.cc:1316-1360 | Whatever is driven from outside, for any number of cycles there is a run in which the wires of the pipeline and of all buffers agree |
| BufferedNodes.BufferedPipelineSendsWhatNodesSend | xls/codegen/block_conversion.cc:1316-1360 | Between the outer ports: what an output delivered followed by what its buffer holds is what its send node sends when the nodes run one after the other on what the input buffers delivered |
| PipelineProgress.NeverBlocksItself | xls/codegen/block_conversion.cc:375-515 | In every cycle the last stage that has a token fires if and only if the ports of its active receives are valid and those of its active sends ready or served before |
| PipelineProgress.DoneExactly | xls/codegen/block_conversion.cc:842-933 | On the ports: a stage is done if and only if it has a token, the ports of its active receives are valid and those of its active sends ready or served before |
| PipelineProgress.IdleKeeps | xls/codegen/block_conversion.cc:462-512 | A stage without a token, waiting for a port or blocked keeps its data and state registers and takes nothing |
| PipelineProgress.OneShotFires | xls/codegen/block_conversion.cc:1400-1495 | A stage that waits with one-shot logic fires, with the data it waits with, once each active send has been ready in some cycle, no matter which |
| PipelineProgress.ExclusiveFires | xls/codegen/block_conversion.cc:779-933 | Without it, a stage with exclusive sends fires in a cycle in which its active send is ready |
| PipelineProgress.UnhinderedFires | xls/codegen/block_conversion.cc:375-515 | Where no stage from some stage on waits for a port, those that have a token all fire |
| PipelineProgress.FullThroughput | xls/codegen/block_conversion.cc:375-515 | If from some cycle on no stage waits for a port, as when all inputs are valid and all outputs ready, stage n fires in every cycle from n cycles later on |
| PipelineProgress.OpenPortsFlow | xls/codegen/block_conversion.cc:375-515 | With all inputs valid and all outputs ready from some cycle on, no stage waits for a port from then on |
| PipelineProgress.OneIterationPerCycle | xls/codegen/block_conversion.cc:375-515 | From reset, unhindered, stage n has finished exactly u - n iterations before cycle u, and none before cycle n |
| PipelineCompleteness.IterateIs | xls/codegen/block_conversion.cc:842-962 | Iteration k of the sequential proc sees the state after k firings and takes from each queue the items after those taken before |
| PipelineCompleteness.FiringMatches | xls/codegen/block_conversion.cc:842-962 | What a stage does for an iteration that the sequential proc can run on the items supplied is what that does |
| PipelineCompleteness.NowMatches | xls/codegen/block_conversion.cc:842-962 | A stage with a token for such an iteration has the data that the sequential proc would see, and no port hinders it |
| PipelineCompleteness.Advances | xls/codegen/block_conversion.cc:375-515 | A stage is behind by at most one iteration per stage before it |
| PipelineCompleteness.PipelineDoesWhatProcCan | xls/codegen/block_conversion.cc:375-515 | If the sequential proc can run k iterations on the queues that the ports supply, and active sends are ready, stage n has made them after k + n cycles, firing by firing the same |
| FunctionPipeline.MaybeAddInputOutputFlops | xls/codegen/block_conversion.cc:65-98 | Fails exactly when a parameter is not in cycle 0, naming the first; otherwise the schedule stays legal, is one longer per flopped side, and every other node is one cycle later exactly with flopped inputs |
| FunctionPipeline.ValidIsDelayed | xls/codegen/block_conversion.cc:149-175 | The pipelined valid is the valid input of that many cycles earlier |
| FunctionPipeline.MakePipelineStagesForValid | xls/codegen/block_conversion.cc:149-175 | The chain of valid registers it builds shows, for every stage, the valid input of that many cycles earlier |
| FunctionPipeline.RegisterShows | xls/codegen/block_conversion.cc:1885-1922 | A register shows what it was written from one cycle earlier, if it was enabled |
| FunctionPipeline.RegisterKeeps | xls/codegen/block_conversion.cc:598-620 | With valid gating a register keeps its value in a cycle whose data, from as many cycles earlier as the stage is deep, is not valid |
| FunctionPipeline.RegisterComputes | xls/codegen/block_conversion.cc:577-644 | A register at the end of a stage adds one cycle to the delay with which a node computes, also when only valid data loads it |
| FunctionPipeline.CloneComputes | xls/codegen/block_conversion.cc:1838-1882 | A clone over operands of equal delay computes the node with that delay |
| FunctionPipeline.Cloner.constructor | xls/codegen/block_conversion.cc:1804-1836 | Starts with nothing cloned |
| FunctionPipeline.Cloner.CloneNode | xls/codegen/block_conversion.cc:1838-1882 | Cloning a node of a stage keeps every mapped node computing its original at the delay of the stage |
| FunctionPipeline.Cloner.NewOperands | xls/codegen/block_conversion.cc:1838-1882 | Lookups never miss, and each operand found computes its original at the delay of the stage |
| FunctionPipeline.Cloner.CloneNodes | xls/codegen/block_conversion.cc:1838-1882 | After a stage every node scheduled in it is mapped and computes at that stage |
| FunctionPipeline.Cloner.AddNextPipelineStage | xls/codegen/block_conversion.cc:1885-1922 | Every value live into the next stage is mapped to a register that computes one cycle later; the registers added are those of the values computed so far that are used later or returned, in order, and none after the last stage |
| FunctionPipeline.CloneNodesIntoPipelinedBlock | xls/codegen/block_conversion.cc:2338-2354 | For every legal schedule the output equals the function of the arguments of length - 1 cycles earlier, and each stage has one register for each value used later or returned |
| FunctionPipeline.FunctionToPipelinedBlock | xls/codegen/block_conversion.cc:2544-2619 | Latency is length - 1 plus one per flopped side; valid-out is valid-in of exactly that many cycles earlier, and with valid gating the output is then the function of the arguments |
| Bdd.BinaryDecisionDiagram.constructor | xls/data_structures/binary_decision_diagram.cc:30-37 | The two leaves make a valid state |
| Bdd.BinaryDecisionDiagram.GetOrCreateNode | xls/data_structures/binary_decision_diagram.cc:39-59 | Returns the unique node with the key, or the child when both are equal; order, uniqueness, memo and path counts survive |
| Bdd.BinaryDecisionDiagram.Restrict | xls/data_structures/binary_decision_diagram.cc:61-73 | Returns the cofactor; the ordering check holds at every call, and the index drops when the variable is tested |
| Bdd.BinaryDecisionDiagram.IfThenElse | xls/data_structures/binary_decision_diagram.cc:75-130 | Terminates, and the result denotes the if-then-else of the arguments under every valuation; the state stays valid, a question that is not answered at once is remembered with its answer, and asking it again changes nothing |
| Bdd.BinaryDecisionDiagram.MinVariable | xls/data_structures/binary_decision_diagram.cc:100-109 | Finds the earliest variable tested by the three arguments |
| Bdd.BinaryDecisionDiagram.Expand | xls/data_structures/binary_decision_diagram.cc:111-129 | Expansion about the earliest variable denotes the if-then-else |
| Bdd.BinaryDecisionDiagram.Join | xls/data_structures/binary_decision_diagram.cc:116-129 | The node joining the two cofactors, or the cofactor when they are equal, denotes the if-then-else |
| Bdd.BinaryDecisionDiagram.NewVariable | xls/data_structures/binary_decision_diagram.cc:132-136 | The new node denotes the fresh variable and is new |
| Bdd.BinaryDecisionDiagram.Not | xls/data_structures/binary_decision_diagram.cc:138-140 | Denotes the negation under every valuation |
| Bdd.BinaryDecisionDiagram.Or | xls/data_structures/binary_decision_diagram.cc:142-144 | Denotes the disjunction under every valuation |
| Bdd.BinaryDecisionDiagram.And | xls/data_structures/binary_decision_diagram.cc:146-148 | Denotes the conjunction under every valuation |
| Bdd.BinaryDecisionDiagram.Evaluate | xls/data_structures/binary_decision_diagram.cc:150-180 | Following the given values from the node takes one way: the result is the leaf it ends in, or an error naming the variable of the node where a value is missing, and it succeeds if and only if a leaf is reached; the value is that under every valuation that agrees |
| Bdd.BinaryDecisionDiagram.StateIsCanonical | xls/data_structures/binary_decision_diagram.cc:39-148 | In every valid state two nodes with the same meaning are the same index; only leaf zero is unsatisfiable and only leaf one valid |
| Bdd.Canonicity | xls/data_structures/binary_decision_diagram.cc:39-59 | In an ordered table without duplicates, same Boolean function if and only if same index |
| Bdd.DifferentNodesDiffer | xls/data_structures/binary_decision_diagram.cc:39-59 | Builds a valuation that tells two different nodes apart |
| Bdd.ConstantsAreLeaves | xls/data_structures/binary_decision_diagram.h:139-156 | Unsatisfiable exactly the leaf zero, valid exactly the leaf one |
| Bdd.GrowthKeepsMeaning | xls/data_structures/binary_decision_diagram.cc:39-59 | Meaning and path count of a node survive growth of the table |
| Bdd.MemoSurvivesGrowth | xls/data_structures/binary_decision_diagram.cc:75-130 | Every memo entry stays correct as the table grows |
| Bdd.ShannonExpansion | xls/data_structures/binary_decision_diagram.cc:116-129 | A node over the if-then-else of both cofactors is the if-then-else |
| Bdd.AppendKeepsCounts | xls/data_structures/binary_decision_diagram.h:52-55 | path_count stays the number of paths, saturated at INT32_MAX |
| Bdd.FollowedMeans | xls/data_structures/binary_decision_diagram.cc:168-176 | Following the given values keeps the meaning under every valuation that agrees with them |
| Bdd.OneWay | xls/data_structures/binary_decision_diagram.cc:168-176 | There is only one way to follow the values to an end |
| Scc.StronglyConnectedComponents | xls/data_structures/strongly_connected_components.h:38-95 | The components are disjoint, are exactly the maximal mutually reachable sets, cover exactly the endpoints of edges, and none reaches a later one |
| Scc.Tarjan.constructor | xls/data_structures/strongly_connected_components.h:38-54 | The empty search state meets the invariant |
| Scc.Tarjan.StrongConnect | xls/data_structures/strongly_connected_components.h:55-86 | Terminates, keeps the invariant, and leaves the vertex in a finished component or linked below itself on the stack |
| Scc.Tarjan.LookAtAll | xls/data_structures/strongly_connected_components.h:62-73 | The loop over the neighbours keeps the invariant on low links for all of them |
| Scc.Tarjan.Look | xls/data_structures/strongly_connected_components.h:63-72 | One neighbour, in each of its three cases, keeps the loop invariant on low links |
| Scc.Tarjan.PopComponent | xls/data_structures/strongly_connected_components.h:75-85 | Pops exactly the vertices pushed since the root, as one component |
| Scc.LookAtVisited | xls/data_structures/strongly_connected_components.h:63-72 | After a recursive visit the lowered link still names a reachable stack vertex and bounds all links of visited neighbours |
| Scc.LookAtStacked | xls/data_structures/strongly_connected_components.h:63-72 | The same for a neighbour on the stack |
| Scc.PoppedIsClosed | xls/data_structures/strongly_connected_components.h:75-85 | When link equals index, edges leave the popped set only into finished components |
| Scc.PoppedIsScc | xls/data_structures/strongly_connected_components.h:75-85 | The popped set is a maximal mutually reachable set |
| Scc.LeaveStacked | xls/data_structures/strongly_connected_components.h:74-86 | A vertex that keeps a lower link stays on the stack and reaches a vertex still being visited |
| Scc.LeavePopped | xls/data_structures/strongly_connected_components.h:74-86 | Popping restores the stack from before the visit and keeps the invariant |
| Scc.ComponentsAreOrdered | xls/data_structures/strongly_connected_components.h:38-95 | An earlier component does not reach a later one |
| FsmOutputs.AddDefaultsWorks | xls/codegen/finite_state_machine.cc:261-305 | Succeeds if and only if the count of assignments, taken as if conditions were independent, is at most one; then the output is assigned exactly once on every path, to what was given or the default, and other variables keep their values |
| FsmOutputs.RefusalIsExact | xls/codegen/finite_state_machine.cc:261-305 | Refusal if and only if some path assigns the output more than once: this holds exactly for blocks whose count is at most one or that have two assignments with compatible guards, hence for all blocks that ask no condition twice on a path |
| FsmOutputs.RefusedWithoutTwice | xls/codegen/finite_state_machine.cc:294-298 | A block that asks one condition twice: every path assigns the output exactly once, and it is refused |
| FsmOutputs.RefusalNamesOutput | xls/codegen/finite_state_machine.cc:294-298 | Every refusal, also of a nested block, names the output |
| FsmBlocks.GuardsCount | xls/codegen/finite_state_machine.h:73-161 | On every path as many assignments are made as guards hold |
| FsmBlocks.TwiceMeansOverlap | xls/codegen/finite_state_machine.cc:266-298 | Some path assigns a variable more than once if and only if two of its assignments have compatible guards |
| FsmBlocks.MostIsReached | xls/codegen/finite_state_machine.cc:266-298 | If no path asks a condition twice, some path makes as many assignments as the source counts |
| FsmBlocks.TwiceExceedsMost | xls/codegen/finite_state_machine.cc:266-298 | A path with two assignments always makes the count exceed one; the converse holds where no path asks a condition twice |
| FsmOutputs.WithFinalSame | xls/codegen/finite_state_machine.cc:250-259 | Adding an empty final alternate changes no assignment |
| FsmOutputs.HoistWorks | xls/codegen/finite_state_machine.cc:367-421 | Hoisting an output assigned exactly once never fails, keeps it so with the same value on every path, and leaves other variables alone; what is hoisted is said by HoistsCommon |
| FsmBlocks.SideIsReached | xls/codegen/finite_state_machine.cc:367-421 | If no path asks a condition twice, every right-hand side is assigned on some path |
| FsmOutputs.SameIsAlike | xls/codegen/finite_state_machine.cc:342-363 | Expressions compare the same if and only if they have the same value for all values of expressions |
| FsmOutputs.HoistsExactly | xls/codegen/finite_state_machine.cc:367-421 | A value is hoisted if and only if all right-hand sides for the output in the block are like it; no conditional then assigns the output, and none is left that assigns it the same on all alternates |
| FsmOutputs.HoistsCommon | xls/codegen/finite_state_machine.cc:367-421 | Some value is hoisted if and only if all right-hand sides for the output are alike, and it is one of them |
| FsmOutputs.HoistsWhenPathsAgree | xls/codegen/finite_state_machine.cc:367-421 | If no path asks a condition twice, some value is hoisted if and only if all paths assign the same |
| FsmOutputs.HoistedIsFirst | xls/codegen/finite_state_machine.cc:346-363 | When all alternates agree, the hoisted value is what every path assigned |
| FsmOutputs.RemoveFromAllWorks | xls/codegen/finite_state_machine.cc:319-336 | Removing the assignment from every alternate hits none of the errors and leaves none |
| FsmOutputs.EmissionPreserves | xls/codegen/finite_state_machine.cc:25-106 | Executing the emitted statements assigns what the block assigns, to every variable on every path |
| FsmOutputs.EmissionTrims | xls/codegen/finite_state_machine.cc:25-127 | No conditional or else part without assignments is emitted, and none with assignments is left out |
| FsmOutputs.DefaultThenHoist | xls/codegen/finite_state_machine.cc:455-463 | Default then hoist on one output succeeds, drives it exactly once and touches no other variable |
| FsmOutputs.ProcessNext | xls/codegen/finite_state_machine.cc:455-463 | Processing one more output keeps all outputs processed before |
| FsmOutputs.HoistedNext | xls/codegen/finite_state_machine.cc:455-463 | Default then hoist on one more output leaves the outputs before it hoisted |
| FsmOutputs.DrivesAgain | xls/codegen/finite_state_machine.cc:455-463 | A second output on the same variable finds it assigned and changes no value |
| FsmOutputs.FsmState.constructor | xls/codegen/finite_state_machine.h:73-161 | Holds the block of the state |
| FsmOutputs.FsmState.AddDefaultOutputAssignments | xls/codegen/finite_state_machine.cc:261-305 | In place; fails, naming the output, whenever some path assigns it more than once, and only then if no path asks a condition twice; otherwise every path assigns it once, with its value or the default, and every other variable as before |
| FsmOutputs.FsmState.HoistCommonConditionalAssignments | xls/codegen/finite_state_machine.cc:367-421 | In place, on any block; never fails on an output assigned exactly once, and leaves it so, with the same value on every path, and every other variable as before. It returns a value if and only if all right-hand sides for the output are alike; no conditional then assigns it, and none ever assigns it the same on all alternates |
| FsmOutputs.FsmState.ProcessOutputs | xls/codegen/finite_state_machine.cc:455-463 | All outputs in turn; fails whenever some path assigns an output more than once, and only then if no path asks a condition twice, naming the first such output; otherwise all are assigned once and no conditional assigns one the same on all alternates |
| FsmOutputs.BuildOutputLogic | xls/codegen/finite_state_machine.cc:423-487 | Refused whenever some path of a state assigns an output more than once, and only then if no path asks a condition twice. Otherwise in every state each output variable is assigned exactly once on every path, to what the state says or the default of the first output on it; outside the states every output assigns its default, by an arm that is there if and only if such values exist. The error names the first refused output of the first state that has one |
| FsmOutputs.OnceUnlessShared | xls/codegen/finite_state_machine.cc:474-485 | An output is assigned exactly once for every content of the state register if and only if no other output has its variable or every content is a state |
| FsmOutputs.StateRegisterWidth | xls/codegen/finite_state_machine.h:402-404 | The least width, but at least one, that has a value for every state |
| StageSplit.BuildStageGraph | xls/codegen/block_generator.cc:156-185 | The edges express exactly the conditions on stages, or the register named is that of the first write without a unique read |
| StageSplit.DistancesArePipelining | xls/codegen/block_generator.cc:156-185 | Meeting all minimum distances is the same as operands no later than users and reads one stage after writes |
| StageSplit.Relax | xls/codegen/block_generator.cc:208-217 | Stages rise only as far as every feasible assignment, and every unmet edge has its source in the worklist |
| StageSplit.LeastStages | xls/codegen/block_generator.cc:190-218 | Terminates on every block; gives up exactly when no assignment is feasible, and otherwise finds the least one |
| StageSplit.TooHighMeansNone | xls/codegen/block_generator.cc:202-206 | A stage as high as the number of nodes shows that no assignment is feasible |
| StageSplit.CompressedIsPipelining | xls/codegen/block_generator.cc:202-206 | If any assignment is feasible, one with fewer stages than nodes is |
| StageSplit.MoveToLatest | xls/codegen/block_generator.cc:220-233 | Keeps all conditions, leaves register reads, writes and nodes without users where they were, and puts every other node in the stage of its earliest user; the last stage stays the last |
| StageSplit.LatestIsGreatest | xls/codegen/block_generator.cc:220-233 | The result is the greatest assignment with the same registers and outputs |
| StageSplit.CanonicalIsGreatest | xls/codegen/block_generator.cc:220-233 | No pipelining that agrees on register reads, writes and nodes without users has any node in a later stage |
| StageSplit.CheckWrites | xls/codegen/block_generator.cc:235-244 | Finds the first register write whose data is in an earlier stage, if there is one; the other check cannot fail |
| StageSplit.Gather | xls/codegen/block_generator.cc:246-262 | Each stage lists exactly its nodes, by kind and in topological order, and the registers it writes |
| StageSplit.SplitBlockIntoStages | xls/codegen/block_generator.cc:155-264 | Succeeds if and only if every written register has one read, the dependencies through registers are acyclic, and no register data reaches, over nodes that move, one with fewer registers before it than the write; with several writes to a register, a bound on walks in the stage graph takes the place of acyclic; the stages are then the canonical assignment, the greatest that agrees on register reads, writes and nodes without users, and the last one is not empty; errors name the first write at fault |
| StageSplit.PipelinableExactly | xls/codegen/block_generator.cc:136-150 | A block, also one with several writes to a register, has a feasible assignment if and only if no walk in the stage graph is as long as the number of nodes |
| StageSplit.AcyclicExactly | xls/codegen/block_generator.cc:136-150 | With one write to each register, a feasible assignment exists if and only if the dependencies, counting those through registers, are acyclic: the first documented error, both ways |
| StageSplit.PipeliningIsAcyclic | xls/codegen/block_generator.cc:147-150 | A cyclic block has no feasible assignment |
| StageSplit.WalkHasPath | xls/codegen/block_generator.cc:168-183 | The edges back from reads to writes gain nothing: no walk in the stage graph is longer than the registers on some dependency path |
| StageSplit.DepthIsMostRegisters | xls/codegen/block_generator.cc:190-218 | The depth of a node is the most registers on a dependency path to it |
| StageSplit.DataToldFromPaths | xls/codegen/block_generator.cc:235-244 | Whether the last check passes can be told from the registers on dependency paths |
| StageSplit.SameStagesMeanEven | xls/codegen/block_generator.cc:147-150 | Where all nodes can be in the stages of their operands, no two paths between the same nodes have different numbers of registers |
| StageSplit.LeastIsDepth | xls/codegen/block_generator.cc:190-218 | The least stage of a node is the greatest distance of a walk to it |
| StageSplit.CanonicalStage | xls/codegen/block_generator.cc:220-233 | A node ends up in the stage of the least deep node that it reaches over nodes that move; nodes that do not move are at their depth |
| StageSplit.BesideExactly | xls/codegen/block_generator.cc:235-244 | The last check passes if and only if no register data reaches, over nodes that move, one less deep than the write |
| StageSplit.CanonicalIsUnique | xls/codegen/block_generator.cc:155-264 | There is one canonical assignment, so the outcome does not depend on the order of the worklist |
| StageSplitCases.UnevenRefused | xls/codegen/block_generator.cc:147-150 | A block with uneven paths, refused as documented, although it has a feasible assignment: none has the data of every register beside its write |
| StageSplitCases.UnevenAccepted | xls/codegen/block_generator.cc:147-150 | A block with uneven paths, documented as an error, that meets all conditions of the contract and is accepted |
| StageSplitCases.BesideRefused | xls/codegen/block_generator.cc:147-150 | A block with neither a cycle nor uneven paths, so no documented error, that is refused although some feasible assignment has the data of every register beside its write |
| StageSplitCases.LateInputAccepted | xls/codegen/block_generator.cc:220-244 | A block whose register data is an input that only the moving puts beside the write: it meets all conditions of the contract and is accepted |
| VastPrinter.RoundTrip | xls/codegen/vast.cc:663-930 | Parsing the emitted tokens under section 11.3.2 of IEEE Std 1800-2017 gives back the tree, for every expression as shown, indices, slices, part selects, patterns and calls included |
| VastPrinter.EmissionIsUnambiguous | xls/codegen/vast.cc:663-930 | No two expressions as shown are emitted alike |
| VastPrinter.TextReads | xls/codegen/vast.cc:753-806 | Emission leaves out an index or slice of a variable declared without a width; reading the text gives the expression back if and only if there is none |
| VastParentheses.EmittedParens | xls/codegen/vast.cc:811-930 | The pairs of parentheses written are those the grammar needs and, for the reader, one around each reduction in a binary expression and each conditional in a branch of another |
| VastParentheses.FewestParens | xls/codegen/vast.cc:811-930 | Any text that reads as an expression has at least the pairs the grammar needs, and the emitted text has no others, except those for the reader |
| VastParentheses.NoneCanBeLeftOut | xls/codegen/vast.cc:811-930 | Where there are none for the reader, no text with fewer pairs reads as the expression |
| VastPrinter.TextsAlike | xls/codegen/vast.cc:753-806 | Two expressions have the same text if and only if they are equal with those indices and slices left out |
| VastPrinter.ScalarIndexReadsBare | xls/codegen/vast.cc:787-806 | An index of a variable declared without a width reads back as the variable |
| VastPrinter.BinaryReadsBack | xls/codegen/vast.h:1666-1745 | The precedence attached to every binary operator is its row in the standard |
| VastPrinter.BinaryReads | xls/codegen/vast.cc:867-889 | A binary expression, with parentheses only where emitted, is read as one operand of any looser row |
| VastPrinter.UnaryReads | xls/codegen/vast.cc:919-930 | A unary expression reads back, with its argument wrapped as emitted |
| VastPrinter.TernaryReads | xls/codegen/vast.cc:811-824 | A ternary reads back, nested ternaries included |
| VastPrinter.ReplicationReads | xls/codegen/vast.cc:891-907 | A replicated concatenation reads back |
| VastPrinter.IndexableReads | xls/codegen/vast.cc:787-806 | A reference, element or pattern as shown is read up to its last bracket, whatever expression is inside the brackets |
| VastPrinter.SliceReads | xls/codegen/vast.cc:758-785 | A slice or part select as shown reads back, with any expressions as bounds |
| VastPrinter.CallReads | xls/codegen/vast.cc:663-678 | A system function call with arguments reads back |
| VerilogText.TextMeans | xls/codegen/vast.cc:663-930 | The emitted text of a lowered expression, read by the grammar, denotes what the expression does, in every environment, indices and slices of variables declared without a width left out included |
| VerilogText.TextReadsBack | xls/codegen/vast.cc:663-930 | Reading the emitted text of a lowered expression gives back what emission leaves of it |
| VerilogText.DroppedMeans | xls/codegen/vast.cc:753-806 | Leaving out an index or slice of a variable declared without a width changes no value |
| VerilogText.TextsAlike | xls/codegen/vast.cc:663-930 | Two lowered expressions have the same text if and only if emission leaves the same of them |
| VerilogText.IndexTextMeans | xls/codegen/node_expressions.cc:706-743 | The text of an array index, with the clamps between the brackets, denotes the element that the clamped indices select |
| VerilogText.ShiftTextMeans | xls/codegen/node_expressions.cc:274-329 | The text of a shift, with casts and guard, denotes the shift by any amount |
| VerilogText.UpdateTextMeans | xls/codegen/module_builder.cc:1238-1322 | The text of a bit-slice update denotes the updated vector |
| VerilogText.TextIsUnambiguous | xls/codegen/vast.cc:663-930 | Different lowered expressions that select nothing of variables declared without a width have different texts |
| LongestPaths.TopologicalSort | xls/data_structures/graph_contraction.h:223-254 | Returns nothing exactly when the graph has a cycle, and otherwise every vertex once with edges going forward |
| LongestPaths.NoSourceMeansCyclic | xls/data_structures/graph_contraction.h:223-254 | A set in which every vertex has a predecessor holds a cycle |
| LongestPaths.NothingWaits | xls/data_structures/graph_contraction.h:249-251 | When nothing waits, all vertices are listed or there is a cycle |
| LongestPaths.VisitTargets | xls/data_structures/graph_contraction.h:241-246 | Counting down the targets keeps: a count is the number of unlisted predecessors, and exactly the vertices at zero wait |
| LongestPaths.RelaxRow | xls/data_structures/graph_contraction.h:276-282 | The row then holds the greatest weight of a path to the vertex, or no entry when there is none |
| LongestPaths.LongestNodePaths | xls/data_structures/graph_contraction.h:263-291 | Nothing exactly when there is a cycle; otherwise an entry exists if and only if there is a path, and is the greatest total weight of one |
| Coloring.HighestDegree | xls/data_structures/graph_coloring.h:65-76 | A vertex of highest degree |
| Coloring.FindBest | xls/data_structures/graph_coloring.h:78-111 | An unblocked vertex with the most blocked neighbours and, among those, the fewest available ones, or none exactly when all are blocked |
| Coloring.FindMaximalIndependentSet | xls/data_structures/graph_coloring.h:44-114 | An independent set that no vertex can join, picked by the heuristic at every step |
| Coloring.LeftOverHasNeighbors | xls/data_structures/graph_coloring.h:129-149 | A vertex that k classes left over has k neighbours among them |
| Coloring.FewClasses | xls/data_structures/graph_coloring.h:129-149 | At most one class more than the highest degree |
| Coloring.RecursiveLargestFirstColoring | xls/data_structures/graph_coloring.h:129-151 | The classes partition the vertices, hold no two neighbours, are maximal in what is left, and are at most one more than the highest degree |
| Words.FitsExactly | xls/ir/bits.h:235-237 | A value fits in a width if and only if the width is at least its minimal bit count |
| IrValues.FlatLength | xls/codegen/flattening.cc:28-52 | A value fills exactly the bits of its type |
| IrValues.FlatInjective | xls/codegen/flattening.cc:28-52 | Values of one type with the same bits are equal |
| Flattening.GatherValueLeaves | xls/codegen/flattening.cc:28-46 | The leaves pushed, concatenated, are the layout: tuple member 0 and the last array element on top |
| Flattening.FlattenValueToBits | xls/codegen/flattening.cc:48-52 | The layout of the value, at the width of its type |
| Flattening.MemberStart | xls/codegen/flattening.cc:103-111 | A member starts after all the members that follow it |
| Flattening.UnflattenBitsToValue | xls/codegen/flattening.cc:54-93 | Inverse of flattening in both orders; fails exactly when the width is wrong or the type holds an empty array |
| Flattening.UnflattenTuple | xls/codegen/flattening.cc:63-76 | The same for tuples |
| Flattening.UnflattenArrayValue | xls/codegen/flattening.cc:77-90 | The same for arrays |
| Flattening.FlattenArray | xls/codegen/flattening.cc:160-175 | Whatever unpacked array the input holds, the expression denotes the flattened value; it denotes nothing exactly for types with an empty array |
| Flattening.UnflattenArrayHelper | xls/codegen/flattening.cc:120-140 | Whatever value the vector holds at the offset, the pattern denotes its unpacked array; for a type without bits it denotes nothing |
| Flattening.UnflattenArray | xls/codegen/flattening.cc:142-148 | Undoes FlattenArray |
| Flattening.UnflattenArrayShapedTupleElement | xls/codegen/flattening.cc:150-158 | The array at that index of any flattened tuple |
| Flattening.FlattenTuple | xls/codegen/flattening.cc:177-203 | Fails exactly on a wrong number of inputs; otherwise denotes the flattened tuple, members without bits left out |
| Flattening.FlattenValueToExpression | xls/codegen/module_builder.cc:71-98 | Fails exactly on values without bits; otherwise denotes the flattened value |
| Flattening.ValueToArrayAssignmentPattern | xls/codegen/module_builder.cc:108-124 | Denotes the unpacked array of the constant; fails exactly when it has no bits |
| ArrayLowering.GeneratedDrives | xls/codegen/module_builder.cc:137-162 | Whole or element by element, the assignments drive each leaf exactly once with the generated value |
| ArrayLowering.GeneratedLeaves | xls/codegen/module_builder.cc:143-161 | Without SystemVerilog arrays only vectors are assigned; with them there is one assignment |
| ArrayLowering.MatchIndexMeans | xls/codegen/module_builder.cc:535-552 | Literal, too narrow or dynamic, the test is true exactly when the index is the element |
| ArrayLowering.ComparedExactly | xls/codegen/module_builder.cc:535-552 | A comparison is emitted if and only if the index is not a literal and its width reaches the element |
| ArrayLowering.CombineMeans | xls/codegen/module_builder.cc:466-479 | The combined test is the conjunction |
| ArrayLowering.CopyAndUpdateDrives | xls/codegen/module_builder.cc:455-561 | For any nesting and indices each leaf is driven exactly once, with the functional update; an index out of bounds leaves the array unchanged |
| ArrayLowering.CopyAndUpdateLeaves | xls/codegen/module_builder.cc:455-561 | Without SystemVerilog only vectors are assigned, for any nesting and indices |
| ModuleBuilding.ClampIndexMeans | xls/codegen/node_expressions.cc:710-738 | The clamp is the minimum with the last index; where it is omitted the index is in bounds or checking is off |
| ModuleBuilding.ClampedExactly | xls/codegen/node_expressions.cc:710-738 | With the check, the index is emitted as it is if and only if its width cannot reach the size or it is a literal in bounds |
| ModuleBuilding.ArrayIndexExpression | xls/codegen/node_expressions.cc:700-743 | With bounds checking the element of the clamped indices; without it that element if and only if every index is in bounds |
| ModuleBuilding.ExtendedStartMeans | xls/codegen/module_builder.cc:612-626 | Extending the start keeps its value |
| ModuleBuilding.SliceIndexMeans | xls/codegen/module_builder.cc:630-660 | Each index is the minimum of start plus offset and the last index; the sum never wraps |
| ModuleBuilding.SliceCopiesLeaves | xls/codegen/module_builder.cc:603-672 | Without SystemVerilog the slice assigns vectors only |
| ModuleBuilding.SliceAssignmentsDrive | xls/codegen/module_builder.cc:231-250 | Unflattening a vector drives each leaf exactly once with the leaf of the value the vector holds |
| ModuleBuilding.ModuleBuilder.constructor | xls/codegen/module_builder.cc:189-196 | Starts without assignments |
| ModuleBuilding.ModuleBuilder.AddAssignmentToGeneratedExpression | xls/codegen/module_builder.cc:137-162 | For any generator, appends the generated assignments, which drive each leaf exactly once with the value whose parts the right-hand sides denote: only vectors without SystemVerilog arrays, one assignment with them |
| ModuleBuilding.ModuleBuilder.AddAssignment | xls/codegen/module_builder.cc:128-135 | The appended assignments drive each leaf exactly once with the value that the right-hand side denotes |
| ModuleBuilding.ModuleBuilder.EmitArrayCopyAndUpdate | xls/codegen/module_builder.cc:455-561 | The appended assignments drive each leaf exactly once with the functional update of the array where the index match holds, and with the array where it does not |
| ModuleBuilding.ModuleBuilder.EmitArrayUpdate | xls/codegen/module_builder.cc:673-690 | The variable becomes the functional update of the array, each leaf driven exactly once |
| ModuleBuilding.ModuleBuilder.EmitArraySlice | xls/codegen/module_builder.cc:603-672 | The variable becomes the slice, which repeats the last element past the end, each leaf driven exactly once |
| ModuleBuilding.ModuleBuilder.AddAssignmentFromValue | xls/codegen/module_builder.cc:164-187 | The variable becomes the constant, each leaf driven exactly once; fails exactly when it has no bits |
| ModuleBuilding.ModuleBuilder.AssignFromSlice | xls/codegen/module_builder.cc:231-250 | The variable becomes the value the vector holds at the offset, each leaf driven exactly once |
| BitLowering.ShiftMeans | xls/codegen/node_expressions.cc:274-329 | For every width and amount the three shifts are multiplication modulo the width, and division that rounds down |
| BitLowering.DecodeMeans | xls/codegen/node_expressions.cc:332-358 | Exactly the bit that the operand names is set, and none when it names no bit |
| BitLowering.BitSliceUpdateMeans | xls/codegen/module_builder.cc:1238-1322 | The bits from start on are those of the update value as far as both go, and the others are unchanged, for every start |
| BitLowering.UpdatedExprMeans | xls/codegen/module_builder.cc:1296-1305 | The masked merge is the update when the start is in bounds, and an overshift otherwise, so the guard is needed exactly there |

## Left out

- Reset: runs start in the state after reset, and cycles in which reset forces load enables on are not modelled.
- Non-blocking receives, the idle output, single-value channels and ungated receives of `block_conversion.cc`.
- Combinational flow control (`AddCombinationalFlowControl`), where an input's ready ignores the valids of other inputs.
- The RAM rewrite pass, which depends on the timing of an external memory.
- ElasticPipeline.Step: the logic of a stage is an arbitrary function, and its state is one value whose next value is computed in the same stage.
- ScheduledProc.IterationIsUnscheduled: a state element is used in the stage that computes its next value only; tokens, and their order among sends and receives of an iteration, are not modelled, and every receive has a channel of its own.
- FunctionPipeline.Cloner.CloneNode: functions number their nodes in topological order; the nodes of a proc are modelled in `ScheduledProc`, where the stages are derived and not cloned.
- FunctionPipeline.Cloner.AddNextPipelineStage: a tuple with elements of width zero has one register here, where the source has one for each element.
- Register names, port order and channel metadata: no property above depends on a name.
- Bdd.BinaryDecisionDiagram.GetOrCreateNode: indices are unbounded integers, where the source has 32 bits.
- `ToStringDnf` of the decision diagram.
- Scc.StronglyConnectedComponents: indices are unbounded integers, and sets are iterated in arbitrary order.
- FsmOutputs.FsmState.AddDefaultOutputAssignments: nested blocks are values, so updates inside the tree are not modelled as aliasing, and the partly updated tree after an error is not modelled; the same holds for hoisting.
- FSM state transitions, registers and counters, and conditions or right-hand sides that read an output.
- StageSplit.SplitBlockIntoStages: takes a topological order as an argument and returns nodes by number.
- VastPrinter.RoundTrip: works on tokens, in which a literal with its width is one token; white space and line information are not modelled.
- VerilogText.TextMeans: for expressions that can be built, where what is indexed or sliced is a reference, an element or a pattern, and a variable declared without a width by zero only; plain numbers are not bounded, where the source gives those over 32 bits a width.
- LongestPaths.LongestNodePaths: weights are integers, and the quotient graph is given; `IdentifyVertices`, `AddEdge` and the union-find map are not part of this model.
- Coloring.FindMaximalIndependentSet: ties are broken arbitrarily, where the source takes the order of the vertices.
- `Z3Coloring`, `MaximumClique` and `min_cut.h`: external solvers, or declarations only.
- Token values in flattening, and the overload of `UnflattenBitsToValue` that takes a type as a protocol buffer.
- ModuleBuilding.ModuleBuilder.AddAssignmentToGeneratedExpression: appends continuous assignments to one variable; other kinds of assignment and the case without a type are not modelled.
- Verilog.Eval: unsigned vectors of known values only; the unknown and high-impedance values of Verilog are collapsed into no value.
- Operands of width zero, which have no Verilog expression.
- Dynamic bit slices, multiplication, priority selects and the function cache of `module_builder.cc`.
- Options, module signatures, block metrics and the helpers under `xls/common`: plumbing.
