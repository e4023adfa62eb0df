# Verified model of aiehlc's streaming, kernel and inspection code

This project models the parts of aiehlc whose correctness is hardest to see, and
proves what they do for every input, every schedule and every configuration:

- **Streaming** (`Stream*.dfy`). The ping-pong kernel: an input DMA, the core and an
  output DMA over `depth` input buffers, `depth` output buffers and four counting
  locks. Each agent is sequential; a run is any interleaving of their lock operations
  and single-word transfers. Depth, buffer size, kernel iterations, initial credits and
  the length of the stream are all parameters. Nothing ties the stream to the iteration
  count: `MAT_SIZE` is redefined inside the kernel of `aieml_perfstream.cc`, above the host
  code that sizes the stream by it, so the host sends fewer rounds than the kernel expects.
  The theorems say what is delivered in either case.
- **Convolution** (`Conv*.dfy`, `Requant.dfy`, `Sums.dfy`). The blocked int8 3x3 kernel:
  stride recovery, eight nested loops over blocked layouts, in-place stores, and
  fixed-point requantisation, against a plain NCHW convolution.
- **Switch graphs** (`SwitchGraph.dfy`, `Trace*.dfy`, `Loop*.dfy`, `MixedBlock.dfy`,
  `PathTree.dfy`, `Hw*.dfy`, `Reach.dfy`, with `TraceExample.dfy` and `FlowExample.dfy`). Depth-first path tracing with a shared visited set, and the
  breadth-first searches of the block classifier and of the hardware-log viewer.
- **Smaller cores.** The brace splitter of the log reader (`LogSplitter.dfy`), the
  translation-table patch (`AttrPatch.dfy`), descriptor chains (`BdChain.dfy`), the
  repeat-count checks (`RepeatChecks.dfy`), the placement planner (`Partition.dfy`, `Placement.dfy`) and
  byte-offset propagation (`ByteOffsets.dfy`, `BufferOffsets.dfy`).

Code that works by updating state is a method or a class, proved against a function or a
predicate on values; the theorems are lemmas about those.

## Modelling decisions

- The vendor's `window_acquire` and DMA driver are not part of this model. Each agent is
  taken to remove one credit from the lock it acquires and to add one to the lock it
  releases, as the descriptor call in `example/debug/aieml_controlperf.cc` line 430 does
  (lock 2 by -1, lock 3 by +1). A window's first lock is its producer's and its second its
  consumer's (`src/mlir/mlirfront/mlirpass/aiehybrid.h` line 316), so the core waits for
  the lock a DMA releases and gives back the lock that DMA acquires.
- The input DMA does not know how long the stream is: it may take a free buffer and then
  starve.
- Signed 32-bit and 64-bit overflow, undefined in C, is modelled as two's-complement
  wrap-around. The operands for which the 64-bit sum overflows, and the number of products
  from which the accumulator can, are stated exactly.
- Python dictionaries keep the last value written for a key, and this is modelled where
  it matters. The order of a Python `set` is left open.
- Text parsing is not modelled; models start from parsed records.

## Where the code and its promises differ

Each has a concrete witness, and a theorem that says for all inputs exactly when the promise
holds.

- Stride recovery accepts inputs smaller than the window, because C truncates -1/2 to 0
  (`SmallInputAccepted`, `ReadableExactly`), and cannot always tell strides apart for
  small outputs (`SmallOutputAmbiguous`, `StrideIsUniqueExactly`,
  `TrueStrideIsRecoveredExactly`).
- For negative shifts inside the specified range the int32 cast can turn a large quotient
  into the smallest byte instead of the largest (`LargeQuotientStoresLeast`,
  `RequantiseIsRoundingExactly`).
- The label "loop" on a traced path also marks two branches that merge
  (`MergeIsLabelled`, `NoLabelExactly`, `LabelsAreCyclesExactly`).
- The attribute patch reports success for an invalid descriptor of type 2
  (`InvalidDescriptorPatched`, `SuccessMapsExactly`).
- The flow tagger goes by tile location and first match, the checker by tile variable and
  last write, so they can mark different chains (`RepeatedIdsDiffer`, `TwoVariablesDiffer`,
  `TaggerMatchesExactly`).
- Check 8 misses a wrong repeat count hidden by a later IO of the same tile
  (`HiddenSenderMissed`, `Check4IsCheck8AndHidden`).
- A region that breaks its contract is offloaded if another region of its layer passes, and
  the report then calls it as assigned (`BrokenRegionCanBeSent`, `BrokenRegionSentExactly`,
  `BrokenReportedAsAssigned`).
- The second arrow of a tile and port hides the first from the flows (`LoggedTwiceHidesArrow`,
  `ArrowLeavesExactly`, `AllArrowsLeaveExactly`).
- The byte range of a slice of several rows narrower than its tensor does not cover its
  elements, and slices of it start at the wrong byte (`NarrowSliceMisplaced`,
  `AnnotationCoversExactly`).
- A tensor declared over an offset into an allocation is annotated with a single byte, because
  nothing gives the buffer a shape (`DeclaredTensorIsOneByte`, `DeclaredOverOffsetExactly`).
- A stray closing brace before the objects of a log makes the splitter hand over their
  insides (`StrayBraceShiftsDepth`, `ObjectSplitExactly`).
- Some comments beside the lock set-up ask for 0 where the code sets the free-buffer locks to 2;
  the model follows the code, and 0 is shown not to work (`NoInCredit`, `NoOutCredit`, `CreditRangeIsExact`).

## Model

| member | source | states |
|---|---|---|
| StreamSafety.EmittedIsPrefix | example/perf/aieml_perfstream.cc:101-126 | with at most `depth` credits a side, in every state of every interleaving the words sent are a prefix of the doubled input, in order |
| StreamSafety.LocksAndBuffers | example/perf/aieml_perfstream.cc:258-305 | while credits do not exceed the depth: on each side lock values plus buffers held equal the initial credits, no lock is negative, and no buffer is open to a DMA and the core at once |
| StreamSafety.StepKeepsInv | example/perf/aieml_perfstream.cc:101-126 | every step of every agent keeps the full invariant: credits, contents of every buffer in flight, and everything sent |
| StreamSafety.RunInv | example/perf/aieml_perfstream.cc:258-305 | the invariant holds in every state of every run |
| StreamSafety.RunIsCounted | example/perf/aieml_perfstream.cc:258-305 | lock accounting and stream position hold in every run for every choice of initial credits |
| StreamSafety.SlotsDiffer | example/perf/aieml_perfstream.cc:280-284 | buffers fewer than `depth` apart in the descriptor cycle never share a slot |
| StreamProgress.NeverDeadlocks | example/perf/aieml_perfstream.cc:101-126 | with credits in 1..depth, some agent can step while a deliverable word is missing |
| StreamProgress.RunsAreBounded | example/perf/aieml_perfstream.cc:101-126 | no schedule takes more than an explicit number of steps, whatever the initial credits |
| StreamProgress.RunCountsWork | example/perf/aieml_perfstream.cc:101-126 | the work done is exactly the number of steps, so the measure strictly grows |
| StreamProgress.MaximalRunDelivers | example/perf/aieml_perfstream.cc:224-305 | a run that cannot go on has sent exactly the doubled first min(iterations, whole buffers) buffers, and the core is done iff the stream was long enough |
| StreamProgress.EveryRunCompletes | example/perf/aieml_perfstream.cc:101-126 | every run extends to one that cannot go on, whatever the initial credits |
| StreamCredits.CreditRangeIsExact | example/perf/aieml_perfstream.cc:258-269 | for any depth and buffer size: the protocol is conflict-free and no stuck run misses a word, for all streams and iteration counts, iff both initial credits are in 1..depth |
| StreamCredits.InputConflictExactly | example/perf/aieml_perfstream.cc:258-286 | for each configuration: some run has the input DMA and the core in one buffer iff inCredits > depth, there is an iteration, and the stream fills all buffers |
| StreamCredits.OutputConflictExactly | example/perf/aieml_perfstream.cc:268-305 | for each configuration: some run has the core and the output DMA in one buffer iff outCredits > depth, there is an input credit, and iterations and stream reach one buffer beyond the depth |
| StreamCredits.TooManyInCredits | example/perf/aieml_perfstream.cc:258-259 | with more credits than input buffers, and a stream that fills them, some run has the input DMA and the core in one buffer |
| StreamCredits.TooManyOutCredits | example/perf/aieml_perfstream.cc:268-269 | the same for output buffers, the core and the output DMA |
| StreamCredits.NoInCredit | example/perf/aieml_perfstream.cc:258-259 | without a free input buffer no run ever takes a step |
| StreamCredits.NoOutCredit | example/perf/aieml_perfstream.cc:268-269 | without a free output buffer no run of any stream sends a word, and whenever something is deliverable some run ends stuck without it |
| StreamCredits.NoOutputEver | example/perf/aieml_perfstream.cc:268-269 | without a free output buffer the core never gets past its second acquire, in any state of any run |
| StreamCredits.UsableCreditsWork | README.md:437-438 | any credits in 1..depth work for every stream and iteration count; the documented initial value, the depth, is one of them |
| StreamData.DataSafeExactly | example/perf/aieml_perfstream.cc:258-305 | for any depth and buffer size: whatever the stream, the iterations and the schedule, only a prefix of the doubled input is sent, iff (inCredits <= depth or outCredits == 0) and (outCredits <= depth or inCredits == 0) |
| StreamData.InputOverwritten | example/perf/aieml_perfstream.cc:258-286 | with more credits than input buffers some run sends, as its first word, the double of the first word of buffer number `depth` |
| StreamData.OutputOverwritten | example/perf/aieml_perfstream.cc:268-305 | the same with more credits than output buffers |
| StreamKernel.DoubleWindow | example/perf/aieml_perfstream.cc:105-121 | for windows of a multiple of 64 words the vector loop leaves in the output window the doubled input window, as the word-by-word core does |
| StreamKernel.StoreVector | example/perf/aieml_perfstream.cc:119-120 | a vector store writes its lanes after an unchanged prefix and leaves the rest alone |
| ConvStride.RecoverStride | example/userkernel/conv3x3_requant_ref.c:48-53 | returns the least stride in 1..4 consistent with both extents, or 0 if there is none |
| ConvStride.RecoveredIsUnique | example/userkernel/conv3x3_requant_ref.c:48-53 | the extents determine the recovered stride |
| ConvStride.ReadsInsideExactly | example/userkernel/conv3x3_requant_ref.c:50-63 | with a consistent stride and a non-empty output, every read is in bounds iff both input extents are at least 3 |
| ConvStride.ReadableExactly | example/userkernel/conv3x3_requant_ref.c:48-63 | the recovered stride keeps every read in bounds iff the output is empty, no stride is consistent, or both input extents are at least 3 |
| ConvStride.SmallInputAccepted | example/userkernel/conv3x3_requant_ref.c:50 | a 2x2 input with a 1x1 output is accepted with stride 2 and read out of bounds |
| ConvStride.StrideIsDetermined | example/userkernel/conv3x3_requant_ref.c:46-53 | for inputs of at least 3x3 with an output extent of at least 4, no other stride is consistent |
| ConvStride.StrideIsUniqueExactly | example/userkernel/conv3x3_requant_ref.c:46-53 | for all extents: at most one stride in 1..4 is consistent iff no two neighbouring ones are |
| ConvStride.TrueStrideIsRecoveredExactly | example/userkernel/conv3x3_requant_ref.c:46-53 | a convolution of stride t is run with stride t iff t is 1 or stride t - 1 does not explain the extents |
| ConvStride.SmallOutputAmbiguous | example/userkernel/conv3x3_requant_ref.c:46-53 | from 11x11 to 3x3 both 3 and 4 are consistent, and 3 is taken |
| Requant.RangeIsDefinedShifts | example/userkernel/conv3x3_requant_ref.c:90 | shifts in -30..32 are exactly those for which both C shifts are defined |
| Requant.SumOverflowsExactly | example/userkernel/conv3x3_requant_ref.c:70 | the int64 sum overflows iff t and mult are INT32_MIN and shift is 32 |
| Requant.ShiftedIsRounded | example/userkernel/conv3x3_requant_ref.c:70 | the shifted value is t * mult / 2^(shift+31) rounded to nearest, ties up |
| Requant.CastKeepsExactly | example/userkernel/conv3x3_requant_ref.c:70 | for every shift in range the int32 cast keeps the shifted value iff an inequality on t, mult and shift holds |
| Requant.CastLosesExactly | example/userkernel/conv3x3_requant_ref.c:70 | for non-negative shifts the quotient leaves int32 iff t and mult are INT32_MIN and shift is 0 |
| Requant.RequantiseIsRoundingExactly | example/userkernel/conv3x3_requant_ref.c:70-73 | for all t, mult and shifts in range: the byte is the clamped half-up rounded quotient minus 128 iff the sum does not overflow and the quotient is an int32 or wraps onto its own side of the clamp; unless the sum overflows a quotient in 0..255 is stored as itself minus 128 |
| Requant.ClampIsNearest | example/userkernel/conv3x3_requant_ref.c:71-72 | clamping takes the nearest value in 0..255: every other one is farther away |
| Requant.OverflowStoresTooLittle | example/userkernel/conv3x3_requant_ref.c:70-73 | the overflowing operands store -128 where the rounded quotient asks for -127 |
| Requant.LargeQuotientStoresLeast | example/userkernel/conv3x3_requant_ref.c:70-73 | with shift -30, inside the specified range, a quotient of 2^31 stores -128 instead of 127 |
| Requant.RequantiseMonotone | example/userkernel/conv3x3_requant_ref.c:70-73 | with a non-negative multiplier and quotients in int32, a larger accumulator never stores a smaller byte |
| ConvReference.BlockedIsPlain | example/userkernel/conv3x3_requant_ref.c:60-67 | summing block, row, column, lane gives the plain channel, row, column convolution |
| ConvReference.OutputIsExact | example/userkernel/conv3x3_requant_ref.c:24-27 | if the int32 total does not overflow, an output byte is the clamped, half-up rounded, scaled convolution plus bias minus zero points iff the requantisation loses nothing, for every shift in range; unless the 64-bit sum overflows a value in 0..255 is stored as itself minus 128 |
| ConvKernel.AccumulatorFits | example/userkernel/conv3x3_requant_ref.c:59-67 | for any int8 buffers with at most 131071 products a cell, the accumulator is an int32 after every single addition of the loop nest |
| ConvKernel.OneMoreProduct | example/userkernel/conv3x3_requant_ref.c:64-66 | each single addition of the lane loop keeps the accumulator the running sum modulo 2^32; up to 131071 products it does not overflow and the sum is exact |
| ConvKernel.AccumulatorOverflows | example/userkernel/conv3x3_requant_ref.c:59-67 | with more products, buffers of -128 make the accumulator of every cell leave int32 |
| ConvReference.BlockLimit | example/userkernel/conv3x3_requant_ref.c:59-67 | for 3x3 windows and four lanes that limit is 3640 channel blocks |
| ConvKernel.TapsAreByteProducts | example/userkernel/conv3x3_requant_ref.c:63-66 | every product of the kernel is one of two int8 values of its buffers |
| ConvReference.BuffersHoldTensors | example/userkernel/conv3x3_requant_ref.c:28-29 | dense buffers are NCHW and OIHW tensors under channel = block * 4 + lane |
| ConvReference.InIndexInBounds | example/userkernel/conv3x3_requant_ref.c:63 | every input position is inside the dense buffer |
| ConvReference.WeightIndexInBounds | example/userkernel/conv3x3_requant_ref.c:64-66 | every weight position is inside the dense buffer |
| ConvReference.OutIndexInBounds | example/userkernel/conv3x3_requant_ref.c:73 | every output position is inside the dense buffer |
| ConvLayout.WeightOrder | example/userkernel/conv3x3_requant_ref.c:64-66 | weights lie in lexicographic order of output block, input block, row, column, input lane and output lane |
| ConvLayout.InputOrder | example/userkernel/conv3x3_requant_ref.c:63 | input bytes lie in lexicographic order of block, row, column and lane |
| ConvLayout.KernelSizes | example/userkernel/conv3x3_requant_ref.c:82-92 | the buffers have the sizes of the declared shapes, 144 weights for each pair of blocks |
| ConvKernel.OperandsAgree | example/userkernel/conv3x3_requant_ref.c:63-66 | both operands of a product are in bounds, and it is the tap of the plain convolution |
| ConvKernel.AccumulateLanes | example/userkernel/conv3x3_requant_ref.c:63-66 | the lane loop carries the running sum of the loop nest from one window column to the next, modulo 2^32, and exactly up to 131071 products a cell |
| ConvKernel.AccumulateRow | example/userkernel/conv3x3_requant_ref.c:62-67 | the column loop carries it to the next window row |
| ConvKernel.AccumulateBlock | example/userkernel/conv3x3_requant_ref.c:61-67 | the row loop carries it to the next input block |
| ConvKernel.AccumulateCell | example/userkernel/conv3x3_requant_ref.c:59-67 | the accumulator of a cell is the plain convolution modulo 2^32, and the convolution itself when it has at most 131071 products |
| ConvKernel.ComputeCell | example/userkernel/conv3x3_requant_ref.c:59-72 | one byte of the operator |
| ConvKernel.CellsDistinct | example/userkernel/conv3x3_requant_ref.c:73 | different output cells have different positions |
| ConvKernel.StoreCell | example/userkernel/conv3x3_requant_ref.c:68-73 | changes one position only, to the operator's value, and keeps every earlier position right |
| ConvKernel.ConvolveLanes | example/userkernel/conv3x3_requant_ref.c:58-74 | writes the lanes of one output position, given all earlier positions, and no later one |
| ConvKernel.ConvolveRow | example/userkernel/conv3x3_requant_ref.c:57-74 | the same for one output row |
| ConvKernel.ConvolveBlock | example/userkernel/conv3x3_requant_ref.c:56-74 | the same for one output block |
| ConvKernel.ConvolveAll | example/userkernel/conv3x3_requant_ref.c:55-74 | afterwards every output position holds the operator's value |
| ConvKernel.Conv3x3Requant | example/userkernel/conv3x3_requant_ref.c:33-76 | for any extents: without a stride it fails and the output is unchanged; when the window leaves the input it says so; otherwise the output read as NCHW is the plain convolution requantised |
| ConvKernel.WindowLeavesExactly | example/userkernel/conv3x3_requant_ref.c:50-63 | the window leaves the input iff something is computed and an input extent is below 3 |
| ConvKernel.AllWritten | example/userkernel/conv3x3_requant_ref.c:55-74 | a fully written buffer, read as NCHW, is the operator at every channel, row and column |
| SwitchGraph.PacketEdgeExactly | script/visualization/host_cc_tile_topology.py:552-561 | a packet edge exists iff a slot and a master have one tile and one arbiter and the selector bit of the slot is set in the mask of the master |
| SwitchGraph.BitsOf | script/visualization/host_cc_tile_topology.py:559 | the selector bit is the binary digit of the mask: the lowest says odd or even, the others are those of its half |
| Tiles.StepBack | script/visualization/host_cc_tile_topology.py:38-46 | going the opposite way leads back, from any distance, and no other way does |
| Tiles.StepsAdd | script/visualization/host_cc_tile_topology.py:43-46 | steps in one direction add up; rows grow to the north and columns to the east |
| Tiles.WaysDiffer | script/visualization/host_cc_tile_topology.py:43-46 | different ways out of a tile, and different distances, lead to different tiles |
| SwitchGraph.HopFacesBack | script/visualization/host_cc_tile_topology.py:586-591 | the slave port a hop leads to faces its master: the master port in its place drives back, unless it is a shim exit |
| SwitchGraph.LeadsOnExactly | script/visualization/host_cc_tile_topology.py:584-591 | a hop leads on iff its port is on a side and is not the south port of a tile in row 0 |
| SwitchGraph.OneDriver | script/visualization/host_cc_tile_topology.py:588-591 | no two master ports drive one slave port |
| SwitchGraph.ResolveSlot | script/visualization/host_cc_tile_topology.py:557-560 | the edges of one slot, to the masters it feeds |
| SwitchGraph.ResolvePacketEdges | script/visualization/host_cc_tile_topology.py:552-561 | all packet edges in order |
| SwitchGraph.BuildAdjacency | script/visualization/host_cc_tile_topology.py:567-573 | the adjacency of the recorded edges |
| SwitchGraph.AdjacencyIsExact | script/visualization/host_cc_tile_topology.py:567-573 | the adjacency lists exactly the hops of every slave port, in order, and a hop is listed iff its edge is recorded |
| TracePaths.FollowHop | script/visualization/host_cc_tile_topology.py:583-603 | `follow` with its shared visited set terminates on every graph and computes Follow |
| TracePaths.FollowIsSound | script/visualization/host_cc_tile_topology.py:583-603 | every path is a walk along configured hops, and its end is decided: "loop" iff the port it would enter was visited at first, was entered by an earlier path or is passed by the path itself; "dangling" only at a port none of them entered |
| TracePaths.FollowVisits | script/visualization/host_cc_tile_topology.py:592-594 | the shared visited set is exactly what was visited at first and what the paths entered |
| TracePaths.FollowCovers | script/visualization/host_cc_tile_topology.py:583-603 | every newly visited port and each of its hops is on some path |
| TracePaths.FollowCloses | script/visualization/host_cc_tile_topology.py:583-603 | what newly visited ports lead to is visited |
| TracePaths.FollowReaches | script/visualization/host_cc_tile_topology.py:583-603 | only reachable ports are visited |
| TracePaths.PathCount | script/visualization/host_cc_tile_topology.py:598-603 | the number of paths is exactly 1 plus the hops of the expanded ports minus their number |
| TracePaths.ExpandedIsNew | script/visualization/host_cc_tile_topology.py:592-594 | no port is expanded twice |
| TracePaths.PathsAreLinear | script/visualization/host_cc_tile_topology.py:583-612 | one first hop yields at most 1 plus the number of configured edges |
| PathTree.PathsFormTree | script/visualization/host_cc_tile_topology.py:583-612 | the paths of one first hop form a tree: two that pass one port pass it at the same depth and agree on everything before it |
| PathTree.NoPortTwice | script/visualization/host_cc_tile_topology.py:592-594 | no printed path passes a port twice |
| PathTree.FollowIsTree | script/visualization/host_cc_tile_topology.py:583-603 | the same for every call of `follow`, whatever was visited before, and every port passed is new and visited afterwards |
| TraceSources.ReachableIsShown | script/visualization/host_cc_tile_topology.py:605-612 | every port reachable from a non-directional source is on a printed path with each of its hops |
| TraceSources.SourceIsNotDirectional | script/visualization/host_cc_tile_topology.py:575-581 | every collected source has a non-directional port |
| TraceSources.WalkIsVisited | script/visualization/host_cc_tile_topology.py:605-612 | every walk from a source is visited by the search of its first hop |
| TraceSources.VisitedIsReachable | script/visualization/host_cc_tile_topology.py:605-612 | that search visits nothing unreachable |
| TraceSources.FirstHopIsShown | script/visualization/host_cc_tile_topology.py:605-612 | every first hop is on a printed path |
| TraceSources.PrintedIsGenuine | script/visualization/host_cc_tile_topology.py:605-612 | the i-th printed path of a source is a known path of a known first hop: a walk whose end is decided by the source, the earlier paths of that hop and itself |
| TraceSources.GroupAt | script/visualization/host_cc_tile_topology.py:605-612 | and every path of every first hop is printed at that place |
| TraceSources.PrintedIsReachable | script/visualization/host_cc_tile_topology.py:605-612 | every slave port passed through or left dangling on a printed path is reachable from its source |
| TraceSources.CollectSources | script/visualization/host_cc_tile_topology.py:575-581 | the sources are the DMA packet slaves and the non-directional circuit slaves |
| TraceSources.TraceSource | script/visualization/host_cc_tile_topology.py:605-612 | the paths of one source, a fresh visited set per first hop |
| TraceSources.TraceBlock | script/visualization/host_cc_tile_topology.py:566-612 | a block reports, for some order of its sources, each source once, all its paths in order and with their multiplicity |
| TraceSources.Trace | script/visualization/host_cc_tile_topology.py:564-614 | the result is the reports of the blocks one after the other |
| TraceSources.SourceExactly | script/visualization/host_cc_tile_topology.py:575-581 | a port is a source iff it is the DMA port of a packet slot or a circuit slave on no side of its tile |
| TraceSources.ReportExactly | script/visualization/host_cc_tile_topology.py:605-612 | a block reports, under its name, exactly the paths of its sources |
| TraceExample.RingIsPrinted | script/visualization/host_cc_tile_topology.py:583-612 | a path west, south and east again, step by step, to its endpoint |
| TraceExample.ShimIsPrinted | script/visualization/host_cc_tile_topology.py:584-597 | a source with two hops: one leaves the array, one is left dangling |
| TraceExample.CycleIsPrinted | script/visualization/host_cc_tile_topology.py:592-593 | a path north and back ends in a loop |
| TraceExample.PacketIsPrinted | script/visualization/host_cc_tile_topology.py:552-561 | a packet slot feeds one of four masters; the others differ in arbiter, mask or tile |
| TraceExample.SampleSources | script/visualization/host_cc_tile_topology.py:575-581 | the sources of that block are exactly four ports |
| LoopLabels.LoopsCount | script/visualization/host_cc_tile_topology.py:592-594 | loop labels plus newly visited ports equal the crossings out of those ports plus the one followed |
| LoopLabels.VisitedExactly | script/visualization/host_cc_tile_topology.py:592-594 | the search of a first hop visits, besides its source, exactly the ports the hop reaches |
| LoopLabels.NoLabelExactly | script/visualization/host_cc_tile_topology.py:592-593 | no path of a first hop carries a loop label iff no port it reaches is entered by two crossings |
| LoopCycles.LabelsAreCyclesExactly | script/visualization/host_cc_tile_topology.py:592-593 | every loop label of a first hop lies on a cycle iff no strongly connected component that the hop reaches is entered from outside by two crossings |
| LoopComponents.FalseCount | script/visualization/host_cc_tile_topology.py:592-603 | of the depth-first search: crossings from outside equal components opened plus labels that lie on no cycle |
| LoopComponents.OnCycleExactly | script/visualization/host_cc_tile_topology.py:592-593 | a step lies on a cycle iff the port it enters reaches the port it leaves |
| LoopComponents.StackKept | script/visualization/host_cc_tile_topology.py:592-603 | a visited port whose component is not finished always leads to the port being expanded |
| LoopWitness.SplitAndMergeIsLabelled | script/visualization/host_cc_tile_topology.py:592-593 | in any graph that only goes north and east, a stream that splits and merges gets a loop label on no cycle |
| LoopWitness.MergeIsLabelled | script/visualization/host_cc_tile_topology.py:564-614 | a block with a source, no cycle anywhere, and a printed loop label |
| MixedBlock.Search | script/visualization/host_cc_tile_topology.py:890-906 | one search finds exactly the connections reached from a shim port |
| MixedBlock.BuildTable | script/visualization/host_cc_tile_topology.py:863-868 | the lookup table lists exactly the connections of each slave port |
| MixedBlock.Enqueue | script/visualization/host_cc_tile_topology.py:901-906 | queues exactly the connections not seen before, without repeats |
| MixedBlock.Classify | script/visualization/host_cc_tile_topology.py:880-931 | the input class is exactly what enabled shim ports reach, the output class its complement |
| MixedBlock.InputFeedsInput | script/visualization/host_cc_tile_topology.py:852-861 | no output connection is fed by an input one |
| MixedBlock.InputIsLeast | script/visualization/host_cc_tile_topology.py:890-906 | the input class is the least closed set |
| MixedBlock.InputExactly | script/visualization/host_cc_tile_topology.py:887-906 | a connection is input iff one fed by the SOUTH port of an enabled input leads to it |
| MixedBlock.DrivenFacesBack | script/visualization/host_cc_tile_topology.py:869-878 | the slave port a connection drives faces it: the master port in its place drives back |
| MixedBlock.DrivenIsNext | script/visualization/host_cc_tile_topology.py:869-878 | the classifier and the path tracer go the same way, except out of a shim |
| MixedBlock.WestwardIsInput | script/visualization/host_cc_tile_topology.py:880-906 | a stream that enters at (1,0) and goes west to (0,0) is input there too |
| MixedBlock.DownwardIsOutput | script/visualization/host_cc_tile_topology.py:887-931 | a connection that only feeds a shim output is not input |
| HwPorts.SlaveNameReadsBack | script/visualization/streamswitch_hw_viz.py:72-77 | the slave name made for an arrow reads back as the opposite direction and the same number |
| HwPorts.DirOfExactly | script/visualization/streamswitch_hw_viz.py:72-77 | a port has a direction iff its name begins with NORTH, SOUTH, EAST or WEST |
| HwPorts.TrailingDigitsAreAll | script/visualization/streamswitch_hw_viz.py:129-132 | the port number is read from all the digits a name ends in |
| HwArrows.Scan | script/visualization/streamswitch_hw_viz.py:161-167 | finds the nearest logged tile within the limit, or there is none |
| HwArrows.SpanReachesAll | script/visualization/streamswitch_hw_viz.py:146-149 | no logged tile along a row or column is beyond the scan limit |
| HwArrows.ArrowFor | script/visualization/streamswitch_hw_viz.py:156-202 | the arrow of a master goes to the nearest logged tile, and dangles iff there is none |
| HwArrows.ArrowsOfTile | script/visualization/streamswitch_hw_viz.py:151-202 | one arrow per enabled directional master of a tile |
| HwArrows.ArrowIsUnique | script/visualization/streamswitch_hw_viz.py:156-202 | a master has only one possible arrow |
| HwArrows.BuildArrows | script/visualization/streamswitch_hw_viz.py:135-203 | one arrow per enabled directional master, in log order |
| HwArrows.NearestIsMutual | script/visualization/streamswitch_hw_viz.py:161-167 | looking back from the nearest logged tile, the first logged tile is where one started |
| HwArrows.ArrowsFaceEachOther | script/visualization/streamswitch_hw_viz.py:168-201 | a master named like the slave port an arrow ends at has an arrow straight back, to a slave in the first one's direction and with its number |
| HwArrows.StubIsNeighbour | script/visualization/streamswitch_hw_viz.py:170-187 | a dangling arrow ends at the unlogged neighbour, one step back from which it started |
| HwArrows.WestArrow | script/visualization/streamswitch_hw_viz.py:161-167 | a west master skips an unlogged tile and does not look east |
| HwFlows.Expand | script/visualization/streamswitch_hw_viz.py:293-315 | expanding a slave lists, in order, the ports and arrows of its masters and the slaves to queue, and adds the tiles not yet listed |
| HwFlows.ReadersExactly | script/visualization/streamswitch_hw_viz.py:239-249 | a master is listed for a slave iff some log entry of its tile has it enabled with that slave index |
| HwFlows.OutArrowsExactly | script/visualization/streamswitch_hw_viz.py:251-255 | an arrow leaves a slave iff it is the last arrow with the tile and port of a master that reads the slave |
| HwFlows.TableIsExact | script/visualization/streamswitch_hw_viz.py:234-238 | the slave dictionary lists indices in the order first seen, each with the port written last |
| HwFlows.LandsExactly | script/visualization/streamswitch_hw_viz.py:303-315 | an arrow ends at a slave iff it does not dangle and that slave is the earliest index whose last written port has the arrow's slave name |
| HwFlows.NextExactly | script/visualization/streamswitch_hw_viz.py:293-315 | one slave leads to another iff such an arrow leaves the first and ends at the second |
| HwFlows.TraceFlow | script/visualization/streamswitch_hw_viz.py:283-315 | terminates, expands exactly the reachable slaves breadth first, each once, and keeps their arrows, ports and tiles in that order |
| HwFlows.TraceEntry | script/visualization/streamswitch_hw_viz.py:283-318 | the flow record of one shim slave: its own port first, then what the search keeps |
| HwFlows.TraceTile | script/visualization/streamswitch_hw_viz.py:261-318 | one flow per enabled SOUTH slave of a shim tile, in order |
| HwFlows.TraceShimFlows | script/visualization/streamswitch_hw_viz.py:210-320 | one flow per enabled shim SOUTH slave in log order, none for a log without tiles or arrows |
| HwFlows.EntriesExactly | script/visualization/streamswitch_hw_viz.py:261-275 | flows start at the enabled slaves of row 0 that have an index and a port beginning with SOUTH, and nowhere else |
| HwFlows.SlaveEntriesExactly | script/visualization/streamswitch_hw_viz.py:232-238 | the slave dictionary of a tile is made from all its slaves with an index, enabled or not |
| FlowExample.SampleFlow | script/visualization/streamswitch_hw_viz.py:276-318 | the arrows and tiles of a flow over two tiles, in order |
| FlowExample.SampleFlowPorts | script/visualization/streamswitch_hw_viz.py:280-309 | its ports in order: the entry, then each master followed by the slave port its arrow ends at |
| HwFlows.TraceLog | script/visualization/streamswitch_hw_viz.py:1183-1186 | the flows of a log are traced over its own arrows, one per enabled directional master |
| HwFlows.FlowArrowsExactly | script/visualization/streamswitch_hw_viz.py:293-301 | an arrow is in a flow iff it leaves a slave reachable from the slave the flow enters by |
| HwFlows.FlowTilesExactly | script/visualization/streamswitch_hw_viz.py:303-315 | the tiles of a flow are its shim tile and the tiles its arrows point at, each once |
| HwFlows.FlowHasItsArrows | script/visualization/streamswitch_hw_viz.py:293-301 | every enabled directional master that reads a slave reachable from the entry of a flow has an arrow to the nearest logged tile in that flow |
| HwFlows.ArrowLeavesExactly | script/visualization/streamswitch_hw_viz.py:251-255 | the arrow made for a master leaves the slave it reads iff no later arrow has its tile and port |
| HwFlows.LoggedTwiceHidesArrow | script/visualization/streamswitch_hw_viz.py:251-255 | for a tile logged twice the first arrow leaves no slave, although its master reads one |
| HwFlows.AllArrowsLeaveExactly | script/visualization/streamswitch_hw_viz.py:251-255 | all arrows of masters that name a slave leave it iff none of them shares tile and port with a later one |
| Reach.SearchIsExact | script/visualization/streamswitch_hw_viz.py:287-291 | a search that keeps its queue invariant ends with exactly what its starting points reach |
| LogSplitter.Split | script/visualization/streamswitch_hw_viz.py:103-122 | the index-based loop hands over the fragments of a character-by-character brace scanner |
| LogSplitter.SplitInvertsPrinting | script/visualization/streamswitch_hw_viz.py:84-122 | any objects with brace-free text around them come back unchanged, in order |
| LogSplitter.ObjectSplitExactly | script/visualization/streamswitch_hw_viz.py:103-122 | after any text an object comes back as the next fragment iff the braces before it balance |
| LogSplitter.PrintIsLevel | script/visualization/streamswitch_hw_viz.py:103-122 | every nested object prints as one such fragment |
| LogSplitter.StrayBraceShiftsDepth | script/visualization/streamswitch_hw_viz.py:108-114 | after a stray closing brace the insides are handed over |
| AttrPatch.Tables.Patch | example/debug/aieml_controlperf.cc:1060-1099 | returns the documented codes; every failure leaves memory unchanged; no word with low bits 00 or 11 is ever changed |
| AttrPatch.CodeTellsDepth | example/debug/aieml_controlperf.cc:1054-1059 | -1 iff the hardware walk of the aperture ends at level 0, -2 iff it goes below level 1, -3 iff it ends at level 1 on low bits 00, 0 iff it ends there on 01 or 10; -1 and -3 only if it faults |
| AttrPatch.PatchKeepsTranslations | example/debug/aieml_controlperf.cc:1089-1092 | every address keeps its descriptors and output, aliased tables included; AttrIndx changes only through the rewritten descriptor |
| AttrPatch.SuccessMapsExactly | example/debug/aieml_controlperf.cc:1083-1098 | after success the aperture is mapped with the new attribute iff the descriptor's type was 1 |
| AttrPatch.InvalidDescriptorPatched | example/debug/aieml_controlperf.cc:1083-1091 | tables exist for which success is reported and the aperture faults |
| AttrPatch.WithAttrIs | example/debug/aieml_controlperf.cc:1014-1017 | the rewrite changes bits 4:2 only |
| AttrPatch.HighBits | example/debug/aieml_controlperf.cc:1015-1017 | table and output addresses depend only on bits above 4 |
| AttrPatch.WalkAfterRewrite | example/debug/aieml_controlperf.cc:1089-1092 | rewriting AttrIndx of any word keeps every walk's descriptors and output |
| AttrPatch.IndicesMakeUp | example/debug/aieml_controlperf.cc:1067-1068 | the four table indices and the page offset make up the low 48 bits of an address |
| AttrPatch.TableAddrIs | example/debug/aieml_controlperf.cc:1016 | a table address is a page, and everything else in a descriptor is above bit 47 or below bit 12 |
| AttrPatch.OutputAddrIs | example/debug/aieml_controlperf.cc:1089 | a translation keeps the offset in the block or page and takes the rest from the leaf |
| AttrPatch.EntryInTable | example/debug/aieml_controlperf.cc:1070-1078 | table entries fill one page, eight bytes each |
| AttrPatch.SampleCodes | example/debug/aieml_controlperf.cc:1083-1099 | with a table at level 0, the low bits of the level-1 descriptor alone decide the code |
| AttrPatch.NothingMapped | example/debug/aieml_controlperf.cc:1074-1075 | empty tables map nothing and stay empty |
| BdChain.GetBdChain | script/verify_generated.py:377-390 | the loop follows the dictionary of the tile variable from the start id until the walk ends |
| BdChain.ChainFollowsOrbit | script/verify_generated.py:383-390 | the chain follows `next_bd` and repeats no id |
| BdChain.ChainStopsThere | script/verify_generated.py:386 | it stops only at a negative, undefined or repeated id |
| BdChain.ChainIsLongest | script/verify_generated.py:383-390 | every repetition-free walk along the orbit is a prefix of it |
| BdChain.DictionaryKeepsLast | script/verify_generated.py:380-381 | the dictionary of a tile keeps the last descriptor of each id |
| BdChain.TagChain | script/visualization/host_cc_tile_topology.py:491-507 | the loop marks the first descriptor and then its walk by first match at the tile location |
| BdChain.LookupsAgree | script/visualization/host_cc_tile_topology.py:501-503 | then the tagger's first match is the checker's last write |
| BdChain.TaggerMatchesExactly | script/visualization/host_cc_tile_topology.py:495-507 | for all descriptors, told apart by their variables: the tagger marks exactly the checker's chain iff that chain starts at the tagged descriptor, each later descriptor of it has an id in 0..65535 and is the first at the location with that id, and the tagger stops at the id after it |
| BdChain.TaggerMatchesChecker | script/visualization/host_cc_tile_topology.py:495-507 | so it does when the tile has one variable, no id twice and successors of at most 65535 on it |
| BdChain.RepeatedIdsDiffer | script/visualization/host_cc_tile_topology.py:501-503 | with a repeated id the two disagree, whatever the successors of the two descriptors |
| BdChain.TwoVariablesDiffer | script/verify_generated.py:380-381 | with two variables for one tile the two disagree although no id is repeated |
| RepeatChecks.Check4 | script/verify_generated.py:587-641 | passes iff every sender matches the rounds, when they are known, and receivers agree per channel |
| RepeatChecks.CollectRepeats | script/verify_generated.py:622-632 | the repeats seen per channel |
| RepeatChecks.RepeatTableExactly | script/verify_generated.py:622-632 | a repeat is in the set of a channel iff some IO receives there with it |
| RepeatChecks.InconsistentExactly | script/verify_generated.py:634-638 | a channel set has two values iff two receivers disagree |
| RepeatChecks.Check8 | script/verify_generated.py:804-847 | passes iff the first tile matches the rounds, when they are known, and all tiles agree |
| RepeatChecks.FirstTile | script/verify_generated.py:829-838 | the representative is the tile of least column and, in it, of least row |
| RepeatChecks.LastRepeatsAreLast | script/verify_generated.py:816-827 | the value kept for a tile is that of its last sender |
| RepeatChecks.Check8Exactly | script/verify_generated.py:816-844 | with known rounds, passes iff the last sender of every tile matches |
| RepeatChecks.Check8UnknownExactly | script/verify_generated.py:829-844 | without known rounds check 8 passes iff the last senders of all tiles agree |
| RepeatChecks.Check4ImpliesCheck8 | script/verify_generated.py:605-620 | with known rounds, check 4 implies check 8 |
| RepeatChecks.Check4IsCheck8AndHidden | script/verify_generated.py:829-838 | the sender part of check 4 is check 8 plus the senders a later one hides |
| RepeatChecks.RepresentativeIsEnough | script/verify_generated.py:829-844 | with one sender per tile, check 8 implies the sender part of check 4 |
| RepeatChecks.HiddenSenderMissed | script/verify_generated.py:816-827 | with two senders on a tile it does not |
| RepeatChecks.UnknownRoundsDiffer | script/verify_generated.py:829-844 | without known rounds check 4 can pass where check 8 fails |
| RepeatChecks.CoreRowsCount | script/verify_generated.py:333-336 | a started MM2S channel counts in checks 4 and 8 iff it is in row 3 or above |
| RepeatChecks.CoreRowsAgree | script/verify_generated.py:622-640 | two S2MM channels disagree iff both are in core rows, are one channel and have two repeats |
| RepeatChecks.OthersDoNotCount | script/verify_generated.py:605-616 | an IO without a tile, not started or of the other direction does not count |
| Partition.Failures | src/aiegraph/partition.py:52-68 | a region fails iff its contract is broken, reported first, or its layer is in conflict |
| Partition.CollectByLayer | src/aiegraph/partition.py:94-97 | the requests of each layer |
| Partition.ByLayerExactly | src/aiegraph/partition.py:94-97 | the list of a layer holds exactly its requests |
| Partition.ConflictExactly | src/aiegraph/partition.py:61-62 | a layer has two backends iff two of its requests disagree |
| Partition.Groups | src/aiegraph/partition.py:103-106 | a layer is sent to a kernel iff a request for it there passes and none for it disagrees |
| Partition.SentOnce | src/aiegraph/partition.py:13-15 | no layer is sent to two kernels, nor one whose requests disagree |
| Partition.BrokenRegionSentExactly | src/aiegraph/partition.py:7-15 | a region that breaks its contract is sent along iff another request of its layer passes and none disagrees |
| Partition.BrokenRegionCanBeSent | src/aiegraph/partition.py:103-106 | this happens |
| Placement.PlacementFile.Reset | src/aiegraph/partition.py:33-49 | every AIE row ends on the CPU with entry and swap cleared and the reason set, other rows untouched, the four counters match and the number moved is returned; a missing file stays missing |
| Placement.RunPartition | src/aiegraph/partition.py:82-132 | raises on bad options, nothing assigned or a failure without fallback with the file untouched; otherwise the file keeps all its rows (or those of the network if there was none and something is sent), a row is on a kernel iff this call sent its layer there and the gates admit it, every other row is as a reset leaves it, the four counters match, the report says where each region is and why, and without fallback it raises iff one is not where assigned |
| Placement.PlacementFile.Offload | src/frontend/tvmrelay/aiekernel/flow.py:313-354 | makes a missing file from the network, moves exactly the admitted layers to their kernel with entry, swap and reason set, leaves the others, and the four counters match |
| Placement.PlaceGroups | src/aiegraph/partition.py:103-111 | reset and offload together: the file exists iff it did or something is sent, keeps every row, and has it on a kernel iff its layer was sent there and admitted |
| Placement.RowsAreKept | src/aiegraph/partition.py:103-111 | a row that ends on a kernel is the reset old row with kernel, entry, swap and reason set; any other is the reset old row |
| Placement.RowsArePlaced | src/aiegraph/partition.py:103-111 | after an offload of the groups a row is on kernel k iff its layer was sent to k and admitted |
| Placement.PlacedExactly | src/aiegraph/partition.py:71-74 | a layer is reported on k iff it was sent to k, was admitted and has a row |
| Placement.Report | src/aiegraph/partition.py:117-128 | one report row per request in order, and the list, in model order, of exactly the unassigned regions taken along |
| Placement.AsAssignedExactly | src/aiegraph/report.py:298-300 | a request ends up where assigned iff it asked for the CPU, or its layer was sent there, admitted and has a row |
| Placement.BrokenReportedAsAssigned | src/aiegraph/partition.py:118-122 | a region that breaks its contract is reported without a reason iff another request of its layer passes, none disagrees, the gates admit it and it has a row |
| Placement.OkExactly | src/aiegraph/partition.py:128-131 | a plan is in order iff every request asked for the CPU, or its layer was sent where it asked, admitted and has a row |
| Placement.DraggedOfExactly | src/aiegraph/partition.py:124-127 | a region is listed as taken along iff nothing was asked of it, and its layer was sent, admitted and has a row |
| Placement.RowsStayTidy | src/aiegraph/partition.py:37-42 | a call keeps layer and directory of every row; rows on the AIE swap their own layer, rows on the CPU swap and enter nothing |
| Placement.CountAieExactly | src/aiegraph/partition.py:44 | the count of AIE rows is their number |
| Placement.DirsOnExactly | src/frontend/tvmrelay/aiekernel/flow.py:347-350 | a directory counts for the AIE iff some row in it is there, and for the CPU iff some row is not |
| ByteOffsets.ComputeByteOffsets | script/visualization/host_cc_control.py:730-837 | every op is annotated from what the ops before it established |
| ByteOffsets.SliceWithinParent | script/visualization/host_cc_control.py:777-798 | a non-empty slice inside its parent's shape has its bytes inside its parent's |
| ByteOffsets.AnnotationWithinSource | script/visualization/host_cc_control.py:786-798 | the annotation of a slice that fits lies inside the bytes of its source |
| ByteOffsets.NestedSlicesStayInside | script/visualization/host_cc_control.py:730-798 | however deep the nesting, a slice whose chain of cuts fits stays inside the tensor it came from |
| ByteOffsets.SliceOffsetExactly | script/visualization/host_cc_control.py:786-788 | a slice's offset is right iff it starts in row 0 or its parent is as wide as the tensor |
| ByteOffsets.RangeCoversExactly | script/visualization/host_cc_control.py:789-797 | a range holds all elements of its window iff it is one row or full width |
| ByteOffsets.NarrowSliceMisplaced | script/visualization/host_cc_control.py:786-797 | for the left half of a 4x4 tensor the range misses elements, and its second row is placed at byte 2 instead of 4 |
| ByteOffsets.RangeHoldsOnly | script/visualization/host_cc_control.py:789-797 | a range of one row or full width holds no byte outside its window |
| ByteOffsets.CutSelects | script/visualization/host_cc_control.py:777-788 | a cut window has exactly the elements its offsets name |
| ByteOffsets.AnnotationCoversExactly | script/visualization/host_cc_control.py:777-798 | in any program, the annotation of a slice covers the elements its cuts name iff every slice on the way starts in row 0 or is cut out of something as wide as the tensor and its own window is one row or as wide as the tensor; then the range holds nothing else |
| ByteOffsets.ChainTooLow | script/visualization/host_cc_control.py:786-788 | along any chain of cuts the computed offset is never too high, and it is right iff the chain meets that condition |
| ByteOffsets.RowBandsAreDisjoint | script/visualization/host_cc_control.py:786-797 | full-width slices over disjoint row bands have disjoint ranges |
| ByteOffsets.BandAnnotationsAreDisjoint | script/visualization/host_cc_control.py:786-797 | two ops of a program that cut disjoint bands of full rows out of one variable are annotated with disjoint ranges |
| BufferOffsets.OffsetsAdd | script/visualization/host_cc_control.py:800-818 | a variable any number of buffer offsets into an allocation is known at the sum of the offsets, with the size and name of the allocation |
| BufferOffsets.OffsetAnnotation | script/visualization/host_cc_control.py:809-821 | its range is the rest of the allocation from there on, empty at or beyond the end |
| BufferOffsets.OffsetsNarrow | script/visualization/host_cc_control.py:809-821 | a non-negative offset inside the allocation narrows the range of the buffer it is taken from |
| BufferOffsets.AllocationIsKept | script/visualization/host_cc_control.py:737-818 | whatever is declared over, cut out of or offset into an allocation is known with its size and name |
| BufferOffsets.DeclaredDataIsWhole | script/visualization/host_cc_control.py:742-753 | declared data are annotated with the whole allocation |
| BufferOffsets.DeclaredTensorIsSource | script/visualization/host_cc_control.py:823-836 | a tensor declared over a partition or slice is annotated with exactly its range |
| BufferOffsets.DeclaredOverOffsetExactly | script/visualization/host_cc_control.py:823-836 | declared over an offset into an allocation it is annotated with one byte there, so like the offset iff that is the last byte of the allocation |
| BufferOffsets.DeclaredTensorIsOneByte | script/visualization/host_cc_control.py:800-836 | two nested offsets of 16 into 100 bytes are annotated [32:100), the tensor over them [32:33) |
| BufferOffsets.OverUnknown | script/visualization/host_cc_control.py:777-826 | what is made over a variable nothing defines |
| BufferOffsets.ProductOfParts | script/visualization/host_cc_control.py:769-771 | the element count of a shape is the product of its extents, in any grouping |
| BufferOffsets.PartitionAnnotation | script/visualization/host_cc_control.py:755-775 | a partition tensor is annotated with its elements from byte 0 on, whatever it is declared over |
| BufferOffsets.SliceStarts | script/visualization/host_cc_control.py:786-788 | for sources of any shape: one row further is the second extent further, one column one element, and without a second extent rows do not count |

## Left out

- Parsing of host.cc, routing.cc, MLIR and JSON text; models start from parsed records.
- HTML, SVG and PNG rendering, HTTP serving and argument handling of the visualisation scripts.
- Driver, runtime and TVM calls; the gates of an offload may admit any subset of the layers sent to it.
- Cache and TLB maintenance, timing, board access and the host's polling loop.
- The array form of a log, and JSON decoding of the fragments; fragments that do not decode are dropped by the code.
- Braces inside JSON strings: the splitter counts them like any other, and an object here is a text whose braces balance.
- Checks 1, 2, 3, 5, 6 and 7 of the pre-hardware verifier: single comparisons per descriptor, or a report only.
- Overflow of the 32-bit index expressions of the convolution; positions are proved to be inside the dense buffers, so it cannot happen for buffers of fewer than 2^31 elements.
- The flow grouping of IOs, plan and contract parsing, and the register-address helpers: easy members.
- TraceSources.TraceBlock: leaves the order of the sources open, because they are a Python set.
- MixedBlock.Classify: circuit connections only; packet edges are not part of that search in the code either.
- HwFlows.TraceShimFlows: the lookup tables built before the search are functions of the log and the arrows, each with a lemma that says what it holds.
- ConvKernel.Conv3x3Requant: asks for dense buffers; what C stores when the window leaves the input is not modelled, only when that happens.
- StreamKernel.DoubleWindow: windows of a multiple of 64 words; the code's window is 1024 words and its loop writes whole vectors.
- AttrPatch.Tables.Patch: the walk ignores TCR settings and address bits above 47, and the cache and TLB maintenance after the store.
- Placement.PlacementFile.Offload: a row is known by its layer, and a kernel by its registered name; the archive fields of a row and rows kept from other libraries are not modelled, since no row is on the AIE before; kernels are built, so the mode that records a kernel without an archive is not modelled.
- Placement.RunPartition: the gates are one predicate on kernel and layer, and the texts of the reasons are not modelled.
- ByteOffsets.AnnotationCoversExactly: slices on the way fit in what is known about their source and the tensor is a non-empty matrix; for others there is no window to cover.
