# xtream: windows, pipelines and graphs

A Dafny model of the xtream stream engine: from the fluent graph builder, through compilation and
the split into pipelines, to event-time windows and the threads that run them.

An out-of-order source emits watermarks that trail the latest timestamp by the allowed lateness. A
time window keeps a sorted buffer and a cursor, fires every window end that a watermark covers,
discards what it will not need again, and flushes the rest at close. The compiled chain of operators
is cut behind every window; each piece runs on its own thread and hands its results to the next
piece through a channel guarded by a mutex and a condition variable.

Where the code changes things in place the model is a class whose methods are proved against a
function of the old state; what the code promises is proved about those functions, over whole runs.

| file | what it models |
|---|---|
| `types.dfy`, `event_buffer.dfy`, `input_channel.dfy` | values and 64-bit arithmetic, the sorted buffer, the channel's queue |
| `cursors.dfy`, `window_limits.dfy` | the wrapping window cursor: when the loops end, and exactly for which horizons the window results hold |
| `time_window.dfy`, `count_window.dfy`, `source.dfy` | the operators, each as a step function and a class |
| `window_theory.dfy`, `window_batch.dfy`, `window_count.dfy` | whole runs of a time window: cleanup, batch equivalence, multiplicity |
| `chain.dfy`, `split.dfy`, `unsplit.dfy`, `operator_runs.dfy` | chains of operators, cutting them, the uncut chain, whole runs of single operators |
| `meaning.dfy` | what maps, filters and windows mean in terms of their input alone, and that the compiled chain computes it |
| `physical.dfy`, `pipeline_runs.dfy` | linked operators on the heap, a pipeline's driving loop, and the built pipelines run on the heap |
| `network.dfy`, `schedules.dfy` | pipelines as threads, every schedule of them |
| `monitor.dfy` | the channel's lock and condition variable, step by step |
| `engine.dfy` | slots, running flags and the polling loop |
| `kahn.dfy`, `graph.dfy`, `builder.dfy` | Kahn's algorithm, validation, topological order, the fluent builder |
| `compiler.dfy`, `execution_graph.dfy` | compilation of a path and its split into pipelines, on the heap |
| `end_to_end.dfy` | from fluent calls to what the sink receives |

`Outcome` is `Hang` where a loop of an operator never ends: unsigned addition wraps, so the cursor may
never exceed a watermark. `ExitsExactly`, `FlushEndsExactly` and `RunEndsExactly` say exactly when that
happens. The guard that the source comments as protecting against overflow
(`src/operators/physical/time_window_physical_operator.h:73`) repeats the loop condition and never breaks
out of the loop; the model keeps it. What the cursor can do in 64 bits depends on the advance, the size
and the horizon, which bounds watermarks and timestamps plus size: `RangeIsExact` and
`BatchRangeIsExact` show that the condition under which the window results are proved is the weakest
one, by an input for every window and horizon outside of it.

Inductive lemmas carry `{:induction false}`, so that each proof is the one written out; so do a few
others whose proofs the induction hypotheses that the verifier would add only slow down.

## Model

| member | source | states |
|---|---|---|
| EventBuffers.EventBuffer.LowerBound | src/runtime/event_buffer.h:15-16 | the halving search returns the index that separates smaller timestamps from the others |
| EventBuffers.EventBuffer.Insert | src/runtime/event_buffer.h:14-18 | the event goes in front of all events that are not earlier; the buffer stays sorted |
| EventBuffers.EventBuffer.Extract | src/runtime/event_buffer.h:20-33 | returns and removes exactly the events of [start, end) |
| EventBuffers.EventBuffer.Query | src/runtime/event_buffer.h:35-47 | returns exactly the events of [start, end) and changes nothing |
| EventBuffers.EventBuffer.CleanupBefore | src/runtime/event_buffer.h:49-53 | keeps exactly the events at or after the timestamp |
| EventBuffers.TiesAreReversed | src/runtime/event_buffer.h:15-17 | equal timestamps sit in reverse arrival order |
| EventBuffers.QueryIsWindow | src/runtime/event_buffer.h:35-47 | a query of the buffer is a window of the arrival history, timestamp by timestamp with the latest arrival first |
| InputChannels.InputChannel.Write | src/runtime/input_channel.h:22-28 | appends to the queue |
| InputChannels.InputChannel.Read | src/runtime/input_channel.h:38-47 | takes the first event, and returns nothing only from an empty queue |
| Cursors.ExitsExactly | src/operators/physical/time_window_physical_operator.h:65-75 | a loop that adds `advance` until the cursor exceeds a bound ends iff bound < 2^64 - g + cursor mod g with g = gcd(advance, 2^64) |
| Cursors.NoWrapExactly | src/operators/physical/time_window_physical_operator.h:65-75 | none of the additions that the loop makes until its cursor exceeds the watermark wraps iff the next multiple above the watermark is below 2^64 |
| TimeWindows.FlushEndsExactly | src/operators/physical/time_window_physical_operator.h:40-53 | the flush loop empties the buffer iff the cursor can exceed the latest buffered timestamp plus the size |
| WindowLimits.NeverEndingWatermarks | src/operators/physical/time_window_physical_operator.h:65-75 | the greatest watermark, or an advance of zero, makes the loop endless |
| WindowLimits.PastMarkExactly | src/operators/physical/time_window_physical_operator.h:65-75 | the loop leaves the next window end behind as cursor iff that is a 64-bit value |
| WindowLimits.WrappedCursorFires | src/core/types/int.h:33-38 | whenever it is not and the loop still ends, every event right below the wrapped cursor is handed out in a window whose end is no multiple of `advance` |
| WindowLimits.FiresMultiplesExactly | src/operators/physical/time_window_physical_operator.h:65-75 | a watermark fires only multiples of `advance`, whatever is buffered, iff the next window end is a 64-bit value |
| WindowLimits.RunEndsExactly | src/operators/physical/time_window_physical_operator.h:37-81 | all runs up to a horizon, close included, come to an end iff the horizon is below 2^64 - gcd(advance, 2^64) or admits no event |
| WindowLimits.NeverWrapsExactly | src/operators/physical/time_window_physical_operator.h:37-81 | no addition of any watermark or of the flush wraps, over all runs up to a horizon, iff the first window end above the horizon leaves room for one more advance |
| WindowLimits.RangeIsExact | src/operators/physical/time_window_physical_operator.h:25-81 | unobservable cleanup, no window end twice, and the multiplicity of events: each holds for all runs up to a horizon iff one arithmetic condition on advance, size and horizon does |
| WindowLimits.BatchRangeIsExact | src/operators/physical/time_window_physical_operator.h:25-81 | the same, with its own exact condition, for the batch windows and the floor formula on inputs without late events |
| TimeWindows.TimeWindowOperator.OnWatermark | src/operators/physical/time_window_physical_operator.h:63-81 | new state and emitted results are those of the step function, for every case in which the loop ends |
| TimeWindows.TimeWindowOperator.Execute | src/operators/physical/time_window_physical_operator.h:25-35 | events are inserted and set the cursor once; watermarks fire windows and go no further |
| TimeWindows.TimeWindowOperator.Close | src/operators/physical/time_window_physical_operator.h:37-58 | emits the flush, leaves the buffer empty, then closes the output channel |
| TimeWindows.TimeWindowOperator.Emit | src/operators/physical/time_window_physical_operator.h:83-90 | a result goes to the channel if one is set, otherwise to the next operator |
| TimeWindows.ResultsAt | src/operators/physical/time_window_physical_operator.h:44-49 | the i-th result is the user function of the i-th window's events, in the order of the window |
| WindowTheory.CleanupIsUnobservable | src/operators/physical/time_window_physical_operator.h:63-81 | for every mix of events and watermarks, late or decreasing ones included, the same windows fire as in a reference that keeps every event |
| WindowBatch.BatchEquivalence | src/operators/physical/time_window_physical_operator.h:25-81 | without late events the windows fired over run and close are the batch windows of the events that arrived |
| WindowBatch.BatchIsEveryWindow | src/operators/physical/time_window_physical_operator.h:41-47 | the batch windows are all nonempty windows [max(0, w - size), w) for w over the positive multiples of `advance`, and nothing else |
| WindowCount.NoWindowFiresTwice | src/operators/physical/time_window_physical_operator.h:65-75 | fired window ends are strictly ascending positive multiples of `advance`; the cursor exceeds every watermark since the first event |
| WindowCount.EventMultiplicity | src/operators/physical/time_window_physical_operator.h:37-75 | an event is handed out once per multiple of `advance` at or after the cursor at its arrival that lies in (ts, ts + size] |
| WindowCount.EndsClosedForm | src/operators/physical/time_window_physical_operator.h:66-74 | that number in closed form, with floors |
| WindowCount.MultiplicityWithoutLateness | src/operators/physical/time_window_physical_operator.h:37-75 | without late events it is floor((ts+size)/advance) - floor(ts/advance), and one for tumbling windows |
| CountWindows.CountWindowOperator.Execute | src/operators/physical/count_window_physical_operator.h:23-30 | events are buffered and a full buffer fires; watermarks are dropped |
| CountWindows.CountWindowOperator.FireAndSlide | src/operators/physical/count_window_physical_operator.h:45-60 | the whole buffer is handed out, then `advance` events, or all, are dropped |
| CountWindows.CountWindowOperator.Close | src/operators/physical/count_window_physical_operator.h:32-40 | the partial buffer is emitted only towards a channel, which is then closed |
| CountWindows.CountClosedForm | src/operators/physical/count_window_physical_operator.h:23-60 | the k-th window starts at k * min(advance, size); number of windows and remaining buffer after n events |
| CountWindows.CountDegenerate | src/operators/physical/count_window_physical_operator.h:25-28 | with size or advance zero: no window, or only the first one |
| CountWindows.TumblingLosesNothing | src/operators/physical/count_window_physical_operator.h:32-60 | non-overlapping windows of run plus close concatenate to the input |
| CountWindows.NothingLeftOver | src/operators/physical/count_window_physical_operator.h:32-36 | no partial window is left iff the input is empty, or windows do not overlap and its length is a multiple of the size |
| Sources.SourceOperator.Execute | src/operators/physical/source_physical_operator.h:28-47 | one event is forwarded, perhaps followed by a watermark; at the end of the input only the done flag changes |
| Sources.SourceOperator.Close | src/operators/physical/source_physical_operator.h:48-52 | one more watermark attempt if events came since the last one |
| Sources.WatermarksOfRun | src/operators/physical/source_physical_operator.h:28-68 | events pass unchanged; watermarks strictly increase, each is the latest timestamp less the lateness; the last one is that of the whole input, for every interval |
| Sources.MarkEveryInterval | src/operators/physical/source_physical_operator.h:42-46 | after every full interval the last watermark is up to date |
| Sources.MarkOnlyEveryInterval | src/operators/physical/source_physical_operator.h:42-52 | no watermark is emitted but right after a full interval, and the close adds at most one, at the end |
| Sources.SourceEmitsExactly | src/operators/physical/source_physical_operator.h:28-68 | the output before the close is exactly the events and, at the end of each interval, the watermark of the latest timestamp if it is above the one before |
| Sources.BoundedDisorderIsNeverLate | src/operators/physical/source_physical_operator.h:57-68 | disorder within the allowed lateness never makes an event late |
| Chains.FeedCompose | src/operators/physical/map_physical_operator.h:20-33 | driving elements through a chain is driving them through its front and what leaves it through its back |
| Chains.RunCompose | src/engine/pipeline.h:50-65 | the whole life of a chain is the life of its front followed by the life of its back, although they interleave |
| Splits.SplitStructure | src/engine/execution_graph.h:26-58 | k windows give k + 1 pieces, each but the last ending in its only window; joined without the channel sources they are the chain |
| Splits.SplitPreservesMeaning | src/engine/execution_graph.h:27-58 | running the pieces in sequence ends in the operator states of the uncut chain with channels, and hangs iff it does |
| Unsplit.TimeWindowsAgree | src/operators/physical/time_window_physical_operator.h:83-90 | with time windows only, cut and uncut chain end in the same states |
| Unsplit.SettledExactly | src/operators/physical/count_window_physical_operator.h:32-40 | every part of the chain, from the root on, lets the same elements out with channels as without iff the uncut run leaves no partial count window |
| Unsplit.WatermarksPass | src/operators/physical/filter_physical_operator.h:26-31 | maps and filters pass every watermark, in its place among the events, late events included |
| Unsplit.MissingPartialWindow | src/operators/physical/count_window_physical_operator.h:33-36 | without a channel the sink behind a count window, maps and filters misses exactly what these make of the last partial window; the sinks agree iff that is nothing |
| Unsplit.CutSinkReceivesMore | src/engine/execution_graph.h:27-58 | so the sink of the cut pipelines receives exactly that much more than the sink of the uncut chain |
| OperatorRuns.StatelessPasses | src/operators/physical/map_physical_operator.h:20-33 | the watermarks that leave any maps and filters are those that entered, and the events are what they make of them, one after the other |
| OperatorRuns.StatelessChain | src/operators/physical/filter_physical_operator.h:19-32 | maps that keep timestamps, and filters, make no event late; watermarks come out as they went in |
| Meanings.MeansUnique | src/main.cpp:26-52 | the meaning of maps, filters and windows, stated on the input alone, is one output for every input |
| Meanings.BatchMeans | src/operators/physical/time_window_physical_operator.h:41-47 | a time window means one result for every nonempty window [max(0, w - size), w), by ascending w: the user function of that window of the input |
| Meanings.CountMeans | src/operators/physical/count_window_physical_operator.h:23-60 | a count window with a channel means one result for every full window and one for what is left over |
| Meanings.SourceMeans | src/operators/logical/source_logical_operator.h:29-32 | the source that is asked for with a lateness and an interval, once compiled: watermarks trail by that lateness and come after every that many events and at no other time before the close |
| Meanings.SinkMeans | src/operators/logical/window_logical_operator.h:26-31 | source, any mix of maps, filters, time windows and count windows, sink, all given by what was asked for: once compiled, the sink ends up with exactly their meaning for the source's events |
| Physical.PhysicalOperator.Execute | src/operators/physical/map_physical_operator.h:20-33 | driving an element through linked operators changes their states as the chain function says; the tail's channel gets what leaves the tail |
| Physical.PhysicalOperator.Close | src/operators/physical/count_window_physical_operator.h:32-40 | the flush is driven through the operators behind, then the output channel is closed |
| Physical.PhysicalOperator.Pull | src/operators/physical/channel_source_physical_operator.h:22-30 | a root reads its channel or calls the source function; it is done when nothing came, a channel source alone with the first event |
| Physical.Pipeline.Run | src/engine/pipeline.h:50-65 | the driving loop until is_done and the close walk leave the states of the whole-life function of all that was to be read, and a closed output channel |
| Physical.Pipeline.CloseWalk | src/engine/pipeline.h:73-79 | the walk along `next` closes every operator once, from root to tail |
| PipelineRuns.RunAll | src/engine/pipeline.h:50-65 | the pipelines on the heap, one after the other through their channels, end in the states of the sequential run |
| PipelineRuns.BuildAndRun | src/engine/execution_graph.h:21-65 | compiled, cut and run on the heap, a graph's operators end in the states of the uncut chain with channels |
| Networks.StepKeepsInv | src/engine/pipeline.h:50-65 | whichever thread steps: its state is determined by what it has read, and reads followed by queue are the writes of the pipeline before |
| Schedules.ScheduleIndependence | src/engine/execution_graph.h:21-65 | no schedule deadlocks or goes on forever, and every schedule ends in the states of the sequential run |
| Schedules.EndsExactly | src/operators/physical/channel_source_physical_operator.h:22-30 | the pipelines can all end iff the sequential run does not hang |
| Schedules.ConcurrentRunIsUncutRun | src/engine/execution_graph.h:21-65 | any complete schedule of the pieces leaves the uncut chain's operator states |
| Schedules.NotStuck | src/runtime/input_channel.h:38-47 | the first pipeline that has not ended is never blocked |
| Schedules.LoneStops | src/operators/physical/channel_source_physical_operator.h:22-30 | a pipeline that is a channel source alone never reads more than one event, in any schedule |
| Monitors.MonitorIsSafe | src/runtime/input_channel.h:22-47 | nothing lost or reordered, nothing returned for nothing, no lost wake-up, and always a step left until all is written and read and the reader has been told the end |
| Monitors.MonitorTerminates | src/runtime/input_channel.h:22-47 | the number of steps is bounded by the start and the spurious wake-ups |
| Monitors.RunIsAtomic | src/runtime/input_channel.h:22-47 | every run under the lock is a run of atomic writes, one close and reads: in program order, with the same results, the end told last |
| Monitors.NetworkStepIsAtomic | src/runtime/input_channel.h:22-47 | the network of pipelines uses every channel through exactly these atomic operations |
| Engines.ExecuteReturns | src/engine/slot_engine.cpp:19-40 | when execute returns, every slot's pipeline has terminated; all pipelines have iff there are as many slots as pipelines |
| Engines.ExecuteCrashes | src/engine/slot.cpp:26-29 | with more slots than pipelines execute never returns, and from every state that any turns lead to, some more turns make a slot without a pipeline crash |
| Engines.ExecuteComputesSequentialRun | src/engine/slot_engine.cpp:19-40 | with equal numbers nothing crashes and the result is that of the sequential run |
| Engines.SlotTurnsBounded | src/engine/slot.cpp:26-29 | the slots' threads take boundedly many steps before all flags are down |
| Engines.SomeoneCanTurn | src/engine/slot.cpp:9-15 | once all slots are started and while a flag is up, some slot's thread can step |
| Engines.ReturnsOnceDown | src/engine/slot_engine.cpp:28-39 | once all flags are down, one pass of the poll returns |
| Engines.ExecuteCanAlwaysReturn | src/engine/slot_engine.cpp:19-40 | from every state that any turns lead to, some turns make execute return, iff the sequential run does not hang |
| Kahn.Drain | src/graph/dataflow_graph.h:182-193 | Kahn's loop lists exactly the ids without an edge from outside the list, each once, sources first |
| Graphs.CheckNoCycles | src/graph/dataflow_graph_builder.h:168-209 | with known endpoints the visited count matches iff there is no cycle, parallel edges and self-loops included |
| Graphs.CheckEdges | src/graph/dataflow_graph_builder.h:211-222 | succeeds iff all endpoints are known; otherwise names the first offending end |
| Graphs.Validate | src/graph/dataflow_graph_builder.h:122-135 | succeeds iff there is an operator, all endpoints are known and there is no cycle; for edges into known operators the error is "contains a cycle" iff there is a cycle or an unknown source, and check_edges never objects |
| Graphs.UnknownSourceReportedAsCycle | src/graph/dataflow_graph_builder.h:205-207 | an acyclic graph with an edge from a handle that is not the builder's own, whose error reads "contains a cycle" |
| Graphs.TopologicalOrder | src/graph/dataflow_graph.h:158-196 | for every iteration order of the hash map: a permutation of all ids, sources first, iff the graph has no cycle |
| Graphs.OrderedMeansAcyclic | src/graph/dataflow_graph.h:158-196 | an order that lists sources first rules out every cycle |
| Builders.DataflowGraphBuilder.AddUnary | src/graph/dataflow_graph_builder.h:234-273 | a new highest id and one edge from the handle to it |
| Builders.DataflowGraphBuilder.AddJoin | src/graph/dataflow_graph_builder.h:275-303 | a new highest id and one edge from each side |
| Builders.DataflowGraphBuilder.SetSourceLateness | src/graph/dataflow_graph_builder.h:157-166 | changes the lateness of that source and nothing else |
| Builders.DataflowGraphBuilder.Build | src/graph/dataflow_graph_builder.h:107-120 | for any handles: the validation assertion holds iff there is an operator, all sources are known and there is no cycle; it never fails on a nonempty builder whose edges rise |
| Builders.EveryBuiltGraphIsValid | src/graph/dataflow_graph_builder.h:148-166 | after any sequence of handle calls, with_watermark included: ids unique and below the counter, targets known; with the builder's own handles also sources known and no cycle |
| Builders.GraphOfCalls | src/graph/dataflow_graph_builder.h:234-303 | after any sequence of calls: every call's operator under its id, with the lateness last set for it; from every handle as many edges to it as the call names that handle; no other edges |
| Builders.WithWatermarkSetsLateness | src/graph/dataflow_graph_builder.h:157-166 | with_watermark behind source() is asking for that lateness from the start |
| Compilers.Compile | src/engine/compiler.h:13-26 | for a single path without joins, following `next` visits every compiled operator once in path order, whatever the order of edges and hash map |
| Compilers.ChainedCallsMakeAPath | src/graph/dataflow_graph_builder.h:234-273 | one chain of fluent calls builds a single path in call order |
| ExecutionGraphs.Cut | src/engine/execution_graph.h:26-58 | cutting in place yields the segments; each channel has one writer, and its reader is the root of the next piece; no operator is lost or shared |
| ExecutionGraphs.Build | src/engine/execution_graph.h:21-65 | one pipeline more than windows, each over its segment of the compiled path |
| EndToEnd.FluentChainCompiles | src/main.cpp:26-52 | the operators that Build cuts are those of the fluent calls, in order |
| EndToEnd.EngineRunsTheChain | src/engine/slot_engine.cpp:19-40 | whatever the interleaving, when execute returns the operators are in the states of the uncut chain with channels |
| EndToEnd.SinkReceivesMeaning | src/main.cpp:26-62 | from the calls, with_watermark included, to the sink: whatever the interleaving, when execute returns the sink has received what the operators asked for mean for the source's events |
| EndToEnd.RunBuiltChain | src/engine/execution_graph.h:21-65 | the same for the graph of the calls compiled, cut and run on the heap |

## Left out

- Joins: they compile to nothing, so they are graph nodes with two incoming edges and no more.
- Graphs that are not a single path: an operator has one `next`, which the compiler overwrites; Compile asks for a path.
- `stop`, `cancel` and `Pipeline::run(event_count)`: only uncancelled runs over a finite source are modelled.
- Overflow of the id counters, of in-degrees and of buffer sizes: they are unbounded numbers here; timestamps, watermarks and the cursor are 64 bits wide.
- User functions: pure and total, not able to throw or to block; records, metadata and schemas are opaque.
- Results emitted before an endless loop: the model says that an operator hangs, not what it emitted first.
- The place of hand-over inside a step: an operator's results are handed on after its own step rather than from within its loop; operators behind it never read its state, so the order is the same.
- Data races and memory order: a step of a thread between two channel operations is atomic, and flags are sequentially consistent.
- SinkMeans: asks of every time window that advance, size and the events that reach it keep to the range that is exact for that window on every input without late events; a source sends only some of these, so a little more would do. In front of a time window the disorder must stay within the lateness and maps must keep timestamps; what happens to late events is said per window, in EventMultiplicity.
- SinkReceivesMeaning: the same.
- RunBuiltChain: the same.
- SettledExactly: with several count windows the exact condition is on the run itself; MissingPartialWindow gives it on the input, and the exact difference, for the last count window of a chain.
- RunAll: on the heap the pipelines run one after the other; that all interleavings end alike is proved on values in Networks and Schedules.
- Slot reuse: a slot is started once.
- Graphviz and JSON output, logging and the command-line program's printing.
