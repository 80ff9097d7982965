/** The engine from the graph to the sink. */
module EndToEnd {
  import opened Types
  import opened Chains
  import opened Splits
  import opened Kahn
  import Networks
  import opened Engines
  import opened Builders
  import opened Compilers
  import opened Physical
  import opened ExecutionGraphs
  import opened PipelineRuns
  import opened Meanings

  /** The operator states of all pipelines, put back together. */
  function Gathered(net: Networks.Net): seq<Op> {
    Join(seq(|net.procs|, i requires 0 <= i < |net.procs| => net.procs[i].ops))
  }

  /**
   * For every chain of operators and every interleaving of the engine's threads: when execute
   * returns, with one slot per pipeline, the operators are in exactly the states in which the
   * uncut chain, its windows given channels, would have ended in one thread.
   */
  lemma EngineRunsTheChain(ops: seq<Op>, source: seq<Event>, turns: seq<Turn>)
    requires ops != []
    requires ValidTurns(Launch(Segments(ops), source, |Segments(ops)|), turns)
    requires Drive(Launch(Segments(ops), source, |Segments(ops)|), turns).main.Returned?
    ensures RunOps(SetChannels(ops), AsData(source)).Done?
    ensures Gathered(Drive(Launch(Segments(ops), source, |Segments(ops)|), turns).net)
            == RunOps(SetChannels(ops), AsData(source)).value.0
  {
    hide RunOps, SeqRun, Drive, ValidTurns, Segments, Join, SetChannels;
    var segments := Segments(ops);
    SplitStructure(ops);
    SplitPreservesMeaning(ops, source);
    ExecuteComputesSequentialRun(segments, source, turns);
    var net := Drive(Launch(segments, source, |segments|), turns).net;
    assert seq(|net.procs|, i requires 0 <= i < |net.procs| => net.procs[i].ops)
        == SeqRun(segments, source).value;
  }

  /** The operators that calls ask for. */
  function AskedOps(calls: seq<Call>): (r: seq<LogicalOp>)
    requires forall i :: 0 <= i < |calls| ==> calls[i].Call?
    ensures |r| == |calls| && forall i :: 0 <= i < |calls| ==> r[i] == calls[i].op
  {
    seq(|calls|, i requires 0 <= i < |calls| => calls[i].op)
  }

  /**
   * From fluent calls to pipelines: a chain of calls builds a valid single-path graph, and the
   * operators along its path, which Build cuts into pipelines, are those of the calls in order.
   */
  lemma {:induction false} FluentChainCompiles(calls: seq<Call>)
    requires calls != [] && Chained(1, calls)
    requires forall i :: 0 <= i < |calls| ==> calls[i].Call? && Compiles(calls[i].op)
    ensures var s := ApplyAll(EMPTY, calls);
            && SinglePath(DataflowGraph(s.nodes, s.edges), Ids(s.nodes))
            && (forall x :: x in Ids(s.nodes) ==> Compiles(OpOf(s.nodes, x)))
            && PathOps(s.nodes, Ids(s.nodes)) == Compiled(AskedOps(calls))
  {
    hide CompileOp, SinglePath, ApplyAll, Chained, OpOf, Compiles;
    ChainedCallsMakeAPath(calls);
    var nodes := ApplyAll(EMPTY, calls).nodes;
    forall x | x in Ids(nodes)
      ensures Compiles(OpOf(nodes, x))
    {
      var i :| 0 <= i < |Ids(nodes)| && Ids(nodes)[i] == x;
      assert Compiles(calls[i].op);
    }
    PathOpsIndex(nodes, Ids(nodes));
    hide PathOps;
    assert forall i :: 0 <= i < |calls| ==> PathOps(nodes, Ids(nodes))[i] == CompileOp(calls[i].op);
  }

  lemma {:induction false} PathOpsIndex(nodes: seq<Node>, path: seq<nat>)
    requires forall x :: x in path ==> x in Ids(nodes) && Compiles(OpOf(nodes, x))
    ensures |PathOps(nodes, path)| == |path|
    ensures forall i :: 0 <= i < |path| ==>
              && path[i] in Ids(nodes) && Compiles(OpOf(nodes, path[i]))
              && PathOps(nodes, path)[i] == CompileOp(OpOf(nodes, path[i]))
  {
    if path != [] {
      assert path[0] in path && forall x :: x in path[1..] ==> x in path;
      PathOpsIndex(nodes, path[1..]);
    }
  }

  // ---------- from the calls to the sink ----------

  /** source(), the operators and sink(), each call on the handle that the one before it returned. */
  ghost predicate CallsOf(calls: seq<Call>, lateness: u64, interval: u64, ops: seq<LogicalOp>)
    requires AllMiddle(ops)
  {
    && Chained(1, calls) && (forall i :: 0 <= i < |calls| ==> calls[i].Call?)
    && AskedOps(calls) == Chain(lateness, interval, ops)
  }

  /** The same with the lateness set by with_watermark. */
  ghost predicate CallsWithWatermark(calls: seq<Call>, lateness: u64, interval: u64, ops: seq<LogicalOp>)
    requires AllMiddle(ops)
  {
    exists other: u64, rest: seq<Call> ::
      && calls == [Call([], SourceLogical(other, interval))] + ([WithWatermark(1, lateness)] + rest)
      && CallsOf([Call([], SourceLogical(lateness, interval))] + rest, lateness, interval, ops)
  }

  ghost predicate AsksFor(calls: seq<Call>, lateness: u64, interval: u64, ops: seq<LogicalOp>)
    requires AllMiddle(ops)
  {
    CallsOf(calls, lateness, interval, ops) || CallsWithWatermark(calls, lateness, interval, ops)
  }

  /** The calls build a single path, and `built` are its operators, compiled. */
  ghost predicate Builds(calls: seq<Call>, built: seq<Op>) {
    var s := ApplyAll(EMPTY, calls);
    && SinglePath(DataflowGraph(s.nodes, s.edges), Ids(s.nodes))
    && (forall x :: x in Ids(s.nodes) ==> Compiles(OpOf(s.nodes, x)))
    && PathOps(s.nodes, Ids(s.nodes)) == built
  }

  lemma CallsMakeTheChain(calls: seq<Call>, lateness: u64, interval: u64, ops: seq<LogicalOp>)
    requires AllMiddle(ops) && AsksFor(calls, lateness, interval, ops)
    ensures Builds(calls, Compiled(Chain(lateness, interval, ops)))
  {
    hide ApplyAll, SinglePath, PathOps, OpOf, Chained, CompileOp;
    if CallsOf(calls, lateness, interval, ops) {
      DirectCalls(calls, lateness, interval, ops);
    } else {
      var other: u64, rest: seq<Call> :|
        && calls == [Call([], SourceLogical(other, interval))] + ([WithWatermark(1, lateness)] + rest)
        && CallsOf([Call([], SourceLogical(lateness, interval))] + rest, lateness, interval, ops);
      WithWatermarkSetsLateness(interval, lateness, other, rest);
      DirectCalls([Call([], SourceLogical(lateness, interval))] + rest, lateness, interval, ops);
    }
  }

  lemma DirectCalls(calls: seq<Call>, lateness: u64, interval: u64, ops: seq<LogicalOp>)
    requires AllMiddle(ops) && CallsOf(calls, lateness, interval, ops)
    ensures Builds(calls, Compiled(Chain(lateness, interval, ops)))
  {
    hide ApplyAll, SinglePath, PathOps, OpOf, Chained, CompileOp, Compiles, AllMiddle;
    var asked := AskedOps(calls);
    forall i | 0 <= i < |calls|
      ensures Compiles(calls[i].op)
    {
      assert Compiles(asked[i]);
    }
    FluentChainCompiles(calls);
  }

  /**
   * From the calls to the sink: whatever maps, filters, time windows and count windows are chained
   * between a source and a sink, and whatever the interleaving of the threads, when execute returns
   * on the pipelines of the graph that the calls have built, the sink has received what these
   * operators mean for the events of the source.
   */
  lemma SinkReceivesMeaning(
    calls: seq<Call>, lateness: u64, interval: u64, ops: seq<LogicalOp>, events: seq<Event>, horizon: u64,
    turns: seq<Turn>, built: seq<Op>)
    returns (out: seq<Event>)
    requires AllMiddle(ops) && AsksFor(calls, lateness, interval, ops)
    requires Orderly(lateness, ops, events, horizon) && Builds(calls, built)
    requires ValidTurns(Launch(Segments(built), events, |Segments(built)|), turns)
    requires Drive(Launch(Segments(built), events, |Segments(built)|), turns).main.Returned?
    ensures Means(ops, events, out)
    ensures var final := Gathered(Drive(Launch(Segments(built), events, |Segments(built)|), turns).net);
            final != [] && final[|final| - 1] == SinkOp(out)
  {
    hide RunOps, Drive, ValidTurns, Segments, SetChannels, Gathered, Orderly, Means, AsksFor, PathOps, ApplyAll,
         CompileOp;
    CallsMakeTheChain(calls, lateness, interval, ops);
    out := SinkMeans(lateness, interval, ops, events, horizon);
    assert built != [];
    EngineRunsTheChain(built, events, turns);
  }

  /** The same on the heap: the graph that the calls have built, compiled, cut and run. */
  method RunBuiltChain(
    g: DataflowGraph, iteration: seq<OperatorId>, events: seq<Event>, ghost calls: seq<Call>, ghost lateness: u64,
    ghost interval: u64, ghost ops: seq<LogicalOp>, ghost horizon: u64)
    returns (pipelines: seq<Pipeline>, ghost pieces: seq<seq<PhysicalOperator>>, ghost owned: set<PhysicalOperator>,
             ghost out: seq<Event>)
    requires AllMiddle(ops) && AsksFor(calls, lateness, interval, ops)
    requires Orderly(lateness, ops, events, horizon)
    requires var s := ApplyAll(EMPTY, calls); g == DataflowGraph(s.nodes, s.edges)
    requires Distinct(iteration) && Elements(iteration) == DegreeKeys(Ids(g.operators), g.edges)
    ensures |pipelines| == |pieces| && Within(pieces, owned)
    ensures forall i :: 0 <= i < |pipelines| ==> pieces[i] != [] && pipelines[i].root == pieces[i][0]
    ensures Means(ops, events, out)
    ensures var final := Join(AllStates(pieces, owned));
            final != [] && final[|final| - 1] == SinkOp(out)
  {
    hide RunOps, SetChannels, Orderly, Means, AsksFor, PathOps, ApplyAll, CompileOp, SinglePath, OpOf, Join, AllStates,
         DegreeKeys, Compiles;
    CallsMakeTheChain(calls, lateness, interval, ops);
    out := SinkMeans(lateness, interval, ops, events, horizon);
    pipelines, pieces, owned := BuildAndRun(g, iteration, events, Ids(g.operators));
  }
}
