/**
 * The pipelines that build() returns, run on the heap one after the other: each reads what the one
 * before it has written to their channel.
 */
module PipelineRuns {
  import opened Types
  import opened Kahn
  import opened InputChannels
  import opened Chains
  import opened Splits
  import Schedules
  import opened Physical
  import opened Builders
  import opened Compilers
  import opened ExecutionGraphs

  /** What each pipeline is to read, and the states in which it is to leave its operators. */
  datatype Stages = Stages(starts: seq<seq<Op>>, inputs: seq<seq<Event>>, ends: seq<seq<Op>>)

  ghost predicate IsRun(st: Stages) {
    |st.inputs| == |st.starts| == |st.ends| && forall i :: 0 <= i < |st.starts| ==> IsStage(st, i)
  }

  ghost predicate IsStage(st: Stages, i: nat)
    requires i < |st.starts| == |st.inputs| == |st.ends|
  {
    var r := RunOps(st.starts[i], AsData(st.inputs[i]));
    && r.Done? && st.ends[i] == r.value.0
    && (i + 1 < |st.starts| ==> st.inputs[i + 1] == EventsOf(r.value.1))
  }

  /** Every pipeline but the first starts with a channel source and, but for the last, has more in it. */
  ghost predicate Cuttable(segments: seq<seq<Op>>) {
    && segments != []
    && (forall j :: 0 < j < |segments| ==> segments[j] != [] && segments[j][0] == ChannelSourceOp)
    && (forall j :: 0 < j < |segments| - 1 ==> |segments[j]| > 1)
  }

  /** The first `i` pipelines have run: the next one's channel holds its whole input. */
  ghost predicate RanUpTo(
    pieces: seq<seq<PhysicalOperator>>, channels: seq<InputChannel>, owned: set<PhysicalOperator>, st: Stages, i: nat)
    requires Within(pieces, owned)
    reads owned, channels
  {
    && |pieces| == |st.starts| == |st.inputs| == |st.ends| == |channels| + 1 && i <= |pieces|
    && Wired(pieces, channels, owned)
    && (forall j :: 0 <= j < |pieces| ==> States(pieces[j]) == if j < i then st.ends[j] else st.starts[j])
    && (forall j :: i <= j < |channels| ==> channels[j].queue == [] && !channels[j].closed)
    && (0 < i < |pieces| ==> channels[i - 1].closed && channels[i - 1].queue == st.inputs[i])
  }

  lemma FirstState(chain: seq<PhysicalOperator>, ops: seq<Op>)
    requires chain != [] && States(chain) == ops
    ensures ops != [] && ops[0] == chain[0].state && |ops| == |chain|
  {}

  /** What the i-th pipeline finds. */
  lemma NextIsReady(
    pieces: seq<seq<PhysicalOperator>>, channels: seq<InputChannel>, owned: set<PhysicalOperator>, st: Stages, i: nat,
    source: seq<Event>)
    requires Within(pieces, owned) && RanUpTo(pieces, channels, owned, st, i)
    requires Cuttable(st.starts) && i < |pieces| && st.inputs[0] == source
    requires pieces[0] != [] && pieces[0][0].input == null
    ensures Runnable(pieces[i]) && pieces[i] != [] && States(pieces[i]) == st.starts[i]
    ensures Output(pieces[i]) == (if i < |channels| then channels[i] else null)
    ensures pieces[i][0].input == if i == 0 then null else channels[i - 1]
    ensures pieces[i][0].Readable(pieces[i])
    ensures pieces[i][0].Upcoming(source) == st.inputs[i]
    ensures i > 0 ==> pieces[i][0].state == ChannelSourceOp
    ensures i > 0 && |pieces[i]| == 1 ==> Output(pieces[i]) == null
    ensures Queue(pieces[i]) == []
  {
    hide States;
    assert Runnable(pieces[i]);
    FirstState(pieces[i], st.starts[i]);
    assert i > 0 ==> pieces[i - 1 + 1][0].input == channels[i - 1];
  }

  /** One pipeline, run by itself: no other pipeline's operators and no other channel change. */
  method RunOne(
    pipeline: Pipeline, source: seq<Event>, ghost piece: seq<PhysicalOperator>, ghost owned: set<PhysicalOperator>,
    ghost channels: seq<InputChannel>)
    requires Runnable(piece) && pipeline.root == piece[0] && pipeline.root.Readable(piece)
    requires pipeline.root.input != null ==> pipeline.root.state == ChannelSourceOp
    requires pipeline.root.input != null && |piece| == 1 ==> Output(piece) == null
    requires Queue(piece) == [] && RunOps(States(piece), AsData(pipeline.root.Upcoming(source))).Done?
    requires forall n :: n in piece ==> n in owned
    requires Output(piece) != null ==> Output(piece) in channels
    requires pipeline.root.input != null ==> pipeline.root.input in channels
    modifies owned, channels
    ensures forall n :: n in owned ==> n.next == old(n.next) && n.outputChannel == old(n.outputChannel)
    ensures forall n :: n in owned && n !in piece ==> n.state == old(n.state)
    ensures forall c :: c in channels && c != Output(piece) && c != piece[0].input ==>
                          c.queue == old(c.queue) && c.closed == old(c.closed)
    ensures var (ops, left) := RunOps(old(States(piece)), AsData(old(pipeline.root.Upcoming(source)))).value;
            && States(piece) == ops
            && (Output(piece) != null ==> Output(piece).queue == EventsOf(left) && Output(piece).closed)
  {
    hide States, Linked, RunOps, EventsOf;
    pipeline.Run(source, piece);
  }

  /** The same, seen from all pipelines. */
  method RunPiece(
    pipeline: Pipeline, source: seq<Event>, ghost pieces: seq<seq<PhysicalOperator>>,
    ghost channels: seq<InputChannel>, ghost owned: set<PhysicalOperator>, ghost i: nat)
    requires Within(pieces, owned) && Wired(pieces, channels, owned) && i < |pieces|
    requires Runnable(pieces[i]) && pipeline.root == pieces[i][0] && pipeline.root.Readable(pieces[i])
    requires pipeline.root.input != null ==> pipeline.root.state == ChannelSourceOp
    requires pipeline.root.input != null && |pieces[i]| == 1 ==> Output(pieces[i]) == null
    requires Queue(pieces[i]) == [] && RunOps(States(pieces[i]), AsData(pipeline.root.Upcoming(source))).Done?
    requires Output(pieces[i]) != null ==> Output(pieces[i]) in channels
    requires pipeline.root.input != null ==> pipeline.root.input in channels
    modifies owned, channels
    ensures Wired(pieces, channels, owned)
    ensures forall j :: 0 <= j < |pieces| && j != i ==> States(pieces[j]) == old(States(pieces[j]))
    ensures forall c :: c in channels && c != Output(pieces[i]) && c != pieces[i][0].input ==>
                          c.queue == old(c.queue) && c.closed == old(c.closed)
    ensures Output(pieces[i]) == old(Output(pieces[i]))
    ensures var (ops, left) := RunOps(old(States(pieces[i])), AsData(old(pipeline.root.Upcoming(source)))).value;
            && States(pieces[i]) == ops
            && (Output(pieces[i]) != null ==> Output(pieces[i]).queue == EventsOf(left) && Output(pieces[i]).closed)
  {
    hide States, Runnable, Output, Queue, RunOps, EventsOf;
    assert forall n :: n in pieces[i] ==> n in owned;
    RunOne(pipeline, source, pieces[i], owned, channels);
    forall j | 0 <= j < |pieces|
      ensures Runnable(pieces[j]) == old(Runnable(pieces[j])) && Output(pieces[j]) == old(Output(pieces[j]))
      ensures j != i ==> States(pieces[j]) == old(States(pieces[j]))
    {
      assert forall n :: n in pieces[j] ==> n in owned && (j != i ==> n !in pieces[i]);
    }
  }

  /** The channels further on are neither read nor written by the i-th pipeline. */
  lemma FurtherChannels(
    pieces: seq<seq<PhysicalOperator>>, channels: seq<InputChannel>, owned: set<PhysicalOperator>, i: nat)
    requires Within(pieces, owned) && Wired(pieces, channels, owned)
    ensures forall j :: i < j < |channels| ==>
              channels[j] != channels[i] && (i > 0 ==> channels[j] != channels[i - 1])
  {}

  /** The next pipeline. */
  method RunNext(
    pipeline: Pipeline, source: seq<Event>, ghost pieces: seq<seq<PhysicalOperator>>,
    ghost channels: seq<InputChannel>, ghost owned: set<PhysicalOperator>, ghost st: Stages, ghost i: nat)
    requires Within(pieces, owned) && RanUpTo(pieces, channels, owned, st, i)
    requires IsRun(st) && Cuttable(st.starts) && i < |pieces| && st.inputs[0] == source
    requires pieces[0] != [] && pieces[0][0].input == null
    requires pieces[i] != [] && pipeline.root == pieces[i][0]
    modifies owned, channels
    ensures RanUpTo(pieces, channels, owned, st, i + 1)
  {
    hide States, Runnable, Output, Queue, Wired, RunOps, EventsOf, Cuttable;
    NextIsReady(pieces, channels, owned, st, i, source);
    FurtherChannels(pieces, channels, owned, i);
    assert i < |channels| ==> channels[i] in channels;
    assert i > 0 ==> channels[i - 1] in channels;
    assert IsStage(st, i);
    RunPiece(pipeline, source, pieces, channels, owned, i);
  }

  /**
   * All pipelines, one after the other: every operator ends in the state that the sequential run
   * says, which is the one in which every concurrent run leaves it (ScheduleIndependence).
   */
  method RunAll(
    pipelines: seq<Pipeline>, source: seq<Event>, ghost pieces: seq<seq<PhysicalOperator>>,
    ghost channels: seq<InputChannel>, ghost owned: set<PhysicalOperator>)
    requires Within(pieces, owned) && Wired(pieces, channels, owned)
    requires |pipelines| == |pieces| == |channels| + 1
    requires forall i :: 0 <= i < |pipelines| ==> pieces[i] != [] && pipelines[i].root == pieces[i][0]
    requires forall c :: c in channels ==> c.queue == [] && !c.closed
    requires pieces[0][0].input == null && Cuttable(AllStates(pieces, owned))
    requires SeqRun(AllStates(pieces, owned), source).Done?
    modifies owned, channels
    ensures Within(pieces, owned) && Wired(pieces, channels, owned)
    ensures AllStates(pieces, owned) == SeqRun(old(AllStates(pieces, owned)), source).value
  {
    hide States, Runnable, Wired, SeqRun, IsRun, Cuttable;
    ghost var segments := AllStates(pieces, owned);
    ghost var st := StagesOf(segments, source);
    for i := 0 to |pipelines|
      invariant RanUpTo(pieces, channels, owned, st, i)
    {
      RunNext(pipelines[i], source, pieces, channels, owned, st, i);
    }
    assert AllStates(pieces, owned) == SeqRun(segments, source).value;
  }

  lemma StagesOf(segments: seq<seq<Op>>, source: seq<Event>) returns (st: Stages)
    requires segments != [] && SeqRun(segments, source).Done?
    ensures IsRun(st) && st.starts == segments && st.inputs[0] == source
    ensures st.ends == SeqRun(segments, source).value && |st.inputs| == |st.ends| == |segments|
  {
    hide RunOps, EventsOf, SeqRun;
    Schedules.SeqRunStages(segments, source);
    st := Stages(segments, seq(|segments|, i requires 0 <= i < |segments| => Schedules.StageInput(segments, source, i)),
                 SeqRun(segments, source).value);
    forall i | 0 <= i < |segments|
      ensures IsStage(st, i)
    {
      assert Schedules.StageRun(segments, source, i).Done?;
    }
  }

  lemma SegmentsAreCuttable(ops: seq<Op>)
    ensures Cuttable(Segments(ops))
  {
    hide Segments, Windows, Join;
    SplitStructure(ops);
    forall j | 0 < j < |Segments(ops)| - 1
      ensures |Segments(ops)[j]| > 1
    {
      var s := Segments(ops)[j];
      assert IsWindow(s[|s| - 1]) && s[0] == ChannelSourceOp;
    }
  }

  /**
   * From the graph to the end of its run: compile it, cut it at its windows, and run the pipelines
   * on `source`. Put back together, the operators are in the states in which the uncut chain, its
   * windows given channels, is left by the same input.
   */
  method BuildAndRun(g: DataflowGraph, iteration: seq<OperatorId>, source: seq<Event>, ghost path: seq<OperatorId>)
    returns (pipelines: seq<Pipeline>, ghost pieces: seq<seq<PhysicalOperator>>, ghost owned: set<PhysicalOperator>)
    requires SinglePath(g, path)
    requires forall x :: x in path ==> x in Ids(g.operators) && Compiles(OpOf(g.operators, x))
    requires Distinct(iteration) && Elements(iteration) == DegreeKeys(Ids(g.operators), g.edges)
    requires RunOps(SetChannels(PathOps(g.operators, path)), AsData(source)).Done?
    ensures |pipelines| == |pieces| && Within(pieces, owned)
    ensures forall i :: 0 <= i < |pipelines| ==> pieces[i] != [] && pipelines[i].root == pieces[i][0]
    ensures Join(AllStates(pieces, owned)) == RunOps(SetChannels(PathOps(g.operators, path)), AsData(source)).value.0
  {
    hide SinglePath, Segments, Windows, Wired, AllStates, CompileOp, OpOf, RunOps, SeqRun, Join, Cuttable, PathOps,
         Compiles, DegreeKeys;
    ghost var ops := PathOps(g.operators, path);
    ghost var channels;
    pipelines, pieces, channels, owned := Build(g, iteration, path);
    SplitPreservesMeaning(ops, source);
    SegmentsAreCuttable(ops);
    forall i | 0 <= i < |channels|
      ensures fresh(channels[i])
    {
      assert channels[i] in channels;
    }
    RunAll(pipelines, source, pieces, channels, owned);
  }
}
