/**
 * The pieces of a cut chain as concurrent pipelines joined by channels. Each pipeline is a thread
 * with at most one step it can take next; a schedule says whose turn it is.
 */
module Networks {
  import opened Types
  import opened TimeWindows
  import EventBuffers
  import opened Chains
  import Splits

  /**
   * Where a thread is in Pipeline::run. `Finished`: the driving loop has been left. `Closing`:
   * the operators have been closed and the last window is still writing. `Closed`: its output
   * channel is closed. `Hung`: a loop of one of its operators never ends.
   */
  datatype Phase = Created | Running | Finished | Closing | Closed | Terminated | Hung

  /** `pending`: results not yet written; `consumed` and `written` record all reads and writes. */
  datatype Proc = Proc(phase: Phase, ops: seq<Op>, pending: seq<Event>,
                       consumed: seq<Event>, written: seq<Event>)

  datatype Channel = Channel(queue: seq<Event>, closed: bool)

  /**
   * inputs[i] is read by procs[i] and written by procs[i - 1]. inputs[0] stands for the user's
   * source function: a closed channel holding everything the function will return.
   */
  datatype Net = Net(procs: seq<Proc>, inputs: seq<Channel>)

  function Init(segments: seq<seq<Op>>, source: seq<Event>): (net: Net)
    ensures |net.procs| == |net.inputs| == |segments|
    ensures forall i :: 0 <= i < |segments| ==> net.procs[i] == Proc(Created, segments[i], [], [], [])
    ensures forall i :: 0 <= i < |segments| ==>
              net.inputs[i] == if i == 0 then Channel(source, true) else Channel([], false)
  {
    Net(seq(|segments|, i requires 0 <= i < |segments| => Proc(Created, segments[i], [], [], [])),
        seq(|segments|, i => if i == 0 then Channel(source, true) else Channel([], false)))
  }

  /** A reader with nothing after it stops at the first event it reads. */
  predicate Lone(ops: seq<Op>) {
    |ops| == 1 && ops[0].ChannelSourceOp?
  }

  predicate Enabled(net: Net, i: nat)
    requires |net.procs| == |net.inputs|
  {
    && i < |net.procs|
    && var p := net.procs[i];
       && !p.phase.Terminated? && !p.phase.Hung?
       && (p.phase.Running? && p.pending == [] ==> net.inputs[i].queue != [] || net.inputs[i].closed)
  }

  /** What a thread whose chain has let `left` leave its tail still has to write. */
  function ToWrite(net: Net, i: nat, left: seq<Element>): seq<Event> {
    if i + 1 < |net.procs| then EventsOf(left) else []
  }

  /** Read the next event and drive it through the chain. */
  function Pull(net: Net, i: nat): Net
    requires |net.procs| == |net.inputs| && i < |net.procs| && net.inputs[i].queue != []
  {
    var p, ch := net.procs[i], net.inputs[i];
    var e := ch.queue[0];
    var consumed := p.consumed + [e];
    var p' := match Feed(p.ops, [Data(e)])
              case Hang => p.(phase := Hung, consumed := consumed)
              case Done((ops, left)) =>
                p.(phase := if Lone(p.ops) then Finished else Running,
                   ops := ops, pending := ToWrite(net, i, left), consumed := consumed);
    Net(net.procs[i := p'], net.inputs[i := ch.(queue := ch.queue[1..])])
  }

  function Write(net: Net, i: nat): Net
    requires |net.procs| == |net.inputs| && i < |net.procs| && net.procs[i].pending != []
  {
    var p := net.procs[i];
    var p' := p.(pending := p.pending[1..], written := p.written + [p.pending[0]]);
    Net(net.procs[i := p'],
        if i + 1 < |net.inputs| then
          net.inputs[i + 1 := net.inputs[i + 1].(queue := net.inputs[i + 1].queue + [p.pending[0]])]
        else net.inputs)
  }

  function CloseOps(net: Net, i: nat): Net
    requires |net.procs| == |net.inputs| && i < |net.procs|
  {
    var p := net.procs[i];
    var p' := match CloseAll(p.ops)
              case Hang => p.(phase := Hung)
              case Done((ops, left)) => p.(phase := Closing, ops := ops, pending := ToWrite(net, i, left));
    net.(procs := net.procs[i := p'])
  }

  function CloseOutput(net: Net, i: nat): Net
    requires |net.procs| == |net.inputs| && i < |net.procs|
  {
    Net(net.procs[i := net.procs[i].(phase := Closed)],
        if i + 1 < |net.inputs| then net.inputs[i + 1 := net.inputs[i + 1].(closed := true)] else net.inputs)
  }

  function SetPhase(net: Net, i: nat, phase: Phase): Net
    requires i < |net.procs|
  {
    net.(procs := net.procs[i := net.procs[i].(phase := phase)])
  }

  /** The one step that thread `i` takes next. */
  function After(net: Net, i: nat): (net': Net)
    requires |net.procs| == |net.inputs| && Enabled(net, i)
    ensures |net'.procs| == |net'.inputs| == |net.procs|
  {
    var p := net.procs[i];
    if p.phase.Created? then SetPhase(net, i, Running)
    else if p.phase.Closed? then SetPhase(net, i, Terminated)
    else if p.pending != [] then Write(net, i)
    else if p.phase.Running? then
      if net.inputs[i].queue != [] then Pull(net, i) else SetPhase(net, i, Finished)
    else if p.phase.Finished? then CloseOps(net, i)
    else CloseOutput(net, i)
  }

  predicate ValidSchedule(net: Net, schedule: seq<nat>)
    requires |net.procs| == |net.inputs|
    decreases |schedule|
  {
    schedule == []
    || (Enabled(net, schedule[0]) && ValidSchedule(After(net, schedule[0]), schedule[1..]))
  }

  function Exec(net: Net, schedule: seq<nat>): (net': Net)
    requires |net.procs| == |net.inputs| && ValidSchedule(net, schedule)
    ensures |net'.procs| == |net'.inputs| == |net.procs|
    decreases |schedule|
  {
    if schedule == [] then net else Exec(After(net, schedule[0]), schedule[1..])
  }

  // ---------- the invariant ----------

  predicate Shut(phase: Phase) {
    phase.Closed? || phase.Terminated?
  }

  /** All writes so far and still to come, given what has left the tail of the chain. */
  ghost predicate Sent(net: Net, i: nat, left: seq<Element>)
    requires i < |net.procs|
  {
    net.procs[i].written + net.procs[i].pending == ToWrite(net, i, left)
  }

  /** The thread has read everything that will ever come (or was a lone reader and stopped). */
  ghost predicate Drained(net: Net, segments: seq<seq<Op>>, i: nat)
    requires i < |net.procs| == |net.inputs| == |segments|
  {
    (net.inputs[i].closed && net.inputs[i].queue == []) || Lone(segments[i])
  }

  /** The state of a thread is determined by what it has read. */
  ghost predicate ProcInv(net: Net, segments: seq<seq<Op>>, i: nat)
    requires i < |net.procs| == |net.inputs| == |segments|
  {
    var p := net.procs[i];
    match p.phase
    case Created => p == Proc(Created, segments[i], [], [], [])
    case Running => FedSoFar(net, segments, i)
    case Finished => FedSoFar(net, segments, i) && Drained(net, segments, i) && p.pending == []
    case Hung =>
      || Feed(segments[i], AsData(p.consumed)).Hang?
      || (RunOps(segments[i], AsData(p.consumed)).Hang? && Drained(net, segments, i))
    case _ =>
      && RanAll(net, segments, i) && Drained(net, segments, i)
      && (Shut(p.phase) ==> p.pending == [])
  }

  ghost predicate FedSoFar(net: Net, segments: seq<seq<Op>>, i: nat)
    requires i < |net.procs| == |net.inputs| == |segments|
  {
    var r := Feed(segments[i], AsData(net.procs[i].consumed));
    r.Done? && net.procs[i].ops == r.value.0 && Sent(net, i, r.value.1)
  }

  ghost predicate RanAll(net: Net, segments: seq<seq<Op>>, i: nat)
    requires i < |net.procs| == |net.inputs| == |segments|
  {
    var r := RunOps(segments[i], AsData(net.procs[i].consumed));
    r.Done? && net.procs[i].ops == r.value.0 && Sent(net, i, r.value.1)
  }

  /** Values read followed by values queued are the values written; closed once the writer is done. */
  ghost predicate ChannelInv(net: Net, source: seq<Event>, i: nat)
    requires i < |net.procs| == |net.inputs|
  {
    && net.procs[i].consumed + net.inputs[i].queue == (if i == 0 then source else net.procs[i - 1].written)
    && (net.inputs[i].closed <==> i == 0 || Shut(net.procs[i - 1].phase))
  }

  ghost predicate Inv(net: Net, segments: seq<seq<Op>>, source: seq<Event>) {
    && |net.procs| == |net.inputs| == |segments|
    && (forall i :: 0 <= i < |segments| ==> ProcInv(net, segments, i))
    && (forall i :: 0 <= i < |segments| ==> ChannelInv(net, source, i))
  }

  lemma InitInv(segments: seq<seq<Op>>, source: seq<Event>)
    ensures Inv(Init(segments, source), segments, source)
  {}

  // ---------- every step keeps it ----------

  /** Only the thread itself, its input and its output change. */
  lemma StepFrame(net: Net, i: nat, j: nat)
    requires |net.procs| == |net.inputs| && Enabled(net, i) && j < |net.procs|
    ensures var net' := After(net, i);
            && (j != i ==> net'.procs[j] == net.procs[j])
            && (j != i && j != i + 1 ==> net'.inputs[j] == net.inputs[j])
            && (j == i + 1 ==>
                  && net.inputs[j].queue <= net'.inputs[j].queue
                  && (net.inputs[j].closed ==> net'.inputs[j].closed))
  {
    hide Feed, CloseAll;
  }

  lemma OtherProcInv(net: Net, segments: seq<seq<Op>>, source: seq<Event>, i: nat, j: nat)
    requires Inv(net, segments, source) && Enabled(net, i) && j < |segments| && j != i
    ensures ProcInv(After(net, i), segments, j)
  {
    hide Feed, CloseAll, RunOps, After, Enabled;
    StepFrame(net, i, j);
    assert ProcInv(net, segments, j) && ChannelInv(net, source, j);
    if j == i + 1 {
      StepShut(net, segments, source, i);
    }
  }

  /** A closed channel is never written again. */
  lemma StepShut(net: Net, segments: seq<seq<Op>>, source: seq<Event>, i: nat)
    requires Inv(net, segments, source) && Enabled(net, i) && i + 1 < |segments|
    ensures net.inputs[i + 1].closed ==> After(net, i).inputs[i + 1] == net.inputs[i + 1]
  {
    hide Feed, CloseAll, RunOps;
    assert ProcInv(net, segments, i) && ChannelInv(net, source, i + 1);
  }

  lemma AsDataAppend(events: seq<Event>, e: Event)
    ensures AsData(events + [e]) == AsData(events) + [Data(e)]
  {}

  lemma PullFeeds(ops0: seq<Op>, consumed: seq<Event>, e: Event)
    ensures Feed(ops0, AsData(consumed + [e])) == FeedMore(Feed(ops0, AsData(consumed)), [Data(e)])
  {
    hide Feed;
    AsDataAppend(consumed, e);
    FeedConcat(ops0, AsData(consumed), [Data(e)]);
  }

  lemma LoneStays(ops0: seq<Op>, events: seq<Event>)
    requires Lone(ops0)
    ensures Feed(ops0, AsData(events)) == Done((ops0, AsData(events)))
    ensures RunOps(ops0, AsData(events)) == Done((ops0, AsData(events)))
  {
    hide Feed;
    assert ops0 == [ChannelSourceOp];
    Splits.ReaderFeeds(AsData(events));
    Splits.CloseOneOperator(ChannelSourceOp);
    assert AsData(events) + [] == AsData(events);
  }

  lemma LoneOps(ops0: seq<Op>, elems: seq<Element>)
    requires Feed(ops0, elems).Done?
    ensures Lone(Feed(ops0, elems).value.0) <==> Lone(ops0)
    decreases |elems|
  {
    FeedKeepsKinds(ops0, elems);
  }

  ghost predicate SameKinds(a: seq<Op>, b: seq<Op>) {
    |a| == |b| && forall i :: 0 <= i < |a| ==> (a[i].ChannelSourceOp? <==> b[i].ChannelSourceOp?)
  }

  lemma {:induction false} FeedKeepsKinds(ops: seq<Op>, elems: seq<Element>)
    requires Feed(ops, elems).Done?
    ensures SameKinds(ops, Feed(ops, elems).value.0)
    decreases |ops|, |elems|
  {
    hide FeedOne;
    if elems != [] {
      FeedOneKeepsKinds(ops, elems[0]);
      FeedKeepsKinds(FeedOne(ops, elems[0]).value.0, elems[1..]);
    }
  }

  lemma {:induction false} FeedOneKeepsKinds(ops: seq<Op>, elem: Element)
    requires FeedOne(ops, elem).Done?
    ensures SameKinds(ops, FeedOne(ops, elem).value.0)
    decreases |ops|, 0
  {
    hide Feed;
    if ops != [] {
      var (op, outs) := Execute(ops[0], elem).value;
      assert op.ChannelSourceOp? <==> ops[0].ChannelSourceOp?;
      hide Execute;
      FeedKeepsKinds(ops[1..], outs);
    }
  }

  lemma PullInv(net: Net, segments: seq<seq<Op>>, source: seq<Event>, i: nat)
    requires Inv(net, segments, source) && i < |segments|
    requires net.procs[i].phase.Running? && net.procs[i].pending == [] && net.inputs[i].queue != []
    requires Lone(segments[i]) ==> i == |segments| - 1
    ensures ProcInv(Pull(net, i), segments, i) && ChannelInv(Pull(net, i), source, i)
  {
    hide Feed, RunOps, EventsOf, Lone;
    var p, e := net.procs[i], net.inputs[i].queue[0];
    assert ProcInv(net, segments, i) && ChannelInv(net, source, i);
    hide Inv;
    PullFeeds(segments[i], p.consumed, e);
    LoneOps(segments[i], AsData(p.consumed));
    var fed := Feed(segments[i], AsData(p.consumed));
    var more := Feed(p.ops, [Data(e)]);
    if more.Done? {
      SentMore(net, i, fed.value.1, more.value.1);
    }
    assert p.consumed + net.inputs[i].queue == p.consumed + [e] + net.inputs[i].queue[1..];
  }

  /** Nothing being pending, new results of the chain extend what has to have been written. */
  lemma SentMore(net: Net, i: nat, before: seq<Element>, more: seq<Element>)
    requires i < |net.procs| && net.procs[i].pending == [] && Sent(net, i, before)
    ensures net.procs[i].written + ToWrite(net, i, more) == ToWrite(net, i, before + more)
  {
    assert net.procs[i].written + [] == net.procs[i].written;
    EventsOfConcat(before, more);
  }

  lemma CloseInv(net: Net, segments: seq<seq<Op>>, source: seq<Event>, i: nat)
    requires Inv(net, segments, source) && i < |segments| && net.procs[i].phase.Finished?
    ensures ProcInv(CloseOps(net, i), segments, i) && ChannelInv(CloseOps(net, i), source, i)
  {
    hide Feed, CloseAll, EventsOf, SetPhase, Lone;
    var p := net.procs[i];
    assert ProcInv(net, segments, i) && ChannelInv(net, source, i);
    hide Inv;
    var fed := Feed(segments[i], AsData(p.consumed));
    var rest := CloseAll(p.ops);
    if rest.Done? {
      SentMore(net, i, fed.value.1, rest.value.1);
    }
  }

  lemma WriteInv(net: Net, segments: seq<seq<Op>>, source: seq<Event>, i: nat)
    requires Inv(net, segments, source) && i < |segments|
    requires net.procs[i].pending != [] && Enabled(net, i)
    ensures After(net, i) == Write(net, i)
    ensures ProcInv(Write(net, i), segments, i) && ChannelInv(Write(net, i), source, i)
  {
    hide Feed, RunOps, CloseAll;
    var p := net.procs[i];
    assert ProcInv(net, segments, i) && ChannelInv(net, source, i);
    assert p.written + p.pending == p.written + [p.pending[0]] + p.pending[1..];
  }

  lemma StartInv(net: Net, segments: seq<seq<Op>>, source: seq<Event>, i: nat)
    requires i < |net.procs| == |net.inputs| == |segments| && net.procs[i].phase.Created?
    requires ProcInv(net, segments, i) && ChannelInv(net, source, i)
    ensures ProcInv(SetPhase(net, i, Running), segments, i) && ChannelInv(SetPhase(net, i, Running), source, i)
  {
    hide Feed, RunOps;
    FeedNothing(segments[i]);
    assert AsData([]) == [] && EventsOf([]) == [];
  }

  lemma DrainedInv(net: Net, segments: seq<seq<Op>>, source: seq<Event>, i: nat)
    requires i < |net.procs| == |net.inputs| == |segments| && net.procs[i].phase.Running?
    requires net.procs[i].pending == [] && net.inputs[i].queue == [] && net.inputs[i].closed
    requires ProcInv(net, segments, i) && ChannelInv(net, source, i)
    ensures ProcInv(SetPhase(net, i, Finished), segments, i) && ChannelInv(SetPhase(net, i, Finished), source, i)
  {
    hide Feed, RunOps, EventsOf;
  }

  lemma OutputClosedInv(net: Net, segments: seq<seq<Op>>, source: seq<Event>, i: nat)
    requires i < |net.procs| == |net.inputs| == |segments|
    requires net.procs[i].phase.Closing? && net.procs[i].pending == []
    requires ProcInv(net, segments, i) && ChannelInv(net, source, i)
    ensures ProcInv(CloseOutput(net, i), segments, i) && ChannelInv(CloseOutput(net, i), source, i)
  {
    hide Feed, RunOps, EventsOf;
  }

  lemma EndInv(net: Net, segments: seq<seq<Op>>, source: seq<Event>, i: nat)
    requires i < |net.procs| == |net.inputs| == |segments| && net.procs[i].phase.Closed?
    requires ProcInv(net, segments, i) && ChannelInv(net, source, i)
    ensures ProcInv(SetPhase(net, i, Terminated), segments, i) && ChannelInv(SetPhase(net, i, Terminated), source, i)
  {
    hide Feed, RunOps, EventsOf;
  }

  lemma OwnInv(net: Net, segments: seq<seq<Op>>, source: seq<Event>, i: nat)
    requires Inv(net, segments, source) && Enabled(net, i)
    requires Lone(segments[i]) ==> i == |segments| - 1
    ensures ProcInv(After(net, i), segments, i) && ChannelInv(After(net, i), source, i)
  {
    var p := net.procs[i];
    assert ProcInv(net, segments, i) && ChannelInv(net, source, i);
    assert p.pending != [] ==> !p.phase.Created? && !p.phase.Closed? && !p.phase.Finished?;
    hide ProcInv, ChannelInv, Inv, Pull, Write, CloseOps, CloseOutput, SetPhase, Lone;
    if p.phase.Created? {
      StartInv(net, segments, source, i);
    } else if p.phase.Closed? {
      EndInv(net, segments, source, i);
    } else if p.pending != [] {
      WriteInv(net, segments, source, i);
    } else if p.phase.Running? {
      if net.inputs[i].queue != [] {
        PullInv(net, segments, source, i);
      } else {
        DrainedInv(net, segments, source, i);
      }
    } else if p.phase.Finished? {
      CloseInv(net, segments, source, i);
    } else {
      OutputClosedInv(net, segments, source, i);
    }
  }

  lemma FarChannelInv(net: Net, segments: seq<seq<Op>>, source: seq<Event>, i: nat, j: nat)
    requires Inv(net, segments, source) && Enabled(net, i) && j < |segments| && j != i && j != i + 1
    ensures ChannelInv(After(net, i), source, j)
  {
    hide Feed, RunOps, CloseAll, After, Enabled, ProcInv;
    assert ChannelInv(net, source, j);
    StepFrame(net, i, j);
    if j > 0 {
      StepFrame(net, i, j - 1);
    }
  }

  lemma NextChannelInv(net: Net, segments: seq<seq<Op>>, source: seq<Event>, i: nat)
    requires Inv(net, segments, source) && Enabled(net, i) && i + 1 < |segments|
    ensures ChannelInv(After(net, i), source, i + 1)
  {
    hide Feed, RunOps, CloseAll;
    var p, ch := net.procs[i], net.inputs[i + 1];
    assert ProcInv(net, segments, i) && ChannelInv(net, source, i + 1);
    hide ProcInv, Inv;
    if !p.phase.Created? && !p.phase.Closed? && p.pending != [] {
      EventBuffers.SeqAssoc(net.procs[i + 1].consumed, ch.queue, [p.pending[0]]);
    }
  }

  /** Lone readers come last, and every other piece but the last ends in a window. */
  ghost predicate WellCut(segments: seq<seq<Op>>) {
    && |segments| >= 1
    && forall i :: 0 <= i < |segments| - 1 ==> segments[i] != [] && IsWindow(segments[i][|segments[i]| - 1])
  }

  lemma StepKeepsInv(net: Net, segments: seq<seq<Op>>, source: seq<Event>, i: nat)
    requires WellCut(segments) && Inv(net, segments, source) && Enabled(net, i)
    ensures Inv(After(net, i), segments, source)
  {
    hide Feed, RunOps, CloseAll, After, Enabled, ProcInv, ChannelInv;
    forall j | 0 <= j < |segments|
      ensures ProcInv(After(net, i), segments, j) && ChannelInv(After(net, i), source, j)
    {
      if j == i {
        OwnInv(net, segments, source, i);
      } else {
        OtherProcInv(net, segments, source, i, j);
        if j == i + 1 {
          NextChannelInv(net, segments, source, i);
        } else {
          FarChannelInv(net, segments, source, i, j);
        }
      }
    }
  }
}
