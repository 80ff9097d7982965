/**
 * Every schedule of the pipelines computes what running them one after the other computes: no
 * schedule deadlocks, none runs forever, and all end in the same state.
 */
module Schedules {
  import opened Types
  import opened TimeWindows
  import opened Chains
  import opened Splits
  import opened Networks

  /** All events that reach piece `i` when the pieces run one after the other. */
  function StageInput(segments: seq<seq<Op>>, source: seq<Event>, i: nat): seq<Event>
    requires i <= |segments|
  {
    if i == 0 then source
    else
      var r := RunOps(segments[i - 1], AsData(StageInput(segments, source, i - 1)));
      if r.Done? then EventsOf(r.value.1) else []
  }

  function StageRun(segments: seq<seq<Op>>, source: seq<Event>, i: nat): Effect
    requires i < |segments|
  {
    RunOps(segments[i], AsData(StageInput(segments, source, i)))
  }

  ghost predicate NoHang(segments: seq<seq<Op>>, source: seq<Event>) {
    forall i :: 0 <= i < |segments| ==> StageRun(segments, source, i).Done?
  }

  lemma {:induction false} StageInputShift(segments: seq<seq<Op>>, source: seq<Event>, i: nat)
    requires i + 1 <= |segments| && RunOps(segments[0], AsData(source)).Done?
    ensures StageInput(segments, source, i + 1)
            == StageInput(segments[1..], EventsOf(RunOps(segments[0], AsData(source)).value.1), i)
  {
    hide RunOps, EventsOf;
    if i > 0 {
      StageInputShift(segments, source, i - 1);
    } else {
      assert StageInput(segments, source, 0) == source;
    }
  }

  lemma StageRunFirst(segments: seq<seq<Op>>, source: seq<Event>)
    requires segments != []
    ensures StageRun(segments, source, 0) == RunOps(segments[0], AsData(source))
  {
    hide RunOps;
    assert StageInput(segments, source, 0) == source;
  }

  lemma StageRunShift(segments: seq<seq<Op>>, source: seq<Event>, i: nat)
    requires i + 1 < |segments| && RunOps(segments[0], AsData(source)).Done?
    ensures StageRun(segments, source, i + 1)
            == StageRun(segments[1..], EventsOf(RunOps(segments[0], AsData(source)).value.1), i)
  {
    hide RunOps, EventsOf, StageInput;
    StageInputShift(segments, source, i);
  }

  /** Running the pieces in sequence, piece by piece. */
  lemma {:induction false} SeqRunStages(segments: seq<seq<Op>>, source: seq<Event>)
    ensures SeqRun(segments, source).Done? <==> NoHang(segments, source)
    ensures SeqRun(segments, source).Done? ==>
              forall i :: 0 <= i < |segments| ==>
                SeqRun(segments, source).value[i] == StageRun(segments, source, i).value.0
    decreases |segments|
  {
    hide RunOps, EventsOf, StageRun;
    if segments != [] {
      StageRunFirst(segments, source);
      var first := RunOps(segments[0], AsData(source));
      if first.Done? {
        var rest, mid := segments[1..], EventsOf(first.value.1);
        SeqRunStages(rest, mid);
        forall i | 0 < i < |segments|
          ensures StageRun(segments, source, i) == StageRun(rest, mid, i - 1)
        {
          StageRunShift(segments, source, i - 1);
        }
        if !NoHang(rest, mid) {
          var i :| 0 <= i < |rest| && !StageRun(rest, mid, i).Done?;
          assert !StageRun(segments, source, i + 1).Done?;
        }
      }
    }
  }

  // ---------- what a thread has done is a prefix of what it does in sequence ----------

  lemma AsDataConcat(x: seq<Event>, y: seq<Event>)
    ensures AsData(x + y) == AsData(x) + AsData(y)
  {}

  lemma PrefixRun(ops: seq<Op>, x: seq<Event>, all: seq<Event>)
    requires x <= all && RunOps(ops, AsData(all)).Done?
    ensures var fed := Feed(ops, AsData(x));
            fed.Done? && EventsOf(fed.value.1) <= EventsOf(RunOps(ops, AsData(all)).value.1)
  {
    hide RunOps, Feed, EventsOf;
    var y := all[|x|..];
    assert all == x + y;
    AsDataConcat(x, y);
    RunConcat(ops, AsData(x), AsData(y));
    var fed := Feed(ops, AsData(x));
    EventsOfConcat(fed.value.1, RunOps(fed.value.0, AsData(y)).value.1);
  }

  /** Thread `i` is on track: it has read and written prefixes of its sequential input and output. */
  ghost predicate OnTrack(net: Net, segments: seq<seq<Op>>, source: seq<Event>, i: nat)
    requires i < |net.procs| == |net.inputs| == |segments|
  {
    var p := net.procs[i];
    && !p.phase.Hung?
    && p.consumed <= StageInput(segments, source, i)
    && (net.inputs[i].closed && net.inputs[i].queue == [] ==> p.consumed == StageInput(segments, source, i))
    && (if i + 1 < |segments| then p.written + p.pending <= StageInput(segments, source, i + 1)
        else p.written == p.pending == [])
    && (Shut(p.phase) && i + 1 < |segments| ==> p.written == StageInput(segments, source, i + 1))
  }

  lemma {:induction false} StaysOnTrack(net: Net, segments: seq<seq<Op>>, source: seq<Event>, i: nat)
    requires WellCut(segments) && Inv(net, segments, source) && NoHang(segments, source)
    requires i < |segments|
    ensures OnTrack(net, segments, source, i)
  {
    hide RunOps, Feed, EventsOf, ProcInv, ChannelInv, OnTrack, StageInput;
    if i > 0 { StaysOnTrack(net, segments, source, i - 1); }
    TrackInput(net, segments, source, i);
    assert StageRun(segments, source, i).Done?;
    PrefixRun(segments[i], net.procs[i].consumed, StageInput(segments, source, i));
    TrackOutput(net, segments, source, i);
  }

  lemma TrackInput(net: Net, segments: seq<seq<Op>>, source: seq<Event>, i: nat)
    requires i < |net.procs| == |net.inputs| == |segments|
    requires ChannelInv(net, source, i)
    requires i > 0 ==> OnTrack(net, segments, source, i - 1)
    ensures net.procs[i].consumed <= StageInput(segments, source, i)
    ensures net.inputs[i].closed && net.inputs[i].queue == [] ==>
              net.procs[i].consumed == StageInput(segments, source, i)
  {
    assert i == 0 ==> StageInput(segments, source, 0) == source;
    hide StageInput;
    var p, ch := net.procs[i], net.inputs[i];
    assert ch.queue == [] ==> p.consumed + ch.queue == p.consumed;
  }

  lemma TrackOutput(net: Net, segments: seq<seq<Op>>, source: seq<Event>, i: nat)
    requires WellCut(segments) && i < |segments|
    requires |net.procs| == |net.inputs| == |segments| && ProcInv(net, segments, i)
    requires var p, all := net.procs[i], StageInput(segments, source, i);
             && RunOps(segments[i], AsData(all)).Done?
             && p.consumed <= all
             && (net.inputs[i].closed && net.inputs[i].queue == [] ==> p.consumed == all)
             && Feed(segments[i], AsData(p.consumed)).Done?
             && EventsOf(Feed(segments[i], AsData(p.consumed)).value.1)
                <= EventsOf(RunOps(segments[i], AsData(all)).value.1)
    ensures OnTrack(net, segments, source, i)
  {
    hide RunOps, Feed, EventsOf;
    var p := net.procs[i];
    if Lone(segments[i]) {
      LoneStays(segments[i], p.consumed);
      assert i + 1 == |segments|;
    }
    if i + 1 < |segments| {
      assert StageInput(segments, source, i + 1)
          == EventsOf(RunOps(segments[i], AsData(StageInput(segments, source, i))).value.1);
    }
    hide StageInput;
    if p.phase.Closing? || Shut(p.phase) {
      assert p.pending == [] ==> p.written + p.pending == p.written;
    }
  }

  // ---------- termination ----------

  function Rank(phase: Phase): nat {
    match phase
    case Created => 5
    case Running => 4
    case Finished => 3
    case Closing => 2
    case Closed => 1
    case _ => 0
  }

  /** Reads, writes and lifecycle steps that thread `i` still has before it. */
  function Remaining(net: Net, segments: seq<seq<Op>>, source: seq<Event>, i: nat): int
    requires i < |net.procs| == |net.inputs| == |segments|
  {
    |StageInput(segments, source, i)| - |net.procs[i].consumed|
    + (if i + 1 < |segments| then |StageInput(segments, source, i + 1)| - |net.procs[i].written| else 0)
    + Rank(net.procs[i].phase)
  }

  function Total(net: Net, segments: seq<seq<Op>>, source: seq<Event>, k: nat): int
    requires k <= |net.procs| == |net.inputs| == |segments|
  {
    if k == 0 then 0 else Total(net, segments, source, k - 1) + Remaining(net, segments, source, k - 1)
  }

  lemma RemainingIsNat(net: Net, segments: seq<seq<Op>>, source: seq<Event>, i: nat)
    requires i < |net.procs| == |net.inputs| == |segments|
    requires OnTrack(net, segments, source, i)
    ensures Remaining(net, segments, source, i) >= 0
  {
    hide StageInput;
  }

  lemma {:induction false} TotalIsNat(net: Net, segments: seq<seq<Op>>, source: seq<Event>, k: nat)
    requires WellCut(segments) && Inv(net, segments, source) && NoHang(segments, source)
    requires k <= |net.procs| == |net.inputs| == |segments|
    ensures Total(net, segments, source, k) >= 0
  {
    hide StageInput, NoHang, Inv, OnTrack, Remaining;
    if k > 0 {
      StaysOnTrack(net, segments, source, k - 1);
      RemainingIsNat(net, segments, source, k - 1);
      TotalIsNat(net, segments, source, k - 1);
    }
  }

  lemma StepDecreases(net: Net, segments: seq<seq<Op>>, source: seq<Event>, i: nat)
    requires |net.procs| == |net.inputs| == |segments| && Enabled(net, i)
    requires OnTrack(net, segments, source, i) && OnTrack(After(net, i), segments, source, i)
    requires net.procs[i].pending != [] ==> i + 1 < |segments|
    ensures Remaining(After(net, i), segments, source, i) < Remaining(net, segments, source, i)
  {
    hide Feed, CloseAll, StageInput;
  }

  lemma {:induction false} TotalDecreases(net: Net, segments: seq<seq<Op>>, source: seq<Event>, i: nat, k: nat)
    requires |net.procs| == |net.inputs| == |segments| && Enabled(net, i) && k <= |segments|
    requires Remaining(After(net, i), segments, source, i) < Remaining(net, segments, source, i)
    ensures if i < k then Total(After(net, i), segments, source, k) < Total(net, segments, source, k)
            else Total(After(net, i), segments, source, k) == Total(net, segments, source, k)
  {
    hide After, StageInput, Enabled;
    if k > 0 {
      TotalDecreases(net, segments, source, i, k - 1);
      StepFrame(net, i, k - 1);
    }
  }

  /** Along every schedule the invariant holds and every step uses up some of what remains. */
  lemma {:induction false} ScheduleFacts(
    net: Net, segments: seq<seq<Op>>, source: seq<Event>, schedule: seq<nat>)
    requires WellCut(segments) && Inv(net, segments, source) && NoHang(segments, source)
    requires |net.procs| == |net.inputs| == |segments| && ValidSchedule(net, schedule)
    ensures Inv(Exec(net, schedule), segments, source)
    ensures |schedule| + Total(Exec(net, schedule), segments, source, |segments|)
            <= Total(net, segments, source, |segments|)
    decreases |schedule|
  {
    hide Inv, NoHang, After, Total, StageInput, OnTrack;
    if schedule != [] {
      var i := schedule[0];
      StepUses(net, segments, source, i);
      ScheduleFacts(After(net, i), segments, source, schedule[1..]);
    }
  }

  lemma StepUses(net: Net, segments: seq<seq<Op>>, source: seq<Event>, i: nat)
    requires WellCut(segments) && Inv(net, segments, source) && NoHang(segments, source)
    requires Enabled(net, i)
    ensures Inv(After(net, i), segments, source)
    ensures Total(After(net, i), segments, source, |segments|) < Total(net, segments, source, |segments|)
  {
    hide NoHang, After, Total, StageInput, ProcInv, ChannelInv;
    StaysOnTrack(net, segments, source, i);
    StepKeepsInv(net, segments, source, i);
    StaysOnTrack(After(net, i), segments, source, i);
    StepDecreases(net, segments, source, i);
    TotalDecreases(net, segments, source, i, |segments|);
  }

  // ---------- deadlock freedom ----------

  ghost predicate AllTerminated(net: Net) {
    forall i :: 0 <= i < |net.procs| ==> net.procs[i].phase.Terminated?
  }

  ghost predicate FirstUnfinished(net: Net, i: nat) {
    && i < |net.procs| && !net.procs[i].phase.Terminated?
    && forall j :: 0 <= j < i ==> net.procs[j].phase.Terminated?
  }

  /** The first thread that has not terminated can take a step: its input is closed. */
  lemma NotStuck(net: Net, segments: seq<seq<Op>>, source: seq<Event>)
    requires WellCut(segments) && Inv(net, segments, source) && NoHang(segments, source)
    requires !AllTerminated(net)
    ensures exists i: nat :: FirstUnfinished(net, i) && Enabled(net, i)
  {
    var i := FirstLive(net, |net.procs|);
    StaysOnTrack(net, segments, source, i);
    assert ChannelInv(net, source, i);
    assert Enabled(net, i);
  }

  lemma {:induction false} FirstLive(net: Net, k: nat) returns (i: nat)
    requires k <= |net.procs|
    requires exists j :: 0 <= j < k && !net.procs[j].phase.Terminated?
    ensures i < k && !net.procs[i].phase.Terminated?
    ensures forall j :: 0 <= j < i ==> net.procs[j].phase.Terminated?
  {
    if j :| 0 <= j < k - 1 && !net.procs[j].phase.Terminated? {
      i := FirstLive(net, k - 1);
    } else {
      i := k - 1;
    }
  }

  // ---------- the theorems ----------

  /** The state in which all pipelines have ended is the state of the sequential run. */
  lemma EndState(net: Net, segments: seq<seq<Op>>, source: seq<Event>)
    requires WellCut(segments) && Inv(net, segments, source) && NoHang(segments, source)
    requires AllTerminated(net)
    ensures SeqRun(segments, source).Done?
    ensures forall i :: 0 <= i < |segments| ==> net.procs[i].ops == SeqRun(segments, source).value[i]
  {
    hide RunOps, StageInput, SeqRun;
    SeqRunStages(segments, source);
    forall i | 0 <= i < |segments|
      ensures net.procs[i].ops == SeqRun(segments, source).value[i]
    {
      StaysOnTrack(net, segments, source, i);
      assert ProcInv(net, segments, i) && net.procs[i].phase.Terminated?;
      if Lone(segments[i]) {
        LoneStays(segments[i], net.procs[i].consumed);
        LoneStays(segments[i], StageInput(segments, source, i));
      }
    }
  }

  /**
   * For every way of cutting, every finite source and every schedule, if the sequential run does
   * not hang: the schedule has at most as many steps as there are reads, writes and lifecycle
   * steps; no thread hangs; every thread has read and written prefixes of what it reads and
   * writes in sequence; and either some thread can go on, or all have terminated with exactly
   * the operator states, sinks included, of the sequential run.
   */
  lemma {:induction false} ScheduleIndependence(segments: seq<seq<Op>>, source: seq<Event>, schedule: seq<nat>)
    requires WellCut(segments) && SeqRun(segments, source).Done?
    requires ValidSchedule(Init(segments, source), schedule)
    ensures |schedule| <= Total(Init(segments, source), segments, source, |segments|)
    ensures var net := Exec(Init(segments, source), schedule);
            && (forall i :: 0 <= i < |segments| ==> OnTrack(net, segments, source, i))
            && (AllTerminated(net) || exists i: nat :: Enabled(net, i))
            && (AllTerminated(net) ==>
                  forall i :: 0 <= i < |segments| ==>
                    net.procs[i].ops == SeqRun(segments, source).value[i])
  {
    hide SeqRun, Total, StageInput, OnTrack, Inv, NoHang, AllTerminated, Exec, ValidSchedule;
    SeqRunStages(segments, source);
    var start := Init(segments, source);
    InitInv(segments, source);
    ScheduleFacts(start, segments, source, schedule);
    var net := Exec(start, schedule);
    TotalIsNat(net, segments, source, |segments|);
    InvSizes(net, segments, source);
    forall i | 0 <= i < |segments|
      ensures OnTrack(net, segments, source, i)
    {
      StaysOnTrack(net, segments, source, i);
    }
    if AllTerminated(net) {
      EndState(net, segments, source);
    } else {
      NotStuck(net, segments, source);
    }
  }

  lemma InvSizes(net: Net, segments: seq<seq<Op>>, source: seq<Event>)
    requires Inv(net, segments, source)
    ensures |net.procs| == |net.inputs| == |segments|
  {}

  /** Whenever all pipelines do end, the sequential run does not hang. */
  lemma TerminationMeansNoHang(net: Net, segments: seq<seq<Op>>, source: seq<Event>)
    requires WellCut(segments) && Inv(net, segments, source) && AllTerminated(net)
    ensures NoHang(segments, source)
  {
    hide RunOps, EventsOf, StageInput;
    forall i | 0 <= i < |segments|
      ensures RunOps(segments[i], AsData(StageInput(segments, source, i))).Done?
    {
      EndedStage(net, segments, source, i);
    }
  }

  lemma {:induction false} EndedStage(net: Net, segments: seq<seq<Op>>, source: seq<Event>, i: nat)
    requires WellCut(segments) && Inv(net, segments, source) && AllTerminated(net)
    requires i < |segments|
    ensures RunOps(segments[i], AsData(StageInput(segments, source, i))).Done?
    ensures i + 1 < |segments| ==> net.procs[i].written == StageInput(segments, source, i + 1)
  {
    hide RunOps, EventsOf;
    var p := net.procs[i];
    assert ProcInv(net, segments, i) && ChannelInv(net, source, i) && p.phase.Terminated?;
    assert i + 1 < |segments| ==> !Lone(segments[i]);
    if i > 0 { EndedStage(net, segments, source, i - 1); }
    hide Inv, AllTerminated, WellCut;
    assert i == 0 ==> StageInput(segments, source, 0) == source;
    assert p.written + [] == p.written && p.consumed + [] == p.consumed;
    if Lone(segments[i]) {
      LoneStays(segments[i], StageInput(segments, source, i));
    } else {
      assert p.consumed == StageInput(segments, source, i);
    }
  }

  // ---------- a channel source alone ----------

  /** A channel source with nothing behind it reads one event at most, and is then done reading. */
  ghost predicate LoneReadsOne(net: Net, segments: seq<seq<Op>>)
    requires |net.procs| == |segments|
  {
    forall i :: 0 <= i < |segments| && Lone(segments[i]) ==>
      && |net.procs[i].consumed| <= 1
      && (net.procs[i].phase.Created? || net.procs[i].phase.Running? ==> net.procs[i].consumed == [])
  }

  lemma StepKeepsLone(net: Net, segments: seq<seq<Op>>, source: seq<Event>, i: nat)
    requires Inv(net, segments, source) && Enabled(net, i) && LoneReadsOne(net, segments)
    ensures LoneReadsOne(After(net, i), segments)
  {
    forall j | 0 <= j < |segments| && Lone(segments[j])
      ensures |After(net, i).procs[j].consumed| <= 1
      ensures After(net, i).procs[j].phase.Created? || After(net, i).procs[j].phase.Running? ==>
                After(net, i).procs[j].consumed == []
    {
      if j == i {
        LoneStep(net, segments, i);
      } else {
        hide Inv, Enabled, After, Lone;
        StepFrame(net, i, j);
      }
    }
  }

  lemma LoneStep(net: Net, segments: seq<seq<Op>>, i: nat)
    requires |net.procs| == |net.inputs| == |segments| && i < |segments|
    requires ProcInv(net, segments, i) && Enabled(net, i) && Lone(segments[i])
    requires |net.procs[i].consumed| <= 1
    requires net.procs[i].phase.Created? || net.procs[i].phase.Running? ==> net.procs[i].consumed == []
    ensures var p := After(net, i).procs[i];
            |p.consumed| <= 1 && (p.phase.Created? || p.phase.Running? ==> p.consumed == [])
  {
    var p := net.procs[i];
    if p.phase.Running? {
      LoneOps(segments[i], AsData(p.consumed));
    }
    hide Feed, CloseAll, ProcInv, Lone, EventsOf;
  }

  /** However the threads are scheduled. */
  lemma {:induction false} LoneReadsOneAlways(
    net: Net, segments: seq<seq<Op>>, source: seq<Event>, schedule: seq<nat>)
    requires WellCut(segments) && Inv(net, segments, source) && |net.procs| == |net.inputs| == |segments|
    requires LoneReadsOne(net, segments) && ValidSchedule(net, schedule)
    ensures LoneReadsOne(Exec(net, schedule), segments)
    decreases |schedule|
  {
    hide Inv, After, Enabled, LoneReadsOne;
    if schedule != [] {
      StepKeepsInv(net, segments, source, schedule[0]);
      StepKeepsLone(net, segments, source, schedule[0]);
      LoneReadsOneAlways(After(net, schedule[0]), segments, source, schedule[1..]);
    }
  }

  /** In every state of every schedule a thread that is a channel source alone has read one event at most. */
  lemma LoneStops(segments: seq<seq<Op>>, source: seq<Event>, schedule: seq<nat>, i: nat)
    requires WellCut(segments) && ValidSchedule(Init(segments, source), schedule)
    requires i < |segments| && Lone(segments[i])
    ensures |Exec(Init(segments, source), schedule).procs[i].consumed| <= 1
  {
    hide Exec, ValidSchedule, Lone;
    InitInv(segments, source);
    LoneReadsOneAlways(Init(segments, source), segments, source, schedule);
  }

  /** From every reachable state some schedule lets all pipelines end. */
  lemma {:induction false} CompleteSchedule(net: Net, segments: seq<seq<Op>>, source: seq<Event>)
    returns (schedule: seq<nat>)
    requires WellCut(segments) && Inv(net, segments, source) && NoHang(segments, source)
    ensures ValidSchedule(net, schedule)
    ensures Inv(Exec(net, schedule), segments, source) && AllTerminated(Exec(net, schedule))
    decreases Total(net, segments, source, |segments|)
  {
    hide Inv, NoHang, Total, After, AllTerminated, StageInput, Enabled;
    InvSizes(net, segments, source);
    if AllTerminated(net) {
      schedule := [];
    } else {
      NotStuck(net, segments, source);
      var i: nat :| Enabled(net, i);
      TotalIsNat(net, segments, source, |segments|);
      StepUses(net, segments, source, i);
      var rest := CompleteSchedule(After(net, i), segments, source);
      schedule := [i] + rest;
      assert schedule[1..] == rest;
    }
  }

  /** All pipelines can end if and only if the sequential run does not hang. */
  lemma EndsExactly(segments: seq<seq<Op>>, source: seq<Event>)
    requires WellCut(segments)
    ensures SeqRun(segments, source).Done? <==>
            exists schedule: seq<nat> ::
              ValidSchedule(Init(segments, source), schedule)
              && AllTerminated(Exec(Init(segments, source), schedule))
  {
    hide SeqRun, Inv, NoHang, AllTerminated, Exec, ValidSchedule;
    var start := Init(segments, source);
    InitInv(segments, source);
    SeqRunStages(segments, source);
    if SeqRun(segments, source).Done? {
      var schedule := CompleteSchedule(start, segments, source);
    }
    if schedule: seq<nat> :| ValidSchedule(start, schedule) && AllTerminated(Exec(start, schedule)) {
      ReachableInv(start, segments, source, schedule);
      TerminationMeansNoHang(Exec(start, schedule), segments, source);
    }
  }

  lemma {:induction false} ReachableInv(net: Net, segments: seq<seq<Op>>, source: seq<Event>, schedule: seq<nat>)
    requires WellCut(segments) && Inv(net, segments, source)
    requires |net.procs| == |net.inputs| == |segments| && ValidSchedule(net, schedule)
    ensures Inv(Exec(net, schedule), segments, source)
    decreases |schedule|
  {
    hide Inv, After, Enabled;
    if schedule != [] {
      StepKeepsInv(net, segments, source, schedule[0]);
      ReachableInv(After(net, schedule[0]), segments, source, schedule[1..]);
    }
  }

  /**
   * The engine as a whole: cut any chain that starts with a source at its windows, run the pieces
   * concurrently under any schedule until they have ended, and put the operators back together:
   * they are in exactly the states in which the uncut chain, fed element by element in one
   * thread, leaves them once its windows have channels. In particular every sink has received
   * the same events in the same order.
   */
  lemma ConcurrentRunIsUncutRun(ops: seq<Op>, source: seq<Event>, schedule: seq<nat>)
    requires ops != []
    requires RunOps(SetChannels(ops), AsData(source)).Done?
    requires ValidSchedule(Init(Segments(ops), source), schedule)
    requires AllTerminated(Exec(Init(Segments(ops), source), schedule))
    ensures var net := Exec(Init(Segments(ops), source), schedule);
            Join(seq(|net.procs|, i requires 0 <= i < |net.procs| => net.procs[i].ops))
            == RunOps(SetChannels(ops), AsData(source)).value.0
  {
    hide RunOps, SeqRun, Total, OnTrack, Exec, ValidSchedule, Segments, Join;
    var segments := Segments(ops);
    SplitStructure(ops);
    SplitPreservesMeaning(ops, source);
    ScheduleIndependence(segments, source, schedule);
    var net := Exec(Init(segments, source), schedule);
    assert seq(|net.procs|, i requires 0 <= i < |net.procs| => net.procs[i].ops)
        == SeqRun(segments, source).value;
  }
}
