/**
 * The channel's mutex and condition variable, step by step, for one writer and one reader: no
 * value is lost or reordered, no wake-up is lost, and the reader gets everything.
 */
module Monitors {
  import opened Types
  import EventBuffers
  import opened Chains
  import Networks

  datatype WriterOp = WriteOp(event: Event) | CloseOp

  /** `Updated`: the lock is still held; `MustNotify`: it has been released, notify is next. */
  datatype WriterPc = WriterReady | WriterHolding | Updated | MustNotify

  /** `Asleep`: inside cv.wait without the lock; `Woken`: notified, has to take the lock again. */
  datatype ReaderPc = ReaderReady | ReaderHolding | Asleep | Woken | Stopped

  datatype Holder = Nobody | Writer | Reader

  datatype Monitor = Monitor(
    lock: Holder, queue: seq<Event>, closed: bool,
    todo: seq<WriterOp>, writer: WriterPc, reader: ReaderPc,
    written: seq<Event>, read: seq<Event>)

  datatype Turn = WriterTurn | ReaderTurn | Spurious

  function WriterProgram(events: seq<Event>): seq<WriterOp> {
    if events == [] then [CloseOp] else [WriteOp(events[0])] + WriterProgram(events[1..])
  }

  function Start(events: seq<Event>): Monitor {
    Monitor(Nobody, [], false, WriterProgram(events), WriterReady, ReaderReady, [], [])
  }

  /** `Spurious` is a wake-up that nobody asked for, which condition variables allow. */
  predicate Enabled(m: Monitor, t: Turn) {
    match t
    case WriterTurn =>
      (match m.writer
       case WriterReady => m.todo != [] && m.lock.Nobody?
       case WriterHolding => m.todo != []
       case _ => true)
    case ReaderTurn =>
      (match m.reader
       case ReaderReady => m.lock.Nobody?
       case Woken => m.lock.Nobody?
       case ReaderHolding => true
       case _ => false)
    case Spurious => m.reader.Asleep?
  }

  function After(m: Monitor, t: Turn): Monitor
    requires Enabled(m, t)
  {
    match t
    case WriterTurn =>
      (match m.writer
       case WriterReady => m.(lock := Writer, writer := WriterHolding)
       case WriterHolding =>
         (match m.todo[0]
          case WriteOp(e) =>
            m.(queue := m.queue + [e], written := m.written + [e], todo := m.todo[1..], writer := Updated)
          case CloseOp => m.(closed := true, todo := m.todo[1..], writer := Updated))
       case Updated => m.(lock := Nobody, writer := MustNotify)
       case MustNotify =>
         m.(writer := WriterReady, reader := if m.reader.Asleep? then Woken else m.reader))
    case ReaderTurn =>
      if !m.reader.ReaderHolding? then m.(lock := Reader, reader := ReaderHolding)
      else if m.queue != [] then
        m.(lock := Nobody, reader := ReaderReady, queue := m.queue[1..], read := m.read + [m.queue[0]])
      else if m.closed then m.(lock := Nobody, reader := Stopped)
      else m.(lock := Nobody, reader := Asleep)
    case Spurious => m.(reader := Woken)
  }

  predicate ValidRun(m: Monitor, turns: seq<Turn>)
    decreases |turns|
  {
    turns == [] || (Enabled(m, turns[0]) && ValidRun(After(m, turns[0]), turns[1..]))
  }

  function Exec(m: Monitor, turns: seq<Turn>): Monitor
    requires ValidRun(m, turns)
    decreases |turns|
  {
    if turns == [] then m else Exec(After(m, turns[0]), turns[1..])
  }

  // ---------- the invariant ----------

  function WritesOf(todo: seq<WriterOp>): seq<Event> {
    if todo == [] then []
    else if todo[0].WriteOp? then [todo[0].event] + WritesOf(todo[1..])
    else WritesOf(todo[1..])
  }

  /** The writer still has to close, as its last operation, unless it has closed. */
  ghost predicate ClosesLast(m: Monitor) {
    if m.closed then m.todo == []
    else m.todo != [] && m.todo == WriterProgram(WritesOf(m.todo))
  }

  ghost predicate Inv(m: Monitor, events: seq<Event>) {
    && (m.lock.Writer? <==> m.writer.WriterHolding? || m.writer.Updated?)
    && (m.lock.Reader? <==> m.reader.ReaderHolding?)
    && m.read + m.queue == m.written
    && m.written + WritesOf(m.todo) == events
    && ClosesLast(m) && (m.writer.WriterHolding? ==> m.todo != [])
    // a sleeping reader that has something to do is about to be notified
    && (m.reader.Asleep? && (m.queue != [] || m.closed) ==> m.writer.Updated? || m.writer.MustNotify?)
    // nothing is returned for nothing: only a closed and empty channel stops the reader
    && (m.reader.Stopped? ==> m.closed && m.queue == [])
  }

  lemma {:induction false} ProgramWrites(events: seq<Event>)
    ensures WritesOf(WriterProgram(events)) == events && WriterProgram(events) != []
  {
    if events == [] {
      assert WritesOf([CloseOp]) == WritesOf([CloseOp][1..]);
    } else {
      ProgramWrites(events[1..]);
      assert WriterProgram(events)[1..] == WriterProgram(events[1..]);
    }
  }

  lemma StartInv(events: seq<Event>)
    ensures Inv(Start(events), events)
  {
    ProgramWrites(events);
    assert [] + events == events;
  }

  lemma NextOp(m: Monitor)
    requires ClosesLast(m) && m.todo != []
    ensures m.todo[0].CloseOp? ==> m.todo[1..] == [] && WritesOf(m.todo) == [] == WritesOf(m.todo[1..])
    ensures m.todo[0].WriteOp? ==>
              && WritesOf(m.todo) == [m.todo[0].event] + WritesOf(m.todo[1..])
              && m.todo[1..] == WriterProgram(WritesOf(m.todo[1..])) && m.todo[1..] != []
  {
    var writes := WritesOf(m.todo);
    ProgramWrites(writes);
    if writes != [] {
      assert m.todo[1..] == WriterProgram(writes[1..]);
      ProgramWrites(writes[1..]);
    } else {
      assert WriterProgram([]) == [CloseOp];
      assert m.todo[1..] == [];
    }
  }

  lemma StepKeepsInv(m: Monitor, events: seq<Event>, t: Turn)
    requires Inv(m, events) && Enabled(m, t)
    ensures Inv(After(m, t), events)
  {
    if t.WriterTurn? && m.writer.WriterHolding? {
      NextOp(m);
      if m.todo[0].WriteOp? {
        var e, rest := m.todo[0].event, WritesOf(m.todo[1..]);
        assert m.written + ([e] + rest) == (m.written + [e]) + rest;
        assert m.read + (m.queue + [e]) == (m.read + m.queue) + [e];
      }
    } else if t.ReaderTurn? && m.reader.ReaderHolding? && m.queue != [] {
      assert m.read + m.queue == m.read + [m.queue[0]] + m.queue[1..];
    }
  }

  // ---------- progress ----------

  function WriterSteps(m: Monitor): nat {
    4 * |m.todo| + (match m.writer
                    case WriterReady => 1
                    case WriterHolding => 0
                    case Updated => 3
                    case MustNotify => 2)
  }

  function ReaderSteps(m: Monitor): nat {
    match m.reader
    case ReaderHolding => 1
    case ReaderReady => 2
    case Woken => 2
    case _ => 0
  }

  /** Reads that will still return, the last one with nothing. */
  function ReadsLeft(m: Monitor): nat {
    |m.queue| + |WritesOf(m.todo)| + (if m.reader.Stopped? then 0 else 1)
  }

  function Measure(m: Monitor): nat {
    3 * WriterSteps(m) + 4 * ReadsLeft(m) + ReaderSteps(m)
  }

  /** Every step that is not a spurious wake-up uses up part of a finite measure. */
  lemma StepDecreases(m: Monitor, events: seq<Event>, t: Turn)
    requires Inv(m, events) && Enabled(m, t) && !t.Spurious?
    ensures Measure(After(m, t)) < Measure(m)
  {
    if t.WriterTurn? && m.writer.WriterHolding? {
      NextOp(m);
    }
  }

  /** Without any spurious wake-up something can happen until everything has been read. */
  lemma NeverStuck(m: Monitor, events: seq<Event>)
    requires Inv(m, events)
    ensures Enabled(m, WriterTurn) || Enabled(m, ReaderTurn)
            || (m.reader.Stopped? && m.read == events && m.todo == [])
  {
    assert m.read + [] == m.read && m.written + [] == m.written;
  }

  /**
   * In every reachable state of one writer and one reader: the values read followed by the values
   * queued are the values written, which are the first of the events; the reader is told that
   * there is nothing more only when the channel is closed and empty; a sleeping reader with
   * something to do has a notification pending; and until everything has been written and read
   * and the reader has been told the end, a step other than a spurious wake-up is possible.
   */
  lemma MonitorIsSafe(events: seq<Event>, turns: seq<Turn>)
    requires ValidRun(Start(events), turns)
    ensures var m := Exec(Start(events), turns);
            && m.read + m.queue == m.written && m.written <= events
            && (m.reader.Stopped? ==> m.closed && m.queue == [] && m.read == events)
            && (m.reader.Asleep? && (m.queue != [] || m.closed) ==> m.writer.Updated? || m.writer.MustNotify?)
            && (Enabled(m, WriterTurn) || Enabled(m, ReaderTurn)
                || (m.reader.Stopped? && m.read == events && m.todo == []))
  {
    StartInv(events);
    RunKeepsInv(Start(events), events, turns);
    var m := Exec(Start(events), turns);
    NeverStuck(m, events);
    hide Enabled, ValidRun, Exec;
    assert m.read + [] == m.read && m.written + [] == m.written;
  }

  lemma {:induction false} RunKeepsInv(m: Monitor, events: seq<Event>, turns: seq<Turn>)
    requires Inv(m, events) && ValidRun(m, turns)
    ensures Inv(Exec(m, turns), events)
    decreases |turns|
  {
    hide Inv, After, Enabled;
    if turns != [] {
      StepKeepsInv(m, events, turns[0]);
      RunKeepsInv(After(m, turns[0]), events, turns[1..]);
    }
  }

  function SpuriousIn(turns: seq<Turn>): nat {
    if turns == [] then 0 else (if turns[0].Spurious? then 1 else 0) + SpuriousIn(turns[1..])
  }

  /** A run is no longer than its start allows, plus what spurious wake-ups cost. */
  lemma {:induction false} MonitorTerminates(m: Monitor, events: seq<Event>, turns: seq<Turn>)
    requires Inv(m, events) && ValidRun(m, turns)
    ensures |turns| <= Measure(m) + 3 * SpuriousIn(turns)
    decreases |turns|
  {
    hide Inv, After, Enabled, Measure;
    if turns != [] {
      StepKeepsInv(m, events, turns[0]);
      if turns[0].Spurious? {
        SpuriousCost(m);
      } else {
        StepDecreases(m, events, turns[0]);
      }
      MonitorTerminates(After(m, turns[0]), events, turns[1..]);
    }
  }

  lemma SpuriousCost(m: Monitor)
    requires Enabled(m, Spurious)
    ensures Measure(After(m, Spurious)) == Measure(m) + 2
  {}

  // ---------- the monitor implements the channel ----------

  /** What the threads do to a channel whose operations are atomic. */
  datatype Act = Wrote(event: Event) | Shut | Took(event: Event) | ToldEnd

  /** A value is taken from the front only, and the end is told only by a closed, empty channel. */
  predicate CanAct(ch: Networks.Channel, a: Act) {
    match a
    case Wrote(_) => !ch.closed
    case Shut => !ch.closed
    case Took(e) => ch.queue != [] && ch.queue[0] == e
    case ToldEnd => ch.closed && ch.queue == []
  }

  function Acted(ch: Networks.Channel, a: Act): Networks.Channel
    requires CanAct(ch, a)
  {
    match a
    case Wrote(e) => ch.(queue := ch.queue + [e])
    case Shut => ch.(closed := true)
    case Took(_) => ch.(queue := ch.queue[1..])
    case ToldEnd => ch
  }

  predicate ValidActs(ch: Networks.Channel, acts: seq<Act>)
    decreases |acts|
  {
    acts == [] || (CanAct(ch, acts[0]) && ValidActs(Acted(ch, acts[0]), acts[1..]))
  }

  function ActAll(ch: Networks.Channel, acts: seq<Act>): Networks.Channel
    requires ValidActs(ch, acts)
    decreases |acts|
  {
    if acts == [] then ch else ActAll(Acted(ch, acts[0]), acts[1..])
  }

  /** The operations of the writer among some acts. */
  function WriterActs(acts: seq<Act>): seq<WriterOp> {
    if acts == [] then []
    else
      (match acts[0] case Wrote(e) => [WriteOp(e)] case Shut => [CloseOp] case _ => [])
      + WriterActs(acts[1..])
  }

  /** What the reader's calls have returned. */
  function Reads(acts: seq<Act>): seq<Event> {
    if acts == [] then [] else (if acts[0].Took? then [acts[0].event] else []) + Reads(acts[1..])
  }

  /** The operation that takes effect in a step, if any. */
  function ActOf(m: Monitor, t: Turn): seq<Act>
    requires Enabled(m, t)
  {
    if t.WriterTurn? && m.writer.WriterHolding? then
      [if m.todo[0].WriteOp? then Wrote(m.todo[0].event) else Shut]
    else if t.ReaderTurn? && m.reader.ReaderHolding? then
      if m.queue != [] then [Took(m.queue[0])] else if m.closed then [ToldEnd] else []
    else []
  }

  function Acts(m: Monitor, turns: seq<Turn>): seq<Act>
    requires ValidRun(m, turns)
    decreases |turns|
  {
    if turns == [] then [] else ActOf(m, turns[0]) + Acts(After(m, turns[0]), turns[1..])
  }

  function ChannelOf(m: Monitor): Networks.Channel {
    Networks.Channel(m.queue, m.closed)
  }

  /** One step under the lock, seen from outside. */
  lemma StepActs(m: Monitor, events: seq<Event>, t: Turn)
    requires Inv(m, events) && Enabled(m, t)
    ensures var acts, m' := ActOf(m, t), After(m, t);
            && |acts| <= 1
            && (acts == [] ==> ChannelOf(m') == ChannelOf(m))
            && (acts != [] ==> CanAct(ChannelOf(m), acts[0]) && Acted(ChannelOf(m), acts[0]) == ChannelOf(m'))
            && WriterActs(acts) + m'.todo == m.todo
            && m.read + Reads(acts) == m'.read
            && (ToldEnd in acts <==> m'.reader.Stopped? && !m.reader.Stopped?)
  {
    assert WriterActs([]) == [] && Reads([]) == [] && m.read + [] == m.read;
    if ActOf(m, t) != [] {
      var a := ActOf(m, t)[0];
      assert ActOf(m, t) == [a] && [a][1..] == [];
    }
  }

  lemma ActsFirst(ch: Networks.Channel, acts: seq<Act>, rest: seq<Act>)
    requires |acts| <= 1 && (acts != [] ==> CanAct(ch, acts[0]))
    requires ValidActs(if acts == [] then ch else Acted(ch, acts[0]), rest)
    ensures ValidActs(ch, acts + rest)
    ensures ActAll(ch, acts + rest) == ActAll(if acts == [] then ch else Acted(ch, acts[0]), rest)
    ensures WriterActs(acts + rest) == WriterActs(acts) + WriterActs(rest)
    ensures Reads(acts + rest) == Reads(acts) + Reads(rest)
  {
    if acts == [] {
      assert acts + rest == rest;
    } else {
      assert acts == [acts[0]] && acts[1..] == [] && (acts + rest)[1..] == rest;
    }
  }

  lemma {:induction false} RunActs(m: Monitor, events: seq<Event>, turns: seq<Turn>)
    requires Inv(m, events) && ValidRun(m, turns)
    ensures var acts, m' := Acts(m, turns), Exec(m, turns);
            && ValidActs(ChannelOf(m), acts) && ActAll(ChannelOf(m), acts) == ChannelOf(m')
            && WriterActs(acts) + m'.todo == m.todo
            && m.read + Reads(acts) == m'.read
            && (m'.reader.Stopped? <==> m.reader.Stopped? || ToldEnd in acts)
    decreases |turns|
  {
    hide Inv, After, Enabled, ActOf, WriterActs, Reads, ValidActs, ActAll;
    if turns == [] {
      NoActs(m);
    } else {
      var next := After(m, turns[0]);
      StepKeepsInv(m, events, turns[0]);
      StepActs(m, events, turns[0]);
      RunActs(next, events, turns[1..]);
      var acts, rest, end := ActOf(m, turns[0]), Acts(next, turns[1..]), Exec(m, turns);
      ActsFirst(ChannelOf(m), acts, rest);
      EventBuffers.SeqAssoc(WriterActs(acts), WriterActs(rest), end.todo);
      EventBuffers.SeqAssoc(m.read, Reads(acts), Reads(rest));
      StopsForGood(m, turns[0]);
    }
  }

  lemma NoActs(m: Monitor)
    ensures WriterActs([]) + m.todo == m.todo && m.read + Reads([]) == m.read
    ensures ValidActs(ChannelOf(m), []) && ActAll(ChannelOf(m), []) == ChannelOf(m)
  {
    assert m.read + [] == m.read;
  }

  lemma StopsForGood(m: Monitor, t: Turn)
    requires Enabled(m, t)
    ensures m.reader.Stopped? ==> After(m, t).reader.Stopped?
  {}

  /**
   * Every run of the lock and the condition variable, spurious wake-ups included, is a run of a
   * channel whose writes, close and reads are atomic, as the network of pipelines has them: the
   * writer's operations take effect one after the other in program order, the reader's results
   * are those of the atomic reads, and only the last of these is the end.
   */
  lemma RunIsAtomic(events: seq<Event>, turns: seq<Turn>)
    requires ValidRun(Start(events), turns)
    ensures var acts, m := Acts(Start(events), turns), Exec(Start(events), turns);
            && ValidActs(Networks.Channel([], false), acts)
            && ActAll(Networks.Channel([], false), acts) == Networks.Channel(m.queue, m.closed)
            && WriterActs(acts) + m.todo == WriterProgram(events)
            && Reads(acts) == m.read && Reads(acts) <= events
            && (m.reader.Stopped? <==> ToldEnd in acts)
            && (ToldEnd in acts ==> m.closed && Reads(acts) == events)
  {
    hide Inv, ValidRun, Exec, Acts, WriterActs, Reads, ValidActs, ActAll, WriterProgram;
    StartInv(events);
    RunActs(Start(events), events, turns);
    MonitorIsSafe(events, turns);
    var acts := Acts(Start(events), turns);
    assert [] + Reads(acts) == Reads(acts);
    assert Exec(Start(events), turns).read <= events;
  }

  /** The steps of the network of pipelines use every channel through those atomic operations. */
  lemma NetworkStepIsAtomic(
    net: Networks.Net, segments: seq<seq<Op>>, source: seq<Event>, i: nat, j: nat)
    requires Networks.Inv(net, segments, source) && Networks.Enabled(net, i) && j < |net.inputs|
    ensures var before, later := net.inputs[j], Networks.After(net, i).inputs[j];
            || later == before
            || (i == j && exists e :: CanAct(before, Took(e)) && later == Acted(before, Took(e)))
            || (i + 1 == j && exists e :: CanAct(before, Wrote(e)) && later == Acted(before, Wrote(e)))
            || (i + 1 == j && CanAct(before, Shut) && later == Acted(before, Shut))
  {
    assert |net.procs| == |net.inputs|;
    hide Networks.Inv, Networks.After, Networks.Enabled;
    Networks.StepFrame(net, i, j);
    if j == i + 1 {
      OutputAct(net, segments, source, i);
    } else if j == i {
      InputAct(net, i);
    }
  }

  lemma OutputAct(net: Networks.Net, segments: seq<seq<Op>>, source: seq<Event>, i: nat)
    requires Networks.Inv(net, segments, source) && Networks.Enabled(net, i) && i + 1 < |net.inputs|
    ensures var before, later := net.inputs[i + 1], Networks.After(net, i).inputs[i + 1];
            || later == before
            || (exists e :: CanAct(before, Wrote(e)) && later == Acted(before, Wrote(e)))
            || (CanAct(before, Shut) && later == Acted(before, Shut))
  {
    hide Feed, CloseAll, RunOps;
    var p, ch := net.procs[i], net.inputs[i + 1];
    assert Networks.ProcInv(net, segments, i) && Networks.ChannelInv(net, source, i + 1);
    hide Networks.Inv, Networks.ProcInv;
    assert Networks.Shut(p.phase) <==> ch.closed;
    if !p.phase.Created? && !p.phase.Closed? && p.pending != [] {
      assert CanAct(ch, Wrote(p.pending[0]));
    }
  }

  lemma InputAct(net: Networks.Net, i: nat)
    requires |net.procs| == |net.inputs| && Networks.Enabled(net, i)
    ensures var before, later := net.inputs[i], Networks.After(net, i).inputs[i];
            || later == before
            || (exists e :: CanAct(before, Took(e)) && later == Acted(before, Took(e)))
  {
    hide Feed, CloseAll;
    if net.inputs[i].queue != [] {
      assert CanAct(net.inputs[i], Took(net.inputs[i].queue[0]));
    }
  }
}
