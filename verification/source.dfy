/** The source operator: tracks the latest timestamp and emits watermarks behind it. */
module Sources {
  import opened Types
  import Cursors
  import EventBuffers
  import opened TimeWindows
  import WindowBatch

  datatype SourceSpec = SourceSpec(lateness: u64, interval: u64)

  datatype Source = Source(maxTs: u64, sinceMark: u64, lastMark: u64, marked: bool)

  const NEW_SOURCE := Source(0, 0, 0, false)

  function EmitWatermark(s: Source, spec: SourceSpec): (Source, seq<Element>) {
    if s.maxTs < spec.lateness then (s, [])
    else
      var wm: u64 := s.maxTs - spec.lateness;
      if !s.marked || wm > s.lastMark then (s.(lastMark := wm, marked := true), [Mark(wm)])
      else (s, [])
  }

  function AfterPull(s: Source, spec: SourceSpec, e: Event): (Source, seq<Element>) {
    var maxTs := if s.maxTs < e.ts then e.ts else s.maxTs;
    var since := WrapAdd(s.sinceMark, 1);
    var s' := s.(maxTs := maxTs, sinceMark := since);
    if since >= spec.interval then
      var (s'', marks) := EmitWatermark(s', spec);
      (s''.(sinceMark := 0), [Data(e)] + marks)
    else (s', [Data(e)])
  }

  function AfterLast(s: Source, spec: SourceSpec): (Source, seq<Element>) {
    if s.sinceMark > 0 then EmitWatermark(s, spec) else (s, [])
  }

  // ---------- the operator ----------

  class SourceOperator {
    const spec: SourceSpec
    var pending: seq<Event>  // what the user function will still return before it returns nothing
    var state: Source
    var done: bool
    var forwarded: seq<Element>  // what the next operator has been given

    constructor (spec: SourceSpec, events: seq<Event>)
      ensures this.spec == spec && pending == events && state == NEW_SOURCE && !done && forwarded == []
    {
      this.spec, pending, state, done, forwarded := spec, events, NEW_SOURCE, false, [];
    }

    method EmitMark()
      modifies `state, `forwarded
      ensures var (s, out) := EmitWatermark(old(state), spec);
              state == s && forwarded == old(forwarded) + out
    {
      if state.maxTs < spec.lateness { return; }
      var wm: u64 := state.maxTs - spec.lateness;
      if !state.marked || wm > state.lastMark {
        state := state.(lastMark := wm, marked := true);
        forwarded := forwarded + [Mark(wm)];
      }
    }

    method Execute()
      modifies this
      ensures old(pending) == [] ==>
                pending == [] && done && state == old(state) && forwarded == old(forwarded)
      ensures old(pending) != [] ==>
                && pending == old(pending)[1..] && done == old(done)
                && var (s, out) := AfterPull(old(state), spec, old(pending)[0]);
                   state == s && forwarded == old(forwarded) + out
    {
      if |pending| == 0 {
        done := true;
        return;
      }
      var event := pending[0];
      pending := pending[1..];
      state := state.(maxTs := if state.maxTs < event.ts then event.ts else state.maxTs);
      forwarded := forwarded + [Data(event)];
      state := state.(sinceMark := WrapAdd(state.sinceMark, 1));
      if state.sinceMark >= spec.interval {
        EmitMark();
        state := state.(sinceMark := 0);
      }
    }

    method Close()
      modifies `state, `forwarded
      ensures var (s, out) := AfterLast(old(state), spec);
              state == s && forwarded == old(forwarded) + out
    {
      if state.sinceMark > 0 {
        EmitMark();
      }
    }
  }

  // ---------- whole runs ----------

  function SourceRun(spec: SourceSpec, events: seq<Event>): (Source, seq<Element>) {
    if events == [] then (NEW_SOURCE, [])
    else
      var (s, out) := SourceRun(spec, events[..|events| - 1]);
      var (s', more) := AfterPull(s, spec, events[|events| - 1]);
      (s', out + more)
  }

  function SourceRunAndClose(spec: SourceSpec, events: seq<Event>): seq<Element> {
    var (s, out) := SourceRun(spec, events);
    out + AfterLast(s, spec).1
  }

  /** The timestamps of the watermarks among some elements. */
  function Marks(elems: seq<Element>): seq<u64> {
    if elems == [] then []
    else if elems[|elems| - 1].Mark? then Marks(elems[..|elems| - 1]) + [elems[|elems| - 1].ts]
    else Marks(elems[..|elems| - 1])
  }

  ghost predicate Increasing(s: seq<u64>) {
    forall i, j :: 0 <= i < j < |s| ==> s[i] < s[j]
  }

  /** Every watermark trails the latest timestamp before it by exactly the allowed lateness. */
  ghost predicate MarksTrail(elems: seq<Element>, lateness: u64) {
    forall i :: 0 <= i < |elems| && elems[i].Mark? ==> elems[i].ts + lateness == MaxTs(EventsOf(elems[..i]))
  }

  /** The last watermark is as late as the events seen allow; none was due if none was emitted. */
  ghost predicate UpToDate(marks: seq<u64>, maxTs: u64, lateness: u64) {
    if maxTs < lateness then marks == [] else marks != [] && marks[|marks| - 1] == maxTs - lateness
  }

  ghost predicate SourceInv(s: Source, out: seq<Element>, spec: SourceSpec, events: seq<Event>) {
    && EventsOf(out) == events
    && s.maxTs == MaxTs(events)
    && (s.sinceMark == 0 || s.sinceMark < spec.interval)
    && Increasing(Marks(out)) && MarksTrail(out, spec.lateness)
    && (s.marked <==> Marks(out) != [])
    && (s.marked ==> Marks(out)[|Marks(out)| - 1] == s.lastMark && s.lastMark + spec.lateness <= s.maxTs)
    && (s.sinceMark == 0 && events != [] ==> UpToDate(Marks(out), s.maxTs, spec.lateness))
  }

  lemma {:induction false} TrailMore(out: seq<Element>, x: Element, lateness: u64)
    requires MarksTrail(out, lateness)
    requires x.Mark? ==> x.ts + lateness == MaxTs(EventsOf(out))
    ensures MarksTrail(out + [x], lateness)
  {
    hide MaxTs, EventsOf;
    var all := out + [x];
    assert all[..|out|] == out;
    forall i | 0 <= i < |all| && all[i].Mark?
      ensures all[i].ts + lateness == MaxTs(EventsOf(all[..i]))
    {
      assert i < |out| ==> all[..i] == out[..i] && all[i] == out[i];
    }
  }

  lemma AppendData(out: seq<Element>, e: Event, lateness: u64)
    requires MarksTrail(out, lateness)
    ensures MarksTrail(out + [Data(e)], lateness)
    ensures Marks(out + [Data(e)]) == Marks(out)
    ensures EventsOf(out + [Data(e)]) == EventsOf(out) + [e]
  {
    hide MarksTrail, MaxTs;
    TrailMore(out, Data(e), lateness);
    assert (out + [Data(e)])[..|out|] == out;
    EventsOfConcat(out, [Data(e)]);
    assert EventsOf([Data(e)]) == [e] + EventsOf([]);
  }

  lemma {:induction false} AppendMark(out: seq<Element>, wm: u64, lateness: u64)
    requires MarksTrail(out, lateness) && wm + lateness == MaxTs(EventsOf(out))
    ensures MarksTrail(out + [Mark(wm)], lateness)
    ensures Marks(out + [Mark(wm)]) == Marks(out) + [wm]
    ensures EventsOf(out + [Mark(wm)]) == EventsOf(out)
  {
    hide MarksTrail, MaxTs;
    TrailMore(out, Mark(wm), lateness);
    assert (out + [Mark(wm)])[..|out|] == out;
    EventsOfConcat(out, [Mark(wm)]);
    assert EventsOf([Mark(wm)]) == [] + EventsOf([]);
  }

  /** What SourceInv says before the question whether the last watermark is up to date. */
  ghost predicate MarksInv(s: Source, out: seq<Element>, spec: SourceSpec, events: seq<Event>) {
    && EventsOf(out) == events
    && s.maxTs == MaxTs(events)
    && Increasing(Marks(out)) && MarksTrail(out, spec.lateness)
    && (s.marked <==> Marks(out) != [])
    && (s.marked ==> Marks(out)[|Marks(out)| - 1] == s.lastMark && s.lastMark + spec.lateness <= s.maxTs)
  }

  lemma EmitKeepsInv(s: Source, out: seq<Element>, spec: SourceSpec, events: seq<Event>)
    requires MarksInv(s, out, spec, events)
    ensures var (s', marks) := EmitWatermark(s, spec);
            && MarksInv(s', out + marks, spec, events)
            && UpToDate(Marks(out + marks), s'.maxTs, spec.lateness)
  {
    hide Marks, MaxTs, EventsOf, MarksTrail;
    assert out + [] == out;
    if s.maxTs >= spec.lateness {
      var wm: u64 := s.maxTs - spec.lateness;
      if !s.marked || wm > s.lastMark {
        AppendMark(out, wm, spec.lateness);
      }
    }
  }

  lemma PullKeepsInv(s: Source, out: seq<Element>, spec: SourceSpec, front: seq<Event>, e: Event)
    requires SourceInv(s, out, spec, front)
    ensures var (s', more) := AfterPull(s, spec, e);
            SourceInv(s', out + more, spec, front + [e])
  {
    hide Marks, MaxTs, EventsOf, MarksTrail, UpToDate, Increasing;
    AppendData(out, e, spec.lateness);
    MaxTsAppend(front, e);
    var maxTs := if s.maxTs < e.ts then e.ts else s.maxTs;
    var s' := s.(maxTs := maxTs, sinceMark := WrapAdd(s.sinceMark, 1));
    EmitKeepsInv(s', out + [Data(e)], spec, front + [e]);
    EventBuffers.SeqAssoc(out, [Data(e)], EmitWatermark(s', spec).1);
  }

  lemma SourceStarts(spec: SourceSpec)
    ensures SourceInv(NEW_SOURCE, [], spec, [])
  {
    assert Marks([]) == [] && EventsOf([]) == [];
  }

  lemma {:induction false} SourceKeepsInv(spec: SourceSpec, events: seq<Event>)
    ensures SourceInv(SourceRun(spec, events).0, SourceRun(spec, events).1, spec, events)
  {
    hide SourceInv, AfterPull;
    if events == [] {
      SourceStarts(spec);
    } else {
      var front, e := events[..|events| - 1], events[|events| - 1];
      SourceKeepsInv(spec, front);
      assert events == front + [e];
      var (s, out) := SourceRun(spec, front);
      PullKeepsInv(s, out, spec, front, e);
    }
  }

  /**
   * Over every run: the events come out unchanged, watermarks are strictly increasing, and each
   * is the latest timestamp so far less the allowed lateness. After the close the last of them
   * is the latest timestamp of all less the lateness, whatever the interval.
   */
  lemma WatermarksOfRun(spec: SourceSpec, events: seq<Event>)
    ensures var out := SourceRunAndClose(spec, events);
            && EventsOf(out) == events
            && Increasing(Marks(out)) && MarksTrail(out, spec.lateness)
            && (events == [] ==> out == [])
            && (events != [] ==> UpToDate(Marks(out), MaxTs(events), spec.lateness))
  {
    hide Marks, MaxTs, EventsOf, MarksTrail, UpToDate;
    SourceKeepsInv(spec, events);
    var (s, out) := SourceRun(spec, events);
    assert out + [] == out;
    if s.sinceMark > 0 {
      EmitKeepsInv(s, out, spec, events);
    }
  }

  /** After how many events a watermark is tried; an interval of zero means after every one. */
  function Interval(spec: SourceSpec): (n: nat)
    ensures n > 0
  {
    if spec.interval == 0 then 1 else spec.interval
  }

  /** Whenever the number of events is a multiple of the interval, the watermark is up to date. */
  lemma {:induction false} MarkEveryInterval(spec: SourceSpec, events: seq<Event>)
    ensures SourceRun(spec, events).0.sinceMark == |events| % Interval(spec)
    ensures events != [] && |events| % Interval(spec) == 0 ==>
              UpToDate(Marks(SourceRun(spec, events).1), MaxTs(events), spec.lateness)
  {
    hide Marks, MaxTs, EventsOf, UpToDate, MarksTrail;
    SourceKeepsInv(spec, events);
    if events != [] {
      MarkEveryInterval(spec, events[..|events| - 1]);
      CountUp(|events| - 1, Interval(spec));
    }
  }

  /** Every watermark comes right after a full interval of events. */
  ghost predicate MarksAtIntervals(out: seq<Element>, n: nat)
    requires n > 0
  {
    forall i :: 0 <= i < |out| && out[i].Mark? ==> EventsOf(out[..i]) != [] && |EventsOf(out[..i])| % n == 0
  }

  lemma AtIntervalsMore(out: seq<Element>, x: Element, n: nat)
    requires n > 0 && MarksAtIntervals(out, n)
    requires x.Mark? ==> EventsOf(out) != [] && |EventsOf(out)| % n == 0
    ensures MarksAtIntervals(out + [x], n)
  {
    hide EventsOf;
    var all := out + [x];
    assert all[..|out|] == out;
    forall i | 0 <= i < |all| && all[i].Mark?
      ensures EventsOf(all[..i]) != [] && |EventsOf(all[..i])| % n == 0
    {
      assert i < |out| ==> all[..i] == out[..i] && all[i] == out[i];
    }
  }

  /**
   * Watermarks come only when they are due: before the close there is none but right after a full
   * interval of events, and the close adds at most one, at the end.
   */
  lemma {:induction false} MarkOnlyEveryInterval(spec: SourceSpec, events: seq<Event>)
    ensures MarksAtIntervals(SourceRun(spec, events).1, Interval(spec))
    ensures SourceRunAndClose(spec, events) == SourceRun(spec, events).1
            || exists wm: u64 :: SourceRunAndClose(spec, events) == SourceRun(spec, events).1 + [Mark(wm)]
  {
    hide EventsOf, MaxTs, Marks, MarksTrail;
    var (s, out) := SourceRun(spec, events);
    assert out + [] == out;
    if events != [] {
      var front, e := events[..|events| - 1], events[|events| - 1];
      MarkOnlyEveryInterval(spec, front);
      SourceKeepsInv(spec, front);
      assert events == front + [e];
      var (s0, out0) := SourceRun(spec, front);
      var marks := AfterPull(s0, spec, e).1[1..];
      AppendData(out0, e, spec.lateness);
      AtIntervalsMore(out0, Data(e), Interval(spec));
      assert AfterPull(s0, spec, e).1 == [Data(e)] + marks;
      if marks == [] {
        assert out == out0 + [Data(e)];
      } else {
        MarkEveryInterval(spec, events);
        AtIntervalsMore(out0 + [Data(e)], marks[0], Interval(spec));
        assert out == out0 + [Data(e)] + [marks[0]];
      }
    }
  }

  ghost predicate EndsInterval(spec: SourceSpec, m: nat) {
    m % Interval(spec) == 0
  }

  /**
   * Whether a watermark follows these events: their number is a multiple of the interval, the
   * latest timestamp has reached the lateness, and it is later than one interval before.
   */
  ghost predicate MarkDue(spec: SourceSpec, events: seq<Event>) {
    var n := Interval(spec);
    && events != [] && EndsInterval(spec, |events|) && MaxTs(events) >= spec.lateness
    && (|events| < 2 * n || MaxTs(events[..|events| - n]) < spec.lateness
        || MaxTs(events[..|events| - n]) < MaxTs(events))
  }

  /** The events, each followed by the watermark that is due after it. */
  ghost function WithMarks(spec: SourceSpec, events: seq<Event>): seq<Element> {
    if events == [] then []
    else
      WithMarks(spec, events[..|events| - 1]) + [Data(events[|events| - 1])]
      + if MarkDue(spec, events) then [Mark(MaxTs(events) - spec.lateness)] else []
  }

  /** The latest timestamp at the end of the last full interval decides what has been marked. */
  ghost predicate LastMarkInv(s: Source, spec: SourceSpec, events: seq<Event>) {
    var k := |events| - |events| % Interval(spec);
    && 0 <= k
    && (s.marked <==> k > 0 && MaxTs(events[..k]) >= spec.lateness)
    && (s.marked ==> s.lastMark == MaxTs(events[..k]) - spec.lateness)
  }

  lemma LastInterval(spec: SourceSpec, m: nat)
    ensures var n, k := Interval(spec), m - m % Interval(spec);
            && 0 <= k <= m
            && (if (m + 1) % n == 0 then k == m + 1 - n && m + 1 >= n else (m + 1) - (m + 1) % n == k)
            && (if m < n then k == 0 else k >= n)
  {
    var n := Interval(spec);
    CountUp(m, n);
    assert m == (m / n) * n + m % n;
    Cursors.MulOrder(0, m / n, n);
    Cursors.MulOrder(1, m / n, n);
    if m < n { Cursors.DivModUnique(m, 0, m, n); }
  }

  lemma {:induction false} LastMarkKept(spec: SourceSpec, events: seq<Event>)
    ensures LastMarkInv(SourceRun(spec, events).0, spec, events)
  {
    hide EventsOf, MaxTs, Marks, MarksTrail;
    if events != [] {
      var front, e := events[..|events| - 1], events[|events| - 1];
      LastMarkKept(spec, front);
      SourceKeepsInv(spec, events);
      MarkEveryInterval(spec, front);
      LastInterval(spec, |front|);
      CountUp(|front|, Interval(spec));
      var k := |front| - |front| % Interval(spec);
      assert front[..k] == events[..k] && events[..|events|] == events;
      MaxGrows(events, k);
    }
  }

  lemma MaxGrows(events: seq<Event>, k: nat)
    requires k <= |events|
    ensures MaxTs(events[..k]) <= MaxTs(events)
  {
    MaxTsBounds(events);
    MaxTsBounds(events[..k]);
    if events[..k] != [] {
      var e :| e in events[..k] && e.ts == MaxTs(events[..k]);
      assert e in events;
    }
  }

  /** A pull hands on the event and the watermark that is due after it. */
  lemma PullMarksWhenDue(s: Source, spec: SourceSpec, front: seq<Event>, e: Event, k: nat)
    requires s.maxTs == MaxTs(front) && MaxTs(front + [e]) == if MaxTs(front) < e.ts then e.ts else MaxTs(front)
    requires s.sinceMark == |front| - k && k <= |front| && s.sinceMark < Interval(spec)
    requires EndsInterval(spec, |front| + 1) <==> |front| + 1 == k + Interval(spec)
    requires if |front| < Interval(spec) then k == 0 else k >= Interval(spec)
    requires (s.marked <==> k > 0 && MaxTs(front[..k]) >= spec.lateness)
    requires s.marked ==> s.lastMark == MaxTs(front[..k]) - spec.lateness
    requires MaxTs(front[..k]) <= MaxTs(front + [e])
    ensures AfterPull(s, spec, e).1
            == [Data(e)] + if MarkDue(spec, front + [e]) then [Mark(MaxTs(front + [e]) - spec.lateness)] else []
  {
    hide MaxTs, EndsInterval;
    var events := front + [e];
    if |events| == k + Interval(spec) {
      assert events[..|events| - Interval(spec)] == front[..k];
    }
  }

  /** The state of a source, in terms of the number `k` of events up to the last full interval. */
  lemma StateInIntervals(spec: SourceSpec, front: seq<Event>) returns (k: nat)
    ensures var s := SourceRun(spec, front).0;
            && k <= |front| && s.maxTs == MaxTs(front)
            && s.sinceMark == |front| - k && s.sinceMark < Interval(spec)
            && (EndsInterval(spec, |front| + 1) <==> |front| + 1 == k + Interval(spec))
            && (if |front| < Interval(spec) then k == 0 else k >= Interval(spec))
            && (s.marked <==> k > 0 && MaxTs(front[..k]) >= spec.lateness)
            && (s.marked ==> s.lastMark == MaxTs(front[..k]) - spec.lateness)
  {
    hide EventsOf, MaxTs, Marks, MarksTrail, SourceRun, Interval;
    k := |front| - |front| % Interval(spec);
    LastMarkKept(spec, front);
    SourceKeepsInv(spec, front);
    MarkEveryInterval(spec, front);
    LastInterval(spec, |front|);
    IntervalEnds(|front|, Interval(spec));
  }

  /** What a source lets out is exactly its events with the watermarks that are due. */
  lemma {:induction false} SourceEmitsExactly(spec: SourceSpec, events: seq<Event>)
    ensures SourceRun(spec, events).1 == WithMarks(spec, events)
  {
    hide MaxTs, AfterPull, MarkDue, EndsInterval;
    if events != [] {
      var front, e := events[..|events| - 1], events[|events| - 1];
      SourceEmitsExactly(spec, front);
      var k := StateInIntervals(spec, front);
      assert events == front + [e] && front[..k] == events[..k];
      MaxTsAppend(front, e);
      MaxGrows(events, k);
      var (s, out) := SourceRun(spec, front);
      PullMarksWhenDue(s, spec, front, e, k);
      EventBuffers.SeqAssoc(out, [Data(e)], AfterPull(s, spec, e).1[1..]);
    }
  }

  lemma IntervalEnds(m: nat, n: nat)
    requires n > 0
    ensures m % n < n && m % n <= m && ((m + 1) % n == 0 <==> m % n + 1 == n)
  {
    CountUp(m, n);
    assert m == (m / n) * n + m % n;
    Cursors.MulOrder(0, m / n, n);
  }

  lemma CountUp(k: nat, n: nat)
    requires n > 0
    ensures (k + 1) % n == if k % n + 1 == n then 0 else k % n + 1
  {
    var q, r := k / n, k % n;
    assert k == q * n + r;
    if r + 1 == n {
      Cursors.Distribute(q, 1, n);
      Cursors.DivModUnique(k + 1, q + 1, 0, n);
    } else {
      Cursors.DivModUnique(k + 1, q, r + 1, n);
    }
  }

  /** No event is more than `lateness` behind the latest one before it. */
  ghost predicate BoundedDisorder(events: seq<Event>, lateness: u64) {
    forall i, j :: 0 <= i < j < |events| ==> events[i].ts <= events[j].ts + lateness
  }

  /** A source whose disorder stays within its allowed lateness never makes an event late. */
  lemma BoundedDisorderIsNeverLate(spec: SourceSpec, events: seq<Event>)
    requires BoundedDisorder(events, spec.lateness)
    ensures WindowBatch.NoLateEvents(SourceRunAndClose(spec, events))
  {
    WatermarksOfRun(spec, events);
    var out := SourceRunAndClose(spec, events);
    forall i, j | 0 <= i < j < |out| && out[i].Mark? && out[j].Data?
      ensures out[i].ts <= out[j].event.ts
    {
      NotLate(out, i, j, spec.lateness);
    }
  }

  lemma {:induction false} NotLate(out: seq<Element>, i: int, j: int, lateness: u64)
    requires 0 <= i < j < |out| && out[i].Mark? && out[j].Data?
    requires MarksTrail(out, lateness) && BoundedDisorder(EventsOf(out), lateness)
    ensures out[i].ts <= out[j].event.ts
  {
    hide MaxTs, EventsOf;
    var before, upto := EventsOf(out[..i]), EventsOf(out[..j]);
    EventsOfNone();
    MaxTsBounds(before);
    EventsAround(out, j);
    assert out[..j] == out[..i] + out[i..j];
    EventsOfConcat(out[..i], out[i..j]);
    if before != [] {
      var x :| x in before && x.ts == MaxTs(before);
      var k :| 0 <= k < |before| && before[k] == x;
      assert EventsOf(out)[k] == upto[k] == x && EventsOf(out)[|upto|] == out[j].event;
    }
  }

  lemma EventsAround(out: seq<Element>, j: int)
    requires 0 <= j < |out| && out[j].Data?
    ensures EventsOf(out) == EventsOf(out[..j]) + [out[j].event] + EventsOf(out[j + 1..])
  {
    hide EventsOf;
    EventsOfOne(out[j].event);
    EventBuffers.SplitAt(out, j);
    EventsOfConcat(out[..j], [out[j]] + out[j + 1..]);
    EventsOfConcat([out[j]], out[j + 1..]);
    EventBuffers.SeqAssoc(EventsOf(out[..j]), [out[j].event], EventsOf(out[j + 1..]));
  }

  lemma EventsOfOne(e: Event)
    ensures EventsOf([Data(e)]) == [e]
  {
    assert EventsOf([Data(e)]) == [e] + EventsOf([]);
  }

  lemma EventsOfNone()
    ensures EventsOf([]) == [] && MaxTs([]) == 0
  {}
}
