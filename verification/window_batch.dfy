/**
 * Bounded disorder gives the batch windows, and every event lands in a known number of windows.
 */
module WindowBatch {
  import opened Types
  import opened Cursors
  import opened EventBuffers
  import opened TimeWindows
  import opened WindowTheory

  // ---------- batch windows ----------

  /** All nonempty windows over a finished history, in order of their ends. */
  function Batch(spec: WindowSpec, h: seq<Event>): seq<Firing>
    requires spec.advance > 0
  {
    Firings(h, spec, spec.advance, LastEnd(h, spec) + 1)
  }

  /** No event arrives with a timestamp below an earlier watermark. */
  ghost predicate NoLateEvents(trace: seq<Element>) {
    forall i, j :: 0 <= i < j < |trace| && trace[i].Mark? && trace[j].Data? ==> trace[i].ts <= trace[j].event.ts
  }

  lemma FiringsNone(h: seq<Event>, spec: WindowSpec, from: int, until: int)
    requires spec.advance > 0 && from >= until
    ensures Firings(h, spec, from, until) == []
  {}

  lemma {:induction false} FiringsSplit(h: seq<Event>, spec: WindowSpec, from: int, mid: int, until: int)
    requires spec.advance > 0
    requires from % spec.advance == 0 && mid % spec.advance == 0 && from <= mid
    ensures Firings(h, spec, from, if mid < until then until else mid)
            == Firings(h, spec, from, mid) + Firings(h, spec, mid, until)
    decreases mid - from
  {
    hide Window, FiringOf;
    if from < mid {
      MultipleStep(from, spec.advance);
      MultipleBelow(mid, from, spec.advance);
      FiringsSplit(h, spec, from + spec.advance, mid, until);
    }
  }

  /** Raising the limit past the last possible window end adds nothing. */
  lemma {:induction false} FiringsBeyond(h: seq<Event>, spec: WindowSpec, from: int, until: int)
    requires spec.advance > 0 && from > LastEnd(h, spec)
    ensures Firings(h, spec, from, until) == []
    decreases until - from
  {
    hide Window, MaxTs;
    if from < until {
      BetweenBeyond(h, spec, from);
      FiringsBeyond(h, spec, from + spec.advance, until);
    }
  }

  lemma {:induction false} FiringsSameLimit(h: seq<Event>, spec: WindowSpec, from: int, u: int, v: int)
    requires spec.advance > 0 && LastEnd(h, spec) < u <= v
    ensures Firings(h, spec, from, u) == Firings(h, spec, from, v)
    decreases v - from
  {
    hide Window, MaxTs;
    if from >= u {
      FiringsBeyond(h, spec, from, v);
    } else {
      FiringsSameLimit(h, spec, from + spec.advance, u, v);
    }
  }

  /** Limits between two consecutive window ends fire the same windows. */
  lemma {:induction false} FiringsRoundUp(h: seq<Event>, spec: WindowSpec, from: int, wm: int)
    requires spec.advance > 0 && from % spec.advance == 0
    ensures Firings(h, spec, from, wm + 1) == Firings(h, spec, from, NextEnd(wm, spec.advance))
    decreases wm - from
  {
    hide Window;
    var a := spec.advance;
    NextEndIsLeast(wm, a);
    if from <= wm {
      MultipleStep(from, a);
      FiringsRoundUp(h, spec, from + a, wm);
    } else {
      MultipleAbove(from, wm, a);
    }
  }

  /** An event that comes after every window end below `until` changes none of those windows. */
  lemma {:induction false} FiringsIgnore(h: seq<Event>, e: Event, spec: WindowSpec, from: int, until: int)
    requires spec.advance > 0
    requires from % spec.advance == 0 && until % spec.advance == 0
    requires from < until ==> until - spec.advance <= e.ts
    ensures Firings(h + [e], spec, from, until) == Firings(h, spec, from, until)
    decreases until - from
  {
    hide Window;
    if from < until {
      MultipleStep(from, spec.advance);
      MultipleBelow(until, from, spec.advance);
      WindowIgnores(h, e, StartOf(from, spec.size), from);
      FiringsIgnore(h, e, spec, from + spec.advance, until);
    }
  }

  /** The cursor has not moved, or the last window end it passed is covered by a watermark. */
  ghost predicate CursorJustified(trace: seq<Element>, cursor: int, spec: WindowSpec) {
    || cursor == spec.advance
    || exists i :: 0 <= i < |trace| && trace[i].Mark? && cursor - spec.advance <= trace[i].ts
  }

  ghost predicate BatchSoFar(ref: Reference, trace: seq<Element>, spec: WindowSpec)
    requires spec.advance > 0
  {
    && ref.cursor % spec.advance == 0 && ref.cursor >= spec.advance
    && CursorJustified(trace, ref.cursor, spec)
    && ref.fired == Firings(ref.history, spec, spec.advance, ref.cursor)
  }

  lemma CursorStaysJustified(front: seq<Element>, elem: Element, cursor: int, spec: WindowSpec)
    requires CursorJustified(front, cursor, spec)
    ensures CursorJustified(front + [elem], cursor, spec)
  {
    if cursor != spec.advance {
      var i :| 0 <= i < |front| && front[i].Mark? && cursor - spec.advance <= front[i].ts;
      assert (front + [elem])[i] == front[i];
    }
  }

  lemma BatchAfterEvent(ref: Reference, front: seq<Element>, e: Event, spec: WindowSpec)
    requires spec.advance > 0 && BatchSoFar(ref, front, spec)
    requires NoLateEvents(front + [Data(e)])
    ensures BatchSoFar(ref.(history := ref.history + [e]), front + [Data(e)], spec)
  {
    hide Firings;
    CursorStaysJustified(front, Data(e), ref.cursor, spec);
    var trace := front + [Data(e)];
    if ref.cursor == spec.advance {
      FiringsNone(ref.history, spec, ref.cursor, ref.cursor);
      FiringsNone(ref.history + [e], spec, ref.cursor, ref.cursor);
    } else {
      var i :| 0 <= i < |front| && front[i].Mark? && ref.cursor - spec.advance <= front[i].ts;
      assert trace[i] == front[i] && trace[|front|] == Data(e);
      FiringsIgnore(ref.history, e, spec, spec.advance, ref.cursor);
    }
  }

  lemma BatchAfterMark(ref: Reference, front: seq<Element>, wm: u64, spec: WindowSpec)
    requires spec.advance > 0 && BatchSoFar(ref, front, spec)
    ensures BatchSoFar(AfterMark(ref, spec, wm), front + [Mark(wm)], spec)
  {
    hide Firings;
    CursorStaysJustified(front, Mark(wm), ref.cursor, spec);
    if ref.history != [] && wm >= ref.cursor {
      var next := NextEnd(wm, spec.advance);
      NextEndIsLeast(wm, spec.advance);
      assert (front + [Mark(wm)])[|front|] == Mark(wm);
      FiringsRoundUp(ref.history, spec, ref.cursor, wm);
      FiringsSplit(ref.history, spec, spec.advance, ref.cursor, next);
    }
  }

  lemma {:induction false} RefIsBatchSoFar(spec: WindowSpec, trace: seq<Element>)
    requires spec.advance > 0 && NoLateEvents(trace)
    ensures RefRun(spec, trace).history == EventsOf(trace)
    ensures BatchSoFar(RefRun(spec, trace), trace, spec)
  {
    hide BatchSoFar;
    if trace == [] {
      BatchAtStart(spec);
    } else {
      var front, elem := trace[..|trace| - 1], trace[|trace| - 1];
      var ref := RefRun(spec, front);
      RefIsBatchSoFar(spec, front);
      assert trace == front + [elem];
      EventsOfConcat(front, [elem]);
      assert EventsOf([elem]) == EventOf(elem) + EventsOf([]);
      match elem {
        case Data(e) => BatchAfterEvent(ref, front, e, spec);
        case Mark(wm) => BatchAfterMark(ref, front, wm, spec);
      }
    }
  }

  lemma BatchAtStart(spec: WindowSpec)
    requires spec.advance > 0
    ensures BatchSoFar(RefRun(spec, []), [], spec)
  {
    FiringsNone([], spec, spec.advance, spec.advance);
  }

  /** The reference computes the batch windows when no event is late. */
  lemma ReferenceIsBatch(spec: WindowSpec, trace: seq<Element>)
    requires spec.advance > 0 && NoLateEvents(trace)
    ensures RefRunAndClose(spec, trace) == Batch(spec, EventsOf(trace))
  {
    hide Firings;
    RefIsBatchSoFar(spec, trace);
    var ref := RefRun(spec, trace);
    var h, a, end := ref.history, spec.advance, LastEnd(ref.history, spec) + 1;
    FiringsSplit(h, spec, a, ref.cursor, end);
    if ref.cursor > end {
      FiringsSameLimit(h, spec, a, end, ref.cursor);
    }
  }

  /**
   * Whether the cursor does its work in 64 bits when no event is late: an event that arrives when
   * the cursor stands at Top has a timestamp of Top - advance or more, and if there can be one,
   * the cursor must be able to pass it by.
   */
  predicate BatchFits(spec: WindowSpec, horizon: u64)
    requires spec.advance > 0
  {
    var latest := Top(spec, horizon) - spec.advance;
    Top(spec, horizon) < U64_LIMIT && (Fits(spec, latest, horizon) || horizon < latest + spec.size)
  }

  predicate InBatchRange(spec: WindowSpec, trace: seq<Element>, horizon: u64) {
    spec.advance > 0 && BatchFits(spec, horizon) && Within(spec, trace, horizon)
  }

  /** An event still in the buffer is in a window to come, or came after the cursor's last move. */
  ghost predicate Current(tw: TimeWindow, spec: WindowSpec) {
    tw.initialized ==> forall e :: e in tw.buffer ==>
                         StartOf(tw.cursor, spec.size) <= e.ts || tw.cursor - spec.advance <= e.ts
  }

  lemma CurrentAfterEvent(tw: TimeWindow, front: seq<Element>, e: Event, spec: WindowSpec)
    requires Current(tw, spec) && NoLateEvents(front + [Data(e)])
    requires tw.initialized ==> CursorJustified(front, tw.cursor, spec)
    requires !tw.initialized ==> tw.buffer == []
    ensures Current(AfterEvent(tw, spec, e), spec)
  {
    var trace := front + [Data(e)];
    InsertedMembers(tw.buffer, e);
    if tw.initialized && tw.cursor != spec.advance {
      var i :| 0 <= i < |front| && front[i].Mark? && tw.cursor - spec.advance <= front[i].ts;
      assert trace[i] == front[i] && trace[|front|] == Data(e);
    }
  }

  lemma {:induction false} RunIsCurrent(spec: WindowSpec, trace: seq<Element>, horizon: u64)
    requires spec.advance > 0 && Top(spec, horizon) < U64_LIMIT && Within(spec, trace, horizon)
    requires NoLateEvents(trace)
    ensures Run(spec, trace).Done? && Current(Run(spec, trace).value.0, spec)
  {
    hide Top, Within, CursorJustified, Agrees, NoLateEvents, Exits, PastMark, FireUpTo, Cleaned, Firings, RefRun;
    RunMatches(spec, trace, horizon);
    if trace != [] {
      var front, elem := trace[..|trace| - 1], trace[|trace| - 1];
      assert trace == front + [elem];
      FrontWithin(spec, trace, horizon);
      RunIsCurrent(spec, front, horizon);
      RunMatches(spec, front, horizon);
      RefIsBatchSoFar(spec, front);
      var tw := Run(spec, front).value.0;
      match elem {
        case Data(e) => CurrentAfterEvent(tw, front, e, spec);
        case Mark(wm) =>
          if tw.initialized { CleanedMembers(tw.buffer, spec, PastMark(spec, tw.cursor, wm)); }
      }
    }
  }

  lemma FrontWithin(spec: WindowSpec, trace: seq<Element>, horizon: u64)
    requires trace != [] && Within(spec, trace, horizon)
    ensures Within(spec, trace[..|trace| - 1], horizon)
    ensures NoLateEvents(trace) ==> NoLateEvents(trace[..|trace| - 1])
  {}

  /** When the flush starts at Top, every event in the buffer came after the last watermark. */
  lemma CurrentAtTop(tw: TimeWindow, h: seq<Event>, spec: WindowSpec, horizon: u64)
    requires spec.advance > 0 && tw.initialized && Current(tw, spec) && tw.cursor == Top(spec, horizon)
    requires Agrees(tw.buffer, h, spec, tw.cursor) && LastEnd(h, spec) <= horizon
    ensures forall e :: e in tw.buffer ==> Top(spec, horizon) - spec.advance <= e.ts <= horizon - spec.size
  {
    TopFacts(spec, horizon);
    AgreesTimes(tw.buffer, h, spec, tw.cursor);
  }

  /**
   * When no event is late, the windows fired over the run and the close are the batch windows of
   * the events that arrived: window ends ascending over the multiples of `advance`, each window
   * sorted by timestamp with ties in reverse arrival order.
   */
  lemma BatchEquivalence(spec: WindowSpec, trace: seq<Element>, horizon: u64)
    requires InBatchRange(spec, trace, horizon) && NoLateEvents(trace)
    ensures RunAndClose(spec, trace) == Done(Batch(spec, EventsOf(trace)))
  {
    hide Firings, Agrees, Top, Fits, Run, RefRun, RunAndClose, RefRunAndClose, Batch, Current;
    ReferenceIsBatch(spec, trace);
    RunIsCurrent(spec, trace, horizon);
    RunMatches(spec, trace, horizon);
    TopFacts(spec, horizon);
    var tw, latest := Run(spec, trace).value.0, Top(spec, horizon) - spec.advance;
    MultipleStep(Top(spec, horizon), spec.advance);
    if tw.cursor == Top(spec, horizon) && tw.buffer != [] {
      CurrentAtTop(tw, RefRun(spec, trace).history, spec, horizon);
      assert tw.buffer[0] in tw.buffer;
    }
    CloseMatches(spec, trace, latest, horizon);
  }

  lemma {:induction false} FiringsComplete(h: seq<Event>, spec: WindowSpec, from: int, until: int, w: int)
    requires spec.advance > 0 && from % spec.advance == 0 && w % spec.advance == 0
    ensures from <= w < until && Window(h, StartOf(w, spec.size), w) != [] ==>
              Firing(w, Window(h, StartOf(w, spec.size), w)) in Firings(h, spec, from, until)
    ensures forall f :: f in Firings(h, spec, from, until) ==>
              from <= f.end < until && f.end % spec.advance == 0
              && f.events == Window(h, StartOf(f.end, spec.size), f.end) && f.events != []
    decreases until - from
  {
    hide Window, StartOf;
    if from < until {
      MultipleStep(from, spec.advance);
      FiringsComplete(h, spec, from + spec.advance, until, w);
      if from < w { MultipleBelow(w, from, spec.advance); }
    }
  }

  /**
   * The batch windows are the nonempty windows: there is one for `w` if and only if `w` is a
   * positive multiple of `advance` and some event has its timestamp in [max(0, w - size), w).
   */
  lemma BatchIsEveryWindow(spec: WindowSpec, h: seq<Event>, f: Firing)
    requires spec.advance > 0
    ensures f in Batch(spec, h)
            <==> && f.end > 0 && f.end % spec.advance == 0
                 && f.events != [] && f.events == Window(h, StartOf(f.end, spec.size), f.end)
  {
    hide Window, MaxTs, Firings;
    var a, until := spec.advance, LastEnd(h, spec) + 1;
    DivModUnique(a, 1, 0, a);
    if f.end > 0 && f.end % a == 0 {
      if f.end != a { MultipleAtLeast(f.end, a); }
      FiringsComplete(h, spec, a, until, f.end);
      if f.end > LastEnd(h, spec) { BetweenBeyond(h, spec, f.end); }
    } else {
      FiringsComplete(h, spec, a, until, a);
    }
  }

  lemma MultipleAtLeast(w: int, a: int)
    requires a > 0 && w % a == 0 && w > 0
    ensures w >= a
  {
    MultipleBelow(w, 0, a);
  }
}
