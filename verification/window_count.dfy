/** How many windows each event lands in, over the whole run and the close after it. */
module WindowCount {
  import opened Types
  import opened Cursors
  import opened EventBuffers
  import opened TimeWindows
  import opened WindowTheory
  import opened WindowBatch

  // ---------- window ends come once each, in order ----------

  ghost predicate Ascending(fired: seq<Firing>, spec: WindowSpec, lo: int, hi: int)
    requires spec.advance > 0
  {
    && (forall i :: 0 <= i < |fired| ==> lo <= fired[i].end < hi && fired[i].end % spec.advance == 0)
    && (forall i, j :: 0 <= i < j < |fired| ==> fired[i].end < fired[j].end)
  }

  lemma {:induction false} FiringsAscend(h: seq<Event>, spec: WindowSpec, from: int, until: int)
    requires spec.advance > 0 && from % spec.advance == 0
    ensures Ascending(Firings(h, spec, from, until), spec, from, until)
    decreases until - from
  {
    hide Window;
    if from < until {
      MultipleStep(from, spec.advance);
      FiringsAscend(h, spec, from + spec.advance, until);
    }
  }

  lemma AscendingConcat(a: seq<Firing>, b: seq<Firing>, spec: WindowSpec, lo: int, mid: int, hi: int)
    requires spec.advance > 0 && lo <= mid <= hi
    requires Ascending(a, spec, lo, mid) && Ascending(b, spec, mid, hi)
    ensures Ascending(a + b, spec, lo, hi)
  {}

  lemma WiderAscending(a: seq<Firing>, spec: WindowSpec, lo: int, hi: int, hi': int)
    requires spec.advance > 0 && hi <= hi' && Ascending(a, spec, lo, hi)
    ensures Ascending(a, spec, lo, hi')
  {}

  /** Watermarks that come after the first event. */
  ghost predicate CursorAbove(trace: seq<Element>, cursor: int) {
    forall i :: 0 <= i < |trace| && trace[i].Mark? && EventsOf(trace[..i]) != [] ==> trace[i].ts < cursor
  }

  lemma {:induction false} RefAscends(spec: WindowSpec, trace: seq<Element>)
    requires spec.advance > 0
    ensures var ref := RefRun(spec, trace);
            && ref.history == EventsOf(trace)
            && ref.cursor % spec.advance == 0 && ref.cursor >= spec.advance
            && CursorAbove(trace, ref.cursor)
            && Ascending(ref.fired, spec, spec.advance, ref.cursor)
  {
    hide Firings, Ascending;
    if trace == [] {
      assert Ascending([], spec, spec.advance, spec.advance) by { NothingAscends(spec); }
    } else {
      var front, elem := trace[..|trace| - 1], trace[|trace| - 1];
      var ref := RefRun(spec, front);
      RefAscends(spec, front);
      assert trace == front + [elem];
      EventsOfConcat(front, [elem]);
      assert EventsOf([elem]) == EventOf(elem) + EventsOf([]);
      AscendsAfter(ref, elem, spec);
      AboveAfter(front, elem, ref.cursor, RefRun(spec, trace).cursor);
    }
  }

  lemma NothingAscends(spec: WindowSpec)
    requires spec.advance > 0
    ensures Ascending([], spec, spec.advance, spec.advance)
  {}

  lemma {:induction false} AboveAfter(front: seq<Element>, elem: Element, cursor: int, cursor': int)
    requires CursorAbove(front, cursor) && cursor <= cursor'
    requires elem.Mark? && EventsOf(front) != [] ==> elem.ts < cursor'
    ensures CursorAbove(front + [elem], cursor')
  {
    var trace := front + [elem];
    forall i | 0 <= i < |trace| && trace[i].Mark? && EventsOf(trace[..i]) != []
      ensures trace[i].ts < cursor'
    {
      assert trace[..i] == front[..i];
      assert i == |front| ==> front[..i] == front;
    }
  }

  lemma AscendsAfter(ref: Reference, elem: Element, spec: WindowSpec)
    requires spec.advance > 0 && ref.cursor % spec.advance == 0 && ref.cursor >= spec.advance
    requires Ascending(ref.fired, spec, spec.advance, ref.cursor)
    ensures elem.Mark? ==>
              var ref' := AfterMark(ref, spec, elem.ts);
              && ref'.cursor % spec.advance == 0 && ref'.cursor >= ref.cursor
              && (ref.history != [] ==> elem.ts < ref'.cursor)
              && Ascending(ref'.fired, spec, spec.advance, ref'.cursor)
  {
    hide Firings;
    if elem.Mark? && ref.history != [] && elem.ts >= ref.cursor {
      NextEndIsLeast(elem.ts, spec.advance);
      FiringsAscend(ref.history, spec, ref.cursor, elem.ts + 1);
      var more := Firings(ref.history, spec, ref.cursor, elem.ts + 1);
      AscendingConcat(ref.fired, more, spec, spec.advance, ref.cursor, NextEnd(elem.ts, spec.advance));
    }
  }

  /** Every window end is a positive multiple of `advance`, and none comes twice or out of order. */
  ghost predicate Regular(fired: seq<Firing>, spec: WindowSpec)
    requires spec.advance > 0
  {
    && (forall i :: 0 <= i < |fired| ==> fired[i].end > 0 && fired[i].end % spec.advance == 0)
    && (forall i, j :: 0 <= i < j < |fired| ==> fired[i].end < fired[j].end)
  }

  lemma ReferenceIsRegular(spec: WindowSpec, trace: seq<Element>)
    requires spec.advance > 0
    ensures Regular(RefRunAndClose(spec, trace), spec)
  {
    hide Firings, RefRun, MaxTs, CursorAbove, EventsOf;
    RefAscends(spec, trace);
    var ref := RefRun(spec, trace);
    var end := LastEnd(ref.history, spec) + 1;
    FiringsAscend(ref.history, spec, ref.cursor, end);
    var hi := if end > ref.cursor then end else ref.cursor;
    WiderAscending(Firings(ref.history, spec, ref.cursor, end), spec, ref.cursor, end, hi);
    AscendingConcat(ref.fired, Firings(ref.history, spec, ref.cursor, end), spec, spec.advance, ref.cursor, hi);
  }

  /**
   * Over every run and close, no window end is fired twice: the ends are strictly ascending
   * positive multiples of `advance`. The cursor of the run is one of them too, and exceeds every
   * watermark that came after the first event.
   */
  lemma {:induction false} NoWindowFiresTwice(spec: WindowSpec, trace: seq<Element>, horizon: u64)
    requires InRange(spec, trace, horizon)
    ensures RunAndClose(spec, trace).Done? && Run(spec, trace).Done?
    ensures Regular(RunAndClose(spec, trace).value, spec)
    ensures var (tw, _) := Run(spec, trace).value;
            tw.initialized ==>
              && tw.cursor > 0 && tw.cursor % spec.advance == 0
              && CursorAbove(trace, tw.cursor)
  {
    hide Firings, Agrees, Run, RefRun, RunAndClose, RefRunAndClose, MaxTs, CursorAbove, EventsOf, Regular, Ascending;
    CleanupIsUnobservable(spec, trace, horizon);
    RunMatches(spec, trace, horizon);
    RefAscends(spec, trace);
    ReferenceIsRegular(spec, trace);
  }

  // ---------- multiplicity ----------

  /** How often the event `x` is handed to the user function. */
  function Copies(fired: seq<Firing>, x: Event): nat {
    if fired == [] then 0 else multiset(fired[0].events)[x] + Copies(fired[1..], x)
  }

  /** How many of the ends from, from + advance, ... below `until` lie in (ts, ts + size]. */
  function Ends(spec: WindowSpec, ts: int, from: int, until: int): nat
    requires spec.advance > 0
    decreases until - from
  {
    if from >= until then 0
    else (if ts < from <= ts + spec.size then 1 else 0) + Ends(spec, ts, from + spec.advance, until)
  }

  /** All the window ends still to come that will hold an event with timestamp `ts`. */
  function EndsToCome(spec: WindowSpec, ts: int, cursor: int): nat
    requires spec.advance > 0
  {
    Ends(spec, ts, cursor, ts + spec.size + 1)
  }

  /** For each arrival of `x`, the ends at or after the cursor of that moment in (ts, ts + size]. */
  function Expected(spec: WindowSpec, trace: seq<Element>, x: Event): nat
    requires spec.advance > 0
  {
    if trace == [] then 0
    else
      var front := trace[..|trace| - 1];
      Expected(spec, front, x)
      + if trace[|trace| - 1] == Data(x) then EndsToCome(spec, x.ts, RefRun(spec, front).cursor) else 0
  }

  lemma {:induction false} CopiesConcat(a: seq<Firing>, b: seq<Firing>, x: Event)
    ensures Copies(a + b, x) == Copies(a, x) + Copies(b, x)
  {
    if a == [] {
      assert a + b == b;
    } else {
      assert (a + b)[1..] == a[1..] + b;
      CopiesConcat(a[1..], b, x);
    }
  }

  lemma CopiesOfOne(events: seq<Event>, end: int, x: Event)
    ensures Copies(FiringOf(events, end), x) == multiset(events)[x]
  {
    if events != [] {
      assert FiringOf(events, end)[1..] == [];
    }
  }

  /** Each copy of `x` in the history is in exactly the windows whose end lies in (ts, ts + size]. */
  lemma {:induction false} CopiesInFirings(h: seq<Event>, spec: WindowSpec, from: int, until: int, x: Event)
    requires spec.advance > 0 && from > 0
    ensures Copies(Firings(h, spec, from, until), x) == multiset(h)[x] * Ends(spec, x.ts, from, until)
    decreases until - from
  {
    hide Window, FiringOf, Copies, StartOf;
    if from >= until {
      NoCopies(x);
    } else {
      var w := Window(h, StartOf(from, spec.size), from);
      WindowMembers(h, StartOf(from, spec.size), from, x);
      CopiesOfOne(w, from, x);
      CopiesInFirings(h, spec, from + spec.advance, until, x);
      var inside := x.ts < from <= x.ts + spec.size;
      InsideWindow(spec, x.ts, from);
      CopiesConcat(FiringOf(w, from), Firings(h, spec, from + spec.advance, until), x);
      Distribute(if inside then 1 else 0,
                 Ends(spec, x.ts, from + spec.advance, until), multiset(h)[x]);
    }
  }

  lemma InsideWindow(spec: WindowSpec, ts: nat, end: int)
    requires end > 0
    ensures ts < end <= ts + spec.size <==> StartOf(end, spec.size) <= ts < end
  {}

  lemma NoCopies(x: Event)
    ensures Copies([], x) == 0
  {}

  lemma {:induction false} EndsBeyond(spec: WindowSpec, ts: int, from: int, until: int)
    requires spec.advance > 0 && from > ts + spec.size
    ensures Ends(spec, ts, from, until) == 0
    decreases until - from
  {
    if from < until { EndsBeyond(spec, ts, from + spec.advance, until); }
  }

  /** The ends passed by a watermark and the ends to come after it add up. */
  lemma {:induction false} EndsSplit(spec: WindowSpec, ts: int, from: int, wm: int)
    requires spec.advance > 0 && from % spec.advance == 0
    ensures var next := NextEnd(wm, spec.advance);
            EndsToCome(spec, ts, from)
            == Ends(spec, ts, from, wm + 1) + EndsToCome(spec, ts, if from <= wm then next else from)
    decreases wm - from
  {
    if from <= wm {
      var a := spec.advance;
      MultipleStep(from, a);
      EndsSplit(spec, ts, from + a, wm);
      NextEndIsLeast(wm, a);
      if from + a > wm { MultipleStep(NextEnd(wm, a), a); MultipleAbove(from + a, wm, a); MultipleCap(from, wm, a); }
      if from > ts + spec.size {
        EndsBeyond(spec, ts, from, ts + spec.size + 1);
        EndsBeyond(spec, ts, from, wm + 1);
        EndsBeyond(spec, ts, NextEnd(wm, a), ts + spec.size + 1);
      }
    }
  }

  lemma MultipleCap(from: int, wm: int, a: int)
    requires a > 0 && from % a == 0 && from <= wm < from + a
    ensures NextEnd(wm, a) == from + a
  {
    NextEndIsLeast(wm, a);
    MultipleStep(from, a);
    MultipleBelow(NextEnd(wm, a), from, a);
  }

  /** Copies handed out so far plus copies still to come never change except by an arrival. */
  lemma {:induction false} CopiesConserved(spec: WindowSpec, trace: seq<Element>, x: Event)
    requires spec.advance > 0
    ensures var ref := RefRun(spec, trace);
            Copies(ref.fired, x) + multiset(ref.history)[x] * EndsToCome(spec, x.ts, ref.cursor)
            == Expected(spec, trace, x)
  {
    hide Copies, Ends, Firings;
    if trace == [] {
      NoCopies(x);
    } else {
      var front, elem := trace[..|trace| - 1], trace[|trace| - 1];
      var ref := RefRun(spec, front);
      CopiesConserved(spec, front, x);
      RefAscends(spec, front);
      match elem {
        case Data(e) =>
          assert multiset(ref.history + [e])[x] == multiset(ref.history)[x] + if e == x then 1 else 0;
          Distribute(multiset(ref.history)[x], if e == x then 1 else 0, EndsToCome(spec, x.ts, ref.cursor));
        case Mark(wm) =>
          ConservedByMark(ref, spec, wm, x);
      }
    }
  }

  lemma ConservedByMark(ref: Reference, spec: WindowSpec, wm: u64, x: Event)
    requires spec.advance > 0 && ref.cursor % spec.advance == 0 && ref.cursor > 0
    ensures var ref' := AfterMark(ref, spec, wm);
            Copies(ref'.fired, x) + multiset(ref'.history)[x] * EndsToCome(spec, x.ts, ref'.cursor)
            == Copies(ref.fired, x) + multiset(ref.history)[x] * EndsToCome(spec, x.ts, ref.cursor)
  {
    hide Copies, Ends, Firings;
    if ref.history != [] && wm >= ref.cursor {
      var m, passed := multiset(ref.history)[x], Ends(spec, x.ts, ref.cursor, wm + 1);
      CopiesConcat(ref.fired, Firings(ref.history, spec, ref.cursor, wm + 1), x);
      CopiesInFirings(ref.history, spec, ref.cursor, wm + 1, x);
      EndsSplit(spec, x.ts, ref.cursor, wm);
      Distribute(passed, EndsToCome(spec, x.ts, NextEnd(wm, spec.advance)), m);
    }
  }

  lemma {:induction false} EndsSameLimit(spec: WindowSpec, ts: int, from: int, until: int)
    requires spec.advance > 0 && until > ts + spec.size
    ensures Ends(spec, ts, from, until) == EndsToCome(spec, ts, from)
    decreases until - from
  {
    if from > ts + spec.size {
      EndsBeyond(spec, ts, from, until);
    } else {
      EndsSameLimit(spec, ts, from + spec.advance, until);
    }
  }

  lemma ReferenceMultiplicity(spec: WindowSpec, trace: seq<Element>, x: Event)
    requires spec.advance > 0
    ensures Copies(RefRunAndClose(spec, trace), x) == Expected(spec, trace, x)
  {
    hide Copies, Ends, Firings, MaxTs, RefRun, Expected;
    CopiesConserved(spec, trace, x);
    RefAscends(spec, trace);
    var ref := RefRun(spec, trace);
    var rest := Firings(ref.history, spec, ref.cursor, LastEnd(ref.history, spec) + 1);
    CopiesConcat(ref.fired, rest, x);
    CopiesInRest(ref.history, spec, ref.cursor, x);
  }

  /**
   * Over every run and close, an event is handed to the user function once for every multiple of
   * `advance` that is at or after the cursor at its arrival and lies in (ts, ts + size].
   */
  lemma {:induction false} EventMultiplicity(spec: WindowSpec, trace: seq<Element>, horizon: u64, x: Event)
    requires InRange(spec, trace, horizon)
    ensures RunAndClose(spec, trace).Done?
    ensures Copies(RunAndClose(spec, trace).value, x) == Expected(spec, trace, x)
  {
    CleanupIsUnobservable(spec, trace, horizon);
    ReferenceMultiplicity(spec, trace, x);
  }

  lemma {:induction false} CopiesInRest(h: seq<Event>, spec: WindowSpec, cursor: int, x: Event)
    requires spec.advance > 0 && cursor > 0
    ensures Copies(Firings(h, spec, cursor, LastEnd(h, spec) + 1), x)
            == multiset(h)[x] * EndsToCome(spec, x.ts, cursor)
  {
    hide Copies, Ends, Firings, MaxTs;
    var until := LastEnd(h, spec) + 1;
    CopiesInFirings(h, spec, cursor, until, x);
    MaxTsBounds(h);
    if x in h {
      EndsSameLimit(spec, x.ts, cursor, until);
    } else {
      assert multiset(h)[x] == 0;
    }
  }

  /** Counting the ends: floor((ts + size) / advance) - floor(ts / advance) if none has passed. */
  lemma {:induction false} EndsClosedForm(spec: WindowSpec, ts: nat, cursor: int)
    requires spec.advance > 0 && cursor % spec.advance == 0 && cursor > 0
    ensures var a := spec.advance;
            var passed := if ts / a < cursor / a - 1 then cursor / a - 1 else ts / a;
            EndsToCome(spec, ts, cursor)
            == if passed < (ts + spec.size) / a then (ts + spec.size) / a - passed else 0
    decreases ts + spec.size - cursor
  {
    var a, top := spec.advance, ts + spec.size;
    DivOrder(cursor, top, a);
    DivOrder(cursor, ts, a);
    DivMono(ts, top, a);
    if cursor <= top {
      MultipleStep(cursor, a);
      EndsClosedForm(spec, ts, cursor + a);
    }
  }

  lemma DivOrder(w: int, t: int, a: int)
    requires a > 0 && w % a == 0
    ensures w <= t <==> w / a <= t / a
  {
    var p, q := w / a, t / a;
    assert w == p * a && t == q * a + t % a;
    MulOrder(p, q, a);
    MulOrder(q, p, a);
  }

  lemma DivMono(s: int, t: int, a: int)
    requires a > 0 && s <= t
    ensures s / a <= t / a
  {
    var p, q := s / a, t / a;
    assert s == p * a + s % a && t == q * a + t % a;
    MulOrder(q, p, a);
  }

  /** How often the batch windows hold an event: the number of its arrivals times that of its ends. */
  lemma BatchMultiplicity(spec: WindowSpec, h: seq<Event>, x: Event)
    requires spec.advance > 0
    ensures Copies(Batch(spec, h), x)
            == multiset(h)[x] * ((x.ts + spec.size) / spec.advance - x.ts / spec.advance)
  {
    hide Copies, Firings, Ends, MaxTs;
    CopiesInRest(h, spec, spec.advance, x);
    EndsFromStart(spec, x.ts);
  }

  /**
   * When no event is late, every arrival of an event is handed to the user function
   * floor((ts + size) / advance) - floor(ts / advance) times: exactly once for tumbling windows.
   */
  lemma {:induction false} MultiplicityWithoutLateness(spec: WindowSpec, trace: seq<Element>, horizon: u64, x: Event)
    requires InBatchRange(spec, trace, horizon) && NoLateEvents(trace)
    ensures RunAndClose(spec, trace).Done?
    ensures Copies(RunAndClose(spec, trace).value, x)
            == multiset(EventsOf(trace))[x] * ((x.ts + spec.size) / spec.advance - x.ts / spec.advance)
    ensures spec.size == spec.advance ==>
              Copies(RunAndClose(spec, trace).value, x) == multiset(EventsOf(trace))[x]
  {
    hide Copies, Firings, Ends, MaxTs, RunAndClose, NoLateEvents, EventsOf, Batch;
    BatchEquivalence(spec, trace, horizon);
    BatchMultiplicity(spec, EventsOf(trace), x);
    EndsFromStart(spec, x.ts);
  }

  lemma EndsFromStart(spec: WindowSpec, ts: nat)
    requires spec.advance > 0
    ensures EndsToCome(spec, ts, spec.advance) == (ts + spec.size) / spec.advance - ts / spec.advance
    ensures spec.size == spec.advance ==> EndsToCome(spec, ts, spec.advance) == 1
  {
    hide EndsToCome;
    var a := spec.advance;
    DivModUnique(a, 1, 0, a);
    EndsClosedForm(spec, ts, a);
    DivMono(ts, ts + spec.size, a);
    DivMono(0, ts, a);
    DivModUnique(ts + a, ts / a + 1, ts % a, a) by {
      Distribute(ts / a, 1, a);
    }
  }
}
