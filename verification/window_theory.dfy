/**
 * What the time window computes over a whole run, against references that keep every event:
 * cleanup is never observable, bounded disorder gives the batch windows, and every event lands
 * in a known number of windows.
 */
module WindowTheory {
  import opened Types
  import opened Cursors
  import opened EventBuffers
  import opened TimeWindows

  // ---------- runs of the operator ----------

  function Run(spec: WindowSpec, trace: seq<Element>): Outcome<(TimeWindow, seq<Firing>)> {
    if trace == [] then Done((FRESH, []))
    else
      var (tw, fired) :- Run(spec, trace[..|trace| - 1]);
      var (tw', more) :- AfterElement(tw, spec, trace[|trace| - 1]);
      Done((tw', fired + more))
  }

  /** Every window handed to the user function over the run and the close after it. */
  function RunAndClose(spec: WindowSpec, trace: seq<Element>): Outcome<seq<Firing>> {
    var (tw, fired) :- Run(spec, trace);
    var (_, more) :- AfterClose(tw, spec);
    Done(fired + more)
  }

  /** No watermark, and no timestamp plus size, is later than the horizon. */
  predicate Within(spec: WindowSpec, trace: seq<Element>, horizon: u64) {
    forall i :: 0 <= i < |trace| ==>
                  (if trace[i].Mark? then trace[i].ts else trace[i].event.ts + spec.size) <= horizon
  }

  /** The last window end that a cursor which never wraps has to reach: the first above the horizon. */
  function Top(spec: WindowSpec, horizon: u64): int
    requires spec.advance > 0
  {
    NextEnd(horizon, spec.advance)
  }

  /** Where one more addition leaves a 64-bit cursor that stands at Top, if it wraps. */
  function Wrapped(spec: WindowSpec, horizon: u64): int
    requires spec.advance > 0
  {
    Top(spec, horizon) + spec.advance - U64_LIMIT
  }

  /** The first value above `lo`, a multiple of `advance`, that the cursor takes after wrapping. */
  function FirstAbove(spec: WindowSpec, lo: int, horizon: u64): int
    requires spec.advance > 0
  {
    lo + if Wrapped(spec, horizon) > 0 then Wrapped(spec, horizon) else spec.advance
  }

  /**
   * Whether the cursor does its work in 64 bits. Up to Top it must not wrap. The flush makes one
   * addition more for an event that came too late for its windows; if that one wraps, the values
   * that follow must pass by all events with timestamps from `lo` on. RangeIsExact and
   * BatchRangeIsExact say that no less will do.
   */
  predicate Fits(spec: WindowSpec, lo: int, horizon: u64)
    requires spec.advance > 0
  {
    && Top(spec, horizon) < U64_LIMIT
    && (Top(spec, horizon) + spec.advance < U64_LIMIT || FirstAbove(spec, lo, horizon) > horizon)
  }

  predicate InRange(spec: WindowSpec, trace: seq<Element>, horizon: u64) {
    spec.advance > 0 && Fits(spec, 0, horizon) && Within(spec, trace, horizon)
  }

  // ---------- the reference that never forgets an event ----------

  datatype Reference = Reference(history: seq<Event>, cursor: int, fired: seq<Firing>)

  /** The nonempty windows over the history `h` that end at from, from + advance, ... below `until`. */
  function Firings(h: seq<Event>, spec: WindowSpec, from: int, until: int): seq<Firing>
    requires spec.advance > 0
    decreases until - from
  {
    if from >= until then []
    else
      FiringOf(Window(h, StartOf(from, spec.size), from), from)
      + Firings(h, spec, from + spec.advance, until)
  }

  /**
   * On every watermark the reference filters the full arrival history once for each window end
   * that has become due; the first is due once an event has been seen.
   */
  function RefRun(spec: WindowSpec, trace: seq<Element>): Reference
    requires spec.advance > 0
  {
    if trace == [] then Reference([], spec.advance, [])
    else
      var ref := RefRun(spec, trace[..|trace| - 1]);
      match trace[|trace| - 1]
      case Data(e) => ref.(history := ref.history + [e])
      case Mark(wm) => AfterMark(ref, spec, wm)
  }

  function AfterMark(ref: Reference, spec: WindowSpec, wm: u64): Reference
    requires spec.advance > 0
  {
    if ref.history == [] || wm < ref.cursor then ref
    else
      ref.(cursor := NextEnd(wm, spec.advance),
           fired := ref.fired + Firings(ref.history, spec, ref.cursor, wm + 1))
  }

  function RefRunAndClose(spec: WindowSpec, trace: seq<Element>): seq<Firing>
    requires spec.advance > 0
  {
    var ref := RefRun(spec, trace);
    ref.fired + Firings(ref.history, spec, ref.cursor, LastEnd(ref.history, spec) + 1)
  }

  /** No window that ends later can hold an event of `h`. */
  function LastEnd(h: seq<Event>, spec: WindowSpec): int {
    MaxTs(h) + spec.size
  }

  // ---------- cleanup is unobservable ----------

  /** The buffer still shows every event that a window ending at `cursor` or later can ask for. */
  ghost predicate Agrees(buffer: seq<Event>, h: seq<Event>, spec: WindowSpec, cursor: int) {
    && Sorted(buffer)
    && (forall e :: e in buffer ==> e in h)
    && Between(buffer, StartOf(cursor, spec.size), U64_LIMIT)
       == Between(Arrange(h), StartOf(cursor, spec.size), U64_LIMIT)
  }

  lemma AgreesFiredAt(buffer: seq<Event>, h: seq<Event>, spec: WindowSpec, cursor: int)
    requires Agrees(buffer, h, spec, cursor) && cursor <= U64_LIMIT
    ensures FiredAt(buffer, spec, cursor) == FiringOf(Window(h, StartOf(cursor, spec.size), cursor), cursor)
  {
    var s := StartOf(cursor, spec.size);
    BetweenNested(buffer, s, cursor, s, U64_LIMIT);
    BetweenNested(Arrange(h), s, cursor, s, U64_LIMIT);
    QueryIsWindow(h, s, cursor);
  }

  lemma AgreesEmpty(h: seq<Event>, spec: WindowSpec, cursor: int)
    requires Agrees([], h, spec, cursor)
    ensures Between(Arrange(h), StartOf(cursor, spec.size), U64_LIMIT) == []
  {}

  lemma AgreesLater(buffer: seq<Event>, h: seq<Event>, spec: WindowSpec, c: int, c': int)
    requires Agrees(buffer, h, spec, c) && c <= c'
    ensures Agrees(buffer, h, spec, c')
  {
    var s, s' := StartOf(c, spec.size), StartOf(c', spec.size);
    BetweenNested(buffer, s', U64_LIMIT, s, U64_LIMIT);
    BetweenNested(Arrange(h), s', U64_LIMIT, s, U64_LIMIT);
  }

  lemma AgreesCleaned(buffer: seq<Event>, h: seq<Event>, spec: WindowSpec, c: u64)
    requires Agrees(buffer, h, spec, c)
    ensures Agrees(Cleaned(buffer, spec, c), h, spec, c)
  {
    var s := StartOf(c, spec.size);
    BetweenNested(buffer, s, U64_LIMIT, s, U64_LIMIT);
    BetweenSorted(buffer, s, U64_LIMIT);
    BetweenMembers(buffer, s, U64_LIMIT);
  }

  lemma AgreesInserted(buffer: seq<Event>, h: seq<Event>, spec: WindowSpec, c: int, e: Event)
    requires Agrees(buffer, h, spec, c)
    ensures Agrees(Inserted(buffer, e), h + [e], spec, c)
  {
    var s := StartOf(c, spec.size);
    ArrangeSorted(h);
    BetweenInserted(buffer, e, s, U64_LIMIT);
    BetweenInserted(Arrange(h), e, s, U64_LIMIT);
    assert (h + [e])[..|h|] == h;
    InsertedSorted(buffer, e);
    InsertedMembers(buffer, e);
  }

  /** The watermark loop of the operator fires what the reference fires. */
  lemma {:induction false} FireUpToMatches(
    buffer: seq<Event>, h: seq<Event>, spec: WindowSpec, cursor: u64, wm: u64)
    requires spec.advance > 0 && cursor % spec.advance == 0
    requires NextEnd(wm, spec.advance) < U64_LIMIT
    requires Agrees(buffer, h, spec, cursor)
    ensures Exits(cursor, spec.advance, wm)
    ensures FireUpTo(buffer, spec, cursor, wm) == Firings(h, spec, cursor, wm + 1)
    ensures PastMark(spec, cursor, wm) == if cursor > wm then cursor else NextEnd(wm, spec.advance)
    decreases wm + 1 - cursor
  {
    var a := spec.advance;
    if cursor > wm {
      assert Advance(cursor, a, 0) > wm;
      ExitsExactly(cursor, a, wm);
    } else {
      NextEndIsLeast(wm, a);
      var next := NoWrapStep(cursor, a, wm);
      AgreesLater(buffer, h, spec, cursor, next);
      FireUpToMatches(buffer, h, spec, next, wm);
      ExitsAgain(cursor, a, wm);
      AgreesFiredAt(buffer, h, spec, cursor);
      if next > wm { MultipleAbove(next, wm, a); }
    }
  }

  /** Once no event is left for a window ending at `from`, no later window fires either. */
  lemma {:induction false} FiringsExhausted(h: seq<Event>, spec: WindowSpec, from: int, until: int)
    requires spec.advance > 0
    requires Between(Arrange(h), StartOf(from, spec.size), U64_LIMIT) == []
    requires until <= U64_LIMIT
    ensures Firings(h, spec, from, until) == []
    decreases until - from
  {
    if from < until {
      var s, next := StartOf(from, spec.size), from + spec.advance;
      BetweenNested(Arrange(h), s, from, s, U64_LIMIT);
      QueryIsWindow(h, s, from);
      BetweenNested(Arrange(h), StartOf(next, spec.size), U64_LIMIT, s, U64_LIMIT);
      FiringsExhausted(h, spec, next, until);
    }
  }

  lemma FiringsOfNothing(spec: WindowSpec, from: int)
    requires spec.advance > 0
    ensures Firings([], spec, from, LastEnd([], spec) + 1) == []
  {
    FiringsExhausted([], spec, from, LastEnd([], spec) + 1);
  }

  lemma TopFacts(spec: WindowSpec, horizon: u64)
    requires spec.advance > 0
    ensures Top(spec, horizon) % spec.advance == 0 && Top(spec, horizon) > horizon
    ensures spec.advance <= Top(spec, horizon) <= horizon + spec.advance
  {
    NextEndIsLeast(horizon, spec.advance);
    MultipleBelow(Top(spec, horizon), 0, spec.advance);
  }

  /** A cursor past every window of the buffer empties it. */
  lemma CleanedPast(buffer: seq<Event>, spec: WindowSpec, cursor: u64)
    requires forall e :: e in buffer ==> e.ts + spec.size < cursor
    ensures Cleaned(buffer, spec, cursor) == []
    ensures Between(buffer, StartOf(cursor, spec.size), cursor) == []
  {
    forall i | 0 <= i < |buffer|
      ensures buffer[i].ts < StartOf(cursor, spec.size)
    {
      assert buffer[i] in buffer;
    }
    BetweenNone(buffer, StartOf(cursor, spec.size), U64_LIMIT);
    BetweenNone(buffer, StartOf(cursor, spec.size), cursor);
  }

  /** The values of a wrapped cursor up to the first one above `lo` are in no window of the buffer. */
  lemma {:induction false} WrappedFlush(
    buffer: seq<Event>, spec: WindowSpec, cursor: u64, first: u64, lo: int, horizon: u64)
    requires spec.advance > 0 && lo + spec.advance >= first > horizon
    requires cursor <= first && (first - cursor) % spec.advance == 0 && (cursor == first ==> buffer == [])
    requires forall e :: e in buffer ==> lo <= e.ts && e.ts + spec.size <= horizon
    ensures FlushExits(buffer, spec, cursor) && Flush(buffer, spec, cursor) == []
    decreases first - cursor
  {
    hide Exits, MaxTs, Cleaned, Between;
    if buffer != [] {
      var a := spec.advance;
      MultipleBelow(first - cursor, 0, a);
      MultipleStep(first - cursor, a);
      var next: u64 := cursor + a;
      assert WrapAdd(cursor, a) == next;
      MaxTsBounds(buffer);
      ExitsBelow(cursor, a, first, MaxTs(buffer) + spec.size);
      NothingBelow(buffer, spec, cursor);
      CleanedMembers(buffer, spec, next);
      if next == first { CleanedPast(buffer, spec, next); }
      WrappedFlush(Cleaned(buffer, spec, next), spec, next, first, lo, horizon);
      FlushStep(buffer, spec, cursor);
      assert Flush(buffer, spec, cursor)
          == FiredAt(buffer, spec, cursor) + Flush(Cleaned(buffer, spec, next), spec, next);
    }
  }

  lemma CleanedMembers(buffer: seq<Event>, spec: WindowSpec, cursor: u64)
    ensures forall e :: e in Cleaned(buffer, spec, cursor) <==> e in buffer && StartOf(cursor, spec.size) <= e.ts
  {
    BetweenMembers(buffer, StartOf(cursor, spec.size), U64_LIMIT);
  }

  /** No event of the buffer is before a cursor at or below all timestamps. */
  lemma NothingBelow(buffer: seq<Event>, spec: WindowSpec, cursor: u64)
    requires forall e :: e in buffer ==> cursor <= e.ts
    ensures FiredAt(buffer, spec, cursor) == []
  {
    forall i | 0 <= i < |buffer|
      ensures cursor <= buffer[i].ts
    {
      assert buffer[i] in buffer;
    }
    BetweenNone(buffer, StartOf(cursor, spec.size), cursor);
  }

  /** Flushing from Top: nothing fires, and the loop ends. */
  lemma FlushFromTop(buffer: seq<Event>, spec: WindowSpec, lo: int, horizon: u64)
    requires spec.advance > 0 && Fits(spec, lo, horizon)
    requires 0 <= lo && lo % spec.advance == 0 && lo + spec.advance <= Top(spec, horizon)
    requires forall e :: e in buffer ==> lo <= e.ts && e.ts + spec.size <= horizon
    ensures FlushExits(buffer, spec, Top(spec, horizon)) && Flush(buffer, spec, Top(spec, horizon)) == []
  {
    hide Exits, MaxTs, Cleaned, Between, Top;
    if buffer != [] {
      var a, top: u64 := spec.advance, Top(spec, horizon);
      TopFacts(spec, horizon);
      MaxTsBounds(buffer);
      ExitsBelow(top, a, top, MaxTs(buffer) + spec.size);
      CleanedPast(buffer, spec, top);
      FlushStep(buffer, spec, top);
      var next := WrapAdd(top, a);
      assert Flush(buffer, spec, top) == FiredAt(buffer, spec, top) + Flush(Cleaned(buffer, spec, next), spec, next);
      CleanedMembers(buffer, spec, next);
      if top + a < U64_LIMIT {
        CleanedPast(buffer, spec, next);
      } else {
        var first: u64 := FirstAbove(spec, lo, horizon);
        WrappedStart(spec, lo, horizon);
        if next == first { CleanedPast(buffer, spec, next); }
        WrappedFlush(Cleaned(buffer, spec, next), spec, next, first, lo, horizon);
      }
    }
  }

  /** After wrapping the cursor comes to the first value above `lo` in steps of `advance`. */
  lemma WrappedStart(spec: WindowSpec, lo: int, horizon: u64)
    requires spec.advance > 0 && Top(spec, horizon) < U64_LIMIT <= Top(spec, horizon) + spec.advance
    requires 0 <= lo && lo % spec.advance == 0 && lo + spec.advance <= Top(spec, horizon)
    ensures var (c, first) := (Wrapped(spec, horizon), FirstAbove(spec, lo, horizon));
            && 0 <= c < spec.advance && c <= first <= lo + spec.advance && lo < first
            && (first - c) % spec.advance == 0
  {
    MultipleStep(lo, spec.advance);
  }

  /**
   * The flush of the operator fires what the reference fires. Only if it starts at Top does it
   * matter what `lo` is: after any step to Top the buffer is empty.
   */
  lemma {:induction false} FlushMatches(
    buffer: seq<Event>, h: seq<Event>, spec: WindowSpec, cursor: u64, lo: int, horizon: u64)
    requires spec.advance > 0 && cursor % spec.advance == 0
    requires LastEnd(h, spec) <= horizon && cursor <= Top(spec, horizon) < U64_LIMIT
    requires 0 <= lo && lo % spec.advance == 0 && lo + spec.advance <= Top(spec, horizon)
    requires cursor == Top(spec, horizon) && buffer != [] ==>
               Fits(spec, lo, horizon) && forall e :: e in buffer ==> lo <= e.ts
    requires Agrees(buffer, h, spec, cursor)
    ensures FlushExits(buffer, spec, cursor)
    ensures Flush(buffer, spec, cursor) == Firings(h, spec, cursor, LastEnd(h, spec) + 1)
    decreases Top(spec, horizon) - cursor
  {
    hide Agrees, Between, Window, MaxTs, Cleaned, Fits, Top;
    var a, bound, top := spec.advance, LastEnd(h, spec), Top(spec, horizon);
    TopFacts(spec, horizon);
    if buffer == [] {
      AgreesEmpty(h, spec, cursor);
      FiringsExhausted(h, spec, cursor, bound + 1);
    } else if cursor == top {
      AgreesTimes(buffer, h, spec, cursor);
      FlushFromTop(buffer, spec, lo, horizon);
    } else {
      FlushTurnMatches(buffer, h, spec, cursor, horizon);
      FlushStep(buffer, spec, cursor);
      var next: u64 := cursor + a;
      var rest := Flush(Cleaned(buffer, spec, next), spec, next);
      assert Flush(buffer, spec, cursor) == FiredAt(buffer, spec, cursor) + rest;
      if cursor <= bound {
        FlushMatches(Cleaned(buffer, spec, next), h, spec, next, lo, horizon);
      } else {
        BetweenBeyond(h, spec, cursor);
        assert Firings(h, spec, cursor, bound + 1) == [];
      }
    }
  }

  /** One turn below Top. */
  lemma FlushTurnMatches(
    buffer: seq<Event>, h: seq<Event>, spec: WindowSpec, cursor: u64, horizon: u64)
    requires spec.advance > 0 && cursor % spec.advance == 0
    requires LastEnd(h, spec) <= horizon && cursor < Top(spec, horizon) < U64_LIMIT
    requires Agrees(buffer, h, spec, cursor) && buffer != []
    ensures var next := cursor + spec.advance;
            && next == WrapAdd(cursor, spec.advance) && next % spec.advance == 0 && next <= Top(spec, horizon)
            && Agrees(Cleaned(buffer, spec, next), h, spec, next)
            && (cursor > LastEnd(h, spec) || next == Top(spec, horizon) ==> Cleaned(buffer, spec, next) == [])
    ensures FlushExits(buffer, spec, cursor)
    ensures FiredAt(buffer, spec, cursor)
            == FiringOf(Window(h, StartOf(cursor, spec.size), cursor), cursor)
  {
    hide Agrees, Between, MaxTs, Window, Exits, Top;
    var a, top := spec.advance, Top(spec, horizon);
    TopFacts(spec, horizon);
    AgreesWithin(buffer, h, spec, cursor);
    MultipleStep(cursor, a);
    MultipleBelow(top, cursor, a);
    var next: u64 := cursor + a;
    AgreesLater(buffer, h, spec, cursor, next);
    AgreesCleaned(buffer, h, spec, next);
    AgreesFiredAt(buffer, h, spec, cursor);
    MultipleDifference(top, cursor, a);
    ExitsBelow(cursor, a, top, MaxTs(buffer) + spec.size);
    CleanedMax(buffer, spec, next);
  }

  lemma MultipleDifference(v: int, w: int, a: int)
    requires a > 0 && v % a == 0 && w % a == 0
    ensures (v - w) % a == 0
  {
    assert v == (v / a) * a && w == (w / a) * a;
    Distribute(v / a - w / a, w / a, a);
    DivModUnique(v - w, v / a - w / a, 0, a);
  }

  lemma AgreesTimes(buffer: seq<Event>, h: seq<Event>, spec: WindowSpec, cursor: int)
    requires Agrees(buffer, h, spec, cursor)
    ensures forall e :: e in buffer ==> e.ts + spec.size <= LastEnd(h, spec)
  {
    MaxTsBounds(h);
  }

  lemma AgreesWithin(buffer: seq<Event>, h: seq<Event>, spec: WindowSpec, cursor: int)
    requires Agrees(buffer, h, spec, cursor)
    ensures MaxTs(buffer) <= MaxTs(h)
  {
    MaxTsBounds(buffer);
    MaxTsBounds(h);
  }

  lemma BetweenBeyond(h: seq<Event>, spec: WindowSpec, cursor: int)
    requires cursor > LastEnd(h, spec)
    ensures Window(h, StartOf(cursor, spec.size), cursor) == []
  {
    var s := StartOf(cursor, spec.size);
    QueryIsWindow(h, s, cursor);
    ArrangeSorted(h);
    MaxTsBounds(h);
    forall i | 0 <= i < |Arrange(h)|
      ensures Arrange(h)[i].ts < s
    {
      assert Arrange(h)[i] in multiset(Arrange(h));
    }
    BetweenNone(Arrange(h), s, cursor);
  }

  /** What the operator's state and the reference have in common after the same inputs. */
  ghost predicate Matches(r: Outcome<(TimeWindow, seq<Firing>)>, ref: Reference, spec: WindowSpec, horizon: u64)
    requires spec.advance > 0
  {
    && r.Done?
    && var (tw, fired) := r.value;
       && fired == ref.fired
       && ref.cursor % spec.advance == 0
       && 0 < ref.cursor <= Top(spec, horizon)
       && (tw.initialized <==> ref.history != [])
       && (if tw.initialized then tw.cursor == ref.cursor else tw.buffer == [] && ref.cursor == spec.advance)
       && Agrees(tw.buffer, ref.history, spec, ref.cursor)
       && (ref.history != [] ==> LastEnd(ref.history, spec) <= horizon)
  }

  lemma EventMatches(
    tw: TimeWindow, fired: seq<Firing>, ref: Reference, e: Event, spec: WindowSpec, horizon: u64)
    requires spec.advance > 0 && e.ts + spec.size <= horizon
    requires Matches(Done((tw, fired)), ref, spec, horizon)
    ensures Matches(Done((AfterEvent(tw, spec, e), fired)), ref.(history := ref.history + [e]), spec, horizon)
  {
    hide Agrees, Inserted;
    AgreesInserted(tw.buffer, ref.history, spec, ref.cursor, e);
    MaxTsAppend(ref.history, e);
  }

  lemma MarkMatches(
    tw: TimeWindow, fired: seq<Firing>, ref: Reference, wm: u64, spec: WindowSpec, horizon: u64)
    requires spec.advance > 0 && Top(spec, horizon) < U64_LIMIT && wm <= horizon
    requires Matches(Done((tw, fired)), ref, spec, horizon) && tw.initialized
    ensures AfterWatermark(tw, spec, wm).Done?
    ensures var (tw', more) := AfterWatermark(tw, spec, wm).value;
            Matches(Done((tw', fired + more)), AfterMark(ref, spec, wm), spec, horizon)
  {
    var a := spec.advance;
    NextEndIsLeast(wm, a);
    NextEndIsLeast(horizon, a);
    MultipleAbove(NextEnd(horizon, a), wm, a);
    FireUpToMatches(tw.buffer, ref.history, spec, tw.cursor, wm);
    var cursor := PastMark(spec, tw.cursor, wm);
    AgreesLater(tw.buffer, ref.history, spec, tw.cursor, cursor);
    AgreesCleaned(tw.buffer, ref.history, spec, cursor);
    assert fired + [] == fired;
    if wm >= ref.cursor {
      assert AfterMark(ref, spec, wm).cursor == cursor;
    }
  }

  lemma {:induction false} RunMatches(spec: WindowSpec, trace: seq<Element>, horizon: u64)
    requires spec.advance > 0 && Top(spec, horizon) < U64_LIMIT && Within(spec, trace, horizon)
    ensures Matches(Run(spec, trace), RefRun(spec, trace), spec, horizon)
  {
    if trace == [] {
      TopFacts(spec, horizon);
    } else {
      var front := trace[..|trace| - 1];
      RunMatches(spec, front, horizon);
      var (tw, fired) := Run(spec, front).value;
      var ref, elem := RefRun(spec, front), trace[|trace| - 1];
      assert fired + [] == fired;
      if elem.Data? {
        EventMatches(tw, fired, ref, elem.event, spec, horizon);
      } else if tw.initialized {
        assert elem == Mark(elem.ts);
        MarkMatches(tw, fired, ref, elem.ts, spec, horizon);
      }
    }
  }

  /** The run and close fire what the reference fires, provided the flush does not start badly. */
  lemma CloseMatches(spec: WindowSpec, trace: seq<Element>, lo: int, horizon: u64)
    requires spec.advance > 0 && Top(spec, horizon) < U64_LIMIT && Within(spec, trace, horizon)
    requires 0 <= lo && lo % spec.advance == 0 && lo + spec.advance <= Top(spec, horizon)
    requires Run(spec, trace).Done? ==>
               var tw := Run(spec, trace).value.0;
               tw.cursor == Top(spec, horizon) && tw.buffer != [] ==>
                 Fits(spec, lo, horizon) && forall e :: e in tw.buffer ==> lo <= e.ts
    ensures RunAndClose(spec, trace) == Done(RefRunAndClose(spec, trace))
  {
    hide Between, Window, Run, RefRun, Arrange, Sorted, Top, Fits;
    RunMatches(spec, trace, horizon);
    var (tw, fired) := Run(spec, trace).value;
    var ref := RefRun(spec, trace);
    if tw.initialized {
      FlushMatches(tw.buffer, ref.history, spec, tw.cursor, lo, horizon);
    } else {
      FiringsOfNothing(spec, ref.cursor);
      assert fired + [] == fired;
    }
  }

  /**
   * For every mix of events, late ones included, and watermarks, even decreasing ones, the
   * operator that discards events fires exactly the windows of the reference that keeps them all.
   */
  lemma {:induction false} CleanupIsUnobservable(spec: WindowSpec, trace: seq<Element>, horizon: u64)
    requires InRange(spec, trace, horizon)
    ensures RunAndClose(spec, trace) == Done(RefRunAndClose(spec, trace))
  {
    TopFacts(spec, horizon);
    CloseMatches(spec, trace, 0, horizon);
  }
}
