/** Where the 64-bit cursor leaves the range in which the window results hold. */
module WindowLimits {
  import opened Types
  import opened Cursors
  import opened EventBuffers
  import opened TimeWindows
  import opened WindowTheory
  import opened WindowBatch
  import opened WindowCount

  /**
   * The greatest possible watermark makes the operator loop forever whatever the window, and so
   * does every watermark if the windows do not advance.
   */
  lemma NeverEndingWatermarks(tw: TimeWindow, spec: WindowSpec, wm: u64)
    requires tw.initialized
    requires wm == U64_LIMIT - 1 || (spec.advance == 0 && tw.cursor == 0)
    ensures AfterWatermark(tw, spec, wm).Hang?
    ensures forall n: nat :: Advance(tw.cursor, spec.advance, n) <= wm
  {
    ExitsExactly(tw.cursor, spec.advance, wm);
    if spec.advance == 0 && tw.cursor == 0 {
      forall n: nat
        ensures Advance(tw.cursor, spec.advance, n) <= wm
      {
        StaysPut(tw.cursor, n);
      }
    }
  }

  lemma {:induction false} StaysPut(c: u64, n: nat)
    ensures Advance(c, 0, n) == c
    decreases n
  {
    if n > 0 { StaysPut(c, n - 1); }
  }

  // ---------- a watermark ----------

  /** The loop of a watermark leaves the next window end behind if and only if that is a u64. */
  lemma PastMarkExactly(spec: WindowSpec, cursor: u64, wm: u64)
    requires spec.advance > 0 && cursor % spec.advance == 0 && cursor <= wm
    requires Exits(cursor, spec.advance, wm)
    ensures PastMark(spec, cursor, wm) == NextEnd(wm, spec.advance) <==> NextEnd(wm, spec.advance) < U64_LIMIT
  {
    if NextEnd(wm, spec.advance) < U64_LIMIT {
      FireUpToMatches([], [], spec, cursor, wm);
    }
  }

  lemma {:induction false} AdvanceStaysMultiple(c: u64, a: u64, n: nat)
    requires a > 0 && c % a == 0 && U64_LIMIT % a == 0
    ensures Advance(c, a, n) % a == 0
    decreases n
  {
    if n > 0 {
      MultipleStep(c, a);
      MultipleDifference(c + a, U64_LIMIT, a);
      AdvanceStaysMultiple(WrapAdd(c, a), a, n - 1);
    }
  }

  /** If the loop ends although the next window end is no u64, the cursor wraps to between two multiples. */
  lemma WrapsBetween(cursor: u64, a: u64, wm: u64)
    requires a > 0 && cursor % a == 0 && Exits(cursor, a, wm)
    requires NextEnd(wm, a) >= U64_LIMIT
    ensures var c := NextEnd(wm, a) - U64_LIMIT;
            0 < c < a && c <= wm && c % a != 0
  {
    hide Exits, NextEnd;
    NextEndIsLeast(wm, a);
    var c := NextEnd(wm, a) - U64_LIMIT;
    if c == 0 {
      var n := ExitCount(cursor, a, wm);
      AdvanceStaysMultiple(cursor, a, n);
      MultipleAbove(Advance(cursor, a, n), wm, a);
      assert false;
    }
    DivModUnique(c, 0, c, a);
  }

  /** The loop fires what it should, and then goes on from the wrapped cursor. */
  lemma {:induction false} FiresAndWraps(
    buffer: seq<Event>, h: seq<Event>, spec: WindowSpec, cursor: u64, wm: u64, c: u64)
    requires spec.advance > 0 && cursor % spec.advance == 0 && cursor <= wm
    requires Exits(cursor, spec.advance, wm) && c == NextEnd(wm, spec.advance) - U64_LIMIT
    requires Agrees(buffer, h, spec, cursor)
    ensures Exits(c, spec.advance, wm)
    ensures FireUpTo(buffer, spec, cursor, wm) == Firings(h, spec, cursor, wm + 1) + FireUpTo(buffer, spec, c, wm)
    decreases wm - cursor
  {
    hide Exits, Agrees, Window, FiredAt, FiringOf, NextEnd, WrapAdd;
    var a := spec.advance;
    ExitStep(cursor, a, wm);
    WrapStep(cursor, a, wm, c);
    AgreesFiredAt(buffer, h, spec, cursor);
    var fired, next := FiredAt(buffer, spec, cursor), WrapAdd(cursor, a);
    if cursor + a <= wm {
      AgreesLater(buffer, h, spec, cursor, next);
      FiresAndWraps(buffer, h, spec, next, wm, c);
      SeqAssoc(fired, Firings(h, spec, next, wm + 1), FireUpTo(buffer, spec, c, wm));
    } else {
      assert Firings(h, spec, cursor + a, wm + 1) == [];
      assert fired + [] == fired;
    }
  }

  lemma WrapStep(cursor: u64, a: u64, wm: u64, c: u64)
    requires a > 0 && cursor % a == 0 && cursor <= wm && c == NextEnd(wm, a) - U64_LIMIT
    ensures if cursor + a <= wm then WrapAdd(cursor, a) == cursor + a && (cursor + a) % a == 0
            else WrapAdd(cursor, a) == c
  {
    hide NextEnd;
    MultipleStep(cursor, a);
    if cursor + a > wm { MultipleCap(cursor, wm, a); }
  }

  lemma FiredAtOne(e: Event, spec: WindowSpec, end: int)
    ensures FiredAt([e], spec, end)
            == if StartOf(end, spec.size) <= e.ts < end then [Firing(end, [e])] else []
  {
    assert Between([e][1..], StartOf(end, spec.size), end) == [] && [e] + [] == [e];
  }

  lemma AgreesWithOne(e: Event, spec: WindowSpec, cursor: int)
    ensures Agrees([e], [e], spec, cursor) && Arrange([e]) == [e]
  {
    assert [e][..0] == [] && Arrange([]) == [];
  }

  /**
   * Once the cursor wraps it fires window ends that are none: whenever the loop ends although the
   * next window end is no u64, every event right below the wrapped cursor `c` is handed out in a
   * window whose end is not a multiple of `advance`.
   */
  lemma WrappedCursorFires(e: Event, spec: WindowSpec, cursor: u64, wm: u64, c: u64)
    requires spec.advance > 0 && cursor % spec.advance == 0 && cursor <= wm
    requires Exits(cursor, spec.advance, wm) && c == NextEnd(wm, spec.advance) - U64_LIMIT
    requires StartOf(c, spec.size) <= e.ts < c
    ensures c % spec.advance != 0 && Exits(c, spec.advance, wm)
    ensures FireUpTo([e], spec, cursor, wm) == Firings([e], spec, cursor, wm + 1) + FireUpTo([e], spec, c, wm)
    ensures Firing(c, [e]) in FireUpTo([e], spec, c, wm)
    ensures Firing(c, [e]) in FireUpTo([e], spec, cursor, wm)
  {
    hide Exits, Agrees, NextEnd, FireUpTo, Firings;
    AgreesWithOne(e, spec, cursor);
    WrapsBetween(cursor, spec.advance, wm);
    FiresAndWraps([e], [e], spec, cursor, wm, c);
    FiresFirst(e, spec, c, wm);
  }

  lemma FiresFirst(e: Event, spec: WindowSpec, c: u64, wm: u64)
    requires Exits(c, spec.advance, wm) && c <= wm && StartOf(c, spec.size) <= e.ts < c
    ensures Firing(c, [e]) in FireUpTo([e], spec, c, wm)
  {
    hide Exits;
    ExitStep(c, spec.advance, wm);
    FiredAtOne(e, spec, c);
  }

  /** Without wrapping every buffer's windows end at multiples. */
  lemma {:induction false} FiresMultiples(buffer: seq<Event>, spec: WindowSpec, cursor: u64, wm: u64)
    requires spec.advance > 0 && cursor % spec.advance == 0
    requires Exits(cursor, spec.advance, wm) && NextEnd(wm, spec.advance) < U64_LIMIT
    ensures forall f :: f in FireUpTo(buffer, spec, cursor, wm) ==> f.end % spec.advance == 0
    decreases wm + 1 - cursor
  {
    hide Exits, NextEnd, Between;
    if cursor <= wm {
      ExitStep(cursor, spec.advance, wm);
      var next := NoWrapStep(cursor, spec.advance, wm);
      FiresMultiples(buffer, spec, next, wm);
    }
  }

  /**
   * Whatever is in the buffer, a watermark fires only windows whose ends are multiples of
   * `advance`, if and only if the next window end is a u64.
   */
  lemma FiresMultiplesExactly(spec: WindowSpec, cursor: u64, wm: u64, payload: Record)
    requires spec.advance > 0 && spec.size > 0 && cursor % spec.advance == 0 && cursor <= wm
    requires Exits(cursor, spec.advance, wm)
    ensures NextEnd(wm, spec.advance) < U64_LIMIT
            <==> forall buffer, f :: f in FireUpTo(buffer, spec, cursor, wm) ==> f.end % spec.advance == 0
  {
    hide Exits, NextEnd, FireUpTo;
    if NextEnd(wm, spec.advance) < U64_LIMIT {
      forall buffer, f | f in FireUpTo(buffer, spec, cursor, wm)
        ensures f.end % spec.advance == 0
      {
        FiresMultiples(buffer, spec, cursor, wm);
      }
    } else {
      WrapsBetween(cursor, spec.advance, wm);
      var c: u64 := NextEnd(wm, spec.advance) - U64_LIMIT;
      var e := Event(payload, StartOf(c, spec.size));
      WrappedCursorFires(e, spec, cursor, wm, c);
      assert Firing(c, [e]).end % spec.advance != 0;
    }
  }

  // ---------- whole runs ----------

  /**
   * The run hangs, or hands out the events of `extra` on top of what the reference hands out: among
   * them a window `f` that holds `e` and ends at no multiple, or where one has ended before.
   */
  ghost predicate Misfires(spec: WindowSpec, trace: seq<Element>, e: Event, f: Firing, extra: seq<Firing>)
    requires spec.advance > 0
  {
    var ref := RefRun(spec, trace);
    && RefRunAndClose(spec, trace) == ref.fired
    && (RunAndClose(spec, trace).Done? ==>
          && RunAndClose(spec, trace).value == ref.fired + extra
          && f in extra && e in f.events
          && (f.end % spec.advance != 0 || exists g :: g in ref.fired && g.end == f.end))
  }

  lemma {:induction false} CopiesAtLeast(fired: seq<Firing>, f: Firing, x: Event)
    requires f in fired
    ensures Copies(fired, x) >= multiset(f.events)[x]
  {
    if f != fired[0] { CopiesAtLeast(fired[1..], f, x); }
  }

  /** Such a run is wrong by every measure. */
  lemma MisfireIsWrong(
    spec: WindowSpec, trace: seq<Element>, e: Event, f: Firing, extra: seq<Firing>)
    requires spec.advance > 0 && Misfires(spec, trace, e, f, extra)
    ensures RunAndClose(spec, trace) != Done(RefRunAndClose(spec, trace))
    ensures RunAndClose(spec, trace).Done? ==>
              && !Regular(RunAndClose(spec, trace).value, spec)
              && Copies(RunAndClose(spec, trace).value, e) > Expected(spec, trace, e)
  {
    hide RefRun, RunAndClose, RefRunAndClose, Copies, Expected;
    var before := RefRun(spec, trace).fired;
    if RunAndClose(spec, trace).Done? {
      ReferenceMultiplicity(spec, trace, e);
      CopiesAtLeast(extra, f, e);
      CopiesConcat(before, extra, e);
      var all := RunAndClose(spec, trace).value;
      var j :| 0 <= j < |extra| && extra[j] == f;
      assert all[|before| + j] == f;
      if f.end % spec.advance == 0 {
        var g :| g in before && g.end == f.end;
        var i :| 0 <= i < |before| && before[i] == g;
        assert all[i] == g;
      }
    }
  }

  lemma {:induction false} RunStep(spec: WindowSpec, front: seq<Element>, elem: Element)
    ensures Run(spec, front + [elem])
            == match Run(spec, front)
               case Hang => Hang
               case Done((tw, fired)) =>
                 (match AfterElement(tw, spec, elem)
                  case Hang => Hang
                  case Done((tw', more)) => Done((tw', fired + more)))
    ensures spec.advance > 0 ==>
              RefRun(spec, front + [elem])
              == match elem
                 case Data(e) => RefRun(spec, front).(history := RefRun(spec, front).history + [e])
                 case Mark(wm) => AfterMark(RefRun(spec, front), spec, wm)
  {
    assert (front + [elem])[..|front|] == front;
  }

  lemma RunOfOne(spec: WindowSpec, e: Event)
    ensures Run(spec, [Data(e)]) == Done((TimeWindow([e], spec.advance, true), []))
    ensures spec.advance > 0 ==> RefRun(spec, [Data(e)]) == Reference([e], spec.advance, [])
  {
    var nothing: seq<Element>, none: seq<Firing>, start: seq<Event> := [], [], [];
    RunStep(spec, nothing, Data(e));
    assert nothing + [Data(e)] == [Data(e)] && none + none == none;
    assert start + [e] == [e] && [e] + start == [e];
    assert Run(spec, nothing) == Done((FRESH, none));
    assert Inserted(start, e) == [e] + start;
  }

  lemma OneIsLast(e: Event, spec: WindowSpec)
    ensures LastEnd([e], spec) == LastEnd([e, e], spec) == e.ts + spec.size
  {
    assert [e, e] == [e] + [e] && [e] == [] + [e];
    MaxTsAppend([e], e);
    MaxTsAppend([], e);
  }

  /** An event and then a watermark. */
  lemma RunOfTwo(spec: WindowSpec, e: Event, wm: u64)
    ensures var trace, a := [Data(e), Mark(wm)], spec.advance;
            && (a > 0 ==> RefRun(spec, trace) == AfterMark(Reference([e], a, []), spec, wm))
            && (Exits(a, a, wm) <==> Run(spec, trace).Done?)
            && (Exits(a, a, wm) ==>
                  var top := PastMark(spec, a, wm);
                  Run(spec, trace)
                  == Done((TimeWindow(Cleaned([e], spec, top), top, true), FireUpTo([e], spec, a, wm))))
  {
    hide Exits, FireUpTo, PastMark, Cleaned, AfterMark;
    assert [Data(e), Mark(wm)] == [Data(e)] + [Mark(wm)];
    RunStep(spec, [Data(e)], Mark(wm));
    RunOfOne(spec, e);
    if Exits(spec.advance, spec.advance, wm) {
      assert [] + FireUpTo([e], spec, spec.advance, wm) == FireUpTo([e], spec, spec.advance, wm);
    }
  }

  /** When no window to come can hold an event of the history, the reference's close adds nothing. */
  lemma ReferenceIsDone(spec: WindowSpec, trace: seq<Element>)
    requires spec.advance > 0 && RefRun(spec, trace).cursor > LastEnd(RefRun(spec, trace).history, spec)
    ensures RefRunAndClose(spec, trace) == RefRun(spec, trace).fired
  {
    hide RefRun, Firings, MaxTs;
    var ref := RefRun(spec, trace);
    FiringsBeyond(ref.history, spec, ref.cursor, LastEnd(ref.history, spec) + 1);
    assert ref.fired + [] == ref.fired;
  }

  /** If the first window end above the horizon is no u64, a watermark goes wrong or never ends. */
  lemma MisfireByMark(spec: WindowSpec, horizon: u64, payload: Record)
    returns (trace: seq<Element>, e: Event, f: Firing, extra: seq<Firing>)
    requires spec.advance > 0 && 0 < spec.size <= horizon && Top(spec, horizon) >= U64_LIMIT
    ensures Within(spec, trace, horizon) && NoLateEvents(trace) && Misfires(spec, trace, e, f, extra)
  {
    hide Exits, FireUpTo, NextEnd, Firings, RefRun, Run, RefRunAndClose, MaxTs, AfterClose, PastMark, Cleaned;
    var a, c := spec.advance, Top(spec, horizon) - U64_LIMIT;
    TopFacts(spec, horizon);
    MarkIsDue(spec, horizon);
    e := Event(payload, StartOf(c, spec.size));
    trace := [Data(e), Mark(horizon)];
    f, extra := Firing(c, [e]), [];
    RunOfTwo(spec, e, horizon);
    OneIsLast(e, spec);
    var ref := RefRun(spec, trace);
    assert ref.fired == [] + Firings([e], spec, a, horizon + 1) == Firings([e], spec, a, horizon + 1);
    ReferenceIsDone(spec, trace);
    if Exits(a, a, horizon) {
      WrapsBetween(a, a, horizon);
      WrappedCursorFires(e, spec, a, horizon, c);
      extra := FireUpTo([e], spec, c, horizon);
      var closed := AfterClose(Run(spec, trace).value.0, spec);
      if closed.Done? {
        SeqAssoc(ref.fired, extra, closed.value.1);
        extra := extra + closed.value.1;
      }
    }
  }

  lemma MarkIsDue(spec: WindowSpec, horizon: u64)
    requires spec.advance > 0 && Top(spec, horizon) >= U64_LIMIT
    ensures spec.advance <= horizon && spec.advance % spec.advance == 0
  {
    DivModUnique(spec.advance, 1, 0, spec.advance);
    if spec.advance > horizon {
      MultipleAbove(spec.advance, horizon, spec.advance);
    }
  }

  /** A flush that comes to a value just above the event fires a window that ends there. */
  lemma {:induction false} FlushFires(e: Event, spec: WindowSpec, cursor: u64, first: u64)
    requires spec.advance > 0 && cursor <= first && (first - cursor) % spec.advance == 0
    requires StartOf(first, spec.size) <= e.ts < first
    requires FlushExits([e], spec, cursor)
    ensures Firing(first, [e]) in Flush([e], spec, cursor)
    decreases first - cursor
  {
    hide FlushExits, Cleaned;
    var a := spec.advance;
    FlushStep([e], spec, cursor);
    var next := WrapAdd(cursor, a);
    assert Flush([e], spec, cursor) == FiredAt([e], spec, cursor) + Flush(Cleaned([e], spec, next), spec, next);
    if cursor == first {
      FiredAtOne(e, spec, cursor);
    } else {
      MultipleStep(first - cursor, a);
      MultipleBelow(first - cursor, 0, a);
      CleanedOne(e, spec, next);
      FlushFires(e, spec, next, first);
    }
  }

  lemma CleanedOne(e: Event, spec: WindowSpec, cursor: u64)
    ensures Cleaned([e], spec, cursor) == if StartOf(cursor, spec.size) <= e.ts then [e] else []
  {
    assert [e][1..] == [] && [e] + [] == [e];
    assert Between([], StartOf(cursor, spec.size), U64_LIMIT) == [];
  }

  /** The window that ends at a multiple the cursor has passed has been fired with the event in it. */
  lemma FiredBefore(e: Event, spec: WindowSpec, end: int, wm: int)
    requires spec.advance > 0 && end % spec.advance == 0 && spec.advance <= end <= wm
    requires StartOf(end, spec.size) <= e.ts < end
    ensures exists g :: g in Firings([e], spec, spec.advance, wm + 1) && g.end == end
  {
    hide Window, Firings;
    DivModUnique(spec.advance, 1, 0, spec.advance);
    WindowMembers([e], StartOf(end, spec.size), end, e);
    assert multiset([e])[e] == 1;
    var w := Window([e], StartOf(end, spec.size), end);
    assert w != [];
    FiringsComplete([e], spec, spec.advance, wm + 1, end);
    assert Firing(end, w).end == end;
  }

  /** An event, the watermark that brings the cursor to Top, and the event once more. */
  lemma RunToTop(spec: WindowSpec, horizon: u64, e: Event, wm: u64, top: u64)
    requires spec.advance > 0 && e.ts + spec.size <= horizon
    requires top == Top(spec, horizon) == wm + spec.advance
    ensures var trace, fired := [Data(e), Mark(wm), Data(e)], Firings([e], spec, spec.advance, wm + 1);
            && RefRun(spec, trace) == Reference([e, e], top, fired)
            && Run(spec, trace) == Done((TimeWindow([e], top, true), fired))
  {
    hide Exits, FireUpTo, NextEnd, Firings, MaxTs, PastMark, Cleaned, Top, AfterMark, Run, RefRun;
    var a := spec.advance;
    TopFacts(spec, horizon);
    MarkToTop(spec, horizon, e, wm);
    RunOfTwo(spec, e, wm);
    CleanedPast([e], spec, top);
    var front, fired := [Data(e), Mark(wm)], Firings([e], spec, a, wm + 1);
    assert [Data(e), Mark(wm), Data(e)] == front + [Data(e)];
    RunStep(spec, front, Data(e));
    assert fired + [] == fired && [e] + [] == [e] && [e] + [e] == [e, e];
    assert Inserted([], e) == [e] + [];
  }

  lemma MarkToTop(spec: WindowSpec, horizon: u64, e: Event, wm: u64)
    requires spec.advance > 0 && Top(spec, horizon) < U64_LIMIT && wm == Top(spec, horizon) - spec.advance
    ensures Exits(spec.advance, spec.advance, wm)
    ensures FireUpTo([e], spec, spec.advance, wm) == Firings([e], spec, spec.advance, wm + 1)
    ensures PastMark(spec, spec.advance, wm) == Top(spec, horizon)
    ensures AfterMark(Reference([e], spec.advance, []), spec, wm)
            == Reference([e], Top(spec, horizon), Firings([e], spec, spec.advance, wm + 1))
  {
    hide Exits, FireUpTo, NextEnd, Firings, PastMark;
    var a, top := spec.advance, Top(spec, horizon);
    TopFacts(spec, horizon);
    MultipleStep(top, a);
    MultipleCap(wm, wm, a);
    DivModUnique(a, 1, 0, a);
    AgreesWithOne(e, spec, a);
    FireUpToMatches([e], [e], spec, a, wm);
    NoneDueYet(e, spec, wm);
    if a > wm && top > a { MultipleBelow(top, a, a); }
    assert [] + Firings([e], spec, a, wm + 1) == Firings([e], spec, a, wm + 1);
  }

  lemma NoneDueYet(e: Event, spec: WindowSpec, wm: u64)
    requires spec.advance > 0
    ensures wm < spec.advance ==> Firings([e], spec, spec.advance, wm + 1) == []
  {}

  /** If the cursor wraps from Top to values that do not pass the event by, the flush goes wrong. */
  lemma MisfireByFlush(spec: WindowSpec, lo: int, horizon: u64, payload: Record)
    returns (trace: seq<Element>, e: Event, f: Firing, extra: seq<Firing>)
    requires spec.advance > 0 && 0 < spec.size && Top(spec, horizon) < U64_LIMIT && !Fits(spec, lo, horizon)
    requires 0 <= lo && lo % spec.advance == 0 && lo + spec.advance <= Top(spec, horizon)
    requires lo + spec.size <= horizon
    ensures Within(spec, trace, horizon) && Misfires(spec, trace, e, f, extra)
    ensures lo == Top(spec, horizon) - spec.advance ==> NoLateEvents(trace)
  {
    hide Firings, RefRun, Run, RefRunAndClose, MaxTs, Flush, FlushExits, NextEnd;
    var a, top := spec.advance, Top(spec, horizon);
    TopFacts(spec, horizon);
    WrappedStart(spec, lo, horizon);
    var c, first := Wrapped(spec, horizon), FirstAbove(spec, lo, horizon);
    var start := StartOf(first, spec.size);
    e := Event(payload, if start < lo then lo else start);
    var wm: u64 := top - a;
    trace := [Data(e), Mark(wm), Data(e)];
    f, extra := Firing(first, [e]), [];
    RunToTop(spec, horizon, e, wm, top);
    OneIsLast(e, spec);
    ReferenceIsDone(spec, trace);
    FirstIsWrong(spec, lo, horizon, e);
    if FlushExits([e], spec, top) {
      extra := Flush([e], spec, top);
      FlushFromTopFires(e, spec, top, c, first);
    }
  }

  lemma FlushFromTopFires(e: Event, spec: WindowSpec, top: u64, c: u64, first: u64)
    requires spec.advance > 0 && c == WrapAdd(top, spec.advance) <= first && (first - c) % spec.advance == 0
    requires StartOf(first, spec.size) <= e.ts < first
    requires FlushExits([e], spec, top)
    ensures Firing(first, [e]) in Flush([e], spec, top)
  {
    hide FlushExits, Cleaned;
    FlushStep([e], spec, top);
    CleanedOne(e, spec, c);
    assert Flush([e], spec, top) == FiredAt([e], spec, top) + Flush(Cleaned([e], spec, c), spec, c);
    FlushFires(e, spec, c, first);
  }

  /** The first value above `lo` is no multiple of `advance`, or one whose window has fired before. */
  lemma FirstIsWrong(spec: WindowSpec, lo: int, horizon: u64, e: Event)
    requires spec.advance > 0 && Top(spec, horizon) < U64_LIMIT <= Top(spec, horizon) + spec.advance
    requires 0 <= lo && lo % spec.advance == 0 && lo + spec.advance <= Top(spec, horizon)
    requires var first := FirstAbove(spec, lo, horizon);
             first <= horizon && StartOf(first, spec.size) <= e.ts < first
    ensures var (first, top, a) := (FirstAbove(spec, lo, horizon), Top(spec, horizon), spec.advance);
            first % a != 0 || exists g :: g in Firings([e], spec, a, top - a + 1) && g.end == first
  {
    hide Firings, NextEnd;
    var a, c, first, top := spec.advance, Wrapped(spec, horizon), FirstAbove(spec, lo, horizon), Top(spec, horizon);
    TopFacts(spec, horizon);
    WrappedStart(spec, lo, horizon);
    if c > 0 {
      DivModUnique(first, lo / a, c, a);
    } else {
      MultipleStep(lo, a);
      MultipleBelow(top, first, a);
      FiredBefore(e, spec, first, top - a);
    }
  }

  // ---------- when runs end ----------

  lemma StepDivides(a: u64)
    ensures 1 <= Step(a) <= U64_LIMIT && a % Step(a) == 0
  {
    StepFacts(a);
    var x: nat :| a == x * Step(a);
    DivModUnique(a, x, 0, Step(a));
  }

  /** No run ever changes the residue of the cursor modulo gcd(advance, 2^64), which is zero. */
  lemma {:induction false} PastMarkOnGrid(spec: WindowSpec, cursor: u64, wm: u64)
    requires Exits(cursor, spec.advance, wm)
    ensures Step(spec.advance) >= 1
    ensures cursor % Step(spec.advance) == 0 ==> PastMark(spec, cursor, wm) % Step(spec.advance) == 0
    decreases ExitCount(cursor, spec.advance, wm)
  {
    hide Exits, Grain;
    StepDivides(spec.advance);
    if cursor <= wm {
      ExitStep(cursor, spec.advance, wm);
      AdvanceKeepsResidue(cursor, spec.advance, 1);
      assert Advance(cursor, spec.advance, 1) == Advance(WrapAdd(cursor, spec.advance), spec.advance, 0);
      PastMarkOnGrid(spec, WrapAdd(cursor, spec.advance), wm);
    }
  }

  ghost predicate OnGrid(tw: TimeWindow, spec: WindowSpec, horizon: u64) {
    && (tw.initialized ==> Step(spec.advance) >= 1 && tw.cursor % Step(spec.advance) == 0)
    && (forall e :: e in tw.buffer ==> e.ts + spec.size <= horizon)
  }

  lemma {:induction false} RunStaysOnGrid(spec: WindowSpec, trace: seq<Element>, horizon: u64)
    requires Within(spec, trace, horizon) && horizon < U64_LIMIT - Step(spec.advance)
    ensures Run(spec, trace).Done? && OnGrid(Run(spec, trace).value.0, spec, horizon)
  {
    hide Grain, Exits, PastMark, FireUpTo, Cleaned;
    StepDivides(spec.advance);
    if trace != [] {
      var front, elem := trace[..|trace| - 1], trace[|trace| - 1];
      RunStaysOnGrid(spec, front, horizon);
      var tw := Run(spec, front).value.0;
      match elem {
        case Data(e) => InsertedMembers(tw.buffer, e);
        case Mark(wm) =>
          if tw.initialized {
            ExitsOnGrid(tw.cursor, spec.advance, wm);
            PastMarkOnGrid(spec, tw.cursor, wm);
            CleanedMembers(tw.buffer, spec, PastMark(spec, tw.cursor, wm));
          }
      }
    }
  }

  lemma ExitsOnGrid(c: u64, a: u64, bound: int)
    requires Step(a) >= 1 && c % Step(a) == 0
    ensures Exits(c, a, bound) <==> bound < U64_LIMIT - Step(a)
  {}

  /**
   * For every window, an advance of zero included: all runs with timestamps plus size and watermarks
   * up to a horizon come to an end, close included, if and only if the horizon is below
   * 2^64 - gcd(advance, 2^64), or too small to admit any event.
   */
  lemma RunEndsExactly(spec: WindowSpec, horizon: u64, payload: Record)
    ensures horizon < spec.size || horizon < U64_LIMIT - Step(spec.advance)
            <==> forall trace :: Within(spec, trace, horizon) ==> RunAndClose(spec, trace).Done?
  {
    hide Run, Grain, Exits, MaxTs, FireUpTo;
    if horizon < spec.size {
      forall trace | Within(spec, trace, horizon)
        ensures RunAndClose(spec, trace).Done?
      {
        NoEvents(spec, trace, horizon);
      }
    } else if horizon < U64_LIMIT - Step(spec.advance) {
      forall trace | Within(spec, trace, horizon)
        ensures RunAndClose(spec, trace).Done?
      {
        RunStaysOnGrid(spec, trace, horizon);
        var tw := Run(spec, trace).value.0;
        if tw.initialized && tw.buffer != [] {
          MaxTsBounds(tw.buffer);
          ExitsOnGrid(tw.cursor, spec.advance, MaxTs(tw.buffer) + spec.size);
        }
      }
    } else {
      var trace := HangsByMark(spec, horizon, payload);
      assert !RunAndClose(spec, trace).Done?;
    }
  }

  /** An event and a watermark that the cursor never exceeds. */
  lemma HangsByMark(spec: WindowSpec, horizon: u64, payload: Record)
    returns (trace: seq<Element>)
    requires spec.size <= horizon && horizon >= U64_LIMIT - Step(spec.advance)
    ensures Within(spec, trace, horizon) && NoLateEvents(trace) && RunAndClose(spec, trace).Hang?
  {
    hide Run, Grain, Exits, FireUpTo;
    StepDivides(spec.advance);
    ExitsOnGrid(spec.advance, spec.advance, horizon);
    var e := Event(payload, 0);
    trace := [Data(e), Mark(horizon)];
    RunOfTwo(spec, e, horizon);
  }

  /** Below the size of a window the horizon admits no event, and without events nothing happens. */
  lemma {:induction false} NoEvents(spec: WindowSpec, trace: seq<Element>, horizon: u64)
    requires Within(spec, trace, horizon) && horizon < spec.size
    ensures Run(spec, trace) == Done((FRESH, [])) && RunAndClose(spec, trace) == Done([])
    ensures spec.advance > 0 ==> RefRun(spec, trace) == Reference([], spec.advance, [])
  {
    var none: seq<Firing> := [];
    assert none + none == none;
    if trace != [] {
      NoEvents(spec, trace[..|trace| - 1], horizon);
    }
  }

  // ---------- windows of size zero ----------

  lemma EmptyWindow(events: seq<Event>, end: int)
    ensures Between(events, StartOf(end, 0), end) == []
  {
    BetweenNone(events, StartOf(end, 0), end);
  }

  lemma {:induction false} NothingFires(buffer: seq<Event>, spec: WindowSpec, cursor: u64, wm: u64)
    requires spec.size == 0 && Exits(cursor, spec.advance, wm)
    ensures FireUpTo(buffer, spec, cursor, wm) == []
    decreases ExitCount(cursor, spec.advance, wm)
  {
    hide Exits, Between;
    ExitStep(cursor, spec.advance, wm);
    if cursor <= wm {
      EmptyWindow(buffer, cursor);
      NothingFires(buffer, spec, WrapAdd(cursor, spec.advance), wm);
    }
  }

  lemma {:induction false} NothingFlushed(buffer: seq<Event>, spec: WindowSpec, cursor: u64)
    requires spec.size == 0 && FlushExits(buffer, spec, cursor)
    ensures Flush(buffer, spec, cursor) == []
    decreases FlushRounds(buffer, spec, cursor)
  {
    hide Exits, Between, Cleaned;
    if buffer != [] {
      FlushStep(buffer, spec, cursor);
      EmptyWindow(buffer, cursor);
      var next := WrapAdd(cursor, spec.advance);
      NothingFlushed(Cleaned(buffer, spec, next), spec, next);
      assert Flush(buffer, spec, cursor)
          == FiredAt(buffer, spec, cursor) + Flush(Cleaned(buffer, spec, next), spec, next);
    }
  }

  lemma {:induction false} NothingInRun(spec: WindowSpec, trace: seq<Element>)
    requires spec.size == 0 && Run(spec, trace).Done?
    ensures Run(spec, trace).value.1 == []
  {
    hide Exits, FireUpTo, PastMark;
    var none: seq<Firing> := [];
    assert none + none == none;
    if trace != [] {
      NothingInRun(spec, trace[..|trace| - 1]);
      var tw, elem := Run(spec, trace[..|trace| - 1]).value.0, trace[|trace| - 1];
      if elem.Mark? && tw.initialized { NothingFires(tw.buffer, spec, tw.cursor, elem.ts); }
    }
  }

  lemma {:induction false} NothingInReference(h: seq<Event>, spec: WindowSpec, from: int, until: int)
    requires spec.size == 0 && spec.advance > 0
    ensures Firings(h, spec, from, until) == []
    decreases until - from
  {
    hide Window;
    if from < until {
      EmptyWindow(Arrange(h), from);
      QueryIsWindow(h, StartOf(from, 0), from);
      NothingInReference(h, spec, from + spec.advance, until);
    }
  }

  lemma {:induction false} NothingInReferenceRun(spec: WindowSpec, trace: seq<Element>)
    requires spec.size == 0 && spec.advance > 0
    ensures RefRun(spec, trace).fired == [] && RefRunAndClose(spec, trace) == []
  {
    hide Firings, MaxTs;
    var none: seq<Firing> := [];
    assert none + none == none;
    if trace != [] {
      NothingInReferenceRun(spec, trace[..|trace| - 1]);
      var before, elem := RefRun(spec, trace[..|trace| - 1]), trace[|trace| - 1];
      if elem.Mark? { NothingInReference(before.history, spec, before.cursor, elem.ts + 1); }
    }
    var ref := RefRun(spec, trace);
    NothingInReference(ref.history, spec, ref.cursor, LastEnd(ref.history, spec) + 1);
  }

  lemma EmptyWindowsAgree(spec: WindowSpec, trace: seq<Element>)
    requires spec.size == 0 && spec.advance > 0 && RunAndClose(spec, trace).Done?
    ensures RunAndClose(spec, trace) == Done(RefRunAndClose(spec, trace))
  {
    hide Run, RefRunAndClose, Flush, FlushExits;
    var none: seq<Firing> := [];
    assert none + none == none;
    NothingInRun(spec, trace);
    NothingInReferenceRun(spec, trace);
    var tw := Run(spec, trace).value.0;
    if tw.initialized { NothingFlushed(tw.buffer, spec, tw.cursor); }
  }

  // ---------- the exact range ----------

  ghost predicate RunIsReference(spec: WindowSpec, trace: seq<Element>)
    requires spec.advance > 0
  {
    RunAndClose(spec, trace) == Done(RefRunAndClose(spec, trace))
  }

  ghost predicate RunIsRegular(spec: WindowSpec, trace: seq<Element>)
    requires spec.advance > 0
  {
    RunAndClose(spec, trace).Done? && Regular(RunAndClose(spec, trace).value, spec)
  }

  ghost predicate RunCounts(spec: WindowSpec, trace: seq<Element>, e: Event)
    requires spec.advance > 0
  {
    RunAndClose(spec, trace).Done? && Copies(RunAndClose(spec, trace).value, e) == Expected(spec, trace, e)
  }

  /** What a caller has to check: a window of size zero is always empty and only has to end. */
  predicate RangeFits(spec: WindowSpec, horizon: u64)
    requires spec.advance > 0
  {
    || horizon < spec.size
    || (if spec.size == 0 then horizon < U64_LIMIT - Step(spec.advance) else Fits(spec, 0, horizon))
  }

  lemma RightInRange(spec: WindowSpec, trace: seq<Element>, horizon: u64, payload: Record)
    requires spec.advance > 0 && RangeFits(spec, horizon) && Within(spec, trace, horizon)
    ensures RunIsReference(spec, trace)
  {
    hide RunAndClose, RefRunAndClose, Fits, Grain;
    if horizon < spec.size {
      NoEvents(spec, trace, horizon);
      NothingInEmpty(spec, trace);
    } else if spec.size == 0 {
      RunEndsExactly(spec, horizon, payload);
      EmptyWindowsAgree(spec, trace);
    } else {
      CleanupIsUnobservable(spec, trace, horizon);
    }
  }

  lemma NothingInEmpty(spec: WindowSpec, trace: seq<Element>)
    requires spec.advance > 0 && RefRun(spec, trace) == Reference([], spec.advance, [])
    ensures RefRunAndClose(spec, trace) == []
  {
    hide RefRun, Firings;
    FiringsOfNothing(spec, spec.advance);
  }

  /** Outside the range some run hangs or misfires. */
  lemma WrongOutOfRange(spec: WindowSpec, horizon: u64, payload: Record)
    returns (trace: seq<Element>, e: Event)
    requires spec.advance > 0 && !RangeFits(spec, horizon)
    ensures Within(spec, trace, horizon)
    ensures !RunIsReference(spec, trace) && !RunIsRegular(spec, trace) && !RunCounts(spec, trace, e)
  {
    hide RunAndClose, RefRunAndClose, Regular, Copies, Expected, Misfires, Top, Grain;
    e := Event(payload, 0);
    if spec.size == 0 {
      RunEndsExactly(spec, horizon, payload);
      trace :| Within(spec, trace, horizon) && !RunAndClose(spec, trace).Done?;
    } else {
      var f, extra;
      TopFacts(spec, horizon);
      if Top(spec, horizon) >= U64_LIMIT {
        trace, e, f, extra := MisfireByMark(spec, horizon, payload);
      } else {
        trace, e, f, extra := MisfireByFlush(spec, 0, horizon, payload);
      }
      MisfireIsWrong(spec, trace, e, f, extra);
    }
  }

  /**
   * The range is exact. What CleanupIsUnobservable, NoWindowFiresTwice and EventMultiplicity say,
   * each of them, holds for all events and watermarks up to a horizon if and only if RangeFits.
   */
  lemma RangeIsExact(spec: WindowSpec, horizon: u64, payload: Record)
    requires spec.advance > 0
    ensures RangeFits(spec, horizon)
            <==> forall trace :: Within(spec, trace, horizon) ==> RunIsReference(spec, trace)
    ensures RangeFits(spec, horizon)
            <==> forall trace :: Within(spec, trace, horizon) ==> RunIsRegular(spec, trace)
    ensures RangeFits(spec, horizon)
            <==> forall trace, e :: Within(spec, trace, horizon) ==> RunCounts(spec, trace, e)
  {
    hide RunAndClose, RefRunAndClose, Regular, Copies, Expected, RangeFits;
    if RangeFits(spec, horizon) {
      forall trace | Within(spec, trace, horizon)
        ensures RunIsReference(spec, trace) && RunIsRegular(spec, trace)
        ensures forall e :: RunCounts(spec, trace, e)
      {
        RightInRange(spec, trace, horizon, payload);
        ReferenceIsRegular(spec, trace);
        forall e
          ensures RunCounts(spec, trace, e)
        {
          ReferenceMultiplicity(spec, trace, e);
        }
      }
    } else {
      var trace, e := WrongOutOfRange(spec, horizon, payload);
    }
  }

  ghost predicate RunIsBatch(spec: WindowSpec, trace: seq<Element>)
    requires spec.advance > 0
  {
    RunAndClose(spec, trace) == Done(Batch(spec, EventsOf(trace)))
  }

  ghost predicate RunCountsFloors(spec: WindowSpec, trace: seq<Element>, e: Event)
    requires spec.advance > 0
  {
    && RunAndClose(spec, trace).Done?
    && Copies(RunAndClose(spec, trace).value, e)
       == multiset(EventsOf(trace))[e] * ((e.ts + spec.size) / spec.advance - e.ts / spec.advance)
  }

  /** What a caller has to check when no event is late. */
  predicate BatchRangeFits(spec: WindowSpec, horizon: u64)
    requires spec.advance > 0
  {
    || horizon < spec.size
    || (if spec.size == 0 then horizon < U64_LIMIT - Step(spec.advance) else BatchFits(spec, horizon))
  }

  /** Likewise for inputs without late events: BatchEquivalence and MultiplicityWithoutLateness. */
  lemma BatchRangeIsExact(spec: WindowSpec, horizon: u64, payload: Record)
    requires spec.advance > 0
    ensures BatchRangeFits(spec, horizon)
            <==> forall trace :: Within(spec, trace, horizon) && NoLateEvents(trace) ==> RunIsBatch(spec, trace)
    ensures BatchRangeFits(spec, horizon)
            <==> forall trace, e :: Within(spec, trace, horizon) && NoLateEvents(trace) ==>
                                      RunCountsFloors(spec, trace, e)
  {
    hide RunAndClose, RefRunAndClose, Copies, Batch, NoLateEvents, EventsOf, BatchRangeFits;
    if BatchRangeFits(spec, horizon) {
      forall trace | Within(spec, trace, horizon) && NoLateEvents(trace)
        ensures RunIsBatch(spec, trace) && forall e :: RunCountsFloors(spec, trace, e)
      {
        BatchInRange(spec, trace, horizon, payload);
        forall e
          ensures RunCountsFloors(spec, trace, e)
        {
          BatchMultiplicity(spec, EventsOf(trace), e);
        }
      }
    } else {
      var trace, e := WrongOutOfBatchRange(spec, horizon, payload);
    }
  }

  lemma BatchInRange(spec: WindowSpec, trace: seq<Element>, horizon: u64, payload: Record)
    requires spec.advance > 0 && BatchRangeFits(spec, horizon)
    requires Within(spec, trace, horizon) && NoLateEvents(trace)
    ensures RunIsBatch(spec, trace)
  {
    hide RunAndClose, RefRunAndClose, BatchFits, Grain, NoLateEvents, EventsOf, Batch;
    if spec.size == 0 || horizon < spec.size {
      RightInRange(spec, trace, horizon, payload);
      ReferenceIsBatch(spec, trace);
    } else {
      BatchEquivalence(spec, trace, horizon);
    }
  }

  /** Outside that range some run without late events hangs or misfires. */
  lemma WrongOutOfBatchRange(spec: WindowSpec, horizon: u64, payload: Record)
    returns (trace: seq<Element>, e: Event)
    requires spec.advance > 0 && !BatchRangeFits(spec, horizon)
    ensures Within(spec, trace, horizon) && NoLateEvents(trace)
    ensures !RunIsBatch(spec, trace) && !RunCountsFloors(spec, trace, e)
  {
    hide RunAndClose, RefRunAndClose, Copies, Expected, Misfires, Top, Batch, NoLateEvents, EventsOf, Grain;
    e := Event(payload, 0);
    if spec.size == 0 {
      trace := HangsByMark(spec, horizon, payload);
    } else {
      var f, extra;
      TopFacts(spec, horizon);
      MultipleStep(Top(spec, horizon), spec.advance);
      if Top(spec, horizon) >= U64_LIMIT {
        trace, e, f, extra := MisfireByMark(spec, horizon, payload);
      } else {
        trace, e, f, extra := MisfireByFlush(spec, Top(spec, horizon) - spec.advance, horizon, payload);
      }
      MisfireIsWrong(spec, trace, e, f, extra);
      ReferenceIsBatch(spec, trace);
      ReferenceMultiplicity(spec, trace, e);
      BatchMultiplicity(spec, EventsOf(trace), e);
    }
  }

  // ---------- no addition wraps ----------

  /** No addition of the flush loop wraps. */
  ghost predicate FlushExact(buffer: seq<Event>, spec: WindowSpec, cursor: u64)
    requires FlushExits(buffer, spec, cursor)
    decreases FlushRounds(buffer, spec, cursor)
  {
    buffer == [] ||
    (FlushStep(buffer, spec, cursor);
     var next := WrapAdd(cursor, spec.advance);
     cursor + spec.advance < U64_LIMIT && FlushExact(Cleaned(buffer, spec, next), spec, next))
  }

  /** No addition of any watermark's loop or of the flush wraps, and all of them end. */
  ghost predicate NeverWraps(spec: WindowSpec, trace: seq<Element>) {
    && (forall i :: 0 <= i < |trace| && trace[i].Mark? ==> MarkExact(spec, trace[..i], trace[i].ts))
    && Run(spec, trace).Done?
    && var tw := Run(spec, trace).value.0;
       tw.initialized ==> FlushExits(tw.buffer, spec, tw.cursor) && FlushExact(tw.buffer, spec, tw.cursor)
  }

  ghost predicate MarkExact(spec: WindowSpec, front: seq<Element>, wm: u64) {
    && Run(spec, front).Done?
    && var tw := Run(spec, front).value.0;
       tw.initialized ==> Exits(tw.cursor, spec.advance, wm) && AdditionsExact(tw.cursor, spec.advance, wm)
  }

  lemma {:induction false} FlushIsExact(buffer: seq<Event>, spec: WindowSpec, cursor: u64, horizon: u64)
    requires spec.advance > 0 && Top(spec, horizon) + spec.advance < U64_LIMIT
    requires cursor % spec.advance == 0 && cursor <= Top(spec, horizon)
    requires forall e :: e in buffer ==> e.ts + spec.size <= horizon
    ensures FlushExits(buffer, spec, cursor) && FlushExact(buffer, spec, cursor)
    decreases Top(spec, horizon) - cursor, |buffer|
  {
    hide Exits, MaxTs, Cleaned, NextEnd;
    if buffer != [] {
      var a, top := spec.advance, Top(spec, horizon);
      TopFacts(spec, horizon);
      MaxTsBounds(buffer);
      MultipleDifference(top, cursor, a);
      ExitsBelow(cursor, a, top, MaxTs(buffer) + spec.size);
      FlushStep(buffer, spec, cursor);
      var next: u64 := cursor + a;
      assert WrapAdd(cursor, a) == next;
      MultipleStep(cursor, a);
      CleanedMembers(buffer, spec, next);
      if cursor == top {
        CleanedPast(buffer, spec, next);
      } else {
        MultipleBelow(top, cursor, a);
        FlushIsExact(Cleaned(buffer, spec, next), spec, next, horizon);
      }
    }
  }

  lemma PrefixWithin(spec: WindowSpec, trace: seq<Element>, i: nat, horizon: u64)
    requires i <= |trace| && Within(spec, trace, horizon)
    ensures Within(spec, trace[..i], horizon)
  {}

  lemma MarkIsExact(spec: WindowSpec, front: seq<Element>, wm: u64, horizon: u64)
    requires spec.advance > 0 && Top(spec, horizon) < U64_LIMIT && wm <= horizon && Within(spec, front, horizon)
    ensures MarkExact(spec, front, wm)
  {
    hide Exits, NextEnd, Agrees, Run, RefRun, AdditionsExact;
    RunMatches(spec, front, horizon);
    var tw := Run(spec, front).value.0;
    TopFacts(spec, horizon);
    MultipleAbove(Top(spec, horizon), wm, spec.advance);
    if tw.initialized {
      MultipleDifference(Top(spec, horizon), tw.cursor, spec.advance);
      ExitsBelow(tw.cursor, spec.advance, Top(spec, horizon), wm);
      NoWrapExactly(tw.cursor, spec.advance, wm);
    }
  }

  /**
   * Over every run and close with timestamps plus size and watermarks up to a horizon no addition
   * of the cursor wraps, if and only if one addition from Top does not: the flush makes it. (A
   * horizon below the size admits no event.)
   */
  lemma NeverWrapsExactly(spec: WindowSpec, horizon: u64, payload: Record)
    requires spec.advance > 0
    ensures horizon < spec.size || Top(spec, horizon) + spec.advance < U64_LIMIT
            <==> forall trace :: Within(spec, trace, horizon) ==> NeverWraps(spec, trace)
  {
    hide Run, RefRun, Agrees, NextEnd;
    if horizon < spec.size {
      forall trace: seq<Element> | Within(spec, trace, horizon)
        ensures NeverWraps(spec, trace)
      {
        forall i | 0 <= i < |trace| && trace[i].Mark?
          ensures MarkExact(spec, trace[..i], trace[i].ts)
        {
          PrefixWithin(spec, trace, i, horizon);
          NoEvents(spec, trace[..i], horizon);
        }
        NoEvents(spec, trace, horizon);
      }
    } else if Top(spec, horizon) + spec.advance < U64_LIMIT {
      forall trace: seq<Element> | Within(spec, trace, horizon)
        ensures NeverWraps(spec, trace)
      {
        forall i | 0 <= i < |trace| && trace[i].Mark?
          ensures MarkExact(spec, trace[..i], trace[i].ts)
        {
          PrefixWithin(spec, trace, i, horizon);
          MarkIsExact(spec, trace[..i], trace[i].ts, horizon);
        }
        RunMatches(spec, trace, horizon);
        var tw := Run(spec, trace).value.0;
        if tw.initialized {
          AgreesTimes(tw.buffer, RefRun(spec, trace).history, spec, tw.cursor);
          FlushIsExact(tw.buffer, spec, tw.cursor, horizon);
        }
      }
    } else {
      SomethingWraps(spec, horizon, Event(payload, 0));
    }
  }

  lemma SomethingWraps(spec: WindowSpec, horizon: u64, e: Event)
    requires spec.advance > 0 && spec.size <= horizon && e.ts == 0
    requires Top(spec, horizon) + spec.advance >= U64_LIMIT
    ensures exists trace :: Within(spec, trace, horizon) && !NeverWraps(spec, trace)
  {
    hide Run, NextEnd, Exits, AdditionsExact;
    var a, top := spec.advance, Top(spec, horizon);
    TopFacts(spec, horizon);
    if top < U64_LIMIT {
      var wm: u64 := top - a;
      RunToTop(spec, horizon, e, wm, top);
      var trace := [Data(e), Mark(wm), Data(e)];
      assert Within(spec, trace, horizon) && !NeverWraps(spec, trace);
    } else {
      MarkIsDue(spec, horizon);
      RunOfOne(spec, e);
      var trace := [Data(e), Mark(horizon)];
      assert trace[..1] == [Data(e)];
      if Exits(a, a, horizon) { NoWrapExactly(a, a, horizon); }
      assert !MarkExact(spec, trace[..1], trace[1].ts);
      assert Within(spec, trace, horizon) && !NeverWraps(spec, trace);
    }
  }
}
