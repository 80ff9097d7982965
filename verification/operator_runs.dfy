/** The whole run of a source, of a time window, and of maps and filters, as a chain of operators. */
module OperatorRuns {
  import opened Types
  import opened TimeWindows
  import opened WindowTheory
  import opened WindowBatch
  import opened Sources
  import opened Chains
  import opened Splits
  import opened Unsplit

  /** Maps that keep timestamps, and filters. */
  ghost predicate TimePreserving(op: Op) {
    op.FilterOp? || (op.MapOp? && forall e: Event :: op.transform(e).ts == e.ts)
  }

  lemma {:induction false} SourceFeeds(spec: SourceSpec, events: seq<Event>)
    ensures var (s, out) := SourceRun(spec, events);
            Feed([SourceOp(spec, NEW_SOURCE)], AsData(events)) == Wrap(SourceOp(spec, s), out)
    decreases |events|
  {
    hide Feed, AfterPull;
    var op := SourceOp(spec, NEW_SOURCE);
    if events == [] {
      FeedNothing([op]);
    } else {
      var front, e := events[..|events| - 1], events[|events| - 1];
      SourceFeeds(spec, front);
      assert AsData(events) == AsData(front) + [Data(e)];
      FeedConcat([op], AsData(front), [Data(e)]);
      var mid := SourceOp(spec, SourceRun(spec, front).0);
      FeedSingle([mid], Data(e));
      FeedOneOperator(mid, Data(e));
    }
  }

  lemma SourceRuns(spec: SourceSpec, events: seq<Event>)
    ensures RunOps([SourceOp(spec, NEW_SOURCE)], AsData(events)).Done?
    ensures RunOps([SourceOp(spec, NEW_SOURCE)], AsData(events)).value.1 == SourceRunAndClose(spec, events)
  {
    hide Feed, SourceRun;
    SourceFeeds(spec, events);
    CloseOneOperator(SourceOp(spec, SourceRun(spec, events).0));
  }

  /** The time window in a chain is the time window of WindowTheory. */
  lemma {:induction false} TimeWindowFeeds(spec: WindowSpec, func: seq<Event> -> Event, trace: seq<Element>)
    requires Run(spec, trace).Done?
    ensures var (tw, fired) := Run(spec, trace).value;
            Feed([TimeWindowOp(spec, func, FRESH)], trace)
            == Wrap(TimeWindowOp(spec, func, tw), AsData(Results(func, fired)))
    decreases |trace|
  {
    hide Feed, AfterElement, Results;
    var op := TimeWindowOp(spec, func, FRESH);
    if trace == [] {
      FeedNothing([op]);
      NoResults(func);
    } else {
      var front, last := trace[..|trace| - 1], trace[|trace| - 1];
      TimeWindowFeeds(spec, func, front);
      assert trace == front + [last];
      FeedConcat([op], front, [last]);
      var (tw, fired) := Run(spec, front).value;
      var more := AfterElement(tw, spec, last).value.1;
      var mid := TimeWindowOp(spec, func, tw);
      FeedSingle([mid], last);
      FeedOneOperator(mid, last);
      AsDataResults(func, fired, more);
    }
  }

  lemma NoResults(func: seq<Event> -> Event)
    ensures Results(func, []) == []
  {}

  lemma AsDataResults(func: seq<Event> -> Event, a: seq<Firing>, b: seq<Firing>)
    ensures AsData(Results(func, a + b)) == AsData(Results(func, a)) + AsData(Results(func, b))
  {
    hide Results;
    ResultsConcat(func, a, b);
  }

  lemma TimeWindowRuns(spec: WindowSpec, func: seq<Event> -> Event, trace: seq<Element>)
    requires RunAndClose(spec, trace).Done?
    ensures var r := RunOps([TimeWindowOp(spec, func, FRESH)], trace);
            r.Done? && r.value.1 == AsData(Results(func, RunAndClose(spec, trace).value))
  {
    hide Feed, Run, AfterClose, Results;
    TimeWindowFeeds(spec, func, trace);
    var (tw, fired) := Run(spec, trace).value;
    CloseOneOperator(TimeWindowOp(spec, func, tw));
    AsDataResults(func, fired, AfterClose(tw, spec).value.1);
  }

  // ---------- maps and filters ----------

  /** Every watermark of `a` is one of `b`. */
  ghost predicate MarksWithin(a: seq<Element>, b: seq<Element>) {
    forall x :: x in a && x.Mark? ==> x in b
  }

  ghost predicate TimesWithin(a: seq<Element>, b: seq<Element>) {
    forall x :: x in a && x.Data? ==> exists y :: y in b && y.Data? && y.event.ts == x.event.ts
  }

  lemma {:induction false} StatelessFeeds(op: Op, trace: seq<Element>)
    requires TimePreserving(op) && NoLateEvents(trace)
    ensures var r := Feed([op], trace);
            && r.Done? && r.value.0 == [op]
            && EventsOf(r.value.1) == ThroughOne(op, EventsOf(trace))
            && MarksWithin(r.value.1, trace) && TimesWithin(r.value.1, trace)
            && NoLateEvents(r.value.1)
    decreases |trace|
  {
    hide Feed, EventsOf, NoLateEvents, MarksWithin, TimesWithin;
    if trace == [] {
      FeedNothing([op]);
      EventsOfNothing();
      NothingWithin(trace);
    } else {
      var front, last := trace[..|trace| - 1], trace[|trace| - 1];
      LastElement(trace);
      NoLateFront(front, last);
      StatelessFeeds(op, front);
      FeedConcat([op], front, [last]);
      FeedSingle([op], last);
      FeedOneOperator(op, last);
      var out, more := Feed([op], front).value.1, Execute(op, last).value.1;
      StatelessStep(op, front, last, out);
      StatelessEvents(op, EventsOf(front), last, out);
    }
  }

  lemma NothingWithin(trace: seq<Element>)
    ensures MarksWithin([], trace) && TimesWithin([], trace) && NoLateEvents([])
  {}

  lemma NoLateFront(front: seq<Element>, last: Element)
    requires NoLateEvents(front + [last])
    ensures NoLateEvents(front)
    ensures last.Data? ==> forall x :: x in front && x.Mark? ==> x.ts <= last.event.ts
  {
    var trace := front + [last];
    forall i, j | 0 <= i < j < |front| && front[i].Mark? && front[j].Data?
      ensures front[i].ts <= front[j].event.ts
    {
      assert trace[i] == front[i] && trace[j] == front[j];
    }
    if last.Data? {
      forall x | x in front && x.Mark?
        ensures x.ts <= last.event.ts
      {
        var i :| 0 <= i < |front| && front[i] == x;
        assert trace[i] == x && trace[|front|] == last;
      }
    }
  }

  lemma StatelessStep(op: Op, front: seq<Element>, last: Element, out: seq<Element>)
    requires TimePreserving(op)
    requires last.Data? ==> forall x :: x in front && x.Mark? ==> x.ts <= last.event.ts
    requires MarksWithin(out, front) && TimesWithin(out, front) && NoLateEvents(out)
    ensures var more := Execute(op, last).value.1;
            && MarksWithin(out + more, front + [last]) && TimesWithin(out + more, front + [last])
            && NoLateEvents(out + more)
  {
    var more := Execute(op, last).value.1;
    var all := out + more;
    assert last in front + [last];
    forall x | x in all && x.Data?
      ensures exists y :: y in front + [last] && y.Data? && y.event.ts == x.event.ts
    {
      if x in out {
        var y :| y in front && y.Data? && y.event.ts == x.event.ts;
        assert y in front + [last];
      }
    }
    forall i, j | 0 <= i < j < |all| && all[i].Mark? && all[j].Data?
      ensures all[i].ts <= all[j].event.ts
    {
      assert all[i] in out && out[i] == all[i];
    }
  }

  lemma {:induction false} StatelessEvents(op: Op, before: seq<Event>, last: Element, out: seq<Element>)
    requires TimePreserving(op)
    requires EventsOf(out) == ThroughOne(op, before)
    ensures EventsOf(out + Execute(op, last).value.1) == ThroughOne(op, before + EventOf(last))
  {
    var more := Execute(op, last).value.1;
    EventsOfConcat(out, more);
    if |more| == 1 { assert EventsOf(more) == EventOf(more[0]) + EventsOf([]); }
    assert EventsOf(more) == if last.Mark? then [] else if op.MapOp? then [op.transform(last.event)]
                             else if op.keep(last.event) then [last.event] else [];
    if last.Data? {
      assert (before + [last.event])[..|before|] == before;
    } else {
      assert before + [] == before;
    }
  }

  lemma {:induction false} NoMarks(events: seq<Event>)
    ensures Marks(AsData(events)) == []
  {
    if events != [] {
      assert AsData(events)[..|events| - 1] == AsData(events[..|events| - 1]);
      NoMarks(events[..|events| - 1]);
    }
  }

  lemma {:induction false} MarksConcat(a: seq<Element>, b: seq<Element>)
    ensures Marks(a + b) == Marks(a) + Marks(b)
    decreases |b|
  {
    if b == [] {
      assert a + b == a;
    } else {
      assert (a + b)[..|a + b| - 1] == a + b[..|b| - 1];
      MarksConcat(a, b[..|b| - 1]);
    }
  }

  /** Maps and filters let out the watermarks that went in, and of the events what they make of them. */
  lemma {:induction false} StatelessPasses(ops: seq<Op>, trace: seq<Element>)
    requires forall i :: 0 <= i < |ops| ==> Stateless(ops[i])
    ensures var r := RunOps(ops, trace);
            && r.Done? && Marks(r.value.1) == Marks(trace)
            && EventsOf(r.value.1) == Through(ops, EventsOf(trace))
    decreases |trace|
  {
    hide RunOps, Stateless, EventsOf;
    if i :| 0 <= i < |trace| && trace[i].Mark? {
      var front, mark, back := trace[..i], [trace[i]], trace[i + 1..];
      assert trace == front + mark + back;
      WatermarksPass(ops, front, trace[i].ts, back);
      StatelessPasses(ops, front);
      StatelessPasses(ops, back);
      hide Marks;
      var a, b := RunOps(ops, front).value.1, RunOps(ops, back).value.1;
      Around(front, mark, back);
      Around(a, mark, b);
      ThroughConcat(ops, EventsOf(front), EventsOf(back));
    } else {
      AllDataIsAsData(trace);
      StatelessRunsData(ops, EventsOf(trace));
      NoMarks(EventsOf(trace));
      NoMarks(Through(ops, EventsOf(trace)));
      EventsOfAsData(Through(ops, EventsOf(trace)));
    }
  }

  lemma Around(front: seq<Element>, mark: seq<Element>, back: seq<Element>)
    requires |mark| == 1 && mark[0].Mark?
    ensures Marks(front + mark + back) == Marks(front) + Marks(mark) + Marks(back)
    ensures EventsOf(front + mark + back) == EventsOf(front) + EventsOf(back)
  {
    hide EventsOf;
    MarksConcat(front, mark);
    MarksConcat(front + mark, back);
    EventsOfConcat(front, mark);
    EventsOfConcat(front + mark, back);
    NoEvents(mark);
    var none: seq<Event> := [];
    assert EventsOf(front) + none == EventsOf(front);
  }

  lemma NoEvents(mark: seq<Element>)
    requires |mark| == 1 && mark[0].Mark?
    ensures EventsOf(mark) == []
  {
    assert mark[1..] == [] && mark[..0] == [];
  }

  lemma {:induction false} StatelessChain(ops: seq<Op>, trace: seq<Element>)
    requires forall i :: 0 <= i < |ops| ==> TimePreserving(ops[i])
    requires NoLateEvents(trace)
    ensures var r := RunOps(ops, trace);
            && r.Done?
            && EventsOf(r.value.1) == Through(ops, EventsOf(trace))
            && MarksWithin(r.value.1, trace) && TimesWithin(r.value.1, trace)
            && NoLateEvents(r.value.1) && Marks(r.value.1) == Marks(trace)
    decreases |ops|
  {
    hide Feed, EventsOf, NoLateEvents, ThroughOne, Marks;
    StatelessPasses(ops, trace);
    if ops == [] {
      FeedEmpty(trace);
      assert trace + [] == trace;
    } else {
      StatelessFeeds(ops[0], trace);
      CloseOneOperator(ops[0]);
      var mid := Feed([ops[0]], trace).value.1;
      assert mid + [] == mid;
      assert RunOps([ops[0]], trace) == Wrap(ops[0], mid);
      StatelessChain(ops[1..], mid);
      RunCompose([ops[0]], ops[1..], trace);
      assert ops == [ops[0]] + ops[1..];
      hide RunOps;
      TimesTransitive(RunOps(ops, trace).value.1, mid, trace);
    }
  }

  lemma TimesTransitive(a: seq<Element>, b: seq<Element>, c: seq<Element>)
    requires TimesWithin(a, b) && TimesWithin(b, c) && MarksWithin(a, b) && MarksWithin(b, c)
    ensures TimesWithin(a, c) && MarksWithin(a, c)
  {}

  // ---------- what the source lets out ----------

  /** Everything the source lets out is at most as late as its latest event. */
  lemma SourceWithin(spec: SourceSpec, events: seq<Event>, x: Element)
    requires x in SourceRunAndClose(spec, events)
    ensures x.Mark? ==> x.ts <= MaxTs(events)
    ensures x.Data? ==> x.event in events
  {
    hide SourceRunAndClose, MaxTs, EventsOf, Marks, UpToDate;
    WatermarksOfRun(spec, events);
    var out := SourceRunAndClose(spec, events);
    var i :| 0 <= i < |out| && out[i] == x;
    EventsAt(out, i);
    MaxTsBounds(events);
    MaxTsBounds(EventsOf(out[..i]));
    EventsOfNone();
  }

  lemma EventsAt(out: seq<Element>, i: nat)
    requires i < |out|
    ensures out[i].Data? ==> out[i].event in EventsOf(out)
    ensures forall e :: e in EventsOf(out[..i]) ==> e in EventsOf(out)
  {
    hide EventsOf;
    assert out == out[..i] + out[i..];
    EventsOfConcat(out[..i], out[i..]);
    if out[i].Data? {
      EventsAround(out, i);
    }
  }

  lemma MaxTsOfNone(events: seq<Event>)
    ensures events == [] ==> MaxTs(events) == 0
  {}
}
