/**
 * What a chain of calls means in terms of its input alone, operator by operator, and that the
 * operators it is compiled to compute exactly that.
 */
module Meanings {
  import opened Types
  import Cursors
  import opened EventBuffers
  import opened TimeWindows
  import WindowTheory
  import opened WindowBatch
  import WindowCount
  import CW = CountWindows
  import opened Sources
  import opened Chains
  import opened Splits
  import opened Unsplit
  import opened OperatorRuns
  import opened Builders
  import opened Compilers

  // ---------- maps and filters ----------

  ghost predicate Maps(f: Event -> Event, input: seq<Event>, out: seq<Event>) {
    |out| == |input| && forall i :: 0 <= i < |input| ==> out[i] == f(input[i])
  }

  ghost predicate Ascending(s: seq<int>) {
    forall i, j :: 0 <= i < j < |s| ==> s[i] < s[j]
  }

  /** `kept` lists the positions of the events that the predicate keeps. */
  ghost predicate Kept(p: Event -> bool, input: seq<Event>, kept: seq<int>) {
    Ascending(kept) && forall k :: k in kept <==> 0 <= k < |input| && p(input[k])
  }

  ghost predicate Filters(p: Event -> bool, input: seq<Event>, out: seq<Event>) {
    exists kept :: Kept(p, input, kept) && Picks(input, kept, out)
  }

  ghost predicate Picks(input: seq<Event>, kept: seq<int>, out: seq<Event>) {
    |out| == |kept| && forall i :: 0 <= i < |kept| ==> 0 <= kept[i] < |input| && out[i] == input[kept[i]]
  }

  // ---------- windows ----------

  /** The window that ends at `w` is due and holds an event. */
  ghost predicate Occupied(spec: WindowSpec, h: seq<Event>, w: int)
    requires spec.advance > 0
  {
    && w > 0 && w % spec.advance == 0
    && exists e :: e in h && (if w > spec.size then w - spec.size else 0) <= e.ts < w
  }

  ghost predicate WindowEnds(spec: WindowSpec, h: seq<Event>, ends: seq<int>)
    requires spec.advance > 0
  {
    Ascending(ends) && forall w :: w in ends <==> Occupied(spec, h, w)
  }

  /**
   * One result for every window with an event in it, in the order of their ends, and each of them
   * the user function of the window's events: by timestamp, the latest arrival first among ties.
   */
  ghost predicate TimeReduces(spec: WindowSpec, func: seq<Event> -> Event, h: seq<Event>, out: seq<Event>)
    requires spec.advance > 0
  {
    exists ends :: WindowEnds(spec, h, ends) && Reduces(spec, func, h, ends, out)
  }

  ghost predicate Reduces(spec: WindowSpec, func: seq<Event> -> Event, h: seq<Event>, ends: seq<int>, out: seq<Event>) {
    && |out| == |ends|
    && forall i :: 0 <= i < |ends| ==>
         out[i] == func(Window(h, if ends[i] > spec.size then ends[i] - spec.size else 0, ends[i]))
  }

  /** How many full windows `n` events make. */
  function FullWindows(spec: WindowSpec, n: nat): nat {
    if n < spec.size || spec.size == 0 then 0
    else if spec.advance == 0 then 1
    else (n - spec.size) / CW.Stride(spec) + 1
  }

  ghost predicate Counted(spec: WindowSpec, input: seq<Event>, windows: seq<seq<Event>>, rest: seq<Event>) {
    && |windows| == FullWindows(spec, |input|)
    && (forall k :: 0 <= k < |windows| ==> CW.IsWindow(spec, input, k, windows[k]))
    && |windows| * CW.Stride(spec) <= |input| && rest == input[|windows| * CW.Stride(spec)..]
  }

  /** One result for every full window, and one for what is left over at the end. */
  ghost predicate CountReduces(spec: WindowSpec, func: seq<Event> -> Event, input: seq<Event>, out: seq<Event>) {
    exists windows, rest :: Counted(spec, input, windows, rest) && ReducesAll(func, windows, rest, out)
  }

  ghost predicate ReducesAll(
    func: seq<Event> -> Event, windows: seq<seq<Event>>, rest: seq<Event>, out: seq<Event>) {
    && |out| == |windows| + (if rest == [] then 0 else 1)
    && (forall k :: 0 <= k < |windows| ==> out[k] == func(windows[k]))
    && (rest != [] ==> out[|windows|] == func(rest))
  }

  // ---------- chains ----------

  predicate IsMiddle(op: LogicalOp) {
    Compiles(op) && !op.SourceLogical? && !op.SinkLogical?
  }

  predicate AllMiddle(ops: seq<LogicalOp>): (r: bool)
    ensures r ==> forall i :: 0 <= i < |ops| ==> Compiles(ops[i])
  {
    forall i :: 0 <= i < |ops| ==> IsMiddle(ops[i])
  }

  /** What one operator makes of a list of events. */
  ghost predicate Step(op: LogicalOp, input: seq<Event>, out: seq<Event>) {
    match op
    case MapLogical(f) => Maps(f, input, out)
    case FilterLogical(p) => Filters(p, input, out)
    case TimeWindowLogical(spec, func) => spec.advance > 0 && TimeReduces(spec, func, input, out)
    case CountWindowLogical(spec, func) => CountReduces(spec, func, input, out)
    case _ => false
  }

  ghost predicate Means(ops: seq<LogicalOp>, input: seq<Event>, out: seq<Event>) {
    if ops == [] then out == input
    else exists mid: seq<Event> :: Step(ops[0], input, mid) && Means(ops[1..], mid, out)
  }

  // ---------- the meaning is unique ----------

  lemma {:induction false} AscendingUnique(a: seq<int>, b: seq<int>)
    requires Ascending(a) && Ascending(b) && forall x :: x in a <==> x in b
    ensures a == b
  {
    if a == [] {
      NotEmpty(b);
    } else {
      var x := a[|a| - 1];
      assert x in b;
      assert b != [];
      var i :| 0 <= i < |b| && b[i] == x;
      assert b[|b| - 1] in a;
      var j :| 0 <= j < |a| && a[j] == b[|b| - 1];
      assert x == b[|b| - 1];
      FrontMembers(a);
      FrontMembers(b);
      var front, back := a[..|a| - 1], b[..|b| - 1];
      assert forall z :: z in front <==> z in a && z != x;
      AscendingUnique(front, back);
      assert a == a[..|a| - 1] + [x] && b == b[..|b| - 1] + [x];
    }
  }

  lemma NotEmpty(b: seq<int>)
    ensures b != [] ==> exists x :: x in b
  {
    if b != [] {
      var x := b[0];
      assert x in b;
    }
  }

  lemma FrontMembers(a: seq<int>)
    requires Ascending(a) && a != []
    ensures Ascending(a[..|a| - 1])
    ensures forall x :: x in a[..|a| - 1] <==> x in a && x != a[|a| - 1]
  {
    forall x | x in a && x != a[|a| - 1]
      ensures x in a[..|a| - 1]
    {
      var i :| 0 <= i < |a| && a[i] == x;
      assert a[..|a| - 1][i] == x;
    }
  }

  lemma StepUnique(op: LogicalOp, input: seq<Event>, a: seq<Event>, b: seq<Event>)
    requires Step(op, input, a) && Step(op, input, b)
    ensures a == b
  {
    hide Filters, TimeReduces, CountReduces;
    match op {
      case MapLogical(f) =>
      case FilterLogical(p) => FiltersUnique(p, input, a, b);
      case TimeWindowLogical(spec, func) => TimeReducesUnique(spec, func, input, a, b);
      case CountWindowLogical(spec, func) => CountReducesUnique(spec, func, input, a, b);
      case _ =>
    }
  }

  lemma FiltersUnique(p: Event -> bool, input: seq<Event>, a: seq<Event>, b: seq<Event>)
    requires Filters(p, input, a) && Filters(p, input, b)
    ensures a == b
  {
    var x :| Kept(p, input, x) && Picks(input, x, a);
    var y :| Kept(p, input, y) && Picks(input, y, b);
    AscendingUnique(x, y);
  }

  lemma TimeReducesUnique(
    spec: WindowSpec, func: seq<Event> -> Event, h: seq<Event>, a: seq<Event>, b: seq<Event>)
    requires spec.advance > 0 && TimeReduces(spec, func, h, a) && TimeReduces(spec, func, h, b)
    ensures a == b
  {
    hide Window, Occupied;
    var x :| WindowEnds(spec, h, x) && Reduces(spec, func, h, x, a);
    var y :| WindowEnds(spec, h, y) && Reduces(spec, func, h, y, b);
    AscendingUnique(x, y);
  }

  lemma CountReducesUnique(
    spec: WindowSpec, func: seq<Event> -> Event, input: seq<Event>, a: seq<Event>, b: seq<Event>)
    requires CountReduces(spec, func, input, a) && CountReduces(spec, func, input, b)
    ensures a == b
  {
    hide FullWindows, CW.Stride, CW.IsWindow;
    var v, r :| Counted(spec, input, v, r) && ReducesAll(func, v, r, a);
    var w, s :| Counted(spec, input, w, s) && ReducesAll(func, w, s, b);
    SameWindows(spec, input, v, w);
  }

  lemma SameWindows(spec: WindowSpec, input: seq<Event>, v: seq<seq<Event>>, w: seq<seq<Event>>)
    requires |v| == |w|
    requires forall k :: 0 <= k < |v| ==> CW.IsWindow(spec, input, k, v[k]) && CW.IsWindow(spec, input, k, w[k])
    ensures v == w
  {
    hide CW.IsWindow;
    forall k | 0 <= k < |v|
      ensures v[k] == w[k]
    {
      OneWindow(spec, input, k, v[k], w[k]);
    }
  }

  lemma OneWindow(spec: WindowSpec, input: seq<Event>, k: nat, v: seq<Event>, w: seq<Event>)
    requires CW.IsWindow(spec, input, k, v) && CW.IsWindow(spec, input, k, w)
    ensures v == w
  {}

  /** A chain means one output for every input. */
  lemma {:induction false} MeansUnique(ops: seq<LogicalOp>, input: seq<Event>, a: seq<Event>, b: seq<Event>)
    requires Means(ops, input, a) && Means(ops, input, b)
    ensures a == b
  {
    hide Step;
    if ops != [] {
      var x: seq<Event> :| Step(ops[0], input, x) && Means(ops[1..], x, a);
      var y: seq<Event> :| Step(ops[0], input, y) && Means(ops[1..], y, b);
      StepUnique(ops[0], input, x, y);
      MeansUnique(ops[1..], x, a, b);
    }
  }

  // ---------- what the operators compute ----------

  /** What the compiled operator, given a channel, emits for these events. */
  function OutOf(op: LogicalOp, input: seq<Event>): seq<Event> {
    match op
    case MapLogical(f) => ThroughOne(MapOp(f), input)
    case FilterLogical(p) => ThroughOne(FilterOp(p), input)
    case TimeWindowLogical(spec, func) => if spec.advance == 0 then [] else Results(func, Batch(spec, input))
    case CountWindowLogical(spec, func) => CountResults(spec, func, true, input)
    case _ => input
  }

  lemma {:induction false} MapMeans(f: Event -> Event, input: seq<Event>)
    ensures Maps(f, input, ThroughOne(MapOp(f), input))
  {
    if input != [] { MapMeans(f, input[..|input| - 1]); }
  }

  lemma {:induction false} FilterMeans(p: Event -> bool, input: seq<Event>) returns (kept: seq<int>)
    ensures Kept(p, input, kept) && Picks(input, kept, ThroughOne(FilterOp(p), input))
  {
    if input == [] {
      kept := [];
    } else {
      var front, e := input[..|input| - 1], input[|input| - 1];
      assert input == front + [e];
      kept := FilterMeans(p, front);
      KeptMore(p, front, e, kept);
      PicksMore(front, e, kept, ThroughOne(FilterOp(p), front));
      hide Kept, Picks;
      if p(e) { kept := kept + [|front|]; }
    }
  }

  lemma KeptMore(p: Event -> bool, front: seq<Event>, e: Event, kept: seq<int>)
    requires Kept(p, front, kept)
    ensures Kept(p, front + [e], if p(e) then kept + [|front|] else kept)
  {
    var input, last := front + [e], |front|;
    assert forall k :: 0 <= k < last ==> input[k] == front[k];
    OneMore(kept, last);
    hide Ascending;
  }

  lemma PicksMore(front: seq<Event>, e: Event, kept: seq<int>, out: seq<Event>)
    requires Picks(front, kept, out)
    ensures Picks(front + [e], kept, out) && Picks(front + [e], kept + [|front|], out + [e])
  {}

  lemma OneMore(kept: seq<int>, last: int)
    requires Ascending(kept) && forall k :: k in kept ==> k < last
    ensures Ascending(kept + [last]) && forall k :: k in kept + [last] <==> k in kept || k == last
  {
    forall i | 0 <= i < |kept|
      ensures kept[i] < last
    {
      assert kept[i] in kept;
    }
  }

  lemma OccupiedMeansEvents(spec: WindowSpec, h: seq<Event>, w: int)
    requires spec.advance > 0 && w > 0 && w % spec.advance == 0
    ensures Occupied(spec, h, w) <==> Window(h, StartOf(w, spec.size), w) != []
  {
    var a := StartOf(w, spec.size);
    if e :| e in h && a <= e.ts < w {
      WindowMembers(h, a, w, e);
      assert e in Window(h, a, w);
    }
    if Window(h, a, w) != [] {
      var e := Window(h, a, w)[0];
      WindowMembers(h, a, w, e);
      assert e in Window(h, a, w);
      assert e in h;
    }
  }

  /** The batch windows, reduced, are what a time window means. */
  lemma BatchMeans(spec: WindowSpec, func: seq<Event> -> Event, h: seq<Event>)
    requires spec.advance > 0
    ensures TimeReduces(spec, func, h, Results(func, Batch(spec, h)))
  {
    hide Window, Results, Occupied;
    var batch := Batch(spec, h);
    var ends := seq(|batch|, i requires 0 <= i < |batch| => batch[i].end);
    BatchEnds(spec, h, ends);
    ResultsAt(func, batch);
    forall i | 0 <= i < |batch|
      ensures batch[i].events == Window(h, StartOf(ends[i], spec.size), ends[i])
    {
      assert batch[i] in batch;
      BatchIsEveryWindow(spec, h, batch[i]);
    }
    assert Reduces(spec, func, h, ends, Results(func, batch));
  }

  lemma BatchEnds(spec: WindowSpec, h: seq<Event>, ends: seq<int>)
    requires spec.advance > 0 && |ends| == |Batch(spec, h)|
    requires forall i :: 0 <= i < |ends| ==> ends[i] == Batch(spec, h)[i].end
    ensures WindowEnds(spec, h, ends)
  {
    hide Window, Occupied, Batch;
    var batch := Batch(spec, h);
    BatchAscends(spec, h);
    forall w
      ensures w in ends <==> Occupied(spec, h, w)
    {
      if w in ends {
        var i :| 0 <= i < |ends| && ends[i] == w;
        assert batch[i] in batch;
        BatchIsEveryWindow(spec, h, batch[i]);
        OccupiedMeansEvents(spec, h, w);
      }
      if Occupied(spec, h, w) {
        OccupiedIsDue(spec, h, w);
        OccupiedMeansEvents(spec, h, w);
        var f := Firing(w, Window(h, StartOf(w, spec.size), w));
        BatchIsEveryWindow(spec, h, f);
        var i :| 0 <= i < |batch| && batch[i] == f;
        assert ends[i] == w;
      }
    }
  }

  lemma OccupiedIsDue(spec: WindowSpec, h: seq<Event>, w: int)
    requires spec.advance > 0 && Occupied(spec, h, w)
    ensures w > 0 && w % spec.advance == 0
  {}

  lemma BatchAscends(spec: WindowSpec, h: seq<Event>)
    requires spec.advance > 0
    ensures forall i, j :: 0 <= i < j < |Batch(spec, h)| ==> Batch(spec, h)[i].end < Batch(spec, h)[j].end
  {
    hide WindowTheory.Firings;
    Cursors.DivModUnique(spec.advance, 1, 0, spec.advance);
    WindowCount.FiringsAscend(h, spec, spec.advance, WindowTheory.LastEnd(h, spec) + 1);
  }

  /** The windows of CountRun are the full windows of the input, and its buffer is what is left over. */
  lemma RunIsCounted(spec: WindowSpec, input: seq<Event>)
    ensures var (buffer, windows) := CW.CountRun(spec, input);
            Counted(spec, input, windows, buffer)
  {
    hide CW.CountRun;
    var (buffer, windows) := CW.CountRun(spec, input);
    if CW.Stride(spec) > 0 {
      CW.CountClosedForm(spec, input);
    } else {
      CW.CountDegenerate(spec, input);
      assert input[0..] == input;
      if 0 < spec.size <= |input| {
        assert 0 * CW.Stride(spec) == 0;
        assert CW.IsWindow(spec, input, 0, windows[0]);
      }
    }
  }

  lemma CountMeans(spec: WindowSpec, func: seq<Event> -> Event, input: seq<Event>)
    ensures CountReduces(spec, func, input, CountResults(spec, func, true, input))
  {
    hide CW.CountRun, Counted, Reduced, EventsOf;
    RunIsCounted(spec, input);
    var (buffer, windows) := CW.CountRun(spec, input);
    var all := windows + CW.Partial(buffer, true);
    ReducedAt(func, all);
    ReducedIsData(func, all);
    AllDataIsAsData(Reduced(func, all));
    var out := EventsOf(Reduced(func, all));
    assert forall i :: 0 <= i < |all| ==> AsData(out)[i] == Data(func(all[i]));
    assert ReducesAll(func, windows, buffer, out);
  }

  lemma OutMeans(op: LogicalOp, input: seq<Event>)
    requires IsMiddle(op) && (op.TimeWindowLogical? ==> op.spec.advance > 0)
    ensures Step(op, input, OutOf(op, input))
  {
    hide ThroughOne, Results, Batch, CountResults, Maps, CountReduces, TimeReduces;
    match op {
      case MapLogical(f) => MapMeans(f, input);
      case FilterLogical(p) => var kept := FilterMeans(p, input);
      case TimeWindowLogical(spec, func) => BatchMeans(spec, func, input);
      case CountWindowLogical(spec, func) => CountMeans(spec, func, input);
    }
  }

  // ---------- the operators of a chain ----------

  function Compiled(ops: seq<LogicalOp>): (r: seq<Op>)
    requires forall i :: 0 <= i < |ops| ==> Compiles(ops[i])
    ensures |r| == |ops| && forall i :: 0 <= i < |ops| ==> r[i] == CompileOp(ops[i])
  {
    seq(|ops|, i requires 0 <= i < |ops| => CompileOp(ops[i]))
  }

  /** For every window: its cursor does its work in 64 bits for the events that reach it. */
  ghost predicate InHorizon(ops: seq<LogicalOp>, input: seq<Event>, horizon: u64) {
    ops == [] ||
    (&& WindowFits(ops[0], input, horizon)
     && forall mid: seq<Event> :: Step(ops[0], input, mid) ==> InHorizon(ops[1..], mid, horizon))
  }

  ghost predicate WindowFits(op: LogicalOp, input: seq<Event>, horizon: u64) {
    op.TimeWindowLogical? ==>
      && op.spec.advance > 0 && BatchFits(op.spec, horizon)
      && forall e :: e in input ==> e.ts + op.spec.size <= horizon
  }

  /** The first window is a time window. */
  predicate TimeWindowFirst(ops: seq<LogicalOp>) {
    && ops != []
    && (ops[0].TimeWindowLogical? || ((ops[0].MapLogical? || ops[0].FilterLogical?) && TimeWindowFirst(ops[1..])))
  }

  /** The maps in front of the first window keep timestamps. */
  ghost predicate KeepsTime(ops: seq<LogicalOp>) {
    ops == [] ||
    match ops[0]
    case MapLogical(f) => (forall e: Event :: f(e).ts == e.ts) && KeepsTime(ops[1..])
    case FilterLogical(_) => KeepsTime(ops[1..])
    case _ => true
  }

  ghost predicate MarksUpTo(trace: seq<Element>, horizon: u64) {
    forall i :: 0 <= i < |trace| && trace[i].Mark? ==> trace[i].ts <= horizon
  }

  lemma InHorizonRest(ops: seq<LogicalOp>, input: seq<Event>, horizon: u64)
    requires ops != [] && IsMiddle(ops[0]) && InHorizon(ops, input, horizon)
    ensures Step(ops[0], input, OutOf(ops[0], input))
    ensures InHorizon(ops[1..], OutOf(ops[0], input), horizon)
  {
    hide Step, OutOf;
    OutMeans(ops[0], input);
  }

  /** One operator that is fed events alone. */
  lemma OneRuns(op: LogicalOp, input: seq<Event>, horizon: u64)
    requires IsMiddle(op) && WindowFits(op, input, horizon)
    ensures var r := RunOps([WithChannel(CompileOp(op))], AsData(input));
            r.Done? && r.value.1 == AsData(OutOf(op, input))
  {
    hide RunOps, ThroughOne, Results, Batch, CountResults, BatchFits;
    match op {
      case MapLogical(f) =>
        StatelessRunsData([MapOp(f)], input);
        ThroughJust(MapOp(f), input);
      case FilterLogical(p) =>
        StatelessRunsData([FilterOp(p)], input);
        ThroughJust(FilterOp(p), input);
      case TimeWindowLogical(spec, func) =>
        EventsOfAsData(input);
        NoMarksWithin(spec, AsData(input), horizon);
        WindowRuns(spec, func, AsData(input), horizon);
      case CountWindowLogical(spec, func) =>
        EventsOfAsData(input);
        CountRuns(spec, func, AsData(input));
    }
  }

  lemma ThroughJust(op: Op, input: seq<Event>)
    ensures Through([op], input) == ThroughOne(op, input)
  {
    assert [op][1..] == [] && Through([], ThroughOne(op, input)) == ThroughOne(op, input);
  }

  lemma NoMarksWithin(spec: WindowSpec, trace: seq<Element>, horizon: u64)
    requires MarksUpTo(trace, horizon)
    requires forall e :: e in EventsOf(trace) ==> e.ts + spec.size <= horizon
    ensures WindowTheory.Within(spec, trace, horizon)
  {
    hide EventsOf;
    forall i | 0 <= i < |trace| && trace[i].Data?
      ensures trace[i].event.ts + spec.size <= horizon
    {
      EventsAt(trace, i);
    }
  }

  lemma WindowRuns(spec: WindowSpec, func: seq<Event> -> Event, trace: seq<Element>, horizon: u64)
    requires spec.advance > 0 && BatchFits(spec, horizon) && WindowTheory.Within(spec, trace, horizon)
    requires NoLateEvents(trace)
    ensures var r := RunOps([TimeWindowOp(spec, func, FRESH)], trace);
            r.Done? && r.value.1 == AsData(Results(func, Batch(spec, EventsOf(trace))))
  {
    hide RunOps, Results, Batch, BatchFits, NoLateEvents, EventsOf;
    BatchEquivalence(spec, trace, horizon);
    TimeWindowRuns(spec, func, trace);
  }

  lemma CountRuns(spec: WindowSpec, func: seq<Event> -> Event, trace: seq<Element>)
    ensures var r := RunOps([CountWindowOp(spec, func, [], true)], trace);
            r.Done? && r.value.1 == AsData(CountResults(spec, func, true, EventsOf(trace)))
  {
    hide RunOps, EventsOf, CW.CountRun, Reduced;
    CountWindowRuns(spec, func, true, trace);
    var (buffer, windows) := CW.CountRun(spec, EventsOf(trace));
    ReducedIsData(func, windows + CW.Partial(buffer, true));
    AllDataIsAsData(Reduced(func, windows + CW.Partial(buffer, true)));
  }

  lemma CompiledRest(ops: seq<LogicalOp>)
    requires ops != [] && forall i :: 0 <= i < |ops| ==> Compiles(ops[i])
    ensures SetChannels(Compiled(ops)) == [WithChannel(CompileOp(ops[0]))] + SetChannels(Compiled(ops[1..]))
  {
    assert Compiled(ops)[1..] == Compiled(ops[1..]);
  }

  /** Behind the first window only events come: every operator computes its meaning. */
  lemma {:induction false} LaterMeans(ops: seq<LogicalOp>, input: seq<Event>, horizon: u64)
    returns (out: seq<Event>)
    requires AllMiddle(ops) && InHorizon(ops, input, horizon)
    ensures Means(ops, input, out)
    ensures var r := RunOps(SetChannels(Compiled(ops)), AsData(input));
            r.Done? && r.value.1 == AsData(out)
  {
    if ops == [] {
      out := input;
      FeedEmpty(AsData(input));
      assert AsData(input) + [] == AsData(input) && SetChannels(Compiled(ops)) == [];
    } else {
      var mid := OutOf(ops[0], input);
      InHorizonRest(ops, input, horizon);
      OneRuns(ops[0], input, horizon);
      hide RunOps, Step, OutOf, InHorizon, CompileOp, WithChannel, SetChannels;
      out := LaterMeans(ops[1..], mid, horizon);
      CompiledRest(ops);
      RunCompose([WithChannel(CompileOp(ops[0]))], SetChannels(Compiled(ops[1..])), AsData(input));
    }
  }

  /** In front of it watermarks come too; a time window needs them not to make events late. */
  lemma {:induction false} ChainMeans(ops: seq<LogicalOp>, trace: seq<Element>, horizon: u64)
    returns (out: seq<Event>)
    requires AllMiddle(ops) && InHorizon(ops, EventsOf(trace), horizon)
    requires TimeWindowFirst(ops) ==> KeepsTime(ops) && NoLateEvents(trace) && MarksUpTo(trace, horizon)
    ensures Means(ops, EventsOf(trace), out)
    ensures var r := RunOps(SetChannels(Compiled(ops)), trace);
            r.Done? && EventsOf(r.value.1) == out
  {
    if ops == [] {
      out := EventsOf(trace);
      FeedEmpty(trace);
      assert trace + [] == trace && SetChannels(Compiled(ops)) == [];
    } else {
      var op := WithChannel(CompileOp(ops[0]));
      var mid := OutOf(ops[0], EventsOf(trace));
      InHorizonRest(ops, EventsOf(trace), horizon);
      CompiledRest(ops);
      RunCompose([op], SetChannels(Compiled(ops[1..])), trace);
      if ops[0].MapLogical? || ops[0].FilterLogical? {
        StatelessMeans(ops[0], trace);
        if TimeWindowFirst(ops) { StatelessKeepsTime(ops[0], trace, horizon); }
        hide RunOps, Step, OutOf, InHorizon, CompileOp, WithChannel, SetChannels, EventsOf, NoLateEvents, MarksUpTo;
        out := ChainMeans(ops[1..], RunOps([op], trace).value.1, horizon);
      } else {
        WindowMeans(ops[0], trace, horizon);
        hide RunOps, Step, OutOf, InHorizon, CompileOp, WithChannel, SetChannels, EventsOf, NoLateEvents, MarksUpTo;
        out := LaterMeans(ops[1..], mid, horizon);
        EventsOfAsData(out);
      }
    }
  }

  lemma StatelessMeans(op: LogicalOp, trace: seq<Element>)
    requires op.MapLogical? || op.FilterLogical?
    ensures var r := RunOps([WithChannel(CompileOp(op))], trace);
            r.Done? && EventsOf(r.value.1) == OutOf(op, EventsOf(trace))
  {
    hide RunOps, EventsOf, ThroughOne, Marks;
    StatelessPasses([CompileOp(op)], trace);
    ThroughJust(CompileOp(op), EventsOf(trace));
  }

  lemma StatelessKeepsTime(op: LogicalOp, trace: seq<Element>, horizon: u64)
    requires op.FilterLogical? || (op.MapLogical? && forall e: Event :: op.transform(e).ts == e.ts)
    requires NoLateEvents(trace) && MarksUpTo(trace, horizon)
    ensures var r := RunOps([WithChannel(CompileOp(op))], trace);
            r.Done? && NoLateEvents(r.value.1) && MarksUpTo(r.value.1, horizon)
  {
    hide RunOps, NoLateEvents, EventsOf, Marks, TimesWithin, Through;
    StatelessChain([CompileOp(op)], trace);
    var left := RunOps([CompileOp(op)], trace).value.1;
    forall i | 0 <= i < |left| && left[i].Mark?
      ensures left[i].ts <= horizon
    {
      assert left[i] in left;
      var j :| 0 <= j < |trace| && trace[j] == left[i];
    }
  }

  lemma WindowMeans(op: LogicalOp, trace: seq<Element>, horizon: u64)
    requires op.TimeWindowLogical? || op.CountWindowLogical?
    requires WindowFits(op, EventsOf(trace), horizon)
    requires op.TimeWindowLogical? ==> NoLateEvents(trace) && MarksUpTo(trace, horizon)
    ensures var r := RunOps([WithChannel(CompileOp(op))], trace);
            r.Done? && r.value.1 == AsData(OutOf(op, EventsOf(trace)))
  {
    hide RunOps, NoLateEvents, EventsOf, Results, Batch, CountResults, BatchFits;
    if op.TimeWindowLogical? {
      NoMarksWithin(op.spec, trace, horizon);
      WindowRuns(op.spec, op.func, trace, horizon);
    } else {
      CountRuns(op.spec, op.func, trace);
    }
  }

  // ---------- from the source to the sink ----------

  /** What the compiled source emits: every watermark trails by its lateness and comes at its interval. */
  lemma SourceMeans(lateness: u64, interval: u64, events: seq<Event>)
    ensures var op := CompileOp(SourceLogical(lateness, interval));
            var fed, run := Feed([op], AsData(events)), RunOps([op], AsData(events));
            && fed.Done? && run.Done? && EventsOf(run.value.1) == events
            && MarksTrail(run.value.1, lateness) && Increasing(Marks(run.value.1))
            && (events != [] ==> UpToDate(Marks(run.value.1), MaxTs(events), lateness))
            && MarksAtIntervals(fed.value.1, if interval == 0 then 1 else interval)
            && (events != [] && |events| % (if interval == 0 then 1 else interval) == 0 ==>
                  UpToDate(Marks(fed.value.1), MaxTs(events), lateness))
  {
    hide Feed, RunOps, SourceRun, SourceRunAndClose, MarksTrail, Marks, MaxTs, EventsOf, UpToDate, MarksAtIntervals;
    var spec := SourceSpec(lateness, interval);
    SourceFeeds(spec, events);
    SourceRuns(spec, events);
    WatermarksOfRun(spec, events);
    MarkOnlyEveryInterval(spec, events);
    MarkEveryInterval(spec, events);
  }

  /** Source, any maps, filters and windows, sink. */
  function Chain(lateness: u64, interval: u64, ops: seq<LogicalOp>): (r: seq<LogicalOp>)
    requires AllMiddle(ops)
    ensures forall i :: 0 <= i < |r| ==> Compiles(r[i])
  {
    [SourceLogical(lateness, interval)] + ops + [SinkLogical]
  }

  /**
   * What the input must be like: in front of a time window its disorder stays within the lateness,
   * timestamps are kept, and cursors do their work in 64 bits.
   */
  ghost predicate Orderly(lateness: u64, ops: seq<LogicalOp>, events: seq<Event>, horizon: u64) {
    && InHorizon(ops, events, horizon)
    && (TimeWindowFirst(ops) ==>
          KeepsTime(ops) && BoundedDisorder(events, lateness) && forall e :: e in events ==> e.ts <= horizon)
  }

  /**
   * A chain from source to sink, its windows given channels, whatever maps, filters, time windows and
   * count windows are in between: the sink ends up with the meaning of these for the events of the
   * source.
   */
  lemma SinkMeans(lateness: u64, interval: u64, ops: seq<LogicalOp>, events: seq<Event>, horizon: u64)
    returns (out: seq<Event>)
    requires AllMiddle(ops) && Orderly(lateness, ops, events, horizon)
    ensures Means(ops, events, out)
    ensures var r := RunOps(SetChannels(Compiled(Chain(lateness, interval, ops))), AsData(events));
            r.Done? && r.value.0 != [] && r.value.0[|r.value.0| - 1] == SinkOp(out)
  {
    hide RunOps, Orderly, Means, SetChannels, EventsOf, Compiled, CompileOp;
    var trace := OrderlyTrace(SourceSpec(lateness, interval), ops, events, horizon);
    out := ChainMeans(ops, trace, horizon);
    CompiledChain(lateness, interval, ops);
    var source := SourceOp(SourceSpec(lateness, interval), NEW_SOURCE);
    BetweenEnds(source, SetChannels(Compiled(ops)), AsData(events), trace);
  }

  /** What the source feeds into the chain. */
  lemma OrderlyTrace(spec: SourceSpec, ops: seq<LogicalOp>, events: seq<Event>, horizon: u64)
    returns (trace: seq<Element>)
    requires Orderly(spec.lateness, ops, events, horizon)
    ensures var r := RunOps([SourceOp(spec, NEW_SOURCE)], AsData(events));
            r.Done? && r.value.1 == trace
    ensures EventsOf(trace) == events && InHorizon(ops, events, horizon)
    ensures TimeWindowFirst(ops) ==> KeepsTime(ops) && NoLateEvents(trace) && MarksUpTo(trace, horizon)
  {
    hide RunOps, InHorizon, KeepsTime, TimeWindowFirst, BoundedDisorder, NoLateEvents, MarksUpTo,
         SourceRunAndClose, EventsOf, Marks, MarksTrail, UpToDate, MaxTs;
    SourceRuns(spec, events);
    WatermarksOfRun(spec, events);
    trace := SourceRunAndClose(spec, events);
    if TimeWindowFirst(ops) {
      BoundedDisorderIsNeverLate(spec, events);
      SourceMarksWithin(spec, events, horizon);
    }
  }

  lemma BetweenEnds(source: Op, mid: seq<Op>, input: seq<Element>, trace: seq<Element>)
    requires RunOps([source], input).Done? && RunOps([source], input).value.1 == trace
    requires RunOps(mid, trace).Done?
    ensures var r := RunOps([source] + (mid + [SinkOp([])]), input);
            && r.Done? && r.value.0 != []
            && r.value.0[|r.value.0| - 1] == SinkOp(EventsOf(RunOps(mid, trace).value.1))
  {
    hide RunOps, EventsOf;
    RunCompose([source], mid + [SinkOp([])], input);
    RunCompose(mid, [SinkOp([])], trace);
    SinkRuns(RunOps(mid, trace).value.1);
  }

  lemma SourceMarksWithin(spec: SourceSpec, events: seq<Event>, horizon: u64)
    requires forall e :: e in events ==> e.ts <= horizon
    ensures MarksUpTo(SourceRunAndClose(spec, events), horizon)
  {
    hide SourceRunAndClose, MaxTs;
    var trace := SourceRunAndClose(spec, events);
    MaxTsBounds(events);
    MaxTsOfNone(events);
    forall i | 0 <= i < |trace| && trace[i].Mark?
      ensures trace[i].ts <= horizon
    {
      SourceWithin(spec, events, trace[i]);
    }
  }

  lemma CompiledChain(lateness: u64, interval: u64, ops: seq<LogicalOp>)
    requires AllMiddle(ops)
    ensures SetChannels(Compiled(Chain(lateness, interval, ops)))
            == [SourceOp(SourceSpec(lateness, interval), NEW_SOURCE)]
               + (SetChannels(Compiled(ops)) + [SinkOp([])])
  {
    var source, sink := SourceLogical(lateness, interval), SinkLogical;
    var chain := Chain(lateness, interval, ops);
    assert chain[1..] == ops + [sink];
    CompiledRest(chain);
    assert Compiled(ops + [sink]) == Compiled(ops) + [CompileOp(sink)];
    SetChannelsConcat(Compiled(ops), [CompileOp(sink)]);
    SetChannelsOfOne(CompileOp(sink));
  }
}
