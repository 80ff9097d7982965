/** The time-window operator: one step of it as a function, and the operator that takes it. */
module TimeWindows {
  import opened Types
  import opened Cursors
  import opened EventBuffers
  import opened InputChannels

  /** `Hang`: a loop of the operator never ends. */
  datatype Outcome<+T> = Done(value: T) | Hang {
    predicate IsFailure() { Hang? }

    function PropagateFailure<U>(): Outcome<U>
      requires Hang?
    {
      Hang
    }

    function Extract(): T
      requires Done?
    {
      value
    }
  }

  datatype TimeWindow = TimeWindow(buffer: seq<Event>, cursor: u64, initialized: bool)

  const FRESH := TimeWindow([], 0, false)

  /** A window handed to the user function: its exclusive end and its events. */
  datatype Firing = Firing(end: int, events: seq<Event>)

  function StartOf(end: int, size: int): int {
    if end > size then end - size else 0
  }

  /** Empty windows are not handed to the user function. */
  function FiringOf(events: seq<Event>, end: int): seq<Firing> {
    if events == [] then [] else [Firing(end, events)]
  }

  /** What one turn of either loop hands to the user function. */
  function FiredAt(buffer: seq<Event>, spec: WindowSpec, cursor: int): seq<Firing> {
    FiringOf(Between(buffer, StartOf(cursor, spec.size), cursor), cursor)
  }

  function Results(func: seq<Event> -> Event, firings: seq<Firing>): (r: seq<Event>)
    ensures |r| == |firings|
  {
    if firings == [] then [] else [func(firings[0].events)] + Results(func, firings[1..])
  }

  /** The i-th result is the user function of the i-th window's events, in the order of the window. */
  lemma {:induction false} ResultsAt(func: seq<Event> -> Event, firings: seq<Firing>)
    ensures forall i :: 0 <= i < |firings| ==> Results(func, firings)[i] == func(firings[i].events)
  {
    if firings != [] {
      ResultsAt(func, firings[1..]);
      assert forall i :: 0 < i < |firings| ==> firings[1..][i - 1] == firings[i];
    }
  }

  lemma {:induction false} ResultsConcat(func: seq<Event> -> Event, a: seq<Firing>, b: seq<Firing>)
    ensures Results(func, a + b) == Results(func, a) + Results(func, b)
  {
    if a == [] {
      assert a + b == b;
    } else {
      assert (a + b)[1..] == a[1..] + b;
      ResultsConcat(func, a[1..], b);
    }
  }

  lemma EmitStep(
    func: seq<Event> -> Event, before: seq<Event>, fired: seq<Firing>, rest: seq<Firing>)
    ensures before + Results(func, fired + rest)
            == (before + Results(func, fired)) + Results(func, rest)
  {
    ResultsConcat(func, fired, rest);
  }

  /** The latest timestamp, 0 when there is none. */
  function MaxTs(s: seq<Event>): u64 {
    if s == [] then 0
    else
      var m, t := MaxTs(s[..|s| - 1]), s[|s| - 1].ts;
      if m < t then t else m
  }

  lemma MaxTsAppend(s: seq<Event>, e: Event)
    ensures MaxTs(s + [e]) == if MaxTs(s) < e.ts then e.ts else MaxTs(s)
  {
    assert (s + [e])[..|s|] == s;
  }

  lemma {:induction false} MaxTsBounds(s: seq<Event>)
    ensures forall e :: e in s ==> e.ts <= MaxTs(s)
    ensures s != [] ==> exists e :: e in s && e.ts == MaxTs(s)
  {
    if s != [] {
      var front, e := s[..|s| - 1], s[|s| - 1];
      MaxTsBounds(front);
      assert s == front + [e];
      if MaxTs(s) == e.ts {
        assert e in s;
      } else {
        assert front != [];
        var x :| x in front && x.ts == MaxTs(front);
        assert x in s;
      }
    }
  }

  function AfterEvent(tw: TimeWindow, spec: WindowSpec, e: Event): TimeWindow {
    TimeWindow(Inserted(tw.buffer, e), if tw.initialized then tw.cursor else spec.advance, true)
  }

  // ---------- on_watermark ----------

  /** The windows fired by a watermark at `wm`. */
  function FireUpTo(buffer: seq<Event>, spec: WindowSpec, cursor: u64, wm: u64): seq<Firing>
    requires Exits(cursor, spec.advance, wm)
    decreases ExitCount(cursor, spec.advance, wm)
  {
    if cursor > wm then []
    else
      ExitStep(cursor, spec.advance, wm);
      FiredAt(buffer, spec, cursor)
      + FireUpTo(buffer, spec, WrapAdd(cursor, spec.advance), wm)
  }

  /** The cursor that watermark leaves behind. */
  function PastMark(spec: WindowSpec, cursor: u64, wm: u64): (r: u64)
    requires Exits(cursor, spec.advance, wm)
    decreases ExitCount(cursor, spec.advance, wm)
    ensures r > wm
  {
    if cursor > wm then cursor
    else
      ExitStep(cursor, spec.advance, wm);
      PastMark(spec, WrapAdd(cursor, spec.advance), wm)
  }

  function Cleaned(buffer: seq<Event>, spec: WindowSpec, cursor: u64): seq<Event> {
    Between(buffer, StartOf(cursor, spec.size), U64_LIMIT)
  }

  function AfterWatermark(tw: TimeWindow, spec: WindowSpec, wm: u64): Outcome<(TimeWindow, seq<Firing>)> {
    if !tw.initialized then Done((tw, []))
    else if !Exits(tw.cursor, spec.advance, wm) then Hang
    else
      var cursor := PastMark(spec, tw.cursor, wm);
      Done((TimeWindow(Cleaned(tw.buffer, spec, cursor), cursor, true),
            FireUpTo(tw.buffer, spec, tw.cursor, wm)))
  }

  function AfterElement(tw: TimeWindow, spec: WindowSpec, elem: Element): Outcome<(TimeWindow, seq<Firing>)> {
    match elem
    case Data(e) => Done((AfterEvent(tw, spec, e), []))
    case Mark(wm) => AfterWatermark(tw, spec, wm)
  }

  // ---------- close ----------

  /** Whether the flush loop ever empties the buffer; see FlushEndsExactly. */
  predicate FlushExits(buffer: seq<Event>, spec: WindowSpec, cursor: u64) {
    buffer == [] || Exits(cursor, spec.advance, MaxTs(buffer) + spec.size)
  }

  ghost function FlushRounds(buffer: seq<Event>, spec: WindowSpec, cursor: u64): nat
    requires FlushExits(buffer, spec, cursor)
  {
    if buffer == [] then 0
    else
      ExitsAgain(cursor, spec.advance, MaxTs(buffer) + spec.size);
      1 + ExitCount(WrapAdd(cursor, spec.advance), spec.advance, MaxTs(buffer) + spec.size)
  }

  /** Cleaning either keeps the latest timestamp or removes everything. */
  lemma CleanedMax(buffer: seq<Event>, spec: WindowSpec, cursor: u64)
    ensures Cleaned(buffer, spec, cursor) != []
            ==> MaxTs(Cleaned(buffer, spec, cursor)) == MaxTs(buffer)
                && cursor <= MaxTs(buffer) + spec.size
    ensures buffer != [] && cursor <= MaxTs(buffer) + spec.size ==> Cleaned(buffer, spec, cursor) != []
  {
    var s, kept := StartOf(cursor, spec.size), Cleaned(buffer, spec, cursor);
    BetweenMembers(buffer, s, U64_LIMIT);
    MaxTsBounds(buffer);
    MaxTsBounds(kept);
    if buffer != [] {
      var x :| x in buffer && x.ts == MaxTs(buffer);
      assert s <= x.ts ==> x in kept;
    }
  }

  lemma FlushStep(buffer: seq<Event>, spec: WindowSpec, cursor: u64)
    requires buffer != [] && FlushExits(buffer, spec, cursor)
    ensures var c := WrapAdd(cursor, spec.advance);
            FlushExits(Cleaned(buffer, spec, c), spec, c)
            && FlushRounds(Cleaned(buffer, spec, c), spec, c) < FlushRounds(buffer, spec, cursor)
  {
    var a, bound := spec.advance, MaxTs(buffer) + spec.size;
    var c := WrapAdd(cursor, a);
    ExitsAgain(cursor, a, bound);
    CleanedMax(buffer, spec, c);
    if Cleaned(buffer, spec, c) != [] {
      ExitStep(c, a, bound);
    }
  }

  /** The windows fired by the flush loop. */
  function Flush(buffer: seq<Event>, spec: WindowSpec, cursor: u64): seq<Firing>
    requires FlushExits(buffer, spec, cursor)
    decreases FlushRounds(buffer, spec, cursor)
  {
    if buffer == [] then []
    else
      FlushStep(buffer, spec, cursor);
      var c := WrapAdd(cursor, spec.advance);
      FiredAt(buffer, spec, cursor)
      + Flush(Cleaned(buffer, spec, c), spec, c)
  }

  lemma FlushFiresAndGoesOn(buffer: seq<Event>, spec: WindowSpec, cursor: u64)
    requires buffer != [] && FlushExits(buffer, spec, cursor)
    ensures var c := WrapAdd(cursor, spec.advance);
            && FlushExits(Cleaned(buffer, spec, c), spec, c)
            && Flush(buffer, spec, cursor) == FiredAt(buffer, spec, cursor) + Flush(Cleaned(buffer, spec, c), spec, c)
  {
    hide FlushExits;
    FlushStep(buffer, spec, cursor);
  }

  function FlushCursor(buffer: seq<Event>, spec: WindowSpec, cursor: u64): u64
    requires FlushExits(buffer, spec, cursor)
    decreases FlushRounds(buffer, spec, cursor)
  {
    if buffer == [] then cursor
    else
      FlushStep(buffer, spec, cursor);
      var c := WrapAdd(cursor, spec.advance);
      FlushCursor(Cleaned(buffer, spec, c), spec, c)
  }

  function AfterClose(tw: TimeWindow, spec: WindowSpec): Outcome<(TimeWindow, seq<Firing>)> {
    if !tw.initialized then Done((tw, []))
    else if !FlushExits(tw.buffer, spec, tw.cursor) then Hang
    else
      Done((TimeWindow([], FlushCursor(tw.buffer, spec, tw.cursor), true),
            Flush(tw.buffer, spec, tw.cursor)))
  }

  // ---------- when the loops end ----------

  /** What the flush loop holds after `n` rounds. */
  function AfterRounds(buffer: seq<Event>, spec: WindowSpec, cursor: u64, n: nat): seq<Event>
    decreases n
  {
    if n == 0 then buffer
    else
      var c := WrapAdd(cursor, spec.advance);
      AfterRounds(Cleaned(buffer, spec, c), spec, c, n - 1)
  }

  /** The flush loop empties its buffer after some number of rounds if and only if FlushExits. */
  lemma FlushEndsExactly(buffer: seq<Event>, spec: WindowSpec, cursor: u64)
    ensures FlushExits(buffer, spec, cursor)
            <==> exists n: nat :: AfterRounds(buffer, spec, cursor, n) == []
  {
    if FlushExits(buffer, spec, cursor) {
      var n := RoundsToEmpty(buffer, spec, cursor);
      assert AfterRounds(buffer, spec, cursor, n) == [];
    }
    if n: nat :| AfterRounds(buffer, spec, cursor, n) == [] {
      EmptyMeansExit(buffer, spec, cursor, n);
    }
  }

  lemma {:induction false} RoundsToEmpty(buffer: seq<Event>, spec: WindowSpec, cursor: u64) returns (n: nat)
    requires FlushExits(buffer, spec, cursor)
    ensures AfterRounds(buffer, spec, cursor, n) == []
    decreases FlushRounds(buffer, spec, cursor)
  {
    if buffer == [] { return 0; }
    FlushStep(buffer, spec, cursor);
    var c := WrapAdd(cursor, spec.advance);
    n := RoundsToEmpty(Cleaned(buffer, spec, c), spec, c);
    n := n + 1;
  }

  lemma {:induction false} EmptyMeansExit(buffer: seq<Event>, spec: WindowSpec, cursor: u64, n: nat)
    requires AfterRounds(buffer, spec, cursor, n) == []
    ensures FlushExits(buffer, spec, cursor)
    decreases n
  {
    if n > 0 && buffer != [] {
      var a, bound := spec.advance, MaxTs(buffer) + spec.size;
      var c := WrapAdd(cursor, a);
      EmptyMeansExit(Cleaned(buffer, spec, c), spec, c, n - 1);
      CleanedMax(buffer, spec, c);
      ExitsAgain(cursor, a, bound);
      if Cleaned(buffer, spec, c) == [] {
        assert Advance(c, a, 0) > bound;
        ExitsExactly(c, a, bound);
      }
    }
  }

  // ---------- the operator ----------

  class TimeWindowOperator {
    const spec: WindowSpec
    const func: seq<Event> -> Event
    const buffer: EventBuffer
    var nextWindowEnd: u64
    var windowInitialized: bool
    var outputChannel: InputChannel?
    var forwarded: seq<Event>  // results given to the next operator when no channel is set

    ghost predicate Valid()
      reads this, buffer
    {
      buffer.Valid()
    }

    ghost function State(): TimeWindow
      reads this, buffer
    {
      TimeWindow(buffer.events, nextWindowEnd, windowInitialized)
    }

    /** Everything emitted so far that the reader has not taken out of the channel. */
    ghost function Emitted(): seq<Event>
      reads this, outputChannel
    {
      if outputChannel != null then outputChannel.queue else forwarded
    }

    constructor (spec: WindowSpec, func: seq<Event> -> Event, channel: InputChannel?)
      ensures Valid() && fresh(buffer) && State() == FRESH
      ensures this.spec == spec && this.func == func && outputChannel == channel
      ensures Emitted() == if channel == null then [] else channel.queue
    {
      this.spec, this.func := spec, func;
      buffer := new EventBuffer();
      nextWindowEnd, windowInitialized := 0, false;
      outputChannel, forwarded := channel, [];
    }

    method Emit(result: Event)
      modifies `forwarded, outputChannel
      ensures Emitted() == old(Emitted()) + [result]
      ensures outputChannel != null ==> forwarded == old(forwarded) && outputChannel.closed == old(outputChannel.closed)
    {
      if outputChannel != null {
        outputChannel.Write(result);
      } else {
        forwarded := forwarded + [result];
      }
    }

    /** One turn of either loop: query the window that ends at the cursor, emit if not empty. */
    method FireAtCursor() returns (ghost fired: seq<Firing>)
      requires Valid()
      modifies `forwarded, outputChannel
      ensures fired == FiredAt(buffer.events, spec, nextWindowEnd)
      ensures Emitted() == old(Emitted()) + Results(func, fired)
      ensures outputChannel != null ==> forwarded == old(forwarded) && outputChannel.closed == old(outputChannel.closed)
    {
      var start: u64 := if nextWindowEnd > spec.size then nextWindowEnd - spec.size else 0;
      var events := buffer.Query(start, nextWindowEnd);
      fired := FiringOf(events, nextWindowEnd);
      if |events| != 0 {
        var result := func(events);
        Emit(result);
        assert Results(func, fired) == [result] + Results(func, []);
      }
    }

    method FireLoop(wm: u64)
      requires Valid() && Exits(nextWindowEnd, spec.advance, wm)
      modifies this, outputChannel
      ensures windowInitialized == old(windowInitialized) && outputChannel == old(outputChannel)
      ensures outputChannel != null ==> forwarded == old(forwarded) && outputChannel.closed == old(outputChannel.closed)
      ensures nextWindowEnd == PastMark(spec, old(nextWindowEnd), wm)
      ensures Emitted() == old(Emitted() + Results(func, FireUpTo(buffer.events, spec, nextWindowEnd, wm)))
    {
      ghost var last := PastMark(spec, nextWindowEnd, wm);
      ghost var target := Emitted() + Results(func, FireUpTo(buffer.events, spec, nextWindowEnd, wm));
      while nextWindowEnd <= wm
        invariant windowInitialized == old(windowInitialized) && outputChannel == old(outputChannel)
        invariant outputChannel != null ==> forwarded == old(forwarded)
        invariant outputChannel != null ==> outputChannel.closed == old(outputChannel.closed)
        invariant Exits(nextWindowEnd, spec.advance, wm)
        invariant Emitted() + Results(func, FireUpTo(buffer.events, spec, nextWindowEnd, wm)) == target
        invariant PastMark(spec, nextWindowEnd, wm) == last
        decreases ExitCount(nextWindowEnd, spec.advance, wm)
      {
        ExitStep(nextWindowEnd, spec.advance, wm);
        ghost var before := Emitted();
        ghost var rest := FireUpTo(buffer.events, spec, WrapAdd(nextWindowEnd, spec.advance), wm);
        ghost var fired := FireAtCursor();
        EmitStep(func, before, fired, rest);
        // the second comparison of cursor and watermark, which never breaks out of the loop
        if nextWindowEnd > wm { break; }
        nextWindowEnd := WrapAdd(nextWindowEnd, spec.advance);
      }
    }

    method OnWatermark(wm: u64)
      requires Valid()
      requires AfterWatermark(State(), spec, wm).Done?
      modifies this, buffer, outputChannel
      ensures Valid() && outputChannel == old(outputChannel)
      ensures outputChannel != null ==> forwarded == old(forwarded) && outputChannel.closed == old(outputChannel.closed)
      ensures var (tw, fired) := AfterWatermark(old(State()), spec, wm).value;
              State() == tw && Emitted() == old(Emitted()) + Results(func, fired)
    {
      if !windowInitialized { return; }
      FireLoop(wm);
      var earliest: u64 := if nextWindowEnd > spec.size then nextWindowEnd - spec.size else 0;
      buffer.CleanupBefore(earliest);
    }

    method Execute(elem: Element)
      requires Valid()
      requires AfterElement(State(), spec, elem).Done?
      modifies this, buffer, outputChannel
      ensures Valid() && outputChannel == old(outputChannel)
      ensures outputChannel != null ==> forwarded == old(forwarded) && outputChannel.closed == old(outputChannel.closed)
      ensures var (tw, fired) := AfterElement(old(State()), spec, elem).value;
              State() == tw && Emitted() == old(Emitted()) + Results(func, fired)
    {
      match elem {
        case Data(event) =>
          buffer.Insert(event);
          if !windowInitialized {
            nextWindowEnd := spec.advance;
            windowInitialized := true;
          }
        case Mark(wm) =>
          OnWatermark(wm);
      }
    }

    method FlushAll()
      requires Valid() && windowInitialized
      requires FlushExits(buffer.events, spec, nextWindowEnd)
      modifies this, buffer, outputChannel
      ensures Valid() && windowInitialized && outputChannel == old(outputChannel)
      ensures outputChannel != null ==> forwarded == old(forwarded)
      ensures buffer.events == []
      ensures nextWindowEnd == old(FlushCursor(buffer.events, spec, nextWindowEnd))
      ensures Emitted() == old(Emitted() + Results(func, Flush(buffer.events, spec, nextWindowEnd)))
    {
      ghost var last := FlushCursor(buffer.events, spec, nextWindowEnd);
      ghost var target := Emitted() + Results(func, Flush(buffer.events, spec, nextWindowEnd));
      var empty := buffer.Empty();
      while !empty
        invariant empty <==> buffer.events == []
        invariant Valid() && windowInitialized && outputChannel == old(outputChannel)
        invariant outputChannel != null ==> forwarded == old(forwarded)
        invariant FlushExits(buffer.events, spec, nextWindowEnd)
        invariant Emitted() + Results(func, Flush(buffer.events, spec, nextWindowEnd)) == target
        invariant FlushCursor(buffer.events, spec, nextWindowEnd) == last
        decreases FlushRounds(buffer.events, spec, nextWindowEnd)
      {
        FlushStep(buffer.events, spec, nextWindowEnd);
        FlushTurn();
        empty := buffer.Empty();
      }
    }

    method FlushTurn()
      requires Valid() && windowInitialized
      requires buffer.events != [] && FlushExits(buffer.events, spec, nextWindowEnd)
      modifies this, buffer, outputChannel
      ensures Valid() && windowInitialized && outputChannel == old(outputChannel)
      ensures outputChannel != null ==> forwarded == old(forwarded)
      ensures nextWindowEnd == WrapAdd(old(nextWindowEnd), spec.advance)
      ensures buffer.events == Cleaned(old(buffer.events), spec, nextWindowEnd)
      ensures FlushExits(buffer.events, spec, nextWindowEnd)
      ensures Emitted() + Results(func, Flush(buffer.events, spec, nextWindowEnd))
              == old(Emitted() + Results(func, Flush(buffer.events, spec, nextWindowEnd)))
    {
      hide FlushExits, Flush, Results, FiredAt;
      FlushFiresAndGoesOn(buffer.events, spec, nextWindowEnd);
      ghost var next := WrapAdd(nextWindowEnd, spec.advance);
      ghost var rest := Flush(Cleaned(buffer.events, spec, next), spec, next);
      ghost var before := Emitted();
      ghost var fired := FireAtCursor();
      EmitStep(func, before, fired, rest);
      nextWindowEnd := WrapAdd(nextWindowEnd, spec.advance);
      var earliest: u64 := if nextWindowEnd > spec.size then nextWindowEnd - spec.size else 0;
      buffer.CleanupBefore(earliest);
    }

    method Close()
      requires Valid()
      requires AfterClose(State(), spec).Done?
      modifies this, buffer, outputChannel
      ensures Valid() && outputChannel == old(outputChannel)
      ensures outputChannel != null ==> forwarded == old(forwarded) && outputChannel.closed
      ensures var (tw, fired) := AfterClose(old(State()), spec).value;
              State() == tw && Emitted() == old(Emitted()) + Results(func, fired)
    {
      hide FlushExits, Flush, FlushCursor, Results;
      if windowInitialized {
        FlushAll();
      }
      if outputChannel != null {
        outputChannel.Close();
      }
    }
  }
}
