/**
 * Linked chains of operators as state transducers: what a chain does with the elements fed to its
 * root, and how closing it from root to tail flushes it.
 */
module Chains {
  import opened Types
  import EventBuffers
  import opened TimeWindows
  import opened Sources
  import CW = CountWindows

  datatype Op =
    | SourceOp(source: SourceSpec, progress: Source)
    | ChannelSourceOp
    | MapOp(transform: Event -> Event)
    | FilterOp(keep: Event -> bool)
    | TimeWindowOp(spec: WindowSpec, func: seq<Event> -> Event, window: TimeWindow)
    | CountWindowOp(spec: WindowSpec, func: seq<Event> -> Event, buffer: seq<Event>, hasChannel: bool)
    | SinkOp(received: seq<Event>)

  predicate IsWindow(op: Op) {
    op.TimeWindowOp? || op.CountWindowOp?
  }

  /** The operators after some elements, and the elements that left the tail. */
  type Effect = Outcome<(seq<Op>, seq<Element>)>

  function Reduced(func: seq<Event> -> Event, windows: seq<seq<Event>>): seq<Element> {
    if windows == [] then [] else [Data(func(windows[0]))] + Reduced(func, windows[1..])
  }

  lemma {:induction false} ReducedAt(func: seq<Event> -> Event, windows: seq<seq<Event>>)
    ensures |Reduced(func, windows)| == |windows|
    ensures forall i :: 0 <= i < |windows| ==> Reduced(func, windows)[i] == Data(func(windows[i]))
  {
    if windows != [] {
      ReducedAt(func, windows[1..]);
      assert forall i :: 0 < i < |windows| ==> windows[1..][i - 1] == windows[i];
    }
  }

  /** Execute: the new state of one operator, and what it hands on. */
  function Execute(op: Op, elem: Element): Outcome<(Op, seq<Element>)> {
    match op
    case SourceOp(spec, progress) =>
      if elem.Data? then
        var (s, out) := AfterPull(progress, spec, elem.event);
        Done((SourceOp(spec, s), out))
      else Done((op, []))
    case ChannelSourceOp => Done((op, [elem]))
    case MapOp(f) => Done((op, [if elem.Data? then Data(f(elem.event)) else elem]))
    case FilterOp(p) => Done((op, if elem.Data? && !p(elem.event) then [] else [elem]))
    case TimeWindowOp(spec, func, window) =>
      var (tw, fired) :- AfterElement(window, spec, elem);
      Done((TimeWindowOp(spec, func, tw), AsData(Results(func, fired))))
    case CountWindowOp(spec, func, buffer, _) =>
      if elem.Data? then
        var (b, fired) := CW.AfterPush(buffer, spec, elem.event);
        Done((op.(buffer := b), Reduced(func, fired)))
      else Done((op, []))
    case SinkOp(received) =>
      Done((if elem.Data? then SinkOp(received + [elem.event]) else op, []))
  }

  /** Close: likewise. */
  function Close(op: Op): Outcome<(Op, seq<Element>)> {
    match op
    case SourceOp(spec, progress) =>
      var (s, out) := AfterLast(progress, spec);
      Done((SourceOp(spec, s), out))
    case TimeWindowOp(spec, func, window) =>
      var (tw, fired) :- AfterClose(window, spec);
      Done((TimeWindowOp(spec, func, tw), AsData(Results(func, fired))))
    case CountWindowOp(spec, func, buffer, hasChannel) =>
      Done((op, Reduced(func, CW.Partial(buffer, hasChannel))))
    case _ => Done((op, []))
  }

  /** One element into the root of a chain; each operator drives the next one. */
  function FeedOne(ops: seq<Op>, elem: Element): (r: Effect)
    ensures r.Done? ==> |r.value.0| == |ops|
    decreases |ops|, 0
  {
    if ops == [] then Done(([], [elem]))
    else
      var (op, outs) :- Execute(ops[0], elem);
      var (rest, left) :- Feed(ops[1..], outs);
      Done(([op] + rest, left))
  }

  /** Several elements into the root, one after the other. */
  function Feed(ops: seq<Op>, elems: seq<Element>): (r: Effect)
    ensures r.Done? ==> |r.value.0| == |ops|
    decreases |ops|, |elems|
  {
    if elems == [] then Done((ops, []))
    else
      var (ops1, left1) :- FeedOne(ops, elems[0]);
      var (ops2, left2) :- Feed(ops1, elems[1..]);
      Done((ops2, left1 + left2))
  }

  /** Close every operator from root to tail. */
  function CloseAll(ops: seq<Op>): (r: Effect)
    ensures r.Done? ==> |r.value.0| == |ops|
    decreases |ops|
  {
    if ops == [] then Done(([], []))
    else
      var (op, outs) :- Close(ops[0]);
      var (rest1, left1) :- Feed(ops[1..], outs);
      var (rest2, left2) :- CloseAll(rest1);
      Done(([op] + rest2, left1 + left2))
  }

  /** A whole life of a chain: everything is fed, then everything is closed. */
  function RunOps(ops: seq<Op>, elems: seq<Element>): (r: Effect)
    ensures r.Done? ==> |r.value.0| == |ops|
  {
    var (ops1, left1) :- Feed(ops, elems);
    var (ops2, left2) :- CloseAll(ops1);
    Done((ops2, left1 + left2))
  }

  // ---------- composition ----------

  /** First `a`, then what left its tail into `b`. */
  function Then(a: Effect, b: seq<Op>): Effect {
    var (a', left) :- a;
    var (b', left') :- Feed(b, left);
    Done((a' + b', left'))
  }

  /** Feed a chain further that has already let some elements leave its tail. */
  function FeedMore(r: Effect, elems: seq<Element>): Effect {
    var (ops, left) :- r;
    var (ops', left') :- Feed(ops, elems);
    Done((ops', left + left'))
  }

  function RunMore(r: Effect, elems: seq<Element>): Effect {
    var (ops, left) :- r;
    var (ops', left') :- RunOps(ops, elems);
    Done((ops', left + left'))
  }

  lemma FeedSingle(ops: seq<Op>, elem: Element)
    ensures Feed(ops, [elem]) == FeedOne(ops, elem)
  {
    hide FeedOne;
    var r := FeedOne(ops, elem);
    if r.Done? {
      assert r.value.1 + [] == r.value.1;
      assert Feed(r.value.0, []) == Done((r.value.0, []));
    }
  }

  /** Feeding x and then y is feeding x + y. */
  lemma {:induction false} FeedConcat(ops: seq<Op>, x: seq<Element>, y: seq<Element>)
    ensures Feed(ops, x + y) == FeedMore(Feed(ops, x), y)
    decreases |x|
  {
    hide FeedOne;
    if x == [] {
      assert x + y == y;
      var r := Feed(ops, y);
      if r.Done? { assert [] + r.value.1 == r.value.1; }
    } else {
      assert (x + y)[0] == x[0] && (x + y)[1..] == x[1..] + y;
      var first := FeedOne(ops, x[0]);
      if first.Done? {
        var (ops1, left1) := first.value;
        FeedConcat(ops1, x[1..], y);
        var second := Feed(ops1, x[1..]);
        if second.Done? {
          var third := Feed(second.value.0, y);
          if third.Done? {
            EventBuffers.SeqAssoc(left1, second.value.1, third.value.1);
          }
        }
      }
    }
  }

  /** Feeding a chain is feeding its front, and feeding its back what leaves the front. */
  lemma {:induction false} FeedCompose(a: seq<Op>, b: seq<Op>, elems: seq<Element>)
    ensures Feed(a + b, elems) == Then(Feed(a, elems), b)
    decreases |a|, |elems|
  {
    hide FeedOne;
    if elems != [] {
      FeedOneCompose(a, b, elems[0]);
      var first := FeedOne(a, elems[0]);
      if first.Done? {
        var (a1, left1) := first.value;
        var back := Feed(b, left1);
        if back.Done? {
          FeedCompose(a1, back.value.0, elems[1..]);
        }
        var second := Feed(a1, elems[1..]);
        if second.Done? {
          FeedConcat(b, left1, second.value.1);
        }
      }
    }
  }

  lemma {:induction false} FeedOneCompose(a: seq<Op>, b: seq<Op>, elem: Element)
    ensures FeedOne(a + b, elem) == Then(FeedOne(a, elem), b)
    decreases |a|, 0
  {
    hide Execute, Feed;
    if a == [] {
      assert a + b == b;
      FeedSingle(b, elem);
      var r := FeedOne(b, elem);
      if r.Done? { assert [] + r.value.0 == r.value.0; }
    } else {
      assert (a + b)[0] == a[0] && (a + b)[1..] == a[1..] + b;
      var first := Execute(a[0], elem);
      if first.Done? {
        FeedCompose(a[1..], b, first.value.1);
        var rest := Feed(a[1..], first.value.1);
        if rest.Done? {
          var back := Feed(b, rest.value.1);
          if back.Done? {
            EventBuffers.SeqAssoc([first.value.0], rest.value.0, back.value.0);
          }
        }
      }
    }
  }

  /** What closing the back of a chain adds after the front has been closed. */
  function ThenClose(a: Effect, b: seq<Op>): Effect {
    var (a', left) :- a;
    var (b', left') :- RunOps(b, left);
    Done((a' + b', left'))
  }

  /** Closing a chain: the front is closed first, and the back is fed its flush before closing. */
  lemma {:induction false} CloseCompose(a: seq<Op>, b: seq<Op>)
    ensures CloseAll(a + b) == ThenClose(CloseAll(a), b)
    decreases |a|
  {
    hide Close, Feed;
    if a == [] {
      assert a + b == b;
      FeedNothing(b);
      var r := CloseAll(b);
      if r.Done? { assert [] + r.value.1 == r.value.1 && [] + r.value.0 == r.value.0; }
    } else {
      assert (a + b)[0] == a[0] && (a + b)[1..] == a[1..] + b;
      var first := Close(a[0]);
      if first.Done? {
        var (op, outs) := first.value;
        FeedCompose(a[1..], b, outs);
        var front := Feed(a[1..], outs);
        if front.Done? {
          var (a1, left1) := front.value;
          var back := Feed(b, left1);
          if back.Done? {
            CloseCompose(a1, back.value.0);
          }
          var rest := CloseAll(a1);
          if rest.Done? {
            RunConcat(b, left1, rest.value.1);
            if RunOps(b, left1 + rest.value.1).Done? {
              EventBuffers.SeqAssoc([op], rest.value.0, RunOps(b, left1 + rest.value.1).value.0);
            }
          }
        }
      }
    }
  }

  /** Running a chain on x + y is feeding it x and then running it on y. */
  lemma {:induction false} RunConcat(ops: seq<Op>, x: seq<Element>, y: seq<Element>)
    ensures RunOps(ops, x + y) == RunMore(Feed(ops, x), y)
  {
    hide Feed, CloseAll;
    FeedConcat(ops, x, y);
    var first := Feed(ops, x);
    if first.Done? {
      var second := Feed(first.value.0, y);
      if second.Done? {
        var last := CloseAll(second.value.0);
        if last.Done? { EventBuffers.SeqAssoc(first.value.1, second.value.1, last.value.1); }
      }
    }
  }

  lemma FeedNothing(ops: seq<Op>)
    ensures Feed(ops, []) == Done((ops, []))
  {}

  /**
   * The life of a chain is the life of its front followed by the life of its back on everything
   * that left the front, although the two run interleaved, element by element.
   */
  lemma RunCompose(a: seq<Op>, b: seq<Op>, elems: seq<Element>)
    ensures RunOps(a + b, elems) == ThenClose(RunOps(a, elems), b)
  {
    hide Feed, CloseAll;
    FeedCompose(a, b, elems);
    var front := Feed(a, elems);
    if front.Done? {
      var (a1, left1) := front.value;
      var back := Feed(b, left1);
      if back.Done? {
        CloseCompose(a1, back.value.0);
      }
      var rest := CloseAll(a1);
      if rest.Done? {
        RunConcat(b, left1, rest.value.1);
      }
    }
  }
}
