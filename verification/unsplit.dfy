/** When the uncut chain, which has no channels, agrees with the cut one, and by how much it differs. */
module Unsplit {
  import opened Types
  import EventBuffers
  import opened TimeWindows
  import opened Chains
  import opened Splits
  import CW = CountWindows

  /** The same effect with channels set on the windows. */
  function Channelled(r: Effect): Effect {
    var (ops, left) :- r;
    Done((SetChannels(ops), left))
  }

  /** No count window is left with events that only a channel would have made it emit. */
  ghost predicate Settled(ops: seq<Op>) {
    forall i :: 0 <= i < |ops| && ops[i].CountWindowOp? ==> ops[i].buffer == [] || ops[i].hasChannel
  }

  lemma SetChannelsHead(op: Op, rest: seq<Op>)
    ensures SetChannels([op] + rest) == [WithChannel(op)] + SetChannels(rest)
  {
    assert ([op] + rest)[1..] == rest;
  }

  /** While events flow, channels make no difference to the state of any operator. */
  lemma {:induction false} FeedOneChannels(ops: seq<Op>, elem: Element)
    ensures FeedOne(SetChannels(ops), elem) == Channelled(FeedOne(ops, elem))
    decreases |ops|, 0
  {
    hide Feed;
    if ops != [] {
      assert SetChannels(ops)[0] == WithChannel(ops[0]) && SetChannels(ops)[1..] == SetChannels(ops[1..]);
      ExecuteChannel(ops[0], elem);
      hide Execute;
      var first := Execute(ops[0], elem);
      if first.Done? {
        FeedChannels(ops[1..], first.value.1);
        var rest := Feed(ops[1..], first.value.1);
        if rest.Done? { SetChannelsHead(first.value.0, rest.value.0); }
      }
    }
  }

  lemma ExecuteChannel(op: Op, elem: Element)
    ensures match Execute(op, elem)
            case Hang => Execute(WithChannel(op), elem).Hang?
            case Done((op', outs)) => Execute(WithChannel(op), elem) == Done((WithChannel(op'), outs))
  {}

  lemma {:induction false} FeedChannels(ops: seq<Op>, elems: seq<Element>)
    ensures Feed(SetChannels(ops), elems) == Channelled(Feed(ops, elems))
    decreases |ops|, |elems|
  {
    hide FeedOne, SetChannels;
    if elems != [] {
      FeedOneChannels(ops, elems[0]);
      var first := FeedOne(ops, elems[0]);
      if first.Done? {
        FeedChannels(first.value.0, elems[1..]);
      }
    }
  }

  lemma {:induction false} CloseChannels(ops: seq<Op>)
    requires CloseAll(ops).Done? && Settled(CloseAll(ops).value.0)
    ensures CloseAll(SetChannels(ops)) == Channelled(CloseAll(ops))
    decreases |ops|
  {
    hide Feed;
    if ops != [] {
      assert SetChannels(ops)[0] == WithChannel(ops[0]) && SetChannels(ops)[1..] == SetChannels(ops[1..]);
      var final := CloseAll(ops).value.0;
      assert final[0] == Close(ops[0]).value.0;
      var (op, outs) := Close(ops[0]).value;
      assert Close(WithChannel(ops[0])) == Done((WithChannel(op), outs));
      hide Close;
      FeedChannels(ops[1..], outs);
      var rest := Feed(ops[1..], outs).value.0;
      SettledRest(op, CloseAll(rest).value.0);
      CloseChannels(rest);
      SetChannelsHead(op, CloseAll(rest).value.0);
    }
  }

  lemma SettledRest(op: Op, rest: seq<Op>)
    requires Settled([op] + rest)
    ensures Settled(rest)
  {
    forall i | 0 <= i < |rest| && rest[i].CountWindowOp?
      ensures rest[i].buffer == [] || rest[i].hasChannel
    {
      assert ([op] + rest)[i + 1] == rest[i];
    }
  }

  /**
   * If the uncut run leaves no count window with a partial buffer, then setting channels changes
   * nothing that is computed: every operator ends in the same state, sinks included.
   */
  lemma SettledRunsAgree(ops: seq<Op>, elems: seq<Element>)
    requires RunOps(ops, elems).Done? && Settled(RunOps(ops, elems).value.0)
    ensures RunOps(SetChannels(ops), elems) == Channelled(RunOps(ops, elems))
  {
    hide Feed, CloseAll, SetChannels, Settled;
    FeedChannels(ops, elems);
    CloseChannels(Feed(ops, elems).value.0);
  }

  /** The run of a prefix of a chain is a prefix of its run. */
  lemma PrefixOfRun(a: seq<Op>, b: seq<Op>, elems: seq<Element>)
    requires RunOps(a + b, elems).Done?
    ensures RunOps(a, elems).Done? && RunOps(b, RunOps(a, elems).value.1).Done?
    ensures RunOps(a + b, elems).value.0 == RunOps(a, elems).value.0 + RunOps(b, RunOps(a, elems).value.1).value.0
  {
    hide RunOps;
    RunCompose(a, b, elems);
  }

  lemma SetChannelsOfOne(op: Op)
    ensures SetChannels([op]) == [WithChannel(op)]
  {
    assert [op][1..] == [] && SetChannels([]) == [];
  }

  /** A count window left with a partial buffer emits one result more if it has a channel. */
  lemma ChannelAddsOne(op: Op, elems: seq<Element>)
    requires op.CountWindowOp? && !op.hasChannel
    requires RunOps([op], elems).Done? && !Settled(RunOps([op], elems).value.0)
    ensures RunOps([WithChannel(op)], elems).Done?
    ensures |RunOps([WithChannel(op)], elems).value.1| == |RunOps([op], elems).value.1| + 1
  {
    hide Feed, FeedOne;
    SetChannelsOfOne(op);
    FeedChannels([op], elems);
    var (ops, left) := Feed([op], elems).value;
    SetChannelsOfOne(ops[0]);
    assert ops == [ops[0]];
    CloseOneOperator(ops[0]);
    CloseOneOperator(WithChannel(ops[0]));
    hide CloseAll;
    FeedKeepsKind(op, elems);
    assert Reduced(ops[0].func, [ops[0].buffer]) == [Data(ops[0].func(ops[0].buffer))] + Reduced(ops[0].func, []);
  }

  /**
   * Exactly when channels change nothing: the uncut run leaves no count window with a partial
   * buffer if and only if every part of the chain from its root on lets the same elements out, and
   * ends in the same states, with channels as without.
   */
  lemma SettledExactly(ops: seq<Op>, elems: seq<Element>)
    requires RunOps(ops, elems).Done?
    ensures Settled(RunOps(ops, elems).value.0)
            <==> forall k :: 0 <= k <= |ops| ==>
                   RunOps(SetChannels(ops[..k]), elems) == Channelled(RunOps(ops[..k], elems))
  {
    hide RunOps, SetChannels, Settled, Channelled;
    var final := RunOps(ops, elems).value.0;
    forall k | 0 <= k <= |ops|
      ensures RunOps(ops[..k], elems).Done? && RunOps(ops[..k], elems).value.0 == final[..k]
    {
      assert ops == ops[..k] + ops[k..];
      PrefixOfRun(ops[..k], ops[k..], elems);
    }
    if Settled(final) {
      forall k | 0 <= k <= |ops|
        ensures RunOps(SetChannels(ops[..k]), elems) == Channelled(RunOps(ops[..k], elems))
      {
        SettledPrefix(final, k);
        SettledRunsAgree(ops[..k], elems);
      }
    } else {
      var k := FirstUnsettled(final);
      SettledRunsAgree(ops[..k], elems);
      UnsettledDiffers(ops, k, elems);
    }
  }

  lemma SettledPrefix(ops: seq<Op>, k: nat)
    requires Settled(ops) && k <= |ops|
    ensures Settled(ops[..k])
  {}

  lemma {:induction false} FirstUnsettled(ops: seq<Op>) returns (k: nat)
    requires !Settled(ops)
    ensures k < |ops| && Settled(ops[..k]) && ops[k].CountWindowOp? && ops[k].buffer != [] && !ops[k].hasChannel
    decreases |ops|
  {
    var last := |ops| - 1;
    if Settled(ops[..last]) {
      k := last;
    } else {
      k := FirstUnsettled(ops[..last]);
      assert ops[..last][..k] == ops[..k];
    }
  }

  lemma RunKeepsKind(op: Op, elems: seq<Element>)
    requires RunOps([op], elems).Done?
    ensures |RunOps([op], elems).value.0| == 1
    ensures var op' := RunOps([op], elems).value.0[0];
            (op.CountWindowOp? <==> op'.CountWindowOp?) && (op.CountWindowOp? ==> op.hasChannel == op'.hasChannel)
    decreases |elems|
  {
    hide Feed, FeedOne;
    FeedKeepsKind(op, elems);
    var ops := Feed([op], elems).value.0;
    assert ops == [ops[0]];
    CloseOneOperator(ops[0]);
    hide CloseAll;
  }

  lemma {:induction false} FeedKeepsKind(op: Op, elems: seq<Element>)
    requires Feed([op], elems).Done?
    ensures var op' := Feed([op], elems).value.0[0];
            (op.CountWindowOp? <==> op'.CountWindowOp?) && (op.CountWindowOp? ==> op.hasChannel == op'.hasChannel)
    decreases |elems|
  {
    hide FeedOne;
    if elems != [] {
      FeedOneOperator(op, elems[0]);
      var op' := Execute(op, elems[0]).value.0;
      assert (op.CountWindowOp? <==> op'.CountWindowOp?) && (op.CountWindowOp? ==> op.hasChannel == op'.hasChannel);
      hide Execute;
      FeedKeepsKind(op', elems[1..]);
    }
  }

  lemma UnsettledDiffers(ops: seq<Op>, k: nat, elems: seq<Element>)
    requires k < |ops| && RunOps(ops[..k + 1], elems).Done?
    requires RunOps(SetChannels(ops[..k]), elems) == Channelled(RunOps(ops[..k], elems))
    requires var op := RunOps(ops[..k + 1], elems).value.0[k];
             op.CountWindowOp? && op.buffer != [] && !op.hasChannel
    ensures RunOps(SetChannels(ops[..k + 1]), elems) != Channelled(RunOps(ops[..k + 1], elems))
  {
    hide RunOps, SetChannels, Settled;
    var a, op := ops[..k], ops[k];
    assert ops[..k + 1] == a + [op];
    PrefixOfRun(a, [op], elems);
    RunCompose(a, [op], elems);
    var (states, left) := RunOps(a, elems).value;
    RunKeepsKind(op, left);
    assert RunOps(a + [op], elems).value.0[k] == RunOps([op], left).value.0[0];
    NotSettled(RunOps([op], left).value.0);
    ChannelAddsOne(op, left);
    SetChannelsConcat(a, [op]);
    SetChannelsOfOne(op);
    RunCompose(SetChannels(a), [WithChannel(op)], elems);
  }

  lemma NotSettled(ops: seq<Op>)
    requires |ops| == 1 && ops[0].CountWindowOp? && ops[0].buffer != [] && !ops[0].hasChannel
    ensures !Settled(ops)
  {}

  /** In particular, when all windows are time windows, cutting the chain preserves its meaning. */
  lemma {:induction false} TimeWindowsAgree(ops: seq<Op>, events: seq<Event>)
    requires forall i :: 0 <= i < |ops| ==> !ops[i].CountWindowOp?
    ensures var uncut, cut := RunOps(ops, AsData(events)), SeqRun(Segments(ops), events);
            && (uncut.Done? <==> cut.Done?)
            && (cut.Done? ==> Join(cut.value) == uncut.value.0)
  {
    hide RunOps, SeqRun, Segments;
    SetChannelsTime(ops);
    SplitPreservesMeaning(ops, events);
  }

  lemma {:induction false} SetChannelsTime(ops: seq<Op>)
    requires forall i :: 0 <= i < |ops| ==> !ops[i].CountWindowOp?
    ensures SetChannels(ops) == ops
  {
    if ops != [] { SetChannelsTime(ops[1..]); }
  }

  // ---------- the events a chain without channels loses ----------

  function Wrap(op: Op, outs: seq<Element>): Effect {
    Done(([op], outs))
  }

  lemma {:induction false} ReducedConcat(func: seq<Event> -> Event, a: seq<seq<Event>>, b: seq<seq<Event>>)
    ensures Reduced(func, a + b) == Reduced(func, a) + Reduced(func, b)
  {
    if a == [] {
      assert a + b == b;
    } else {
      assert (a + b)[1..] == a[1..] + b;
      ReducedConcat(func, a[1..], b);
    }
  }

  lemma LastElement(elems: seq<Element>)
    requires elems != []
    ensures var front, last := elems[..|elems| - 1], elems[|elems| - 1];
            && elems == front + [last]
            && EventsOf(elems) == EventsOf(front) + EventOf(last)
  {
    var front, last := elems[..|elems| - 1], elems[|elems| - 1];
    assert elems == front + [last];
    EventsOfConcat(front, [last]);
    assert EventsOf([last]) == EventOf(last) + EventsOf([]);
  }

  /** A count window fed from the start holds and has emitted what CountRun says. */
  lemma {:induction false} CountWindowFeeds(
    spec: WindowSpec, func: seq<Event> -> Event, hasChannel: bool, elems: seq<Element>)
    ensures var (buffer, windows) := CW.CountRun(spec, EventsOf(elems));
            Feed([CountWindowOp(spec, func, [], hasChannel)], elems)
            == Wrap(CountWindowOp(spec, func, buffer, hasChannel), Reduced(func, windows))
    decreases |elems|
  {
    hide Feed, EventsOf, CW.CountRun, Reduced;
    var op := CountWindowOp(spec, func, [], hasChannel);
    if elems == [] {
      FeedNothing([op]);
      EventsOfNothing();
      CountNothing(spec, func);
    } else {
      var front, last := elems[..|elems| - 1], elems[|elems| - 1];
      CountWindowFeeds(spec, func, hasChannel, front);
      LastElement(elems);
      FeedConcat([op], front, [last]);
      var (buffer, windows) := CW.CountRun(spec, EventsOf(front));
      var mid := CountWindowOp(spec, func, buffer, hasChannel);
      FeedSingle([mid], last);
      FeedOneOperator(mid, last);
      if last.Data? {
        var more := CW.AfterPush(buffer, spec, last.event).1;
        ReducedConcat(func, windows, more);
        CountStep(spec, EventsOf(front), last.event);
      } else {
        assert Reduced(func, windows) + [] == Reduced(func, windows);
        assert EventsOf(front) + [] == EventsOf(front);
      }
    }
  }

  lemma CountNothing(spec: WindowSpec, func: seq<Event> -> Event)
    ensures CW.CountRun(spec, []) == ([], []) && Reduced(func, []) == []
  {}

  lemma CountStep(spec: WindowSpec, front: seq<Event>, e: Event)
    ensures var (buffer, windows) := CW.CountRun(spec, front);
            var (buffer', more) := CW.AfterPush(buffer, spec, e);
            CW.CountRun(spec, front + [e]) == (buffer', windows + more)
  {
    assert (front + [e])[..|front|] == front;
  }

  lemma EventsOfNothing()
    ensures EventsOf([]) == []
  {}

  lemma {:induction false} SinkFeeds(received: seq<Event>, elems: seq<Element>)
    ensures Feed([SinkOp(received)], elems) == Wrap(SinkOp(received + EventsOf(elems)), [])
    decreases |elems|
  {
    if elems == [] {
      assert received + [] == received;
    } else {
      var received' := received + EventOf(elems[0]);
      FeedOneOperator(SinkOp(received), elems[0]);
      assert Execute(SinkOp(received), elems[0]) == Done((SinkOp(received'), [])) by {
        assert received + [] == received;
      }
      hide FeedOne, Execute;
      SinkFeeds(received', elems[1..]);
      EventBuffers.SeqAssoc(received, EventOf(elems[0]), EventsOf(elems[1..]));
      var r := Feed([SinkOp(received')], elems[1..]);
      assert [] + r.value.1 == r.value.1;
    }
  }

  lemma SinkRuns(elems: seq<Element>)
    ensures RunOps([SinkOp([])], elems) == Wrap(SinkOp(EventsOf(elems)), [])
  {
    hide Feed;
    SinkFeeds([], elems);
    assert [] + EventsOf(elems) == EventsOf(elems);
    CloseOneOperator(SinkOp(EventsOf(elems)));
  }

  lemma CountWindowRuns(
    spec: WindowSpec, func: seq<Event> -> Event, hasChannel: bool, elems: seq<Element>)
    ensures var (buffer, windows) := CW.CountRun(spec, EventsOf(elems));
            RunOps([CountWindowOp(spec, func, [], hasChannel)], elems)
            == Wrap(CountWindowOp(spec, func, buffer, hasChannel),
                    Reduced(func, windows + CW.Partial(buffer, hasChannel)))
  {
    hide Feed, CW.CountRun, EventsOf, Reduced;
    CountWindowFeeds(spec, func, hasChannel, elems);
    var (buffer, windows) := CW.CountRun(spec, EventsOf(elems));
    CloseOneOperator(CountWindowOp(spec, func, buffer, hasChannel));
    ReducedConcat(func, windows, CW.Partial(buffer, hasChannel));
  }

  // ---------- maps and filters on events ----------

  predicate Stateless(op: Op) {
    op.MapOp? || op.FilterOp?
  }

  /** What a map or a filter makes of a list of events. */
  function ThroughOne(op: Op, events: seq<Event>): seq<Event> {
    if events == [] then []
    else
      var front, e := ThroughOne(op, events[..|events| - 1]), events[|events| - 1];
      match op
      case MapOp(f) => front + [f(e)]
      case FilterOp(p) => if p(e) then front + [e] else front
      case _ => front + [e]
  }

  function Through(ops: seq<Op>, events: seq<Event>): seq<Event> {
    if ops == [] then events else Through(ops[1..], ThroughOne(ops[0], events))
  }

  lemma {:induction false} ThroughOneConcat(op: Op, a: seq<Event>, b: seq<Event>)
    ensures ThroughOne(op, a + b) == ThroughOne(op, a) + ThroughOne(op, b)
    decreases |b|
  {
    if b == [] {
      assert a + b == a;
    } else {
      assert (a + b)[..|a + b| - 1] == a + b[..|b| - 1];
      ThroughOneConcat(op, a, b[..|b| - 1]);
    }
  }

  lemma {:induction false} ThroughConcat(ops: seq<Op>, a: seq<Event>, b: seq<Event>)
    ensures Through(ops, a + b) == Through(ops, a) + Through(ops, b)
  {
    if ops != [] {
      ThroughOneConcat(ops[0], a, b);
      ThroughConcat(ops[1..], ThroughOne(ops[0], a), ThroughOne(ops[0], b));
    }
  }

  lemma {:induction false} StatelessFeedsData(op: Op, events: seq<Event>)
    requires Stateless(op)
    ensures Feed([op], AsData(events)) == Wrap(op, AsData(ThroughOne(op, events)))
    decreases |events|
  {
    hide Feed, FeedOne;
    if events == [] {
      FeedNothing([op]);
      assert AsData(events) == [];
    } else {
      var front, e := events[..|events| - 1], events[|events| - 1];
      StatelessFeedsData(op, front);
      assert AsData(events) == AsData(front) + [Data(e)];
      FeedConcat([op], AsData(front), [Data(e)]);
      FeedSingle([op], Data(e));
      FeedOneOperator(op, Data(e));
      var all, more := ThroughOne(op, front), Execute(op, Data(e)).value.1;
      assert AsData(all) + more == AsData(ThroughOne(op, events));
    }
  }

  /** Maps and filters, fed events alone, emit the events that they make of them. */
  lemma {:induction false} StatelessRunsData(ops: seq<Op>, events: seq<Event>)
    requires forall i :: 0 <= i < |ops| ==> Stateless(ops[i])
    ensures RunOps(ops, AsData(events)) == Done((ops, AsData(Through(ops, events))))
    decreases |ops|
  {
    hide Feed, ThroughOne;
    if ops == [] {
      FeedEmpty(AsData(events));
      assert AsData(events) + [] == AsData(events);
    } else {
      var more := ThroughOne(ops[0], events);
      StatelessFeedsData(ops[0], events);
      CloseOneOperator(ops[0]);
      assert AsData(more) + [] == AsData(more);
      assert RunOps([ops[0]], AsData(events)) == Wrap(ops[0], AsData(more));
      StatelessRunsData(ops[1..], more);
      RunCompose([ops[0]], ops[1..], AsData(events));
      assert ops == [ops[0]] + ops[1..];
    }
  }

  lemma {:induction false} StatelessStays(ops: seq<Op>, elems: seq<Element>)
    requires forall i :: 0 <= i < |ops| ==> Stateless(ops[i])
    ensures Feed(ops, elems).Done? && Feed(ops, elems).value.0 == ops
    decreases |ops|, |elems|
  {
    hide FeedOne;
    if elems != [] {
      StatelessStaysOne(ops, elems[0]);
      StatelessStays(ops, elems[1..]);
    }
  }

  lemma {:induction false} StatelessStaysOne(ops: seq<Op>, elem: Element)
    requires forall i :: 0 <= i < |ops| ==> Stateless(ops[i])
    ensures FeedOne(ops, elem).Done? && FeedOne(ops, elem).value.0 == ops
    decreases |ops|, 0
  {
    hide Feed;
    if ops != [] {
      StatelessStays(ops[1..], Execute(ops[0], elem).value.1);
      assert [ops[0]] + ops[1..] == ops;
    }
  }

  lemma {:induction false} StatelessCloses(ops: seq<Op>)
    requires forall i :: 0 <= i < |ops| ==> Stateless(ops[i])
    ensures CloseAll(ops) == Done((ops, []))
  {
    if ops != [] {
      FeedNothing(ops[1..]);
      StatelessCloses(ops[1..]);
      var none: seq<Element> := [];
      assert none + none == none && [ops[0]] + ops[1..] == ops;
    }
  }

  lemma {:induction false} MarkPasses(ops: seq<Op>, wm: u64)
    requires forall i :: 0 <= i < |ops| ==> Stateless(ops[i])
    ensures FeedOne(ops, Mark(wm)) == Done((ops, [Mark(wm)]))
  {
    hide Feed;
    if ops != [] {
      MarkPasses(ops[1..], wm);
      FeedSingle(ops[1..], Mark(wm));
      assert [ops[0]] + ops[1..] == ops;
    }
  }

  /** The whole life of maps and filters is one feed. */
  lemma StatelessRuns(ops: seq<Op>, elems: seq<Element>)
    requires forall i :: 0 <= i < |ops| ==> Stateless(ops[i])
    ensures Feed(ops, elems).Done? && RunOps(ops, elems) == Done((ops, Feed(ops, elems).value.1))
  {
    hide Feed, CloseAll;
    StatelessStays(ops, elems);
    StatelessCloses(ops);
    assert Feed(ops, elems).value.1 + [] == Feed(ops, elems).value.1;
  }

  /**
   * Maps and filters pass every watermark on, in its place: what leaves them for a trace with a
   * watermark in it is what leaves for the part before it, the watermark, and what leaves for the
   * part behind it.
   */
  lemma WatermarksPass(ops: seq<Op>, front: seq<Element>, wm: u64, back: seq<Element>)
    requires forall i :: 0 <= i < |ops| ==> Stateless(ops[i])
    ensures RunOps(ops, front).Done? && RunOps(ops, back).Done?
    ensures RunOps(ops, front + [Mark(wm)] + back)
            == Done((ops, RunOps(ops, front).value.1 + [Mark(wm)] + RunOps(ops, back).value.1))
  {
    StatelessRuns(ops, front);
    StatelessRuns(ops, back);
    StatelessRuns(ops, front + [Mark(wm)] + back);
    hide RunOps, Feed, FeedOne, Stateless;
    StatelessStays(ops, front);
    StatelessStays(ops, front + [Mark(wm)]);
    MarkPasses(ops, wm);
    FeedSingle(ops, Mark(wm));
    FeedConcat(ops, front, [Mark(wm)]);
    FeedConcat(ops, front + [Mark(wm)], back);
  }

  // ---------- what a count window without a channel withholds ----------

  /** The results of a count window over its input, the last partial one only towards a channel. */
  function CountResults(spec: WindowSpec, func: seq<Event> -> Event, hasChannel: bool, input: seq<Event>): seq<Event> {
    var (buffer, windows) := CW.CountRun(spec, input);
    EventsOf(Reduced(func, windows + CW.Partial(buffer, hasChannel)))
  }

  /** Whatever follows a count window runs on exactly its results. */
  lemma BackReceives(
    front: seq<Op>, spec: WindowSpec, func: seq<Event> -> Event, hasChannel: bool, back: seq<Op>, elems: seq<Element>)
    requires RunOps(front, elems).Done?
    ensures var (ops, left) := RunOps(front, elems).value;
            var cw := CountWindowOp(spec, func, [], hasChannel);
            RunOps(front + ([cw] + back), elems)
            == ThenClose(Done((ops + [cw.(buffer := CW.CountRun(spec, EventsOf(left)).0)],
                               AsData(CountResults(spec, func, hasChannel, EventsOf(left))))), back)
  {
    hide RunOps, CW.CountRun, EventsOf, Reduced;
    var cw := CountWindowOp(spec, func, [], hasChannel);
    var (ops, left) := RunOps(front, elems).value;
    var (buffer, windows) := CW.CountRun(spec, EventsOf(left));
    var out := Reduced(func, windows + CW.Partial(buffer, hasChannel));
    ReducedIsData(func, windows + CW.Partial(buffer, hasChannel));
    AllDataIsAsData(out);
    CountWindowRuns(spec, func, hasChannel, left);
    RunCompose(front, [cw] + back, elems);
    RunCompose([cw], back, left);
    var rest := RunOps(back, out);
    if rest.Done? { EventBuffers.SeqAssoc(ops, [cw.(buffer := buffer)], rest.value.0); }
  }

  /** The chain with one count window, maps and filters behind it, and a sink. */
  function CountChain(front: seq<Op>, spec: WindowSpec, func: seq<Event> -> Event, hasChannel: bool,
                      mid: seq<Op>): seq<Op>
  {
    front + ([CountWindowOp(spec, func, [], hasChannel)] + (mid + [SinkOp([])]))
  }

  /** What the last operator has received, if it is a sink. */
  function SinkLog(ops: seq<Op>): seq<Event> {
    if |ops| > 0 && ops[|ops| - 1].SinkOp? then ops[|ops| - 1].received else []
  }

  lemma {:induction false} SinkLogIs(
    front: seq<Op>, spec: WindowSpec, func: seq<Event> -> Event, hasChannel: bool, mid: seq<Op>, elems: seq<Element>)
    requires RunOps(front, elems).Done? && forall i :: 0 <= i < |mid| ==> Stateless(mid[i])
    ensures var r := RunOps(CountChain(front, spec, func, hasChannel, mid), elems);
            r.Done?
            && SinkLog(r.value.0)
               == Through(mid, CountResults(spec, func, hasChannel, EventsOf(RunOps(front, elems).value.1)))
  {
    hide RunOps, CountResults, Through, EventsOf;
    var (ops, left) := RunOps(front, elems).value;
    var results := CountResults(spec, func, hasChannel, EventsOf(left));
    BackReceives(front, spec, func, hasChannel, mid + [SinkOp([])], elems);
    StatelessRunsData(mid, results);
    RunCompose(mid, [SinkOp([])], AsData(results));
    SinkRuns(AsData(Through(mid, results)));
    EventsOfAsData(Through(mid, results));
  }

  /**
   * Without a channel the sink behind a count window and any maps and filters misses exactly what
   * these make of the result of the last partial window: the two sinks receive the same events if
   * and only if no partial window is left over or a filter drops its result. NothingLeftOver says
   * for which numbers of events a partial window is left.
   */
  lemma {:induction false} MissingPartialWindow(
    front: seq<Op>, spec: WindowSpec, func: seq<Event> -> Event, mid: seq<Op>, elems: seq<Element>)
    requires RunOps(front, elems).Done? && forall i :: 0 <= i < |mid| ==> Stateless(mid[i])
    ensures var buffer := CW.CountRun(spec, EventsOf(RunOps(front, elems).value.1)).0;
            var without := RunOps(CountChain(front, spec, func, false, mid), elems);
            var with := RunOps(CountChain(front, spec, func, true, mid), elems);
            var missing := Through(mid, if buffer == [] then [] else [func(buffer)]);
            && without.Done? && with.Done?
            && SinkLog(with.value.0) == SinkLog(without.value.0) + missing
            && (SinkLog(with.value.0) == SinkLog(without.value.0) <==> missing == [])
  {
    hide RunOps, CW.CountRun, SinkLog, Through, CountChain;
    SinkLogIs(front, spec, func, false, mid, elems);
    SinkLogIs(front, spec, func, true, mid, elems);
    var (buffer, windows) := CW.CountRun(spec, EventsOf(RunOps(front, elems).value.1));
    hide EventsOf, Reduced;
    assert windows + [] == windows;
    PartialEvents(func, windows, buffer);
    ThroughConcat(mid, EventsOf(Reduced(func, windows)), if buffer == [] then [] else [func(buffer)]);
  }

  /**
   * The same for the pieces that build() makes of a chain whose only count window that is: against
   * the uncut chain in one pipeline their sink receives that much more.
   */
  lemma {:induction false} CutSinkReceivesMore(
    front: seq<Op>, spec: WindowSpec, func: seq<Event> -> Event, mid: seq<Op>, events: seq<Event>)
    requires forall i :: 0 <= i < |front| ==> !front[i].CountWindowOp?
    requires forall i :: 0 <= i < |mid| ==> Stateless(mid[i])
    requires RunOps(front, AsData(events)).Done?
    ensures var ops := CountChain(front, spec, func, false, mid);
            var buffer := CW.CountRun(spec, EventsOf(RunOps(front, AsData(events)).value.1)).0;
            var uncut, cut := RunOps(ops, AsData(events)), SeqRun(Segments(ops), events);
            && uncut.Done? && cut.Done?
            && SinkLog(Join(cut.value))
               == SinkLog(uncut.value.0) + Through(mid, if buffer == [] then [] else [func(buffer)])
  {
    hide RunOps, SeqRun, Segments, CW.CountRun, SinkLog, Through, EventsOf, SetChannels, Join;
    var cw := CountWindowOp(spec, func, [], false);
    var ops := CountChain(front, spec, func, false, mid);
    SetChannelsConcat(front, [cw] + (mid + [SinkOp([])]));
    SetChannelsConcat([cw], mid + [SinkOp([])]);
    SetChannelsOfOne(cw);
    SetChannelsTime(front);
    SetChannelsTime(mid + [SinkOp([])]);
    assert SetChannels(ops) == CountChain(front, spec, func, true, mid);
    MissingPartialWindow(front, spec, func, mid, AsData(events));
    SplitPreservesMeaning(ops, events);
  }

  lemma PartialEvents(func: seq<Event> -> Event, windows: seq<seq<Event>>, buffer: seq<Event>)
    ensures EventsOf(Reduced(func, windows + CW.Partial(buffer, true)))
            == EventsOf(Reduced(func, windows)) + (if buffer == [] then [] else [func(buffer)])
  {
    ReducedConcat(func, windows, CW.Partial(buffer, true));
    EventsOfConcat(Reduced(func, windows), Reduced(func, CW.Partial(buffer, true)));
    if buffer != [] {
      assert Reduced(func, [buffer]) == [Data(func(buffer))] + Reduced(func, []);
      assert EventsOf([Data(func(buffer))]) == [func(buffer)] + EventsOf([]);
    }
  }
}
