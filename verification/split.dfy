/**
 * Cutting a chain at its windows: the structure of the pieces, and that running the pieces one
 * after the other, joined by channels that carry only events, is running the uncut chain.
 */
module Splits {
  import opened Types
  import opened TimeWindows
  import opened Chains
  import EventBuffers
  import CW = CountWindows

  /** Setting an output channel changes only what a count window does with its last events. */
  function WithChannel(op: Op): Op {
    if op.CountWindowOp? then op.(hasChannel := true) else op
  }

  function SetChannels(ops: seq<Op>): (r: seq<Op>)
    ensures |r| == |ops|
  {
    if ops == [] then [] else [WithChannel(ops[0])] + SetChannels(ops[1..])
  }

  /** Index of the first window, or the length when there is none. */
  function FirstWindow(ops: seq<Op>): (k: nat)
    ensures k <= |ops|
    ensures k < |ops| ==> IsWindow(ops[k])
    ensures forall i :: 0 <= i < k ==> !IsWindow(ops[i])
  {
    if ops == [] || IsWindow(ops[0]) then 0 else 1 + FirstWindow(ops[1..])
  }

  function Windows(ops: seq<Op>): nat {
    if ops == [] then 0 else (if IsWindow(ops[0]) then 1 else 0) + Windows(ops[1..])
  }

  lemma {:induction false} WindowsConcat(a: seq<Op>, b: seq<Op>)
    ensures Windows(a + b) == Windows(a) + Windows(b)
  {
    if a == [] {
      assert a + b == b;
    } else {
      assert (a + b)[1..] == a[1..] + b;
      WindowsConcat(a[1..], b);
    }
  }

  lemma {:induction false} NoWindows(ops: seq<Op>)
    requires forall i :: 0 <= i < |ops| ==> !IsWindow(ops[i])
    ensures Windows(ops) == 0 && SetChannels(ops) == ops
  {
    if ops != [] { NoWindows(ops[1..]); }
  }

  lemma OneOperator(op: Op)
    ensures Windows([op]) == if IsWindow(op) then 1 else 0
    ensures SetChannels([op]) == [WithChannel(op)]
  {
    assert SetChannels([op]) == [WithChannel(op)] + SetChannels([]);
  }

  /** What follows the cut: a reader of the channel, then the rest of the chain. */
  function AfterCut(ops: seq<Op>): seq<Op>
    requires FirstWindow(ops) < |ops|
  {
    [ChannelSourceOp] + ops[FirstWindow(ops) + 1..]
  }

  function UpToCut(ops: seq<Op>): seq<Op>
    requires FirstWindow(ops) < |ops|
  {
    ops[..FirstWindow(ops)] + [WithChannel(ops[FirstWindow(ops)])]
  }

  lemma ThreeParts(a: seq<Op>, w: Op, b: seq<Op>)
    ensures Windows(a + ([w] + b)) == Windows(a) + Windows([w]) + Windows(b)
    ensures SetChannels(a + ([w] + b)) == SetChannels(a) + [WithChannel(w)] + SetChannels(b)
  {
    hide Windows, SetChannels, WithChannel;
    WindowsConcat(a, [w] + b);
    WindowsConcat([w], b);
    SetChannelsConcat(a, [w] + b);
    SetChannelsConcat([w], b);
    OneOperator(w);
    EventBuffers.SeqAssoc(SetChannels(a), [WithChannel(w)], SetChannels(b));
  }

  lemma CutFacts(ops: seq<Op>)
    requires FirstWindow(ops) < |ops|
    ensures Windows(ops) == 1 + Windows(AfterCut(ops)) && Windows(UpToCut(ops)) == 1
  {
    hide Windows, SetChannels;
    var k := FirstWindow(ops);
    var a, w, b := ops[..k], ops[k], ops[k + 1..];
    EventBuffers.SplitAt(ops, k);
    ThreeParts(a, w, b);
    NoWindows(a);
    WindowsConcat([ChannelSourceOp], b);
    WindowsConcat(a, [WithChannel(w)]);
    OneOperator(w);
    OneOperator(WithChannel(w));
    OneOperator(ChannelSourceOp);
  }

  /** The pieces that the chain is cut into, one pipeline each. */
  function Segments(ops: seq<Op>): (r: seq<seq<Op>>)
    ensures |r| >= 1
    decreases Windows(ops)
  {
    if FirstWindow(ops) == |ops| then [ops]
    else
      CutFacts(ops);
      [UpToCut(ops)] + Segments(AfterCut(ops))
  }

  function DropFirst<T>(s: seq<T>): seq<T> {
    if s == [] then [] else s[1..]
  }

  /** Put pieces back together: drop the reader at the head of every piece but the first. */
  function Join<T>(segments: seq<seq<T>>): seq<T> {
    if segments == [] then [] else segments[0] + JoinRest(segments[1..])
  }

  function JoinRest<T>(segments: seq<seq<T>>): seq<T> {
    if segments == [] then [] else DropFirst(segments[0]) + JoinRest(segments[1..])
  }

  lemma {:induction false} SetChannelsConcat(a: seq<Op>, b: seq<Op>)
    ensures SetChannels(a + b) == SetChannels(a) + SetChannels(b)
  {
    if a == [] {
      assert a + b == b;
    } else {
      assert (a + b)[1..] == a[1..] + b;
      SetChannelsConcat(a[1..], b);
    }
  }

  /** The cut in terms of the chain whose windows have been given channels. */
  lemma CutChannels(ops: seq<Op>)
    requires FirstWindow(ops) < |ops|
    ensures SetChannels(ops) == UpToCut(ops) + SetChannels(ops[FirstWindow(ops) + 1..])
    ensures SetChannels(AfterCut(ops)) == [ChannelSourceOp] + SetChannels(ops[FirstWindow(ops) + 1..])
  {
    hide SetChannels, Windows;
    var k := FirstWindow(ops);
    var a, w, b := ops[..k], ops[k], ops[k + 1..];
    EventBuffers.SplitAt(ops, k);
    ThreeParts(a, w, b);
    NoWindows(a);
    SetChannelsConcat([ChannelSourceOp], b);
    OneOperator(ChannelSourceOp);
  }

  /**
   * A chain with k windows is cut into k + 1 pieces. Each piece but the last ends in its only
   * window, each piece but the first starts with a channel reader, and dropping those readers
   * and joining the pieces gives back the chain, its windows now with channels.
   */
  lemma {:induction false} SplitStructure(ops: seq<Op>)
    ensures var s := Segments(ops);
            && |s| == Windows(ops) + 1
            && Join(s) == SetChannels(ops)
            && Windows(s[|s| - 1]) == 0
            && (forall i :: 0 <= i < |s| - 1 ==>
                  Windows(s[i]) == 1 && s[i] != [] && IsWindow(s[i][|s[i]| - 1]))
            && (forall i :: 0 < i < |s| ==> s[i] != [] && s[i][0] == ChannelSourceOp)
            && (ops != [] && !IsWindow(ops[0]) ==> s[0] != [] && s[0][0] == ops[0])
    decreases Windows(ops)
  {
    if FirstWindow(ops) == |ops| {
      NoWindows(ops);
      assert Join([ops]) == ops + JoinRest([]);
    } else {
      CutFacts(ops);
      CutChannels(ops);
      var rest := Segments(AfterCut(ops));
      SplitStructure(AfterCut(ops));
      JoinDropsReader(UpToCut(ops), rest, ChannelSourceOp, SetChannels(ops[FirstWindow(ops) + 1..]));
      assert Segments(ops) == [UpToCut(ops)] + rest;
    }
  }

  lemma JoinDropsReader<T>(first: seq<T>, rest: seq<seq<T>>, reader: T, tail: seq<T>)
    requires |rest| >= 1 && rest[0] != []
    requires Join(rest) == [reader] + tail
    ensures Join([first] + rest) == first + tail
  {
    assert ([first] + rest)[1..] == rest;
    assert JoinRest(rest) == rest[0][1..] + JoinRest(rest[1..]);
    assert Join(rest)[1..] == rest[0][1..] + JoinRest(rest[1..]);
  }

  // ---------- channels carry only events ----------

  ghost predicate AllData(elems: seq<Element>) {
    forall i :: 0 <= i < |elems| ==> elems[i].Data?
  }

  lemma {:induction false} AllDataIsAsData(elems: seq<Element>)
    requires AllData(elems)
    ensures elems == AsData(EventsOf(elems))
  {
    if elems != [] {
      AllDataIsAsData(elems[1..]);
      var rest := EventsOf(elems[1..]);
      assert EventsOf(elems) == [elems[0].event] + rest;
      assert AsData([elems[0].event] + rest) == [elems[0]] + AsData(rest);
    }
  }

  lemma {:induction false} ReducedIsData(func: seq<Event> -> Event, windows: seq<seq<Event>>)
    ensures AllData(Reduced(func, windows))
  {
    if windows != [] { ReducedIsData(func, windows[1..]); }
  }

  lemma WindowEmitsData(op: Op, elem: Element)
    requires IsWindow(op)
    ensures Execute(op, elem).Done? ==>
              IsWindow(Execute(op, elem).value.0) && AllData(Execute(op, elem).value.1)
    ensures Close(op).Done? ==> IsWindow(Close(op).value.0) && AllData(Close(op).value.1)
  {
    hide AfterElement, AfterClose, CW.AfterPush, CW.Partial, Reduced;
    if op.CountWindowOp? {
      ReducedIsData(op.func, CW.Partial(op.buffer, op.hasChannel));
      if elem.Data? {
        ReducedIsData(op.func, CW.AfterPush(op.buffer, op.spec, elem.event).1);
      }
    }
  }

  lemma FeedOneOperator(op: Op, elem: Element)
    ensures FeedOne([op], elem) == match Execute(op, elem)
                                   case Hang => Hang
                                   case Done((op', outs)) => Done(([op'], outs))
  {
    hide Execute;
    var first := Execute(op, elem);
    if first.Done? {
      FeedEmpty(first.value.1);
      assert [first.value.0] + [] == [first.value.0];
    }
  }

  lemma {:induction false} FeedEmpty(elems: seq<Element>)
    ensures Feed([], elems) == Done(([], elems))
    decreases |elems|
  {
    if elems != [] {
      FeedEmpty(elems[1..]);
      assert elems == [elems[0]] + elems[1..];
    }
  }

  lemma {:induction false} WindowFeedsData(op: Op, elems: seq<Element>)
    requires IsWindow(op)
    ensures Feed([op], elems).Done? ==>
              && IsWindow(Feed([op], elems).value.0[0])
              && AllData(Feed([op], elems).value.1)
    decreases |elems|
  {
    hide Execute, FeedOne;
    if elems != [] {
      FeedOneOperator(op, elems[0]);
      WindowEmitsData(op, elems[0]);
      var first := Execute(op, elems[0]);
      if first.Done? {
        WindowFeedsData(first.value.0, elems[1..]);
      }
    }
  }

  lemma CloseOneOperator(op: Op)
    ensures CloseAll([op]) == match Close(op)
                              case Hang => Hang
                              case Done((op', outs)) => Done(([op'], outs))
  {
    hide Close;
    var first := Close(op);
    if first.Done? {
      FeedEmpty(first.value.1);
      assert first.value.1 + [] == first.value.1 && [first.value.0] + [] == [first.value.0];
    }
  }

  /** A chain that ends in a window lets only events leave its tail. */
  lemma WindowTailData(a: seq<Op>, w: Op, elems: seq<Element>)
    requires IsWindow(w)
    ensures RunOps(a + [w], elems).Done? ==> AllData(RunOps(a + [w], elems).value.1)
  {
    hide Feed, CloseAll, RunOps;
    RunCompose(a, [w], elems);
    var front := RunOps(a, elems);
    if front.Done? {
      WindowRunsData(w, front.value.1);
    }
  }

  lemma WindowRunsData(w: Op, elems: seq<Element>)
    requires IsWindow(w)
    ensures RunOps([w], elems).Done? ==> AllData(RunOps([w], elems).value.1)
  {
    hide Feed, CloseAll, Execute, Close;
    WindowFeedsData(w, elems);
    var fed := Feed([w], elems);
    if fed.Done? {
      var w' := fed.value.0[0];
      assert fed.value.0 == [w'];
      CloseOneOperator(w');
      WindowEmitsData(w', Mark(0));
    }
  }

  lemma {:induction false} ReaderFeeds(elems: seq<Element>)
    ensures Feed([ChannelSourceOp], elems) == Done(([ChannelSourceOp], elems))
    decreases |elems|
  {
    if elems != [] {
      FeedOneOperator(ChannelSourceOp, elems[0]);
      ReaderFeeds(elems[1..]);
      assert elems == [elems[0]] + elems[1..];
    }
  }

  /** A reader in front of a chain changes nothing. */
  lemma ReaderIsNeutral(b: seq<Op>, elems: seq<Element>)
    ensures RunOps([ChannelSourceOp] + b, elems).Done? <==> RunOps(b, elems).Done?
    ensures RunOps(b, elems).Done? ==>
              RunOps([ChannelSourceOp] + b, elems).value
              == ([ChannelSourceOp] + RunOps(b, elems).value.0, RunOps(b, elems).value.1)
  {
    ReaderFeeds(elems);
    CloseOneOperator(ChannelSourceOp);
    hide Feed, CloseAll;
    RunCompose([ChannelSourceOp], b, elems);
    assert elems + [] == elems;
    assert RunOps([ChannelSourceOp], elems) == Done(([ChannelSourceOp], elems));
    hide RunOps;
  }

  // ---------- running the pieces ----------

  /** The pieces one after the other, each on all the events that the one before it emitted. */
  function SeqRun(segments: seq<seq<Op>>, events: seq<Event>): (r: Outcome<seq<seq<Op>>>)
    ensures r.Done? ==> |r.value| == |segments|
    ensures r.Done? ==> forall i :: 0 <= i < |segments| ==> |r.value[i]| == |segments[i]|
    decreases |segments|
  {
    if segments == [] then Done([])
    else
      var (ops, left) :- RunOps(segments[0], AsData(events));
      var rest :- SeqRun(segments[1..], EventsOf(left));
      Done([ops] + rest)
  }

  /**
   * For every chain and every input, running the pieces in sequence ends with exactly the
   * operator states of the uncut chain whose windows have been given channels, sinks included;
   * and one of the two runs hangs if and only if the other does.
   */
  lemma {:induction false} SplitPreservesMeaning(ops: seq<Op>, events: seq<Event>)
    ensures var uncut := RunOps(SetChannels(ops), AsData(events));
            var cut := SeqRun(Segments(ops), events);
            && (uncut.Done? <==> cut.Done?)
            && (cut.Done? ==> Join(cut.value) == uncut.value.0)
    decreases Windows(ops)
  {
    hide RunOps, SetChannels, Windows;
    if FirstWindow(ops) == |ops| {
      NoWindows(ops);
      SeqRunOne(ops, events);
    } else {
      CutFacts(ops);
      CutChannels(ops);
      var a, b := UpToCut(ops), SetChannels(ops[FirstWindow(ops) + 1..]);
      RunCompose(a, b, AsData(events));
      WindowTailData(ops[..FirstWindow(ops)], WithChannel(ops[FirstWindow(ops)]), AsData(events));
      var front := RunOps(a, AsData(events));
      SplitStructure(AfterCut(ops));
      var segments := [a] + Segments(AfterCut(ops));
      assert segments[1..] == Segments(AfterCut(ops));
      if front.Done? {
        var (a', left) := front.value;
        AllDataIsAsData(left);
        SplitPreservesMeaning(AfterCut(ops), EventsOf(left));
        ReaderIsNeutral(b, left);
        var rest := SeqRun(Segments(AfterCut(ops)), EventsOf(left));
        if rest.Done? {
          JoinDropsReader(a', rest.value, ChannelSourceOp, RunOps(b, left).value.0);
        }
      }
    }
  }

  lemma SeqRunOne(ops: seq<Op>, events: seq<Event>)
    ensures var r := RunOps(ops, AsData(events));
            && (r.Done? <==> SeqRun([ops], events).Done?)
            && (r.Done? ==> Join(SeqRun([ops], events).value) == r.value.0)
  {
    hide RunOps;
    var r := RunOps(ops, AsData(events));
    if r.Done? {
      assert SeqRun([], EventsOf(r.value.1)) == Done([]);
      assert Join([r.value.0]) == r.value.0 + JoinRest([]);
    }
  }
}
