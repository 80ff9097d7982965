/** Linked physical operators on the heap, and the driving loop of a pipeline over them. */
module Physical {
  import opened Types
  import opened TimeWindows
  import opened InputChannels
  import EventBuffers
  import opened Chains
  import opened Splits

  /** `chain` lists the operators from its first element on, each linked to the next one. */
  ghost predicate Linked(chain: seq<PhysicalOperator>)
    reads chain`next
  {
    && chain != []
    && (forall i, j :: 0 <= i < j < |chain| ==> chain[i] != chain[j])
    && (forall i :: 0 <= i < |chain| - 1 ==> chain[i].next == chain[i + 1])
    && chain[|chain| - 1].next == null
  }

  /** Only the tail may have an output channel. */
  ghost predicate Runnable(chain: seq<PhysicalOperator>)
    reads chain`next, chain`outputChannel
  {
    Linked(chain) && forall i :: 0 <= i < |chain| - 1 ==> chain[i].outputChannel == null
  }

  ghost function States(chain: seq<PhysicalOperator>): (r: seq<Op>)
    reads chain`state
    ensures |r| == |chain|
  {
    if chain == [] then [] else [chain[0].state] + States(chain[1..])
  }

  ghost function Output(chain: seq<PhysicalOperator>): InputChannel?
    reads chain`outputChannel
  {
    if chain == [] then null else chain[|chain| - 1].outputChannel
  }

  /** What the tail's channel, if any, holds. */
  ghost function Queue(chain: seq<PhysicalOperator>): seq<Event>
    reads chain`outputChannel, Output(chain)
  {
    var c := Output(chain);
    if c == null then [] else c.queue
  }

  ghost predicate Shut(chain: seq<PhysicalOperator>)
    reads chain`outputChannel, Output(chain)
  {
    var c := Output(chain);
    c != null && c.closed
  }

  /** The events that left the tail since the queue held `before` have been appended to it. */
  ghost predicate Delivered(chain: seq<PhysicalOperator>, before: seq<Event>, left: seq<Element>)
    reads chain`outputChannel, Output(chain)
  {
    Output(chain) != null ==> Queue(chain) == before + EventsOf(left)
  }

  lemma TailRunnable(chain: seq<PhysicalOperator>)
    requires Runnable(chain) && |chain| > 1
    ensures Runnable(chain[1..]) && chain[1..][0] == chain[0].next
    ensures Output(chain[1..]) == Output(chain)
  {}

  class PhysicalOperator {
    var state: Op
    var next: PhysicalOperator?
    var outputChannel: InputChannel?  // of a window
    const input: InputChannel?        // of a channel source

    constructor (state: Op, input: InputChannel?)
      ensures this.state == state && next == null && outputChannel == null && this.input == input
    {
      this.state, next, outputChannel, this.input := state, null, null, input;
    }

    method SetNext(next: PhysicalOperator?)
      modifies `next
      ensures this.next == next
    {
      this.next := next;
    }

    /** The state records that a channel is set, because closing a count window depends on it. */
    method SetOutputChannel(channel: InputChannel)
      modifies `outputChannel, `state
      ensures outputChannel == channel && state == WithChannel(old(state))
    {
      outputChannel := channel;
      state := WithChannel(state);
    }

    /** execute() of every operator: change the own state, then hand the results on. */
    method Execute(elem: Element, ghost chain: seq<PhysicalOperator>)
      requires Runnable(chain) && chain[0] == this
      requires FeedOne(States(chain), elem).Done?
      modifies chain`state, Output(chain)
      ensures Runnable(chain) && Output(chain) == old(Output(chain)) && Shut(chain) == old(Shut(chain))
      ensures var (ops, left) := FeedOne(old(States(chain)), elem).value;
              States(chain) == ops && Delivered(chain, old(Queue(chain)), left)
      decreases |chain|, 0
    {
      hide Chains.Execute, FeedOne, Feed, EventsOf;
      ghost var rest := States(chain[1..]);
      assert States(chain) == [state] + rest;
      FeedOneHead(state, rest, elem);
      var step := Chains.Execute(state, elem);
      var (op, outs) := step.value;
      assert this !in chain[1..];
      state := op;
      assert States(chain[1..]) == rest;
      Emit(outs, chain);
    }

    /** Results go to the output channel if one is set, otherwise into the next operator. */
    method Emit(outs: seq<Element>, ghost chain: seq<PhysicalOperator>)
      requires Runnable(chain) && chain[0] == this
      requires Feed(States(chain[1..]), outs).Done?
      modifies chain[1..]`state, Output(chain)
      ensures Runnable(chain) && Output(chain) == old(Output(chain)) && Shut(chain) == old(Shut(chain))
      ensures state == old(state)
      ensures var (ops, left) := Feed(old(States(chain[1..])), outs).value;
              States(chain[1..]) == ops && Delivered(chain, old(Queue(chain)), left)
      decreases |chain| - 1, 2
    {
      if next != null {
        TailRunnable(chain);
        next.FeedAll(outs, chain[1..]);
      } else {
        assert |chain| == 1 && chain[1..] == [];
        FeedEmpty(outs);
        if outputChannel != null {
          WriteAll(outputChannel, outs);
        }
      }
    }

    /** close() of every operator: flush, and close the output channel if one is set. */
    method Close(ghost chain: seq<PhysicalOperator>)
      requires Runnable(chain) && chain[0] == this
      requires Chains.Close(state).Done? && Feed(States(chain[1..]), Chains.Close(state).value.1).Done?
      modifies chain`state, Output(chain)
      ensures Runnable(chain) && Output(chain) == old(Output(chain))
      ensures if outputChannel != null then Shut(chain) else Shut(chain) == old(Shut(chain))
      ensures var (op, outs) := old(Chains.Close(state)).value;
              var (ops, left) := Feed(old(States(chain[1..])), outs).value;
              state == op && States(chain[1..]) == ops && Delivered(chain, old(Queue(chain)), left)
    {
      hide Chains.Close, Feed, EventsOf;
      ghost var rest := States(chain[1..]);
      var step := Chains.Close(state);
      var (op, outs) := step.value;
      assert this !in chain[1..];
      state := op;
      assert States(chain[1..]) == rest;
      Emit(outs, chain);
      if outputChannel != null {
        outputChannel.Close();
      }
    }

    /** What a root is still to be given: by its channel, or else by the user's source function. */
    ghost function Upcoming(remaining: seq<Event>): seq<Event>
      reads input
    {
      if input != null then input.queue else remaining
    }

    /** Whatever the root reads from is not what the tail writes to, and nobody else writes to it. */
    ghost predicate Readable(chain: seq<PhysicalOperator>)
      reads chain`outputChannel, input
    {
      input != null ==> input.closed && input != Output(chain)
    }

    /**
     * execute() of a root, which ignores its argument. A channel source reads its channel; a source
     * calls the user function, which will still return `remaining` and then nothing. `done` is what
     * is_done() says afterwards. A channel source with nothing behind it is done with the first
     * event.
     */
    method Pull(remaining: seq<Event>, ghost chain: seq<PhysicalOperator>)
      returns (rest: seq<Event>, done: bool)
      requires Runnable(chain) && chain[0] == this && Readable(chain)
      requires Upcoming(remaining) != [] && (input == null || next != null) ==>
                 FeedOne(States(chain), Data(Upcoming(remaining)[0])).Done?
      modifies chain`state, Output(chain), input
      ensures Runnable(chain) && Readable(chain)
      ensures Output(chain) == old(Output(chain)) && Shut(chain) == old(Shut(chain))
      ensures Upcoming(rest) == (if old(Upcoming(remaining)) == [] then [] else old(Upcoming(remaining))[1..])
      ensures done <==> old(Upcoming(remaining)) == [] || (input != null && next == null)
      ensures done ==> States(chain) == old(States(chain)) && Queue(chain) == old(Queue(chain))
      ensures !done ==>
                var (ops, left) := FeedOne(old(States(chain)), Data(old(Upcoming(remaining))[0])).value;
                States(chain) == ops && Delivered(chain, old(Queue(chain)), left)
    {
      hide FeedOne, EventsOf;
      rest, done := remaining, false;
      if input != null {
        var event := input.Read();
        if event.Some? && next != null {
          Execute(Data(event.value), chain);
        } else {
          done := true;
        }
      } else if |remaining| == 0 {
        done := true;
      } else {
        rest := remaining[1..];
        Execute(Data(remaining[0]), chain);
      }
    }

    /** Several elements one after the other. */
    method FeedAll(elems: seq<Element>, ghost chain: seq<PhysicalOperator>)
      requires Runnable(chain) && chain[0] == this
      requires Feed(States(chain), elems).Done?
      modifies chain`state, Output(chain)
      ensures Runnable(chain) && Output(chain) == old(Output(chain)) && Shut(chain) == old(Shut(chain))
      ensures var (ops, left) := Feed(old(States(chain)), elems).value;
              States(chain) == ops && Delivered(chain, old(Queue(chain)), left)
      decreases |chain|, 1
    {
      hide Feed, FeedOne, EventsOf, States, Runnable, FeedMore;
      ghost var all := Feed(States(chain), elems);
      ghost var left: seq<Element> := [];
      var i := 0;
      FeedMoreStart(States(chain), elems);
      assert elems[0..] == elems && Queue(chain) + [] == Queue(chain);
      while i < |elems|
        invariant 0 <= i <= |elems|
        invariant Runnable(chain) && Output(chain) == old(Output(chain)) && Shut(chain) == old(Shut(chain))
        invariant FeedMore(Done((States(chain), left)), elems[i..]) == all
        invariant Delivered(chain, old(Queue(chain)), left)
      {
        ghost var one := FeedOne(States(chain), elems[i]);
        FeedHead(States(chain), left, elems[i..]);
        ghost var before := Queue(chain);
        Execute(elems[i], chain);
        EventsOfConcat(left, one.value.1);
        left := left + one.value.1;
        i := i + 1;
      }
      assert elems[i..] == [];
      FeedMoreEnd(States(chain), left);
    }
  }

  // ---------- the pipeline ----------

  class Pipeline {
    const root: PhysicalOperator

    constructor (root: PhysicalOperator)
      ensures this.root == root
    {
      this.root := root;
    }

    /**
     * run() of a pipeline whose source function, if its root is a source, returns `source` and
     * then nothing, or whose channel has been filled and closed: the driving loop until the root
     * is done, then every operator closed from root to tail.
     */
    method Run(source: seq<Event>, ghost chain: seq<PhysicalOperator>)
      requires Runnable(chain) && chain[0] == root && root.Readable(chain)
      requires root.input != null ==> root.state == ChannelSourceOp
      requires root.input != null && |chain| == 1 ==> Output(chain) == null
      requires RunOps(States(chain), AsData(root.Upcoming(source))).Done?
      modifies chain`state, Output(chain), root.input
      ensures Runnable(chain) && Output(chain) == old(Output(chain))
      ensures Output(chain) != null ==> Shut(chain)
      ensures var (ops, left) := RunOps(old(States(chain)), AsData(old(root.Upcoming(source)))).value;
              States(chain) == ops && Delivered(chain, old(Queue(chain)), left)
    {
      hide Feed, CloseAll, EventsOf, States, Runnable, Linked;
      ghost var left := Loop(source, chain);
      ghost var rest := CloseAll(States(chain));
      CloseWalk(chain);
      EventsOfConcat(left, rest.value.1);
    }

    /** while (running) { execute; if is_done break }: everything that is to come is driven through. */
    method Loop(source: seq<Event>, ghost chain: seq<PhysicalOperator>) returns (ghost left: seq<Element>)
      requires Runnable(chain) && chain[0] == root && root.Readable(chain)
      requires root.input != null ==> root.state == ChannelSourceOp
      requires root.input != null && |chain| == 1 ==> Output(chain) == null
      requires Feed(States(chain), AsData(root.Upcoming(source))).Done?
      modifies chain`state, Output(chain), root.input
      ensures Runnable(chain) && Output(chain) == old(Output(chain)) && Shut(chain) == old(Shut(chain))
      ensures Feed(old(States(chain)), AsData(old(root.Upcoming(source)))) == Done((States(chain), left))
      ensures Delivered(chain, old(Queue(chain)), left)
    {
      hide Feed, FeedOne, EventsOf, States, Runnable, Linked;
      ghost var lone := root.input != null && root.next == null;
      ghost var events := root.Upcoming(source);
      ghost var fed := Feed(States(chain), AsData(events));
      left := if lone then AsData(events) else [];
      if lone { LoneChain(chain, events); }
      FeedMoreStart(States(chain), AsData(events));
      assert Queue(chain) + [] == Queue(chain);
      var remaining, done := source, false;
      while !done
        invariant Runnable(chain) && root.Readable(chain)
        invariant Output(chain) == old(Output(chain)) && Shut(chain) == old(Shut(chain))
        invariant lone ==> States(chain) == old(States(chain)) && left == AsData(events) && Output(chain) == null
        invariant !lone ==> FeedMore(Done((States(chain), left)), AsData(root.Upcoming(remaining))) == fed
        invariant done ==> root.Upcoming(remaining) == [] || lone
        invariant Delivered(chain, old(Queue(chain)), left)
        decreases !done, |root.Upcoming(remaining)|
      {
        remaining, done, left := LoopTurn(remaining, chain, left, old(Queue(chain)), lone);
      }
      if !lone {
        FeedMoreEnd(States(chain), left);
      }
    }

    /** One turn of the loop; a root that stands alone (`lone`) only reads. */
    method LoopTurn(remaining: seq<Event>, ghost chain: seq<PhysicalOperator>, ghost left: seq<Element>,
                    ghost queue: seq<Event>, ghost lone: bool)
      returns (rest: seq<Event>, done: bool, ghost left': seq<Element>)
      requires Runnable(chain) && chain[0] == root && root.Readable(chain)
      requires lone <==> root.input != null && root.next == null
      requires !lone ==> FeedMore(Done((States(chain), left)), AsData(root.Upcoming(remaining))).Done?
      requires Delivered(chain, queue, left)
      modifies chain`state, Output(chain), root.input
      ensures Runnable(chain) && root.Readable(chain)
      ensures Output(chain) == old(Output(chain)) && Shut(chain) == old(Shut(chain))
      ensures lone ==> done && States(chain) == old(States(chain)) && left' == left
      ensures !lone ==>
                && (done <==> old(root.Upcoming(remaining)) == [])
                && (done ==> root.Upcoming(rest) == [])
                && FeedMore(Done((States(chain), left')), AsData(root.Upcoming(rest)))
                   == old(FeedMore(Done((States(chain), left)), AsData(root.Upcoming(remaining))))
      ensures !done ==> |root.Upcoming(rest)| < |old(root.Upcoming(remaining))|
      ensures Delivered(chain, queue, left')
    {
      hide Feed, FeedOne, FeedMore, EventsOf, States, Runnable, Linked;
      ghost var upcoming, before := root.Upcoming(remaining), States(chain);
      left' := left;
      if !lone && upcoming != [] {
        NextData(before, left, upcoming);
        ghost var one := FeedOne(before, Data(upcoming[0])).value.1;
        EventsOfConcat(left, one);
        left' := left + one;
      }
      rest, done := root.Pull(remaining, chain);
    }

    /** walk(close): from the root along the links. */
    method CloseWalk(ghost chain: seq<PhysicalOperator>)
      requires Runnable(chain) && chain[0] == root
      requires CloseAll(States(chain)).Done?
      modifies chain`state, Output(chain)
      ensures Runnable(chain) && Output(chain) == old(Output(chain))
      ensures Output(chain) != null ==> Shut(chain)
      ensures var (ops, left) := CloseAll(old(States(chain))).value;
              States(chain) == ops && Delivered(chain, old(Queue(chain)), left)
    {
      hide CloseAll, Feed, Chains.Close, EventsOf;
      ghost var all := CloseAll(States(chain));
      ghost var left: seq<Element> := [];
      ghost var k := 0;
      ghost var closed: seq<Op> := [];
      var node: PhysicalOperator? := root;
      FeedMoreStart([], []);
      assert chain[0..] == chain && Queue(chain) + [] == Queue(chain);
      assert closed + all.value.0 == all.value.0 && left + all.value.1 == all.value.1;
      while node != null
        invariant k <= |chain| && node == (if k < |chain| then chain[k] else null)
        invariant Runnable(chain) && Output(chain) == old(Output(chain))
        invariant closed == States(chain[..k])
        invariant Preceded(closed, left, CloseAll(States(chain[k..]))) == all
        invariant Delivered(chain, old(Queue(chain)), left)
        invariant k == |chain| && Output(chain) != null ==> Shut(chain)
        decreases |chain| - k
      {
        closed, left := CloseTurn(node, chain, k, closed, left, old(Queue(chain)));
        node := node.next;
        k := k + 1;
      }
      NothingToClose(chain, closed, left);
    }

    /** One turn of the walk: close the k-th operator of the chain. */
    method CloseTurn(node: PhysicalOperator, ghost chain: seq<PhysicalOperator>, ghost k: nat,
                     ghost closed: seq<Op>, ghost left: seq<Element>, ghost before: seq<Event>)
      returns (ghost closed': seq<Op>, ghost left': seq<Element>)
      requires Runnable(chain) && k < |chain| && node == chain[k]
      requires closed == States(chain[..k]) && Delivered(chain, before, left)
      requires Preceded(closed, left, CloseAll(States(chain[k..]))).Done?
      modifies chain`state, Output(chain)
      ensures Runnable(chain) && Output(chain) == old(Output(chain))
      ensures closed' == States(chain[..k + 1]) && Delivered(chain, before, left')
      ensures Preceded(closed', left', CloseAll(States(chain[k + 1..])))
              == old(Preceded(closed, left, CloseAll(States(chain[k..]))))
      ensures k + 1 == |chain| && Output(chain) != null ==> Shut(chain)
    {
      hide CloseAll, Feed, Chains.Close, EventsOf, Preceded, States, Runnable;
      SuffixRunnable(chain, k);
      StatesSuffix(chain, k);
      CloseHead(closed, left, chain[k].state, States(chain[k + 1..]));
      ghost var (op, outs) := Chains.Close(chain[k].state).value;
      ghost var more := Feed(States(chain[k + 1..]), outs).value.1;
      assert forall i :: 0 <= i < k ==> chain[..k][i] !in chain[k..];
      node.Close(chain[k..]);
      assert States(chain[..k]) == closed;
      EventsOfConcat(left, more);
      StatesAppend(chain, k);
      closed', left' := closed + [op], left + more;
    }
  }

  /** Feeding a chain some events is feeding it the first one and then the others. */
  lemma NextData(ops: seq<Op>, left: seq<Element>, events: seq<Event>)
    requires events != [] && FeedMore(Done((ops, left)), AsData(events)).Done?
    ensures FeedOne(ops, Data(events[0])).Done?
    ensures var (ops', more) := FeedOne(ops, Data(events[0])).value;
            FeedMore(Done((ops', left + more)), AsData(events[1..])) == FeedMore(Done((ops, left)), AsData(events))
  {
    hide FeedOne, FeedMore;
    FeedHead(ops, left, AsData(events));
    assert AsData(events)[1..] == AsData(events[1..]);
  }

  lemma LinkedOn(chain: seq<PhysicalOperator>)
    requires Linked(chain)
    ensures |chain| > 1 ==> chain[0].next != null
  {
    if |chain| > 1 { assert chain[0].next == chain[1]; }
  }

  /** A channel source alone stays as it is, whatever it reads. */
  lemma LoneChain(chain: seq<PhysicalOperator>, events: seq<Event>)
    requires Runnable(chain) && chain[0].next == null && chain[0].state == ChannelSourceOp
    ensures |chain| == 1
    ensures Feed(States(chain), AsData(events)) == Done((States(chain), AsData(events)))
  {
    LinkedOn(chain);
    assert chain[1..] == [] && States(chain) == [ChannelSourceOp];
    ReaderFeeds(AsData(events));
  }

  lemma NothingToClose(chain: seq<PhysicalOperator>, closed: seq<Op>, left: seq<Element>)
    ensures chain[..|chain|] == chain && chain[|chain|..] == []
    ensures Preceded(closed, left, CloseAll(States(chain[|chain|..]))) == Done((closed, left))
  {
    assert States(chain[|chain|..]) == [];
    assert closed + [] == closed && left + [] == left;
  }

  /** An effect on the rest of a chain, seen from the whole chain. */
  function Preceded(closed: seq<Op>, left: seq<Element>, r: Effect): Effect {
    var (ops, more) :- r;
    Done((closed + ops, left + more))
  }

  lemma FeedMoreStart(ops: seq<Op>, elems: seq<Element>)
    ensures FeedMore(Done((ops, [])), elems) == Feed(ops, elems) && EventsOf([]) == []
  {
    hide Feed;
    var r := Feed(ops, elems);
    if r.Done? { assert [] + r.value.1 == r.value.1; }
  }

  lemma FeedMoreEnd(ops: seq<Op>, left: seq<Element>)
    ensures FeedMore(Done((ops, left)), []) == Done((ops, left))
  {
    FeedNothing(ops);
    assert left + [] == left;
  }

  lemma FeedOneHead(op: Op, rest: seq<Op>, elem: Element)
    requires FeedOne([op] + rest, elem).Done?
    ensures Chains.Execute(op, elem).Done?
    ensures var (op', outs) := Chains.Execute(op, elem).value;
            && Feed(rest, outs).Done?
            && FeedOne([op] + rest, elem) == Done(([op'] + Feed(rest, outs).value.0, Feed(rest, outs).value.1))
  {
    hide Chains.Execute, Feed;
    assert ([op] + rest)[0] == op && ([op] + rest)[1..] == rest;
  }

  lemma SuffixRunnable(chain: seq<PhysicalOperator>, k: nat)
    requires Runnable(chain) && k < |chain|
    ensures Runnable(chain[k..]) && Output(chain[k..]) == Output(chain)
    ensures chain[k..][0] == chain[k] && chain[k..][1..] == chain[k + 1..]
    ensures forall n :: n in chain[..k] ==> n !in chain[k..]
  {}

  lemma StatesSuffix(chain: seq<PhysicalOperator>, k: nat)
    requires k < |chain|
    ensures States(chain[k..]) == [chain[k].state] + States(chain[k + 1..])
  {
    assert chain[k..][1..] == chain[k + 1..];
  }

  lemma {:induction false} StatesAppend(chain: seq<PhysicalOperator>, k: nat)
    requires k < |chain|
    ensures States(chain[..k + 1]) == States(chain[..k]) + [chain[k].state]
    decreases k
  {
    if k > 0 {
      assert chain[..k + 1][1..] == chain[1..][..k] && chain[..k][1..] == chain[1..][..k - 1];
      StatesAppend(chain[1..], k - 1);
    }
  }

  lemma CloseHead(closed: seq<Op>, left: seq<Element>, op: Op, rest: seq<Op>)
    requires Preceded(closed, left, CloseAll([op] + rest)).Done?
    ensures Chains.Close(op).Done?
    ensures var (op', outs) := Chains.Close(op).value;
            && Feed(rest, outs).Done?
            && var (rest', more) := Feed(rest, outs).value;
               Preceded(closed, left, CloseAll([op] + rest))
               == Preceded(closed + [op'], left + more, CloseAll(rest'))
  {
    hide Chains.Close, Feed;
    assert ([op] + rest)[0] == op && ([op] + rest)[1..] == rest;
    var (op', outs) := Chains.Close(op).value;
    var (rest', more) := Feed(rest, outs).value;
    var last := CloseAll(rest');
    EventBuffers.SeqAssoc(closed, [op'], last.value.0);
    EventBuffers.SeqAssoc(left, more, last.value.1);
  }

  lemma FeedHead(ops: seq<Op>, left: seq<Element>, elems: seq<Element>)
    requires elems != [] && FeedMore(Done((ops, left)), elems).Done?
    ensures FeedOne(ops, elems[0]).Done?
    ensures var (ops', more) := FeedOne(ops, elems[0]).value;
            FeedMore(Done((ops', left + more)), elems[1..]) == FeedMore(Done((ops, left)), elems)
  {
    hide FeedOne;
    var (ops', more) := FeedOne(ops, elems[0]).value;
    EventBuffers.SeqAssoc(left, more, Feed(ops', elems[1..]).value.1);
  }

  method WriteAll(channel: InputChannel, outs: seq<Element>)
    modifies channel
    ensures channel.queue == old(channel.queue) + EventsOf(outs) && channel.closed == old(channel.closed)
  {
    var i := 0;
    while i < |outs|
      invariant 0 <= i <= |outs|
      invariant channel.queue == old(channel.queue) + EventsOf(outs[..i])
      invariant channel.closed == old(channel.closed)
    {
      assert outs[..i + 1] == outs[..i] + [outs[i]];
      EventsOfConcat(outs[..i], [outs[i]]);
      assert EventsOf([outs[i]]) == EventOf(outs[i]) + EventsOf([]);
      if outs[i].Data? {
        channel.Write(outs[i].event);
      }
      i := i + 1;
    }
    assert outs[..|outs|] == outs;
  }
}
