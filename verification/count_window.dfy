/** The count-window operator: one step of it, the operator itself, and its closed form. */
module CountWindows {
  import opened Types
  import Cursors
  import InputChannels

  /** The buffer after a window has fired; nothing beyond the buffer is ever skipped. */
  function Slide(buffer: seq<Event>, advance: u64): seq<Event> {
    if advance >= |buffer| then [] else buffer[advance..]
  }

  /** The buffer after an event, and the window it completes, if any. */
  function AfterPush(buffer: seq<Event>, spec: WindowSpec, e: Event): (seq<Event>, seq<seq<Event>>) {
    var b := buffer + [e];
    if |b| == spec.size then (Slide(b, spec.advance), [b]) else (b, [])
  }

  /** The partial window that close() emits, which it does only towards a channel. */
  function Partial(buffer: seq<Event>, hasChannel: bool): seq<seq<Event>> {
    if hasChannel && buffer != [] then [buffer] else []
  }

  // ---------- the operator ----------

  class CountWindowOperator {
    const spec: WindowSpec
    const func: seq<Event> -> Event
    var buffer: seq<Event>
    var outputChannel: InputChannels.InputChannel?
    var forwarded: seq<Event>  // results given to the next operator when no channel is set

    ghost function Emitted(): seq<Event>
      reads this, outputChannel
    {
      if outputChannel != null then outputChannel.queue else forwarded
    }

    ghost function Reduced(windows: seq<seq<Event>>): seq<Event>
    {
      seq(|windows|, i requires 0 <= i < |windows| => func(windows[i]))
    }

    constructor (spec: WindowSpec, func: seq<Event> -> Event, channel: InputChannels.InputChannel?)
      ensures this.spec == spec && this.func == func && outputChannel == channel
      ensures buffer == [] && forwarded == []
    {
      this.spec, this.func, outputChannel, buffer, forwarded := spec, func, channel, [], [];
    }

    method FireAndSlide()
      requires buffer != []
      modifies `buffer, `forwarded, outputChannel
      ensures buffer == Slide(old(buffer), spec.advance)
      ensures Emitted() == old(Emitted()) + [func(old(buffer))]
      ensures outputChannel != null ==> forwarded == old(forwarded) && outputChannel.closed == old(outputChannel.closed)
    {
      var result := func(buffer);
      if outputChannel != null {
        outputChannel.Write(result);
      } else {
        forwarded := forwarded + [result];
      }
      if spec.advance >= |buffer| {
        buffer := [];
      } else {
        buffer := buffer[spec.advance..];
      }
    }

    method Execute(elem: Element)
      modifies `buffer, `forwarded, outputChannel
      ensures elem.Mark? ==> buffer == old(buffer) && Emitted() == old(Emitted())
      ensures elem.Data? ==>
                var (b, fired) := AfterPush(old(buffer), spec, elem.event);
                buffer == b && Emitted() == old(Emitted()) + Reduced(fired)
      ensures outputChannel != null ==> forwarded == old(forwarded) && outputChannel.closed == old(outputChannel.closed)
    {
      if elem.Data? {
        buffer := buffer + [elem.event];
        if |buffer| == spec.size {
          FireAndSlide();
        }
      }
    }

    method Close()
      modifies `forwarded, outputChannel
      ensures buffer == old(buffer) && forwarded == old(forwarded)
      ensures Emitted() == old(Emitted()) + Reduced(Partial(buffer, outputChannel != null))
      ensures outputChannel != null ==> outputChannel.closed
    {
      if outputChannel != null && |buffer| != 0 {
        var result := func(buffer);
        outputChannel.Write(result);
      }
      if outputChannel != null {
        outputChannel.Close();
      }
    }
  }

  // ---------- whole runs ----------

  function CountRun(spec: WindowSpec, input: seq<Event>): (seq<Event>, seq<seq<Event>>) {
    if input == [] then ([], [])
    else
      var (buffer, windows) := CountRun(spec, input[..|input| - 1]);
      var (buffer', more) := AfterPush(buffer, spec, input[|input| - 1]);
      (buffer', windows + more)
  }

  function Stride(spec: WindowSpec): u64 {
    if spec.advance < spec.size then spec.advance else spec.size
  }

  /** How many windows have fired after `n` events. */
  function FiredAfter(spec: WindowSpec, n: nat): nat
    requires Stride(spec) > 0
  {
    if n < spec.size then 0 else (n - spec.size) / Stride(spec) + 1
  }

  lemma FiredStep(spec: WindowSpec, n: nat)
    requires Stride(spec) > 0
    ensures var (f, f', s) := (FiredAfter(spec, n), FiredAfter(spec, n + 1), Stride(spec));
            && f * s <= n && n < f * s + spec.size
            && f' == (if n + 1 == f * s + spec.size then f + 1 else f)
  {
    var f, s := FiredAfter(spec, n), Stride(spec);
    if n >= spec.size {
      var q, r := (n - spec.size) / s, (n - spec.size) % s;
      assert n - spec.size == q * s + r;
      Cursors.Distribute(q, 1, s);
      if r + 1 == s {
        Cursors.DivModUnique(n + 1 - spec.size, q + 1, 0, s);
      } else {
        Cursors.DivModUnique(n + 1 - spec.size, q, r + 1, s);
      }
    }
  }

  /** `w` is the part of the input that starts at k * stride and is `size` long. */
  ghost predicate IsWindow(spec: WindowSpec, input: seq<Event>, k: nat, w: seq<Event>) {
    var start := k * Stride(spec);
    start + spec.size <= |input| && w == input[start..start + spec.size]
  }

  /**
   * After n events the k-th window fired is the input from k * stride on, `size` long; the number
   * of windows is 0 below `size` and (n - size) / stride + 1 from there on; and the buffer is
   * the rest of the input.
   */
  lemma {:induction false} CountClosedForm(spec: WindowSpec, input: seq<Event>)
    requires Stride(spec) > 0
    ensures var (buffer, windows) := CountRun(spec, input);
            && |windows| == FiredAfter(spec, |input|)
            && |windows| * Stride(spec) <= |input|
            && buffer == input[|windows| * Stride(spec)..]
            && forall k :: 0 <= k < |windows| ==> IsWindow(spec, input, k, windows[k])
  {
    hide IsWindow, FiredAfter, AfterPush, Stride;
    if input == [] {
      FiredNone(spec);
    } else {
      var front, e := input[..|input| - 1], input[|input| - 1];
      CountClosedForm(spec, front);
      assert input == front + [e];
      var (buffer, windows) := CountRun(spec, front);
      assert CountRun(spec, input) == (AfterPush(buffer, spec, e).0, windows + AfterPush(buffer, spec, e).1);
      hide CountRun;
      ClosedFormStep(spec, front, e, windows);
    }
  }

  /** One more event. */
  lemma {:induction false} ClosedFormStep(spec: WindowSpec, front: seq<Event>, e: Event, windows: seq<seq<Event>>)
    requires Stride(spec) > 0 && |windows| == FiredAfter(spec, |front|)
    requires |windows| * Stride(spec) <= |front|
    requires forall k :: 0 <= k < |windows| ==> IsWindow(spec, front, k, windows[k])
    ensures var (buffer, more) := AfterPush(front[|windows| * Stride(spec)..], spec, e);
            var (input, all) := (front + [e], windows + more);
            && |all| == FiredAfter(spec, |input|)
            && |all| * Stride(spec) <= |input|
            && buffer == input[|all| * Stride(spec)..]
            && forall k :: 0 <= k < |all| ==> IsWindow(spec, input, k, all[k])
  {
    hide IsWindow, FiredAfter, Slide, Stride;
    var input, f, at := front + [e], |windows|, |windows| * Stride(spec);
    FiredStep(spec, |front|);
    RestGrows(front, e, at);
    forall k | 0 <= k < f
      ensures IsWindow(spec, input, k, windows[k])
    {
      WindowStays(spec, front, e, k, windows[k]);
    }
    if |input| == at + spec.size {
      LastWindow(spec, input, f);
      SlideRest(spec, input, at);
      NextStart(spec, |front|, f);
    }
  }

  lemma {:induction false} NextStart(spec: WindowSpec, n: nat, f: nat)
    requires n + 1 == f * Stride(spec) + spec.size
    ensures (f + 1) * Stride(spec) <= n + 1 && (f + 1) * Stride(spec) == f * Stride(spec) + Stride(spec)
  {
    Cursors.Distribute(f, 1, Stride(spec));
  }

  lemma FiredNone(spec: WindowSpec)
    requires Stride(spec) > 0
    ensures FiredAfter(spec, 0) == 0
  {}

  lemma RestGrows(front: seq<Event>, e: Event, at: nat)
    requires at <= |front|
    ensures front[at..] + [e] == (front + [e])[at..]
  {}

  lemma WindowStays(spec: WindowSpec, front: seq<Event>, e: Event, k: nat, w: seq<Event>)
    requires IsWindow(spec, front, k, w)
    ensures IsWindow(spec, front + [e], k, w)
  {}

  lemma LastWindow(spec: WindowSpec, input: seq<Event>, k: nat)
    requires |input| == k * Stride(spec) + spec.size
    ensures IsWindow(spec, input, k, input[k * Stride(spec)..])
  {}

  lemma SlideRest(spec: WindowSpec, input: seq<Event>, at: nat)
    requires |input| == at + spec.size
    ensures Slide(input[at..], spec.advance) == input[at + Stride(spec)..]
  {}

  /** With size 0 no window ever fires; with advance 0 only the first one does. */
  lemma {:induction false} CountDegenerate(spec: WindowSpec, input: seq<Event>)
    requires Stride(spec) == 0
    ensures var (buffer, windows) := CountRun(spec, input);
            && buffer == input
            && windows == if 0 < spec.size <= |input| then [input[..spec.size]] else []
  {
    if input != [] {
      var front, e := input[..|input| - 1], input[|input| - 1];
      CountDegenerate(spec, front);
      assert input == front + [e];
      var windows := CountRun(spec, front).1;
      assert windows + [] == windows;
      assert CountRun(spec, input) == (AfterPush(front, spec, e).0, windows + AfterPush(front, spec, e).1);
      hide CountRun, AfterPush;
      DegenerateStep(spec, front, e);
      if spec.size <= |front| {
        assert input[..spec.size] == front[..spec.size];
      } else if spec.size == |input| {
        assert input[..spec.size] == input;
      }
    }
  }

  lemma DegenerateStep(spec: WindowSpec, front: seq<Event>, e: Event)
    requires Stride(spec) == 0
    ensures AfterPush(front, spec, e)
            == (front + [e], if |front| + 1 == spec.size then [front + [e]] else [])
  {
    if |front| + 1 == spec.size { assert (front + [e])[0..] == front + [e]; }
  }

  function Flatten(windows: seq<seq<Event>>): seq<Event> {
    if windows == [] then [] else Flatten(windows[..|windows| - 1]) + windows[|windows| - 1]
  }

  /**
   * When windows do not overlap and a channel takes the last partial window, the windows of run
   * plus close concatenate to the input: no event is lost, repeated or moved.
   */
  lemma TumblingLosesNothing(spec: WindowSpec, input: seq<Event>)
    requires 0 < spec.size <= spec.advance
    ensures var (buffer, windows) := CountRun(spec, input);
            Flatten(windows + Partial(buffer, true)) == input
  {
    FlattenRun(spec, input);
    var (buffer, windows) := CountRun(spec, input);
    if buffer != [] {
      assert (windows + [buffer])[..|windows|] == windows;
    } else {
      assert windows + [] == windows;
    }
  }

  lemma {:induction false} FlattenRun(spec: WindowSpec, input: seq<Event>)
    requires 0 < spec.size <= spec.advance
    ensures var (buffer, windows) := CountRun(spec, input);
            Flatten(windows) + buffer == input
  {
    if input != [] {
      var front, e := input[..|input| - 1], input[|input| - 1];
      FlattenRun(spec, front);
      var (buffer, windows) := CountRun(spec, front);
      var b := buffer + [e];
      assert Flatten(windows) + b == input;
      assert (windows + [b])[..|windows|] == windows;
      assert windows + [] == windows;
    }
  }

  /** Nothing is left in the buffer exactly when the run ended with a non-overlapping full window. */
  lemma {:induction false} NothingLeftOver(spec: WindowSpec, input: seq<Event>)
    requires Stride(spec) > 0
    ensures CountRun(spec, input).0 == []
            <==> input == [] || (spec.size <= spec.advance && |input| % spec.size == 0)
  {
    hide CountRun, IsWindow;
    CountClosedForm(spec, input);
    LeftOver(spec, |input|);
  }

  lemma LeftOver(spec: WindowSpec, n: nat)
    requires Stride(spec) > 0
    ensures FiredAfter(spec, n) * Stride(spec) == n
            <==> n == 0 || (spec.size <= spec.advance && n % spec.size == 0)
  {
    FiredStep(spec, n);
    var f, s := FiredAfter(spec, n), Stride(spec);
    if spec.size <= spec.advance {
      Cursors.DivModUnique(n, f, n - f * s, s);
    } else if n >= spec.size {
      var q, r := (n - spec.size) / s, (n - spec.size) % s;
      assert n - spec.size == q * s + r;
      Cursors.Distribute(q, 1, s);
      assert f * s == q * s + s;
    }
  }
}
