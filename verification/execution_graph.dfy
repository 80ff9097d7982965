/** Cutting a compiled chain at its windows, in place, and wiring the pieces with channels. */
module ExecutionGraphs {
  import opened EventBuffers
  import opened InputChannels
  import opened Chains
  import opened Splits
  import opened Physical
  import opened Kahn
  import opened Builders
  import opened Compilers

  ghost predicate Unchannelled(chain: seq<PhysicalOperator>)
    reads chain`outputChannel
  {
    forall i :: 0 <= i < |chain| ==> chain[i].outputChannel == null
  }

  // ---------- one cut ----------

  lemma {:induction false} StatesIndex(chain: seq<PhysicalOperator>)
    ensures forall i :: 0 <= i < |chain| ==> States(chain)[i] == chain[i].state
    decreases |chain|
  {
    if chain != [] { StatesIndex(chain[1..]); }
  }

  lemma {:induction false} StatesConcat(a: seq<PhysicalOperator>, b: seq<PhysicalOperator>)
    ensures States(a + b) == States(a) + States(b)
  {
    if a == [] {
      assert a + b == b;
    } else {
      assert (a + b)[1..] == a[1..] + b;
      StatesConcat(a[1..], b);
    }
  }

  lemma StatesAround(chain: seq<PhysicalOperator>, k: nat)
    requires k < |chain|
    ensures States(chain) == States(chain[..k]) + ([chain[k].state] + States(chain[k + 1..]))
  {
    SplitAt(chain, k);
    StatesConcat(chain[..k], [chain[k]] + chain[k + 1..]);
    OneState(chain[k], chain[k + 1..]);
  }

  lemma OneState(node: PhysicalOperator, rest: seq<PhysicalOperator>)
    ensures States([node] + rest) == [node.state] + States(rest)
  {
    assert ([node] + rest)[1..] == rest;
  }

  lemma StatesOfPiece(chain: seq<PhysicalOperator>, k: nat)
    requires k < |chain|
    ensures States(chain[..k + 1]) == States(chain[..k]) + [chain[k].state]
  {
    StatesAppend(chain, k);
  }

  /** The cut in terms of the parts of the chain before and behind the window. */
  lemma CutParts(a: seq<Op>, w: Op, b: seq<Op>)
    requires FirstWindow(a + ([w] + b)) == |a|
    ensures UpToCut(a + ([w] + b)) == a + [WithChannel(w)]
    ensures AfterCut(a + ([w] + b)) == [ChannelSourceOp] + b
  {
    var ops := a + ([w] + b);
    assert ops[..|a|] == a && ops[|a|] == w && ops[|a| + 1..] == b;
  }

  /** The inner loop: the first window from the root on, if any. */
  method FindWindow(root: PhysicalOperator, ghost chain: seq<PhysicalOperator>)
    returns (window: PhysicalOperator?, ghost k: nat)
    requires Linked(chain) && chain[0] == root
    ensures k == FirstWindow(States(chain)) <= |chain|
    ensures window == if k < |chain| then chain[k] else null
  {
    StatesIndex(chain);
    var node: PhysicalOperator? := root;
    window := null;
    k := 0;
    while node != null
      invariant k <= |chain| && node == (if k < |chain| then chain[k] else null)
      invariant window == null
      invariant forall i :: 0 <= i < k ==> !IsWindow(chain[i].state)
      decreases |chain| - k
    {
      if IsWindow(node.state) {
        window := node;
        break;
      }
      node := node.next;
      k := k + 1;
    }
    FirstWindowUnique(States(chain), k);
  }

  lemma {:induction false} FirstWindowUnique(ops: seq<Op>, k: nat)
    requires k <= |ops| && forall i :: 0 <= i < k ==> !IsWindow(ops[i])
    requires k < |ops| ==> IsWindow(ops[k])
    ensures FirstWindow(ops) == k
  {
    if ops != [] && k > 0 { FirstWindowUnique(ops[1..], k - 1); }
  }

  lemma Alone(chain: seq<PhysicalOperator>, k: nat)
    requires Linked(chain) && k < |chain|
    ensures chain[k] !in chain[..k] && chain[k] !in chain[k + 1..]
    ensures k + 1 < |chain| ==> Linked(chain[k + 1..]) && chain[k].next == chain[k + 1..][0]
    ensures k + 1 == |chain| ==> chain[k].next == null
    ensures Unchannelled(chain) ==> Unchannelled(chain[k + 1..])
  {}

  lemma FrontLinked(chain: seq<PhysicalOperator>, k: nat)
    requires k < |chain| && Distinct(chain)
    requires forall i :: 0 <= i < k ==> chain[i].next == chain[i + 1] && chain[i].outputChannel == null
    requires chain[k].next == null
    ensures Runnable(chain[..k + 1]) && Output(chain[..k + 1]) == chain[k].outputChannel
  {}

  lemma BackLinked(reader: PhysicalOperator, back: seq<PhysicalOperator>)
    requires reader !in back && Unchannelled(back) && reader.outputChannel == null
    requires if back == [] then reader.next == null else Linked(back) && reader.next == back[0]
    ensures Linked([reader] + back) && Unchannelled([reader] + back)
  {
    var all := [reader] + back;
    forall i | 0 <= i < |all| - 1
      ensures all[i].next == all[i + 1]
    {
      if i > 0 { assert all[i] == back[i - 1] && all[i + 1] == back[i]; }
    }
  }

  /**
   * Cut behind the k-th operator, a window: it gets a new channel and loses its link; a new
   * channel source, linked to what followed, becomes the root of the rest.
   */
  method CutAt(window: PhysicalOperator, ghost chain: seq<PhysicalOperator>, ghost k: nat)
    returns (reader: PhysicalOperator, channel: InputChannel)
    requires Linked(chain) && Unchannelled(chain)
    requires k == FirstWindow(States(chain)) < |chain| && window == chain[k]
    modifies window
    ensures fresh(reader) && fresh(channel) && reader.input == channel
    ensures channel.queue == [] && !channel.closed
    ensures Runnable(chain[..k + 1]) && Output(chain[..k + 1]) == channel
    ensures Linked([reader] + chain[k + 1..]) && Unchannelled([reader] + chain[k + 1..])
    ensures States(chain[..k + 1]) == UpToCut(old(States(chain)))
    ensures States([reader] + chain[k + 1..]) == AfterCut(old(States(chain)))
  {
    hide States, FirstWindow, Runnable, Output;
    StatesAround(chain, k);
    ghost var back := chain[k + 1..];
    ghost var a, w, b := States(chain[..k]), window.state, States(back);
    CutParts(a, w, b);
    Alone(chain, k);
    hide UpToCut, AfterCut;
    channel := new InputChannel();
    var downstream := window.next;
    window.SetOutputChannel(channel);
    window.SetNext(null);
    reader := new PhysicalOperator(ChannelSourceOp, channel);
    if downstream != null {
      reader.SetNext(downstream);
    }
    assert States(chain[..k]) == a && States(back) == b;
    StatesOfPiece(chain, k);
    OneState(reader, back);
    FrontLinked(chain, k);
    BackLinked(reader, back);
  }

  // ---------- the pieces ----------

  /** All operators of the pieces are in `owned`, and no operator is in two pieces. */
  ghost predicate Within(pieces: seq<seq<PhysicalOperator>>, owned: set<PhysicalOperator>) {
    && (forall i, n :: 0 <= i < |pieces| && n in pieces[i] ==> n in owned)
    && (forall i, j, n :: 0 <= i < j < |pieces| && n in pieces[i] ==> n !in pieces[j])
  }

  /**
   * Every piece is ready to run and writes to its own channel, the last one perhaps to none; each
   * channel is read by the root of the next piece.
   */
  ghost predicate Wired(pieces: seq<seq<PhysicalOperator>>, channels: seq<InputChannel>, owned: set<PhysicalOperator>)
    requires Within(pieces, owned)
    reads owned
  {
    && (forall i :: 0 <= i < |pieces| ==>
          Runnable(pieces[i]) && Output(pieces[i]) == (if i < |channels| then channels[i] else null))
    && (forall i, j :: 0 <= i < j < |channels| ==> channels[i] != channels[j])
    && (forall i :: 0 <= i < |channels| && i + 1 < |pieces| ==> pieces[i + 1][0].input == channels[i])
  }

  ghost function AllStates(pieces: seq<seq<PhysicalOperator>>, owned: set<PhysicalOperator>): (r: seq<seq<Op>>)
    requires Within(pieces, owned)
    reads owned
    ensures |r| == |pieces| && forall i :: 0 <= i < |pieces| ==> r[i] == States(pieces[i])
  {
    seq(|pieces|, i requires 0 <= i < |pieces| && Within(pieces, owned) reads owned => States(pieces[i]))
  }

  lemma WiredMore(
    pieces: seq<seq<PhysicalOperator>>, channels: seq<InputChannel>, owned: set<PhysicalOperator>,
    piece: seq<PhysicalOperator>, channel: InputChannel?)
    requires Within(pieces, owned) && Wired(pieces, channels, owned) && |channels| == |pieces|
    requires forall n :: n in piece ==> n !in owned
    requires Runnable(piece) && Output(piece) == channel
    requires pieces != [] ==> piece[0].input == channels[|channels| - 1]
    requires channel != null ==> channel !in channels
    ensures var (p, o) := (pieces + [piece], owned + Elements(piece));
            && Within(p, o)
            && Wired(p, if channel == null then channels else channels + [channel], o)
            && AllStates(p, o) == AllStates(pieces, owned) + [States(piece)]
  {
    hide Runnable, Output, States;
    var p, o := pieces + [piece], owned + Elements(piece);
    forall i, j, n | 0 <= i < j < |p| && n in p[i]
      ensures n !in p[j]
    {
      if j == |pieces| { assert n in owned; }
    }
    assert Within(p, o);
  }

  /** What the outer loop knows when `rest` is what is still to be cut. */
  ghost predicate CutInv(
    pieces: seq<seq<PhysicalOperator>>, channels: seq<InputChannel>, owned: set<PhysicalOperator>,
    rest: seq<PhysicalOperator>, chain: seq<PhysicalOperator>, roots: seq<PhysicalOperator>, segments: seq<seq<Op>>)
    reads owned, rest`next, rest`outputChannel, rest`state
  {
    && Within(pieces, owned) && Wired(pieces, channels, owned) && |channels| == |pieces| == |roots|
    && (forall i :: 0 <= i < |roots| ==> pieces[i] != [] && roots[i] == pieces[i][0])
    && Linked(rest) && Unchannelled(rest) && (forall n :: n in rest ==> n !in owned)
    && (pieces != [] ==> rest[0].input == channels[|channels| - 1])
    && Join(pieces + [rest]) == chain
    && segments == AllStates(pieces, owned) + Segments(States(rest))
  }

  lemma JoinAppend<T>(pieces: seq<seq<T>>, x: seq<T>)
    ensures Join(pieces + [x]) == Join(pieces) + (if pieces == [] then x else DropFirst(x))
  {
    if pieces == [] {
      assert [x][1..] == [] && JoinRest<T>([]) == [];
    } else {
      assert (pieces + [x])[1..] == pieces[1..] + [x];
      JoinRestAppend(pieces[1..], x);
      SeqAssoc(pieces[0], JoinRest(pieces[1..]), DropFirst(x));
    }
  }

  lemma {:induction false} JoinRestAppend<T>(pieces: seq<seq<T>>, x: seq<T>)
    ensures JoinRest(pieces + [x]) == JoinRest(pieces) + DropFirst(x)
  {
    if pieces == [] {
      assert [x][1..] == [] && JoinRest<T>([]) == [];
    } else {
      assert (pieces + [x])[1..] == pieces[1..] + [x];
      JoinRestAppend(pieces[1..], x);
      SeqAssoc(DropFirst(pieces[0]), JoinRest(pieces[1..]), DropFirst(x));
    }
  }

  /** Cutting the last piece in two and putting a reader in front of its second half. */
  lemma JoinCut<T>(pieces: seq<seq<T>>, piece: seq<T>, reader: T, back: seq<T>)
    requires piece != []
    ensures Join(pieces + [piece] + [[reader] + back]) == Join(pieces + [piece + back])
  {
    JoinAppend(pieces, piece);
    JoinAppend(pieces, piece + back);
    JoinAppend(pieces + [piece], [reader] + back);
    assert ([reader] + back)[1..] == back && (piece + back)[1..] == piece[1..] + back;
    hide Join;
    if pieces == [] {
      SeqAssoc(Join<T>([]), piece, back);
    } else {
      SeqAssoc(Join(pieces), piece[1..], back);
    }
  }

  lemma StartCut(chain: seq<PhysicalOperator>)
    requires Linked(chain) && Unchannelled(chain)
    ensures CutInv([], [], {}, chain, chain, [], Segments(States(chain)))
  {
    hide Segments, States, Linked;
    assert Join([] + [chain]) == chain by { JoinAppend([], chain); }
    assert AllStates([], {}) == [];
  }

  lemma {:induction false} LastPiece(
    pieces: seq<seq<PhysicalOperator>>, channels: seq<InputChannel>, owned: set<PhysicalOperator>,
    rest: seq<PhysicalOperator>, chain: seq<PhysicalOperator>, roots: seq<PhysicalOperator>, segments: seq<seq<Op>>)
    requires CutInv(pieces, channels, owned, rest, chain, roots, segments)
    requires FirstWindow(States(rest)) == |rest|
    ensures var (p, o) := (pieces + [rest], owned + Elements(rest));
            && Within(p, o) && Wired(p, channels, o)
            && AllStates(p, o) == segments && Join(p) == chain
  {
    hide Join, States, Linked;
    LinkedRuns(rest);
    WiredMore(pieces, channels, owned, rest, null);
  }

  lemma CutInvRest(
    pieces: seq<seq<PhysicalOperator>>, channels: seq<InputChannel>, owned: set<PhysicalOperator>,
    rest: seq<PhysicalOperator>, chain: seq<PhysicalOperator>, roots: seq<PhysicalOperator>, segments: seq<seq<Op>>)
    requires CutInv(pieces, channels, owned, rest, chain, roots, segments)
    ensures Linked(rest) && |roots| == |pieces| == |channels|
    ensures Within(pieces, owned) && Wired(pieces, channels, owned)
    ensures forall i :: 0 <= i < |roots| ==> pieces[i] != [] && roots[i] == pieces[i][0]
  {}

  lemma LinkedRuns(rest: seq<PhysicalOperator>)
    requires Linked(rest) && Unchannelled(rest)
    ensures Runnable(rest) && Output(rest) == null
  {}

  lemma PieceFacts(
    rest: seq<PhysicalOperator>, k: nat, piece: seq<PhysicalOperator>, back: seq<PhysicalOperator>)
    requires Linked(rest) && k < |rest| && piece == rest[..k + 1] && back == rest[k + 1..]
    ensures rest == piece + back && piece != [] && piece[0] == rest[0]
    ensures forall n :: n in back ==> n !in piece
    ensures forall n :: n in rest <==> n in piece || n in back
  {}

  lemma NextPiece(
    pieces: seq<seq<PhysicalOperator>>, channels: seq<InputChannel>, owned: set<PhysicalOperator>,
    piece: seq<PhysicalOperator>, channel: InputChannel, reader: PhysicalOperator, back: seq<PhysicalOperator>,
    chain: seq<PhysicalOperator>, roots: seq<PhysicalOperator>, segments: seq<seq<Op>>)
    requires Within(pieces, owned) && Wired(pieces, channels, owned) && |channels| == |pieces|
    requires |roots| == |pieces| + 1 && piece != [] && roots[|pieces|] == piece[0]
    requires forall i :: 0 <= i < |pieces| ==> pieces[i] != [] && roots[i] == pieces[i][0]
    requires Runnable(piece) && Output(piece) == channel
    requires Linked([reader] + back) && Unchannelled([reader] + back)
    requires forall n :: n in piece ==> n !in owned
    requires forall n :: n in [reader] + back ==> n !in owned && n !in piece
    requires pieces != [] ==> piece[0].input == channels[|channels| - 1]
    requires channel !in channels && reader.input == channel
    requires Join(pieces + [piece + back]) == chain
    requires segments == AllStates(pieces, owned) + ([States(piece)] + Segments(States([reader] + back)))
    ensures CutInv(pieces + [piece], channels + [channel], owned + Elements(piece), [reader] + back,
                   chain, roots, segments)
  {
    hide Join, States, Runnable, Output, Linked, Unchannelled, Segments, Wired, AllStates, Within;
    WiredMore(pieces, channels, owned, piece, channel);
    JoinCut(pieces, piece, reader, back);
    SeqAssoc(AllStates(pieces, owned), [States(piece)], Segments(States([reader] + back)));
  }

  /** One turn of the outer loop that finds a window. */
  method CutOnce(
    window: PhysicalOperator, ghost pieces: seq<seq<PhysicalOperator>>, ghost channels: seq<InputChannel>,
    ghost owned: set<PhysicalOperator>, ghost rest: seq<PhysicalOperator>, ghost chain: seq<PhysicalOperator>,
    ghost roots: seq<PhysicalOperator>, ghost segments: seq<seq<Op>>, ghost k: nat)
    returns (reader: PhysicalOperator, ghost channel: InputChannel)
    requires |roots| == |pieces| + 1 && CutInv(pieces, channels, owned, rest, chain, roots[..|pieces|], segments)
    requires roots[|pieces|] == rest[0]
    requires k == FirstWindow(States(rest)) < |rest| && window == rest[k]
    modifies window
    ensures fresh(reader) && fresh(channel) && channel.queue == [] && !channel.closed
    ensures CutInv(pieces + [rest[..k + 1]], channels + [channel], owned + Elements(rest[..k + 1]),
                   [reader] + rest[k + 1..], chain, roots, segments)
    ensures Windows(States([reader] + rest[k + 1..])) < old(Windows(States(rest)))
  {
    hide Join, States, Runnable, Output, Linked, Unchannelled, Windows, FirstWindow;
    CutFacts(States(rest));
    ghost var piece, back := rest[..k + 1], rest[k + 1..];
    PieceFacts(rest, k, piece, back);
    ghost var before := AllStates(pieces, owned);
    SeqAssoc(before, [UpToCut(States(rest))], Segments(AfterCut(States(rest))));
    assert Segments(States(rest)) == [UpToCut(States(rest))] + Segments(AfterCut(States(rest)));
    hide Segments, UpToCut, AfterCut;
    assert window !in owned;
    var c;
    reader, c := CutAt(window, rest, k);
    channel := c;
    assert AllStates(pieces, owned) == before;
    NextPiece(pieces, channels, owned, piece, channel, reader, back, chain, roots, segments);
  }

  /**
   * build() after compilation: the pieces' operator states are the segments of the chain; each
   * piece but the last writes to its own new channel, which the root of the next piece reads;
   * and apart from the inserted channel sources the pieces hold exactly the operators of the
   * chain, in order.
   */
  method Cut(root: PhysicalOperator, ghost chain: seq<PhysicalOperator>)
    returns (roots: seq<PhysicalOperator>, ghost pieces: seq<seq<PhysicalOperator>>,
             ghost channels: seq<InputChannel>, ghost owned: set<PhysicalOperator>)
    requires Linked(chain) && chain[0] == root && Unchannelled(chain)
    modifies chain
    ensures Within(pieces, owned) && Wired(pieces, channels, owned)
    ensures |roots| == |pieces| == |channels| + 1
    ensures forall i :: 0 <= i < |roots| ==> pieces[i] != [] && roots[i] == pieces[i][0]
    ensures forall c :: c in channels ==> fresh(c) && c.queue == [] && !c.closed
    ensures forall n :: n in owned ==> n in chain || fresh(n)
    ensures Join(pieces) == chain && pieces[0][0] == root
    ensures AllStates(pieces, owned) == Segments(old(States(chain)))
  {
    hide CutInv, Windows, FirstWindow, States, Segments, Wired, AllStates, Join, Unchannelled;
    var current := root;
    ghost var rest := chain;
    ghost var segments := Segments(States(chain));
    roots, pieces, channels, owned := [], [], [], {};
    StartCut(chain);
    while true
      invariant CutInv(pieces, channels, owned, rest, chain, roots, segments)
      invariant rest != [] && rest[0] == current
      invariant forall c :: c in channels ==> fresh(c) && c.queue == [] && !c.closed
      invariant forall n :: n in rest || n in owned ==> n in chain || fresh(n)
      invariant (if roots == [] then current else roots[0]) == root
      decreases Windows(States(rest))
    {
      CutInvRest(pieces, channels, owned, rest, chain, roots, segments);
      var window;
      ghost var k;
      window, k := FindWindow(current, rest);
      if window == null {
        LastPiece(pieces, channels, owned, rest, chain, roots, segments);
        roots := roots + [current];
        pieces, owned := pieces + [rest], owned + Elements(rest);
        break;
      }
      var reader;
      ghost var channel;
      assert window in rest;
      assert window in chain || fresh(window);
      roots := roots + [current];
      assert roots[..|pieces|] == roots[..|roots| - 1];
      reader, channel := CutOnce(window, pieces, channels, owned, rest, chain, roots, segments, k);
      pieces, channels, owned := pieces + [rest[..k + 1]], channels + [channel], owned + Elements(rest[..k + 1]);
      rest := [reader] + rest[k + 1..];
      current := reader;
    }
  }

  /** The initial operator states along the path. */
  function PathOps(nodes: seq<Node>, path: seq<OperatorId>): seq<Op>
    requires forall x :: x in path ==> x in Ids(nodes) && Compiles(OpOf(nodes, x))
  {
    if path == [] then []
    else
      assert path[0] in path && forall x :: x in path[1..] ==> x in path;
      [CompileOp(OpOf(nodes, path[0]))] + PathOps(nodes, path[1..])
  }

  lemma {:induction false} ChainStates(nodes: seq<Node>, path: seq<OperatorId>, chain: seq<PhysicalOperator>)
    requires forall x :: x in path ==> x in Ids(nodes) && Compiles(OpOf(nodes, x))
    requires |chain| == |path|
    requires forall i :: 0 <= i < |chain| ==>
               && path[i] in Ids(nodes) && Compiles(OpOf(nodes, path[i]))
               && chain[i].state == CompileOp(OpOf(nodes, path[i]))
    ensures States(chain) == PathOps(nodes, path)
  {
    if path != [] {
      assert forall x :: x in path[1..] ==> x in path;
      ChainStates(nodes, path[1..], chain[1..]);
    }
  }

  /**
   * ExecutionGraph::build for a graph that is a single path without joins: one pipeline per
   * segment of the path's operators, wired as Cut says.
   */
  method Build(g: DataflowGraph, iteration: seq<OperatorId>, ghost path: seq<OperatorId>)
    returns (pipelines: seq<Pipeline>, ghost pieces: seq<seq<PhysicalOperator>>,
             ghost channels: seq<InputChannel>, ghost owned: set<PhysicalOperator>)
    requires SinglePath(g, path)
    requires forall x :: x in path ==> x in Ids(g.operators) && Compiles(OpOf(g.operators, x))
    requires Distinct(iteration) && Elements(iteration) == DegreeKeys(Ids(g.operators), g.edges)
    ensures Within(pieces, owned) && Wired(pieces, channels, owned)
    ensures |pipelines| == |pieces| == |channels| + 1 == Windows(PathOps(g.operators, path)) + 1
    ensures forall i :: 0 <= i < |pipelines| ==> pieces[i] != [] && pipelines[i].root == pieces[i][0]
    ensures forall c :: c in channels ==> fresh(c) && c.queue == [] && !c.closed
    ensures pieces[0][0].input == null && forall n :: n in owned ==> fresh(n)
    ensures AllStates(pieces, owned) == Segments(PathOps(g.operators, path))
  {
    hide SinglePath, Segments, Windows, Wired, AllStates, CompileOp, OpOf;
    var root;
    ghost var chain;
    root, chain := Compile(g, iteration, path);
    ChainStates(g.operators, path, chain);
    SplitStructure(PathOps(g.operators, path));
    var roots;
    roots, pieces, channels, owned := Cut(root, chain);
    pipelines := Pipelines(roots);
  }

  method Pipelines(roots: seq<PhysicalOperator>) returns (pipelines: seq<Pipeline>)
    ensures |pipelines| == |roots| && forall i :: 0 <= i < |roots| ==> pipelines[i].root == roots[i]
  {
    pipelines := [];
    for i := 0 to |roots|
      invariant |pipelines| == i && forall j :: 0 <= j < i ==> pipelines[j].root == roots[j]
    {
      var pipeline := new Pipeline(roots[i]);
      pipelines := pipelines + [pipeline];
    }
  }
}
