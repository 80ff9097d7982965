/** The fluent builder: what every sequence of calls on its handles keeps, and why build() succeeds. */
module Builders {
  import opened Types
  import opened Kahn
  import opened Graphs

  datatype LogicalOp =
    | SourceLogical(lateness: u64, interval: u64)
    | MapLogical(transform: Event -> Event)
    | FilterLogical(keep: Event -> bool)
    | SinkLogical
    | TimeWindowLogical(spec: WindowSpec, func: seq<Event> -> Event)
    | CountWindowLogical(spec: WindowSpec, func: seq<Event> -> Event)
    | WindowJoinLogical
    | IntervalJoinLogical

  datatype Node = Node(id: OperatorId, op: LogicalOp)

  datatype DataflowGraph = DataflowGraph(operators: seq<Node>, edges: seq<Edge>)

  function Ids(nodes: seq<Node>): (r: seq<OperatorId>)
    ensures |r| == |nodes|
    ensures forall i :: 0 <= i < |nodes| ==> r[i] == nodes[i].id
  {
    seq(|nodes|, i requires 0 <= i < |nodes| => nodes[i].id)
  }

  // ---------- calls as transitions ----------

  datatype BuilderState = BuilderState(counter: nat, edgeCounter: nat, nodes: seq<Node>, edges: seq<Edge>)

  const EMPTY := BuilderState(1, 0, [], [])

  /**
   * A call on a handle: one that adds an operator, with no, one or two upstream handles, or
   * with_watermark.
   */
  datatype Call = Call(upstream: seq<OperatorId>, op: LogicalOp) | WithWatermark(handle: OperatorId, lateness: u64)

  function AddEdges(s: BuilderState, upstream: seq<OperatorId>, target: OperatorId): BuilderState
    decreases |upstream|
  {
    if upstream == [] then s
    else
      var s' := s.(edgeCounter := s.edgeCounter + 1,
                   edges := s.edges + [Edge(s.edgeCounter, upstream[0], target)]);
      AddEdges(s', upstream[1..], target)
  }

  predicate IsSourceNode(n: Node, id: OperatorId) {
    n.id == id && n.op.SourceLogical?
  }

  /** The lateness of that source replaced, everything else as it was. */
  function SetLateness(nodes: seq<Node>, id: OperatorId, lateness: u64): (r: seq<Node>)
    ensures |r| == |nodes|
  {
    seq(|nodes|, i requires 0 <= i < |nodes| =>
      if IsSourceNode(nodes[i], id) then Node(id, nodes[i].op.(lateness := lateness)) else nodes[i])
  }

  function Apply(s: BuilderState, call: Call): BuilderState {
    match call
    case Call(upstream, op) =>
      AddEdges(s.(counter := s.counter + 1, nodes := s.nodes + [Node(s.counter, op)]), upstream, s.counter)
    case WithWatermark(handle, lateness) => s.(nodes := SetLateness(s.nodes, handle, lateness))
  }

  /**
   * The handles passed to a call have come out of earlier calls on the same builder, and
   * with_watermark is called on a source.
   */
  ghost predicate KnownHandles(s: BuilderState, call: Call) {
    match call
    case Call(upstream, _) => forall h :: h in upstream ==> h in Ids(s.nodes)
    case WithWatermark(handle, _) => exists i :: 0 <= i < |s.nodes| && IsSourceNode(s.nodes[i], handle)
  }

  ghost predicate ValidCalls(s: BuilderState, calls: seq<Call>)
    decreases |calls|
  {
    calls == [] || (KnownHandles(s, calls[0]) && ValidCalls(Apply(s, calls[0]), calls[1..]))
  }

  function ApplyAll(s: BuilderState, calls: seq<Call>): BuilderState
    decreases |calls|
  {
    if calls == [] then s else ApplyAll(Apply(s, calls[0]), calls[1..])
  }

  /** How many of the calls add an operator. */
  function Additions(calls: seq<Call>): nat {
    if calls == [] then 0 else (if calls[0].Call? then 1 else 0) + Additions(calls[1..])
  }

  // ---------- the invariant ----------

  /** Operators are numbered from 1 in order of creation, and edges go to known operators. */
  ghost predicate Numbered(s: BuilderState) {
    && s.counter == |s.nodes| + 1
    && (forall i :: 0 <= i < |s.nodes| ==> s.nodes[i].id == i + 1)
    && s.edgeCounter == |s.edges|
    && (forall i :: 0 <= i < |s.edges| ==> s.edges[i].id == i)
    && (forall i :: 0 <= i < |s.edges| ==> 1 <= s.edges[i].target < s.counter)
  }

  /** Edges go from lower to higher ids. */
  ghost predicate Rising(s: BuilderState) {
    forall i :: 0 <= i < |s.edges| ==> 1 <= s.edges[i].source < s.edges[i].target
  }

  lemma {:induction false} AddEdgesKeeps(s: BuilderState, upstream: seq<OperatorId>, target: OperatorId)
    requires Numbered(s) && 1 <= target < s.counter
    ensures Numbered(AddEdges(s, upstream, target))
    ensures Rising(s) && (forall h :: h in upstream ==> 1 <= h < target) ==> Rising(AddEdges(s, upstream, target))
    ensures AddEdges(s, upstream, target).nodes == s.nodes
    ensures AddEdges(s, upstream, target).counter == s.counter
    decreases |upstream|
  {
    if upstream != [] {
      var s' := s.(edgeCounter := s.edgeCounter + 1,
                   edges := s.edges + [Edge(s.edgeCounter, upstream[0], target)]);
      assert upstream[0] in upstream && forall h :: h in upstream[1..] ==> h in upstream;
      assert Numbered(s');
      AddEdgesKeeps(s', upstream[1..], target);
    }
  }

  lemma KnownIds(s: BuilderState, h: OperatorId)
    requires Numbered(s)
    ensures h in Ids(s.nodes) <==> 1 <= h < s.counter
  {
    if 1 <= h < s.counter {
      assert Ids(s.nodes)[h - 1] == h;
    }
  }

  /** Whatever handles are passed; with those of this builder edges rise. */
  lemma ApplyKeeps(s: BuilderState, call: Call)
    requires Numbered(s)
    ensures Numbered(Apply(s, call))
    ensures Rising(s) && KnownHandles(s, call) ==> Rising(Apply(s, call))
    ensures call.Call? ==> Apply(s, call).nodes == s.nodes + [Node(s.counter, call.op)]
    ensures |Apply(s, call).nodes| == |s.nodes| + if call.Call? then 1 else 0
  {
    if call.Call? {
      forall h | KnownHandles(s, call) && h in call.upstream
        ensures 1 <= h < s.counter
      {
        KnownIds(s, h);
      }
      var s' := s.(counter := s.counter + 1, nodes := s.nodes + [Node(s.counter, call.op)]);
      AddEdgesKeeps(s', call.upstream, s.counter);
    }
  }

  lemma {:induction false} CallsKeep(s: BuilderState, calls: seq<Call>)
    requires Numbered(s)
    ensures Numbered(ApplyAll(s, calls))
    ensures Rising(s) && ValidCalls(s, calls) ==> Rising(ApplyAll(s, calls))
    ensures |ApplyAll(s, calls).nodes| == |s.nodes| + Additions(calls)
    decreases |calls|
  {
    hide Numbered, Rising, KnownHandles, Apply;
    if calls != [] {
      ApplyKeeps(s, calls[0]);
      CallsKeep(Apply(s, calls[0]), calls[1..]);
    }
  }

  lemma NumberedFacts(s: BuilderState)
    requires Numbered(s)
    ensures Distinct(Ids(s.nodes)) && KnownTargets(Ids(s.nodes), s.edges)
    ensures forall id :: id in Ids(s.nodes) ==> 1 <= id < s.counter
  {
    forall i | 0 <= i < |s.edges|
      ensures s.edges[i].target in Ids(s.nodes)
    {
      KnownIds(s, s.edges[i].target);
    }
    forall id | id in Ids(s.nodes)
      ensures 1 <= id < s.counter
    {
      KnownIds(s, id);
    }
  }

  /** Edges end at known operators, and nothing that only goes up is a cycle. */
  lemma RisingIsValid(s: BuilderState)
    requires Numbered(s) && Rising(s)
    ensures KnownEdges(Ids(s.nodes), s.edges) && !HasCycle(s.edges)
  {
    forall i | 0 <= i < |s.edges|
      ensures s.edges[i].source in Ids(s.nodes) && s.edges[i].target in Ids(s.nodes)
    {
      KnownIds(s, s.edges[i].source);
      KnownIds(s, s.edges[i].target);
    }
    var order := Ids(s.nodes);
    forall j, i | 0 <= j < |order| && 0 <= i < |s.edges| && s.edges[i].target == order[j]
      ensures s.edges[i].source in order[..j]
    {
      assert order[..j][s.edges[i].source - 1] == s.edges[i].source;
    }
    OrderedMeansAcyclic(s.edges, order);
  }

  /**
   * After any sequence of handle calls on one builder, with_watermark included, the ids are unique
   * and below the counter and every edge ends at a known operator; if the handles are all its
   * own, every edge starts at one too, and there is no cycle.
   */
  lemma EveryBuiltGraphIsValid(calls: seq<Call>)
    ensures var s := ApplyAll(EMPTY, calls);
            && |s.nodes| == Additions(calls)
            && Distinct(Ids(s.nodes)) && (forall id :: id in Ids(s.nodes) ==> 1 <= id < s.counter)
            && KnownTargets(Ids(s.nodes), s.edges)
            && (ValidCalls(EMPTY, calls) ==> KnownEdges(Ids(s.nodes), s.edges) && !HasCycle(s.edges))
  {
    hide Apply, KnownHandles;
    assert Numbered(EMPTY) && Rising(EMPTY);
    CallsKeep(EMPTY, calls);
    var s := ApplyAll(EMPTY, calls);
    NumberedFacts(s);
    if Rising(s) { RisingIsValid(s); }
  }

  // ---------- what is in the graph ----------

  /** How many edges go from `x` to `y`. */
  ghost function EdgeCount(edges: seq<Edge>, x: OperatorId, y: OperatorId): nat {
    if edges == [] then 0
    else
      var e := edges[|edges| - 1];
      EdgeCount(edges[..|edges| - 1], x, y) + if e.source == x && e.target == y then 1 else 0
  }

  lemma {:induction false} NoEdgesTo(edges: seq<Edge>, x: OperatorId, y: OperatorId)
    requires forall i :: 0 <= i < |edges| ==> edges[i].target != y
    ensures EdgeCount(edges, x, y) == 0
  {
    if edges != [] { NoEdgesTo(edges[..|edges| - 1], x, y); }
  }

  lemma {:induction false} AddEdgesCount(
    s: BuilderState, upstream: seq<OperatorId>, target: OperatorId, x: OperatorId, y: OperatorId)
    ensures EdgeCount(AddEdges(s, upstream, target).edges, x, y)
            == EdgeCount(s.edges, x, y) + if y == target then multiset(upstream)[x] else 0
    ensures forall e :: e in AddEdges(s, upstream, target).edges ==>
                          e in s.edges || (e.target == target && e.source in upstream)
    decreases |upstream|
  {
    if upstream != [] {
      var e := Edge(s.edgeCounter, upstream[0], target);
      var s' := s.(edgeCounter := s.edgeCounter + 1, edges := s.edges + [e]);
      AddEdgesCount(s', upstream[1..], target, x, y);
      assert s'.edges[..|s.edges|] == s.edges;
      assert upstream == [upstream[0]] + upstream[1..];
      assert multiset(upstream) == multiset{upstream[0]} + multiset(upstream[1..]);
    }
  }

  lemma {:induction false} ApplyAllMore(s: BuilderState, calls: seq<Call>, call: Call)
    ensures ApplyAll(s, calls + [call]) == Apply(ApplyAll(s, calls), call)
    ensures Additions(calls + [call]) == Additions(calls) + if call.Call? then 1 else 0
    decreases |calls|
  {
    hide Apply;
    if calls == [] {
      assert [call][1..] == [] && calls + [call] == [call];
    } else {
      assert (calls + [call])[1..] == calls[1..] + [call];
      ApplyAllMore(Apply(s, calls[0]), calls[1..], call);
    }
  }

  /** The id that the k-th call, if it adds an operator, gives to it. */
  ghost function IdOf(calls: seq<Call>, k: nat): OperatorId
    requires k < |calls|
  {
    1 + Additions(calls[..k])
  }

  /** The lateness that the last with_watermark on `id` sets. */
  ghost function LastLateness(id: OperatorId, calls: seq<Call>, initial: u64): u64 {
    if calls == [] then initial
    else
      var last := calls[|calls| - 1];
      if last.WithWatermark? && last.handle == id then last.lateness
      else LastLateness(id, calls[..|calls| - 1], initial)
  }

  /** What the operator that the k-th call adds has become after all calls. */
  ghost function FinalOp(calls: seq<Call>, k: nat): LogicalOp
    requires k < |calls| && calls[k].Call?
  {
    var op := calls[k].op;
    if op.SourceLogical? then op.(lateness := LastLateness(IdOf(calls, k), calls[k + 1..], op.lateness)) else op
  }

  /** The k-th call's operator is in the graph, with an edge for each of the call's handles. */
  ghost predicate AddedBy(s: BuilderState, calls: seq<Call>, k: nat)
    requires k < |calls| && calls[k].Call?
  {
    var id := IdOf(calls, k);
    && 1 <= id <= |s.nodes| && s.nodes[id - 1] == Node(id, FinalOp(calls, k))
    && forall h :: EdgeCount(s.edges, h, id) == multiset(calls[k].upstream)[h]
  }

  /** A call just made: its id is the counter before it. */
  lemma CallNow(calls: seq<Call>, call: Call)
    ensures IdOf(calls + [call], |calls|) == 1 + Additions(calls)
    ensures call.Call? ==> FinalOp(calls + [call], |calls|) == call.op
  {
    var all := calls + [call];
    assert all[..|calls|] == calls && all[|calls| + 1..] == [];
  }

  /** A call made earlier: its id stays, and with_watermark changes the lateness of a source. */
  lemma CallBefore(calls: seq<Call>, call: Call, k: nat)
    requires k < |calls|
    ensures IdOf(calls + [call], k) == IdOf(calls, k)
    ensures calls[k].Call? ==>
              var op := FinalOp(calls, k);
              FinalOp(calls + [call], k)
              == if call.WithWatermark? && call.handle == IdOf(calls, k) && op.SourceLogical?
                 then op.(lateness := call.lateness) else op
  {
    var all := calls + [call];
    assert all[..k] == calls[..k] && all[k + 1..] == calls[k + 1..] + [call];
    assert all[k + 1..][..|calls| - k - 1] == calls[k + 1..];
  }

  lemma AddedNow(s: BuilderState, calls: seq<Call>, call: Call)
    requires call.Call? && Numbered(s) && |s.nodes| == Additions(calls)
    ensures AddedBy(Apply(s, call), calls + [call], |calls|)
  {
    hide Apply, FinalOp, IdOf, EdgeCount;
    ApplyKeeps(s, call);
    CallNow(calls, call);
    forall h
      ensures EdgeCount(Apply(s, call).edges, h, s.counter) == multiset(call.upstream)[h]
    {
      NoEdgesTo(s.edges, h, s.counter);
      ApplyCount(s, call, h, s.counter);
    }
  }

  lemma ApplyCount(s: BuilderState, call: Call, x: OperatorId, y: OperatorId)
    ensures EdgeCount(Apply(s, call).edges, x, y)
            == EdgeCount(s.edges, x, y) + if call.Call? && y == s.counter then multiset(call.upstream)[x] else 0
    ensures forall e :: e in Apply(s, call).edges ==>
                          e in s.edges || (call.Call? && e.target == s.counter && e.source in call.upstream)
  {
    if call.Call? {
      var s' := s.(counter := s.counter + 1, nodes := s.nodes + [Node(s.counter, call.op)]);
      AddEdgesCount(s', call.upstream, s.counter, x, y);
    }
  }

  lemma AddedBefore(s: BuilderState, calls: seq<Call>, call: Call, k: nat)
    requires k < |calls| && calls[k].Call? && Numbered(s) && AddedBy(s, calls, k)
    ensures AddedBy(Apply(s, call), calls + [call], k)
  {
    hide Apply, FinalOp, IdOf, EdgeCount;
    CallBefore(calls, call, k);
    var id := IdOf(calls, k);
    forall h
      ensures EdgeCount(Apply(s, call).edges, h, id) == EdgeCount(s.edges, h, id)
    {
      ApplyCount(s, call, h, id);
    }
    NodeAfter(s, call, id);
  }

  lemma NodeAfter(s: BuilderState, call: Call, id: OperatorId)
    requires Numbered(s) && 1 <= id <= |s.nodes|
    ensures |Apply(s, call).nodes| >= |s.nodes|
    ensures Apply(s, call).nodes[id - 1]
            == if call.WithWatermark? && call.handle == id && s.nodes[id - 1].op.SourceLogical?
               then Node(id, s.nodes[id - 1].op.(lateness := call.lateness)) else s.nodes[id - 1]
  {
    ApplyKeeps(s, call);
  }

  lemma StartsEmpty()
    ensures Numbered(EMPTY) && Rising(EMPTY) && ApplyAll(EMPTY, []) == EMPTY && Additions([]) == 0
  {}

  /**
   * What any sequence of calls builds: every call that adds an operator has its operator in the
   * graph under the next id, a source with the lateness that was set last, and as many edges from
   * any handle to it as the call names that handle; and there are no other edges.
   */
  lemma {:induction false} GraphOfCalls(calls: seq<Call>)
    ensures var s := ApplyAll(EMPTY, calls);
            && |s.nodes| == Additions(calls)
            && (forall k :: 0 <= k < |calls| && calls[k].Call? ==> AddedBy(s, calls, k))
            && (forall e :: e in s.edges ==> Asked(calls, e))
  {
    hide Apply, AddedBy, Asked, ApplyAll, Additions, Numbered;
    StartsEmpty();
    CallsKeep(EMPTY, calls);
    if calls != [] {
      var front, call := calls[..|calls| - 1], calls[|calls| - 1];
      assert calls == front + [call];
      GraphOfCalls(front);
      CallsKeep(EMPTY, front);
      ApplyAllMore(EMPTY, front, call);
      var before, s := ApplyAll(EMPTY, front), ApplyAll(EMPTY, calls);
      forall k | 0 <= k < |calls| && calls[k].Call?
        ensures AddedBy(s, calls, k)
      {
        if k < |front| { AddedBefore(before, front, call, k); } else { AddedNow(before, front, call); }
      }
      forall e | e in s.edges
        ensures Asked(calls, e)
      {
        EdgeAsked(before, front, call, e);
      }
    }
  }

  /** One of the calls has asked for the edge. */
  ghost predicate Asked(calls: seq<Call>, e: Edge) {
    exists k :: 0 <= k < |calls| && calls[k].Call? && e.target == IdOf(calls, k) && e.source in calls[k].upstream
  }

  lemma EdgeAsked(s: BuilderState, calls: seq<Call>, call: Call, e: Edge)
    requires Numbered(s) && |s.nodes| == Additions(calls) && e in Apply(s, call).edges
    requires e in s.edges ==> Asked(calls, e)
    ensures Asked(calls + [call], e)
  {
    hide Apply, IdOf;
    ApplyCount(s, call, 0, 0);
    if e in s.edges {
      var k :| 0 <= k < |calls| && calls[k].Call? && e.target == IdOf(calls, k) && e.source in calls[k].upstream;
      CallBefore(calls, call, k);
      assert (calls + [call])[k] == calls[k];
    } else {
      CallNow(calls, call);
      assert (calls + [call])[|calls|] == call;
    }
  }

  /** Two handles that are made up before their operators exist close a cycle. */
  lemma MadeUpHandlesCycle(op: LogicalOp)
    ensures HasCycle(ApplyAll(EMPTY, [Call([2], op), Call([1], op)]).edges)
  {
    var calls := [Call([2], op), Call([1], op)];
    var s := Apply(EMPTY, calls[0]);
    assert s == BuilderState(2, 1, [Node(1, op)], [Edge(0, 2, 1)]) by { assert [2][1..] == []; }
    var t := Apply(s, calls[1]);
    assert t.edges == [Edge(0, 2, 1), Edge(1, 1, 2)] by { assert [1][1..] == []; }
    assert calls[1..][1..] == [] && ApplyAll(t, []) == t && calls[1..][0] == calls[1];
    assert ApplyAll(EMPTY, calls) == t;
    var p := [1, 2, 1];
    assert t.edges[1].source == p[0] && t.edges[1].target == p[1];
    assert t.edges[0].source == p[1] && t.edges[0].target == p[2];
    assert Walk(t.edges, p);
  }

  /** with_watermark right after source() makes the source that was asked for. */
  lemma WithWatermarkSetsLateness(interval: u64, lateness: u64, other: u64, rest: seq<Call>)
    ensures ApplyAll(EMPTY, [Call([], SourceLogical(other, interval))] + ([WithWatermark(1, lateness)] + rest))
            == ApplyAll(EMPTY, [Call([], SourceLogical(lateness, interval))] + rest)
  {
    var first, second := Call([], SourceLogical(other, interval)), WithWatermark(1, lateness);
    var direct := Call([], SourceLogical(lateness, interval));
    assert ([first] + ([second] + rest))[1..] == [second] + rest && ([second] + rest)[1..] == rest;
    assert ([direct] + rest)[1..] == rest;
    assert Apply(Apply(EMPTY, first), second).nodes == [Node(1, SourceLogical(lateness, interval))];
    assert Apply(EMPTY, direct).nodes == [Node(1, SourceLogical(lateness, interval))];
  }

  // ---------- the builder ----------

  class DataflowGraphBuilder {
    var counter: nat
    var edgeCounter: nat
    var nodes: seq<Node>
    var edges: seq<Edge>

    ghost function State(): BuilderState
      reads this
    {
      BuilderState(counter, edgeCounter, nodes, edges)
    }

    ghost predicate Valid()
      reads this
    {
      Numbered(State())
    }

    constructor ()
      ensures Valid() && State() == EMPTY
    {
      counter, edgeCounter, nodes, edges := 1, 0, [], [];
    }

    method NextId() returns (id: OperatorId)
      modifies `counter
      ensures id == old(counter) && counter == old(counter) + 1
    {
      id := counter;
      counter := counter + 1;
    }

    method AddEdge(from: OperatorId, target: OperatorId)
      modifies `edges, `edgeCounter
      ensures State() == AddEdges(old(State()), [from], target)
    {
      var id := edgeCounter;
      edgeCounter := edgeCounter + 1;
      edges := edges + [Edge(id, from, target)];
      assert [from][1..] == [];
    }

    method Source() returns (handle: OperatorId)
      requires Valid()
      modifies this
      ensures Valid() && State() == Apply(old(State()), Call([], SourceLogical(0, 100)))
      ensures handle == old(counter) && handle in Ids(nodes)
    {
      ApplyKeeps(State(), Call([], SourceLogical(0, 100)));
      handle := NextId();
      nodes := nodes + [Node(handle, SourceLogical(0, 100))];
      assert Ids(nodes)[|nodes| - 1] == handle;
    }

    /** map, filter, sink and the two window calls, which differ in the operator they add. */
    method AddUnary(upstream: OperatorId, op: LogicalOp) returns (handle: OperatorId)
      requires Valid()
      modifies this
      ensures Valid() && State() == Apply(old(State()), Call([upstream], op))
      ensures handle == old(counter) && handle in Ids(nodes)
    {
      ApplyKeeps(State(), Call([upstream], op));
      handle := NextId();
      nodes := nodes + [Node(handle, op)];
      AddEdge(upstream, handle);
      assert Ids(nodes)[|nodes| - 1] == handle;
    }

    /** The two joins: one edge from each side, even when both sides are the same handle. */
    method AddJoin(upstream: OperatorId, other: OperatorId, op: LogicalOp) returns (handle: OperatorId)
      requires Valid()
      modifies this
      ensures Valid() && State() == Apply(old(State()), Call([upstream, other], op))
      ensures handle == old(counter) && handle in Ids(nodes)
    {
      ApplyKeeps(State(), Call([upstream, other], op));
      handle := NextId();
      nodes := nodes + [Node(handle, op)];
      AddEdge(upstream, handle);
      AddEdge(other, handle);
      assert [upstream, other][1..] == [other];
      assert Ids(nodes)[|nodes| - 1] == handle;
    }

    /** with_watermark: asserts that the handle is that of a source; changes nothing else. */
    method SetSourceLateness(id: OperatorId, lateness: u64)
      requires Valid() && KnownHandles(State(), WithWatermark(id, lateness))
      modifies `nodes
      ensures Valid() && State() == Apply(old(State()), WithWatermark(id, lateness))
    {
      ApplyKeeps(State(), WithWatermark(id, lateness));
      var i := 0;
      while nodes[i].id != id
        invariant i < |nodes| && nodes == old(nodes)
        invariant forall j :: 0 <= j < i ==> nodes[j].id != id
        invariant exists j :: i <= j < |nodes| && IsSourceNode(nodes[j], id)
        decreases |nodes| - i
      {
        i := i + 1;
      }
      nodes := nodes[i := Node(id, nodes[i].op.(lateness := lateness))];
      assert nodes == SetLateness(old(nodes), id, lateness);
    }

    /**
     * build(): whether its assertion holds, and the graph. It holds whenever there is an operator
     * and all handles were this builder's own; otherwise an edge from an unknown operator, or a
     * cycle through a handle that was made up, is reported as a cycle.
     */
    method Build() returns (r: ValidationResult, graph: DataflowGraph)
      requires Valid()
      ensures graph == DataflowGraph(nodes, edges)
      ensures Distinct(Ids(nodes))
      ensures r.NoOperators? <==> nodes == []
      ensures r.Valid? <==> nodes != [] && KnownEdges(Ids(nodes), edges) && !HasCycle(edges)
      ensures r.Valid? || r.NoOperators? || r.ContainsCycle?
      ensures Rising(State()) && nodes != [] ==> r.Valid?
    {
      NumberedFacts(State());
      if Rising(State()) { RisingIsValid(State()); }
      var ids := Ids(nodes);
      ghost var visited;
      r, visited := Validate(ids, edges);
      graph := DataflowGraph(nodes, edges);
    }
  }
}
