/** Compiling a graph that is a single path into a chain of linked physical operators. */
module Compilers {
  import opened Kahn
  import Graphs
  import opened Builders
  import opened Chains
  import opened Physical
  import TimeWindows
  import Sources

  /** Joins compile to nothing. */
  predicate Compiles(op: LogicalOp) {
    !op.WindowJoinLogical? && !op.IntervalJoinLogical?
  }

  function CompileOp(op: LogicalOp): Op
    requires Compiles(op)
  {
    match op
    case SourceLogical(lateness, interval) =>
      SourceOp(Sources.SourceSpec(lateness, interval), Sources.NEW_SOURCE)
    case MapLogical(f) => MapOp(f)
    case FilterLogical(p) => FilterOp(p)
    case TimeWindowLogical(spec, func) => TimeWindowOp(spec, func, TimeWindows.FRESH)
    case CountWindowLogical(spec, func) => CountWindowOp(spec, func, [], false)
    case _ => SinkOp([])
  }

  /** `path` lists the operators of the graph, and its edges, in any order, are the steps of it. */
  ghost predicate SinglePath(g: DataflowGraph, path: seq<OperatorId>) {
    && path != [] && Distinct(path) && Distinct(Ids(g.operators))
    && Elements(path) == Elements(Ids(g.operators))
    && (forall e :: e in g.edges ==> exists i :: 0 <= i < |path| - 1 && StepOf(path, i, e))
    && (forall i :: 0 <= i < |path| - 1 ==> HasEdge(g.edges, path[i], path[i + 1]))
  }

  ghost predicate StepOf(path: seq<OperatorId>, i: int, e: Edge) {
    0 <= i < |path| - 1 && e.source == path[i] && e.target == path[i + 1]
  }

  function OpOf(nodes: seq<Node>, id: OperatorId): LogicalOp
    requires id in Ids(nodes)
  {
    if nodes[0].id == id then nodes[0].op
    else
      assert Ids(nodes)[1..] == Ids(nodes[1..]);
      OpOf(nodes[1..], id)
  }

  /** op(id): the first operator with that id. */
  method FindOp(nodes: seq<Node>, id: OperatorId) returns (op: LogicalOp)
    requires id in Ids(nodes)
    ensures op == OpOf(nodes, id)
  {
    var i := 0;
    while nodes[i].id != id
      invariant i < |nodes| && id in Ids(nodes[i..])
      invariant OpOf(nodes[i..], id) == OpOf(nodes, id)
      decreases |nodes| - i
    {
      assert Ids(nodes[i..])[1..] == Ids(nodes[i..][1..]) && nodes[i..][1..] == nodes[i + 1..];
      i := i + 1;
    }
    op := nodes[i].op;
  }

  // ---------- what a single path implies ----------

  lemma PathIsOrder(g: DataflowGraph, path: seq<OperatorId>)
    requires SinglePath(g, path)
    ensures KnownEdges(Ids(g.operators), g.edges) && !HasCycle(g.edges)
  {
    forall k | 0 <= k < |g.edges|
      ensures g.edges[k].source in Elements(path) && g.edges[k].target in Elements(path)
    {
      assert g.edges[k] in g.edges;
      var i :| 0 <= i < |path| - 1 && StepOf(path, i, g.edges[k]);
    }
    forall j, k | 0 <= j < |path| && 0 <= k < |g.edges| && g.edges[k].target == path[j]
      ensures g.edges[k].source in path[..j]
    {
      assert g.edges[k] in g.edges;
      var i :| 0 <= i < |path| - 1 && StepOf(path, i, g.edges[k]);
      Graphs.SameIndex(path, i + 1, j);
      assert path[..j][i] == path[i];
    }
    Graphs.OrderedMeansAcyclic(g.edges, path);
    assert forall k :: 0 <= k < |g.edges| ==>
        g.edges[k].source in Elements(Ids(g.operators)) && g.edges[k].target in Elements(Ids(g.operators));
  }

  lemma NothingBeforeFirst(edges: seq<Edge>, order: seq<OperatorId>)
    requires order != [] && SourcesFirst(edges, order)
    ensures forall x :: !HasEdge(edges, x, order[0])
  {
    assert order[..0] == [];
  }

  /** An order that lists sources first starts with the first operator of the path. */
  lemma FirstOfOrder(g: DataflowGraph, path: seq<OperatorId>, order: seq<OperatorId>)
    requires SinglePath(g, path)
    requires Elements(order) == Elements(path) && SourcesFirst(g.edges, order)
    ensures order != [] && order[0] == path[0]
  {
    hide SourcesFirst, HasEdge;
    assert path[0] in Elements(order);
    assert order[0] in Elements(path);
    var j :| 0 <= j < |path| && path[j] == order[0];
    assert j > 0 ==> HasEdge(g.edges, path[j - 1], path[j - 1 + 1]);
    NothingBeforeFirst(g.edges, order);
  }

  // ---------- compilation ----------

  /** Every operator of `ids` has its own fresh node, in its initial state. */
  ghost predicate NodesFor(compiled: map<OperatorId, PhysicalOperator>, nodes: seq<Node>)
    reads compiled.Values
  {
    && (forall x :: x in compiled ==>
          x in Ids(nodes) && Compiles(OpOf(nodes, x))
          && compiled[x].state == CompileOp(OpOf(nodes, x))
          && compiled[x].outputChannel == null && compiled[x].input == null)
    && (forall x, y :: x in compiled && y in compiled && x != y ==> compiled[x] != compiled[y])
  }

  method CompileNodes(nodes: seq<Node>, order: seq<OperatorId>)
    returns (compiled: map<OperatorId, PhysicalOperator>)
    requires Distinct(order) && forall x :: x in order ==> x in Ids(nodes) && Compiles(OpOf(nodes, x))
    ensures compiled.Keys == Elements(order) && NodesFor(compiled, nodes)
    ensures forall x :: x in compiled ==> fresh(compiled[x]) && compiled[x].next == null
  {
    compiled := map[];
    for i := 0 to |order|
      invariant compiled.Keys == Elements(order[..i]) && NodesFor(compiled, nodes)
      invariant forall x :: x in compiled ==> fresh(compiled[x]) && compiled[x].next == null
    {
      assert order[i] in order;
      var op := FindOp(nodes, order[i]);
      var node := new PhysicalOperator(CompileOp(op), null);
      assert order[..i + 1] == order[..i] + [order[i]];
      ElementsAppend(order[..i], order[i]);
      compiled := compiled[order[i] := node];
    }
    assert order[..|order|] == order;
  }

  /** The link of path[j] is set as soon as an edge out of it has been seen. */
  ghost predicate LinkedSoFar(compiled: map<OperatorId, PhysicalOperator>, path: seq<OperatorId>, seen: seq<Edge>)
    requires forall x :: x in path ==> x in compiled
    reads compiled.Values
  {
    && (forall j :: 0 <= j < |path| - 1 ==>
          compiled[path[j]].next == if HasEdge(seen, path[j], path[j + 1]) then compiled[path[j + 1]] else null)
    && (path != [] ==> compiled[path[|path| - 1]].next == null)
  }

  lemma SeenEdge(path: seq<OperatorId>, seen: seq<Edge>, e: Edge, i: nat, j: nat)
    requires Distinct(path) && StepOf(path, i, e) && j < |path| - 1
    ensures HasEdge(seen + [e], path[j], path[j + 1]) <==> HasEdge(seen, path[j], path[j + 1]) || j == i
  {
    var all := seen + [e];
    if HasEdge(all, path[j], path[j + 1]) {
      var k :| 0 <= k < |all| && all[k].source == path[j] && all[k].target == path[j + 1];
      if k < |seen| { assert seen[k] == all[k]; } else { Graphs.SameIndex(path, i, j); }
    }
    if HasEdge(seen, path[j], path[j + 1]) {
      var k :| 0 <= k < |seen| && seen[k].source == path[j] && seen[k].target == path[j + 1];
      assert all[k] == seen[k];
    }
    assert all[|seen|] == e;
  }

  /** set_next for one edge. */
  method LinkOne(compiled: map<OperatorId, PhysicalOperator>, nodes: seq<Node>, e: Edge,
                 ghost path: seq<OperatorId>, ghost seen: seq<Edge>, ghost k: nat)
    requires Distinct(path) && StepOf(path, k, e)
    requires forall x :: x in path ==> x in compiled
    requires e.source in compiled && e.target in compiled
    requires NodesFor(compiled, nodes) && LinkedSoFar(compiled, path, seen)
    modifies {compiled[e.source]}`next
    ensures NodesFor(compiled, nodes) && LinkedSoFar(compiled, path, seen + [e])
  {
    hide HasEdge;
    var node := compiled[e.source];
    forall j | 0 <= j < |path| && j != k
      ensures compiled[path[j]] != node
    {
      assert path[j] != path[k];
    }
    node.SetNext(compiled[e.target]);
    forall j | 0 <= j < |path| - 1
      ensures HasEdge(seen + [e], path[j], path[j + 1]) <==> HasEdge(seen, path[j], path[j + 1]) || j == k
    {
      SeenEdge(path, seen, e, k, j);
    }
  }

  lemma PathStep(g: DataflowGraph, path: seq<OperatorId>, e: Edge) returns (k: nat)
    requires SinglePath(g, path) && e in g.edges
    ensures StepOf(path, k, e) && e.source in Elements(path) && e.target in Elements(path)
  {
    k :| 0 <= k < |path| - 1 && StepOf(path, k, e);
  }

  method LinkNodes(compiled: map<OperatorId, PhysicalOperator>, g: DataflowGraph, ghost path: seq<OperatorId>)
    requires SinglePath(g, path) && compiled.Keys == Elements(path)
    requires NodesFor(compiled, g.operators)
    requires forall x :: x in compiled ==> compiled[x].next == null
    modifies compiled.Values`next
    ensures NodesFor(compiled, g.operators)
    ensures forall j :: 0 <= j < |path| - 1 ==> compiled[path[j]].next == compiled[path[j + 1]]
    ensures compiled[path[|path| - 1]].next == null
  {
    hide NodesFor, LinkedSoFar, HasEdge, Elements;
    PathKeys(compiled.Keys, path);
    NoneLinked(compiled, path);
    var edges := g.edges;
    assert edges[..0] == [];
    for i := 0 to |edges|
      invariant LinkedSoFar(compiled, path, edges[..i])
      invariant NodesFor(compiled, g.operators)
    {
      assert edges[i] in g.edges;
      ghost var k := PathStep(g, path, edges[i]);
      LinkOne(compiled, g.operators, edges[i], path, edges[..i], k);
      assert edges[..i + 1] == edges[..i] + [edges[i]];
    }
    assert edges[..|edges|] == edges;
    AllLinked(compiled, g, path);
  }

  lemma NoneLinked(compiled: map<OperatorId, PhysicalOperator>, path: seq<OperatorId>)
    requires forall x :: x in path ==> x in compiled
    requires forall x :: x in compiled ==> compiled[x].next == null
    ensures LinkedSoFar(compiled, path, [])
  {}

  lemma AllLinked(
    compiled: map<OperatorId, PhysicalOperator>, g: DataflowGraph, path: seq<OperatorId>)
    requires SinglePath(g, path) && forall x :: x in path ==> x in compiled
    requires LinkedSoFar(compiled, path, g.edges)
    ensures forall j :: 0 <= j < |path| - 1 ==> compiled[path[j]].next == compiled[path[j + 1]]
    ensures compiled[path[|path| - 1]].next == null
  {
    hide HasEdge, Elements;
  }

  lemma PathKeys(keys: set<OperatorId>, path: seq<OperatorId>)
    requires keys == Elements(path)
    ensures forall x :: x in path ==> x in keys
  {
    assert forall x :: x in path ==> x in Elements(path);
  }

  /**
   * For a graph that is a single path of operators other than joins, whatever the order of its
   * edge list and of the hash map behind the topological order: following `next` from the root
   * visits the compiled node of every operator exactly once, in path order.
   */
  method Compile(g: DataflowGraph, iteration: seq<OperatorId>, ghost path: seq<OperatorId>)
    returns (root: PhysicalOperator, ghost chain: seq<PhysicalOperator>)
    requires SinglePath(g, path)
    requires forall x :: x in path ==> x in Ids(g.operators) && Compiles(OpOf(g.operators, x))
    requires Distinct(iteration) && Elements(iteration) == DegreeKeys(Ids(g.operators), g.edges)
    ensures Linked(chain) && chain[0] == root && |chain| == |path|
    ensures forall i :: 0 <= i < |chain| ==>
              && fresh(chain[i]) && chain[i].outputChannel == null && chain[i].input == null
              && path[i] in Ids(g.operators) && Compiles(OpOf(g.operators, path[i]))
              && chain[i].state == CompileOp(OpOf(g.operators, path[i]))
  {
    hide SourcesFirst, HasCycle, KnownEdges, Graphs.Closed, DegreeKeys, OpOf, CompileOp, HasEdge, Elements, NodesFor,
         Linked;
    PathIsOrder(g, path);
    var ids := Ids(g.operators);
    var order := Graphs.TopologicalOrder(ids, g.edges, iteration);
    FirstOfOrder(g, path, order);
    SameElements(order, path);
    var compiled := CompileNodes(g.operators, order);
    LinkNodes(compiled, g, path);
    PathKeys(compiled.Keys, path);
    assert path[0] in path;
    root := compiled[order[0]];
    chain := ChainOf(compiled, g.operators, path);
  }

  lemma SameElements(a: seq<OperatorId>, b: seq<OperatorId>)
    requires Elements(a) == Elements(b)
    ensures forall x :: x in a <==> x in b
  {
    assert forall x :: x in a <==> x in Elements(a);
  }

  /** The compiled nodes in path order. */
  lemma ChainOf(compiled: map<OperatorId, PhysicalOperator>, nodes: seq<Node>, path: seq<OperatorId>)
    returns (chain: seq<PhysicalOperator>)
    requires path != [] && Distinct(path) && (forall x :: x in path ==> x in compiled)
    requires NodesFor(compiled, nodes)
    requires forall j :: 0 <= j < |path| - 1 ==> compiled[path[j]].next == compiled[path[j + 1]]
    requires compiled[path[|path| - 1]].next == null
    ensures Linked(chain) && |chain| == |path|
    ensures forall i :: 0 <= i < |chain| ==>
              && chain[i] == compiled[path[i]] && chain[i].outputChannel == null && chain[i].input == null
              && path[i] in Ids(nodes) && Compiles(OpOf(nodes, path[i]))
              && chain[i].state == CompileOp(OpOf(nodes, path[i]))
  {
    hide OpOf, CompileOp;
    chain := seq(|path|, i requires 0 <= i < |path| => compiled[path[i]]);
    forall i, j | 0 <= i < j < |chain|
      ensures chain[i] != chain[j]
    {
      assert path[i] != path[j];
    }
  }

  // ---------- fluent chains are paths ----------

  /** Every call after the first is made on the handle that the call before it returned. */
  ghost predicate Chained(counter: nat, calls: seq<Call>)
    decreases |calls|
  {
    calls == []
    || (calls[0].Call? && calls[0].upstream == (if counter == 1 then [] else [counter - 1])
        && Chained(counter + 1, calls[1..]))
  }

  ghost predicate OnePath(s: BuilderState) {
    && s.counter == |s.nodes| + 1
    && (forall i :: 0 <= i < |s.nodes| ==> s.nodes[i].id == i + 1)
    && s.edgeCounter == |s.edges| == (if s.nodes == [] then 0 else |s.nodes| - 1)
    && (forall i :: 0 <= i < |s.edges| ==> s.edges[i] == Edge(i, i + 1, i + 2))
  }

  lemma AppliedOnPath(s: BuilderState, call: Call)
    requires OnePath(s) && call.Call? && call.upstream == (if s.counter == 1 then [] else [s.counter - 1])
    ensures OnePath(Apply(s, call)) && Apply(s, call).counter == s.counter + 1
    ensures Apply(s, call).nodes == s.nodes + [Node(s.counter, call.op)]
  {
    var s' := s.(counter := s.counter + 1, nodes := s.nodes + [Node(s.counter, call.op)]);
    if s.counter == 1 {
      assert Apply(s, call) == s';
    } else {
      assert call.upstream[1..] == [];
      var t := s'.(edgeCounter := s.edgeCounter + 1,
                   edges := s.edges + [Edge(s.edgeCounter, s.counter - 1, s.counter)]);
      assert AddEdges(t, [], s.counter) == t;
      assert Apply(s, call) == AddEdges(t, call.upstream[1..], s.counter);
    }
  }

  lemma {:induction false} ChainedKeepsPath(s: BuilderState, calls: seq<Call>)
    requires OnePath(s) && Chained(s.counter, calls)
    ensures OnePath(ApplyAll(s, calls))
    ensures |ApplyAll(s, calls).nodes| == |s.nodes| + |calls|
    ensures forall i :: 0 <= i < |s.nodes| ==> ApplyAll(s, calls).nodes[i] == s.nodes[i]
    ensures forall i :: 0 <= i < |calls| ==>
              calls[i].Call? && ApplyAll(s, calls).nodes[|s.nodes| + i].op == calls[i].op
    decreases |calls|
  {
    if calls != [] {
      var s' := Apply(s, calls[0]);
      AppliedOnPath(s, calls[0]);
      ChainedKeepsPath(s', calls[1..]);
      forall i | 0 <= i < |calls|
        ensures calls[i].Call? && ApplyAll(s, calls).nodes[|s.nodes| + i].op == calls[i].op
      {
        if i > 0 { assert calls[i] == calls[1..][i - 1]; }
      }
    }
  }

  lemma OnePathIsSinglePath(s: BuilderState)
    requires OnePath(s) && s.nodes != []
    ensures SinglePath(DataflowGraph(s.nodes, s.edges), Ids(s.nodes))
  {
    var path := Ids(s.nodes);
    forall e | e in s.edges
      ensures exists i :: 0 <= i < |path| - 1 && StepOf(path, i, e)
    {
      var i :| 0 <= i < |s.edges| && s.edges[i] == e;
      assert StepOf(path, i, e);
    }
    forall i | 0 <= i < |path| - 1
      ensures HasEdge(s.edges, path[i], path[i + 1])
    {
      assert s.edges[i].source == path[i] && s.edges[i].target == path[i + 1];
    }
  }

  /** A graph built by one chain of calls is a single path in the order of the calls. */
  lemma ChainedCallsMakeAPath(calls: seq<Call>)
    requires calls != [] && Chained(1, calls)
    ensures var s := ApplyAll(EMPTY, calls);
            && |s.nodes| == |calls|
            && SinglePath(DataflowGraph(s.nodes, s.edges), Ids(s.nodes))
            && forall i :: 0 <= i < |calls| ==>
                 calls[i].Call? && Ids(s.nodes)[i] in Ids(s.nodes) && OpOf(s.nodes, Ids(s.nodes)[i]) == calls[i].op
  {
    ChainedKeepsPath(EMPTY, calls);
    hide ApplyAll, OpOf, Chained;
    var s := ApplyAll(EMPTY, calls);
    assert s.nodes != [];
    OnePathIsSinglePath(s);
    assert forall i :: 0 <= i < |calls| ==> calls[i].Call? && s.nodes[|EMPTY.nodes| + i].op == calls[i].op;
    hide OnePath;
    forall i | 0 <= i < |calls|
      ensures Ids(s.nodes)[i] in Ids(s.nodes) && OpOf(s.nodes, Ids(s.nodes)[i]) == calls[i].op
    {
      OpAt(s.nodes, i);
      assert s.nodes[|EMPTY.nodes| + i].op == calls[i].op;
    }
  }

  lemma {:induction false} OpAt(nodes: seq<Node>, i: nat)
    requires i < |nodes| && Distinct(Ids(nodes))
    ensures nodes[i].id in Ids(nodes) && OpOf(nodes, nodes[i].id) == nodes[i].op
  {
    assert Ids(nodes)[i] == nodes[i].id;
    assert Ids(nodes)[1..] == Ids(nodes[1..]);
    if i > 0 {
      assert Ids(nodes)[0] != Ids(nodes)[i];
      forall j, k | 0 <= j < k < |nodes| - 1
        ensures Ids(nodes[1..])[j] != Ids(nodes[1..])[k]
      {
        assert Ids(nodes)[j + 1] != Ids(nodes)[k + 1];
      }
      OpAt(nodes[1..], i - 1);
    }
  }
}
