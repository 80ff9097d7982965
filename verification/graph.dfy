/** Cycle check, validation and topological order of a dataflow graph. */
module Graphs {
  import opened Kahn

  // ---------- orders and cycles ----------

  ghost function Position(order: seq<OperatorId>, x: OperatorId): (k: nat)
    requires x in order
    ensures k < |order| && order[k] == x
  {
    var k: nat :| k < |order| && order[k] == x;
    k
  }

  lemma SameIndex<T>(s: seq<T>, i: nat, j: nat)
    requires Distinct(s) && i < |s| && j < |s| && s[i] == s[j]
    ensures i == j
  {}

  lemma EdgeClimbs(edges: seq<Edge>, order: seq<OperatorId>, x: OperatorId, y: OperatorId)
    requires Distinct(order) && SourcesFirst(edges, order) && HasEdge(edges, x, y) && y in order
    ensures x in order && Position(order, x) < Position(order, y)
  {
    var i :| 0 <= i < |edges| && edges[i].source == x && edges[i].target == y;
    var j := Position(order, y);
    assert edges[i].source in order[..j];
    var k :| 0 <= k < j && order[..j][k] == x;
    assert order[k] == x;
    SameIndex(order, Position(order, x), k);
  }

  lemma {:induction false} WalkClimbs(edges: seq<Edge>, order: seq<OperatorId>, p: seq<OperatorId>, k: nat)
    requires Distinct(order) && SourcesFirst(edges, order) && Walk(edges, p)
    requires 0 < k < |p| && p[k] in order
    ensures p[0] in order && Position(order, p[0]) < Position(order, p[k])
  {
    hide SourcesFirst, HasEdge;
    EdgeClimbs(edges, order, p[k - 1], p[k]);
    if k > 1 { WalkClimbs(edges, order, p, k - 1); }
  }

  /** If every edge target is in an order that lists sources first, there is no cycle. */
  lemma OrderedMeansAcyclic(edges: seq<Edge>, order: seq<OperatorId>)
    requires Distinct(order) && SourcesFirst(edges, order)
    requires forall i :: 0 <= i < |edges| ==> edges[i].target in order
    ensures !HasCycle(edges)
  {
    if p: seq<OperatorId> :| |p| >= 2 && Walk(edges, p) && p[0] == p[|p| - 1] {
      var k := |p| - 1;
      assert HasEdge(edges, p[k - 1], p[k - 1 + 1]);
      var i :| 0 <= i < |edges| && edges[i].source == p[k - 1] && edges[i].target == p[k];
      assert edges[i].target in order;
      WalkClimbs(edges, order, p, k);
    }
  }

  /** Every operator in `left` has an edge from one in `left`. */
  ghost predicate Fed(edges: seq<Edge>, left: set<OperatorId>) {
    forall x :: x in left ==> exists y :: y in left && HasEdge(edges, y, x)
  }

  lemma WalkPrepend(edges: seq<Edge>, y: OperatorId, q: seq<OperatorId>, left: set<OperatorId>)
    requires q != [] && Walk(edges, q) && HasEdge(edges, y, q[0])
    requires y in left && Elements(q) <= left
    ensures Walk(edges, [y] + q) && Elements([y] + q) <= left
  {
    hide HasEdge;
    var p := [y] + q;
    forall i | 0 <= i < |p| - 1
      ensures HasEdge(edges, p[i], p[i + 1])
    {
      if i > 0 { assert p[i] == q[i - 1] && p[i + 1] == q[i]; }
    }
  }

  lemma SourceOfHead(edges: seq<Edge>, q: seq<OperatorId>, left: set<OperatorId>)
    returns (y: OperatorId)
    requires q != [] && Elements(q) <= left && Fed(edges, left)
    ensures y in left && HasEdge(edges, y, q[0])
  {
    hide HasEdge;
    assert q[0] in Elements(q);
    y :| y in left && HasEdge(edges, y, q[0]);
  }

  /** A walk of `n` edges, built backwards. */
  lemma {:induction false} BackwardWalk(edges: seq<Edge>, left: set<OperatorId>, n: nat) returns (p: seq<OperatorId>)
    requires left != {} && Fed(edges, left)
    ensures |p| == n + 1 && Walk(edges, p) && Elements(p) <= left
  {
    hide HasEdge;
    if n == 0 {
      var x :| x in left;
      p := [x];
      assert Elements(p) == {x};
    } else {
      hide Walk, Elements, Fed;
      var q := BackwardWalk(edges, left, n - 1);
      var y := SourceOfHead(edges, q, left);
      WalkPrepend(edges, y, q, left);
      p := [y] + q;
    }
  }

  lemma WalkSlice(edges: seq<Edge>, p: seq<OperatorId>, i: nat, j: nat)
    requires Walk(edges, p) && i < j < |p| && p[i] == p[j]
    ensures HasCycle(edges)
  {
    hide HasEdge;
    var c := p[i..j + 1];
    forall k | 0 <= k < |c| - 1
      ensures HasEdge(edges, c[k], c[k + 1])
    {
      assert c[k] == p[i + k] && c[k + 1] == p[i + k + 1];
    }
    assert Walk(edges, c) && c[0] == c[|c| - 1];
  }

  lemma LeftoverMeansCycle(edges: seq<Edge>, left: set<OperatorId>)
    requires left != {} && Fed(edges, left)
    ensures HasCycle(edges)
  {
    hide Fed, Walk, HasCycle, Elements;
    var p := BackwardWalk(edges, left, |left|);
    if i: nat, j: nat :| i < j < |p| && p[i] == p[j] {
      WalkSlice(edges, p, i, j);
    } else {
      DistinctWithin(p, left);
    }
  }

  /** What Kahn's loop leaves out has, each of it, an edge from among what it leaves out. */
  ghost predicate Closed(edges: seq<Edge>, keys: set<OperatorId>, order: seq<OperatorId>) {
    && Distinct(order) && Elements(order) <= keys && SourcesFirst(edges, order)
    && forall x :: x in keys ==> (x in order <==> LiveIn(edges, Elements(order), x) == 0)
  }

  lemma KnownKeys(ids: seq<OperatorId>, edges: seq<Edge>)
    requires KnownEdges(ids, edges)
    ensures DegreeKeys(ids, edges) == Elements(ids)
  {
    assert forall i :: 0 <= i < |edges| ==> edges[i].target in Elements(ids);
  }

  lemma CompleteMeansAcyclic(ids: seq<OperatorId>, edges: seq<Edge>, order: seq<OperatorId>)
    requires KnownEdges(ids, edges) && Distinct(order) && SourcesFirst(edges, order)
    requires Elements(order) == Elements(ids)
    ensures !HasCycle(edges)
  {
    hide SourcesFirst, HasCycle;
    forall i | 0 <= i < |edges|
      ensures edges[i].target in order
    {
      assert edges[i].target in ids;
      assert edges[i].target in Elements(order);
    }
    OrderedMeansAcyclic(edges, order);
  }

  lemma ClosedExactly(ids: seq<OperatorId>, edges: seq<Edge>, order: seq<OperatorId>)
    requires Distinct(ids) && KnownEdges(ids, edges)
    requires Closed(edges, DegreeKeys(ids, edges), order)
    ensures |order| == |ids| <==> !HasCycle(edges)
    ensures !HasCycle(edges) ==> Elements(order) == Elements(ids)
  {
    hide KnownEdges, LiveIn, SourcesFirst, HasCycle, Elements, DegreeKeys, Distinct, Fed;
    KnownKeys(ids, edges);
    DistinctSize(ids);
    DistinctSize(order);
    DistinctWithin(order, Elements(ids));
    var left := Elements(ids) - Elements(order);
    assert Elements(ids) == Elements(order) + left;
    LeftHasSource(ids, edges, order, left);
    if Elements(order) == Elements(ids) {
      CompleteMeansAcyclic(ids, edges, order);
    } else {
      LeftoverMeansCycle(edges, left);
    }
  }

  lemma LeftHasSource(
    ids: seq<OperatorId>, edges: seq<Edge>, order: seq<OperatorId>, left: set<OperatorId>)
    requires KnownEdges(ids, edges) && left == Elements(ids) - Elements(order)
    requires Closed(edges, DegreeKeys(ids, edges), order)
    ensures Fed(edges, left)
  {
    hide LiveIn, SourcesFirst;
    forall x | x in left
      ensures exists y :: y in left && HasEdge(edges, y, x)
    {
      LiveInZero(edges, Elements(order), x);
      assert x in DegreeKeys(ids, edges);
      var i :| 0 <= i < |edges| && edges[i].target == x && edges[i].source !in Elements(order);
      assert edges[i].source in ids;
      assert HasEdge(edges, edges[i].source, x);
    }
  }

  /** When only sources may be unknown, an edge from an unknown one is never dropped. */
  lemma VisitsAllExactly(ids: seq<OperatorId>, edges: seq<Edge>, order: seq<OperatorId>)
    requires Distinct(ids) && KnownTargets(ids, edges)
    requires Closed(edges, DegreeKeys(ids, edges), order)
    ensures |order| == |ids| <==> KnownEdges(ids, edges) && !HasCycle(edges)
  {
    hide LiveIn, HasCycle, SourcesFirst;
    if KnownEdges(ids, edges) {
      ClosedExactly(ids, edges, order);
    } else {
      var i :| 0 <= i < |edges| && edges[i].source !in ids;
      LiveInZero(edges, Elements(order), edges[i].target);
      assert DegreeKeys(ids, edges) == Elements(ids);
      assert edges[i].source !in Elements(order);
      assert edges[i].target in Elements(ids) && edges[i].target !in Elements(order);
      DistinctSize(ids);
      DistinctWithin(order, Elements(ids));
    }
  }

  // ---------- the initial queue ----------

  ghost predicate ZeroDegrees(queue: seq<OperatorId>, scanned: seq<OperatorId>, degree: map<OperatorId, int>) {
    && Distinct(queue)
    && forall x :: x in queue <==> x in scanned && x in degree && degree[x] == 0
  }

  /** The keys of in-degree 0, in the order in which they are scanned. */
  method Seed(scan: seq<OperatorId>, degree: map<OperatorId, int>) returns (queue: seq<OperatorId>)
    requires Distinct(scan) && forall x :: x in scan ==> x in degree
    ensures ZeroDegrees(queue, scan, degree)
  {
    queue := [];
    for i := 0 to |scan|
      invariant ZeroDegrees(queue, scan[..i], degree)
    {
      assert scan[i] in scan && scan[..i + 1] == scan[..i] + [scan[i]];
      assert scan[i] !in scan[..i];
      if degree[scan[i]] == 0 {
        queue := queue + [scan[i]];
      }
    }
    assert scan[..|scan|] == scan;
  }

  lemma SeedStarts(ids: seq<OperatorId>, edges: seq<Edge>, degree: map<OperatorId, int>,
                   scan: seq<OperatorId>, queue: seq<OperatorId>)
    requires degree.Keys == DegreeKeys(ids, edges)
    requires forall x :: x in degree ==> degree[x] == LiveIn(edges, {}, x)
    requires ZeroDegrees(queue, scan, degree)
    requires Elements(ids) <= Elements(scan)
    ensures LoopInv(edges, DegreeKeys(ids, edges), degree, [], queue)
    ensures forall i :: 0 <= i < |edges| ==> edges[i].target in DegreeKeys(ids, edges)
  {
    hide LiveIn;
    var keys := DegreeKeys(ids, edges);
    assert [] + queue == queue;
    assert Elements<OperatorId>([]) == {};
    forall x | x in keys
      ensures x in queue <==> degree[x] == 0
    {
      if x !in Elements(ids) {
        var i :| 0 <= i < |edges| && edges[i].target == x;
        LiveInZero(edges, {}, x);
      } else {
        assert x in Elements(scan);
      }
    }
  }

  // ---------- validation ----------

  datatype ValidationResult = Valid | NoOperators | ContainsCycle | UnknownSource | UnknownTarget

  /** check_no_cycles: Kahn's loop has to visit as many operators as there are. */
  method CheckNoCycles(ids: seq<OperatorId>, edges: seq<Edge>) returns (ok: bool, ghost order: seq<OperatorId>)
    requires Distinct(ids)
    ensures Closed(edges, DegreeKeys(ids, edges), order)
    ensures ok <==> |order| == |ids|
    ensures KnownEdges(ids, edges) ==> (ok <==> !HasCycle(edges))
    ensures KnownTargets(ids, edges) ==> (ok <==> KnownEdges(ids, edges) && !HasCycle(edges))
  {
    var adjacency := Adjacency(ids, edges);
    var degree := InDegrees(ids, edges);
    assert forall x :: x in ids ==> x in DegreeKeys(ids, edges);
    var queue := Seed(ids, degree);
    SeedStarts(ids, edges, degree, ids, queue);
    var visited := Drain(edges, adjacency, degree, queue, DegreeKeys(ids, edges));
    order := visited;
    ok := |visited| == |ids|;
    if KnownTargets(ids, edges) {
      VisitsAllExactly(ids, edges, order);
    }
  }

  /** check_edges: the first edge with an unknown endpoint decides the error. */
  method CheckEdges(ids: seq<OperatorId>, edges: seq<Edge>) returns (r: ValidationResult)
    ensures r.Valid? || r.UnknownSource? || r.UnknownTarget?
    ensures r.Valid? <==> KnownEdges(ids, edges)
    ensures !r.Valid? ==>
              exists i :: 0 <= i < |edges| && KnownEdges(ids, edges[..i])
                && (if r.UnknownSource? then edges[i].source !in ids
                    else edges[i].source in ids && edges[i].target !in ids)
  {
    for i := 0 to |edges|
      invariant KnownEdges(ids, edges[..i])
    {
      if edges[i].source !in ids { return UnknownSource; }
      if edges[i].target !in ids { return UnknownTarget; }
    }
    assert edges[..|edges|] == edges;
    return Valid;
  }

  /**
   * For unique operator ids, with parallel edges, self-loops and unknown endpoints allowed, and
   * although Kahn's loop runs before unknown endpoints are ruled out: validation succeeds if and
   * only if there is an operator, every edge ends at known operators, and there is no cycle. The
   * builder only adds edges into operators it knows; then the error is "contains a cycle" if and
   * only if there is a cycle or an edge from an unknown operator, and check_edges never objects.
   */
  method Validate(ids: seq<OperatorId>, edges: seq<Edge>)
    returns (r: ValidationResult, ghost visited: seq<OperatorId>)
    requires Distinct(ids)
    ensures r.Valid? <==> ids != [] && KnownEdges(ids, edges) && !HasCycle(edges)
    ensures r.NoOperators? <==> ids == []
    ensures ids != [] && KnownEdges(ids, edges) ==> (r.ContainsCycle? <==> HasCycle(edges))
    ensures ids != [] && KnownTargets(ids, edges) ==>
              && (r.ContainsCycle? <==> HasCycle(edges) || !KnownEdges(ids, edges))
              && !r.UnknownSource? && !r.UnknownTarget?
    ensures ids != [] ==>
              Closed(edges, DegreeKeys(ids, edges), visited) && (r.ContainsCycle? <==> |visited| != |ids|)
  {
    visited := [];
    if |ids| == 0 { return NoOperators, visited; }
    var ok;
    ok, visited := CheckNoCycles(ids, edges);
    if !ok { return ContainsCycle, visited; }
    r := CheckEdges(ids, edges);
  }

  /** A handle of another builder makes an acyclic graph whose error reads "contains a cycle". */
  method UnknownSourceReportedAsCycle() returns (r: ValidationResult)
    ensures r.ContainsCycle? && !HasCycle([Edge(0, 9, 1)])
  {
    ghost var visited;
    r, visited := Validate([1], [Edge(0, 9, 1)]);
    assert [Edge(0, 9, 1)][0].source !in [1];
    assert [9, 1][..1] == [9];
    OrderedMeansAcyclic([Edge(0, 9, 1)], [9, 1]);
  }

  // ---------- topological order ----------

  /**
   * The order in which the hash map of in-degrees is iterated, `iteration`, is unspecified. For
   * every such order the result lists, each once and sources first, exactly the operators that
   * Kahn's loop reaches; for a validated graph these are all operators of the graph.
   */
  method TopologicalOrder(ids: seq<OperatorId>, edges: seq<Edge>, iteration: seq<OperatorId>)
    returns (order: seq<OperatorId>)
    requires Distinct(ids)
    requires Distinct(iteration) && Elements(iteration) == DegreeKeys(ids, edges)
    ensures Closed(edges, DegreeKeys(ids, edges), order)
    ensures KnownEdges(ids, edges) ==>
              (Elements(order) == Elements(ids) && |order| == |ids| <==> !HasCycle(edges))
    ensures SourcesFirst(edges, order)
  {
    var adjacency := Adjacency(ids, edges);
    var degree := InDegrees(ids, edges);
    assert forall x :: x in iteration ==> x in Elements(iteration);
    var queue := Seed(iteration, degree);
    SeedStarts(ids, edges, degree, iteration, queue);
    order := Drain(edges, adjacency, degree, queue, DegreeKeys(ids, edges));
    if KnownEdges(ids, edges) {
      ClosedExactly(ids, edges, order);
    }
  }
}
