/**
 * Kahn's algorithm as the builder's cycle check and the graph's topological order use it, with
 * parallel edges, self-loops and edges to unknown operators.
 */
module Kahn {

  type OperatorId = nat

  datatype Edge = Edge(id: nat, source: OperatorId, target: OperatorId)

  // ---------- vocabulary ----------

  ghost predicate Distinct<T>(s: seq<T>) {
    forall i, j :: 0 <= i < j < |s| ==> s[i] != s[j]
  }

  ghost function Elements<T>(s: seq<T>): set<T> {
    set x | x in s
  }

  /** The targets of the edges out of `x`, once per edge, in edge order. */
  function Targets(edges: seq<Edge>, x: OperatorId): seq<OperatorId> {
    if edges == [] then []
    else
      var front, e := Targets(edges[..|edges| - 1], x), edges[|edges| - 1];
      if e.source == x then front + [e.target] else front
  }

  /** How many edges into `x` come from an operator outside `done`. */
  ghost function LiveIn(edges: seq<Edge>, done: set<OperatorId>, x: OperatorId): nat {
    if edges == [] then 0
    else
      var front, e := LiveIn(edges[..|edges| - 1], done, x), edges[|edges| - 1];
      if e.target == x && e.source !in done then front + 1 else front
  }

  ghost predicate HasEdge(edges: seq<Edge>, x: OperatorId, y: OperatorId) {
    exists i :: 0 <= i < |edges| && edges[i].source == x && edges[i].target == y
  }

  ghost predicate Walk(edges: seq<Edge>, p: seq<OperatorId>) {
    forall i :: 0 <= i < |p| - 1 ==> HasEdge(edges, p[i], p[i + 1])
  }

  ghost predicate HasCycle(edges: seq<Edge>) {
    exists p: seq<OperatorId> :: |p| >= 2 && Walk(edges, p) && p[0] == p[|p| - 1]
  }

  /** Every edge ends at operators of the graph. */
  ghost predicate KnownEdges(ids: seq<OperatorId>, edges: seq<Edge>) {
    forall i :: 0 <= i < |edges| ==> edges[i].source in ids && edges[i].target in ids
  }

  ghost predicate KnownTargets(ids: seq<OperatorId>, edges: seq<Edge>) {
    forall i :: 0 <= i < |edges| ==> edges[i].target in ids
  }

  /** Every edge into an operator of the order comes from an earlier one. */
  ghost predicate SourcesFirst(edges: seq<Edge>, order: seq<OperatorId>) {
    forall j, i :: 0 <= j < |order| && 0 <= i < |edges| && edges[i].target == order[j] ==>
                     edges[i].source in order[..j]
  }

  /** The in-degree map has an entry for every operator and every edge target. */
  ghost function DegreeKeys(ids: seq<OperatorId>, edges: seq<Edge>): set<OperatorId> {
    Elements(ids) + set i | 0 <= i < |edges| :: edges[i].target
  }

  // ---------- counting edges ----------

  lemma {:induction false} LiveInZero(edges: seq<Edge>, done: set<OperatorId>, x: OperatorId)
    ensures LiveIn(edges, done, x) == 0
            <==> forall i :: 0 <= i < |edges| && edges[i].target == x ==> edges[i].source in done
  {
    if edges != [] {
      var front := edges[..|edges| - 1];
      LiveInZero(front, done, x);
      assert forall i :: 0 <= i < |front| ==> front[i] == edges[i];
    }
  }

  /** Finishing `y` takes away one live edge into `x` for every edge from y to x. */
  lemma {:induction false} LiveInFinish(edges: seq<Edge>, done: set<OperatorId>, y: OperatorId, x: OperatorId)
    requires y !in done
    ensures LiveIn(edges, done, x) == LiveIn(edges, done + {y}, x) + multiset(Targets(edges, y))[x]
  {
    if edges != [] {
      LiveInFinish(edges[..|edges| - 1], done, y, x);
    }
  }

  lemma {:induction false} TargetsAreTargets(edges: seq<Edge>, x: OperatorId)
    ensures forall t :: t in Targets(edges, x) ==> exists i :: 0 <= i < |edges| && edges[i].target == t
  {
    if edges != [] {
      var front := edges[..|edges| - 1];
      TargetsAreTargets(front, x);
      forall t | t in Targets(edges, x)
        ensures exists i :: 0 <= i < |edges| && edges[i].target == t
      {
        if t in Targets(front, x) {
          var i :| 0 <= i < |front| && front[i].target == t;
          assert edges[i].target == t;
        } else {
          assert edges[|edges| - 1].target == t;
        }
      }
    }
  }

  lemma {:induction false} NoTargets(edges: seq<Edge>, x: OperatorId)
    requires forall i :: 0 <= i < |edges| ==> edges[i].source != x
    ensures Targets(edges, x) == []
  {
    if edges != [] { NoTargets(edges[..|edges| - 1], x); }
  }

  // ---------- finite sets ----------

  lemma ElementsAppend<T>(s: seq<T>, x: T)
    ensures Elements(s + [x]) == Elements(s) + {x}
  {}

  lemma {:induction false} DistinctSize<T>(s: seq<T>)
    requires Distinct(s)
    ensures |Elements(s)| == |s|
  {
    if s != [] {
      var front, last := s[..|s| - 1], s[|s| - 1];
      DistinctSize(front);
      assert last !in front;
      assert s == front + [last];
      ElementsAppend(front, last);
    }
  }

  lemma SubsetSize<T>(a: set<T>, b: set<T>)
    requires a <= b
    ensures |a| <= |b|
    ensures |a| == |b| ==> a == b
  {
    assert b == a + (b - a);
  }

  lemma DistinctWithin<T>(s: seq<T>, b: set<T>)
    requires Distinct(s) && Elements(s) <= b
    ensures |s| <= |b|
    ensures |s| == |b| ==> Elements(s) == b
  {
    DistinctSize(s);
    SubsetSize(Elements(s), b);
  }

  // ---------- the tables ----------

  method Adjacency(ids: seq<OperatorId>, edges: seq<Edge>) returns (adjacency: map<OperatorId, seq<OperatorId>>)
    ensures forall x :: x in adjacency ==> adjacency[x] == Targets(edges, x)
    ensures forall x :: x !in adjacency ==> Targets(edges, x) == []
  {
    adjacency := map[];
    for i := 0 to |ids|
      invariant forall x :: x in adjacency ==> adjacency[x] == []
    {
      adjacency := adjacency[ids[i] := []];
    }
    for i := 0 to |edges|
      invariant forall x :: x in adjacency ==> adjacency[x] == Targets(edges[..i], x)
      invariant forall x :: x !in adjacency ==> Targets(edges[..i], x) == []
    {
      var e := edges[i];
      var before := if e.source in adjacency then adjacency[e.source] else [];
      adjacency := adjacency[e.source := before + [e.target]];
      assert edges[..i + 1][..i] == edges[..i];
    }
    assert edges[..|edges|] == edges;
  }

  method InDegrees(ids: seq<OperatorId>, edges: seq<Edge>) returns (degree: map<OperatorId, int>)
    ensures degree.Keys == DegreeKeys(ids, edges)
    ensures forall x :: x in degree ==> degree[x] == LiveIn(edges, {}, x)
  {
    degree := map[];
    for i := 0 to |ids|
      invariant degree.Keys == Elements(ids[..i])
      invariant forall x :: x in degree ==> degree[x] == 0
    {
      degree := degree[ids[i] := 0];
      assert ids[..i + 1] == ids[..i] + [ids[i]];
    }
    assert ids[..|ids|] == ids;
    for i := 0 to |edges|
      invariant degree.Keys == DegreeKeys(ids, edges[..i])
      invariant forall x :: x in degree ==> degree[x] == LiveIn(edges[..i], {}, x)
      invariant forall x :: x !in degree ==> LiveIn(edges[..i], {}, x) == 0
    {
      var t := edges[i].target;
      var before := if t in degree then degree[t] else 0;
      degree := degree[t := before + 1];
      assert edges[..i + 1][..i] == edges[..i];
      KeysGrow(ids, edges, i);
    }
    assert edges[..|edges|] == edges;
  }

  lemma KeysGrow(ids: seq<OperatorId>, edges: seq<Edge>, i: nat)
    requires i < |edges|
    ensures DegreeKeys(ids, edges[..i + 1]) == DegreeKeys(ids, edges[..i]) + {edges[i].target}
  {
    var a, b := edges[..i], edges[..i + 1];
    forall x | x in DegreeKeys(ids, b)
      ensures x in DegreeKeys(ids, a) + {edges[i].target}
    {
      if x !in Elements(ids) {
        var k :| 0 <= k < |b| && b[k].target == x;
        assert k < i ==> a[k].target == x;
      }
    }
    forall x | x in DegreeKeys(ids, a)
      ensures x in DegreeKeys(ids, b)
    {
      if x !in Elements(ids) {
        var k :| 0 <= k < |a| && a[k].target == x;
        assert b[k].target == x;
      }
    }
    assert b[i].target == edges[i].target;
  }

  // ---------- the loop ----------

  /** What Kahn's loop knows after it has finished the operators of `order`. */
  ghost predicate LoopInv(
    edges: seq<Edge>, keys: set<OperatorId>, degree: map<OperatorId, int>,
    order: seq<OperatorId>, queue: seq<OperatorId>)
  {
    && degree.Keys == keys
    && Distinct(order + queue) && Elements(order + queue) <= keys
    && (forall x :: x in keys ==> degree[x] == LiveIn(edges, Elements(order), x))
    && (forall x :: x in keys ==> (x in order + queue <==> degree[x] == 0))
    && SourcesFirst(edges, order)
  }

  /** The state inside the loop over the neighbours `ns` of `id`, `j` of them done. */
  ghost predicate RelaxInv(
    edges: seq<Edge>, keys: set<OperatorId>, degree: map<OperatorId, int>,
    order: seq<OperatorId>, queue: seq<OperatorId>, id: OperatorId, ns: seq<OperatorId>, j: nat)
  {
    && j <= |ns| && id !in order && degree.Keys == keys
    && Distinct(order + [id] + queue) && Elements(order + [id] + queue) <= keys
    && (forall x :: x in keys ==> degree[x] + multiset(ns[..j])[x] == LiveIn(edges, Elements(order), x))
    && (forall x :: x in keys ==> (x in order + [id] + queue <==> degree[x] == 0))
  }

  lemma Popped(edges: seq<Edge>, keys: set<OperatorId>, degree: map<OperatorId, int>,
               order: seq<OperatorId>, queue: seq<OperatorId>, ns: seq<OperatorId>)
    requires LoopInv(edges, keys, degree, order, queue) && queue != []
    ensures RelaxInv(edges, keys, degree, order, queue[1..], queue[0], ns, 0)
    ensures SourcesFirst(edges, order + [queue[0]])
  {
    var id, rest := queue[0], queue[1..];
    assert order + [id] + rest == order + queue;
    assert (order + queue)[|order|] == id;
    forall k | 0 <= k < |order|
      ensures order[k] != id
    {
      assert (order + queue)[k] == order[k];
    }
    assert id in order + queue;
    LiveInZero(edges, Elements(order), id);
    AppendSource(edges, order, id);
  }

  lemma AppendSource(edges: seq<Edge>, order: seq<OperatorId>, id: OperatorId)
    requires SourcesFirst(edges, order)
    requires forall i :: 0 <= i < |edges| && edges[i].target == id ==> edges[i].source in order
    ensures SourcesFirst(edges, order + [id])
  {
    var all := order + [id];
    forall j, i | 0 <= j < |all| && 0 <= i < |edges| && edges[i].target == all[j]
      ensures edges[i].source in all[..j]
    {
      if j < |order| {
        assert all[..j] == order[..j];
      } else {
        assert all[..j] == order;
      }
    }
  }

  lemma Relaxed(edges: seq<Edge>, keys: set<OperatorId>, degree: map<OperatorId, int>,
                order: seq<OperatorId>, queue: seq<OperatorId>, id: OperatorId, ns: seq<OperatorId>, j: nat)
    requires RelaxInv(edges, keys, degree, order, queue, id, ns, j) && j < |ns|
    requires ns == Targets(edges, id) && ns[j] in keys
    ensures ns[j] in degree && degree[ns[j]] >= 1
    ensures var d := degree[ns[j] := degree[ns[j]] - 1];
            RelaxInv(edges, keys, d, order, if d[ns[j]] == 0 then queue + [ns[j]] else queue, id, ns, j + 1)
  {
    var x := ns[j];
    LiveInFinish(edges, Elements(order), id, x);
    assert ns == ns[..j] + [x] + ns[j + 1..];
    assert ns[..j + 1] == ns[..j] + [x];
    assert multiset(ns)[x] == multiset(ns[..j])[x] + 1 + multiset(ns[j + 1..])[x];
    var d := degree[x := degree[x] - 1];
    if d[x] == 0 {
      Enqueued(order + [id], queue, x, keys);
    }
  }

  lemma Enqueued(
    front: seq<OperatorId>, queue: seq<OperatorId>, x: OperatorId, keys: set<OperatorId>)
    requires Distinct(front + queue) && Elements(front + queue) <= keys
    requires x in keys && x !in front + queue
    ensures Distinct(front + (queue + [x])) && Elements(front + (queue + [x])) <= keys
    ensures forall y :: y in front + (queue + [x]) <==> y in front + queue || y == x
  {
    var s := front + queue;
    assert front + (queue + [x]) == s + [x];
  }

  lemma Finished(edges: seq<Edge>, keys: set<OperatorId>, degree: map<OperatorId, int>,
                 order: seq<OperatorId>, queue: seq<OperatorId>, id: OperatorId, ns: seq<OperatorId>)
    requires RelaxInv(edges, keys, degree, order, queue, id, ns, |ns|) && ns == Targets(edges, id)
    requires SourcesFirst(edges, order + [id])
    ensures LoopInv(edges, keys, degree, order + [id], queue)
  {
    assert ns[..|ns|] == ns;
    assert Elements(order + [id]) == Elements(order) + {id};
    forall x | x in keys
      ensures degree[x] == LiveIn(edges, Elements(order + [id]), x)
    {
      LiveInFinish(edges, Elements(order), id, x);
    }
  }

  /** Drop the edges from `id` to its neighbours; those left without edges join the queue. */
  method Relax(edges: seq<Edge>, degrees: map<OperatorId, int>, waiting: seq<OperatorId>,
               id: OperatorId, ns: seq<OperatorId>, ghost order: seq<OperatorId>, ghost keys: set<OperatorId>)
    returns (degree: map<OperatorId, int>, queue: seq<OperatorId>)
    requires ns == Targets(edges, id) && forall x :: x in ns ==> x in keys
    requires RelaxInv(edges, keys, degrees, order, waiting, id, ns, 0)
    ensures RelaxInv(edges, keys, degree, order, queue, id, ns, |ns|)
  {
    degree, queue := degrees, waiting;
    var j := 0;
    while j < |ns|
      invariant RelaxInv(edges, keys, degree, order, queue, id, ns, j)
      decreases |ns| - j
    {
      hide RelaxInv, Targets;
      assert ns[j] in ns;
      Relaxed(edges, keys, degree, order, queue, id, ns, j);
      degree := degree[ns[j] := degree[ns[j]] - 1];
      if degree[ns[j]] == 0 {
        queue := queue + [ns[j]];
      }
      j := j + 1;
    }
  }

  /**
   * Repeatedly take an operator from the queue and drop its edges. The result lists exactly the
   * keys without an edge from outside the result, each once, sources first.
   */
  method Drain(edges: seq<Edge>, adjacency: map<OperatorId, seq<OperatorId>>,
               degrees: map<OperatorId, int>, initial: seq<OperatorId>, ghost keys: set<OperatorId>)
    returns (order: seq<OperatorId>)
    requires forall x :: x in adjacency ==> adjacency[x] == Targets(edges, x)
    requires forall x :: x !in adjacency ==> Targets(edges, x) == []
    requires forall i :: 0 <= i < |edges| ==> edges[i].target in keys
    requires LoopInv(edges, keys, degrees, [], initial)
    ensures Distinct(order) && Elements(order) <= keys && SourcesFirst(edges, order)
    ensures forall x :: x in keys ==> (x in order <==> LiveIn(edges, Elements(order), x) == 0)
  {
    var degree, queue := degrees, initial;
    order := [];
    while queue != []
      invariant LoopInv(edges, keys, degree, order, queue)
      decreases |keys| - |order|
    {
      hide LoopInv, RelaxInv, LiveIn, Targets, SourcesFirst;
      var id := queue[0];
      var ns := if id in adjacency then adjacency[id] else [];
      Popped(edges, keys, degree, order, queue, ns);
      TargetsWithin(edges, id, keys);
      degree, queue := Relax(edges, degree, queue[1..], id, ns, order, keys);
      Finished(edges, keys, degree, order, queue, id, ns);
      order := order + [id];
      Fits(edges, keys, degree, order, queue);
    }
    assert order + [] == order;
  }

  lemma TargetsWithin(edges: seq<Edge>, id: OperatorId, keys: set<OperatorId>)
    requires forall i :: 0 <= i < |edges| ==> edges[i].target in keys
    ensures forall x :: x in Targets(edges, id) ==> x in keys
  {
    TargetsAreTargets(edges, id);
  }

  lemma Fits(edges: seq<Edge>, keys: set<OperatorId>, degree: map<OperatorId, int>,
             order: seq<OperatorId>, queue: seq<OperatorId>)
    requires LoopInv(edges, keys, degree, order, queue)
    ensures |order| <= |keys|
  {
    DistinctWithin(order + queue, keys);
  }
}
