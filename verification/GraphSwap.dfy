/**
 The rewriting that swaps marked parent-child pairs when a query graph is finalised.
 Removing an edge moves the last edge into its place, as in the underlying graph
 library, so edge indices collected earlier can go stale.
 */
module GraphSwap {
  import opened Wrappers
  import opened QueryGraphs
  import opened Expressionista
  import opened Execution

  predicate IsFlow(g: Graph, n: nat) {
    n < |g.kinds| && !g.kinds[n].Query?
  }

  // ----- edge operations -----

  function RemoveEdge(g: Graph, i: nat): Graph
    requires i < |g.edges|
  {
    var last := |g.edges| - 1;
    g.(edges := g.edges[i := g.edges[last]][..last])
  }

  /** Rules checked after an edge has been created: `None` is an invariance violation. */
  function CreateEdge(g: Graph, e: Edge): Option<Graph> {
    var g' := g.(edges := g.edges + [e]);
    if e.src < |g.kinds| && g.kinds[e.src].IfFlow? &&
       !((e.dep.Then? || e.dep.Else?) && |OutEdges(g'.edges, e.src)| <= 2) then None
    else if e.src == e.dst then None
    else Some(g')
  }

  /** Connects the source of each of the given incoming edges to `y`; edges from flow nodes are moved. */
  function SwapParents(g: Graph, incoming: seq<nat>, y: nat): Option<Graph>
    decreases |incoming|
  {
    if incoming == [] then Some(g)
    else if incoming[0] >= |g.edges| then None
    else
      var e := g.edges[incoming[0]];
      if IsFlow(g, e.src) then
        var g' :- CreateEdge(RemoveEdge(g, incoming[0]), Edge(e.src, y, e.dep));
        SwapParents(g', incoming[1..], y)
      else
        var g' :- CreateEdge(g, Edge(e.src, y, ExecutionOrder));
        SwapParents(g', incoming[1..], y)
  }

  function FindEdge(edges: seq<Edge>, a: nat, b: nat): (r: Option<nat>)
    ensures r.Some? ==> r.value < |edges| && edges[r.value].src == a && edges[r.value].dst == b
    ensures r.None? ==> forall i :: 0 <= i < |edges| ==> edges[i].src != a || edges[i].dst != b
  {
    if edges == [] then None
    else
      var last := |edges| - 1;
      if edges[last].src == a && edges[last].dst == b then Some(last) else FindEdge(edges[..last], a, b)
  }

  function Swap(g: Graph, x: nat, y: nat): Option<Graph> {
    var g1 :- SwapParents(g, InEdges(g.edges, x), y);
    match FindEdge(g1.edges, x, y)
    case None => Some(g1)
    case Some(i) => CreateEdge(RemoveEdge(g1, i), Edge(y, x, g1.edges[i].dep))
  }

  /** All pairs, in processing order. */
  function SwapAll(g: Graph, pairs: seq<(nat, nat)>): Option<Graph>
    decreases |pairs|
  {
    if pairs == [] then Some(g)
    else
      var g' :- Swap(g, pairs[0].0, pairs[0].1);
      SwapAll(g', pairs[1..])
  }

  // ----- multiplicities -----

  ghost function Mult(edges: seq<Edge>, a: nat, b: nat): nat {
    if edges == [] then 0
    else
      var last := |edges| - 1;
      Mult(edges[..last], a, b) + One(edges[last], a, b)
  }

  ghost function One(e: Edge, a: nat, b: nat): nat {
    if e.src == a && e.dst == b then 1 else 0
  }

  lemma {:induction false} MultUpdate(edges: seq<Edge>, i: nat, e: Edge, a: nat, b: nat)
    requires i < |edges|
    ensures Mult(edges[i := e], a, b) == Mult(edges, a, b) - One(edges[i], a, b) + One(e, a, b)
  {
    var last := |edges| - 1;
    if i == last {
      assert edges[i := e][..last] == edges[..last];
    } else {
      assert edges[i := e][..last] == edges[..last][i := e];
      MultUpdate(edges[..last], i, e, a, b);
    }
  }

  lemma {:induction false} MultRemove(g: Graph, i: nat, a: nat, b: nat)
    requires i < |g.edges|
    ensures Mult(RemoveEdge(g, i).edges, a, b) == Mult(g.edges, a, b) - One(g.edges[i], a, b)
  {
    var last := |g.edges| - 1;
    MultUpdate(g.edges, i, g.edges[last], a, b);
    var updated := g.edges[i := g.edges[last]];
    assert updated[last] == g.edges[last];
  }

  lemma {:induction false} MultAppend(edges: seq<Edge>, e: Edge, a: nat, b: nat)
    ensures Mult(edges + [e], a, b) == Mult(edges, a, b) + One(e, a, b)
  {
    assert (edges + [e])[..|edges|] == edges;
  }

  lemma {:induction false} MultPositive(edges: seq<Edge>, a: nat, b: nat)
    ensures Mult(edges, a, b) > 0 <==> exists i :: 0 <= i < |edges| && edges[i].src == a && edges[i].dst == b
  {
    if edges != [] {
      var last := |edges| - 1;
      MultPositive(edges[..last], a, b);
      if i :| 0 <= i < |edges| && edges[i].src == a && edges[i].dst == b {
        if i < last {
          assert edges[..last][i] == edges[i];
        }
      }
      if Mult(edges[..last], a, b) > 0 {
        var i :| 0 <= i < last && edges[..last][i].src == a && edges[..last][i].dst == b;
        assert edges[i].src == a;
      }
    }
  }

  lemma {:induction false} HasEdgeIffMult(g: Graph, a: nat, b: nat)
    ensures HasEdge(g, a, b) <==> Mult(g.edges, a, b) > 0
  {
    MultPositive(g.edges, a, b);
  }

  /** No duplicate edges, in terms of multiplicities. */
  ghost predicate Simple(g: Graph) {
    forall a, b :: Mult(g.edges, a, b) <= 1
  }

  lemma {:induction false} MultAtMostOne(edges: seq<Edge>, a: nat, b: nat, i: nat, j: nat)
    requires i < j < |edges| && One(edges[i], a, b) == 1 && One(edges[j], a, b) == 1
    ensures Mult(edges, a, b) >= 2
  {
    var last := |edges| - 1;
    if j < last {
      MultAtMostOne(edges[..last], a, b, i, j);
    } else {
      assert edges[..last][i] == edges[i];
      MultPositive(edges[..last], a, b);
    }
  }

  lemma {:induction false} MultTwo(edges: seq<Edge>, a: nat, b: nat) returns (i: nat, j: nat)
    requires Mult(edges, a, b) >= 2
    ensures i < j < |edges| && One(edges[i], a, b) == 1 && One(edges[j], a, b) == 1
  {
    var last := |edges| - 1;
    if One(edges[last], a, b) == 1 {
      MultPositive(edges[..last], a, b);
      i :| 0 <= i < last && edges[..last][i].src == a && edges[..last][i].dst == b;
      j := last;
    } else {
      i, j := MultTwo(edges[..last], a, b);
    }
  }

  lemma {:induction false} SimpleIffNoParallel(g: Graph)
    ensures Simple(g) <==> NoParallelEdges(g)
  {
    if Simple(g) {
      forall i, j | 0 <= i < j < |g.edges|
        ensures g.edges[i].src != g.edges[j].src || g.edges[i].dst != g.edges[j].dst
      {
        if g.edges[i].src == g.edges[j].src && g.edges[i].dst == g.edges[j].dst {
          MultAtMostOne(g.edges, g.edges[i].src, g.edges[i].dst, i, j);
        }
      }
    }
    if NoParallelEdges(g) {
      forall a: nat, b: nat ensures Mult(g.edges, a, b) <= 1 {
        if Mult(g.edges, a, b) >= 2 {
          var i, j := MultTwo(g.edges, a, b);
        }
      }
    }
  }

  // ----- what one swap does to the multiplicities -----

  ghost function CountSources(edges: seq<Edge>, incoming: seq<nat>, a: nat): nat
    requires forall k :: 0 <= k < |incoming| ==> incoming[k] < |edges|
  {
    if incoming == [] then 0
    else (if edges[incoming[0]].src == a then 1 else 0) + CountSources(edges, incoming[1..], a)
  }

  lemma {:induction false} CountSourcesAppend(edges: seq<Edge>, incoming: seq<nat>, i: nat, a: nat)
    requires forall k :: 0 <= k < |incoming| ==> incoming[k] < |edges|
    requires i < |edges|
    ensures CountSources(edges, incoming + [i], a) ==
            CountSources(edges, incoming, a) + if edges[i].src == a then 1 else 0
  {
    if incoming != [] {
      assert (incoming + [i])[1..] == incoming[1..] + [i];
      CountSourcesAppend(edges, incoming[1..], i, a);
    }
  }

  lemma {:induction false} CountSourcesPrefix(edges: seq<Edge>, more: seq<Edge>, incoming: seq<nat>, a: nat)
    requires forall k :: 0 <= k < |incoming| ==> incoming[k] < |edges|
    ensures CountSources(edges + more, incoming, a) == CountSources(edges, incoming, a)
  {
    if incoming != [] {
      CountSourcesPrefix(edges, more, incoming[1..], a);
    }
  }

  lemma {:induction false} CountSourcesIsMult(edges: seq<Edge>, x: nat, a: nat)
    ensures CountSources(edges, InEdges(edges, x), a) == Mult(edges, a, x)
  {
    if edges != [] {
      var last := |edges| - 1;
      var before := InEdges(edges[..last], x);
      CountSourcesIsMult(edges[..last], x, a);
      assert edges == edges[..last] + [edges[last]];
      CountSourcesPrefix(edges[..last], [edges[last]], before, a);
      if edges[last].dst == x {
        CountSourcesAppend(edges, before, last, a);
      } else {
        assert before + [] == before;
      }
    }
  }

  lemma {:induction false} CountSourcesIntact(edges: seq<Edge>, edges': seq<Edge>, incoming: seq<nat>, a: nat)
    requires forall k :: 0 <= k < |incoming| ==> incoming[k] < |edges| && incoming[k] < |edges'|
    requires forall k :: 0 <= k < |incoming| ==> edges'[incoming[k]].src == edges[incoming[k]].src
    ensures CountSources(edges', incoming, a) == CountSources(edges, incoming, a)
  {
    if incoming != [] {
      assert forall k :: 0 <= k < |incoming| - 1 ==> incoming[1..][k] == incoming[k + 1];
      CountSourcesIntact(edges, edges', incoming[1..], a);
    }
  }

  /** `If` nodes have at most two outgoing edges, marked then and else. */
  ghost predicate IfRules(g: Graph) {
    && (forall i :: 0 <= i < |g.edges| && g.edges[i].src < |g.kinds| && g.kinds[g.edges[i].src].IfFlow? ==>
                      g.edges[i].dep.Then? || g.edges[i].dep.Else?)
    && (forall n :: 0 <= n < |g.kinds| && g.kinds[n].IfFlow? ==> |OutEdges(g.edges, n)| <= 2)
  }

  ghost function SwappedMult(g: Graph, x: nat, y: nat, a: nat, b: nat): int {
    (if b == x && IsFlow(g, a) then 0 else Mult(g.edges, a, b))
    - (if a == x && b == y then 1 else 0)
    + (if b == y then Mult(g.edges, a, x) else 0)
    + (if a == y && b == x then 1 else 0)
  }

  /** After connecting the parents of `x` to `y`, edges from flow nodes moved. */
  ghost predicate ParentsConnected(g: Graph, x: nat, y: nat, g1: Graph) {
    && g1.kinds == g.kinds && g1.results == g.results
    && forall a: nat, b: nat {:trigger Mult(g1.edges, a, b)} ::
         Mult(g1.edges, a, b) ==
         (if b == x && IsFlow(g, a) then 0 else Mult(g.edges, a, b)) + if b == y then Mult(g.edges, a, x) else 0
  }

  /** How many outgoing edges a node has after one of them is replaced. */
  lemma {:induction false} OutDegreeUpdate(edges: seq<Edge>, i: nat, e: Edge, n: nat)
    requires i < |edges|
    ensures |OutEdges(edges[i := e], n)| ==
            |OutEdges(edges, n)| - (if edges[i].src == n then 1 else 0) + if e.src == n then 1 else 0
  {
    var last := |edges| - 1;
    if i == last {
      assert edges[i := e][..last] == edges[..last];
    } else {
      assert edges[i := e][..last] == edges[..last][i := e];
      OutDegreeUpdate(edges[..last], i, e, n);
    }
  }

  lemma {:induction false} OutDegreeRemove(g: Graph, i: nat, n: nat)
    requires i < |g.edges|
    ensures |OutEdges(RemoveEdge(g, i).edges, n)| == |OutEdges(g.edges, n)| - if g.edges[i].src == n then 1 else 0
  {
    var last := |g.edges| - 1;
    OutDegreeUpdate(g.edges, i, g.edges[last], n);
    var updated := g.edges[i := g.edges[last]];
    assert updated[last] == g.edges[last];
  }

  lemma {:induction false} OutDegreeAppend(edges: seq<Edge>, e: Edge, n: nat)
    ensures |OutEdges(edges + [e], n)| == |OutEdges(edges, n)| + if e.src == n then 1 else 0
  {
    assert (edges + [e])[..|edges|] == edges;
  }

  /** Every edge of `g'` that leaves a flow node stems from an edge of `g`, and no flow node gained one. */
  ghost predicate FlowEdgesFrom(g: Graph, g': Graph) {
    && (forall j :: 0 <= j < |g'.edges| && IsFlow(g, g'.edges[j].src) ==>
                      exists i :: 0 <= i < |g.edges| && g.edges[i].src == g'.edges[j].src && g.edges[i].dep == g'.edges[j].dep)
    && (forall n: nat :: IsFlow(g, n) ==> |OutEdges(g'.edges, n)| <= |OutEdges(g.edges, n)|)
  }

  lemma {:induction false} MovedFlowEdge(g: Graph, i: nat, e: Edge)
    requires i < |g.edges| && e.src == g.edges[i].src && e.dep == g.edges[i].dep
    ensures FlowEdgesFrom(g, g.(edges := RemoveEdge(g, i).edges + [e]))
  {
    var g0 := RemoveEdge(g, i);
    var g' := g.(edges := g0.edges + [e]);
    forall j | 0 <= j < |g'.edges|
      ensures exists k :: 0 <= k < |g.edges| && g.edges[k].src == g'.edges[j].src && g.edges[k].dep == g'.edges[j].dep
    {
      var k := if j == |g'.edges| - 1 then i else if j == i then |g.edges| - 1 else j;
      assert g.edges[k].src == g'.edges[j].src && g.edges[k].dep == g'.edges[j].dep;
    }
    forall n: nat ensures |OutEdges(g'.edges, n)| == |OutEdges(g.edges, n)| {
      OutDegreeRemove(g, i, n);
      OutDegreeAppend(g0.edges, e, n);
    }
  }

  // ----- connecting the parents, one edge index after the other -----

  /** Indices of edges into `x`, none of them from `y`. */
  ghost predicate Into(g: Graph, incoming: seq<nat>, x: nat, y: nat) {
    && x != y && Ascending(incoming)
    && forall k :: 0 <= k < |incoming| ==> incoming[k] < |g.edges| && g.edges[incoming[k]].dst == x && g.edges[incoming[k]].src != y
  }

  /** No removal moves an edge away from an index that is still to come. */
  predicate Lasting(g: Graph, incoming: seq<nat>)
    requires forall k :: 0 <= k < |incoming| ==> incoming[k] < |g.edges|
  {
    |incoming| <= 1 || !IsFlow(g, g.edges[incoming[0]].src) || incoming[|incoming| - 1] != |g.edges| - 1
  }

  /** The graph after one edge index has been processed. */
  function StepOf(g: Graph, i: nat, y: nat): Graph
    requires i < |g.edges|
  {
    var e := g.edges[i];
    if IsFlow(g, e.src) then g.(edges := RemoveEdge(g, i).edges + [Edge(e.src, y, e.dep)])
    else g.(edges := g.edges + [Edge(e.src, y, ExecutionOrder)])
  }

  lemma {:induction false} StepSucceeds(g: Graph, incoming: seq<nat>, x: nat, y: nat)
    requires IfRules(g) && Into(g, incoming, x, y) && incoming != []
    ensures SwapParents(g, incoming, y) == SwapParents(StepOf(g, incoming[0], y), incoming[1..], y)
    ensures FlowEdgesFrom(g, StepOf(g, incoming[0], y)) && IfRules(StepOf(g, incoming[0], y))
  {
    var i := incoming[0];
    var e := g.edges[i];
    if IsFlow(g, e.src) {
      OutDegreeRemove(g, i, e.src);
      OutDegreeAppend(RemoveEdge(g, i).edges, Edge(e.src, y, e.dep), e.src);
      MovedFlowEdge(g, i, Edge(e.src, y, e.dep));
    } else {
      AddedQueryEdge(g, Edge(e.src, y, ExecutionOrder));
    }
    IfRulesKept(g, StepOf(g, i, y));
  }

  lemma {:induction false} AddedQueryEdge(g: Graph, e: Edge)
    requires !IsFlow(g, e.src)
    ensures FlowEdgesFrom(g, g.(edges := g.edges + [e]))
  {
    forall n: nat | IsFlow(g, n) ensures |OutEdges(g.edges + [e], n)| <= |OutEdges(g.edges, n)| {
      OutDegreeAppend(g.edges, e, n);
    }
  }

  lemma {:induction false} IfRulesKept(g: Graph, g': Graph)
    requires g.kinds == g'.kinds && FlowEdgesFrom(g, g') && IfRules(g)
    ensures IfRules(g')
  {
    forall j | 0 <= j < |g'.edges| && g'.edges[j].src < |g'.kinds| && g'.kinds[g'.edges[j].src].IfFlow?
      ensures g'.edges[j].dep.Then? || g'.edges[j].dep.Else?
    {
      assert IsFlow(g, g'.edges[j].src);
    }
    forall n: nat | n < |g.kinds| && g.kinds[n].IfFlow? ensures |OutEdges(g'.edges, n)| <= 2 {
      assert IsFlow(g, n);
    }
  }

  lemma {:induction false} StepMult(g: Graph, i: nat, y: nat, a: nat, b: nat)
    requires i < |g.edges|
    ensures var e := g.edges[i];
            Mult(StepOf(g, i, y).edges, a, b) ==
            Mult(g.edges, a, b) - (if IsFlow(g, e.src) then One(e, a, b) else 0) + if e.src == a && b == y then 1 else 0
  {
    var e := g.edges[i];
    if IsFlow(g, e.src) {
      MultRemove(g, i, a, b);
      MultAppend(RemoveEdge(g, i).edges, Edge(e.src, y, e.dep), a, b);
    } else {
      MultAppend(g.edges, Edge(e.src, y, ExecutionOrder), a, b);
    }
  }

  /** While the indices last, the ones to come still mean the same edges. */
  lemma {:induction false} StepLasts(g: Graph, incoming: seq<nat>, x: nat, y: nat)
    requires Into(g, incoming, x, y) && incoming != [] && Lasting(g, incoming)
    ensures var g', rest := StepOf(g, incoming[0], y), incoming[1..];
            && Into(g', rest, x, y) && Lasting(g', rest)
            && forall k :: 0 <= k < |rest| ==> rest[k] < |g.edges| && g'.edges[rest[k]] == g.edges[rest[k]]
  {
    var g', rest := StepOf(g, incoming[0], y), incoming[1..];
    forall k | 0 <= k < |rest|
      ensures rest[k] < |g.edges| && rest[k] < |g'.edges| && g'.edges[rest[k]] == g.edges[rest[k]] && rest[k] != |g'.edges| - 1
    {
      assert rest[k] == incoming[k + 1] && incoming[0] < incoming[k + 1] <= incoming[|incoming| - 1];
    }
  }

  /** How many edges lead from `a` to `b` once the given edges into `x` have been processed. */
  ghost predicate Processed(g: Graph, incoming: seq<nat>, x: nat, y: nat, g1: Graph)
    requires forall k :: 0 <= k < |incoming| ==> incoming[k] < |g.edges|
  {
    && g1.kinds == g.kinds && g1.results == g.results && FlowEdgesFrom(g, g1)
    && forall a: nat, b: nat {:trigger Mult(g1.edges, a, b)} ::
         Mult(g1.edges, a, b) ==
         Mult(g.edges, a, b) - (if b == x && IsFlow(g, a) then CountSources(g.edges, incoming, a) else 0)
         + if b == y then CountSources(g.edges, incoming, a) else 0
  }

  lemma {:induction false} LastingConnects(g: Graph, incoming: seq<nat>, x: nat, y: nat)
    requires IfRules(g) && Into(g, incoming, x, y) && Lasting(g, incoming)
    ensures var r := SwapParents(g, incoming, y); r.Some? && Processed(g, incoming, x, y, r.value)
    decreases |incoming|
  {
    if incoming == [] {
      assert FlowEdgesFrom(g, g);
    } else {
      hide FlowEdgesFrom, IfRules;
      var g', rest := StepOf(g, incoming[0], y), incoming[1..];
      StepSucceeds(g, incoming, x, y);
      StepLasts(g, incoming, x, y);
      LastingConnects(g', rest, x, y);
      ProcessedStep(g, incoming, x, y, SwapParents(g', rest, y).value);
    }
  }

  lemma {:induction false} ProcessedStep(g: Graph, incoming: seq<nat>, x: nat, y: nat, g1: Graph)
    requires Into(g, incoming, x, y) && incoming != [] && FlowEdgesFrom(g, StepOf(g, incoming[0], y))
    requires Into(StepOf(g, incoming[0], y), incoming[1..], x, y)
    requires forall k :: 0 < k < |incoming| ==> StepOf(g, incoming[0], y).edges[incoming[k]] == g.edges[incoming[k]]
    requires Processed(StepOf(g, incoming[0], y), incoming[1..], x, y, g1)
    ensures Processed(g, incoming, x, y, g1)
  {
    hide FlowEdgesFrom;
    var g', rest := StepOf(g, incoming[0], y), incoming[1..];
    assert g'.kinds == g.kinds && g'.results == g.results;
    FlowEdgesFromTransitive(g, g', g1);
    forall a: nat, b: nat
      ensures Mult(g1.edges, a, b) ==
              Mult(g.edges, a, b) - (if b == x && IsFlow(g, a) then CountSources(g.edges, incoming, a) else 0)
              + if b == y then CountSources(g.edges, incoming, a) else 0
    {
      StepMult(g, incoming[0], y, a, b);
      CountSourcesIntact(g.edges, g'.edges, rest, a);
    }
  }

  /**
   The collected indices go stale: the first one is the edge of a flow node, whose removal
   moves the last edge of the graph, and that is another one of them.
   */
  predicate StaleAt(g: Graph, x: nat) {
    var incoming := InEdges(g.edges, x);
    |incoming| >= 2 && IsFlow(g, g.edges[incoming[0]].src) && g.edges[|g.edges| - 1].dst == x
  }

  /** The last edge of the graph is the last one into its target. */
  lemma {:induction false} LastIncoming(g: Graph, x: nat)
    requires InEdges(g.edges, x) != []
    ensures InEdges(g.edges, x)[|InEdges(g.edges, x)| - 1] == |g.edges| - 1 <==> g.edges[|g.edges| - 1].dst == x
  {
  }

  lemma {:induction false} IncomingInto(g: Graph, x: nat, y: nat)
    requires x != y && !HasEdge(g, y, x)
    ensures Into(g, InEdges(g.edges, x), x, y) && (Lasting(g, InEdges(g.edges, x)) <==> !StaleAt(g, x))
  {
    hide IsFlow;
    var incoming := InEdges(g.edges, x);
    EdgesAscending(g.edges, x);
    forall k | 0 <= k < |incoming| ensures g.edges[incoming[k]].src != y {
      assert g.edges[incoming[k]].dst == x;
    }
    if incoming != [] {
      LastIncoming(g, x);
    }
  }

  lemma {:induction false} ConnectsUnlessStale(g: Graph, x: nat, y: nat)
    requires IfRules(g) && x != y && !HasEdge(g, y, x) && !StaleAt(g, x)
    ensures var r := SwapParents(g, InEdges(g.edges, x), y);
            r.Some? && ParentsConnected(g, x, y, r.value) && FlowEdgesFrom(g, r.value)
  {
    IncomingInto(g, x, y);
    LastingConnects(g, InEdges(g.edges, x), x, y);
    var g1 := SwapParents(g, InEdges(g.edges, x), y).value;
    forall a: nat, b: nat
      ensures Mult(g1.edges, a, b) ==
              (if b == x && IsFlow(g, a) then 0 else Mult(g.edges, a, b)) + if b == y then Mult(g.edges, a, x) else 0
    {
      CountSourcesIsMult(g.edges, x, a);
    }
  }

  // ----- stale indices -----

  /** The last index to come has become the index of an edge from a flow node to `y`. */
  ghost predicate Astray(g: Graph, incoming: seq<nat>, last: nat, x: nat, y: nat) {
    && Into(g, incoming, x, y) && (forall k :: 0 <= k < |incoming| ==> incoming[k] < last)
    && last < |g.edges| && g.edges[last].dst == y && IsFlow(g, g.edges[last].src)
  }

  lemma {:induction false} StaysAstray(g: Graph, incoming: seq<nat>, last: nat, x: nat, y: nat)
    requires Astray(g, incoming, last, x, y) && incoming != []
    ensures var g', rest := StepOf(g, incoming[0], y), incoming[1..];
            && Astray(g', rest, last, x, y)
            && forall k :: 0 <= k < |rest| ==> rest[k] < |g.edges| && g'.edges[rest[k]] == g.edges[rest[k]]
  {
    var g', rest := StepOf(g, incoming[0], y), incoming[1..];
    forall k | 0 <= k < |rest|
      ensures rest[k] < last && rest[k] < |g.edges| && rest[k] < |g'.edges| && g'.edges[rest[k]] == g.edges[rest[k]]
    {
      assert rest[k] == incoming[k + 1] && incoming[0] < incoming[k + 1];
    }
  }

  /** The stray index connects nothing. */
  lemma {:induction false} AstrayConnects(g: Graph, incoming: seq<nat>, last: nat, x: nat, y: nat, a: nat)
    requires IfRules(g) && Astray(g, incoming, last, x, y) && SwapParents(g, incoming + [last], y).Some?
    ensures Mult(SwapParents(g, incoming + [last], y).value.edges, a, y) ==
            Mult(g.edges, a, y) + CountSources(g.edges, incoming, a)
    decreases |incoming|
  {
    if incoming == [] {
      assert [] + [last] == [last] && [last][1..] == [];
      StepMult(g, last, y, a, y);
      var next := StepOf(g, last, y);
      assert SwapParents(next, [], y) == Some(next);
    } else {
      var g', rest := StepOf(g, incoming[0], y), incoming[1..];
      StepSucceeds(g, incoming, x, y);
      FirstOf(g, incoming, last, x, y);
      StaysAstray(g, incoming, last, x, y);
      hide IfRules, SwapParents, StepOf;
      AstrayConnects(g', rest, last, x, y, a);
      StepMult(g, incoming[0], y, a, y);
      CountSourcesIntact(g.edges, g'.edges, rest, a);
    }
  }

  /** What the first index does is the same whatever comes after it. */
  lemma {:induction false} FirstOf(g: Graph, incoming: seq<nat>, last: nat, x: nat, y: nat)
    requires IfRules(g) && Into(g, incoming, x, y) && incoming != []
    ensures SwapParents(g, incoming + [last], y) == SwapParents(StepOf(g, incoming[0], y), incoming[1..] + [last], y)
  {
    assert (incoming + [last])[0] == incoming[0] && (incoming + [last])[1..] == incoming[1..] + [last];
    var e := g.edges[incoming[0]];
    if IsFlow(g, e.src) {
      OutDegreeRemove(g, incoming[0], e.src);
      OutDegreeAppend(RemoveEdge(g, incoming[0]).edges, Edge(e.src, y, e.dep), e.src);
    }
  }

  lemma {:induction false} GoesAstray(g: Graph, incoming: seq<nat>, last: nat, x: nat, y: nat)
    requires Into(g, incoming, x, y) && Into(g, incoming + [last], x, y) && last + 1 == |g.edges|
    requires incoming != [] && IsFlow(g, g.edges[incoming[0]].src)
    ensures var g', rest := StepOf(g, incoming[0], y), incoming[1..];
            && Astray(g', rest, last, x, y)
            && forall k :: 0 <= k < |rest| ==> rest[k] < |g.edges| && g'.edges[rest[k]] == g.edges[rest[k]]
  {
    var all := incoming + [last];
    var g', rest := StepOf(g, incoming[0], y), incoming[1..];
    forall k | 0 <= k < |rest|
      ensures rest[k] < last && rest[k] < |g'.edges| && g'.edges[rest[k]] == g.edges[rest[k]]
    {
      assert rest[k] == all[k + 1] && all[0] < all[k + 1] < all[|all| - 1];
    }
    assert all[0] < all[|all| - 1];
  }

  /** If the indices go stale, the source of the last edge is not connected to `y`. */
  lemma {:induction false} StaleMisses(g: Graph, incoming: seq<nat>, last: nat, x: nat, y: nat)
    requires IfRules(g) && Into(g, incoming, x, y) && Into(g, incoming + [last], x, y) && last + 1 == |g.edges|
    requires incoming != [] && IsFlow(g, g.edges[incoming[0]].src) && SwapParents(g, incoming + [last], y).Some?
    ensures var s, g1 := g.edges[last].src, SwapParents(g, incoming + [last], y).value;
            Mult(g1.edges, s, y) == Mult(g.edges, s, y) + CountSources(g.edges, incoming + [last], s) - 1
  {
    var s := g.edges[last].src;
    var g', rest := StepOf(g, incoming[0], y), incoming[1..];
    StepSucceeds(g, incoming, x, y);
    FirstOf(g, incoming, last, x, y);
    GoesAstray(g, incoming, last, x, y);
    hide IfRules, SwapParents, StepOf;
    AstrayConnects(g', rest, last, x, y, s);
    StepMult(g, incoming[0], y, s, y);
    CountSourcesIntact(g.edges, g'.edges, rest, s);
    CountSourcesAppend(g.edges, incoming, last, s);
  }

  lemma {:induction false} IntoPrefix(g: Graph, incoming: seq<nat>, last: nat, x: nat, y: nat)
    requires Into(g, incoming + [last], x, y)
    ensures Into(g, incoming, x, y) && last < |g.edges|
  {
    var all := incoming + [last];
    assert all[|incoming|] == last;
    forall k | 0 <= k < |incoming| ensures incoming[k] == all[k] {}
  }

  /** The state of multiplicities, kinds and results after a whole swap. */
  ghost predicate Swapped(g: Graph, x: nat, y: nat, g': Graph) {
    && g'.kinds == g.kinds && g'.results == g.results
    && forall a: nat, b: nat {:trigger Mult(g'.edges, a, b)} :: Mult(g'.edges, a, b) == SwappedMult(g, x, y, a, b)
  }

  lemma {:induction false} ReversedQueryEdge(g: Graph, i: nat, e: Edge)
    requires i < |g.edges| && !IsFlow(g, e.src)
    ensures FlowEdgesFrom(g, g.(edges := RemoveEdge(g, i).edges + [e]))
  {
    var g0 := RemoveEdge(g, i);
    var g' := g.(edges := g0.edges + [e]);
    forall j | 0 <= j < |g'.edges| && IsFlow(g, g'.edges[j].src)
      ensures exists k :: 0 <= k < |g.edges| && g.edges[k].src == g'.edges[j].src && g.edges[k].dep == g'.edges[j].dep
    {
      var k := if j == i then |g.edges| - 1 else j;
      assert g.edges[k].src == g'.edges[j].src && g.edges[k].dep == g'.edges[j].dep;
    }
    forall n: nat | IsFlow(g, n) ensures |OutEdges(g'.edges, n)| <= |OutEdges(g.edges, n)| {
      OutDegreeRemove(g, i, n);
      OutDegreeAppend(g0.edges, e, n);
    }
  }

  lemma {:induction false} ReverseEdge(g: Graph, x: nat, y: nat, g1: Graph)
    requires ParentsConnected(g, x, y, g1)
    requires HasEdge(g, x, y) && x != y && y < |g.kinds| && g.kinds[y].Query?
    ensures FindEdge(g1.edges, x, y).Some?
    ensures var i := FindEdge(g1.edges, x, y).value;
            var r := CreateEdge(RemoveEdge(g1, i), Edge(y, x, g1.edges[i].dep));
            r.Some? && Swapped(g, x, y, r.value) && FlowEdgesFrom(g1, r.value) && EndsWith(r.value, y, x)
  {
    HasEdgeIffMult(g, x, y);
    MultPositive(g1.edges, x, y);
    var i := FindEdge(g1.edges, x, y).value;
    var e := Edge(y, x, g1.edges[i].dep);
    var g2 := RemoveEdge(g1, i);
    var g' := g2.(edges := g2.edges + [e]);
    assert CreateEdge(g2, e) == Some(g');
    ReversedQueryEdge(g1, i, e);
    forall a: nat, b: nat ensures Mult(g'.edges, a, b) == SwappedMult(g, x, y, a, b) {
      MultRemove(g1, i, a, b);
      MultAppend(g2.edges, e, a, b);
    }
  }

  /**
   A swap of a child under its parent succeeds and has the documented effect on the edges
   if and only if the collected edge indices do not go stale.
   */
  lemma {:induction false} SwapEffectIff(g: Graph, x: nat, y: nat)
    requires InRange(g) && Acyclic(g) && IfRules(g)
    requires HasEdge(g, x, y) && y < |g.kinds| && g.kinds[y].Query?
    ensures Swap(g, x, y).Some? && Swapped(g, x, y, Swap(g, x, y).value) <==> !StaleAt(g, x)
    ensures !StaleAt(g, x) ==> FlowEdgesFrom(g, Swap(g, x, y).value) && EndsWith(Swap(g, x, y).value, y, x)
  {
    SwapOfAsymmetric(g, x, y);
    if StaleAt(g, x) {
      if Swap(g, x, y).Some? {
        StaleSwapMisses(g, x, y);
      }
    } else {
      ConnectsUnlessStale(g, x, y);
      var g1 := SwapParents(g, InEdges(g.edges, x), y).value;
      ReverseEdge(g, x, y, g1);
      FlowEdgesFromTransitive(g, g1, Swap(g, x, y).value);
    }
  }

  /** The last edge of the graph leads from `a` to `b`. */
  predicate EndsWith(g: Graph, a: nat, b: nat) {
    g.edges != [] && g.edges[|g.edges| - 1].src == a && g.edges[|g.edges| - 1].dst == b
  }

  lemma {:induction false} StaleSwapMisses(g: Graph, x: nat, y: nat)
    requires IfRules(g) && HasEdge(g, x, y) && x != y && !HasEdge(g, y, x) && !HasEdge(g, x, x)
    requires StaleAt(g, x) && Swap(g, x, y).Some?
    ensures !Swapped(g, x, y, Swap(g, x, y).value)
  {
    IncomingInto(g, x, y);
    var incoming := InEdges(g.edges, x);
    var first := incoming[..|incoming| - 1];
    var last: nat := |g.edges| - 1;
    assert incoming == first + [last];
    IntoPrefix(g, first, last, x, y);
    StaleMisses(g, first, last, x, y);
    CountSourcesIsMult(g.edges, x, g.edges[|g.edges| - 1].src);
    var s, g1 := g.edges[|g.edges| - 1].src, SwapParents(g, InEdges(g.edges, x), y).value;
    var g' := Swap(g, x, y).value;
    assert HasEdge(g, s, x);
    assert Mult(g'.edges, s, y) == Mult(g1.edges, s, y) by {
      var i := FindEdge(g1.edges, x, y);
      if i.Some? {
        MultRemove(g1, i.value, s, y);
        MultAppend(RemoveEdge(g1, i.value).edges, Edge(y, x, g1.edges[i.value].dep), s, y);
      }
    }
    assert SwappedMult(g, x, y, s, y) == Mult(g.edges, s, y) + Mult(g.edges, s, x);
  }

  lemma {:induction false} FlowEdgesFromTransitive(g: Graph, g1: Graph, g2: Graph)
    requires FlowEdgesFrom(g, g1) && FlowEdgesFrom(g1, g2) && g.kinds == g1.kinds
    ensures FlowEdgesFrom(g, g2)
  {
  }

  // ----- one swap, in terms of ancestors -----

  /** A swap of parent `x` and child `y` turned `g` into `g'`. */
  ghost predicate SwapOf(g: Graph, x: nat, y: nat, g': Graph) {
    && InRange(g) && Acyclic(g) && Simple(g)
    && HasEdge(g, x, y) && x < |g.kinds| && y < |g.kinds|
    && Swapped(g, x, y, g')
  }

  ghost predicate Kept(g: Graph, x: nat, y: nat, a: nat, b: nat) {
    HasEdge(g, a, b) && !(a == x && b == y) && !(b == x && IsFlow(g, a))
  }

  lemma {:induction false} SwapOfAsymmetric(g: Graph, x: nat, y: nat)
    requires Acyclic(g) && HasEdge(g, x, y)
    ensures x != y && !HasEdge(g, y, x) && !HasEdge(g, x, x) && !HasEdge(g, y, y) && !Reaches(g, y, x)
  {
    EdgeReaches(g, x, y);
    if HasEdge(g, y, x) { EdgeReaches(g, y, x); }
    if HasEdge(g, x, x) { EdgeReaches(g, x, x); }
    if HasEdge(g, y, y) { EdgeReaches(g, y, y); }
    if Reaches(g, y, x) { ReachesTransitive(g, x, y, x); }
  }

  lemma {:induction false} EdgesAfter(g: Graph, x: nat, y: nat, g': Graph, a: nat, b: nat)
    requires SwapOf(g, x, y, g')
    ensures HasEdge(g', a, b) <==> Kept(g, x, y, a, b) || (b == y && HasEdge(g, a, x)) || (a == y && b == x)
  {
    SwapOfAsymmetric(g, x, y);
    HasEdgeIffMult(g, a, b);
    HasEdgeIffMult(g, a, x);
    HasEdgeIffMult(g, x, x);
    HasEdgeIffMult(g', a, b);
    HasEdgeIffMult(g, x, y);
  }

  lemma {:induction false} SwapInRange(g: Graph, x: nat, y: nat, g': Graph)
    requires SwapOf(g, x, y, g')
    ensures InRange(g')
  {
    forall i | 0 <= i < |g'.edges| ensures g'.edges[i].src < |g'.kinds| && g'.edges[i].dst < |g'.kinds| {
      assert HasEdge(g', g'.edges[i].src, g'.edges[i].dst);
      EdgesAfter(g, x, y, g', g'.edges[i].src, g'.edges[i].dst);
    }
  }

  /** Below `y` nothing is taken away. */
  lemma {:induction false} BelowKept(g: Graph, x: nat, y: nat, g': Graph, a: nat, b: nat, k: nat)
    requires SwapOf(g, x, y, g') && ReachesIn(g, a, b, k) && (a == y || Reaches(g, y, a))
    ensures Reaches(g', a, b)
    decreases k
  {
    SwapOfAsymmetric(g, x, y);
    var c := if k == 0 then b else var c :| HasEdge(g, a, c) && ReachesIn(g, c, b, k - 1); c;
    EdgeReaches(g, a, c);
    if a != y {
      ReachesTransitive(g, y, a, c);
    }
    EdgesAfter(g, x, y, g', a, c);
    EdgeReaches(g', a, c);
    if k > 0 {
      BelowKept(g, x, y, g', c, b, k - 1);
      ReachesTransitive(g', a, c, b);
    }
  }

  /** `x` reaches `b` starting with an edge to a child other than `y`. */
  ghost predicate ReachesOtherwise(g: Graph, x: nat, y: nat, b: nat) {
    exists c :: HasEdge(g, x, c) && c != y && (c == b || Reaches(g, c, b))
  }

  /** Ancestors stay ancestors, except that `x` may lose `y` and what is below `y`. */
  lemma {:induction false} AncestorsKeptIn(g: Graph, x: nat, y: nat, g': Graph, a: nat, b: nat, k: nat)
    requires SwapOf(g, x, y, g') && ReachesIn(g, a, b, k) && a != x
    ensures Reaches(g', a, b)
    decreases k
  {
    SwapOfAsymmetric(g, x, y);
    EdgesAfter(g, x, y, g', y, x);
    EdgeReaches(g', y, x);
    var c := if k == 0 then b else var c :| HasEdge(g, a, c) && ReachesIn(g, c, b, k - 1); c;
    assert k == 0 ==> c == b;
    if c == x {
      EdgesAfter(g, x, y, g', a, y);
      EdgeReaches(g', a, y);
      ReachesTransitive(g', a, y, x);
      if k > 0 && b != y {
        FromParent(g, x, y, g', b, k - 1);
        ReachesTransitive(g', a, y, b);
      }
    } else {
      EdgesAfter(g, x, y, g', a, c);
      EdgeReaches(g', a, c);
      if k > 0 {
        AncestorsKeptIn(g, x, y, g', c, b, k - 1);
        ReachesTransitive(g', a, c, b);
      }
    }
  }

  /** Whatever `x` reached, `y` now reaches. */
  lemma {:induction false} FromParent(g: Graph, x: nat, y: nat, g': Graph, b: nat, k: nat)
    requires SwapOf(g, x, y, g') && ReachesIn(g, x, b, k) && b != y
    ensures Reaches(g', y, b)
    decreases k
  {
    SwapOfAsymmetric(g, x, y);
    EdgesAfter(g, x, y, g', y, x);
    EdgeReaches(g', y, x);
    var c := if k == 0 then b else var c :| HasEdge(g, x, c) && ReachesIn(g, c, b, k - 1); c;
    assert k == 0 ==> c == b;
    if c == y {
      BelowKept(g, x, y, g', y, b, k - 1);
    } else {
      EdgesAfter(g, x, y, g', x, c);
      EdgeReaches(g', x, c);
      ReachesTransitive(g', y, x, c);
      if k > 0 {
        AncestorsKeptIn(g, x, y, g', c, b, k - 1);
        ReachesTransitive(g', y, c, b);
      }
    }
  }

  lemma {:induction false} AncestorsKept(g: Graph, x: nat, y: nat, g': Graph, a: nat, b: nat)
    requires SwapOf(g, x, y, g') && Reaches(g, a, b) && a != x
    ensures Reaches(g', a, b)
  {
    var k: nat :| ReachesIn(g, a, b, k);
    AncestorsKeptIn(g, x, y, g', a, b, k);
  }

  lemma {:induction false} OtherwiseKept(g: Graph, x: nat, y: nat, g': Graph, b: nat)
    requires SwapOf(g, x, y, g') && ReachesOtherwise(g, x, y, b)
    ensures Reaches(g', x, b)
  {
    SwapOfAsymmetric(g, x, y);
    var c :| HasEdge(g, x, c) && c != y && (c == b || Reaches(g, c, b));
    EdgesAfter(g, x, y, g', x, c);
    EdgeReaches(g', x, c);
    if c != b {
      AncestorsKept(g, x, y, g', c, b);
      ReachesTransitive(g', x, c, b);
    }
  }

  /** Upper bound on the new ancestor relation, when `y` hangs directly under `x`. */
  ghost predicate NewReach(g: Graph, x: nat, y: nat, a: nat, b: nat) {
    || (Reaches(g, a, b) && !(a == x && b == y))
    || (a == y && (b == x || (Reaches(g, x, b) && b != y)))
  }

  lemma {:induction false} OnlyNewReachIn(g: Graph, x: nat, y: nat, g': Graph, a: nat, b: nat, k: nat)
    requires SwapOf(g, x, y, g') && IsDirectChild(g, x, y) && ReachesIn(g', a, b, k)
    ensures NewReach(g, x, y, a, b)
    decreases k
  {
    SwapOfAsymmetric(g, x, y);
    EdgeReaches(g, x, y);
    var c := if k == 0 then b else var c :| HasEdge(g', a, c) && ReachesIn(g', c, b, k - 1); c;
    assert k == 0 ==> c == b;
    EdgesAfter(g, x, y, g', a, c);
    if k > 0 {
      OnlyNewReachIn(g, x, y, g', c, b, k - 1);
    }
    if a == y && c == x {
    } else if c == y && HasEdge(g, a, x) {
      EdgeReaches(g, a, x);
      ReachesTransitive(g, a, x, y);
      if b != y { Extend(g, x, y, a, b); }
    } else {
      EdgeReaches(g, a, c);
      if k > 0 {
        if Reaches(g, c, b) {
          ReachesTransitive(g, a, c, b);
          if a == x && b == y {
            NoOtherWayDown(g, x, y, c);
          }
        } else {
          assert Reaches(g, a, x);
          Extend(g, x, y, a, b);
        }
      }
    }
  }

  /** An ancestor of `x` reaches everything that `x` or `y` reaches. */
  lemma {:induction false} Extend(g: Graph, x: nat, y: nat, a: nat, b: nat)
    requires Acyclic(g) && HasEdge(g, x, y) && Reaches(g, a, x)
    requires b == x || Reaches(g, x, b) || Reaches(g, y, b)
    ensures Reaches(g, a, b) && a != x
  {
    EdgeReaches(g, x, y);
    if Reaches(g, x, b) {
      ReachesTransitive(g, a, x, b);
    } else if Reaches(g, y, b) {
      ReachesTransitive(g, x, y, b);
      ReachesTransitive(g, a, x, b);
    }
  }

  /** A direct child cannot also be reached through a sibling. */
  lemma {:induction false} NoOtherWayDown(g: Graph, x: nat, y: nat, c: nat)
    requires InRange(g) && Acyclic(g) && HasEdge(g, x, y) && IsDirectChild(g, x, y)
    requires HasEdge(g, x, c)
    ensures !Reaches(g, c, y)
  {
    if Reaches(g, c, y) {
      assert IsDirectParent(g, x, y);
      AncestorAboveDirectParent(g, c, x, y);
      EdgeReaches(g, x, c);
      if c != x {
        ReachesTransitive(g, x, c, x);
      }
    }
  }

  lemma {:induction false} OnlyNewReach(g: Graph, x: nat, y: nat, g': Graph, a: nat, b: nat)
    requires SwapOf(g, x, y, g') && IsDirectChild(g, x, y) && Reaches(g', a, b)
    ensures NewReach(g, x, y, a, b)
  {
    var k: nat :| ReachesIn(g', a, b, k);
    OnlyNewReachIn(g, x, y, g', a, b, k);
  }

  /** The swap keeps the graph acyclic exactly when the child hangs directly under the parent. */
  lemma {:induction false} SwapAcyclicIff(g: Graph, x: nat, y: nat, g': Graph)
    requires SwapOf(g, x, y, g') && RelatedParents(g)
    ensures Acyclic(g') <==> IsDirectChild(g, x, y)
  {
    SwapOfAsymmetric(g, x, y);
    if IsDirectChild(g, x, y) {
      forall a: nat ensures !Reaches(g', a, a) {
        if Reaches(g', a, a) {
          OnlyNewReach(g, x, y, g', a, a);
        }
      }
    } else {
      var q :| HasEdge(g, q, y) && q != x && !Reaches(g, q, x);
      assert Reaches(g, x, q);
      ChildBelowStaysBelow(g, x, y, g', q);
    }
  }

  /** If `y` has another parent below `x`, the swap closes a cycle. */
  lemma {:induction false} ChildBelowStaysBelow(g: Graph, x: nat, y: nat, g': Graph, q: nat)
    requires SwapOf(g, x, y, g') && HasEdge(g, q, y) && q != x && Reaches(g, x, q)
    ensures !Acyclic(g')
  {
    SwapOfAsymmetric(g, x, y);
    EdgeReaches(g, q, y);
    var c := ReachesFirst(g, x, q);
    assert c != y by {
      if c == y && Reaches(g, y, q) {
        ReachesTransitive(g, q, y, q);
      }
    }
    assert ReachesOtherwise(g, x, y, q);
    OtherwiseKept(g, x, y, g', q);
    EdgesAfter(g, x, y, g', q, y);
    EdgeReaches(g', q, y);
    EdgesAfter(g, x, y, g', y, x);
    EdgeReaches(g', y, x);
    ReachesTransitive(g', x, q, y);
    ReachesTransitive(g', x, y, x);
  }

  /** Whenever a node hangs under both `x` and something below `y`, `x` also reaches that something without `y`. */
  ghost predicate Bridged(g: Graph, x: nat, y: nat) {
    forall n, d :: HasEdge(g, x, n) && HasEdge(g, d, n) && Reaches(g, y, d) ==> ReachesOtherwise(g, x, y, d)
  }

  lemma {:induction false} RelationKept(g: Graph, x: nat, y: nat, g': Graph, n: nat, a: nat, b: nat)
    requires SwapOf(g, x, y, g') && IsDirectChild(g, x, y) && Bridged(g, x, y)
    requires HasEdge(g, a, n) && HasEdge(g, b, n) && Reaches(g, a, b)
    ensures Reaches(g', a, b) || Reaches(g', b, a)
  {
    if a != x {
      AncestorsKept(g, x, y, g', a, b);
    } else if b == y {
      EdgesAfter(g, x, y, g', y, x);
      EdgeReaches(g', y, x);
    } else {
      if Reaches(g, y, b) {
      } else {
        var c := ReachesFirst(g, x, b);
        assert ReachesOtherwise(g, x, y, b);
      }
      OtherwiseKept(g, x, y, g', b);
    }
  }

  /** Parents of `y` after the swap are ancestors of `x` before it. */
  lemma {:induction false} NewParentsOfChild(g: Graph, x: nat, y: nat, g': Graph, a: nat)
    requires SwapOf(g, x, y, g') && IsDirectChild(g, x, y) && HasEdge(g', a, y)
    ensures Reaches(g, a, x) && a != x
  {
    SwapOfAsymmetric(g, x, y);
    EdgesAfter(g, x, y, g', a, y);
    if HasEdge(g, a, x) {
      EdgeReaches(g, a, x);
    }
  }

  lemma {:induction false} ParentsStayRelated(g: Graph, x: nat, y: nat, g': Graph, n: nat, a: nat, b: nat)
    requires SwapOf(g, x, y, g') && RelatedParents(g) && IsDirectChild(g, x, y) && Bridged(g, x, y)
    requires HasEdge(g', a, n) && HasEdge(g', b, n) && a != b
    ensures Reaches(g', a, b) || Reaches(g', b, a)
  {
    SwapOfAsymmetric(g, x, y);
    EdgesAfter(g, x, y, g', a, n);
    EdgesAfter(g, x, y, g', b, n);
    if n == y {
      NewParentsOfChild(g, x, y, g', a);
      NewParentsOfChild(g, x, y, g', b);
      RelatedIffDirectParents(g);
      AncestorsFormChain(g, a, b, x);
      if Reaches(g, a, b) {
        AncestorsKept(g, x, y, g', a, b);
      } else {
        AncestorsKept(g, x, y, g', b, a);
      }
    } else if n == x && (a == y || b == y) {
      var p := if a == y then b else a;
      EdgesAfter(g, x, y, g', p, y);
      EdgeReaches(g', p, y);
    } else if Reaches(g, a, b) {
      RelationKept(g, x, y, g', n, a, b);
    } else {
      RelationKept(g, x, y, g', n, b, a);
    }
  }

  /** After a swap that keeps the graph acyclic, the parents of all nodes are related exactly when `Bridged` held. */
  lemma {:induction false} SwapRelatedIff(g: Graph, x: nat, y: nat, g': Graph)
    requires SwapOf(g, x, y, g') && RelatedParents(g) && IsDirectChild(g, x, y)
    ensures RelatedParents(g') <==> Bridged(g, x, y)
  {
    if Bridged(g, x, y) {
      forall n, a, b | HasEdge(g', a, n) && HasEdge(g', b, n) && a != b
        ensures Reaches(g', a, b) || Reaches(g', b, a)
      {
        ParentsStayRelated(g, x, y, g', n, a, b);
      }
    }
    if RelatedParents(g') {
      forall n, d | HasEdge(g, x, n) && HasEdge(g, d, n) && Reaches(g, y, d)
        ensures ReachesOtherwise(g, x, y, d)
      {
        StraddledNode(g, x, y, g', n, d);
      }
    }
  }

  lemma {:induction false} StraddledNode(g: Graph, x: nat, y: nat, g': Graph, n: nat, d: nat)
    requires SwapOf(g, x, y, g') && IsDirectChild(g, x, y) && RelatedParents(g')
    requires HasEdge(g, x, n) && HasEdge(g, d, n) && Reaches(g, y, d)
    ensures ReachesOtherwise(g, x, y, d)
  {
    SwapOfAsymmetric(g, x, y);
    EdgeReaches(g, x, n);
    EdgeReaches(g, d, n);
    EdgeReaches(g, x, y);
    ReachesTransitive(g, x, y, d);
    assert n != y by {
      if n == y { ReachesTransitive(g, y, d, y); }
    }
    EdgesAfter(g, x, y, g', x, n);
    EdgesAfter(g, x, y, g', d, n);
    assert !Reaches(g', d, x) by {
      if Reaches(g', d, x) {
        OnlyNewReach(g, x, y, g', d, x);
        if Reaches(g, d, x) { ReachesTransitive(g, d, x, d); }
      }
    }
    var c := ReachesFirst(g', x, d);
    EdgesAfter(g, x, y, g', x, c);
    if c != d {
      OnlyNewReach(g, x, y, g', c, d);
    }
  }

  /** The swap creates no duplicate edge exactly when the two nodes had no common parent. */
  lemma {:induction false} SwapSimpleIff(g: Graph, x: nat, y: nat, g': Graph)
    requires SwapOf(g, x, y, g')
    ensures Simple(g') <==> forall a :: !(HasEdge(g, a, x) && HasEdge(g, a, y))
  {
    SwapOfAsymmetric(g, x, y);
    forall a: nat ensures Mult(g'.edges, a, y) <= 1 <==> !(HasEdge(g, a, x) && HasEdge(g, a, y)) {
      HasEdgeIffMult(g, a, x);
      HasEdgeIffMult(g, a, y);
      HasEdgeIffMult(g, x, x);
    }
    forall a: nat, b: nat | b != y ensures Mult(g'.edges, a, b) <= 1 {
      HasEdgeIffMult(g, y, x);
      HasEdgeIffMult(g, a, b);
    }
    if a :| HasEdge(g, a, x) && HasEdge(g, a, y) {
      assert Mult(g'.edges, a, y) > 1;
    }
  }

  /** After the swap the child is an ancestor of its former parent. */
  lemma {:induction false} SwapReverses(g: Graph, x: nat, y: nat, g': Graph)
    requires SwapOf(g, x, y, g')
    ensures Reaches(g', y, x)
  {
    EdgesAfter(g, x, y, g', y, x);
    EdgeReaches(g', y, x);
  }

  /**
   One swap preserves all graph invariants exactly when the child hangs directly
   under the parent, shares no parent with it, and `Bridged` holds.
   */
  lemma {:induction false} SwapKeepsInvariantsIff(g: Graph, x: nat, y: nat)
    requires InRange(g) && Acyclic(g) && RelatedParents(g) && NoParallelEdges(g) && IfRules(g) && !StaleAt(g, x)
    requires HasEdge(g, x, y) && x < |g.kinds| && y < |g.kinds| && g.kinds[y].Query?
    ensures Swap(g, x, y).Some?
    ensures var g' := Swap(g, x, y).value;
            && Reaches(g', y, x)
            && (InRange(g') && Acyclic(g') && RelatedParents(g') && NoParallelEdges(g') <==>
                IsDirectChild(g, x, y) && Bridged(g, x, y) && forall a :: !(HasEdge(g, a, x) && HasEdge(g, a, y)))
  {
    SwapEffectIff(g, x, y);
    var g' := Swap(g, x, y).value;
    SimpleIffNoParallel(g);
    SimpleIffNoParallel(g');
    SwapInRange(g, x, y, g');
    SwapAcyclicIff(g, x, y, g');
    if IsDirectChild(g, x, y) {
      SwapRelatedIff(g, x, y, g');
    }
    SwapSimpleIff(g, x, y, g');
    SwapReverses(g, x, y, g');
  }

  // ----- many swaps -----

  /** `y` hangs under `x` as a tree: each node from `y` down has a single parent. */
  ghost predicate Hangs(g: Graph, x: nat, y: nat) {
    && x < |g.kinds| && y < |g.kinds| && g.kinds[y].Query? && HasEdge(g, x, y)
    && (forall a :: HasEdge(g, a, y) ==> a == x)
    && (forall d, a, b :: Reaches(g, y, d) && HasEdge(g, a, d) && HasEdge(g, b, d) ==> a == b)
  }

  ghost predicate NotAbove(g: Graph, y: nat, x: nat) {
    y != x && !Reaches(g, y, x)
  }

  /** All invariants of a graph under construction. */
  ghost predicate Sound(g: Graph) {
    Scoped(g) && IfRules(g) && ParentIdsFromQueries(g)
  }

  /**
   The remaining pairs can be swapped top-down: every marked child hangs under its
   parent as an untouched tree, and is not above any parent swapped before it.
   */
  ghost predicate TopDown(g: Graph, done: seq<(nat, nat)>, todo: seq<(nat, nat)>) {
    && (forall k :: 0 <= k < |todo| ==> Hangs(g, todo[k].0, todo[k].1))
    && (forall j, k :: 0 <= j < k < |todo| ==> todo[j].1 != todo[k].1 && NotAbove(g, todo[k].1, todo[j].0))
    && (forall e, k :: 0 <= e < |done| && 0 <= k < |todo| ==> NotAbove(g, todo[k].1, done[e].0))
  }

  ghost predicate AllReversed(g: Graph, done: seq<(nat, nat)>) {
    forall e :: 0 <= e < |done| ==> Reaches(g, done[e].1, done[e].0)
  }

  lemma {:induction false} HangingIsDirect(g: Graph, x: nat, y: nat)
    requires InRange(g) && Acyclic(g) && Hangs(g, x, y)
    ensures IsDirectChild(g, x, y) && Bridged(g, x, y)
    ensures forall a :: !(HasEdge(g, a, x) && HasEdge(g, a, y))
  {
    SwapOfAsymmetric(g, x, y);
    forall n, d | HasEdge(g, x, n) && HasEdge(g, d, n) ensures !Reaches(g, y, d) {
      if Reaches(g, y, d) {
        EdgeReaches(g, d, n);
        ReachesTransitive(g, y, d, n);
      }
    }
  }

  /** The arms of `If` nodes stay direct children. */
  lemma {:induction false} ArmsStayDirect(g: Graph, x: nat, y: nat, g': Graph)
    requires SwapOf(g, x, y, g') && Hangs(g, x, y) && IfChildrenDirect(g)
    requires InRange(g') && Acyclic(g')
    ensures IfChildrenDirect(g')
  {
    HangingIsDirect(g, x, y);
    forall q: nat | q < |g.kinds| && g.kinds[q].IfFlow? ensures ChildrenDirect(g', q) {
      assert ChildrenDirect(g, q);
      forall n | HasEdge(g', q, n) ensures IsDirectChild(g', q, n) {
        forall a | HasEdge(g', a, n) ensures a == q || Reaches(g', a, q) {
          ArmParentKept(g, x, y, g', q, n, a);
        }
      }
    }
  }

  lemma {:induction false} ArmParentKept(g: Graph, x: nat, y: nat, g': Graph, q: nat, n: nat, a: nat)
    requires SwapOf(g, x, y, g') && Hangs(g, x, y)
    requires q < |g.kinds| && g.kinds[q].IfFlow? && ChildrenDirect(g, q)
    requires HasEdge(g', q, n) && HasEdge(g', a, n)
    ensures a == q || Reaches(g', a, q)
  {
    HangingIsDirect(g, x, y);
    EdgesAfter(g, x, y, g', q, n);
    EdgesAfter(g, x, y, g', a, n);
    if n == y && a != q {
      SwapOfAsymmetric(g, x, y);
      assert HasEdge(g, q, x) && HasEdge(g, a, x) && IsDirectChild(g, q, x);
      AncestorsKept(g, x, y, g', a, q);
    }
    if n != y && n != x && a != q {
      assert IsDirectChild(g, q, n);
      if a != x {
        AncestorsKept(g, x, y, g', a, q);
      } else {
        if !Reaches(g, y, q) {
          var c := ReachesFirst(g, x, q);
          assert ReachesOtherwise(g, x, y, q);
        }
        OtherwiseKept(g, x, y, g', q);
      }
    }
  }

  lemma {:induction false} RulesKept(g: Graph, g': Graph)
    requires g.kinds == g'.kinds && InRange(g) && InRange(g') && FlowEdgesFrom(g, g')
    requires IfRules(g) && ParentIdsFromQueries(g)
    ensures IfRules(g') && ParentIdsFromQueries(g')
  {
    forall j | 0 <= j < |g'.edges| && g'.kinds[g'.edges[j].src].IfFlow?
      ensures g'.edges[j].dep.Then? || g'.edges[j].dep.Else?
    {
      assert IsFlow(g, g'.edges[j].src);
    }
    forall j | 0 <= j < |g'.edges| && g'.edges[j].dep.ParentIds? ensures g'.kinds[g'.edges[j].src].Query? {
    }
    forall n: nat | n < |g.kinds| && g.kinds[n].IfFlow? ensures |OutEdges(g'.edges, n)| <= 2 {
      assert IsFlow(g, n);
    }
  }

  /** One top-down step keeps every invariant. */
  lemma {:induction false} StepSound(g: Graph, x: nat, y: nat)
    requires Sound(g) && Hangs(g, x, y) && !StaleAt(g, x)
    ensures Swap(g, x, y).Some?
    ensures Sound(Swap(g, x, y).value) && SwapOf(g, x, y, Swap(g, x, y).value) && EndsWith(Swap(g, x, y).value, y, x)
  {
    HangingIsDirect(g, x, y);
    SwapEffectIff(g, x, y);
    SwapKeepsInvariantsIff(g, x, y);
    SimpleIffNoParallel(g);
    var g' := Swap(g, x, y).value;
    ArmsStayDirect(g, x, y, g');
    RulesKept(g, g');
  }

  /** A tree that is not involved in the swap is left untouched. */
  lemma {:induction false} HangsKept(g: Graph, x: nat, y: nat, g': Graph, u: nat, v: nat)
    requires SwapOf(g, x, y, g') && Hangs(g, x, y) && Hangs(g, u, v)
    requires v != y && NotAbove(g, v, x)
    ensures Hangs(g', u, v)
  {
    HangingIsDirect(g, x, y);
    EdgesAfter(g, x, y, g', u, v);
    forall a | HasEdge(g', a, v) ensures a == u {
      EdgesAfter(g, x, y, g', a, v);
    }
    forall d, a, b | Reaches(g', v, d) && HasEdge(g', a, d) && HasEdge(g', b, d) ensures a == b {
      OnlyNewReach(g, x, y, g', v, d);
      assert d != y by {
        if d == y {
          var c := ReachesLast(g, v, y);
        }
      }
      EdgesAfter(g, x, y, g', a, d);
      EdgesAfter(g, x, y, g', b, d);
    }
  }

  lemma {:induction false} NotAboveKept(g: Graph, x: nat, y: nat, g': Graph, v: nat, u: nat)
    requires SwapOf(g, x, y, g') && Hangs(g, x, y) && v != y && NotAbove(g, v, u)
    ensures NotAbove(g', v, u)
  {
    HangingIsDirect(g, x, y);
    if Reaches(g', v, u) {
      OnlyNewReach(g, x, y, g', v, u);
    }
  }

  /** Once a pair has been swapped, no collected index goes stale any more. */
  lemma {:induction false} NeverStaleAgain(g: Graph, x: nat, y: nat, g': Graph, u: nat)
    requires SwapOf(g, x, y, g') && g.kinds[y].Query? && EndsWith(g', y, x)
    ensures !StaleAt(g', u)
  {
    if StaleAt(g', u) {
      var i := InEdges(g'.edges, u)[0];
      assert HasEdge(g', g'.edges[i].src, u);
      EdgesAfter(g, x, y, g', g'.edges[i].src, u);
      SwapOfAsymmetric(g, x, y);
    }
  }

  lemma {:induction false} ReversedKept(g: Graph, x: nat, y: nat, g': Graph, u: nat, v: nat)
    requires SwapOf(g, x, y, g') && Reaches(g, v, u) && NotAbove(g, y, u)
    ensures Reaches(g', v, u)
  {
    if v != x {
      AncestorsKept(g, x, y, g', v, u);
    } else {
      var c := ReachesFirst(g, x, u);
      assert ReachesOtherwise(g, x, y, u);
      OtherwiseKept(g, x, y, g', u);
    }
  }

  lemma {:induction false} StepTopDown(g: Graph, done: seq<(nat, nat)>, todo: seq<(nat, nat)>)
    requires Sound(g) && TopDown(g, done, todo) && AllReversed(g, done) && todo != [] && !StaleAt(g, todo[0].0)
    ensures Swap(g, todo[0].0, todo[0].1).Some?
    ensures var g' := Swap(g, todo[0].0, todo[0].1).value;
            && Sound(g') && TopDown(g', done + [todo[0]], todo[1..]) && AllReversed(g', done + [todo[0]])
            && Fresh(g', todo[1..]) && Swapped(g, todo[0].0, todo[0].1, g')
  {
    var (x, y) := todo[0];
    StepSound(g, x, y);
    var g' := Swap(g, x, y).value;
    var done', todo' := done + [todo[0]], todo[1..];
    if todo' != [] {
      NeverStaleAgain(g, x, y, g', todo'[0].0);
    }
    forall k | 0 <= k < |todo'| ensures Hangs(g', todo'[k].0, todo'[k].1) {
      assert todo'[k] == todo[k + 1];
      HangsKept(g, x, y, g', todo[k + 1].0, todo[k + 1].1);
    }
    forall j, k | 0 <= j < k < |todo'| ensures todo'[j].1 != todo'[k].1 && NotAbove(g', todo'[k].1, todo'[j].0) {
      assert todo'[k] == todo[k + 1] && todo'[j] == todo[j + 1];
      NotAboveKept(g, x, y, g', todo[k + 1].1, todo[j + 1].0);
    }
    forall e, k | 0 <= e < |done'| && 0 <= k < |todo'| ensures NotAbove(g', todo'[k].1, done'[e].0) {
      assert todo'[k] == todo[k + 1];
      NotAboveKept(g, x, y, g', todo[k + 1].1, done'[e].0);
    }
    forall e | 0 <= e < |done'| ensures Reaches(g', done'[e].1, done'[e].0) {
      if e < |done| {
        ReversedKept(g, x, y, g', done[e].0, done[e].1);
      } else {
        SwapReverses(g, x, y, g');
      }
    }
  }

  /** The edge indices of the first parent do not go stale. */
  predicate Fresh(g: Graph, todo: seq<(nat, nat)>) {
    todo != [] ==> !StaleAt(g, todo[0].0)
  }

  /** Every swap on the way succeeds and has the documented effect. */
  ghost predicate AllSwapped(g: Graph, pairs: seq<(nat, nat)>)
    decreases |pairs|
  {
    pairs != [] ==>
      && Swap(g, pairs[0].0, pairs[0].1).Some?
      && Swapped(g, pairs[0].0, pairs[0].1, Swap(g, pairs[0].0, pairs[0].1).value)
      && AllSwapped(Swap(g, pairs[0].0, pairs[0].1).value, pairs[1..])
  }

  lemma {:induction false} SwapAllFrom(g: Graph, done: seq<(nat, nat)>, todo: seq<(nat, nat)>)
    requires Sound(g) && TopDown(g, done, todo) && AllReversed(g, done) && Fresh(g, todo)
    ensures SwapAll(g, todo).Some? && AllSwapped(g, todo)
    ensures Sound(SwapAll(g, todo).value) && AllReversed(SwapAll(g, todo).value, done + todo)
    decreases |todo|
  {
    hide Sound, TopDown, AllReversed, Swap, Swapped, StaleAt;
    if todo == [] {
      assert done + todo == done;
    } else {
      StepTopDown(g, done, todo);
      var g' := Swap(g, todo[0].0, todo[0].1).value;
      SwapAllFrom(g', done + [todo[0]], todo[1..]);
      assert done + todo == done + [todo[0]] + todo[1..];
    }
  }

  /**
   Swapping marked pairs top-down has the documented effect all the way if and only if the
   edge indices of the first parent do not go stale. It then succeeds, keeps all graph
   invariants, and makes every marked child an ancestor of its marked parent.
   */
  lemma {:induction false} SwapAllTopDown(g: Graph, pairs: seq<(nat, nat)>)
    requires Sound(g) && TopDown(g, [], pairs)
    ensures AllSwapped(g, pairs) <==> Fresh(g, pairs)
    ensures Fresh(g, pairs) ==>
              SwapAll(g, pairs).Some? && Sound(SwapAll(g, pairs).value) && AllReversed(SwapAll(g, pairs).value, pairs)
  {
    if Fresh(g, pairs) {
      SwapAllFrom(g, [], pairs);
      assert [] + pairs == pairs;
    } else {
      SwapEffectIff(g, pairs[0].0, pairs[0].1);
    }
  }

  // ----- stale edge indices -----

  /** A flow node above a query above `x`, both parents of `x`; the query's edge to `x` is the last one. */
  const Stale: Graph :=
    Graph([EmptyFlow, Query, Query, Query],
          [Edge(0, 2, ExecutionOrder), Edge(0, 1, ExecutionOrder), Edge(2, 3, ExecutionOrder), Edge(1, 2, ExecutionOrder)],
          [])

  /** The result of swapping node 2 with its child 3: node 1 was never connected to node 3. */
  const StaleSwapped: Graph :=
    Stale.(edges := [Edge(1, 2, ExecutionOrder), Edge(0, 1, ExecutionOrder), Edge(0, 3, ExecutionOrder), Edge(3, 2, ExecutionOrder)])

  lemma {:induction false} StaleIncoming()
    ensures InEdges(Stale.edges, 2) == [0, 3]
  {
    var e := Stale.edges;
    assert e[..3][..2] == e[..2] && e[..2][..1] == e[..1] && e[..1][..0] == [];
    assert InEdges(e[..1], 2) == [] + [0] == [0];
    assert InEdges(e[..2], 2) == [0] + [];
    assert InEdges(e[..3], 2) == [0] + [];
    assert InEdges(e, 2) == [0] + [3];
  }

  lemma {:induction false} StaleSwap()
    ensures Swap(Stale, 2, 3) == Some(StaleSwapped)
  {
    StaleIncoming();
    var x := ExecutionOrder;
    var g1 := Stale.(edges := [Edge(1, 2, x), Edge(0, 1, x), Edge(2, 3, x), Edge(0, 3, x)]);
    assert RemoveEdge(Stale, 0).edges == [Edge(1, 2, x), Edge(0, 1, x), Edge(2, 3, x)];
    assert RemoveEdge(Stale, 0).edges + [Edge(0, 3, x)] == g1.edges;
    assert CreateEdge(RemoveEdge(Stale, 0), Edge(0, 3, x)) == Some(g1);
    assert RemoveEdge(g1, 3).edges == [Edge(1, 2, x), Edge(0, 1, x), Edge(2, 3, x)];
    assert CreateEdge(RemoveEdge(g1, 3), Edge(0, 3, x)) == Some(g1);
    assert [0, 3][1..] == [3] && [3][1..] == [];
    assert SwapParents(g1, [], 3) == Some(g1);
    assert SwapParents(g1, [3], 3) == Some(g1);
    assert SwapParents(Stale, [0, 3], 3) == Some(g1);
    assert g1.edges[..3][2] == Edge(2, 3, x);
    assert FindEdge(g1.edges, 2, 3) == Some(2);
    assert RemoveEdge(g1, 2).edges == [Edge(1, 2, x), Edge(0, 1, x), Edge(0, 3, x)];
    assert RemoveEdge(g1, 2).edges + [Edge(3, 2, x)] == StaleSwapped.edges;
    assert CreateEdge(RemoveEdge(g1, 2), Edge(3, 2, x)) == Some(StaleSwapped);
  }

  /** Before the swap the graph is sound; afterwards the parents 1 and 3 of node 2 are unrelated. */
  lemma {:induction false} StaleIndicesBreakInvariant()
    ensures InRange(Stale) && Acyclic(Stale) && RelatedParents(Stale) && StaleAt(Stale, 2)
    ensures HasEdge(Stale, 2, 3) && Swap(Stale, 2, 3).Some? && !RelatedParents(Swap(Stale, 2, 3).value)
  {
    StaleIncoming();
    StaleSwap();
    StaleBefore();
    StaleAfter();
    assert Stale.edges[2] == Edge(2, 3, ExecutionOrder);
  }

  lemma {:induction false} StaleBefore()
    ensures InRange(Stale) && Acyclic(Stale) && RelatedParents(Stale)
  {
    var g := Stale;
    assert g.edges[0].src == 0 && g.edges[1] == Edge(0, 1, ExecutionOrder);
    assert HasEdge(g, 0, 1);
    EdgeReaches(g, 0, 1);
    assert forall a, b :: HasEdge(g, a, b) ==> a < b;
    forall a, b | Reaches(g, a, b) ensures a < b {
      var k: nat :| ReachesIn(g, a, b, k);
      IncreasingPath(g, a, b, k);
    }
    assert forall a, n :: HasEdge(g, a, n) ==> (n == 1 ==> a == 0) && (n == 3 ==> a == 2) && (n == 2 ==> a == 0 || a == 1);
  }

  lemma {:induction false} IncreasingPath(g: Graph, a: nat, b: nat, k: nat)
    requires forall a, b :: HasEdge(g, a, b) ==> a < b
    requires ReachesIn(g, a, b, k)
    ensures a < b
    decreases k
  {
    if k > 0 {
      var c :| HasEdge(g, a, c) && ReachesIn(g, c, b, k - 1);
      IncreasingPath(g, c, b, k - 1);
    }
  }

  lemma {:induction false} StaleAfter()
    ensures !RelatedParents(StaleSwapped)
  {
    var g := StaleSwapped;
    assert g.edges[0] == Edge(1, 2, ExecutionOrder) && g.edges[3] == Edge(3, 2, ExecutionOrder);
    assert HasEdge(g, 1, 2) && HasEdge(g, 3, 2);
    assert forall a, b :: HasEdge(g, a, b) ==> (a == 1 ==> b == 2) && (a == 3 ==> b == 2) && a != 2;
    forall a, b | (a == 1 || a == 3) && Reaches(g, a, b) ensures b == 2 {
      var c := ReachesFirst(g, a, b);
      if c != b {
        var d := ReachesFirst(g, c, b);
      }
    }
  }
}
