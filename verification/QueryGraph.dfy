/**
 The query graph as the program holds it: an object that is built up edge by edge,
 finalised by swapping marked pairs, and emptied node by node while it is compiled.
 A guard is a content together with whether it has been taken out.
 */
module QueryGraphObject {
  import opened Wrappers
  import opened QueryGraphs
  import opened Interpreter
  import opened Expressionista
  import opened Scopes
  import opened Execution
  import opened GraphSwap

  ghost function EdgesInto(g: Graph, s: set<nat>): set<nat> {
    set i | 0 <= i < |g.edges| && g.edges[i].dst in s
  }

  /** The invariants that compilation relies on. */
  ghost predicate Compilable(g: Graph) {
    && InRange(g) && Acyclic(g) && AllHaveDirectParent(g) && ChildrenDistinct(g) && IfChildrenDirect(g)
  }

  type Split = Option<(seq<nat>, seq<nat>)>

  ghost function Prepend(removed: seq<nat>, r: Split): Split {
    match r
    case None => None
    case Some((res, rest)) => Some((removed + res, rest))
  }

  lemma {:induction false} PrependOne(removed: seq<nat>, x: nat, r: Split)
    ensures Prepend(removed, Prepend([x], r)) == Prepend(removed + [x], r)
  {
    if r.Some? {
      assert removed + ([x] + r.value.0) == removed + [x] + r.value.0;
    }
  }

  lemma {:induction false} PrependNone(r: Split)
    ensures Prepend([], r) == r
  {
    if r.Some? {
      assert [] + r.value.0 == r.value.0;
    }
  }

  /** Removal of result children, position by position, from a list that shrinks in place. */
  method RemoveResultChildren(kids: seq<nat>, positions: seq<nat>) returns (r: Split)
    ensures r == RemoveEach(kids, positions)
  {
    var children, removed: seq<nat> := kids, [];
    var k := 0;
    assert positions[0..] == positions;
    PrependNone(RemoveEach(kids, positions));
    while k < |positions|
      invariant k <= |positions|
      invariant RemoveEach(kids, positions) == Prepend(removed, RemoveEach(children, positions[k..]))
    {
      var pos := positions[k];
      assert positions[k..][0] == pos && positions[k..][1..] == positions[k + 1..];
      if pos >= |children| {
        return None;
      }
      var shorter := children[..pos] + children[pos + 1..];
      assert RemoveEach(children, positions[k..]) == Prepend([children[pos]], RemoveEach(shorter, positions[k + 1..]));
      PrependOne(removed, children[pos], RemoveEach(shorter, positions[k + 1..]));
      removed, children := removed + [children[pos]], shorter;
      k := k + 1;
    }
    assert removed + [] == removed;
    r := Some((removed, children));
  }

  // ----- what compiling a list of siblings may touch -----

  ghost predicate Untouched(g: Graph, s: set<nat>, nodes: set<nat>, edges: set<nat>) {
    s !! nodes && EdgesInto(g, s) !! edges
  }

  /** Between two states, only `s` and the edges into it were emptied. */
  ghost predicate Emptied(g: Graph, s: set<nat>, nodes: set<nat>, edges: set<nat>, nodes': set<nat>, edges': set<nat>) {
    && nodes <= nodes' <= nodes + s
    && edges <= edges' <= edges + EdgesInto(g, s)
    && (QueriesOnly(g) ==> nodes' == nodes + s)
  }

  lemma {:induction false} EmptiedNothing(g: Graph, nodes: set<nat>, edges: set<nat>)
    ensures Emptied(g, Cover(g, []), nodes, edges, nodes, edges)
  {
  }

  lemma {:induction false} UntouchedChild(g: Graph, ns: seq<nat>, k: nat, nodes: set<nat>, edges: set<nat>)
    requires k < |ns| && Untouched(g, Cover(g, ns), nodes, edges)
    ensures Untouched(g, Subgraph(g, ns[k]), nodes, edges)
  {
    ChildInCover(g, ns, k);
  }

  lemma {:induction false} UntouchedPart(g: Graph, s: set<nat>, t: set<nat>, nodes: set<nat>, edges: set<nat>)
    requires Untouched(g, s, nodes, edges) && t <= s
    ensures Untouched(g, t, nodes, edges)
  {
  }

  /** The node itself is emptied, with its content taken out first. */
  lemma {:induction false} UntouchedBelow(g: Graph, n: nat, nodes: set<nat>, edges: set<nat>)
    requires Untouched(g, Subgraph(g, n), nodes, edges) && Acyclic(g)
    ensures Untouched(g, Descendants(g, n), nodes + {n}, edges)
    ensures Untouched(g, {n}, nodes, edges) && n !in nodes
  {
  }

  /** A flow node's content was taken out, then everything below it, then some edges into the node. */
  lemma {:induction false} FlowEmptied(g: Graph, n: nat, s: set<nat>, nodes: set<nat>, edges: set<nat>, n1: set<nat>, e1: set<nat>, into: set<nat>)
    requires Emptied(g, s, nodes + {n}, edges, n1, e1) && s <= Descendants(g, n)
    requires !QueriesOnly(g) && into <= EdgesInto(g, {n})
    ensures Emptied(g, Subgraph(g, n), nodes, edges, n1, e1 + into)
  {
  }

  /** The edges into a node are still there after everything below it was compiled. */
  lemma {:induction false} EdgesIntoKept(g: Graph, n: nat, s: set<nat>, nodes: set<nat>, edges: set<nat>, n1: set<nat>, e1: set<nat>)
    requires Acyclic(g) && Untouched(g, {n}, nodes, edges)
    requires Emptied(g, s, nodes + {n}, edges, n1, e1) && s <= Descendants(g, n)
    ensures EdgesInto(g, {n}) !! e1
  {
  }

  /** Different edges from one node to direct children lead to different children. */
  lemma {:induction false} ArmsDiffer(g: Graph, n: nat, i: nat, j: nat)
    requires InRange(g) && Acyclic(g) && ChildrenDistinct(g) && ChildrenDirect(g, n)
    requires i < |g.edges| && j < |g.edges| && i != j && g.edges[i].src == n && g.edges[j].src == n
    ensures g.edges[i].dst != g.edges[j].dst
  {
    var a := DirectIndex(g, n, i);
    var b := DirectIndex(g, n, j);
  }

  /** The arms of an `If` are siblings with nothing in common. */
  lemma {:induction false} ArmsReady(g: Graph, n: nat, thenEdge: nat, elseEdge: Option<nat>)
    requires Compilable(g) && n < |g.kinds| && g.kinds[n].IfFlow?
    requires thenEdge < |g.edges| && g.edges[thenEdge].src == n
    requires elseEdge.Some? ==> elseEdge.value < |g.edges| && g.edges[elseEdge.value].src == n && elseEdge.value != thenEdge
    ensures var yes := [g.edges[thenEdge].dst];
            var no := if elseEdge.Some? then [g.edges[elseEdge.value].dst] else [];
            && Siblings(g, n, yes) && Siblings(g, n, no) && Cover(g, yes) !! Cover(g, no)
            && Cover(g, yes) <= Descendants(g, n) && Cover(g, no) <= Descendants(g, n)
            && (no != [] ==> yes[0] != no[0])
  {
    hide Cover, Descendants, Siblings, Acyclic, AllHaveDirectParent, ChildrenDistinct;
    var yes := [g.edges[thenEdge].dst];
    var no := if elseEdge.Some? then [g.edges[elseEdge.value].dst] else [];
    assert HasEdge(g, n, yes[0]);
    assert elseEdge.Some? ==> HasEdge(g, n, no[0]);
    ArmsAreDirect(g, n, yes);
    ArmsAreDirect(g, n, no);
    assert ChildrenDirect(g, n);
    if elseEdge.Some? {
      ArmsDiffer(g, n, thenEdge, elseEdge.value);
    }
    CoverDisjoint(g, n, yes, no);
  }

  lemma {:induction false} DirectIndex(g: Graph, n: nat, i: nat) returns (k: nat)
    requires InRange(g) && Acyclic(g) && ChildrenDirect(g, n) && i < |g.edges| && g.edges[i].src == n
    ensures var es := DirectEdges(g, n, OutEdges(g.edges, n));
            k < |es| && es[k] == i && k < |DirectChildren(g, n)| && DirectChildren(g, n)[k] == g.edges[i].dst
  {
    var es := DirectEdges(g, n, OutEdges(g.edges, n));
    EdgeListed(g.edges, i);
    assert HasEdge(g, n, g.edges[i].dst);
    assert i in es;
    k :| 0 <= k < |es| && es[k] == i;
  }

  lemma {:induction false} UntouchedAtFirst(g: Graph, s: set<nat>)
    ensures Untouched(g, s, {}, {})
  {
  }

  lemma {:induction false} AllEmptied(g: Graph, nodes: set<nat>, edges: set<nat>)
    requires InRange(g) && Acyclic(g) && Emptied(g, Cover(g, Roots(g)), {}, {}, nodes, edges)
    ensures QueriesOnly(g) ==> forall n: nat :: n in nodes <==> n < |g.kinds|
  {
    RootsCoverAll(g);
  }

  lemma {:induction false} UntouchedApart(g: Graph, s: set<nat>, t: set<nat>, nodes: set<nat>, edges: set<nat>, nodes': set<nat>, edges': set<nat>)
    requires Untouched(g, t, nodes, edges) && Emptied(g, s, nodes, edges, nodes', edges') && s !! t
    ensures Untouched(g, t, nodes', edges')
  {
  }

  lemma {:induction false} EmptiedThen(g: Graph, s: set<nat>, t: set<nat>, n0: set<nat>, e0: set<nat>, n1: set<nat>, e1: set<nat>, n2: set<nat>, e2: set<nat>)
    requires Emptied(g, s, n0, e0, n1, e1) && Emptied(g, t, n1, e1, n2, e2)
    ensures Emptied(g, s + t, n0, e0, n2, e2)
  {
  }

  lemma {:induction false} CoverAppend(g: Graph, ns: seq<nat>, c: nat)
    ensures Cover(g, ns + [c]) == Cover(g, ns) + Subgraph(g, c)
  {
    if ns == [] {
      assert ([c])[1..] == [];
    } else {
      assert (ns + [c])[1..] == ns[1..] + [c];
      CoverAppend(g, ns[1..], c);
    }
  }

  lemma {:induction false} BuildAllAppend(g: Graph, p: nat, ns: seq<nat>, c: nat)
    requires InRange(g) && Acyclic(g) && HasEdge(g, p, c) && c < |g.kinds|
    requires forall k :: 0 <= k < |ns| ==> HasEdge(g, p, ns[k])
    ensures BuildAll(g, p, ns + [c]) ==
            match (BuildAll(g, p, ns), Build(g, c))
            case (Some(es), Some(e)) => Some(es + [e])
            case _ => None
    decreases |ns|
  {
    if ns == [] {
      assert ns + [c] == [c] && [c][1..] == [];
      if Build(g, c).Some? {
        assert [Build(g, c).value] + [] == [] + [Build(g, c).value];
      }
    } else {
      assert (ns + [c])[1..] == ns[1..] + [c];
      BuildAllAppend(g, p, ns[1..], c);
      ChildShrinks(g, p, ns[0]);
      if BuildAll(g, p, ns).Some? && Build(g, c).Some? {
        var e0, es := Build(g, ns[0]).value, BuildAll(g, p, ns[1..]).value;
        assert [e0] + (es + [Build(g, c).value]) == [e0] + es + [Build(g, c).value];
      }
    }
  }

  /** A child that cannot be compiled makes the whole list fail. */
  lemma {:induction false} BuildAllFails(g: Graph, p: nat, ns: seq<nat>, k: nat)
    requires InRange(g) && Acyclic(g) && k < |ns|
    requires forall i :: 0 <= i < |ns| ==> HasEdge(g, p, ns[i])
    requires ns[k] < |g.kinds| && Build(g, ns[k]).None?
    ensures BuildAll(g, p, ns).None?
    decreases |ns|
  {
    ChildShrinks(g, p, ns[0]);
    if k > 0 {
      BuildAllFails(g, p, ns[1..], k - 1);
    }
  }

  lemma {:induction false} PrefixDisjoint(g: Graph, p: nat, ns: seq<nat>, k: nat)
    requires InRange(g) && Acyclic(g) && AllHaveDirectParent(g)
    requires Siblings(g, p, ns) && Distinct(ns) && k < |ns|
    ensures Cover(g, ns[..k]) !! Subgraph(g, ns[k])
  {
    CoverDisjointHead(g, p, ns[k], ns[..k]);
  }

  lemma {:induction false} ChildInCover(g: Graph, ns: seq<nat>, k: nat)
    requires k < |ns|
    ensures Subgraph(g, ns[k]) <= Cover(g, ns)
  {
    forall m | m in Subgraph(g, ns[k]) ensures m in Cover(g, ns) {
      CoverMember(g, ns, m);
      assert ns[k] in ns;
    }
  }

  class QueryGraph {
    var graph: Graph
    var emptyNodes: set<nat>
    var emptyEdges: set<nat>
    var marked: seq<(nat, nat)>
    var finalized: bool

    constructor ()
      ensures graph == Graph([], [], []) && emptyNodes == {} && emptyEdges == {} && marked == [] && !finalized
    {
      graph := Graph([], [], []);
      emptyNodes, emptyEdges, marked, finalized := {}, {}, [], false;
    }

    /** The content of a node, if it is still present. */
    function NodeContent(n: nat): Option<NodeKind>
      requires n < |graph.kinds|
      reads this
    {
      if n in emptyNodes then None else Some(graph.kinds[n])
    }

    function EdgeContent(i: nat): Option<Dependency>
      requires i < |graph.edges|
      reads this
    {
      if i in emptyEdges then None else Some(graph.edges[i].dep)
    }

    method CreateNode(kind: NodeKind) returns (n: nat)
      modifies this`graph
      ensures n == |old(graph.kinds)| && graph == old(graph).(kinds := old(graph).kinds + [kind])
    {
      n := |graph.kinds|;
      graph := graph.(kinds := graph.kinds + [kind]);
    }

    method AddResultNode(n: nat)
      modifies this`graph
      ensures graph == old(graph).(results := old(graph).results + [n])
    {
      graph := graph.(results := graph.results + [n]);
    }

    /** Adds the edge, then checks it; a refused edge stays in the graph. */
    method CreateEdge(from: nat, to: nat, dep: Dependency) returns (ok: bool)
      modifies this`graph
      ensures graph == old(graph).(edges := old(graph).edges + [Edge(from, to, dep)])
      ensures ok <==> GraphSwap.CreateEdge(old(graph), Edge(from, to, dep)).Some?
      ensures ok ==> GraphSwap.CreateEdge(old(graph), Edge(from, to, dep)).value == graph
    {
      graph := graph.(edges := graph.edges + [Edge(from, to, dep)]);
      ok := true;
      if from < |graph.kinds| && graph.kinds[from].IfFlow? {
        ok := (dep.Then? || dep.Else?) && |OutEdges(graph.edges, from)| <= 2;
      }
      ok := ok && from != to;
    }

    method RemoveEdge(i: nat) returns (dep: Dependency)
      requires i < |graph.edges|
      modifies this`graph
      ensures graph == GraphSwap.RemoveEdge(old(graph), i) && dep == old(graph.edges[i].dep)
    {
      dep := graph.edges[i].dep;
      var last := |graph.edges| - 1;
      graph := graph.(edges := graph.edges[i := graph.edges[last]][..last]);
    }

    method MarkNodes(parent: nat, child: nat)
      modifies this`marked
      ensures marked == old(marked) + [(parent, child)]
    {
      marked := marked + [(parent, child)];
    }

    /** Connects the parents of `x` to `y`, re-reading the graph for each edge index collected before. */
    method ConnectParents(incoming: seq<nat>, y: nat) returns (ok: bool)
      modifies this`graph
      ensures ok <==> SwapParents(old(graph), incoming, y).Some?
      ensures ok ==> graph == SwapParents(old(graph), incoming, y).value
    {
      var k := 0;
      while k < |incoming|
        invariant k <= |incoming|
        invariant SwapParents(old(graph), incoming, y) == SwapParents(graph, incoming[k..], y)
      {
        assert incoming[k..][0] == incoming[k] && incoming[k..][1..] == incoming[k + 1..];
        if incoming[k] >= |graph.edges| {
          return false;
        }
        var e := graph.edges[incoming[k]];
        if IsFlow(graph, e.src) {
          var dep := RemoveEdge(incoming[k]);
          ok := CreateEdge(e.src, y, dep);
        } else {
          ok := CreateEdge(e.src, y, ExecutionOrder);
        }
        if !ok {
          return false;
        }
        k := k + 1;
      }
      assert incoming[k..] == [];
      ok := true;
    }

    method SwapPair(x: nat, y: nat) returns (ok: bool)
      modifies this`graph
      ensures ok <==> Swap(old(graph), x, y).Some?
      ensures ok ==> graph == Swap(old(graph), x, y).value
    {
      ok := ConnectParents(InEdges(graph.edges, x), y);
      if ok {
        var existing := FindEdge(graph.edges, x, y);
        if existing.Some? {
          var dep := RemoveEdge(existing.value);
          ok := CreateEdge(y, x, dep);
        }
      }
    }

    /** Swaps all marked pairs, last marked first. */
    method SwapMarked() returns (ok: bool)
      modifies this`graph, this`marked
      ensures marked == []
      ensures ok <==> SwapAll(old(graph), Reversed(old(marked))).Some?
      ensures ok ==> graph == SwapAll(old(graph), Reversed(old(marked))).value
    {
      var pairs := Reversed(marked);
      marked := [];
      var k := 0;
      while k < |pairs|
        invariant k <= |pairs| && marked == []
        invariant SwapAll(old(graph), pairs) == SwapAll(graph, pairs[k..])
      {
        assert pairs[k..][0] == pairs[k] && pairs[k..][1..] == pairs[k + 1..];
        ok := SwapPair(pairs[k].0, pairs[k].1);
        if !ok {
          return false;
        }
        k := k + 1;
      }
      assert pairs[k..] == [];
      ok := true;
    }

    method Finalize() returns (ok: bool)
      modifies this`graph, this`marked, this`finalized
      ensures old(finalized) ==> ok && graph == old(graph)
      ensures !old(finalized) ==>
                && (ok <==> SwapAll(old(graph), Reversed(old(marked))).Some?)
                && (ok ==> finalized && graph == SwapAll(old(graph), Reversed(old(marked))).value)
      // a graph whose marks can be processed top-down comes out with all invariants and all pairs reversed
      ensures !old(finalized) && Sound(old(graph)) && TopDown(old(graph), [], Reversed(old(marked))) && Fresh(old(graph), Reversed(old(marked))) ==>
                ok && Sound(graph) && AllReversed(graph, Reversed(old(marked)))
    {
      ok := true;
      if !finalized {
        if Sound(graph) && TopDown(graph, [], Reversed(marked)) && Fresh(graph, Reversed(marked)) {
          SwapAllTopDown(graph, Reversed(marked));
        }
        ok := SwapMarked();
        if ok {
          finalized := true;
        }
      }
    }

    // ----- compilation -----

    /** Takes a node's content out; taking it twice is a logic error. */
    method PluckNode(n: nat) returns (kind: NodeKind)
      requires n < |graph.kinds| && NodeContent(n).Some?
      modifies this`emptyNodes
      ensures emptyNodes == old(emptyNodes) + {n} && kind == graph.kinds[n]
    {
      kind := NodeContent(n).value;
      emptyNodes := emptyNodes + {n};
    }

    method PluckEdge(i: nat) returns (dep: Dependency)
      requires i < |graph.edges| && EdgeContent(i).Some?
      modifies this`emptyEdges
      ensures emptyEdges == old(emptyEdges) + {i} && dep == graph.edges[i].dep
    {
      dep := EdgeContent(i).value;
      emptyEdges := emptyEdges + {i};
    }

    method CollectParentTransformers(parentEdges: seq<nat>) returns (deps: seq<ParentDep>)
      requires Ascending(parentEdges)
      requires forall k :: 0 <= k < |parentEdges| ==> parentEdges[k] < |graph.edges| && parentEdges[k] !in emptyEdges
      modifies this`emptyEdges
      ensures deps == ParentDeps(graph, parentEdges)
      ensures emptyEdges == old(emptyEdges) + set i | i in parentEdges
    {
      deps := [];
      var k := 0;
      while k < |parentEdges|
        invariant k <= |parentEdges|
        invariant deps == ParentDeps(graph, parentEdges[..k])
        invariant emptyEdges == old(emptyEdges) + set i | i in parentEdges[..k]
      {
        var i := parentEdges[k];
        assert i !in parentEdges[..k];
        assert parentEdges[..k + 1][..k] == parentEdges[..k];
        var dep := PluckEdge(i);
        if dep.ParentIds? {
          deps := deps + [ParentDep(graph.edges[i].src, dep.f)];
        }
        k := k + 1;
      }
      assert parentEdges[..k] == parentEdges;
    }

    method TransformNode(n: nat, parentEdges: seq<nat>, target: Target) returns (e: Expr)
      requires parentEdges == InEdges(graph.edges, n) && !target.AsIf?
      requires EdgesInto(graph, {n}) !! emptyEdges
      modifies this`emptyEdges
      ensures e == Transform(graph, n, target)
      ensures emptyEdges == old(emptyEdges) + EdgesInto(graph, {n})
    {
      EdgesAscending(graph.edges, n);
      forall k | 0 <= k < |parentEdges| ensures parentEdges[k] !in emptyEdges {
        assert parentEdges[k] in EdgesInto(graph, {n});
      }
      var deps := CollectParentTransformers(parentEdges);
      forall i | i in EdgesInto(graph, {n}) ensures i in parentEdges {
        EdgeListed(graph.edges, i);
      }
      assert (set i | i in parentEdges) == EdgesInto(graph, {n});
      if deps != [] {
        e := Func(n, deps, target);
      } else if target.AsSequence? {
        e := Sequence(target.exprs);
      } else {
        e := RunQuery(n);
      }
    }

    /** Compiles the siblings `ns` under `p` one after the other. */
    method BuildChildren(p: nat, ns: seq<nat>) returns (es: Option<seq<Expr>>)
      requires Compilable(graph) && Siblings(graph, p, ns) && Distinct(ns)
      requires Untouched(graph, Cover(graph, ns), emptyNodes, emptyEdges)
      modifies this`emptyNodes, this`emptyEdges
      ensures es == BuildAll(graph, p, ns)
      ensures es.Some? ==> Emptied(graph, Cover(graph, ns), old(emptyNodes), old(emptyEdges), emptyNodes, emptyEdges)
      decreases |Descendants(graph, p)|, 0, 0
    {
      hide Emptied, Untouched, Cover, Subgraph, Descendants, EdgesInto, HasEdge, Distinct, DirectChildren, Build, InEdges;
      var built: seq<Expr> := [];
      var k := 0;
      EmptiedNothing(graph, emptyNodes, emptyEdges);
      assert ns[..0] == [];
      assert Siblings(graph, p, ns) ==> forall i :: 0 <= i < |ns| ==> HasEdge(graph, p, ns[i]);
      while k < |ns|
        invariant k <= |ns|
        invariant BuildAll(graph, p, ns[..k]) == Some(built)
        invariant Emptied(graph, Cover(graph, ns[..k]), old(emptyNodes), old(emptyEdges), emptyNodes, emptyEdges)
      {
        var c := ns[k];
        ChildShrinks(graph, p, c);
        UntouchedChild(graph, ns, k, old(emptyNodes), old(emptyEdges));
        PrefixDisjoint(graph, p, ns, k);
        UntouchedApart(graph, Cover(graph, ns[..k]), Subgraph(graph, c), old(emptyNodes), old(emptyEdges), emptyNodes, emptyEdges);
        ghost var nodes, edges := emptyNodes, emptyEdges;
        var e := BuildExpression(c, InEdges(graph.edges, c));
        if e.None? {
          BuildAllFails(graph, p, ns, k);
          return None;
        }
        BuildAllAppend(graph, p, ns[..k], c);
        CoverAppend(graph, ns[..k], c);
        assert ns[..k + 1] == ns[..k] + [c];
        EmptiedThen(graph, Cover(graph, ns[..k]), Subgraph(graph, c), old(emptyNodes), old(emptyEdges), nodes, edges, emptyNodes, emptyEdges);
        built := built + [e.value];
        k := k + 1;
      }
      assert ns[..k] == ns;
      es := Some(built);
    }

    method BuildExpression(n: nat, parentEdges: seq<nat>) returns (e: Option<Expr>)
      requires Compilable(graph) && n < |graph.kinds| && parentEdges == InEdges(graph.edges, n)
      requires Untouched(graph, Subgraph(graph, n), emptyNodes, emptyEdges)
      modifies this`emptyNodes, this`emptyEdges
      ensures e == Build(graph, n)
      ensures e.Some? ==> Emptied(graph, Subgraph(graph, n), old(emptyNodes), old(emptyEdges), emptyNodes, emptyEdges)
      decreases |Descendants(graph, n)|, 2
    {
      assert n in Subgraph(graph, n);
      match NodeContent(n).value {
        case Query => e := BuildQueryExpression(n, parentEdges);
        case EmptyFlow => e := BuildEmptyFlowExpression(n, parentEdges);
        case IfFlow => e := BuildIfFlowExpression(n, parentEdges);
      }
    }

    method BuildQueryExpression(n: nat, parentEdges: seq<nat>) returns (e: Option<Expr>)
      requires Compilable(graph) && n < |graph.kinds| && parentEdges == InEdges(graph.edges, n)
      requires Untouched(graph, Subgraph(graph, n), emptyNodes, emptyEdges)
      modifies this`emptyNodes, this`emptyEdges
      ensures e == BuildQuery(graph, n)
      ensures e.Some? ==> Emptied(graph, Subgraph(graph, n), old(emptyNodes), old(emptyEdges), emptyNodes, emptyEdges)
      decreases |Descendants(graph, n)|, 1
    {
      hide Emptied, Distinct, DirectChildren, RemoveEach, ResultPositions;
      var kids := DirectChildren(graph, n);
      var split := RemoveResultChildren(kids, ResultPositions(graph, kids));
      if split.None? {
        return None;
      }
      var (res, rest) := split.value;
      assert SplitChildren(graph, n) == split;
      SplitSiblings(graph, n);
      CoverOfSplit(graph, n, kids, rest, res);
      CoverDisjoint(graph, n, rest, res);
      ghost var n0, e0 := emptyNodes, emptyEdges;
      var plain := BuildChildren(n, rest);
      if plain.None? {
        return None;
      }
      ghost var n1, e1 := emptyNodes, emptyEdges;
      UntouchedApart(graph, Cover(graph, rest), Cover(graph, res), n0, e0, n1, e1);
      var scoped := BuildChildren(n, res);
      if scoped.None? {
        return None;
      }
      EmptiedThen(graph, Cover(graph, rest), Cover(graph, res), n0, e0, n1, e1, emptyNodes, emptyEdges);
      UntouchedApart(graph, Descendants(graph, n), {n}, n0, e0, emptyNodes, emptyEdges);
      var body := plain.value + ResultScope(res, scoped.value);
      var isResult := IsResult(graph, n);
      ghost var n2, e2 := emptyNodes, emptyEdges;
      var kind := PluckNode(n);
      var own := TransformNode(n, parentEdges, AsQuery);
      EmptiedThen(graph, Descendants(graph, n), {n}, n0, e0, n2, e2, emptyNodes, emptyEdges);
      if body == [] {
        e := Some(own);
      } else {
        e := Some(Let([Binding(n, own)], body + if isResult then [Get(n)] else []));
      }
    }

    method BuildEmptyFlowExpression(n: nat, parentEdges: seq<nat>) returns (e: Option<Expr>)
      requires Compilable(graph) && n < |graph.kinds| && parentEdges == InEdges(graph.edges, n)
      requires graph.kinds[n].EmptyFlow?
      requires Untouched(graph, Subgraph(graph, n), emptyNodes, emptyEdges)
      modifies this`emptyNodes, this`emptyEdges
      ensures e == BuildEmptyFlow(graph, n)
      ensures e.Some? ==> Emptied(graph, Subgraph(graph, n), old(emptyNodes), old(emptyEdges), emptyNodes, emptyEdges)
      decreases |Descendants(graph, n)|, 1
    {
      ghost var n0, e0 := emptyNodes, emptyEdges;
      assert n in Subgraph(graph, n);
      UntouchedBelow(graph, n, n0, e0);
      var flow := PluckNode(n);
      var kids := DirectChildren(graph, n);
      ChildrenCover(graph, n, kids);
      SiblingsOf(graph, n);
      var es := BuildChildren(n, kids);
      if es.None? {
        return None;
      }
      EdgesIntoKept(graph, n, Descendants(graph, n), n0, e0, emptyNodes, emptyEdges);
      FlowEmptied(graph, n, Descendants(graph, n), n0, e0, emptyNodes, emptyEdges, EdgesInto(graph, {n}));
      var own := TransformNode(n, parentEdges, AsSequence(es.value));
      e := Some(own);
    }

    method BuildIfFlowExpression(n: nat, parentEdges: seq<nat>) returns (e: Option<Expr>)
      requires Compilable(graph) && n < |graph.kinds| && parentEdges == InEdges(graph.edges, n)
      requires graph.kinds[n].IfFlow?
      requires Untouched(graph, Subgraph(graph, n), emptyNodes, emptyEdges)
      modifies this`emptyNodes, this`emptyEdges
      ensures e == BuildIfFlow(graph, n)
      ensures e.Some? ==> Emptied(graph, Subgraph(graph, n), old(emptyNodes), old(emptyEdges), emptyNodes, emptyEdges)
      decreases |Descendants(graph, n)|, 1
    {
      hide Emptied, Untouched, Cover, Descendants, Subgraph, EdgesInto, DirectChildren, Build, OutEdges, InEdges;
      ghost var n0, e0 := emptyNodes, emptyEdges;
      UntouchedBelow(graph, n, n0, e0);
      var flow := PluckNode(n);
      var out := OutEdges(graph.edges, n);
      if !OnlyThenElse(graph, out) || parentEdges == [] {
        return None;
      }
      var thenEdge, elseEdge := LastWith(graph, out, Then), LastWith(graph, out, Else);
      if thenEdge.None? {
        return None;
      }
      var yes := [graph.edges[thenEdge.value].dst];
      var no := if elseEdge.Some? then [graph.edges[elseEdge.value].dst] else [];
      ArmsReady(graph, n, thenEdge.value, elseEdge);
      var thenExprs, elseExprs := BuildArms(n, yes, no);
      if thenExprs.None? || elseExprs.None? {
        return None;
      }
      EdgesIntoKept(graph, n, Cover(graph, yes) + Cover(graph, no), n0, e0, emptyNodes, emptyEdges);
      var p := parentEdges[|parentEdges| - 1];
      LastParentEdge(graph, n);
      FlowEmptied(graph, n, Cover(graph, yes) + Cover(graph, no), n0, e0, emptyNodes, emptyEdges, {p});
      var dep := PluckEdge(p);
      if !dep.ParentIds? {
        return None;
      }
      e := Some(Func(n, [ParentDep(graph.edges[p].src, dep.f)], AsIf(thenExprs.value[0], elseExprs.value)));
    }

    /** Compiles the whole graph; in a graph of queries every node's content is taken out, once. */
    method Translate() returns (e: Option<Expr>)
      requires Compilable(graph) && emptyNodes == {} && emptyEdges == {}
      modifies this`emptyNodes, this`emptyEdges
      ensures e == Expressionista.Translate(graph)
      ensures e.Some? && QueriesOnly(graph) ==> forall n: nat :: n in emptyNodes <==> n < |graph.kinds|
    {
      hide Emptied, Untouched, Cover, Subgraph, EdgesInto, DirectChildren, Build, IsRoot;
      var roots := Roots(graph);
      var built: seq<Expr> := [];
      var k := 0;
      EmptiedNothing(graph, emptyNodes, emptyEdges);
      assert roots[..0] == [];
      while k < |roots|
        invariant k <= |roots|
        invariant BuildRoots(graph, roots[..k]) == Some(built)
        invariant Emptied(graph, Cover(graph, roots[..k]), {}, {}, emptyNodes, emptyEdges)
      {
        var r := roots[k];
        RootPrefixDisjoint(graph, k);
        UntouchedAtFirst(graph, Subgraph(graph, r));
        UntouchedApart(graph, Cover(graph, roots[..k]), Subgraph(graph, r), {}, {}, emptyNodes, emptyEdges);
        ghost var nodes, edges := emptyNodes, emptyEdges;
        var x := BuildExpression(r, InEdges(graph.edges, r));
        if x.None? {
          BuildRootsFails(graph, roots, k);
          return None;
        }
        BuildRootsAppend(graph, roots[..k], r);
        CoverAppend(graph, roots[..k], r);
        assert roots[..k + 1] == roots[..k] + [r];
        EmptiedThen(graph, Cover(graph, roots[..k]), Subgraph(graph, r), {}, {}, nodes, edges, emptyNodes, emptyEdges);
        built := built + [x.value];
        k := k + 1;
      }
      assert roots[..k] == roots;
      AllEmptied(graph, emptyNodes, emptyEdges);
      e := Some(Sequence(built));
    }

    /** Both arms of an `If`, the second only if the first could be compiled. */
    method BuildArms(n: nat, yes: seq<nat>, no: seq<nat>) returns (thenExprs: Option<seq<Expr>>, elseExprs: Option<seq<Expr>>)
      requires Compilable(graph) && Siblings(graph, n, yes) && Distinct(yes) && Siblings(graph, n, no) && Distinct(no)
      requires Cover(graph, yes) !! Cover(graph, no)
      requires Cover(graph, yes) + Cover(graph, no) <= Descendants(graph, n)
      requires Untouched(graph, Descendants(graph, n), emptyNodes, emptyEdges)
      modifies this`emptyNodes, this`emptyEdges
      ensures thenExprs == BuildAll(graph, n, yes)
      ensures thenExprs.Some? ==> elseExprs == BuildAll(graph, n, no)
      ensures thenExprs.Some? && elseExprs.Some? ==>
                Emptied(graph, Cover(graph, yes) + Cover(graph, no), old(emptyNodes), old(emptyEdges), emptyNodes, emptyEdges)
      decreases |Descendants(graph, n)|, 0, 1
    {
      ghost var n0, e0 := emptyNodes, emptyEdges;
      UntouchedPart(graph, Descendants(graph, n), Cover(graph, yes), n0, e0);
      UntouchedPart(graph, Descendants(graph, n), Cover(graph, no), n0, e0);
      thenExprs := BuildChildren(n, yes);
      if thenExprs.None? {
        elseExprs := None;
        return;
      }
      ghost var n1, e1 := emptyNodes, emptyEdges;
      UntouchedApart(graph, Cover(graph, yes), Cover(graph, no), n0, e0, n1, e1);
      elseExprs := BuildChildren(n, no);
      if elseExprs.Some? {
        EmptiedThen(graph, Cover(graph, yes), Cover(graph, no), n0, e0, n1, e1, emptyNodes, emptyEdges);
      }
    }
  }

  lemma {:induction false} BuildRootsAppend(g: Graph, rs: seq<nat>, r: nat)
    requires InRange(g) && Acyclic(g) && r < |g.kinds| && forall k :: 0 <= k < |rs| ==> rs[k] < |g.kinds|
    ensures BuildRoots(g, rs + [r]) ==
            match (BuildRoots(g, rs), Build(g, r))
            case (Some(es), Some(e)) => Some(es + [e])
            case _ => None
  {
    hide Build;
    if rs == [] {
      assert rs + [r] == [r] && [r][1..] == [];
      if Build(g, r).Some? {
        assert [Build(g, r).value] + [] == [] + [Build(g, r).value];
      }
    } else {
      assert (rs + [r])[1..] == rs[1..] + [r];
      BuildRootsAppend(g, rs[1..], r);
      if BuildRoots(g, rs).Some? && Build(g, r).Some? {
        var e0, es := Build(g, rs[0]).value, BuildRoots(g, rs[1..]).value;
        assert [e0] + (es + [Build(g, r).value]) == [e0] + es + [Build(g, r).value];
      }
    }
  }

  lemma {:induction false} BuildRootsFails(g: Graph, rs: seq<nat>, k: nat)
    requires InRange(g) && Acyclic(g) && k < |rs| && forall k :: 0 <= k < |rs| ==> rs[k] < |g.kinds|
    requires Build(g, rs[k]).None?
    ensures BuildRoots(g, rs).None?
  {
    hide Build, Acyclic, InRange;
    if k > 0 {
      assert rs[1..][k - 1] == rs[k];
      BuildRootsFails(g, rs[1..], k - 1);
    }
  }

  lemma {:induction false} RootPrefixDisjoint(g: Graph, k: nat)
    requires InRange(g) && Acyclic(g) && AllHaveDirectParent(g) && k < |Roots(g)|
    ensures Cover(g, Roots(g)[..k]) !! Subgraph(g, Roots(g)[k])
  {
    RootsAscending(g, |g.kinds|);
    RootCoverDisjoint(g, Roots(g)[k], Roots(g)[..k]);
  }

  lemma {:induction false} RootsCoverAll(g: Graph)
    requires InRange(g) && Acyclic(g)
    ensures forall n: nat :: n in Cover(g, Roots(g)) <==> n < |g.kinds|
  {
    forall n: nat ensures n in Cover(g, Roots(g)) <==> n < |g.kinds| {
      CoverMember(g, Roots(g), n);
      if n < |g.kinds| {
        var r := UnderSomeRoot(g, n);
      }
    }
  }

  lemma {:induction false} LastParentEdge(g: Graph, n: nat)
    requires InEdges(g.edges, n) != []
    ensures InEdges(g.edges, n)[|InEdges(g.edges, n)| - 1] in EdgesInto(g, {n})
  {
  }

  lemma {:induction false} SiblingsOf(g: Graph, n: nat)
    requires InRange(g) && Acyclic(g) && ChildrenDistinct(g)
    ensures Siblings(g, n, DirectChildren(g, n)) && Distinct(DirectChildren(g, n))
  {
    var kids := DirectChildren(g, n);
    forall k | 0 <= k < |kids| ensures IsDirectParent(g, n, kids[k]) {
      assert kids[k] in kids;
    }
  }

  function Reversed(pairs: seq<(nat, nat)>): (r: seq<(nat, nat)>)
    ensures |r| == |pairs| && forall k :: 0 <= k < |r| ==> r[k] == pairs[|pairs| - 1 - k]
  {
    seq(|pairs|, k requires 0 <= k < |pairs| => pairs[|pairs| - 1 - k])
  }

  /**
   From marking to execution: once the marked pairs of a sound graph have been swapped
   top-down and the graph compiled, a marked parent never runs before its marked child.
   */
  lemma {:induction false} MarkedChildrenRunFirst(w: World, g: Graph, pairs: seq<(nat, nat)>, g': Graph, k: nat, i: nat)
    requires Sound(g) && TopDown(g, [], pairs) && Fresh(g, pairs) && SwapAll(g, pairs) == Some(g') && k < |pairs|
    requires InRange(g') && Acyclic(g') && Expressionista.Translate(g').Some?
    ensures var o := Interpret(w, Expressionista.Translate(g').value, map[], []);
            i < |Trace([], o)| && Trace([], o)[i] == pairs[k].0 ==> pairs[k].1 in Trace([], o)[..i]
  {
    hide SwapAll, Expressionista.Translate, Hangs;
    SwapAllTopDown(g, pairs);
    KindsKept(g, pairs);
    MarkedAreQueries(g, pairs, k);
    AncestorRunsFirst(w, g', pairs[k].0, pairs[k].1, i);
  }

  lemma {:induction false} MarkedAreQueries(g: Graph, pairs: seq<(nat, nat)>, k: nat)
    requires TopDown(g, [], pairs) && k < |pairs|
    ensures pairs[k].1 < |g.kinds| && g.kinds[pairs[k].1].Query?
  {
  }

  lemma {:induction false} KindsKept(g: Graph, pairs: seq<(nat, nat)>)
    requires SwapAll(g, pairs).Some?
    ensures SwapAll(g, pairs).value.kinds == g.kinds
    decreases |pairs|
  {
    if pairs != [] {
      SwapKeepsKinds(g, pairs[0].0, pairs[0].1);
      KindsKept(Swap(g, pairs[0].0, pairs[0].1).value, pairs[1..]);
    }
  }

  lemma {:induction false} SwapKeepsKinds(g: Graph, x: nat, y: nat)
    requires Swap(g, x, y).Some?
    ensures Swap(g, x, y).value.kinds == g.kinds
  {
    ParentsKeepKinds(g, InEdges(g.edges, x), y);
  }

  lemma {:induction false} ParentsKeepKinds(g: Graph, incoming: seq<nat>, y: nat)
    requires SwapParents(g, incoming, y).Some?
    ensures SwapParents(g, incoming, y).value.kinds == g.kinds
    decreases |incoming|
  {
    if incoming != [] {
      var e := g.edges[incoming[0]];
      if IsFlow(g, e.src) {
        ParentsKeepKinds(GraphSwap.CreateEdge(GraphSwap.RemoveEdge(g, incoming[0]), Edge(e.src, y, e.dep)).value, incoming[1..], y);
      } else {
        ParentsKeepKinds(GraphSwap.CreateEdge(g, Edge(e.src, y, ExecutionOrder)).value, incoming[1..], y);
      }
    }
  }
}
