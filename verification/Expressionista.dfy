/**
 Compilation of a query graph to an expression, as a function of the graph, and the
 properties of running the compiled program.  `None` stands for a panic of the
 compiler: an out-of-range removal, an `If` node without the edges it needs.
 */
module Expressionista {
  import opened Wrappers
  import opened QueryGraphs
  import opened Interpreter

  // ----- children in edge order -----

  /** The edges among `out` (outgoing edges of `n`) that lead to direct children of `n`. */
  function DirectEdges(g: Graph, n: nat, out: seq<nat>): (r: seq<nat>)
    requires InRange(g) && Acyclic(g)
    requires forall k :: 0 <= k < |out| ==> out[k] < |g.edges| && g.edges[out[k]].src == n
    ensures forall i :: i in r <==> i in out && IsDirectChild(g, n, g.edges[i].dst)
  {
    if out == [] then []
    else
      var last := |out| - 1;
      var r := DirectEdges(g, n, out[..last]);
      assert out == out[..last] + [out[last]];
      if IsDirectChild(g, n, g.edges[out[last]].dst) then r + [out[last]] else r
  }

  lemma {:induction false} DirectEdgesAscending(g: Graph, n: nat, out: seq<nat>)
    requires InRange(g) && Acyclic(g)
    requires forall k :: 0 <= k < |out| ==> out[k] < |g.edges| && g.edges[out[k]].src == n
    requires Ascending(out)
    ensures Ascending(DirectEdges(g, n, out))
  {
    if out != [] {
      var last := |out| - 1;
      DirectEdgesAscending(g, n, out[..last]);
      var r := DirectEdges(g, n, out[..last]);
      forall k | 0 <= k < |r| ensures r[k] < out[last] {
        assert r[k] in r;
      }
    }
  }

  function Targets(g: Graph, es: seq<nat>): (r: seq<nat>)
    requires forall k :: 0 <= k < |es| ==> es[k] < |g.edges|
    ensures |r| == |es| && forall k :: 0 <= k < |es| ==> r[k] == g.edges[es[k]].dst
  {
    seq(|es|, k requires 0 <= k < |es| => g.edges[es[k]].dst)
  }

  function DirectChildren(g: Graph, n: nat): (r: seq<nat>)
    requires InRange(g) && Acyclic(g)
    ensures forall c :: c in r <==> IsDirectParent(g, n, c)
  {
    var out := OutEdges(g.edges, n);
    var es := DirectEdges(g, n, out);
    assert forall k :: 0 <= k < |es| ==> es[k] in out;
    var r := Targets(g, es);
    assert forall c :: c in r ==> IsDirectParent(g, n, c) by {
      forall c | c in r ensures IsDirectParent(g, n, c) {
        var k :| 0 <= k < |r| && r[k] == c;
        assert es[k] in es;
      }
    }
    assert forall c :: IsDirectParent(g, n, c) ==> c in r by {
      forall c | IsDirectParent(g, n, c) ensures c in r {
        var i :| 0 <= i < |g.edges| && g.edges[i].src == n && g.edges[i].dst == c;
        EdgeListed(g.edges, i);
        assert i in es;
        var k :| 0 <= k < |es| && es[k] == i;
        assert r[k] == c;
      }
    }
    r
  }

  // ----- splitting off the children that hold a result -----

  /** Removes the elements at the given positions one after the other, each from what is left. */
  function RemoveEach(xs: seq<nat>, ps: seq<nat>): Option<(seq<nat>, seq<nat>)> {
    if ps == [] then Some(([], xs))
    else if ps[0] >= |xs| then None
    else
      var (removed, rest) :- RemoveEach(xs[..ps[0]] + xs[ps[0] + 1..], ps[1..]);
      Some(([xs[ps[0]]] + removed, rest))
  }

  function ResultPositions(g: Graph, kids: seq<nat>): (ps: seq<nat>)
    requires InRange(g) && Acyclic(g)
    ensures forall k :: 0 <= k < |ps| ==> ps[k] < |kids| && ContainsResult(g, kids[ps[k]])
  {
    if kids == [] then []
    else
      var last := |kids| - 1;
      var ps := ResultPositions(g, kids[..last]);
      if ContainsResult(g, kids[last]) then ps + [last] else ps
  }

  lemma {:induction false} ResultListed(g: Graph, kids: seq<nat>, i: nat)
    requires InRange(g) && Acyclic(g) && i < |kids| && ContainsResult(g, kids[i])
    ensures i in ResultPositions(g, kids)
  {
    if i < |kids| - 1 {
      ResultListed(g, kids[..|kids| - 1], i);
    }
  }

  lemma {:induction false} ResultPositionsAscending(g: Graph, kids: seq<nat>)
    requires InRange(g) && Acyclic(g)
    ensures Ascending(ResultPositions(g, kids))
  {
    if kids != [] {
      ResultPositionsAscending(g, kids[..|kids| - 1]);
    }
  }

  /** Removal neither loses nor duplicates an element. */
  lemma {:induction false} RemoveEachPartitions(xs: seq<nat>, ps: seq<nat>)
    requires RemoveEach(xs, ps).Some?
    ensures var (removed, rest) := RemoveEach(xs, ps).value;
            && |removed| == |ps|
            && multiset(removed) + multiset(rest) == multiset(xs)
  {
    if ps != [] {
      var p := ps[0];
      var left := xs[..p] + xs[p + 1..];
      RemoveEachPartitions(left, ps[1..]);
      var (removed, rest) := RemoveEach(left, ps[1..]).value;
      calc {
        multiset([xs[p]] + removed) + multiset(rest);
        multiset([xs[p]]) + (multiset(removed) + multiset(rest));
        multiset([xs[p]]) + multiset(left);
        { assert xs == xs[..p] + [xs[p]] + xs[p + 1..]; }
        multiset(xs);
      }
    }
  }

  lemma {:induction false} RemoveEachHead(xs: seq<nat>, ps: seq<nat>)
    requires RemoveEach(xs, ps).Some?
    ensures var (removed, rest) := RemoveEach(xs, ps).value;
            if ps == [] then removed == [] && rest == xs
            else removed != [] && ps[0] < |xs| && removed[0] == xs[ps[0]]
  {
  }

  /**
   What the removal in ascending order really takes out: each removal shifts the later
   elements, so the i-th position yields the element `i` places further right, and the
   removal panics as soon as that place lies outside the list.
   */
  lemma {:induction false} RemoveEachShifts(xs: seq<nat>, ps: seq<nat>)
    requires forall k :: 0 <= k < |ps| ==> ps[k] < |xs|
    requires Ascending(ps)
    ensures RemoveEach(xs, ps).Some? <==> ps == [] || ps[|ps| - 1] + |ps| - 1 < |xs|
    ensures RemoveEach(xs, ps).Some? ==>
              var (removed, _) := RemoveEach(xs, ps).value;
              && |removed| == |ps|
              && forall i :: 0 <= i < |ps| ==> ps[i] + i < |xs| && removed[i] == xs[ps[i] + i]
  {
    RemoveEachFrom(xs, xs, ps, 0);
  }

  /** `ys` is `xs` after `shift` removals, all to the left of what `ps` still removes. */
  lemma {:induction false} RemoveEachFrom(xs: seq<nat>, ys: seq<nat>, ps: seq<nat>, shift: nat)
    requires |ys| + shift == |xs|
    requires forall k :: 0 <= k < |ps| ==> ps[k] < |xs|
    requires Ascending(ps)
    requires ps != [] ==> forall i :: ps[0] <= i < |ys| ==> ys[i] == xs[i + shift]
    ensures RemoveEach(ys, ps).Some? <==> ps == [] || ps[|ps| - 1] + |ps| - 1 < |ys|
    ensures RemoveEach(ys, ps).Some? ==>
              var (removed, _) := RemoveEach(ys, ps).value;
              && |removed| == |ps|
              && forall i :: 0 <= i < |ps| ==> ps[i] + i + shift < |xs| && removed[i] == xs[ps[i] + i + shift]
    decreases |ps|
  {
    if ps != [] {
      PositionsGrow(ps, |ps| - 1);
      if ps[0] < |ys| {
        var zs := ys[..ps[0]] + ys[ps[0] + 1..];
        var qs := ps[1..];
        RemoveEachFrom(xs, zs, qs, shift + 1);
        if RemoveEach(ys, ps).Some? {
          var removed := RemoveEach(ys, ps).value.0;
          forall i | 0 <= i < |ps|
            ensures ps[i] + i + shift < |xs| && removed[i] == xs[ps[i] + i + shift]
          {
            if i > 0 {
              assert ps[i] == qs[i - 1];
            }
          }
        }
      }
    }
  }

  lemma {:induction false} PositionsGrow(ps: seq<nat>, k: nat)
    requires Ascending(ps)
    requires k < |ps|
    ensures ps[0] + k <= ps[k]
  {
    if k > 0 {
      PositionsGrow(ps, k - 1);
    }
  }

  /** The removal panics exactly when its last position, shifted, lies outside the list. */
  lemma {:induction false} RemoveEachFits(xs: seq<nat>, ps: seq<nat>)
    requires forall k :: 0 <= k < |ps| ==> ps[k] < |xs|
    requires Ascending(ps)
    ensures RemoveEach(xs, ps).Some? <==> Fits(|xs|, ps)
  {
    RemoveEachShifts(xs, ps);
  }

  predicate Fits(n: nat, ps: seq<nat>) {
    ps == [] || ps[|ps| - 1] + |ps| - 1 < n
  }

  function At(xs: seq<nat>, ps: seq<nat>): seq<nat>
    requires forall k :: 0 <= k < |ps| ==> ps[k] < |xs|
  {
    seq(|ps|, i requires 0 <= i < |ps| => xs[ps[i]])
  }

  /** The split separates the result children from the others exactly when there is at most one. */
  lemma {:induction false} SplitCorrectIffAtMostOne(xs: seq<nat>, ps: seq<nat>)
    requires forall i, j :: 0 <= i < j < |xs| ==> xs[i] != xs[j]
    requires forall k :: 0 <= k < |ps| ==> ps[k] < |xs|
    requires Ascending(ps)
    ensures |ps| <= 1 <==>
            && RemoveEach(xs, ps).Some?
            && RemoveEach(xs, ps).value.0 == At(xs, ps)
  {
    RemoveEachShifts(xs, ps);
    if |ps| > 1 && RemoveEach(xs, ps).Some? {
      var removed := RemoveEach(xs, ps).value.0;
      assert removed[1] == xs[ps[1] + 1] && xs[ps[1] + 1] != xs[ps[1]] == At(xs, ps)[1];
    }
  }

  // ----- compilation -----

  /** The parent bindings a node looks up: the sources of its incoming `ParentIds` edges, in edge order. */
  function ParentDeps(g: Graph, incoming: seq<nat>): (r: seq<ParentDep>)
    requires forall k :: 0 <= k < |incoming| ==> incoming[k] < |g.edges|
    ensures forall k :: 0 <= k < |r| ==>
              exists i :: i in incoming && g.edges[i].dep == ParentIds(r[k].f) && g.edges[i].src == r[k].parent
  {
    if incoming == [] then []
    else
      var last := |incoming| - 1;
      var r := ParentDeps(g, incoming[..last]);
      var e := g.edges[incoming[last]];
      if e.dep.ParentIds? then r + [ParentDep(e.src, e.dep.f)] else r
  }

  function Transform(g: Graph, n: nat, target: Target): Expr {
    var deps := ParentDeps(g, InEdges(g.edges, n));
    if deps != [] then Func(n, deps, target)
    else if target.AsSequence? then Sequence(target.exprs)
    else RunQuery(n)
  }

  /** The last of the given edges with dependency `dep`. */
  function LastWith(g: Graph, es: seq<nat>, dep: Dependency): (r: Option<nat>)
    requires forall k :: 0 <= k < |es| ==> es[k] < |g.edges|
    ensures r.Some? ==> r.value in es && g.edges[r.value].dep == dep
    ensures r.None? ==> forall k :: 0 <= k < |es| ==> g.edges[es[k]].dep != dep
  {
    if es == [] then None
    else
      var last := |es| - 1;
      if g.edges[es[last]].dep == dep then Some(es[last]) else LastWith(g, es[..last], dep)
  }

  predicate OnlyThenElse(g: Graph, es: seq<nat>)
    requires forall k :: 0 <= k < |es| ==> es[k] < |g.edges|
  {
    forall k :: 0 <= k < |es| ==> g.edges[es[k]].dep.Then? || g.edges[es[k]].dep.Else?
  }

  function Bindings(ns: seq<nat>, es: seq<Expr>): seq<Binding>
    requires |ns| == |es|
  {
    seq(|ns|, i requires 0 <= i < |ns| => Binding(ns[i], es[i]))
  }

  function ResultScope(res: seq<nat>, scoped: seq<Expr>): (r: seq<Expr>)
    requires |res| == |scoped|
  {
    if res == [] then []
    else [Let(Bindings(res, scoped), [GetFirstNonEmpty(res)])]
  }

  /** The expression for `n` when its children are given by `body`. */
  function QueryScope(g: Graph, n: nat, body: seq<Expr>): Expr {
    var own := Transform(g, n, AsQuery);
    if body == [] then own
    else Let([Binding(n, own)], body + if IsResult(g, n) then [Get(n)] else [])
  }

  lemma {:induction false} ChildShrinks(g: Graph, n: nat, c: nat)
    requires InRange(g) && Acyclic(g) && HasEdge(g, n, c)
    ensures c < |g.kinds|
    ensures |Descendants(g, c)| < |Descendants(g, n)|
  {
    EdgeReaches(g, n, c);
    DescendantsShrink(g, n, c);
    ReachesInRange(g, n, c);
  }

  lemma {:induction false} RemovedAreChildren(g: Graph, n: nat, kids: seq<nat>, ps: seq<nat>)
    requires RemoveEach(kids, ps).Some?
    requires forall k :: 0 <= k < |kids| ==> HasEdge(g, n, kids[k])
    ensures var (res, rest) := RemoveEach(kids, ps).value;
            && (forall k :: 0 <= k < |res| ==> HasEdge(g, n, res[k]))
            && (forall k :: 0 <= k < |rest| ==> HasEdge(g, n, rest[k]))
  {
    RemoveEachPartitions(kids, ps);
    var (res, rest) := RemoveEach(kids, ps).value;
    forall k | 0 <= k < |res| ensures HasEdge(g, n, res[k]) {
      assert res[k] in multiset(kids);
    }
    forall k | 0 <= k < |rest| ensures HasEdge(g, n, rest[k]) {
      assert rest[k] in multiset(kids);
    }
  }

  /** The direct children of a query: those taken out as result scopes, and the rest. */
  function SplitChildren(g: Graph, n: nat): (r: Option<(seq<nat>, seq<nat>)>)
    requires InRange(g) && Acyclic(g)
    ensures r.Some? ==>
              && (forall k :: 0 <= k < |r.value.0| ==> HasEdge(g, n, r.value.0[k]))
              && (forall k :: 0 <= k < |r.value.1| ==> HasEdge(g, n, r.value.1[k]))
  {
    var kids := DirectChildren(g, n);
    assert forall k :: 0 <= k < |kids| ==> kids[k] in kids;
    var ps := ResultPositions(g, kids);
    assert RemoveEach(kids, ps).Some? ==>
        && (forall k :: 0 <= k < |RemoveEach(kids, ps).value.0| ==> HasEdge(g, n, RemoveEach(kids, ps).value.0[k]))
        && (forall k :: 0 <= k < |RemoveEach(kids, ps).value.1| ==> HasEdge(g, n, RemoveEach(kids, ps).value.1[k])) by {
      if RemoveEach(kids, ps).Some? {
        RemovedAreChildren(g, n, kids, ps);
      }
    }
    RemoveEach(kids, ps)
  }

  function Build(g: Graph, n: nat): Option<Expr>
    requires InRange(g) && Acyclic(g) && n < |g.kinds|
    decreases |Descendants(g, n)|, 2
  {
    match g.kinds[n]
    case Query => BuildQuery(g, n)
    case EmptyFlow => BuildEmptyFlow(g, n)
    case IfFlow => BuildIfFlow(g, n)
  }

  function BuildQuery(g: Graph, n: nat): Option<Expr>
    requires InRange(g) && Acyclic(g) && n < |g.kinds|
    decreases |Descendants(g, n)|, 1
  {
    var (res, rest) :- SplitChildren(g, n);
    var plain :- BuildAll(g, n, rest);
    var scoped :- BuildAll(g, n, res);
    Some(QueryScope(g, n, plain + ResultScope(res, scoped)))
  }

  function BuildEmptyFlow(g: Graph, n: nat): Option<Expr>
    requires InRange(g) && Acyclic(g) && n < |g.kinds|
    decreases |Descendants(g, n)|, 1
  {
    var kids := DirectChildren(g, n);
    assert forall k :: 0 <= k < |kids| ==> kids[k] in kids;
    var es :- BuildAll(g, n, kids);
    Some(Transform(g, n, AsSequence(es)))
  }

  function BuildIfFlow(g: Graph, n: nat): Option<Expr>
    requires InRange(g) && Acyclic(g) && n < |g.kinds|
    decreases |Descendants(g, n)|, 1
  {
    var out, incoming := OutEdges(g.edges, n), InEdges(g.edges, n);
    if !OnlyThenElse(g, out) || incoming == [] then None
    else
      var parent := g.edges[incoming[|incoming| - 1]];
      var thenEdge :- LastWith(g, out, Then);
      var elseEdge := LastWith(g, out, Else);
      assert HasEdge(g, n, g.edges[thenEdge].dst);
      assert elseEdge.Some? ==> HasEdge(g, n, g.edges[elseEdge.value].dst);
      var yes :- BuildAll(g, n, [g.edges[thenEdge].dst]);
      var no :- BuildAll(g, n, if elseEdge.Some? then [g.edges[elseEdge.value].dst] else []);
      if parent.dep.ParentIds? then Some(Func(n, [ParentDep(parent.src, parent.dep.f)], AsIf(yes[0], no)))
      else None
  }

  /** Expressions for children of `n`, in the order given. */
  function BuildAll(g: Graph, n: nat, ns: seq<nat>): (r: Option<seq<Expr>>)
    requires InRange(g) && Acyclic(g)
    requires forall k :: 0 <= k < |ns| ==> HasEdge(g, n, ns[k])
    ensures r.Some? ==> |r.value| == |ns|
    decreases |Descendants(g, n)|, 0, |ns|
  {
    if ns == [] then Some([])
    else
      ChildShrinks(g, n, ns[0]);
      var e :- Build(g, ns[0]);
      var es :- BuildAll(g, n, ns[1..]);
      Some([e] + es)
  }

  function BuildRoots(g: Graph, rs: seq<nat>): (r: Option<seq<Expr>>)
    requires InRange(g) && Acyclic(g)
    requires forall k :: 0 <= k < |rs| ==> rs[k] < |g.kinds|
    ensures r.Some? ==> |r.value| == |rs|
  {
    if rs == [] then Some([])
    else
      var e :- Build(g, rs[0]);
      var es :- BuildRoots(g, rs[1..]);
      Some([e] + es)
  }

  function Translate(g: Graph): Option<Expr>
    requires InRange(g) && Acyclic(g)
  {
    var es :- BuildRoots(g, Roots(g));
    Some(Sequence(es))
  }
}
