/**
 When compilation of a graph of queries succeeds, and whose result the compiled
 program returns.
 */
module GraphResults {
  import opened Wrappers
  import opened QueryGraphs
  import opened Interpreter
  import opened Expressionista
  import opened Scopes
  import opened Execution
  import opened Sources

  // ----- when compilation succeeds -----

  /** The removal of result children at node `n` stays inside the list of direct children. */
  predicate SplitFits(g: Graph, n: nat)
    requires InRange(g) && Acyclic(g)
  {
    Fits(|DirectChildren(g, n)|, ResultPositions(g, DirectChildren(g, n)))
  }

  lemma {:induction false} SplitsIffFits(g: Graph, n: nat)
    requires InRange(g) && Acyclic(g)
    ensures SplitChildren(g, n).Some? <==> SplitFits(g, n)
  {
    ResultPositionsAscending(g, DirectChildren(g, n));
    RemoveEachFits(DirectChildren(g, n), ResultPositions(g, DirectChildren(g, n)));
  }

  /** Membership in the two parts of the split. */
  lemma {:induction false} SplitMembers(g: Graph, n: nat)
    requires InRange(g) && Acyclic(g) && SplitChildren(g, n).Some?
    ensures var (res, rest) := SplitChildren(g, n).value;
            forall c :: c in DirectChildren(g, n) <==> c in rest || c in res
  {
    var kids := DirectChildren(g, n);
    var (res, rest) := SplitChildren(g, n).value;
    RemoveEachPartitions(kids, ResultPositions(g, kids));
    forall c ensures c in kids <==> c in rest || c in res {
      assert c in kids <==> c in multiset(kids);
      assert c in rest <==> c in multiset(rest);
      assert c in res <==> c in multiset(res);
    }
  }

  lemma {:induction false} QueryBuilds(g: Graph, n: nat)
    requires InRange(g) && Acyclic(g) && AllHaveDirectParent(g) && QueriesOnly(g) && n < |g.kinds|
    ensures Build(g, n).Some? <==> forall m :: m in Subgraph(g, n) ==> SplitFits(g, m)
    decreases |Descendants(g, n)|, 1
  {
    SplitsIffFits(g, n);
    assert Build(g, n) == BuildQuery(g, n);
    if SplitFits(g, n) {
      var (res, rest) := SplitChildren(g, n).value;
      ChildrenBuild(g, n, rest);
      ChildrenBuild(g, n, res);
      SplitMembers(g, n);
      CoverOfSplit(g, n, DirectChildren(g, n), rest, res);
      assert Subgraph(g, n) == Cover(g, rest) + Cover(g, res) + {n};
    } else {
      assert n in Subgraph(g, n);
    }
  }

  lemma {:induction false} ChildrenBuild(g: Graph, p: nat, ns: seq<nat>)
    requires InRange(g) && Acyclic(g) && AllHaveDirectParent(g) && QueriesOnly(g)
    requires forall k :: 0 <= k < |ns| ==> HasEdge(g, p, ns[k])
    ensures BuildAll(g, p, ns).Some? <==> forall m :: m in Cover(g, ns) ==> SplitFits(g, m)
    decreases |Descendants(g, p)|, 0, |ns|
  {
    if ns != [] {
      ChildShrinks(g, p, ns[0]);
      QueryBuilds(g, ns[0]);
      ChildrenBuild(g, p, ns[1..]);
    }
  }

  lemma {:induction false} RootsBuild(g: Graph, rs: seq<nat>)
    requires InRange(g) && Acyclic(g) && AllHaveDirectParent(g) && QueriesOnly(g)
    requires forall k :: 0 <= k < |rs| ==> rs[k] < |g.kinds|
    ensures BuildRoots(g, rs).Some? <==> forall m :: m in Cover(g, rs) ==> SplitFits(g, m)
  {
    if rs != [] {
      QueryBuilds(g, rs[0]);
      RootsBuild(g, rs[1..]);
    }
  }

  /** A graph of queries compiles exactly when every removal of result children stays in range. */
  lemma {:induction false} TranslatesIff(g: Graph)
    requires InRange(g) && Acyclic(g) && RelatedParents(g) && QueriesOnly(g)
    ensures Translate(g).Some? <==> forall n: nat :: n < |g.kinds| ==> SplitFits(g, n)
  {
    RelatedIffDirectParents(g);
    var rs := Roots(g);
    RootsBuild(g, rs);
    forall n: nat | n < |g.kinds| ensures n in Cover(g, rs) {
      var r := UnderSomeRoot(g, n);
      CoverMember(g, rs, n);
    }
    forall n | n in Cover(g, rs) ensures n < |g.kinds| {
      CoverMember(g, rs, n);
    }
  }

  /** A query whose two children are both result nodes, which the graph documentation allows. */
  const TwoResults: Graph :=
    Graph([Query, Query, Query], [Edge(0, 1, ExecutionOrder), Edge(0, 2, ExecutionOrder)], [1, 2])

  lemma {:induction false} TwoResultsShape()
    ensures InRange(TwoResults) && Acyclic(TwoResults) && RelatedParents(TwoResults) && QueriesOnly(TwoResults)
  {
    var g := TwoResults;
    assert forall a, b :: HasEdge(g, a, b) ==> a == 0 && b > 0;
    forall a, b | Reaches(g, a, b) ensures a == 0 && b > 0 {
      var c := ReachesFirst(g, a, b);
      var d := ReachesLast(g, a, b);
    }
  }

  lemma {:induction false} TwoResultsChildren()
    requires InRange(TwoResults) && Acyclic(TwoResults)
    ensures var kids := DirectChildren(TwoResults, 0);
            && 1 in kids && 2 in kids
            && forall k :: 0 <= k < |kids| ==> IsResult(TwoResults, kids[k]) && kids[k] < 3
  {
    var g := TwoResults;
    assert g.edges[0].dst == 1 && g.edges[1].dst == 2;
    assert HasEdge(g, 0, 1) && HasEdge(g, 0, 2);
    assert forall a, b :: HasEdge(g, a, b) ==> a == 0 && (b == 1 || b == 2);
    var kids := DirectChildren(g, 0);
    forall k | 0 <= k < |kids| ensures IsResult(g, kids[k]) && kids[k] < 3 {
      assert kids[k] in kids;
    }
  }

  /** Compilation panics whenever a query has two direct children and all of them hold results. */
  lemma {:induction false} AllChildrenResultsPanic(g: Graph, n: nat)
    requires InRange(g) && Acyclic(g) && RelatedParents(g) && QueriesOnly(g) && n < |g.kinds|
    requires |DirectChildren(g, n)| >= 2
    requires forall k :: 0 <= k < |DirectChildren(g, n)| ==> ContainsResult(g, DirectChildren(g, n)[k])
    ensures Translate(g).None?
  {
    var kids := DirectChildren(g, n);
    var ps := ResultPositions(g, kids);
    forall k | 0 <= k < |kids| ensures k in ps {
      ResultListed(g, kids, k);
    }
    ResultPositionsAscending(g, kids);
    LastPosition(ps, |kids|);
    assert !SplitFits(g, n);
    TranslatesIff(g);
  }

  lemma {:induction false} TwoResultsPanic()
    ensures InRange(TwoResults) && Acyclic(TwoResults) && RelatedParents(TwoResults) && QueriesOnly(TwoResults)
    ensures Translate(TwoResults).None?
  {
    TwoResultsShape();
    TwoResultsChildren();
    TwoMembers(DirectChildren(TwoResults, 0), 1, 2);
    AllChildrenResultsPanic(TwoResults, 0);
  }

  lemma {:induction false} TwoMembers(xs: seq<nat>, a: nat, b: nat)
    requires a in xs && b in xs && a != b
    ensures |xs| >= 2
  {
  }

  /** Positions that include all of `0..n` are exactly those. */
  lemma {:induction false} LastPosition(ps: seq<nat>, n: nat)
    requires n > 0 && forall k :: 0 <= k < n ==> k in ps
    requires forall k :: 0 <= k < |ps| ==> ps[k] < n
    requires Ascending(ps)
    ensures |ps| > 0 && ps[|ps| - 1] == n - 1
    ensures n > 1 ==> |ps| > 1
  {
    assert n - 1 in ps;
    if n > 1 {
      assert 0 in ps;
    }
  }

  // ----- whose result is returned -----

  /** The node whose result the expression for `n` returns. */
  function Answer(g: Graph, n: nat): (a: nat)
    requires InRange(g) && Acyclic(g) && n < |g.kinds|
    ensures a < |g.kinds|
    decreases |Descendants(g, n)|
  {
    var kids := DirectChildren(g, n);
    if kids == [] || IsResult(g, n) then n
    else
      var ps := ResultPositions(g, kids);
      var c := if ps != [] then kids[ps[0]] else kids[|kids| - 1];
      assert c in kids;
      ChildShrinks(g, n, c);
      Answer(g, c)
  }

  /** If anything below `n` is designated as result, the answer is a designated node below `n`. */
  lemma {:induction false} AnswerIsResult(g: Graph, n: nat)
    requires InRange(g) && Acyclic(g) && AllHaveDirectParent(g) && n < |g.kinds|
    requires ContainsResult(g, n)
    ensures IsResult(g, Answer(g, n)) && Answer(g, n) in Subgraph(g, n)
    decreases |Descendants(g, n)|
  {
    if !IsResult(g, n) {
      var c := FirstResultChild(g, n);
      ChildShrinks(g, n, c);
      AnswerIsResult(g, c);
      EdgeReaches(g, n, c);
      if Answer(g, c) != c {
        ReachesTransitive(g, n, c, Answer(g, c));
      }
    }
  }

  lemma {:induction false} FirstResultChild(g: Graph, n: nat) returns (c: nat)
    requires InRange(g) && Acyclic(g) && AllHaveDirectParent(g) && n < |g.kinds|
    requires ContainsResult(g, n) && !IsResult(g, n)
    ensures HasEdge(g, n, c) && c < |g.kinds| && ContainsResult(g, c) && Answer(g, n) == Answer(g, c)
  {
    var kids := DirectChildren(g, n);
    var m :| Reaches(g, n, m) && IsResult(g, m);
    var d := UnderDirectChild(g, n, m);
    assert d in kids && ContainsResult(g, d);
    var k :| 0 <= k < |kids| && kids[k] == d;
    var ps := ResultPositions(g, kids);
    ResultListed(g, kids, k);
    c := kids[ps[0]];
    assert c in kids;
    ChildShrinks(g, n, c);
  }

  // ----- the compiled program returns it -----

  lemma {:induction false} BindSourcesKeep(bs: seq<Binding>, outer: NameSources, inner: NameSources, name: nat)
    requires name in inner && name !in Names(bs)
    ensures name in BindSources(bs, outer, inner) && BindSources(bs, outer, inner)[name] == inner[name]
    decreases |bs|
  {
    if bs != [] {
      var rest := inner - {bs[0].name};
      var inner' := match Source(bs[0].expr, outer) case Some(m) => rest[bs[0].name := m] case None => rest;
      BindSourcesKeep(bs[1..], outer, inner', name);
    }
  }

  lemma {:induction false} NamesOf(ns: seq<nat>, es: seq<Expr>)
    requires |ns| == |es|
    ensures forall n :: n in Names(Bindings(ns, es)) <==> n in ns
  {
    if ns != [] {
      assert Bindings(ns, es)[1..] == Bindings(ns[1..], es[1..]);
      NamesOf(ns[1..], es[1..]);
      assert ns == [ns[0]] + ns[1..];
    }
  }

  /** The result scope returns what its first binding returns. */
  lemma {:induction false} ResultScopeSource(ns: seq<nat>, es: seq<Expr>, names: NameSources)
    requires |ns| == |es| && ns != [] && Distinct(ns) && Source(es[0], names).Some?
    ensures SourceOfLast(ResultScope(ns, es), names) == Source(es[0], names)
  {
    var bs := Bindings(ns, es);
    assert bs[1..] == Bindings(ns[1..], es[1..]);
    NamesOf(ns[1..], es[1..]);
    var inner := (names - {ns[0]})[ns[0] := Source(es[0], names).value];
    BindSourcesKeep(bs[1..], names, inner, ns[0]);
    assert BindSources(bs, names, names) == BindSources(bs[1..], names, inner);
    var body := [GetFirstNonEmpty(ns)];
    assert body[|body| - 1] == GetFirstNonEmpty(ns);
    var scope := ResultScope(ns, es);
    var after := BindSources(bs, names, names);
    assert SourceOfLast(scope, names) == Source(Let(bs, body), names) == SourceOfLast(body, after);
    assert SourceOfLast(body, after) == Source(GetFirstNonEmpty(ns), after);
  }

  /** The scope of a query returns the query's own result, or what its body returns. */
  lemma {:induction false} QueryScopeSource(g: Graph, n: nat, body: seq<Expr>, names: NameSources)
    ensures var inner := (names - {n})[n := n];
            Source(QueryScope(g, n, body), names) ==
            if body == [] || IsResult(g, n) then Some(n) else SourceOfLast(body, inner)
  {
    var own := Transform(g, n, AsQuery);
    assert Source(own, names) == Some(n);
    var bs := [Binding(n, own)];
    assert bs[1..] == [];
    var inner := (names - {n})[n := n];
    assert BindSources(bs, names, names) == BindSources(bs[1..], names, inner) == inner;
    if IsResult(g, n) {
      var full := body + [Get(n)];
      assert Source(Let(bs, full), names) == SourceOfLast(full, inner) == Source(Get(n), inner);
    } else if body != [] {
      assert body + [] == body;
      assert Source(Let(bs, body), names) == SourceOfLast(body, inner);
    }
  }

  lemma {:induction false} BuildAllAt(g: Graph, p: nat, ns: seq<nat>, k: nat)
    requires InRange(g) && Acyclic(g)
    requires forall i :: 0 <= i < |ns| ==> HasEdge(g, p, ns[i])
    requires BuildAll(g, p, ns).Some? && k < |ns|
    ensures ns[k] < |g.kinds| && Build(g, ns[k]) == Some(BuildAll(g, p, ns).value[k])
    decreases |ns|
  {
    ChildShrinks(g, p, ns[0]);
    if k > 0 {
      BuildAllAt(g, p, ns[1..], k - 1);
    }
  }

  /** The expression for `n` returns the result of `Answer(g, n)`. */
  lemma {:induction false} NodeSource(g: Graph, n: nat, names: NameSources)
    requires InRange(g) && Acyclic(g) && ChildrenDistinct(g) && QueriesOnly(g) && n < |g.kinds|
    requires Build(g, n).Some?
    ensures Source(Build(g, n).value, names) == Some(Answer(g, n))
    decreases |Descendants(g, n)|, 1
  {
    hide SplitChildren, DirectChildren, Distinct, HasEdge, Answer;
    assert Build(g, n) == BuildQuery(g, n);
    var (res, rest) := SplitChildren(g, n).value;
    var body := BuildAll(g, n, rest).value + ResultScope(res, BuildAll(g, n, res).value);
    QueryScopeSource(g, n, body, names);
    AnswerOfSplit(g, n);
    if res != [] {
      assert Distinct(res) by { SplitSiblings(g, n); }
      ChildSource(g, n, res, 0, (names - {n})[n := n]);
      ResultScopeSource(res, BuildAll(g, n, res).value, (names - {n})[n := n]);
    } else if rest != [] {
      ChildSource(g, n, rest, |rest| - 1, (names - {n})[n := n]);
    }
  }

  lemma {:induction false} ChildSource(g: Graph, p: nat, ns: seq<nat>, k: nat, names: NameSources)
    requires InRange(g) && Acyclic(g) && ChildrenDistinct(g) && QueriesOnly(g)
    requires k < |ns| && forall i :: 0 <= i < |ns| ==> HasEdge(g, p, ns[i])
    requires BuildAll(g, p, ns).Some?
    ensures ns[k] < |g.kinds| && Source(BuildAll(g, p, ns).value[k], names) == Some(Answer(g, ns[k]))
    decreases |Descendants(g, p)|, 0
  {
    BuildAllAt(g, p, ns, k);
    ChildShrinks(g, p, ns[k]);
    NodeSource(g, ns[k], names);
  }

  lemma {:induction false} AnswerOfSplit(g: Graph, n: nat)
    requires InRange(g) && Acyclic(g) && n < |g.kinds| && SplitChildren(g, n).Some?
    ensures var (res, rest) := SplitChildren(g, n).value;
            && (forall k :: 0 <= k < |res| ==> res[k] < |g.kinds|)
            && (forall k :: 0 <= k < |rest| ==> rest[k] < |g.kinds|)
            && Answer(g, n) ==
               if (res == [] && rest == []) || IsResult(g, n) then n
               else if res != [] then Answer(g, res[0])
               else Answer(g, rest[|rest| - 1])
  {
    hide RemoveEach, ContainsResult, IsDirectChild;
    var kids := DirectChildren(g, n);
    SplitInRange(g, n);
    RemoveEachHead(kids, ResultPositions(g, kids));
  }

  lemma {:induction false} SplitInRange(g: Graph, n: nat)
    requires InRange(g) && Acyclic(g) && SplitChildren(g, n).Some?
    ensures var (res, rest) := SplitChildren(g, n).value;
            && (forall k :: 0 <= k < |res| ==> res[k] < |g.kinds|)
            && (forall k :: 0 <= k < |rest| ==> rest[k] < |g.kinds|)
            && (DirectChildren(g, n) == [] <==> res == [] && rest == [])
  {
    var kids := DirectChildren(g, n);
    var (res, rest) := SplitChildren(g, n).value;
    SplitMembers(g, n);
    if kids != [] {
      assert kids[0] in kids;
    }
    forall k | 0 <= k < |res| ensures res[k] < |g.kinds| {
      ChildShrinks(g, n, res[k]);
    }
    forall k | 0 <= k < |rest| ensures rest[k] < |g.kinds| {
      ChildShrinks(g, n, rest[k]);
    }
  }

  /**
   With one root, a successful run returns what the answer node produced; that node is
   designated as result if any node is.
   */
  lemma {:induction false} CompiledGraphReturns(w: World, g: Graph, root: nat)
    requires InRange(g) && Acyclic(g) && RelatedParents(g) && NoParallelEdges(g) && QueriesOnly(g)
    requires Roots(g) == [root] && Translate(g).Some?
    ensures root < |g.kinds|
    ensures var o := Interpret(w, Translate(g).value, map[], []);
            o.result.Ok? ==> Produced(o.history, Answer(g, root), o.result.value)
    ensures (exists m: nat :: m < |g.kinds| && IsResult(g, m)) ==> IsResult(g, Answer(g, root))
  {
    NoParallelChildrenDistinct(g);
    OneRoot(g, root);
    RunReturnsSource(w, Translate(g).value);
    if m: nat :| m < |g.kinds| && IsResult(g, m) {
      RootAnswers(g, root, m);
    }
  }

  lemma {:induction false} OneRoot(g: Graph, root: nat)
    requires InRange(g) && Acyclic(g) && ChildrenDistinct(g) && QueriesOnly(g)
    requires Roots(g) == [root] && Translate(g).Some?
    ensures root < |g.kinds| && Source(Translate(g).value, map[]) == Some(Answer(g, root))
  {
    assert root in Roots(g);
    var rest: seq<nat> := [root][1..];
    assert rest == [];
    assert Translate(g).value == Sequence([Build(g, root).value] + []);
    NodeSource(g, root, map[]);
  }

  lemma {:induction false} RootAnswers(g: Graph, root: nat, m: nat)
    requires InRange(g) && Acyclic(g) && RelatedParents(g)
    requires Roots(g) == [root] && root < |g.kinds| && m < |g.kinds| && IsResult(g, m)
    ensures IsResult(g, Answer(g, root))
  {
    RelatedIffDirectParents(g);
    var r := UnderSomeRoot(g, m);
    assert r in Roots(g);
    AnswerIsResult(g, root);
  }
}
