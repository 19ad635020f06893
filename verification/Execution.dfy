/**
 Running a compiled query graph.  For every graph that satisfies the documented
 invariants, every database and every transformer behaviour: each lookup finds its
 binding, each query runs at most once and after all its ancestors, and a successful
 run of a graph of queries runs every node exactly once.
 */
module Execution {
  import opened Wrappers
  import opened QueryGraphs
  import opened Interpreter
  import opened Expressionista
  import opened Scopes

  // ----- hypotheses -----

  ghost predicate NoParallelEdges(g: Graph) {
    forall i, j :: 0 <= i < j < |g.edges| ==> g.edges[i].src != g.edges[j].src || g.edges[i].dst != g.edges[j].dst
  }

  /** The arms of an `If` hang directly under it. */
  ghost predicate IfChildrenDirect(g: Graph)
    requires InRange(g) && Acyclic(g)
  {
    forall n {:trigger ChildrenDirect(g, n)} :: 0 <= n < |g.kinds| && g.kinds[n].IfFlow? ==> ChildrenDirect(g, n)
  }

  ghost predicate ChildrenDirect(g: Graph, n: nat)
    requires InRange(g) && Acyclic(g)
  {
    forall c :: HasEdge(g, n, c) ==> IsDirectChild(g, n, c)
  }

  /** The graph invariants: directed, acyclic, no duplicate edges, all parents of a node related. */
  ghost predicate Scoped(g: Graph) {
    InRange(g) && Acyclic(g) && RelatedParents(g) && NoParallelEdges(g) && IfChildrenDirect(g)
  }

  /** Only queries have results to take ids from. */
  ghost predicate ParentIdsFromQueries(g: Graph)
    requires InRange(g)
  {
    forall i :: 0 <= i < |g.edges| && g.edges[i].dep.ParentIds? ==> g.kinds[g.edges[i].src].Query?
  }

  ghost predicate QueriesOnly(g: Graph) {
    forall n :: 0 <= n < |g.kinds| ==> g.kinds[n].Query?
  }

  ghost function QueryAncestors(g: Graph, n: nat): set<nat> {
    set a | a in Ancestors(g, n) && g.kinds[a].Query?
  }

  /** The order that execution must respect. */
  ghost function AncestorsFirst(g: Graph): Before {
    n => QueryAncestors(g, n)
  }

  // ----- finite lists -----

  lemma {:induction false} DirectChildrenDistinct(g: Graph, n: nat)
    requires InRange(g) && Acyclic(g) && NoParallelEdges(g)
    ensures Distinct(DirectChildren(g, n))
  {
    var out := OutEdges(g.edges, n);
    var es := DirectEdges(g, n, out);
    EdgesAscending(g.edges, n);
    DirectEdgesAscending(g, n, out);
    assert forall k :: 0 <= k < |es| ==> es[k] in es;
  }

  // ----- the nodes covered by a list of siblings -----

  ghost function Cover(g: Graph, ns: seq<nat>): set<nat> {
    if ns == [] then {} else Subgraph(g, ns[0]) + Cover(g, ns[1..])
  }

  lemma {:induction false} CoverMember(g: Graph, ns: seq<nat>, m: nat)
    ensures m in Cover(g, ns) <==> exists c :: c in ns && m in Subgraph(g, c)
  {
    if ns != [] {
      CoverMember(g, ns[1..], m);
      assert ns == [ns[0]] + ns[1..];
    }
  }

  ghost predicate Siblings(g: Graph, p: nat, ns: seq<nat>)
    requires InRange(g) && Acyclic(g)
  {
    forall k :: 0 <= k < |ns| ==> IsDirectParent(g, p, ns[k])
  }

  lemma {:induction false} CoverDisjoint(g: Graph, p: nat, ms: seq<nat>, ns: seq<nat>)
    requires InRange(g) && Acyclic(g) && AllHaveDirectParent(g)
    requires Siblings(g, p, ms) && Siblings(g, p, ns)
    requires forall x :: x in ms ==> x !in ns
    ensures Cover(g, ms) !! Cover(g, ns)
  {
    forall m | m in Cover(g, ms) ensures m !in Cover(g, ns) {
      CoverMember(g, ms, m);
      CoverMember(g, ns, m);
      var c :| c in ms && m in Subgraph(g, c);
      forall d | d in ns ensures m !in Subgraph(g, d) {
        SiblingsDisjoint(g, p, c, d);
      }
    }
  }

  /** Every descendant of `n` lies under one of its direct children. */
  lemma {:induction false} UnderDirectChild(g: Graph, n: nat, m: nat) returns (c: nat)
    requires InRange(g) && Acyclic(g) && AllHaveDirectParent(g)
    requires Reaches(g, n, m)
    ensures IsDirectParent(g, n, c) && m in Subgraph(g, c)
    decreases |Ancestors(g, m)|
  {
    ReachesInRange(g, n, m);
    var d := ReachesLast(g, n, m);
    assert HasParent(g, m);
    var p :| IsDirectParent(g, p, m);
    AncestorAboveDirectParent(g, n, p, m);
    if n == p {
      c := m;
    } else {
      EdgeReaches(g, p, m);
      AncestorsShrink(g, p, m);
      c := UnderDirectChild(g, n, p);
      if p != c {
        ReachesTransitive(g, c, p, m);
      }
    }
  }

  /** The direct children of `n` cover exactly its descendants. */
  lemma {:induction false} ChildrenCover(g: Graph, n: nat, ns: seq<nat>)
    requires InRange(g) && Acyclic(g) && AllHaveDirectParent(g)
    requires forall c :: c in ns <==> IsDirectParent(g, n, c)
    ensures Cover(g, ns) == Descendants(g, n)
  {
    forall m ensures m in Cover(g, ns) <==> m in Descendants(g, n) {
      CoverMember(g, ns, m);
      if m in Cover(g, ns) {
        var c :| c in ns && m in Subgraph(g, c);
        EdgeReaches(g, n, c);
        ReachesInRange(g, n, c);
        if m != c {
          ReachesTransitive(g, n, c, m);
        }
      }
      if m in Descendants(g, n) {
        var c := UnderDirectChild(g, n, m);
      }
    }
  }

  lemma {:induction false} CoverOfSplit(g: Graph, n: nat, kids: seq<nat>, a: seq<nat>, b: seq<nat>)
    requires InRange(g) && Acyclic(g) && AllHaveDirectParent(g)
    requires forall c :: c in kids <==> IsDirectParent(g, n, c)
    requires forall c :: c in kids <==> c in a || c in b
    ensures Cover(g, a) + Cover(g, b) == Descendants(g, n)
  {
    ChildrenCover(g, n, kids);
    forall m ensures m in Cover(g, kids) <==> m in Cover(g, a) + Cover(g, b) {
      CoverMember(g, kids, m);
      CoverMember(g, a, m);
      CoverMember(g, b, m);
    }
  }

  // ----- what is in scope below a node -----

  ghost function Above(g: Graph, p: nat): set<nat>
    requires p < |g.kinds|
  {
    QueryAncestors(g, p) + if g.kinds[p].Query? then {p} else {}
  }

  lemma {:induction false} AboveOfChild(g: Graph, p: nat, c: nat)
    requires InRange(g) && Acyclic(g) && IsDirectParent(g, p, c)
    ensures p < |g.kinds| && c < |g.kinds| && QueryAncestors(g, c) == Above(g, p)
  {
    EdgeReaches(g, p, c);
    ReachesInRange(g, p, c);
    DirectChildAncestors(g, p, c);
  }

  lemma {:induction false} DepsInScope(g: Graph, n: nat)
    requires InRange(g) && ParentIdsFromQueries(g)
    ensures forall i :: i in InEdges(g.edges, n) && g.edges[i].dep.ParentIds? ==> g.edges[i].src in QueryAncestors(g, n)
    ensures forall d :: d in ParentDeps(g, InEdges(g.edges, n)) ==> d.parent in QueryAncestors(g, n)
  {
    var incoming := InEdges(g.edges, n);
    forall i | i in incoming && g.edges[i].dep.ParentIds? ensures g.edges[i].src in QueryAncestors(g, n) {
      assert HasEdge(g, g.edges[i].src, n);
      EdgeReaches(g, g.edges[i].src, n);
    }
    forall d | d in ParentDeps(g, incoming) ensures d.parent in QueryAncestors(g, n) {
      var i :| i in incoming && g.edges[i].dep == ParentIds(d.f) && g.edges[i].src == d.parent;
    }
  }

  // ----- compiled programs are well nested -----

  ghost predicate ChildrenDistinct(g: Graph)
    requires InRange(g) && Acyclic(g)
  {
    forall n :: Distinct(DirectChildren(g, n))
  }

  lemma {:induction false} NoParallelChildrenDistinct(g: Graph)
    requires InRange(g) && Acyclic(g) && NoParallelEdges(g)
    ensures ChildrenDistinct(g)
  {
    forall n: nat ensures Distinct(DirectChildren(g, n)) {
      DirectChildrenDistinct(g, n);
    }
  }

  /** The hypotheses in the form the proofs use them: see `RelatedIffDirectParents`. */
  ghost predicate Ready(g: Graph) {
    && InRange(g) && Acyclic(g) && AllHaveDirectParent(g) && ChildrenDistinct(g)
    && IfChildrenDirect(g) && ParentIdsFromQueries(g)
  }

  /** What the compilation of the siblings `ns` below `p` guarantees. */
  ghost predicate NestedBelow(g: Graph, p: nat, ns: seq<nat>, es: seq<Expr>)
    requires p < |g.kinds|
  {
    && AllNested(AncestorsFirst(g), es, Above(g, p), Above(g, p))
    && NodesOfAll(es) <= Cover(g, ns)
    && (QueriesOnly(g) ==> Cover(g, ns) <= SurelyAll(es))
  }

  ghost predicate NestedAt(g: Graph, n: nat, e: Expr) {
    && WellNested(AncestorsFirst(g), e, QueryAncestors(g, n), QueryAncestors(g, n))
    && NodesOf(e) <= Subgraph(g, n)
    && (QueriesOnly(g) ==> Subgraph(g, n) <= Surely(e))
  }

  lemma {:induction false} ChildrenNested(g: Graph, p: nat, ns: seq<nat>)
    requires Ready(g) && p < |g.kinds|
    requires Siblings(g, p, ns) && Distinct(ns) && BuildAll(g, p, ns).Some?
    ensures NestedBelow(g, p, ns, BuildAll(g, p, ns).value)
    decreases |Descendants(g, p)|, 0, |ns|
  {
    assert ns != [] ==> ns == [ns[0]] + ns[1..];
    if ns != [] {
      var c, rest := ns[0], ns[1..];
      ChildShrinks(g, p, c);
      NodeNested(g, c);
      AboveOfChild(g, p, c);
      ChildrenNested(g, p, rest);
      CoverDisjointHead(g, p, c, rest);
      ConsBelow(g, p, c, rest, Build(g, c).value, BuildAll(g, p, rest).value);
    }
  }

  lemma {:induction false} ConsBelow(g: Graph, p: nat, c: nat, ns: seq<nat>, e: Expr, es: seq<Expr>)
    requires p < |g.kinds| && QueryAncestors(g, c) == Above(g, p)
    requires NestedAt(g, c, e) && NestedBelow(g, p, ns, es) && Subgraph(g, c) !! Cover(g, ns)
    ensures NestedBelow(g, p, [c] + ns, [e] + es)
  {
    ConsNested(AncestorsFirst(g), e, es, Above(g, p), Above(g, p), Subgraph(g, c), Cover(g, ns));
    assert ([c] + ns)[1..] == ns;
  }

  lemma {:induction false} CoverDisjointHead(g: Graph, p: nat, c: nat, ns: seq<nat>)
    requires InRange(g) && Acyclic(g) && AllHaveDirectParent(g)
    requires IsDirectParent(g, p, c) && Siblings(g, p, ns) && c !in ns
    ensures Subgraph(g, c) !! Cover(g, ns)
  {
    forall m | m in Subgraph(g, c) ensures m !in Cover(g, ns) {
      CoverMember(g, ns, m);
      forall d | d in ns ensures m !in Subgraph(g, d) {
        SiblingsDisjoint(g, p, c, d);
      }
    }
  }

  lemma {:induction false} NodeNested(g: Graph, n: nat)
    requires Ready(g) && n < |g.kinds| && Build(g, n).Some?
    ensures NestedAt(g, n, Build(g, n).value)
    decreases |Descendants(g, n)|, 3
  {
    match g.kinds[n]
    case Query => QueryNested(g, n);
    case EmptyFlow => EmptyFlowNested(g, n);
    case IfFlow => IfFlowNested(g, n);
  }

  lemma {:induction false} BindingsOf(anc: Before, ns: seq<nat>, es: seq<Expr>, bound: set<nat>, done: set<nat>)
    requires |ns| == |es| && AllNested(anc, es, bound, done)
    ensures BindingsNested(anc, Bindings(ns, es), bound, done)
    ensures NodesOfBindings(Bindings(ns, es)) == NodesOfAll(es)
    ensures SurelyBindings(Bindings(ns, es)) == SurelyAll(es)
    ensures forall n :: n in ns ==> n in Names(Bindings(ns, es))
    decreases |ns|
  {
    if ns != [] {
      var bs := Bindings(ns, es);
      assert bs[1..] == Bindings(ns[1..], es[1..]);
      BindingsOf(anc, ns[1..], es[1..], bound, done);
      assert ns == [ns[0]] + ns[1..];
    }
  }

  lemma {:induction false} ResultScopeNested(g: Graph, p: nat, ns: seq<nat>, es: seq<Expr>)
    requires p < |g.kinds| && |ns| == |es| && NestedBelow(g, p, ns, es)
    ensures NestedBelow(g, p, ns, ResultScope(ns, es))
  {
    if ns != [] {
      var anc, bs := AncestorsFirst(g), Bindings(ns, es);
      BindingsOf(anc, ns, es, Above(g, p), Above(g, p));
      var body := [GetFirstNonEmpty(ns)];
      assert body[1..] == [] && NodesOfAll(body) == {};
      assert ns[0] in ns;
      var scope := [Let(bs, body)];
      assert scope == ResultScope(ns, es) && scope[1..] == [];
      assert WellNested(anc, scope[0], Above(g, p), Above(g, p));
    }
  }

  /** The node's own query, with nothing below it. */
  lemma {:induction false} OwnNested(g: Graph, n: nat)
    requires InRange(g) && ParentIdsFromQueries(g)
    ensures var own := Transform(g, n, AsQuery);
            && WellNested(AncestorsFirst(g), own, QueryAncestors(g, n), QueryAncestors(g, n))
            && NodesOf(own) == {n} && Surely(own) == {n}
  {
    DepsInScope(g, n);
  }

  lemma {:induction false} ScopeNested(g: Graph, n: nat, body: seq<Expr>)
    requires InRange(g) && ParentIdsFromQueries(g) && n < |g.kinds| && g.kinds[n].Query?
    requires AllNested(AncestorsFirst(g), body, Above(g, n), Above(g, n))
    requires NodesOfAll(body) <= Descendants(g, n) && n !in Descendants(g, n)
    requires QueriesOnly(g) ==> Descendants(g, n) <= SurelyAll(body)
    ensures NestedAt(g, n, QueryScope(g, n, body))
  {
    OwnNested(g, n);
    var anc, own := AncestorsFirst(g), Transform(g, n, AsQuery);
    if IsResult(g, n) {
      GetNested(anc, n, Above(g, n), Above(g, n));
      AppendNested(anc, body, [Get(n)], Above(g, n), Above(g, n));
      LetNested(anc, n, own, body + [Get(n)], QueryAncestors(g, n), QueryAncestors(g, n));
    } else {
      assert body + [] == body;
      LetNested(anc, n, own, body, QueryAncestors(g, n), QueryAncestors(g, n));
    }
  }

  /** The split neither loses nor duplicates a direct child. */
  lemma {:induction false} SplitSiblings(g: Graph, n: nat)
    requires InRange(g) && Acyclic(g) && ChildrenDistinct(g) && SplitChildren(g, n).Some?
    ensures var (res, rest) := SplitChildren(g, n).value;
            && Siblings(g, n, rest) && Distinct(rest) && Siblings(g, n, res) && Distinct(res)
            && (forall x :: x in rest ==> x !in res)
            && (forall x :: x in DirectChildren(g, n) <==> x in rest || x in res)
  {
    var kids := DirectChildren(g, n);
    var (res, rest) := SplitChildren(g, n).value;
    RemoveEachPartitions(kids, ResultPositions(g, kids));
    SplitDistinct(kids, res, rest);
    forall k | 0 <= k < |rest| ensures IsDirectParent(g, n, rest[k]) {
      assert rest[k] in rest;
    }
    forall k | 0 <= k < |res| ensures IsDirectParent(g, n, res[k]) {
      assert res[k] in res;
    }
  }

  lemma {:induction false} QueryNested(g: Graph, n: nat)
    requires Ready(g) && n < |g.kinds| && g.kinds[n].Query? && BuildQuery(g, n).Some?
    ensures NestedAt(g, n, BuildQuery(g, n).value)
    decreases |Descendants(g, n)|, 1
  {
    var (res, rest) := SplitChildren(g, n).value;
    SplitSiblings(g, n);
    ChildrenNested(g, n, rest);
    ChildrenNested(g, n, res);
    var plain, scoped := BuildAll(g, n, rest).value, BuildAll(g, n, res).value;
    ResultScopeNested(g, n, res, scoped);
    CoverDisjoint(g, n, rest, res);
    AppendNested(AncestorsFirst(g), plain, ResultScope(res, scoped), Above(g, n), Above(g, n));
    CoverOfSplit(g, n, DirectChildren(g, n), rest, res);
    ScopeNested(g, n, plain + ResultScope(res, scoped));
  }

  lemma {:induction false} SequenceNested(g: Graph, n: nat, es: seq<Expr>)
    requires InRange(g) && ParentIdsFromQueries(g)
    requires AllNested(AncestorsFirst(g), es, QueryAncestors(g, n), QueryAncestors(g, n))
    requires NodesOfAll(es) <= Descendants(g, n) && !QueriesOnly(g)
    ensures NestedAt(g, n, Transform(g, n, AsSequence(es)))
  {
    DepsInScope(g, n);
  }

  lemma {:induction false} EmptyFlowNested(g: Graph, n: nat)
    requires Ready(g) && n < |g.kinds| && g.kinds[n].EmptyFlow? && BuildEmptyFlow(g, n).Some?
    ensures NestedAt(g, n, BuildEmptyFlow(g, n).value)
    decreases |Descendants(g, n)|, 1
  {
    var kids := DirectChildren(g, n);
    KidsReady(g, n);
    hide Ready, Siblings, Distinct, DirectChildren, Cover, Descendants;
    ChildrenNested(g, n, kids);
    assert Above(g, n) == QueryAncestors(g, n);
    hide QueryAncestors, NestedAt, AllNested;
    EmptyFlowIs(g, n);
    SequenceNested(g, n, BuildAll(g, n, kids).value);
  }

  lemma {:induction false} KidsReady(g: Graph, n: nat)
    requires Ready(g) && n < |g.kinds|
    ensures var kids := DirectChildren(g, n);
            Siblings(g, n, kids) && Distinct(kids) && Cover(g, kids) == Descendants(g, n)
    ensures InRange(g) && Acyclic(g) && ParentIdsFromQueries(g)
  {
    var kids := DirectChildren(g, n);
    assert forall k :: 0 <= k < |kids| ==> kids[k] in kids;
    ChildrenCover(g, n, kids);
  }

  lemma {:induction false} EmptyFlowIs(g: Graph, n: nat)
    requires InRange(g) && Acyclic(g) && n < |g.kinds| && BuildEmptyFlow(g, n).Some?
    requires Siblings(g, n, DirectChildren(g, n)) && BuildAll(g, n, DirectChildren(g, n)).Some?
    ensures BuildEmptyFlow(g, n).value == Transform(g, n, AsSequence(BuildAll(g, n, DirectChildren(g, n)).value))
  {
  }

  lemma {:induction false} BranchNested(g: Graph, n: nat, dep: ParentDep, yes: seq<Expr>, no: seq<Expr>)
    requires dep.parent in QueryAncestors(g, n) && |yes| == 1 && !QueriesOnly(g)
    requires ArmBelow(g, n, yes) && ArmBelow(g, n, no)
    ensures NestedAt(g, n, Func(n, [dep], AsIf(yes[0], no)))
  {
  }

  lemma {:induction false} IfFlowNested(g: Graph, n: nat)
    requires Ready(g) && n < |g.kinds| && g.kinds[n].IfFlow? && BuildIfFlow(g, n).Some?
    ensures NestedAt(g, n, BuildIfFlow(g, n).value)
    decreases |Descendants(g, n)|, 2
  {
    var out, incoming := OutEdges(g.edges, n), InEdges(g.edges, n);
    var parent := g.edges[incoming[|incoming| - 1]];
    var yes := [g.edges[LastWith(g, out, Then).value].dst];
    var no := if LastWith(g, out, Else).Some? then [g.edges[LastWith(g, out, Else).value].dst] else [];
    assert incoming[|incoming| - 1] in incoming;
    DepsInScope(g, n);
    ArmNested(g, n, yes);
    ArmNested(g, n, no);
    BranchNested(g, n, ParentDep(parent.src, parent.dep.f), BuildAll(g, n, yes).value, BuildAll(g, n, no).value);
  }

  lemma {:induction false} ArmsAreDirect(g: Graph, n: nat, ns: seq<nat>)
    requires InRange(g) && Acyclic(g) && IfChildrenDirect(g)
    requires n < |g.kinds| && g.kinds[n].IfFlow?
    requires forall k :: 0 <= k < |ns| ==> HasEdge(g, n, ns[k])
    ensures Siblings(g, n, ns)
    ensures Cover(g, ns) <= Descendants(g, n)
  {
    assert ChildrenDirect(g, n);
    forall m | m in Cover(g, ns) ensures m in Descendants(g, n) {
      CoverMember(g, ns, m);
      var c :| c in ns && m in Subgraph(g, c);
      EdgeReaches(g, n, c);
      ReachesInRange(g, n, c);
      if m != c {
        ReachesTransitive(g, n, c, m);
      }
    }
  }

  /** One arm of an `If`. */
  ghost predicate ArmBelow(g: Graph, n: nat, es: seq<Expr>) {
    && AllNested(AncestorsFirst(g), es, QueryAncestors(g, n), QueryAncestors(g, n))
    && NodesOfAll(es) <= Descendants(g, n)
  }

  lemma {:induction false} ArmFromBelow(g: Graph, n: nat, ns: seq<nat>, es: seq<Expr>)
    requires n < |g.kinds| && g.kinds[n].IfFlow?
    requires NestedBelow(g, n, ns, es) && Cover(g, ns) <= Descendants(g, n)
    ensures ArmBelow(g, n, es)
  {
    assert Above(g, n) == QueryAncestors(g, n);
  }

  lemma {:induction false} ArmNested(g: Graph, n: nat, ns: seq<nat>)
    requires Ready(g) && n < |g.kinds| && g.kinds[n].IfFlow? && |ns| <= 1
    requires forall k :: 0 <= k < |ns| ==> HasEdge(g, n, ns[k])
    requires BuildAll(g, n, ns).Some?
    ensures ArmBelow(g, n, BuildAll(g, n, ns).value)
    decreases |Descendants(g, n)|, 1
  {
    ArmsAreDirect(g, n, ns);
    ChildrenNested(g, n, ns);
    ArmFromBelow(g, n, ns, BuildAll(g, n, ns).value);
  }

  lemma {:induction false} RootsNested(g: Graph, rs: seq<nat>)
    requires Ready(g) && BuildRootsDomain(g, rs) && Distinct(rs) && BuildRoots(g, rs).Some?
    ensures var es := BuildRoots(g, rs).value;
            && AllNested(AncestorsFirst(g), es, {}, {})
            && NodesOfAll(es) <= Cover(g, rs)
            && (QueriesOnly(g) ==> Cover(g, rs) <= SurelyAll(es))
  {
    if rs != [] {
      var es := BuildRoots(g, rs).value;
      NodeNested(g, rs[0]);
      RootHasNoAncestor(g, rs[0]);
      assert QueryAncestors(g, rs[0]) == {};
      RootsNested(g, rs[1..]);
      assert es[1..] == BuildRoots(g, rs[1..]).value;
      RootCoverDisjoint(g, rs[0], rs[1..]);
    }
  }

  ghost predicate BuildRootsDomain(g: Graph, rs: seq<nat>) {
    forall k :: 0 <= k < |rs| ==> rs[k] < |g.kinds| && IsRoot(g, rs[k])
  }

  lemma {:induction false} RootCoverDisjoint(g: Graph, r: nat, rs: seq<nat>)
    requires InRange(g) && Acyclic(g) && AllHaveDirectParent(g)
    requires BuildRootsDomain(g, rs) && r < |g.kinds| && IsRoot(g, r) && r !in rs
    ensures Subgraph(g, r) !! Cover(g, rs)
  {
    if rs != [] {
      RootsDisjoint(g, r, rs[0]);
      RootCoverDisjoint(g, r, rs[1..]);
    }
  }

  // ----- the theorems -----

  lemma {:induction false} TranslationNested(g: Graph)
    requires Scoped(g) && ParentIdsFromQueries(g) && Translate(g).Some?
    ensures WellNested(AncestorsFirst(g), Translate(g).value, {}, {})
    ensures QueriesOnly(g) ==> forall n: nat :: n < |g.kinds| ==> n in Surely(Translate(g).value)
  {
    RelatedIffDirectParents(g);
    NoParallelChildrenDistinct(g);
    var rs := Roots(g);
    RootsAscending(g, |g.kinds|);
    RootsNested(g, rs);
    if QueriesOnly(g) {
      forall n: nat | n < |g.kinds| ensures n in Surely(Translate(g).value) {
        var r := UnderSomeRoot(g, n);
        CoverMember(g, rs, n);
      }
    }
  }

  /**
   Every run of a compiled graph, whatever the database and the transformers do:
   no lookup fails, no query runs twice, each query runs after all its query
   ancestors, and a successful run of a graph of queries has run every node.
   */
  lemma {:induction false} CompiledGraphRuns(w: World, g: Graph)
    requires Scoped(g) && ParentIdsFromQueries(g) && Translate(g).Some?
    ensures var o := Interpret(w, Translate(g).value, map[], []);
            && !ScopeError(o.result)
            && Orderly(AncestorsFirst(g), NodesOf(Translate(g).value), {}, Trace([], o))
            && (QueriesOnly(g) && o.result.Ok? ==> forall n: nat :: n < |g.kinds| ==> n in Trace([], o))
  {
    TranslationNested(g);
    RunsFromNothing(AncestorsFirst(g), w, Translate(g).value);
  }

  /** In particular, no node runs before a query that is its ancestor. */
  lemma {:induction false} AncestorRunsFirst(w: World, g: Graph, x: nat, y: nat, i: nat)
    requires Scoped(g) && ParentIdsFromQueries(g) && Translate(g).Some?
    requires y < |g.kinds| && g.kinds[y].Query? && Reaches(g, y, x)
    ensures var o := Interpret(w, Translate(g).value, map[], []);
            i < |Trace([], o)| && Trace([], o)[i] == x ==> y in Trace([], o)[..i]
  {
    CompiledGraphRuns(w, g);
    var trace := Trace([], Interpret(w, Translate(g).value, map[], []));
    if i < |trace| && trace[i] == x {
      EarlierInTrace(AncestorsFirst(g), NodesOf(Translate(g).value), trace, i, y);
    }
  }

  lemma {:induction false} EarlierInTrace(anc: Before, s: set<nat>, trace: seq<nat>, i: nat, a: nat)
    requires Orderly(anc, s, {}, trace) && i < |trace| && a in anc(trace[i])
    ensures a in trace[..i]
  {
    var none: set<nat> := {};
    assert a in none || a in trace[..i];
  }
}
