/**
 Query graphs as values: a list of nodes and a list of edges, both addressed by
 index, as in the underlying graph library.  The module defines what it means for
 a graph to satisfy the documented invariants (acyclic, all parents of a node
 related) and proves that those invariants make the graph a forest of scopes.
 */
module QueryGraphs {

  datatype NodeKind = Query | IfFlow | EmptyFlow

  /** What an edge demands.  `ParentIds(f)` carries the name of its transformer closure. */
  datatype Dependency = ExecutionOrder | ParentIds(f: nat) | Then | Else

  datatype Edge = Edge(src: nat, dst: nat, dep: Dependency)

  datatype Graph = Graph(kinds: seq<NodeKind>, edges: seq<Edge>, results: seq<nat>)

  ghost predicate InRange(g: Graph) {
    forall i :: 0 <= i < |g.edges| ==> g.edges[i].src < |g.kinds| && g.edges[i].dst < |g.kinds|
  }

  // ----- edges in index order -----

  predicate Ascending(xs: seq<nat>) {
    forall j, k :: 0 <= j < k < |xs| ==> xs[j] < xs[k]
  }

  function OutEdges(edges: seq<Edge>, n: nat): (r: seq<nat>)
    ensures forall k :: 0 <= k < |r| ==> r[k] < |edges| && edges[r[k]].src == n
  {
    if edges == [] then []
    else
      var last := |edges| - 1;
      OutEdges(edges[..last], n) + if edges[last].src == n then [last] else []
  }

  function InEdges(edges: seq<Edge>, n: nat): (r: seq<nat>)
    ensures forall k :: 0 <= k < |r| ==> r[k] < |edges| && edges[r[k]].dst == n
  {
    if edges == [] then []
    else
      var last := |edges| - 1;
      InEdges(edges[..last], n) + if edges[last].dst == n then [last] else []
  }

  /** Both lists are complete. */
  lemma {:induction false} EdgeListed(edges: seq<Edge>, i: nat)
    requires i < |edges|
    ensures i in OutEdges(edges, edges[i].src) && i in InEdges(edges, edges[i].dst)
  {
    var last := |edges| - 1;
    if i < last {
      EdgeListed(edges[..last], i);
    }
  }

  lemma {:induction false} ParentListed(g: Graph, a: nat, n: nat) returns (k: nat)
    requires HasEdge(g, a, n)
    ensures k < |InEdges(g.edges, n)| && g.edges[InEdges(g.edges, n)[k]].src == a
  {
    var i :| 0 <= i < |g.edges| && g.edges[i].src == a && g.edges[i].dst == n;
    EdgeListed(g.edges, i);
    k :| 0 <= k < |InEdges(g.edges, n)| && InEdges(g.edges, n)[k] == i;
  }

  lemma {:induction false} ChildListed(g: Graph, a: nat, n: nat) returns (k: nat)
    requires HasEdge(g, a, n)
    ensures k < |OutEdges(g.edges, a)| && g.edges[OutEdges(g.edges, a)[k]].dst == n
  {
    var i :| 0 <= i < |g.edges| && g.edges[i].src == a && g.edges[i].dst == n;
    EdgeListed(g.edges, i);
    k :| 0 <= k < |OutEdges(g.edges, a)| && OutEdges(g.edges, a)[k] == i;
  }

  /** Both lists are in ascending order, so they hold each edge once. */
  lemma {:induction false} EdgesAscending(edges: seq<Edge>, n: nat)
    ensures Ascending(OutEdges(edges, n)) && Ascending(InEdges(edges, n))
  {
    if edges != [] {
      EdgesAscending(edges[..|edges| - 1], n);
    }
  }

  // ----- reachability -----

  ghost predicate HasEdge(g: Graph, a: nat, b: nat) {
    exists i :: 0 <= i < |g.edges| && g.edges[i].src == a && g.edges[i].dst == b
  }

  /** A path of `k + 1` edges leads from `a` to `b`. */
  ghost predicate ReachesIn(g: Graph, a: nat, b: nat, k: nat)
    decreases k
  {
    if k == 0 then HasEdge(g, a, b)
    else exists c :: HasEdge(g, a, c) && ReachesIn(g, c, b, k - 1)
  }

  /** `a` is a strict ancestor of `b`. */
  ghost predicate Reaches(g: Graph, a: nat, b: nat) {
    exists k: nat :: ReachesIn(g, a, b, k)
  }

  ghost predicate Acyclic(g: Graph) {
    forall a :: !Reaches(g, a, a)
  }

  lemma {:induction false} EdgeReaches(g: Graph, a: nat, b: nat)
    requires HasEdge(g, a, b)
    ensures Reaches(g, a, b)
  {
    assert ReachesIn(g, a, b, 0);
  }

  lemma {:induction false} ReachesInTransitive(g: Graph, a: nat, b: nat, c: nat, j: nat, k: nat)
    requires ReachesIn(g, a, b, j) && ReachesIn(g, b, c, k)
    ensures ReachesIn(g, a, c, j + k + 1)
    decreases j
  {
    if j > 0 {
      var d :| HasEdge(g, a, d) && ReachesIn(g, d, b, j - 1);
      ReachesInTransitive(g, d, b, c, j - 1, k);
    }
  }

  lemma {:induction false} ReachesTransitive(g: Graph, a: nat, b: nat, c: nat)
    requires Reaches(g, a, b) && Reaches(g, b, c)
    ensures Reaches(g, a, c)
  {
    var j: nat :| ReachesIn(g, a, b, j);
    var k: nat :| ReachesIn(g, b, c, k);
    ReachesInTransitive(g, a, b, c, j, k);
  }

  /** A path starts with an edge to some child. */
  lemma {:induction false} ReachesFirst(g: Graph, a: nat, b: nat) returns (c: nat)
    requires Reaches(g, a, b)
    ensures HasEdge(g, a, c) && (c == b || Reaches(g, c, b))
  {
    var k: nat :| ReachesIn(g, a, b, k);
    if k == 0 {
      c := b;
    } else {
      c :| HasEdge(g, a, c) && ReachesIn(g, c, b, k - 1);
    }
  }

  /** A path ends with an edge from some parent. */
  lemma {:induction false} ReachesLast(g: Graph, a: nat, b: nat) returns (c: nat)
    requires Reaches(g, a, b)
    ensures HasEdge(g, c, b) && (c == a || Reaches(g, a, c))
  {
    var k: nat :| ReachesIn(g, a, b, k);
    c := ReachesInLast(g, a, b, k);
  }

  lemma {:induction false} ReachesInLast(g: Graph, a: nat, b: nat, k: nat) returns (c: nat)
    requires ReachesIn(g, a, b, k)
    ensures HasEdge(g, c, b) && (c == a || Reaches(g, a, c))
    decreases k
  {
    if k == 0 {
      c := a;
    } else {
      var d :| HasEdge(g, a, d) && ReachesIn(g, d, b, k - 1);
      c := ReachesInLast(g, d, b, k - 1);
      EdgeReaches(g, a, d);
      if c != d {
        ReachesTransitive(g, a, d, c);
      }
    }
  }

  lemma {:induction false} ReachesInRange(g: Graph, a: nat, b: nat)
    requires InRange(g) && Reaches(g, a, b)
    ensures a < |g.kinds| && b < |g.kinds|
  {
    var c := ReachesFirst(g, a, b);
    var d := ReachesLast(g, a, b);
  }

  ghost function Descendants(g: Graph, a: nat): set<nat> {
    set b | 0 <= b < |g.kinds| && Reaches(g, a, b)
  }

  ghost function Ancestors(g: Graph, b: nat): set<nat> {
    set a | 0 <= a < |g.kinds| && Reaches(g, a, b)
  }

  lemma {:induction false} ProperSubsetSmaller(s: set<nat>, t: set<nat>)
    requires s < t
    ensures |s| < |t|
  {
    var x :| x in t && x !in s;
    assert s <= t - {x};
    SubsetSize(s, t - {x});
  }

  lemma {:induction false} SubsetSize(s: set<nat>, t: set<nat>)
    requires s <= t
    ensures |s| <= |t|
  {
    if s != {} {
      var x :| x in s;
      SubsetSize(s - {x}, t - {x});
    }
  }

  /** The measure by which every recursion over the graph terminates. */
  lemma {:induction false} DescendantsShrink(g: Graph, a: nat, b: nat)
    requires InRange(g) && Acyclic(g) && Reaches(g, a, b)
    ensures |Descendants(g, b)| < |Descendants(g, a)|
  {
    forall c | c in Descendants(g, b) ensures c in Descendants(g, a) {
      ReachesTransitive(g, a, b, c);
    }
    ReachesInRange(g, a, b);
    assert b in Descendants(g, a) && b !in Descendants(g, b);
    ProperSubsetSmaller(Descendants(g, b), Descendants(g, a));
  }

  lemma {:induction false} AncestorsShrink(g: Graph, a: nat, b: nat)
    requires InRange(g) && Acyclic(g) && Reaches(g, a, b)
    ensures |Ancestors(g, a)| < |Ancestors(g, b)|
  {
    forall c | c in Ancestors(g, a) ensures c in Ancestors(g, b) {
      ReachesTransitive(g, c, a, b);
    }
    ReachesInRange(g, a, b);
    assert a in Ancestors(g, b) && a !in Ancestors(g, a);
    ProperSubsetSmaller(Ancestors(g, a), Ancestors(g, b));
  }

  // ----- the graph's own queries -----

  lemma {:induction false} OutEdgeShrinks(g: Graph, a: nat, k: nat)
    requires InRange(g) && Acyclic(g)
    requires k < |OutEdges(g.edges, a)|
    ensures HasEdge(g, a, ChildAt(g, a, k))
    ensures |Descendants(g, ChildAt(g, a, k))| < |Descendants(g, a)|
  {
    var b := ChildAt(g, a, k);
    assert HasEdge(g, a, b);
    EdgeReaches(g, a, b);
    DescendantsShrink(g, a, b);
  }

  /** The node a given outgoing edge of `a` leads to. */
  function ChildAt(g: Graph, a: nat, k: nat): nat
    requires k < |OutEdges(g.edges, a)|
  {
    g.edges[OutEdges(g.edges, a)[k]].dst
  }

  lemma {:induction false} ReachesViaChild(g: Graph, a: nat, s: nat)
    ensures Reaches(g, a, s) <==>
            exists k :: 0 <= k < |OutEdges(g.edges, a)| && (ChildAt(g, a, k) == s || Reaches(g, ChildAt(g, a, k), s))
  {
    var out := OutEdges(g.edges, a);
    if Reaches(g, a, s) {
      var c := ReachesFirst(g, a, s);
      var k := ChildListed(g, a, c);
      assert ChildAt(g, a, k) == c;
    }
    if k :| 0 <= k < |out| && (ChildAt(g, a, k) == s || Reaches(g, ChildAt(g, a, k), s)) {
      assert HasEdge(g, a, ChildAt(g, a, k));
      EdgeReaches(g, a, ChildAt(g, a, k));
      if ChildAt(g, a, k) != s {
        ReachesTransitive(g, a, ChildAt(g, a, k), s);
      }
    }
  }

  /** Tries to reach `s` from `a` by walking child edges; it decides exactly the ancestor relation. */
  predicate IsAncestor(g: Graph, a: nat, s: nat): (r: bool)
    requires InRange(g) && Acyclic(g)
    ensures r <==> Reaches(g, a, s)
    decreases |Descendants(g, a)|
  {
    ReachesViaChild(g, a, s);
    exists k ::
      && 0 <= k < |OutEdges(g.edges, a)|
      && (OutEdgeShrinks(g, a, k);
          ChildAt(g, a, k) == s || IsAncestor(g, ChildAt(g, a, k), s))
  }

  /** All parents of `c` other than `p` are strict ancestors of `p`. */
  predicate IsDirectChild(g: Graph, p: nat, c: nat): (r: bool)
    requires InRange(g) && Acyclic(g)
    ensures r <==> forall a :: HasEdge(g, a, c) ==> a == p || Reaches(g, a, p)
  {
    var incoming := InEdges(g.edges, c);
    var r := forall k :: 0 <= k < |incoming| ==>
      g.edges[incoming[k]].src == p || IsAncestor(g, g.edges[incoming[k]].src, p);
    assert r ==> forall a :: HasEdge(g, a, c) ==> a == p || Reaches(g, a, p) by {
      if r {
        forall a | HasEdge(g, a, c) ensures a == p || Reaches(g, a, p) {
          var k := ParentListed(g, a, c);
        }
      }
    }
    assert forall k :: 0 <= k < |incoming| ==> HasEdge(g, g.edges[incoming[k]].src, c);
    r
  }

  predicate IsResult(g: Graph, n: nat) {
    n in g.results
  }

  lemma {:induction false} ResultViaChild(g: Graph, n: nat)
    ensures (exists m :: Reaches(g, n, m) && IsResult(g, m)) <==>
            exists k :: 0 <= k < |OutEdges(g.edges, n)| &&
              (IsResult(g, ChildAt(g, n, k)) || exists m :: Reaches(g, ChildAt(g, n, k), m) && IsResult(g, m))
  {
    if m :| Reaches(g, n, m) && IsResult(g, m) {
      ReachesViaChild(g, n, m);
    }
    if k :|
        && 0 <= k < |OutEdges(g.edges, n)|
        && (IsResult(g, ChildAt(g, n, k)) || exists m :: Reaches(g, ChildAt(g, n, k), m) && IsResult(g, m)) {
      var m :| IsResult(g, m) && (m == ChildAt(g, n, k) || Reaches(g, ChildAt(g, n, k), m));
      ReachesViaChild(g, n, m);
    }
  }

  /** The subgraph below (and including) `n` holds a result node. */
  predicate ContainsResult(g: Graph, n: nat): (r: bool)
    requires InRange(g) && Acyclic(g)
    ensures r <==> IsResult(g, n) || exists m :: Reaches(g, n, m) && IsResult(g, m)
    decreases |Descendants(g, n)|
  {
    ResultViaChild(g, n);
    || IsResult(g, n)
    || exists k ::
         && 0 <= k < |OutEdges(g.edges, n)|
         && (OutEdgeShrinks(g, n, k);
             ContainsResult(g, ChildAt(g, n, k)))
  }

  // ----- the documented invariant, and what it is equivalent to -----

  /** All parents of a node are pairwise related: one is an ancestor of the other. */
  ghost predicate RelatedParents(g: Graph) {
    forall n, a, b :: HasEdge(g, a, n) && HasEdge(g, b, n) && a != b ==> Reaches(g, a, b) || Reaches(g, b, a)
  }

  ghost predicate IsDirectParent(g: Graph, p: nat, n: nat)
    requires InRange(g) && Acyclic(g)
  {
    HasEdge(g, p, n) && IsDirectChild(g, p, n)
  }

  /** Every node with a parent hangs directly under one of its parents. */
  ghost predicate AllHaveDirectParent(g: Graph)
    requires InRange(g) && Acyclic(g)
  {
    forall n :: HasParent(g, n) ==> HasDirectParent(g, n)
  }

  ghost predicate HasParent(g: Graph, n: nat) {
    exists a :: HasEdge(g, a, n)
  }

  ghost predicate HasDirectParent(g: Graph, n: nat)
    requires InRange(g) && Acyclic(g)
  {
    exists p :: IsDirectParent(g, p, n)
  }

  lemma {:induction false} DirectParentUnique(g: Graph, p: nat, q: nat, n: nat)
    requires InRange(g) && Acyclic(g)
    requires IsDirectParent(g, p, n) && IsDirectParent(g, q, n)
    ensures p == q
  {
    if p != q {
      ReachesTransitive(g, p, q, p);
    }
  }

  /** Among the first `k` incoming edges of `n` there is a lowest source. */
  lemma {:induction false} LowestOf(g: Graph, n: nat, k: nat) returns (p: nat)
    requires InRange(g) && Acyclic(g) && RelatedParents(g)
    requires 0 < k <= |InEdges(g.edges, n)|
    ensures HasEdge(g, p, n)
    ensures forall j :: 0 <= j < k ==> var a := g.edges[InEdges(g.edges, n)[j]].src; a == p || Reaches(g, a, p)
  {
    var incoming := InEdges(g.edges, n);
    var a := g.edges[incoming[k - 1]].src;
    assert HasEdge(g, a, n);
    if k == 1 {
      p := a;
    } else {
      p := LowestOf(g, n, k - 1);
      if a != p && !Reaches(g, a, p) {
        var lowest := p;
        p := a;
        forall j | 0 <= j < k ensures var b := g.edges[incoming[j]].src; b == p || Reaches(g, b, p) {
          var b := g.edges[incoming[j]].src;
          if j < k - 1 && b != lowest {
            ReachesTransitive(g, b, lowest, p);
          }
        }
      }
    }
  }

  lemma {:induction false} LowestParent(g: Graph, n: nat) returns (p: nat)
    requires InRange(g) && Acyclic(g) && RelatedParents(g)
    requires HasParent(g, n)
    ensures IsDirectParent(g, p, n)
  {
    var incoming := InEdges(g.edges, n);
    var a :| HasEdge(g, a, n);
    var j := ParentListed(g, a, n);
    p := LowestOf(g, n, |incoming|);
    forall b | HasEdge(g, b, n) ensures b == p || Reaches(g, b, p) {
      var k := ParentListed(g, b, n);
    }
  }

  /** Every ancestor of a node is its direct parent or an ancestor of that. */
  lemma {:induction false} AncestorAboveDirectParent(g: Graph, a: nat, p: nat, n: nat)
    requires InRange(g) && Acyclic(g)
    requires IsDirectParent(g, p, n) && Reaches(g, a, n)
    ensures a == p || Reaches(g, a, p)
  {
    var c := ReachesLast(g, a, n);
    if c != p && a != c {
      ReachesTransitive(g, a, c, p);
    }
  }

  /** The ancestors of any node form a chain. */
  lemma {:induction false} AncestorsFormChain(g: Graph, a: nat, b: nat, n: nat)
    requires InRange(g) && Acyclic(g) && AllHaveDirectParent(g)
    requires Reaches(g, a, n) && Reaches(g, b, n) && a != b
    ensures Reaches(g, a, b) || Reaches(g, b, a)
    decreases |Ancestors(g, n)|
  {
    var c := ReachesLast(g, a, n);
    assert HasParent(g, n);
    var p :| IsDirectParent(g, p, n);
    AncestorAboveDirectParent(g, a, p, n);
    AncestorAboveDirectParent(g, b, p, n);
    if a != p && b != p {
      EdgeReaches(g, p, n);
      AncestorsShrink(g, p, n);
      AncestorsFormChain(g, a, b, p);
    }
  }

  /**
   The documented invariant holds exactly when every non-root node is a direct child
   of some parent, and that parent is then unique.
   */
  lemma {:induction false} RelatedIffDirectParents(g: Graph)
    requires InRange(g) && Acyclic(g)
    ensures RelatedParents(g) <==> AllHaveDirectParent(g)
    ensures forall p, q, n :: IsDirectParent(g, p, n) && IsDirectParent(g, q, n) ==> p == q
  {
    if RelatedParents(g) {
      forall n | HasParent(g, n) ensures HasDirectParent(g, n) {
        var p := LowestParent(g, n);
      }
    }
    if AllHaveDirectParent(g) {
      forall n, a, b | HasEdge(g, a, n) && HasEdge(g, b, n) && a != b
        ensures Reaches(g, a, b) || Reaches(g, b, a)
      {
        EdgeReaches(g, a, n);
        EdgeReaches(g, b, n);
        AncestorsFormChain(g, a, b, n);
      }
    }
    forall p, q, n | IsDirectParent(g, p, n) && IsDirectParent(g, q, n) ensures p == q {
      DirectParentUnique(g, p, q, n);
    }
  }

  /** The scope tree: a direct child's ancestors are its direct parent and that parent's ancestors. */
  lemma {:induction false} DirectChildAncestors(g: Graph, p: nat, n: nat)
    requires InRange(g) && Acyclic(g)
    requires IsDirectParent(g, p, n)
    ensures Ancestors(g, n) == Ancestors(g, p) + {p}
  {
    EdgeReaches(g, p, n);
    ReachesInRange(g, p, n);
    forall a | a in Ancestors(g, n) ensures a in Ancestors(g, p) + {p} {
      AncestorAboveDirectParent(g, a, p, n);
    }
    forall a | a in Ancestors(g, p) ensures a in Ancestors(g, n) {
      ReachesTransitive(g, a, p, n);
    }
  }

  /** A node together with everything below it. */
  ghost function Subgraph(g: Graph, n: nat): set<nat> {
    Descendants(g, n) + {n}
  }

  /** Two different direct children of one node share no descendant. */
  lemma {:induction false} SiblingsDisjoint(g: Graph, p: nat, c: nat, d: nat)
    requires InRange(g) && Acyclic(g) && AllHaveDirectParent(g)
    requires IsDirectParent(g, p, c) && IsDirectParent(g, p, d) && c != d
    ensures Subgraph(g, c) !! Subgraph(g, d)
  {
    SiblingsUnrelated(g, p, c, d);
    SiblingsUnrelated(g, p, d, c);
    forall m | m in Subgraph(g, c) ensures m !in Subgraph(g, d) {
      if m != c && m != d && Reaches(g, d, m) {
        AncestorsFormChain(g, c, d, m);
      }
    }
  }

  lemma {:induction false} SiblingsUnrelated(g: Graph, p: nat, c: nat, d: nat)
    requires InRange(g) && Acyclic(g)
    requires IsDirectParent(g, p, c) && IsDirectParent(g, p, d)
    ensures !Reaches(g, c, d)
  {
    if Reaches(g, c, d) {
      AncestorAboveDirectParent(g, c, p, d);
      EdgeReaches(g, p, c);
      if c != p {
        ReachesTransitive(g, c, p, c);
      }
    }
  }

  // ----- roots -----

  predicate IsRoot(g: Graph, n: nat) {
    InEdges(g.edges, n) == []
  }

  /** Root nodes among the first `k` nodes, in index order. */
  function RootsUpTo(g: Graph, k: nat): (r: seq<nat>)
    ensures forall i :: 0 <= i < |r| ==> r[i] < k && IsRoot(g, r[i])
    ensures forall n: nat :: n < k && IsRoot(g, n) ==> n in r
  {
    if k == 0 then []
    else
      var before := RootsUpTo(g, k - 1);
      if IsRoot(g, k - 1) then before + [k - 1] else before
  }

  lemma {:induction false} RootsAscending(g: Graph, k: nat)
    ensures Ascending(RootsUpTo(g, k))
  {
    hide IsRoot;
    if k > 0 {
      RootsAscending(g, k - 1);
      var before := RootsUpTo(g, k - 1);
      assert forall i :: 0 <= i < |before| ==> before[i] < k - 1;
      assert Ascending(before + [k - 1]);
    }
  }

  function Roots(g: Graph): seq<nat> {
    RootsUpTo(g, |g.kinds|)
  }

  lemma {:induction false} RootHasNoAncestor(g: Graph, r: nat)
    requires InRange(g) && IsRoot(g, r)
    ensures Ancestors(g, r) == {}
  {
    forall a ensures !Reaches(g, a, r) {
      if Reaches(g, a, r) {
        var c := ReachesLast(g, a, r);
        var k := ParentListed(g, c, r);
      }
    }
  }

  lemma {:induction false} RootsDisjoint(g: Graph, r: nat, s: nat)
    requires InRange(g) && Acyclic(g) && AllHaveDirectParent(g)
    requires r < |g.kinds| && s < |g.kinds|
    requires IsRoot(g, r) && IsRoot(g, s) && r != s
    ensures Subgraph(g, r) !! Subgraph(g, s)
  {
    RootHasNoAncestor(g, r);
    RootHasNoAncestor(g, s);
    forall m | m in Subgraph(g, r) ensures m !in Subgraph(g, s) {
      assert !Reaches(g, r, s) by { assert r !in Ancestors(g, s); }
      assert !Reaches(g, s, r) by { assert s !in Ancestors(g, r); }
      if m != r && m != s && Reaches(g, s, m) {
        AncestorsFormChain(g, r, s, m);
      }
    }
  }

  /** Every node lies under some root. */
  lemma {:induction false} UnderSomeRoot(g: Graph, n: nat) returns (r: nat)
    requires InRange(g) && Acyclic(g) && n < |g.kinds|
    ensures r < |g.kinds| && IsRoot(g, r) && n in Subgraph(g, r)
    decreases |Ancestors(g, n)|
  {
    if IsRoot(g, n) {
      r := n;
    } else {
      var e := g.edges[InEdges(g.edges, n)[0]];
      assert HasEdge(g, e.src, n);
      EdgeReaches(g, e.src, n);
      AncestorsShrink(g, e.src, n);
      r := UnderSomeRoot(g, e.src);
      if e.src != r {
        ReachesTransitive(g, r, e.src, n);
      }
    }
  }
}
