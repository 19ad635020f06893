/**
 Which nodes of a compiled graph run.  Every `If` node decides by the ids of its
 parent for one of its arms; in a successful run exactly those queries run to which
 all decisions above them lead.
 */
module Arms {
  import opened Wrappers
  import opened QueryGraphs
  import opened Interpreter
  import opened Expressionista
  import opened Scopes
  import opened Execution
  import opened Sources
  import opened Feeding

  // ----- decisions -----

  /** The condition of an `If` node holds of what it decides on. */
  ghost predicate Held(w: World, g: Graph, h: seq<Event>, a: nat) {
    exists c :: DecidesOn(w, g, h, a, c) && w.condition(c)
  }

  /** `m` is below the arm of `a` that the last edge of this kind leads to. */
  ghost predicate InArm(g: Graph, a: nat, dep: Dependency, m: nat) {
    exists i: nat :: ArmEdge(g, a, dep, i) && m in Subgraph(g, g.edges[i].dst)
  }

  ghost predicate ArmEdge(g: Graph, a: nat, dep: Dependency, i: nat) {
    && i < |g.edges| && g.edges[i].src == a && g.edges[i].dep == dep
    && forall j :: i < j < |g.edges| && g.edges[j].src == a ==> g.edges[j].dep != dep
  }

  type Decisions = nat -> bool

  ghost function Decided(w: World, g: Graph, h: seq<Event>): Decisions {
    (a: nat) => Held(w, g, h, a)
  }

  /** All decisions above `m`, from `n` on, lead to it. */
  ghost predicate LedTo(g: Graph, d: Decisions, n: nat, m: nat) {
    forall a :: a in Subgraph(g, n) && a < |g.kinds| && g.kinds[a].IfFlow? && Reaches(g, a, m) ==>
      InArm(g, a, if d(a) then Then else Else, m)
  }

  /** All decisions above `m` lead to it. */
  ghost predicate Chosen(w: World, g: Graph, h: seq<Event>, m: nat) {
    forall a: nat :: a < |g.kinds| && g.kinds[a].IfFlow? && Reaches(g, a, m) ==>
      InArm(g, a, if Held(w, g, h, a) then Then else Else, m)
  }

  // ----- nodes of a program that decisions lead to -----

  ghost function Picked(e: Expr, d: Decisions): set<nat>
    decreases e, 1
  {
    match e
    case Sequence(es) => PickedAll(es, d)
    case RunQuery(n) => {n}
    case Func(n, _, AsQuery) => {n}
    case Func(_, _, AsSequence(es)) => PickedAll(es, d)
    case Func(n, _, AsIf(yes, no)) => if d(n) then Picked(yes, d) else PickedAll(no, d)
    case Let(bs, body) => PickedBindings(bs, d) + PickedAll(body, d)
    case Get(_) => {}
    case GetFirstNonEmpty(_) => {}
  }

  ghost function PickedAll(es: seq<Expr>, d: Decisions): set<nat>
    decreases es, 0
  {
    if es == [] then {} else Picked(es[0], d) + PickedAll(es[1..], d)
  }

  ghost function PickedBindings(bs: seq<Binding>, d: Decisions): set<nat>
    decreases bs, 0
  {
    if bs == [] then {} else
      assert bs[0] in bs && bs[0].expr < bs[0];
      Picked(bs[0].expr, d) + PickedBindings(bs[1..], d)
  }

  // ----- what runs of a program -----

  ghost predicate RanIn(h: seq<Event>, k: nat, m: nat) {
    exists i :: k <= i < |h| && h[i].node == m
  }

  /** Only picked nodes run, and all of them on success. */
  ghost predicate RunsPicked(h: seq<Event>, o: Outcome, s: set<nat>) {
    && h <= o.history
    && (forall i :: |h| <= i < |o.history| ==> o.history[i].node in s)
    && (o.result.Ok? ==> forall m :: m in s ==> RanIn(o.history, |h|, m))
  }

  lemma {:induction false} PickedThen(h: seq<Event>, h': seq<Event>, o: Outcome, s: set<nat>, t: set<nat>)
    requires h <= h' && (forall i :: |h| <= i < |h'| ==> h'[i].node in s) && (forall m :: m in s ==> RanIn(h', |h|, m))
    requires RunsPicked(h', o, t)
    ensures RunsPicked(h, o, s + t)
  {
    forall i | |h| <= i < |o.history| ensures o.history[i].node in s + t {
      if i < |h'| {
        assert o.history[i] == h'[i];
      }
    }
    if o.result.Ok? {
      forall m | m in s + t ensures RanIn(o.history, |h|, m) {
        if m in s {
          var i :| |h| <= i < |h'| && h'[i].node == m;
          assert o.history[i] == h'[i];
        } else {
          assert RanIn(o.history, |h'|, m);
        }
      }
    }
  }

  ghost predicate Once(h: seq<Event>) {
    forall i, j :: 0 <= i < j < |h| ==> h[i].node != h[j].node
  }

  /** If every node runs at most once, the decisions are those that were made. */
  lemma {:induction false} DecidedIsHeld(w: World, g: Graph, h: seq<Event>, whole: seq<Event>, n: nat, c: Content)
    requires h <= whole && Once(whole) && DecidesOn(w, g, h, n, c)
    ensures Held(w, g, whole, n) <==> w.condition(c)
  {
    DecidesLater(w, g, h, whole, n, c);
    forall c' | DecidesOn(w, g, whole, n, c') ensures c' == c {
      DecidesOnce(w, g, whole, n, c, c');
    }
  }

  lemma {:induction false} DecidesLater(w: World, g: Graph, h: seq<Event>, whole: seq<Event>, n: nat, c: Content)
    requires h <= whole && DecidesOn(w, g, h, n, c)
    ensures DecidesOn(w, g, whole, n, c)
  {
    var i: nat, ids :| LastInto(g, n, i) && g.edges[i].dep.ParentIds? && Gave(w, h, g.edges[i].src, ids)
                       && w.transform(g.edges[i].dep.f, w.content(n), ids) == Some(c);
    var j :| 0 <= j < |h| && h[j].node == g.edges[i].src && h[j].outcome.Some? && w.ids(h[j].outcome.value) == Some(ids);
    assert whole[j] == h[j];
    assert Gave(w, whole, g.edges[i].src, ids);
  }

  lemma {:induction false} DecidesOnce(w: World, g: Graph, h: seq<Event>, n: nat, c: Content, c': Content)
    requires Once(h) && DecidesOn(w, g, h, n, c) && DecidesOn(w, g, h, n, c')
    ensures c == c'
  {
    var i: nat, ids :| LastInto(g, n, i) && g.edges[i].dep.ParentIds? && Gave(w, h, g.edges[i].src, ids)
                       && w.transform(g.edges[i].dep.f, w.content(n), ids) == Some(c);
    var i': nat, ids' :| LastInto(g, n, i') && g.edges[i'].dep.ParentIds? && Gave(w, h, g.edges[i'].src, ids')
                         && w.transform(g.edges[i'].dep.f, w.content(n), ids') == Some(c');
    assert i == i';
    GivesOnce(w, h, g.edges[i].src, ids, ids');
  }

  lemma {:induction false} GivesOnce(w: World, h: seq<Event>, p: nat, ids: seq<Id>, ids': seq<Id>)
    requires Once(h) && Gave(w, h, p, ids) && Gave(w, h, p, ids')
    ensures ids == ids'
  {
    var i :| 0 <= i < |h| && h[i].node == p && h[i].outcome.Some? && w.ids(h[i].outcome.value) == Some(ids);
    var j :| 0 <= j < |h| && h[j].node == p && h[j].outcome.Some? && w.ids(h[j].outcome.value) == Some(ids');
    assert i == j;
  }

  lemma {:induction false} ExecutePicks(w: World, n: nat, c: Content, h: seq<Event>)
    ensures RunsPicked(h, Execute(w, n, c, h), {n})
  {
    var o := Execute(w, n, c, h);
    assert o.history[|h|].node == n;
    assert RanIn(o.history, |h|, n);
  }

  lemma {:induction false} Picks(w: World, g: Graph, e: Expr, env: Env, h: seq<Event>, whole: seq<Event>)
    requires Honest(g, e) && Carried(env, h) && Interpret(w, e, env, h).history <= whole && Once(whole)
    ensures RunsPicked(h, Interpret(w, e, env, h), Picked(e, Decided(w, g, whole)))
    decreases e, 1
  {
    hide RunsPicked, Carried, Decided, Once;
    match e
    case Sequence(es) => PicksAll(w, g, es, env, h, whole);
    case RunQuery(n) => ExecutePicks(w, n, w.content(n), h);
    case Func(n, deps, target) => PicksFunc(w, g, n, deps, target, env, h, whole);
    case Let(bs, body) => PicksLet(w, g, bs, body, env, h, whole);
    case Get(n) => PicksNothing(h, Interpret(w, e, env, h), {});
    case GetFirstNonEmpty(names) => PicksNothing(h, Interpret(w, e, env, h), {});
  }

  lemma {:induction false} PicksNothing(h: seq<Event>, o: Outcome, s: set<nat>)
    requires o.history == h && (o.result.Ok? ==> s == {})
    ensures RunsPicked(h, o, s)
  {
  }

  lemma {:induction false} PicksFunc(w: World, g: Graph, n: nat, deps: seq<ParentDep>, target: Target, env: Env, h: seq<Event>, whole: seq<Event>)
    requires Honest(g, Func(n, deps, target)) && Carried(env, h) && Once(whole)
    requires Interpret(w, Func(n, deps, target), env, h).history <= whole
    ensures RunsPicked(h, Interpret(w, Func(n, deps, target), env, h), Picked(Func(n, deps, target), Decided(w, g, whole)))
    decreases Func(n, deps, target), 0
  {
    var o, d := Interpret(w, Func(n, deps, target), env, h), Decided(w, g, whole);
    if target.AsIf? {
      IfFeeds(w, g, env, h, n, deps);
    }
    hide RunsPicked, Carried, Once, Thread, Explained, DecidesOn, IfLookup, DepsOf;
    match Thread(w, deps, env, w.content(n))
    case (None, _) => PicksNothing(h, o, Picked(Func(n, deps, target), d));
    case (Some(c), _) =>
      match target
      case AsQuery => ExecutePicks(w, n, c, h);
      case AsSequence(es) => PicksAll(w, g, es, env, h, whole);
      case AsIf(yes, no) =>
        DecidedIsHeld(w, g, h, whole, n, c);
        if w.condition(c) {
          Picks(w, g, yes, env, h, whole);
        } else {
          PicksAll(w, g, no, env, h, whole);
        }
  }

  lemma {:induction false} PicksAll(w: World, g: Graph, es: seq<Expr>, env: Env, h: seq<Event>, whole: seq<Event>)
    requires AllHonest(g, es) && Carried(env, h) && InterpretAll(w, es, env, h).history <= whole && Once(whole)
    ensures RunsPicked(h, InterpretAll(w, es, env, h), PickedAll(es, Decided(w, g, whole)))
    decreases es, 0
  {
    var o, d := InterpretAll(w, es, env, h), Decided(w, g, whole);
    hide Carried, Once, Decided, Honest;
    if es == [] {
      PicksNothing(h, o, {});
    } else {
      var first := Interpret(w, es[0], env, h);
      Picks(w, g, es[0], env, h, whole);
      if first.result.Ok? && |es| > 1 {
        CarriedLater(env, h, first.history);
        PicksAll(w, g, es[1..], env, first.history, whole);
        PickedThen(h, first.history, o, Picked(es[0], d), PickedAll(es[1..], d));
      } else {
        assert |es| == 1 ==> PickedAll(es[1..], d) == {};
      }
    }
  }

  lemma {:induction false} PicksBindings(w: World, g: Graph, bs: seq<Binding>, env: Env, inner: Env, h: seq<Event>, whole: seq<Event>)
    requires BindingsHonest(g, bs) && Carried(env, h) && Bind(w, bs, env, inner, h).0 <= whole && Once(whole)
    ensures var (h', r, _) := Bind(w, bs, env, inner, h); RunsPicked(h, Outcome(h', r), PickedBindings(bs, Decided(w, g, whole)))
    decreases bs, 0
  {
    var (h', r, inner') := Bind(w, bs, env, inner, h);
    var d := Decided(w, g, whole);
    hide Carried, Once, Decided, Honest;
    if bs == [] {
      PicksNothing(h, Outcome(h', r), {});
    } else {
      assert bs[0] in bs && bs[0].expr < bs[0];
      var first := Interpret(w, bs[0].expr, env, h);
      Picks(w, g, bs[0].expr, env, h, whole);
      if first.result.Ok? {
        CarriedLater(env, h, first.history);
        PicksBindings(w, g, bs[1..], env, inner[bs[0].name := first.result.value], first.history, whole);
        PickedThen(h, first.history, Outcome(h', r), Picked(bs[0].expr, d), PickedBindings(bs[1..], d));
      }
    }
  }

  lemma {:induction false} PicksLet(w: World, g: Graph, bs: seq<Binding>, body: seq<Expr>, env: Env, h: seq<Event>, whole: seq<Event>)
    requires Honest(g, Let(bs, body)) && Carried(env, h) && Interpret(w, Let(bs, body), env, h).history <= whole && Once(whole)
    ensures RunsPicked(h, Interpret(w, Let(bs, body), env, h), Picked(Let(bs, body), Decided(w, g, whole)))
    decreases Let(bs, body), 0
  {
    var (h', r, inner) := Bind(w, bs, env, env, h);
    var o, d := Interpret(w, Let(bs, body), env, h), Decided(w, g, whole);
    PicksBindings(w, g, bs, env, env, h, whole);
    if r.Ok? {
      if |body| == 1 && body[0].GetFirstNonEmpty? {
        assert InterpretAll(w, body, inner, h') == Interpret(w, body[0], inner, h');
        assert body[1..] == [] && PickedAll(body, d) == {};
        PicksNothing(h', o, {});
      } else {
        assert bs == [bs[0]];
        OwnIsCarried(w, bs[0], env, h);
        PicksAll(w, g, body, inner, h', whole);
      }
      PickedThen(h, h', o, PickedBindings(bs, d), PickedAll(body, d));
    }
  }

  // ----- what is picked of a compiled graph -----

  /** A query below `n` to which all decisions from `n` on lead. */
  ghost predicate Opened(g: Graph, d: Decisions, n: nat, m: nat) {
    m in Subgraph(g, n) && m < |g.kinds| && g.kinds[m].Query? && LedTo(g, d, n, m)
  }

  ghost predicate OpenedIn(g: Graph, d: Decisions, ns: seq<nat>, m: nat) {
    exists c :: c in ns && Opened(g, d, c, m)
  }

  lemma {:induction false} BelowChild(g: Graph, n: nat, c: nat, m: nat)
    requires InRange(g) && Acyclic(g) && IsDirectParent(g, n, c) && m in Subgraph(g, c)
    ensures m in Descendants(g, n) && Reaches(g, n, m)
  {
    EdgeReaches(g, n, c);
    ReachesInRange(g, n, c);
    if m != c {
      ReachesTransitive(g, n, c, m);
    }
  }

  /** Between a node and its direct child there is nothing above `m`. */
  lemma {:induction false} NothingBetween(g: Graph, n: nat, c: nat, m: nat, a: nat)
    requires InRange(g) && Acyclic(g) && AllHaveDirectParent(g) && IsDirectParent(g, n, c) && m in Subgraph(g, c)
    requires a in Subgraph(g, n) && a != n && Reaches(g, a, m)
    ensures a in Subgraph(g, c)
  {
    ReachesInRange(g, a, m);
    if Reaches(g, a, c) {
      DirectChildAncestors(g, n, c);
      ReachesInRange(g, a, c);
      assert a in Ancestors(g, c);
      ReachesTransitive(g, a, n, a);
    } else if a != c && m != c {
      AncestorsFormChain(g, a, c, m);
    }
  }

  /** The decisions from `n` on are its own, if it makes one, and those from its child on. */
  lemma {:induction false} LedThrough(g: Graph, d: Decisions, n: nat, c: nat, m: nat)
    requires InRange(g) && Acyclic(g) && AllHaveDirectParent(g) && IsDirectParent(g, n, c) && m in Subgraph(g, c) && n < |g.kinds|
    ensures LedTo(g, d, n, m) <==>
            LedTo(g, d, c, m) && (g.kinds[n].IfFlow? ==> InArm(g, n, if d(n) then Then else Else, m))
  {
    BelowChild(g, n, c, m);
    hide InArm;
    if LedTo(g, d, n, m) {
      forall a | a in Subgraph(g, c) && a < |g.kinds| && g.kinds[a].IfFlow? && Reaches(g, a, m)
        ensures InArm(g, a, if d(a) then Then else Else, m)
      {
        BelowChild(g, n, c, a);
      }
    }
    if LedTo(g, d, c, m) && (g.kinds[n].IfFlow? ==> InArm(g, n, if d(n) then Then else Else, m)) {
      forall a | a in Subgraph(g, n) && a < |g.kinds| && g.kinds[a].IfFlow? && Reaches(g, a, m)
        ensures InArm(g, a, if d(a) then Then else Else, m)
      {
        if a != n {
          NothingBetween(g, n, c, m, a);
        }
      }
    }
  }

  lemma {:induction false} LedToItself(g: Graph, d: Decisions, n: nat)
    requires InRange(g) && Acyclic(g)
    ensures LedTo(g, d, n, n)
  {
    forall a | a in Subgraph(g, n) ensures !Reaches(g, a, n) {
      if Reaches(g, a, n) && a != n {
        ReachesTransitive(g, n, a, n);
      }
    }
  }

  /** Below a node that makes no decision, what is opened is opened below a child. */
  lemma {:induction false} OpenedBelow(g: Graph, d: Decisions, n: nat, kids: seq<nat>, m: nat)
    requires InRange(g) && Acyclic(g) && AllHaveDirectParent(g) && n < |g.kinds| && !g.kinds[n].IfFlow?
    requires forall c :: c in kids <==> IsDirectParent(g, n, c)
    ensures Opened(g, d, n, m) <==> (m == n && g.kinds[n].Query?) || OpenedIn(g, d, kids, m)
  {
    LedToItself(g, d, n);
    hide LedTo;
    if m == n {
      forall c | c in kids ensures m !in Subgraph(g, c) {
        if m in Subgraph(g, c) {
          BelowChild(g, n, c, m);
        }
      }
    } else {
      if m in Subgraph(g, n) {
        var c := UnderDirectChild(g, n, m);
        LedThrough(g, d, n, c, m);
      }
      if OpenedIn(g, d, kids, m) {
        var c :| c in kids && Opened(g, d, c, m);
        BelowChild(g, n, c, m);
        LedThrough(g, d, n, c, m);
      }
    }
  }

  lemma {:induction false} PickedAppend(a: seq<Expr>, b: seq<Expr>, d: Decisions)
    ensures PickedAll(a + b, d) == PickedAll(a, d) + PickedAll(b, d)
    decreases |a|
  {
    if a == [] {
      assert a + b == b;
    } else {
      assert (a + b)[0] == a[0] && (a + b)[1..] == a[1..] + b;
      PickedAppend(a[1..], b, d);
    }
  }

  lemma {:induction false} PickedBound(ns: seq<nat>, es: seq<Expr>, d: Decisions)
    requires |ns| == |es|
    ensures PickedBindings(Bindings(ns, es), d) == PickedAll(es, d)
    decreases |ns|
  {
    if ns != [] {
      assert Bindings(ns, es)[1..] == Bindings(ns[1..], es[1..]);
      PickedBound(ns[1..], es[1..], d);
    }
  }

  lemma {:induction false} ResultScopePicked(res: seq<nat>, scoped: seq<Expr>, d: Decisions)
    requires |res| == |scoped|
    ensures PickedAll(ResultScope(res, scoped), d) == PickedAll(scoped, d)
  {
    if res != [] {
      PickedBound(res, scoped, d);
      var body := [GetFirstNonEmpty(res)];
      assert body[1..] == [] && PickedAll(body, d) == {};
      var scope := Let(Bindings(res, scoped), body);
      assert [scope][1..] == [] && PickedAll([scope], d) == Picked(scope, d);
    }
  }

  lemma {:induction false} QueryScopePicked(g: Graph, n: nat, body: seq<Expr>, d: Decisions)
    ensures Picked(QueryScope(g, n, body), d) == {n} + PickedAll(body, d)
  {
    var own := Transform(g, n, AsQuery);
    assert Picked(own, d) == {n};
    if body != [] {
      var more: seq<Expr> := if IsResult(g, n) then [Get(n)] else [];
      assert PickedAll(more, d) == {} by {
        assert |more| > 0 ==> more[1..] == [];
      }
      PickedAppend(body, more, d);
      var bs := [Binding(n, own)];
      assert bs[1..] == [] && PickedBindings(bs, d) == {n};
    }
  }

  /** What is picked of the expression for `n` are the queries that are opened below it. */
  ghost predicate PicksOpened(g: Graph, d: Decisions, n: nat, s: set<nat>) {
    forall m :: m in s <==> Opened(g, d, n, m)
  }

  ghost predicate PicksOpenedIn(g: Graph, d: Decisions, ns: seq<nat>, s: set<nat>) {
    forall m :: m in s <==> OpenedIn(g, d, ns, m)
  }

  lemma {:induction false} PicksFirst(g: Graph, d: Decisions, ns: seq<nat>, first: set<nat>, rest: set<nat>)
    requires ns != [] && PicksOpened(g, d, ns[0], first) && PicksOpenedIn(g, d, ns[1..], rest)
    ensures PicksOpenedIn(g, d, ns, first + rest)
  {
    hide Opened;
    assert ns == [ns[0]] + ns[1..];
  }

  lemma {:induction false} NodePicked(g: Graph, d: Decisions, n: nat)
    requires Ready(g) && n < |g.kinds| && Build(g, n).Some?
    ensures PicksOpened(g, d, n, Picked(Build(g, n).value, d))
    decreases |Descendants(g, n)|, 2
  {
    match g.kinds[n]
    case Query => QueryPicked(g, d, n);
    case EmptyFlow => EmptyFlowPicked(g, d, n);
    case IfFlow => IfPicked(g, d, n);
  }

  lemma {:induction false} QueryPicked(g: Graph, d: Decisions, n: nat)
    requires Ready(g) && n < |g.kinds| && g.kinds[n].Query? && BuildQuery(g, n).Some?
    ensures PicksOpened(g, d, n, Picked(BuildQuery(g, n).value, d))
    decreases |Descendants(g, n)|, 1
  {
    var (res, rest) := SplitChildren(g, n).value;
    SplitSiblings(g, n);
    ChildrenPicked(g, d, n, rest);
    ChildrenPicked(g, d, n, res);
    var plain, scoped := BuildAll(g, n, rest).value, BuildAll(g, n, res).value;
    ResultScopePicked(res, scoped, d);
    PickedAppend(plain, ResultScope(res, scoped), d);
    QueryScopePicked(g, n, plain + ResultScope(res, scoped), d);
    hide Opened, Picked, PickedAll, QueryScope, ResultScope, SplitChildren, BuildAll, IsDirectChild;
    forall m ensures m in Picked(BuildQuery(g, n).value, d) <==> Opened(g, d, n, m) {
      OpenedBelow(g, d, n, DirectChildren(g, n), m);
      OpenedInParts(g, d, DirectChildren(g, n), rest, res, m);
    }
  }

  lemma {:induction false} OpenedInParts(g: Graph, d: Decisions, kids: seq<nat>, a: seq<nat>, b: seq<nat>, m: nat)
    requires forall x :: x in kids <==> x in a || x in b
    ensures OpenedIn(g, d, kids, m) <==> OpenedIn(g, d, a, m) || OpenedIn(g, d, b, m)
  {
    hide Opened;
  }

  lemma {:induction false} EmptyFlowPicked(g: Graph, d: Decisions, n: nat)
    requires Ready(g) && n < |g.kinds| && g.kinds[n].EmptyFlow? && BuildEmptyFlow(g, n).Some?
    ensures PicksOpened(g, d, n, Picked(BuildEmptyFlow(g, n).value, d))
    decreases |Descendants(g, n)|, 1
  {
    var kids := DirectChildren(g, n);
    KidsReady(g, n);
    ChildrenPicked(g, d, n, kids);
    EmptyFlowIs(g, n);
    SequencePicked(g, n, BuildAll(g, n, kids).value, d);
    assert forall c :: c in kids <==> IsDirectParent(g, n, c);
    hide Opened, Picked, PickedAll, BuildAll, DirectChildren, IsDirectChild;
    forall m ensures m in Picked(BuildEmptyFlow(g, n).value, d) <==> Opened(g, d, n, m) {
      OpenedBelow(g, d, n, kids, m);
    }
  }

  lemma {:induction false} SequencePicked(g: Graph, n: nat, es: seq<Expr>, d: Decisions)
    ensures Picked(Transform(g, n, AsSequence(es)), d) == PickedAll(es, d)
  {
  }

  lemma {:induction false} LastIsArm(g: Graph, n: nat, dep: Dependency)
    ensures var i := LastWith(g, OutEdges(g.edges, n), dep);
            && (i.Some? ==> ArmEdge(g, n, dep, i.value))
            && forall j: nat :: ArmEdge(g, n, dep, j) ==> i == Some(j)
  {
    var out := OutEdges(g.edges, n);
    EdgesAscending(g.edges, n);
    forall j: nat | j < |g.edges| && g.edges[j].src == n && g.edges[j].dep == dep
      ensures LastWith(g, out, dep).Some? && j <= LastWith(g, out, dep).value
    {
      EdgeListed(g.edges, j);
      LastIsLast(g, out, dep, j);
    }
  }

  lemma {:induction false} LastIsLast(g: Graph, es: seq<nat>, dep: Dependency, j: nat)
    requires (forall k :: 0 <= k < |es| ==> es[k] < |g.edges|) && Ascending(es) && j in es && g.edges[j].dep == dep
    ensures LastWith(g, es, dep).Some? && j <= LastWith(g, es, dep).value
  {
    var last := |es| - 1;
    if g.edges[es[last]].dep != dep {
      assert es == es[..last] + [es[last]];
      LastIsLast(g, es[..last], dep, j);
    }
  }

  /** The arm of an `If` node that is decided for. */
  lemma {:induction false} ArmOpened(g: Graph, d: Decisions, n: nat, dep: Dependency, ns: seq<nat>, m: nat)
    requires Ready(g) && n < |g.kinds| && g.kinds[n].IfFlow? && dep == (if d(n) then Then else Else)
    requires var i := LastWith(g, OutEdges(g.edges, n), dep); ns == if i.Some? then [g.edges[i.value].dst] else []
    ensures Opened(g, d, n, m) <==> OpenedIn(g, d, ns, m)
  {
    var i := LastWith(g, OutEdges(g.edges, n), dep);
    LastIsArm(g, n, dep);
    if i.Some? {
      var c := g.edges[i.value].dst;
      assert HasEdge(g, n, c) && ChildrenDirect(g, n) && IsDirectParent(g, n, c);
      assert InArm(g, n, dep, m) <==> m in Subgraph(g, c);
      assert OpenedIn(g, d, ns, m) <==> Opened(g, d, c, m) by {
        assert c in ns;
      }
      hide LastWith, OutEdges, IsDirectChild, ArmEdge, OpenedIn, LedTo, InArm;
      if m in Subgraph(g, c) {
        LedThrough(g, d, n, c, m);
        BelowChild(g, n, c, m);
      } else if m in Descendants(g, n) {
        NotInArm(g, d, n, m);
      }
    } else if m in Descendants(g, n) {
      assert !InArm(g, n, dep, m);
      NotInArm(g, d, n, m);
    }
  }

  lemma {:induction false} NotInArm(g: Graph, d: Decisions, n: nat, m: nat)
    requires n < |g.kinds| && g.kinds[n].IfFlow? && Reaches(g, n, m) && !InArm(g, n, if d(n) then Then else Else, m)
    ensures !LedTo(g, d, n, m)
  {
    assert n in Subgraph(g, n);
  }

  lemma {:induction false} IfPicked(g: Graph, d: Decisions, n: nat)
    requires Ready(g) && n < |g.kinds| && g.kinds[n].IfFlow? && BuildIfFlow(g, n).Some?
    ensures PicksOpened(g, d, n, Picked(BuildIfFlow(g, n).value, d))
    decreases |Descendants(g, n)|, 1
  {
    var out := OutEdges(g.edges, n);
    var yes := [g.edges[LastWith(g, out, Then).value].dst];
    var no := if LastWith(g, out, Else).Some? then [g.edges[LastWith(g, out, Else).value].dst] else [];
    ArmsAreDirect(g, n, yes);
    ArmsAreDirect(g, n, no);
    ChildrenPicked(g, d, n, yes);
    ChildrenPicked(g, d, n, no);
    var y := BuildAll(g, n, yes).value;
    assert y[1..] == [] && PickedAll(y, d) == Picked(y[0], d);
    assert Picked(BuildIfFlow(g, n).value, d) ==
           if d(n) then PickedAll(y, d) else PickedAll(BuildAll(g, n, no).value, d);
    hide Picked, PickedAll, BuildIfFlow, BuildAll, Opened, OpenedIn, LastWith, OutEdges;
    forall m ensures m in Picked(BuildIfFlow(g, n).value, d) <==> Opened(g, d, n, m) {
      if d(n) {
        ArmOpened(g, d, n, Then, yes, m);
      } else {
        ArmOpened(g, d, n, Else, no, m);
      }
    }
  }

  lemma {:induction false} ChildrenPicked(g: Graph, d: Decisions, p: nat, ns: seq<nat>)
    requires Ready(g) && Siblings(g, p, ns) && BuildAll(g, p, ns).Some?
    ensures PicksOpenedIn(g, d, ns, PickedAll(BuildAll(g, p, ns).value, d))
    decreases |Descendants(g, p)|, 0, |ns|
  {
    if ns != [] {
      ChildShrinks(g, p, ns[0]);
      NodePicked(g, d, ns[0]);
      ChildrenPicked(g, d, p, ns[1..]);
      var es := BuildAll(g, p, ns).value;
      assert es[1..] == BuildAll(g, p, ns[1..]).value;
      PicksFirst(g, d, ns, Picked(es[0], d), PickedAll(es[1..], d));
    }
  }

  lemma {:induction false} RootsPicked(g: Graph, d: Decisions, rs: seq<nat>)
    requires Ready(g) && (forall k :: 0 <= k < |rs| ==> rs[k] < |g.kinds|) && BuildRoots(g, rs).Some?
    ensures PicksOpenedIn(g, d, rs, PickedAll(BuildRoots(g, rs).value, d))
  {
    if rs != [] {
      NodePicked(g, d, rs[0]);
      RootsPicked(g, d, rs[1..]);
      var es := BuildRoots(g, rs).value;
      assert es[1..] == BuildRoots(g, rs[1..]).value;
      PicksFirst(g, d, rs, Picked(es[0], d), PickedAll(es[1..], d));
    }
  }

  /** All decisions above a node are made below the root above it. */
  lemma {:induction false} ChosenFromRoot(w: World, g: Graph, h: seq<Event>, r: nat, m: nat)
    requires InRange(g) && Acyclic(g) && AllHaveDirectParent(g) && IsRoot(g, r) && m in Subgraph(g, r)
    ensures LedTo(g, Decided(w, g, h), r, m) <==> Chosen(w, g, h, m)
  {
    RootHasNoAncestor(g, r);
    forall a: nat | a < |g.kinds| && Reaches(g, a, m) ensures a in Subgraph(g, r) {
      if a != r && m != r {
        AncestorsFormChain(g, a, r, m);
      }
      assert Reaches(g, a, r) ==> a in Ancestors(g, r);
    }
    hide InArm, Held;
  }

  // ----- the theorem -----

  lemma {:induction false} TraceOnce(o: Outcome)
    requires Distinct(Trace([], o))
    ensures Once(o.history)
  {
    forall i, j | 0 <= i < j < |o.history| ensures o.history[i].node != o.history[j].node {
      assert Trace([], o)[i] == o.history[i].node && Trace([], o)[j] == o.history[j].node;
    }
  }

  /**
   In every run of a compiled graph only queries run to which all decisions above them
   lead, and in a successful run all of these do.
   */
  lemma {:induction false} RunsExactlyChosen(w: World, g: Graph, m: nat)
    requires Scoped(g) && ParentIdsFromQueries(g) && Translate(g).Some? && m < |g.kinds| && g.kinds[m].Query?
    ensures var o := Interpret(w, Translate(g).value, map[], []);
            && (m in Trace([], o) ==> Chosen(w, g, o.history, m))
            && (o.result.Ok? && Chosen(w, g, o.history, m) ==> m in Trace([], o))
  {
    CompiledGraphRuns(w, g);
    var o, es := Interpret(w, Translate(g).value, map[], []), BuildRoots(g, Roots(g)).value;
    var d := Decided(w, g, o.history);
    TraceOnce(o);
    RelatedIffDirectParents(g);
    NoParallelChildrenDistinct(g);
    RootsHonest(g, Roots(g));
    RootsPicked(g, d, Roots(g));
    PicksAll(w, g, es, map[], [], o.history);
    var r := UnderSomeRoot(g, m);
    ChosenFromRoot(w, g, o.history, r, m);
    hide Chosen, LedTo, PickedAll, BuildRoots, AllHonest;
    OpenedFromRoot(g, d, r, m);
    if m in Trace([], o) {
      var i :| 0 <= i < |Trace([], o)| && Trace([], o)[i] == m;
      assert o.history[i].node == m;
    }
    if o.result.Ok? && m in PickedAll(es, d) {
      assert RanIn(o.history, 0, m);
      var i :| 0 <= i < |o.history| && o.history[i].node == m;
      assert Trace([], o)[i] == m;
    }
  }

  lemma {:induction false} OpenedFromRoot(g: Graph, d: Decisions, r: nat, m: nat)
    requires InRange(g) && Acyclic(g) && AllHaveDirectParent(g)
    requires r < |g.kinds| && IsRoot(g, r) && m in Subgraph(g, r) && m < |g.kinds| && g.kinds[m].Query?
    ensures OpenedIn(g, d, Roots(g), m) <==> LedTo(g, d, r, m)
  {
    hide LedTo;
    assert r in Roots(g);
    if OpenedIn(g, d, Roots(g), m) {
      var s :| s in Roots(g) && Opened(g, d, s, m);
      if s != r {
        RootsDisjoint(g, r, s);
      }
    }
    if LedTo(g, d, r, m) {
      assert Opened(g, d, r, m);
    }
  }
}
