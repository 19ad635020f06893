/**
 What the queries of a compiled graph are when they are executed.  Each is the node's
 own content, changed along the incoming edges by the ids that the sources of these
 edges produced before; and an `If` node lets exactly one of its arms run.
 */
module Feeding {
  import opened Wrappers
  import opened QueryGraphs
  import opened Interpreter
  import opened Expressionista
  import opened Scopes
  import opened Execution
  import opened Sources

  // ----- contents along the edges of a graph -----

  /** Node `p` was executed, and what it produced has these ids. */
  ghost predicate Gave(w: World, h: seq<Event>, p: nat, ids: seq<Id>) {
    exists i :: 0 <= i < |h| && h[i].node == p && h[i].outcome.Some? && w.ids(h[i].outcome.value) == Some(ids)
  }

  /** The content of `n`, changed by each of these edges that brings ids into it, one after the other. */
  ghost predicate Fed(w: World, edges: seq<Edge>, n: nat, h: seq<Event>, c: Content)
    decreases |edges|
  {
    if edges == [] then c == w.content(n)
    else
      var last, rest := edges[|edges| - 1], edges[..|edges| - 1];
      if last.dst == n && last.dep.ParentIds? then
        exists before, ids :: Fed(w, rest, n, h, before) && Gave(w, h, last.src, ids)
                           && w.transform(last.dep.f, before, ids) == Some(c)
      else Fed(w, rest, n, h, c)
  }

  /** An event is the query that the edges into its node make, and what the database answers to it. */
  ghost predicate EventFed(w: World, g: Graph, h: seq<Event>, i: nat)
    requires i < |h|
  {
    && Fed(w, g.edges, h[i].node, h[..i], h[i].content)
    && h[i].outcome == w.database(h[..i], h[i].node, h[i].content)
  }

  ghost predicate FedFrom(w: World, g: Graph, k: nat, h: seq<Event>) {
    forall i :: k <= i < |h| ==> EventFed(w, g, h, i)
  }

  ghost predicate LastInto(g: Graph, n: nat, i: nat) {
    i < |g.edges| && g.edges[i].dst == n && forall j :: i < j < |g.edges| ==> g.edges[j].dst != n
  }

  /** What an `If` node decides on: its content, changed by the last edge into it. */
  ghost predicate DecidesOn(w: World, g: Graph, h: seq<Event>, n: nat, c: Content) {
    exists i: nat, ids :: LastInto(g, n, i) && g.edges[i].dep.ParentIds? && Gave(w, h, g.edges[i].src, ids)
                  && w.transform(g.edges[i].dep.f, w.content(n), ids) == Some(c)
  }

  // ----- why a run fails -----

  /** The content of `n` when the edge `k` is about to change it. */
  ghost predicate Before(w: World, g: Graph, h: seq<Event>, n: nat, k: nat, c: Content)
    requires k <= |g.edges|
  {
    (LastInto(g, n, k) && c == w.content(n)) || Fed(w, g.edges[..k], n, h, c)
  }

  ghost predicate TransformerFailedAt(w: World, g: Graph, h: seq<Event>, k: nat)
    requires k < |g.edges|
  {
    var e := g.edges[k];
    && e.dep.ParentIds?
    && exists before, ids :: Before(w, g, h, e.dst, k, before) && Gave(w, h, e.src, ids)
                          && w.transform(e.dep.f, before, ids) == None
  }

  /** Node `p` is asked for ids, and what it produced has none. */
  ghost predicate GaveNone(w: World, g: Graph, h: seq<Event>, p: nat) {
    && (exists k :: 0 <= k < |g.edges| && g.edges[k].src == p && g.edges[k].dep.ParentIds?)
    && exists i :: 0 <= i < |h| && h[i].node == p && h[i].outcome.Some? && w.ids(h[i].outcome.value) == None
  }

  /** A run fails at a query that the database refuses, at a transformer that fails, or for want of ids. */
  ghost predicate Explained(w: World, g: Graph, h: seq<Event>, r: Result) {
    r.Err? && !ScopeError(r) ==>
      match r.error
      case QueryFailed => |h| > 0 && h[|h| - 1].outcome == None
      case TransformerFailed => exists k :: 0 <= k < |g.edges| && TransformerFailedAt(w, g, h, k)
      case NotIds(p) => GaveNone(w, g, h, p)
      case _ => true
  }

  // ----- environments hold what nodes produced -----

  ghost predicate Carried(env: Env, h: seq<Event>) {
    forall p :: p in env ==> Produced(h, p, env[p])
  }

  lemma {:induction false} CarriedLater(env: Env, h: seq<Event>, h': seq<Event>)
    requires Carried(env, h) && h <= h'
    ensures Carried(env, h')
  {
    forall p | p in env ensures Produced(h', p, env[p]) {
      ProducedLater(h, h', p, env[p]);
    }
  }

  lemma {:induction false} CarriedGives(w: World, env: Env, h: seq<Event>, p: nat)
    requires Carried(env, h) && p in env
    ensures AsIds(w, env[p]).Some? ==> Gave(w, h, p, AsIds(w, env[p]).value)
    ensures AsIds(w, env[p]).None? ==>
              exists i :: 0 <= i < |h| && h[i].node == p && h[i].outcome.Some? && w.ids(h[i].outcome.value) == None
  {
    assert Produced(h, p, env[p]);
    var i :| 0 <= i < |h| && h[i].node == p && h[i].outcome == Some(env[p].value);
  }

  // ----- the transformers of a node -----

  /** One more transformer runs on what the others made. */
  lemma {:induction false} ThreadLast(w: World, deps: seq<ParentDep>, d: ParentDep, env: Env, c: Content)
    ensures Thread(w, deps + [d], env, c) ==
            var r := Thread(w, deps, env, c);
            if r.0.None? then r else Thread(w, [d], env, r.0.value)
    decreases |deps|
  {
    if deps == [] {
      assert deps + [d] == [d];
    } else {
      assert (deps + [d])[0] == deps[0] && (deps + [d])[1..] == deps[1..] + [d];
      if deps[0].parent in env {
        match AsIds(w, env[deps[0].parent])
        case None =>
        case Some(ids) =>
          match w.transform(deps[0].f, c, ids)
          case None =>
          case Some(c') => ThreadLast(w, deps[1..], d, env, c');
      }
    }
  }

  /** The incoming edges among the first `k`. */
  lemma {:induction false} DepsOfPrefix(g: Graph, n: nat, k: nat)
    requires k < |g.edges|
    ensures var deps, e := ParentDeps(g, InEdges(g.edges[..k], n)), g.edges[k];
            ParentDeps(g, InEdges(g.edges[..k + 1], n)) ==
            if e.dst == n && e.dep.ParentIds? then deps + [ParentDep(e.src, e.dep.f)] else deps
  {
    var edges := g.edges[..k + 1];
    assert edges[..|edges| - 1] == g.edges[..k] && edges[|edges| - 1] == g.edges[k];
    var before, all := InEdges(g.edges[..k], n), InEdges(edges, n);
    if g.edges[k].dst == n {
      assert all == before + [k] && all[..|all| - 1] == before && all[|all| - 1] == k;
    } else {
      assert all == before;
    }
  }

  ghost predicate ThreadMeans(w: World, g: Graph, h: seq<Event>, n: nat, k: nat, r: (Option<Content>, Error))
    requires k <= |g.edges|
  {
    if r.0.Some? then Fed(w, g.edges[..k], n, h, r.0.value) else Explained(w, g, h, Err(r.1)) && r.1 != QueryFailed
  }

  /** What the transformers of the first `k` edges make. */
  ghost function ThreadTo(w: World, g: Graph, env: Env, n: nat, k: nat): (Option<Content>, Error)
    requires k <= |g.edges|
  {
    Thread(w, ParentDeps(g, InEdges(g.edges[..k], n)), env, w.content(n))
  }

  lemma {:induction false} ThreadStep(w: World, g: Graph, env: Env, n: nat, k: nat)
    requires k < |g.edges|
    ensures var r, e := ThreadTo(w, g, env, n, k), g.edges[k];
            ThreadTo(w, g, env, n, k + 1) ==
            if e.dst == n && e.dep.ParentIds? && r.0.Some? then Thread(w, [ParentDep(e.src, e.dep.f)], env, r.0.value) else r
  {
    var e := g.edges[k];
    DepsOfPrefix(g, n, k);
    hide ParentDeps, InEdges, Thread;
    if e.dst == n && e.dep.ParentIds? {
      ThreadLast(w, ParentDeps(g, InEdges(g.edges[..k], n)), ParentDep(e.src, e.dep.f), env, w.content(n));
    }
  }

  /** They make what `Fed` describes, or fail for a reason. */
  lemma {:induction false} ThreadFeeds(w: World, g: Graph, env: Env, h: seq<Event>, n: nat, k: nat)
    requires k <= |g.edges| && Carried(env, h)
    ensures ThreadMeans(w, g, h, n, k, ThreadTo(w, g, env, n, k))
  {
    if k == 0 {
      assert InEdges(g.edges[..0], n) == [];
    } else {
      ThreadFeeds(w, g, env, h, n, k - 1);
      ThreadStep(w, g, env, n, k - 1);
      FedPrefix(w, g, n, h, k);
      hide ThreadTo, Thread, Fed, Explained;
      var r, e := ThreadTo(w, g, env, n, k - 1), g.edges[k - 1];
      if e.dst == n && e.dep.ParentIds? && r.0.Some? {
        EdgeFeeds(w, g, env, h, n, k - 1, r.0.value);
      }
    }
  }

  lemma {:induction false} FedPrefix(w: World, g: Graph, n: nat, h: seq<Event>, k: nat)
    requires 0 < k <= |g.edges|
    ensures var e := g.edges[k - 1];
            forall c :: Fed(w, g.edges[..k], n, h, c) <==>
              if e.dst == n && e.dep.ParentIds? then
                exists before, ids :: Fed(w, g.edges[..k - 1], n, h, before) && Gave(w, h, e.src, ids)
                                   && w.transform(e.dep.f, before, ids) == Some(c)
              else Fed(w, g.edges[..k - 1], n, h, c)
  {
    assert g.edges[..k][..k - 1] == g.edges[..k - 1] && g.edges[..k][k - 1] == g.edges[k - 1];
  }

  lemma {:induction false} EdgeFeeds(w: World, g: Graph, env: Env, h: seq<Event>, n: nat, k: nat, before: Content)
    requires k < |g.edges| && g.edges[k].dst == n && g.edges[k].dep.ParentIds? && Carried(env, h)
    requires Fed(w, g.edges[..k], n, h, before)
    ensures ThreadMeans(w, g, h, n, k + 1, Thread(w, [ParentDep(g.edges[k].src, g.edges[k].dep.f)], env, before))
  {
    var e := g.edges[k];
    assert [ParentDep(e.src, e.dep.f)][1..] == [];
    FedPrefix(w, g, n, h, k + 1);
    hide Fed;
    if e.src in env {
      CarriedGives(w, env, h, e.src);
      var ids := AsIds(w, env[e.src]);
      if ids.Some? && w.transform(e.dep.f, before, ids.value).None? {
        assert Before(w, g, h, n, k, before);
        assert TransformerFailedAt(w, g, h, k);
      }
    }
  }

  // ----- programs that look up what the edges say -----

  ghost function DepsOf(g: Graph, n: nat): seq<ParentDep> {
    ParentDeps(g, InEdges(g.edges, n))
  }

  /** The lookup of an `If` node is that of the last edge into it. */
  ghost predicate IfLookup(g: Graph, n: nat, deps: seq<ParentDep>) {
    exists i: nat :: LastInto(g, n, i) && g.edges[i].dep.ParentIds? && deps == [ParentDep(g.edges[i].src, g.edges[i].dep.f)]
  }

  ghost predicate IsOwn(e: Expr, n: nat) {
    e == RunQuery(n) || (e.Func? && e.node == n && e.target.AsQuery?)
  }

  /** Lookups follow the edges; and a name stands for its own node, wherever it is looked up. */
  ghost predicate Honest(g: Graph, e: Expr)
    decreases e, 1
  {
    match e
    case Sequence(es) => AllHonest(g, es)
    case RunQuery(n) => DepsOf(g, n) == []
    case Func(n, deps, AsQuery) => deps == DepsOf(g, n)
    case Func(n, deps, AsSequence(es)) => deps == DepsOf(g, n) && AllHonest(g, es)
    case Func(n, deps, AsIf(yes, no)) => IfLookup(g, n, deps) && Honest(g, yes) && AllHonest(g, no)
    case Let(bs, body) =>
      && BindingsHonest(g, bs)
      && ((|body| == 1 && body[0].GetFirstNonEmpty?) || (|bs| == 1 && IsOwn(bs[0].expr, bs[0].name) && AllHonest(g, body)))
    case Get(_) => true
    case GetFirstNonEmpty(_) => true
  }

  ghost predicate AllHonest(g: Graph, es: seq<Expr>)
    decreases es, 0
  {
    es != [] ==> Honest(g, es[0]) && AllHonest(g, es[1..])
  }

  ghost predicate BindingsHonest(g: Graph, bs: seq<Binding>)
    decreases bs, 0
  {
    bs != [] ==>
      assert bs[0] in bs && bs[0].expr < bs[0];
      Honest(g, bs[0].expr) && BindingsHonest(g, bs[1..])
  }

  // ----- running them -----

  ghost predicate FedRun(w: World, g: Graph, h: seq<Event>, o: Outcome) {
    h <= o.history && FedFrom(w, g, |h|, o.history) && Explained(w, g, o.history, o.result)
  }

  lemma {:induction false} FedNothing(w: World, g: Graph, h: seq<Event>, o: Outcome)
    requires o.history == h && Explained(w, g, h, o.result)
    ensures FedRun(w, g, h, o)
  {
  }

  lemma {:induction false} FedThen(w: World, g: Graph, h: seq<Event>, h': seq<Event>, o: Outcome)
    requires h <= h' && FedFrom(w, g, |h|, h') && FedRun(w, g, h', o)
    ensures FedRun(w, g, h, o)
  {
    forall i | |h| <= i < |o.history| ensures EventFed(w, g, o.history, i) {
      if i < |h'| {
        assert EventFed(w, g, h', i) && o.history[..i] == h'[..i];
      }
    }
  }

  lemma {:induction false} ExecuteFeeds(w: World, g: Graph, n: nat, c: Content, h: seq<Event>)
    requires Fed(w, g.edges, n, h, c)
    ensures FedRun(w, g, h, Execute(w, n, c, h))
  {
    var o := Execute(w, n, c, h);
    assert o.history[..|h|] == h;
  }

  lemma {:induction false} NodeFeeds(w: World, g: Graph, env: Env, h: seq<Event>, n: nat)
    requires Carried(env, h)
    ensures ThreadMeans(w, g, h, n, |g.edges|, Thread(w, DepsOf(g, n), env, w.content(n)))
    ensures g.edges[..|g.edges|] == g.edges
  {
    assert g.edges[..|g.edges|] == g.edges;
    ThreadFeeds(w, g, env, h, n, |g.edges|);
  }

  /** The content that an `If` node decides on. */
  lemma {:induction false} IfFeeds(w: World, g: Graph, env: Env, h: seq<Event>, n: nat, deps: seq<ParentDep>)
    requires Carried(env, h) && IfLookup(g, n, deps)
    ensures var r := Thread(w, deps, env, w.content(n));
            if r.0.Some? then DecidesOn(w, g, h, n, r.0.value) else Explained(w, g, h, Err(r.1)) && r.1 != QueryFailed
  {
    var i: nat :| LastInto(g, n, i) && g.edges[i].dep.ParentIds? && deps == [ParentDep(g.edges[i].src, g.edges[i].dep.f)];
    var e, c := g.edges[i], w.content(n);
    assert deps[1..] == [];
    if e.src in env {
      CarriedGives(w, env, h, e.src);
      var ids := AsIds(w, env[e.src]);
      if ids.Some? && w.transform(e.dep.f, c, ids.value).None? {
        assert Before(w, g, h, n, i, c);
        assert TransformerFailedAt(w, g, h, i);
      }
    }
  }

  lemma {:induction false} Feeds(w: World, g: Graph, e: Expr, env: Env, h: seq<Event>)
    requires Honest(g, e) && Carried(env, h)
    ensures FedRun(w, g, h, Interpret(w, e, env, h))
    decreases e, 1
  {
    var o := Interpret(w, e, env, h);
    hide FedRun, Fed, Explained, Carried, DepsOf, IfLookup;
    match e
    case Sequence(es) => FeedsAll(w, g, es, env, h);
    case RunQuery(n) =>
      NodeFeeds(w, g, env, h, n);
      ExecuteFeeds(w, g, n, w.content(n), h);
    case Func(n, deps, target) => FeedsFunc(w, g, n, deps, target, env, h);
    case Let(bs, body) => FeedsLet(w, g, bs, body, env, h);
    case Get(n) => LooksUp(w, g, h, o);
    case GetFirstNonEmpty(names) => LooksUp(w, g, h, o);
  }

  lemma {:induction false} LooksUp(w: World, g: Graph, h: seq<Event>, o: Outcome)
    requires o.history == h && (o.result.Err? ==> ScopeError(o.result))
    ensures FedRun(w, g, h, o)
  {
  }

  lemma {:induction false} FeedsFunc(w: World, g: Graph, n: nat, deps: seq<ParentDep>, target: Target, env: Env, h: seq<Event>)
    requires Honest(g, Func(n, deps, target)) && Carried(env, h)
    ensures FedRun(w, g, h, Interpret(w, Func(n, deps, target), env, h))
    decreases Func(n, deps, target), 0
  {
    var o := Interpret(w, Func(n, deps, target), env, h);
    if target.AsIf? {
      IfFeeds(w, g, env, h, n, deps);
    } else {
      NodeFeeds(w, g, env, h, n);
    }
    hide FedRun, Fed, Explained, Carried, DepsOf, IfLookup, Thread;
    match Thread(w, deps, env, w.content(n))
    case (None, _) => FedNothing(w, g, h, o);
    case (Some(c), _) =>
      match target
      case AsQuery => ExecuteFeeds(w, g, n, c, h);
      case AsSequence(es) => FeedsAll(w, g, es, env, h);
      case AsIf(yes, no) =>
        if w.condition(c) {
          Feeds(w, g, yes, env, h);
        } else {
          FeedsAll(w, g, no, env, h);
        }
  }

  lemma {:induction false} FeedsAll(w: World, g: Graph, es: seq<Expr>, env: Env, h: seq<Event>)
    requires AllHonest(g, es) && Carried(env, h)
    ensures FedRun(w, g, h, InterpretAll(w, es, env, h))
    decreases es, 0
  {
    var o := InterpretAll(w, es, env, h);
    if es == [] {
      FedNothing(w, g, h, o);
    } else {
      Feeds(w, g, es[0], env, h);
      var first := Interpret(w, es[0], env, h);
      if first.result.Ok? && |es| > 1 {
        CarriedLater(env, h, first.history);
        FeedsAll(w, g, es[1..], env, first.history);
        FedThen(w, g, h, first.history, o);
      }
    }
  }

  lemma {:induction false} FeedsBindings(w: World, g: Graph, bs: seq<Binding>, env: Env, inner: Env, h: seq<Event>)
    requires BindingsHonest(g, bs) && Carried(env, h)
    ensures var (h', r, _) := Bind(w, bs, env, inner, h); FedRun(w, g, h, Outcome(h', r))
    decreases bs, 0
  {
    var (h', r, inner') := Bind(w, bs, env, inner, h);
    if bs == [] {
      FedNothing(w, g, h, Outcome(h', r));
    } else {
      assert bs[0] in bs && bs[0].expr < bs[0];
      Feeds(w, g, bs[0].expr, env, h);
      var first := Interpret(w, bs[0].expr, env, h);
      if first.result.Ok? {
        CarriedLater(env, h, first.history);
        FeedsBindings(w, g, bs[1..], env, inner[bs[0].name := first.result.value], first.history);
        FedThen(w, g, h, first.history, Outcome(h', r));
      }
    }
  }

  /** A name that is bound to its own query holds what the node produced. */
  lemma {:induction false} OwnIsCarried(w: World, b: Binding, env: Env, h: seq<Event>)
    requires IsOwn(b.expr, b.name) && Carried(env, h)
    ensures var (h', r, inner) := Bind(w, [b], env, env, h); r.Ok? ==> Carried(inner, h')
  {
    var first := Interpret(w, b.expr, env, h);
    assert [b][1..] == [];
    if first.result.Ok? {
      CarriedLater(env, h, first.history);
      if b.expr.Func? {
        ExecuteProduces(w, b.name, Thread(w, b.expr.deps, env, w.content(b.name)).0.value, h);
      } else {
        ExecuteProduces(w, b.name, w.content(b.name), h);
      }
    }
  }

  lemma {:induction false} FeedsLet(w: World, g: Graph, bs: seq<Binding>, body: seq<Expr>, env: Env, h: seq<Event>)
    requires Honest(g, Let(bs, body)) && Carried(env, h)
    ensures FedRun(w, g, h, Interpret(w, Let(bs, body), env, h))
    decreases Let(bs, body), 0
  {
    var (h', r, inner) := Bind(w, bs, env, env, h);
    var o := Interpret(w, Let(bs, body), env, h);
    FeedsBindings(w, g, bs, env, env, h);
    if r.Ok? {
      if |body| == 1 && body[0].GetFirstNonEmpty? {
        assert InterpretAll(w, body, inner, h') == Interpret(w, body[0], inner, h');
        LooksUp(w, g, h', Interpret(w, body[0], inner, h'));
      } else {
        assert bs == [bs[0]];
        OwnIsCarried(w, bs[0], env, h);
        FeedsAll(w, g, body, inner, h');
      }
      FedThen(w, g, h, h', o);
    }
  }

  // ----- compiled programs are honest -----

  lemma {:induction false} AppendHonest(g: Graph, a: seq<Expr>, b: seq<Expr>)
    requires AllHonest(g, a) && AllHonest(g, b)
    ensures AllHonest(g, a + b)
    decreases |a|
  {
    if a == [] {
      assert a + b == b;
    } else {
      assert (a + b)[0] == a[0] && (a + b)[1..] == a[1..] + b;
      AppendHonest(g, a[1..], b);
    }
  }

  lemma {:induction false} BoundHonest(g: Graph, ns: seq<nat>, es: seq<Expr>)
    requires |ns| == |es| && AllHonest(g, es)
    ensures BindingsHonest(g, Bindings(ns, es))
    decreases |ns|
  {
    if ns != [] {
      assert Bindings(ns, es)[1..] == Bindings(ns[1..], es[1..]);
      BoundHonest(g, ns[1..], es[1..]);
    }
  }

  lemma {:induction false} ResultScopeHonest(g: Graph, res: seq<nat>, scoped: seq<Expr>)
    requires |res| == |scoped| && AllHonest(g, scoped)
    ensures AllHonest(g, ResultScope(res, scoped))
  {
    if res != [] {
      BoundHonest(g, res, scoped);
      var body := [GetFirstNonEmpty(res)];
      assert |body| == 1 && body[0].GetFirstNonEmpty?;
      assert [Let(Bindings(res, scoped), body)][1..] == [];
    }
  }

  lemma {:induction false} QueryScopeHonest(g: Graph, n: nat, body: seq<Expr>)
    requires AllHonest(g, body)
    ensures Honest(g, QueryScope(g, n, body))
  {
    var own := Transform(g, n, AsQuery);
    assert IsOwn(own, n) && Honest(g, own);
    if body != [] {
      var more: seq<Expr> := if IsResult(g, n) then [Get(n)] else [];
      assert AllHonest(g, more) by {
        assert |more| > 0 ==> more[1..] == [];
      }
      AppendHonest(g, body, more);
      var bs := [Binding(n, own)];
      assert bs[1..] == [] && BindingsHonest(g, bs);
    }
  }

  lemma {:induction false} LastIncoming(g: Graph, n: nat)
    requires InEdges(g.edges, n) != []
    ensures var incoming := InEdges(g.edges, n); LastInto(g, n, incoming[|incoming| - 1])
  {
    var incoming := InEdges(g.edges, n);
    EdgesAscending(g.edges, n);
    forall j | incoming[|incoming| - 1] < j < |g.edges| ensures g.edges[j].dst != n {
      if g.edges[j].dst == n {
        EdgeListed(g.edges, j);
      }
    }
  }

  lemma {:induction false} NodeHonest(g: Graph, n: nat)
    requires InRange(g) && Acyclic(g) && n < |g.kinds| && Build(g, n).Some?
    ensures Honest(g, Build(g, n).value)
    decreases |Descendants(g, n)|, 1
  {
    hide Honest, QueryScope, ResultScope, DirectChildren, SplitChildren, IsDirectChild;
    match g.kinds[n]
    case Query =>
      var (res, rest) := SplitChildren(g, n).value;
      ChildrenHonest(g, n, rest);
      ChildrenHonest(g, n, res);
      var plain, scoped := BuildAll(g, n, rest).value, BuildAll(g, n, res).value;
      ResultScopeHonest(g, res, scoped);
      AppendHonest(g, plain, ResultScope(res, scoped));
      QueryScopeHonest(g, n, plain + ResultScope(res, scoped));
    case EmptyFlow =>
      var kids := DirectChildren(g, n);
      assert forall k :: 0 <= k < |kids| ==> kids[k] in kids;
      ChildrenHonest(g, n, kids);
      SequenceHonest(g, n, BuildAll(g, n, kids).value);
    case IfFlow => IfHonest(g, n);
  }

  lemma {:induction false} SequenceHonest(g: Graph, n: nat, es: seq<Expr>)
    requires AllHonest(g, es)
    ensures Honest(g, Transform(g, n, AsSequence(es)))
  {
  }

  lemma {:induction false} IfHonest(g: Graph, n: nat)
    requires InRange(g) && Acyclic(g) && n < |g.kinds| && g.kinds[n].IfFlow? && BuildIfFlow(g, n).Some?
    ensures Honest(g, BuildIfFlow(g, n).value)
    decreases |Descendants(g, n)|, 0, 1
  {
    var out, incoming := OutEdges(g.edges, n), InEdges(g.edges, n);
    var parent := g.edges[incoming[|incoming| - 1]];
    var yes := [g.edges[LastWith(g, out, Then).value].dst];
    var no := if LastWith(g, out, Else).Some? then [g.edges[LastWith(g, out, Else).value].dst] else [];
    LastIncoming(g, n);
    var deps := [ParentDep(parent.src, parent.dep.f)];
    assert IfLookup(g, n, deps);
    ArmHonest(g, n, yes);
    ArmHonest(g, n, no);
    hide DirectChildren, OutEdges, InEdges, LastWith, IfLookup;
    BranchHonest(g, n, deps, BuildAll(g, n, yes).value, BuildAll(g, n, no).value);
  }

  lemma {:induction false} ArmHonest(g: Graph, n: nat, ns: seq<nat>)
    requires InRange(g) && Acyclic(g) && |ns| <= 1 && BuildAllDomain(g, n, ns) && BuildAll(g, n, ns).Some?
    ensures AllHonest(g, BuildAll(g, n, ns).value)
    decreases |Descendants(g, n)|, 0, 0
  {
    if ns != [] {
      ChildShrinks(g, n, ns[0]);
      NodeHonest(g, ns[0]);
      assert ns[1..] == [];
      var es := BuildAll(g, n, ns).value;
      assert es == [Build(g, ns[0]).value] && es[1..] == [];
    }
  }

  ghost predicate BuildAllDomain(g: Graph, n: nat, ns: seq<nat>) {
    forall k :: 0 <= k < |ns| ==> HasEdge(g, n, ns[k])
  }

  lemma {:induction false} BranchHonest(g: Graph, n: nat, deps: seq<ParentDep>, yes: seq<Expr>, no: seq<Expr>)
    requires IfLookup(g, n, deps) && |yes| == 1 && AllHonest(g, yes) && AllHonest(g, no)
    ensures Honest(g, Func(n, deps, AsIf(yes[0], no)))
  {
  }

  lemma {:induction false} ChildrenHonest(g: Graph, p: nat, ns: seq<nat>)
    requires InRange(g) && Acyclic(g) && BuildAllDomain(g, p, ns) && BuildAll(g, p, ns).Some?
    ensures AllHonest(g, BuildAll(g, p, ns).value)
    decreases |Descendants(g, p)|, 0, |ns|
  {
    if ns != [] {
      ChildShrinks(g, p, ns[0]);
      NodeHonest(g, ns[0]);
      ChildrenHonest(g, p, ns[1..]);
      assert BuildAll(g, p, ns).value[1..] == BuildAll(g, p, ns[1..]).value;
    }
  }

  lemma {:induction false} RootsHonest(g: Graph, rs: seq<nat>)
    requires InRange(g) && Acyclic(g) && (forall k :: 0 <= k < |rs| ==> rs[k] < |g.kinds|) && BuildRoots(g, rs).Some?
    ensures AllHonest(g, BuildRoots(g, rs).value)
  {
    if rs != [] {
      NodeHonest(g, rs[0]);
      RootsHonest(g, rs[1..]);
      assert BuildRoots(g, rs).value[1..] == BuildRoots(g, rs[1..]).value;
    }
  }

  /**
   In every run of a compiled graph, each executed query is its node's content changed
   by the ids that the edges into the node bring, in their order, and it gets the answer
   of the database; and a run that fails does so for one of three reasons.
   */
  lemma {:induction false} EventsAreFed(w: World, g: Graph)
    requires Scoped(g) && ParentIdsFromQueries(g) && Translate(g).Some?
    ensures var o := Interpret(w, Translate(g).value, map[], []);
            && (forall i :: 0 <= i < |o.history| ==> EventFed(w, g, o.history, i))
            && !ScopeError(o.result) && Explained(w, g, o.history, o.result)
  {
    CompiledGraphRuns(w, g);
    RootsHonest(g, Roots(g));
    hide AllHonest, BuildRoots, Roots, EventFed, Explained;
    FeedsAll(w, g, BuildRoots(g, Roots(g)).value, map[], []);
  }
}
