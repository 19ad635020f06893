/**
 A static discipline for programs and what it guarantees at run time.  `WellNested`
 says that every lookup is under a binding, that no node occurs twice, and that a
 node only occurs where the nodes it must follow, and no others, are in scope and
 have surely run; `Runs` shows that interpreting such a program keeps these promises
 whatever the database answers.
 */
module Scopes {
  import opened Wrappers
  import opened Interpreter

  // ----- nodes of a program -----

  ghost function NodesOf(e: Expr): set<nat>
    decreases e, 1
  {
    match e
    case Sequence(es) => NodesOfAll(es)
    case RunQuery(n) => {n}
    case Func(n, _, AsQuery) => {n}
    case Func(_, _, AsSequence(es)) => NodesOfAll(es)
    case Func(_, _, AsIf(yes, no)) => NodesOf(yes) + NodesOfAll(no)
    case Let(bs, body) => NodesOfBindings(bs) + NodesOfAll(body)
    case Get(_) => {}
    case GetFirstNonEmpty(_) => {}
  }

  ghost function NodesOfAll(es: seq<Expr>): set<nat>
    decreases es, 0
  {
    if es == [] then {} else NodesOf(es[0]) + NodesOfAll(es[1..])
  }

  ghost function NodesOfBindings(bs: seq<Binding>): set<nat>
    decreases bs, 0
  {
    if bs == [] then {} else
      assert bs[0] in bs && bs[0].expr < bs[0];
      NodesOf(bs[0].expr) + NodesOfBindings(bs[1..])
  }

  /** Nodes that have run once the program has succeeded, whichever way conditions went. */
  ghost function Surely(e: Expr): set<nat>
    decreases e, 1
  {
    match e
    case Sequence(es) => SurelyAll(es)
    case RunQuery(n) => {n}
    case Func(n, _, AsQuery) => {n}
    case Func(_, _, AsSequence(es)) => SurelyAll(es)
    case Func(_, _, AsIf(_, _)) => {}
    case Let(bs, body) => SurelyBindings(bs) + SurelyAll(body)
    case Get(_) => {}
    case GetFirstNonEmpty(_) => {}
  }

  ghost function SurelyAll(es: seq<Expr>): set<nat>
    decreases es, 0
  {
    if es == [] then {} else Surely(es[0]) + SurelyAll(es[1..])
  }

  ghost function SurelyBindings(bs: seq<Binding>): set<nat>
    decreases bs, 0
  {
    if bs == [] then {} else
      assert bs[0] in bs && bs[0].expr < bs[0];
      Surely(bs[0].expr) + SurelyBindings(bs[1..])
  }

  ghost function Names(bs: seq<Binding>): set<nat> {
    if bs == [] then {} else {bs[0].name} + Names(bs[1..])
  }

  // ----- the discipline -----

  type Before = nat -> set<nat>

  /**
   `bound`: names in scope.  `done`: nodes that have run.  `anc(n)`: nodes that must
   run before `n`, and the names in scope where `n` occurs.
   */
  ghost predicate WellNested(anc: Before, e: Expr, bound: set<nat>, done: set<nat>)
    decreases e, 1
  {
    match e
    case Sequence(es) => AllNested(anc, es, bound, done)
    case RunQuery(n) => bound == anc(n) <= done
    case Func(n, deps, target) =>
      && bound == anc(n)
      && (forall d :: d in deps ==> d.parent in bound)
      && (match target
          case AsQuery => anc(n) <= done
          case AsSequence(es) => AllNested(anc, es, bound, done)
          case AsIf(yes, no) => WellNested(anc, yes, bound, done) && AllNested(anc, no, bound, done))
    case Let(bs, body) =>
      && BindingsNested(anc, bs, bound, done)
      && NodesOfBindings(bs) !! NodesOfAll(body)
      && AllNested(anc, body, bound + Names(bs), done + SurelyBindings(bs))
    case Get(n) => n in bound
    case GetFirstNonEmpty(names) => exists n :: n in names && n in bound
  }

  ghost predicate AllNested(anc: Before, es: seq<Expr>, bound: set<nat>, done: set<nat>)
    decreases es, 0
  {
    es != [] ==>
      && WellNested(anc, es[0], bound, done)
      && NodesOf(es[0]) !! NodesOfAll(es[1..])
      && AllNested(anc, es[1..], bound, done)
  }

  ghost predicate BindingsNested(anc: Before, bs: seq<Binding>, bound: set<nat>, done: set<nat>)
    decreases bs, 0
  {
    bs != [] ==>
      assert bs[0] in bs && bs[0].expr < bs[0];
      && WellNested(anc, bs[0].expr, bound, done)
      && NodesOf(bs[0].expr) !! NodesOfBindings(bs[1..])
      && BindingsNested(anc, bs[1..], bound, done)
  }

  // ----- run-time guarantees -----

  function Trace(h: seq<Event>, o: Outcome): (r: seq<nat>)
    requires h <= o.history
    ensures |r| == |o.history| - |h| && forall i :: 0 <= i < |r| ==> r[i] == o.history[|h| + i].node
  {
    seq<nat>(|o.history| - |h|, i requires 0 <= i < |o.history| - |h| => o.history[|h| + i].node)
  }

  predicate Distinct(xs: seq<nat>) {
    forall i, j :: 0 <= i < j < |xs| ==> xs[i] != xs[j]
  }

  /**
   A trace over the nodes `s`: nothing runs twice, and whatever runs does so after
   everything that must precede it, given that `done` has already run.
   */
  ghost predicate Orderly(anc: Before, s: set<nat>, done: set<nat>, trace: seq<nat>) {
    && Distinct(trace)
    && (forall i :: 0 <= i < |trace| ==> trace[i] in s)
    && (forall i, a :: 0 <= i < |trace| && a in anc(trace[i]) ==> a in done || a in trace[..i])
  }

  predicate ScopeError(r: Result) {
    r.Err? && (r.error.EnvVarNotFound? || r.error.NoBindingPresent?)
  }

  ghost predicate Ran(anc: Before, s: set<nat>, sure: set<nat>, done: set<nat>, h: seq<Event>, o: Outcome) {
    && h <= o.history
    && Orderly(anc, s, done, Trace(h, o))
    && !ScopeError(o.result)
    && (o.result.Ok? ==> forall m :: m in sure ==> m in Trace(h, o))
  }

  lemma {:induction false} RanNothing(anc: Before, s: set<nat>, sure: set<nat>, done: set<nat>, h: seq<Event>, o: Outcome)
    requires o.history == h && !ScopeError(o.result) && (o.result.Ok? ==> sure == {})
    ensures Ran(anc, s, sure, done, h, o)
  {
  }

  /** Runs over disjoint sets compose; the second may rely on what the first has surely run. */
  lemma {:induction false} RanThen(anc: Before, s: set<nat>, t: set<nat>, sure: set<nat>, sure': set<nat>, done: set<nat>, done': set<nat>,
                h: seq<Event>, o: Outcome, o': Outcome)
    requires Ran(anc, s, sure, done, h, o) && o.result.Ok?
    requires Ran(anc, t, sure', done', o.history, o')
    requires s !! t && done' <= done + sure
    ensures Ran(anc, s + t, sure + sure', done, h, o')
  {
    var x, y := Trace(h, o), Trace(o.history, o');
    assert Trace(h, o') == x + y;
    forall i, a | 0 <= i < |x + y| && a in anc((x + y)[i])
      ensures a in done || a in (x + y)[..i]
    {
      if i < |x| {
        assert (x + y)[..i] == x[..i];
      } else {
        assert (x + y)[i] == y[i - |x|] && (x + y)[..i] == x + y[..i - |x|];
        assert a in done' || a in y[..i - |x|];
      }
    }
  }

  lemma {:induction false} RanFailed(anc: Before, s: set<nat>, t: set<nat>, sure: set<nat>, sure': set<nat>, done: set<nat>, h: seq<Event>, o: Outcome)
    requires Ran(anc, s, sure, done, h, o) && o.result.Err? && s <= t
    ensures Ran(anc, t, sure', done, h, o)
  {
  }

  /** Transformers find every parent they look up. */
  lemma {:induction false} ThreadFinds(w: World, deps: seq<ParentDep>, env: Env, c: Content)
    requires forall d :: d in deps ==> d.parent in env
    ensures Thread(w, deps, env, c).0.None? ==> !ScopeError(Err(Thread(w, deps, env, c).1))
    decreases |deps|
  {
    if deps != [] {
      assert deps[0] in deps;
      match AsIds(w, env[deps[0].parent])
      case None =>
      case Some(ids) =>
        match w.transform(deps[0].f, c, ids)
        case None =>
        case Some(c') => ThreadFinds(w, deps[1..], env, c');
    }
  }

  lemma {:induction false} ExecuteRuns(anc: Before, w: World, n: nat, c: Content, h: seq<Event>, done: set<nat>)
    requires anc(n) <= done
    ensures Ran(anc, {n}, {n}, done, h, Execute(w, n, c, h))
  {
    assert Trace(h, Execute(w, n, c, h)) == [n];
  }

  lemma {:induction false} FirstPresentFinds(names: seq<nat>, env: Env)
    requires exists n :: n in names && n in env
    ensures FirstPresent(names, env).Some?
  {
    if names[0] !in env {
      assert names == [names[0]] + names[1..];
      FirstPresentFinds(names[1..], env);
    }
  }

  /** The central guarantee, for every expression, database and history. */
  lemma {:induction false} Runs(anc: Before, w: World, e: Expr, env: Env, h: seq<Event>, done: set<nat>)
    requires WellNested(anc, e, env.Keys, done)
    ensures Ran(anc, NodesOf(e), Surely(e), done, h, Interpret(w, e, env, h))
    decreases e, 1
  {
    var o := Interpret(w, e, env, h);
    match e
    case Sequence(es) => RunsAll(anc, w, es, env, h, done);
    case RunQuery(n) => ExecuteRuns(anc, w, n, w.content(n), h, done);
    case Func(n, deps, target) =>
      ThreadFinds(w, deps, env, w.content(n));
      match Thread(w, deps, env, w.content(n)) {
        case (None, _) => RanNothing(anc, NodesOf(e), Surely(e), done, h, o);
        case (Some(c), _) =>
          match target
          case AsQuery => ExecuteRuns(anc, w, n, c, h, done);
          case AsSequence(es) => RunsAll(anc, w, es, env, h, done);
          case AsIf(yes, no) =>
            if w.condition(c) {
              Runs(anc, w, yes, env, h, done);
            } else {
              RunsAll(anc, w, no, env, h, done);
            }
      }
    case Let(bs, body) => RunsLet(anc, w, bs, body, env, h, done);
    case Get(n) => RanNothing(anc, {}, {}, done, h, o);
    case GetFirstNonEmpty(names) =>
      FirstPresentFinds(names, env);
      RanNothing(anc, {}, {}, done, h, o);
  }

  lemma {:induction false} RunsLet(anc: Before, w: World, bs: seq<Binding>, body: seq<Expr>, env: Env, h: seq<Event>, done: set<nat>)
    requires WellNested(anc, Let(bs, body), env.Keys, done)
    ensures Ran(anc, NodesOf(Let(bs, body)), Surely(Let(bs, body)), done, h, Interpret(w, Let(bs, body), env, h))
    decreases Let(bs, body), 0
  {
    RunsBindings(anc, w, bs, env, env, h, done);
    var (h', r, inner) := Bind(w, bs, env, env, h);
    var o := Interpret(w, Let(bs, body), env, h);
    if r.Err? {
      RanFailed(anc, NodesOfBindings(bs), NodesOf(Let(bs, body)), SurelyBindings(bs), Surely(Let(bs, body)), done, h, o);
    } else {
      RunsAll(anc, w, body, inner, h', done + SurelyBindings(bs));
      RanThen(anc, NodesOfBindings(bs), NodesOfAll(body), SurelyBindings(bs), SurelyAll(body),
              done, done + SurelyBindings(bs), h, Outcome(h', r), o);
    }
  }

  lemma {:induction false} RunsAll(anc: Before, w: World, es: seq<Expr>, env: Env, h: seq<Event>, done: set<nat>)
    requires AllNested(anc, es, env.Keys, done)
    ensures Ran(anc, NodesOfAll(es), SurelyAll(es), done, h, InterpretAll(w, es, env, h))
    decreases es, 0
  {
    var o := InterpretAll(w, es, env, h);
    if es == [] {
      RanNothing(anc, {}, {}, done, h, o);
    } else {
      Runs(anc, w, es[0], env, h, done);
      var first := Interpret(w, es[0], env, h);
      if first.result.Err? {
        RanFailed(anc, NodesOf(es[0]), NodesOfAll(es), Surely(es[0]), SurelyAll(es), done, h, o);
      } else if |es| > 1 {
        RunsAll(anc, w, es[1..], env, first.history, done);
        RanThen(anc, NodesOf(es[0]), NodesOfAll(es[1..]), Surely(es[0]), SurelyAll(es[1..]), done, done, h, first, o);
      } else {
        assert NodesOfAll(es) == NodesOf(es[0]) && SurelyAll(es) == Surely(es[0]);
      }
    }
  }

  lemma {:induction false} RunsBindings(anc: Before, w: World, bs: seq<Binding>, env: Env, inner: Env, h: seq<Event>, done: set<nat>)
    requires BindingsNested(anc, bs, env.Keys, done)
    ensures var (h', r, inner') := Bind(w, bs, env, inner, h);
            && Ran(anc, NodesOfBindings(bs), SurelyBindings(bs), done, h, Outcome(h', r))
            && (r.Ok? ==> inner'.Keys == inner.Keys + Names(bs))
    decreases bs, 0
  {
    var (h', r, inner') := Bind(w, bs, env, inner, h);
    if bs == [] {
      RanNothing(anc, {}, {}, done, h, Outcome(h', r));
    } else {
      assert bs[0] in bs && bs[0].expr < bs[0];
      Runs(anc, w, bs[0].expr, env, h, done);
      var first := Interpret(w, bs[0].expr, env, h);
      if first.result.Err? {
        RanFailed(anc, NodesOf(bs[0].expr), NodesOfBindings(bs), Surely(bs[0].expr), SurelyBindings(bs), done, h, first);
      } else {
        RunsBindings(anc, w, bs[1..], env, inner[bs[0].name := first.result.value], first.history, done);
        RanThen(anc, NodesOf(bs[0].expr), NodesOfBindings(bs[1..]), Surely(bs[0].expr), SurelyBindings(bs[1..]),
                done, done, h, first, Outcome(h', r));
      }
    }
  }

  lemma {:induction false} RunsFromNothing(anc: Before, w: World, e: Expr)
    requires WellNested(anc, e, {}, {})
    ensures Ran(anc, NodesOf(e), Surely(e), {}, [], Interpret(w, e, map[], []))
  {
    var env: Env := map[];
    assert env.Keys == {};
    Runs(anc, w, e, env, [], {});
  }

  // ----- building well-nested programs -----

  lemma {:induction false} AppendNested(anc: Before, a: seq<Expr>, b: seq<Expr>, bound: set<nat>, done: set<nat>)
    requires AllNested(anc, a, bound, done) && AllNested(anc, b, bound, done)
    requires NodesOfAll(a) !! NodesOfAll(b)
    ensures AllNested(anc, a + b, bound, done)
    ensures NodesOfAll(a + b) == NodesOfAll(a) + NodesOfAll(b)
    ensures SurelyAll(a + b) == SurelyAll(a) + SurelyAll(b)
    decreases |a|
  {
    if a == [] {
      assert a + b == b;
    } else {
      assert (a + b)[1..] == a[1..] + b;
      AppendNested(anc, a[1..], b, bound, done);
    }
  }

  lemma {:induction false} ConsNested(anc: Before, e: Expr, es: seq<Expr>, bound: set<nat>, done: set<nat>, s: set<nat>, t: set<nat>)
    requires WellNested(anc, e, bound, done) && AllNested(anc, es, bound, done)
    requires NodesOf(e) <= s && NodesOfAll(es) <= t && s !! t
    ensures AllNested(anc, [e] + es, bound, done)
    ensures NodesOfAll([e] + es) <= s + t
    ensures SurelyAll([e] + es) == Surely(e) + SurelyAll(es)
  {
    assert ([e] + es)[1..] == es;
  }

  /** Binding a node's own query around a body that may refer to it. */
  lemma {:induction false} LetNested(anc: Before, n: nat, own: Expr, body: seq<Expr>, bound: set<nat>, done: set<nat>)
    requires WellNested(anc, own, bound, done) && NodesOf(own) == {n} && Surely(own) == {n}
    requires AllNested(anc, body, bound + {n}, done + {n}) && n !in NodesOfAll(body)
    ensures var e := Let([Binding(n, own)], body);
            && WellNested(anc, e, bound, done)
            && NodesOf(e) == {n} + NodesOfAll(body)
            && Surely(e) == {n} + SurelyAll(body)
  {
    var bs := [Binding(n, own)];
    assert bs[1..] == [];
    assert Names(bs) == {n};
    assert NodesOfBindings(bs) == NodesOf(bs[0].expr) + NodesOfBindings(bs[1..]) == {n};
    assert SurelyBindings(bs) == Surely(bs[0].expr) + SurelyBindings(bs[1..]) == {n};
  }

  lemma {:induction false} GetNested(anc: Before, n: nat, bound: set<nat>, done: set<nat>)
    requires n in bound
    ensures AllNested(anc, [Get(n)], bound, done) && NodesOfAll([Get(n)]) == {} && SurelyAll([Get(n)]) == {}
  {
    assert [Get(n)][1..] == [];
  }

  // ----- finite lists -----

  lemma {:induction false} DistinctCounts(xs: seq<nat>)
    ensures Distinct(xs) <==> forall x :: multiset(xs)[x] <= 1
  {
    if xs != [] {
      var last := |xs| - 1;
      DistinctCounts(xs[..last]);
      assert xs == xs[..last] + [xs[last]];
      assert xs[last] in xs[..last] <==> multiset(xs[..last])[xs[last]] > 0;
      if Distinct(xs) {
        assert xs[last] !in xs[..last];
      } else if Distinct(xs[..last]) {
        var i, j :| 0 <= i < j < |xs| && xs[i] == xs[j];
        assert j == last && xs[..last][i] == xs[last];
        assert multiset(xs)[xs[last]] > 1;
      } else {
        var x :| multiset(xs[..last])[x] > 1;
        assert multiset(xs)[x] > 1;
      }
    }
  }

  lemma {:induction false} SplitDistinct(xs: seq<nat>, a: seq<nat>, b: seq<nat>)
    requires Distinct(xs) && multiset(a) + multiset(b) == multiset(xs)
    ensures Distinct(a) && Distinct(b)
    ensures forall x :: x in a ==> x !in b
    ensures forall x :: x in xs <==> x in a || x in b
  {
    DistinctCounts(xs);
    forall x ensures multiset(a)[x] <= 1 && multiset(b)[x] <= 1 {
      assert multiset(xs)[x] == multiset(a)[x] + multiset(b)[x];
    }
    DistinctCounts(a);
    DistinctCounts(b);
    forall x ensures x in a ==> x !in b
             ensures x in xs <==> x in a || x in b
    {
      assert multiset(xs)[x] <= 1;
      assert x in multiset(a) <==> x in a;
      assert x in multiset(b) <==> x in b;
      assert x in multiset(xs) <==> x in xs;
    }
  }
}
