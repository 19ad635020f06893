/**
 Which executed query a program's result comes from: a static analysis of
 expressions, and its soundness for every run.
 */
module Sources {
  import opened Wrappers
  import opened Interpreter

  type NameSources = map<nat, nat>

  /** The node whose result `e` returns on success, if that does not depend on conditions. */
  ghost function Source(e: Expr, names: NameSources): Option<nat>
    decreases e, 1
  {
    match e
    case Sequence(es) => SourceOfLast(es, names)
    case RunQuery(n) => Some(n)
    case Func(n, _, AsQuery) => Some(n)
    case Func(_, _, AsSequence(es)) => SourceOfLast(es, names)
    case Func(_, _, AsIf(_, _)) => None
    case Let(bs, body) => SourceOfLast(body, BindSources(bs, names, names))
    case Get(n) => if n in names then Some(names[n]) else None
    case GetFirstNonEmpty(ns) => if ns != [] && ns[0] in names then Some(names[ns[0]]) else None
  }

  ghost function SourceOfLast(es: seq<Expr>, names: NameSources): Option<nat>
    decreases es, 0
  {
    if es == [] then None else Source(es[|es| - 1], names)
  }

  ghost function BindSources(bs: seq<Binding>, outer: NameSources, inner: NameSources): NameSources
    decreases bs, 0
  {
    if bs == [] then inner
    else
      assert bs[0] in bs && bs[0].expr < bs[0];
      var rest := inner - {bs[0].name};
      match Source(bs[0].expr, outer)
      case Some(m) => BindSources(bs[1..], outer, rest[bs[0].name := m])
      case None => BindSources(bs[1..], outer, rest)
  }

  /** Node `m` was executed in `h` with result `v`. */
  ghost predicate Produced(h: seq<Event>, m: nat, v: ExprResult) {
    v.QueryResult? && exists i :: 0 <= i < |h| && h[i].node == m && h[i].outcome == Some(v.value)
  }

  ghost predicate Sourced(env: Env, names: NameSources, h: seq<Event>) {
    forall n :: n in names ==> n in env && Produced(h, names[n], env[n])
  }

  lemma {:induction false} ProducedLater(h: seq<Event>, h': seq<Event>, m: nat, v: ExprResult)
    requires Produced(h, m, v) && h <= h'
    ensures Produced(h', m, v)
  {
    var i :| 0 <= i < |h| && h[i].node == m && h[i].outcome == Some(v.value);
    assert h'[i] == h[i];
  }

  lemma {:induction false} SourcedLater(env: Env, names: NameSources, h: seq<Event>, h': seq<Event>)
    requires Sourced(env, names, h) && h <= h'
    ensures Sourced(env, names, h')
  {
    forall n | n in names ensures Produced(h', names[n], env[n]) {
      ProducedLater(h, h', names[n], env[n]);
    }
  }

  lemma {:induction false} ExecuteProduces(w: World, n: nat, c: Content, h: seq<Event>)
    ensures var o := Execute(w, n, c, h); o.result.Ok? ==> Produced(o.history, n, o.result.value)
  {
    var o := Execute(w, n, c, h);
    assert o.history[|h|].node == n;
  }

  ghost predicate Sound(o: Outcome, source: Option<nat>) {
    o.result.Ok? && source.Some? ==> Produced(o.history, source.value, o.result.value)
  }

  lemma {:induction false} SourceSound(w: World, e: Expr, env: Env, h: seq<Event>, names: NameSources)
    requires Sourced(env, names, h)
    ensures Sound(Interpret(w, e, env, h), Source(e, names))
    decreases e, 1
  {
    match e
    case Sequence(es) => LastSound(w, es, env, h, names);
    case RunQuery(n) => ExecuteProduces(w, n, w.content(n), h);
    case Func(n, deps, target) =>
      match Thread(w, deps, env, w.content(n)) {
        case (None, _) =>
        case (Some(c), _) =>
          match target
          case AsQuery => ExecuteProduces(w, n, c, h);
          case AsSequence(es) => LastSound(w, es, env, h, names);
          case AsIf(_, _) =>
      }
    case Let(bs, body) =>
      BindSound(w, bs, env, env, h, names, names);
      var (h', r, inner) := Bind(w, bs, env, env, h);
      if r.Ok? {
        LastSound(w, body, inner, h', BindSources(bs, names, names));
      }
    case Get(_) =>
    case GetFirstNonEmpty(_) =>
  }

  lemma {:induction false} LastSound(w: World, es: seq<Expr>, env: Env, h: seq<Event>, names: NameSources)
    requires Sourced(env, names, h)
    ensures Sound(InterpretAll(w, es, env, h), SourceOfLast(es, names))
    decreases es, 0
  {
    if es != [] {
      SourceSound(w, es[0], env, h, names);
      var first := Interpret(w, es[0], env, h);
      if first.result.Ok? && |es| > 1 {
        SourcedLater(env, names, h, first.history);
        LastSound(w, es[1..], env, first.history, names);
      }
    }
  }

  lemma {:induction false} BindSound(w: World, bs: seq<Binding>, env: Env, inner: Env, h: seq<Event>, outer: NameSources, names: NameSources)
    requires Sourced(env, outer, h) && Sourced(inner, names, h)
    ensures var (h', r, inner') := Bind(w, bs, env, inner, h);
            r.Ok? ==> Sourced(inner', BindSources(bs, outer, names), h')
    decreases bs, 0
  {
    if bs != [] {
      assert bs[0] in bs && bs[0].expr < bs[0];
      SourceSound(w, bs[0].expr, env, h, outer);
      var first := Interpret(w, bs[0].expr, env, h);
      if first.result.Ok? {
        SourcedLater(env, outer, h, first.history);
        SourcedLater(inner, names, h, first.history);
        var rest := names - {bs[0].name};
        var names' := match Source(bs[0].expr, outer) case Some(m) => rest[bs[0].name := m] case None => rest;
        BindSound(w, bs[1..], env, inner[bs[0].name := first.result.value], first.history, outer, names');
      }
    }
  }

  /** A run from nothing returns what its source produced. */
  lemma {:induction false} RunReturnsSource(w: World, e: Expr)
    ensures Sound(Interpret(w, e, map[], []), Source(e, map[]))
  {
    SourceSound(w, e, map[], [], map[]);
  }
}
