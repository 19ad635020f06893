/**
 The expression language that query graphs are compiled to, and its interpreter.
 Closures stored in expressions are represented by the data they close over: a
 `Func` lists the parent bindings it looks up and the transformers it applies, and
 says what it turns into once they have run.
 */
module Interpreter {
  import opened Wrappers

  /** Query (or flow node) contents, query results and record ids are opaque here. */
  type Content = int
  type Value = int
  type Id = int

  /** Looks up binding `parent` and applies transformer `f` to the node with its ids. */
  datatype ParentDep = ParentDep(parent: nat, f: nat)

  datatype Expr =
    | Sequence(exprs: seq<Expr>)
    | RunQuery(node: nat)
    | Func(node: nat, deps: seq<ParentDep>, target: Target)
    | Let(bindings: seq<Binding>, body: seq<Expr>)
    | Get(name: nat)
    | GetFirstNonEmpty(names: seq<nat>)

  /** What a `Func` returns once its transformers have run. */
  datatype Target =
    | AsQuery
    | AsSequence(exprs: seq<Expr>)
    | AsIf(yes: Expr, no: seq<Expr>)

  datatype Binding = Binding(name: nat, expr: Expr)

  /** `Empty` is the result of an empty sequence. */
  datatype ExprResult = QueryResult(value: Value) | Empty

  datatype Error =
    | EnvVarNotFound(name: nat)
    | NoBindingPresent
    | NotIds(name: nat)
    | TransformerFailed
    | QueryFailed

  datatype Result = Ok(value: ExprResult) | Err(error: Error)

  /** One executed query: the node it came from, its final content and its outcome. */
  datatype Event = Event(node: nat, content: Content, outcome: Option<Value>)

  /**
   Everything the program cannot see: node contents, transformer closures, the
   database (whose answer may depend on all that ran before), and conditions.
   */
  datatype World = World(
    content: nat -> Content,
    transform: (nat, Content, seq<Id>) -> Option<Content>,
    ids: Value -> Option<seq<Id>>,
    database: (seq<Event>, nat, Content) -> Option<Value>,
    condition: Content -> bool)

  type Env = map<nat, ExprResult>

  datatype Outcome = Outcome(history: seq<Event>, result: Result)

  function AsIds(w: World, r: ExprResult): Option<seq<Id>> {
    if r.Empty? then None else w.ids(r.value)
  }

  /** Runs the transformers in order on the node's content. */
  function Thread(w: World, deps: seq<ParentDep>, env: Env, c: Content): (Option<Content>, Error)
    decreases |deps|
  {
    if deps == [] then (Some(c), TransformerFailed)
    else if deps[0].parent !in env then (None, EnvVarNotFound(deps[0].parent))
    else
      match AsIds(w, env[deps[0].parent])
      case None => (None, NotIds(deps[0].parent))
      case Some(ids) =>
        match w.transform(deps[0].f, c, ids)
        case None => (None, TransformerFailed)
        case Some(c') => Thread(w, deps[1..], env, c')
  }

  function Execute(w: World, node: nat, c: Content, h: seq<Event>): Outcome {
    var answer := w.database(h, node, c);
    Outcome(h + [Event(node, c, answer)], if answer.Some? then Ok(QueryResult(answer.value)) else Err(QueryFailed))
  }

  function FirstPresent(names: seq<nat>, env: Env): Option<ExprResult> {
    if names == [] then None
    else if names[0] in env then Some(env[names[0]])
    else FirstPresent(names[1..], env)
  }

  function Interpret(w: World, e: Expr, env: Env, h: seq<Event>): (o: Outcome)
    ensures h <= o.history
    decreases e, 1
  {
    match e
    case Sequence(es) => InterpretAll(w, es, env, h)
    case RunQuery(n) => Execute(w, n, w.content(n), h)
    case Func(n, deps, target) =>
      (match Thread(w, deps, env, w.content(n))
       case (None, err) => Outcome(h, Err(err))
       case (Some(c), _) =>
         match target
         case AsQuery => Execute(w, n, c, h)
         case AsSequence(es) => InterpretAll(w, es, env, h)
         case AsIf(yes, no) => if w.condition(c) then Interpret(w, yes, env, h) else InterpretAll(w, no, env, h))
    case Let(bindings, body) =>
      (match Bind(w, bindings, env, env, h)
       case (h', Err(err), _) => Outcome(h', Err(err))
       case (h', Ok(_), inner) => InterpretAll(w, body, inner, h'))
    case Get(n) => Outcome(h, if n in env then Ok(env[n]) else Err(EnvVarNotFound(n)))
    case GetFirstNonEmpty(names) =>
      Outcome(h, match FirstPresent(names, env) case Some(r) => Ok(r) case None => Err(NoBindingPresent))
  }

  /** All expressions in order under the same environment; the last result counts. */
  function InterpretAll(w: World, es: seq<Expr>, env: Env, h: seq<Event>): (o: Outcome)
    ensures h <= o.history
    decreases es, 0
  {
    if es == [] then Outcome(h, Ok(Empty))
    else
      var first := Interpret(w, es[0], env, h);
      if first.result.Err? || |es| == 1 then first
      else InterpretAll(w, es[1..], env, first.history)
  }

  /** Evaluates bindings under `env` and adds them to `inner`. */
  function Bind(w: World, bs: seq<Binding>, env: Env, inner: Env, h: seq<Event>): (r: (seq<Event>, Result, Env))
    ensures h <= r.0
    decreases bs, 0
  {
    if bs == [] then (h, Ok(Empty), inner)
    else
      assert bs[0] in bs && bs[0].expr < bs[0];
      var first := Interpret(w, bs[0].expr, env, h);
      if first.result.Err? then (first.history, first.result, inner)
      else Bind(w, bs[1..], env, inner[bs[0].name := first.result.value], first.history)
  }
}
