/** Applying the diff of two lists of directives to the first gives the second. */
module DirectiveRoundTrip {
  import opened Wrappers
  import opened Names
  import opened Datamodels
  import opened DatamodelDiffer

  // ----- arguments -----

  function ValueAt(args: seq<Argument>, n: Name): Option<Expression> {
    var a := FindArgument(args, n);
    if a.Some? then Some(a.value.value) else None
  }

  ghost predicate ArgumentsDistinct(args: seq<Argument>) {
    args != [] ==> FindArgument(args[1..], args[0].name).None? && ArgumentsDistinct(args[1..])
  }

  ghost predicate SameArguments(xs: seq<Argument>, ys: seq<Argument>) {
    forall n :: ValueAt(xs, n) == ValueAt(ys, n)
  }

  ghost predicate AllOnArgument(d: Name, changes: seq<DirectiveStep>) {
    forall c :: c in changes ==> OnArgument(c) && c.name == d
  }

  ghost function RunOnArguments(args: seq<Argument>, d: Name, changes: seq<DirectiveStep>): seq<Argument>
    requires AllOnArgument(d, changes)
    decreases |changes|
  {
    if changes == [] then args
    else
      assert changes[0] in changes;
      RunOnArguments(ChangeArguments(args, changes[0]), d, changes[1..])
  }

  lemma {:induction false} ArgumentsConcat(args: seq<Argument>, d: Name, xs: seq<DirectiveStep>, ys: seq<DirectiveStep>)
    requires AllOnArgument(d, xs) && AllOnArgument(d, ys)
    ensures RunOnArguments(args, d, xs + ys) == RunOnArguments(RunOnArguments(args, d, xs), d, ys)
    decreases |xs|
  {
    if xs == [] {
      assert xs + ys == ys;
    } else {
      assert xs[0] in xs;
      assert (xs + ys)[0] == xs[0] && (xs + ys)[1..] == xs[1..] + ys;
      ArgumentsConcat(ChangeArguments(args, xs[0]), d, xs[1..], ys);
    }
  }

  lemma {:induction false} AppendedAt(args: seq<Argument>, a: Argument, n: Name)
    ensures ValueAt(args + [a], n) ==
            if ValueAt(args, n).Some? then ValueAt(args, n) else if n == a.name then Some(a.value) else None
  {
    if args == [] {
      assert args + [a] == [a] && [a][1..] == [];
    } else {
      assert (args + [a])[0] == args[0] && (args + [a])[1..] == args[1..] + [a];
      AppendedAt(args[1..], a, n);
    }
  }

  lemma {:induction false} AppendedDistinct(args: seq<Argument>, a: Argument)
    requires ArgumentsDistinct(args) && FindArgument(args, a.name).None?
    ensures ArgumentsDistinct(args + [a])
  {
    if args == [] {
      assert args + [a] == [a] && [a][1..] == [];
    } else {
      assert (args + [a])[0] == args[0] && (args + [a])[1..] == args[1..] + [a];
      AppendedDistinct(args[1..], a);
      AppendedAt(args[1..], a, args[0].name);
    }
  }

  lemma {:induction false} SetAt(args: seq<Argument>, a: Name, v: Expression, n: Name)
    ensures ValueAt(SetArguments(args, a, v), n) == if n == a && ValueAt(args, n).Some? then Some(v) else ValueAt(args, n)
  {
    if args != [] {
      SetAt(args[1..], a, v, n);
    }
  }

  lemma {:induction false} SetDistinct(args: seq<Argument>, a: Name, v: Expression)
    requires ArgumentsDistinct(args)
    ensures ArgumentsDistinct(SetArguments(args, a, v))
  {
    if args != [] {
      SetDistinct(args[1..], a, v);
      SetAt(args[1..], a, v, args[0].name);
    }
  }

  lemma {:induction false} RemovedAt(args: seq<Argument>, a: Name, n: Name)
    ensures ValueAt(WithoutArgument(args, a), n) == if n == a then None else ValueAt(args, n)
  {
    if args != [] {
      RemovedAt(args[1..], a, n);
      var rest := WithoutArgument(args[1..], a);
      assert ([args[0]] + rest)[1..] == rest;
    }
  }

  lemma {:induction false} RemovedDistinct(args: seq<Argument>, a: Name)
    requires ArgumentsDistinct(args)
    ensures ArgumentsDistinct(WithoutArgument(args, a))
  {
    if args != [] {
      RemovedDistinct(args[1..], a);
      RemovedAt(args[1..], a, args[0].name);
      var rest := WithoutArgument(args[1..], a);
      assert ([args[0]] + rest)[1..] == rest;
    }
  }

  // ----- the three kinds of argument steps -----

  lemma {:induction false} CreationsOnArguments(d: Name, ps: seq<Argument>, qs: seq<Argument>)
    ensures AllOnArgument(d, ArgumentCreations(d, ps, qs))
  {
    if qs != [] {
      CreationsOnArguments(d, ps, qs[1..]);
    }
  }

  lemma {:induction false} UpdatesOnArguments(d: Name, ps: seq<Argument>, qs: seq<Argument>)
    ensures AllOnArgument(d, ArgumentUpdates(d, ps, qs))
  {
    if ps != [] {
      UpdatesOnArguments(d, ps[1..], qs);
    }
  }

  lemma {:induction false} DeletionsOnArguments(d: Name, ps: seq<Argument>, qs: seq<Argument>)
    ensures AllOnArgument(d, ArgumentDeletions(d, ps, qs))
  {
    if ps != [] {
      DeletionsOnArguments(d, ps[1..], qs);
    }
  }

  lemma {:induction false} RunFirstArgument(args: seq<Argument>, d: Name, c: DirectiveStep, changes: seq<DirectiveStep>)
    requires OnArgument(c) && c.name == d && AllOnArgument(d, changes)
    ensures RunOnArguments(args, d, [c] + changes) == RunOnArguments(ChangeArguments(args, c), d, changes)
  {
    assert ([c] + changes)[1..] == changes;
  }

  lemma {:induction false} ArgumentsCreated(args: seq<Argument>, d: Name, ps: seq<Argument>, qs: seq<Argument>)
    requires ArgumentsDistinct(args) && ArgumentsDistinct(qs)
    requires forall q :: q in qs && FindArgument(ps, q.name).None? ==> FindArgument(args, q.name).None?
    ensures AllOnArgument(d, ArgumentCreations(d, ps, qs))
    ensures var r := RunOnArguments(args, d, ArgumentCreations(d, ps, qs));
            && ArgumentsDistinct(r)
            && forall n :: ValueAt(r, n) == if FindArgument(ps, n).None? && ValueAt(qs, n).Some? then ValueAt(qs, n)
                                            else ValueAt(args, n)
    decreases |qs|
  {
    CreationsOnArguments(d, ps, qs);
    if qs != [] {
      var q := qs[0];
      assert q in qs && forall x :: x in qs[1..] ==> x in qs;
      CreationsOnArguments(d, ps, qs[1..]);
      if FindArgument(ps, q.name).None? {
        AppendedDistinct(args, q);
        forall x | x in qs[1..] && FindArgument(ps, x.name).None? ensures FindArgument(args + [q], x.name).None? {
          AppendedAt(args, q, x.name);
        }
        ArgumentsCreated(args + [q], d, ps, qs[1..]);
        RunFirstArgument(args, d, CreateArgument(d, q.name, q.value), ArgumentCreations(d, ps, qs[1..]));
        forall n ensures ValueAt(args + [q], n) == if n == q.name then Some(q.value) else ValueAt(args, n) {
          AppendedAt(args, q, n);
        }
      } else {
        ArgumentsCreated(args, d, ps, qs[1..]);
      }
    }
  }

  lemma {:induction false} ArgumentsUpdated(args: seq<Argument>, d: Name, ps: seq<Argument>, qs: seq<Argument>)
    requires ArgumentsDistinct(args) && ArgumentsDistinct(ps)
    requires forall p :: p in ps ==> FindArgument(args, p.name) == Some(p)
    ensures AllOnArgument(d, ArgumentUpdates(d, ps, qs))
    ensures var r := RunOnArguments(args, d, ArgumentUpdates(d, ps, qs));
            && ArgumentsDistinct(r)
            && forall n :: ValueAt(r, n) == if FindArgument(ps, n).Some? && ValueAt(qs, n).Some? then ValueAt(qs, n)
                                            else ValueAt(args, n)
    decreases |ps|
  {
    UpdatesOnArguments(d, ps, qs);
    if ps != [] {
      var p, q := ps[0], FindArgument(qs, ps[0].name);
      assert p in ps && forall x :: x in ps[1..] ==> x in ps;
      UpdatesOnArguments(d, ps[1..], qs);
      if q.Some? && q.value.value != p.value {
        var args' := SetArguments(args, q.value.name, q.value.value);
        SetDistinct(args, q.value.name, q.value.value);
        forall n ensures ValueAt(args', n) == if n == p.name then Some(q.value.value) else ValueAt(args, n) {
          SetAt(args, q.value.name, q.value.value, n);
        }
        forall x | x in ps[1..] ensures FindArgument(args', x.name) == Some(x) {
          assert ValueAt(args', x.name) == ValueAt(args, x.name);
        }
        ArgumentsUpdated(args', d, ps[1..], qs);
        RunFirstArgument(args, d, UpdateArgument(d, q.value.name, q.value.value), ArgumentUpdates(d, ps[1..], qs));
      } else {
        ArgumentsUpdated(args, d, ps[1..], qs);
      }
    }
  }

  lemma {:induction false} ArgumentsDeleted(args: seq<Argument>, d: Name, ps: seq<Argument>, qs: seq<Argument>)
    requires ArgumentsDistinct(args)
    ensures AllOnArgument(d, ArgumentDeletions(d, ps, qs))
    ensures var r := RunOnArguments(args, d, ArgumentDeletions(d, ps, qs));
            && ArgumentsDistinct(r)
            && forall n :: ValueAt(r, n) == if FindArgument(ps, n).Some? && FindArgument(qs, n).None? then None
                                            else ValueAt(args, n)
    decreases |ps|
  {
    DeletionsOnArguments(d, ps, qs);
    if ps != [] {
      DeletionsOnArguments(d, ps[1..], qs);
      if FindArgument(qs, ps[0].name).None? {
        var args' := WithoutArgument(args, ps[0].name);
        RemovedDistinct(args, ps[0].name);
        forall n ensures ValueAt(args', n) == if n == ps[0].name then None else ValueAt(args, n) {
          RemovedAt(args, ps[0].name, n);
        }
        ArgumentsDeleted(args', d, ps[1..], qs);
        RunFirstArgument(args, d, DeleteArgument(d, ps[0].name), ArgumentDeletions(d, ps[1..], qs));
      } else {
        ArgumentsDeleted(args, d, ps[1..], qs);
      }
    }
  }

  lemma {:induction false} ArgumentFound(args: seq<Argument>, a: Argument)
    requires ArgumentsDistinct(args) && a in args
    ensures FindArgument(args, a.name) == Some(a)
  {
    if args[0] != a {
      ArgumentFound(args[1..], a);
    }
  }

  /** The steps of a matched directive give it the arguments of its match. */
  lemma {:induction false} UpdateMatches(p: Directive, q: Directive)
    requires ArgumentsDistinct(p.arguments) && ArgumentsDistinct(q.arguments)
    ensures AllOnArgument(p.name, DirectiveUpdate(p, q))
    ensures var r := RunOnArguments(p.arguments, p.name, DirectiveUpdate(p, q));
            ArgumentsDistinct(r) && SameArguments(r, q.arguments)
  {
    var d, ps, qs := p.name, p.arguments, q.arguments;
    var a, b, c := ArgumentCreations(d, ps, qs), ArgumentUpdates(d, ps, qs), ArgumentDeletions(d, ps, qs);
    ArgumentsCreated(ps, d, ps, qs);
    var r1 := RunOnArguments(ps, d, a);
    forall x | x in ps ensures FindArgument(r1, x.name) == Some(x) {
      ArgumentFound(ps, x);
      assert ValueAt(r1, x.name) == ValueAt(ps, x.name);
    }
    ArgumentsUpdated(r1, d, ps, qs);
    var r2 := RunOnArguments(r1, d, b);
    ArgumentsDeleted(r2, d, ps, qs);
    ArgumentsConcat(ps, d, a, b);
    ArgumentsConcat(ps, d, a + b, c);
    hide RunOnArguments, ArgumentsDistinct;
    var r3 := RunOnArguments(r2, d, c);
    forall n ensures ValueAt(r3, n) == ValueAt(qs, n) {
      assert ValueAt(r1, n) == if FindArgument(ps, n).None? && ValueAt(qs, n).Some? then ValueAt(qs, n) else ValueAt(ps, n);
      assert ValueAt(r2, n) == if FindArgument(ps, n).Some? && ValueAt(qs, n).Some? then ValueAt(qs, n) else ValueAt(r1, n);
    }
  }

  // ----- lists of directives with distinct names, name by name -----

  ghost predicate DirectivesDistinct(ds: seq<Directive>) {
    ds != [] ==> FindDirective(ds[1..], ds[0].name).None? && DirectivesDistinct(ds[1..])
  }

  ghost predicate ArgumentsOk(ds: seq<Directive>) {
    forall d :: d in ds ==> ArgumentsDistinct(d.arguments)
  }

  datatype DirectiveOutcome = Clash | DirectiveSlot(directive: Option<Directive>)

  predicate NameOnly(c: DirectiveStep) {
    c.DeleteDirective? ==> c.arguments.None?
  }

  /** What a change makes of the directive of its name, if there is at most one. */
  function ApplyToSlot(slot: Option<Directive>, c: DirectiveStep): DirectiveOutcome {
    match c
    case CreateDirective(n, args) =>
      if slot.Some? then Clash else DirectiveSlot(Some(Directive(n, if args.Some? then args.value else [])))
    case DeleteDirective(_, _) => DirectiveSlot(None)
    case _ =>
      if slot.None? then Clash
      else DirectiveSlot(Some(slot.value.(arguments := ChangeArguments(slot.value.arguments, c))))
  }

  function RunOnSlot(slot: Option<Directive>, changes: seq<DirectiveStep>): DirectiveOutcome
    decreases |changes|
  {
    if changes == [] then DirectiveSlot(slot)
    else
      var r := ApplyToSlot(slot, changes[0]);
      if r.Clash? then Clash else RunOnSlot(r.directive, changes[1..])
  }

  function Named(n: Name, changes: seq<DirectiveStep>): (r: seq<DirectiveStep>)
    ensures forall c :: c in r ==> c in changes && c.name == n
  {
    if changes == [] then []
    else if changes[0].name == n then [changes[0]] + Named(n, changes[1..])
    else Named(n, changes[1..])
  }

  lemma {:induction false} AppendDirective(ds: seq<Directive>, d: Directive, n: Name)
    requires FindDirective(ds, d.name).None?
    ensures FindDirective(ds + [d], n) == if n == d.name then Some(d) else FindDirective(ds, n)
    ensures DirectivesDistinct(ds) ==> DirectivesDistinct(ds + [d])
  {
    if ds == [] {
      assert ds + [d] == [d] && [d][1..] == [];
    } else {
      assert (ds + [d])[0] == ds[0] && (ds + [d])[1..] == ds[1..] + [d];
      AppendDirective(ds[1..], d, n);
      AppendDirective(ds[1..], d, ds[0].name);
    }
  }

  lemma {:induction false} RemoveDirective(ds: seq<Directive>, d: Name, n: Name)
    ensures FindDirective(WithoutMatching(ds, d, None), n) == if n == d then None else FindDirective(ds, n)
    ensures DirectivesDistinct(ds) ==> DirectivesDistinct(WithoutMatching(ds, d, None))
  {
    if ds != [] {
      RemoveDirective(ds[1..], d, n);
      RemoveDirective(ds[1..], d, ds[0].name);
      var rest := WithoutMatching(ds[1..], d, None);
      assert ([ds[0]] + rest)[1..] == rest;
    }
  }

  lemma {:induction false} ChangeDirective(ds: seq<Directive>, c: DirectiveStep, n: Name)
    requires OnArgument(c) && FindDirective(ds, c.name).Some?
    ensures FindDirective(ChangeFirst(ds, c), n) ==
            if n == c.name
            then Some(FindDirective(ds, n).value.(arguments := ChangeArguments(FindDirective(ds, n).value.arguments, c)))
            else FindDirective(ds, n)
    ensures DirectivesDistinct(ds) ==> DirectivesDistinct(ChangeFirst(ds, c))
  {
    if ds[0].name != c.name {
      ChangeDirective(ds[1..], c, n);
      ChangeDirective(ds[1..], c, ds[0].name);
      var rest := ChangeFirst(ds[1..], c);
      assert ([ds[0]] + rest)[1..] == rest;
    } else {
      var first := ds[0].(arguments := ChangeArguments(ds[0].arguments, c));
      assert ([first] + ds[1..])[1..] == ds[1..];
    }
  }

  lemma {:induction false} OneByName(ds: seq<Directive>, c: DirectiveStep, n: Name)
    requires DirectivesDistinct(ds) && NameOnly(c) && !ApplyToSlot(FindDirective(ds, c.name), c).Clash?
    ensures var r := ApplyToDirectives(ds, c);
            && r.Some? && DirectivesDistinct(r.value)
            && FindDirective(r.value, n) ==
               if n == c.name then ApplyToSlot(FindDirective(ds, n), c).directive else FindDirective(ds, n)
  {
    match c
    case CreateDirective(m, args) => AppendDirective(ds, Directive(m, if args.Some? then args.value else []), n);
    case DeleteDirective(m, _) => RemoveDirective(ds, m, n);
    case _ => ChangeDirective(ds, c, n);
  }

  ghost predicate NoClash(ds: seq<Directive>, changes: seq<DirectiveStep>) {
    forall n :: !RunOnSlot(FindDirective(ds, n), Named(n, changes)).Clash?
  }

  /** Changes of distinct names do not interfere. */
  lemma {:induction false} NameByName(ds: seq<Directive>, changes: seq<DirectiveStep>)
    requires DirectivesDistinct(ds) && NoClash(ds, changes) && forall c :: c in changes ==> NameOnly(c)
    ensures var r := RunOnDirectives(ds, changes);
            && r.Some? && DirectivesDistinct(r.value)
            && forall n :: RunOnSlot(FindDirective(ds, n), Named(n, changes)) == DirectiveSlot(FindDirective(r.value, n))
    decreases |changes|
  {
    if changes != [] {
      var c, rest := changes[0], changes[1..];
      assert c in changes && forall x :: x in rest ==> x in changes;
      assert Named(c.name, changes) == [c] + Named(c.name, rest);
      assert !RunOnSlot(FindDirective(ds, c.name), Named(c.name, changes)).Clash?;
      OneByName(ds, c, c.name);
      var ds' := ApplyToDirectives(ds, c).value;
      forall n
        ensures RunOnSlot(FindDirective(ds, n), Named(n, changes)) == RunOnSlot(FindDirective(ds', n), Named(n, rest))
      {
        OneByName(ds, c, n);
        assert Named(n, changes) == if n == c.name then [c] + Named(n, rest) else Named(n, rest);
        assert ([c] + Named(n, rest))[1..] == Named(n, rest);
      }
      NameByName(ds', rest);
    }
  }

  // ----- the diff, name by name -----

  lemma {:induction false} NamedConcat(n: Name, xs: seq<DirectiveStep>, ys: seq<DirectiveStep>)
    ensures Named(n, xs + ys) == Named(n, xs) + Named(n, ys)
  {
    if xs == [] {
      assert xs + ys == ys;
    } else {
      assert (xs + ys)[0] == xs[0] && (xs + ys)[1..] == xs[1..] + ys;
      NamedConcat(n, xs[1..], ys);
    }
  }

  ghost predicate AllNamed(n: Name, changes: seq<DirectiveStep>) {
    forall c :: c in changes ==> c.name == n && NameOnly(c)
  }

  lemma {:induction false} NamedOwn(n: Name, changes: seq<DirectiveStep>)
    requires AllNamed(n, changes)
    ensures Named(n, changes) == changes
  {
    if changes != [] {
      assert changes[0] in changes;
      NamedOwn(n, changes[1..]);
    }
  }

  lemma {:induction false} NamedOther(n: Name, m: Name, changes: seq<DirectiveStep>)
    requires AllNamed(m, changes) && n != m
    ensures Named(n, changes) == []
  {
    if changes != [] {
      assert changes[0] in changes;
      NamedOther(n, m, changes[1..]);
    }
  }

  lemma {:induction false} NamedHead(n: Name, m: Name, xs: seq<DirectiveStep>, ys: seq<DirectiveStep>)
    requires AllNamed(m, xs)
    ensures Named(n, xs + ys) == (if n == m then xs else []) + Named(n, ys)
  {
    NamedConcat(n, xs, ys);
    if n == m {
      NamedOwn(n, xs);
    } else {
      NamedOther(n, m, xs);
    }
  }

  lemma {:induction false} PartsNamed(p: Directive, q: Directive)
    ensures AllNamed(p.name, DirectiveUpdate(p, q)) && AllNamed(q.name, DirectiveCreation(q))
  {
    CreationsOnArguments(p.name, p.arguments, q.arguments);
    UpdatesOnArguments(p.name, p.arguments, q.arguments);
    DeletionsOnArguments(p.name, p.arguments, q.arguments);
    CreationsOnArguments(q.name, [], q.arguments);
  }

  lemma {:induction false} CreationsNamed(ps: seq<Directive>, qs: seq<Directive>, n: Name)
    requires DirectivesDistinct(qs)
    ensures forall c :: c in DirectiveCreations(ps, qs) ==> NameOnly(c)
    ensures Named(n, DirectiveCreations(ps, qs)) ==
            var q := FindDirective(qs, n);
            if q.Some? && FindDirective(ps, n).None? then DirectiveCreation(q.value) else []
  {
    if qs != [] {
      CreationsNamed(ps, qs[1..], n);
      PartsNamed(qs[0], qs[0]);
      NamedHead(n, qs[0].name, DirectiveCreation(qs[0]), DirectiveCreations(ps, qs[1..]));
      hide DirectiveCreation;
    }
  }

  lemma {:induction false} UpdatesNamed(ps: seq<Directive>, qs: seq<Directive>, n: Name)
    requires DirectivesDistinct(ps)
    ensures forall c :: c in DirectiveUpdates(ps, qs) ==> NameOnly(c)
    ensures Named(n, DirectiveUpdates(ps, qs)) ==
            var p, q := FindDirective(ps, n), FindDirective(qs, n);
            if p.Some? && q.Some? then DirectiveUpdate(p.value, q.value) else []
  {
    if ps != [] {
      UpdatesNamed(ps[1..], qs, n);
      var q := FindDirective(qs, ps[0].name);
      if q.Some? {
        PartsNamed(ps[0], q.value);
        NamedHead(n, ps[0].name, DirectiveUpdate(ps[0], q.value), DirectiveUpdates(ps[1..], qs));
      }
      hide DirectiveUpdate;
    }
  }

  lemma {:induction false} DeletionsNamed(ps: seq<Directive>, qs: seq<Directive>, n: Name)
    requires DirectivesDistinct(ps)
    ensures forall c :: c in DirectiveDeletions(ps, qs) ==> NameOnly(c)
    ensures Named(n, DirectiveDeletions(ps, qs)) ==
            if FindDirective(ps, n).Some? && FindDirective(qs, n).None? then [DeleteDirective(n, None)] else []
  {
    if ps != [] {
      DeletionsNamed(ps[1..], qs, n);
      NamedHead(n, ps[0].name, [DeleteDirective(ps[0].name, None)], DirectiveDeletions(ps[1..], qs));
    }
  }

  lemma {:induction false} ChangesNamed(ps: seq<Directive>, qs: seq<Directive>, n: Name)
    requires DirectivesDistinct(ps) && DirectivesDistinct(qs)
    ensures forall c :: c in DirectiveChanges(ps, qs) ==> NameOnly(c)
    ensures Named(n, DirectiveChanges(ps, qs)) ==
            var p, q := FindDirective(ps, n), FindDirective(qs, n);
            if q.None? then (if p.Some? then [DeleteDirective(n, None)] else [])
            else if p.None? then DirectiveCreation(q.value)
            else DirectiveUpdate(p.value, q.value)
  {
    var a, b, c := DirectiveCreations(ps, qs), DirectiveUpdates(ps, qs), DirectiveDeletions(ps, qs);
    CreationsNamed(ps, qs, n);
    UpdatesNamed(ps, qs, n);
    DeletionsNamed(ps, qs, n);
    NamedConcat(n, a, b);
    NamedConcat(n, a + b, c);
    hide DirectiveCreation, DirectiveUpdate;
  }

  // ----- what becomes of one directive -----

  lemma {:induction false} SlotArguments(d: Directive, changes: seq<DirectiveStep>)
    requires AllOnArgument(d.name, changes)
    ensures RunOnSlot(Some(d), changes) ==
            DirectiveSlot(Some(d.(arguments := RunOnArguments(d.arguments, d.name, changes))))
    decreases |changes|
  {
    if changes != [] {
      assert changes[0] in changes;
      SlotArguments(d.(arguments := ChangeArguments(d.arguments, changes[0])), changes[1..]);
    }
  }

  lemma {:induction false} CreationMatches(d: Directive)
    requires ArgumentsDistinct(d.arguments)
    ensures var r := RunOnSlot(None, DirectiveCreation(d));
            && r.DirectiveSlot? && r.directive.Some? && r.directive.value.name == d.name
            && ArgumentsDistinct(r.directive.value.arguments) && SameArguments(r.directive.value.arguments, d.arguments)
  {
    var changes := ArgumentCreations(d.name, [], d.arguments);
    ArgumentsCreated([], d.name, [], d.arguments);
    SlotArguments(Directive(d.name, []), changes);
    assert DirectiveCreation(d)[1..] == changes;
  }

  ghost predicate SameDirective(d: Directive, e: Directive) {
    d.name == e.name && SameArguments(d.arguments, e.arguments)
  }

  ghost predicate SlotAgrees(slot: DirectiveOutcome, q: Option<Directive>) {
    && slot.DirectiveSlot?
    && (slot.directive.Some? <==> q.Some?)
    && (q.Some? ==> ArgumentsDistinct(slot.directive.value.arguments) && SameDirective(slot.directive.value, q.value))
  }

  lemma {:induction false} SlotReaches(ps: seq<Directive>, qs: seq<Directive>, n: Name)
    requires DirectivesDistinct(ps) && DirectivesDistinct(qs) && ArgumentsOk(ps) && ArgumentsOk(qs)
    ensures SlotAgrees(RunOnSlot(FindDirective(ps, n), Named(n, DirectiveChanges(ps, qs))), FindDirective(qs, n))
  {
    var p, q := FindDirective(ps, n), FindDirective(qs, n);
    ChangesNamed(ps, qs, n);
    if q.None? {
      assert p.Some? ==> [DeleteDirective(n, None)][1..] == [];
    } else if p.None? {
      CreationMatches(q.value);
    } else {
      UpdateMatches(p.value, q.value);
      SlotArguments(p.value, DirectiveUpdate(p.value, q.value));
    }
  }

  /** Two lists with the same directives: one by one, up to the order of directives and arguments. */
  ghost predicate DirectivesAgree(ds: seq<Directive>, qs: seq<Directive>) {
    (forall d :: d in ds ==> Has(qs, d)) && (forall q :: q in qs ==> Has(ds, q))
  }

  ghost predicate Has(ds: seq<Directive>, d: Directive) {
    exists e :: e in ds && SameDirective(e, d)
  }

  lemma {:induction false} SameSymmetric(d: Directive, e: Directive)
    ensures SameDirective(d, e) <==> SameDirective(e, d)
  {
  }

  lemma {:induction false} DirectiveFound(ds: seq<Directive>, d: Directive)
    requires DirectivesDistinct(ds) && d in ds
    ensures FindDirective(ds, d.name) == Some(d)
  {
    if ds[0] != d {
      DirectiveFound(ds[1..], d);
    }
  }

  /** The diff of two lists with distinct names leads from the first to the second. */
  lemma {:induction false} DirectivesRoundTrip(ps: seq<Directive>, qs: seq<Directive>) returns (r: seq<Directive>)
    requires DirectivesDistinct(ps) && DirectivesDistinct(qs) && ArgumentsOk(ps) && ArgumentsOk(qs)
    ensures RunOnDirectives(ps, DirectiveChanges(ps, qs)) == Some(r)
    ensures DirectivesDistinct(r) && ArgumentsOk(r) && DirectivesAgree(r, qs)
  {
    var changes := DirectiveChanges(ps, qs);
    forall n ensures SlotAgrees(RunOnSlot(FindDirective(ps, n), Named(n, changes)), FindDirective(qs, n)) {
      SlotReaches(ps, qs, n);
    }
    forall c | c in changes ensures NameOnly(c) {
      ChangesNamed(ps, qs, c.name);
    }
    hide DirectiveChanges, SameDirective, RunOnSlot;
    NameByName(ps, changes);
    r := RunOnDirectives(ps, changes).value;
    forall d | d in r ensures ArgumentsDistinct(d.arguments) && Has(qs, d) {
      DirectiveFound(r, d);
      assert SlotAgrees(RunOnSlot(FindDirective(ps, d.name), Named(d.name, changes)), FindDirective(qs, d.name));
      SameSymmetric(d, FindDirective(qs, d.name).value);
    }
    forall q | q in qs ensures Has(r, q) {
      DirectiveFound(qs, q);
      assert SlotAgrees(RunOnSlot(FindDirective(ps, q.name), Named(q.name, changes)), FindDirective(qs, q.name));
      assert FindDirective(r, q.name).value in r;
    }
  }
}
