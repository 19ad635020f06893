/** Applying the diff of two models to the first gives the second. */
module FieldRoundTrip {
  import opened Wrappers
  import opened Names
  import opened Datamodels
  import opened DatamodelDiffer
  import opened DirectiveRoundTrip
  import opened ModelDirectives

  // ----- well-formed models -----

  ghost predicate FieldsDistinct(fs: seq<Field>) {
    fs != [] ==> FindField(fs[1..], fs[0].name).None? && FieldsDistinct(fs[1..])
  }

  ghost predicate FieldOk(f: Field) {
    DirectivesDistinct(f.directives) && ArgumentsOk(f.directives)
  }

  ghost predicate ModelOk(m: Model) {
    FieldsDistinct(m.fields) && ModelDirectivesOk(m.directives) && forall f :: f in m.fields ==> FieldOk(f)
  }

  // ----- a model, field by field -----

  predicate KeepsNames(step: Step) {
    (step.UpdateField? || step.UpdateModel? || step.UpdateEnum?) ==> step.newName.None?
  }

  function RunOnModel(m: Model, steps: seq<Step>): Option<Model>
    requires forall step :: step in steps ==> InModel(step)
    decreases |steps|
  {
    if steps == [] then Some(m)
    else
      assert steps[0] in steps;
      var m' :- ApplyToModel(m, steps[0]);
      RunOnModel(m', steps[1..])
  }

  function RunOnField(slot: Option<Field>, steps: seq<Step>): FieldOutcome
    requires forall step :: step in steps ==> OnField(step)
    decreases |steps|
  {
    if steps == [] then FieldSlot(slot)
    else
      assert steps[0] in steps;
      var r := ApplyToField(slot, steps[0]);
      if r.FieldError? then FieldError else RunOnField(r.field, steps[1..])
  }

  function ForField(f: Name, steps: seq<Step>): (r: seq<Step>)
    ensures forall step :: step in r ==> step in steps && OnField(step) && FieldOf(step) == f
  {
    if steps == [] then []
    else if OnField(steps[0]) && FieldOf(steps[0]) == f then [steps[0]] + ForField(f, steps[1..])
    else ForField(f, steps[1..])
  }

  function ForDirectives(steps: seq<Step>): seq<DirectiveStep> {
    if steps == [] then []
    else if steps[0].OnDirective? && steps[0].location.ModelLocation? then [steps[0].change] + ForDirectives(steps[1..])
    else ForDirectives(steps[1..])
  }

  lemma {:induction false} ReplacedField(fs: seq<Field>, n: Name, x: Field, f: Name)
    requires x.name == n
    ensures FindField(ReplaceField(fs, n, x), f) == if f == n then Some(x) else FindField(fs, f)
    ensures FieldsDistinct(fs) ==> FieldsDistinct(ReplaceField(fs, n, x))
  {
    if fs == [] {
      assert [x][1..] == [];
    } else if fs[0].name == n {
      assert ([x] + fs[1..])[1..] == fs[1..];
    } else {
      ReplacedField(fs[1..], n, x, f);
      ReplacedField(fs[1..], n, x, fs[0].name);
      var rest := ReplaceField(fs[1..], n, x);
      assert ([fs[0]] + rest)[1..] == rest;
    }
  }

  lemma {:induction false} RemovedField(fs: seq<Field>, n: Name, f: Name)
    ensures FindField(RemoveField(fs, n), f) == if f == n then None else FindField(fs, f)
    ensures FieldsDistinct(fs) ==> FieldsDistinct(RemoveField(fs, n))
  {
    if fs != [] {
      RemovedField(fs[1..], n, f);
      RemovedField(fs[1..], n, fs[0].name);
      var rest := RemoveField(fs[1..], n);
      assert ([fs[0]] + rest)[1..] == rest;
    }
  }

  lemma {:induction false} PutFieldAt(fs: seq<Field>, n: Name, slot: Option<Field>, f: Name)
    requires slot.Some? ==> slot.value.name == n
    ensures FindField(PutField(fs, n, slot), f) == if f == n then slot else FindField(fs, f)
    ensures FieldsDistinct(fs) ==> FieldsDistinct(PutField(fs, n, slot))
  {
    if slot.Some? {
      ReplacedField(fs, n, slot.value, f);
    } else {
      RemovedField(fs, n, f);
    }
  }

  lemma {:induction false} FieldKeepsName(slot: Option<Field>, step: Step)
    requires OnField(step) && KeepsNames(step) && (slot.Some? ==> slot.value.name == FieldOf(step))
    ensures var r := ApplyToField(slot, step); r.FieldSlot? && r.field.Some? ==> r.field.value.name == FieldOf(step)
  {
  }

  ghost predicate FieldsRun(m: Model, steps: seq<Step>) {
    forall f :: RunOnField(FindField(m.fields, f), ForField(f, steps)).FieldSlot?
  }

  lemma {:induction false} OneFieldStep(m: Model, step: Step, f: Name)
    requires OnField(step) && KeepsNames(step) && FieldsDistinct(m.fields)
    requires ApplyToField(FindField(m.fields, FieldOf(step)), step).FieldSlot?
    ensures var r := ApplyToModel(m, step);
            && r.Some? && r.value.name == m.name && r.value.directives == m.directives && FieldsDistinct(r.value.fields)
            && FindField(r.value.fields, f) ==
               if f == FieldOf(step) then ApplyToField(FindField(m.fields, f), step).field else FindField(m.fields, f)
  {
    var outcome := ApplyToField(FindField(m.fields, FieldOf(step)), step);
    FieldKeepsName(FindField(m.fields, FieldOf(step)), step);
    PutFieldAt(m.fields, FieldOf(step), outcome.field, f);
  }

  /** Steps on different fields, and on the directives of the model, do not interfere. */
  lemma {:induction false} FieldByField(m: Model, steps: seq<Step>)
    requires FieldsDistinct(m.fields) && forall step :: step in steps ==> InModel(step) && KeepsNames(step)
    requires FieldsRun(m, steps) && RunOnDirectives(m.directives, ForDirectives(steps)).Some?
    ensures var r := RunOnModel(m, steps);
            && r.Some? && r.value.name == m.name && FieldsDistinct(r.value.fields)
            && Some(r.value.directives) == RunOnDirectives(m.directives, ForDirectives(steps))
            && forall f :: RunOnField(FindField(m.fields, f), ForField(f, steps)) == FieldSlot(FindField(r.value.fields, f))
    decreases |steps|
  {
    if steps != [] {
      var step, rest := steps[0], steps[1..];
      assert step in steps && forall s :: s in rest ==> s in steps;
      if OnField(step) {
        var n := FieldOf(step);
        assert RunOnField(FindField(m.fields, n), ForField(n, steps)).FieldSlot?;
        assert ForField(n, steps) == [step] + ForField(n, rest);
        OneFieldStep(m, step, n);
        var m' := ApplyToModel(m, step).value;
        forall f
          ensures RunOnField(FindField(m.fields, f), ForField(f, steps)) == RunOnField(FindField(m'.fields, f), ForField(f, rest))
        {
          OneFieldStep(m, step, f);
          assert ForField(f, steps) == if f == n then [step] + ForField(f, rest) else ForField(f, rest);
          assert ([step] + ForField(f, rest))[1..] == ForField(f, rest);
        }
        FieldByField(m', rest);
      } else {
        var changes := ForDirectives(rest);
        assert ([step.change] + changes)[1..] == changes;
        var m' := ApplyToModel(m, step).value;
        forall f
          ensures RunOnField(FindField(m.fields, f), ForField(f, steps)) == RunOnField(FindField(m'.fields, f), ForField(f, rest))
        {
        }
        FieldByField(m', rest);
      }
    }
  }

  // ----- the steps of one field -----

  ghost predicate AllInModel(steps: seq<Step>) {
    forall step :: step in steps ==> InModel(step) && KeepsNames(step)
  }

  ghost predicate ConcernsField(f: Name, steps: seq<Step>) {
    forall step :: step in steps ==> OnField(step) && FieldOf(step) == f && KeepsNames(step)
  }

  lemma {:induction false} ForFieldConcat(f: Name, xs: seq<Step>, ys: seq<Step>)
    ensures ForField(f, xs + ys) == ForField(f, xs) + ForField(f, ys)
  {
    hide FieldOf, OnField;
    if xs == [] {
      assert xs + ys == ys;
    } else {
      assert (xs + ys)[0] == xs[0] && (xs + ys)[1..] == xs[1..] + ys;
      ForFieldConcat(f, xs[1..], ys);
      var head := if OnField(xs[0]) && FieldOf(xs[0]) == f then [xs[0]] else [];
      assert ForField(f, xs) == head + ForField(f, xs[1..]);
      assert ForField(f, xs + ys) == head + (ForField(f, xs[1..]) + ForField(f, ys));
    }
  }

  lemma {:induction false} ForDirectivesConcat(xs: seq<Step>, ys: seq<Step>)
    ensures ForDirectives(xs + ys) == ForDirectives(xs) + ForDirectives(ys)
  {
    if xs == [] {
      assert xs + ys == ys;
    } else {
      assert (xs + ys)[0] == xs[0] && (xs + ys)[1..] == xs[1..] + ys;
      ForDirectivesConcat(xs[1..], ys);
    }
  }

  lemma {:induction false} ForFieldOwn(f: Name, g: Name, steps: seq<Step>)
    requires ConcernsField(g, steps)
    ensures ForField(f, steps) == (if f == g then steps else []) && ForDirectives(steps) == []
  {
    if steps != [] {
      assert steps[0] in steps;
      ForFieldOwn(f, g, steps[1..]);
    }
  }

  lemma {:induction false} ForFieldHead(f: Name, g: Name, xs: seq<Step>, ys: seq<Step>)
    requires ConcernsField(g, xs)
    ensures ForField(f, xs + ys) == (if f == g then xs else []) + ForField(f, ys)
    ensures ForDirectives(xs + ys) == ForDirectives(ys)
  {
    ForFieldConcat(f, xs, ys);
    ForDirectivesConcat(xs, ys);
    ForFieldOwn(f, g, xs);
  }

  lemma {:induction false} AtField(m: Name, f: Name, changes: seq<DirectiveStep>)
    ensures ConcernsField(f, At(FieldLocation(m, f), changes))
  {
  }

  lemma {:induction false} CreationConcerns(m: Name, q: Field)
    ensures ConcernsField(q.name, FieldCreation(m, q))
  {
    hide At, DirectiveCreations;
    AtField(m, q.name, DirectiveCreations([], q.directives));
  }

  lemma {:induction false} CreationsFor(m: Name, ps: seq<Field>, qs: seq<Field>, f: Name)
    requires FieldsDistinct(qs)
    ensures AllInModel(FieldCreations(m, ps, qs))
    ensures ForDirectives(FieldCreations(m, ps, qs)) == []
    ensures ForField(f, FieldCreations(m, ps, qs)) ==
            var q := FindField(qs, f);
            if q.Some? && FindField(ps, f).None? then FieldCreation(m, q.value) else []
  {
    if qs != [] {
      hide FieldCreation, ForField, ForDirectives;
      CreationsFor(m, ps, qs[1..], f);
      CreationConcerns(m, qs[0]);
      ForFieldHead(f, qs[0].name, FieldCreation(m, qs[0]), FieldCreations(m, ps, qs[1..]));
    }
  }

  lemma {:induction false} DeletionsFor(m: Name, ps: seq<Field>, qs: seq<Field>, f: Name)
    requires FieldsDistinct(ps)
    ensures AllInModel(FieldDeletions(m, ps, qs))
    ensures ForDirectives(FieldDeletions(m, ps, qs)) == []
    ensures ForField(f, FieldDeletions(m, ps, qs)) ==
            if FindField(ps, f).Some? && FindField(qs, f).None? then [DeleteField(m, f)] else []
  {
    if ps != [] {
      DeletionsFor(m, ps[1..], qs, f);
      ForFieldHead(f, ps[0].name, [DeleteField(m, ps[0].name)], FieldDeletions(m, ps[1..], qs));
    }
  }

  lemma {:induction false} UpdateConcerns(m: Name, p: Field, q: Field)
    requires p.name == q.name
    ensures ConcernsField(p.name, FieldUpdate(m, p, q))
  {
    hide At, DirectiveChanges;
    AtField(m, p.name, DirectiveChanges(p.directives, q.directives));
  }

  lemma {:induction false} UpdatesFor(m: Name, ps: seq<Field>, qs: seq<Field>, f: Name)
    requires FieldsDistinct(ps)
    ensures AllInModel(FieldUpdates(m, ps, qs))
    ensures ForDirectives(FieldUpdates(m, ps, qs)) == []
    ensures ForField(f, FieldUpdates(m, ps, qs)) ==
            var p, q := FindField(ps, f), FindField(qs, f);
            if p.Some? && q.Some? then FieldUpdate(m, p.value, q.value) else []
  {
    if ps != [] {
      UpdatesFor(m, ps[1..], qs, f);
      var q := FindField(qs, ps[0].name);
      if q.Some? {
        UpdateConcerns(m, ps[0], q.value);
        hide FieldUpdate, ForField, ForDirectives;
        ForFieldHead(f, ps[0].name, FieldUpdate(m, ps[0], q.value), FieldUpdates(m, ps[1..], qs));
      }
    }
  }

  // ----- what becomes of one field -----

  lemma {:induction false} FieldDirectivesRun(x: Field, location: Location, changes: seq<DirectiveStep>)
    requires location.FieldLocation? && RunOnDirectives(x.directives, changes).Some?
    ensures RunOnField(Some(x), At(location, changes)) ==
            FieldSlot(Some(x.(directives := RunOnDirectives(x.directives, changes).value)))
    decreases |changes|
  {
    if changes != [] {
      var ds := ApplyToDirectives(x.directives, changes[0]).value;
      var rest := At(location, changes[1..]);
      assert At(location, changes) == [OnDirective(location, changes[0])] + rest;
      FieldDirectivesRun(x.(directives := ds), location, changes[1..]);
    }
  }

  ghost predicate FieldAgrees(slot: Option<Field>, q: Option<Field>) {
    && (slot.Some? <==> q.Some?)
    && (q.Some? ==>
          && slot.value.name == q.value.name && slot.value.fieldType == q.value.fieldType
          && slot.value.arity == q.value.arity && SameDirectives(slot.value.directives, q.value.directives))
  }

  lemma {:induction false} SameLists(ps: seq<Directive>, qs: seq<Directive>)
    requires DirectivesDistinct(ps) && DirectivesDistinct(qs) && ArgumentsOk(ps) && ArgumentsOk(qs)
    ensures var r := RunOnDirectives(ps, DirectiveChanges(ps, qs)); r.Some? && SameDirectives(r.value, qs)
  {
    var r := DirectivesRoundTrip(ps, qs);
    DistinctPairwise(r);
    DistinctPairwise(qs);
    AgreeSameLength(r, qs);
  }

  lemma {:induction false} FieldCreated(m: Name, q: Field)
    requires FieldOk(q)
    ensures forall step :: step in FieldCreation(m, q) ==> OnField(step)
    ensures var r := RunOnField(None, FieldCreation(m, q)); r.FieldSlot? && FieldAgrees(r.field, Some(q))
  {
    var changes, location := DirectiveCreations([], q.directives), FieldLocation(m, q.name);
    assert DirectiveChanges([], q.directives) == changes;
    SameLists([], q.directives);
    FieldDirectivesRun(Field(q.name, q.fieldType, q.arity, []), location, changes);
    assert FieldCreation(m, q)[1..] == At(location, changes);
    hide RunOnDirectives, SameDirectives, DirectiveChanges, At;
  }

  lemma {:induction false} FieldUpdated(m: Name, p: Field, q: Field)
    requires FieldOk(p) && FieldOk(q) && p.name == q.name
    ensures forall step :: step in FieldUpdate(m, p, q) ==> OnField(step)
    ensures var r := RunOnField(Some(p), FieldUpdate(m, p, q)); r.FieldSlot? && FieldAgrees(r.field, Some(q))
  {
    var changes, location := DirectiveChanges(p.directives, q.directives), FieldLocation(m, p.name);
    SameLists(p.directives, q.directives);
    var p' := Field(p.name, q.fieldType, q.arity, p.directives);
    FieldDirectivesRun(p', location, changes);
    AtField(m, p.name, changes);
    UpdateConcerns(m, p, q);
    hide RunOnDirectives, SameDirectives, DirectiveChanges, At, RunOnField;
    if p.fieldType != q.fieldType || p.arity != q.arity {
      var update := UpdateField(m, p.name, None, DiffValue(p.fieldType, q.fieldType), DiffValue(p.arity, q.arity));
      assert FieldUpdate(m, p, q) == [update] + At(location, changes);
      hide FieldUpdate, ConcernsField, FieldOk;
      assert ApplyToField(Some(p), update) == FieldSlot(Some(p'));
      hide ApplyToField;
      RunFirstField(Some(p), update, At(location, changes));
    } else {
      assert p' == p;
      assert FieldUpdate(m, p, q) == At(location, changes);
    }
  }

  lemma {:induction false} RunFirstField(slot: Option<Field>, step: Step, steps: seq<Step>)
    requires OnField(step) && forall s :: s in steps ==> OnField(s)
    ensures RunOnField(slot, [step] + steps) ==
            var r := ApplyToField(slot, step);
            if r.FieldError? then FieldError else RunOnField(r.field, steps)
  {
    assert ([step] + steps)[1..] == steps;
  }
}
