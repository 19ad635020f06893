/**
  The calculator and the differ as they work in place: a syntax tree that steps
  change, and a list of steps that the differ appends to.
 */
module DatamodelObjects {
  import opened Wrappers
  import opened Names
  import opened Datamodels
  import opened DatamodelDiffer
  import opened DatamodelRoundTrip
  import opened FieldRoundTrip

  class SchemaAst {
    var tops: seq<Top>

    constructor (tops: seq<Top>)
      ensures this.tops == tops
    {
      this.tops := tops;
    }

    method FindIndex(k: Key) returns (i: nat)
      ensures i <= |tops| && (forall j :: 0 <= j < i ==> KeyOfTop(tops[j]) != k)
      ensures i < |tops| ==> KeyOfTop(tops[i]) == k
    {
      i := 0;
      while i < |tops| && KeyOfTop(tops[i]) != k
        invariant i <= |tops| && forall j :: 0 <= j < i ==> KeyOfTop(tops[j]) != k
      {
        i := i + 1;
      }
    }

    method Remove(k: Key)
      modifies this
      ensures tops == RemoveTop(old(tops), k)
    {
      var kept: seq<Top> := [];
      for i := 0 to |tops|
        invariant tops == old(tops) && kept + RemoveTop(tops[i..], k) == RemoveTop(tops, k)
      {
        assert tops[i..][1..] == tops[i + 1..];
        if KeyOfTop(tops[i]) != k {
          kept := kept + [tops[i]];
        }
      }
      assert tops[|tops|..] == [] && kept + [] == kept;
      tops := kept;
    }

    /** A step that fails leaves the tree as it was. */
    method ApplyStep(step: Step) returns (ok: bool)
      modifies this
      ensures ok <==> Datamodels.ApplyStep(old(tops), step).Some?
      ensures ok ==> Some(tops) == Datamodels.ApplyStep(old(tops), step)
      ensures !ok ==> tops == old(tops)
    {
      var k := KeyOf(step);
      var i := FindIndex(k);
      IndexFinds(tops, k, i);
      var slot := if i < |tops| then Some(tops[i]) else None;
      var outcome := ApplyToTop(slot, step);
      if outcome.Error? {
        return false;
      }
      if outcome.top.None? {
        Remove(k);
      } else if i < |tops| {
        ReplacedAt(tops, k, i, outcome.top.value);
        tops := tops[i := outcome.top.value];
      } else {
        ReplacedAt(tops, k, i, outcome.top.value);
        tops := tops + [outcome.top.value];
      }
      ok := true;
    }

    method Apply(steps: seq<Step>) returns (ok: bool)
      modifies this
      ensures ok <==> ApplyAll(old(tops), steps).Some?
      ensures ok ==> Some(tops) == ApplyAll(old(tops), steps)
    {
      for i := 0 to |steps|
        invariant ApplyAll(tops, steps[i..]) == ApplyAll(old(tops), steps)
      {
        assert steps[i..][0] == steps[i] && steps[i..][1..] == steps[i + 1..];
        ok := ApplyStep(steps[i]);
        if !ok {
          return false;
        }
      }
      assert steps[|steps|..] == [];
      ok := true;
    }

    /** Inferring the steps to a datamodel and applying them gives that datamodel. */
    method Migrate(next: seq<Top>) returns (ok: bool)
      requires AstOk(tops) && AstOk(next)
      modifies this
      ensures ok && TopsDistinct(tops) && Others(tops) == Others(old(tops))
      ensures AstAgrees(tops, next) <==> AllCreatable(old(tops), next)
    {
      hide Diff, ApplyAll, AstOk, AstAgrees, AllCreatable, TopsDistinct, Others;
      DiffRoundTripIff(tops, next);
      var list := new StepList();
      list.PushAll(tops, next);
      assert [] + Diff(tops, next) == Diff(tops, next);
      ok := Apply(list.steps);
    }
  }

  lemma {:induction false} IndexFinds(ts: seq<Top>, k: Key, i: nat)
    requires i <= |ts| && forall j :: 0 <= j < i ==> KeyOfTop(ts[j]) != k
    requires i < |ts| ==> KeyOfTop(ts[i]) == k
    ensures FindTop(ts, k) == if i < |ts| then Some(ts[i]) else None
  {
    if i > 0 {
      forall j | 0 <= j < i - 1 ensures KeyOfTop(ts[1..][j]) != k {
        assert ts[1..][j] == ts[j + 1];
      }
      IndexFinds(ts[1..], k, i - 1);
    }
  }

  lemma {:induction false} ReplacedAt(ts: seq<Top>, k: Key, i: nat, t: Top)
    requires i <= |ts| && forall j :: 0 <= j < i ==> KeyOfTop(ts[j]) != k
    requires i < |ts| ==> KeyOfTop(ts[i]) == k
    ensures ReplaceTop(ts, k, t) == if i < |ts| then ts[i := t] else ts + [t]
  {
    if i > 0 {
      forall j | 0 <= j < i - 1 ensures KeyOfTop(ts[1..][j]) != k {
        assert ts[1..][j] == ts[j + 1];
      }
      ReplacedAt(ts[1..], k, i - 1, t);
    }
  }

  class StepList {
    var steps: seq<Step>

    constructor ()
      ensures steps == []
    {
      steps := [];
    }

    method Push(more: seq<Step>)
      modifies this
      ensures steps == old(steps) + more
    {
      steps := steps + more;
    }

    method PushCreatedDirective(location: Location, d: Directive)
      modifies this
      ensures steps == old(steps) + At(location, DirectiveCreation(d))
    {
      ghost var all := At(location, DirectiveCreation(d));
      AtFirst(location, CreateDirective(d.name, None), ArgumentCreations(d.name, [], d.arguments));
      Push([OnDirective(location, CreateDirective(d.name, None))]);
      assert d.arguments[0..] == d.arguments;
      hide At, DirectiveCreation, ArgumentCreations;
      Carry(old(steps), [OnDirective(location, CreateDirective(d.name, None))],
            At(location, ArgumentCreations(d.name, [], d.arguments)), old(steps) + all);
      for i := 0 to |d.arguments|
        invariant steps + At(location, ArgumentCreations(d.name, [], d.arguments[i..])) == old(steps) + all
      {
        var step := CreateArgument(d.name, d.arguments[i].name, d.arguments[i].value);
        ghost var before, rest := steps, ArgumentCreations(d.name, [], d.arguments[i + 1..]);
        FirstCreation(d.name, d.arguments, i);
        AtFirst(location, step, rest);
        Push([OnDirective(location, step)]);
        Carry(before, [OnDirective(location, step)], At(location, rest), old(steps) + all);
      }
      NoCreations(location, d.name, d.arguments);
    }

    method PushCreatedDirectives(location: Location, ps: seq<Directive>, qs: seq<Directive>)
      modifies this
      ensures steps == old(steps) + At(location, DirectiveCreations(ps, qs))
    {
      hide At, DirectiveCreation;
      ghost var all := old(steps) + At(location, DirectiveCreations(ps, qs));
      assert qs[0..] == qs;
      for i := 0 to |qs|
        invariant steps + At(location, DirectiveCreations(ps, qs[i..])) == all
      {
        assert qs[i..][0] == qs[i] && qs[i..][1..] == qs[i + 1..];
        if FindDirective(ps, qs[i].name).None? {
          ghost var before, rest := steps, DirectiveCreations(ps, qs[i + 1..]);
          AtConcat(location, DirectiveCreation(qs[i]), rest);
          PushCreatedDirective(location, qs[i]);
          Carry(before, At(location, DirectiveCreation(qs[i])), At(location, rest), all);
        }
      }
      assert qs[|qs|..] == [];
      AtNothing(location);
    }

    method PushCreatedArguments(location: Location, d: Name, ps: seq<Argument>, qs: seq<Argument>)
      modifies this
      ensures steps == old(steps) + At(location, ArgumentCreations(d, ps, qs))
    {
      hide At;
      ghost var all := old(steps) + At(location, ArgumentCreations(d, ps, qs));
      assert qs[0..] == qs;
      for i := 0 to |qs|
        invariant steps + At(location, ArgumentCreations(d, ps, qs[i..])) == all
      {
        assert qs[i..][0] == qs[i] && qs[i..][1..] == qs[i + 1..];
        if FindArgument(ps, qs[i].name).None? {
          var step := CreateArgument(d, qs[i].name, qs[i].value);
          ghost var before, rest := steps, ArgumentCreations(d, ps, qs[i + 1..]);
          AtFirst(location, step, rest);
          Push([OnDirective(location, step)]);
          Carry(before, [OnDirective(location, step)], At(location, rest), all);
        }
      }
      assert qs[|qs|..] == [];
      AtNothing(location);
    }

    method PushUpdatedArguments(location: Location, d: Name, ps: seq<Argument>, qs: seq<Argument>)
      modifies this
      ensures steps == old(steps) + At(location, ArgumentUpdates(d, ps, qs))
    {
      hide At;
      ghost var all := old(steps) + At(location, ArgumentUpdates(d, ps, qs));
      assert ps[0..] == ps;
      for i := 0 to |ps|
        invariant steps + At(location, ArgumentUpdates(d, ps[i..], qs)) == all
      {
        assert ps[i..][0] == ps[i] && ps[i..][1..] == ps[i + 1..];
        var q := FindArgument(qs, ps[i].name);
        if q.Some? && ps[i].value != q.value.value {
          var step := UpdateArgument(d, q.value.name, q.value.value);
          ghost var before, rest := steps, ArgumentUpdates(d, ps[i + 1..], qs);
          AtFirst(location, step, rest);
          Push([OnDirective(location, step)]);
          Carry(before, [OnDirective(location, step)], At(location, rest), all);
        }
      }
      assert ps[|ps|..] == [];
      AtNothing(location);
    }

    method PushDeletedArguments(location: Location, d: Name, ps: seq<Argument>, qs: seq<Argument>)
      modifies this
      ensures steps == old(steps) + At(location, ArgumentDeletions(d, ps, qs))
    {
      hide At;
      ghost var all := old(steps) + At(location, ArgumentDeletions(d, ps, qs));
      assert ps[0..] == ps;
      for i := 0 to |ps|
        invariant steps + At(location, ArgumentDeletions(d, ps[i..], qs)) == all
      {
        assert ps[i..][0] == ps[i] && ps[i..][1..] == ps[i + 1..];
        if FindArgument(qs, ps[i].name).None? {
          var step := DeleteArgument(d, ps[i].name);
          ghost var before, rest := steps, ArgumentDeletions(d, ps[i + 1..], qs);
          AtFirst(location, step, rest);
          Push([OnDirective(location, step)]);
          Carry(before, [OnDirective(location, step)], At(location, rest), all);
        }
      }
      assert ps[|ps|..] == [];
      AtNothing(location);
    }

    method PushUpdatedDirective(location: Location, p: Directive, q: Directive)
      modifies this
      ensures steps == old(steps) + At(location, DirectiveUpdate(p, q))
    {
      ghost var a, b, c := ArgumentCreations(p.name, p.arguments, q.arguments),
                           ArgumentUpdates(p.name, p.arguments, q.arguments),
                           ArgumentDeletions(p.name, p.arguments, q.arguments);
      AtConcat(location, a, b);
      AtConcat(location, a + b, c);
      hide At, ArgumentCreations, ArgumentUpdates, ArgumentDeletions;
      PushCreatedArguments(location, p.name, p.arguments, q.arguments);
      PushUpdatedArguments(location, p.name, p.arguments, q.arguments);
      PushDeletedArguments(location, p.name, p.arguments, q.arguments);
    }

    method PushUpdatedDirectives(location: Location, ps: seq<Directive>, qs: seq<Directive>)
      modifies this
      ensures steps == old(steps) + At(location, DirectiveUpdates(ps, qs))
    {
      hide At, DirectiveUpdate;
      ghost var all := old(steps) + At(location, DirectiveUpdates(ps, qs));
      assert ps[0..] == ps;
      for i := 0 to |ps|
        invariant steps + At(location, DirectiveUpdates(ps[i..], qs)) == all
      {
        assert ps[i..][0] == ps[i] && ps[i..][1..] == ps[i + 1..];
        var q := FindDirective(qs, ps[i].name);
        if q.Some? {
          ghost var before, rest := steps, DirectiveUpdates(ps[i + 1..], qs);
          AtConcat(location, DirectiveUpdate(ps[i], q.value), rest);
          PushUpdatedDirective(location, ps[i], q.value);
          Carry(before, At(location, DirectiveUpdate(ps[i], q.value)), At(location, rest), all);
        }
      }
      assert ps[|ps|..] == [];
      AtNothing(location);
    }

    method PushDeletedDirectives(location: Location, ps: seq<Directive>, qs: seq<Directive>)
      modifies this
      ensures steps == old(steps) + At(location, DirectiveDeletions(ps, qs))
    {
      hide At;
      ghost var all := old(steps) + At(location, DirectiveDeletions(ps, qs));
      assert ps[0..] == ps;
      for i := 0 to |ps|
        invariant steps + At(location, DirectiveDeletions(ps[i..], qs)) == all
      {
        assert ps[i..][0] == ps[i] && ps[i..][1..] == ps[i + 1..];
        if FindDirective(qs, ps[i].name).None? {
          ghost var before, rest := steps, DirectiveDeletions(ps[i + 1..], qs);
          AtFirst(location, DeleteDirective(ps[i].name, None), rest);
          Push([OnDirective(location, DeleteDirective(ps[i].name, None))]);
          Carry(before, [OnDirective(location, DeleteDirective(ps[i].name, None))], At(location, rest), all);
        }
      }
      assert ps[|ps|..] == [];
      AtNothing(location);
    }

    method PushDirectives(location: Location, ps: seq<Directive>, qs: seq<Directive>)
      modifies this
      ensures steps == old(steps) + At(location, DirectiveChanges(ps, qs))
    {
      AtConcat(location, DirectiveCreations(ps, qs), DirectiveUpdates(ps, qs));
      AtConcat(location, DirectiveCreations(ps, qs) + DirectiveUpdates(ps, qs), DirectiveDeletions(ps, qs));
      hide At, DirectiveCreations, DirectiveUpdates, DirectiveDeletions;
      PushCreatedDirectives(location, ps, qs);
      PushUpdatedDirectives(location, ps, qs);
      PushDeletedDirectives(location, ps, qs);
    }

    method PushCreatedField(m: Name, f: Field)
      modifies this
      ensures steps == old(steps) + FieldCreation(m, f)
    {
      hide At, DirectiveCreations;
      Push([CreateField(m, f.name, f.fieldType, f.arity)]);
      PushCreatedDirectives(FieldLocation(m, f.name), [], f.directives);
    }

    method PushCreatedFields(m: Name, ps: seq<Field>, qs: seq<Field>)
      modifies this
      ensures steps == old(steps) + FieldCreations(m, ps, qs)
    {
      hide FieldCreation;
      ghost var all := old(steps) + FieldCreations(m, ps, qs);
      assert qs[0..] == qs;
      for i := 0 to |qs|
        invariant steps + FieldCreations(m, ps, qs[i..]) == all
      {
        assert qs[i..][0] == qs[i] && qs[i..][1..] == qs[i + 1..];
        if FindField(ps, qs[i].name).None? {
          ghost var before := steps;
          PushCreatedField(m, qs[i]);
          Carry(before, FieldCreation(m, qs[i]), FieldCreations(m, ps, qs[i + 1..]), all);
        }
      }
      assert qs[|qs|..] == [] && steps + [] == steps;
    }

    method PushDeletedFields(m: Name, ps: seq<Field>, qs: seq<Field>)
      modifies this
      ensures steps == old(steps) + FieldDeletions(m, ps, qs)
    {
      for i := 0 to |ps|
        invariant steps + FieldDeletions(m, ps[i..], qs) == old(steps) + FieldDeletions(m, ps, qs)
      {
        assert ps[i..][1..] == ps[i + 1..];
        if FindField(qs, ps[i].name).None? {
          Push([DeleteField(m, ps[i].name)]);
        }
      }
    }

    method PushUpdatedField(m: Name, p: Field, q: Field)
      modifies this
      ensures steps == old(steps) + FieldUpdate(m, p, q)
    {
      hide At, DirectiveChanges;
      var newName, newType, newArity :=
        DiffValue(p.name, q.name), DiffValue(p.fieldType, q.fieldType), DiffValue(p.arity, q.arity);
      var update: seq<Step> := [];
      if newName.Some? || newType.Some? || newArity.Some? {
        update := [UpdateField(m, p.name, newName, newType, newArity)];
      }
      Push(update);
      PushDirectives(FieldLocation(m, p.name), p.directives, q.directives);
    }

    method PushUpdatedFields(m: Name, ps: seq<Field>, qs: seq<Field>)
      modifies this
      ensures steps == old(steps) + FieldUpdates(m, ps, qs)
    {
      hide FieldUpdate;
      ghost var all := old(steps) + FieldUpdates(m, ps, qs);
      assert ps[0..] == ps;
      for i := 0 to |ps|
        invariant steps + FieldUpdates(m, ps[i..], qs) == all
      {
        assert ps[i..][0] == ps[i] && ps[i..][1..] == ps[i + 1..];
        var q := FindField(qs, ps[i].name);
        if q.Some? {
          ghost var before := steps;
          PushUpdatedField(m, ps[i], q.value);
          Carry(before, FieldUpdate(m, ps[i], q.value), FieldUpdates(m, ps[i + 1..], qs), all);
        }
      }
      assert ps[|ps|..] == [] && steps + [] == steps;
    }

    method PushCreatedRepeated(location: Location, ps: seq<Directive>, qs: seq<Directive>)
      modifies this
      ensures steps == old(steps) + At(location, RepeatedCreations(ps, qs))
    {
      hide At, Identical;
      ghost var all := old(steps) + At(location, RepeatedCreations(ps, qs));
      assert qs[0..] == qs;
      for i := 0 to |qs|
        invariant steps + At(location, RepeatedCreations(ps, qs[i..])) == all
      {
        assert qs[i..][0] == qs[i] && qs[i..][1..] == qs[i + 1..];
        if !exists p :: p in ps && Identical(p, qs[i]) {
          var step := CreateDirective(qs[i].name, Some(qs[i].arguments));
          ghost var before, rest := steps, RepeatedCreations(ps, qs[i + 1..]);
          AtFirst(location, step, rest);
          Push([OnDirective(location, step)]);
          Carry(before, [OnDirective(location, step)], At(location, rest), all);
        }
      }
      assert qs[|qs|..] == [];
      AtNothing(location);
    }

    method PushDeletedRepeated(location: Location, ps: seq<Directive>, qs: seq<Directive>)
      modifies this
      ensures steps == old(steps) + At(location, RepeatedDeletions(ps, qs))
    {
      hide At, Identical;
      ghost var all := old(steps) + At(location, RepeatedDeletions(ps, qs));
      assert ps[0..] == ps;
      for i := 0 to |ps|
        invariant steps + At(location, RepeatedDeletions(ps[i..], qs)) == all
      {
        assert ps[i..][0] == ps[i] && ps[i..][1..] == ps[i + 1..];
        if !exists q :: q in qs && Identical(ps[i], q) {
          var step := DeleteDirective(ps[i].name, Some(ps[i].arguments));
          ghost var before, rest := steps, RepeatedDeletions(ps[i + 1..], qs);
          AtFirst(location, step, rest);
          Push([OnDirective(location, step)]);
          Carry(before, [OnDirective(location, step)], At(location, rest), all);
        }
      }
      assert ps[|ps|..] == [];
      AtNothing(location);
    }

    method PushUpdatedModel(p: Model, q: Model)
      modifies this
      ensures steps == old(steps) + ModelUpdate(p, q)
    {
      var location := ModelLocation(p.name);
      var ps, qs := Repeated(p.directives), Repeated(q.directives);
      ghost var a, b, c := DirectiveChanges(Regular(p.directives), Regular(q.directives)), RepeatedCreations(ps, qs), RepeatedDeletions(ps, qs);
      AtConcat(location, a, b);
      AtConcat(location, a + b, c);
      hide DirectiveChanges, RepeatedCreations, RepeatedDeletions, FieldCreations, FieldDeletions, FieldUpdates, At;
      PushCreatedFields(p.name, p.fields, q.fields);
      PushDeletedFields(p.name, p.fields, q.fields);
      PushUpdatedFields(p.name, p.fields, q.fields);
      PushDirectives(location, Regular(p.directives), Regular(q.directives));
      PushCreatedRepeated(location, ps, qs);
      PushDeletedRepeated(location, ps, qs);
    }

    method PushCreatedModel(m: Model)
      modifies this
      ensures steps == old(steps) + ModelCreation(m)
    {
      hide FieldCreations, DirectiveCreations, At;
      Push([CreateModel(m.name)]);
      PushCreatedFields(m.name, [], m.fields);
      PushCreatedDirectives(ModelLocation(m.name), [], m.directives);
    }

    method PushCreatedEnum(e: Enum)
      modifies this
      ensures steps == old(steps) + EnumCreation(e)
    {
      hide DirectiveCreations, At;
      Push([CreateEnum(e.name, e.values)]);
      PushCreatedDirectives(EnumLocation(e.name), [], e.directives);
    }

    method PushUpdatedEnum(p: Enum, q: Enum)
      modifies this
      ensures steps == old(steps) + EnumUpdate(p, q)
    {
      hide DirectiveChanges, At, WithoutValues;
      var newName, created, deleted :=
        DiffValue(p.name, q.name), WithoutValues(q.values, p.values), WithoutValues(p.values, q.values);
      var update: seq<Step> := [];
      if newName.Some? || created != [] || deleted != [] {
        update := [UpdateEnum(p.name, newName, created, deleted)];
      }
      Push(update);
      PushDirectives(EnumLocation(p.name), p.directives, q.directives);
    }

    method PushCreatedEnums(prev: seq<Top>, next: seq<Top>)
      modifies this
      ensures steps == old(steps) + EnumsToCreate(prev, next)
    {
      hide EnumCreation;
      ghost var all := old(steps) + EnumsToCreate(prev, next);
      assert next[0..] == next;
      for i := 0 to |next|
        invariant steps + EnumsToCreate(prev, next[i..]) == all
      {
        assert next[i..][0] == next[i] && next[i..][1..] == next[i + 1..];
        if next[i].EnumTop? && FindTop(prev, KeyOfTop(next[i])).None? {
          ghost var before := steps;
          PushCreatedEnum(next[i].enum);
          Carry(before, EnumCreation(next[i].enum), EnumsToCreate(prev, next[i + 1..]), all);
        }
      }
      assert next[|next|..] == [] && steps + [] == steps;
    }

    method PushDeletedEnums(prev: seq<Top>, next: seq<Top>)
      modifies this
      ensures steps == old(steps) + EnumsToDelete(prev, next)
    {
      for i := 0 to |prev|
        invariant steps + EnumsToDelete(prev[i..], next) == old(steps) + EnumsToDelete(prev, next)
      {
        assert prev[i..][1..] == prev[i + 1..];
        if prev[i].EnumTop? && FindTop(next, KeyOfTop(prev[i])).None? {
          Push([DeleteEnum(prev[i].enum.name)]);
        }
      }
    }

    method PushUpdatedEnums(prev: seq<Top>, next: seq<Top>)
      modifies this
      ensures steps == old(steps) + EnumsToUpdate(prev, next)
    {
      hide EnumUpdate;
      ghost var all := old(steps) + EnumsToUpdate(prev, next);
      assert prev[0..] == prev;
      for i := 0 to |prev|
        invariant steps + EnumsToUpdate(prev[i..], next) == all
      {
        assert prev[i..][0] == prev[i] && prev[i..][1..] == prev[i + 1..];
        var q := FindTop(next, KeyOfTop(prev[i]));
        if prev[i].EnumTop? && q.Some? {
          ghost var before := steps;
          PushUpdatedEnum(prev[i].enum, q.value.enum);
          Carry(before, EnumUpdate(prev[i].enum, q.value.enum), EnumsToUpdate(prev[i + 1..], next), all);
        }
      }
      assert prev[|prev|..] == [] && steps + [] == steps;
    }

    method PushCreatedModels(prev: seq<Top>, next: seq<Top>)
      modifies this
      ensures steps == old(steps) + ModelsToCreate(prev, next)
    {
      hide ModelCreation;
      ghost var all := old(steps) + ModelsToCreate(prev, next);
      assert next[0..] == next;
      for i := 0 to |next|
        invariant steps + ModelsToCreate(prev, next[i..]) == all
      {
        assert next[i..][0] == next[i] && next[i..][1..] == next[i + 1..];
        if next[i].ModelTop? && FindTop(prev, KeyOfTop(next[i])).None? {
          ghost var before := steps;
          PushCreatedModel(next[i].model);
          Carry(before, ModelCreation(next[i].model), ModelsToCreate(prev, next[i + 1..]), all);
        }
      }
      assert next[|next|..] == [] && steps + [] == steps;
    }

    method PushDeletedModels(prev: seq<Top>, next: seq<Top>)
      modifies this
      ensures steps == old(steps) + ModelsToDelete(prev, next)
    {
      for i := 0 to |prev|
        invariant steps + ModelsToDelete(prev[i..], next) == old(steps) + ModelsToDelete(prev, next)
      {
        assert prev[i..][1..] == prev[i + 1..];
        if prev[i].ModelTop? && FindTop(next, KeyOfTop(prev[i])).None? {
          Push([DeleteModel(prev[i].model.name)]);
        }
      }
    }

    method PushUpdatedModels(prev: seq<Top>, next: seq<Top>)
      modifies this
      ensures steps == old(steps) + ModelsToUpdate(prev, next)
    {
      hide ModelUpdate;
      ghost var all := old(steps) + ModelsToUpdate(prev, next);
      assert prev[0..] == prev;
      for i := 0 to |prev|
        invariant steps + ModelsToUpdate(prev[i..], next) == all
      {
        assert prev[i..][0] == prev[i] && prev[i..][1..] == prev[i + 1..];
        var q := FindTop(next, KeyOfTop(prev[i]));
        if prev[i].ModelTop? && q.Some? {
          ghost var before := steps;
          PushUpdatedModel(prev[i].model, q.value.model);
          Carry(before, ModelUpdate(prev[i].model, q.value.model), ModelsToUpdate(prev[i + 1..], next), all);
        }
      }
      assert prev[|prev|..] == [] && steps + [] == steps;
    }

    method PushAll(prev: seq<Top>, next: seq<Top>)
      modifies this
      ensures steps == old(steps) + Diff(prev, next)
    {
      hide EnumsToCreate, EnumsToDelete, EnumsToUpdate, ModelsToCreate, ModelsToDelete, ModelsToUpdate;
      PushCreatedEnums(prev, next);
      PushDeletedEnums(prev, next);
      PushUpdatedEnums(prev, next);
      PushCreatedModels(prev, next);
      PushDeletedModels(prev, next);
      PushUpdatedModels(prev, next);
    }
  }

  lemma {:induction false} Carry(a: seq<Step>, x: seq<Step>, y: seq<Step>, all: seq<Step>)
    requires a + (x + y) == all
    ensures (a + x) + y == all
  {
    assert (a + x) + y == a + (x + y);
  }

  lemma {:induction false} AtNothing(location: Location)
    ensures At(location, []) == [] && forall xs: seq<Step> :: xs + At(location, []) == xs
  {
  }

  lemma {:induction false} FirstCreation(d: Name, args: seq<Argument>, i: nat)
    requires i < |args|
    ensures ArgumentCreations(d, [], args[i..]) ==
            [CreateArgument(d, args[i].name, args[i].value)] + ArgumentCreations(d, [], args[i + 1..])
  {
    assert args[i..][0] == args[i] && args[i..][1..] == args[i + 1..];
  }

  lemma {:induction false} NoCreations(location: Location, d: Name, args: seq<Argument>)
    ensures forall xs: seq<Step> :: xs + At(location, ArgumentCreations(d, [], args[|args|..])) == xs
  {
    assert args[|args|..] == [];
    AtNothing(location);
  }

  lemma {:induction false} AtConcat(location: Location, xs: seq<DirectiveStep>, ys: seq<DirectiveStep>)
    ensures At(location, xs + ys) == At(location, xs) + At(location, ys)
  {
    if xs == [] {
      assert xs + ys == ys;
    } else {
      assert (xs + ys)[0] == xs[0] && (xs + ys)[1..] == xs[1..] + ys;
      AtConcat(location, xs[1..], ys);
    }
  }

  lemma {:induction false} AtFirst(location: Location, c: DirectiveStep, changes: seq<DirectiveStep>)
    ensures At(location, [c] + changes) == [OnDirective(location, c)] + At(location, changes)
  {
    assert ([c] + changes)[1..] == changes;
  }
}
