/**
  The datamodel differ: the steps from one syntax tree to another.  Everything
  is matched by name, but the directives that a model may repeat are matched
  with their arguments.
 */
module DatamodelDiffer {
  import opened Wrappers
  import opened Names
  import opened Datamodels

  // ----- directives -----

  function ArgumentCreations(d: Name, ps: seq<Argument>, qs: seq<Argument>): seq<DirectiveStep> {
    if qs == [] then []
    else if FindArgument(ps, qs[0].name).None?
    then [CreateArgument(d, qs[0].name, qs[0].value)] + ArgumentCreations(d, ps, qs[1..])
    else ArgumentCreations(d, ps, qs[1..])
  }

  function ArgumentUpdates(d: Name, ps: seq<Argument>, qs: seq<Argument>): seq<DirectiveStep> {
    if ps == [] then []
    else
      var q := FindArgument(qs, ps[0].name);
      if q.Some? && q.value.value != ps[0].value
      then [UpdateArgument(d, q.value.name, q.value.value)] + ArgumentUpdates(d, ps[1..], qs)
      else ArgumentUpdates(d, ps[1..], qs)
  }

  function ArgumentDeletions(d: Name, ps: seq<Argument>, qs: seq<Argument>): seq<DirectiveStep> {
    if ps == [] then []
    else if FindArgument(qs, ps[0].name).None?
    then [DeleteArgument(d, ps[0].name)] + ArgumentDeletions(d, ps[1..], qs)
    else ArgumentDeletions(d, ps[1..], qs)
  }

  function DirectiveUpdate(p: Directive, q: Directive): seq<DirectiveStep> {
    ArgumentCreations(p.name, p.arguments, q.arguments)
    + ArgumentUpdates(p.name, p.arguments, q.arguments)
    + ArgumentDeletions(p.name, p.arguments, q.arguments)
  }

  function DirectiveCreation(d: Directive): seq<DirectiveStep> {
    [CreateDirective(d.name, None)] + ArgumentCreations(d.name, [], d.arguments)
  }

  function DirectiveCreations(ps: seq<Directive>, qs: seq<Directive>): seq<DirectiveStep> {
    if qs == [] then []
    else if FindDirective(ps, qs[0].name).None? then DirectiveCreation(qs[0]) + DirectiveCreations(ps, qs[1..])
    else DirectiveCreations(ps, qs[1..])
  }

  function DirectiveUpdates(ps: seq<Directive>, qs: seq<Directive>): seq<DirectiveStep> {
    if ps == [] then []
    else
      var q := FindDirective(qs, ps[0].name);
      if q.Some? then DirectiveUpdate(ps[0], q.value) + DirectiveUpdates(ps[1..], qs) else DirectiveUpdates(ps[1..], qs)
  }

  function DirectiveDeletions(ps: seq<Directive>, qs: seq<Directive>): seq<DirectiveStep> {
    if ps == [] then []
    else if FindDirective(qs, ps[0].name).None?
    then [DeleteDirective(ps[0].name, None)] + DirectiveDeletions(ps[1..], qs)
    else DirectiveDeletions(ps[1..], qs)
  }

  function DirectiveChanges(ps: seq<Directive>, qs: seq<Directive>): seq<DirectiveStep> {
    DirectiveCreations(ps, qs) + DirectiveUpdates(ps, qs) + DirectiveDeletions(ps, qs)
  }

  // ----- directives that can be repeated -----

  predicate IsRepeated(d: Directive) {
    d.name == "unique" || d.name == "index"
  }

  function Regular(ds: seq<Directive>): (r: seq<Directive>)
    ensures forall d :: d in r <==> d in ds && !IsRepeated(d)
  {
    if ds == [] then [] else if IsRepeated(ds[0]) then Regular(ds[1..]) else [ds[0]] + Regular(ds[1..])
  }

  function Repeated(ds: seq<Directive>): (r: seq<Directive>)
    ensures forall d :: d in r <==> d in ds && IsRepeated(d)
  {
    if ds == [] then [] else if IsRepeated(ds[0]) then [ds[0]] + Repeated(ds[1..]) else Repeated(ds[1..])
  }

  predicate Identical(p: Directive, q: Directive) {
    p.name == q.name && |p.arguments| == |q.arguments| && forall a :: a in p.arguments ==> a in q.arguments
  }

  function RepeatedCreations(ps: seq<Directive>, qs: seq<Directive>): seq<DirectiveStep> {
    if qs == [] then []
    else if exists p :: p in ps && Identical(p, qs[0]) then RepeatedCreations(ps, qs[1..])
    else [CreateDirective(qs[0].name, Some(qs[0].arguments))] + RepeatedCreations(ps, qs[1..])
  }

  function RepeatedDeletions(ps: seq<Directive>, qs: seq<Directive>): seq<DirectiveStep> {
    if ps == [] then []
    else if exists q :: q in qs && Identical(ps[0], q) then RepeatedDeletions(ps[1..], qs)
    else [DeleteDirective(ps[0].name, Some(ps[0].arguments))] + RepeatedDeletions(ps[1..], qs)
  }

  function ModelDirectiveChanges(ps: seq<Directive>, qs: seq<Directive>): seq<DirectiveStep> {
    DirectiveChanges(Regular(ps), Regular(qs))
    + RepeatedCreations(Repeated(ps), Repeated(qs))
    + RepeatedDeletions(Repeated(ps), Repeated(qs))
  }

  function At(location: Location, changes: seq<DirectiveStep>): (r: seq<Step>)
    ensures forall step :: step in r ==> step.OnDirective? && step.location == location
  {
    if changes == [] then [] else [OnDirective(location, changes[0])] + At(location, changes[1..])
  }

  // ----- fields -----

  function DiffValue<T(==)>(current: T, updated: T): Option<T> {
    if current == updated then None else Some(updated)
  }

  function FieldCreation(m: Name, f: Field): seq<Step> {
    [CreateField(m, f.name, f.fieldType, f.arity)]
    + At(FieldLocation(m, f.name), DirectiveCreations([], f.directives))
  }

  function FieldUpdate(m: Name, p: Field, q: Field): seq<Step> {
    var newName, newType, newArity :=
      DiffValue(p.name, q.name), DiffValue(p.fieldType, q.fieldType), DiffValue(p.arity, q.arity);
    (if newName.Some? || newType.Some? || newArity.Some?
     then [UpdateField(m, p.name, newName, newType, newArity)] else [])
    + At(FieldLocation(m, p.name), DirectiveChanges(p.directives, q.directives))
  }

  function FieldCreations(m: Name, ps: seq<Field>, qs: seq<Field>): seq<Step> {
    if qs == [] then []
    else if FindField(ps, qs[0].name).None? then FieldCreation(m, qs[0]) + FieldCreations(m, ps, qs[1..])
    else FieldCreations(m, ps, qs[1..])
  }

  function FieldDeletions(m: Name, ps: seq<Field>, qs: seq<Field>): seq<Step> {
    if ps == [] then []
    else if FindField(qs, ps[0].name).None? then [DeleteField(m, ps[0].name)] + FieldDeletions(m, ps[1..], qs)
    else FieldDeletions(m, ps[1..], qs)
  }

  function FieldUpdates(m: Name, ps: seq<Field>, qs: seq<Field>): seq<Step> {
    if ps == [] then []
    else
      var q := FindField(qs, ps[0].name);
      if q.Some? then FieldUpdate(m, ps[0], q.value) + FieldUpdates(m, ps[1..], qs) else FieldUpdates(m, ps[1..], qs)
  }

  // ----- models and enums -----

  function ModelCreation(m: Model): seq<Step> {
    [CreateModel(m.name)]
    + FieldCreations(m.name, [], m.fields)
    + At(ModelLocation(m.name), DirectiveCreations([], m.directives))
  }

  function ModelUpdate(p: Model, q: Model): seq<Step> {
    FieldCreations(p.name, p.fields, q.fields)
    + FieldDeletions(p.name, p.fields, q.fields)
    + FieldUpdates(p.name, p.fields, q.fields)
    + At(ModelLocation(p.name), ModelDirectiveChanges(p.directives, q.directives))
  }

  function EnumCreation(e: Enum): seq<Step> {
    [CreateEnum(e.name, e.values)] + At(EnumLocation(e.name), DirectiveCreations([], e.directives))
  }

  function EnumUpdate(p: Enum, q: Enum): seq<Step> {
    var newName, created, deleted :=
      DiffValue(p.name, q.name), WithoutValues(q.values, p.values), WithoutValues(p.values, q.values);
    (if newName.Some? || created != [] || deleted != [] then [UpdateEnum(p.name, newName, created, deleted)] else [])
    + At(EnumLocation(p.name), DirectiveChanges(p.directives, q.directives))
  }

  function EnumsToCreate(prev: seq<Top>, ts: seq<Top>): seq<Step> {
    if ts == [] then []
    else if ts[0].EnumTop? && FindTop(prev, KeyOfTop(ts[0])).None?
    then EnumCreation(ts[0].enum) + EnumsToCreate(prev, ts[1..])
    else EnumsToCreate(prev, ts[1..])
  }

  function EnumsToDelete(ts: seq<Top>, next: seq<Top>): seq<Step> {
    if ts == [] then []
    else if ts[0].EnumTop? && FindTop(next, KeyOfTop(ts[0])).None?
    then [DeleteEnum(ts[0].enum.name)] + EnumsToDelete(ts[1..], next)
    else EnumsToDelete(ts[1..], next)
  }

  function EnumsToUpdate(ts: seq<Top>, next: seq<Top>): seq<Step> {
    if ts == [] then []
    else
      var q := FindTop(next, KeyOfTop(ts[0]));
      if ts[0].EnumTop? && q.Some? then EnumUpdate(ts[0].enum, q.value.enum) + EnumsToUpdate(ts[1..], next)
      else EnumsToUpdate(ts[1..], next)
  }

  function ModelsToCreate(prev: seq<Top>, ts: seq<Top>): seq<Step> {
    if ts == [] then []
    else if ts[0].ModelTop? && FindTop(prev, KeyOfTop(ts[0])).None?
    then ModelCreation(ts[0].model) + ModelsToCreate(prev, ts[1..])
    else ModelsToCreate(prev, ts[1..])
  }

  function ModelsToDelete(ts: seq<Top>, next: seq<Top>): seq<Step> {
    if ts == [] then []
    else if ts[0].ModelTop? && FindTop(next, KeyOfTop(ts[0])).None?
    then [DeleteModel(ts[0].model.name)] + ModelsToDelete(ts[1..], next)
    else ModelsToDelete(ts[1..], next)
  }

  function ModelsToUpdate(ts: seq<Top>, next: seq<Top>): seq<Step> {
    if ts == [] then []
    else
      var q := FindTop(next, KeyOfTop(ts[0]));
      if ts[0].ModelTop? && q.Some? then ModelUpdate(ts[0].model, q.value.model) + ModelsToUpdate(ts[1..], next)
      else ModelsToUpdate(ts[1..], next)
  }

  function Diff(prev: seq<Top>, next: seq<Top>): seq<Step> {
    EnumsToCreate(prev, next) + EnumsToDelete(prev, next) + EnumsToUpdate(prev, next)
    + ModelsToCreate(prev, next) + ModelsToDelete(prev, next) + ModelsToUpdate(prev, next)
  }
}
