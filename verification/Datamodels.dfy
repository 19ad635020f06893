/**
  Datamodel syntax trees, and the steps that change them: what each step does
  to the tree, and where it fails.
 */
module Datamodels {
  import opened Wrappers
  import opened Names

  /** Expressions as they are rendered. */
  type Expression = string

  datatype FieldArity = Required | Optional | List

  datatype Argument = Argument(name: Name, value: Expression)

  datatype Directive = Directive(name: Name, arguments: seq<Argument>)

  datatype Field = Field(name: Name, fieldType: Name, arity: FieldArity, directives: seq<Directive>)

  datatype Model = Model(name: Name, fields: seq<Field>, directives: seq<Directive>)

  datatype Enum = Enum(name: Name, values: seq<Name>, directives: seq<Directive>)

  /** `OtherTop` stands for sources, generators and type aliases. */
  datatype Top = ModelTop(model: Model) | EnumTop(enum: Enum) | OtherTop(text: string)

  datatype Key = ModelKey(model: Name) | EnumKey(enum: Name) | OtherKey

  // ----- steps -----

  datatype Location = FieldLocation(model: Name, field: Name) | ModelLocation(model: Name) | EnumLocation(enum: Name)

  /** Changes to a list of directives, which a directive location names. */
  datatype DirectiveStep =
    | CreateDirective(name: Name, arguments: Option<seq<Argument>>)
    | DeleteDirective(name: Name, arguments: Option<seq<Argument>>)
    | CreateArgument(name: Name, argument: Name, value: Expression)
    | UpdateArgument(name: Name, argument: Name, value: Expression)
    | DeleteArgument(name: Name, argument: Name)

  datatype Step =
    | CreateEnum(enum: Name, values: seq<Name>)
    | UpdateEnum(enum: Name, newName: Option<Name>, createdValues: seq<Name>, deletedValues: seq<Name>)
    | DeleteEnum(enum: Name)
    | CreateModel(model: Name)
    | UpdateModel(model: Name, newName: Option<Name>)
    | DeleteModel(model: Name)
    | CreateField(model: Name, field: Name, tpe: Name, arity: FieldArity)
    | UpdateField(model: Name, field: Name, newName: Option<Name>, newType: Option<Name>, newArity: Option<FieldArity>)
    | DeleteField(model: Name, field: Name)
    | OnDirective(location: Location, change: DirectiveStep)

  // ----- directives -----

  function FindArgument(args: seq<Argument>, n: Name): (r: Option<Argument>)
    ensures r.Some? ==> r.value in args && r.value.name == n
    ensures r.None? ==> forall a :: a in args ==> a.name != n
  {
    if args == [] then None else if args[0].name == n then Some(args[0]) else FindArgument(args[1..], n)
  }

  function FindDirective(ds: seq<Directive>, n: Name): (r: Option<Directive>)
    ensures r.Some? ==> r.value in ds && r.value.name == n
    ensures r.None? ==> forall d :: d in ds ==> d.name != n
  {
    if ds == [] then None else if ds[0].name == n then Some(ds[0]) else FindDirective(ds[1..], n)
  }

  /** Whether a locator means the directive: by name, and by arguments if it has some. */
  predicate Matches(d: Directive, name: Name, arguments: Option<seq<Argument>>) {
    && name == d.name
    && (arguments.Some? ==>
          |d.arguments| == |arguments.value| && forall a :: a in d.arguments ==> a in arguments.value)
  }

  function WithoutMatching(ds: seq<Directive>, name: Name, arguments: Option<seq<Argument>>): seq<Directive> {
    if ds == [] then []
    else if Matches(ds[0], name, arguments) then WithoutMatching(ds[1..], name, arguments)
    else [ds[0]] + WithoutMatching(ds[1..], name, arguments)
  }

  function SetArguments(args: seq<Argument>, n: Name, v: Expression): seq<Argument> {
    if args == [] then []
    else [if args[0].name == n then Argument(n, v) else args[0]] + SetArguments(args[1..], n, v)
  }

  function WithoutArgument(args: seq<Argument>, n: Name): seq<Argument> {
    if args == [] then []
    else if args[0].name == n then WithoutArgument(args[1..], n)
    else [args[0]] + WithoutArgument(args[1..], n)
  }

  predicate OnArgument(change: DirectiveStep) {
    change.CreateArgument? || change.UpdateArgument? || change.DeleteArgument?
  }

  function ChangeArguments(args: seq<Argument>, change: DirectiveStep): seq<Argument>
    requires OnArgument(change)
  {
    match change
    case CreateArgument(_, a, v) => args + [Argument(a, v)]
    case UpdateArgument(_, a, v) => SetArguments(args, a, v)
    case DeleteArgument(_, a) => WithoutArgument(args, a)
  }

  /** Arguments are changed in the first directive of the name, whatever its arguments. */
  function ChangeFirst(ds: seq<Directive>, change: DirectiveStep): seq<Directive>
    requires OnArgument(change)
  {
    if ds == [] then []
    else if ds[0].name == change.name
    then [ds[0].(arguments := ChangeArguments(ds[0].arguments, change))] + ds[1..]
    else [ds[0]] + ChangeFirst(ds[1..], change)
  }

  function ApplyToDirectives(ds: seq<Directive>, change: DirectiveStep): Option<seq<Directive>> {
    match change
    case CreateDirective(n, args) => Some(ds + [Directive(n, if args.Some? then args.value else [])])
    case DeleteDirective(n, args) => Some(WithoutMatching(ds, n, args))
    case _ => if FindDirective(ds, change.name).Some? then Some(ChangeFirst(ds, change)) else None
  }

  function RunOnDirectives(ds: seq<Directive>, changes: seq<DirectiveStep>): Option<seq<Directive>>
    decreases |changes|
  {
    if changes == [] then Some(ds)
    else
      var ds' :- ApplyToDirectives(ds, changes[0]);
      RunOnDirectives(ds', changes[1..])
  }

  // ----- fields -----

  function FindField(fs: seq<Field>, n: Name): (r: Option<Field>)
    ensures r.Some? ==> r.value in fs && r.value.name == n
    ensures r.None? ==> forall f :: f in fs ==> f.name != n
  {
    if fs == [] then None else if fs[0].name == n then Some(fs[0]) else FindField(fs[1..], n)
  }

  /** A failure, or the field if it is there after the step. */
  datatype FieldOutcome = FieldError | FieldSlot(field: Option<Field>)

  predicate OnField(step: Step) {
    step.CreateField? || step.UpdateField? || step.DeleteField? || (step.OnDirective? && step.location.FieldLocation?)
  }

  function FieldOf(step: Step): Name
    requires OnField(step)
  {
    if step.OnDirective? then step.location.field else step.field
  }

  function ApplyToField(slot: Option<Field>, step: Step): FieldOutcome
    requires OnField(step)
  {
    match step
    case CreateField(_, f, tpe, arity) =>
      if slot.Some? then FieldError else FieldSlot(Some(Field(f, tpe, arity, [])))
    case UpdateField(_, _, newName, newType, newArity) =>
      if slot.None? then FieldError
      else
        FieldSlot(Some(Field(
          if newName.Some? then newName.value else slot.value.name,
          if newType.Some? then newType.value else slot.value.fieldType,
          if newArity.Some? then newArity.value else slot.value.arity,
          slot.value.directives)))
    case DeleteField(_, _) => if slot.None? then FieldError else FieldSlot(None)
    case OnDirective(_, change) =>
      if slot.None? then FieldError
      else
        var ds := ApplyToDirectives(slot.value.directives, change);
        if ds.Some? then FieldSlot(Some(slot.value.(directives := ds.value))) else FieldError
  }

  function ReplaceField(fs: seq<Field>, n: Name, f: Field): seq<Field> {
    if fs == [] then [f] else if fs[0].name == n then [f] + fs[1..] else [fs[0]] + ReplaceField(fs[1..], n, f)
  }

  function RemoveField(fs: seq<Field>, n: Name): seq<Field> {
    if fs == [] then []
    else if fs[0].name == n then RemoveField(fs[1..], n)
    else [fs[0]] + RemoveField(fs[1..], n)
  }

  /** A new field goes to the end; a changed field keeps its place. */
  function PutField(fs: seq<Field>, n: Name, slot: Option<Field>): seq<Field> {
    if slot.Some? then ReplaceField(fs, n, slot.value) else RemoveField(fs, n)
  }

  /** Whether a step changes the inside of a model. */
  predicate InModel(step: Step) {
    OnField(step) || (step.OnDirective? && step.location.ModelLocation?)
  }

  function ApplyToModel(m: Model, step: Step): Option<Model>
    requires InModel(step)
  {
    if OnField(step) then
      var outcome := ApplyToField(FindField(m.fields, FieldOf(step)), step);
      if outcome.FieldError? then None else Some(m.(fields := PutField(m.fields, FieldOf(step), outcome.field)))
    else
      var ds :- ApplyToDirectives(m.directives, step.change);
      Some(m.(directives := ds))
  }

  // ----- models and enums -----

  function KeyOfTop(t: Top): Key {
    match t
    case ModelTop(m) => ModelKey(m.name)
    case EnumTop(e) => EnumKey(e.name)
    case OtherTop(_) => OtherKey
  }

  function FindTop(ts: seq<Top>, k: Key): (r: Option<Top>)
    ensures r.Some? ==> r.value in ts && KeyOfTop(r.value) == k
    ensures r.None? ==> forall t :: t in ts ==> KeyOfTop(t) != k
  {
    if ts == [] then None else if KeyOfTop(ts[0]) == k then Some(ts[0]) else FindTop(ts[1..], k)
  }

  function KeyOf(step: Step): Key {
    match step
    case CreateEnum(n, _) => EnumKey(n)
    case UpdateEnum(n, _, _, _) => EnumKey(n)
    case DeleteEnum(n) => EnumKey(n)
    case CreateModel(n) => ModelKey(n)
    case UpdateModel(n, _) => ModelKey(n)
    case DeleteModel(n) => ModelKey(n)
    case CreateField(n, _, _, _) => ModelKey(n)
    case UpdateField(n, _, _, _, _) => ModelKey(n)
    case DeleteField(n, _) => ModelKey(n)
    case OnDirective(EnumLocation(n), _) => EnumKey(n)
    case OnDirective(ModelLocation(n), _) => ModelKey(n)
    case OnDirective(FieldLocation(n, _), _) => ModelKey(n)
  }

  function WithoutValues(values: seq<Name>, removed: seq<Name>): seq<Name> {
    if values == [] then []
    else if values[0] in removed then WithoutValues(values[1..], removed)
    else [values[0]] + WithoutValues(values[1..], removed)
  }

  /** A failure, or the model or enum if it is there after the step. */
  datatype Outcome = Error | Slot(top: Option<Top>)

  predicate OnEnum(step: Step) {
    step.UpdateEnum? || (step.OnDirective? && step.location.EnumLocation?)
  }

  function ApplyToEnum(e: Enum, step: Step): Option<Enum>
    requires OnEnum(step)
  {
    if step.UpdateEnum? then
      Some(Enum(
        if step.newName.Some? then step.newName.value else e.name,
        WithoutValues(e.values + step.createdValues, step.deletedValues),
        e.directives))
    else
      var ds :- ApplyToDirectives(e.directives, step.change);
      Some(e.(directives := ds))
  }

  /** What a step does to the model or enum it names. */
  function ApplyToTop(slot: Option<Top>, step: Step): Outcome
    requires slot.Some? ==> KeyOfTop(slot.value) == KeyOf(step)
  {
    if step.CreateEnum? then
      if slot.Some? then Error else Slot(Some(EnumTop(Enum(step.enum, step.values, []))))
    else if step.CreateModel? then
      if slot.Some? then Error else Slot(Some(ModelTop(Model(step.model, [], []))))
    else if slot.None? then Error
    else if step.DeleteEnum? || step.DeleteModel? then Slot(None)
    else if step.UpdateModel? then
      Slot(Some(ModelTop(slot.value.model.(name := if step.newName.Some? then step.newName.value else step.model))))
    else if OnEnum(step) then
      var e := ApplyToEnum(slot.value.enum, step);
      if e.Some? then Slot(Some(EnumTop(e.value))) else Error
    else
      var m := ApplyToModel(slot.value.model, step);
      if m.Some? then Slot(Some(ModelTop(m.value))) else Error
  }

  function ReplaceTop(ts: seq<Top>, k: Key, t: Top): seq<Top> {
    if ts == [] then [t] else if KeyOfTop(ts[0]) == k then [t] + ts[1..] else [ts[0]] + ReplaceTop(ts[1..], k, t)
  }

  function RemoveTop(ts: seq<Top>, k: Key): seq<Top> {
    if ts == [] then []
    else if KeyOfTop(ts[0]) == k then RemoveTop(ts[1..], k)
    else [ts[0]] + RemoveTop(ts[1..], k)
  }

  function PutTop(ts: seq<Top>, k: Key, slot: Option<Top>): seq<Top> {
    if slot.Some? then ReplaceTop(ts, k, slot.value) else RemoveTop(ts, k)
  }

  function ApplyStep(ts: seq<Top>, step: Step): Option<seq<Top>> {
    var outcome := ApplyToTop(FindTop(ts, KeyOf(step)), step);
    if outcome.Error? then None else Some(PutTop(ts, KeyOf(step), outcome.top))
  }

  function ApplyAll(ts: seq<Top>, steps: seq<Step>): Option<seq<Top>>
    decreases |steps|
  {
    if steps == [] then Some(ts)
    else
      var ts' :- ApplyStep(ts, steps[0]);
      ApplyAll(ts', steps[1..])
  }
}
