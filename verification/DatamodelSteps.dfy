/** What each migration step does to a datamodel tree, and which trees refuse it. */
module DatamodelSteps {
  import opened Wrappers
  import opened Names
  import opened Datamodels

  /** A list without some elements. */
  function Less<T(==)>(xs: seq<T>, gone: set<T>): seq<T> {
    if xs == [] then [] else (if xs[0] in gone then [] else [xs[0]]) + Less(xs[1..], gone)
  }

  function OrElse<T>(given: Option<T>, old_: T): T {
    match given
    case Some(x) => x
    case None => old_
  }

  // ----- where a step finds what it changes -----

  predicate IsModel(t: Top, n: Name) {
    t.ModelTop? && t.model.name == n
  }

  predicate IsEnum(t: Top, n: Name) {
    t.EnumTop? && t.enum.name == n
  }

  predicate FirstModel(ts: seq<Top>, n: Name, i: nat) {
    i < |ts| && IsModel(ts[i], n) && forall j :: 0 <= j < i ==> !IsModel(ts[j], n)
  }

  predicate FirstEnum(ts: seq<Top>, n: Name, i: nat) {
    i < |ts| && IsEnum(ts[i], n) && forall j :: 0 <= j < i ==> !IsEnum(ts[j], n)
  }

  predicate FirstField(fs: seq<Field>, n: Name, i: nat) {
    i < |fs| && fs[i].name == n && forall j :: 0 <= j < i ==> fs[j].name != n
  }

  predicate FirstDirective(ds: seq<Directive>, n: Name, i: nat) {
    i < |ds| && ds[i].name == n && forall j :: 0 <= j < i ==> ds[j].name != n
  }

  // ----- directives -----

  ghost predicate DirectivesAllow(ds: seq<Directive>, change: DirectiveStep) {
    match change
    case CreateDirective(_, _) => true
    case DeleteDirective(_, _) => true
    case _ => exists d :: d in ds && d.name == change.name
  }

  /** An argument is appended, set wherever it is, or removed. */
  ghost predicate ArgumentsChanged(args: seq<Argument>, change: DirectiveStep, args': seq<Argument>) {
    match change
    case CreateArgument(_, a, v) => args' == args + [Argument(a, v)]
    case UpdateArgument(_, a, v) =>
      |args'| == |args| && forall k :: 0 <= k < |args| ==> args'[k] == if args[k].name == a then Argument(a, v) else args[k]
    case DeleteArgument(_, a) => args' == Less(args, set x | x in args && x.name == a)
    case _ => false
  }

  ghost predicate DirectivesChanged(ds: seq<Directive>, change: DirectiveStep, ds': seq<Directive>) {
    match change
    case CreateDirective(n, args) => ds' == ds + [Directive(n, OrElse(args, []))]
    case DeleteDirective(n, args) => ds' == Less(ds, set d | d in ds && Matches(d, n, args))
    case _ =>
      exists i: nat ::
        && FirstDirective(ds, change.name, i) && |ds'| == |ds| && ds'[i].name == ds[i].name
        && ds' == ds[i := ds'[i]] && ArgumentsChanged(ds[i].arguments, change, ds'[i].arguments)
  }

  lemma {:induction false} ArgumentsLess(args: seq<Argument>, n: Name, gone: set<Argument>)
    requires forall a :: a in args ==> (a in gone <==> a.name == n)
    ensures WithoutArgument(args, n) == Less(args, gone)
  {
    if args != [] {
      ArgumentsLess(args[1..], n, gone);
    }
  }

  lemma {:induction false} ArgumentsSet(args: seq<Argument>, n: Name, v: Expression)
    ensures |SetArguments(args, n, v)| == |args|
    ensures forall k :: 0 <= k < |args| ==> SetArguments(args, n, v)[k] == if args[k].name == n then Argument(n, v) else args[k]
  {
    if args != [] {
      ArgumentsSet(args[1..], n, v);
      assert forall k :: 0 < k < |args| ==> args[k] == args[1..][k - 1];
    }
  }

  lemma {:induction false} ArgumentsAreChanged(args: seq<Argument>, change: DirectiveStep)
    requires OnArgument(change)
    ensures ArgumentsChanged(args, change, ChangeArguments(args, change))
  {
    match change
    case CreateArgument(_, _, _) =>
    case UpdateArgument(_, a, v) => ArgumentsSet(args, a, v);
    case DeleteArgument(_, a) => ArgumentsLess(args, a, set x | x in args && x.name == a);
  }

  lemma {:induction false} DirectivesLess(ds: seq<Directive>, n: Name, args: Option<seq<Argument>>, gone: set<Directive>)
    requires forall d :: d in ds ==> (d in gone <==> Matches(d, n, args))
    ensures WithoutMatching(ds, n, args) == Less(ds, gone)
  {
    hide Matches;
    if ds != [] {
      DirectivesLess(ds[1..], n, args, gone);
    }
  }

  lemma {:induction false} FirstIsChanged(ds: seq<Directive>, change: DirectiveStep) returns (i: nat)
    requires OnArgument(change) && FindDirective(ds, change.name).Some?
    ensures FirstDirective(ds, change.name, i)
    ensures ChangeFirst(ds, change) == ds[i := ds[i].(arguments := ChangeArguments(ds[i].arguments, change))]
  {
    if ds[0].name == change.name {
      i := 0;
    } else {
      var k := FirstIsChanged(ds[1..], change);
      i := k + 1;
      assert forall j :: 0 < j < |ds| ==> ds[j] == ds[1..][j - 1];
    }
  }

  lemma {:induction false} DirectivesAreChanged(ds: seq<Directive>, change: DirectiveStep)
    ensures ApplyToDirectives(ds, change).Some? <==> DirectivesAllow(ds, change)
    ensures ApplyToDirectives(ds, change).Some? ==> DirectivesChanged(ds, change, ApplyToDirectives(ds, change).value)
  {
    if change.DeleteDirective? {
      DirectivesLess(ds, change.name, change.arguments, set d | d in ds && Matches(d, change.name, change.arguments));
    } else if OnArgument(change) && FindDirective(ds, change.name).Some? {
      var i := FirstIsChanged(ds, change);
      ArgumentsAreChanged(ds[i].arguments, change);
      hide ArgumentsChanged, ChangeArguments;
    }
  }

  // ----- fields -----

  ghost predicate FieldsAllow(fs: seq<Field>, step: Step) {
    match step
    case CreateField(_, n, _, _) => forall f :: f in fs ==> f.name != n
    case UpdateField(_, n, _, _, _) => exists i: nat :: FirstField(fs, n, i)
    case DeleteField(_, n) => exists i: nat :: FirstField(fs, n, i)
    case OnDirective(FieldLocation(_, n), change) => exists i: nat :: FirstField(fs, n, i) && DirectivesAllow(fs[i].directives, change)
    case _ => false
  }

  /** A field is appended, changed in its place, or removed. */
  ghost predicate FieldsChanged(fs: seq<Field>, step: Step, fs': seq<Field>) {
    match step
    case CreateField(_, n, tpe, arity) => fs' == fs + [Field(n, tpe, arity, [])]
    case UpdateField(_, n, newName, newType, newArity) =>
      exists i: nat ::
        && FirstField(fs, n, i)
        && fs' == fs[i := Field(OrElse(newName, n), OrElse(newType, fs[i].fieldType), OrElse(newArity, fs[i].arity), fs[i].directives)]
    case DeleteField(_, n) => fs' == Less(fs, set f | f in fs && f.name == n)
    case OnDirective(FieldLocation(_, n), change) =>
      exists i: nat, ds: seq<Directive> ::
        && FirstField(fs, n, i) && DirectivesChanged(fs[i].directives, change, ds)
        && fs' == fs[i := fs[i].(directives := ds)]
    case _ => false
  }

  lemma {:induction false} FieldsLess(fs: seq<Field>, n: Name, gone: set<Field>)
    requires forall f :: f in fs ==> (f in gone <==> f.name == n)
    ensures RemoveField(fs, n) == Less(fs, gone)
  {
    if fs != [] {
      FieldsLess(fs[1..], n, gone);
    }
  }

  lemma {:induction false} FieldIsAt(fs: seq<Field>, n: Name) returns (i: nat)
    requires FindField(fs, n).Some?
    ensures FirstField(fs, n, i) && FindField(fs, n) == Some(fs[i])
  {
    if fs[0].name == n {
      i := 0;
    } else {
      var k := FieldIsAt(fs[1..], n);
      i := k + 1;
      assert forall j :: 0 < j < |fs| ==> fs[j] == fs[1..][j - 1];
    }
  }

  lemma {:induction false} FieldIsReplaced(fs: seq<Field>, n: Name, i: nat, f: Field)
    requires FirstField(fs, n, i)
    ensures ReplaceField(fs, n, f) == fs[i := f]
  {
    if i > 0 {
      assert fs[0].name != n;
      assert forall j :: 0 < j < |fs| ==> fs[j] == fs[1..][j - 1];
      FieldIsReplaced(fs[1..], n, i - 1, f);
    }
  }

  lemma {:induction false} FieldIsAppended(fs: seq<Field>, n: Name, f: Field)
    requires FindField(fs, n).None?
    ensures ReplaceField(fs, n, f) == fs + [f]
  {
    if fs != [] {
      FieldIsAppended(fs[1..], n, f);
    }
  }

  lemma {:induction false} OneFirstField(fs: seq<Field>, n: Name, i: nat, j: nat)
    requires FirstField(fs, n, i) && FirstField(fs, n, j)
    ensures i == j
  {
  }

  /** The fields of a model after a step on them. */
  function FieldsAfter(fs: seq<Field>, step: Step): Option<seq<Field>>
    requires OnField(step)
  {
    var outcome := ApplyToField(FindField(fs, FieldOf(step)), step);
    if outcome.FieldError? then None else Some(PutField(fs, FieldOf(step), outcome.field))
  }

  lemma {:induction false} FieldsAreChanged(fs: seq<Field>, step: Step)
    requires OnField(step)
    ensures FieldsAfter(fs, step).Some? <==> FieldsAllow(fs, step)
    ensures FieldsAfter(fs, step).Some? ==> FieldsChanged(fs, step, FieldsAfter(fs, step).value)
  {
    var n := FieldOf(step);
    hide DirectivesAllow, DirectivesChanged, ApplyToDirectives;
    if FindField(fs, n).None? {
      if step.CreateField? {
        FieldIsAppended(fs, n, Field(n, step.tpe, step.arity, []));
      }
    } else {
      var i := FieldIsAt(fs, n);
      var after := ApplyToField(Some(fs[i]), step);
      if after.FieldSlot? && after.field.Some? {
        FieldIsReplaced(fs, n, i, after.field.value);
      }
      hide ReplaceField, FindField;
      if step.DeleteField? {
        FieldsLess(fs, n, set f | f in fs && f.name == n);
      } else if step.OnDirective? {
        DirectivesAreChanged(fs[i].directives, step.change);
        forall j: nat | FirstField(fs, n, j) ensures j == i {
          OneFirstField(fs, n, i, j);
        }
      }
    }
  }

  // ----- models and enums -----

  /** Which trees allow a step. */
  ghost predicate Allows(ts: seq<Top>, step: Step) {
    match step
    case CreateEnum(n, _) => forall t :: t in ts ==> !IsEnum(t, n)
    case UpdateEnum(n, _, _, _) => exists i: nat :: FirstEnum(ts, n, i)
    case DeleteEnum(n) => exists i: nat :: FirstEnum(ts, n, i)
    case CreateModel(n) => forall t :: t in ts ==> !IsModel(t, n)
    case UpdateModel(n, _) => exists i: nat :: FirstModel(ts, n, i)
    case DeleteModel(n) => exists i: nat :: FirstModel(ts, n, i)
    case OnDirective(EnumLocation(n), change) => exists i: nat :: FirstEnum(ts, n, i) && DirectivesAllow(ts[i].enum.directives, change)
    case OnDirective(ModelLocation(n), change) => exists i: nat :: FirstModel(ts, n, i) && DirectivesAllow(ts[i].model.directives, change)
    case OnDirective(FieldLocation(n, _), _) => exists i: nat :: FirstModel(ts, n, i) && FieldsAllow(ts[i].model.fields, step)
    case _ => exists i: nat :: FirstModel(ts, step.model, i) && FieldsAllow(ts[i].model.fields, step)
  }

  /** What a step makes of a tree. */
  ghost predicate Changed(ts: seq<Top>, step: Step, ts': seq<Top>) {
    match step
    case CreateEnum(n, values) => ts' == ts + [EnumTop(Enum(n, values, []))]
    case UpdateEnum(n, newName, created, deleted) =>
      exists i: nat ::
        && FirstEnum(ts, n, i)
        && var values := Less(ts[i].enum.values + created, set v | v in deleted);
           ts' == ts[i := EnumTop(Enum(OrElse(newName, n), values, ts[i].enum.directives))]
    case DeleteEnum(n) => ts' == Less(ts, set t | t in ts && IsEnum(t, n))
    case CreateModel(n) => ts' == ts + [ModelTop(Model(n, [], []))]
    case UpdateModel(n, newName) =>
      exists i: nat ::
        FirstModel(ts, n, i) && ts' == ts[i := ModelTop(Model(OrElse(newName, n), ts[i].model.fields, ts[i].model.directives))]
    case DeleteModel(n) => ts' == Less(ts, set t | t in ts && IsModel(t, n))
    case OnDirective(EnumLocation(n), change) =>
      exists i: nat, ds: seq<Directive> ::
        && FirstEnum(ts, n, i) && DirectivesChanged(ts[i].enum.directives, change, ds)
        && ts' == ts[i := EnumTop(ts[i].enum.(directives := ds))]
    case OnDirective(ModelLocation(n), change) =>
      exists i: nat, ds: seq<Directive> ::
        && FirstModel(ts, n, i) && DirectivesChanged(ts[i].model.directives, change, ds)
        && ts' == ts[i := ModelTop(ts[i].model.(directives := ds))]
    case OnDirective(FieldLocation(n, _), _) => FieldsChangedIn(ts, n, step, ts')
    case _ => FieldsChangedIn(ts, step.model, step, ts')
  }

  ghost predicate FieldsChangedIn(ts: seq<Top>, n: Name, step: Step, ts': seq<Top>) {
    exists i: nat, fs: seq<Field> ::
      && FirstModel(ts, n, i) && FieldsChanged(ts[i].model.fields, step, fs)
      && ts' == ts[i := ModelTop(ts[i].model.(fields := fs))]
  }

  lemma {:induction false} TopsLess(ts: seq<Top>, k: Key, gone: set<Top>)
    requires forall t :: t in ts ==> (t in gone <==> KeyOfTop(t) == k)
    ensures RemoveTop(ts, k) == Less(ts, gone)
  {
    if ts != [] {
      TopsLess(ts[1..], k, gone);
    }
  }

  lemma {:induction false} ValuesLess(values: seq<Name>, removed: seq<Name>)
    ensures WithoutValues(values, removed) == Less(values, set v | v in removed)
  {
    if values != [] {
      ValuesLess(values[1..], removed);
    }
  }

  lemma {:induction false} TopIsAt(ts: seq<Top>, k: Key) returns (i: nat)
    requires FindTop(ts, k).Some?
    ensures FirstTop(ts, k, i) && FindTop(ts, k) == Some(ts[i])
  {
    if KeyOfTop(ts[0]) == k {
      i := 0;
    } else {
      var x := TopIsAt(ts[1..], k);
      i := x + 1;
      assert forall j :: 0 < j < |ts| ==> ts[j] == ts[1..][j - 1];
    }
  }

  predicate FirstTop(ts: seq<Top>, k: Key, i: nat) {
    i < |ts| && KeyOfTop(ts[i]) == k && forall j :: 0 <= j < i ==> KeyOfTop(ts[j]) != k
  }

  lemma {:induction false} TopIsReplaced(ts: seq<Top>, k: Key, i: nat, t: Top)
    requires FirstTop(ts, k, i)
    ensures ReplaceTop(ts, k, t) == ts[i := t]
  {
    if i > 0 {
      assert KeyOfTop(ts[0]) != k;
      assert forall j :: 0 < j < |ts| ==> ts[j] == ts[1..][j - 1];
      TopIsReplaced(ts[1..], k, i - 1, t);
    }
  }

  lemma {:induction false} TopIsAppended(ts: seq<Top>, k: Key, t: Top)
    requires FindTop(ts, k).None?
    ensures ReplaceTop(ts, k, t) == ts + [t]
  {
    if ts != [] {
      TopIsAppended(ts[1..], k, t);
    }
  }

  lemma {:induction false} KeysAre(t: Top, n: Name)
    ensures KeyOfTop(t) == ModelKey(n) <==> IsModel(t, n)
    ensures KeyOfTop(t) == EnumKey(n) <==> IsEnum(t, n)
  {
  }

  lemma {:induction false} NoTop(ts: seq<Top>, n: Name)
    ensures FindTop(ts, ModelKey(n)).None? <==> forall t :: t in ts ==> !IsModel(t, n)
    ensures FindTop(ts, EnumKey(n)).None? <==> forall t :: t in ts ==> !IsEnum(t, n)
    ensures (exists i: nat :: FirstModel(ts, n, i)) ==> FindTop(ts, ModelKey(n)).Some?
    ensures (exists i: nat :: FirstEnum(ts, n, i)) ==> FindTop(ts, EnumKey(n)).Some?
  {
    forall t: Top ensures (KeyOfTop(t) == ModelKey(n) <==> IsModel(t, n)) && (KeyOfTop(t) == EnumKey(n) <==> IsEnum(t, n)) {
      KeysAre(t, n);
    }
    hide KeyOfTop, IsModel, IsEnum;
  }

  /** The model that a name finds, in its place. */
  lemma {:induction false} ModelIsAt(ts: seq<Top>, n: Name) returns (i: nat)
    requires FindTop(ts, ModelKey(n)).Some?
    ensures FirstModel(ts, n, i) && FirstTop(ts, ModelKey(n), i) && FindTop(ts, ModelKey(n)) == Some(ts[i])
    ensures forall j: nat :: FirstModel(ts, n, j) ==> j == i
  {
    i := TopIsAt(ts, ModelKey(n));
    hide FindTop;
  }

  lemma {:induction false} EnumIsAt(ts: seq<Top>, n: Name) returns (i: nat)
    requires FindTop(ts, EnumKey(n)).Some?
    ensures FirstEnum(ts, n, i) && FirstTop(ts, EnumKey(n), i) && FindTop(ts, EnumKey(n)) == Some(ts[i])
    ensures forall j: nat :: FirstEnum(ts, n, j) ==> j == i
  {
    i := TopIsAt(ts, EnumKey(n));
    hide FindTop;
  }

  lemma {:induction false} CreationDoes(ts: seq<Top>, step: Step)
    requires step.CreateEnum? || step.CreateModel?
    ensures ApplyStep(ts, step).Some? <==> Allows(ts, step)
    ensures ApplyStep(ts, step).Some? ==> Changed(ts, step, ApplyStep(ts, step).value)
  {
    NoTop(ts, if step.CreateEnum? then step.enum else step.model);
    if FindTop(ts, KeyOf(step)).None? {
      TopIsAppended(ts, KeyOf(step), ApplyToTop(None, step).top.value);
    }
    hide ReplaceTop, FindTop, IsModel, IsEnum;
  }

  lemma {:induction false} DeletionDoes(ts: seq<Top>, step: Step)
    requires step.DeleteEnum? || step.DeleteModel?
    ensures ApplyStep(ts, step).Some? <==> Allows(ts, step)
    ensures ApplyStep(ts, step).Some? ==> Changed(ts, step, ApplyStep(ts, step).value)
  {
    if step.DeleteEnum? {
      NoTop(ts, step.enum);
      TopsLess(ts, KeyOf(step), set t | t in ts && IsEnum(t, step.enum));
      if FindTop(ts, KeyOf(step)).Some? {
        var i := EnumIsAt(ts, step.enum);
      }
    } else {
      NoTop(ts, step.model);
      TopsLess(ts, KeyOf(step), set t | t in ts && IsModel(t, step.model));
      if FindTop(ts, KeyOf(step)).Some? {
        var i := ModelIsAt(ts, step.model);
      }
    }
    hide RemoveTop, FindTop, IsModel, IsEnum, ReplaceTop;
  }

  lemma {:induction false} EnumStepDoes(ts: seq<Top>, step: Step)
    requires OnEnum(step)
    ensures ApplyStep(ts, step).Some? <==> Allows(ts, step)
    ensures ApplyStep(ts, step).Some? ==> Changed(ts, step, ApplyStep(ts, step).value)
  {
    var n := if step.UpdateEnum? then step.enum else step.location.enum;
    NoTop(ts, n);
    if FindTop(ts, EnumKey(n)).Some? {
      var i := EnumIsAt(ts, n);
      var e := ts[i].enum;
      var after := ApplyToEnum(e, step);
      if after.Some? {
        TopIsReplaced(ts, EnumKey(n), i, EnumTop(after.value));
      }
      hide ReplaceTop, FindTop, DirectivesAllow, DirectivesChanged, ApplyToDirectives, WithoutValues, FirstEnum, FirstTop;
      if step.UpdateEnum? {
        ValuesLess(e.values + step.createdValues, step.deletedValues);
      } else {
        DirectivesAreChanged(e.directives, step.change);
      }
    }
  }

  lemma {:induction false} ModelUpdateDoes(ts: seq<Top>, step: Step)
    requires step.UpdateModel? || (step.OnDirective? && step.location.ModelLocation?)
    ensures ApplyStep(ts, step).Some? <==> Allows(ts, step)
    ensures ApplyStep(ts, step).Some? ==> Changed(ts, step, ApplyStep(ts, step).value)
  {
    var n := if step.UpdateModel? then step.model else step.location.model;
    NoTop(ts, n);
    if FindTop(ts, ModelKey(n)).Some? {
      var i := ModelIsAt(ts, n);
      var after := ApplyToTop(Some(ts[i]), step);
      if after.Slot? {
        TopIsReplaced(ts, ModelKey(n), i, after.top.value);
      }
      hide ReplaceTop, FindTop, DirectivesAllow, DirectivesChanged, ApplyToDirectives, FirstModel, FirstTop;
      if step.OnDirective? {
        DirectivesAreChanged(ts[i].model.directives, step.change);
      }
    }
  }

  function ModelOf(step: Step): Name
    requires OnField(step)
  {
    if step.OnDirective? then step.location.model else step.model
  }

  lemma {:induction false} FieldStepDoes(ts: seq<Top>, step: Step)
    requires OnField(step)
    ensures ApplyStep(ts, step).Some? <==> Allows(ts, step)
    ensures ApplyStep(ts, step).Some? ==> Changed(ts, step, ApplyStep(ts, step).value)
  {
    var n := ModelOf(step);
    NoTop(ts, n);
    hide ReplaceTop, FindTop, FieldsAllow, FieldsChanged, ApplyToField, FirstModel, FirstTop, PutField;
    if FindTop(ts, ModelKey(n)).Some? {
      var i := ModelIsAt(ts, n);
      var m := ts[i].model;
      FieldsAreChanged(m.fields, step);
      if ApplyToModel(m, step).Some? {
        TopIsReplaced(ts, ModelKey(n), i, ModelTop(ApplyToModel(m, step).value));
      }
      assert ApplyToModel(m, step).Some? <==> FieldsAfter(m.fields, step).Some?;
    }
  }

  /** For every tree and every step: when it is refused, and what it does otherwise. */
  lemma {:induction false} StepDoes(ts: seq<Top>, step: Step)
    ensures ApplyStep(ts, step).Some? <==> Allows(ts, step)
    ensures ApplyStep(ts, step).Some? ==> Changed(ts, step, ApplyStep(ts, step).value)
  {
    hide ApplyStep, Allows, Changed;
    if OnEnum(step) {
      EnumStepDoes(ts, step);
    } else if OnField(step) {
      FieldStepDoes(ts, step);
    } else if step.CreateEnum? || step.CreateModel? {
      CreationDoes(ts, step);
    } else if step.DeleteEnum? || step.DeleteModel? {
      DeletionDoes(ts, step);
    } else {
      ModelUpdateDoes(ts, step);
    }
  }
}
