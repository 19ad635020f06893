/** Applying the diff of two datamodels to the first gives the second. */
module DatamodelRoundTrip {
  import opened Wrappers
  import opened Names
  import opened Datamodels
  import opened DatamodelDiffer
  import opened DirectiveRoundTrip
  import opened ModelDirectives
  import opened FieldRoundTrip

  // ----- models -----

  ghost predicate FieldsAgree(m: Model, q: Model) {
    FieldsDistinct(m.fields) && forall f :: FieldAgrees(FindField(m.fields, f), FindField(q.fields, f))
  }

  ghost predicate ModelAgrees(m: Model, q: Model) {
    m.name == q.name && FieldsAgree(m, q) && SameDirectives(m.directives, q.directives)
  }

  lemma {:induction false} AtModel(m: Name, changes: seq<DirectiveStep>, f: Name)
    ensures AllInModel(At(ModelLocation(m), changes))
    ensures ForDirectives(At(ModelLocation(m), changes)) == changes
    ensures ForField(f, At(ModelLocation(m), changes)) == []
    decreases |changes|
  {
    if changes != [] {
      AtModel(m, changes[1..], f);
      var rest := At(ModelLocation(m), changes[1..]);
      assert At(ModelLocation(m), changes) == [OnDirective(ModelLocation(m), changes[0])] + rest;
    }
  }

  lemma {:induction false} FourParts(f: Name, a: seq<Step>, b: seq<Step>, c: seq<Step>, d: seq<Step>)
    ensures ForField(f, a + b + c + d) == ForField(f, a) + ForField(f, b) + ForField(f, c) + ForField(f, d)
    ensures ForDirectives(a + b + c + d) == ForDirectives(a) + ForDirectives(b) + ForDirectives(c) + ForDirectives(d)
  {
    hide ForField, ForDirectives;
    ForFieldConcat(f, a, b);
    ForFieldConcat(f, a + b, c);
    ForFieldConcat(f, a + b + c, d);
    ForDirectivesConcat(a, b);
    ForDirectivesConcat(a + b, c);
    ForDirectivesConcat(a + b + c, d);
  }

  lemma {:induction false} UpdateInModel(p: Model, q: Model)
    requires ModelOk(p) && ModelOk(q)
    ensures AllInModel(ModelUpdate(p, q))
  {
    var n, changes := p.name, ModelDirectiveChanges(p.directives, q.directives);
    CreationsFor(n, p.fields, q.fields, n);
    DeletionsFor(n, p.fields, q.fields, n);
    UpdatesFor(n, p.fields, q.fields, n);
    AtModel(n, changes, n);
    hide FieldCreations, FieldDeletions, FieldUpdates, At, ModelDirectiveChanges, FieldCreation, FieldUpdate, ModelOk, ForField, ForDirectives;
  }

  lemma {:induction false} UpdateFor(p: Model, q: Model, f: Name)
    requires ModelOk(p) && ModelOk(q)
    ensures AllInModel(ModelUpdate(p, q))
    ensures ForDirectives(ModelUpdate(p, q)) == ModelDirectiveChanges(p.directives, q.directives)
    ensures ForField(f, ModelUpdate(p, q)) ==
            var x, y := FindField(p.fields, f), FindField(q.fields, f);
            if y.None? then (if x.Some? then [DeleteField(p.name, f)] else [])
            else if x.None? then FieldCreation(p.name, y.value)
            else FieldUpdate(p.name, x.value, y.value)
  {
    UpdateInModel(p, q);
    UpdateDirectives(p, q);
    UpdateAtField(p, q, f);
  }

  lemma {:induction false} UpdateDirectives(p: Model, q: Model)
    requires ModelOk(p) && ModelOk(q)
    ensures ForDirectives(ModelUpdate(p, q)) == ModelDirectiveChanges(p.directives, q.directives)
  {
    var n, changes := p.name, ModelDirectiveChanges(p.directives, q.directives);
    hide FieldCreations, FieldDeletions, FieldUpdates, At, ModelDirectiveChanges, FieldCreation, FieldUpdate, ForField, ForDirectives, AllInModel;
    CreationsFor(n, p.fields, q.fields, n);
    DeletionsFor(n, p.fields, q.fields, n);
    UpdatesFor(n, p.fields, q.fields, n);
    AtModel(n, changes, n);
    FourParts(n, FieldCreations(n, p.fields, q.fields), FieldDeletions(n, p.fields, q.fields),
              FieldUpdates(n, p.fields, q.fields), At(ModelLocation(n), changes));
    assert [] + [] + [] + changes == changes;
  }

  lemma {:induction false} UpdateAtField(p: Model, q: Model, f: Name)
    requires ModelOk(p) && ModelOk(q)
    ensures ForField(f, ModelUpdate(p, q)) ==
            var x, y := FindField(p.fields, f), FindField(q.fields, f);
            if y.None? then (if x.Some? then [DeleteField(p.name, f)] else [])
            else if x.None? then FieldCreation(p.name, y.value)
            else FieldUpdate(p.name, x.value, y.value)
  {
    var n, changes := p.name, ModelDirectiveChanges(p.directives, q.directives);
    hide FieldCreations, FieldDeletions, FieldUpdates, At, ModelDirectiveChanges, FieldCreation, FieldUpdate, ForField, ForDirectives, AllInModel;
    CreationsFor(n, p.fields, q.fields, f);
    DeletionsFor(n, p.fields, q.fields, f);
    UpdatesFor(n, p.fields, q.fields, f);
    AtModel(n, changes, f);
    var a, b, c, d := FieldCreations(n, p.fields, q.fields), FieldDeletions(n, p.fields, q.fields),
                      FieldUpdates(n, p.fields, q.fields), At(ModelLocation(n), changes);
    FourParts(f, a, b, c, d);
    OneOfThree(ForField(f, a), ForField(f, b), ForField(f, c));
  }

  /** Of three lists at most one of which has elements, and an empty one, the concatenation is that one. */
  lemma {:induction false} OneOfThree(a: seq<Step>, b: seq<Step>, c: seq<Step>)
    ensures b == [] && c == [] ==> a + b + c + [] == a
    ensures a == [] && c == [] ==> a + b + c + [] == b
    ensures a == [] && b == [] ==> a + b + c + [] == c
  {
  }

  lemma {:induction false} FieldReaches(p: Model, q: Model, f: Name)
    requires ModelOk(p) && ModelOk(q)
    ensures var r := RunOnField(FindField(p.fields, f), ForField(f, ModelUpdate(p, q)));
            r.FieldSlot? && FieldAgrees(r.field, FindField(q.fields, f))
  {
    UpdateFor(p, q, f);
    var x, y := FindField(p.fields, f), FindField(q.fields, f);
    hide FieldCreation, FieldUpdate, ModelUpdate;
    if y.None? {
      if x.Some? {
        RunFirstField(x, DeleteField(p.name, f), []);
        assert [DeleteField(p.name, f)] + [] == [DeleteField(p.name, f)];
      }
    } else if x.None? {
      FieldCreated(p.name, y.value);
    } else {
      FieldUpdated(p.name, x.value, y.value);
    }
  }

  lemma {:induction false} ModelUpdated(p: Model, q: Model) returns (r: Model)
    requires ModelOk(p) && ModelOk(q) && p.name == q.name
    ensures AllInModel(ModelUpdate(p, q))
    ensures RunOnModel(p, ModelUpdate(p, q)) == Some(r) && ModelAgrees(r, q)
  {
    var steps := ModelUpdate(p, q);
    UpdateFor(p, q, p.name);
    var ds := ModelDirectivesRoundTrip(p.directives, q.directives);
    forall f
      ensures var r := RunOnField(FindField(p.fields, f), ForField(f, steps));
              r.FieldSlot? && FieldAgrees(r.field, FindField(q.fields, f))
    {
      FieldReaches(p, q, f);
    }
    hide ModelUpdate, ModelDirectiveChanges, RunOnField, FieldAgrees, SameDirectives, RunOnDirectives;
    FieldByField(p, steps);
    r := RunOnModel(p, steps).value;
    forall f ensures FieldAgrees(FindField(r.fields, f), FindField(q.fields, f)) {
      assert RunOnField(FindField(p.fields, f), ForField(f, steps)) == FieldSlot(FindField(r.fields, f));
    }
  }

  /** The steps that fill a new model. */
  function Filling(q: Model): seq<Step> {
    FieldCreations(q.name, [], q.fields) + At(ModelLocation(q.name), DirectiveCreations([], q.directives))
  }

  lemma {:induction false} FillingFor(q: Model, f: Name)
    requires ModelOk(q)
    ensures AllInModel(Filling(q))
    ensures ForDirectives(Filling(q)) == DirectiveCreations([], q.directives)
    ensures ForField(f, Filling(q)) ==
            var y := FindField(q.fields, f);
            if y.Some? then FieldCreation(q.name, y.value) else []
  {
    CreationsFor(q.name, [], q.fields, f);
    AtModel(q.name, DirectiveCreations([], q.directives), f);
    hide FieldCreations, At, DirectiveCreations, FieldCreation;
    hide ForField, ForDirectives;
    ForFieldConcat(f, FieldCreations(q.name, [], q.fields), At(ModelLocation(q.name), DirectiveCreations([], q.directives)));
    ForDirectivesConcat(FieldCreations(q.name, [], q.fields), At(ModelLocation(q.name), DirectiveCreations([], q.directives)));
  }

  /** A new model gets all its fields, and its directives under the condition on their names. */
  lemma {:induction false} ModelFilled(q: Model) returns (r: Model)
    requires ModelOk(q)
    ensures AllInModel(Filling(q))
    ensures RunOnModel(Model(q.name, [], []), Filling(q)) == Some(r)
    ensures r.name == q.name && FieldsAgree(r, q)
    ensures SameDirectives(r.directives, q.directives) <==> OneWithArguments(q.directives)
  {
    var bare, steps := Model(q.name, [], []), Filling(q);
    FillingFor(q, q.name);
    CreatedDirectivesIff(q.directives);
    forall f
      ensures var r := RunOnField(None, ForField(f, steps)); r.FieldSlot? && FieldAgrees(r.field, FindField(q.fields, f))
    {
      FillingFor(q, f);
      if FindField(q.fields, f).Some? {
        FieldCreated(q.name, FindField(q.fields, f).value);
      }
    }
    hide Filling, DirectiveCreations, RunOnField, FieldAgrees, SameDirectives, RunOnDirectives, OneWithArguments;
    FieldByField(bare, steps);
    r := RunOnModel(bare, steps).value;
    forall f ensures FieldAgrees(FindField(r.fields, f), FindField(q.fields, f)) {
      assert RunOnField(FindField(bare.fields, f), ForField(f, steps)) == FieldSlot(FindField(r.fields, f));
    }
  }

  // ----- enums -----

  ghost predicate ValuesDistinct(vs: seq<Name>) {
    vs != [] ==> vs[0] !in vs[1..] && ValuesDistinct(vs[1..])
  }

  ghost predicate ValuesAgree(vs: seq<Name>, ws: seq<Name>) {
    ValuesDistinct(vs) && forall v :: v in vs <==> v in ws
  }

  ghost predicate EnumOk(e: Enum) {
    ValuesDistinct(e.values) && DirectivesDistinct(e.directives) && ArgumentsOk(e.directives)
  }

  ghost predicate EnumAgrees(e: Enum, q: Enum) {
    e.name == q.name && ValuesAgree(e.values, q.values) && SameDirectives(e.directives, q.directives)
  }

  lemma {:induction false} WithoutAre(vs: seq<Name>, ws: seq<Name>, v: Name)
    ensures v in WithoutValues(vs, ws) <==> v in vs && v !in ws
  {
    if vs != [] {
      WithoutAre(vs[1..], ws, v);
    }
  }

  lemma {:induction false} WithoutDistinct(vs: seq<Name>, ws: seq<Name>)
    requires ValuesDistinct(vs)
    ensures ValuesDistinct(WithoutValues(vs, ws))
  {
    if vs != [] {
      WithoutDistinct(vs[1..], ws);
      WithoutAre(vs[1..], ws, vs[0]);
      var rest := WithoutValues(vs[1..], ws);
      assert ([vs[0]] + rest)[1..] == rest;
    }
  }

  lemma {:induction false} ConcatDistinct(vs: seq<Name>, ws: seq<Name>)
    requires ValuesDistinct(vs) && ValuesDistinct(ws) && forall v :: v in vs ==> v !in ws
    ensures ValuesDistinct(vs + ws)
  {
    if vs == [] {
      assert vs + ws == ws;
    } else {
      assert (vs + ws)[0] == vs[0] && (vs + ws)[1..] == vs[1..] + ws;
      assert vs[0] in vs;
      ConcatDistinct(vs[1..], ws);
    }
  }

  lemma {:induction false} ValuesUpdated(ps: seq<Name>, qs: seq<Name>)
    requires ValuesDistinct(ps) && ValuesDistinct(qs)
    ensures ValuesAgree(WithoutValues(ps + WithoutValues(qs, ps), WithoutValues(ps, qs)), qs)
  {
    var added, removed := WithoutValues(qs, ps), WithoutValues(ps, qs);
    WithoutDistinct(qs, ps);
    forall v ensures (v in added <==> v in qs && v !in ps) && (v in removed <==> v in ps && v !in qs) {
      WithoutAre(qs, ps, v);
      WithoutAre(ps, qs, v);
    }
    ConcatDistinct(ps, added);
    WithoutDistinct(ps + added, removed);
    forall v ensures v in WithoutValues(ps + added, removed) <==> v in qs {
      WithoutAre(ps + added, removed, v);
    }
  }

  lemma {:induction false} ValuesKept(ps: seq<Name>, qs: seq<Name>)
    requires ValuesDistinct(ps) && WithoutValues(qs, ps) == [] && WithoutValues(ps, qs) == []
    ensures ValuesAgree(ps, qs)
  {
    forall v ensures v in ps <==> v in qs {
      WithoutAre(qs, ps, v);
      WithoutAre(ps, qs, v);
    }
  }

  // ----- one model or enum -----

  function RunOnTop(slot: Option<Top>, k: Key, steps: seq<Step>): Outcome
    requires forall step :: step in steps ==> KeyOf(step) == k && KeepsNames(step)
    requires slot.Some? ==> KeyOfTop(slot.value) == k
    decreases |steps|
  {
    if steps == [] then Slot(slot)
    else
      assert steps[0] in steps;
      var r := ApplyToTop(slot, steps[0]);
      if r.Error? then Error else KeepsKey(slot, steps[0]); RunOnTop(r.top, k, steps[1..])
  }

  lemma {:induction false} KeepsKey(slot: Option<Top>, step: Step)
    requires KeepsNames(step) && (slot.Some? ==> KeyOfTop(slot.value) == KeyOf(step))
    ensures var r := ApplyToTop(slot, step); r.Slot? && r.top.Some? ==> KeyOfTop(r.top.value) == KeyOf(step)
  {
  }

  ghost predicate Concerns(k: Key, steps: seq<Step>) {
    forall step :: step in steps ==> KeyOf(step) == k && KeepsNames(step)
  }

  lemma {:induction false} TopModelRuns(m: Model, steps: seq<Step>)
    requires Concerns(ModelKey(m.name), steps) && (forall step :: step in steps ==> InModel(step))
    requires RunOnModel(m, steps).Some?
    ensures RunOnTop(Some(ModelTop(m)), ModelKey(m.name), steps) == Slot(Some(ModelTop(RunOnModel(m, steps).value)))
    decreases |steps|
  {
    if steps != [] {
      assert steps[0] in steps && forall s :: s in steps[1..] ==> s in steps;
      var m' := ApplyToModel(m, steps[0]).value;
      assert m'.name == m.name;
      TopModelRuns(m', steps[1..]);
    }
  }

  lemma {:induction false} TopEnumRuns(e: Enum, changes: seq<DirectiveStep>)
    requires RunOnDirectives(e.directives, changes).Some?
    ensures Concerns(EnumKey(e.name), At(EnumLocation(e.name), changes))
    ensures RunOnTop(Some(EnumTop(e)), EnumKey(e.name), At(EnumLocation(e.name), changes)) ==
            Slot(Some(EnumTop(e.(directives := RunOnDirectives(e.directives, changes).value))))
    decreases |changes|
  {
    if changes != [] {
      var location, rest := EnumLocation(e.name), At(EnumLocation(e.name), changes[1..]);
      assert At(location, changes) == [OnDirective(location, changes[0])] + rest;
      TopEnumRuns(e.(directives := ApplyToDirectives(e.directives, changes[0]).value), changes[1..]);
    }
  }

  lemma {:induction false} RunFirstTop(slot: Option<Top>, k: Key, step: Step, steps: seq<Step>)
    requires KeyOf(step) == k && KeepsNames(step) && Concerns(k, steps) && (slot.Some? ==> KeyOfTop(slot.value) == k)
    ensures Concerns(k, [step] + steps)
    ensures RunOnTop(slot, k, [step] + steps) ==
            var r := ApplyToTop(slot, step);
            if r.Error? then Error else (KeepsKey(slot, step); RunOnTop(r.top, k, steps))
  {
    assert ([step] + steps)[1..] == steps;
    KeepsKey(slot, step);
  }

  // ----- the steps of one model or enum -----

  ghost predicate TopOk(t: Top) {
    match t
    case ModelTop(m) => ModelOk(m)
    case EnumTop(e) => EnumOk(e)
    case OtherTop(_) => true
  }

  function TopSteps(p: Option<Top>, q: Option<Top>): seq<Step>
    requires p.Some? && q.Some? ==> KeyOfTop(p.value) == KeyOfTop(q.value)
  {
    if q.None? then
      if p.None? || p.value.OtherTop? then []
      else if p.value.ModelTop? then [DeleteModel(p.value.model.name)]
      else [DeleteEnum(p.value.enum.name)]
    else if q.value.ModelTop? then
      if p.None? then ModelCreation(q.value.model) else ModelUpdate(p.value.model, q.value.model)
    else if q.value.EnumTop? then
      if p.None? then EnumCreation(q.value.enum) else EnumUpdate(p.value.enum, q.value.enum)
    else []
  }

  ghost predicate TopAgrees(slot: Option<Top>, q: Option<Top>) {
    && (slot.Some? <==> q.Some?)
    && (q.Some? ==>
          || (slot.value.ModelTop? && q.value.ModelTop? && ModelAgrees(slot.value.model, q.value.model))
          || (slot.value.EnumTop? && q.value.EnumTop? && EnumAgrees(slot.value.enum, q.value.enum)))
  }

  /** The condition: on a new model at most one directive of each name has arguments. */
  ghost predicate Creatable(p: Option<Top>, q: Option<Top>) {
    p.None? && q.Some? && q.value.ModelTop? ==> OneWithArguments(q.value.model.directives)
  }

  lemma {:induction false} EnumCreated(q: Enum)
    requires EnumOk(q)
    ensures Concerns(EnumKey(q.name), EnumCreation(q))
    ensures var r := RunOnTop(None, EnumKey(q.name), EnumCreation(q));
            r.Slot? && r.top.Some? && r.top.value.EnumTop? && EnumAgrees(r.top.value.enum, q)
  {
    var changes, bare := DirectiveCreations([], q.directives), Enum(q.name, q.values, []);
    assert DirectiveChanges([], q.directives) == changes;
    SameLists([], q.directives);
    TopEnumRuns(bare, changes);
    hide SameDirectives, RunOnDirectives, DirectiveChanges, At, RunOnTop;
    RunFirstTop(None, EnumKey(q.name), CreateEnum(q.name, q.values), At(EnumLocation(q.name), changes));
  }

  lemma {:induction false} EnumUpdated(p: Enum, q: Enum)
    requires EnumOk(p) && EnumOk(q) && p.name == q.name
    ensures Concerns(EnumKey(q.name), EnumUpdate(p, q))
    ensures var r := RunOnTop(Some(EnumTop(p)), EnumKey(q.name), EnumUpdate(p, q));
            r.Slot? && r.top.Some? && r.top.value.EnumTop? && EnumAgrees(r.top.value.enum, q)
  {
    var changes := DirectiveChanges(p.directives, q.directives);
    var added, removed := WithoutValues(q.values, p.values), WithoutValues(p.values, q.values);
    var inner := At(EnumLocation(p.name), changes);
    SameLists(p.directives, q.directives);
    var p' := Enum(p.name, WithoutValues(p.values + added, removed), p.directives);
    TopEnumRuns(p', changes);
    TopEnumRuns(p, changes);
    hide SameDirectives, RunOnDirectives, DirectiveChanges, At, RunOnTop;
    if added != [] || removed != [] {
      ValuesUpdated(p.values, q.values);
      var update := UpdateEnum(p.name, None, added, removed);
      assert EnumUpdate(p, q) == [update] + inner;
      RunFirstTop(Some(EnumTop(p)), EnumKey(p.name), update, inner);
    } else {
      ValuesKept(p.values, q.values);
      assert EnumUpdate(p, q) == inner;
    }
  }

  lemma {:induction false} InModelConcerns(m: Name, ps: seq<Field>, qs: seq<Field>)
    ensures Concerns(ModelKey(m), FieldCreations(m, ps, qs))
    decreases |qs|
  {
    if qs != [] {
      InModelConcerns(m, ps, qs[1..]);
    }
  }

  lemma {:induction false} DeletionsConcern(m: Name, ps: seq<Field>, qs: seq<Field>)
    ensures Concerns(ModelKey(m), FieldDeletions(m, ps, qs))
  {
    if ps != [] {
      DeletionsConcern(m, ps[1..], qs);
    }
  }

  lemma {:induction false} UpdatesConcern(m: Name, ps: seq<Field>, qs: seq<Field>)
    ensures Concerns(ModelKey(m), FieldUpdates(m, ps, qs))
  {
    if ps != [] {
      UpdatesConcern(m, ps[1..], qs);
    }
  }

  lemma {:induction false} ModelStepsConcern(p: Model, q: Model)
    ensures Concerns(ModelKey(p.name), ModelUpdate(p, q)) && Concerns(ModelKey(q.name), Filling(q))
  {
    InModelConcerns(p.name, p.fields, q.fields);
    InModelConcerns(q.name, [], q.fields);
    DeletionsConcern(p.name, p.fields, q.fields);
    UpdatesConcern(p.name, p.fields, q.fields);
    hide FieldCreations, FieldDeletions, FieldUpdates, ModelDirectiveChanges, DirectiveCreations;
  }

  lemma {:induction false} ModelCreated(q: Model)
    requires ModelOk(q)
    ensures Concerns(ModelKey(q.name), ModelCreation(q))
    ensures var r := RunOnTop(None, ModelKey(q.name), ModelCreation(q));
            r.Slot? && r.top.Some? && r.top.value.ModelTop?
            && (ModelAgrees(r.top.value.model, q) <==> OneWithArguments(q.directives))
  {
    var bare := Model(q.name, [], []);
    var r := ModelFilled(q);
    ModelStepsConcern(q, q);
    hide Filling, SameDirectives, FieldsAgree, OneWithArguments, RunOnTop, RunOnModel;
    TopModelRuns(bare, Filling(q));
    assert ModelCreation(q) == [CreateModel(q.name)] + Filling(q) by { CreationIs(q); }
    RunFirstTop(None, ModelKey(q.name), CreateModel(q.name), Filling(q));
  }

  lemma {:induction false} CreationIs(q: Model)
    ensures ModelCreation(q) == [CreateModel(q.name)] + Filling(q)
  {
  }

  lemma {:induction false} TopReachesIff(p: Option<Top>, q: Option<Top>, k: Key)
    requires p.Some? ==> KeyOfTop(p.value) == k && TopOk(p.value)
    requires q.Some? ==> KeyOfTop(q.value) == k && TopOk(q.value)
    requires k != OtherKey
    ensures Concerns(k, TopSteps(p, q))
    ensures var r := RunOnTop(p, k, TopSteps(p, q)); r.Slot? && (TopAgrees(r.top, q) <==> Creatable(p, q))
  {
    hide ModelCreation, ModelUpdate, EnumCreation, EnumUpdate, ModelAgrees, EnumAgrees, OneWithArguments, RunOnModel;
    if q.None? {
      if p.Some? {
        var step := if p.value.ModelTop? then DeleteModel(p.value.model.name) else DeleteEnum(p.value.enum.name);
        RunFirstTop(p, k, step, []);
        assert [step] + [] == [step];
      }
    } else if q.value.EnumTop? {
      if p.None? {
        EnumCreated(q.value.enum);
      } else {
        EnumUpdated(p.value.enum, q.value.enum);
      }
    } else if p.None? {
      ModelCreated(q.value.model);
    } else {
      var r := ModelUpdated(p.value.model, q.value.model);
      ModelStepsConcern(p.value.model, q.value.model);
      TopModelRuns(p.value.model, ModelUpdate(p.value.model, q.value.model));
    }
  }

  // ----- a datamodel, top by top -----

  ghost predicate TopsDistinct(ts: seq<Top>) {
    ts != [] ==> (ts[0].OtherTop? || FindTop(ts[1..], KeyOfTop(ts[0])).None?) && TopsDistinct(ts[1..])
  }

  /** What is neither a model nor an enum. */
  function Others(ts: seq<Top>): seq<Top> {
    if ts == [] then [] else if ts[0].OtherTop? then [ts[0]] + Others(ts[1..]) else Others(ts[1..])
  }

  function ForKey(k: Key, steps: seq<Step>): (r: seq<Step>)
    ensures forall step :: step in r ==> step in steps && KeyOf(step) == k
  {
    if steps == [] then []
    else if KeyOf(steps[0]) == k then [steps[0]] + ForKey(k, steps[1..])
    else ForKey(k, steps[1..])
  }

  lemma {:induction false} ReplacedTop(ts: seq<Top>, k: Key, x: Top, l: Key)
    requires KeyOfTop(x) == k && k != OtherKey
    ensures FindTop(ReplaceTop(ts, k, x), l) == if l == k then Some(x) else FindTop(ts, l)
    ensures TopsDistinct(ts) ==> TopsDistinct(ReplaceTop(ts, k, x))
    ensures Others(ReplaceTop(ts, k, x)) == Others(ts)
  {
    if ts == [] {
      assert [x][1..] == [];
    } else if KeyOfTop(ts[0]) == k {
      assert ([x] + ts[1..])[1..] == ts[1..];
    } else {
      ReplacedTop(ts[1..], k, x, l);
      ReplacedTop(ts[1..], k, x, KeyOfTop(ts[0]));
      var rest := ReplaceTop(ts[1..], k, x);
      assert ([ts[0]] + rest)[1..] == rest;
    }
  }

  lemma {:induction false} RemovedTop(ts: seq<Top>, k: Key, l: Key)
    requires k != OtherKey
    ensures FindTop(RemoveTop(ts, k), l) == if l == k then None else FindTop(ts, l)
    ensures TopsDistinct(ts) ==> TopsDistinct(RemoveTop(ts, k))
    ensures Others(RemoveTop(ts, k)) == Others(ts)
  {
    if ts != [] {
      RemovedTop(ts[1..], k, l);
      RemovedTop(ts[1..], k, KeyOfTop(ts[0]));
      var rest := RemoveTop(ts[1..], k);
      assert ([ts[0]] + rest)[1..] == rest;
    }
  }

  lemma {:induction false} OneTopStep(ts: seq<Top>, step: Step, l: Key)
    requires KeepsNames(step) && TopsDistinct(ts) && ApplyToTop(FindTop(ts, KeyOf(step)), step).Slot?
    ensures var r := ApplyStep(ts, step);
            && r.Some? && TopsDistinct(r.value) && Others(r.value) == Others(ts)
            && FindTop(r.value, l) ==
               if l == KeyOf(step) then ApplyToTop(FindTop(ts, l), step).top else FindTop(ts, l)
  {
    var k, slot := KeyOf(step), ApplyToTop(FindTop(ts, KeyOf(step)), step).top;
    KeepsKey(FindTop(ts, k), step);
    if slot.Some? {
      ReplacedTop(ts, k, slot.value, l);
    } else {
      RemovedTop(ts, k, l);
    }
  }

  ghost predicate TopsRun(ts: seq<Top>, steps: seq<Step>)
    requires forall step :: step in steps ==> KeepsNames(step)
  {
    forall k :: RunOnTop(FindTop(ts, k), k, ForKey(k, steps)).Slot?
  }

  /** Steps on different models and enums do not interfere. */
  lemma {:induction false} TopByTop(ts: seq<Top>, steps: seq<Step>)
    requires TopsDistinct(ts) && (forall step :: step in steps ==> KeepsNames(step)) && TopsRun(ts, steps)
    ensures var r := ApplyAll(ts, steps);
            && r.Some? && TopsDistinct(r.value) && Others(r.value) == Others(ts)
            && forall k :: RunOnTop(FindTop(ts, k), k, ForKey(k, steps)) == Slot(FindTop(r.value, k))
    decreases |steps|
  {
    if steps != [] {
      var step, rest, n := steps[0], steps[1..], KeyOf(steps[0]);
      assert step in steps && forall s :: s in rest ==> s in steps;
      assert RunOnTop(FindTop(ts, n), n, ForKey(n, steps)).Slot?;
      assert ForKey(n, steps) == [step] + ForKey(n, rest);
      RunFirstTop(FindTop(ts, n), n, step, ForKey(n, rest));
      OneTopStep(ts, step, n);
      var ts' := ApplyStep(ts, step).value;
      forall k
        ensures RunOnTop(FindTop(ts, k), k, ForKey(k, steps)) == RunOnTop(FindTop(ts', k), k, ForKey(k, rest))
      {
        OneTopStep(ts, step, k);
        if k == n {
          RunFirstTop(FindTop(ts, k), k, step, ForKey(k, rest));
        }
      }
      hide RunOnTop, ApplyStep;
      TopByTop(ts', rest);
    }
  }

  // ----- the diff, top by top -----

  lemma {:induction false} ForKeyConcat(k: Key, xs: seq<Step>, ys: seq<Step>)
    ensures ForKey(k, xs + ys) == ForKey(k, xs) + ForKey(k, ys)
  {
    if xs == [] {
      assert xs + ys == ys;
    } else {
      assert (xs + ys)[0] == xs[0] && (xs + ys)[1..] == xs[1..] + ys;
      ForKeyConcat(k, xs[1..], ys);
    }
  }

  lemma {:induction false} ForKeyOwn(k: Key, l: Key, steps: seq<Step>)
    requires Concerns(l, steps)
    ensures ForKey(k, steps) == if k == l then steps else []
  {
    if steps != [] {
      assert steps[0] in steps;
      ForKeyOwn(k, l, steps[1..]);
    }
  }

  lemma {:induction false} ForKeyHead(k: Key, l: Key, xs: seq<Step>, ys: seq<Step>)
    requires Concerns(l, xs)
    ensures ForKey(k, xs + ys) == (if k == l then xs else []) + ForKey(k, ys)
  {
    ForKeyConcat(k, xs, ys);
    ForKeyOwn(k, l, xs);
  }

  ghost predicate AllKeep(steps: seq<Step>) {
    forall step :: step in steps ==> KeepsNames(step)
  }

  lemma {:induction false} EnumStepsConcern(p: Enum, q: Enum)
    ensures Concerns(EnumKey(q.name), EnumCreation(q))
    ensures p.name == q.name ==> Concerns(EnumKey(p.name), EnumUpdate(p, q))
  {
    hide DirectiveCreations, DirectiveChanges, WithoutValues;
  }

  lemma {:induction false} ModelCreationConcerns(q: Model)
    ensures Concerns(ModelKey(q.name), ModelCreation(q))
  {
    ModelStepsConcern(q, q);
    CreationIs(q);
    hide ModelCreation, Filling, ModelUpdate;
  }

  lemma {:induction false} EnumsToCreateFor(prev: seq<Top>, ts: seq<Top>, k: Key)
    requires TopsDistinct(ts)
    ensures AllKeep(EnumsToCreate(prev, ts))
    ensures ForKey(k, EnumsToCreate(prev, ts)) ==
            if k.EnumKey? && FindTop(prev, k).None? && FindTop(ts, k).Some? then EnumCreation(FindTop(ts, k).value.enum) else []
  {
    if ts != [] {
      hide ForKey;
      EnumsToCreateFor(prev, ts[1..], k);
      if ts[0].EnumTop? {
        EnumStepsConcern(ts[0].enum, ts[0].enum);
        hide EnumCreation;
        ForKeyHead(k, KeyOfTop(ts[0]), EnumCreation(ts[0].enum), EnumsToCreate(prev, ts[1..]));
      }
    }
  }

  lemma {:induction false} EnumsToDeleteFor(ts: seq<Top>, next: seq<Top>, k: Key)
    requires TopsDistinct(ts)
    ensures AllKeep(EnumsToDelete(ts, next))
    ensures ForKey(k, EnumsToDelete(ts, next)) ==
            if k.EnumKey? && FindTop(ts, k).Some? && FindTop(next, k).None? then [DeleteEnum(k.enum)] else []
  {
    if ts != [] {
      hide ForKey;
      EnumsToDeleteFor(ts[1..], next, k);
      if ts[0].EnumTop? {
        ForKeyHead(k, KeyOfTop(ts[0]), [DeleteEnum(ts[0].enum.name)], EnumsToDelete(ts[1..], next));
      }
    }
  }

  lemma {:induction false} EnumsToUpdateFor(ts: seq<Top>, next: seq<Top>, k: Key)
    requires TopsDistinct(ts)
    ensures AllKeep(EnumsToUpdate(ts, next))
    ensures ForKey(k, EnumsToUpdate(ts, next)) ==
            if k.EnumKey? && FindTop(ts, k).Some? && FindTop(next, k).Some?
            then EnumUpdate(FindTop(ts, k).value.enum, FindTop(next, k).value.enum) else []
  {
    if ts != [] {
      hide ForKey;
      EnumsToUpdateFor(ts[1..], next, k);
      var q := FindTop(next, KeyOfTop(ts[0]));
      if ts[0].EnumTop? && q.Some? {
        EnumStepsConcern(ts[0].enum, q.value.enum);
        hide EnumUpdate;
        ForKeyHead(k, KeyOfTop(ts[0]), EnumUpdate(ts[0].enum, q.value.enum), EnumsToUpdate(ts[1..], next));
      }
    }
  }

  lemma {:induction false} ModelsToCreateFor(prev: seq<Top>, ts: seq<Top>, k: Key)
    requires TopsDistinct(ts)
    ensures AllKeep(ModelsToCreate(prev, ts))
    ensures ForKey(k, ModelsToCreate(prev, ts)) ==
            if k.ModelKey? && FindTop(prev, k).None? && FindTop(ts, k).Some? then ModelCreation(FindTop(ts, k).value.model) else []
  {
    if ts != [] {
      hide ForKey;
      ModelsToCreateFor(prev, ts[1..], k);
      if ts[0].ModelTop? {
        ModelCreationConcerns(ts[0].model);
        hide ModelCreation;
        ForKeyHead(k, KeyOfTop(ts[0]), ModelCreation(ts[0].model), ModelsToCreate(prev, ts[1..]));
      }
    }
  }

  lemma {:induction false} ModelsToDeleteFor(ts: seq<Top>, next: seq<Top>, k: Key)
    requires TopsDistinct(ts)
    ensures AllKeep(ModelsToDelete(ts, next))
    ensures ForKey(k, ModelsToDelete(ts, next)) ==
            if k.ModelKey? && FindTop(ts, k).Some? && FindTop(next, k).None? then [DeleteModel(k.model)] else []
  {
    if ts != [] {
      hide ForKey;
      ModelsToDeleteFor(ts[1..], next, k);
      if ts[0].ModelTop? {
        ForKeyHead(k, KeyOfTop(ts[0]), [DeleteModel(ts[0].model.name)], ModelsToDelete(ts[1..], next));
      }
    }
  }

  lemma {:induction false} ModelsToUpdateFor(ts: seq<Top>, next: seq<Top>, k: Key)
    requires TopsDistinct(ts)
    ensures AllKeep(ModelsToUpdate(ts, next))
    ensures ForKey(k, ModelsToUpdate(ts, next)) ==
            if k.ModelKey? && FindTop(ts, k).Some? && FindTop(next, k).Some?
            then ModelUpdate(FindTop(ts, k).value.model, FindTop(next, k).value.model) else []
  {
    if ts != [] {
      hide ForKey;
      ModelsToUpdateFor(ts[1..], next, k);
      var q := FindTop(next, KeyOfTop(ts[0]));
      if ts[0].ModelTop? && q.Some? {
        ModelStepsConcern(ts[0].model, q.value.model);
        hide ModelUpdate;
        ForKeyHead(k, KeyOfTop(ts[0]), ModelUpdate(ts[0].model, q.value.model), ModelsToUpdate(ts[1..], next));
      }
    }
  }

  lemma {:induction false} DiffKeepsNames(prev: seq<Top>, next: seq<Top>)
    requires TopsDistinct(prev) && TopsDistinct(next)
    ensures AllKeep(Diff(prev, next))
  {
    EnumsToCreateFor(prev, next, OtherKey);
    EnumsToDeleteFor(prev, next, OtherKey);
    EnumsToUpdateFor(prev, next, OtherKey);
    ModelsToCreateFor(prev, next, OtherKey);
    ModelsToDeleteFor(prev, next, OtherKey);
    ModelsToUpdateFor(prev, next, OtherKey);
    hide EnumsToCreate, EnumsToDelete, EnumsToUpdate, ModelsToCreate, ModelsToDelete, ModelsToUpdate, ForKey, KeepsNames;
  }

  lemma {:induction false} EnumPieces(prev: seq<Top>, next: seq<Top>, k: Key)
    requires TopsDistinct(prev) && TopsDistinct(next)
    ensures ForKey(k, EnumsToCreate(prev, next)) + ForKey(k, EnumsToDelete(prev, next)) + ForKey(k, EnumsToUpdate(prev, next)) ==
            if k.EnumKey? then TopSteps(FindTop(prev, k), FindTop(next, k)) else []
  {
    hide EnumsToCreate, EnumsToDelete, EnumsToUpdate, ForKey, AllKeep, EnumCreation, EnumUpdate;
    EnumsToCreateFor(prev, next, k);
    EnumsToDeleteFor(prev, next, k);
    EnumsToUpdateFor(prev, next, k);
  }

  lemma {:induction false} ModelPieces(prev: seq<Top>, next: seq<Top>, k: Key)
    requires TopsDistinct(prev) && TopsDistinct(next)
    ensures ForKey(k, ModelsToCreate(prev, next)) + ForKey(k, ModelsToDelete(prev, next)) + ForKey(k, ModelsToUpdate(prev, next)) ==
            if k.ModelKey? then TopSteps(FindTop(prev, k), FindTop(next, k)) else []
  {
    hide ModelsToCreate, ModelsToDelete, ModelsToUpdate, ForKey, AllKeep, ModelCreation, ModelUpdate;
    ModelsToCreateFor(prev, next, k);
    ModelsToDeleteFor(prev, next, k);
    ModelsToUpdateFor(prev, next, k);
  }

  /** What a diff does to a model or enum follows from its two versions. */
  lemma {:induction false} DiffTopByTop(prev: seq<Top>, next: seq<Top>, k: Key)
    requires TopsDistinct(prev) && TopsDistinct(next)
    ensures ForKey(k, Diff(prev, next)) == if k == OtherKey then [] else TopSteps(FindTop(prev, k), FindTop(next, k))
  {
    hide EnumsToCreate, EnumsToDelete, EnumsToUpdate, ModelsToCreate, ModelsToDelete, ModelsToUpdate, ForKey, TopSteps;
    var a, b, c := EnumsToCreate(prev, next), EnumsToDelete(prev, next), EnumsToUpdate(prev, next);
    var d, e, f := ModelsToCreate(prev, next), ModelsToDelete(prev, next), ModelsToUpdate(prev, next);
    EnumPieces(prev, next, k);
    ModelPieces(prev, next, k);
    SixForKey(k, a, b, c, d, e, f);
    var x, y := ForKey(k, a) + ForKey(k, b) + ForKey(k, c), ForKey(k, d) + ForKey(k, e) + ForKey(k, f);
    assert x + ForKey(k, d) + ForKey(k, e) + ForKey(k, f) == x + y;
  }

  lemma {:induction false} SixForKey(
    k: Key, a: seq<Step>, b: seq<Step>, c: seq<Step>, d: seq<Step>, e: seq<Step>, f: seq<Step>)
    ensures ForKey(k, a + b + c + d + e + f) ==
            ForKey(k, a) + ForKey(k, b) + ForKey(k, c) + ForKey(k, d) + ForKey(k, e) + ForKey(k, f)
  {
    ForKeyConcat(k, a, b);
    ForKeyConcat(k, a + b, c);
    ForKeyConcat(k, a + b + c, d);
    ForKeyConcat(k, a + b + c + d, e);
    ForKeyConcat(k, a + b + c + d + e, f);
  }

  // ----- the theorem -----

  /** A datamodel with unique names, and unique arguments where names are repeated. */
  ghost predicate AstOk(ts: seq<Top>) {
    TopsDistinct(ts) && forall t :: t in ts ==> TopOk(t)
  }

  ghost predicate AstAgrees(ts: seq<Top>, next: seq<Top>) {
    forall k :: k != OtherKey ==> TopAgrees(FindTop(ts, k), FindTop(next, k))
  }

  ghost predicate AllCreatable(prev: seq<Top>, next: seq<Top>) {
    forall k :: k != OtherKey ==> Creatable(FindTop(prev, k), FindTop(next, k))
  }

  lemma {:induction false} DiffOfTop(prev: seq<Top>, next: seq<Top>, k: Key)
    requires AstOk(prev) && AstOk(next)
    ensures AllKeep(Diff(prev, next))
    ensures var r := RunOnTop(FindTop(prev, k), k, ForKey(k, Diff(prev, next)));
            && r.Slot?
            && (k != OtherKey ==> (TopAgrees(r.top, FindTop(next, k)) <==> Creatable(FindTop(prev, k), FindTop(next, k))))
  {
    DiffTopByTop(prev, next, k);
    DiffKeepsNames(prev, next);
    hide Diff, TopSteps;
    if k != OtherKey {
      TopReachesIff(FindTop(prev, k), FindTop(next, k), k);
    }
  }

  /**
    Applying a diff never fails, leaves everything but models and enums alone,
    and yields the models and enums of the next datamodel if and only if on
    every new model at most one directive of each name has arguments.
   */
  lemma {:induction false} DiffRoundTripIff(prev: seq<Top>, next: seq<Top>)
    requires AstOk(prev) && AstOk(next)
    ensures var r := ApplyAll(prev, Diff(prev, next));
            && r.Some? && TopsDistinct(r.value) && Others(r.value) == Others(prev)
            && (AstAgrees(r.value, next) <==> AllCreatable(prev, next))
  {
    var steps := Diff(prev, next);
    DiffOfTop(prev, next, OtherKey);
    hide Diff, RunOnTop, TopAgrees, Creatable, TopOk, ApplyAll;
    forall k
      ensures var r := RunOnTop(FindTop(prev, k), k, ForKey(k, steps));
              && r.Slot?
              && (k != OtherKey ==> (TopAgrees(r.top, FindTop(next, k)) <==> Creatable(FindTop(prev, k), FindTop(next, k))))
    {
      DiffOfTop(prev, next, k);
    }
    TopByTop(prev, steps);
    var r := ApplyAll(prev, steps).value;
    forall k | k != OtherKey
      ensures TopAgrees(FindTop(r, k), FindTop(next, k)) <==> Creatable(FindTop(prev, k), FindTop(next, k))
    {
      assert RunOnTop(FindTop(prev, k), k, ForKey(k, steps)) == Slot(FindTop(r, k));
    }
  }

  // ----- a new model with two @@unique -----

  function UniqueOn(field: Name): Directive {
    Directive("unique", [Argument("fields", field)])
  }

  const TWO_UNIQUES: seq<Directive> := [UniqueOn("a"), UniqueOn("b")]

  /** The arguments of both end up in the first. */
  lemma {:induction false} TwoUniquesAreMixedUp()
    ensures var next := [ModelTop(Model("M", [], TWO_UNIQUES))];
            && AstOk(next)
            && var r := ApplyAll([], Diff([], next)); r.Some? && !AstAgrees(r.value, next)
  {
    var m := Model("M", [], TWO_UNIQUES);
    var next := [ModelTop(m)];
    TwoUniquesOk();
    assert next[1..] == [] && FindTop(next, ModelKey("M")) == Some(ModelTop(m));
    assert UniqueOn("a").arguments != [] && UniqueOn("b").arguments != [];
    assert TWO_UNIQUES[0] == UniqueOn("a") && TWO_UNIQUES[1] == UniqueOn("b");
    assert !OneWithArguments(TWO_UNIQUES);
    assert !Creatable(FindTop([], ModelKey("M")), FindTop(next, ModelKey("M")));
    assert ModelOk(m) && TopOk(ModelTop(m));
    assert forall t :: t in next ==> t == ModelTop(m);
    assert TopsDistinct(next);
    DiffRoundTripIff([], next);
  }

  lemma {:induction false} TwoUniquesOk()
    ensures ModelDirectivesOk(TWO_UNIQUES)
  {
    var a, b := UniqueOn("a"), UniqueOn("b");
    assert a.arguments[1..] == [] && b.arguments[1..] == [];
    assert TWO_UNIQUES == [a, b] && [a, b][1..] == [b] && [b][1..] == [];
    assert IsRepeated(a) && IsRepeated(b);
    assert Repeated([b]) == [b] + Repeated([]) == [b];
    assert Regular([b]) == Regular([]) == [] && Regular([a, b]) == Regular([b]);
    assert Repeated([a, b]) == [a] + Repeated([b]) == [a, b];
    assert ValueAt(a.arguments, "fields") == Some("a") && ValueAt(b.arguments, "fields") == Some("b");
    assert "a"[0] != "b"[0];
    assert !SameDirective(a, b);
  }
}
