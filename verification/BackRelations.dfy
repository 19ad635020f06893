/** Standardisation, first part: every relation field gets an opposite. */
module BackRelations {
  import opened Wrappers
  import opened Names
  import opened Relations

  /** How the name of an added field follows from a model name; the plural is used for lists. */
  type Naming = (Name, bool) -> Name

  datatype BackRelation = BackRelation(model: Name, field: Field)

  predicate Missing(ms: Datamodel, m: Model, f: Field) {
    f.fieldType.Relation? && Opposite(ms, m, f).None?
  }

  /** The field that is added opposite to a field. */
  function BackField(naming: Naming, m: Model, f: Field): Field
    requires f.fieldType.Relation?
  {
    var singular := !f.arity.List?;
    Field(naming(m.name, singular), if singular then List else Optional,
          Relation(m.name, [], f.fieldType.relation), None, false, true)
  }

  function MissingIn(naming: Naming, ms: Datamodel, m: Model, fs: seq<Field>): seq<BackRelation> {
    if fs == [] then []
    else if Missing(ms, m, fs[0])
    then [BackRelation(fs[0].fieldType.to, BackField(naming, m, fs[0]))] + MissingIn(naming, ms, m, fs[1..])
    else MissingIn(naming, ms, m, fs[1..])
  }

  function AllMissing(naming: Naming, ms: Datamodel, rest: Datamodel): seq<BackRelation> {
    if rest == [] then []
    else MissingIn(naming, ms, rest[0], rest[0].fields) + AllMissing(naming, ms, rest[1..])
  }

  function AddTo(ms: Datamodel, n: Name, f: Field): Datamodel {
    if ms == [] then []
    else if ms[0].name == n then [ms[0].(fields := ms[0].fields + [f])] + ms[1..]
    else [ms[0]] + AddTo(ms[1..], n, f)
  }

  /** `None` on a naming conflict. */
  function AddBackRelations(ms: Datamodel, bs: seq<BackRelation>): Option<Datamodel>
    decreases |bs|
  {
    if bs == [] then Some(ms)
    else
      var t :- FindModel(ms, bs[0].model);
      if FindField(t.fields, bs[0].field.name).Some? then None
      else AddBackRelations(AddTo(ms, bs[0].model, bs[0].field), bs[1..])
  }

  function AddMissingBackRelations(naming: Naming, ms: Datamodel): Option<Datamodel> {
    AddBackRelations(ms, AllMissing(naming, ms, ms))
  }

  // ----- the loops -----

  method FindMissingBackRelationFields(naming: Naming, ms: Datamodel, m: Model) returns (r: seq<BackRelation>)
    ensures r == MissingIn(naming, ms, m, m.fields)
  {
    r := [];
    for i := 0 to |m.fields|
      invariant r + MissingIn(naming, ms, m, m.fields[i..]) == MissingIn(naming, ms, m, m.fields)
    {
      var f := m.fields[i];
      assert m.fields[i..][1..] == m.fields[i + 1..];
      if f.fieldType.Relation? {
        var backFieldExists := Opposite(ms, m, f).Some?;
        if !backFieldExists {
          r := r + [BackRelation(f.fieldType.to, BackField(naming, m, f))];
        }
      }
    }
  }

  /** On success every missing field has been added. */
  method AddMissing(naming: Naming, ms: Datamodel) returns (r: Option<Datamodel>)
    requires forall b :: b in AllMissing(naming, ms, ms) ==> FindModel(ms, b.model).Some?
    ensures r == AddMissingBackRelations(naming, ms)
  {
    var missing: seq<BackRelation> := [];
    for i := 0 to |ms|
      invariant missing + AllMissing(naming, ms, ms[i..]) == AllMissing(naming, ms, ms)
    {
      assert ms[i..][1..] == ms[i + 1..];
      var more := FindMissingBackRelationFields(naming, ms, ms[i]);
      missing := missing + more;
    }
    assert ms[|ms|..] == [] && missing + [] == missing;
    var models, hasErrors := ms, false;
    for i := 0 to |missing|
      invariant !hasErrors ==> AddBackRelations(models, missing[i..]) == AddBackRelations(ms, missing)
      invariant hasErrors ==> AddBackRelations(ms, missing).None?
      invariant forall n :: FindModel(models, n).Some? <==> FindModel(ms, n).Some?
    {
      assert missing[i..][1..] == missing[i + 1..];
      var b := missing[i];
      assert b in missing;
      var t := FindModel(models, b.model).value;
      if FindField(t.fields, b.field.name).Some? {
        hasErrors := true;
      } else {
        forall n ensures FindModel(AddTo(models, b.model, b.field), n).Some? <==> FindModel(models, n).Some? {
          AddedModel(models, b.model, b.field, n);
        }
        models := AddTo(models, b.model, b.field);
      }
    }
    r := if hasErrors then None else Some(models);
  }

  lemma {:induction false} AddedModel(ms: Datamodel, t: Name, f: Field, n: Name)
    ensures FindModel(AddTo(ms, t, f), n) ==
            var m := FindModel(ms, n);
            if m.Some? && n == t then Some(m.value.(fields := m.value.fields + [f])) else m
    ensures ModelsDistinct(ms) ==> ModelsDistinct(AddTo(ms, t, f))
  {
    if ms != [] {
      if ms[0].name == t {
        var first := ms[0].(fields := ms[0].fields + [f]);
        assert ([first] + ms[1..])[1..] == ms[1..];
      } else {
        AddedModel(ms[1..], t, f, n);
        AddedModel(ms[1..], t, f, ms[0].name);
        var rest := AddTo(ms[1..], t, f);
        assert ([ms[0]] + rest)[1..] == rest;
      }
    }
  }

  // ----- what has been added -----

  function FieldsFor(n: Name, bs: seq<BackRelation>): (r: seq<Field>)
    ensures forall f :: f in r <==> BackRelation(n, f) in bs
  {
    if bs == [] then [] else if bs[0].model == n then [bs[0].field] + FieldsFor(n, bs[1..]) else FieldsFor(n, bs[1..])
  }

  function Grown(m: Model, bs: seq<BackRelation>): Model {
    m.(fields := m.fields + FieldsFor(m.name, bs))
  }

  lemma {:induction false} AppendDistinct(fs: seq<Field>, f: Field)
    requires FieldsDistinct(fs) && FindField(fs, f.name).None?
    ensures FieldsDistinct(fs + [f])
  {
    if fs == [] {
      assert fs + [f] == [f] && [f][1..] == [];
    } else {
      assert (fs + [f])[0] == fs[0] && (fs + [f])[1..] == fs[1..] + [f];
      AppendDistinct(fs[1..], f);
    }
  }

  /** Every model with the fields added to it. */
  lemma {:induction false} AllAdded(ms: Datamodel, bs: seq<BackRelation>, n: Name)
    requires ModelsDistinct(ms) && AddBackRelations(ms, bs).Some?
    ensures ModelsDistinct(AddBackRelations(ms, bs).value)
    ensures FindModel(AddBackRelations(ms, bs).value, n) ==
            var m := FindModel(ms, n);
            if m.Some? then Some(Grown(m.value, bs)) else None
    decreases |bs|
  {
    hide ModelsDistinct, AddTo, Grown, FieldsFor;
    if bs == [] {
      if FindModel(ms, n).Some? {
        GrownByNothing(FindModel(ms, n).value);
      }
    } else {
      var b, ms' := bs[0], AddTo(ms, bs[0].model, bs[0].field);
      AddedModel(ms, b.model, b.field, n);
      AllAdded(ms', bs[1..], n);
      if FindModel(ms, n).Some? {
        GrownByOne(FindModel(ms, n).value, bs);
      }
    }
  }

  lemma {:induction false} GrownByNothing(m: Model)
    ensures Grown(m, []) == m
  {
    assert m.fields + [] == m.fields;
  }

  lemma {:induction false} GrownByOne(m: Model, bs: seq<BackRelation>)
    requires bs != []
    ensures Grown(m, bs) ==
            Grown(if m.name == bs[0].model then m.(fields := m.fields + [bs[0].field]) else m, bs[1..])
  {
    var rest := FieldsFor(m.name, bs[1..]);
    assert m.fields + [bs[0].field] + rest == m.fields + ([bs[0].field] + rest);
  }

  /** Field names stay unique. */
  lemma {:induction false} AddedDistinct(ms: Datamodel, bs: seq<BackRelation>, n: Name)
    requires ModelsDistinct(ms) && AddBackRelations(ms, bs).Some?
    requires FindModel(ms, n).Some? && FieldsDistinct(FindModel(ms, n).value.fields)
    ensures var m := FindModel(AddBackRelations(ms, bs).value, n); m.Some? && FieldsDistinct(m.value.fields)
    decreases |bs|
  {
    if bs != [] {
      var b, m := bs[0], FindModel(ms, n).value;
      AddedModel(ms, b.model, b.field, n);
      if n == b.model {
        AppendDistinct(m.fields, b.field);
      }
      hide ModelsDistinct, AddTo, FieldsDistinct;
      AddedDistinct(AddTo(ms, b.model, b.field), bs[1..], n);
    }
  }

  lemma {:induction false} ListedMissing(naming: Naming, ms: Datamodel, m: Model, fs: seq<Field>, b: BackRelation)
    ensures b in MissingIn(naming, ms, m, fs) <==> exists f :: f in fs && Adds(naming, ms, m, f, b)
  {
    if fs != [] {
      ListedMissing(naming, ms, m, fs[1..], b);
      var rest := MissingIn(naming, ms, m, fs[1..]);
      if b in rest {
        var f :| f in fs[1..] && Adds(naming, ms, m, f, b);
        assert f in fs;
      } else if b in MissingIn(naming, ms, m, fs) {
        assert fs[0] in fs && Adds(naming, ms, m, fs[0], b);
      }
      if f :| f in fs && Adds(naming, ms, m, f, b) {
        assert f == fs[0] || f in fs[1..];
      }
    }
  }

  /** Whether a field is the reason why another is added. */
  ghost predicate Adds(naming: Naming, ms: Datamodel, m: Model, f: Field, b: BackRelation) {
    Missing(ms, m, f) && b == BackRelation(f.fieldType.to, BackField(naming, m, f))
  }

  ghost predicate AddedBy(naming: Naming, ms: Datamodel, m: Model, b: BackRelation) {
    exists f :: f in m.fields && Adds(naming, ms, m, f, b)
  }

  lemma {:induction false} ListedAll(naming: Naming, ms: Datamodel, rest: Datamodel, b: BackRelation)
    ensures b in AllMissing(naming, ms, rest) <==> exists m :: m in rest && AddedBy(naming, ms, m, b)
  {
    if rest != [] {
      ListedMissing(naming, ms, rest[0], rest[0].fields, b);
      ListedAll(naming, ms, rest[1..], b);
      assert rest == [rest[0]] + rest[1..];
      assert AddedBy(naming, ms, rest[0], b) <==> b in MissingIn(naming, ms, rest[0], rest[0].fields);
    }
  }

  // ----- the fields of one relation, before and after -----

  lemma {:induction false} MissingIff(ms: Datamodel, m: Model, t: Model, f: Field)
    requires ModelsDistinct(ms) && t in ms && f.fieldType.Relation? && f.fieldType.to == t.name
    ensures Missing(ms, m, f) <==>
            forall x :: x in t.fields && Links(x, m.name, f.fieldType.relation) ==> t.name == m.name && x.name == f.name
  {
    ModelFound(ms, t);
    var x := Opposite(ms, m, f);
    assert x == RelatedField(t, m.name, f.fieldType.relation, f.name);
  }

  /** The fields of a relation after the additions: the old ones, and those opposite to a missing one. */
  lemma {:induction false} GrownFields(naming: Naming, ms: Datamodel, m: Model, t: Model, relation: Name, x: Field)
    requires WellFormed(ms) && m in ms && t in ms
    ensures var bs := AllMissing(naming, ms, ms);
            x in Grown(m, bs).fields && Links(x, t.name, relation) <==>
            || (x in m.fields && Links(x, t.name, relation))
            || (exists h :: h in t.fields && Links(h, m.name, relation) && Missing(ms, t, h) && x == BackField(naming, t, h))
  {
    var bs, b := AllMissing(naming, ms, ms), BackRelation(m.name, x);
    ListedAll(naming, ms, ms, b);
    ModelFound(ms, t);
    if b in bs && Links(x, t.name, relation) {
      var u :| u in ms && AddedBy(naming, ms, u, b);
      var h :| h in u.fields && Adds(naming, ms, u, h, b);
      ModelFound(ms, u);
      assert u == t;
    }
    if h :| h in t.fields && Links(h, m.name, relation) && Missing(ms, t, h) && x == BackField(naming, t, h) {
      assert Adds(naming, ms, t, h, b);
      assert AddedBy(naming, ms, t, b);
    }
  }

  lemma {:induction false} AddedIsNew(ms: Datamodel, bs: seq<BackRelation>, n: Name, f: Field, g: Field)
    requires ModelsDistinct(ms) && AddBackRelations(ms, bs).Some? && BackRelation(n, g) in bs
    requires FindModel(ms, n).Some? && f in FindModel(ms, n).value.fields
    ensures f.name != g.name
    decreases |bs|
  {
    var b := bs[0];
    if b != BackRelation(n, g) {
      AddedModel(ms, b.model, b.field, n);
      AddedIsNew(AddTo(ms, b.model, b.field), bs[1..], n, f, g);
    }
  }

  // ----- every field is paired -----

  lemma {:induction false} PairOfOld(naming: Naming, ms: Datamodel, m: Model, t: Model, f: Field) returns (g: Field)
    requires WellFormed(ms) && Validated(ms) && m in ms && t in ms && m.name != t.name
    requires f in m.fields && f.fieldType.Relation? && f.fieldType.to == t.name
    ensures var bs := AllMissing(naming, ms, ms);
            g in Grown(t, bs).fields && OnlyOpposites(Grown(m, bs), f, Grown(t, bs), g)
  {
    var bs, r := AllMissing(naming, ms, ms), f.fieldType.relation;
    MissingIff(ms, m, t, f);
    if Missing(ms, m, f) {
      g := BackField(naming, m, f);
    } else {
      g :| g in t.fields && Links(g, m.name, r);
    }
    GrownFields(naming, ms, t, m, r, g);
    forall x | x in Grown(t, bs).fields && Links(x, m.name, r) ensures x == g {
      GrownFields(naming, ms, t, m, r, x);
      if x in t.fields {
        OneOfRelation(ms, t, m.name, r, x, g);
      } else {
        var h :| h in m.fields && Links(h, t.name, r) && Missing(ms, m, h) && x == BackField(naming, m, h);
        OneOfRelation(ms, m, t.name, r, h, f);
      }
    }
    forall x | x in Grown(m, bs).fields && Links(x, t.name, r) ensures x == f {
      GrownFields(naming, ms, m, t, r, x);
      if x in m.fields {
        OneOfRelation(ms, m, t.name, r, x, f);
      } else {
        var h :| h in t.fields && Links(h, m.name, r) && Missing(ms, t, h) && x == BackField(naming, t, h);
        MissingIff(ms, t, m, h);
      }
    }
  }

  lemma {:induction false} OneOfRelation(ms: Datamodel, m: Model, to: Name, relation: Name, a: Field, b: Field)
    requires Validated(ms) && m in ms && to != m.name && a in m.fields && Links(a, to, relation)
    ensures b in m.fields && Links(b, to, relation) ==> a == b
  {
    if b in m.fields && Links(b, to, relation) {
      UnambiguousMeans(m, to, relation, a, b, b);
    }
  }

  lemma {:induction false} PairOfNew(naming: Naming, ms: Datamodel, m: Model, t: Model, h: Field)
    requires WellFormed(ms) && Validated(ms) && m in ms && t in ms && m.name != t.name
    requires h in t.fields && h.fieldType.Relation? && h.fieldType.to == m.name && Missing(ms, t, h)
    ensures var bs, f := AllMissing(naming, ms, ms), BackField(naming, t, h);
            h in Grown(t, bs).fields && OnlyOpposites(Grown(m, bs), f, Grown(t, bs), h)
  {
    var bs, f, r := AllMissing(naming, ms, ms), BackField(naming, t, h), h.fieldType.relation;
    MissingIff(ms, t, m, h);
    GrownFields(naming, ms, t, m, r, h);
    forall x | x in Grown(t, bs).fields && Links(x, m.name, r) ensures x == h {
      GrownFields(naming, ms, t, m, r, x);
      OneOfRelation(ms, t, m.name, r, h, x);
    }
    forall x | x in Grown(m, bs).fields && Links(x, t.name, r) ensures x == f {
      GrownFields(naming, ms, m, t, r, x);
      var k :| k in t.fields && Links(k, m.name, r) && Missing(ms, t, k) && x == BackField(naming, t, k);
      OneOfRelation(ms, t, m.name, r, h, k);
    }
  }

  /** Self relations: a single field gets an opposite, two fields are each other's. */
  lemma {:induction false} PairOfSelf(naming: Naming, ms: Datamodel, m: Model, f: Field) returns (g: Field)
    requires WellFormed(ms) && Validated(ms) && m in ms && AddMissingBackRelations(naming, ms).Some?
    requires f in m.fields && f.fieldType.Relation? && f.fieldType.to == m.name
    ensures var bs := AllMissing(naming, ms, ms);
            && g in Grown(m, bs).fields && OnlyOpposites(Grown(m, bs), f, Grown(m, bs), g)
            && (Missing(ms, m, f) ==> g == BackField(naming, m, f) && OnlyOpposites(Grown(m, bs), g, Grown(m, bs), f))
  {
    var bs, r := AllMissing(naming, ms, ms), f.fieldType.relation;
    MissingIff(ms, m, m, f);
    if Missing(ms, m, f) {
      g := BackField(naming, m, f);
      GrownFields(naming, ms, m, m, r, g);
      BackFieldListed(naming, ms, m, f);
      ModelFound(ms, m);
      AddedIsNew(ms, bs, m.name, f, g);
    } else {
      g :| g in m.fields && Links(g, m.name, r) && g.name != f.name;
    }
    forall x | x in Grown(m, bs).fields && Links(x, m.name, r) ensures x == g || x == f {
      GrownFields(naming, ms, m, m, r, x);
      SelfField(naming, ms, m, f, g, x);
    }
  }

  lemma {:induction false} BackFieldListed(naming: Naming, ms: Datamodel, m: Model, f: Field)
    requires m in ms && f in m.fields && Missing(ms, m, f)
    ensures BackRelation(f.fieldType.to, BackField(naming, m, f)) in AllMissing(naming, ms, ms)
  {
    var b := BackRelation(f.fieldType.to, BackField(naming, m, f));
    assert Adds(naming, ms, m, f, b);
    assert AddedBy(naming, ms, m, b);
    ListedAll(naming, ms, ms, b);
  }

  lemma {:induction false} SelfField(naming: Naming, ms: Datamodel, m: Model, f: Field, g: Field, x: Field)
    requires WellFormed(ms) && Validated(ms) && m in ms && f in m.fields
    requires f.fieldType.Relation? && f.fieldType.to == m.name
    requires if Missing(ms, m, f) then g == BackField(naming, m, f)
             else g in m.fields && Links(g, m.name, f.fieldType.relation) && g.name != f.name
    requires var r := f.fieldType.relation;
             || (x in m.fields && Links(x, m.name, r))
             || (exists h :: h in m.fields && Links(h, m.name, r) && Missing(ms, m, h) && x == BackField(naming, m, h))
    ensures x == g || x == f
  {
    var r := f.fieldType.relation;
    MissingIff(ms, m, m, f);
    if x in m.fields && Links(x, m.name, r) {
      if Missing(ms, m, f) {
        FieldFound(m.fields, x);
        FieldFound(m.fields, f);
      } else {
        UnambiguousMeans(m, m.name, r, f, g, x);
      }
    } else {
      var h :| h in m.fields && Links(h, m.name, r) && Missing(ms, m, h) && x == BackField(naming, m, h);
      MissingIff(ms, m, m, h);
      FieldFound(m.fields, h);
      FieldFound(m.fields, f);
    }
  }

  // ----- the theorem -----

  lemma {:induction false} FieldIsPaired(naming: Naming, ms: Datamodel, n: Name, f: Field)
    requires WellFormed(ms) && Validated(ms) && AddMissingBackRelations(naming, ms).Some?
    requires var m := FindModel(AddMissingBackRelations(naming, ms).value, n);
             m.Some? && f in m.value.fields && f.fieldType.Relation?
    ensures var r := AddMissingBackRelations(naming, ms).value; PairedField(r, FindModel(r, n).value, f)
  {
    var bs, r := AllMissing(naming, ms, ms), AddMissingBackRelations(naming, ms).value;
    AllAdded(ms, bs, n);
    AllAdded(ms, bs, f.fieldType.to);
    var m := FindModel(ms, n).value;
    if f in m.fields {
      var t := FindModel(ms, f.fieldType.to).value;
      var g;
      if m.name == t.name {
        ModelFound(ms, m);
        g := PairOfSelf(naming, ms, m, f);
      } else {
        g := PairOfOld(naming, ms, m, t, f);
      }
    } else {
      var b := BackRelation(n, f);
      ListedAll(naming, ms, ms, b);
      var t :| t in ms && AddedBy(naming, ms, t, b);
      var h :| h in t.fields && Adds(naming, ms, t, h, b);
      ModelFound(ms, t);
      ModelFound(ms, m);
      if m.name == t.name {
        var g := PairOfSelf(naming, ms, t, h);
        GrownFields(naming, ms, t, t, h.fieldType.relation, h);
      } else {
        PairOfNew(naming, ms, m, t, h);
      }
    }
  }

  lemma {:induction false} StillWellFormed(naming: Naming, ms: Datamodel)
    requires WellFormed(ms) && AddMissingBackRelations(naming, ms).Some?
    ensures WellFormed(AddMissingBackRelations(naming, ms).value)
  {
    var bs, r := AllMissing(naming, ms, ms), AddMissingBackRelations(naming, ms).value;
    AllAdded(ms, bs, "");
    forall m | m in r ensures FieldsDistinct(m.fields) {
      ModelFound(r, m);
      AllAdded(ms, bs, m.name);
      AddedDistinct(ms, bs, m.name);
    }
    forall m, f | m in r && f in m.fields && f.fieldType.Relation? ensures FindModel(r, f.fieldType.to).Some? {
      ModelFound(r, m);
      AllAdded(ms, bs, m.name);
      AllAdded(ms, bs, f.fieldType.to);
      if f !in FindModel(ms, m.name).value.fields {
        var b := BackRelation(m.name, f);
        ListedAll(naming, ms, ms, b);
        var t :| t in ms && AddedBy(naming, ms, t, b);
      }
    }
  }

  // ----- when no name is taken -----

  /** The field added opposite to `f`, and the model it goes to. */
  function Addition(naming: Naming, m: Model, f: Field): BackRelation
    requires f.fieldType.Relation?
  {
    BackRelation(f.fieldType.to, BackField(naming, m, f))
  }

  predicate Collide(b: BackRelation, c: BackRelation) {
    b.model == c.model && b.field.name == c.field.name
  }

  /** The model is there, and has no field of the name. */
  predicate NewIn(ms: Datamodel, b: BackRelation) {
    var t := FindModel(ms, b.model);
    t.Some? && FindField(t.value.fields, b.field.name).None?
  }

  ghost predicate FreeIn(ms: Datamodel, bs: seq<BackRelation>) {
    bs != [] ==> NewIn(ms, bs[0]) && (forall c :: c in bs[1..] ==> !Collide(bs[0], c)) && FreeIn(ms, bs[1..])
  }

  lemma {:induction false} NewAfter(ms: Datamodel, b: BackRelation, c: BackRelation)
    ensures NewIn(AddTo(ms, b.model, b.field), c) <==> NewIn(ms, c) && !Collide(b, c)
  {
    AddedModel(ms, b.model, b.field, c.model);
    var t := FindModel(ms, c.model);
    if t.Some? && b.model == c.model {
      var fs := t.value.fields + [b.field];
      assert forall f :: f in fs <==> f in t.value.fields || f == b.field;
      assert FindField(fs, c.field.name).None? <==> FindField(t.value.fields, c.field.name).None? && b.field.name != c.field.name;
    }
  }

  lemma {:induction false} FreeAfter(ms: Datamodel, b: BackRelation, bs: seq<BackRelation>)
    ensures FreeIn(AddTo(ms, b.model, b.field), bs) <==> FreeIn(ms, bs) && forall c :: c in bs ==> !Collide(b, c)
  {
    if bs != [] {
      NewAfter(ms, b, bs[0]);
      FreeAfter(ms, b, bs[1..]);
      assert forall c :: c in bs <==> c == bs[0] || c in bs[1..];
    }
  }

  /** The loop reports no conflict exactly if every name is free beforehand, and none is needed twice. */
  lemma {:induction false} AddedIffFree(ms: Datamodel, bs: seq<BackRelation>)
    ensures AddBackRelations(ms, bs).Some? <==> FreeIn(ms, bs)
    decreases |bs|
  {
    if bs != [] && NewIn(ms, bs[0]) {
      AddedIffFree(AddTo(ms, bs[0].model, bs[0].field), bs[1..]);
      FreeAfter(ms, bs[0], bs[1..]);
    }
  }

  lemma {:induction false} FreeConcat(ms: Datamodel, xs: seq<BackRelation>, ys: seq<BackRelation>)
    ensures FreeIn(ms, xs + ys) <==>
            FreeIn(ms, xs) && FreeIn(ms, ys) && forall b, c :: b in xs && c in ys ==> !Collide(b, c)
  {
    if xs == [] {
      assert xs + ys == ys;
    } else {
      assert (xs + ys)[0] == xs[0] && (xs + ys)[1..] == xs[1..] + ys;
      FreeConcat(ms, xs[1..], ys);
      assert forall b :: b in xs <==> b == xs[0] || b in xs[1..];
      assert forall c :: c in xs[1..] + ys <==> c in xs[1..] || c in ys;
    }
  }

  /** What the fields of two models add does not collide. */
  ghost predicate Apart(naming: Naming, ms: Datamodel, m: Model, f: Field, n: Model, h: Field) {
    Missing(ms, m, f) && Missing(ms, n, h) ==> !Collide(Addition(naming, m, f), Addition(naming, n, h))
  }

  ghost predicate AddsNew(naming: Naming, ms: Datamodel, m: Model, f: Field) {
    Missing(ms, m, f) ==> NewIn(ms, Addition(naming, m, f))
  }

  ghost predicate FieldsFree(naming: Naming, ms: Datamodel, m: Model, fs: seq<Field>) {
    && (forall f :: f in fs ==> AddsNew(naming, ms, m, f))
    && (forall f, h :: f in fs && h in fs && f != h ==> Apart(naming, ms, m, f, m, h))
  }

  lemma {:induction false} CollidesWithMissing(naming: Naming, ms: Datamodel, m: Model, fs: seq<Field>, b: BackRelation)
    ensures (forall c :: c in MissingIn(naming, ms, m, fs) ==> !Collide(b, c)) <==>
            forall h :: h in fs && Missing(ms, m, h) ==> !Collide(b, Addition(naming, m, h))
  {
    if fs != [] {
      CollidesWithMissing(naming, ms, m, fs[1..], b);
      assert forall h :: h in fs <==> h == fs[0] || h in fs[1..];
    }
  }

  lemma {:induction false} ApartSymmetric(naming: Naming, ms: Datamodel, m: Model, f: Field, n: Model, h: Field)
    ensures Apart(naming, ms, m, f, n, h) <==> Apart(naming, ms, n, h, m, f)
  {
  }

  lemma {:induction false} FieldsFreeSplit(naming: Naming, ms: Datamodel, m: Model, fs: seq<Field>)
    requires fs != [] && fs[0] !in fs[1..]
    ensures FieldsFree(naming, ms, m, fs) <==>
            && AddsNew(naming, ms, m, fs[0]) && FieldsFree(naming, ms, m, fs[1..])
            && forall h :: h in fs[1..] ==> Apart(naming, ms, m, fs[0], m, h)
  {
    assert forall h :: h in fs <==> h == fs[0] || h in fs[1..];
    if forall h :: h in fs[1..] ==> Apart(naming, ms, m, fs[0], m, h) {
      forall h | h in fs[1..] ensures Apart(naming, ms, m, h, m, fs[0]) {
        ApartSymmetric(naming, ms, m, fs[0], m, h);
      }
    }
    hide Apart, AddsNew;
  }

  lemma {:induction false} FreeOfFields(naming: Naming, ms: Datamodel, m: Model, fs: seq<Field>)
    requires FieldsDistinct(fs)
    ensures FreeIn(ms, MissingIn(naming, ms, m, fs)) <==> FieldsFree(naming, ms, m, fs)
  {
    if fs != [] {
      var f, rest := fs[0], MissingIn(naming, ms, m, fs[1..]);
      FreeOfFields(naming, ms, m, fs[1..]);
      FieldsFreeSplit(naming, ms, m, fs);
      hide FieldsFree, FieldsDistinct, Collide, NewIn;
      if Missing(ms, m, f) {
        var b := Addition(naming, m, f);
        CollidesWithMissing(naming, ms, m, fs[1..], b);
        assert MissingIn(naming, ms, m, fs) == [b] + rest && ([b] + rest)[1..] == rest;
        assert (forall h :: h in fs[1..] ==> Apart(naming, ms, m, f, m, h)) <==> forall c :: c in rest ==> !Collide(b, c);
      }
    }
  }

  /** The fields of `m` and those of all other models. */
  ghost predicate ApartFrom(naming: Naming, ms: Datamodel, m: Model, rest: Datamodel) {
    forall f, n, h :: f in m.fields && n in rest && h in n.fields ==> Apart(naming, ms, m, f, n, h)
  }

  ghost predicate ModelsFree(naming: Naming, ms: Datamodel, rest: Datamodel) {
    && (forall m :: m in rest ==> FieldsFree(naming, ms, m, m.fields))
    && (forall m, f, n, h :: m in rest && f in m.fields && n in rest && h in n.fields && m != n ==>
          Apart(naming, ms, m, f, n, h))
  }

  /** No name of an added field is taken, by a field of the model or by another added one. */
  ghost predicate NamesFree(naming: Naming, ms: Datamodel) {
    ModelsFree(naming, ms, ms)
  }

  lemma {:induction false} ApartFromRest(naming: Naming, ms: Datamodel, m: Model, rest: Datamodel)
    ensures ApartFrom(naming, ms, m, rest) <==>
            forall b, c :: b in MissingIn(naming, ms, m, m.fields) && c in AllMissing(naming, ms, rest) ==> !Collide(b, c)
  {
    var xs, ys := MissingIn(naming, ms, m, m.fields), AllMissing(naming, ms, rest);
    if ApartFrom(naming, ms, m, rest) {
      forall b, c | b in xs && c in ys ensures !Collide(b, c) {
        ListedMissing(naming, ms, m, m.fields, b);
        ListedAll(naming, ms, rest, c);
        var f :| f in m.fields && Adds(naming, ms, m, f, b);
        var n :| n in rest && AddedBy(naming, ms, n, c);
        var h :| h in n.fields && Adds(naming, ms, n, h, c);
        assert Apart(naming, ms, m, f, n, h);
      }
    }
    if forall b, c :: b in xs && c in ys ==> !Collide(b, c) {
      forall f, n, h | f in m.fields && n in rest && h in n.fields ensures Apart(naming, ms, m, f, n, h) {
        if Missing(ms, m, f) && Missing(ms, n, h) {
          var b, c := Addition(naming, m, f), Addition(naming, n, h);
          ListedMissing(naming, ms, m, m.fields, b);
          ListedAll(naming, ms, rest, c);
          assert Adds(naming, ms, m, f, b) && Adds(naming, ms, n, h, c) && AddedBy(naming, ms, n, c);
        }
      }
    }
  }

  lemma {:induction false} FreeOfModels(naming: Naming, ms: Datamodel, rest: Datamodel)
    requires ModelsDistinct(rest) && forall m :: m in rest ==> FieldsDistinct(m.fields)
    ensures FreeIn(ms, AllMissing(naming, ms, rest)) <==> ModelsFree(naming, ms, rest)
  {
    if rest != [] {
      var m, others := rest[0], rest[1..];
      assert m in rest && forall n :: n in rest <==> n == m || n in others;
      assert m !in others;
      FreeOfFields(naming, ms, m, m.fields);
      FreeOfModels(naming, ms, others);
      ApartFromRest(naming, ms, m, others);
      FreeConcat(ms, MissingIn(naming, ms, m, m.fields), AllMissing(naming, ms, others));
      hide FreeIn, FieldsFree, MissingIn, Apart;
      ModelsFreeSplit(naming, ms, rest);
    }
  }

  lemma {:induction false} ModelsFreeSplit(naming: Naming, ms: Datamodel, rest: Datamodel)
    requires rest != [] && rest[0] !in rest[1..]
    ensures ModelsFree(naming, ms, rest) <==>
            && FieldsFree(naming, ms, rest[0], rest[0].fields) && ModelsFree(naming, ms, rest[1..])
            && ApartFrom(naming, ms, rest[0], rest[1..])
  {
    assert forall n :: n in rest <==> n == rest[0] || n in rest[1..];
    if ApartFrom(naming, ms, rest[0], rest[1..]) {
      forall m, f, h | m in rest[1..] && f in m.fields && h in rest[0].fields ensures Apart(naming, ms, m, f, rest[0], h) {
        ApartSymmetric(naming, ms, m, f, rest[0], h);
      }
    }
    hide Apart, FieldsFree;
  }

  /** Adding the missing fields fails exactly on a naming conflict. */
  lemma {:induction false} AddingSucceedsIff(naming: Naming, ms: Datamodel)
    requires WellFormed(ms)
    ensures AddMissingBackRelations(naming, ms).Some? <==> NamesFree(naming, ms)
  {
    AddedIffFree(ms, AllMissing(naming, ms, ms));
    FreeOfModels(naming, ms, ms);
  }

  /**
    On a validated datamodel the missing fields can be added unless a name is
    taken, and then all relation fields are paired.
   */
  lemma {:induction false} BackRelationsPair(naming: Naming, ms: Datamodel)
    requires WellFormed(ms) && Validated(ms)
    ensures var r := AddMissingBackRelations(naming, ms);
            && (r.Some? <==> NamesFree(naming, ms))
            && (r.Some? ==> WellFormed(r.value) && Paired(r.value))
  {
    AddingSucceedsIff(naming, ms);
    hide NamesFree;
    if AddMissingBackRelations(naming, ms).Some? {
      var r := AddMissingBackRelations(naming, ms).value;
      StillWellFormed(naming, ms);
      hide AddMissingBackRelations;
      forall m, f | m in r && f in m.fields && f.fieldType.Relation? ensures PairedField(r, m, f) {
        ModelFound(r, m);
        FieldIsPaired(naming, ms, m.name, f);
      }
    }
  }

  // ----- the opposite that a field has in the end -----

  function Counterpart(naming: Naming, ms: Datamodel, m: Model, f: Field): (r: Field)
    requires f.fieldType.Relation?
    ensures r.fieldType.Relation?
  {
    var g := Opposite(ms, m, f);
    if g.Some? then g.value else BackField(naming, m, f)
  }

  lemma {:induction false} OppositeGrown(naming: Naming, ms: Datamodel, m: Model, f: Field)
    requires WellFormed(ms) && Validated(ms) && NamesFree(naming, ms)
    requires m in ms && f in m.fields && f.fieldType.Relation?
    ensures var r, bs := AddMissingBackRelations(naming, ms), AllMissing(naming, ms, ms);
            && r.Some? && Grown(m, bs) in r.value && f in Grown(m, bs).fields
            && FindModel(ms, f.fieldType.to).Some?
            && FindModel(r.value, f.fieldType.to) == Some(Grown(FindModel(ms, f.fieldType.to).value, bs))
            && Opposite(r.value, Grown(m, bs), f) == Some(Counterpart(naming, ms, m, f))
  {
    BackRelationsPair(naming, ms);
    var bs, r := AllMissing(naming, ms, ms), AddMissingBackRelations(naming, ms).value;
    ModelFound(ms, m);
    AllAdded(ms, bs, m.name);
    AllAdded(ms, bs, f.fieldType.to);
    var t, m' := FindModel(ms, f.fieldType.to).value, Grown(m, bs);
    var t', g := Grown(t, bs), Counterpart(naming, ms, m, f);
    CounterpartAdded(naming, ms, m, f, t);
    assert PairedField(r, m', f);
    var h :| h in t'.fields && OnlyOpposites(m', f, t', h);
    FoundIs(t', m.name, f.fieldType.relation, f.name, g);
  }

  lemma {:induction false} CounterpartAdded(naming: Naming, ms: Datamodel, m: Model, f: Field, t: Model)
    requires WellFormed(ms) && AddMissingBackRelations(naming, ms).Some?
    requires m in ms && t in ms && f in m.fields && f.fieldType.Relation? && f.fieldType.to == t.name
    ensures var g := Counterpart(naming, ms, m, f);
            && g in Grown(t, AllMissing(naming, ms, ms)).fields && Links(g, m.name, f.fieldType.relation)
            && (m.name == t.name ==> g.name != f.name)
  {
    ModelFound(ms, t);
    ModelFound(ms, m);
    if Missing(ms, m, f) {
      BackFieldListed(naming, ms, m, f);
      if m.name == t.name {
        AddedIsNew(ms, AllMissing(naming, ms, ms), m.name, f, BackField(naming, m, f));
      }
    }
  }

  // ----- what is added, and opposite to what -----

  /**
    An opposite made for `f` of the model `m`: a list if `f` is none, and else
    optional; generated, without reference, and named after the model.
   */
  ghost predicate MadeFor(naming: Naming, m: Model, f: Field, g: Field)
    requires f.fieldType.Relation?
  {
    && (f.arity.List? ==> g.arity.Optional? && g.name == naming(m.name, false))
    && (!f.arity.List? ==> g.arity.List? && g.name == naming(m.name, true))
    && g.fieldType == Relation(m.name, [], f.fieldType.relation)
    && g.isGenerated && !g.isId && g.databaseName.None?
  }

  /** Made for a field of this model's relations that had no opposite. */
  ghost predicate MadeForSome(naming: Naming, ms: Datamodel, t: Model, g: Field) {
    exists m, f ::
      && m in ms && f in m.fields && f.fieldType.Relation? && f.fieldType.to == t.name
      && Opposite(ms, m, f).None? && MadeFor(naming, m, f, g)
  }

  /** Every model keeps its fields and ids, and gets none but opposites that were missing. */
  lemma {:induction false} OnlyOppositesAdded(naming: Naming, ms: Datamodel, t: Model)
    requires WellFormed(ms) && AddMissingBackRelations(naming, ms).Some? && t in ms
    ensures var t' := FindModel(AddMissingBackRelations(naming, ms).value, t.name);
            && t'.Some? && t'.value.idFields == t.idFields && t.fields <= t'.value.fields
            && forall k :: |t.fields| <= k < |t'.value.fields| ==> MadeForSome(naming, ms, t, t'.value.fields[k])
  {
    var bs, r := AllMissing(naming, ms, ms), AddMissingBackRelations(naming, ms).value;
    ModelFound(ms, t);
    AllAdded(ms, bs, t.name);
    assert FindModel(r, t.name) == Some(Grown(t, bs));
    hide AllMissing, AddBackRelations, AddMissingBackRelations, WellFormed, Opposite, MadeForSome, FindModel;
    forall k | |t.fields| <= k < |Grown(t, bs).fields| ensures MadeForSome(naming, ms, t, Grown(t, bs).fields[k]) {
      GrownBeyond(t, bs, k);
      AddedIsMade(naming, ms, t, Grown(t, bs).fields[k]);
    }
  }

  lemma {:induction false} GrownBeyond(t: Model, bs: seq<BackRelation>, k: nat)
    requires |t.fields| <= k < |Grown(t, bs).fields|
    ensures BackRelation(t.name, Grown(t, bs).fields[k]) in bs
  {
    var added := FieldsFor(t.name, bs);
    assert Grown(t, bs).fields[k] == added[k - |t.fields|] && added[k - |t.fields|] in added;
  }

  lemma {:induction false} AddedIsMade(naming: Naming, ms: Datamodel, t: Model, g: Field)
    requires BackRelation(t.name, g) in AllMissing(naming, ms, ms)
    ensures MadeForSome(naming, ms, t, g)
  {
    var b := BackRelation(t.name, g);
    ListedAll(naming, ms, ms, b);
    hide AllMissing;
    var m :| m in ms && AddedBy(naming, ms, m, b);
    var f :| f in m.fields && Adds(naming, ms, m, f, b);
    hide Opposite;
    assert MadeFor(naming, m, f, g);
  }

  /** After the additions, a relation field keeps its opposite, or has one that was made for it. */
  lemma {:induction false} OppositeIsKeptOrMade(naming: Naming, ms: Datamodel, m: Model, f: Field)
    requires WellFormed(ms) && Validated(ms) && AddMissingBackRelations(naming, ms).Some?
    requires m in ms && f in m.fields && f.fieldType.Relation?
    ensures var r := AddMissingBackRelations(naming, ms).value;
            var m' := FindModel(r, m.name);
            && m'.Some? && f in m'.value.fields
            && var was, now := Opposite(ms, m, f), Opposite(r, m'.value, f);
               if was.Some? then now == was else now.Some? && MadeFor(naming, m, f, now.value)
  {
    hide WellFormed, Validated, NamesFree, Opposite, Paired, AllMissing, AddBackRelations;
    BackRelationsPair(naming, ms);
    OppositeGrown(naming, ms, m, f);
    GrownIsFound(naming, ms, m);
    CounterpartIs(naming, ms, m, f);
  }

  lemma {:induction false} GrownIsFound(naming: Naming, ms: Datamodel, m: Model)
    requires WellFormed(ms) && AddMissingBackRelations(naming, ms).Some? && m in ms
    ensures FindModel(AddMissingBackRelations(naming, ms).value, m.name) == Some(Grown(m, AllMissing(naming, ms, ms)))
  {
    ModelFound(ms, m);
    AllAdded(ms, AllMissing(naming, ms, ms), m.name);
  }

  lemma {:induction false} CounterpartIs(naming: Naming, ms: Datamodel, m: Model, f: Field)
    requires f.fieldType.Relation?
    ensures var was, now := Opposite(ms, m, f), Counterpart(naming, ms, m, f);
            if was.Some? then now == was.value else MadeFor(naming, m, f, now)
  {
    hide Opposite;
  }
}
