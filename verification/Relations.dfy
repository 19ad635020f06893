/**
  Relation fields of a datamodel: the pairing of opposite fields, the check that
  it is unambiguous, and the fields that are added so that it is complete.
 */
module Relations {
  import opened Wrappers
  import opened Names

  datatype Arity = Required | Optional | List

  datatype FieldType = Relation(to: Name, toFields: seq<Name>, relation: Name) | Other(tpe: string)

  datatype Field = Field(
    name: Name, arity: Arity, fieldType: FieldType, databaseName: Option<Name>, isId: bool, isGenerated: bool)

  datatype Model = Model(name: Name, fields: seq<Field>, idFields: seq<Name>)

  type Datamodel = seq<Model>

  // ----- lookups -----

  function FindModel(ms: Datamodel, n: Name): (r: Option<Model>)
    ensures r.Some? ==> r.value in ms && r.value.name == n
    ensures r.None? ==> forall m :: m in ms ==> m.name != n
  {
    if ms == [] then None else if ms[0].name == n then Some(ms[0]) else FindModel(ms[1..], n)
  }

  function FindField(fs: seq<Field>, n: Name): (r: Option<Field>)
    ensures r.Some? ==> r.value in fs && r.value.name == n
    ensures r.None? ==> forall f :: f in fs ==> f.name != n
  {
    if fs == [] then None else if fs[0].name == n then Some(fs[0]) else FindField(fs[1..], n)
  }

  ghost predicate ModelsDistinct(ms: Datamodel) {
    ms != [] ==> FindModel(ms[1..], ms[0].name).None? && ModelsDistinct(ms[1..])
  }

  ghost predicate FieldsDistinct(fs: seq<Field>) {
    fs != [] ==> FindField(fs[1..], fs[0].name).None? && FieldsDistinct(fs[1..])
  }

  lemma {:induction false} ModelFound(ms: Datamodel, m: Model)
    requires ModelsDistinct(ms) && m in ms
    ensures FindModel(ms, m.name) == Some(m)
  {
    if ms[0] != m {
      ModelFound(ms[1..], m);
    }
  }

  lemma {:induction false} FieldFound(fs: seq<Field>, f: Field)
    requires FieldsDistinct(fs) && f in fs
    ensures FindField(fs, f.name) == Some(f)
  {
    if fs[0] != f {
      FieldFound(fs[1..], f);
    }
  }

  // ----- related fields -----

  /** Whether a field belongs to a relation of the given name to the given model. */
  predicate Links(f: Field, to: Name, relation: Name) {
    f.fieldType.Relation? && f.fieldType.to == to && f.fieldType.relation == relation
  }

  /** The first field of a model that could be at the other end of a relation field. */
  function RelatedIn(fs: seq<Field>, own: Name, to: Name, relation: Name, exclude: Name): (r: Option<Field>)
    ensures r.Some? ==> r.value in fs && Links(r.value, to, relation) && (own != to || r.value.name != exclude)
    ensures r.None? ==> forall f :: f in fs && Links(f, to, relation) ==> own == to && f.name == exclude
  {
    if fs == [] then None
    else if Links(fs[0], to, relation) && (own != to || fs[0].name != exclude) then Some(fs[0])
    else RelatedIn(fs[1..], own, to, relation, exclude)
  }

  function RelatedField(m: Model, to: Name, relation: Name, exclude: Name): Option<Field> {
    RelatedIn(m.fields, m.name, to, relation, exclude)
  }

  /** The field at the other end of a relation field. */
  function Opposite(ms: Datamodel, m: Model, f: Field): Option<Field>
    requires f.fieldType.Relation?
  {
    var t :- FindModel(ms, f.fieldType.to);
    RelatedField(t, m.name, f.fieldType.relation, f.name)
  }

  // ----- the check that relations are unambiguous -----

  predicate ThirdOfRelation(m: Model, a: Field, b: Field, c: Field) {
    && c != a && c != b && c.fieldType.Relation? && a.fieldType.Relation? && b.fieldType.Relation?
    && c.fieldType.to == m.name
    && a.fieldType.relation == b.fieldType.relation && a.fieldType.relation == c.fieldType.relation
  }

  predicate Ambiguous(m: Model, a: Field, b: Field) {
    && a != b && a.fieldType.Relation? && b.fieldType.Relation?
    && if a.fieldType.to != m.name && b.fieldType.to != m.name then
         a.fieldType.to == b.fieldType.to && a.fieldType.relation == b.fieldType.relation
       else
         && a.fieldType.to == m.name && b.fieldType.to == m.name
         && ((exists c :: c in m.fields && ThirdOfRelation(m, a, b, c))
             || (a.fieldType.relation == "" && b.fieldType.relation == ""))
  }

  predicate Unambiguous(m: Model) {
    forall a, b :: a in m.fields && b in m.fields ==> !Ambiguous(m, a, b)
  }

  method ValidateRelationsNotAmbiguous(m: Model) returns (ok: bool)
    ensures ok <==> Unambiguous(m)
  {
    for i := 0 to |m.fields|
      invariant forall k, b :: 0 <= k < i && b in m.fields ==> !Ambiguous(m, m.fields[k], b)
    {
      var a := m.fields[i];
      for j := 0 to |m.fields|
        invariant forall k :: 0 <= k < j ==> !Ambiguous(m, a, m.fields[k])
      {
        var b := m.fields[j];
        if a != b && a.fieldType.Relation? && b.fieldType.Relation? {
          if a.fieldType.to != m.name && b.fieldType.to != m.name {
            if a.fieldType.to == b.fieldType.to && a.fieldType.relation == b.fieldType.relation {
              assert Ambiguous(m, a, b);
              return false;
            }
          } else if a.fieldType.to == m.name && b.fieldType.to == m.name {
            for k := 0 to |m.fields|
              invariant forall l :: 0 <= l < k ==> !ThirdOfRelation(m, a, b, m.fields[l])
            {
              if ThirdOfRelation(m, a, b, m.fields[k]) {
                assert m.fields[k] in m.fields;
                assert Ambiguous(m, a, b);
                return false;
              }
            }
            if a.fieldType.relation == "" && b.fieldType.relation == "" {
              assert Ambiguous(m, a, b);
              return false;
            }
          }
        }
      }
    }
    ok := true;
  }

  /** What the check says of the fields of one relation. */
  lemma {:induction false} UnambiguousMeans(m: Model, to: Name, relation: Name, a: Field, b: Field, c: Field)
    requires Unambiguous(m) && a in m.fields && b in m.fields && c in m.fields
    requires Links(a, to, relation) && Links(b, to, relation) && Links(c, to, relation)
    ensures to != m.name || relation == "" ==> a == b
    ensures a == b || a == c || b == c
  {
    assert !Ambiguous(m, a, b);
  }

  // ----- well-formed datamodels -----

  /** Unique names, and relations that lead to models. */
  ghost predicate WellFormed(ms: Datamodel) {
    && ModelsDistinct(ms)
    && (forall m :: m in ms ==> FieldsDistinct(m.fields))
    && (forall m, f :: m in ms && f in m.fields && f.fieldType.Relation? ==> FindModel(ms, f.fieldType.to).Some?)
  }

  ghost predicate Validated(ms: Datamodel) {
    forall m :: m in ms ==> Unambiguous(m)
  }

  /** Every relation field has exactly one opposite, whose only opposite it is. */
  ghost predicate Paired(ms: Datamodel) {
    forall m, f :: m in ms && f in m.fields && f.fieldType.Relation? ==> PairedField(ms, m, f)
  }

  ghost predicate PairedField(ms: Datamodel, m: Model, f: Field)
    requires f.fieldType.Relation?
  {
    var t := FindModel(ms, f.fieldType.to);
    && t.Some?
    && exists g :: g in t.value.fields && OnlyOpposites(m, f, t.value, g)
  }

  /** `f` and `g` are each other's opposites, and nothing else is. */
  ghost predicate OnlyOpposites(m: Model, f: Field, t: Model, g: Field)
    requires f.fieldType.Relation?
  {
    var relation := f.fieldType.relation;
    && f.fieldType.to == t.name && Links(g, m.name, relation) && (m.name == t.name ==> f.name != g.name)
    && (forall x :: x in t.fields && Links(x, m.name, relation) ==> x == g || (m.name == t.name && x == f))
    && (forall x :: x in m.fields && Links(x, t.name, relation) ==> x == f || (m.name == t.name && x == g))
  }

  /** The pairing makes the opposite total, and its own inverse. */
  lemma {:induction false} OppositeIsInvolution(ms: Datamodel, m: Model, f: Field)
    requires WellFormed(ms) && Paired(ms) && m in ms && f in m.fields && f.fieldType.Relation?
    ensures var t, g := FindModel(ms, f.fieldType.to), Opposite(ms, m, f);
            && t.Some? && g.Some? && g.value in t.value.fields && g.value.fieldType.Relation?
            && Opposite(ms, t.value, g.value) == Some(f)
            && g.value.fieldType.to == m.name && g.value.fieldType.relation == f.fieldType.relation
  {
    assert PairedField(ms, m, f);
    var t := FindModel(ms, f.fieldType.to).value;
    var g :| g in t.fields && OnlyOpposites(m, f, t, g);
    ModelFound(ms, m);
    var x := Opposite(ms, m, f);
    FoundIs(t, m.name, f.fieldType.relation, f.name, g);
    FoundIs(m, t.name, f.fieldType.relation, g.name, f);
  }

  /** The search finds what alone it can find. */
  lemma {:induction false} FoundIs(t: Model, to: Name, relation: Name, exclude: Name, g: Field)
    requires g in t.fields && Links(g, to, relation) && (t.name != to || g.name != exclude)
    requires forall x :: x in t.fields && Links(x, to, relation) && (t.name != to || x.name != exclude) ==> x == g
    ensures RelatedField(t, to, relation, exclude) == Some(g)
  {
    var r := RelatedField(t, to, relation, exclude);
    assert r.Some?;
  }

  // ----- small datamodels -----

  lemma {:induction false} OneField(f: Field)
    ensures FieldsDistinct([f])
  {
    assert [f][1..] == [];
  }

  lemma {:induction false} TwoFields(f: Field, g: Field)
    requires f.name != g.name
    ensures FieldsDistinct([f, g])
  {
    assert [f, g][1..] == [g] && [g][1..] == [];
  }

  lemma {:induction false} ThreeFields(f: Field, g: Field, h: Field)
    requires f.name != g.name && f.name != h.name && g.name != h.name
    ensures FieldsDistinct([f, g, h])
  {
    assert [f, g, h][1..] == [g, h];
    TwoFields(g, h);
  }

  lemma {:induction false} TwoModels(a: Model, b: Model)
    requires a.name != b.name
    ensures ModelsDistinct([a, b]) && FindModel([a, b], a.name) == Some(a) && FindModel([a, b], b.name) == Some(b)
  {
    assert [a, b][1..] == [b] && [b][1..] == [];
  }

  lemma {:induction false} ThreeModels(a: Model, b: Model, c: Model)
    requires a.name != b.name && a.name != c.name && b.name != c.name
    ensures ModelsDistinct([a, b, c])
    ensures FindModel([a, b, c], a.name) == Some(a) && FindModel([a, b, c], b.name) == Some(b)
    ensures FindModel([a, b, c], c.name) == Some(c)
  {
    assert [a, b, c][1..] == [b, c];
    TwoModels(b, c);
    assert FindModel([b, c], a.name).None?;
  }
}
