/**
  Standardisation, second part: on a datamodel whose relation fields are paired,
  the side that holds the reference is chosen, and unnamed relations are named.
 */
module Standardise {
  import opened Wrappers
  import opened Names
  import opened Relations
  import opened BackRelations

  // ----- changing all fields of a datamodel -----

  type Change = (Model, Field) -> Field

  function MapFields(m: Model, fs: seq<Field>, change: Change): (r: seq<Field>)
    ensures forall x :: x in r <==> exists f :: f in fs && x == change(m, f)
  {
    if fs == [] then []
    else
      var rest := MapFields(m, fs[1..], change);
      assert forall f :: f in fs <==> f == fs[0] || f in fs[1..];
      [change(m, fs[0])] + rest
  }

  function MapModel(m: Model, change: Change): Model {
    m.(fields := MapFields(m, m.fields, change))
  }

  function MapModels(ms: Datamodel, change: Change): Datamodel {
    if ms == [] then [] else [MapModel(ms[0], change)] + MapModels(ms[1..], change)
  }

  lemma {:induction false} MappedModel(ms: Datamodel, change: Change, n: Name)
    ensures FindModel(MapModels(ms, change), n) ==
            (var m := FindModel(ms, n); if m.Some? then Some(MapModel(m.value, change)) else None)
    ensures ModelsDistinct(ms) ==> ModelsDistinct(MapModels(ms, change))
  {
    if ms != [] {
      hide MapModel;
      MappedModel(ms[1..], change, n);
      MappedModel(ms[1..], change, ms[0].name);
      var rest := MapModels(ms[1..], change);
      assert ([MapModel(ms[0], change)] + rest)[1..] == rest;
      assert MapModel(ms[0], change).name == ms[0].name by { SameModelName(ms[0], change); }
    }
  }

  lemma {:induction false} SameModelName(m: Model, change: Change)
    ensures MapModel(m, change).name == m.name
  {
  }

  ghost predicate KeepsFieldNames(m: Model, fs: seq<Field>, change: Change) {
    forall f :: f in fs ==> change(m, f).name == f.name
  }

  lemma {:induction false} MappedField(m: Model, fs: seq<Field>, change: Change, n: Name)
    requires KeepsFieldNames(m, fs, change)
    ensures FindField(MapFields(m, fs, change), n) ==
            (var f := FindField(fs, n); if f.Some? then Some(change(m, f.value)) else None)
    ensures FieldsDistinct(fs) ==> FieldsDistinct(MapFields(m, fs, change))
  {
    if fs != [] {
      assert fs[0] in fs;
      MappedField(m, fs[1..], change, n);
      MappedField(m, fs[1..], change, fs[0].name);
      var rest := MapFields(m, fs[1..], change);
      assert ([change(m, fs[0])] + rest)[1..] == rest;
    }
  }

  // ----- changes that keep the pairing -----

  /** Names, targets and kinds stay. */
  ghost predicate KeepsShape(ms: Datamodel, change: Change) {
    forall m, f :: m in ms && f in m.fields ==>
      && change(m, f).name == f.name
      && (change(m, f).fieldType.Relation? <==> f.fieldType.Relation?)
      && (f.fieldType.Relation? ==> change(m, f).fieldType.to == f.fieldType.to)
  }

  /** Opposite fields get the same relation name. */
  ghost predicate SameForOpposites(ms: Datamodel, change: Change)
    requires KeepsShape(ms, change)
  {
    forall m, f, t, g :: m in ms && f in m.fields && t in ms && g in t.fields && f.fieldType.Relation?
                         && f.fieldType.to == t.name && Links(g, m.name, f.fieldType.relation) ==>
      change(t, g).fieldType.relation == change(m, f).fieldType.relation
  }

  /** Different relations to a model stay different. */
  ghost predicate KeepsApart(ms: Datamodel, change: Change)
    requires KeepsShape(ms, change)
  {
    forall m, f, x :: m in ms && f in m.fields && x in m.fields && f.fieldType.Relation? && x.fieldType.Relation?
                      && f.fieldType.to == x.fieldType.to
                      && change(m, f).fieldType.relation == change(m, x).fieldType.relation ==>
      f.fieldType.relation == x.fieldType.relation
  }

  lemma {:induction false} OppositesMapped(ms: Datamodel, change: Change, m: Model, f: Field, t: Model, g: Field)
    requires KeepsShape(ms, change) && SameForOpposites(ms, change) && KeepsApart(ms, change)
    requires m in ms && t in ms && (m.name == t.name ==> m == t) && f in m.fields && g in t.fields
    requires f.fieldType.Relation? && OnlyOpposites(m, f, t, g)
    ensures OnlyOpposites(MapModel(m, change), change(m, f), MapModel(t, change), change(t, g))
  {
    var f', g', m', t' := change(m, f), change(t, g), MapModel(m, change), MapModel(t, change);
    assert g'.fieldType.relation == f'.fieldType.relation;
    forall x' | x' in t'.fields && Links(x', m'.name, f'.fieldType.relation)
      ensures x' == g' || (m'.name == t'.name && x' == f')
    {
      var x :| x in t.fields && x' == change(t, x);
      assert x.fieldType.relation == g.fieldType.relation;
    }
    forall x' | x' in m'.fields && Links(x', t'.name, f'.fieldType.relation)
      ensures x' == f' || (m'.name == t'.name && x' == g')
    {
      var x :| x in m.fields && x' == change(m, x);
      assert x.fieldType.relation == f.fieldType.relation;
    }
  }

  lemma {:induction false} ShapeOfModel(ms: Datamodel, change: Change, m: Model)
    requires KeepsShape(ms, change) && m in ms
    ensures KeepsFieldNames(m, m.fields, change)
  {
  }

  lemma {:induction false} MapWellFormed(ms: Datamodel, change: Change)
    requires WellFormed(ms) && KeepsShape(ms, change)
    ensures WellFormed(MapModels(ms, change))
  {
    var r := MapModels(ms, change);
    MappedModel(ms, change, "");
    forall m' | m' in r ensures FieldsDistinct(m'.fields) {
      ModelFound(r, m');
      MappedModel(ms, change, m'.name);
      var m := FindModel(ms, m'.name).value;
      ShapeOfModel(ms, change, m);
      MappedField(m, m.fields, change, "");
    }
    forall m', x | m' in r && x in m'.fields && x.fieldType.Relation? ensures FindModel(r, x.fieldType.to).Some? {
      ModelFound(r, m');
      MappedModel(ms, change, m'.name);
      MappedModel(ms, change, x.fieldType.to);
      var m := FindModel(ms, m'.name).value;
      var f :| f in m.fields && x == change(m, f);
    }
  }

  /** Such a change keeps all pairs, and opposites stay opposites. */
  lemma {:induction false} MapPaired(ms: Datamodel, change: Change)
    requires WellFormed(ms) && Paired(ms)
    requires KeepsShape(ms, change) && SameForOpposites(ms, change) && KeepsApart(ms, change)
    ensures WellFormed(MapModels(ms, change)) && Paired(MapModels(ms, change))
  {
    var r := MapModels(ms, change);
    MapWellFormed(ms, change);
    hide MapModels, KeepsApart, SameForOpposites;
    forall m', x | m' in r && x in m'.fields && x.fieldType.Relation? ensures PairedField(r, m', x) {
      ModelFound(r, m');
      MappedModel(ms, change, m'.name);
      var m := FindModel(ms, m'.name).value;
      var f :| f in m.fields && x == change(m, f);
      assert PairedField(ms, m, f);
      var t := FindModel(ms, f.fieldType.to).value;
      var g :| g in t.fields && OnlyOpposites(m, f, t, g);
      ModelFound(ms, m);
      MappedModel(ms, change, t.name);
      OppositesMapped(ms, change, m, f, t, g);
    }
  }

  /** The opposite of a changed field is the changed opposite. */
  lemma {:induction false} OppositeMapped(ms: Datamodel, change: Change, m: Model, f: Field)
    requires WellFormed(ms) && Paired(ms) && m in ms && f in m.fields && f.fieldType.Relation?
    requires KeepsShape(ms, change) && SameForOpposites(ms, change) && KeepsApart(ms, change)
    ensures var t, g := FindModel(ms, f.fieldType.to), Opposite(ms, m, f);
            && t.Some? && g.Some?
            && Opposite(MapModels(ms, change), MapModel(m, change), change(m, f)) == Some(change(t.value, g.value))
  {
    OppositeIsInvolution(ms, m, f);
    var t := FindModel(ms, f.fieldType.to).value;
    assert PairedField(ms, m, f);
    var g :| g in t.fields && OnlyOpposites(m, f, t, g);
    FoundIs(t, m.name, f.fieldType.relation, f.name, g);
    ModelFound(ms, m);
    OppositesMapped(ms, change, m, f, t, g);
    MappedModel(ms, change, t.name);
    var t', f', g' := MapModel(t, change), change(m, f), change(t, g);
    assert g' in t'.fields;
    FoundIs(t', m.name, f'.fieldType.relation, f'.name, g');
  }

  // ----- the side that holds the reference -----

  function FirstId(fs: seq<Field>): Option<Field> {
    if fs == [] then None else if fs[0].isId then Some(fs[0]) else FirstId(fs[1..])
  }

  function IdFieldNames(m: Model): seq<Name> {
    var id := FirstId(m.fields);
    if id.Some? then [id.value.name] else m.idFields
  }

  predicate EmbedHere(m: Model, f: Field, t: Model, g: Field) {
    if g.arity.List? then true
    else if f.arity.List? then false
    else if NameLess(m.name, t.name) then true
    else if NameLess(t.name, m.name) then false
    else NameLess(f.name, g.name)
  }

  /** Untouched if the user has set the fields on either side. */
  function WithToFields(ms: Datamodel, m: Model, f: Field): Field {
    if !f.fieldType.Relation? then f
    else
      var t, g := FindModel(ms, f.fieldType.to), Opposite(ms, m, f);
      if t.None? || g.None? || !g.value.fieldType.Relation? then f
      else if f.fieldType.toFields != [] || g.value.fieldType.toFields != [] then f
      else if EmbedHere(m, f, t.value, g.value) then f.(fieldType := f.fieldType.(toFields := IdFieldNames(t.value)))
      else f
  }

  function ToFieldsOf(ms: Datamodel): Change {
    (m, f) => WithToFields(ms, m, f)
  }

  function SetToFields(ms: Datamodel): Datamodel {
    MapModels(ms, ToFieldsOf(ms))
  }

  /** Each side that is to hold a reference finds ids to refer to. */
  predicate SidesReferable(m: Model, f: Field, t: Model, g: Field)
    requires f.fieldType.Relation? && g.fieldType.Relation?
  {
    f.fieldType.toFields == [] && g.fieldType.toFields == [] ==>
      && (EmbedHere(m, f, t, g) ==> IdFieldNames(t) != [])
      && (EmbedHere(t, g, m, f) ==> IdFieldNames(m) != [])
  }

  /** Some side of the relation holds a reference in the end. */
  predicate Referred(m: Model, f: Field, t: Model, g: Field)
    requires f.fieldType.Relation? && g.fieldType.Relation?
  {
    || f.fieldType.toFields != [] || g.fieldType.toFields != []
    || (EmbedHere(m, f, t, g) && IdFieldNames(t) != [])
    || (EmbedHere(t, g, m, f) && IdFieldNames(m) != [])
  }

  /** The user's choice, or one side of a one-to-one or one-to-many and both sides of a many-to-many relation. */
  ghost predicate SidesChosen(f: Field, g: Field, f': Field, g': Field)
    requires f.fieldType.Relation? && g.fieldType.Relation? && f'.fieldType.Relation? && g'.fieldType.Relation?
  {
    if f.fieldType.toFields != [] || g.fieldType.toFields != [] then
      f'.fieldType.toFields == f.fieldType.toFields && g'.fieldType.toFields == g.fieldType.toFields
    else if f.arity.List? && g.arity.List? then
      f'.fieldType.toFields != [] && g'.fieldType.toFields != []
    else
      (f'.fieldType.toFields != []) != (g'.fieldType.toFields != [])
  }

  /** The names are those of the first id field, or of the id fields where there is none. */
  ghost predicate NamesId(m: Model, names: seq<Name>) {
    if exists i :: 0 <= i < |m.fields| && m.fields[i].isId
    then exists i :: 0 <= i < |m.fields| && m.fields[i].isId && names == [m.fields[i].name] && forall j :: 0 <= j < i ==> !m.fields[j].isId
    else names == m.idFields
  }

  /** `f` is opposite to a list, or of two singles in the lesser model or, in one model, the lesser field. */
  predicate Holds(m: Model, f: Field, t: Model, g: Field) {
    || g.arity.List?
    || (!f.arity.List? && (NameLess(m.name, t.name) || (m.name == t.name && NameLess(f.name, g.name))))
  }

  /** A side that holds the reference refers to the id of the other model, unless the user has set either. */
  ghost predicate SideHolds(m: Model, f: Field, t: Model, g: Field, f': Field)
    requires f.fieldType.Relation? && g.fieldType.Relation? && f'.fieldType.Relation?
  {
    if f.fieldType.toFields != [] || g.fieldType.toFields != [] then f'.fieldType.toFields == f.fieldType.toFields
    else if Holds(m, f, t, g) then NamesId(t, f'.fieldType.toFields)
    else f'.fieldType.toFields == []
  }

  lemma {:induction false} FirstIdIs(fs: seq<Field>)
    ensures FirstId(fs).None? ==> forall i :: 0 <= i < |fs| ==> !fs[i].isId
    ensures FirstId(fs).Some? ==>
              exists i :: 0 <= i < |fs| && fs[i].isId && fs[i] == FirstId(fs).value && forall j :: 0 <= j < i ==> !fs[j].isId
  {
    if fs != [] && !fs[0].isId {
      FirstIdIs(fs[1..]);
      if FirstId(fs).Some? {
        var i :| 0 <= i < |fs[1..]| && fs[1..][i].isId && fs[1..][i] == FirstId(fs[1..]).value && forall j :: 0 <= j < i ==> !fs[1..][j].isId;
        assert fs[i + 1].isId && fs[i + 1] == FirstId(fs).value;
        forall j | 0 <= j < i + 1 ensures !fs[j].isId {
          assert j > 0 ==> fs[1..][j - 1] == fs[j];
        }
      } else {
        forall i | 0 <= i < |fs| ensures !fs[i].isId {
          assert i > 0 ==> fs[1..][i - 1] == fs[i];
        }
      }
    }
  }

  lemma {:induction false} IdIsNamed(m: Model)
    ensures NamesId(m, IdFieldNames(m))
  {
    FirstIdIs(m.fields);
  }

  lemma {:induction false} SideIsHeld(ms: Datamodel, m: Model, f: Field, t: Model, g: Field)
    requires f.fieldType.Relation? && g.fieldType.Relation? && FindModel(ms, f.fieldType.to) == Some(t) && Opposite(ms, m, f) == Some(g)
    ensures SideHolds(m, f, t, g, WithToFields(ms, m, f))
  {
    NameOrder(m.name, t.name);
    IdIsNamed(t);
    hide NamesId, IdFieldNames, Opposite;
  }

  lemma {:induction false} ToFieldsKeepField(ms: Datamodel, m: Model, f: Field)
    ensures var x := ToFieldsOf(ms)(m, f);
            && x.name == f.name && (x.fieldType.Relation? <==> f.fieldType.Relation?)
            && (f.fieldType.Relation? ==> x.fieldType.to == f.fieldType.to && x.fieldType.relation == f.fieldType.relation)
  {
  }

  lemma {:induction false} ToFieldsShape(ms: Datamodel)
    ensures KeepsShape(ms, ToFieldsOf(ms)) && SameForOpposites(ms, ToFieldsOf(ms)) && KeepsApart(ms, ToFieldsOf(ms))
  {
    forall m: Model, f: Field
      ensures var x := ToFieldsOf(ms)(m, f);
              && x.name == f.name && (x.fieldType.Relation? <==> f.fieldType.Relation?)
              && (f.fieldType.Relation? ==> x.fieldType.to == f.fieldType.to && x.fieldType.relation == f.fieldType.relation)
    {
      ToFieldsKeepField(ms, m, f);
    }
    hide ToFieldsOf;
  }

  lemma {:induction false} ToFieldsKeepPairs(ms: Datamodel)
    requires WellFormed(ms) && Paired(ms)
    ensures WellFormed(SetToFields(ms)) && Paired(SetToFields(ms))
  {
    ToFieldsShape(ms);
    MapPaired(ms, ToFieldsOf(ms));
  }

  /** Unless both sides are lists, one side embeds. */
  lemma {:induction false} OneSideEmbeds(m: Model, f: Field, t: Model, g: Field)
    requires m.name == t.name ==> f.name != g.name
    ensures f.arity.List? && g.arity.List? ==> EmbedHere(m, f, t, g) && EmbedHere(t, g, m, f)
    ensures !(f.arity.List? && g.arity.List?) ==> EmbedHere(m, f, t, g) != EmbedHere(t, g, m, f)
  {
    NameOrder(m.name, t.name);
    NameOrder(f.name, g.name);
  }

  lemma {:induction false} SidesAreChosen(ms: Datamodel, m: Model, f: Field)
    requires WellFormed(ms) && Paired(ms) && m in ms && f in m.fields && f.fieldType.Relation?
    ensures var t, g := FindModel(ms, f.fieldType.to), Opposite(ms, m, f);
            && t.Some? && g.Some? && g.value.fieldType.Relation?
            && SideHolds(m, f, t.value, g.value, WithToFields(ms, m, f))
            && SideHolds(t.value, g.value, m, f, WithToFields(ms, t.value, g.value))
            && (SidesChosen(f, g.value, WithToFields(ms, m, f), WithToFields(ms, t.value, g.value)) <==>
                SidesReferable(m, f, t.value, g.value))
  {
    OppositeIsInvolution(ms, m, f);
    var t, g := FindModel(ms, f.fieldType.to).value, Opposite(ms, m, f).value;
    ModelFound(ms, m);
    assert m.name == t.name ==> f.name != g.name;
    OneSideEmbeds(m, f, t, g);
    SideIsHeld(ms, m, f, t, g);
    SideIsHeld(ms, t, g, m, f);
    hide EmbedHere, IdFieldNames, Opposite, WellFormed, Paired, SideHolds;
  }

  // ----- names for unnamed relations -----

  function DefaultName(a: Name, b: Name): Name {
    if NameLess(a, b) then a + "To" + b else b + "To" + a
  }

  lemma {:induction false} DefaultNameSymmetric(a: Name, b: Name)
    ensures DefaultName(a, b) == DefaultName(b, a) && DefaultName(a, b) != ""
  {
    NameOrder(a, b);
    assert |DefaultName(a, b)| == |a| + 2 + |b|;
  }

  predicate Tie(m: Model, f: Field, t: Model, g: Field) {
    NameLess(m.name, t.name) || (m.name == t.name && NameLess(f.name, g.name))
  }

  /** Whether a relation is named starting from this field. */
  predicate ToBeNamed(ms: Datamodel, m: Model, f: Field) {
    && f.fieldType.Relation? && f.fieldType.relation == "" && f.fieldType.toFields != []
    && var t, g := FindModel(ms, f.fieldType.to), Opposite(ms, m, f);
       t.Some? && g.Some? && g.value.fieldType.Relation?
       && (g.value.fieldType.toFields == [] || Tie(m, f, t.value, g.value))
  }

  datatype Unnamed = Unnamed(model: Name, field: Name, to: Name)

  function UnnamedIn(ms: Datamodel, m: Model, fs: seq<Field>): (r: seq<Unnamed>)
    ensures forall u :: u in r ==> u.model == m.name
  {
    if fs == [] then []
    else if ToBeNamed(ms, m, fs[0]) then [Unnamed(m.name, fs[0].name, fs[0].fieldType.to)] + UnnamedIn(ms, m, fs[1..])
    else UnnamedIn(ms, m, fs[1..])
  }

  function AllUnnamed(ms: Datamodel, rest: Datamodel): seq<Unnamed> {
    if rest == [] then [] else UnnamedIn(ms, rest[0], rest[0].fields) + AllUnnamed(ms, rest[1..])
  }

  function SetInFields(fs: seq<Field>, n: Name, relation: Name): seq<Field> {
    if fs == [] then []
    else if fs[0].name == n && fs[0].fieldType.Relation?
    then [fs[0].(fieldType := fs[0].fieldType.(relation := relation))] + fs[1..]
    else [fs[0]] + SetInFields(fs[1..], n, relation)
  }

  function SetRelation(ms: Datamodel, m: Name, n: Name, relation: Name): Datamodel {
    if ms == [] then []
    else if ms[0].name == m then [ms[0].(fields := SetInFields(ms[0].fields, n, relation))] + ms[1..]
    else [ms[0]] + SetRelation(ms[1..], m, n, relation)
  }

  /** Names a field, then whatever unnamed field is found opposite to it. */
  function NameOne(ms: Datamodel, u: Unnamed): Option<Datamodel> {
    var m :- FindModel(ms, u.model);
    var f :- FindField(m.fields, u.field);
    if !f.fieldType.Relation? then None
    else
      var name := DefaultName(u.model, u.to);
      var ms' := SetRelation(ms, u.model, u.field, name);
      var t :- FindModel(ms', u.to);
      var g :- RelatedField(t, u.model, "", u.field);
      Some(SetRelation(ms', u.to, g.name, name))
  }

  function NameAll(ms: Datamodel, us: seq<Unnamed>): Option<Datamodel>
    decreases |us|
  {
    if us == [] then Some(ms)
    else
      var ms' :- NameOne(ms, us[0]);
      NameAll(ms', us[1..])
  }

  function NameUnnamedRelations(ms: Datamodel): Option<Datamodel> {
    NameAll(ms, AllUnnamed(ms, ms))
  }

  // ----- naming some of the unnamed relations -----

  type Ref = (Name, Name)

  function NameIf(m: Model, f: Field, some: set<Ref>): Field {
    if f.fieldType.Relation? && f.fieldType.relation == "" && (m.name, f.name) in some
    then f.(fieldType := f.fieldType.(relation := DefaultName(m.name, f.fieldType.to))) else f
  }

  function Namer(some: set<Ref>): Change {
    (m, f) => NameIf(m, f, some)
  }

  function NamedSome(ms: Datamodel, some: set<Ref>): Datamodel {
    MapModels(ms, Namer(some))
  }

  lemma {:induction false} MapSame(m: Model, fs: seq<Field>, c: Change, d: Change)
    requires forall f :: f in fs ==> c(m, f) == d(m, f)
    ensures MapFields(m, fs, c) == MapFields(m, fs, d)
  {
    if fs != [] {
      assert fs[0] in fs && forall f :: f in fs[1..] ==> f in fs;
      MapSame(m, fs[1..], c, d);
    }
  }

  lemma {:induction false} NamedOneField(m: Model, fs: seq<Field>, some: set<Ref>, f: Field)
    requires FieldsDistinct(fs) && f in fs && f.fieldType.Relation? && f.fieldType.relation == ""
    ensures SetInFields(MapFields(m, fs, Namer(some)), f.name, DefaultName(m.name, f.fieldType.to)) ==
            MapFields(m, fs, Namer(some + {(m.name, f.name)}))
  {
    var c, d, name := Namer(some), Namer(some + {(m.name, f.name)}), DefaultName(m.name, f.fieldType.to);
    var rest := MapFields(m, fs[1..], c);
    assert ([c(m, fs[0])] + rest)[1..] == rest;
    if fs[0] == f {
      forall x | x in fs[1..] ensures c(m, x) == d(m, x) {
        assert x.name != f.name;
      }
      MapSame(m, fs[1..], c, d);
    } else {
      assert f in fs[1..];
      assert fs[0].name != f.name;
      NamedOneField(m, fs[1..], some, f);
    }
  }

  lemma {:induction false} NamedElsewhere(ms: Datamodel, some: set<Ref>, n: Name, x: Name)
    requires FindModel(ms, n).None?
    ensures NamedSome(ms, some + {(n, x)}) == NamedSome(ms, some)
  {
    if ms != [] {
      assert ms[0] in ms;
      NamedElsewhere(ms[1..], some, n, x);
      forall f | f in ms[0].fields ensures Namer(some)(ms[0], f) == Namer(some + {(n, x)})(ms[0], f) {
      }
      MapSame(ms[0], ms[0].fields, Namer(some), Namer(some + {(n, x)}));
    }
  }

  /** Naming one field in place names it among those named before. */
  lemma {:induction false} NamedOne(ms: Datamodel, some: set<Ref>, m: Model, f: Field)
    requires ModelsDistinct(ms) && m in ms && FieldsDistinct(m.fields)
    requires f in m.fields && f.fieldType.Relation? && f.fieldType.relation == ""
    ensures SetRelation(NamedSome(ms, some), m.name, f.name, DefaultName(m.name, f.fieldType.to)) ==
            NamedSome(ms, some + {(m.name, f.name)})
  {
    var first, rest := MapModel(ms[0], Namer(some)), NamedSome(ms[1..], some);
    assert ([first] + rest)[1..] == rest;
    if ms[0] == m {
      NamedOneField(m, m.fields, some, f);
      NamedElsewhere(ms[1..], some, m.name, f.name);
    } else {
      assert m in ms[1..] && ms[0].name != m.name;
      NamedOne(ms[1..], some, m, f);
      NamedElsewhere([ms[0]], some, m.name, f.name);
      assert NamedSome([ms[0]], some)[0] == first;
      assert NamedSome([ms[0]], some + {(m.name, f.name)})[0] == MapModel(ms[0], Namer(some + {(m.name, f.name)}));
    }
  }

  // ----- naming a pair -----

  lemma {:induction false} StillUnnamed(ms: Datamodel, some: set<Ref>, m: Model, f: Field, t: Model, g: Field)
    requires WellFormed(ms) && m in ms && t in ms && f in m.fields && g in t.fields
    requires f.fieldType.Relation? && f.fieldType.relation == "" && OnlyOpposites(m, f, t, g)
    requires (m.name, f.name) in some && (t.name, g.name) !in some
    ensures RelatedField(MapModel(t, Namer(some)), m.name, "", f.name) == Some(g)
  {
    var t' := MapModel(t, Namer(some));
    assert Namer(some)(t, g) == g;
    assert g in t'.fields;
    forall x' | x' in t'.fields && Links(x', m.name, "") && (t'.name != m.name || x'.name != f.name) ensures x' == g {
      var x :| x in t.fields && x' == Namer(some)(t, x);
      DefaultNameSymmetric(t.name, m.name);
      assert Links(x, m.name, "");
    }
    FoundIs(t', m.name, "", f.name, g);
  }

  lemma {:induction false} NamedPair(ms: Datamodel, some: set<Ref>, m: Model, f: Field, t: Model, g: Field)
    requires WellFormed(ms) && m in ms && t in ms && f in m.fields && g in t.fields
    requires f.fieldType.Relation? && f.fieldType.relation == "" && OnlyOpposites(m, f, t, g)
    requires (m.name, f.name) !in some && (t.name, g.name) !in some
    ensures NameOne(NamedSome(ms, some), Unnamed(m.name, f.name, t.name)) ==
            Some(NamedSome(ms, some + {(m.name, f.name), (t.name, g.name)}))
  {
    var some' := some + {(m.name, f.name)};
    NamedStart(ms, some, m, f);
    ModelFound(ms, t);
    MappedModel(ms, Namer(some'), t.name);
    StillUnnamed(ms, some', m, f, t, g);
    DefaultNameSymmetric(m.name, t.name);
    NamedOne(ms, some', t, g);
    hide MapModels, MapModel, SetRelation, RelatedField, Namer, DefaultName, WellFormed, ModelsDistinct;
    assert some' + {(t.name, g.name)} == some + {(m.name, f.name), (t.name, g.name)};
  }

  /** The field that the naming starts from is found as it was, and is named. */
  lemma {:induction false} NamedStart(ms: Datamodel, some: set<Ref>, m: Model, f: Field)
    requires WellFormed(ms) && m in ms && f in m.fields && f.fieldType.Relation? && f.fieldType.relation == ""
    requires (m.name, f.name) !in some
    ensures var m' := FindModel(NamedSome(ms, some), m.name); m'.Some? && FindField(m'.value.fields, f.name) == Some(f)
    ensures SetRelation(NamedSome(ms, some), m.name, f.name, DefaultName(m.name, f.fieldType.to)) ==
            NamedSome(ms, some + {(m.name, f.name)})
  {
    ModelFound(ms, m);
    FieldFound(m.fields, f);
    MappedModel(ms, Namer(some), m.name);
    MappedField(m, m.fields, Namer(some), f.name);
    assert Namer(some)(m, f) == f;
    NamedOne(ms, some, m, f);
  }

  // ----- naming all pairs, each once -----

  ghost predicate Ready(ms: Datamodel, u: Unnamed) {
    var m := FindModel(ms, u.model);
    && m.Some?
    && var f := FindField(m.value.fields, u.field);
       f.Some? && ToBeNamed(ms, m.value, f.value) && f.value.fieldType.to == u.to
  }

  ghost function PairOf(ms: Datamodel, u: Unnamed): set<Ref>
    requires Ready(ms, u)
  {
    var m := FindModel(ms, u.model).value;
    var f := FindField(m.fields, u.field).value;
    {(u.model, u.field), (u.to, Opposite(ms, m, f).value.name)}
  }

  /** Of two opposite unnamed fields exactly one is where the naming starts. */
  lemma {:induction false} NamedFromOneSide(ms: Datamodel, m: Model, f: Field)
    requires WellFormed(ms) && Paired(ms) && m in ms && f in m.fields && f.fieldType.Relation? && f.fieldType.relation == ""
    ensures var t, g := FindModel(ms, f.fieldType.to), Opposite(ms, m, f);
            && t.Some? && g.Some? && g.value in t.value.fields && g.value.fieldType.Relation?
            && (f.fieldType.toFields != [] || g.value.fieldType.toFields != [] ==>
                  ToBeNamed(ms, m, f) != ToBeNamed(ms, t.value, g.value))
  {
    OppositeIsInvolution(ms, m, f);
    var t, g := FindModel(ms, f.fieldType.to).value, Opposite(ms, m, f).value;
    ModelFound(ms, m);
    NameOrder(m.name, t.name);
    NameOrder(f.name, g.name);
    assert m.name == t.name ==> f.name != g.name;
  }

  lemma {:induction false} PairsDisjoint(ms: Datamodel, u: Unnamed, v: Unnamed)
    requires WellFormed(ms) && Paired(ms) && Ready(ms, u) && Ready(ms, v) && u != v
    ensures PairOf(ms, u) !! PairOf(ms, v)
  {
    var m, n := FindModel(ms, u.model).value, FindModel(ms, v.model).value;
    var f, h := FindField(m.fields, u.field).value, FindField(n.fields, v.field).value;
    NamedFromOneSide(ms, m, f);
    NamedFromOneSide(ms, n, h);
    OppositeIsInvolution(ms, m, f);
    OppositeIsInvolution(ms, n, h);
    OppositeFound(ms, m, f);
    OppositeFound(ms, n, h);
  }

  lemma {:induction false} OppositeFound(ms: Datamodel, m: Model, f: Field)
    requires WellFormed(ms) && Paired(ms) && m in ms && f in m.fields && f.fieldType.Relation?
    ensures var t, g := FindModel(ms, f.fieldType.to), Opposite(ms, m, f);
            t.Some? && g.Some? && FindField(t.value.fields, g.value.name) == g
  {
    OppositeIsInvolution(ms, m, f);
    FieldFound(FindModel(ms, f.fieldType.to).value.fields, Opposite(ms, m, f).value);
  }

  ghost predicate NoneTwice(us: seq<Unnamed>) {
    us != [] ==> us[0] !in us[1..] && NoneTwice(us[1..])
  }

  ghost function Covered(ms: Datamodel, us: seq<Unnamed>): set<Ref>
    requires forall u :: u in us ==> Ready(ms, u)
  {
    if us == [] then {} else assert us[0] in us; PairOf(ms, us[0]) + Covered(ms, us[1..])
  }

  lemma {:induction false} NamedRest(ms: Datamodel, some: set<Ref>, us: seq<Unnamed>)
    requires WellFormed(ms) && Paired(ms) && NoneTwice(us) && forall u :: u in us ==> Ready(ms, u)
    requires forall u :: u in us ==> PairOf(ms, u) !! some
    ensures NameAll(NamedSome(ms, some), us) == Some(NamedSome(ms, some + Covered(ms, us)))
    decreases |us|
  {
    if us == [] {
      assert some + Covered(ms, us) == some;
    } else {
      var u, rest := us[0], us[1..];
      assert u in us && forall v :: v in rest ==> v in us;
      var some' := some + PairOf(ms, u);
      NamedReady(ms, some, u);
      forall v | v in rest ensures PairOf(ms, v) !! some' {
        PairsDisjoint(ms, u, v);
      }
      NamedRest(ms, some', rest);
      assert some' + Covered(ms, rest) == some + Covered(ms, us);
    }
  }

  lemma {:induction false} NamedReady(ms: Datamodel, some: set<Ref>, u: Unnamed)
    requires WellFormed(ms) && Paired(ms) && Ready(ms, u) && PairOf(ms, u) !! some
    ensures NameOne(NamedSome(ms, some), u) == Some(NamedSome(ms, some + PairOf(ms, u)))
  {
    var m := FindModel(ms, u.model).value;
    var f := FindField(m.fields, u.field).value;
    assert PairedField(ms, m, f);
    var t := FindModel(ms, f.fieldType.to).value;
    var g :| g in t.fields && OnlyOpposites(m, f, t, g);
    FoundIs(t, m.name, f.fieldType.relation, f.name, g);
    NamedPair(ms, some, m, f, t, g);
  }

  // ----- the list of unnamed relations -----

  lemma {:induction false} UnnamedInAre(ms: Datamodel, m: Model, fs: seq<Field>, u: Unnamed)
    ensures u in UnnamedIn(ms, m, fs) <==>
            exists f :: f in fs && ToBeNamed(ms, m, f) && u == Unnamed(m.name, f.name, f.fieldType.to)
  {
    if fs != [] {
      UnnamedInAre(ms, m, fs[1..], u);
      assert forall f :: f in fs <==> f == fs[0] || f in fs[1..];
    }
  }

  lemma {:induction false} UnnamedInOnce(ms: Datamodel, m: Model, fs: seq<Field>)
    requires FieldsDistinct(fs)
    ensures NoneTwice(UnnamedIn(ms, m, fs))
  {
    if fs != [] {
      UnnamedInOnce(ms, m, fs[1..]);
      var rest := UnnamedIn(ms, m, fs[1..]);
      if ToBeNamed(ms, m, fs[0]) {
        var u := Unnamed(m.name, fs[0].name, fs[0].fieldType.to);
        UnnamedInAre(ms, m, fs[1..], u);
        assert ([u] + rest)[1..] == rest;
      }
    }
  }

  lemma {:induction false} ConcatOnce(us: seq<Unnamed>, vs: seq<Unnamed>)
    requires NoneTwice(us) && NoneTwice(vs) && forall u :: u in us ==> u !in vs
    ensures NoneTwice(us + vs)
  {
    if us == [] {
      assert us + vs == vs;
    } else {
      assert us[0] in us;
      assert (us + vs)[0] == us[0] && (us + vs)[1..] == us[1..] + vs;
      ConcatOnce(us[1..], vs);
    }
  }

  ghost predicate NamedFrom(ms: Datamodel, m: Model, u: Unnamed) {
    exists f :: f in m.fields && ToBeNamed(ms, m, f) && u == Unnamed(m.name, f.name, f.fieldType.to)
  }

  lemma {:induction false} AllUnnamedAre(ms: Datamodel, rest: Datamodel, u: Unnamed)
    ensures u in AllUnnamed(ms, rest) <==> exists m :: m in rest && NamedFrom(ms, m, u)
  {
    if rest != [] {
      UnnamedInAre(ms, rest[0], rest[0].fields, u);
      AllUnnamedAre(ms, rest[1..], u);
      assert NamedFrom(ms, rest[0], u) <==> u in UnnamedIn(ms, rest[0], rest[0].fields);
      assert forall m :: m in rest <==> m == rest[0] || m in rest[1..];
    }
  }

  lemma {:induction false} AllUnnamedOnce(ms: Datamodel, rest: Datamodel)
    requires ModelsDistinct(rest) && forall m :: m in rest ==> FieldsDistinct(m.fields)
    ensures NoneTwice(AllUnnamed(ms, rest))
  {
    if rest != [] {
      assert rest[0] in rest && forall m :: m in rest[1..] ==> m in rest;
      UnnamedInOnce(ms, rest[0], rest[0].fields);
      AllUnnamedOnce(ms, rest[1..]);
      var us, vs := UnnamedIn(ms, rest[0], rest[0].fields), AllUnnamed(ms, rest[1..]);
      forall u | u in us ensures u !in vs {
        AllUnnamedAre(ms, rest[1..], u);
      }
      ConcatOnce(us, vs);
    }
  }

  // ----- the relations with a reference are named -----

  /** One side of the relation holds a reference. */
  predicate HasReference(ms: Datamodel, m: Model, f: Field)
    requires f.fieldType.Relation?
  {
    var g := Opposite(ms, m, f);
    f.fieldType.toFields != [] || (g.Some? && g.value.fieldType.Relation? && g.value.fieldType.toFields != [])
  }

  predicate NeedsName(ms: Datamodel, m: Model, f: Field) {
    f.fieldType.Relation? && f.fieldType.relation == "" && HasReference(ms, m, f)
  }

  function Named(m: Model, f: Field): Field
    requires f.fieldType.Relation?
  {
    f.(fieldType := f.fieldType.(relation := DefaultName(m.name, f.fieldType.to)))
  }

  function NameReferred(ms: Datamodel): Change {
    (m: Model, f: Field) => if NeedsName(ms, m, f) then Named(m, f) else f
  }

  lemma {:induction false} CoveredBy(ms: Datamodel, us: seq<Unnamed>, u: Unnamed)
    requires (forall v :: v in us ==> Ready(ms, v)) && u in us
    ensures PairOf(ms, u) <= Covered(ms, us)
  {
    if us[0] != u {
      CoveredBy(ms, us[1..], u);
    }
  }

  lemma {:induction false} AllReady(ms: Datamodel, u: Unnamed)
    requires WellFormed(ms) && u in AllUnnamed(ms, ms)
    ensures Ready(ms, u)
  {
    AllUnnamedAre(ms, ms, u);
    var m :| m in ms && NamedFrom(ms, m, u);
    var f :| f in m.fields && ToBeNamed(ms, m, f) && u == Unnamed(m.name, f.name, f.fieldType.to);
    ModelFound(ms, m);
    FieldFound(m.fields, f);
  }

  lemma {:induction false} UnnamedIsListed(ms: Datamodel, m: Model, f: Field)
    requires WellFormed(ms) && m in ms && f in m.fields && ToBeNamed(ms, m, f)
    ensures Unnamed(m.name, f.name, f.fieldType.to) in AllUnnamed(ms, ms)
  {
    assert NamedFrom(ms, m, Unnamed(m.name, f.name, f.fieldType.to));
    AllUnnamedAre(ms, ms, Unnamed(m.name, f.name, f.fieldType.to));
  }

  lemma {:induction false} NeededIsCovered(ms: Datamodel, m: Model, f: Field)
    requires WellFormed(ms) && Paired(ms) && (forall u :: u in AllUnnamed(ms, ms) ==> Ready(ms, u))
    requires m in ms && f in m.fields && NeedsName(ms, m, f)
    ensures (m.name, f.name) in Covered(ms, AllUnnamed(ms, ms))
  {
    var us := AllUnnamed(ms, ms);
    NamedFromOneSide(ms, m, f);
    OppositeIsInvolution(ms, m, f);
    OppositeFound(ms, m, f);
    ModelFound(ms, m);
    FieldFound(m.fields, f);
    var t, g := FindModel(ms, f.fieldType.to).value, Opposite(ms, m, f).value;
    hide AllUnnamed, ToBeNamed, Paired, WellFormed;
    if ToBeNamed(ms, m, f) {
      UnnamedIsListed(ms, m, f);
      CoveredBy(ms, us, Unnamed(m.name, f.name, t.name));
    } else {
      UnnamedIsListed(ms, t, g);
      CoveredBy(ms, us, Unnamed(t.name, g.name, m.name));
    }
  }

  lemma {:induction false} CoveredFrom(ms: Datamodel, us: seq<Unnamed>, r: Ref) returns (u: Unnamed)
    requires (forall v :: v in us ==> Ready(ms, v)) && r in Covered(ms, us)
    ensures u in us && r in PairOf(ms, u)
  {
    assert us[0] in us;
    if r in PairOf(ms, us[0]) {
      u := us[0];
    } else {
      u := CoveredFrom(ms, us[1..], r);
    }
  }

  lemma {:induction false} CoveredIsNeeded(ms: Datamodel, us: seq<Unnamed>, m: Model, f: Field)
    requires WellFormed(ms) && Paired(ms) && (forall u :: u in us ==> Ready(ms, u))
    requires m in ms && f in m.fields && (m.name, f.name) in Covered(ms, us)
    ensures NeedsName(ms, m, f)
  {
    var u := CoveredFrom(ms, us, (m.name, f.name));
    var n := FindModel(ms, u.model).value;
    var h := FindField(n.fields, u.field).value;
    OppositeIsInvolution(ms, n, h);
    OppositeFound(ms, n, h);
    ModelFound(ms, m);
    FieldFound(m.fields, f);
  }

  lemma {:induction false} NothingNamedYet(ms: Datamodel)
    ensures NamedSome(ms, {}) == ms
  {
    if ms != [] {
      NothingNamedYet(ms[1..]);
      MapNothing(ms[0], ms[0].fields);
    }
  }

  lemma {:induction false} MapNothing(m: Model, fs: seq<Field>)
    ensures MapFields(m, fs, Namer({})) == fs
  {
    if fs != [] {
      MapNothing(m, fs[1..]);
    }
  }

  lemma {:induction false} NeededNamed(ms: Datamodel, rest: Datamodel, some: set<Ref>)
    requires forall m, f :: m in rest && f in m.fields && f.fieldType.Relation? && f.fieldType.relation == "" ==>
               ((m.name, f.name) in some <==> HasReference(ms, m, f))
    ensures NamedSome(rest, some) == MapModels(rest, NameReferred(ms))
  {
    if rest != [] {
      assert rest[0] in rest && forall m :: m in rest[1..] ==> m in rest;
      NeededNamed(ms, rest[1..], some);
      forall f | f in rest[0].fields ensures Namer(some)(rest[0], f) == NameReferred(ms)(rest[0], f) {
      }
      MapSame(rest[0], rest[0].fields, Namer(some), NameReferred(ms));
    }
  }

  /** The loop over unnamed relations names those with a reference, each on both sides, and nothing else. */
  lemma {:induction false} NamingIsComplete(ms: Datamodel)
    requires WellFormed(ms) && Paired(ms)
    ensures NameUnnamedRelations(ms) == Some(MapModels(ms, NameReferred(ms)))
  {
    var us := AllUnnamed(ms, ms);
    forall u | u in us ensures Ready(ms, u) {
      AllReady(ms, u);
    }
    AllUnnamedOnce(ms, ms);
    NamedRest(ms, {}, us);
    NothingNamedYet(ms);
    assert {} + Covered(ms, us) == Covered(ms, us);
    forall m, f | m in ms && f in m.fields && f.fieldType.Relation? && f.fieldType.relation == ""
      ensures (m.name, f.name) in Covered(ms, us) <==> HasReference(ms, m, f)
    {
      if HasReference(ms, m, f) {
        NeededIsCovered(ms, m, f);
      }
      if (m.name, f.name) in Covered(ms, us) {
        CoveredIsNeeded(ms, us, m, f);
      }
    }
    NeededNamed(ms, ms, Covered(ms, us));
  }

  // ----- when there are not enough fields to name -----

  /** How many of the relations to be named go from one model to another. */
  function FromTo(us: seq<Unnamed>, a: Name, b: Name): nat {
    if us == [] then 0 else (if us[0].model == a && us[0].to == b then 1 else 0) + FromTo(us[1..], a, b)
  }

  function OpenIn(fs: seq<Field>, to: Name): nat {
    if fs == [] then 0 else (if Links(fs[0], to, "") then 1 else 0) + OpenIn(fs[1..], to)
  }

  /** How many unnamed fields a model has to another one. */
  function Open(ms: Datamodel, n: Name, to: Name): nat {
    var m := FindModel(ms, n);
    if m.Some? then OpenIn(m.value.fields, to) else 0
  }

  lemma {:induction false} SetInFieldsCloses(fs: seq<Field>, n: Name, relation: Name, to: Name)
    requires relation != ""
    ensures OpenIn(SetInFields(fs, n, relation), to) <= OpenIn(fs, to)
    ensures FieldsDistinct(fs) ==> FieldsDistinct(SetInFields(fs, n, relation))
    ensures FieldsDistinct(fs) && FindField(fs, n).Some? && Links(FindField(fs, n).value, to, "") ==>
              OpenIn(SetInFields(fs, n, relation), to) < OpenIn(fs, to)
  {
    if fs != [] {
      SetKeepsNames(fs[1..], n, relation, fs[0].name);
      SetInFieldsCloses(fs[1..], n, relation, to);
      var rest := SetInFields(fs[1..], n, relation);
      assert ([fs[0]] + rest)[1..] == rest;
      if fs[0].name == n && fs[0].fieldType.Relation? {
        var first := fs[0].(fieldType := fs[0].fieldType.(relation := relation));
        assert ([first] + fs[1..])[1..] == fs[1..];
      }
    }
  }

  lemma {:induction false} SetKeepsNames(fs: seq<Field>, n: Name, relation: Name, x: Name)
    ensures FindField(SetInFields(fs, n, relation), x).Some? <==> FindField(fs, x).Some?
  {
    if fs != [] {
      SetKeepsNames(fs[1..], n, relation, x);
      var rest := SetInFields(fs[1..], n, relation);
      assert ([fs[0]] + rest)[1..] == rest;
      if fs[0].name == n && fs[0].fieldType.Relation? {
        var first := fs[0].(fieldType := fs[0].fieldType.(relation := relation));
        assert ([first] + fs[1..])[1..] == fs[1..];
      }
    }
  }

  lemma {:induction false} SetModel(ms: Datamodel, m: Name, n: Name, relation: Name, x: Name)
    ensures FindModel(SetRelation(ms, m, n, relation), x) ==
            var t := FindModel(ms, x);
            if t.Some? && x == m then Some(t.value.(fields := SetInFields(t.value.fields, n, relation))) else t
  {
    if ms != [] {
      SetModel(ms[1..], m, n, relation, x);
      var rest := SetRelation(ms[1..], m, n, relation);
      assert ([ms[0]] + rest)[1..] == rest;
      if ms[0].name == m {
        var first := ms[0].(fields := SetInFields(ms[0].fields, n, relation));
        assert ([first] + ms[1..])[1..] == ms[1..];
      }
    }
  }

  ghost predicate AllFieldsDistinct(ms: Datamodel) {
    forall n :: FindModel(ms, n).Some? ==> FieldsDistinct(FindModel(ms, n).value.fields)
  }

  lemma {:induction false} SetCloses(ms: Datamodel, m: Name, n: Name, relation: Name, b: Name, a: Name)
    requires relation != "" && AllFieldsDistinct(ms)
    ensures AllFieldsDistinct(SetRelation(ms, m, n, relation))
    ensures Open(SetRelation(ms, m, n, relation), b, a) <= Open(ms, b, a)
  {
    forall x | FindModel(SetRelation(ms, m, n, relation), x).Some?
      ensures FieldsDistinct(FindModel(SetRelation(ms, m, n, relation), x).value.fields)
    {
      SetModel(ms, m, n, relation, x);
      SetInFieldsCloses(FindModel(ms, x).value.fields, n, relation, a);
    }
    SetModel(ms, m, n, relation, b);
    if FindModel(ms, b).Some? {
      SetInFieldsCloses(FindModel(ms, b).value.fields, n, relation, a);
    }
  }

  /** Naming a relation opens no field, and closes one at its other end. */
  lemma {:induction false} NameOneCloses(ms: Datamodel, u: Unnamed, a: Name, b: Name)
    requires AllFieldsDistinct(ms) && NameOne(ms, u).Some?
    ensures AllFieldsDistinct(NameOne(ms, u).value)
    ensures Open(NameOne(ms, u).value, b, a) + (if u.model == a && u.to == b then 1 else 0) <= Open(ms, b, a)
  {
    var name := DefaultName(u.model, u.to);
    DefaultNameSymmetric(u.model, u.to);
    hide DefaultName, SetRelation, AllFieldsDistinct, Open, FindModel;
    var ms1 := SetRelation(ms, u.model, u.field, name);
    SetCloses(ms, u.model, u.field, name, b, a);
    var t := FindModel(ms1, u.to).value;
    var g := RelatedField(t, u.model, "", u.field).value;
    SetCloses(ms1, u.to, g.name, name, b, a);
    if u.model == a && u.to == b {
      FoundCloses(ms1, b, a, g, name);
    }
  }

  lemma {:induction false} FoundCloses(ms: Datamodel, b: Name, a: Name, g: Field, name: Name)
    requires name != "" && AllFieldsDistinct(ms) && FindModel(ms, b).Some? && g in FindModel(ms, b).value.fields && Links(g, a, "")
    ensures Open(SetRelation(ms, b, g.name, name), b, a) < Open(ms, b, a)
  {
    var t := FindModel(ms, b).value;
    SetModel(ms, b, g.name, name, b);
    FieldFound(t.fields, g);
    SetInFieldsCloses(t.fields, g.name, name, a);
  }

  lemma {:induction false} NamingNeedsOpen(ms: Datamodel, us: seq<Unnamed>, a: Name, b: Name)
    requires AllFieldsDistinct(ms) && NameAll(ms, us).Some?
    ensures FromTo(us, a, b) <= Open(ms, b, a)
    decreases |us|
  {
    if us != [] {
      NameOneCloses(ms, us[0], a, b);
      hide AllFieldsDistinct, Open, NameOne;
      NamingNeedsOpen(NameOne(ms, us[0]).value, us[1..], a, b);
    }
  }

  /** The naming panics if more fields of one model start a naming than there are unnamed fields at the other. */
  lemma {:induction false} CrowdedNamingPanics(ms: Datamodel, a: Name, b: Name)
    requires WellFormed(ms) && FromTo(AllUnnamed(ms, ms), a, b) > Open(ms, b, a)
    ensures NameUnnamedRelations(ms).None?
  {
    if NameUnnamedRelations(ms).Some? {
      NamingNeedsOpen(ms, AllUnnamed(ms, ms), a, b);
    }
  }

  // ----- when naming keeps the pairs -----

  lemma {:induction false} NamingShape(ms: Datamodel)
    requires WellFormed(ms) && Paired(ms)
    ensures KeepsShape(ms, NameReferred(ms)) && SameForOpposites(ms, NameReferred(ms))
  {
    forall m, f, t, g | m in ms && f in m.fields && t in ms && g in t.fields && f.fieldType.Relation?
                        && f.fieldType.to == t.name && Links(g, m.name, f.fieldType.relation)
      ensures NameReferred(ms)(t, g).fieldType.relation == NameReferred(ms)(m, f).fieldType.relation
    {
      LinkedNeedAlike(ms, m, f, t, g);
      DefaultNameSymmetric(m.name, t.name);
    }
  }

  lemma {:induction false} LinkedNeedAlike(ms: Datamodel, m: Model, f: Field, t: Model, g: Field)
    requires WellFormed(ms) && Paired(ms) && m in ms && f in m.fields && t in ms && g in t.fields
    requires f.fieldType.Relation? && f.fieldType.to == t.name && Links(g, m.name, f.fieldType.relation)
    ensures NeedsName(ms, m, f) <==> NeedsName(ms, t, g)
  {
    OppositeIsInvolution(ms, m, f);
    ModelFound(ms, m);
    ModelFound(ms, t);
    assert PairedField(ms, m, f);
    var h :| h in t.fields && OnlyOpposites(m, f, t, h);
    FoundIs(t, m.name, f.fieldType.relation, f.name, h);
  }

  /** An unnamed relation gets the name of another one between the same models. */
  predicate Clashing(ms: Datamodel, m: Model, f: Field, x: Field) {
    && NeedsName(ms, m, f)
    && x.fieldType.Relation? && x.fieldType.to == f.fieldType.to && x.fieldType.relation == DefaultName(m.name, f.fieldType.to)
  }

  ghost predicate NoClash(ms: Datamodel) {
    forall m, f, x :: m in ms && f in m.fields && x in m.fields ==> !Clashing(ms, m, f, x)
  }

  lemma {:induction false} ApartIfNoClash(ms: Datamodel)
    requires WellFormed(ms) && Paired(ms) && NoClash(ms)
    ensures KeepsShape(ms, NameReferred(ms)) && KeepsApart(ms, NameReferred(ms))
  {
    NamingShape(ms);
    forall m, f, x | m in ms && f in m.fields && x in m.fields && f.fieldType.Relation? && x.fieldType.Relation?
                     && f.fieldType.to == x.fieldType.to
                     && NameReferred(ms)(m, f).fieldType.relation == NameReferred(ms)(m, x).fieldType.relation
      ensures f.fieldType.relation == x.fieldType.relation
    {
      assert !Clashing(ms, m, f, x) && !Clashing(ms, m, x, f);
    }
  }

  /** Too many fields of one relation. */
  lemma {:induction false} CrowdedIsUnpaired(ms: Datamodel, m: Model, f: Field, x: Field, g: Field)
    requires ModelsDistinct(ms) && m in ms && f in m.fields && x in m.fields && f.fieldType.Relation? && f != x
    requires Links(x, f.fieldType.to, f.fieldType.relation)
    requires m.name == f.fieldType.to ==> g in m.fields && g != f && g != x && Links(g, m.name, f.fieldType.relation)
    ensures !PairedField(ms, m, f)
  {
    ModelFound(ms, m);
  }

  lemma {:induction false} NamesDiffer(fs: seq<Field>, f: Field, g: Field)
    requires FieldsDistinct(fs) && f in fs && g in fs && f != g
    ensures f.name != g.name
  {
    FieldFound(fs, f);
    FieldFound(fs, g);
  }

  lemma {:induction false} ClashUnpairs(ms: Datamodel, m: Model, f: Field, x: Field)
    requires WellFormed(ms) && Paired(ms) && m in ms && f in m.fields && x in m.fields && Clashing(ms, m, f, x)
    ensures !Paired(MapModels(ms, NameReferred(ms)))
  {
    var c, r, to := NameReferred(ms), MapModels(ms, NameReferred(ms)), f.fieldType.to;
    ModelFound(ms, m);
    MappedModel(ms, c, m.name);
    DefaultNameSymmetric(m.name, to);
    var m', f', g := MapModel(m, c), c(m, f), Opposite(ms, m, f);
    OppositeIsInvolution(ms, m, f);
    assert f' in m'.fields && c(m, x) == x && x in m'.fields;
    NamesDiffer(m.fields, f, x);
    if m.name == to {
      LinkedNeedAlike(ms, m, f, m, g.value);
      assert c(m, g.value) in m'.fields;
      NamesDiffer(m.fields, g.value, x);
      CrowdedIsUnpaired(r, m', f', x, c(m, g.value));
    } else {
      CrowdedIsUnpaired(r, m', f', x, f');
    }
  }

  lemma {:induction false} NamingKeepsPairsIff(ms: Datamodel)
    requires WellFormed(ms) && Paired(ms)
    ensures WellFormed(MapModels(ms, NameReferred(ms)))
    ensures Paired(MapModels(ms, NameReferred(ms))) <==> NoClash(ms)
  {
    NamingShape(ms);
    MapWellFormed(ms, NameReferred(ms));
    if NoClash(ms) {
      ApartIfNoClash(ms);
      MapPaired(ms, NameReferred(ms));
    } else {
      var m, f, x :| m in ms && f in m.fields && x in m.fields && Clashing(ms, m, f, x);
      ClashUnpairs(ms, m, f, x);
    }
  }

  ghost predicate AllNamed(ms: Datamodel) {
    forall m, f :: m in ms && f in m.fields && f.fieldType.Relation? ==> f.fieldType.relation != ""
  }

  /** Every unnamed relation has a reference. */
  ghost predicate AllReferenced(ms: Datamodel) {
    forall m, f :: m in ms && f in m.fields && f.fieldType.Relation? && f.fieldType.relation == "" ==> HasReference(ms, m, f)
  }

  lemma {:induction false} NamedIfReferenced(ms: Datamodel)
    requires WellFormed(ms) && AllReferenced(ms)
    ensures AllNamed(MapModels(ms, NameReferred(ms)))
  {
    var c, r := NameReferred(ms), MapModels(ms, NameReferred(ms));
    MappedModel(ms, c, "");
    forall m', x | m' in r && x in m'.fields && x.fieldType.Relation? ensures x.fieldType.relation != "" {
      ModelFound(r, m');
      MappedModel(ms, c, m'.name);
      var m := FindModel(ms, m'.name).value;
      var f :| f in m.fields && x == c(m, f);
      DefaultNameSymmetric(m.name, f.fieldType.to);
    }
  }

  lemma {:induction false} AllNamedIff(ms: Datamodel)
    requires WellFormed(ms)
    ensures AllNamed(MapModels(ms, NameReferred(ms))) <==> AllReferenced(ms)
  {
    var c, r := NameReferred(ms), MapModels(ms, NameReferred(ms));
    if AllReferenced(ms) {
      NamedIfReferenced(ms);
    }
    if AllNamed(r) {
      forall m, f | m in ms && f in m.fields && f.fieldType.Relation? && f.fieldType.relation == "" ensures HasReference(ms, m, f) {
        ModelFound(ms, m);
        MappedModel(ms, c, m.name);
        assert c(m, f) in MapModel(m, c).fields;
      }
    }
  }

  // ----- standardisation as a whole -----

  /**
    `None` on a naming conflict between added and given fields, and where the naming
    of relations panics, which `NamingIsComplete` excludes for paired fields.
   */
  function Standardised(naming: Naming, ms: Datamodel): Option<Datamodel> {
    var paired :- AddMissingBackRelations(naming, ms);
    NameUnnamedRelations(SetToFields(paired))
  }

  // ----- what the input says about the result -----

  /** Whether the relation of a field has a reference in the end. */
  predicate GetsReference(naming: Naming, ms: Datamodel, m: Model, f: Field)
    requires f.fieldType.Relation?
  {
    var t := FindModel(ms, f.fieldType.to);
    t.Some? && Referred(m, f, t.value, Counterpart(naming, ms, m, f))
  }

  predicate SameEnds(m: Name, a: Name, n: Name, b: Name) {
    (m == n && a == b) || (m == b && a == n)
  }

  /** An unnamed relation would get the name that the user gave to another one between the same models. */
  predicate NameClash(naming: Naming, ms: Datamodel, m: Model, f: Field, n: Model, x: Field) {
    && f.fieldType.Relation? && f.fieldType.relation == "" && GetsReference(naming, ms, m, f)
    && x.fieldType.Relation? && x.fieldType.relation == DefaultName(m.name, f.fieldType.to)
    && SameEnds(m.name, f.fieldType.to, n.name, x.fieldType.to)
  }

  ghost predicate NoNameClash(naming: Naming, ms: Datamodel) {
    forall m, f, n, x :: m in ms && f in m.fields && n in ms && x in n.fields ==> !NameClash(naming, ms, m, f, n, x)
  }

  /** No unnamed relation stays without a reference, for want of an id. */
  ghost predicate AllGetReferences(naming: Naming, ms: Datamodel) {
    forall m, f :: m in ms && f in m.fields && f.fieldType.Relation? && f.fieldType.relation == "" ==>
      GetsReference(naming, ms, m, f)
  }

  // ----- from the input to the paired datamodel -----

  lemma {:induction false} FirstIdKept(fs: seq<Field>, gs: seq<Field>)
    requires forall g :: g in gs ==> !g.isId
    ensures FirstId(fs + gs) == FirstId(fs)
  {
    if fs == [] {
      assert fs + gs == gs;
      if gs != [] {
        assert gs[0] in gs && [] + gs[1..] == gs[1..];
        FirstIdKept([], gs[1..]);
      }
    } else {
      assert (fs + gs)[0] == fs[0] && (fs + gs)[1..] == fs[1..] + gs;
      FirstIdKept(fs[1..], gs);
    }
  }

  lemma {:induction false} IdsKept(naming: Naming, ms: Datamodel, m: Model)
    ensures IdFieldNames(Grown(m, AllMissing(naming, ms, ms))) == IdFieldNames(m)
  {
    var bs := AllMissing(naming, ms, ms);
    forall g | g in FieldsFor(m.name, bs) ensures !g.isId {
      ListedAll(naming, ms, ms, BackRelation(m.name, g));
      var t :| t in ms && AddedBy(naming, ms, t, BackRelation(m.name, g));
    }
    FirstIdKept(m.fields, FieldsFor(m.name, bs));
  }

  lemma {:induction false} GetsKept(naming: Naming, ms: Datamodel, m: Model, f: Field)
    requires WellFormed(ms) && Validated(ms) && NamesFree(naming, ms)
    requires m in ms && f in m.fields && f.fieldType.Relation?
    ensures var r, m' := AddMissingBackRelations(naming, ms), Grown(m, AllMissing(naming, ms, ms));
            && r.Some? && m' in r.value && f in m'.fields
            && (GetsReference(naming, ms, m, f) <==> GetsReference(naming, r.value, m', f))
  {
    OppositeGrown(naming, ms, m, f);
    IdsKept(naming, ms, m);
    IdsKept(naming, ms, FindModel(ms, f.fieldType.to).value);
    hide AddMissingBackRelations, WellFormed, Validated, NamesFree, AllMissing, IdFieldNames, Opposite;
  }

  lemma {:induction false} GetsSymmetric(naming: Naming, ms: Datamodel, m: Model, f: Field)
    requires WellFormed(ms) && Paired(ms) && m in ms && f in m.fields && f.fieldType.Relation?
    ensures var t, g := FindModel(ms, f.fieldType.to), Opposite(ms, m, f);
            && t.Some? && t.value in ms && g.Some? && g.value in t.value.fields
            && Links(g.value, m.name, f.fieldType.relation)
            && (GetsReference(naming, ms, m, f) <==> GetsReference(naming, ms, t.value, g.value))
  {
    OppositeIsInvolution(ms, m, f);
    ModelFound(ms, m);
    hide WellFormed, Paired, EmbedHere, IdFieldNames, Opposite;
  }

  /** Every relation of the paired datamodel has a field in the input. */
  lemma {:induction false} OldSide(naming: Naming, ms: Datamodel, m': Model, x: Field) returns (m: Model, f: Field)
    requires WellFormed(ms) && Validated(ms) && NamesFree(naming, ms) && AddMissingBackRelations(naming, ms).Some?
    requires m' in AddMissingBackRelations(naming, ms).value && x in m'.fields && x.fieldType.Relation?
    ensures m in ms && f in m.fields && f.fieldType.Relation? && f.fieldType.relation == x.fieldType.relation
    ensures SameEnds(m.name, f.fieldType.to, m'.name, x.fieldType.to)
    ensures GetsReference(naming, ms, m, f) <==> GetsReference(naming, AddMissingBackRelations(naming, ms).value, m', x)
  {
    var bs, r := AllMissing(naming, ms, ms), AddMissingBackRelations(naming, ms).value;
    BackRelationsPair(naming, ms);
    ModelFound(r, m');
    AllAdded(ms, bs, m'.name);
    m := FindModel(ms, m'.name).value;
    if x in m.fields {
      f := x;
      GetsKept(naming, ms, m, f);
    } else {
      var b := BackRelation(m.name, x);
      ListedAll(naming, ms, ms, b);
      m :| m in ms && AddedBy(naming, ms, m, b);
      f :| f in m.fields && Adds(naming, ms, m, f, b);
      GetsKept(naming, ms, m, f);
      OppositeGrown(naming, ms, m, f);
      GetsSymmetric(naming, r, Grown(m, bs), f);
    }
  }

  lemma {:induction false} AllGetKept(naming: Naming, ms: Datamodel)
    requires WellFormed(ms) && Validated(ms) && NamesFree(naming, ms)
    ensures var r := AddMissingBackRelations(naming, ms);
            r.Some? && (AllGetReferences(naming, ms) <==> AllGetReferences(naming, r.value))
  {
    BackRelationsPair(naming, ms);
    var r := AddMissingBackRelations(naming, ms).value;
    hide AddMissingBackRelations, WellFormed, Validated, NamesFree, GetsReference;
    if AllGetReferences(naming, ms) {
      forall m', x | m' in r && x in m'.fields && x.fieldType.Relation? && x.fieldType.relation == ""
        ensures GetsReference(naming, r, m', x)
      {
        var m, f := OldSide(naming, ms, m', x);
      }
    }
    if AllGetReferences(naming, r) {
      forall m, f | m in ms && f in m.fields && f.fieldType.Relation? && f.fieldType.relation == ""
        ensures GetsReference(naming, ms, m, f)
      {
        GetsKept(naming, ms, m, f);
      }
    }
  }

  lemma {:induction false} SameDefault(m: Name, a: Name, n: Name, b: Name)
    requires SameEnds(m, a, n, b)
    ensures DefaultName(m, a) == DefaultName(n, b)
  {
    DefaultNameSymmetric(m, a);
  }

  lemma {:induction false} ClashFromInput(naming: Naming, ms: Datamodel)
    requires WellFormed(ms) && Validated(ms) && NamesFree(naming, ms) && AddMissingBackRelations(naming, ms).Some?
    requires NoNameClash(naming, ms)
    ensures NoNameClash(naming, AddMissingBackRelations(naming, ms).value)
  {
    var r := AddMissingBackRelations(naming, ms).value;
    hide AddMissingBackRelations, WellFormed, Validated, NamesFree, GetsReference, DefaultName;
    forall m', y, n', z | m' in r && y in m'.fields && n' in r && z in n'.fields ensures !NameClash(naming, r, m', y, n', z) {
      if y.fieldType.Relation? && z.fieldType.Relation? {
        var m, f := OldSide(naming, ms, m', y);
        var n, x := OldSide(naming, ms, n', z);
        assert !NameClash(naming, ms, m, f, n, x);
        SameDefault(m.name, f.fieldType.to, m'.name, y.fieldType.to);
      }
    }
  }

  lemma {:induction false} ClashKept(naming: Naming, ms: Datamodel)
    requires WellFormed(ms) && Validated(ms) && NamesFree(naming, ms)
    ensures var r := AddMissingBackRelations(naming, ms);
            r.Some? && (NoNameClash(naming, ms) <==> NoNameClash(naming, r.value))
  {
    BackRelationsPair(naming, ms);
    var r, bs := AddMissingBackRelations(naming, ms).value, AllMissing(naming, ms, ms);
    hide AddMissingBackRelations, WellFormed, Validated, NamesFree, GetsReference, DefaultName, AllMissing;
    if NoNameClash(naming, ms) {
      ClashFromInput(naming, ms);
    }
    if NoNameClash(naming, r) {
      forall m, f, n, x | m in ms && f in m.fields && n in ms && x in n.fields ensures !NameClash(naming, ms, m, f, n, x) {
        if f.fieldType.Relation? && x.fieldType.Relation? {
          GetsKept(naming, ms, m, f);
          GetsKept(naming, ms, n, x);
          assert !NameClash(naming, r, Grown(m, bs), f, Grown(n, bs), x);
        }
      }
    }
  }

  // ----- from the paired datamodel to the one with references -----

  lemma {:induction false} ReferenceIsSet(naming: Naming, ms: Datamodel, m: Model, f: Field)
    requires WellFormed(ms) && Paired(ms) && m in ms && f in m.fields && f.fieldType.Relation?
    ensures var m', f' := MapModel(m, ToFieldsOf(ms)), WithToFields(ms, m, f);
            && m' in SetToFields(ms) && f' in m'.fields && f'.fieldType.Relation?
            && f'.fieldType.relation == f.fieldType.relation && f'.fieldType.to == f.fieldType.to
            && (HasReference(SetToFields(ms), m', f') <==> GetsReference(naming, ms, m, f))
  {
    ToFieldsShape(ms);
    OppositeMapped(ms, ToFieldsOf(ms), m, f);
    OppositeIsInvolution(ms, m, f);
    ModelFound(ms, m);
    MappedModel(ms, ToFieldsOf(ms), m.name);
    assert ToFieldsOf(ms)(m, f) == WithToFields(ms, m, f);
    var t, g := FindModel(ms, f.fieldType.to).value, Opposite(ms, m, f).value;
    assert ToFieldsOf(ms)(t, g) == WithToFields(ms, t, g);
    hide KeepsShape, SameForOpposites, KeepsApart, MapModels, ToFieldsOf, WellFormed, Paired, EmbedHere, IdFieldNames, Opposite, MapModel;
  }

  /** The field that a field with references comes from. */
  lemma {:induction false} BeforeReferences(ms: Datamodel, m': Model, x: Field) returns (m: Model, f: Field)
    requires WellFormed(ms) && m' in SetToFields(ms) && x in m'.fields
    ensures m in ms && f in m.fields && m' == MapModel(m, ToFieldsOf(ms)) && x == WithToFields(ms, m, f)
    ensures m.name == m'.name
  {
    MappedModel(ms, ToFieldsOf(ms), "");
    ModelFound(SetToFields(ms), m');
    MappedModel(ms, ToFieldsOf(ms), m'.name);
    m := FindModel(ms, m'.name).value;
    f :| f in m.fields && x == ToFieldsOf(ms)(m, f);
  }

  lemma {:induction false} AllReferencedIff(naming: Naming, ms: Datamodel)
    requires WellFormed(ms) && Paired(ms)
    ensures AllReferenced(SetToFields(ms)) <==> AllGetReferences(naming, ms)
  {
    var r := SetToFields(ms);
    hide SetToFields, WellFormed, Paired, HasReference, GetsReference;
    if AllReferenced(r) {
      forall m, f | m in ms && f in m.fields && f.fieldType.Relation? && f.fieldType.relation == ""
        ensures GetsReference(naming, ms, m, f)
      {
        ReferenceIsSet(naming, ms, m, f);
      }
    }
    if AllGetReferences(naming, ms) {
      forall m', x | m' in r && x in m'.fields && x.fieldType.Relation? && x.fieldType.relation == ""
        ensures HasReference(r, m', x)
      {
        var m, f := BeforeReferences(ms, m', x);
        ReferenceIsSet(naming, ms, m, f);
      }
    }
  }

  /** A field of the model `m` of the relation that `x` belongs to. */
  lemma {:induction false} SideAt(ms: Datamodel, m: Model, to: Name, n: Model, x: Field) returns (y: Field)
    requires WellFormed(ms) && Paired(ms) && m in ms && n in ms && x in n.fields && x.fieldType.Relation?
    requires SameEnds(m.name, to, n.name, x.fieldType.to)
    ensures y in m.fields && Links(y, to, x.fieldType.relation)
  {
    ModelFound(ms, m);
    ModelFound(ms, n);
    if m.name == n.name && to == x.fieldType.to {
      y := x;
    } else {
      OppositeIsInvolution(ms, n, x);
      y := Opposite(ms, n, x).value;
    }
  }

  lemma {:induction false} NoClashIff(naming: Naming, ms: Datamodel)
    requires WellFormed(ms) && Paired(ms)
    ensures NoClash(SetToFields(ms)) <==> NoNameClash(naming, ms)
  {
    var r := SetToFields(ms);
    hide SetToFields, WellFormed, Paired, HasReference, GetsReference, DefaultName, WithToFields;
    if !NoClash(r) {
      var m', y, z :| m' in r && y in m'.fields && z in m'.fields && Clashing(r, m', y, z);
      var m, f := BeforeReferences(ms, m', y);
      var n, x := BeforeReferences(ms, m', z);
      ToFieldsKeepField(ms, m, f);
      ToFieldsKeepField(ms, n, x);
      ReferenceIsSet(naming, ms, m, f);
      ReferenceIsSet(naming, ms, n, x);
      assert NameClash(naming, ms, m, f, n, x);
    }
    if !NoNameClash(naming, ms) {
      var m, f, n, x :| m in ms && f in m.fields && n in ms && x in n.fields && NameClash(naming, ms, m, f, n, x);
      var y := SideAt(ms, m, f.fieldType.to, n, x);
      ReferenceIsSet(naming, ms, m, f);
      ReferenceIsSet(naming, ms, m, y);
      assert Clashing(r, MapModel(m, ToFieldsOf(ms)), WithToFields(ms, m, f), WithToFields(ms, m, y));
    }
  }

  // ----- the theorems -----

  /** The datamodel after each part of the standardisation. */
  lemma {:induction false} Parts(naming: Naming, ms: Datamodel)
    requires WellFormed(ms) && Validated(ms) && NamesFree(naming, ms)
    ensures var r := AddMissingBackRelations(naming, ms);
            && r.Some? && WellFormed(r.value) && Paired(r.value)
            && WellFormed(SetToFields(r.value)) && Paired(SetToFields(r.value))
            && Standardised(naming, ms) == Some(MapModels(SetToFields(r.value), NameReferred(SetToFields(r.value))))
  {
    BackRelationsPair(naming, ms);
    var paired := AddMissingBackRelations(naming, ms).value;
    hide AddMissingBackRelations, Paired, WellFormed, SetToFields;
    ToFieldsKeepPairs(paired);
    NamingIsComplete(SetToFields(paired));
  }

  /**
    A validated datamodel standardises unless the name of an added field is taken.
    Then all relations are named exactly if each has something to refer to, and all
    fields are paired exactly if no default name had been given to another relation.
   */
  lemma {:induction false} StandardisedIsCompleteIff(naming: Naming, ms: Datamodel)
    requires WellFormed(ms) && Validated(ms)
    ensures var r := Standardised(naming, ms);
            && (r.Some? <==> NamesFree(naming, ms))
            && (r.Some? ==>
                  && WellFormed(r.value)
                  && (AllNamed(r.value) <==> AllGetReferences(naming, ms))
                  && (Paired(r.value) <==> NoNameClash(naming, ms)))
  {
    BackRelationsPair(naming, ms);
    hide NamesFree, Paired, AllNamed, WellFormed, Validated, NoNameClash, AllGetReferences;
    if NamesFree(naming, ms) {
      Parts(naming, ms);
      AllGetKept(naming, ms);
      ClashKept(naming, ms);
      var paired := AddMissingBackRelations(naming, ms).value;
      hide AddMissingBackRelations, SetToFields, Standardised, MapModels, NoClash, AllReferenced;
      AllReferencedIff(naming, paired);
      NoClashIff(naming, paired);
      AllNamedIff(SetToFields(paired));
      NamingKeepsPairsIff(SetToFields(paired));
    }
  }

  /** What standardisation makes of a field of the paired datamodel. */
  function FinalField(ms: Datamodel, m: Model, f: Field): Field {
    NameReferred(SetToFields(ms))(MapModel(m, ToFieldsOf(ms)), WithToFields(ms, m, f))
  }

  function FinalModel(ms: Datamodel, m: Model): Model {
    MapModel(MapModel(m, ToFieldsOf(ms)), NameReferred(SetToFields(ms)))
  }

  /**
    Opposites `f` and `g` share their relation name, stay opposites unless names
    clash, and hold the references they should exactly if there is an id to refer to.
   */
  ghost predicate SidesEndAs(paired: Datamodel, r: Datamodel, clash: bool, m: Model, f: Field, t: Model, g: Field)
    requires f.fieldType.Relation? && g.fieldType.Relation?
  {
    var x, y := FinalField(paired, m, f), FinalField(paired, t, g);
    && x.fieldType.Relation? && y.fieldType.Relation?
    && x.fieldType.relation == y.fieldType.relation
    && (!clash ==> Opposite(r, FinalModel(paired, m), x) == Some(y))
    && SideHolds(m, f, t, g, x) && SideHolds(t, g, m, f, y)
    && (SidesChosen(f, g, x, y) <==> SidesReferable(m, f, t, g))
  }

  lemma {:induction false} StandardisedSides(naming: Naming, ms: Datamodel, m: Model, f: Field)
    requires WellFormed(ms) && Validated(ms) && NamesFree(naming, ms)
    requires AddMissingBackRelations(naming, ms).Some?
    requires m in AddMissingBackRelations(naming, ms).value && f in m.fields && f.fieldType.Relation?
    ensures var paired, r := AddMissingBackRelations(naming, ms).value, Standardised(naming, ms);
            var t, g := FindModel(paired, f.fieldType.to), Opposite(paired, m, f);
            && r.Some? && t.Some? && g.Some? && g.value.fieldType.Relation?
            && SidesEndAs(paired, r.value, !NoNameClash(naming, ms), m, f, t.value, g.value)
  {
    Parts(naming, ms);
    ClashKept(naming, ms);
    hide AddMissingBackRelations, Standardised, NamesFree, NoNameClash, Validated, NoClash, SetToFields, Paired, WellFormed;
    var paired := AddMissingBackRelations(naming, ms).value;
    NoClashIff(naming, paired);
    SidesEnd(paired, m, f);
  }

  lemma {:induction false} SidesEnd(paired: Datamodel, m: Model, f: Field)
    requires WellFormed(paired) && Paired(paired) && m in paired && f in m.fields && f.fieldType.Relation?
    requires WellFormed(SetToFields(paired)) && Paired(SetToFields(paired))
    ensures var t, g := FindModel(paired, f.fieldType.to), Opposite(paired, m, f);
            var ms2 := SetToFields(paired);
            && t.Some? && g.Some? && g.value.fieldType.Relation?
            && SidesEndAs(paired, MapModels(ms2, NameReferred(ms2)), !NoClash(ms2), m, f, t.value, g.value)
  {
    hide FinalField, FinalModel, WithToFields, Opposite, SidesReferable, SetToFields, Paired, WellFormed, MapModels, NameReferred, NamesId, Holds;
    SidesAreChosen(paired, m, f);
    SidesOfFinal(paired, m, f);
    if NoClash(SetToFields(paired)) {
      OppositeOfFinal(paired, m, f);
    }
  }

  lemma {:induction false} SidesOfFinal(paired: Datamodel, m: Model, f: Field)
    requires WellFormed(paired) && Paired(paired) && m in paired && f in m.fields && f.fieldType.Relation?
    requires WellFormed(SetToFields(paired)) && Paired(SetToFields(paired))
    ensures var t, g := FindModel(paired, f.fieldType.to), Opposite(paired, m, f);
            && t.Some? && g.Some? && g.value.fieldType.Relation?
            && var x, y := FinalField(paired, m, f), FinalField(paired, t.value, g.value);
               && x.fieldType.Relation? && y.fieldType.Relation?
               && x.fieldType.relation == y.fieldType.relation
               && x.fieldType.toFields == WithToFields(paired, m, f).fieldType.toFields
               && y.fieldType.toFields == WithToFields(paired, t.value, g.value).fieldType.toFields
  {
    var ms2 := SetToFields(paired);
    ToFieldsShape(paired);
    OppositeIsInvolution(paired, m, f);
    var t, g := FindModel(paired, f.fieldType.to).value, Opposite(paired, m, f).value;
    ToFieldsKeepField(paired, m, f);
    ToFieldsKeepField(paired, t, g);
    InFinal(paired, m, f);
    InFinal(paired, t, g);
    LinkedNeedAlike(ms2, MapModel(m, ToFieldsOf(paired)), WithToFields(paired, m, f), MapModel(t, ToFieldsOf(paired)), WithToFields(paired, t, g));
    DefaultNameSymmetric(m.name, t.name);
    hide SetToFields, WellFormed, Paired, WithToFields, DefaultName, NeedsName, KeepsShape, SameForOpposites, KeepsApart;
  }

  lemma {:induction false} InFinal(ms: Datamodel, m: Model, f: Field)
    requires WellFormed(ms) && m in ms && f in m.fields
    ensures var m' := MapModel(m, ToFieldsOf(ms));
            m' in SetToFields(ms) && m'.name == m.name && WithToFields(ms, m, f) in m'.fields
  {
    ModelFound(ms, m);
    MappedModel(ms, ToFieldsOf(ms), m.name);
    assert ToFieldsOf(ms)(m, f) == WithToFields(ms, m, f);
  }

  lemma {:induction false} OppositeOfFinal(paired: Datamodel, m: Model, f: Field)
    requires WellFormed(paired) && Paired(paired) && m in paired && f in m.fields && f.fieldType.Relation?
    requires WellFormed(SetToFields(paired)) && Paired(SetToFields(paired)) && NoClash(SetToFields(paired))
    ensures var t, g := FindModel(paired, f.fieldType.to), Opposite(paired, m, f);
            var ms2 := SetToFields(paired);
            && t.Some? && g.Some? && FinalField(paired, m, f).fieldType.Relation?
            && Opposite(MapModels(ms2, NameReferred(ms2)), FinalModel(paired, m), FinalField(paired, m, f)) ==
               Some(FinalField(paired, t.value, g.value))
  {
    var ms2, m2, f2 := SetToFields(paired), MapModel(m, ToFieldsOf(paired)), WithToFields(paired, m, f);
    ToFieldsShape(paired);
    OppositeMapped(paired, ToFieldsOf(paired), m, f);
    InFinal(paired, m, f);
    ToFieldsKeepField(paired, m, f);
    NamingShape(ms2);
    ApartIfNoClash(ms2);
    OppositeMapped(ms2, NameReferred(ms2), m2, f2);
    MappedModel(paired, ToFieldsOf(paired), f.fieldType.to);
    assert ToFieldsOf(paired)(m, f) == f2;
  }
}
