/** Datamodels that standardisation refuses, leaves unnamed, or leaves without definite opposites. */
module StandardiseWitnesses {
  import opened Wrappers
  import opened Names
  import opened Relations
  import opened BackRelations
  import opened Standardise

  // ----- inputs that end unpaired, or unnamed -----

  /** Model `a` has an unnamed field `f`, and a field `c` of a relation with the default name, whose opposite is `g`. */
  ghost predicate DefaultTaken(a: Model, b: Model, i: Field, f: Field, c: Field, j: Field, g: Field) {
    && a.name != b.name && a.fields == [i, f, c] && b.fields == [j, g]
    && i.fieldType.Other? && j.fieldType.Other? && i.isId && j.isId
    && i.name != f.name && i.name != c.name && f.name != c.name && j.name != g.name
    && Links(f, b.name, "") && Links(c, b.name, DefaultName(a.name, b.name)) && Links(g, a.name, DefaultName(a.name, b.name))
    && !f.arity.List?
  }

  lemma {:induction false} DefaultTakenIsValid(a: Model, b: Model, i: Field, f: Field, c: Field, j: Field, g: Field)
    requires DefaultTaken(a, b, i, f, c, j, g)
    ensures WellFormed([a, b]) && Validated([a, b])
  {
    TwoModels(a, b);
    ThreeFields(i, f, c);
    TwoFields(j, g);
    DefaultNameSymmetric(a.name, b.name);
    hide ModelsDistinct, FieldsDistinct, FindModel, DefaultName;
    assert Unambiguous(a) && Unambiguous(b);
  }

  /** Only one field of two models lacks an opposite, and its name is free. */
  lemma {:induction false} OneMissingIsFree(naming: Naming, a: Model, b: Model, m: Model, f: Field)
    requires m in [a, b] && f in m.fields && Missing([a, b], m, f) && NewIn([a, b], Addition(naming, m, f))
    requires forall n, x :: n in [a, b] && x in n.fields && Missing([a, b], n, x) ==> n == m && x == f
    ensures NamesFree(naming, [a, b])
  {
    hide Missing, NewIn, Addition, Collide;
    forall n | n in [a, b] ensures FieldsFree(naming, [a, b], n, n.fields) {
    }
    hide FieldsFree;
  }

  lemma {:induction false} DefaultTakenIsFree(naming: Naming, a: Model, b: Model, i: Field, f: Field, c: Field, j: Field, g: Field)
    requires DefaultTaken(a, b, i, f, c, j, g) && naming(a.name, true) != j.name && naming(a.name, true) != g.name
    ensures NamesFree(naming, [a, b]) && Missing([a, b], a, f)
  {
    TwoModels(a, b);
    DefaultNameSymmetric(a.name, b.name);
    hide NamesFree, DefaultName, ModelsDistinct;
    assert Missing([a, b], a, f) && !Missing([a, b], a, c) && !Missing([a, b], b, g);
    assert NewIn([a, b], Addition(naming, a, f));
    hide FindModel, Opposite, NewIn, Addition;
    OneMissingIsFree(naming, a, b, a, f);
  }

  /** Then both relations end with one name, and their fields without definite opposites. */
  lemma {:induction false} DefaultTakenUnpairs(naming: Naming, a: Model, b: Model, i: Field, f: Field, c: Field, j: Field, g: Field)
    requires DefaultTaken(a, b, i, f, c, j, g) && naming(a.name, true) != j.name && naming(a.name, true) != g.name
    ensures var r := Standardised(naming, [a, b]); r.Some? && !Paired(r.value)
  {
    var ms := [a, b];
    DefaultTakenIsValid(a, b, i, f, c, j, g);
    DefaultTakenIsFree(naming, a, b, i, f, c, j, g);
    StandardisedIsCompleteIff(naming, ms);
    TwoModels(a, b);
    hide NamesFree, Paired, Standardised, WellFormed, Validated, AllNamed, AllGetReferences, ModelsDistinct, DefaultName;
    assert EmbedHere(a, f, b, BackField(naming, a, f));
    assert FirstId(b.fields) == Some(j);
    assert GetsReference(naming, ms, a, f);
    assert f in a.fields && c in a.fields && NameClash(naming, ms, a, f, a, c);
  }

  /** Model `b` relates `a` to itself, and has no id; the validation exempts such models from having one. */
  ghost predicate IdMissing(a: Model, b: Model, i: Field, f: Field, x: Field, y: Field) {
    && NameLess(a.name, b.name) && a.fields == [i, f] && b.fields == [x, y] && b.idFields == []
    && i.fieldType.Other? && i.isId && i.name != f.name && x.name != y.name && !x.isId && !y.isId
    && f.arity == Required && x.arity == Required && y.arity == Required
    && Links(f, b.name, "") && Links(x, a.name, "") && y.fieldType.Relation? && y.fieldType.to == a.name && y.fieldType.relation != ""
    && f.fieldType.toFields == [] && x.fieldType.toFields == []
  }

  lemma {:induction false} IdMissingIsValid(a: Model, b: Model, i: Field, f: Field, x: Field, y: Field)
    requires IdMissing(a, b, i, f, x, y)
    ensures a.name != b.name && WellFormed([a, b]) && Validated([a, b])
  {
    NameOrder(a.name, b.name);
    TwoModels(a, b);
    TwoFields(i, f);
    TwoFields(x, y);
    hide ModelsDistinct, FieldsDistinct, FindModel, NameLess;
    assert Unambiguous(a) && Unambiguous(b);
  }

  lemma {:induction false} IdMissingIsFree(naming: Naming, a: Model, b: Model, i: Field, f: Field, x: Field, y: Field)
    requires IdMissing(a, b, i, f, x, y) && naming(b.name, true) != i.name && naming(b.name, true) != f.name
    ensures NamesFree(naming, [a, b]) && Opposite([a, b], a, f) == Some(x)
  {
    NameOrder(a.name, b.name);
    TwoModels(a, b);
    hide NamesFree, NameLess, ModelsDistinct;
    assert Opposite([a, b], a, f) == Some(x) by { FoundIs(b, a.name, "", f.name, x); }
    assert Missing([a, b], b, y) && !Missing([a, b], a, f) && !Missing([a, b], b, x);
    assert NewIn([a, b], Addition(naming, b, y));
    hide FindModel, Opposite, NewIn, Addition;
    OneMissingIsFree(naming, a, b, b, y);
  }

  lemma {:induction false} IdMissingUnreferred(naming: Naming, a: Model, b: Model, i: Field, f: Field, x: Field, y: Field)
    requires IdMissing(a, b, i, f, x, y) && Opposite([a, b], a, f) == Some(x)
    ensures !GetsReference(naming, [a, b], a, f)
  {
    NameOrder(a.name, b.name);
    TwoModels(a, b);
    assert [y][1..] == [] && FirstId([y]) == None;
    assert b.fields[1..] == [y] && FirstId(b.fields) == None;
    hide FirstId, FindModel, NameLess, Opposite;
  }

  /** Then neither side of the relation between `f` and `x` gets a reference, and it stays unnamed. */
  lemma {:induction false} IdMissingStaysUnnamed(naming: Naming, a: Model, b: Model, i: Field, f: Field, x: Field, y: Field)
    requires IdMissing(a, b, i, f, x, y) && naming(b.name, true) != i.name && naming(b.name, true) != f.name
    ensures var r := Standardised(naming, [a, b]); r.Some? && !AllNamed(r.value)
  {
    IdMissingIsValid(a, b, i, f, x, y);
    IdMissingIsFree(naming, a, b, i, f, x, y);
    IdMissingUnreferred(naming, a, b, i, f, x, y);
    StandardisedIsCompleteIff(naming, [a, b]);
    hide NamesFree, Paired, Standardised, WellFormed, Validated, AllNamed, NoNameClash, GetsReference;
    assert f in a.fields && a in [a, b];
    assert !AllGetReferences(naming, [a, b]);
  }

  // ----- as concrete datamodels -----

  function IdField(): Field { Field("id", Required, Other("Int"), None, true, false) }

  function RelationField(name: Name, to: Name, relation: Name): Field {
    Field(name, Required, Relation(to, [], relation), None, false, false)
  }

  /** Names as the source makes them, for one-letter models. */
  function Lowered(): Naming {
    (n: Name, plural: bool) => if n == "A" then if plural then "as" else "a" else if plural then "js" else "j"
  }

  lemma {:induction false} FirstBefore(a: Name, b: Name)
    requires a != [] && b != [] && a[0] < b[0]
    ensures NameLess(a, b) && a != b
  {
  }

  /** An unnamed relation beside one called `AToB`: both end up as `AToB`. */
  lemma {:induction false} TakenDefaultName()
    ensures var a := Model("A", [IdField(), RelationField("b", "B", ""), RelationField("c", "B", "AToB")], []);
            var b := Model("B", [IdField(), RelationField("a", "A", "AToB")], []);
            var r := Standardised(Lowered(), [a, b]);
            && WellFormed([a, b]) && Validated([a, b]) && r.Some? && !Paired(r.value)
  {
    var i, f, c, g := IdField(), RelationField("b", "B", ""), RelationField("c", "B", "AToB"), RelationField("a", "A", "AToB");
    var a, b := Model("A", [i, f, c], []), Model("B", [i, g], []);
    FirstBefore("A", "B");
    assert DefaultName("A", "B") == "AToB";
    hide DefaultName, NameLess;
    assert "id" != "b" && "id" != "c" && "b" != "c" && "id" != "a" && "as" != "id" && "as" != "a";
    DefaultTakenIsValid(a, b, i, f, c, i, g);
    DefaultTakenUnpairs(Lowered(), a, b, i, f, c, i, g);
  }

  /** A relation model without an id, which the other side would refer to: that relation stays unnamed. */
  lemma {:induction false} RelationModelWithoutId()
    ensures var a := Model("A", [IdField(), RelationField("j", "J", "")], []);
            var j := Model("J", [RelationField("a", "A", ""), RelationField("b", "A", "Other")], []);
            var r := Standardised(Lowered(), [a, j]);
            && WellFormed([a, j]) && Validated([a, j]) && r.Some? && !AllNamed(r.value)
  {
    var i, f, x, y := IdField(), RelationField("j", "J", ""), RelationField("a", "A", ""), RelationField("b", "A", "Other");
    var a, j := Model("A", [i, f], []), Model("J", [x, y], []);
    FirstBefore("A", "J");
    hide NameLess;
    assert "id" != "j" && "a" != "b" && "js" != "id" && "js" != "j" && "J" != "A";
    IdMissingIsValid(a, j, i, f, x, y);
    IdMissingStaysUnnamed(Lowered(), a, j, i, f, x, y);
  }

  /** Two missing opposites of one name are a naming conflict. */
  lemma {:induction false} SameNameTwice(naming: Naming, a: Model, b: Model, f: Field, g: Field)
    requires a.name != b.name && a.fields == [f, g] && b.fields == [] && f.name != g.name
    requires Links(f, b.name, "One") && Links(g, b.name, "Other") && f.arity == Required && g.arity == Required
    ensures WellFormed([a, b]) && Validated([a, b]) && Standardised(naming, [a, b]).None?
  {
    TwoModels(a, b);
    TwoFields(f, g);
    assert "One" != "Other";
    assert Unambiguous(a) && Unambiguous(b);
    assert WellFormed([a, b]) by { hide FieldsDistinct, ModelsDistinct, FindModel; }
    StandardisedIsCompleteIff(naming, [a, b]);
    hide Standardised, WellFormed, Validated, ModelsDistinct, FieldsDistinct, Unambiguous;
    assert !Apart(naming, [a, b], a, f, a, g);
    assert f in a.fields && g in a.fields && a in [a, b];
    assert !FieldsFree(naming, [a, b], a, a.fields);
  }

  // ----- a datamodel that fails validation -----

  /** Two unnamed fields `x` and `y` share their opposite `g`. */
  ghost predicate SharedOpposite(a: Model, b: Model, i: Field, x: Field, y: Field, j: Field, g: Field) {
    && NameLess(a.name, b.name) && a.fields == [i, x, y] && b.fields == [j, g]
    && i.fieldType.Other? && j.fieldType.Other? && j.isId
    && i.name != x.name && i.name != y.name && x.name != y.name && j.name != g.name
    && x.arity == Required && y.arity == Required && g.arity == Required
    && Links(x, b.name, "") && Links(y, b.name, "") && Links(g, a.name, "")
    && x.fieldType.toFields == [] && y.fieldType.toFields == [] && g.fieldType.toFields == []
  }

  lemma {:induction false} SharedIsAmbiguous(a: Model, b: Model, i: Field, x: Field, y: Field, j: Field, g: Field)
    requires SharedOpposite(a, b, i, x, y, j, g)
    ensures a.name != b.name && WellFormed([a, b]) && !Validated([a, b])
  {
    NameOrder(a.name, b.name);
    TwoModels(a, b);
    ThreeFields(i, x, y);
    TwoFields(j, g);
    hide ModelsDistinct, FieldsDistinct, FindModel, NameLess;
    assert x in a.fields && y in a.fields && Ambiguous(a, x, y);
    assert !Unambiguous(a);
  }

  lemma {:induction false} SharedOpposites(a: Model, b: Model, i: Field, x: Field, y: Field, j: Field, g: Field)
    requires SharedOpposite(a, b, i, x, y, j, g)
    ensures Opposite([a, b], a, x) == Some(g) && Opposite([a, b], a, y) == Some(g) && Opposite([a, b], b, g) == Some(x)
  {
    NameOrder(a.name, b.name);
    TwoModels(a, b);
    FoundIs(b, a.name, "", x.name, g);
    FoundIs(b, a.name, "", y.name, g);
    assert [i, x, y][1..] == [x, y] && RelatedIn([x, y], a.name, b.name, "", g.name) == Some(x);
    hide NameLess;
  }

  lemma {:induction false} NothingIsMissing(naming: Naming, ms: Datamodel, rest: Datamodel)
    requires forall m, f :: m in rest && f in m.fields ==> !Missing(ms, m, f)
    ensures AllMissing(naming, ms, rest) == []
  {
    if rest != [] {
      assert rest[0] in rest && forall m :: m in rest[1..] ==> m in rest;
      NothingIsMissing(naming, ms, rest[1..]);
      NoneMissingIn(naming, ms, rest[0], rest[0].fields);
    }
  }

  lemma {:induction false} NoneMissingIn(naming: Naming, ms: Datamodel, m: Model, fs: seq<Field>)
    requires forall f :: f in fs ==> !Missing(ms, m, f)
    ensures MissingIn(naming, ms, m, fs) == []
  {
    if fs != [] {
      assert fs[0] in fs;
      NoneMissingIn(naming, ms, m, fs[1..]);
    }
  }

  /** Both `x` and `y` get a reference, and `g` does not. */
  lemma {:induction false} SharedReferences(a: Model, b: Model, i: Field, x: Field, y: Field, j: Field, g: Field)
    requires SharedOpposite(a, b, i, x, y, j, g)
    ensures var c, r := ToFieldsOf([a, b]), [j.name];
            && c(a, i) == i && c(b, j) == j && c(b, g) == g
            && c(a, x) == x.(fieldType := x.fieldType.(toFields := r)) && c(a, y) == y.(fieldType := y.fieldType.(toFields := r))
  {
    SharedOpposites(a, b, i, x, y, j, g);
    NameOrder(a.name, b.name);
    TwoModels(a, b);
    hide Opposite, NameLess, FindModel;
    assert FirstId(b.fields) == Some(j);
    assert IdFieldNames(b) == [j.name];
    hide IdFieldNames;
    assert EmbedHere(a, x, b, g) && EmbedHere(a, y, b, g) && !EmbedHere(b, g, a, x);
  }

  ghost predicate SharedReferred(a: Model, b: Model, i: Field, x: Field, y: Field, j: Field, g: Field) {
    && a.name != b.name && a.fields == [i, x, y] && b.fields == [j, g] && i.fieldType.Other? && j.fieldType.Other?
    && Links(x, b.name, "") && Links(y, b.name, "") && Links(g, a.name, "")
    && x.fieldType.toFields != [] && y.fieldType.toFields != [] && g.fieldType.toFields == []
  }

  lemma {:induction false} SharedAreNamed(a: Model, b: Model, i: Field, x: Field, y: Field, j: Field, g: Field)
    requires SharedReferred(a, b, i, x, y, j, g)
    ensures var ms := [a, b];
            && ToBeNamed(ms, a, x) && ToBeNamed(ms, a, y)
            && !ToBeNamed(ms, a, i) && !ToBeNamed(ms, b, j) && !ToBeNamed(ms, b, g)
  {
    TwoModels(a, b);
    FoundIs(b, a.name, "", x.name, g);
    FoundIs(b, a.name, "", y.name, g);
  }

  lemma {:induction false} TwoUnnamed(ms: Datamodel, m: Model, i: Field, x: Field, y: Field)
    requires !ToBeNamed(ms, m, i) && ToBeNamed(ms, m, x) && ToBeNamed(ms, m, y)
    ensures UnnamedIn(ms, m, [i, x, y]) == [Unnamed(m.name, x.name, x.fieldType.to), Unnamed(m.name, y.name, y.fieldType.to)]
  {
    assert [y][1..] == [] && UnnamedIn(ms, m, [y]) == [Unnamed(m.name, y.name, y.fieldType.to)];
    assert [x, y][1..] == [y] && [i, x, y][1..] == [x, y];
  }

  lemma {:induction false} NoneUnnamed(ms: Datamodel, m: Model, j: Field, g: Field)
    requires !ToBeNamed(ms, m, j) && !ToBeNamed(ms, m, g)
    ensures UnnamedIn(ms, m, [j, g]) == []
  {
    hide ToBeNamed;
    assert [g][1..] == [] && [j, g][1..] == [g] && UnnamedIn(ms, m, [g]) == [];
    assert UnnamedIn(ms, m, [j, g]) == UnnamedIn(ms, m, [g]);
  }

  /** Then two namings start at `a`, and `b` has one field for them. */
  lemma {:induction false} SharedIsCrowded(a: Model, b: Model, i: Field, x: Field, y: Field, j: Field, g: Field)
    requires SharedReferred(a, b, i, x, y, j, g)
    ensures FromTo(AllUnnamed([a, b], [a, b]), a.name, b.name) == 2 && Open([a, b], b.name, a.name) == 1
  {
    var ms := [a, b];
    TwoModels(a, b);
    SharedAreNamed(a, b, i, x, y, j, g);
    TwoUnnamed(ms, a, i, x, y);
    NoneUnnamed(ms, b, j, g);
    hide ToBeNamed, UnnamedIn, ModelsDistinct;
    var us := [Unnamed(a.name, x.name, b.name), Unnamed(a.name, y.name, b.name)];
    assert ms[1..] == [b] && [b][1..] == [] && AllUnnamed(ms, [b]) == [];
    assert AllUnnamed(ms, ms) == us;
    assert us[1..] == [us[1]] && [us[1]][1..] == [] && FromTo([us[1]], a.name, b.name) == 1;
    assert FromTo(us, a.name, b.name) == 2;
    assert [g][1..] == [] && b.fields[1..] == [g] && OpenIn([g], a.name) == 1;
    assert OpenIn(b.fields, a.name) == OpenIn([g], a.name);
    assert FindModel(ms, b.name) == Some(b) && Open(ms, b.name, a.name) == OpenIn(b.fields, a.name);
  }

  lemma {:induction false} SharedHasNoneMissing(naming: Naming, a: Model, b: Model, i: Field, x: Field, y: Field, j: Field, g: Field)
    requires SharedOpposite(a, b, i, x, y, j, g)
    ensures AddMissingBackRelations(naming, [a, b]) == Some([a, b])
  {
    var ms := [a, b];
    SharedOpposites(a, b, i, x, y, j, g);
    hide Opposite, NameLess;
    forall m, f | m in ms && f in m.fields ensures !Missing(ms, m, f) {
    }
    NothingIsMissing(naming, ms, ms);
  }

  /** Validation refuses such a datamodel, and the standardisation that is done all the same panics. */
  lemma {:induction false} SharedOppositePanics(naming: Naming, a: Model, b: Model, i: Field, x: Field, y: Field, j: Field, g: Field)
    requires SharedOpposite(a, b, i, x, y, j, g)
    ensures WellFormed([a, b]) && !Validated([a, b]) && AddMissingBackRelations(naming, [a, b]) == Some([a, b])
    ensures Standardised(naming, [a, b]).None?
  {
    SharedIsAmbiguous(a, b, i, x, y, j, g);
    SharedHasNoneMissing(naming, a, b, i, x, y, j, g);
    hide AddMissingBackRelations, WellFormed, Validated, NameUnnamedRelations, SetToFields, SharedOpposite;
    var a', b', x', y' := SharedIsReferred(a, b, i, x, y, j, g);
    SharedIsCrowded(a', b', i, x', y', j, g);
    CrowdedNamingPanics(SetToFields([a, b]), a'.name, b'.name);
  }

  lemma {:induction false} SharedIsReferred(a: Model, b: Model, i: Field, x: Field, y: Field, j: Field, g: Field)
    returns (a': Model, b': Model, x': Field, y': Field)
    requires SharedOpposite(a, b, i, x, y, j, g) && WellFormed([a, b])
    ensures SetToFields([a, b]) == [a', b'] && SharedReferred(a', b', i, x', y', j, g) && WellFormed([a', b'])
  {
    var c := ToFieldsOf([a, b]);
    SharedReferences(a, b, i, x, y, j, g);
    x', y' := c(a, x), c(a, y);
    a', b' := a.(fields := [i, x', y']), b.(fields := [j, g]);
    NamesOfOrdered(a, b);
    hide NameLess, WithToFields;
    assert SharedReferred(a', b', i, x', y', j, g);
    hide SharedOpposite, SharedReferred, Links;
    SharedMaps(a, b, i, x, y, j, g, a', b');
  }

  lemma {:induction false} NamesOfOrdered(a: Model, b: Model)
    requires NameLess(a.name, b.name)
    ensures a.name != b.name
  {
    NameOrder(a.name, b.name);
  }

  lemma {:induction false} SharedMaps(a: Model, b: Model, i: Field, x: Field, y: Field, j: Field, g: Field, a': Model, b': Model)
    requires WellFormed([a, b]) && a.fields == [i, x, y] && b.fields == [j, g]
    requires var c := ToFieldsOf([a, b]); a' == a.(fields := [c(a, i), c(a, x), c(a, y)]) && b' == b.(fields := [c(b, j), c(b, g)])
    ensures SetToFields([a, b]) == [a', b'] && WellFormed([a', b'])
  {
    ToFieldsShape([a, b]);
    hide WellFormed, KeepsShape, SameForOpposites, KeepsApart;
    MapWellFormed([a, b], ToFieldsOf([a, b]));
    MappedShared(a, b, i, x, y, j, g, ToFieldsOf([a, b]));
    hide MapModels, MapModel, ToFieldsOf;
  }

  lemma {:induction false} MappedShared(a: Model, b: Model, i: Field, x: Field, y: Field, j: Field, g: Field, c: Change)
    requires a.fields == [i, x, y] && b.fields == [j, g]
    ensures MapModels([a, b], c) == [MapModel(a, c), MapModel(b, c)]
    ensures MapModel(a, c) == a.(fields := [c(a, i), c(a, x), c(a, y)]) && MapModel(b, c) == b.(fields := [c(b, j), c(b, g)])
  {
    assert [a, b][1..] == [b] && [b][1..] == [] && MapModels([b], c) == [MapModel(b, c)] + [];
    assert [i, x, y][1..] == [x, y] && [x, y][1..] == [y] && [y][1..] == [] && [j, g][1..] == [g] && [g][1..] == [];
    assert MapFields(a, [y], c) == [c(a, y)] + [] && MapFields(a, [x, y], c) == [c(a, x)] + [c(a, y)];
    assert MapFields(b, [g], c) == [c(b, g)] + [];
  }

  /** Two unnamed fields of `A` to `B`, and one back. */
  lemma {:induction false} AmbiguousDatamodelPanics(naming: Naming)
    ensures var a := Model("A", [IdField(), RelationField("x", "B", ""), RelationField("y", "B", "")], []);
            var b := Model("B", [IdField(), RelationField("a", "A", "")], []);
            && WellFormed([a, b]) && !Validated([a, b])
            && AddMissingBackRelations(naming, [a, b]).Some? && Standardised(naming, [a, b]).None?
  {
    var i, x, y, g := IdField(), RelationField("x", "B", ""), RelationField("y", "B", ""), RelationField("a", "A", "");
    FirstBefore("A", "B");
    hide NameLess;
    assert "id" != "x" && "id" != "y" && "x" != "y" && "id" != "a";
    SharedOppositePanics(naming, Model("A", [i, x, y], []), Model("B", [i, g], []), i, x, y, i, g);
  }
}
