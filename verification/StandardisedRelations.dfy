/** From the datamodel a user writes to its relations: standardisation, then discovery. */
module StandardisedRelations {
  import opened Wrappers
  import opened Names
  import opened Relations
  import opened BackRelations
  import opened Standardise
  import opened RelationHolders

  // ----- changes that keep what a relation is called -----

  ghost predicate KeepsKeys(ms: Datamodel, change: Change) {
    forall m, f :: m in ms && f in m.fields && f.fieldType.Relation? ==>
      change(m, f).fieldType.Relation? && KeyOf(m, change(m, f)) == KeyOf(m, f)
  }

  ghost predicate Regular(ms: Datamodel, change: Change) {
    && WellFormed(ms) && Paired(ms)
    && KeepsShape(ms, change) && SameForOpposites(ms, change) && KeepsApart(ms, change) && KeepsKeys(ms, change)
  }

  lemma {:induction false} MappedBack(ms: Datamodel, change: Change, m': Model, x: Field) returns (m: Model, f: Field)
    requires WellFormed(ms) && m' in MapModels(ms, change) && x in m'.fields
    ensures m in ms && f in m.fields && m' == MapModel(m, change) && x == change(m, f)
  {
    MappedModel(ms, change, "");
    ModelFound(MapModels(ms, change), m');
    MappedModel(ms, change, m'.name);
    m := FindModel(ms, m'.name).value;
    f :| f in m.fields && x == change(m, f);
  }

  lemma {:induction false} SameFieldMapped(ms: Datamodel, change: Change, m: Model, f: Field, n: Model, x: Field)
    requires WellFormed(ms) && KeepsShape(ms, change) && m in ms && n in ms && f in m.fields && x in n.fields
    ensures MapModel(m, change) == MapModel(n, change) && change(m, f) == change(n, x) <==> m == n && f == x
  {
    ModelFound(ms, m);
    ModelFound(ms, n);
    if m == n {
      FieldFound(m.fields, f);
      FieldFound(m.fields, x);
    }
  }

  lemma {:induction false} KeyByName(m: Model, n: Model, f: Field)
    requires f.fieldType.Relation? && m.name == n.name
    ensures KeyOf(m, f) == KeyOf(n, f)
  {
  }

  lemma {:induction false} SamePairMapped(ms: Datamodel, change: Change, m: Model, f: Field, n: Model, x: Field)
    requires Regular(ms, change) && IsRelationField(ms, m, f) && IsRelationField(ms, n, x)
    ensures change(m, f).fieldType.Relation?
    ensures SamePair(MapModels(ms, change), MapModel(m, change), change(m, f), MapModel(n, change), change(n, x)) <==>
            SamePair(ms, m, f, n, x)
  {
    OppositeIsInvolution(ms, m, f);
    OppositeMapped(ms, change, m, f);
    MappedModel(ms, change, f.fieldType.to);
    var t, g := FindModel(ms, f.fieldType.to).value, Opposite(ms, m, f).value;
    SameFieldMapped(ms, change, m, f, n, x);
    SameFieldMapped(ms, change, t, g, n, x);
    assert change(m, f).fieldType.to == f.fieldType.to;
    hide Regular, WellFormed, Paired, KeepsShape, SameForOpposites, KeepsApart, Opposite, MapModels, MapModel, FindModel;
  }

  /** Two fields are told apart before the change exactly if they are afterwards. */
  lemma {:induction false} ToldApartMapped(ms: Datamodel, change: Change, m: Model, f: Field, n: Model, x: Field)
    requires Regular(ms, change) && IsRelationField(ms, m, f) && IsRelationField(ms, n, x)
    ensures change(m, f).fieldType.Relation? && change(n, x).fieldType.Relation?
    ensures ToldApart(MapModels(ms, change), MapModel(m, change), change(m, f), MapModel(n, change), change(n, x)) <==>
            ToldApart(ms, m, f, n, x)
  {
    assert KeyOf(m, change(m, f)) == KeyOf(m, f) && KeyOf(n, change(n, x)) == KeyOf(n, x);
    KeyByName(m, MapModel(m, change), change(m, f));
    KeyByName(n, MapModel(n, change), change(n, x));
    hide Regular, KeyOf, SamePair, MapModels, MapModel;
    SamePairMapped(ms, change, m, f, n, x);
  }

  lemma {:induction false} DistinctMapped(ms: Datamodel, change: Change)
    requires Regular(ms, change)
    ensures RelationsDistinct(MapModels(ms, change)) <==> RelationsDistinct(ms)
  {
    var r := MapModels(ms, change);
    hide MapModels, WellFormed, Paired, SameForOpposites, KeepsApart, ToldApart;
    if RelationsDistinct(ms) {
      forall m', y, n', z | IsRelationField(r, m', y) && IsRelationField(r, n', z) ensures ToldApart(r, m', y, n', z) {
        var m, f := MappedBack(ms, change, m', y);
        var n, x := MappedBack(ms, change, n', z);
        ToldApartMapped(ms, change, m, f, n, x);
      }
    }
    if RelationsDistinct(r) {
      forall m, f, n, x | IsRelationField(ms, m, f) && IsRelationField(ms, n, x) ensures ToldApart(ms, m, f, n, x) {
        InMapped(ms, change, m, f);
        InMapped(ms, change, n, x);
        ToldApartMapped(ms, change, m, f, n, x);
      }
    }
  }

  lemma {:induction false} InMapped(ms: Datamodel, change: Change, m: Model, f: Field)
    requires WellFormed(ms) && KeepsShape(ms, change) && IsRelationField(ms, m, f)
    ensures IsRelationField(MapModels(ms, change), MapModel(m, change), change(m, f))
  {
    ModelFound(ms, m);
    MappedModel(ms, change, m.name);
  }

  // ----- the parts of the standardisation -----

  lemma {:induction false} ToFieldsRegular(ms: Datamodel)
    requires WellFormed(ms) && Paired(ms)
    ensures Regular(ms, ToFieldsOf(ms))
  {
    ToFieldsShape(ms);
    forall m, f | m in ms && f in m.fields && f.fieldType.Relation?
      ensures ToFieldsOf(ms)(m, f).fieldType.Relation? && KeyOf(m, ToFieldsOf(ms)(m, f)) == KeyOf(m, f)
    {
      ToFieldsKeepField(ms, m, f);
    }
    hide ToFieldsOf;
  }

  lemma {:induction false} KeyIsDefault(m: Model, f: Field)
    requires f.fieldType.Relation? && f.fieldType.relation == ""
    ensures KeyOf(m, f) == DefaultName(m.name, f.fieldType.to)
  {
  }

  lemma {:induction false} NamingRegular(ms: Datamodel)
    requires WellFormed(ms) && Paired(ms) && NoClash(ms)
    ensures Regular(ms, NameReferred(ms))
  {
    NamingShape(ms);
    ApartIfNoClash(ms);
    forall m, f | m in ms && f in m.fields && f.fieldType.Relation?
      ensures NameReferred(ms)(m, f).fieldType.Relation? && KeyOf(m, NameReferred(ms)(m, f)) == KeyOf(m, f)
    {
      if NeedsName(ms, m, f) {
        KeyIsDefault(m, f);
        DefaultNameSymmetric(m.name, f.fieldType.to);
      }
    }
  }

  // ----- added fields tell nothing new apart -----

  lemma {:induction false} KeyOfOpposite(m: Model, f: Field, t: Model, g: Field)
    requires f.fieldType.Relation? && f.fieldType.to == t.name && Links(g, m.name, f.fieldType.relation)
    ensures KeyOf(t, g) == KeyOf(m, f)
  {
    NameOrder(m.name, t.name);
  }

  /** An end stands for its opposite. */
  lemma {:induction false} ToldApartFromOpposite(ms: Datamodel, m: Model, f: Field, n: Model, x: Field)
    requires WellFormed(ms) && Paired(ms) && IsRelationField(ms, m, f) && IsRelationField(ms, n, x)
    ensures var t, g := FindModel(ms, f.fieldType.to), Opposite(ms, m, f);
            && t.Some? && g.Some? && IsRelationField(ms, t.value, g.value)
            && (ToldApart(ms, t.value, g.value, n, x) <==> ToldApart(ms, m, f, n, x))
  {
    hide WellFormed, Paired, KeyOf;
    var t, g := Ends(ms, m, f);
    OppositeIsInvolution(ms, m, f);
    KeyOfOpposite(m, f, t, g);
    hide Opposite;
  }

  lemma {:induction false} ToldApartSymmetric(ms: Datamodel, m: Model, f: Field, n: Model, x: Field)
    requires WellFormed(ms) && Paired(ms) && IsRelationField(ms, m, f) && IsRelationField(ms, n, x)
    ensures ToldApart(ms, m, f, n, x) <==> ToldApart(ms, n, x, m, f)
  {
    hide WellFormed, Paired, KeyOf;
    var t, g := Ends(ms, m, f);
    var u, y := Ends(ms, n, x);
    hide Opposite;
  }

  lemma {:induction false} SamePairGrown(naming: Naming, ms: Datamodel, m: Model, f: Field, n: Model, x: Field)
    requires WellFormed(ms) && Validated(ms) && NamesFree(naming, ms)
    requires IsRelationField(ms, m, f) && IsRelationField(ms, n, x)
    ensures var r, bs := AddMissingBackRelations(naming, ms), AllMissing(naming, ms, ms);
            && r.Some? && (SamePair(r.value, Grown(m, bs), f, Grown(n, bs), x) <==> SamePair(ms, m, f, n, x))
  {
    OppositeGrown(naming, ms, m, f);
    GrownApart(naming, ms, m, n);
    var t := FindModel(ms, f.fieldType.to).value;
    GrownApart(naming, ms, t, n);
    if t == n {
      OppositeIsOld(naming, ms, m, f, n, x);
    }
    hide AddMissingBackRelations, WellFormed, Validated, NamesFree, AllMissing, FindModel, Opposite, Grown, Counterpart;
  }

  /** Two fields of the input are told apart exactly if they are once the missing fields are there. */
  lemma {:induction false} ToldApartGrown(naming: Naming, ms: Datamodel, m: Model, f: Field, n: Model, x: Field)
    requires WellFormed(ms) && Validated(ms) && NamesFree(naming, ms)
    requires IsRelationField(ms, m, f) && IsRelationField(ms, n, x)
    ensures var r, bs := AddMissingBackRelations(naming, ms), AllMissing(naming, ms, ms);
            && r.Some? && IsRelationField(r.value, Grown(m, bs), f) && IsRelationField(r.value, Grown(n, bs), x)
            && (ToldApart(r.value, Grown(m, bs), f, Grown(n, bs), x) <==> ToldApart(ms, m, f, n, x))
  {
    OppositeGrown(naming, ms, m, f);
    OppositeGrown(naming, ms, n, x);
    GrownApart(naming, ms, m, n);
    KeyByName(m, Grown(m, AllMissing(naming, ms, ms)), f);
    KeyByName(n, Grown(n, AllMissing(naming, ms, ms)), x);
    hide AddMissingBackRelations, WellFormed, Validated, NamesFree, AllMissing, FindModel, Opposite, Grown, Counterpart, KeyOf, SamePair;
    SamePairGrown(naming, ms, m, f, n, x);
  }

  lemma {:induction false} GrownApart(naming: Naming, ms: Datamodel, m: Model, n: Model)
    requires WellFormed(ms) && m in ms && n in ms
    ensures var bs := AllMissing(naming, ms, ms);
            (Grown(m, bs) == Grown(n, bs) <==> m == n) && Grown(m, bs).name == m.name && Grown(n, bs).name == n.name
  {
    ModelFound(ms, m);
    ModelFound(ms, n);
  }

  /** If the opposite in the end is a field of the input, it is the opposite in the input. */
  lemma {:induction false} OppositeIsOld(naming: Naming, ms: Datamodel, m: Model, f: Field, n: Model, x: Field)
    requires WellFormed(ms) && Validated(ms) && NamesFree(naming, ms)
    requires IsRelationField(ms, m, f) && IsRelationField(ms, n, x) && FindModel(ms, f.fieldType.to) == Some(n)
    ensures Counterpart(naming, ms, m, f) == x <==> Opposite(ms, m, f) == Some(x)
  {
    if Missing(ms, m, f) {
      BackRelationsPair(naming, ms);
      BackFieldListed(naming, ms, m, f);
      AddedIsNew(ms, AllMissing(naming, ms, ms), n.name, x, BackField(naming, m, f));
    }
  }

  /** A field of the paired datamodel is a field of the input, or opposite to one. */
  ghost predicate EndOf(r: Datamodel, m: Model, f: Field, m': Model, y: Field) {
    && IsRelationField(r, m, f)
    && ((m == m' && f == y) || (FindModel(r, f.fieldType.to) == Some(m') && Opposite(r, m, f) == Some(y)))
  }

  lemma {:induction false} OldEnd(naming: Naming, ms: Datamodel, m': Model, y: Field) returns (m: Model, f: Field)
    requires WellFormed(ms) && Validated(ms) && NamesFree(naming, ms) && AddMissingBackRelations(naming, ms).Some?
    requires IsRelationField(AddMissingBackRelations(naming, ms).value, m', y)
    ensures IsRelationField(ms, m, f)
    ensures EndOf(AddMissingBackRelations(naming, ms).value, Grown(m, AllMissing(naming, ms, ms)), f, m', y)
  {
    var bs, r := AllMissing(naming, ms, ms), AddMissingBackRelations(naming, ms).value;
    AllAdded(ms, bs, m'.name);
    ModelFound(r, m');
    m := FindModel(ms, m'.name).value;
    if y in m.fields {
      f := y;
    } else {
      var b := BackRelation(m.name, y);
      ListedAll(naming, ms, ms, b);
      m :| m in ms && AddedBy(naming, ms, m, b);
      f :| f in m.fields && Adds(naming, ms, m, f, b);
      OppositeGrown(naming, ms, m, f);
    }
  }

  lemma {:induction false} ToldApartFromEnd(ms: Datamodel, m: Model, f: Field, m': Model, y: Field, n: Model, x: Field)
    requires WellFormed(ms) && Paired(ms) && EndOf(ms, m, f, m', y) && IsRelationField(ms, n, x)
    ensures IsRelationField(ms, m', y) && (ToldApart(ms, m', y, n, x) <==> ToldApart(ms, m, f, n, x))
  {
    hide WellFormed, Paired, ToldApart;
    ToldApartFromOpposite(ms, m, f, n, x);
  }

  lemma {:induction false} DistinctGrown(naming: Naming, ms: Datamodel)
    requires WellFormed(ms) && Validated(ms) && NamesFree(naming, ms)
    ensures var r := AddMissingBackRelations(naming, ms);
            r.Some? && (RelationsDistinct(r.value) <==> RelationsDistinct(ms))
  {
    BackRelationsPair(naming, ms);
    var r, bs := AddMissingBackRelations(naming, ms).value, AllMissing(naming, ms, ms);
    hide AddMissingBackRelations, WellFormed, Validated, NamesFree, Paired, AllMissing, Grown, ToldApart, IsRelationField;
    if RelationsDistinct(r) {
      forall m, f, n, x | IsRelationField(ms, m, f) && IsRelationField(ms, n, x) ensures ToldApart(ms, m, f, n, x) {
        ToldApartGrown(naming, ms, m, f, n, x);
      }
    }
    if RelationsDistinct(ms) {
      forall m', y, n', z | IsRelationField(r, m', y) && IsRelationField(r, n', z) ensures ToldApart(r, m', y, n', z) {
        var m, f := OldEnd(naming, ms, m', y);
        var n, x := OldEnd(naming, ms, n', z);
        ToldApartGrown(naming, ms, m, f, n, x);
        EndsToldApart(r, Grown(m, bs), f, m', y, Grown(n, bs), x, n', z);
      }
    }
  }

  lemma {:induction false} EndsToldApart(ms: Datamodel, m: Model, f: Field, m': Model, y: Field, n: Model, x: Field, n': Model, z: Field)
    requires WellFormed(ms) && Paired(ms) && EndOf(ms, m, f, m', y) && EndOf(ms, n, x, n', z)
    ensures IsRelationField(ms, m', y) && IsRelationField(ms, n', z)
    ensures ToldApart(ms, m', y, n', z) <==> ToldApart(ms, m, f, n, x)
  {
    hide WellFormed, Paired, ToldApart;
    ToldApartFromEnd(ms, m, f, m', y, n, x);
    ToldApartFromEnd(ms, n, x, n', z, m', y);
    ToldApartSymmetric(ms, m', y, n, x);
    ToldApartSymmetric(ms, m', y, n', z);
  }

  // ----- references on both sides are the user's -----

  /** A one-to-one relation has references on both sides. */
  ghost predicate SomeBothInline(ms: Datamodel) {
    exists m, f :: IsRelationField(ms, m, f) && BothInline(ms, m, f)
  }

  lemma {:induction false} InlineMapped(ms: Datamodel, change: Change, m: Model, f: Field)
    requires Regular(ms, change) && IsRelationField(ms, m, f)
    requires var t, g := FindModel(ms, f.fieldType.to), Opposite(ms, m, f);
             t.Some? && g.Some? ==>
               && change(m, f).fieldType.Relation? && change(t.value, g.value).fieldType.Relation?
               && change(m, f).arity == f.arity && change(t.value, g.value).arity == g.value.arity
               && (g.value.fieldType.Relation? && !f.arity.List? && !g.value.arity.List? ==>
                     (change(m, f).fieldType.toFields != [] && change(t.value, g.value).fieldType.toFields != [] <==>
                      f.fieldType.toFields != [] && g.value.fieldType.toFields != []))
    ensures change(m, f).fieldType.Relation?
    ensures BothInline(MapModels(ms, change), MapModel(m, change), change(m, f)) <==> BothInline(ms, m, f)
  {
    OppositeIsInvolution(ms, m, f);
    OppositeMapped(ms, change, m, f);
    hide Regular, WellFormed, Paired, Opposite, MapModels, MapModel, FindModel;
  }

  lemma {:induction false} InlineToFields(ms: Datamodel, m: Model, f: Field)
    requires WellFormed(ms) && Paired(ms) && IsRelationField(ms, m, f)
    ensures WithToFields(ms, m, f).fieldType.Relation?
    ensures BothInline(SetToFields(ms), MapModel(m, ToFieldsOf(ms)), WithToFields(ms, m, f)) <==> BothInline(ms, m, f)
  {
    ToFieldsRegular(ms);
    var t, g := Ends(ms, m, f);
    OneSideEmbeds(m, f, t, g);
    var change := ToFieldsOf(ms);
    assert change(m, f) == WithToFields(ms, m, f) && change(t, g) == WithToFields(ms, t, g);
    hide Regular, WellFormed, Paired, Opposite, MapModels, MapModel, FindModel, EmbedHere, IdFieldNames, ToFieldsOf;
    InlineMapped(ms, change, m, f);
  }

  lemma {:induction false} InlineNamed(ms: Datamodel, m: Model, f: Field)
    requires WellFormed(ms) && Paired(ms) && NoClash(ms) && IsRelationField(ms, m, f)
    ensures var change := NameReferred(ms);
            && change(m, f).fieldType.Relation?
            && (BothInline(MapModels(ms, change), MapModel(m, change), change(m, f)) <==> BothInline(ms, m, f))
  {
    NamingRegular(ms);
    var t, g := Ends(ms, m, f);
    var change := NameReferred(ms);
    hide Regular, WellFormed, Paired, Opposite, MapModels, MapModel, FindModel, NeedsName, DefaultName;
    InlineMapped(ms, change, m, f);
  }

  lemma {:induction false} InlineGrown(naming: Naming, ms: Datamodel, m: Model, f: Field)
    requires WellFormed(ms) && Validated(ms) && NamesFree(naming, ms) && IsRelationField(ms, m, f)
    ensures var r, m' := AddMissingBackRelations(naming, ms), Grown(m, AllMissing(naming, ms, ms));
            && r.Some? && IsRelationField(r.value, m', f)
            && (BothInline(r.value, m', f) <==> BothInline(ms, m, f))
  {
    OppositeGrown(naming, ms, m, f);
    hide AddMissingBackRelations, WellFormed, Validated, NamesFree, AllMissing, FindModel, Opposite, Grown;
  }

  lemma {:induction false} InlineFromEnd(ms: Datamodel, m: Model, f: Field, m': Model, y: Field)
    requires WellFormed(ms) && Paired(ms) && EndOf(ms, m, f, m', y)
    ensures y.fieldType.Relation? && (BothInline(ms, m, f) <==> BothInline(ms, m', y))
  {
    OppositeIsInvolution(ms, m, f);
    hide WellFormed, Paired, Opposite, FindModel;
  }

  lemma {:induction false} SomeInlineGrown(naming: Naming, ms: Datamodel)
    requires WellFormed(ms) && Validated(ms) && NamesFree(naming, ms)
    ensures var r := AddMissingBackRelations(naming, ms); r.Some? && (SomeBothInline(r.value) <==> SomeBothInline(ms))
  {
    BackRelationsPair(naming, ms);
    var r, bs := AddMissingBackRelations(naming, ms).value, AllMissing(naming, ms, ms);
    hide AddMissingBackRelations, WellFormed, Validated, NamesFree, Paired, AllMissing, Grown, BothInline;
    if m, f :| IsRelationField(ms, m, f) && BothInline(ms, m, f) {
      InlineGrown(naming, ms, m, f);
    }
    if m', y :| IsRelationField(r, m', y) && BothInline(r, m', y) {
      var m, f := OldEnd(naming, ms, m', y);
      InlineGrown(naming, ms, m, f);
      InlineFromEnd(r, Grown(m, bs), f, m', y);
    }
  }

  lemma {:induction false} SomeInlineToFields(ms: Datamodel)
    requires WellFormed(ms) && Paired(ms)
    ensures SomeBothInline(SetToFields(ms)) <==> SomeBothInline(ms)
  {
    var r, change := SetToFields(ms), ToFieldsOf(ms);
    ToFieldsShape(ms);
    hide WellFormed, Paired, BothInline, MapModels, WithToFields, KeepsShape, SameForOpposites, KeepsApart;
    if m, f :| IsRelationField(ms, m, f) && BothInline(ms, m, f) {
      InlineToFields(ms, m, f);
      InMapped(ms, change, m, f);
    }
    if m', y :| IsRelationField(r, m', y) && BothInline(r, m', y) {
      var m, f := MappedBack(ms, change, m', y);
      ToFieldsKeepField(ms, m, f);
      InlineToFields(ms, m, f);
    }
  }

  lemma {:induction false} SomeInlineNamed(ms: Datamodel)
    requires WellFormed(ms) && Paired(ms) && NoClash(ms)
    ensures SomeBothInline(MapModels(ms, NameReferred(ms))) <==> SomeBothInline(ms)
  {
    var change := NameReferred(ms);
    var r := MapModels(ms, change);
    NamingShape(ms);
    hide WellFormed, Paired, BothInline, MapModels, SameForOpposites, NoClash, NameReferred;
    if m, f :| IsRelationField(ms, m, f) && BothInline(ms, m, f) {
      InlineNamed(ms, m, f);
      InMapped(ms, change, m, f);
    }
    if m', y :| IsRelationField(r, m', y) && BothInline(r, m', y) {
      var m, f := MappedBack(ms, change, m', y);
      InlineNamed(ms, m, f);
    }
  }

  // ----- the theorem -----

  /** Each relation field belongs to one calculated relation, on its own side. */
  ghost predicate EachInOne(ms: Datamodel) {
    && CalculatedRelations(ms).Some?
    && forall m, f :: IsRelationField(ms, m, f) ==> ExactlyOne(ms, CalculatedRelations(ms).value, m, f)
  }

  lemma {:induction false} ClashingAreAlike(naming: Naming, ms: Datamodel, m: Model, f: Field, n: Model, x: Field)
    requires NameClash(naming, ms, m, f, n, x)
    ensures !ToldApart(ms, m, f, n, x)
  {
    KeyIsDefault(m, f);
    DefaultNameSymmetric(m.name, f.fieldType.to);
    hide GetsReference, DefaultName, NameLess;
    assert KeyOf(n, x) == x.fieldType.relation;
    assert Opposite(ms, m, f) != Some(x);
  }

  /** Relations of different names do not clash. */
  lemma {:induction false} DistinctDoNotClash(naming: Naming, ms: Datamodel)
    requires RelationsDistinct(ms)
    ensures NoNameClash(naming, ms)
  {
    hide ToldApart, GetsReference, DefaultName;
    forall m, f, n, x | m in ms && f in m.fields && n in ms && x in n.fields ensures !NameClash(naming, ms, m, f, n, x) {
      if f.fieldType.Relation? && x.fieldType.Relation? {
        assert IsRelationField(ms, m, f) && IsRelationField(ms, n, x) && ToldApart(ms, m, f, n, x);
        if NameClash(naming, ms, m, f, n, x) {
          ClashingAreAlike(naming, ms, m, f, n, x);
        }
      }
    }
  }

  // ----- relations that clash are not all calculated -----

  /** What a calculated relation says of a field that belongs to it, paired or not. */
  lemma {:induction false} BelongsByName(ms: Datamodel, h: Holder, m: Model, f: Field)
    requires CalculatedRelations(ms).Some? && h in CalculatedRelations(ms).value && ModelsDistinct(ms)
    requires f.fieldType.Relation? && f.fieldType.relation != "" && IsFor(h, m, f)
    ensures HolderName(h) == f.fieldType.relation
  {
    hide HolderOf, IsFor, CalculatedRelations;
    CalculatedAreDiscovered(ms, h);
    var n, x :| Discovered(ms, n, x, h);
    DiscoveredEnds(ms, n, x, h, m, f);
  }

  lemma {:induction false} DiscoveredEnds(ms: Datamodel, n: Model, x: Field, h: Holder, m: Model, f: Field)
    requires HolderOf(ms, n, x) == Some(h) && IsFor(h, m, f) && f.fieldType.Relation?
    ensures h.name == f.fieldType.relation
  {
    hide ManifestationOf, FindModel;
  }

  /** Three fields of one name do not each belong to a calculated relation. */
  lemma {:induction false} ThreeAreTooMany(ms: Datamodel, m: Model, f: Field, x: Field, t: Model, g: Field)
    requires ModelsDistinct(ms) && CalculatedRelations(ms).Some?
    requires IsRelationField(ms, m, f) && IsRelationField(ms, m, x) && IsRelationField(ms, t, g)
    requires f != x && (m, f) != (t, g) && (m, x) != (t, g)
    requires f.fieldType.relation != "" && x.fieldType.relation == f.fieldType.relation && g.fieldType.relation == f.fieldType.relation
    ensures !EachInOne(ms)
  {
    var hs := CalculatedRelations(ms).value;
    hide CalculatedRelations, OnOwnSide, HolderName;
    if EachInOne(ms) {
      assert ExactlyOne(ms, hs, m, f) && ExactlyOne(ms, hs, m, x) && ExactlyOne(ms, hs, t, g);
      var i :| 0 <= i < |hs| && IsFor(hs[i], m, f);
      var j :| 0 <= j < |hs| && IsFor(hs[j], m, x);
      var k :| 0 <= k < |hs| && IsFor(hs[k], t, g);
      BelongsByName(ms, hs[i], m, f);
      BelongsByName(ms, hs[j], m, x);
      BelongsByName(ms, hs[k], t, g);
      NamesTellApart(ms, i, j);
      NamesTellApart(ms, i, k);
      assert false;
    }
  }

  lemma {:induction false} ClashIsNotInOne(ms: Datamodel, m: Model, f: Field, x: Field)
    requires WellFormed(ms) && Paired(ms) && m in ms && f in m.fields && x in m.fields && Clashing(ms, m, f, x)
    ensures !EachInOne(MapModels(ms, NameReferred(ms)))
  {
    var c, r, to := NameReferred(ms), MapModels(ms, NameReferred(ms)), f.fieldType.to;
    var t, g := Ends(ms, m, f);
    NamingShape(ms);
    InMapped(ms, c, m, f);
    InMapped(ms, c, m, x);
    InMapped(ms, c, t, g);
    LinkedNeedAlike(ms, m, f, t, g);
    DefaultNameSymmetric(m.name, to);
    NamesDiffer(m.fields, f, x);
    if m.name == t.name {
      NamesDiffer(m.fields, g, x);
    }
    MappedModel(ms, c, "");
    hide WellFormed, Paired, KeepsShape, SameForOpposites, MapModels, EachInOne, DefaultName, Opposite, HasReference, FindModel;
    if CalculatedRelations(r).Some? {
      ThreeAreTooMany(r, MapModel(m, c), c(m, f), c(m, x), MapModel(t, c), c(t, g));
    } else {
      NoneIsNotInOne(r);
    }
  }

  lemma {:induction false} NoneIsNotInOne(ms: Datamodel)
    requires CalculatedRelations(ms).None?
    ensures !EachInOne(ms)
  {
  }

  lemma {:induction false} ClashLosesRelations(naming: Naming, ms: Datamodel)
    requires WellFormed(ms) && Validated(ms) && NamesFree(naming, ms) && !NoNameClash(naming, ms)
    ensures Standardised(naming, ms).Some? && !EachInOne(Standardised(naming, ms).value)
  {
    Parts(naming, ms);
    ClashKept(naming, ms);
    var paired := AddMissingBackRelations(naming, ms).value;
    hide AddMissingBackRelations, Standardised, WellFormed, Validated, Paired, NamesFree, NoNameClash, MapModels, EachInOne, SetToFields, NameReferred;
    NoClashIff(naming, paired);
    var ms2 := SetToFields(paired);
    var m, f, x :| m in ms2 && f in m.fields && x in m.fields && Clashing(ms2, m, f, x);
    ClashIsNotInOne(ms2, m, f, x);
  }

  /**
    Every relation field of the standardised datamodel belongs to one relation that is
    calculated from it, if and only if the relations of the datamodel that the user wrote
    have different names, given or by default, and none has references on both sides.
   */
  lemma {:induction false} StandardisedInOneIff(naming: Naming, ms: Datamodel)
    requires WellFormed(ms) && Validated(ms) && NamesFree(naming, ms)
    ensures var r := Standardised(naming, ms);
            && r.Some? && WellFormed(r.value)
            && (EachInOne(r.value) <==> RelationsDistinct(ms) && !SomeBothInline(ms))
            && (NoNameClash(naming, ms) ==> Paired(r.value) && (CalculatedRelations(r.value).None? <==> SomeBothInline(ms)))
  {
    StandardisedIsCompleteIff(naming, ms);
    hide Standardised, WellFormed, Validated, NamesFree, NoNameClash, RelationsDistinct, EachInOne, CalculatedRelations, AllNamed, AllGetReferences, Paired;
    if NoNameClash(naming, ms) {
      InOneUnlessClash(naming, ms);
    } else {
      ClashLosesRelations(naming, ms);
      if RelationsDistinct(ms) {
        DistinctDoNotClash(naming, ms);
      }
    }
  }

  lemma {:induction false} InOneUnlessClash(naming: Naming, ms: Datamodel)
    requires WellFormed(ms) && Validated(ms) && NamesFree(naming, ms) && NoNameClash(naming, ms)
    ensures var r := Standardised(naming, ms);
            && r.Some?
            && (CalculatedRelations(r.value).None? <==> SomeBothInline(ms))
            && (EachInOne(r.value) <==> RelationsDistinct(ms) && !SomeBothInline(ms))
  {
    Parts(naming, ms);
    StandardisedIsCompleteIff(naming, ms);
    DistinctGrown(naming, ms);
    SomeInlineGrown(naming, ms);
    ClashKept(naming, ms);
    var paired := AddMissingBackRelations(naming, ms).value;
    hide AddMissingBackRelations, Standardised, WellFormed, Validated, Paired, NamesFree, NoNameClash, AllNamed, AllGetReferences, NoClash;
    hide RelationsDistinct, MapModels, ExactlyOne, CalculatedRelations, NameReferred, ToFieldsOf, Regular, BothInline;
    NoClashIff(naming, paired);
    ToFieldsRegular(paired);
    DistinctMapped(paired, ToFieldsOf(paired));
    SomeInlineToFields(paired);
    var ms2 := SetToFields(paired);
    NamingRegular(ms2);
    DistinctMapped(ms2, NameReferred(ms2));
    SomeInlineNamed(ms2);
    var r := Standardised(naming, ms).value;
    CalculatedUnlessBothInline(r);
    if CalculatedRelations(r).Some? {
      OneRelationPerFieldIff(r);
    }
  }
}
