/**
  The relations of a standardised datamodel: each is discovered from both of its
  fields, and looks the same from either.
 */
module RelationHolders {
  import opened Wrappers
  import opened Names
  import opened Relations

  datatype Manifestation = Inline(inTableOfModel: Name, column: Name) | JoinTable

  datatype Holder = Holder(
    name: Name, modelA: Model, modelB: Model, fieldA: Field, fieldB: Field, manifestation: Manifestation)

  datatype Side = SideA | SideB

  function FinalDbName(f: Field): Name {
    if f.databaseName.Some? then f.databaseName.value else f.name
  }

  function InlineOn(m: Model, f: Field): Manifestation {
    Inline(m.name, FinalDbName(f))
  }

  /** The four parts of a relation in the order of model names, or of field names for a self relation. */
  function Sides(m: Model, f: Field, t: Model, g: Field): (Model, Field, Model, Field) {
    if NameLess(m.name, t.name) then (m, f, t, g)
    else if NameLess(t.name, m.name) then (t, g, m, f)
    else if NameLess(f.name, g.name) then (m, f, t, g)
    else (m, g, t, f)
  }

  /** `None` if both sides of a one-to-one relation hold a reference. */
  function ManifestationOf(m: Model, f: Field, t: Model, g: Field): Option<Manifestation>
    requires f.fieldType.Relation? && g.fieldType.Relation?
  {
    var (modelA, fieldA, modelB, fieldB) := Sides(m, f, t, g);
    if fieldA.arity.List? && fieldB.arity.List? then Some(JoinTable)
    else if fieldB.arity.List? then Some(InlineOn(modelA, fieldA))
    else if fieldA.arity.List? then Some(InlineOn(modelB, fieldB))
    else
      match (f.fieldType.toFields == [], g.fieldType.toFields == [])
      case (false, true) => Some(InlineOn(m, f))
      case (true, false) => Some(InlineOn(t, g))
      case (true, true) => Some(if NameLess(modelA.name, modelB.name) then InlineOn(modelA, fieldA) else InlineOn(modelB, fieldB))
      case (false, false) => None
  }

  /** The relation as it is discovered from a field. */
  function HolderOf(ms: Datamodel, m: Model, f: Field): Option<Holder> {
    if !f.fieldType.Relation? then None
    else
      var t :- FindModel(ms, f.fieldType.to);
      var g :- Opposite(ms, m, f);
      if !g.fieldType.Relation? then None
      else
        var manifestation :- ManifestationOf(m, f, t, g);
        var (modelA, fieldA, modelB, fieldB) := Sides(m, f, t, g);
        Some(Holder(f.fieldType.relation, modelA, modelB, fieldA, fieldB, manifestation))
  }

  function HolderName(h: Holder): Name {
    if h.name == "" then h.modelA.name + "To" + h.modelB.name else h.name
  }

  // ----- the same from either side -----

  lemma {:induction false} SidesSwap(m: Model, f: Field, t: Model, g: Field)
    requires m.name == t.name ==> m == t && f.name != g.name
    ensures Sides(t, g, m, f) == Sides(m, f, t, g)
    ensures Sides(m, f, t, g) == (m, f, t, g) || Sides(m, f, t, g) == (t, g, m, f)
  {
    NameOrder(m.name, t.name);
    NameOrder(f.name, g.name);
  }

  lemma {:induction false} ManifestationSwap(m: Model, f: Field, t: Model, g: Field)
    requires f.fieldType.Relation? && g.fieldType.Relation?
    requires m.name == t.name ==> m == t && f.name != g.name
    ensures ManifestationOf(t, g, m, f) == ManifestationOf(m, f, t, g)
  {
    SidesSwap(m, f, t, g);
    hide Sides;
  }

  /** The two ends of a relation field, and what a pairing says of them. */
  lemma {:induction false} Ends(ms: Datamodel, m: Model, f: Field) returns (t: Model, g: Field)
    requires WellFormed(ms) && Paired(ms) && m in ms && f in m.fields && f.fieldType.Relation?
    ensures FindModel(ms, f.fieldType.to) == Some(t) && Opposite(ms, m, f) == Some(g)
    ensures t in ms && g in t.fields && g.fieldType.Relation?
    ensures FindModel(ms, g.fieldType.to) == Some(m) && Opposite(ms, t, g) == Some(f)
    ensures g.fieldType.relation == f.fieldType.relation
    ensures f != g && (m.name == t.name ==> m == t && f.name != g.name)
  {
    OppositeIsInvolution(ms, m, f);
    t, g := FindModel(ms, f.fieldType.to).value, Opposite(ms, m, f).value;
    ModelFound(ms, m);
  }

  /** Whichever field a relation is discovered from, it is the same relation. */
  lemma {:induction false} SameFromEitherSide(ms: Datamodel, m: Model, f: Field)
    requires WellFormed(ms) && Paired(ms) && m in ms && f in m.fields && f.fieldType.Relation?
    ensures var t, g := FindModel(ms, f.fieldType.to), Opposite(ms, m, f);
            t.Some? && g.Some? && HolderOf(ms, t.value, g.value) == HolderOf(ms, m, f)
  {
    hide WellFormed, Paired;
    var t, g := Ends(ms, m, f);
    SidesSwap(m, f, t, g);
    ManifestationSwap(m, f, t, g);
    hide Sides, ManifestationOf, Opposite;
  }

  /** A relation contains a field, on one of its two sides. */
  predicate IsFor(h: Holder, m: Model, f: Field) {
    (h.modelA == m && h.fieldA == f) || (h.modelB == m && h.fieldB == f)
  }

  /** The side is told from the field alone. */
  function RelationSide(h: Holder, f: Field): Option<Side> {
    if f == h.fieldA then Some(SideA) else if f == h.fieldB then Some(SideB) else None
  }

  /** A relation is for its two fields and for no other, and they are on different sides. */
  lemma {:induction false} HolderIsForItsFields(ms: Datamodel, m: Model, f: Field)
    requires WellFormed(ms) && Paired(ms) && m in ms && f in m.fields && f.fieldType.Relation? && HolderOf(ms, m, f).Some?
    ensures var h := HolderOf(ms, m, f).value;
            var t, g := FindModel(ms, f.fieldType.to), Opposite(ms, m, f);
            && t.Some? && g.Some?
            && (forall n, x :: IsFor(h, n, x) <==> (n == m && x == f) || (n == t.value && x == g.value))
            && RelationSide(h, f).Some? && RelationSide(h, g.value).Some?
            && RelationSide(h, f) != RelationSide(h, g.value)
  {
    hide WellFormed, Paired;
    var t, g := Ends(ms, m, f);
    SidesSwap(m, f, t, g);
    hide Sides, ManifestationOf, Opposite;
  }

  /**
    A relation is kept in a table of its own if and only if both sides are lists; otherwise in a
    column on a side that is no list, on the one with a reference if just one of two has it, and
    else on the side of the lesser model, or of the greater field of a self relation.
   */
  lemma {:induction false} KeptWhereSingle(ms: Datamodel, m: Model, f: Field)
    requires WellFormed(ms) && Paired(ms) && m in ms && f in m.fields && f.fieldType.Relation? && HolderOf(ms, m, f).Some?
    ensures var h, g := HolderOf(ms, m, f).value, Opposite(ms, m, f);
            && g.Some? && g.value.fieldType.Relation? && h.name == f.fieldType.relation
            && !NameLess(h.modelB.name, h.modelA.name)
            && (h.manifestation == JoinTable <==> f.arity.List? && g.value.arity.List?)
            && (!f.arity.List? && g.value.arity.List? ==> h.manifestation == Inline(m.name, FinalDbName(f)))
            && (!f.arity.List? && !g.value.arity.List? && f.fieldType.toFields != [] ==> h.manifestation == Inline(m.name, FinalDbName(f)))
            && ((&& !f.arity.List? && !g.value.arity.List? && f.fieldType.toFields == [] && g.value.fieldType.toFields == []
                 && (NameLess(m.name, f.fieldType.to) || (m.name == f.fieldType.to && NameLess(g.value.name, f.name))))
                ==> h.manifestation == Inline(m.name, FinalDbName(f)))
  {
    hide WellFormed, Paired;
    var t, g := Ends(ms, m, f);
    NameOrder(m.name, t.name);
    NameOrder(f.name, g.name);
    SidesSwap(m, f, t, g);
    hide Opposite;
  }

  // ----- when a relation is refused -----

  /** Both sides of a one-to-one relation hold a reference. */
  predicate BothInline(ms: Datamodel, m: Model, f: Field)
    requires f.fieldType.Relation?
  {
    var g := Opposite(ms, m, f);
    && g.Some? && g.value.fieldType.Relation? && !f.arity.List? && !g.value.arity.List?
    && f.fieldType.toFields != [] && g.value.fieldType.toFields != []
  }

  /** Of paired fields, only those two references are refused. */
  lemma {:induction false} RefusedIffBothInline(ms: Datamodel, m: Model, f: Field)
    requires WellFormed(ms) && Paired(ms) && m in ms && f in m.fields && f.fieldType.Relation?
    ensures HolderOf(ms, m, f).None? <==> BothInline(ms, m, f)
  {
    hide WellFormed, Paired;
    var t, g := Ends(ms, m, f);
    SidesSwap(m, f, t, g);
    hide Sides, Opposite;
  }

  // ----- all relations -----

  function FieldHolders(ms: Datamodel, m: Model, fs: seq<Field>): Option<seq<Holder>> {
    if fs == [] then Some([])
    else if !fs[0].fieldType.Relation? then FieldHolders(ms, m, fs[1..])
    else
      var h :- HolderOf(ms, m, fs[0]);
      var hs :- FieldHolders(ms, m, fs[1..]);
      Some([h] + hs)
  }

  function ModelHolders(ms: Datamodel, rest: Datamodel): Option<seq<Holder>> {
    if rest == [] then Some([])
    else
      var hs :- FieldHolders(ms, rest[0], rest[0].fields);
      var more :- ModelHolders(ms, rest[1..]);
      Some(hs + more)
  }

  /** The first holder of each name, in order. */
  function UniqueByName(hs: seq<Holder>, seen: set<Name>): seq<Holder> {
    if hs == [] then []
    else if HolderName(hs[0]) in seen then UniqueByName(hs[1..], seen)
    else [hs[0]] + UniqueByName(hs[1..], seen + {HolderName(hs[0])})
  }

  function CalculatedRelations(ms: Datamodel): Option<seq<Holder>> {
    var hs :- ModelHolders(ms, ms);
    Some(UniqueByName(hs, {}))
  }

  // ----- what is calculated -----

  predicate IsRelationField(ms: Datamodel, m: Model, f: Field) {
    m in ms && f in m.fields && f.fieldType.Relation?
  }

  /** The name under which a relation is told apart from the others. */
  function KeyOf(m: Model, f: Field): Name
    requires f.fieldType.Relation?
  {
    if f.fieldType.relation != "" then f.fieldType.relation
    else if NameLess(m.name, f.fieldType.to) then m.name + "To" + f.fieldType.to
    else f.fieldType.to + "To" + m.name
  }

  ghost predicate SamePair(ms: Datamodel, m: Model, f: Field, n: Model, x: Field)
    requires f.fieldType.Relation?
  {
    (n == m && x == f) || (FindModel(ms, f.fieldType.to) == Some(n) && Opposite(ms, m, f) == Some(x))
  }

  /** Different relations are told apart. */
  ghost predicate RelationsDistinct(ms: Datamodel) {
    forall m, f, n, x :: IsRelationField(ms, m, f) && IsRelationField(ms, n, x) ==> ToldApart(ms, m, f, n, x)
  }

  ghost predicate ToldApart(ms: Datamodel, m: Model, f: Field, n: Model, x: Field)
    requires f.fieldType.Relation? && x.fieldType.Relation?
  {
    KeyOf(m, f) == KeyOf(n, x) ==> SamePair(ms, m, f, n, x)
  }

  ghost predicate Discovered(ms: Datamodel, m: Model, f: Field, h: Holder) {
    IsRelationField(ms, m, f) && HolderOf(ms, m, f) == Some(h)
  }

  ghost predicate Named(hs: seq<Holder>, n: Name) {
    exists h :: h in hs && HolderName(h) == n
  }

  lemma {:induction false} HolderIsNamed(ms: Datamodel, m: Model, f: Field)
    requires WellFormed(ms) && Paired(ms) && IsRelationField(ms, m, f) && HolderOf(ms, m, f).Some?
    ensures HolderName(HolderOf(ms, m, f).value) == KeyOf(m, f)
  {
    hide WellFormed, Paired;
    var t, g := Ends(ms, m, f);
    NameOrder(m.name, t.name);
    hide Opposite, ManifestationOf;
  }

  lemma {:induction false} FieldHoldersHave(ms: Datamodel, m: Model, fs: seq<Field>, h: Holder)
    requires FieldHolders(ms, m, fs).Some?
    ensures h in FieldHolders(ms, m, fs).value <==> exists f :: f in fs && f.fieldType.Relation? && HolderOf(ms, m, f) == Some(h)
  {
    hide HolderOf;
    if fs != [] {
      FieldHoldersHave(ms, m, fs[1..], h);
      assert fs == [fs[0]] + fs[1..];
    }
  }

  lemma {:induction false} ModelHoldersHave(ms: Datamodel, rest: Datamodel, h: Holder)
    requires ModelHolders(ms, rest).Some?
    ensures h in ModelHolders(ms, rest).value <==> exists m, f :: IsRelationField(rest, m, f) && HolderOf(ms, m, f) == Some(h)
  {
    hide HolderOf, FieldHolders;
    if rest != [] {
      var m, hs, more := rest[0], FieldHolders(ms, rest[0], rest[0].fields).value, ModelHolders(ms, rest[1..]).value;
      FieldHoldersHave(ms, m, m.fields, h);
      ModelHoldersHave(ms, rest[1..], h);
      assert rest == [m] + rest[1..];
      if h in hs {
        var f :| f in m.fields && f.fieldType.Relation? && HolderOf(ms, m, f) == Some(h);
        assert IsRelationField(rest, m, f);
      } else if h in more {
        var n, f :| IsRelationField(rest[1..], n, f) && HolderOf(ms, n, f) == Some(h);
        assert IsRelationField(rest, n, f);
      } else {
        forall n, f | IsRelationField(rest, n, f)
          ensures HolderOf(ms, n, f) != Some(h)
        {
          assert n == m || IsRelationField(rest[1..], n, f);
        }
      }
    }
  }

  lemma {:induction false} FieldsRefused(ms: Datamodel, m: Model, fs: seq<Field>)
    ensures FieldHolders(ms, m, fs).None? <==> exists f :: f in fs && f.fieldType.Relation? && HolderOf(ms, m, f).None?
  {
    hide HolderOf;
    if fs != [] {
      FieldsRefused(ms, m, fs[1..]);
      assert fs == [fs[0]] + fs[1..];
    }
  }

  lemma {:induction false} ModelsRefused(ms: Datamodel, rest: Datamodel)
    ensures ModelHolders(ms, rest).None? <==> exists m, f :: IsRelationField(rest, m, f) && HolderOf(ms, m, f).None?
  {
    hide HolderOf, FieldHolders;
    if rest != [] {
      var m := rest[0];
      FieldsRefused(ms, m, m.fields);
      ModelsRefused(ms, rest[1..]);
      assert rest == [m] + rest[1..];
      if FieldHolders(ms, m, m.fields).None? {
        var f :| f in m.fields && f.fieldType.Relation? && HolderOf(ms, m, f).None?;
        assert IsRelationField(rest, m, f);
      } else if ModelHolders(ms, rest[1..]).None? {
        var n, f :| IsRelationField(rest[1..], n, f) && HolderOf(ms, n, f).None?;
        assert IsRelationField(rest, n, f);
      } else {
        forall n, f | IsRelationField(rest, n, f)
          ensures HolderOf(ms, n, f).Some?
        {
          assert n == m || IsRelationField(rest[1..], n, f);
        }
      }
    }
  }

  /** What is kept has every name once, and nothing new. */
  lemma {:induction false} UniqueKeepsNames(hs: seq<Holder>, seen: set<Name>)
    ensures forall h :: h in UniqueByName(hs, seen) ==> h in hs && HolderName(h) !in seen
    ensures forall n :: Named(UniqueByName(hs, seen), n) <==> Named(hs, n) && n !in seen
  {
    hide HolderName;
    if hs != [] {
      var n := HolderName(hs[0]);
      assert hs == [hs[0]] + hs[1..];
      forall k
        ensures Named(hs, k) <==> n == k || Named(hs[1..], k)
      {
        NamedHead(hs[0], hs[1..], k);
      }
      if n in seen {
        UniqueKeepsNames(hs[1..], seen);
      } else {
        var us := UniqueByName(hs[1..], seen + {n});
        UniqueKeepsNames(hs[1..], seen + {n});
        forall k
          ensures Named([hs[0]] + us, k) <==> n == k || Named(us, k)
        {
          NamedHead(hs[0], us, k);
        }
      }
    }
  }

  lemma {:induction false} UniqueTellsApart(hs: seq<Holder>, seen: set<Name>, i: nat, j: nat)
    requires i < j < |UniqueByName(hs, seen)|
    ensures HolderName(UniqueByName(hs, seen)[i]) != HolderName(UniqueByName(hs, seen)[j])
  {
    hide HolderName, Named;
    if HolderName(hs[0]) in seen {
      UniqueTellsApart(hs[1..], seen, i, j);
    } else {
      var n := HolderName(hs[0]);
      var us := UniqueByName(hs[1..], seen + {n});
      assert UniqueByName(hs, seen)[j] == us[j - 1];
      if i > 0 {
        UniqueTellsApart(hs[1..], seen + {n}, i - 1, j - 1);
      } else {
        UniqueKeepsNames(hs[1..], seen + {n});
        assert us[j - 1] in us;
      }
    }
  }

  lemma {:induction false} NamedHead(h: Holder, hs: seq<Holder>, n: Name)
    ensures Named([h] + hs, n) <==> HolderName(h) == n || Named(hs, n)
  {
    hide HolderName;
    assert h in [h] + hs;
    if Named(hs, n) {
      var k :| k in hs && HolderName(k) == n;
      assert k in [h] + hs;
    }
  }

  /** A refusal is a one-to-one relation with two references, and nothing else. */
  lemma {:induction false} CalculatedUnlessBothInline(ms: Datamodel)
    requires WellFormed(ms) && Paired(ms)
    ensures CalculatedRelations(ms).None? <==> exists m, f :: IsRelationField(ms, m, f) && BothInline(ms, m, f)
  {
    hide WellFormed, Paired, BothInline, HolderOf, UniqueByName;
    ModelsRefused(ms, ms);
    forall m, f | IsRelationField(ms, m, f)
      ensures HolderOf(ms, m, f).None? <==> BothInline(ms, m, f)
    {
      RefusedIffBothInline(ms, m, f);
    }
    if exists m, f :: IsRelationField(ms, m, f) && HolderOf(ms, m, f).None? {
      var m, f :| IsRelationField(ms, m, f) && HolderOf(ms, m, f).None?;
      assert BothInline(ms, m, f);
    }
  }

  /** What is calculated are relations discovered from fields, one of each name. */
  lemma {:induction false} CalculatedAreDiscovered(ms: Datamodel, h: Holder)
    requires CalculatedRelations(ms).Some? && h in CalculatedRelations(ms).value
    ensures exists m, f :: Discovered(ms, m, f, h)
  {
    hide HolderOf;
    var hs := ModelHolders(ms, ms).value;
    UniqueKeepsNames(hs, {});
    ModelHoldersHave(ms, ms, h);
    var m, f :| IsRelationField(ms, m, f) && HolderOf(ms, m, f) == Some(h);
    assert Discovered(ms, m, f, h);
  }

  /** A calculated relation that a field belongs to is the one discovered from that field. */
  lemma {:induction false} BelongsToItsOwn(ms: Datamodel, h: Holder, m: Model, f: Field)
    requires WellFormed(ms) && Paired(ms) && CalculatedRelations(ms).Some? && h in CalculatedRelations(ms).value
    requires IsRelationField(ms, m, f) && IsFor(h, m, f)
    ensures HolderOf(ms, m, f) == Some(h)
  {
    hide WellFormed, Paired, HolderOf, IsFor, RelationSide;
    CalculatedAreDiscovered(ms, h);
    var n, x :| Discovered(ms, n, x, h);
    HolderIsForItsFields(ms, n, x);
    SameFromEitherSide(ms, n, x);
  }

  /** Some relation of the name of a field is calculated. */
  lemma {:induction false} NameIsCalculated(ms: Datamodel, m: Model, f: Field) returns (h: Holder)
    requires WellFormed(ms) && Paired(ms) && CalculatedRelations(ms).Some? && IsRelationField(ms, m, f)
    ensures h in CalculatedRelations(ms).value && HolderName(h) == KeyOf(m, f)
  {
    hide WellFormed, Paired, HolderOf, HolderName, KeyOf;
    var hs := ModelHolders(ms, ms).value;
    ModelsRefused(ms, ms);
    var k := HolderOf(ms, m, f).value;
    ModelHoldersHave(ms, ms, k);
    HolderIsNamed(ms, m, f);
    UniqueKeepsNames(hs, {});
    assert Named(hs, KeyOf(m, f));
    h :| h in UniqueByName(hs, {}) && HolderName(h) == KeyOf(m, f);
  }

  lemma {:induction false} NamesTellApart(ms: Datamodel, i: nat, j: nat)
    requires CalculatedRelations(ms).Some? && i < |CalculatedRelations(ms).value| && j < |CalculatedRelations(ms).value|
    requires HolderName(CalculatedRelations(ms).value[i]) == HolderName(CalculatedRelations(ms).value[j])
    ensures i == j
  {
    hide HolderOf, HolderName, UniqueByName;
    if i < j {
      UniqueTellsApart(ModelHolders(ms, ms).value, {}, i, j);
    } else if j < i {
      UniqueTellsApart(ModelHolders(ms, ms).value, {}, j, i);
    }
  }

  ghost predicate Covered(hs: seq<Holder>, m: Model, f: Field) {
    exists h :: h in hs && IsFor(h, m, f)
  }

  /** If relations are told apart, the relation of every field is calculated. */
  lemma {:induction false} DistinctAreCovered(ms: Datamodel, m: Model, f: Field)
    requires WellFormed(ms) && Paired(ms) && CalculatedRelations(ms).Some? && IsRelationField(ms, m, f)
    requires RelationsDistinct(ms)
    ensures Covered(CalculatedRelations(ms).value, m, f)
  {
    hide WellFormed, Paired, HolderOf, HolderName, KeyOf, CalculatedRelations, RelationSide, Opposite;
    var h := NameIsCalculated(ms, m, f);
    CalculatedAreDiscovered(ms, h);
    var n, x :| Discovered(ms, n, x, h);
    HolderIsNamed(ms, n, x);
    assert ToldApart(ms, n, x, m, f);
    HolderIsForItsFields(ms, n, x);
    assert IsFor(h, m, f);
  }

  /** Two fields whose relations are calculated under one name belong to one relation. */
  lemma {:induction false} CoveredAreToldApart(ms: Datamodel, m: Model, f: Field, n: Model, x: Field)
    requires WellFormed(ms) && Paired(ms) && CalculatedRelations(ms).Some?
    requires IsRelationField(ms, m, f) && IsRelationField(ms, n, x)
    requires Covered(CalculatedRelations(ms).value, m, f) && Covered(CalculatedRelations(ms).value, n, x)
    ensures ToldApart(ms, m, f, n, x)
  {
    hide WellFormed, Paired, HolderOf, HolderName, KeyOf, CalculatedRelations, RelationSide, Opposite;
    var rs := CalculatedRelations(ms).value;
    var h :| h in rs && IsFor(h, m, f);
    var k :| k in rs && IsFor(k, n, x);
    BelongsToItsOwn(ms, h, m, f);
    BelongsToItsOwn(ms, k, n, x);
    HolderIsNamed(ms, m, f);
    HolderIsNamed(ms, n, x);
    if KeyOf(m, f) == KeyOf(n, x) {
      var i :| 0 <= i < |rs| && rs[i] == h;
      var j :| 0 <= j < |rs| && rs[j] == k;
      NamesTellApart(ms, i, j);
      HolderIsForItsFields(ms, m, f);
    }
  }

  /**
    Every relation field belongs to exactly one calculated relation, on exactly one side, the
    other side being its opposite's, if and only if different relations have different names.
   */
  lemma {:induction false} OneRelationPerFieldIff(ms: Datamodel)
    requires WellFormed(ms) && Paired(ms) && CalculatedRelations(ms).Some?
    ensures (forall m, f :: IsRelationField(ms, m, f) ==> ExactlyOne(ms, CalculatedRelations(ms).value, m, f)) <==> RelationsDistinct(ms)
  {
    hide WellFormed, Paired, CalculatedRelations, ExactlyOne, Covered, ToldApart;
    var rs := CalculatedRelations(ms).value;
    if forall m, f :: IsRelationField(ms, m, f) ==> ExactlyOne(ms, rs, m, f) {
      forall m, f, n, x | IsRelationField(ms, m, f) && IsRelationField(ms, n, x)
        ensures ToldApart(ms, m, f, n, x)
      {
        OneMeansCovered(ms, rs, m, f);
        OneMeansCovered(ms, rs, n, x);
        CoveredAreToldApart(ms, m, f, n, x);
      }
    }
    if RelationsDistinct(ms) {
      forall m, f | IsRelationField(ms, m, f)
        ensures ExactlyOne(ms, rs, m, f)
      {
        DistinctAreCovered(ms, m, f);
        CoveredOnce(ms, m, f);
      }
    }
  }

  /** A field belongs to one relation of a list, and is on one side of it, opposite the other end. */
  ghost predicate ExactlyOne(ms: Datamodel, hs: seq<Holder>, m: Model, f: Field)
    requires f.fieldType.Relation?
  {
    exists i :: 0 <= i < |hs| && IsFor(hs[i], m, f) && OnOwnSide(ms, hs[i], m, f)
             && forall j :: 0 <= j < |hs| && IsFor(hs[j], m, f) ==> j == i
  }

  ghost predicate OnOwnSide(ms: Datamodel, h: Holder, m: Model, f: Field)
    requires f.fieldType.Relation?
  {
    var g := Opposite(ms, m, f);
    g.Some? && RelationSide(h, f).Some? && RelationSide(h, g.value).Some? && RelationSide(h, f) != RelationSide(h, g.value)
  }

  lemma {:induction false} OneMeansCovered(ms: Datamodel, hs: seq<Holder>, m: Model, f: Field)
    requires f.fieldType.Relation? && ExactlyOne(ms, hs, m, f)
    ensures Covered(hs, m, f)
  {
    hide IsFor, OnOwnSide;
    var i :| 0 <= i < |hs| && IsFor(hs[i], m, f);
    assert hs[i] in hs;
  }

  lemma {:induction false} CoveredOnce(ms: Datamodel, m: Model, f: Field)
    requires WellFormed(ms) && Paired(ms) && CalculatedRelations(ms).Some? && IsRelationField(ms, m, f)
    requires Covered(CalculatedRelations(ms).value, m, f)
    ensures ExactlyOne(ms, CalculatedRelations(ms).value, m, f)
  {
    hide WellFormed, Paired, HolderOf, HolderName, RelationSide, Opposite, IsFor, CalculatedRelations;
    var rs := CalculatedRelations(ms).value;
    var h :| h in rs && IsFor(h, m, f);
    var i :| 0 <= i < |rs| && rs[i] == h;
    BelongsToItsOwn(ms, h, m, f);
    HolderIsForItsFields(ms, m, f);
    forall j | 0 <= j < |rs| && IsFor(rs[j], m, f)
      ensures j == i
    {
      BelongsToItsOwn(ms, rs[j], m, f);
      NamesTellApart(ms, i, j);
    }
  }

  // ----- the loops -----

  function Push(hs: seq<Holder>, more: Option<seq<Holder>>): Option<seq<Holder>> {
    if more.None? then None else Some(hs + more.value)
  }

  method DiscoverRelations(ms: Datamodel, m: Model, hs: seq<Holder>) returns (r: Option<seq<Holder>>)
    ensures r == Push(hs, FieldHolders(ms, m, m.fields))
  {
    hide HolderOf;
    var result := hs;
    assert m.fields[0..] == m.fields;
    for i := 0 to |m.fields|
      invariant Push(hs, FieldHolders(ms, m, m.fields)) == Push(result, FieldHolders(ms, m, m.fields[i..]))
    {
      assert m.fields[i..][0] == m.fields[i] && m.fields[i..][1..] == m.fields[i + 1..];
      if m.fields[i].fieldType.Relation? {
        var h := HolderOf(ms, m, m.fields[i]);
        if h.None? {
          return None;
        }
        ghost var more := FieldHolders(ms, m, m.fields[i + 1..]);
        assert more.Some? ==> result + ([h.value] + more.value) == (result + [h.value]) + more.value;
        result := result + [h.value];
      }
    }
    assert result + [] == result;
    r := Some(result);
  }

  /** Discovers the relations of all fields of all models, and keeps the first of each name. */
  method CalculateRelations(ms: Datamodel) returns (r: Option<seq<Holder>>)
    ensures r == CalculatedRelations(ms)
  {
    hide FieldHolders;
    var result := [];
    assert ms[0..] == ms;
    assert ModelHolders(ms, ms).Some? ==> result + ModelHolders(ms, ms).value == ModelHolders(ms, ms).value;
    for i := 0 to |ms|
      invariant ModelHolders(ms, ms) == Push(result, ModelHolders(ms, ms[i..]))
    {
      assert ms[i..][0] == ms[i] && ms[i..][1..] == ms[i + 1..];
      ghost var hs, more := FieldHolders(ms, ms[i], ms[i].fields), ModelHolders(ms, ms[i + 1..]);
      assert hs.Some? && more.Some? ==> result + (hs.value + more.value) == (result + hs.value) + more.value;
      var next := DiscoverRelations(ms, ms[i], result);
      if next.None? {
        return None;
      }
      result := next.value;
    }
    assert result + [] == result;
    var unique := UniqueHolders(result);
    r := Some(unique);
  }

  method UniqueHolders(hs: seq<Holder>) returns (us: seq<Holder>)
    ensures us == UniqueByName(hs, {})
  {
    hide HolderName;
    var seen := {};
    us := [];
    for i := 0 to |hs|
      invariant UniqueByName(hs, {}) == us + UniqueByName(hs[i..], seen)
    {
      assert hs[i..][0] == hs[i] && hs[i..][1..] == hs[i + 1..];
      if HolderName(hs[i]) !in seen {
        us := us + [hs[i]];
        seen := seen + {HolderName(hs[i])};
      }
    }
  }
}
