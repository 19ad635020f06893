/** Datamodels whose relations are refused, or not all calculated. */
module RelationWitnesses {
  import opened Wrappers
  import opened Names
  import opened Relations
  import opened RelationHolders

  // ----- references on both sides -----

  /** Fields `f` and `g`, no lists, are each other's opposites, and both hold a reference. */
  ghost predicate TwoReferences(a: Model, b: Model, f: Field, g: Field) {
    && a.name != b.name && a.fields == [f] && b.fields == [g]
    && f.fieldType.Relation? && Links(g, a.name, f.fieldType.relation) && f.fieldType.to == b.name
    && f.fieldType.toFields != [] && g.fieldType.toFields != [] && !f.arity.List? && !g.arity.List?
  }

  lemma {:induction false} TwoReferencesArePaired(a: Model, b: Model, f: Field, g: Field)
    requires TwoReferences(a, b, f, g)
    ensures WellFormed([a, b]) && Paired([a, b])
  {
    TwoModels(a, b);
    OneField(f);
    OneField(g);
    assert OnlyOpposites(a, f, b, g) && OnlyOpposites(b, g, a, f);
    assert f in a.fields && g in b.fields;
    assert PairedField([a, b], a, f) && PairedField([a, b], b, g);
  }

  lemma {:induction false} TwoReferencesAreRefused(a: Model, b: Model, f: Field, g: Field)
    requires TwoReferences(a, b, f, g)
    ensures WellFormed([a, b]) && Paired([a, b]) && CalculatedRelations([a, b]).None?
  {
    var ms := [a, b];
    TwoReferencesArePaired(a, b, f, g);
    TwoModels(a, b);
    FoundIs(b, a.name, f.fieldType.relation, f.name, g);
    assert IsRelationField(ms, a, f) && BothInline(ms, a, f);
    hide CalculatedRelations, WellFormed, Paired, BothInline, IsRelationField;
    CalculatedUnlessBothInline(ms);
  }

  function Reference(name: Name, to: Name): Field {
    Field(name, Required, Relation(to, ["id"], "AToB"), None, false, false)
  }

  lemma {:induction false} BothInlineIsRefused()
    ensures CalculatedRelations([Model("A", [Reference("b", "B")], []), Model("B", [Reference("a", "A")], [])]).None?
  {
    var f, g := Reference("b", "B"), Reference("a", "A");
    assert "A" != "B";
    TwoReferencesAreRefused(Model("A", [f], []), Model("B", [g], []), f, g);
  }

  // ----- two relations of one name -----

  /** Model `a` is related to `b` and to `c`, under the same name. */
  ghost predicate SharedName(a: Model, b: Model, c: Model, f: Field, x: Field, g: Field, y: Field) {
    && a.name != b.name && a.name != c.name && b.name != c.name
    && a.fields == [f, x] && b.fields == [g] && c.fields == [y] && f.name != x.name
    && f.fieldType.Relation? && f.fieldType.relation != "" && f.fieldType.to == b.name && f.fieldType.toFields == []
    && Links(x, c.name, f.fieldType.relation) && x.fieldType.toFields == []
    && Links(g, a.name, f.fieldType.relation) && Links(y, a.name, f.fieldType.relation)
  }

  lemma {:induction false} SharedNameIsPaired(a: Model, b: Model, c: Model, f: Field, x: Field, g: Field, y: Field)
    requires SharedName(a, b, c, f, x, g, y)
    ensures WellFormed([a, b, c]) && Paired([a, b, c])
  {
    var ms := [a, b, c];
    ThreeModels(a, b, c);
    TwoFields(f, x);
    OneField(g);
    OneField(y);
    hide FindModel, ModelsDistinct, FieldsDistinct;
    assert f in a.fields && g in b.fields && x in a.fields && y in c.fields;
    assert OnlyOpposites(a, f, b, g) && OnlyOpposites(b, g, a, f);
    assert PairedField(ms, a, f) && PairedField(ms, b, g);
    assert OnlyOpposites(a, x, c, y) && OnlyOpposites(c, y, a, x);
    assert PairedField(ms, a, x) && PairedField(ms, c, y);
    hide PairedField;
  }

  lemma {:induction false} SharedNameIsCalculated(a: Model, b: Model, c: Model, f: Field, x: Field, g: Field, y: Field)
    requires SharedName(a, b, c, f, x, g, y)
    ensures WellFormed([a, b, c]) && Paired([a, b, c]) && CalculatedRelations([a, b, c]).Some?
  {
    var ms := [a, b, c];
    SharedNameIsPaired(a, b, c, f, x, g, y);
    ThreeModels(a, b, c);
    assert Opposite(ms, b, g) == Some(f) by { FoundIs(a, b.name, f.fieldType.relation, g.name, f); }
    assert Opposite(ms, c, y) == Some(x) by { FoundIs(a, c.name, f.fieldType.relation, y.name, x); }
    hide WellFormed, Paired, Opposite, FindModel, ModelsDistinct, CalculatedRelations;
    forall m, z | IsRelationField(ms, m, z) ensures !BothInline(ms, m, z) {
    }
    hide BothInline, IsRelationField;
    CalculatedUnlessBothInline(ms);
  }

  /** Then one of the two relations is missing. */
  lemma {:induction false} SharedNameIsCalculatedOnce(a: Model, b: Model, c: Model, f: Field, x: Field, g: Field, y: Field)
    requires SharedName(a, b, c, f, x, g, y)
    ensures var rs := CalculatedRelations([a, b, c]);
            && rs.Some?
            && exists m, z :: IsRelationField([a, b, c], m, z) && !ExactlyOne([a, b, c], rs.value, m, z)
  {
    var ms := [a, b, c];
    SharedNameIsCalculated(a, b, c, f, x, g, y);
    ThreeModels(a, b, c);
    assert IsRelationField(ms, a, f) && IsRelationField(ms, a, x);
    hide WellFormed, Paired, CalculatedRelations, ExactlyOne, Opposite;
    assert !ToldApart(ms, a, f, a, x);
    OneRelationPerFieldIff(ms);
  }

  function Unreferenced(name: Name, to: Name): Field {
    Field(name, Required, Relation(to, [], "X"), None, false, false)
  }

  lemma {:induction false} OneNameForTwoRelations()
    ensures var ms := [Model("A", [Unreferenced("b", "B"), Unreferenced("c", "C")], []), Model("B", [Unreferenced("a", "A")], []),
                       Model("C", [Unreferenced("a", "A")], [])];
            && CalculatedRelations(ms).Some?
            && exists m, z :: IsRelationField(ms, m, z) && !ExactlyOne(ms, CalculatedRelations(ms).value, m, z)
  {
    var f, x, g := Unreferenced("b", "B"), Unreferenced("c", "C"), Unreferenced("a", "A");
    assert "A" != "B" && "A" != "C" && "B" != "C" && "b" != "c" && "X" != "";
    SharedNameIsCalculatedOnce(Model("A", [f, x], []), Model("B", [g], []), Model("C", [g], []), f, x, g, g);
  }
}
