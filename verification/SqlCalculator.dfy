/**
  The schema calculator: the tables of a datamodel.  Model tables come first,
  then scalar list tables, then relation tables; nothing but a model table is
  ever referred to.
 */
module SqlCalculator {
  import opened Wrappers
  import opened Names
  import opened SqlSchemas
  import opened SqlDatabases
  import opened SqlDiffer
  import opened SqlTableSteps
  import opened SqlTableMigration
  import opened SqlMigration
  import opened ForeignKeyDelay

  // ----- datamodels -----

  datatype ScalarType = IntType | FloatType | BooleanType | StringType | DateTimeType | DecimalType

  datatype FieldType = Base(scalar: ScalarType) | Enum(enumName: Name) | Relation(to: Name)

  datatype FieldArity = RequiredField | OptionalField | ListField

  /** `migrationValue` is the default a migration writes for the field. */
  datatype Field = Field(
    name: Name, databaseName: Option<Name>, fieldType: FieldType, arity: FieldArity,
    isUnique: bool, isId: bool, migrationValue: Option<string>)

  datatype IndexDefinition = IndexDefinition(name: Option<Name>, fields: seq<Name>, unique: bool)

  datatype Model = Model(name: Name, databaseName: Option<Name>, fields: seq<Field>, indexes: seq<IndexDefinition>)

  datatype Manifestation = Inline(inTableOfModel: Name, column: Name) | JoinTable

  datatype RelationHolder = RelationHolder(name: Name, modelA: Model, modelB: Model, manifestation: Manifestation)

  datatype Datamodel = Datamodel(models: seq<Model>, relations: seq<RelationHolder>)

  function FieldDbName(f: Field): Name {
    if f.databaseName.Some? then f.databaseName.value else f.name
  }

  function ModelDbName(m: Model): Name {
    if m.databaseName.Some? then m.databaseName.value else m.name
  }

  function FindId(fs: seq<Field>): (r: Option<Field>)
    ensures r.Some? ==> r.value in fs && r.value.isId
  {
    if fs == [] then None else if fs[0].isId then Some(fs[0]) else FindId(fs[1..])
  }

  function FindField(fs: seq<Field>, n: Name): Option<Field> {
    if fs == [] then None else if fs[0].name == n then Some(fs[0]) else FindField(fs[1..], n)
  }

  function FindByDbName(fs: seq<Field>, n: Name): (r: Option<Field>)
    ensures r.Some? ==> r.value in fs && FieldDbName(r.value) == n
  {
    if fs == [] then None else if FieldDbName(fs[0]) == n then Some(fs[0]) else FindByDbName(fs[1..], n)
  }

  /** Decimals and relation fields have no column type. */
  function FamilyOf(f: Field): Option<ColumnTypeFamily> {
    match f.fieldType
    case Base(IntType) => Some(Int)
    case Base(FloatType) => Some(Float)
    case Base(BooleanType) => Some(Boolean)
    case Base(StringType) => Some(String)
    case Base(DateTimeType) => Some(DateTime)
    case Base(DecimalType) => None
    case Enum(_) => Some(String)
    case Relation(_) => None
  }

  predicate IsScalar(f: Field) {
    !f.fieldType.Relation?
  }

  function ArityOf(f: Field): ColumnArity {
    match f.arity
    case RequiredField => Required
    case OptionalField => Nullable
    case ListField => List
  }

  // ----- model tables -----

  function ScalarColumns(fs: seq<Field>): (r: Option<seq<Column>>)
    ensures r.Some? ==> forall c :: c in r.value ==> !c.arity.List?
  {
    if fs == [] then Some([])
    else
      var rest :- ScalarColumns(fs[1..]);
      if IsScalar(fs[0]) && !fs[0].arity.ListField? then
        var family :- FamilyOf(fs[0]);
        Some([Column(FieldDbName(fs[0]), family, ArityOf(fs[0]), if fs[0].isId then None else fs[0].migrationValue)] + rest)
      else Some(rest)
  }

  function UniqueIndexes(table: Name, fs: seq<Field>): seq<Index> {
    if fs == [] then []
    else if fs[0].isUnique
    then [Index(table + "." + FieldDbName(fs[0]), [FieldDbName(fs[0])], Unique)] + UniqueIndexes(table, fs[1..])
    else UniqueIndexes(table, fs[1..])
  }

  function IndexColumns(m: Model, names: seq<Name>): Option<seq<Name>> {
    if names == [] then Some([])
    else
      var f :- FindField(m.fields, names[0]);
      var rest :- IndexColumns(m, names[1..]);
      Some([FieldDbName(f)] + rest)
  }

  function Joined(names: seq<Name>): Name {
    if names == [] then "" else if |names| == 1 then names[0] else names[0] + "_" + Joined(names[1..])
  }

  function DefinedIndexes(m: Model, defs: seq<IndexDefinition>): Option<seq<Index>> {
    if defs == [] then Some([])
    else
      var columns :- IndexColumns(m, defs[0].fields);
      var rest :- DefinedIndexes(m, defs[1..]);
      var name := if defs[0].name.Some? then defs[0].name.value else ModelDbName(m) + "." + Joined(columns);
      Some([Index(name, columns, if defs[0].unique then Unique else Normal)] + rest)
  }

  function ModelTable(m: Model): (r: Option<Table>)
    ensures r.Some? ==>
              && FindId(m.fields).Some?
              && r.value.name == ModelDbName(m)
              && r.value.primaryKey == Some([FieldDbName(FindId(m.fields).value)])
              && r.value.foreignKeys == []
              && forall c :: c in r.value.columns ==> !c.arity.List?
  {
    var columns :- ScalarColumns(m.fields);
    var id :- FindId(m.fields);
    var defined :- DefinedIndexes(m, m.indexes);
    Some(Table(ModelDbName(m), columns, UniqueIndexes(ModelDbName(m), m.fields) + defined, Some([FieldDbName(id)]), []))
  }

  // ----- inline relations -----

  predicate InlinedIn(m: Model, r: RelationHolder) {
    r.manifestation.Inline? && r.manifestation.inTableOfModel == m.name
  }

  /** The model at the other end of a relation. */
  function RelatedModel(m: Model, r: RelationHolder): Model {
    if m == r.modelA then r.modelB else r.modelA
  }

  function InlineRelation(m: Model, r: RelationHolder): Option<(Column, ForeignKey)>
    requires r.manifestation.Inline?
  {
    var column := r.manifestation.column;
    var own := if m == r.modelA then r.modelA else r.modelB;
    var field :- FindByDbName(own.fields, column);
    var id :- FindId(RelatedModel(m, r).fields);
    var family :- FamilyOf(id);
    Some((Column(column, family, ArityOf(field), None),
          ForeignKey(None, [column], ModelDbName(RelatedModel(m, r)), [FieldDbName(id)], SetNull)))
  }

  function WithInlineRelations(m: Model, t: Table, rs: seq<RelationHolder>): Option<Table>
    decreases |rs|
  {
    if rs == [] then Some(t)
    else if InlinedIn(m, rs[0]) then
      var added :- InlineRelation(m, rs[0]);
      WithInlineRelations(m, t.(columns := t.columns + [added.0], foreignKeys := t.foreignKeys + [added.1]), rs[1..])
    else WithInlineRelations(m, t, rs[1..])
  }

  function ModelTables(ms: seq<Model>, rs: seq<RelationHolder>): Option<seq<Table>> {
    if ms == [] then Some([])
    else
      var bare :- ModelTable(ms[0]);
      var t :- WithInlineRelations(ms[0], bare, rs);
      var rest :- ModelTables(ms[1..], rs);
      Some([t] + rest)
  }

  // ----- scalar list tables -----

  function ListTable(m: Model, f: Field): Option<Table> {
    var id :- FindId(m.fields);
    var idFamily :- FamilyOf(id);
    var family :- FamilyOf(f);
    Some(Table(
      ModelDbName(m) + "_" + FieldDbName(f),
      [Column("nodeId", idFamily, Required, None), Column("position", Int, Required, None), Column("value", family, Required, None)],
      [],
      Some(["nodeId", "position"]),
      [ForeignKey(None, ["nodeId"], ModelDbName(m), [FieldDbName(id)], Cascade)]))
  }

  function ListTablesOf(m: Model, fs: seq<Field>): Option<seq<Table>> {
    if fs == [] then Some([])
    else
      var rest :- ListTablesOf(m, fs[1..]);
      if fs[0].arity.ListField? && IsScalar(fs[0]) then
        var t :- ListTable(m, fs[0]);
        Some([t] + rest)
      else Some(rest)
  }

  function ListTables(ms: seq<Model>): Option<seq<Table>> {
    if ms == [] then Some([])
    else
      var first :- ListTablesOf(ms[0], ms[0].fields);
      var rest :- ListTables(ms[1..]);
      Some(first + rest)
  }

  // ----- relation tables -----

  function RelationTable(r: RelationHolder): Option<Table> {
    var idA :- FindId(r.modelA.fields);
    var idB :- FindId(r.modelB.fields);
    var familyA :- FamilyOf(idA);
    var familyB :- FamilyOf(idB);
    var name := "_" + r.name;
    Some(Table(
      name,
      [Column("A", familyA, Required, None), Column("B", familyB, Required, None)],
      [Index(name + "_AB_unique", ["A", "B"], Unique)],
      None,
      [ForeignKey(None, ["A"], ModelDbName(r.modelA), [FieldDbName(idA)], Cascade),
       ForeignKey(None, ["B"], ModelDbName(r.modelB), [FieldDbName(idB)], Cascade)]))
  }

  function RelationTables(rs: seq<RelationHolder>): Option<seq<Table>> {
    if rs == [] then Some([])
    else if rs[0].manifestation.JoinTable? then
      var t :- RelationTable(rs[0]);
      var rest :- RelationTables(rs[1..]);
      Some([t] + rest)
    else RelationTables(rs[1..])
  }

  // ----- the schema -----

  predicate ByName(cs: seq<Column>) {
    forall i :: 0 < i < |cs| ==> !NameLess(cs[i].name, cs[i - 1].name)
  }

  function InsertByName(c: Column, cs: seq<Column>): (r: seq<Column>)
    requires ByName(cs)
    ensures multiset(r) == multiset([c]) + multiset(cs)
    ensures r[0] == c || (cs != [] && r[0] == cs[0])
    ensures ByName(r)
  {
    if cs == [] then [c]
    else if !NameLess(cs[0].name, c.name) then
      assert [c] + cs == [c] + [cs[0]] + cs[1..];
      [c] + cs
    else
      NameOrder(c.name, cs[0].name);
      assert cs == [cs[0]] + cs[1..];
      assert ByName(cs[1..]) by { forall i | 0 < i < |cs[1..]| ensures !NameLess(cs[1..][i].name, cs[1..][i - 1].name) { assert cs[1..][i] == cs[i + 1]; } }
      [cs[0]] + InsertByName(c, cs[1..])
  }

  function SortByName(cs: seq<Column>): (r: seq<Column>)
    ensures multiset(r) == multiset(cs) && ByName(r)
  {
    if cs == [] then []
    else
      assert cs == [cs[0]] + cs[1..];
      InsertByName(cs[0], SortByName(cs[1..]))
  }

  function SortedColumns(ts: seq<Table>): seq<Table> {
    if ts == [] then [] else [ts[0].(columns := SortByName(ts[0].columns))] + SortedColumns(ts[1..])
  }

  /** The calculated schema; `None` where a model has no id or a type is not supported. */
  function Calculate(dm: Datamodel): Option<Schema> {
    var models :- ModelTables(dm.models, dm.relations);
    var lists :- ListTables(dm.models);
    var relations :- RelationTables(dm.relations);
    Some(Schema(SortedColumns(models + lists + relations)))
  }

  // ----- the loops of the calculator -----

  method AddInlineRelations(dm: Datamodel, bare: seq<Table>) returns (r: Option<seq<Table>>)
    requires |bare| == |dm.models| && forall i :: 0 <= i < |bare| ==> ModelTable(dm.models[i]) == Some(bare[i])
    ensures r == ModelTables(dm.models, dm.relations)
  {
    hide ModelTable;
    var result: seq<Table> := [];
    assert dm.models[0..] == dm.models;
    PrependNothing(ModelTables(dm.models, dm.relations));
    for i := 0 to |bare|
      invariant Prepended(result, ModelTables(dm.models[i..], dm.relations)) == ModelTables(dm.models, dm.relations)
    {
      assert dm.models[i..][0] == dm.models[i] && dm.models[i..][1..] == dm.models[i + 1..];
      var m, t := dm.models[i], bare[i];
      ghost var whole := WithInlineRelations(m, t, dm.relations);
      for j := 0 to |dm.relations|
        invariant WithInlineRelations(m, t, dm.relations[j..]) == whole
      {
        assert dm.relations[j..][0] == dm.relations[j] && dm.relations[j..][1..] == dm.relations[j + 1..];
        if InlinedIn(m, dm.relations[j]) {
          var added := InlineRelation(m, dm.relations[j]);
          if added.None? {
            return None;
          }
          t := t.(columns := t.columns + [added.value.0], foreignKeys := t.foreignKeys + [added.value.1]);
        }
      }
      assert whole == Some(t);
      ghost var rest := ModelTables(dm.models[i + 1..], dm.relations);
      assert rest.Some? ==> (result + [t]) + rest.value == result + ([t] + rest.value);
      result := result + [t];
    }
    assert dm.models[|bare|..] == [] && result + [] == result;
    r := Some(result);
  }

  function Prepended(xs: seq<Table>, rest: Option<seq<Table>>): Option<seq<Table>> {
    if rest.Some? then Some(xs + rest.value) else None
  }

  lemma {:induction false} PrependNothing(rest: Option<seq<Table>>)
    ensures Prepended([], rest) == rest
  {
    assert rest.Some? ==> [] + rest.value == rest.value;
  }

  method CalculateRelationTables(rs: seq<RelationHolder>) returns (r: Option<seq<Table>>)
    ensures r == RelationTables(rs)
  {
    hide RelationTable;
    var result: seq<Table> := [];
    assert rs[0..] == rs;
    PrependNothing(RelationTables(rs));
    for i := 0 to |rs|
      invariant Prepended(result, RelationTables(rs[i..])) == RelationTables(rs)
    {
      assert rs[i..][0] == rs[i] && rs[i..][1..] == rs[i + 1..];
      if rs[i].manifestation.JoinTable? {
        var t := RelationTable(rs[i]);
        if t.None? {
          return None;
        }
        ghost var rest := RelationTables(rs[i + 1..]);
        assert rest.Some? ==> (result + [t.value]) + rest.value == result + ([t.value] + rest.value);
        result := result + [t.value];
      }
    }
    assert rs[|rs|..] == [] && result + [] == result;
    r := Some(result);
  }

  // ----- what the calculated tables are like -----

  ghost predicate ReferencesWithin(t: Table, names: set<Name>) {
    forall fk :: fk in t.foreignKeys ==> fk.referencedTable in names
  }

  /** A model table: no foreign key is part of its primary key. */
  ghost predicate IsModelTable(t: Table) {
    !IsRelationTable(t) && forall n :: FkOf(t, n).Some? ==> !InPrimaryKey(t, n)
  }

  ghost predicate NoLists(t: Table) {
    forall c :: c in t.columns && c.arity.List? ==> FkOf(t, c.name).Some?
  }

  /** The names of the model tables. */
  function ModelNames(ms: seq<Model>): set<Name> {
    set m | m in ms :: ModelDbName(m)
  }

  /** Relations are between models, ids are no relation columns, and no model table looks like a relation table. */
  ghost predicate Valid(dm: Datamodel) {
    && (forall r :: r in dm.relations ==> r.modelA in dm.models && r.modelB in dm.models)
    && (forall m :: m in dm.models ==> !("_" <= ModelDbName(m)))
    && (forall m, r :: m in dm.models && r in dm.relations && InlinedIn(m, r) && FindId(m.fields).Some? ==>
          r.manifestation.column != FieldDbName(FindId(m.fields).value))
  }

  /** A model table while relations are added to it. */
  ghost predicate Growing(m: Model, t: Table, names: set<Name>) {
    && t.name == ModelDbName(m) && FindId(m.fields).Some?
    && t.primaryKey == Some([FieldDbName(FindId(m.fields).value)])
    && ReferencesWithin(t, names) && NoLists(t)
    && (forall fk :: fk in t.foreignKeys ==> FieldDbName(FindId(m.fields).value) !in fk.columns)
  }

  lemma {:induction false} GrowsBy(m: Model, t: Table, names: set<Name>, c: Column, fk: ForeignKey)
    requires Growing(m, t, names) && fk.columns == [c.name] && fk.referencedTable in names
    requires c.name != FieldDbName(FindId(m.fields).value)
    ensures Growing(m, t.(columns := t.columns + [c], foreignKeys := t.foreignKeys + [fk]), names)
  {
    var t' := t.(columns := t.columns + [c], foreignKeys := t.foreignKeys + [fk]);
    forall x | x in t'.columns && x.arity.List? ensures FkOf(t', x.name).Some? {
      LaterForeignKey(t.foreignKeys, fk, x.name);
    }
  }

  lemma {:induction false} LaterForeignKey(fks: seq<ForeignKey>, fk: ForeignKey, n: Name)
    ensures ForeignKeyFor(fks + [fk], n).Some? <==> ForeignKeyFor(fks, n).Some? || n in fk.columns
  {
    if fks != [] {
      assert (fks + [fk])[0] == fks[0] && (fks + [fk])[1..] == fks[1..] + [fk];
      LaterForeignKey(fks[1..], fk, n);
    }
  }

  lemma {:induction false} InlineRelationsGrow(dm: Datamodel, m: Model, t: Table, rs: seq<RelationHolder>)
    requires Valid(dm) && m in dm.models && Growing(m, t, ModelNames(dm.models))
    requires (forall r :: r in rs ==> r in dm.relations) && WithInlineRelations(m, t, rs).Some?
    ensures Growing(m, WithInlineRelations(m, t, rs).value, ModelNames(dm.models))
    decreases |rs|
  {
    if rs != [] {
      assert rs[0] in rs && forall r :: r in rs[1..] ==> r in rs;
      if InlinedIn(m, rs[0]) {
        var added := InlineRelation(m, rs[0]).value;
        assert RelatedModel(m, rs[0]) in dm.models;
        hide Growing, Valid;
        assert rs[0].manifestation.column != FieldDbName(FindId(m.fields).value) by { NotTheId(dm, m, t, rs[0]); }
        GrowsBy(m, t, ModelNames(dm.models), added.0, added.1);
        InlineRelationsGrow(dm, m, t.(columns := t.columns + [added.0], foreignKeys := t.foreignKeys + [added.1]), rs[1..]);
      } else {
        InlineRelationsGrow(dm, m, t, rs[1..]);
      }
    }
  }

  lemma {:induction false} NotTheId(dm: Datamodel, m: Model, t: Table, r: RelationHolder)
    requires Valid(dm) && m in dm.models && r in dm.relations && InlinedIn(m, r) && Growing(m, t, ModelNames(dm.models))
    ensures FindId(m.fields).Some? && r.manifestation.column != FieldDbName(FindId(m.fields).value)
  {
  }

  ghost predicate ModelLayer(t: Table, names: set<Name>) {
    IsModelTable(t) && ReferencesWithin(t, names) && NoLists(t) && t.name in names
  }

  ghost predicate OtherLayer(t: Table, names: set<Name>) {
    ReferencesWithin(t, names) && NoLists(t)
  }

  lemma {:induction false} ModelTablesLayer(dm: Datamodel, ms: seq<Model>)
    requires Valid(dm) && (forall m :: m in ms ==> m in dm.models) && ModelTables(ms, dm.relations).Some?
    ensures var ts := ModelTables(ms, dm.relations).value;
            && (forall t :: t in ts ==> ModelLayer(t, ModelNames(dm.models)))
            && (forall m :: m in ms ==> FindTable(ts, ModelDbName(m)).Some?)
  {
    if ms != [] {
      assert ms[0] in ms && forall m :: m in ms[1..] ==> m in ms;
      ModelTablesLayer(dm, ms[1..]);
      var bare := ModelTable(ms[0]).value;
      InlineRelationsGrow(dm, ms[0], bare, dm.relations);
      var t, rest := WithInlineRelations(ms[0], bare, dm.relations).value, ModelTables(ms[1..], dm.relations).value;
      GrownIsModelTable(dm, ms[0], t);
      assert ([t] + rest)[1..] == rest;
    }
  }

  lemma {:induction false} GrownIsModelTable(dm: Datamodel, m: Model, t: Table)
    requires Valid(dm) && m in dm.models && Growing(m, t, ModelNames(dm.models))
    ensures ModelLayer(t, ModelNames(dm.models))
  {
    forall n | FkOf(t, n).Some? ensures !InPrimaryKey(t, n) {
      assert FkOf(t, n).value in t.foreignKeys;
    }
  }

  lemma {:induction false} ListTablesOfLayer(m: Model, fs: seq<Field>, names: set<Name>)
    requires ModelDbName(m) in names && ListTablesOf(m, fs).Some?
    ensures forall t :: t in ListTablesOf(m, fs).value ==> OtherLayer(t, names)
  {
    if fs != [] {
      ListTablesOfLayer(m, fs[1..], names);
    }
  }

  lemma {:induction false} ListTablesLayer(dm: Datamodel, ms: seq<Model>)
    requires (forall m :: m in ms ==> m in dm.models) && ListTables(ms).Some?
    ensures forall t :: t in ListTables(ms).value ==> OtherLayer(t, ModelNames(dm.models))
  {
    if ms != [] {
      assert ms[0] in ms && forall m :: m in ms[1..] ==> m in ms;
      ListTablesOfLayer(ms[0], ms[0].fields, ModelNames(dm.models));
      ListTablesLayer(dm, ms[1..]);
    }
  }

  lemma {:induction false} RelationTablesLayer(dm: Datamodel, rs: seq<RelationHolder>)
    requires Valid(dm) && (forall r :: r in rs ==> r in dm.relations) && RelationTables(rs).Some?
    ensures forall t :: t in RelationTables(rs).value ==> OtherLayer(t, ModelNames(dm.models))
  {
    if rs != [] {
      assert rs[0] in rs && forall r :: r in rs[1..] ==> r in rs;
      RelationTablesLayer(dm, rs[1..]);
      if rs[0].manifestation.JoinTable? {
        RelationTableLayer(dm, rs[0]);
      }
      hide RelationTable, OtherLayer, Valid;
    }
  }

  lemma {:induction false} RelationTableLayer(dm: Datamodel, r: RelationHolder)
    requires Valid(dm) && r in dm.relations && RelationTable(r).Some?
    ensures OtherLayer(RelationTable(r).value, ModelNames(dm.models))
  {
    assert r.modelA in dm.models && r.modelB in dm.models;
  }

  // ----- layers -----

  /** Model tables, then tables that refer to model tables alone. */
  ghost predicate Layered(models: seq<Table>, others: seq<Table>, names: set<Name>) {
    && (forall t :: t in models ==> ModelLayer(t, names))
    && (forall t :: t in others ==> OtherLayer(t, names))
    && (forall n :: n in names ==> FindTable(models, n).Some?)
  }

  lemma {:induction false} SortKeepsTable(t: Table, names: set<Name>)
    ensures var t' := t.(columns := SortByName(t.columns));
            && (ModelLayer(t, names) ==> ModelLayer(t', names))
            && (OtherLayer(t, names) ==> OtherLayer(t', names))
  {
    var t' := t.(columns := SortByName(t.columns));
    assert forall n :: FkOf(t', n) == FkOf(t, n);
    forall c ensures c in t'.columns <==> c in t.columns {
      assert c in t'.columns <==> c in multiset(t'.columns);
      assert c in t.columns <==> c in multiset(t.columns);
    }
  }

  lemma {:induction false} SortKeepsLayers(models: seq<Table>, others: seq<Table>, names: set<Name>)
    requires Layered(models, others, names)
    ensures SortedColumns(models + others) == SortedColumns(models) + SortedColumns(others)
    ensures Layered(SortedColumns(models), SortedColumns(others), names)
  {
    SortConcat(models, others);
    forall t | t in SortedColumns(models) ensures ModelLayer(t, names) {
      var u := SortSource(models, t);
      SortKeepsTable(u, names);
    }
    forall t | t in SortedColumns(others) ensures OtherLayer(t, names) {
      var u := SortSource(others, t);
      SortKeepsTable(u, names);
    }
    forall n | n in names ensures FindTable(SortedColumns(models), n).Some? {
      SortFinds(models, n);
    }
  }

  lemma {:induction false} SortConcat(xs: seq<Table>, ys: seq<Table>)
    ensures SortedColumns(xs + ys) == SortedColumns(xs) + SortedColumns(ys)
  {
    if xs == [] {
      assert xs + ys == ys;
    } else {
      assert (xs + ys)[0] == xs[0] && (xs + ys)[1..] == xs[1..] + ys;
      SortConcat(xs[1..], ys);
    }
  }

  lemma {:induction false} SortSource(ts: seq<Table>, t: Table) returns (u: Table)
    requires t in SortedColumns(ts)
    ensures u in ts && t == u.(columns := SortByName(u.columns))
  {
    if t in SortedColumns(ts[1..]) {
      u := SortSource(ts[1..], t);
    } else {
      u := ts[0];
    }
  }

  lemma {:induction false} SortFinds(ts: seq<Table>, n: Name)
    ensures FindTable(SortedColumns(ts), n).Some? <==> FindTable(ts, n).Some?
  {
    if ts != [] {
      SortFinds(ts[1..], n);
      var first := ts[0].(columns := SortByName(ts[0].columns));
      assert ([first] + SortedColumns(ts[1..]))[1..] == SortedColumns(ts[1..]);
    }
  }

  lemma {:induction false} CalculatedIsLayered(dm: Datamodel) returns (models: seq<Table>, others: seq<Table>)
    requires Valid(dm) && Calculate(dm).Some?
    ensures Calculate(dm).value.tables == models + others && Layered(models, others, ModelNames(dm.models))
  {
    hide ModelTables, ListTables, RelationTables, SortedColumns, ModelLayer, OtherLayer, Valid;
    var ms, ls, rs :=
      ModelTables(dm.models, dm.relations).value, ListTables(dm.models).value, RelationTables(dm.relations).value;
    ModelTablesLayer(dm, dm.models);
    ListTablesLayer(dm, dm.models);
    RelationTablesLayer(dm, dm.relations);
    assert ms + ls + rs == ms + (ls + rs);
    SortKeepsLayers(ms, ls + rs, ModelNames(dm.models));
    models, others := SortedColumns(ms), SortedColumns(ls + rs);
  }

  // ----- foreign keys of layered tables come in time -----

  lemma {:induction false} CreateConcat(prev: Schema, xs: seq<Table>, ys: seq<Table>)
    ensures TablesToCreate(prev, xs + ys) == TablesToCreate(prev, xs) + TablesToCreate(prev, ys)
  {
    if xs == [] {
      assert xs + ys == ys;
    } else {
      assert (xs + ys)[0] == xs[0] && (xs + ys)[1..] == xs[1..] + ys;
      CreateConcat(prev, xs[1..], ys);
    }
  }

  function NameSet(ts: seq<Table>): (r: set<Name>)
    ensures forall n :: n in r <==> FindTable(ts, n).Some?
  {
    if ts == [] then {} else {ts[0].name} + NameSet(ts[1..])
  }

  lemma {:induction false} ModelsEarly(done: set<Name>, xs: seq<Table>, ys: seq<Table>, created: seq<Name>, names: set<Name>)
    requires forall t :: t in xs ==> ModelLayer(t, names)
    requires EarlyEnough(done + NameSet(xs), ys, created)
    ensures EarlyEnough(done, xs + ys, created)
    decreases |xs|
  {
    hide ModelLayer, EarlyEnough, Undelayed;
    if xs == [] {
      assert xs + ys == ys;
      assert done + NameSet(xs) == done;
    } else {
      assert xs[0] in xs && forall t :: t in xs[1..] ==> t in xs;
      assert (xs + ys)[0] == xs[0] && (xs + ys)[1..] == xs[1..] + ys;
      assert done + {xs[0].name} + NameSet(xs[1..]) == done + NameSet(xs);
      ModelsAreDelayed(xs[0], names, created);
      ModelsEarly(done + {xs[0].name}, xs[1..], ys, created, names);
      EarlyFirst(done, xs[0], xs + ys, created);
    }
  }

  lemma {:induction false} EarlyFirst(done: set<Name>, t: Table, ts: seq<Table>, created: seq<Name>)
    requires ts != [] && ts[0] == t && (forall c :: c in t.columns ==> !Undelayed(t, created, c))
    requires EarlyEnough(done + {t.name}, ts[1..], created)
    ensures EarlyEnough(done, ts, created)
  {
    hide Undelayed;
  }

  lemma {:induction false} ModelsAreDelayed(t: Table, names: set<Name>, created: seq<Name>)
    requires ModelLayer(t, names)
    ensures forall c :: c in t.columns ==> !Undelayed(t, created, c)
  {
  }

  lemma {:induction false} OthersEarly(done: set<Name>, ys: seq<Table>, created: seq<Name>, names: set<Name>)
    requires forall t :: t in ys ==> OtherLayer(t, names)
    requires forall n :: n in names && n in created ==> n in done
    ensures EarlyEnough(done, ys, created)
    decreases |ys|
  {
    if ys != [] {
      assert ys[0] in ys && forall t :: t in ys[1..] ==> t in ys;
      OthersEarly(done + {ys[0].name}, ys[1..], created, names);
    }
  }

  lemma {:induction false} LayeredIsEarly(prev: Schema, models: seq<Table>, others: seq<Table>, names: set<Name>)
    requires TablesDistinct(models + others) && Layered(models, others, names)
    ensures var ts := TablesToCreate(prev, models + others); EarlyEnough({}, ts, NamesOf(ts))
  {
    var ts := TablesToCreate(prev, models + others);
    var xs, ys := TablesToCreate(prev, models), TablesToCreate(prev, others);
    CreateConcat(prev, models, others);
    CreatedAreNext(prev, models);
    CreatedAreNext(prev, others);
    var done := NameSet(xs);
    forall n | n in names && n in NamesOf(ts) ensures n in done {
      CreatedTable(prev, models + others, n);
      var t := FindTable(models, n).value;
      CreatedListed(prev, models, t);
    }
    assert {} + done == done;
    OthersEarly(done, ys, NamesOf(ts), names);
    ModelsEarly({}, xs, ys, NamesOf(ts), names);
  }

  lemma {:induction false} CreatedListed(prev: Schema, ts: seq<Table>, t: Table)
    requires t in ts && !HasTable(prev, t.name) && t.name != MIGRATION_TABLE
    ensures t in TablesToCreate(prev, ts)
  {
    if ts[0] != t {
      CreatedListed(prev, ts[1..], t);
    }
  }

  lemma {:induction false} CalculatedIsClosed(dm: Datamodel)
    requires Valid(dm) && Calculate(dm).Some?
    ensures ReferencesClosed(Calculate(dm).value)
  {
    var models, others := CalculatedIsLayered(dm);
    var s := Calculate(dm).value;
    forall t, c, n | t in s.tables && c in t.columns && RefersTo(t, c, n) ensures HasTable(s, n) {
      assert FkOf(t, c.name).value in t.foreignKeys;
      assert t in models || t in others;
      assert n in ModelNames(dm.models);
      var m := FindTable(models, n).value;
      assert m in s.tables;
    }
  }

  /**
    Every migration to a calculated schema brings in each foreign key only when
    the table it refers to exists, mutual references included.
   */
  lemma {:induction false} CalculatedLinksExist(dm: Datamodel, prev: Schema, db: Db)
    requires Valid(dm) && Calculate(dm).Some? && TablesDistinct(Calculate(dm).value.tables)
    requires HasTable(Calculate(dm).value, MIGRATION_TABLE) ==> HasTable(prev, MIGRATION_TABLE)
    requires forall n :: n in db <==> HasTable(prev, n)
    ensures LinksExist(db.Keys, IntoSteps(DelayedDiff(Diff(prev, Calculate(dm).value))))
    ensures forall family :: LinkedAlong(family, db, IntoSteps(DelayedDiff(Diff(prev, Calculate(dm).value))))
  {
    var models, others := CalculatedIsLayered(dm);
    CalculatedIsClosed(dm);
    LayeredIsEarly(prev, models, others, ModelNames(dm.models));
    DelayedLinksExistIff(prev, Calculate(dm).value, db);
    hide LinkedAlong, IntoSteps, DelayedDiff, Diff, Calculate, LinksExist, EarlyEnough;
    forall family ensures LinkedAlong(family, db, IntoSteps(DelayedDiff(Diff(prev, Calculate(dm).value)))) {
      DelayedLinksAreInDatabase(family, prev, Calculate(dm).value, db);
    }
  }

  /** No list column of a calculated schema is ever created as something else. */
  lemma {:induction false} CalculatedHasNoLists(dm: Datamodel, p: Option<Table>, t: Table)
    requires Valid(dm) && Calculate(dm).Some? && t in Calculate(dm).value.tables
    ensures NoListCreated(p, t)
  {
    var models, others := CalculatedIsLayered(dm);
    assert t in models || t in others;
  }
}
