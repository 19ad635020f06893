/**
  What the schema calculator makes of a datamodel: which tables there are, and what
  columns, keys, indexes and foreign keys each of them has.
 */
module CalculatedTables {
  import opened Wrappers
  import opened Names
  import opened SqlSchemas
  import opened SqlCalculator

  // ----- names, types and ids -----

  /** The name in the database: the one that is given, or else the name itself. */
  function DbName(given: Option<Name>, name: Name): Name {
    match given
    case Some(n) => n
    case None => name
  }

  predicate TypeIs(f: Field, family: ColumnTypeFamily) {
    match family
    case Int => f.fieldType == Base(IntType)
    case Float => f.fieldType == Base(FloatType)
    case Boolean => f.fieldType == Base(BooleanType)
    case String => f.fieldType == Base(StringType) || f.fieldType.Enum?
    case DateTime => f.fieldType == Base(DateTimeType)
    case _ => false
  }

  predicate ArityIs(f: Field, arity: ColumnArity) {
    match arity
    case Required => f.arity.RequiredField?
    case Nullable => f.arity.OptionalField?
    case List => f.arity.ListField?
  }

  /** Some type of column is that of the field. */
  predicate Typed(f: Field) {
    f.fieldType.Enum? || (f.fieldType.Base? && f.fieldType.scalar != DecimalType)
  }

  lemma {:induction false} TypedIff(f: Field)
    ensures FamilyOf(f).Some? <==> Typed(f)
    ensures FamilyOf(f).Some? ==> TypeIs(f, FamilyOf(f).value)
    ensures ArityIs(f, ArityOf(f))
  {
  }

  /** The id of a model is its first id field. */
  ghost predicate IsIdOf(m: Model, f: Field) {
    exists i :: 0 <= i < |m.fields| && m.fields[i] == f && f.isId && forall j :: 0 <= j < i ==> !m.fields[j].isId
  }

  predicate HasId(m: Model) {
    exists f :: f in m.fields && f.isId
  }

  lemma {:induction false} FirstId(fs: seq<Field>)
    ensures FindId(fs).Some? <==> exists f :: f in fs && f.isId
    ensures FindId(fs).Some? ==>
              exists i :: 0 <= i < |fs| && fs[i] == FindId(fs).value && fs[i].isId && forall j :: 0 <= j < i ==> !fs[j].isId
  {
    if fs != [] && !fs[0].isId {
      FirstId(fs[1..]);
      if FindId(fs).Some? {
        var i :| 0 <= i < |fs[1..]| && fs[1..][i] == FindId(fs[1..]).value && forall j :: 0 <= j < i ==> !fs[1..][j].isId;
        assert fs[i + 1] == FindId(fs).value && fs[i + 1].isId;
        forall j | 0 <= j < i + 1 ensures !fs[j].isId {
          assert j > 0 ==> fs[1..][j - 1] == fs[j];
        }
      }
    }
  }

  lemma {:induction false} IdFound(m: Model)
    ensures FindId(m.fields).Some? <==> HasId(m)
    ensures FindId(m.fields).Some? ==> IsIdOf(m, FindId(m.fields).value)
  {
    FirstId(m.fields);
  }

  // ----- columns of fields -----

  predicate HasColumn(f: Field) {
    !f.fieldType.Relation? && !f.arity.ListField?
  }

  predicate ColumnOfField(f: Field, c: Column) {
    && HasColumn(f) && c.name == DbName(f.databaseName, f.name) && TypeIs(f, c.family) && ArityIs(f, c.arity)
    && c.default == (if f.isId then None else f.migrationValue)
  }

  ghost predicate FromField(fs: seq<Field>, c: Column) {
    exists f :: f in fs && ColumnOfField(f, c)
  }

  ghost predicate FieldHasColumn(f: Field, cs: seq<Column>) {
    exists c :: c in cs && ColumnOfField(f, c)
  }

  function FieldsWithColumn(fs: seq<Field>): nat {
    if fs == [] then 0 else (if HasColumn(fs[0]) then 1 else 0) + FieldsWithColumn(fs[1..])
  }

  /** One column for each field that has one. */
  ghost predicate ColumnsOfFields(fs: seq<Field>, cs: seq<Column>) {
    && (forall c :: c in cs ==> FromField(fs, c))
    && (forall f :: f in fs && HasColumn(f) ==> FieldHasColumn(f, cs))
    && |cs| == FieldsWithColumn(fs)
  }

  predicate FieldsTyped(fs: seq<Field>) {
    forall f :: f in fs && HasColumn(f) ==> Typed(f)
  }

  lemma {:induction false} ScalarColumnsAre(fs: seq<Field>)
    ensures ScalarColumns(fs).Some? <==> FieldsTyped(fs)
    ensures ScalarColumns(fs).Some? ==> ColumnsOfFields(fs, ScalarColumns(fs).value)
  {
    if fs != [] {
      ScalarColumnsAre(fs[1..]);
      TypedIff(fs[0]);
      assert fs == [fs[0]] + fs[1..];
      hide ColumnOfField, Typed, FamilyOf;
      assert FieldsTyped(fs) <==> FieldsTyped(fs[1..]) && (HasColumn(fs[0]) ==> Typed(fs[0]));
      if ScalarColumns(fs).Some? {
        var cs, rest := ScalarColumns(fs).value, ScalarColumns(fs[1..]).value;
        if HasColumn(fs[0]) {
          ColumnIsOfField(fs[0]);
        }
        FirstColumn(fs, rest, cs);
      }
    }
  }

  lemma {:induction false} ColumnIsOfField(f: Field)
    requires HasColumn(f) && FamilyOf(f).Some?
    ensures ColumnOfField(f, Column(FieldDbName(f), FamilyOf(f).value, ArityOf(f), if f.isId then None else f.migrationValue))
  {
    TypedIff(f);
  }

  lemma {:induction false} FirstColumn(fs: seq<Field>, rest: seq<Column>, cs: seq<Column>)
    requires fs != [] && ColumnsOfFields(fs[1..], rest)
    requires if HasColumn(fs[0]) then |cs| > 0 && cs == [cs[0]] + rest && ColumnOfField(fs[0], cs[0]) else cs == rest
    ensures ColumnsOfFields(fs, cs)
  {
    hide ColumnOfField;
    forall c | c in cs ensures FromField(fs, c) {
      if c in rest {
        assert FromField(fs[1..], c);
      } else {
        assert fs[0] in fs && ColumnOfField(fs[0], c);
      }
    }
    forall f | f in fs && HasColumn(f) ensures FieldHasColumn(f, cs) {
      if f in fs[1..] {
        assert FieldHasColumn(f, rest);
        var c :| c in rest && ColumnOfField(f, c);
        assert c in cs;
      } else {
        assert cs[0] in cs && ColumnOfField(f, cs[0]);
      }
    }
  }

  // ----- columns and foreign keys of inline relations -----

  predicate Inlined(m: Model, r: RelationHolder) {
    r.manifestation.Inline? && r.manifestation.inTableOfModel == m.name
  }

  /** The end of a relation that a model is at; it is at `modelB` where it is not `modelA`. */
  function OwnEnd(m: Model, r: RelationHolder): Model {
    if m == r.modelA then r.modelA else r.modelB
  }

  function OtherEnd(m: Model, r: RelationHolder): Model {
    if m == r.modelA then r.modelB else r.modelA
  }

  /** The first field with a name in the database. */
  ghost predicate FieldStoredAs(m: Model, n: Name, f: Field) {
    exists i ::
      && 0 <= i < |m.fields| && m.fields[i] == f && DbName(f.databaseName, f.name) == n
      && forall j :: 0 <= j < i ==> DbName(m.fields[j].databaseName, m.fields[j].name) != n
  }

  /** A column with the type of the id it refers to, and the arity of the field. */
  ghost predicate ColumnOfRelation(m: Model, r: RelationHolder, c: Column) {
    && Inlined(m, r) && c.name == r.manifestation.column && c.default.None?
    && (exists f :: FieldStoredAs(OwnEnd(m, r), c.name, f) && ArityIs(f, c.arity))
    && (exists id :: IsIdOf(OtherEnd(m, r), id) && TypeIs(id, c.family))
  }

  /** A foreign key to the id of the model at the other end. */
  ghost predicate KeyOfRelation(m: Model, r: RelationHolder, fk: ForeignKey) {
    && Inlined(m, r) && fk.constraintName.None? && fk.columns == [r.manifestation.column] && fk.onDelete.SetNull?
    && fk.referencedTable == DbName(OtherEnd(m, r).databaseName, OtherEnd(m, r).name)
    && exists id :: IsIdOf(OtherEnd(m, r), id) && fk.referencedColumns == [DbName(id.databaseName, id.name)]
  }

  ghost predicate FromRelation(m: Model, rs: seq<RelationHolder>, c: Column) {
    exists r :: r in rs && ColumnOfRelation(m, r, c)
  }

  ghost predicate RelationHasColumn(m: Model, r: RelationHolder, cs: seq<Column>) {
    exists c :: c in cs && ColumnOfRelation(m, r, c)
  }

  ghost predicate KeyFromRelation(m: Model, rs: seq<RelationHolder>, fk: ForeignKey) {
    exists r :: r in rs && KeyOfRelation(m, r, fk)
  }

  ghost predicate RelationHasKey(m: Model, r: RelationHolder, fks: seq<ForeignKey>) {
    exists fk :: fk in fks && KeyOfRelation(m, r, fk)
  }

  function RelationsInlined(m: Model, rs: seq<RelationHolder>): nat {
    if rs == [] then 0 else (if Inlined(m, rs[0]) then 1 else 0) + RelationsInlined(m, rs[1..])
  }

  /** One column and one foreign key for each relation that is inlined in the table of a model. */
  ghost predicate ColumnsOfRelations(m: Model, rs: seq<RelationHolder>, cs: seq<Column>) {
    && (forall c :: c in cs ==> FromRelation(m, rs, c))
    && (forall r :: r in rs && Inlined(m, r) ==> RelationHasColumn(m, r, cs))
    && |cs| == RelationsInlined(m, rs)
  }

  ghost predicate KeysOfRelations(m: Model, rs: seq<RelationHolder>, fks: seq<ForeignKey>) {
    && (forall fk :: fk in fks ==> KeyFromRelation(m, rs, fk))
    && (forall r :: r in rs && Inlined(m, r) ==> RelationHasKey(m, r, fks))
    && |fks| == RelationsInlined(m, rs)
  }

  lemma {:induction false} FirstStoredAs(fs: seq<Field>, n: Name)
    ensures FindByDbName(fs, n).Some? <==> exists f :: f in fs && DbName(f.databaseName, f.name) == n
    ensures FindByDbName(fs, n).Some? ==>
              exists i ::
                && 0 <= i < |fs| && fs[i] == FindByDbName(fs, n).value
                && forall j :: 0 <= j < i ==> DbName(fs[j].databaseName, fs[j].name) != n
  {
    if fs != [] && FieldDbName(fs[0]) != n {
      FirstStoredAs(fs[1..], n);
      if FindByDbName(fs, n).Some? {
        var i :|
          && 0 <= i < |fs[1..]| && fs[1..][i] == FindByDbName(fs[1..], n).value
          && forall j :: 0 <= j < i ==> DbName(fs[1..][j].databaseName, fs[1..][j].name) != n;
        assert fs[i + 1] == FindByDbName(fs, n).value;
        forall j | 0 <= j < i + 1 ensures DbName(fs[j].databaseName, fs[j].name) != n {
          assert j > 0 ==> fs[1..][j - 1] == fs[j];
        }
      }
    }
  }

  lemma {:induction false} StoredFieldFound(m: Model, n: Name)
    ensures FindByDbName(m.fields, n).Some? <==> exists f :: f in m.fields && DbName(f.databaseName, f.name) == n
    ensures FindByDbName(m.fields, n).Some? ==> FieldStoredAs(m, n, FindByDbName(m.fields, n).value)
  {
    FirstStoredAs(m.fields, n);
  }

  ghost predicate IdTyped(m: Model) {
    exists id :: IsIdOf(m, id) && Typed(id)
  }

  lemma {:induction false} OneId(m: Model, f: Field, g: Field)
    requires IsIdOf(m, f) && IsIdOf(m, g)
    ensures f == g
  {
    var i :| 0 <= i < |m.fields| && m.fields[i] == f && f.isId && forall j :: 0 <= j < i ==> !m.fields[j].isId;
    var k :| 0 <= k < |m.fields| && m.fields[k] == g && g.isId && forall j :: 0 <= j < k ==> !m.fields[j].isId;
    assert i == k;
  }

  lemma {:induction false} IdTypedIff(m: Model)
    ensures FindId(m.fields).Some? && FamilyOf(FindId(m.fields).value).Some? <==> IdTyped(m)
    ensures IdTyped(m) ==> IsIdOf(m, FindId(m.fields).value) && TypeIs(FindId(m.fields).value, FamilyOf(FindId(m.fields).value).value)
  {
    IdFound(m);
    if FindId(m.fields).Some? {
      var found := FindId(m.fields).value;
      TypedIff(found);
      if IdTyped(m) {
        var id :| IsIdOf(m, id) && Typed(id);
        OneId(m, id, found);
      }
    }
  }

  /** The column of the relation is that of a field, and the id it refers to has a type. */
  ghost predicate Inlinable(m: Model, r: RelationHolder)
    requires Inlined(m, r)
  {
    && (exists f :: f in OwnEnd(m, r).fields && DbName(f.databaseName, f.name) == r.manifestation.column)
    && IdTyped(OtherEnd(m, r))
  }

  lemma {:induction false} InlineRelationIs(m: Model, r: RelationHolder)
    requires Inlined(m, r)
    ensures InlineRelation(m, r).Some? <==> Inlinable(m, r)
    ensures InlineRelation(m, r).Some? ==>
              && ColumnOfRelation(m, r, InlineRelation(m, r).value.0)
              && KeyOfRelation(m, r, InlineRelation(m, r).value.1)
  {
    var own, other, column := OwnEnd(m, r), OtherEnd(m, r), r.manifestation.column;
    StoredFieldFound(own, column);
    IdTypedIff(other);
    var field, id := FindByDbName(own.fields, column), FindId(other.fields);
    assert InlineRelation(m, r) ==
           if field.None? || id.None? || FamilyOf(id.value).None? then None
           else Some((Column(column, FamilyOf(id.value).value, ArityOf(field.value), None),
                      ForeignKey(None, [column], ModelDbName(other), [FieldDbName(id.value)], SetNull)));
    hide InlineRelation, FindByDbName, FindId, FamilyOf, IsIdOf, FieldStoredAs, IdTyped, TypeIs;
    if InlineRelation(m, r).Some? {
      ColumnIsOfRelation(m, r, field.value, id.value, FamilyOf(id.value).value);
      KeyIsOfRelation(m, r, id.value);
    }
  }

  lemma {:induction false} ColumnIsOfRelation(m: Model, r: RelationHolder, f: Field, id: Field, family: ColumnTypeFamily)
    requires Inlined(m, r) && FieldStoredAs(OwnEnd(m, r), r.manifestation.column, f)
    requires IsIdOf(OtherEnd(m, r), id) && TypeIs(id, family)
    ensures ColumnOfRelation(m, r, Column(r.manifestation.column, family, ArityOf(f), None))
  {
    TypedIff(f);
    hide FieldStoredAs, IsIdOf, TypeIs, ArityIs, OwnEnd, OtherEnd;
  }

  lemma {:induction false} KeyIsOfRelation(m: Model, r: RelationHolder, id: Field)
    requires Inlined(m, r) && IsIdOf(OtherEnd(m, r), id)
    ensures var column, other := r.manifestation.column, OtherEnd(m, r);
            KeyOfRelation(m, r, ForeignKey(None, [column], ModelDbName(other), [FieldDbName(id)], SetNull))
  {
    hide IsIdOf;
  }

  ghost predicate AllInlinable(m: Model, rs: seq<RelationHolder>) {
    forall r :: r in rs && Inlined(m, r) ==> Inlinable(m, r)
  }

  lemma {:induction false} InlinedIff(m: Model, t: Table, rs: seq<RelationHolder>)
    ensures WithInlineRelations(m, t, rs).Some? <==> AllInlinable(m, rs)
    decreases |rs|
  {
    if rs != [] {
      assert rs == [rs[0]] + rs[1..];
      assert AllInlinable(m, rs) <==> AllInlinable(m, rs[1..]) && (Inlined(m, rs[0]) ==> Inlinable(m, rs[0]));
      hide AllInlinable, Inlinable, InlineRelation;
      if Inlined(m, rs[0]) {
        InlineRelationIs(m, rs[0]);
        if InlineRelation(m, rs[0]).Some? {
          var added := InlineRelation(m, rs[0]).value;
          InlinedIff(m, t.(columns := t.columns + [added.0], foreignKeys := t.foreignKeys + [added.1]), rs[1..]);
        }
      } else {
        InlinedIff(m, t, rs[1..]);
      }
    }
  }

  ghost predicate Extended(m: Model, rs: seq<RelationHolder>, t: Table, t': Table, cs: seq<Column>, fks: seq<ForeignKey>) {
    && t' == t.(columns := t.columns + cs, foreignKeys := t.foreignKeys + fks)
    && ColumnsOfRelations(m, rs, cs) && KeysOfRelations(m, rs, fks)
  }

  lemma {:induction false} InlinedAre(m: Model, t: Table, rs: seq<RelationHolder>)
    returns (cs: seq<Column>, fks: seq<ForeignKey>)
    requires WithInlineRelations(m, t, rs).Some?
    ensures Extended(m, rs, t, WithInlineRelations(m, t, rs).value, cs, fks)
    decreases |rs|
  {
    if rs == [] {
      cs, fks := [], [];
      assert t.columns + cs == t.columns && t.foreignKeys + fks == t.foreignKeys;
    } else if Inlined(m, rs[0]) {
      InlineRelationIs(m, rs[0]);
      var added := InlineRelation(m, rs[0]).value;
      hide InlineRelation, ColumnsOfRelations, KeysOfRelations, ColumnOfRelation, KeyOfRelation;
      var t' := t.(columns := t.columns + [added.0], foreignKeys := t.foreignKeys + [added.1]);
      var cs', fks' := InlinedAre(m, t', rs[1..]);
      cs, fks := [added.0] + cs', [added.1] + fks';
      AddedFirst(t.columns, added.0, cs');
      AddedFirst(t.foreignKeys, added.1, fks');
      FirstRelation(m, rs, cs, fks);
    } else {
      hide ColumnsOfRelations, KeysOfRelations;
      cs, fks := InlinedAre(m, t, rs[1..]);
      OtherRelation(m, rs, cs, fks);
    }
  }

  lemma {:induction false} AddedFirst<T>(xs: seq<T>, x: T, ys: seq<T>)
    ensures (xs + [x]) + ys == xs + ([x] + ys) && ([x] + ys)[1..] == ys
  {
  }

  lemma {:induction false} FirstRelation(m: Model, rs: seq<RelationHolder>, cs: seq<Column>, fks: seq<ForeignKey>)
    requires rs != [] && Inlined(m, rs[0]) && cs != [] && fks != []
    requires ColumnOfRelation(m, rs[0], cs[0]) && KeyOfRelation(m, rs[0], fks[0])
    requires ColumnsOfRelations(m, rs[1..], cs[1..]) && KeysOfRelations(m, rs[1..], fks[1..])
    ensures ColumnsOfRelations(m, rs, cs) && KeysOfRelations(m, rs, fks)
  {
    hide ColumnOfRelation, KeyOfRelation;
    assert rs[0] in rs && cs[0] in cs && fks[0] in fks;
    forall c | c in cs ensures FromRelation(m, rs, c) {
      assert c in cs[1..] ==> FromRelation(m, rs[1..], c);
    }
    forall fk | fk in fks ensures KeyFromRelation(m, rs, fk) {
      assert fk in fks[1..] ==> KeyFromRelation(m, rs[1..], fk);
    }
    forall r | r in rs && Inlined(m, r) ensures RelationHasColumn(m, r, cs) && RelationHasKey(m, r, fks) {
      if r in rs[1..] {
        assert RelationHasColumn(m, r, cs[1..]) && RelationHasKey(m, r, fks[1..]);
      }
    }
  }

  lemma {:induction false} OtherRelation(m: Model, rs: seq<RelationHolder>, cs: seq<Column>, fks: seq<ForeignKey>)
    requires rs != [] && !Inlined(m, rs[0])
    requires ColumnsOfRelations(m, rs[1..], cs) && KeysOfRelations(m, rs[1..], fks)
    ensures ColumnsOfRelations(m, rs, cs) && KeysOfRelations(m, rs, fks)
  {
    hide ColumnOfRelation, KeyOfRelation;
    assert rs == [rs[0]] + rs[1..];
    forall c | c in cs ensures FromRelation(m, rs, c) {
      assert FromRelation(m, rs[1..], c);
    }
    forall fk | fk in fks ensures KeyFromRelation(m, rs, fk) {
      assert KeyFromRelation(m, rs[1..], fk);
    }
  }

  // ----- indexes -----

  /** The unique index of a unique field. */
  predicate IndexOfField(m: Model, f: Field, x: Index) {
    var column := DbName(f.databaseName, f.name);
    f.isUnique && x == Index(DbName(m.databaseName, m.name) + "." + column, [column], Unique)
  }

  /** The first field with a name. */
  ghost predicate FieldCalled(m: Model, n: Name, f: Field) {
    exists i ::
      && 0 <= i < |m.fields| && m.fields[i] == f && f.name == n
      && forall j :: 0 <= j < i ==> m.fields[j].name != n
  }

  ghost predicate ColumnOfNamed(m: Model, n: Name, column: Name) {
    exists f :: FieldCalled(m, n, f) && column == DbName(f.databaseName, f.name)
  }

  /** The columns of the fields that a definition names, in its order. */
  ghost predicate ColumnsOfNamed(m: Model, names: seq<Name>, columns: seq<Name>) {
    |columns| == |names| && forall k :: 0 <= k < |names| ==> ColumnOfNamed(m, names[k], columns[k])
  }

  ghost predicate IndexOfDefinition(m: Model, def: IndexDefinition, x: Index) {
    && ColumnsOfNamed(m, def.fields, x.columns)
    && (x.tpe.Unique? <==> def.unique)
    && x.name == match def.name {
         case Some(n) => n
         case None => DbName(m.databaseName, m.name) + "." + Joined(x.columns)
       }
  }

  ghost predicate UniqueOfSome(m: Model, fs: seq<Field>, x: Index) {
    exists f :: f in fs && IndexOfField(m, f, x)
  }

  ghost predicate FieldHasIndex(m: Model, f: Field, xs: seq<Index>) {
    exists x :: x in xs && IndexOfField(m, f, x)
  }

  function UniqueFields(fs: seq<Field>): nat {
    if fs == [] then 0 else (if fs[0].isUnique then 1 else 0) + UniqueFields(fs[1..])
  }

  /** First one index for each unique field, then one for each definition, in their order. */
  ghost predicate IndexesOfModel(m: Model, xs: seq<Index>) {
    var unique := UniqueFields(m.fields);
    && |xs| == unique + |m.indexes|
    && (forall k :: 0 <= k < unique ==> UniqueOfSome(m, m.fields, xs[k]))
    && (forall f :: f in m.fields && f.isUnique ==> FieldHasIndex(m, f, xs))
    && (forall k :: 0 <= k < |m.indexes| ==> IndexOfDefinition(m, m.indexes[k], xs[unique + k]))
  }

  lemma {:induction false} UniqueIndexesAre(m: Model, fs: seq<Field>)
    ensures var xs := UniqueIndexes(ModelDbName(m), fs);
            && |xs| == UniqueFields(fs)
            && (forall x :: x in xs ==> UniqueOfSome(m, fs, x))
            && (forall f :: f in fs && f.isUnique ==> FieldHasIndex(m, f, xs))
  {
    if fs != [] {
      UniqueIndexesAre(m, fs[1..]);
      var xs, rest := UniqueIndexes(ModelDbName(m), fs), UniqueIndexes(ModelDbName(m), fs[1..]);
      assert fs[0].isUnique ==> IndexOfField(m, fs[0], xs[0]) && xs == [xs[0]] + rest;
      hide IndexOfField;
      forall x | x in xs ensures UniqueOfSome(m, fs, x) {
        if x in rest {
          assert UniqueOfSome(m, fs[1..], x);
        } else {
          assert fs[0] in fs && IndexOfField(m, fs[0], x);
        }
      }
      forall f | f in fs && f.isUnique ensures FieldHasIndex(m, f, xs) {
        if f in fs[1..] {
          assert FieldHasIndex(m, f, rest);
          var x :| x in rest && IndexOfField(m, f, x);
          assert x in xs;
        } else {
          assert xs[0] in xs;
        }
      }
    }
  }

  predicate NamesField(m: Model, n: Name) {
    exists f :: f in m.fields && f.name == n
  }

  lemma {:induction false} FirstCalled(fs: seq<Field>, n: Name)
    ensures FindField(fs, n).Some? <==> exists f :: f in fs && f.name == n
    ensures FindField(fs, n).Some? ==>
              exists i :: 0 <= i < |fs| && fs[i] == FindField(fs, n).value && fs[i].name == n && forall j :: 0 <= j < i ==> fs[j].name != n
  {
    if fs != [] && fs[0].name != n {
      FirstCalled(fs[1..], n);
      if FindField(fs, n).Some? {
        var i :| 0 <= i < |fs[1..]| && fs[1..][i] == FindField(fs[1..], n).value && fs[1..][i].name == n
                 && forall j :: 0 <= j < i ==> fs[1..][j].name != n;
        assert fs[i + 1] == FindField(fs, n).value;
        forall j | 0 <= j < i + 1 ensures fs[j].name != n {
          assert j > 0 ==> fs[1..][j - 1] == fs[j];
        }
      }
    }
  }

  lemma {:induction false} NamedFieldFound(m: Model, n: Name)
    ensures FindField(m.fields, n).Some? <==> NamesField(m, n)
    ensures FindField(m.fields, n).Some? ==> ColumnOfNamed(m, n, FieldDbName(FindField(m.fields, n).value))
  {
    FirstCalled(m.fields, n);
    if FindField(m.fields, n).Some? {
      assert FieldCalled(m, n, FindField(m.fields, n).value);
    }
  }

  lemma {:induction false} IndexColumnsAre(m: Model, names: seq<Name>)
    ensures IndexColumns(m, names).Some? <==> forall n :: n in names ==> NamesField(m, n)
    ensures IndexColumns(m, names).Some? ==> ColumnsOfNamed(m, names, IndexColumns(m, names).value)
  {
    if names != [] {
      IndexColumnsAre(m, names[1..]);
      NamedFieldFound(m, names[0]);
      hide FindField, NamesField, ColumnOfNamed;
      assert names == [names[0]] + names[1..];
      if IndexColumns(m, names).Some? {
        var columns, rest := IndexColumns(m, names).value, IndexColumns(m, names[1..]).value;
        forall k | 0 <= k < |names| ensures ColumnOfNamed(m, names[k], columns[k]) {
          assert k > 0 ==> names[1..][k - 1] == names[k] && rest[k - 1] == columns[k];
        }
      }
    }
  }

  predicate DefinitionsKnown(m: Model, defs: seq<IndexDefinition>) {
    forall def, n :: def in defs && n in def.fields ==> NamesField(m, n)
  }

  lemma {:induction false} DefinedIndexesIff(m: Model, defs: seq<IndexDefinition>)
    ensures DefinedIndexes(m, defs).Some? <==> DefinitionsKnown(m, defs)
  {
    if defs != [] {
      DefinedIndexesIff(m, defs[1..]);
      IndexColumnsAre(m, defs[0].fields);
      assert defs == [defs[0]] + defs[1..];
      hide IndexColumns, NamesField, ColumnsOfNamed;
      assert DefinitionsKnown(m, defs) <==> DefinitionsKnown(m, defs[1..]) && forall n :: n in defs[0].fields ==> NamesField(m, n);
    }
  }

  lemma {:induction false} DefinedIndexesAre(m: Model, defs: seq<IndexDefinition>)
    requires DefinedIndexes(m, defs).Some?
    ensures var xs := DefinedIndexes(m, defs).value;
            |xs| == |defs| && forall k :: 0 <= k < |defs| ==> IndexOfDefinition(m, defs[k], xs[k])
  {
    if defs != [] {
      hide IndexColumns, ColumnsOfNamed;
      DefinedIndexesAre(m, defs[1..]);
      IndexColumnsAre(m, defs[0].fields);
      var xs, rest := DefinedIndexes(m, defs).value, DefinedIndexes(m, defs[1..]).value;
      assert IndexOfDefinition(m, defs[0], xs[0]) && xs == [xs[0]] + rest;
      hide DefinedIndexes, IndexOfDefinition;
      FirstDefinition(m, defs, xs[0], rest);
    }
  }

  lemma {:induction false} FirstDefinition(m: Model, defs: seq<IndexDefinition>, x: Index, rest: seq<Index>)
    requires defs != [] && |rest| == |defs| - 1 && IndexOfDefinition(m, defs[0], x)
    requires forall k :: 0 <= k < |rest| ==> IndexOfDefinition(m, defs[1..][k], rest[k])
    ensures forall k :: 0 <= k < |defs| ==> IndexOfDefinition(m, defs[k], ([x] + rest)[k])
  {
    hide IndexOfDefinition;
    forall k | 0 <= k < |defs| ensures IndexOfDefinition(m, defs[k], ([x] + rest)[k]) {
      assert k > 0 ==> defs[1..][k - 1] == defs[k] && rest[k - 1] == ([x] + rest)[k];
    }
  }

  // ----- tables of models -----

  ghost predicate KeyIsId(m: Model, key: Option<seq<Name>>) {
    exists id :: IsIdOf(m, id) && key == Some([DbName(id.databaseName, id.name)])
  }

  /** One column for each scalar field that is no list, and one for each relation that is inlined. */
  ghost predicate ColumnsOfModel(dm: Datamodel, m: Model, cs: seq<Column>) {
    && (forall c :: c in cs ==> FromField(m.fields, c) || FromRelation(m, dm.relations, c))
    && (forall f :: f in m.fields && HasColumn(f) ==> FieldHasColumn(f, cs))
    && (forall r :: r in dm.relations && Inlined(m, r) ==> RelationHasColumn(m, r, cs))
    && |cs| == FieldsWithColumn(m.fields) + RelationsInlined(m, dm.relations)
  }

  ghost predicate TableOfModel(dm: Datamodel, m: Model, t: Table) {
    && t.name == DbName(m.databaseName, m.name)
    && ColumnsOfModel(dm, m, t.columns)
    && KeyIsId(m, t.primaryKey)
    && IndexesOfModel(m, t.indices)
    && KeysOfRelations(m, dm.relations, t.foreignKeys)
  }

  ghost predicate ModelCalculable(m: Model) {
    FieldsTyped(m.fields) && HasId(m) && DefinitionsKnown(m, m.indexes)
  }

  lemma {:induction false} BareTableIs(m: Model)
    ensures ModelTable(m).Some? <==> ModelCalculable(m)
    ensures ModelTable(m).Some? ==>
              var t := ModelTable(m).value;
              && t.name == DbName(m.databaseName, m.name) && ColumnsOfFields(m.fields, t.columns)
              && KeyIsId(m, t.primaryKey) && IndexesOfModel(m, t.indices) && t.foreignKeys == []
  {
    ScalarColumnsAre(m.fields);
    IdFound(m);
    UniqueIndexesAre(m, m.fields);
    DefinedIndexesIff(m, m.indexes);
    if DefinedIndexes(m, m.indexes).Some? {
      DefinedIndexesAre(m, m.indexes);
    }
    hide ScalarColumns, FindId, UniqueIndexes, DefinedIndexes, FieldsTyped, HasId, DefinitionsKnown, ColumnsOfFields, IsIdOf;
    hide UniqueOfSome, FieldHasIndex, IndexOfDefinition, UniqueFields;
    if ModelTable(m).Some? {
      var xs, ys := UniqueIndexes(ModelDbName(m), m.fields), DefinedIndexes(m, m.indexes).value;
      BothIndexes(m, xs, ys);
      assert KeyIsId(m, ModelTable(m).value.primaryKey);
    }
  }

  lemma {:induction false} BothIndexes(m: Model, xs: seq<Index>, ys: seq<Index>)
    requires |xs| == UniqueFields(m.fields) && (forall x :: x in xs ==> UniqueOfSome(m, m.fields, x))
    requires forall f :: f in m.fields && f.isUnique ==> FieldHasIndex(m, f, xs)
    requires |ys| == |m.indexes| && forall k :: 0 <= k < |ys| ==> IndexOfDefinition(m, m.indexes[k], ys[k])
    ensures IndexesOfModel(m, xs + ys)
  {
    hide UniqueOfSome, IndexOfDefinition, UniqueFields, IndexOfField;
    forall f | f in m.fields && f.isUnique ensures FieldHasIndex(m, f, xs + ys) {
      assert FieldHasIndex(m, f, xs);
      var x :| x in xs && IndexOfField(m, f, x);
      assert x in xs + ys;
    }
    forall k | 0 <= k < |ys| ensures IndexOfDefinition(m, m.indexes[k], (xs + ys)[|xs| + k]) {
      assert (xs + ys)[|xs| + k] == ys[k];
    }
  }

  lemma {:induction false} BothColumns(dm: Datamodel, m: Model, xs: seq<Column>, ys: seq<Column>)
    requires ColumnsOfFields(m.fields, xs) && ColumnsOfRelations(m, dm.relations, ys)
    ensures ColumnsOfModel(dm, m, xs + ys)
  {
    hide FromField, FromRelation, ColumnOfField, ColumnOfRelation;
    forall f | f in m.fields && HasColumn(f) ensures FieldHasColumn(f, xs + ys) {
      assert FieldHasColumn(f, xs);
      var c :| c in xs && ColumnOfField(f, c);
      assert c in xs + ys;
    }
    forall r | r in dm.relations && Inlined(m, r) ensures RelationHasColumn(m, r, xs + ys) {
      assert RelationHasColumn(m, r, ys);
      var c :| c in ys && ColumnOfRelation(m, r, c);
      assert c in xs + ys;
    }
  }

  lemma {:induction false} ModelTableIs(dm: Datamodel, m: Model)
    requires ModelTable(m).Some? && WithInlineRelations(m, ModelTable(m).value, dm.relations).Some?
    ensures TableOfModel(dm, m, WithInlineRelations(m, ModelTable(m).value, dm.relations).value)
  {
    var bare := ModelTable(m).value;
    BareTableIs(m);
    var cs, fks := InlinedAre(m, bare, dm.relations);
    hide ModelTable, WithInlineRelations, ColumnsOfFields, ColumnsOfRelations, ColumnsOfModel, KeysOfRelations, IndexesOfModel;
    BothColumns(dm, m, bare.columns, cs);
    assert [] + fks == fks;
  }

  ghost predicate ModelsCalculable(ms: seq<Model>, rs: seq<RelationHolder>) {
    forall m :: m in ms ==> ModelCalculable(m) && AllInlinable(m, rs)
  }

  lemma {:induction false} ModelTablesIff(ms: seq<Model>, rs: seq<RelationHolder>)
    ensures ModelTables(ms, rs).Some? <==> ModelsCalculable(ms, rs)
  {
    if ms != [] {
      ModelTablesIff(ms[1..], rs);
      BareTableIs(ms[0]);
      assert ms == [ms[0]] + ms[1..];
      hide ModelTable, WithInlineRelations, ModelCalculable, AllInlinable, KeyIsId, IndexesOfModel, ColumnsOfFields;
      assert ModelsCalculable(ms, rs) <==> ModelsCalculable(ms[1..], rs) && ModelCalculable(ms[0]) && AllInlinable(ms[0], rs);
      hide ModelsCalculable;
      if ModelTable(ms[0]).Some? {
        InlinedIff(ms[0], ModelTable(ms[0]).value, rs);
      }
    }
  }

  lemma {:induction false} ModelTablesAre(dm: Datamodel, ms: seq<Model>)
    requires ModelTables(ms, dm.relations).Some?
    ensures var ts := ModelTables(ms, dm.relations).value;
            |ts| == |ms| && forall i :: 0 <= i < |ms| ==> TableOfModel(dm, ms[i], ts[i])
  {
    if ms != [] {
      hide ModelTable, WithInlineRelations, TableOfModel;
      var t, rest := WithInlineRelations(ms[0], ModelTable(ms[0]).value, dm.relations).value, ModelTables(ms[1..], dm.relations).value;
      assert ModelTables(ms, dm.relations) == Some([t] + rest);
      ModelTablesAre(dm, ms[1..]);
      ModelTableIs(dm, ms[0]);
      hide ModelTables;
      FirstModel(dm, ms, t, rest);
    }
  }

  lemma {:induction false} FirstModel(dm: Datamodel, ms: seq<Model>, t: Table, rest: seq<Table>)
    requires ms != [] && |rest| == |ms| - 1 && TableOfModel(dm, ms[0], t)
    requires forall i :: 0 <= i < |rest| ==> TableOfModel(dm, ms[1..][i], rest[i])
    ensures forall i :: 0 <= i < |ms| ==> TableOfModel(dm, ms[i], ([t] + rest)[i])
  {
    hide TableOfModel;
    forall i | 0 <= i < |ms| ensures TableOfModel(dm, ms[i], ([t] + rest)[i]) {
      assert i > 0 ==> ms[1..][i - 1] == ms[i] && rest[i - 1] == ([t] + rest)[i];
    }
  }

  // ----- tables of scalar lists -----

  predicate IsScalarList(f: Field) {
    !f.fieldType.Relation? && f.arity.ListField?
  }

  /** A required column without default that has the type of a field. */
  ghost predicate HasRequired(cs: seq<Column>, n: Name, f: Field) {
    exists family :: TypeIs(f, family) && Column(n, family, Required, None) in cs
  }

  /** Nodes refer to the id of the model; the key is the node and the position. */
  ghost predicate TableOfList(m: Model, f: Field, t: Table) {
    && t.name == DbName(m.databaseName, m.name) + "_" + DbName(f.databaseName, f.name)
    && |t.columns| == 3 && HasRequired(t.columns, "value", f) && Column("position", Int, Required, None) in t.columns
    && t.primaryKey == Some(["nodeId", "position"]) && t.indices == []
    && exists id ::
         && IsIdOf(m, id) && HasRequired(t.columns, "nodeId", id)
         && t.foreignKeys == [ForeignKey(None, ["nodeId"], DbName(m.databaseName, m.name), [DbName(id.databaseName, id.name)], Cascade)]
  }

  ghost predicate FromList(m: Model, fs: seq<Field>, t: Table) {
    exists f :: f in fs && IsScalarList(f) && TableOfList(m, f, t)
  }

  ghost predicate ListHasTable(m: Model, f: Field, ts: seq<Table>) {
    exists t :: t in ts && TableOfList(m, f, t)
  }

  function ListsOf(fs: seq<Field>): nat {
    if fs == [] then 0 else (if IsScalarList(fs[0]) then 1 else 0) + ListsOf(fs[1..])
  }

  ghost predicate TablesOfListsOf(m: Model, fs: seq<Field>, ts: seq<Table>) {
    && (forall t :: t in ts ==> FromList(m, fs, t))
    && (forall f :: f in fs && IsScalarList(f) ==> ListHasTable(m, f, ts))
    && |ts| == ListsOf(fs)
  }

  ghost predicate ListsCalculable(m: Model, fs: seq<Field>) {
    forall f :: f in fs && IsScalarList(f) ==> Typed(f) && IdTyped(m)
  }

  lemma {:induction false} ListTableIs(m: Model, f: Field)
    ensures ListTable(m, f).Some? <==> Typed(f) && IdTyped(m)
    ensures ListTable(m, f).Some? ==> TableOfList(m, f, ListTable(m, f).value)
  {
    IdTypedIff(m);
    TypedIff(f);
    hide IsIdOf, IdTyped, FindId, FamilyOf, Typed, TypeIs;
    if ListTable(m, f).Some? {
      var t, id := ListTable(m, f).value, FindId(m.fields).value;
      assert t.columns[0] in t.columns && t.columns[1] in t.columns && t.columns[2] in t.columns;
      assert HasRequired(t.columns, "nodeId", id) && HasRequired(t.columns, "value", f);
      assert IsIdOf(m, id);
    }
  }

  lemma {:induction false} ListTablesOfAre(m: Model, fs: seq<Field>)
    ensures ListTablesOf(m, fs).Some? <==> ListsCalculable(m, fs)
    ensures ListTablesOf(m, fs).Some? ==> TablesOfListsOf(m, fs, ListTablesOf(m, fs).value)
  {
    if fs != [] {
      ListTablesOfAre(m, fs[1..]);
      ListTableIs(m, fs[0]);
      assert fs == [fs[0]] + fs[1..];
      hide ListTable, TableOfList, Typed, IdTyped;
      assert ListsCalculable(m, fs) <==>
             ListsCalculable(m, fs[1..]) && (IsScalarList(fs[0]) ==> Typed(fs[0]) && IdTyped(m));
      if ListTablesOf(m, fs).Some? {
        FirstList(m, fs, ListTablesOf(m, fs[1..]).value, ListTablesOf(m, fs).value);
      }
    }
  }

  lemma {:induction false} FirstList(m: Model, fs: seq<Field>, rest: seq<Table>, ts: seq<Table>)
    requires fs != [] && TablesOfListsOf(m, fs[1..], rest)
    requires if IsScalarList(fs[0]) then |ts| > 0 && ts == [ts[0]] + rest && TableOfList(m, fs[0], ts[0]) else ts == rest
    ensures TablesOfListsOf(m, fs, ts)
  {
    hide TableOfList;
    forall t | t in ts ensures FromList(m, fs, t) {
      if t in rest {
        assert FromList(m, fs[1..], t);
      } else {
        assert fs[0] in fs && TableOfList(m, fs[0], t);
      }
    }
    forall f | f in fs && IsScalarList(f) ensures ListHasTable(m, f, ts) {
      if f in fs[1..] {
        assert ListHasTable(m, f, rest);
        var t :| t in rest && TableOfList(m, f, t);
        assert t in ts;
      } else {
        assert ts[0] in ts && TableOfList(m, f, ts[0]);
      }
    }
  }

  ghost predicate FromLists(ms: seq<Model>, t: Table) {
    exists m :: m in ms && FromList(m, m.fields, t)
  }

  function AllLists(ms: seq<Model>): nat {
    if ms == [] then 0 else ListsOf(ms[0].fields) + AllLists(ms[1..])
  }

  /** One table for each scalar list of each model. */
  ghost predicate TablesOfLists(ms: seq<Model>, ts: seq<Table>) {
    && (forall t :: t in ts ==> FromLists(ms, t))
    && (forall m, f :: m in ms && f in m.fields && IsScalarList(f) ==> ListHasTable(m, f, ts))
    && |ts| == AllLists(ms)
  }

  ghost predicate AllListsCalculable(ms: seq<Model>) {
    forall m :: m in ms ==> ListsCalculable(m, m.fields)
  }

  lemma {:induction false} ListTablesAre(ms: seq<Model>)
    ensures ListTables(ms).Some? <==> AllListsCalculable(ms)
    ensures ListTables(ms).Some? ==> TablesOfLists(ms, ListTables(ms).value)
  {
    if ms != [] {
      ListTablesAre(ms[1..]);
      ListTablesOfAre(ms[0], ms[0].fields);
      assert ms == [ms[0]] + ms[1..];
      hide ListTablesOf, ListsCalculable;
      assert AllListsCalculable(ms) <==> AllListsCalculable(ms[1..]) && ListsCalculable(ms[0], ms[0].fields);
      if ListTables(ms).Some? {
        FirstLists(ms, ListTablesOf(ms[0], ms[0].fields).value, ListTables(ms[1..]).value);
      }
    }
  }

  lemma {:induction false} FirstLists(ms: seq<Model>, xs: seq<Table>, ys: seq<Table>)
    requires ms != [] && TablesOfListsOf(ms[0], ms[0].fields, xs) && TablesOfLists(ms[1..], ys)
    ensures TablesOfLists(ms, xs + ys)
  {
    hide TableOfList, FromList;
    forall t | t in xs + ys ensures FromLists(ms, t) {
      if t in xs {
        assert ms[0] in ms && FromList(ms[0], ms[0].fields, t);
      } else {
        assert FromLists(ms[1..], t);
      }
    }
    forall m, f | m in ms && f in m.fields && IsScalarList(f) ensures ListHasTable(m, f, xs + ys) {
      if m in ms[1..] {
        assert ListHasTable(m, f, ys);
        var t :| t in ys && TableOfList(m, f, t);
        assert t in xs + ys;
      } else {
        assert ListHasTable(m, f, xs);
        var t :| t in xs && TableOfList(m, f, t);
        assert t in xs + ys;
      }
    }
  }

  // ----- tables of relations -----

  /** Column A refers to the id of model A, and column B to that of model B. */
  ghost predicate TableOfRelation(r: RelationHolder, t: Table) {
    && t.name == "_" + r.name && t.primaryKey.None? && |t.columns| == 2
    && t.indices == [Index("_" + r.name + "_AB_unique", ["A", "B"], Unique)]
    && |t.foreignKeys| == 2
    && SideOfRelation(r.modelA, "A", t.columns, t.foreignKeys[0])
    && SideOfRelation(r.modelB, "B", t.columns, t.foreignKeys[1])
  }

  ghost predicate SideOfRelation(m: Model, n: Name, cs: seq<Column>, fk: ForeignKey) {
    exists id ::
      && IsIdOf(m, id) && HasRequired(cs, n, id)
      && fk == ForeignKey(None, [n], DbName(m.databaseName, m.name), [DbName(id.databaseName, id.name)], Cascade)
  }

  lemma {:induction false} RelationTableIs(r: RelationHolder)
    ensures RelationTable(r).Some? <==> IdTyped(r.modelA) && IdTyped(r.modelB)
    ensures RelationTable(r).Some? ==> TableOfRelation(r, RelationTable(r).value)
  {
    IdTypedIff(r.modelA);
    IdTypedIff(r.modelB);
    hide IsIdOf, IdTyped, FindId, FamilyOf, TypeIs;
    if RelationTable(r).Some? {
      var t, idA, idB := RelationTable(r).value, FindId(r.modelA.fields).value, FindId(r.modelB.fields).value;
      assert t.columns[0] in t.columns && t.columns[1] in t.columns;
      assert HasRequired(t.columns, "A", idA) && HasRequired(t.columns, "B", idB);
      hide HasRequired;
      assert SideOfRelation(r.modelA, "A", t.columns, t.foreignKeys[0]) by { assert IsIdOf(r.modelA, idA); }
      assert SideOfRelation(r.modelB, "B", t.columns, t.foreignKeys[1]) by { assert IsIdOf(r.modelB, idB); }
    }
  }

  ghost predicate FromJoin(rs: seq<RelationHolder>, t: Table) {
    exists r :: r in rs && r.manifestation.JoinTable? && TableOfRelation(r, t)
  }

  ghost predicate JoinHasTable(r: RelationHolder, ts: seq<Table>) {
    exists t :: t in ts && TableOfRelation(r, t)
  }

  function Joins(rs: seq<RelationHolder>): nat {
    if rs == [] then 0 else (if rs[0].manifestation.JoinTable? then 1 else 0) + Joins(rs[1..])
  }

  /** One table for each relation that is not inlined. */
  ghost predicate TablesOfRelations(rs: seq<RelationHolder>, ts: seq<Table>) {
    && (forall t :: t in ts ==> FromJoin(rs, t))
    && (forall r :: r in rs && r.manifestation.JoinTable? ==> JoinHasTable(r, ts))
    && |ts| == Joins(rs)
  }

  ghost predicate JoinsCalculable(rs: seq<RelationHolder>) {
    forall r :: r in rs && r.manifestation.JoinTable? ==> IdTyped(r.modelA) && IdTyped(r.modelB)
  }

  lemma {:induction false} RelationTablesIff(rs: seq<RelationHolder>)
    ensures RelationTables(rs).Some? <==> JoinsCalculable(rs)
  {
    if rs != [] {
      RelationTablesIff(rs[1..]);
      RelationTableIs(rs[0]);
      assert rs == [rs[0]] + rs[1..];
      hide RelationTable, TableOfRelation, IdTyped;
      assert JoinsCalculable(rs) <==>
             JoinsCalculable(rs[1..]) && (rs[0].manifestation.JoinTable? ==> IdTyped(rs[0].modelA) && IdTyped(rs[0].modelB));
    }
  }

  lemma {:induction false} RelationTablesAre(rs: seq<RelationHolder>)
    requires RelationTables(rs).Some?
    ensures TablesOfRelations(rs, RelationTables(rs).value)
  {
    if rs != [] {
      hide RelationTable, TableOfRelation, TablesOfRelations;
      RelationTablesAre(rs[1..]);
      RelationTableIs(rs[0]);
      FirstJoin(rs, RelationTables(rs[1..]).value, RelationTables(rs).value);
    }
  }

  lemma {:induction false} FirstJoin(rs: seq<RelationHolder>, rest: seq<Table>, ts: seq<Table>)
    requires rs != [] && TablesOfRelations(rs[1..], rest)
    requires if rs[0].manifestation.JoinTable? then |ts| > 0 && ts == [ts[0]] + rest && TableOfRelation(rs[0], ts[0]) else ts == rest
    ensures TablesOfRelations(rs, ts)
  {
    hide TableOfRelation;
    forall t | t in ts ensures FromJoin(rs, t) {
      if t in rest {
        assert FromJoin(rs[1..], t);
      } else {
        assert rs[0] in rs && TableOfRelation(rs[0], t);
      }
    }
    forall r | r in rs && r.manifestation.JoinTable? ensures JoinHasTable(r, ts) {
      if r in rs[1..] {
        assert JoinHasTable(r, rest);
        var t :| t in rest && TableOfRelation(r, t);
        assert t in ts;
      } else {
        assert ts[0] in ts && TableOfRelation(r, ts[0]);
      }
    }
  }

  // ----- the order of columns -----

  /** The same columns in another order. */
  ghost predicate Reordered(t: Table, t': Table) {
    t' == t.(columns := t'.columns) && multiset(t'.columns) == multiset(t.columns)
  }

  lemma {:induction false} SameColumns(t: Table, t': Table)
    requires Reordered(t, t')
    ensures |t'.columns| == |t.columns| && forall c :: c in t'.columns <==> c in t.columns
  {
    assert |multiset(t'.columns)| == |t'.columns| && |multiset(t.columns)| == |t.columns|;
    forall c ensures c in t'.columns <==> c in t.columns {
      assert c in t'.columns <==> c in multiset(t'.columns);
      assert c in t.columns <==> c in multiset(t.columns);
    }
  }

  lemma {:induction false} ModelReordered(dm: Datamodel, m: Model, t: Table, t': Table)
    requires Reordered(t, t') && TableOfModel(dm, m, t)
    ensures TableOfModel(dm, m, t')
  {
    SameColumns(t, t');
    hide FromField, FromRelation, ColumnOfField, ColumnOfRelation, KeyIsId, IndexesOfModel, KeysOfRelations;
    forall f | f in m.fields && HasColumn(f) ensures FieldHasColumn(f, t'.columns) {
      assert FieldHasColumn(f, t.columns);
    }
    forall r | r in dm.relations && Inlined(m, r) ensures RelationHasColumn(m, r, t'.columns) {
      assert RelationHasColumn(m, r, t.columns);
    }
  }

  lemma {:induction false} RequiredReordered(t: Table, t': Table, n: Name, f: Field)
    requires Reordered(t, t') && HasRequired(t.columns, n, f)
    ensures HasRequired(t'.columns, n, f)
  {
    SameColumns(t, t');
  }

  lemma {:induction false} ListReordered(m: Model, f: Field, t: Table, t': Table)
    requires Reordered(t, t') && TableOfList(m, f, t)
    ensures TableOfList(m, f, t')
  {
    SameColumns(t, t');
    var id :| IsIdOf(m, id) && HasRequired(t.columns, "nodeId", id)
              && t.foreignKeys == [ForeignKey(None, ["nodeId"], DbName(m.databaseName, m.name), [DbName(id.databaseName, id.name)], Cascade)];
    RequiredReordered(t, t', "nodeId", id);
    RequiredReordered(t, t', "value", f);
    hide HasRequired, IsIdOf;
  }

  lemma {:induction false} JoinReordered(r: RelationHolder, t: Table, t': Table)
    requires Reordered(t, t') && TableOfRelation(r, t)
    ensures TableOfRelation(r, t')
  {
    SameColumns(t, t');
    SideReordered(r.modelA, "A", t, t', t.foreignKeys[0]);
    SideReordered(r.modelB, "B", t, t', t.foreignKeys[1]);
    hide SideOfRelation;
  }

  lemma {:induction false} SideReordered(m: Model, n: Name, t: Table, t': Table, fk: ForeignKey)
    requires Reordered(t, t') && SideOfRelation(m, n, t.columns, fk)
    ensures SideOfRelation(m, n, t'.columns, fk)
  {
    var id :| IsIdOf(m, id) && HasRequired(t.columns, n, id)
              && fk == ForeignKey(None, [n], DbName(m.databaseName, m.name), [DbName(id.databaseName, id.name)], Cascade);
    RequiredReordered(t, t', n, id);
  }

  lemma {:induction false} SortedAre(ts: seq<Table>)
    ensures |SortedColumns(ts)| == |ts|
    ensures forall i :: 0 <= i < |ts| ==> Reordered(ts[i], SortedColumns(ts)[i]) && ByName(SortedColumns(ts)[i].columns)
  {
    if ts != [] {
      SortedAre(ts[1..]);
      hide ByName;
      forall i | 0 <= i < |ts| ensures Reordered(ts[i], SortedColumns(ts)[i]) && ByName(SortedColumns(ts)[i].columns) {
        assert i > 0 ==> ts[1..][i - 1] == ts[i] && SortedColumns(ts[1..])[i - 1] == SortedColumns(ts)[i];
      }
    }
  }

  lemma {:induction false} ListsReordered(ms: seq<Model>, ts: seq<Table>, ts': seq<Table>)
    requires TablesOfLists(ms, ts) && |ts'| == |ts| && forall i :: 0 <= i < |ts| ==> Reordered(ts[i], ts'[i])
    ensures TablesOfLists(ms, ts')
  {
    hide Reordered, TableOfList;
    forall t' | t' in ts' ensures FromLists(ms, t') {
      var i :| 0 <= i < |ts'| && ts'[i] == t';
      assert FromLists(ms, ts[i]);
      var m :| m in ms && FromList(m, m.fields, ts[i]);
      var f :| f in m.fields && IsScalarList(f) && TableOfList(m, f, ts[i]);
      ListReordered(m, f, ts[i], t');
      assert FromList(m, m.fields, t');
    }
    forall m, f | m in ms && f in m.fields && IsScalarList(f) ensures ListHasTable(m, f, ts') {
      assert ListHasTable(m, f, ts);
      var t :| t in ts && TableOfList(m, f, t);
      var i :| 0 <= i < |ts| && ts[i] == t;
      ListReordered(m, f, t, ts'[i]);
      assert ts'[i] in ts';
    }
  }

  lemma {:induction false} JoinsReordered(rs: seq<RelationHolder>, ts: seq<Table>, ts': seq<Table>)
    requires TablesOfRelations(rs, ts) && |ts'| == |ts| && forall i :: 0 <= i < |ts| ==> Reordered(ts[i], ts'[i])
    ensures TablesOfRelations(rs, ts')
  {
    hide Reordered, TableOfRelation;
    forall t' | t' in ts' ensures FromJoin(rs, t') {
      var i :| 0 <= i < |ts'| && ts'[i] == t';
      assert FromJoin(rs, ts[i]);
      var r :| r in rs && r.manifestation.JoinTable? && TableOfRelation(r, ts[i]);
      JoinReordered(r, ts[i], t');
    }
    forall r | r in rs && r.manifestation.JoinTable? ensures JoinHasTable(r, ts') {
      assert JoinHasTable(r, ts);
      var t :| t in ts && TableOfRelation(r, t);
      var i :| 0 <= i < |ts| && ts[i] == t;
      JoinReordered(r, t, ts'[i]);
      assert ts'[i] in ts';
    }
  }

  // ----- the schema -----

  /**
    Every model has an id; scalar fields, and ids that are referred to, have a type of
    column; index definitions name fields, and inline relations columns, of their models.
   */
  ghost predicate Calculable(dm: Datamodel) {
    ModelsCalculable(dm.models, dm.relations) && AllListsCalculable(dm.models) && JoinsCalculable(dm.relations)
  }

  lemma {:induction false} CalculatesIff(dm: Datamodel)
    ensures Calculate(dm).Some? <==> Calculable(dm)
  {
    ModelTablesIff(dm.models, dm.relations);
    ListTablesAre(dm.models);
    RelationTablesIff(dm.relations);
    hide ModelTables, ListTables, RelationTables, ModelsCalculable, AllListsCalculable, JoinsCalculable;
  }

  /** The tables of a calculated schema, for every datamodel that has one. */
  lemma {:induction false} CalculatedTablesAre(dm: Datamodel) returns (models: seq<Table>, lists: seq<Table>, relations: seq<Table>)
    requires Calculate(dm).Some?
    ensures Calculate(dm).value.tables == models + lists + relations
    ensures |models| == |dm.models| && forall i :: 0 <= i < |models| ==> TableOfModel(dm, dm.models[i], models[i])
    ensures TablesOfLists(dm.models, lists) && TablesOfRelations(dm.relations, relations)
    ensures forall t :: t in Calculate(dm).value.tables ==> ByName(t.columns)
  {
    var ms, ls, rs := ModelTables(dm.models, dm.relations).value, ListTables(dm.models).value, RelationTables(dm.relations).value;
    ModelTablesAre(dm, dm.models);
    ListTablesAre(dm.models);
    RelationTablesAre(dm.relations);
    hide ModelTables, ListTables, RelationTables, ModelsCalculable, AllListsCalculable, JoinsCalculable;
    hide TableOfModel, TablesOfLists, TablesOfRelations, SortedColumns, Reordered, ByName;
    models, lists, relations := SortedColumns(ms), SortedColumns(ls), SortedColumns(rs);
    SortConcat(ms, ls);
    SortConcat(ms + ls, rs);
    SortedAre(ms);
    SortedAre(ls);
    SortedAre(rs);
    SortedAre(ms + ls + rs);
    forall i | 0 <= i < |models| ensures TableOfModel(dm, dm.models[i], models[i]) {
      ModelReordered(dm, dm.models[i], ms[i], models[i]);
    }
    ListsReordered(dm.models, ls, lists);
    JoinsReordered(dm.relations, rs, relations);
  }
}
