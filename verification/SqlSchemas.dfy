/**
  Descriptions of SQL schemas, as the differ, the inferrer and the calculator
  pass them around, with the lookups the source makes in them.
 */
module SqlSchemas {
  import opened Wrappers
  import opened Names

  datatype ColumnTypeFamily =
    | Int | Float | Boolean | String | DateTime | Binary | Json | Uuid
    | Geometric | LogSequenceNumber | TextSearch | TransactionId | Unknown

  datatype ColumnArity = Required | Nullable | List

  datatype ForeignKeyAction = NoAction | Restrict | Cascade | SetNull | SetDefault

  datatype IndexType = Unique | Normal

  datatype Column = Column(name: Name, family: ColumnTypeFamily, arity: ColumnArity, default: Option<string>)

  datatype Index = Index(name: Name, columns: seq<Name>, tpe: IndexType)

  datatype ForeignKey = ForeignKey(
    constraintName: Option<Name>,
    columns: seq<Name>,
    referencedTable: Name,
    referencedColumns: seq<Name>,
    onDelete: ForeignKeyAction)

  datatype Table = Table(
    name: Name,
    columns: seq<Column>,
    indices: seq<Index>,
    primaryKey: Option<seq<Name>>,
    foreignKeys: seq<ForeignKey>)

  datatype Schema = Schema(tables: seq<Table>)

  const EMPTY_SCHEMA := Schema([])

  // ----- lookups: the first entry with the wanted name -----

  function FindTable(ts: seq<Table>, n: Name): (r: Option<Table>)
    ensures r.Some? ==> r.value in ts && r.value.name == n
    ensures r.None? ==> forall t :: t in ts ==> t.name != n
  {
    if ts == [] then None else if ts[0].name == n then Some(ts[0]) else FindTable(ts[1..], n)
  }

  function FindColumn(cs: seq<Column>, n: Name): (r: Option<Column>)
    ensures r.Some? ==> r.value in cs && r.value.name == n
    ensures r.None? ==> forall c :: c in cs ==> c.name != n
  {
    if cs == [] then None else if cs[0].name == n then Some(cs[0]) else FindColumn(cs[1..], n)
  }

  function FindIndex(xs: seq<Index>, n: Name): (r: Option<Index>)
    ensures r.Some? ==> r.value in xs && r.value.name == n
    ensures r.None? ==> forall x :: x in xs ==> x.name != n
  {
    if xs == [] then None else if xs[0].name == n then Some(xs[0]) else FindIndex(xs[1..], n)
  }

  function ForeignKeyFor(fks: seq<ForeignKey>, n: Name): (r: Option<ForeignKey>)
    ensures r.Some? ==> r.value in fks && n in r.value.columns
    ensures r.None? ==> forall fk :: fk in fks ==> n !in fk.columns
  {
    if fks == [] then None else if n in fks[0].columns then Some(fks[0]) else ForeignKeyFor(fks[1..], n)
  }

  predicate HasTable(s: Schema, n: Name) {
    FindTable(s.tables, n).Some?
  }

  function FkOf(t: Table, n: Name): Option<ForeignKey> {
    ForeignKeyFor(t.foreignKeys, n)
  }

  predicate InPrimaryKey(t: Table, n: Name) {
    t.primaryKey.Some? && n in t.primaryKey.value
  }

  predicate KeyColumnsPresent(t: Table) {
    t.primaryKey.Some? ==> forall n :: n in t.primaryKey.value ==> FindColumn(t.columns, n).Some?
  }

  // ----- well-formed schemas -----

  ghost predicate TablesDistinct(ts: seq<Table>) {
    ts != [] ==> FindTable(ts[1..], ts[0].name).None? && TablesDistinct(ts[1..])
  }

  predicate ColumnsDistinct(cs: seq<Column>) {
    cs != [] ==> FindColumn(cs[1..], cs[0].name).None? && ColumnsDistinct(cs[1..])
  }

  ghost predicate IndicesDistinct(xs: seq<Index>) {
    xs != [] ==> FindIndex(xs[1..], xs[0].name).None? && IndicesDistinct(xs[1..])
  }

  /** Foreign keys of one column each, at most one for a column. */
  ghost predicate ForeignKeysDistinct(fks: seq<ForeignKey>) {
    fks != [] ==>
      && |fks[0].columns| == 1
      && ForeignKeyFor(fks[1..], fks[0].columns[0]).None?
      && ForeignKeysDistinct(fks[1..])
  }

  /** Whether two indexes differ in nothing but their names. */
  predicate Equivalent(x: Index, y: Index) {
    x.columns == y.columns && x.tpe == y.tpe
  }

  /** No two indexes of a table are equivalent. */
  ghost predicate NoEquivalentIndices(xs: seq<Index>) {
    forall x, y :: x in xs && y in xs && Equivalent(x, y) ==> x == y
  }

  ghost predicate ConstraintsDistinct(fks: seq<ForeignKey>) {
    forall f, g :: f in fks && g in fks && f.constraintName.Some? && f.constraintName == g.constraintName ==> f == g
  }

  ghost predicate WellFormedTable(t: Table) {
    && KeyColumnsPresent(t)
    && ColumnsDistinct(t.columns)
    && IndicesDistinct(t.indices)
    && ForeignKeysDistinct(t.foreignKeys)
    && ConstraintsDistinct(t.foreignKeys)
    && (forall fk, n :: fk in t.foreignKeys && n in fk.columns ==> FindColumn(t.columns, n).Some?)
    && (forall x, n :: x in t.indices && n in x.columns ==> FindColumn(t.columns, n).Some?)
  }

  ghost predicate WellFormed(s: Schema) {
    && TablesDistinct(s.tables)
    && (forall t :: t in s.tables ==> WellFormedTable(t))
  }

  // ----- lookups in lists without repetition -----

  lemma {:induction false} TableFound(ts: seq<Table>, t: Table)
    requires TablesDistinct(ts) && t in ts
    ensures FindTable(ts, t.name) == Some(t)
  {
    if ts[0] != t {
      assert t in ts[1..];
      TableFound(ts[1..], t);
    }
  }

  lemma {:induction false} ColumnFound(cs: seq<Column>, c: Column)
    requires ColumnsDistinct(cs) && c in cs
    ensures FindColumn(cs, c.name) == Some(c)
  {
    if cs[0] != c {
      assert c in cs[1..];
      ColumnFound(cs[1..], c);
    }
  }

  lemma {:induction false} IndexFound(xs: seq<Index>, x: Index)
    requires IndicesDistinct(xs) && x in xs
    ensures FindIndex(xs, x.name) == Some(x)
  {
    if xs[0] != x {
      assert x in xs[1..];
      IndexFound(xs[1..], x);
    }
  }

  lemma {:induction false} ForeignKeyFound(fks: seq<ForeignKey>, fk: ForeignKey)
    requires ForeignKeysDistinct(fks) && fk in fks
    ensures |fk.columns| == 1 && ForeignKeyFor(fks, fk.columns[0]) == Some(fk)
  {
    if fks[0] != fk {
      assert fk in fks[1..];
      ForeignKeyFound(fks[1..], fk);
    }
  }
}
