/**
  The SQL schema differ: the steps that lead from one described schema to another.

  The functions say what each list of the diff contains; the methods build the
  lists with the loops of the source.
 */
module SqlDiffer {
  import opened Wrappers
  import opened Names
  import opened SqlSchemas
  import opened SqlDatabases

  const MIGRATION_TABLE: Name := "_Migration"

  datatype SqlSchemaDiff = SqlSchemaDiff(
    dropTables: seq<Step>,
    createTables: seq<Table>,
    alterTables: seq<Step>,
    createIndexes: seq<Step>,
    dropIndexes: seq<Step>,
    alterIndexes: seq<Step>)

  // ----- what is compared -----

  /** Constraint names are not compared. */
  predicate ForeignKeysMatch(f: ForeignKey, g: ForeignKey) {
    && f.referencedTable == g.referencedTable
    && f.referencedColumns == g.referencedColumns
    && f.columns == g.columns
    && f.onDelete == g.onDelete
  }

  predicate ForeignKeyChanged(f: Option<ForeignKey>, g: Option<ForeignKey>) {
    match (f, g)
    case (None, None) => false
    case (Some(f), Some(g)) => !ForeignKeysMatch(f, g)
    case _ => true
  }

  predicate Unmatched(f: ForeignKey, gs: seq<ForeignKey>) {
    forall g :: g in gs ==> !ForeignKeysMatch(f, g)
  }

  /** Arities are compared unless both columns are foreign keys. */
  predicate Differs(f: Option<ForeignKey>, c: Column, g: Option<ForeignKey>, c': Column) {
    || c.family != c'.family
    || (c.arity != c'.arity && !(f.Some? && g.Some?))
    || ForeignKeyChanged(f, g)
  }

  /** The first index that an index could be renamed to. */
  function RenamedTo(x: Index, ys: seq<Index>): (r: Option<Index>)
    ensures r.Some? ==> r.value in ys && Equivalent(x, r.value) && x.name != r.value.name
    ensures r.None? ==> forall y :: y in ys && Equivalent(x, y) ==> x.name == y.name
  {
    if ys == [] then None
    else if Equivalent(x, ys[0]) && x.name != ys[0].name then Some(ys[0])
    else RenamedTo(x, ys[1..])
  }

  predicate CoversKey(key: Option<seq<Name>>, columns: seq<Name>) {
    key == Some(columns)
  }

  // ----- changes to one table -----

  function ForeignKeysToDrop(fs: seq<ForeignKey>, gs: seq<ForeignKey>): seq<TableChange> {
    if fs == [] then []
    else if Unmatched(fs[0], gs) && fs[0].constraintName.Some?
    then [DropForeignKey(fs[0].constraintName.value)] + ForeignKeysToDrop(fs[1..], gs)
    else ForeignKeysToDrop(fs[1..], gs)
  }

  function ColumnsToDrop(ps: seq<Column>, qs: seq<Column>): seq<TableChange> {
    if ps == [] then []
    else if FindColumn(qs, ps[0].name).None? then [DropColumn(ps[0].name)] + ColumnsToDrop(ps[1..], qs)
    else ColumnsToDrop(ps[1..], qs)
  }

  function ColumnsToAdd(ps: seq<Column>, qs: seq<Column>): seq<TableChange> {
    if qs == [] then []
    else if FindColumn(ps, qs[0].name).None? then [AddColumn(qs[0])] + ColumnsToAdd(ps, qs[1..])
    else ColumnsToAdd(ps, qs[1..])
  }

  predicate ToAlter(p: Table, q: Table, c: Column) {
    var was := FindColumn(p.columns, c.name);
    was.Some? && Differs(FkOf(p, c.name), was.value, FkOf(q, c.name), c)
  }

  function ColumnsToAlter(p: Table, q: Table, cs: seq<Column>): seq<TableChange> {
    if cs == [] then []
    else if ToAlter(p, q, cs[0]) then [AlterColumn(cs[0].name, cs[0])] + ColumnsToAlter(p, q, cs[1..])
    else ColumnsToAlter(p, q, cs[1..])
  }

  function ColumnChanges(p: Table, q: Table): seq<TableChange> {
    ColumnsToDrop(p.columns, q.columns) + ColumnsToAdd(p.columns, q.columns) + ColumnsToAlter(p, q, q.columns)
  }

  function Changes(p: Table, q: Table): seq<TableChange> {
    ForeignKeysToDrop(p.foreignKeys, q.foreignKeys) + ColumnChanges(p, q)
  }

  // ----- the lists of a diff -----

  function TablesToCreate(prev: Schema, ts: seq<Table>): seq<Table> {
    if ts == [] then []
    else if !HasTable(prev, ts[0].name) && ts[0].name != MIGRATION_TABLE then [ts[0]] + TablesToCreate(prev, ts[1..])
    else TablesToCreate(prev, ts[1..])
  }

  function TablesToDrop(ts: seq<Table>, next: Schema): seq<Step> {
    if ts == [] then []
    else if !HasTable(next, ts[0].name) && ts[0].name != MIGRATION_TABLE
    then [DropTable(ts[0].name)] + TablesToDrop(ts[1..], next)
    else TablesToDrop(ts[1..], next)
  }

  function TableAlteration(p: Table, q: Option<Table>): seq<Step> {
    if q.Some? && Changes(p, q.value) != [] then [AlterTable(q.value, Changes(p, q.value))] else []
  }

  function TablesToAlter(ts: seq<Table>, next: Schema): seq<Step> {
    if ts == [] then [] else TableAlteration(ts[0], FindTable(next.tables, ts[0].name)) + TablesToAlter(ts[1..], next)
  }

  function IndicesOf(t: Option<Table>): seq<Index> {
    if t.Some? then t.value.indices else []
  }

  function IndexRenames(table: Name, xs: seq<Index>, ys: seq<Index>): seq<Step> {
    if xs == [] then []
    else if RenamedTo(xs[0], ys).Some?
    then [AlterIndex(table, xs[0].name, RenamedTo(xs[0], ys).value.name)] + IndexRenames(table, xs[1..], ys)
    else IndexRenames(table, xs[1..], ys)
  }

  function IndexesToAlter(ts: seq<Table>, next: Schema): seq<Step> {
    if ts == [] then []
    else
      IndexRenames(ts[0].name, ts[0].indices, IndicesOf(FindTable(next.tables, ts[0].name))) + IndexesToAlter(ts[1..], next)
  }

  /** Whether some rename, of whatever table, gives an index this name. */
  predicate GetsName(alters: seq<Step>, n: Name) {
    exists a :: a in alters && a.AlterIndex? && a.indexNewName == n
  }

  predicate LosesName(alters: seq<Step>, n: Name) {
    exists a :: a in alters && a.AlterIndex? && a.indexName == n
  }

  function IndexCreations(table: Name, xs: seq<Index>, ys: seq<Index>, alters: seq<Step>): seq<Step> {
    if ys == [] then []
    else if FindIndex(xs, ys[0].name).None? && !GetsName(alters, ys[0].name)
    then [CreateIndex(table, ys[0])] + IndexCreations(table, xs, ys[1..], alters)
    else IndexCreations(table, xs, ys[1..], alters)
  }

  function IndexesToCreate(prev: Schema, ts: seq<Table>, alters: seq<Step>): seq<Step> {
    if ts == [] then []
    else
      IndexCreations(ts[0].name, IndicesOf(FindTable(prev.tables, ts[0].name)), ts[0].indices, alters)
      + IndexesToCreate(prev, ts[1..], alters)
  }

  function IndexRemovals(t: Table, xs: seq<Index>, ys: seq<Index>, alters: seq<Step>): seq<Step> {
    if xs == [] then []
    else if FindIndex(ys, xs[0].name).None? && !LosesName(alters, xs[0].name) && !CoversKey(t.primaryKey, xs[0].columns)
    then [DropIndex(t.name, xs[0].name)] + IndexRemovals(t, xs[1..], ys, alters)
    else IndexRemovals(t, xs[1..], ys, alters)
  }

  function IndexesToDrop(ts: seq<Table>, next: Schema, alters: seq<Step>): seq<Step> {
    if ts == [] then []
    else
      IndexRemovals(ts[0], ts[0].indices, IndicesOf(FindTable(next.tables, ts[0].name)), alters)
      + IndexesToDrop(ts[1..], next, alters)
  }

  function Diff(prev: Schema, next: Schema): SqlSchemaDiff {
    var alters := IndexesToAlter(prev.tables, next);
    SqlSchemaDiff(
      TablesToDrop(prev.tables, next),
      TablesToCreate(prev, next.tables),
      TablesToAlter(prev.tables, next),
      IndexesToCreate(prev, next.tables, alters),
      IndexesToDrop(prev.tables, next, alters),
      alters)
  }

  function Creations(ts: seq<Table>): seq<Step> {
    if ts == [] then [] else [CreateTable(ts[0])] + Creations(ts[1..])
  }

  function IntoSteps(diff: SqlSchemaDiff): seq<Step> {
    diff.dropIndexes + diff.dropTables + Creations(diff.createTables)
    + diff.alterTables + diff.createIndexes + diff.alterIndexes
  }

  // ----- the loops of the differ -----

  method CreateTables(prev: Schema, next: Schema) returns (r: seq<Table>)
    ensures r == TablesToCreate(prev, next.tables)
  {
    r := [];
    for i := 0 to |next.tables|
      invariant r + TablesToCreate(prev, next.tables[i..]) == TablesToCreate(prev, next.tables)
    {
      var t := next.tables[i];
      assert next.tables[i..][1..] == next.tables[i + 1..];
      if !HasTable(prev, t.name) && t.name != MIGRATION_TABLE {
        r := r + [t];
      }
    }
  }

  method DropTables(prev: Schema, next: Schema) returns (r: seq<Step>)
    ensures r == TablesToDrop(prev.tables, next)
  {
    r := [];
    for i := 0 to |prev.tables|
      invariant r + TablesToDrop(prev.tables[i..], next) == TablesToDrop(prev.tables, next)
    {
      var t := prev.tables[i];
      assert prev.tables[i..][1..] == prev.tables[i + 1..];
      if !HasTable(next, t.name) && t.name != MIGRATION_TABLE {
        r := r + [DropTable(t.name)];
      }
    }
  }

  method DropColumns(p: Table, q: Table) returns (r: seq<TableChange>)
    ensures r == ColumnsToDrop(p.columns, q.columns)
  {
    r := [];
    for i := 0 to |p.columns|
      invariant r + ColumnsToDrop(p.columns[i..], q.columns) == ColumnsToDrop(p.columns, q.columns)
    {
      var c := p.columns[i];
      assert p.columns[i..][1..] == p.columns[i + 1..];
      if FindColumn(q.columns, c.name).None? {
        r := r + [DropColumn(c.name)];
      }
    }
  }

  method AddColumns(p: Table, q: Table) returns (r: seq<TableChange>)
    ensures r == ColumnsToAdd(p.columns, q.columns)
  {
    r := [];
    for i := 0 to |q.columns|
      invariant r + ColumnsToAdd(p.columns, q.columns[i..]) == ColumnsToAdd(p.columns, q.columns)
    {
      var c := q.columns[i];
      assert q.columns[i..][1..] == q.columns[i + 1..];
      if FindColumn(p.columns, c.name).None? {
        r := r + [AddColumn(c)];
      }
    }
  }

  method AlterColumns(p: Table, q: Table) returns (r: seq<TableChange>)
    ensures r == ColumnsToAlter(p, q, q.columns)
  {
    r := [];
    for i := 0 to |q.columns|
      invariant r + ColumnsToAlter(p, q, q.columns[i..]) == ColumnsToAlter(p, q, q.columns)
    {
      var c := q.columns[i];
      assert q.columns[i..][1..] == q.columns[i + 1..];
      var was := FindColumn(p.columns, c.name);
      if was.Some? {
        var f, g := FkOf(p, was.value.name), FkOf(q, c.name);
        var isFkCase := f.Some? && g.Some?;
        var differsInSomething :=
          || was.value.name != c.name || was.value.family != c.family
          || (was.value.arity != c.arity && !isFkCase);
        if differsInSomething || ForeignKeyChanged(f, g) {
          r := r + [AlterColumn(was.value.name, c)];
        }
      }
    }
  }

  method CollectChanges(p: Table, q: Table) returns (changes: seq<TableChange>)
    ensures changes == Changes(p, q)
  {
    changes := ForeignKeysToDrop(p.foreignKeys, q.foreignKeys);
    var drops := DropColumns(p, q);
    var adds := AddColumns(p, q);
    var alters := AlterColumns(p, q);
    changes := changes + drops + adds + alters;
  }

  method AlterTableIfChanged(p: Table, next: Schema) returns (r: seq<Step>)
    ensures r == TableAlteration(p, FindTable(next.tables, p.name))
  {
    hide Changes;
    var q := FindTable(next.tables, p.name);
    r := [];
    if q.Some? {
      var changes := CollectChanges(p, q.value);
      if changes != [] {
        r := [AlterTable(q.value, changes)];
      }
    }
  }

  method AlterTables(prev: Schema, next: Schema) returns (r: seq<Step>)
    ensures r == TablesToAlter(prev.tables, next)
  {
    hide TableAlteration;
    r := [];
    for i := 0 to |prev.tables|
      invariant r + TablesToAlter(prev.tables[i..], next) == TablesToAlter(prev.tables, next)
    {
      assert prev.tables[i..][1..] == prev.tables[i + 1..];
      var update := AlterTableIfChanged(prev.tables[i], next);
      r := r + update;
    }
  }

  method CreateTableIndexes(table: Name, xs: seq<Index>, ys: seq<Index>, alters: seq<Step>) returns (r: seq<Step>)
    ensures r == IndexCreations(table, xs, ys, alters)
  {
    hide GetsName, FindIndex;
    r := [];
    for j := 0 to |ys|
      invariant r + IndexCreations(table, xs, ys[j..], alters) == IndexCreations(table, xs, ys, alters)
    {
      assert ys[j..][0] == ys[j] && ys[j..][1..] == ys[j + 1..];
      ghost var rest := IndexCreations(table, xs, ys[j + 1..], alters);
      assert (r + [CreateIndex(table, ys[j])]) + rest == r + ([CreateIndex(table, ys[j])] + rest);
      if FindIndex(xs, ys[j].name).None? && !GetsName(alters, ys[j].name) {
        r := r + [CreateIndex(table, ys[j])];
      }
    }
  }

  method CreateIndexes(prev: Schema, next: Schema, alters: seq<Step>) returns (r: seq<Step>)
    ensures r == IndexesToCreate(prev, next.tables, alters)
  {
    hide IndexCreations;
    r := [];
    for i := 0 to |next.tables|
      invariant r + IndexesToCreate(prev, next.tables[i..], alters) == IndexesToCreate(prev, next.tables, alters)
    {
      var q := next.tables[i];
      assert next.tables[i..][0] == q && next.tables[i..][1..] == next.tables[i + 1..];
      var xs := IndicesOf(FindTable(prev.tables, q.name));
      var creations := CreateTableIndexes(q.name, xs, q.indices, alters);
      ghost var rest := IndexesToCreate(prev, next.tables[i + 1..], alters);
      assert (r + creations) + rest == r + (creations + rest);
      r := r + creations;
    }
  }

  lemma {:induction false} FirstRemoval(t: Table, xs: seq<Index>, ys: seq<Index>, alters: seq<Step>)
    requires xs != []
    ensures IndexRemovals(t, xs, ys, alters) ==
            (if FindIndex(ys, xs[0].name).None? && !LosesName(alters, xs[0].name) && !CoversKey(t.primaryKey, xs[0].columns)
             then [DropIndex(t.name, xs[0].name)] else [])
            + IndexRemovals(t, xs[1..], ys, alters)
  {
    hide LosesName, FindIndex;
  }

  lemma {:induction false} NoRemovals(t: Table, ys: seq<Index>, alters: seq<Step>)
    ensures IndexRemovals(t, [], ys, alters) == []
  {
  }

  method DropTableIndexes(p: Table, ys: seq<Index>, alters: seq<Step>) returns (r: seq<Step>)
    ensures r == IndexRemovals(p, p.indices, ys, alters)
  {
    hide LosesName, FindIndex, IndexRemovals;
    r := [];
    NoRemovals(p, ys, alters);
    assert p.indices[0..] == p.indices;
    for j := 0 to |p.indices|
      invariant r + IndexRemovals(p, p.indices[j..], ys, alters) == IndexRemovals(p, p.indices, ys, alters)
    {
      var x := p.indices[j];
      assert p.indices[j..][0] == x && p.indices[j..][1..] == p.indices[j + 1..];
      var removed := [];
      if FindIndex(ys, x.name).None? && !LosesName(alters, x.name) {
        var coversKey := match p.primaryKey { case None => false case Some(key) => key == x.columns };
        if !coversKey {
          removed := [DropIndex(p.name, x.name)];
        }
      }
      ghost var rest := IndexRemovals(p, p.indices[j + 1..], ys, alters);
      FirstRemoval(p, p.indices[j..], ys, alters);
      assert (r + removed) + rest == r + (removed + rest);
      r := r + removed;
    }
  }

  method DropIndexes(prev: Schema, next: Schema, alters: seq<Step>) returns (r: seq<Step>)
    ensures r == IndexesToDrop(prev.tables, next, alters)
  {
    hide IndexRemovals;
    r := [];
    for i := 0 to |prev.tables|
      invariant r + IndexesToDrop(prev.tables[i..], next, alters) == IndexesToDrop(prev.tables, next, alters)
    {
      var p := prev.tables[i];
      assert prev.tables[i..][0] == p && prev.tables[i..][1..] == prev.tables[i + 1..];
      var removals := DropTableIndexes(p, IndicesOf(FindTable(next.tables, p.name)), alters);
      ghost var rest := IndexesToDrop(prev.tables[i + 1..], next, alters);
      assert (r + removals) + rest == r + (removals + rest);
      r := r + removals;
    }
  }

  method DiffSchemas(prev: Schema, next: Schema) returns (diff: SqlSchemaDiff)
    ensures diff == Diff(prev, next)
  {
    var alters := IndexesToAlter(prev.tables, next);
    var dropTables := DropTables(prev, next);
    var createTables := CreateTables(prev, next);
    var alterTables := AlterTables(prev, next);
    var createIndexes := CreateIndexes(prev, next, alters);
    var dropIndexes := DropIndexes(prev, next, alters);
    diff := SqlSchemaDiff(dropTables, createTables, alterTables, createIndexes, dropIndexes, alters);
  }
}
