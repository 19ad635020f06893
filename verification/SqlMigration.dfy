/**
  Whole migrations on Postgres and MySQL: running the steps of a diff on a
  database that the previous schema describes.
 */
module SqlMigration {
  import opened Wrappers
  import opened Names
  import opened SqlSchemas
  import opened SqlDatabases
  import opened SqlChanges
  import opened SqlDiffer
  import opened SqlTableSteps
  import opened SqlIndexes
  import opened SqlAlterations
  import opened SqlTableMigration

  ghost predicate Describes(s: Schema, db: Db) {
    forall n :: Described(Of(s, n), SlotOf(db, n))
  }

  ghost predicate DbAgrees(next: Schema, db: Db) {
    forall n :: Agrees(Of(next, n), n, SlotOf(db, n))
  }

  ghost predicate AllSafe(family: SqlFamily, prev: Schema, next: Schema) {
    forall n :: Safe(family, Of(prev, n), Of(next, n), AllRenames(prev, next))
  }

  // ----- dropped and created tables -----

  lemma {:induction false} NothingToRename(n: Name, xs: seq<Index>)
    ensures IndexRenames(n, xs, []) == []
  {
    if xs != [] {
      NothingToRename(n, xs[1..]);
    }
  }

  lemma {:induction false} DroppedTableReaches(family: SqlFamily, p: Table, alters: seq<Step>, d: DbTable)
    requires WellFormedTable(p) && TableDescribed(p, d)
    ensures Concerns(p.name, TableSteps(Some(p), None, alters))
    ensures Reaches(family, Present(d), TableSteps(Some(p), None, alters), None, p.name) <==> Safe(family, Some(p), None, alters)
  {
    NothingToRename(p.name, p.indices);
    IndicesPresent(p, d);
    var d1 := RunRemovals(family, d, p, p.indices, [], alters);
    var removals := IndexRemovals(p, p.indices, [], alters);
    if p.name == MIGRATION_TABLE {
      assert TableSteps(Some(p), None, alters) == removals;
      ClearedIff(p, alters, d, d1);
    } else {
      assert TableSteps(Some(p), None, alters) == removals + [DropTable(p.name)];
      RunOnTableConcat(family, Present(d), removals, [DropTable(p.name)]);
      RunFirst(family, Present(d1), DropTable(p.name), []);
      assert [DropTable(p.name)] + [] == [DropTable(p.name)];
    }
  }

  lemma {:induction false} ClearedIff(p: Table, alters: seq<Step>, d: DbTable, d1: DbTable)
    requires WellFormedTable(p) && TableDescribed(p, d) && RemovedFrom(d, p, p.indices, [], alters, d1)
    ensures (forall x :: IndexAt(d1, x).Some? ==> CoversKey(d1.primaryKey, IndexAt(d1, x).value.columns)) <==> ClearedOf(p, alters)
  {
    hide WellFormedTable, ColumnsDescribed;
    if ClearedOf(p, alters) {
      forall n | IndexAt(d1, n).Some? ensures CoversKey(d1.primaryKey, IndexAt(d1, n).value.columns) {
        assert IndexAt(d, n) == IndexDescribed(p, n);
      }
    }
    if forall x :: IndexAt(d1, x).Some? ==> CoversKey(d1.primaryKey, IndexAt(d1, x).value.columns) {
      forall x | x in p.indices && !CoversKey(p.primaryKey, x.columns) ensures !LosesName(alters, x.name) {
        DistinctIndexFound(p, x);
        assert IndexAt(d, x.name) == IndexDescribed(p, x.name);
        assert IndexAt(d1, x.name) == if Removed(p, x, [], alters) then None else IndexAt(d, x.name);
      }
    }
  }

  lemma {:induction false} DistinctIndexFound(t: Table, x: Index)
    requires WellFormedTable(t) && x in t.indices
    ensures FindIndex(t.indices, x.name) == Some(x)
  {
    IndexFound(t.indices, x);
  }

  lemma {:induction false} FreshColumns(q: Table, d: DbTable)
    requires ColumnsDistinct(q.columns) && d.columns == RenderedColumns(q, q.columns)
    ensures ColumnsAgree(q, d) <==> NoListCreated(None, q)
  {
    forall n
      ensures ColumnAgrees(q, n, ColumnAt(d, n)) <==>
              var wanted := FindColumn(q.columns, n);
              wanted.Some? && wanted.value.arity.List? ==> FkOf(q, n).Some?
    {
    }
    hide ColumnAgrees;
    if NoListCreated(None, q) {
      forall n ensures ColumnAgrees(q, n, ColumnAt(d, n)) {
      }
    } else {
      var c :| c in q.columns && c.arity.List? && FkOf(q, c.name).None?;
      ColumnFound(q.columns, c);
      assert !ColumnAgrees(q, c.name, ColumnAt(d, c.name));
    }
  }

  lemma {:induction false} FreshIndexes(q: Table, alters: seq<Step>, d: DbTable, d': DbTable)
    requires WellFormedTable(q) && d.indices == map[] && CreatedIn(d, [], q.indices, alters, d')
    ensures IndicesAgree(q, d') <==> Provided(None, q, alters)
  {
    forall n
      ensures IndexAgrees(q, d'.primaryKey, n, IndexAt(d', n)) <==>
              (FindIndex(q.indices, n).Some? ==> !GetsName(alters, n))
    {
    }
    hide IndexAgrees, CreatedIn;
    if Provided(None, q, alters) {
      forall n ensures IndexAgrees(q, d'.primaryKey, n, IndexAt(d', n)) {
        if FindIndex(q.indices, n).Some? {
          assert IsNew(None, FindIndex(q.indices, n).value, alters);
        }
      }
    }
    if IndicesAgree(q, d') {
      forall y | y in q.indices ensures IsNew(None, y, alters) {
        DistinctIndexFound(q, y);
        assert IndexAgrees(q, d'.primaryKey, y.name, IndexAt(d', y.name));
      }
    }
  }

  lemma {:induction false} FreshTable(family: SqlFamily, q: Table, alters: seq<Step>) returns (d': DbTable)
    requires WellFormedTable(q) && q.name != MIGRATION_TABLE
    ensures Concerns(q.name, TableSteps(None, Some(q), alters))
    ensures RunOnTable(family, Absent, TableSteps(None, Some(q), alters)) == Some(Present(d'))
    ensures d'.columns == RenderedColumns(q, q.columns) && (IndicesAgree(q, d') <==> Provided(None, q, alters))
  {
    hide IndicesAgree, Provided, RunOnTable, IndexCreations, TableSteps;
    var d := DbTable(RenderedColumns(q, q.columns), map[], q.primaryKey, []);
    ColumnsOfIndexes(q);
    d' := RunCreations(family, d, q.name, [], q.indices, alters);
    FreshIndexes(q, alters, d, d');
    FreshSteps(family, q, alters);
  }

  lemma {:induction false} ColumnsOfIndexes(q: Table)
    requires WellFormedTable(q)
    ensures forall y, c :: y in q.indices && c in y.columns ==> c in RenderedColumns(q, q.columns)
  {
    forall y, c | y in q.indices && c in y.columns ensures c in RenderedColumns(q, q.columns) {
      assert FindColumn(q.columns, c).Some?;
    }
  }

  lemma {:induction false} StepsOfNew(q: Table, alters: seq<Step>)
    requires q.name != MIGRATION_TABLE
    ensures TableSteps(None, Some(q), alters) == [CreateTable(q)] + IndexCreations(q.name, [], q.indices, alters)
  {
    hide IndexCreations;
  }

  lemma {:induction false} FreshSteps(family: SqlFamily, q: Table, alters: seq<Step>)
    requires WellFormedTable(q) && q.name != MIGRATION_TABLE
    ensures Concerns(q.name, TableSteps(None, Some(q), alters))
    ensures var d := DbTable(RenderedColumns(q, q.columns), map[], q.primaryKey, []);
            RunOnTable(family, Absent, TableSteps(None, Some(q), alters)) ==
            RunOnTable(family, Present(d), IndexCreations(q.name, [], q.indices, alters))
  {
    var creations := IndexCreations(q.name, [], q.indices, alters);
    CreationsConcern(q.name, [], q.indices, alters);
    StepsOfNew(q, alters);
    hide RunOnTable, IndexCreations, TableSteps, RenderedColumns, WellFormedTable;
    RunFirst(family, Absent, CreateTable(q), creations);
  }

  lemma {:induction false} CreatedTableReaches(family: SqlFamily, q: Table, alters: seq<Step>)
    requires WellFormedTable(q)
    ensures Concerns(q.name, TableSteps(None, Some(q), alters))
    ensures Reaches(family, Absent, TableSteps(None, Some(q), alters), Some(q), q.name) <==> Safe(family, None, Some(q), alters)
  {
    if q.name == MIGRATION_TABLE {
      NeverCreated(family, q, alters);
    } else {
      hide RunOnTable, TableSteps, IndicesAgree, ColumnsAgree, NoListCreated, Provided;
      var d' := FreshTable(family, q, alters);
      FreshColumns(q, d');
    }
  }

  lemma {:induction false} NeverCreated(family: SqlFamily, q: Table, alters: seq<Step>)
    requires q.name == MIGRATION_TABLE
    ensures Concerns(q.name, TableSteps(None, Some(q), alters))
    ensures !Reaches(family, Absent, TableSteps(None, Some(q), alters), Some(q), q.name)
  {
    var creations := IndexCreations(q.name, [], q.indices, alters);
    CreationsConcern(q.name, [], q.indices, alters);
    assert TableSteps(None, Some(q), alters) == creations;
    StaysAbsent(family, q.name, q.indices, alters);
  }

  lemma {:induction false} StaysAbsent(family: SqlFamily, n: Name, ys: seq<Index>, alters: seq<Step>)
    ensures Concerns(n, IndexCreations(n, [], ys, alters))
    ensures var r := RunOnTable(family, Absent, IndexCreations(n, [], ys, alters)); r.Some? ==> r.value == Absent
  {
    CreationsConcern(n, [], ys, alters);
    if ys != [] {
      StaysAbsent(family, n, ys[1..], alters);
      if !GetsName(alters, ys[0].name) {
        RunFirst(family, Absent, CreateIndex(n, ys[0]), IndexCreations(n, [], ys[1..], alters));
      }
    }
  }

  // ----- any table -----

  lemma {:induction false} TableReaches(family: SqlFamily, p: Option<Table>, q: Option<Table>, alters: seq<Step>, s: Slot, n: Name)
    requires !family.Sqlite? && Described(p, s) && Includes(alters, p, q)
    requires p.Some? ==> p.value.name == n && WellFormedTable(p.value)
    requires q.Some? ==> q.value.name == n && WellFormedTable(q.value)
    ensures Concerns(n, TableSteps(p, q, alters))
    ensures Reaches(family, s, TableSteps(p, q, alters), q, n) <==> Safe(family, p, q, alters)
    ensures var r := RunOnTable(family, s, TableSteps(p, q, alters));
            p.Some? && q.Some? && r.Some? ==> r.value.Present? && RowsKept(p.value, q.value, s.table, r.value.table)
  {
    if p.Some? && q.Some? {
      KeptTableReaches(family, p.value, q.value, alters, s.table);
    } else if p.Some? {
      DroppedTableReaches(family, p.value, alters, s.table);
    } else if q.Some? {
      CreatedTableReaches(family, q.value, alters);
    }
  }

  lemma {:induction false} TableOfSchema(s: Schema, n: Name)
    requires WellFormed(s)
    ensures Of(s, n).Some? ==> Of(s, n).value.name == n && WellFormedTable(Of(s, n).value)
  {
  }

  // ----- whole schemas -----

  lemma {:induction false} DiffIsLocal(prev: Schema, next: Schema)
    ensures forall step :: step in IntoSteps(Diff(prev, next)) ==> Local(step)
  {
    DropTablesLocal(prev.tables, next);
    CreationsLocal(TablesToCreate(prev, next.tables));
    AlterTablesLocal(prev.tables, next);
    var alters := IndexesToAlter(prev.tables, next);
    AlterIndexesLocal(prev.tables, next);
    CreateIndexesLocal(prev, next.tables, alters);
    DropIndexesLocal(prev.tables, next, alters);
  }

  ghost predicate AllLocal(steps: seq<Step>) {
    forall step :: step in steps ==> Local(step)
  }

  lemma {:induction false} DropTablesLocal(ts: seq<Table>, next: Schema)
    ensures AllLocal(TablesToDrop(ts, next))
  {
    if ts != [] {
      DropTablesLocal(ts[1..], next);
    }
  }

  lemma {:induction false} CreationsLocal(ts: seq<Table>)
    ensures AllLocal(Creations(ts))
  {
    if ts != [] {
      CreationsLocal(ts[1..]);
    }
  }

  lemma {:induction false} AlterTablesLocal(ts: seq<Table>, next: Schema)
    ensures AllLocal(TablesToAlter(ts, next))
  {
    if ts != [] {
      hide Changes;
      AlterTablesLocal(ts[1..], next);
    }
  }

  lemma {:induction false} AlterIndexesLocal(ts: seq<Table>, next: Schema)
    ensures AllLocal(IndexesToAlter(ts, next))
  {
    if ts != [] {
      RenamesConcern(ts[0].name, ts[0].indices, IndicesOf(Of(next, ts[0].name)));
      AlterIndexesLocal(ts[1..], next);
    }
  }

  lemma {:induction false} CreateIndexesLocal(prev: Schema, ts: seq<Table>, alters: seq<Step>)
    ensures AllLocal(IndexesToCreate(prev, ts, alters))
  {
    if ts != [] {
      CreationsConcern(ts[0].name, IndicesOf(Of(prev, ts[0].name)), ts[0].indices, alters);
      CreateIndexesLocal(prev, ts[1..], alters);
    }
  }

  lemma {:induction false} DropIndexesLocal(ts: seq<Table>, next: Schema, alters: seq<Step>)
    ensures AllLocal(IndexesToDrop(ts, next, alters))
  {
    if ts != [] {
      RemovalsConcern(ts[0], ts[0].indices, IndicesOf(Of(next, ts[0].name)), alters);
      DropIndexesLocal(ts[1..], next, alters);
    }
  }

  lemma {:induction false} TableOfMigration(family: SqlFamily, prev: Schema, next: Schema, db: Db, n: Name)
    requires !family.Sqlite? && WellFormed(prev) && WellFormed(next) && Describes(prev, db)
    ensures var p, q, alters := Of(prev, n), Of(next, n), AllRenames(prev, next);
            && Concerns(n, TableSteps(p, q, alters))
            && (Reaches(family, SlotOf(db, n), TableSteps(p, q, alters), q, n) <==> Safe(family, p, q, alters))
            && var r := RunOnTable(family, SlotOf(db, n), TableSteps(p, q, alters));
               (p.Some? && q.Some? && r.Some? ==>
                  r.value.Present? && RowsKept(p.value, q.value, SlotOf(db, n).table, r.value.table))
  {
    TableOfSchema(prev, n);
    TableOfSchema(next, n);
    RenamesIncluded(prev, next, n);
    assert Described(Of(prev, n), SlotOf(db, n));
    TableReaches(family, Of(prev, n), Of(next, n), AllRenames(prev, next), SlotOf(db, n), n);
  }

  /**
    Running the diff of two schemas on a database described by the first ends in
    agreement with the second if and only if for every table MySQL lets go of the
    columns that are dropped, no list column is created, every wanted index is what one
    without a rebuilt column becomes or is new under a name that no index is renamed to,
    no two indexes are renamed alike, renamed indexes find their new names free, and
    indexes that must go are not mistaken for renamed ones.
   */
  lemma {:induction false} DiffReachesNextIff(family: SqlFamily, prev: Schema, next: Schema, db: Db)
    requires !family.Sqlite? && WellFormed(prev) && WellFormed(next) && Describes(prev, db)
    ensures var r := Run(family, db, IntoSteps(Diff(prev, next)));
            r.Some? && DbAgrees(next, r.value) <==> AllSafe(family, prev, next)
  {
    var steps := IntoSteps(Diff(prev, next));
    DiffIsLocal(prev, next);
    RunTableByTable(family, db, steps);
    hide Diff, IntoSteps, Run, RunOnTable, Safe, Agrees, TableSteps, Concerns, WellFormed, Describes, AllRenames;
    forall n
      ensures For(n, steps) == TableSteps(Of(prev, n), Of(next, n), AllRenames(prev, next))
      ensures Reaches(family, SlotOf(db, n), For(n, steps), Of(next, n), n) <==> Safe(family, Of(prev, n), Of(next, n), AllRenames(prev, next))
    {
      MigrationFor(family, prev, next, db, n);
    }
    var r := Run(family, db, steps);
    if r.Some? {
      assert forall n :: RunOnTable(family, SlotOf(db, n), For(n, steps)) == Some(SlotOf(r.value, n));
      if DbAgrees(next, r.value) {
        forall n ensures Safe(family, Of(prev, n), Of(next, n), AllRenames(prev, next)) {
          assert Agrees(Of(next, n), n, SlotOf(r.value, n));
          assert Reaches(family, SlotOf(db, n), For(n, steps), Of(next, n), n);
        }
      }
      if AllSafe(family, prev, next) {
        forall n ensures Agrees(Of(next, n), n, SlotOf(r.value, n)) {
          assert Safe(family, Of(prev, n), Of(next, n), AllRenames(prev, next));
          assert Reaches(family, SlotOf(db, n), For(n, steps), Of(next, n), n);
        }
      }
    } else {
      var n :| RunOnTable(family, SlotOf(db, n), For(n, steps)).None?;
      assert !Safe(family, Of(prev, n), Of(next, n), AllRenames(prev, next));
    }
  }

  lemma {:induction false} MigrationFor(family: SqlFamily, prev: Schema, next: Schema, db: Db, n: Name)
    requires !family.Sqlite? && WellFormed(prev) && WellFormed(next) && Describes(prev, db)
    ensures For(n, IntoSteps(Diff(prev, next))) == TableSteps(Of(prev, n), Of(next, n), AllRenames(prev, next))
    ensures Reaches(family, SlotOf(db, n), For(n, IntoSteps(Diff(prev, next))), Of(next, n), n) <==>
            Safe(family, Of(prev, n), Of(next, n), AllRenames(prev, next))
  {
    DiffTableByTable(prev, next, n);
    TableOfMigration(family, prev, next, db, n);
  }

  /** The column has the same type and refers to the same columns in both tables, or to none and has the same arity. */
  ghost predicate SameColumn(p: Table, q: Table, n: Name) {
    var c, c' := FindColumn(p.columns, n), FindColumn(q.columns, n);
    && c.Some? && c'.Some? && c.value.family == c'.value.family
    && match (FkOf(p, n), FkOf(q, n)) {
         case (None, None) => c.value.arity == c'.value.arity
         case (Some(f), Some(g)) =>
           && f.columns == g.columns && f.referencedTable == g.referencedTable
           && f.referencedColumns == g.referencedColumns && f.onDelete == g.onDelete
         case _ => false
       }
  }

  /** No row goes, and none of its cells in a column that stays the same. */
  ghost predicate CellsKept(p: Table, q: Table, d: DbTable, d': DbTable) {
    && |d'.rows| == |d.rows|
    && forall i, n :: 0 <= i < |d.rows| && SameColumn(p, q, n) ==> CellAt(d'.rows[i], n) == CellAt(d.rows[i], n)
  }

  lemma {:induction false} RowsKeptCells(p: Table, q: Table, d: DbTable, d': DbTable)
    requires ColumnsDistinct(q.columns) && RowsKept(p, q, d, d')
    ensures CellsKept(p, q, d, d')
  {
    forall i, n | 0 <= i < |d.rows| && SameColumn(p, q, n) ensures CellAt(d'.rows[i], n) == CellAt(d.rows[i], n) {
      assert ColumnChange(p, q, n).None?;
    }
  }

  /** Every migration that succeeds keeps every row of a kept table, and every cell of a column that stays the same. */
  lemma {:induction false} DiffKeepsRows(family: SqlFamily, prev: Schema, next: Schema, db: Db, n: Name)
    requires !family.Sqlite? && WellFormed(prev) && WellFormed(next) && Describes(prev, db)
    requires HasTable(prev, n) && HasTable(next, n)
    ensures var r := Run(family, db, IntoSteps(Diff(prev, next)));
            r.Some? ==> n in db && n in r.value && CellsKept(Of(prev, n).value, Of(next, n).value, db[n], r.value[n])
  {
    var steps := IntoSteps(Diff(prev, next));
    DiffIsLocal(prev, next);
    RunTableByTable(family, db, steps);
    DiffTableByTable(prev, next, n);
    TableOfMigration(family, prev, next, db, n);
    TableOfSchema(next, n);
    hide Diff, IntoSteps, Run, RunOnTable, TableSteps, Concerns, WellFormed, AllRenames, RowsKept, CellsKept, TableDescribed, Safe;
    assert Described(Of(prev, n), SlotOf(db, n));
    var r := Run(family, db, steps);
    if r.Some? {
      assert RunOnTable(family, SlotOf(db, n), For(n, steps)) == Some(SlotOf(r.value, n));
      RowsKeptCells(Of(prev, n).value, Of(next, n).value, db[n], r.value[n]);
    }
  }

  // ----- nothing left to do -----

  /** A description that repeats nothing. */
  ghost predicate Faithful(s: Schema) {
    && TablesDistinct(s.tables)
    && forall t :: t in s.tables ==> FaithfulTable(t)
  }

  ghost predicate FaithfulTable(t: Table) {
    && ColumnsDistinct(t.columns)
    && IndicesDistinct(t.indices)
    && ForeignKeysDistinct(t.foreignKeys)
    && (forall fk, n :: fk in t.foreignKeys && n in fk.columns ==> FindColumn(t.columns, n).Some?)
  }

  lemma {:induction false} NoForeignKeysToDrop(fs: seq<ForeignKey>, gs: seq<ForeignKey>)
    requires forall f :: f in fs ==> !Unmatched(f, gs)
    ensures ForeignKeysToDrop(fs, gs) == []
  {
    if fs != [] {
      assert fs[0] in fs;
      assert forall f :: f in fs[1..] ==> f in fs;
      NoForeignKeysToDrop(fs[1..], gs);
    }
  }

  lemma {:induction false} AgreeingColumnsNeedNoChanges(t: Table, q: Table, d: DbTable)
    requires FaithfulTable(t) && WellFormedTable(q) && ColumnsDescribed(t, d) && ColumnsAgree(q, d)
    ensures Changes(t, q) == []
  {
    forall n ensures ColumnChange(t, q, n).None? {
      assert ColumnDescribed(t, n, ColumnAt(d, n));
      assert ColumnAgrees(q, n, ColumnAt(d, n));
    }
    ChangesColumnWise(t, q);
    if ColumnChanges(t, q) != [] {
      ChangeFound(t, q, ChangedColumn(ColumnChanges(t, q)[0]));
    }
    forall f | f in t.foreignKeys ensures !Unmatched(f, q.foreignKeys) {
      ForeignKeyFound(t.foreignKeys, f);
      var n := f.columns[0];
      assert FindColumn(t.columns, n).Some?;
      assert ColumnDescribed(t, n, ColumnAt(d, n));
      assert ColumnAgrees(q, n, ColumnAt(d, n));
    }
    NoForeignKeysToDrop(t.foreignKeys, q.foreignKeys);
  }

  /** What agreement says of an index of the description. */
  lemma {:induction false} AgreeingIndex(t: Table, q: Table, d: DbTable, x: Index)
    requires FaithfulTable(t) && WellFormedTable(q) && TableDescribed(t, d) && IndicesAgree(q, d) && x in t.indices
    ensures NoEquivalentIndices(q.indices) ==> RenamedTo(x, q.indices).None?
    ensures FindIndex(q.indices, x.name).Some? || CoversKey(t.primaryKey, x.columns)
  {
    IndexFound(t.indices, x);
    assert IndexAt(d, x.name) == IndexDescribed(t, x.name);
    assert IndexAgrees(q, d.primaryKey, x.name, IndexAt(d, x.name));
    assert x == Index(x.name, x.columns, x.tpe);
  }

  lemma {:induction false} NoRenamesNeeded(n: Name, xs: seq<Index>, ys: seq<Index>)
    requires forall x :: x in xs ==> RenamedTo(x, ys).None?
    ensures IndexRenames(n, xs, ys) == []
  {
    if xs != [] {
      assert xs[0] in xs;
      assert forall x :: x in xs[1..] ==> x in xs;
      NoRenamesNeeded(n, xs[1..], ys);
    }
  }

  lemma {:induction false} NoRemovalsNeeded(t: Table, xs: seq<Index>, ys: seq<Index>, alters: seq<Step>)
    requires forall x :: x in xs ==> FindIndex(ys, x.name).Some? || CoversKey(t.primaryKey, x.columns)
    ensures IndexRemovals(t, xs, ys, alters) == []
  {
    if xs != [] {
      assert xs[0] in xs;
      assert forall x :: x in xs[1..] ==> x in xs;
      NoRemovalsNeeded(t, xs[1..], ys, alters);
    }
  }

  lemma {:induction false} NoCreationsNeeded(n: Name, xs: seq<Index>, ys: seq<Index>, alters: seq<Step>)
    requires forall y :: y in ys ==> FindIndex(xs, y.name).Some?
    ensures IndexCreations(n, xs, ys, alters) == []
  {
    if ys != [] {
      assert ys[0] in ys;
      assert forall y :: y in ys[1..] ==> y in ys;
      NoCreationsNeeded(n, xs, ys[1..], alters);
    }
  }

  /** What a table of the description still needs. */
  ghost predicate TableSettled(t: Table, next: Schema) {
    && (HasTable(next, t.name) || t.name == MIGRATION_TABLE)
    && TableAlteration(t, Of(next, t.name)) == []
    && (forall x :: x in t.indices ==>
          && RenamedTo(x, IndicesOf(Of(next, t.name))).None?
          && (FindIndex(IndicesOf(Of(next, t.name)), x.name).Some? || CoversKey(t.primaryKey, x.columns)))
  }

  lemma {:induction false} AgreeingTableIsSettled(s: Schema, next: Schema, db: Db, t: Table)
    requires Faithful(s) && WellFormed(next) && NoTwins(next) && Describes(s, db) && DbAgrees(next, db) && t in s.tables
    ensures TableSettled(t, next)
  {
    TableFound(s.tables, t);
    var q := Of(next, t.name);
    assert Described(Of(s, t.name), SlotOf(db, t.name));
    assert Agrees(q, t.name, SlotOf(db, t.name));
    var d := SlotOf(db, t.name).table;
    hide IndicesAgree, ColumnsAgree, ColumnsDescribed, FaithfulTable, WellFormedTable;
    if q.Some? {
      AgreeingColumnsNeedNoChanges(t, q.value, d);
      forall x | x in t.indices
        ensures RenamedTo(x, q.value.indices).None?
        ensures FindIndex(q.value.indices, x.name).Some? || CoversKey(t.primaryKey, x.columns)
      {
        AgreeingIndex(t, q.value, d, x);
      }
    } else {
      forall x | x in t.indices ensures CoversKey(t.primaryKey, x.columns) {
        IndexFoundIn(t, x);
        assert IndexAt(d, x.name) == IndexDescribed(t, x.name);
      }
    }
  }

  lemma {:induction false} IndexFoundIn(t: Table, x: Index)
    requires FaithfulTable(t) && x in t.indices
    ensures FindIndex(t.indices, x.name) == Some(x)
  {
    IndexFound(t.indices, x);
  }

  lemma {:induction false} NothingLeftForTables(ts: seq<Table>, next: Schema)
    requires forall t :: t in ts ==> TableSettled(t, next)
    ensures TablesToDrop(ts, next) == [] && TablesToAlter(ts, next) == [] && IndexesToAlter(ts, next) == []
    ensures IndexesToDrop(ts, next, []) == []
  {
    if ts != [] {
      assert TableSettled(ts[0], next);
      assert forall t :: t in ts[1..] ==> t in ts;
      hide TableAlteration;
      NothingLeftForTables(ts[1..], next);
      var ys := IndicesOf(Of(next, ts[0].name));
      NoRenamesNeeded(ts[0].name, ts[0].indices, ys);
      NoRemovalsNeeded(ts[0], ts[0].indices, ys, []);
    }
  }

  lemma {:induction false} NothingLeftToCreate(s: Schema, qs: seq<Table>)
    requires forall q :: q in qs ==> HasTable(s, q.name)
    requires forall q, y :: q in qs && y in q.indices ==> FindIndex(IndicesOf(Of(s, q.name)), y.name).Some?
    ensures TablesToCreate(s, qs) == [] && IndexesToCreate(s, qs, []) == []
  {
    if qs != [] {
      assert qs[0] in qs;
      assert forall q :: q in qs[1..] ==> q in qs;
      NothingLeftToCreate(s, qs[1..]);
      NoCreationsNeeded(qs[0].name, IndicesOf(Of(s, qs[0].name)), qs[0].indices, []);
    }
  }

  lemma {:induction false} WantedTableIsThere(s: Schema, next: Schema, db: Db, q: Table)
    requires WellFormed(next) && Describes(s, db) && DbAgrees(next, db) && q in next.tables
    ensures HasTable(s, q.name)
    ensures forall y :: y in q.indices ==> FindIndex(IndicesOf(Of(s, q.name)), y.name).Some?
  {
    TableFound(next.tables, q);
    assert Described(Of(s, q.name), SlotOf(db, q.name));
    assert Agrees(Of(next, q.name), q.name, SlotOf(db, q.name));
    var d := SlotOf(db, q.name).table;
    forall y | y in q.indices ensures FindIndex(IndicesOf(Of(s, q.name)), y.name).Some? {
      IndexFound(q.indices, y);
      assert IndexAgrees(q, d.primaryKey, y.name, IndexAt(d, y.name));
      assert IndexAt(d, y.name) == IndexDescribed(Of(s, q.name).value, y.name);
    }
  }

  /** No table has two indexes that differ in nothing but their names. */
  ghost predicate NoTwins(s: Schema) {
    forall t :: t in s.tables ==> NoEquivalentIndices(t.indices)
  }

  lemma {:induction false} AgreementNeedsNone(s: Schema, next: Schema, db: Db)
    requires Faithful(s) && WellFormed(next) && NoTwins(next) && Describes(s, db) && DbAgrees(next, db)
    ensures IntoSteps(Diff(s, next)) == []
  {
    forall t | t in s.tables ensures TableSettled(t, next) {
      AgreeingTableIsSettled(s, next, db, t);
    }
    forall q | q in next.tables
      ensures HasTable(s, q.name)
      ensures forall y :: y in q.indices ==> FindIndex(IndicesOf(Of(s, q.name)), y.name).Some?
    {
      WantedTableIsThere(s, next, db, q);
    }
    NothingLeftForTables(s.tables, next);
    NothingLeftToCreate(s, next.tables);
    hide TableSettled, Faithful, WellFormed, Describes, DbAgrees;
  }

  /** One of two such indexes is to be renamed to the other, although both are there. */
  lemma {:induction false} TwinsAreRenamed(s: Schema, next: Schema, db: Db)
    requires TablesDistinct(s.tables) && WellFormed(next) && !NoTwins(next) && Describes(s, db) && DbAgrees(next, db)
    ensures AllRenames(s, next) != []
  {
    var q :| q in next.tables && !NoEquivalentIndices(q.indices);
    var y, y' :| y in q.indices && y' in q.indices && Equivalent(y, y') && y != y';
    WantedTableIsThere(s, next, db, q);
    TableFound(next.tables, q);
    TwinIsDescribed(s, next, db, q, y);
    var t := Of(s, q.name).value;
    var x := FindIndex(t.indices, y.name).value;
    IndexFound(q.indices, y);
    IndexFound(q.indices, y');
    assert RenamedTo(x, q.indices).Some?;
    RenameStep(t.name, t.indices, q.indices, x);
    var step := AlterIndex(t.name, x.name, RenamedTo(x, q.indices).value.name);
    TableStepListed(s.tables, next, t, step);
    assert step in AllRenames(s, next);
  }

  lemma {:induction false} TwinIsDescribed(s: Schema, next: Schema, db: Db, q: Table, y: Index)
    requires WellFormed(next) && Describes(s, db) && DbAgrees(next, db) && q in next.tables && y in q.indices
    ensures Of(s, q.name).Some?
    ensures var x := FindIndex(Of(s, q.name).value.indices, y.name); x.Some? && Equivalent(x.value, y)
  {
    TableFound(next.tables, q);
    assert Described(Of(s, q.name), SlotOf(db, q.name));
    assert Agrees(Of(next, q.name), q.name, SlotOf(db, q.name));
    var d := SlotOf(db, q.name).table;
    IndexFound(q.indices, y);
    assert IndexAgrees(q, d.primaryKey, y.name, IndexAt(d, y.name));
    assert IndexAt(d, y.name) == IndexDescribed(Of(s, q.name).value, y.name);
  }

  /**
    Diffing a database that agrees with a schema against that schema yields no steps,
    if and only if no table of the schema has two equivalent indexes.
   */
  lemma {:induction false} AgreementNeedsNoStepsIff(s: Schema, next: Schema, db: Db)
    requires Faithful(s) && WellFormed(next) && Describes(s, db) && DbAgrees(next, db)
    ensures IntoSteps(Diff(s, next)) == [] <==> NoTwins(next)
    ensures IntoSteps(Diff(s, next)) == [] <==> AllRenames(s, next) == []
  {
    if NoTwins(next) {
      AgreementNeedsNone(s, next, db);
    } else {
      TwinsAreRenamed(s, next, db);
    }
    RenamesAreSteps(s, next);
  }

  lemma {:induction false} RenamesAreSteps(s: Schema, next: Schema)
    ensures |IntoSteps(Diff(s, next))| >= |AllRenames(s, next)|
  {
    hide IndexesToAlter, IndexesToDrop, IndexesToCreate, TablesToAlter, TablesToCreate, TablesToDrop, Creations;
  }

  /** Every index that keeps its name keeps its columns and its type. */
  ghost predicate SameNamedEqual(p: Table, q: Table) {
    forall y :: y in q.indices && FindIndex(p.indices, y.name).Some? ==> Equivalent(FindIndex(p.indices, y.name).value, y)
  }

  ghost predicate AllSameNamedEqual(prev: Schema, next: Schema) {
    forall n :: Of(prev, n).Some? && Of(next, n).Some? ==> SameNamedEqual(Of(prev, n).value, Of(next, n).value)
  }

  lemma {:induction false} NoStepsIn(prev: Schema, next: Schema, n: Name)
    requires WellFormed(prev) && WellFormed(next) && IntoSteps(Diff(prev, next)) == []
    ensures AllRenames(prev, next) == [] && TableSteps(Of(prev, n), Of(next, n), []) == []
  {
    DiffTableByTable(prev, next, n);
    assert |IntoSteps(Diff(prev, next))| == 0;
    hide TableSteps, IndexesToAlter, IndexesToDrop, IndexesToCreate, TablesToAlter, TablesToCreate, TablesToDrop;
    assert Diff(prev, next).alterIndexes == [];
  }

  lemma {:induction false} NoStepsAreSafe(prev: Schema, next: Schema, n: Name)
    requires WellFormed(prev) && WellFormed(next) && IntoSteps(Diff(prev, next)) == []
    requires HasTable(next, MIGRATION_TABLE) ==> HasTable(prev, MIGRATION_TABLE)
    requires AllSameNamedEqual(prev, next)
    ensures Safe(Postgres, Of(prev, n), Of(next, n), AllRenames(prev, next))
  {
    var p, q := Of(prev, n), Of(next, n);
    NoStepsIn(prev, next, n);
    TableOfSchema(prev, n);
    TableOfSchema(next, n);
    hide IntoSteps, Diff, WellFormed, AllRenames, TableSteps, Safe, SameNamedEqual;
    assert q.Some? && n == MIGRATION_TABLE ==> p.Some?;
    NoTableSteps(p, q);
  }

  lemma {:induction false} NoTableSteps(p: Option<Table>, q: Option<Table>)
    requires TableSteps(p, q, []) == [] && (q.Some? ==> ColumnsDistinct(q.value.columns))
    requires q.Some? && q.value.name == MIGRATION_TABLE ==> p.Some?
    requires p.Some? && q.Some? ==> SameNamedEqual(p.value, q.value)
    ensures Safe(Postgres, p, q, [])
  {
    NoPieces(p, q);
    if p.Some? && q.Some? {
      UnalteredIsUnchanged(p.value, q.value);
      UnchangedIsSafe(p.value, q.value);
      hide SameNamedEqual, NewIndexes, Removals, Renames, Provided, TargetsDiffer, TargetsFree, Cleared, TableSteps, Alteration;
    }
  }

  lemma {:induction false} NoPieces(p: Option<Table>, q: Option<Table>)
    requires TableSteps(p, q, []) == []
    ensures Alteration(p, q) == [] && Create(p, q) == [] && Drop(p, q) == [] && Renames(p, q) == []
    ensures NewIndexes(p, q, []) == [] && Removals(p, q, []) == []
  {
    hide Alteration, Create, Drop, Renames, NewIndexes, Removals;
  }

  lemma {:induction false} UnalteredIsUnchanged(p: Table, q: Table)
    requires ColumnsDistinct(q.columns) && Alteration(Some(p), Some(q)) == []
    ensures forall m :: ColumnChange(p, q, m).None?
  {
    forall m ensures ColumnChange(p, q, m).None? {
      ChangeFound(p, q, m);
    }
  }

  lemma {:induction false} UnchangedIsSafe(p: Table, q: Table)
    requires (forall m :: ColumnChange(p, q, m).None?) && SameNamedEqual(p, q)
    requires Renames(Some(p), Some(q)) == [] && NewIndexes(Some(p), Some(q), []) == []
    ensures Provided(Some(p), q, []) && TargetsDiffer(p.indices, q.indices) && TargetsFree(p, q) && Cleared(p, q, [])
  {
    forall x | x in p.indices ensures RenamedTo(x, q.indices).None? {
      if RenamedTo(x, q.indices).Some? {
        RenameStep(p.name, p.indices, q.indices, x);
      }
    }
    forall y | y in q.indices ensures HasSource(Some(p), q, y) || IsNew(Some(p), y, []) {
      if FindIndex(p.indices, y.name).Some? {
        var x := FindIndex(p.indices, y.name).value;
        assert Equivalent(x, y) && Becomes(x, q.indices, y) && Survives(p, q, x);
      }
    }
  }

  /** Where nothing is to be done, indexes of the same name are equal. */
  lemma {:induction false} AgreementMeansEqual(prev: Schema, next: Schema, db: Db)
    requires WellFormed(prev) && WellFormed(next) && Describes(prev, db) && DbAgrees(next, db)
    ensures AllSameNamedEqual(prev, next) && (HasTable(next, MIGRATION_TABLE) ==> HasTable(prev, MIGRATION_TABLE))
  {
    forall n | Of(prev, n).Some? && Of(next, n).Some? ensures SameNamedEqual(Of(prev, n).value, Of(next, n).value) {
      var p, q := Of(prev, n).value, Of(next, n).value;
      assert Described(Of(prev, n), SlotOf(db, n)) && Agrees(Of(next, n), n, SlotOf(db, n));
      var d := SlotOf(db, n).table;
      forall y | y in q.indices && FindIndex(p.indices, y.name).Some? ensures Equivalent(FindIndex(p.indices, y.name).value, y) {
        DistinctIndexFound(q, y);
        assert IndexAt(d, y.name) == IndexDescribed(p, y.name);
        assert IndexAgrees(q, d.primaryKey, y.name, IndexAt(d, y.name));
      }
    }
    assert Described(Of(prev, MIGRATION_TABLE), SlotOf(db, MIGRATION_TABLE));
    assert Agrees(Of(next, MIGRATION_TABLE), MIGRATION_TABLE, SlotOf(db, MIGRATION_TABLE));
  }

  /**
    A database agrees with the next schema, in which no table has two equivalent indexes,
    if and only if its diff has no steps, no index keeps its name but not its columns or
    type, and the migration table is not wanted without being there.
   */
  lemma {:induction false} NoStepsIffAgrees(prev: Schema, next: Schema, db: Db)
    requires WellFormed(prev) && WellFormed(next) && Describes(prev, db)
    ensures DbAgrees(next, db) && NoTwins(next) <==>
            && IntoSteps(Diff(prev, next)) == [] && AllSameNamedEqual(prev, next)
            && (HasTable(next, MIGRATION_TABLE) ==> HasTable(prev, MIGRATION_TABLE))
  {
    hide WellFormed, Describes, DbAgrees, AllSameNamedEqual, IntoSteps, Diff, NoTwins;
    if IntoSteps(Diff(prev, next)) == [] && AllSameNamedEqual(prev, next)
       && (HasTable(next, MIGRATION_TABLE) ==> HasTable(prev, MIGRATION_TABLE)) {
      forall n ensures Safe(Postgres, Of(prev, n), Of(next, n), AllRenames(prev, next)) {
        NoStepsAreSafe(prev, next, n);
      }
      DiffReachesNextIff(Postgres, prev, next, db);
    }
    if DbAgrees(next, db) {
      WellFormedIsFaithful(prev);
      AgreementNeedsNoStepsIff(prev, next, db);
      AgreementMeansEqual(prev, next, db);
    }
  }

  lemma {:induction false} WellFormedIsFaithful(s: Schema)
    requires WellFormed(s)
    ensures Faithful(s)
  {
  }

  /** After a migration, whatever describes the database needs no further steps, unless indexes are equivalent. */
  lemma {:induction false} MigratedOnceIsEnough(family: SqlFamily, prev: Schema, next: Schema, db: Db, s: Schema)
    requires !family.Sqlite? && WellFormed(prev) && WellFormed(next) && Describes(prev, db) && AllSafe(family, prev, next)
    requires var r := Run(family, db, IntoSteps(Diff(prev, next))); Faithful(s) && r.Some? && Describes(s, r.value)
    ensures IntoSteps(Diff(s, next)) == [] <==> NoTwins(next)
  {
    DiffReachesNextIff(family, prev, next, db);
    AgreementNeedsNoStepsIff(s, next, Run(family, db, IntoSteps(Diff(prev, next))).value);
  }

  // ----- an index that is lost -----

  const LOST_INDEX := Index("T.a", ["a"], Unique)

  function OneColumnTable(family: ColumnTypeFamily): Table {
    Table("T", [Column("a", family, Required, None)], [LOST_INDEX], None, [])
  }

  /** Changing the type of an indexed column drops its index, and nothing creates it again. */
  lemma {:induction false} IndexOfRebuiltColumnIsLost(db: Db)
    requires Describes(Schema([OneColumnTable(Int)]), db)
    ensures var prev, next := Schema([OneColumnTable(Int)]), Schema([OneColumnTable(String)]);
            && WellFormed(prev) && WellFormed(next)
            && var r := Run(Postgres, db, IntoSteps(Diff(prev, next)));
               !(r.Some? && DbAgrees(next, r.value))
  {
    var p, q := OneColumnTable(Int), OneColumnTable(String);
    var prev, next := Schema([p]), Schema([q]);
    OneColumnWellFormed(Int);
    OneColumnWellFormed(String);
    assert Of(prev, "T") == Some(p) && Of(next, "T") == Some(q);
    assert FindIndex(q.indices, "T.a") == Some(LOST_INDEX);
    assert FindColumn(p.columns, "a") == Some(p.columns[0]) && FindColumn(q.columns, "a") == Some(q.columns[0]);
    assert Drops(ColumnChange(p, q, "a"));
    assert "a" in LOST_INDEX.columns && LOST_INDEX in q.indices;
    assert forall x :: x in p.indices ==> x == LOST_INDEX;
    assert !HasSource(Some(p), q, LOST_INDEX) && !IsNew(Some(p), LOST_INDEX, AllRenames(prev, next));
    assert !Safe(Postgres, Of(prev, "T"), Of(next, "T"), AllRenames(prev, next));
    DiffReachesNextIff(Postgres, prev, next, db);
  }

  lemma {:induction false} OneColumnWellFormed(family: ColumnTypeFamily)
    ensures WellFormed(Schema([OneColumnTable(family)]))
    ensures !HasTable(Schema([OneColumnTable(family)]), MIGRATION_TABLE)
    ensures forall n :: Of(Schema([OneColumnTable(family)]), n) == if n == "T" then Some(OneColumnTable(family)) else None
  {
    var t := OneColumnTable(family);
    assert [t][1..] == [] && t.columns[1..] == [] && t.indices[1..] == [];
    assert FindColumn(t.columns, "a").Some?;
    forall n ensures Of(Schema([t]), n) == if n == "T" then Some(t) else None {
    }
    assert WellFormedTable(t);
    assert TablesDistinct([t]);
    assert MIGRATION_TABLE[0] != "T"[0];
  }
}
