/**
  The steps the inferrer hands out for each database family, and that they
  reach the expected schema.
 */
module SqlInference {
  import opened Wrappers
  import opened Names
  import opened SqlSchemas
  import opened SqlDatabases
  import opened SqlChanges
  import opened SqlDiffer
  import opened SqlTableSteps
  import opened SqlIndexes
  import opened SqlAlterations
  import opened SqlTableMigration
  import opened SqlMigration
  import opened SqliteFix
  import opened SqliteMigration
  import opened ForeignKeyDelay

  // ----- starting over when the type of an id changes -----

  predicate ChangesIdType(current: Table, change: TableChange) {
    && change.AlterColumn?
    && var was := FindColumn(current.columns, change.name);
       was.Some? && was.value.family != change.column.family && InPrimaryKey(current, change.name)
  }

  predicate HasIdTypeChange(from: Schema, steps: seq<Step>) {
    exists step :: step in steps && step.AlterTable? && Of(from, step.table.name).Some?
                   && exists change :: change in step.changes && ChangesIdType(Of(from, step.table.name).value, change)
  }

  function TablesToReset(ts: seq<Table>): (r: seq<Name>)
    ensures forall n :: n in r <==> FindTable(ts, n).Some? && n != MIGRATION_TABLE
  {
    if ts == [] then []
    else if ts[0].name != MIGRATION_TABLE then [ts[0].name] + TablesToReset(ts[1..])
    else TablesToReset(ts[1..])
  }

  function Reset(from: Schema, to: Schema): seq<Step> {
    [DropTables(TablesToReset(from.tables))] + IntoSteps(DelayedDiff(Diff(EMPTY_SCHEMA, to)))
  }

  /** The corrected steps; `None` if SQLite is to rebuild a table that a schema lacks. */
  function CorrectedFor(family: SqlFamily, from: Schema, to: Schema): Option<seq<Step>> {
    if family.Sqlite? then
      var corrected :- Corrected(IntoSteps(Diff(from, to)), [], from, to);
      Some(Expand(corrected))
    else
      var steps := IntoSteps(DelayedDiff(Diff(from, to)));
      Some(if HasIdTypeChange(from, steps) then Reset(from, to) else steps)
  }

  method FixIdColumnTypeChange(from: Schema, to: Schema, steps: seq<Step>) returns (r: seq<Step>)
    ensures r == if HasIdTypeChange(from, steps) then Reset(from, to) else steps
  {
    if HasIdTypeChange(from, steps) {
      var diffFromEmpty := DiffSchemas(EMPTY_SCHEMA, to);
      var stepsFromEmpty := DelayForeignKeyCreation(diffFromEmpty);
      return [DropTables(TablesToReset(from.tables))] + stepsFromEmpty;
    }
    r := steps;
  }

  method InferDatabaseMigrationSteps(from: Schema, to: Schema, family: SqlFamily)
    returns (original: seq<Step>, corrected: Option<seq<Step>>)
    ensures original == IntoSteps(Diff(from, to)) && corrected == CorrectedFor(family, from, to)
  {
    var diff := DiffSchemas(from, to);
    original := IntoSteps(diff);
    if family.Sqlite? {
      DiffIsStatements(from, to);
      corrected := FixStupidSqlite(diff, from, to);
    } else {
      var delayed := DelayForeignKeyCreation(diff);
      var steps := FixIdColumnTypeChange(from, to, delayed);
      corrected := Some(steps);
    }
  }

  ghost predicate Statement(step: Step) {
    !step.Rebuild?
  }

  lemma {:induction false} DiffIsStatements(prev: Schema, next: Schema)
    ensures forall step :: step in IntoSteps(Diff(prev, next)) ==> Statement(step)
  {
    IndexStepsQuiet(prev, next);
    DropTablesAre(prev.tables, next);
    CreationsAre(TablesToCreate(prev, next.tables));
    AlterTablesAre(prev.tables, next);
  }

  lemma {:induction false} DropTablesAre(ts: seq<Table>, next: Schema)
    ensures forall step :: step in TablesToDrop(ts, next) ==> Statement(step)
  {
    if ts != [] {
      DropTablesAre(ts[1..], next);
    }
  }

  lemma {:induction false} CreationsAre(ts: seq<Table>)
    ensures forall step :: step in Creations(ts) ==> Statement(step)
  {
    if ts != [] {
      CreationsAre(ts[1..]);
    }
  }

  lemma {:induction false} AlterTablesAre(ts: seq<Table>, next: Schema)
    ensures forall step :: step in TablesToAlter(ts, next) ==> Statement(step)
  {
    if ts != [] {
      hide Changes;
      AlterTablesAre(ts[1..], next);
    }
  }

  // ----- the reset -----

  /** Besides the tables of the next schema, a reset leaves the migration table as it is. */
  ghost predicate MigrationTableClean(from: Schema) {
    var t := Of(from, MIGRATION_TABLE);
    t.Some? ==> forall x :: x in t.value.indices ==> CoversKey(t.value.primaryKey, x.columns)
  }

  ghost predicate ResetSafe(family: SqlFamily, from: Schema, to: Schema) {
    MigrationTableClean(from) && forall n :: Safe(family, None, Of(to, n), [])
  }

  function OnlyMigrationTable(db: Db): Db {
    map n | n in db && n == MIGRATION_TABLE :: db[n]
  }

  lemma {:induction false} DropAllRuns(family: SqlFamily, from: Schema, db: Db)
    requires Describes(from, db) && TablesToReset(from.tables) != []
    ensures Apply(family, db, DropTables(TablesToReset(from.tables))) == Some(OnlyMigrationTable(db))
  {
    forall n ensures n in db <==> HasTable(from, n) {
      assert Described(Of(from, n), SlotOf(db, n));
    }
    var names := TablesToReset(from.tables);
    assert (map n | n in db && n !in names :: db[n]) == OnlyMigrationTable(db);
  }

  lemma {:induction false} MigrationTableStays(from: Schema, db: Db)
    requires WellFormed(from) && Describes(from, db)
    ensures Agrees(None, MIGRATION_TABLE, SlotOf(db, MIGRATION_TABLE)) <==> MigrationTableClean(from)
  {
    var t := Of(from, MIGRATION_TABLE);
    assert Described(t, SlotOf(db, MIGRATION_TABLE));
    if t.Some? {
      var d := db[MIGRATION_TABLE];
      forall n ensures IndexAt(d, n) == IndexDescribed(t.value, n) {
      }
      if MigrationTableClean(from) {
        forall x | IndexAt(d, x).Some? ensures CoversKey(d.primaryKey, IndexAt(d, x).value.columns) {
          assert IndexAt(d, x) == IndexDescribed(t.value, x);
        }
      }
      if Agrees(None, MIGRATION_TABLE, SlotOf(db, MIGRATION_TABLE)) {
        forall x | x in t.value.indices ensures CoversKey(t.value.primaryKey, x.columns) {
          IndexFound(t.value.indices, x);
          assert IndexAt(d, x.name) == IndexDescribed(t.value, x.name);
        }
      }
    }
  }

  lemma {:induction false} EmptyIsWellFormed()
    ensures WellFormed(EMPTY_SCHEMA) && forall n :: Of(EMPTY_SCHEMA, n).None?
  {
  }

  lemma {:induction false} ResetTable(family: SqlFamily, from: Schema, to: Schema, db: Db, n: Name)
    requires !family.Sqlite? && WellFormed(from) && WellFormed(to) && Describes(from, db) && !HasTable(to, MIGRATION_TABLE)
    ensures Concerns(n, TableSteps(None, Of(to, n), []))
    ensures Reaches(family, SlotOf(OnlyMigrationTable(db), n), TableSteps(None, Of(to, n), []), Of(to, n), n) <==>
            if n == MIGRATION_TABLE then MigrationTableClean(from) else Safe(family, None, Of(to, n), [])
  {
    if n == MIGRATION_TABLE {
      MigrationTableStays(from, db);
      assert TableSteps(None, None, []) == [];
      assert SlotOf(OnlyMigrationTable(db), n) == SlotOf(db, n);
    } else {
      TableOfSchema(to, n);
      TableReaches(family, None, Of(to, n), [], Absent, n);
    }
  }

  lemma {:induction false} ResetReachesIff(family: SqlFamily, from: Schema, to: Schema, db: Db)
    requires !family.Sqlite? && WellFormed(from) && WellFormed(to) && Describes(from, db)
    requires !HasTable(to, MIGRATION_TABLE) && TablesToReset(from.tables) != []
    ensures var r := Run(family, db, Reset(from, to));
            r.Some? && DbAgrees(to, r.value) <==> ResetSafe(family, from, to)
  {
    var db', steps := OnlyMigrationTable(db), IntoSteps(Diff(EMPTY_SCHEMA, to));
    EmptyIsWellFormed();
    DropAllRuns(family, from, db);
    RunNext(family, db, DropTables(TablesToReset(from.tables)), IntoSteps(DelayedDiff(Diff(EMPTY_SCHEMA, to))));
    DelayedRunsAlike(family, EMPTY_SCHEMA, to, db');
    DiffIsLocal(EMPTY_SCHEMA, to);
    RunTableByTable(family, db', steps);
    forall n
      ensures Reaches(family, SlotOf(db', n), For(n, steps), Of(to, n), n) <==>
              if n == MIGRATION_TABLE then MigrationTableClean(from) else Safe(family, None, Of(to, n), [])
    {
      DiffTableByTable(EMPTY_SCHEMA, to, n);
      assert AllRenames(EMPTY_SCHEMA, to) == [];
      ResetTable(family, from, to, db, n);
    }
    hide Diff, IntoSteps, Run, RunOnTable, Safe, Agrees, TableSteps, For, Describes, WellFormed, MigrationTableClean;
    assert Safe(family, None, Of(to, MIGRATION_TABLE), []) by { NothingIsSafe(family); }
    ReachesAll(family, from, to, db', steps);
  }

  lemma {:induction false} NothingIsSafe(family: SqlFamily)
    ensures Safe(family, None, None, [])
  {
  }

  lemma {:induction false} ReachesAll(family: SqlFamily, from: Schema, to: Schema, db: Db, steps: seq<Step>)
    requires AllLocal(steps) && Safe(family, None, Of(to, MIGRATION_TABLE), [])
    requires forall n ::
               Reaches(family, SlotOf(db, n), For(n, steps), Of(to, n), n) <==>
               if n == MIGRATION_TABLE then MigrationTableClean(from) else Safe(family, None, Of(to, n), [])
    ensures var r := Run(family, db, steps);
            r.Some? && DbAgrees(to, r.value) <==> ResetSafe(family, from, to)
  {
    RunTableByTable(family, db, steps);
    hide Run, RunOnTable, Safe, Agrees, For, MigrationTableClean;
    var r := Run(family, db, steps);
    if r.Some? {
      assert forall n :: RunOnTable(family, SlotOf(db, n), For(n, steps)) == Some(SlotOf(r.value, n));
      if DbAgrees(to, r.value) {
        forall n ensures Reaches(family, SlotOf(db, n), For(n, steps), Of(to, n), n) {
          assert Agrees(Of(to, n), n, SlotOf(r.value, n));
        }
        assert Reaches(family, SlotOf(db, MIGRATION_TABLE), For(MIGRATION_TABLE, steps), Of(to, MIGRATION_TABLE), MIGRATION_TABLE);
        forall n ensures Safe(family, None, Of(to, n), []) {
          assert Reaches(family, SlotOf(db, n), For(n, steps), Of(to, n), n);
        }
      }
      if ResetSafe(family, from, to) {
        forall n ensures Agrees(Of(to, n), n, SlotOf(r.value, n)) {
          assert Safe(family, None, Of(to, n), []);
          assert Reaches(family, SlotOf(db, n), For(n, steps), Of(to, n), n);
        }
      }
    } else {
      var n :| RunOnTable(family, SlotOf(db, n), For(n, steps)).None?;
      assert !Reaches(family, SlotOf(db, n), For(n, steps), Of(to, n), n);
    }
  }

  // ----- when the inferrer starts over -----

  /** A column of the primary key of a table changes its type. */
  ghost predicate KeyTypeDiffers(from: Schema, to: Schema, n: Name, c: Name) {
    var p, q := Of(from, n), Of(to, n);
    && p.Some? && q.Some? && p.value.primaryKey.Some? && c in p.value.primaryKey.value
    && var was, now := FindColumn(p.value.columns, c), FindColumn(q.value.columns, c);
       was.Some? && now.Some? && was.value.family != now.value.family
  }

  ghost predicate KeyTypeChanges(from: Schema, to: Schema) {
    exists n, c :: KeyTypeDiffers(from, to, n, c)
  }

  lemma {:induction false} AlteredIsColumn(p: Table, q: Table, cs: seq<Column>, change: TableChange)
    requires change in ColumnsToAlter(p, q, cs)
    ensures change.AlterColumn? && change.column in cs && change.name == change.column.name
  {
    if change in ColumnsToAlter(p, q, cs[1..]) {
      AlteredIsColumn(p, q, cs[1..], change);
    }
  }

  /** An altered column is a column of both descriptions. */
  lemma {:induction false} AlterationIsOfColumn(p: Table, q: Table, change: TableChange)
    requires ColumnsDistinct(q.columns) && change in Changes(p, q) && change.AlterColumn?
    ensures FindColumn(q.columns, change.name) == Some(change.column)
  {
    DropForeignKeysAdd(p.foreignKeys, q.foreignKeys);
    DropsAdd(p.columns, q.columns);
    AddsAre(p.columns, q.columns);
    forall c | c in ColumnsToAdd(p.columns, q.columns) ensures c.AddColumn? {
      AddedIsAddition(p.columns, q.columns, c);
    }
    AlteredIsColumn(p, q, q.columns, change);
    ColumnFound(q.columns, change.column);
  }

  lemma {:induction false} AddedIsAddition(ps: seq<Column>, qs: seq<Column>, change: TableChange)
    requires change in ColumnsToAdd(ps, qs)
    ensures change.AddColumn?
  {
    if change in ColumnsToAdd(ps, qs[1..]) {
      AddedIsAddition(ps, qs[1..], change);
    }
  }

  lemma {:induction false} RenamesOnly(n: Name, xs: seq<Index>, ys: seq<Index>)
    ensures forall step :: step in IndexRenames(n, xs, ys) ==> step.AlterIndex?
  {
    if xs != [] {
      RenamesOnly(n, xs[1..], ys);
    }
  }

  /** The one alteration of a kept table. */
  lemma {:induction false} AlterationIs(p: Table, q: Table, alters: seq<Step>, step: Step)
    ensures step in TableSteps(Some(p), Some(q), alters) && step.AlterTable? <==>
            Changes(p, q) != [] && step == AlterTable(q, Changes(p, q))
  {
    RemovalsOnly(p, p.indices, q.indices, alters);
    CreationsOnly(q.name, p.indices, q.indices, alters);
    RenamesOnly(p.name, p.indices, q.indices);
    hide Changes, IndexRemovals, IndexCreations, IndexRenames;
  }

  lemma {:induction false} ChangesAlter(p: Table, q: Table, c: Column)
    requires c in q.columns && ToAlter(p, q, c)
    ensures AlterColumn(c.name, c) in Changes(p, q)
  {
    ColumnIsAltered(p, q, q.columns, c);
  }

  lemma {:induction false} ColumnIsAltered(p: Table, q: Table, cs: seq<Column>, c: Column)
    requires c in cs && ToAlter(p, q, c)
    ensures AlterColumn(c.name, c) in ColumnsToAlter(p, q, cs)
  {
    if cs[0] != c {
      ColumnIsAltered(p, q, cs[1..], c);
    }
  }

  lemma {:induction false} StepsOfTable(from: Schema, to: Schema, n: Name, step: Step)
    requires WellFormed(from) && WellFormed(to) && Of(from, n).Some? && step.AlterTable? && step.table.name == n
    ensures step in IntoSteps(DelayedDiff(Diff(from, to))) <==>
            step in TableSteps(Of(from, n), Of(to, n), AllRenames(from, to))
  {
    var steps := IntoSteps(DelayedDiff(Diff(from, to)));
    DelayedIsLocal(from, to);
    DelayedFor(from, to, n);
    hide DelayedDiff, Diff, IntoSteps, For, TableSteps, AllRenames, WellFormed;
    if step in steps {
      StepIsItsTables(n, steps, step);
    }
  }

  lemma {:induction false} TypeChangeIsAltered(p: Table, q: Table, c: Name) returns (change: TableChange)
    requires InPrimaryKey(p, c) && FindColumn(p.columns, c).Some? && FindColumn(q.columns, c).Some?
    requires FindColumn(p.columns, c).value.family != FindColumn(q.columns, c).value.family
    ensures change in Changes(p, q) && ChangesIdType(p, change)
  {
    var column := FindColumn(q.columns, c).value;
    change := AlterColumn(c, column);
    assert ToAlter(p, q, column);
    hide Changes, ToAlter;
    ChangesAlter(p, q, column);
  }

  lemma {:induction false} TypeChangeIsInSteps(from: Schema, to: Schema, n: Name, c: Name)
    requires WellFormed(from) && WellFormed(to) && KeyTypeDiffers(from, to, n, c)
    ensures HasIdTypeChange(from, IntoSteps(DelayedDiff(Diff(from, to))))
  {
    var p, q := Of(from, n).value, Of(to, n).value;
    var change := TypeChangeIsAltered(p, q, c);
    hide DelayedDiff, Diff, IntoSteps, TableSteps, AllRenames, WellFormed, Changes, ChangesIdType, FindColumn;
    var step := AlterTable(q, Changes(p, q));
    AlterationIs(p, q, AllRenames(from, to), step);
    StepsOfTable(from, to, n, step);
  }

  /** The inferrer starts over if and only if a column of a primary key changes its type. */
  lemma {:induction false} StartsOverIff(from: Schema, to: Schema)
    requires WellFormed(from) && WellFormed(to)
    ensures HasIdTypeChange(from, IntoSteps(DelayedDiff(Diff(from, to)))) <==> KeyTypeChanges(from, to)
  {
    var steps := IntoSteps(DelayedDiff(Diff(from, to)));
    if HasIdTypeChange(from, steps) {
      var step :| step in steps && step.AlterTable? && Of(from, step.table.name).Some?
                  && exists change :: change in step.changes && ChangesIdType(Of(from, step.table.name).value, change);
      var change :| change in step.changes && ChangesIdType(Of(from, step.table.name).value, change);
      TypeChangeIsInSchemas(from, to, step, change);
    }
    if KeyTypeChanges(from, to) {
      var n, c :| KeyTypeDiffers(from, to, n, c);
      TypeChangeIsInSteps(from, to, n, c);
    }
  }

  lemma {:induction false} TypeChangeIsInSchemas(from: Schema, to: Schema, step: Step, change: TableChange)
    requires WellFormed(from) && WellFormed(to) && step in IntoSteps(DelayedDiff(Diff(from, to))) && step.AlterTable?
    requires Of(from, step.table.name).Some? && change in step.changes && ChangesIdType(Of(from, step.table.name).value, change)
    ensures KeyTypeDiffers(from, to, step.table.name, change.name)
  {
    var n := step.table.name;
    StepsOfTable(from, to, n, step);
    hide DelayedDiff, Diff, IntoSteps, TableSteps, AllRenames;
    OnlyKeptTablesAreFixed(Of(from, n), Of(to, n), AllRenames(from, to), step);
    var p, q := Of(from, n).value, Of(to, n).value;
    AlterationIs(p, q, AllRenames(from, to), step);
    TableOfSchema(to, n);
    hide Changes;
    AlterationIsOfColumn(p, q, change);
  }

  // ----- the inferred steps -----

  lemma {:induction false} SomethingToReset(from: Schema, to: Schema)
    requires KeyTypeChanges(from, to) && !HasTable(to, MIGRATION_TABLE)
    ensures TablesToReset(from.tables) != []
  {
    var n, c :| KeyTypeDiffers(from, to, n, c);
    assert n in TablesToReset(from.tables);
  }

  /**
    On Postgres and MySQL the inferred steps lead to agreement with the expected
    schema if and only if the diff does, or, where a column of a primary key changes
    its type, if no list column is created and the migration table has no other indexes.
   */
  lemma {:induction false} InferredReachesIff(family: SqlFamily, from: Schema, to: Schema, db: Db)
    requires !family.Sqlite? && WellFormed(from) && WellFormed(to) && Describes(from, db) && !HasTable(to, MIGRATION_TABLE)
    ensures var corrected := CorrectedFor(family, from, to);
            && corrected.Some?
            && var r := Run(family, db, corrected.value);
               (r.Some? && DbAgrees(to, r.value) <==>
                if KeyTypeChanges(from, to) then ResetSafe(family, from, to) else AllSafe(family, from, to))
  {
    StartsOverIff(from, to);
    hide KeyTypeChanges, HasIdTypeChange;
    if KeyTypeChanges(from, to) {
      SomethingToReset(from, to);
      ResetReachesIff(family, from, to, db);
    } else {
      DelayedRunsAlike(family, from, to, db);
      DiffReachesNextIff(family, from, to, db);
    }
  }

  // ----- what the inferred steps keep -----

  ghost predicate Makes(steps: seq<Step>) {
    forall step :: step in steps ==> step.CreateTable? || step.CreateIndex?
  }

  /** Tables that are made, and indexes of tables that are there, bring no rows. */
  lemma {:induction false} MakesNoRows(family: SqlFamily, s: Slot, steps: seq<Step>)
    requires Makes(steps)
    ensures var r := RunOnTable(family, s, steps);
            r.Some? ==>
              && (s.Present? ==> r.value.Present? && r.value.table.rows == s.table.rows)
              && (s.Absent? && r.value.Present? ==> r.value.table.rows == [])
    decreases |steps|
  {
    if steps != [] {
      assert steps[0] in steps && forall step :: step in steps[1..] ==> step in steps;
      var s' := ApplyToTable(family, s, steps[0]);
      if s'.Some? {
        MakesNoRows(family, s'.value, steps[1..]);
      }
    }
  }

  lemma {:induction false} FromNothing(to: Schema, n: Name)
    requires WellFormed(to)
    ensures Makes(For(n, IntoSteps(Diff(EMPTY_SCHEMA, to))))
  {
    EmptyIsWellFormed();
    DiffTableByTable(EMPTY_SCHEMA, to, n);
    var q := Of(to, n);
    if q.Some? {
      CreationsOnly(q.value.name, [], q.value.indices, AllRenames(EMPTY_SCHEMA, to));
    }
    PiecesOf(None, q, AllRenames(EMPTY_SCHEMA, to));
    hide IntoSteps, Diff, TableSteps, IndexCreations;
  }

  /** Starting over leaves the migration table with its rows, and no row elsewhere. */
  ghost predicate StartedOver(db: Db, db': Db) {
    && (MIGRATION_TABLE in db ==> MIGRATION_TABLE in db' && db'[MIGRATION_TABLE].rows == db[MIGRATION_TABLE].rows)
    && forall n :: n in db' && n != MIGRATION_TABLE ==> db'[n].rows == []
  }

  lemma {:induction false} ResetStartsOver(family: SqlFamily, from: Schema, to: Schema, db: Db)
    requires !family.Sqlite? && WellFormed(from) && WellFormed(to) && Describes(from, db)
    ensures var r := Run(family, db, Reset(from, to));
            r.Some? ==> StartedOver(db, r.value)
  {
    var db', steps := OnlyMigrationTable(db), IntoSteps(Diff(EMPTY_SCHEMA, to));
    EmptyIsWellFormed();
    RunNext(family, db, DropTables(TablesToReset(from.tables)), IntoSteps(DelayedDiff(Diff(EMPTY_SCHEMA, to))));
    DelayedRunsAlike(family, EMPTY_SCHEMA, to, db');
    DiffIsLocal(EMPTY_SCHEMA, to);
    RunTableByTable(family, db', steps);
    hide Diff, DelayedDiff, IntoSteps, Run, RunOnTable, For, Describes, WellFormed;
    var r := Run(family, db, Reset(from, to));
    if r.Some? {
      assert TablesToReset(from.tables) != [];
      DropAllRuns(family, from, db);
      forall n
        ensures n in r.value && n != MIGRATION_TABLE ==> r.value[n].rows == []
        ensures n in db && n == MIGRATION_TABLE ==> n in r.value && r.value[n].rows == db[n].rows
      {
        FromNothing(to, n);
        MakesNoRows(family, SlotOf(db', n), For(n, steps));
        assert RunOnTable(family, SlotOf(db', n), For(n, steps)) == Some(SlotOf(r.value, n));
      }
    }
  }

  /**
    On Postgres and MySQL, the inferred steps, whenever they succeed, keep every row of
    every kept table, and its cells in columns that stay the same, unless a column of a
    primary key changes its type; then only the migration table keeps its rows.
   */
  lemma {:induction false} InferredKeepsRows(family: SqlFamily, from: Schema, to: Schema, db: Db)
    requires !family.Sqlite? && WellFormed(from) && WellFormed(to) && Describes(from, db)
    ensures var corrected := CorrectedFor(family, from, to);
            && corrected.Some?
            && var r := Run(family, db, corrected.value);
               (r.Some? ==>
                  if KeyTypeChanges(from, to) then StartedOver(db, r.value)
                  else forall n :: HasTable(from, n) && HasTable(to, n) ==>
                         n in db && n in r.value && CellsKept(Of(from, n).value, Of(to, n).value, db[n], r.value[n]))
  {
    StartsOverIff(from, to);
    hide KeyTypeChanges, HasIdTypeChange, CellsKept, StartedOver;
    if KeyTypeChanges(from, to) {
      ResetStartsOver(family, from, to, db);
    } else {
      DelayedRunsAlike(family, from, to, db);
      var r := Run(family, db, IntoSteps(Diff(from, to)));
      hide IntoSteps, Diff, DelayedDiff, Run, Describes, WellFormed;
      if r.Some? {
        forall n | HasTable(from, n) && HasTable(to, n)
          ensures n in db && n in r.value && CellsKept(Of(from, n).value, Of(to, n).value, db[n], r.value[n])
        {
          DiffKeepsRows(family, from, to, db, n);
        }
      }
    }
  }

  /**
    On every family: once the inferred steps have led to agreement, nothing more is
    inferred, unless a table has two equivalent indexes.
   */
  lemma {:induction false} InferredOnceIsEnoughIff(to: Schema, db: Db, s: Schema, family: SqlFamily)
    requires WellFormed(to) && WellFormed(s) && Describes(s, db) && DbAgrees(to, db)
    ensures CorrectedFor(family, s, to) == Some([]) <==> NoTwins(to)
  {
    WellFormedIsFaithful(s);
    AgreementNeedsNoStepsIff(s, to, db);
    if NoTwins(to) {
      NothingDelayed(s, to);
    } else if family.Sqlite? {
      RenamesAreRebuilt(s, to);
    } else {
      RenamesAreInferred(s, to);
      hide IntoSteps, DelayedDiff, Diff, HasIdTypeChange, NoTwins;
    }
  }

  lemma {:induction false} RenamesAreInferred(s: Schema, to: Schema)
    requires AllRenames(s, to) != []
    ensures IntoSteps(DelayedDiff(Diff(s, to))) != []
  {
    hide IndexesToAlter, IndexesToDrop, IndexesToCreate, TablesToAlter, TablesToCreate, TablesToDrop, Creations, TrimAll, ExtraAlterations;
    assert |IntoSteps(DelayedDiff(Diff(s, to)))| >= |AllRenames(s, to)|;
  }

  lemma {:induction false} RebuiltIsSomething(steps: seq<Step>, fixed: seq<Name>, from: Schema, to: Schema, step: Step)
    requires Corrected(steps, fixed, from, to).Some? && step in steps && step.AlterIndex?
    ensures Expand(Corrected(steps, fixed, from, to).value) != []
    decreases |steps|
  {
    var first := CorrectedStep(steps[0], fixed, from, to).value;
    var rest := Corrected(steps[1..], fixed + FixedBy(steps[0]), from, to).value;
    ExpandConcat(first, rest);
    if steps[0] == step {
      ExpandOne(first[0]);
      assert first == [first[0]];
    } else {
      RebuiltIsSomething(steps[1..], fixed + FixedBy(steps[0]), from, to, step);
    }
  }

  lemma {:induction false} RenamesAreRebuilt(s: Schema, to: Schema)
    requires AllRenames(s, to) != []
    ensures CorrectedFor(Sqlite, s, to) != Some([])
  {
    var step := AllRenames(s, to)[0];
    AlterIndexesQuiet(s.tables, to);
    AlterationsAreLate(s.tables, to);
    assert step in AllRenames(s, to) && step.AlterIndex?;
    assert step in IntoSteps(Diff(s, to)) by {
      hide IndexesToAlter, IndexesToDrop, IndexesToCreate, TablesToAlter, TablesToCreate, TablesToDrop, Creations;
    }
    hide IntoSteps, Diff;
    if Corrected(IntoSteps(Diff(s, to)), [], s, to).Some? {
      RebuiltIsSomething(IntoSteps(Diff(s, to)), [], s, to, step);
    }
  }

  lemma {:induction false} NothingDelayed(s: Schema, to: Schema)
    requires IntoSteps(Diff(s, to)) == []
    ensures IntoSteps(DelayedDiff(Diff(s, to))) == []
  {
    var diff := Diff(s, to);
    assert |IntoSteps(diff)| == 0;
    assert Creations(diff.createTables) == [];
    assert diff.createTables == [];
    assert diff.alterTables + ExtraAlterations([], []) == diff.alterTables;
  }
}
