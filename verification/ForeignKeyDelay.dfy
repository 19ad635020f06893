/**
  Postgres and MySQL: columns that refer to a table which the same migration
  creates are added after all tables are created.
 */
module ForeignKeyDelay {
  import opened Wrappers
  import opened Names
  import opened SqlSchemas
  import opened SqlDatabases
  import opened SqlChanges
  import opened SqlDiffer
  import opened SqlTableSteps
  import opened SqlIndexes
  import opened SqlMigration

  // ----- the delayed steps -----

  predicate IsRelationTable(t: Table) {
    "_" <= t.name
  }

  /** Whether a column of a created table is added later. */
  predicate Delayed(t: Table, created: seq<Name>, c: Column) {
    var fk := FkOf(t, c.name);
    fk.Some? && fk.value.referencedTable in created && !InPrimaryKey(t, c.name) && !IsRelationTable(t)
  }

  function DelayedColumns(t: Table, created: seq<Name>, cs: seq<Column>): seq<Column> {
    if cs == [] then []
    else if Delayed(t, created, cs[0]) then [cs[0]] + DelayedColumns(t, created, cs[1..])
    else DelayedColumns(t, created, cs[1..])
  }

  function Without(cs: seq<Column>, later: seq<Column>): seq<Column> {
    if cs == [] then []
    else if cs[0] !in later then [cs[0]] + Without(cs[1..], later)
    else Without(cs[1..], later)
  }

  function Trimmed(t: Table, created: seq<Name>): Table {
    t.(columns := Without(t.columns, DelayedColumns(t, created, t.columns)))
  }

  function Additions(cs: seq<Column>): seq<TableChange> {
    if cs == [] then [] else [AddColumn(cs[0])] + Additions(cs[1..])
  }

  function ExtraAlteration(t: Table, created: seq<Name>): seq<Step> {
    var later := DelayedColumns(t, created, t.columns);
    if later == [] then [] else [AlterTable(Trimmed(t, created), Additions(later))]
  }

  function TrimAll(ts: seq<Table>, created: seq<Name>): seq<Table> {
    if ts == [] then [] else [Trimmed(ts[0], created)] + TrimAll(ts[1..], created)
  }

  function ExtraAlterations(ts: seq<Table>, created: seq<Name>): seq<Step> {
    if ts == [] then [] else ExtraAlteration(ts[0], created) + ExtraAlterations(ts[1..], created)
  }

  function NamesOf(ts: seq<Table>): (r: seq<Name>)
    ensures forall n :: n in r <==> FindTable(ts, n).Some?
  {
    if ts == [] then [] else [ts[0].name] + NamesOf(ts[1..])
  }

  function DelayedDiff(diff: SqlSchemaDiff): SqlSchemaDiff {
    var created := NamesOf(diff.createTables);
    diff.(
      createTables := TrimAll(diff.createTables, created),
      alterTables := diff.alterTables + ExtraAlterations(diff.createTables, created))
  }

  method ColumnsDoneLater(t: Table, created: seq<Name>) returns (later: seq<Column>)
    ensures later == DelayedColumns(t, created, t.columns)
  {
    later := [];
    for i := 0 to |t.columns|
      invariant later + DelayedColumns(t, created, t.columns[i..]) == DelayedColumns(t, created, t.columns)
    {
      var c := t.columns[i];
      assert t.columns[i..][1..] == t.columns[i + 1..];
      var fk := FkOf(t, c.name);
      if fk.Some? {
        if fk.value.referencedTable in created && !InPrimaryKey(t, c.name) && !IsRelationTable(t) {
          later := later + [c];
        }
      }
    }
  }

  method DelayForeignKeyCreation(diff: SqlSchemaDiff) returns (steps: seq<Step>)
    ensures steps == IntoSteps(DelayedDiff(diff))
  {
    hide IntoSteps, DelayedColumns, Without;
    var created := NamesOf(diff.createTables);
    var creates, extra := diff.createTables, [];
    for i := 0 to |diff.createTables|
      invariant creates == TrimAll(diff.createTables[..i], created) + diff.createTables[i..]
      invariant extra == ExtraAlterations(diff.createTables[..i], created)
    {
      TrimmedSoFar(diff.createTables, i, created);
      var t := creates[i];
      var later := ColumnsDoneLater(t, created);
      creates := creates[i := t.(columns := Without(t.columns, later))];
      var changes := Additions(later);
      if changes != [] {
        extra := extra + [AlterTable(creates[i], changes)];
      }
    }
    assert diff.createTables[..|diff.createTables|] == diff.createTables && diff.createTables[|diff.createTables|..] == [];
    assert creates == TrimAll(diff.createTables, created);
    steps := IntoSteps(diff.(createTables := creates, alterTables := diff.alterTables + extra));
  }

  /** One more created table in the two lists. */
  lemma {:induction false} TrimmedSoFar(ts: seq<Table>, i: nat, created: seq<Name>)
    requires i < |ts|
    ensures var creates := TrimAll(ts[..i], created) + ts[i..];
            && |creates| == |ts| && creates[i] == ts[i]
            && creates[i := Trimmed(ts[i], created)] == TrimAll(ts[..i + 1], created) + ts[i + 1..]
    ensures ExtraAlterations(ts[..i + 1], created) == ExtraAlterations(ts[..i], created) + ExtraAlteration(ts[i], created)
  {
    assert ts[..i + 1] == ts[..i] + [ts[i]];
    TrimmedConcat(ts[..i], ts[i], created);
  }

  lemma {:induction false} TrimmedConcat(ts: seq<Table>, t: Table, created: seq<Name>)
    ensures |TrimAll(ts, created)| == |ts|
    ensures TrimAll(ts + [t], created) == TrimAll(ts, created) + [Trimmed(t, created)]
    ensures ExtraAlterations(ts + [t], created) == ExtraAlterations(ts, created) + ExtraAlteration(t, created)
  {
    hide Trimmed, ExtraAlteration;
    if ts == [] {
      assert ts + [t] == [t] && [t][1..] == [];
      assert ExtraAlteration(t, created) + [] == ExtraAlteration(t, created);
    } else {
      assert (ts + [t])[0] == ts[0] && (ts + [t])[1..] == ts[1..] + [t];
      TrimmedConcat(ts[1..], t, created);
    }
  }

  // ----- the columns of a trimmed table -----

  lemma {:induction false} DelayedAre(t: Table, created: seq<Name>, cs: seq<Column>, c: Column)
    ensures c in DelayedColumns(t, created, cs) <==> c in cs && Delayed(t, created, c)
  {
    if cs != [] {
      DelayedAre(t, created, cs[1..], c);
    }
  }

  lemma {:induction false} DelayedFound(t: Table, created: seq<Name>, cs: seq<Column>, n: Name)
    requires ColumnsDistinct(cs)
    ensures FindColumn(DelayedColumns(t, created, cs), n) ==
            var c := FindColumn(cs, n);
            if c.Some? && Delayed(t, created, c.value) then c else None
  {
    if cs != [] {
      DelayedFound(t, created, cs[1..], n);
      var rest := DelayedColumns(t, created, cs[1..]);
      assert ([cs[0]] + rest)[1..] == rest;
    }
  }

  lemma {:induction false} WithoutFound(cs: seq<Column>, later: seq<Column>, n: Name)
    requires ColumnsDistinct(cs)
    ensures FindColumn(Without(cs, later), n) ==
            var c := FindColumn(cs, n);
            if c.Some? && c.value !in later then c else None
  {
    if cs != [] {
      WithoutFound(cs[1..], later, n);
      var rest := Without(cs[1..], later);
      assert ([cs[0]] + rest)[1..] == rest;
    }
  }

  lemma {:induction false} DelayedDistinct(t: Table, created: seq<Name>, cs: seq<Column>)
    requires ColumnsDistinct(cs)
    ensures ColumnsDistinct(DelayedColumns(t, created, cs))
  {
    if cs != [] {
      DelayedDistinct(t, created, cs[1..]);
      DelayedFound(t, created, cs[1..], cs[0].name);
      var rest := DelayedColumns(t, created, cs[1..]);
      assert ([cs[0]] + rest)[1..] == rest;
    }
  }

  lemma {:induction false} WithoutDistinct(cs: seq<Column>, later: seq<Column>)
    requires ColumnsDistinct(cs)
    ensures ColumnsDistinct(Without(cs, later))
  {
    if cs != [] {
      WithoutDistinct(cs[1..], later);
      WithoutFound(cs[1..], later, cs[0].name);
      var rest := Without(cs[1..], later);
      assert ([cs[0]] + rest)[1..] == rest;
    }
  }

  lemma {:induction false} TrimmedFound(t: Table, created: seq<Name>, n: Name)
    requires ColumnsDistinct(t.columns)
    ensures FindColumn(Trimmed(t, created).columns, n) ==
            var c := FindColumn(t.columns, n);
            if c.Some? && !Delayed(t, created, c.value) then c else None
  {
    var later := DelayedColumns(t, created, t.columns);
    WithoutFound(t.columns, later, n);
    var c := FindColumn(t.columns, n);
    if c.Some? {
      DelayedAre(t, created, t.columns, c.value);
    }
  }

  lemma {:induction false} AdditionFound(cs: seq<Column>, n: Name)
    ensures FindChange(Additions(cs), n) ==
            var c := FindColumn(cs, n);
            if c.Some? then Some(AddColumn(c.value)) else None
  {
    if cs != [] {
      AdditionFound(cs[1..], n);
      assert ([AddColumn(cs[0])] + Additions(cs[1..]))[1..] == Additions(cs[1..]);
    }
  }

  lemma {:induction false} AdditionsColumnWise(cs: seq<Column>)
    requires ColumnsDistinct(cs)
    ensures ColumnWise(Additions(cs))
  {
    if cs != [] {
      AdditionsColumnWise(cs[1..]);
      AdditionFound(cs[1..], cs[0].name);
      assert ([AddColumn(cs[0])] + Additions(cs[1..]))[1..] == Additions(cs[1..]);
    }
  }

  // ----- creating a table in one step or in two -----

  function Made(t: Table): DbTable {
    DbTable(RenderedColumns(t, t.columns), map[], t.primaryKey, [])
  }

  lemma {:induction false} TrimmedCanBeMade(t: Table, created: seq<Name>)
    requires WellFormedTable(t)
    ensures ColumnsDistinct(Trimmed(t, created).columns) && KeyColumnsPresent(Trimmed(t, created))
  {
    WithoutDistinct(t.columns, DelayedColumns(t, created, t.columns));
    if t.primaryKey.Some? {
      forall n | n in t.primaryKey.value ensures FindColumn(Trimmed(t, created).columns, n).Some? {
        assert FindColumn(t.columns, n).Some?;
        TrimmedFound(t, created, n);
      }
    }
  }

  /** The delayed columns complete the trimmed table. */
  lemma {:induction false} AddedLater(family: SqlFamily, t: Table, created: seq<Name>)
    requires WellFormedTable(t)
    ensures var small := Trimmed(t, created);
            ApplyChanges(family, small, Made(small), Additions(DelayedColumns(t, created, t.columns))) == Some(Made(t))
  {
    var small, later := Trimmed(t, created), DelayedColumns(t, created, t.columns);
    DelayedDistinct(t, created, t.columns);
    AdditionsColumnWise(later);
    forall n
      ensures FindChange(Additions(later), n).Some? ==> Applicable(family, Made(small), FindChange(Additions(later), n).value)
    {
      AdditionFound(later, n);
      DelayedFound(t, created, t.columns, n);
      TrimmedFound(t, created, n);
    }
    ChangesColumnByColumn(family, small, Made(small), Additions(later));
    var d := ApplyChanges(family, small, Made(small), Additions(later)).value;
    assert Altered(small, Made(small), Additions(later), d);
    NoHits(later, d, small, t);
    ColumnsComplete(t, created, d);
  }

  lemma {:induction false} NoHits(later: seq<Column>, d: DbTable, small: Table, t: Table)
    requires Altered(small, Made(small), Additions(later), d) && t.primaryKey == small.primaryKey
    ensures d.indices == map[] && d.primaryKey == t.primaryKey && d.rows == []
  {
    forall n ensures !Drops(FindChange(Additions(later), n)) {
      AdditionFound(later, n);
    }
  }

  lemma {:induction false} ColumnsComplete(t: Table, created: seq<Name>, d: DbTable)
    requires WellFormedTable(t)
    requires var small := Trimmed(t, created);
             ColumnsAltered(small, Made(small), Additions(DelayedColumns(t, created, t.columns)), d)
    ensures d.columns == RenderedColumns(t, t.columns)
  {
    var small, later := Trimmed(t, created), DelayedColumns(t, created, t.columns);
    forall n ensures ColumnAt(d, n) == ColumnAt(Made(t), n) {
      AdditionFound(later, n);
      DelayedFound(t, created, t.columns, n);
      TrimmedFound(t, created, n);
      assert ColumnAt(d, n) == Outcome(small, ColumnAt(Made(small), n), FindChange(Additions(later), n));
    }
    SameColumns(d, Made(t));
  }

  lemma {:induction false} SameColumns(d: DbTable, d': DbTable)
    requires forall n :: ColumnAt(d, n) == ColumnAt(d', n)
    ensures d.columns == d'.columns
  {
    assert forall n :: n in d.columns <==> ColumnAt(d, n).Some?;
    assert forall n :: n in d'.columns <==> ColumnAt(d', n).Some?;
    assert d.columns.Keys == d'.columns.Keys;
    forall n | n in d.columns ensures d.columns[n] == d'.columns[n] {
      assert ColumnAt(d, n) == ColumnAt(d', n);
    }
  }

  lemma {:induction false} MakeRuns(family: SqlFamily, s: Slot, t: Table)
    requires ColumnsDistinct(t.columns) && KeyColumnsPresent(t)
    ensures RunOnTable(family, s, [CreateTable(t)]) == if s.Absent? then Some(Present(Made(t))) else None
  {
    assert [CreateTable(t)][1..] == [];
  }

  lemma {:induction false} CompleteRuns(family: SqlFamily, t: Table, created: seq<Name>)
    requires !family.Sqlite? && WellFormedTable(t)
    ensures Concerns(t.name, ExtraAlteration(t, created))
    ensures RunOnTable(family, Present(Made(Trimmed(t, created))), ExtraAlteration(t, created)) == Some(Present(Made(t)))
  {
    var small, later := Trimmed(t, created), DelayedColumns(t, created, t.columns);
    AddedLater(family, t, created);
    hide Made, Trimmed, DelayedColumns, ApplyChanges, WellFormedTable, RunOnTable;
    assert ExtraAlteration(t, created) == [] ==> RunOnTable(family, Present(Made(small)), []) == Some(Present(Made(small))) by {
      RunNone(family, Present(Made(small)));
    }
    if later == [] {
      assert Additions(later) == [];
      NoChanges(family, small, Made(small));
    } else {
      AlterRuns(family, small, Made(small), Additions(later));
    }
  }

  lemma {:induction false} AlterRuns(family: SqlFamily, t: Table, d: DbTable, changes: seq<TableChange>)
    requires !family.Sqlite? && changes != [] && !changes[0].DropForeignKey?
    ensures RunOnTable(family, Present(d), [AlterTable(t, changes)]) ==
            var d' := ApplyChanges(family, t, d, changes);
            if d'.Some? then Some(Present(d'.value)) else None
  {
    hide ApplyChanges;
    assert changes[0] in changes;
    RunFirst(family, Present(d), AlterTable(t, changes), []);
    assert [AlterTable(t, changes)] + [] == [AlterTable(t, changes)];
  }

  lemma {:induction false} NoChanges(family: SqlFamily, t: Table, d: DbTable)
    ensures ApplyChanges(family, t, d, []) == Some(d)
  {
  }

  lemma {:induction false} CreatedAlike(family: SqlFamily, s: Slot, t: Table, created: seq<Name>, rest: seq<Step>)
    requires !family.Sqlite? && WellFormedTable(t) && Concerns(t.name, rest)
    ensures Concerns(t.name, ExtraAlteration(t, created))
    ensures RunOnTable(family, s, [CreateTable(Trimmed(t, created))] + ExtraAlteration(t, created) + rest) ==
            RunOnTable(family, s, [CreateTable(t)] + rest)
  {
    var small, extra := Trimmed(t, created), ExtraAlteration(t, created);
    TrimmedCanBeMade(t, created);
    MakeRuns(family, s, small);
    MakeRuns(family, s, t);
    CompleteRuns(family, t, created);
    hide RunOnTable, Made, ExtraAlteration, WellFormedTable;
    RunOnTableConcat(family, s, [CreateTable(small)], extra);
    RunOnTableConcat(family, s, [CreateTable(small)] + extra, rest);
    RunOnTableConcat(family, s, [CreateTable(t)], rest);
  }

  // ----- the delayed diff, table by table -----

  lemma {:induction false} TrimmedFor(ts: seq<Table>, created: seq<Name>, n: Name)
    requires TablesDistinct(ts)
    ensures For(n, Creations(ts)) == (var t := FindTable(ts, n); if t.Some? then [CreateTable(t.value)] else [])
    ensures For(n, Creations(TrimAll(ts, created))) ==
            (var t := FindTable(ts, n); if t.Some? then [CreateTable(Trimmed(t.value, created))] else [])
  {
    if ts != [] {
      TrimmedFor(ts[1..], created, n);
      var small, rest := Trimmed(ts[0], created), TrimAll(ts[1..], created);
      assert ([small] + rest)[1..] == rest;
      ForHead(n, ts[0].name, [CreateTable(small)], Creations(rest));
      ForHead(n, ts[0].name, [CreateTable(ts[0])], Creations(ts[1..]));
    }
  }

  lemma {:induction false} ExtraFor(ts: seq<Table>, created: seq<Name>, n: Name)
    requires TablesDistinct(ts)
    ensures For(n, ExtraAlterations(ts, created)) ==
            (var t := FindTable(ts, n); if t.Some? then ExtraAlteration(t.value, created) else [])
  {
    if ts != [] {
      ExtraFor(ts[1..], created, n);
      ForHead(n, ts[0].name, ExtraAlteration(ts[0], created), ExtraAlterations(ts[1..], created));
    }
  }

  lemma {:induction false} CreatedTable(prev: Schema, ts: seq<Table>, n: Name)
    requires TablesDistinct(ts)
    ensures TablesDistinct(TablesToCreate(prev, ts))
    ensures FindTable(TablesToCreate(prev, ts), n) ==
            if !HasTable(prev, n) && n != MIGRATION_TABLE then FindTable(ts, n) else None
  {
    if ts != [] {
      CreatedTable(prev, ts[1..], n);
      CreatedTable(prev, ts[1..], ts[0].name);
      var rest := TablesToCreate(prev, ts[1..]);
      assert ([ts[0]] + rest)[1..] == rest;
    }
  }

  /** The steps of a table in the delayed diff: the same, or a table created in two steps. */
  lemma {:induction false} DelayedFor(prev: Schema, next: Schema, n: Name)
    requires WellFormed(prev) && WellFormed(next)
    ensures var created := NamesOf(TablesToCreate(prev, next.tables));
            var p, q := Of(prev, n), Of(next, n);
            For(n, IntoSteps(DelayedDiff(Diff(prev, next)))) ==
            if p.None? && q.Some? && n != MIGRATION_TABLE
            then [CreateTable(Trimmed(q.value, created))] + ExtraAlteration(q.value, created) + NewIndexes(p, q, AllRenames(prev, next))
            else TableSteps(p, q, AllRenames(prev, next))
  {
    hide Diff, IntoSteps, For, TableSteps, AllRenames, ExtraAlteration, Trimmed, Removals, Drop, Create, Alteration, NewIndexes, Renames;
    var diff, p, q := Diff(prev, next), Of(prev, n), Of(next, n);
    var created := NamesOf(TablesToCreate(prev, next.tables));
    DelayedPieces(prev, next, n);
    StepsFor(DelayedDiff(diff), n);
    DiffPieces(prev, next, n);
    PiecesOf(p, q, AllRenames(prev, next));
    var a, b, d, i, f :=
      Removals(p, q, AllRenames(prev, next)), Drop(p, q), Alteration(p, q), NewIndexes(p, q, AllRenames(prev, next)), Renames(p, q);
    if p.None? && q.Some? && n != MIGRATION_TABLE {
      CreatedPieces(a, b, [CreateTable(Trimmed(q.value, created))], d, ExtraAlteration(q.value, created), i, f);
    } else {
      OtherPieces(a, b, Create(p, q), d, i, f);
    }
  }

  lemma {:induction false} CreatedPieces(a: seq<Step>, b: seq<Step>, c: seq<Step>, d: seq<Step>, e: seq<Step>, i: seq<Step>, f: seq<Step>)
    requires a == [] && b == [] && d == [] && f == []
    ensures a + b + c + (d + e) + i + f == c + e + i
  {
  }

  lemma {:induction false} OtherPieces(a: seq<Step>, b: seq<Step>, c: seq<Step>, d: seq<Step>, i: seq<Step>, f: seq<Step>)
    requires c == []
    ensures a + b + [] + (d + []) + i + f == a + b + c + d + i + f
  {
    assert d + [] == d;
  }

  lemma {:induction false} PiecesOf(p: Option<Table>, q: Option<Table>, alters: seq<Step>)
    ensures TableSteps(p, q, alters) ==
            Removals(p, q, alters) + Drop(p, q) + Create(p, q) + Alteration(p, q) + NewIndexes(p, q, alters) + Renames(p, q)
    ensures p.None? ==> Removals(p, q, alters) == [] && Drop(p, q) == [] && Alteration(p, q) == [] && Renames(p, q) == []
    ensures p.Some? || q.None? || q.value.name == MIGRATION_TABLE ==> Create(p, q) == []
  {
  }

  /** What the delay changes in the lists of a diff, for one table. */
  lemma {:induction false} DelayedPieces(prev: Schema, next: Schema, n: Name)
    requires WellFormed(prev) && WellFormed(next)
    ensures var created := NamesOf(TablesToCreate(prev, next.tables));
            var diff, p, q := Diff(prev, next), Of(prev, n), Of(next, n);
            var isCreated := p.None? && q.Some? && n != MIGRATION_TABLE;
            && DelayedDiff(diff) == diff.(createTables := DelayedDiff(diff).createTables, alterTables := DelayedDiff(diff).alterTables)
            && For(n, Creations(DelayedDiff(diff).createTables)) ==
               (if isCreated then [CreateTable(Trimmed(q.value, created))] else [])
            && For(n, DelayedDiff(diff).alterTables) ==
               For(n, diff.alterTables) + (if isCreated then ExtraAlteration(q.value, created) else [])
  {
    var ts, created := TablesToCreate(prev, next.tables), NamesOf(TablesToCreate(prev, next.tables));
    CreatedTable(prev, next.tables, n);
    TrimmedFor(ts, created, n);
    ExtraFor(ts, created, n);
    hide For, ExtraAlteration, Trimmed, TablesToAlter, IndexesToAlter, IndexesToCreate, IndexesToDrop, TablesToDrop;
    ForConcat(n, TablesToAlter(prev.tables, next), ExtraAlterations(ts, created));
  }

  lemma {:induction false} ExtrasLocal(ts: seq<Table>, created: seq<Name>)
    ensures AllLocal(ExtraAlterations(ts, created))
  {
    if ts != [] {
      ExtrasLocal(ts[1..], created);
    }
  }

  lemma {:induction false} DelayedIsLocal(prev: Schema, next: Schema)
    ensures AllLocal(IntoSteps(DelayedDiff(Diff(prev, next))))
  {
    var ts, created := TablesToCreate(prev, next.tables), NamesOf(TablesToCreate(prev, next.tables));
    DropTablesLocal(prev.tables, next);
    CreationsLocal(TrimAll(ts, created));
    AlterTablesLocal(prev.tables, next);
    ExtrasLocal(ts, created);
    var alters := IndexesToAlter(prev.tables, next);
    AlterIndexesLocal(prev.tables, next);
    CreateIndexesLocal(prev, next.tables, alters);
    DropIndexesLocal(prev.tables, next, alters);
  }

  lemma {:induction false} TableRunsAlike(family: SqlFamily, prev: Schema, next: Schema, s: Slot, n: Name)
    requires !family.Sqlite? && WellFormed(prev) && WellFormed(next)
    ensures RunOnTable(family, s, For(n, IntoSteps(DelayedDiff(Diff(prev, next))))) ==
            RunOnTable(family, s, For(n, IntoSteps(Diff(prev, next))))
  {
    DelayedFor(prev, next, n);
    DiffTableByTable(prev, next, n);
    hide IntoSteps, DelayedDiff, Diff, RunOnTable, For, TableSteps, ExtraAlteration, Trimmed, NewIndexes, WellFormed;
    var p, q := Of(prev, n), Of(next, n);
    if p.None? && q.Some? && n != MIGRATION_TABLE {
      TableOfSchema(next, n);
      CreatedSteps(q.value, AllRenames(prev, next));
      CreatedAlike(family, s, q.value, NamesOf(TablesToCreate(prev, next.tables)), NewIndexes(p, q, AllRenames(prev, next)));
    }
  }

  lemma {:induction false} CreatedSteps(q: Table, alters: seq<Step>)
    requires q.name != MIGRATION_TABLE
    ensures TableSteps(None, Some(q), alters) == [CreateTable(q)] + NewIndexes(None, Some(q), alters)
    ensures Concerns(q.name, NewIndexes(None, Some(q), alters))
  {
    CreationsConcern(q.name, [], q.indices, alters);
  }

  /** Delaying foreign keys changes nothing in what a migration does to any database. */
  lemma {:induction false} DelayedRunsAlike(family: SqlFamily, prev: Schema, next: Schema, db: Db)
    requires !family.Sqlite? && WellFormed(prev) && WellFormed(next)
    ensures Run(family, db, IntoSteps(DelayedDiff(Diff(prev, next)))) == Run(family, db, IntoSteps(Diff(prev, next)))
  {
    var a, b := IntoSteps(DelayedDiff(Diff(prev, next))), IntoSteps(Diff(prev, next));
    DelayedIsLocal(prev, next);
    DiffIsLocal(prev, next);
    RunTableByTable(family, db, a);
    RunTableByTable(family, db, b);
    forall n ensures RunOnTable(family, SlotOf(db, n), For(n, a)) == RunOnTable(family, SlotOf(db, n), For(n, b)) {
      TableRunsAlike(family, prev, next, SlotOf(db, n), n);
    }
    hide IntoSteps, DelayedDiff, Diff, RunOnTable, Run, For;
    var x, y := Run(family, db, a), Run(family, db, b);
    if x.Some? {
      forall n ensures SlotOf(x.value, n) == SlotOf(y.value, n) {
        assert RunOnTable(family, SlotOf(db, n), For(n, a)) == Some(SlotOf(x.value, n));
      }
      SameSlots(x.value, y.value);
    }
  }

  lemma {:induction false} SameSlots(x: Db, y: Db)
    requires forall n :: SlotOf(x, n) == SlotOf(y, n)
    ensures x == y
  {
    forall n ensures n in x <==> n in y {
      assert SlotOf(x, n) == SlotOf(y, n);
    }
    forall n | n in x ensures x[n] == y[n] {
      assert SlotOf(x, n) == SlotOf(y, n);
    }
  }

  // ----- foreign keys and the tables they refer to -----

  ghost predicate Refers(step: Step, n: Name) {
    match step
    case CreateTable(t) => exists c :: c in t.columns && RefersTo(t, c, n)
    case AlterTable(t, changes) =>
      exists change :: change in changes && (change.AddColumn? || change.AlterColumn?) && RefersTo(t, change.column, n)
    case _ => false
  }

  predicate RefersTo(t: Table, c: Column, n: Name) {
    FkOf(t, c.name).Some? && FkOf(t, c.name).value.referencedTable == n
  }

  /** The tables after a step of a diff. */
  function NamesAfter(names: set<Name>, step: Step): set<Name> {
    match step
    case CreateTable(t) => names + {t.name}
    case DropTable(n) => names - {n}
    case _ => names
  }

  function NamesAfterAll(names: set<Name>, steps: seq<Step>): set<Name>
    decreases |steps|
  {
    if steps == [] then names else NamesAfterAll(NamesAfter(names, steps[0]), steps[1..])
  }

  /** Whenever a step brings in a foreign key, the table it refers to exists after the step. */
  ghost predicate LinksExist(names: set<Name>, steps: seq<Step>)
    decreases |steps|
  {
    steps != [] ==>
      && (forall n :: Refers(steps[0], n) ==> n in NamesAfter(names, steps[0]))
      && LinksExist(NamesAfter(names, steps[0]), steps[1..])
  }

  /** The names are those of the tables of the database. */
  lemma {:induction false} NamesFollow(family: SqlFamily, db: Db, step: Step)
    requires Local(step) && Apply(family, db, step).Some?
    ensures Apply(family, db, step).value.Keys == NamesAfter(db.Keys, step)
  {
  }

  /** Once the i-th step has run, every table that a foreign key it brings in refers to is in the database. */
  ghost predicate LinkedAt(family: SqlFamily, db: Db, steps: seq<Step>, i: nat)
    requires i < |steps|
  {
    var db' := Run(family, db, steps[..i + 1]);
    db'.Some? ==> forall n :: Refers(steps[i], n) ==> n in db'.value
  }

  ghost predicate LinkedAlong(family: SqlFamily, db: Db, steps: seq<Step>) {
    forall i :: 0 <= i < |steps| ==> LinkedAt(family, db, steps, i)
  }

  lemma {:induction false} LinkedLater(family: SqlFamily, db: Db, steps: seq<Step>, i: nat)
    requires 0 < i < |steps| && Apply(family, db, steps[0]).Some?
    ensures LinkedAt(family, db, steps, i) <==> LinkedAt(family, Apply(family, db, steps[0]).value, steps[1..], i - 1)
  {
    assert steps[..i + 1][0] == steps[0] && steps[..i + 1][1..] == steps[1..][..i] && steps[1..][i - 1] == steps[i];
  }

  lemma {:induction false} LinkedFirst(family: SqlFamily, db: Db, steps: seq<Step>)
    requires steps != [] && Local(steps[0]) && Apply(family, db, steps[0]).Some?
    ensures LinkedAt(family, db, steps, 0) <==> forall n :: Refers(steps[0], n) ==> n in NamesAfter(db.Keys, steps[0])
  {
    assert steps[..1] == [steps[0]];
    RunOne(family, db, steps[0]);
    NamesFollow(family, db, steps[0]);
    hide Refers, NamesAfter, Apply;
  }

  /** Where links exist by name, they exist in the database as it changes, and conversely if all steps run. */
  lemma {:induction false} LinksFollow(family: SqlFamily, db: Db, steps: seq<Step>)
    requires AllLocal(steps)
    ensures LinksExist(db.Keys, steps) ==> LinkedAlong(family, db, steps)
    ensures Run(family, db, steps).Some? && LinkedAlong(family, db, steps) ==> LinksExist(db.Keys, steps)
    decreases |steps|
  {
    if steps != [] {
      assert steps[0] in steps && forall step :: step in steps[1..] ==> step in steps;
      var db' := Apply(family, db, steps[0]);
      hide Refers, NamesAfter, Apply;
      if db'.None? {
        forall i | 0 <= i < |steps| ensures LinkedAt(family, db, steps, i) {
          assert steps[..i + 1][0] == steps[0];
        }
      } else {
        NamesFollow(family, db, steps[0]);
        LinkedFirst(family, db, steps);
        LinksFollow(family, db'.value, steps[1..]);
        hide LinkedAt, LinksExist;
        LinkedHead(family, db, steps);
        assert LinksExist(db.Keys, steps) <==>
               (forall n :: Refers(steps[0], n) ==> n in NamesAfter(db.Keys, steps[0])) && LinksExist(db'.value.Keys, steps[1..]) by {
          LinksHead(db.Keys, steps);
        }
      }
    }
  }

  lemma {:induction false} LinksHead(names: set<Name>, steps: seq<Step>)
    requires steps != []
    ensures LinksExist(names, steps) <==>
            && (forall n :: Refers(steps[0], n) ==> n in NamesAfter(names, steps[0]))
            && LinksExist(NamesAfter(names, steps[0]), steps[1..])
  {
    hide Refers, NamesAfter;
  }

  lemma {:induction false} LinkedHead(family: SqlFamily, db: Db, steps: seq<Step>)
    requires steps != [] && Apply(family, db, steps[0]).Some?
    ensures LinkedAlong(family, db, steps) <==>
            LinkedAt(family, db, steps, 0) && LinkedAlong(family, Apply(family, db, steps[0]).value, steps[1..])
  {
    var db' := Apply(family, db, steps[0]).value;
    forall i | 0 < i < |steps| ensures LinkedAt(family, db, steps, i) <==> LinkedAt(family, db', steps[1..], i - 1) {
      LinkedLater(family, db, steps, i);
    }
    hide LinkedAt, Apply;
    if LinkedAlong(family, db, steps) {
      forall i | 0 <= i < |steps[1..]| ensures LinkedAt(family, db', steps[1..], i) {
        assert LinkedAt(family, db, steps, i + 1);
      }
    }
    if LinkedAt(family, db, steps, 0) && LinkedAlong(family, db', steps[1..]) {
      forall i | 0 <= i < |steps| ensures LinkedAt(family, db, steps, i) {
        if i > 0 {
          assert LinkedAt(family, db', steps[1..], i - 1);
        }
      }
    }
  }

  lemma {:induction false} LinksConcat(names: set<Name>, xs: seq<Step>, ys: seq<Step>)
    ensures LinksExist(names, xs + ys) <==> LinksExist(names, xs) && LinksExist(NamesAfterAll(names, xs), ys)
    ensures NamesAfterAll(names, xs + ys) == NamesAfterAll(NamesAfterAll(names, xs), ys)
    decreases |xs|
  {
    if xs == [] {
      assert xs + ys == ys;
    } else {
      assert (xs + ys)[0] == xs[0] && (xs + ys)[1..] == xs[1..] + ys;
      LinksConcat(NamesAfter(names, xs[0]), xs[1..], ys);
    }
  }

  ghost predicate Quiet(steps: seq<Step>) {
    forall step :: step in steps ==> step.CreateIndex? || step.DropIndex? || step.AlterIndex?
  }

  lemma {:induction false} QuietLinks(names: set<Name>, steps: seq<Step>)
    requires Quiet(steps)
    ensures LinksExist(names, steps) && NamesAfterAll(names, steps) == names
  {
    if steps != [] {
      assert steps[0] in steps;
      QuietLinks(names, steps[1..]);
    }
  }

  // ----- the condition -----

  /** A column that refers to a table of the migration and is not delayed. */
  predicate Undelayed(t: Table, created: seq<Name>, c: Column) {
    var fk := FkOf(t, c.name);
    fk.Some? && fk.value.referencedTable in created && (InPrimaryKey(t, c.name) || IsRelationTable(t))
  }

  /** Undelayed columns refer to their own table or to one created before it. */
  ghost predicate EarlyEnough(done: set<Name>, ts: seq<Table>, created: seq<Name>)
    decreases |ts|
  {
    ts != [] ==>
      && (forall c :: c in ts[0].columns && Undelayed(ts[0], created, c) ==>
            FkOf(ts[0], c.name).value.referencedTable in done + {ts[0].name})
      && EarlyEnough(done + {ts[0].name}, ts[1..], created)
  }

  /** The tables of the previous schema that stay. */
  function Staying(ts: seq<Table>, next: Schema): (r: set<Name>)
    ensures forall n :: n in r <==> FindTable(ts, n).Some? && (HasTable(next, n) || n == MIGRATION_TABLE)
  {
    if ts == [] then {}
    else
      (if HasTable(next, ts[0].name) || ts[0].name == MIGRATION_TABLE then {ts[0].name} else {}) + Staying(ts[1..], next)
  }

  ghost predicate ReferencesClosed(s: Schema) {
    forall t, c, n :: t in s.tables && c in t.columns && RefersTo(t, c, n) ==> HasTable(s, n)
  }

  lemma {:induction false} WithoutAre(cs: seq<Column>, later: seq<Column>, c: Column)
    ensures c in Without(cs, later) <==> c in cs && c !in later
  {
    if cs != [] {
      WithoutAre(cs[1..], later, c);
    }
  }

  lemma {:induction false} TrimmedRefers(t: Table, created: seq<Name>, n: Name)
    ensures Refers(CreateTable(Trimmed(t, created)), n) <==>
            exists c :: c in t.columns && !Delayed(t, created, c) && RefersTo(t, c, n)
  {
    var small, later := Trimmed(t, created), DelayedColumns(t, created, t.columns);
    if c :| c in small.columns && RefersTo(small, c, n) {
      WithoutAre(t.columns, later, c);
      DelayedAre(t, created, t.columns, c);
      assert c in t.columns && !Delayed(t, created, c) && RefersTo(t, c, n);
    }
    if c :| c in t.columns && !Delayed(t, created, c) && RefersTo(t, c, n) {
      WithoutAre(t.columns, later, c);
      DelayedAre(t, created, t.columns, c);
      assert c in small.columns && RefersTo(small, c, n);
    }
  }

  lemma {:induction false} CreationRefersEarly(t: Table, next: Schema, staying: set<Name>, done: set<Name>, created: seq<Name>)
    requires ReferencesClosed(next) && t in next.tables && t.name in created
    requires forall n :: HasTable(next, n) ==> n in staying || n in created
    requires forall n :: n in created ==> n !in staying
    ensures (forall n :: Refers(CreateTable(Trimmed(t, created)), n) ==> n in staying + done + {t.name}) <==>
            forall c :: c in t.columns && Undelayed(t, created, c) ==> FkOf(t, c.name).value.referencedTable in done + {t.name}
  {
    forall n
      ensures Refers(CreateTable(Trimmed(t, created)), n) <==>
              exists c :: c in t.columns && !Delayed(t, created, c) && RefersTo(t, c, n)
    {
      TrimmedRefers(t, created, n);
    }
    if forall n :: Refers(CreateTable(Trimmed(t, created)), n) ==> n in staying + done + {t.name} {
      forall c | c in t.columns && Undelayed(t, created, c)
        ensures FkOf(t, c.name).value.referencedTable in done + {t.name}
      {
        var n := FkOf(t, c.name).value.referencedTable;
        assert !Delayed(t, created, c) && RefersTo(t, c, n);
        assert Refers(CreateTable(Trimmed(t, created)), n);
      }
    }
    if forall c :: c in t.columns && Undelayed(t, created, c) ==> FkOf(t, c.name).value.referencedTable in done + {t.name} {
      forall n | Refers(CreateTable(Trimmed(t, created)), n) ensures n in staying + done + {t.name} {
        var c :| c in t.columns && !Delayed(t, created, c) && RefersTo(t, c, n);
        assert HasTable(next, n);
        if n in created {
          assert Undelayed(t, created, c);
        }
      }
    }
  }

  lemma {:induction false} CreationsLinked(ts: seq<Table>, next: Schema, staying: set<Name>, done: set<Name>, created: seq<Name>)
    requires ReferencesClosed(next) && forall t :: t in ts ==> t in next.tables && t.name in created
    requires forall n :: HasTable(next, n) ==> n in staying || n in created
    requires forall n :: n in created ==> n !in staying
    ensures LinksExist(staying + done, Creations(TrimAll(ts, created))) <==> EarlyEnough(done, ts, created)
    ensures NamesAfterAll(staying + done, Creations(TrimAll(ts, created))) ==
            staying + done + set n | n in NamesOf(ts)
    decreases |ts|
  {
    if ts == [] {
    } else {
      var small, rest := Trimmed(ts[0], created), TrimAll(ts[1..], created);
      assert ([small] + rest)[1..] == rest;
      var steps := Creations(TrimAll(ts, created));
      assert steps == [CreateTable(small)] + Creations(rest) && steps[1..] == Creations(rest);
      assert ts[0] in ts && forall t :: t in ts[1..] ==> t in ts;
      CreationRefersEarly(ts[0], next, staying, done, created);
      assert staying + done + {ts[0].name} == staying + (done + {ts[0].name});
      CreationsLinked(ts[1..], next, staying, done + {ts[0].name}, created);
      assert NamesOf(ts) == [ts[0].name] + NamesOf(ts[1..]);
    }
  }

  ghost predicate AltersWithin(names: set<Name>, steps: seq<Step>) {
    forall step :: step in steps ==> step.AlterTable? && forall n :: Refers(step, n) ==> n in names
  }

  lemma {:induction false} AlterLinks(names: set<Name>, steps: seq<Step>)
    requires AltersWithin(names, steps)
    ensures LinksExist(names, steps) && NamesAfterAll(names, steps) == names
  {
    if steps != [] {
      assert steps[0] in steps;
      AlterLinks(names, steps[1..]);
    }
  }

  /** Added and rebuilt columns are columns of the next description. */
  lemma {:induction false} ChangedAreNext(p: Table, q: Table, change: TableChange)
    requires change in Changes(p, q) && (change.AddColumn? || change.AlterColumn?)
    ensures change.column in q.columns
  {
    DropForeignKeysAdd(p.foreignKeys, q.foreignKeys);
    DropsAdd(p.columns, q.columns);
    AddsAre(p.columns, q.columns);
    AltersAre(p, q, q.columns);
  }

  lemma {:induction false} DropForeignKeysAdd(fs: seq<ForeignKey>, gs: seq<ForeignKey>)
    ensures forall c :: c in ForeignKeysToDrop(fs, gs) ==> c.DropForeignKey?
  {
    if fs != [] {
      DropForeignKeysAdd(fs[1..], gs);
    }
  }

  lemma {:induction false} DropsAdd(ps: seq<Column>, qs: seq<Column>)
    ensures forall c :: c in ColumnsToDrop(ps, qs) ==> c.DropColumn?
  {
    if ps != [] {
      DropsAdd(ps[1..], qs);
    }
  }

  lemma {:induction false} AddsAre(ps: seq<Column>, qs: seq<Column>)
    ensures forall c :: c in ColumnsToAdd(ps, qs) ==> c.AddColumn? && c.column in qs
  {
    if qs != [] {
      AddsAre(ps, qs[1..]);
    }
  }

  lemma {:induction false} AltersAre(p: Table, q: Table, cs: seq<Column>)
    ensures forall c :: c in ColumnsToAlter(p, q, cs) ==> c.AlterColumn? && c.column in cs
  {
    if cs != [] {
      AltersAre(p, q, cs[1..]);
    }
  }

  lemma {:induction false} AlterTablesWithin(ts: seq<Table>, next: Schema, names: set<Name>)
    requires ReferencesClosed(next) && forall n :: HasTable(next, n) ==> n in names
    ensures AltersWithin(names, TablesToAlter(ts, next))
  {
    if ts != [] {
      AlterTablesWithin(ts[1..], next, names);
      var q := Of(next, ts[0].name);
      if q.Some? {
        forall n | Refers(AlterTable(q.value, Changes(ts[0], q.value)), n) ensures n in names {
          var change :| change in Changes(ts[0], q.value) && (change.AddColumn? || change.AlterColumn?)
                        && RefersTo(q.value, change.column, n);
          ChangedAreNext(ts[0], q.value, change);
        }
      }
      hide Changes, Refers;
    }
  }

  lemma {:induction false} AdditionsAre(cs: seq<Column>)
    ensures forall c :: c in Additions(cs) ==> c.AddColumn? && c.column in cs
  {
    if cs != [] {
      AdditionsAre(cs[1..]);
    }
  }

  lemma {:induction false} ExtrasWithin(ts: seq<Table>, next: Schema, created: seq<Name>, names: set<Name>)
    requires ReferencesClosed(next) && forall n :: HasTable(next, n) ==> n in names
    requires forall t :: t in ts ==> t in next.tables
    ensures AltersWithin(names, ExtraAlterations(ts, created))
  {
    if ts != [] {
      assert ts[0] in ts && forall t :: t in ts[1..] ==> t in ts;
      ExtrasWithin(ts[1..], next, created, names);
      var t, later := ts[0], DelayedColumns(ts[0], created, ts[0].columns);
      AdditionsAre(later);
      forall n | Refers(AlterTable(Trimmed(t, created), Additions(later)), n) ensures n in names {
        var change :| change in Additions(later) && RefersTo(Trimmed(t, created), change.column, n);
        DelayedAre(t, created, t.columns, change.column);
        assert RefersTo(t, change.column, n);
      }
      hide Refers, Trimmed, DelayedColumns, Additions;
    }
  }

  lemma {:induction false} DropTablesNames(ts: seq<Table>, next: Schema, names: set<Name>)
    ensures LinksExist(names, TablesToDrop(ts, next))
    ensures NamesAfterAll(names, TablesToDrop(ts, next)) ==
            set n | n in names && !(FindTable(ts, n).Some? && !HasTable(next, n) && n != MIGRATION_TABLE)
    decreases |ts|
  {
    if ts != [] {
      if HasTable(next, ts[0].name) || ts[0].name == MIGRATION_TABLE {
        DropTablesNames(ts[1..], next, names);
      } else {
        var rest := TablesToDrop(ts[1..], next);
        assert ([DropTable(ts[0].name)] + rest)[1..] == rest;
        DropTablesNames(ts[1..], next, names - {ts[0].name});
      }
    }
  }

  lemma {:induction false} IndexStepsQuiet(prev: Schema, next: Schema)
    ensures var diff := Diff(prev, next);
            Quiet(diff.dropIndexes) && Quiet(diff.createIndexes) && Quiet(diff.alterIndexes)
  {
    var alters := IndexesToAlter(prev.tables, next);
    DropIndexesQuiet(prev.tables, next, alters);
    CreateIndexesQuiet(prev, next.tables, alters);
    AlterIndexesQuiet(prev.tables, next);
  }

  lemma {:induction false} DropIndexesQuiet(ts: seq<Table>, next: Schema, alters: seq<Step>)
    ensures Quiet(IndexesToDrop(ts, next, alters))
  {
    if ts != [] {
      RemovalsQuiet(ts[0], ts[0].indices, IndicesOf(Of(next, ts[0].name)), alters);
      DropIndexesQuiet(ts[1..], next, alters);
    }
  }

  lemma {:induction false} RemovalsQuiet(t: Table, xs: seq<Index>, ys: seq<Index>, alters: seq<Step>)
    ensures Quiet(IndexRemovals(t, xs, ys, alters))
  {
    if xs != [] {
      RemovalsQuiet(t, xs[1..], ys, alters);
    }
  }

  lemma {:induction false} CreateIndexesQuiet(prev: Schema, ts: seq<Table>, alters: seq<Step>)
    ensures Quiet(IndexesToCreate(prev, ts, alters))
  {
    if ts != [] {
      CreationsQuiet(ts[0].name, IndicesOf(Of(prev, ts[0].name)), ts[0].indices, alters);
      CreateIndexesQuiet(prev, ts[1..], alters);
    }
  }

  lemma {:induction false} CreationsQuiet(n: Name, xs: seq<Index>, ys: seq<Index>, alters: seq<Step>)
    ensures Quiet(IndexCreations(n, xs, ys, alters))
  {
    if ys != [] {
      CreationsQuiet(n, xs, ys[1..], alters);
    }
  }

  lemma {:induction false} AlterIndexesQuiet(ts: seq<Table>, next: Schema)
    ensures Quiet(IndexesToAlter(ts, next))
  {
    if ts != [] {
      RenamesQuiet(ts[0].name, ts[0].indices, IndicesOf(Of(next, ts[0].name)));
      AlterIndexesQuiet(ts[1..], next);
    }
  }

  lemma {:induction false} RenamesQuiet(n: Name, xs: seq<Index>, ys: seq<Index>)
    ensures Quiet(IndexRenames(n, xs, ys))
  {
    if xs != [] {
      RenamesQuiet(n, xs[1..], ys);
    }
  }

  lemma {:induction false} CreatedAreNext(prev: Schema, ts: seq<Table>)
    ensures forall t :: t in TablesToCreate(prev, ts) ==> t in ts
  {
    if ts != [] {
      CreatedAreNext(prev, ts[1..]);
    }
  }

  /** The names a table can have while tables are created, and that they are enough in the end. */
  lemma {:induction false} StayingOrCreated(prev: Schema, next: Schema)
    requires TablesDistinct(next.tables) && (HasTable(next, MIGRATION_TABLE) ==> HasTable(prev, MIGRATION_TABLE))
    ensures var ts, staying := TablesToCreate(prev, next.tables), Staying(prev.tables, next);
            var created := NamesOf(ts);
            && (forall t :: t in ts ==> t in next.tables && t.name in created)
            && (forall n :: HasTable(next, n) ==> n in staying || n in created)
            && (forall n :: n in created ==> n !in staying)
  {
    var ts, staying := TablesToCreate(prev, next.tables), Staying(prev.tables, next);
    CreatedAreNext(prev, next.tables);
    forall n
      ensures HasTable(next, n) ==> n in staying || n in NamesOf(ts)
      ensures n in NamesOf(ts) ==> n !in staying
    {
      CreatedTable(prev, next.tables, n);
    }
    forall t | t in ts ensures t.name in NamesOf(ts) {
      assert FindTable(ts, t.name).Some?;
    }
  }

  /**
    In the delayed steps every foreign key appears only when the table it refers
    to exists, if and only if the columns that are not delayed, those of primary
    keys and of relation tables, refer to their own or to earlier tables.
   */
  lemma {:induction false} DelayedLinksExistIff(prev: Schema, next: Schema, db: Db)
    requires TablesDistinct(next.tables) && ReferencesClosed(next)
    requires HasTable(next, MIGRATION_TABLE) ==> HasTable(prev, MIGRATION_TABLE)
    requires forall n :: n in db <==> HasTable(prev, n)
    ensures var ts := TablesToCreate(prev, next.tables);
            LinksExist(db.Keys, IntoSteps(DelayedDiff(Diff(prev, next)))) <==> EarlyEnough({}, ts, NamesOf(ts))
  {
    hide LinksExist, NamesAfterAll, EarlyEnough, Creations, TrimAll, ExtraAlterations, ReferencesClosed, TablesDistinct;
    hide TablesToDrop, TablesToCreate, TablesToAlter, IndexesToAlter, IndexesToCreate, IndexesToDrop, Quiet, AltersWithin;
    var diff, ts, staying := Diff(prev, next), TablesToCreate(prev, next.tables), Staying(prev.tables, next);
    var created := NamesOf(ts);
    StayingOrCreated(prev, next);
    IndexStepsQuiet(prev, next);
    var a, b, c, d, e, f := diff.dropIndexes, diff.dropTables, Creations(TrimAll(ts, created)),
                            diff.alterTables + ExtraAlterations(ts, created), diff.createIndexes, diff.alterIndexes;
    QuietLinks(db.Keys, a);
    DropsLeaveStaying(prev, next, db);
    CreationsLinked(ts, next, staying, {}, created);
    assert staying + {} == staying;
    var all := NamesAfterAll(staying, c);
    AltersLinked(prev, next, all);
    QuietLinks(all, e);
    QuietLinks(all, f);
    SixLinks(db.Keys, a, b, c, d, e, f);
  }

  /**
    Said of the database while the delayed steps run: under that condition every table
    a foreign key refers to is there when the step that brings the key in has run; and
    if all steps run, only under that condition.
   */
  lemma {:induction false} DelayedLinksAreInDatabase(family: SqlFamily, prev: Schema, next: Schema, db: Db)
    requires TablesDistinct(next.tables) && ReferencesClosed(next)
    requires HasTable(next, MIGRATION_TABLE) ==> HasTable(prev, MIGRATION_TABLE)
    requires forall n :: n in db <==> HasTable(prev, n)
    ensures var steps, ts := IntoSteps(DelayedDiff(Diff(prev, next))), TablesToCreate(prev, next.tables);
            && (EarlyEnough({}, ts, NamesOf(ts)) ==> LinkedAlong(family, db, steps))
            && (Run(family, db, steps).Some? && LinkedAlong(family, db, steps) ==> EarlyEnough({}, ts, NamesOf(ts)))
  {
    DelayedLinksExistIff(prev, next, db);
    DelayedIsLocal(prev, next);
    hide IntoSteps, DelayedDiff, Diff, EarlyEnough, TablesToCreate, LinksExist, LinkedAlong, Run;
    LinksFollow(family, db, IntoSteps(DelayedDiff(Diff(prev, next))));
  }

  lemma {:induction false} DropsLeaveStaying(prev: Schema, next: Schema, db: Db)
    requires forall n :: n in db <==> HasTable(prev, n)
    ensures LinksExist(db.Keys, TablesToDrop(prev.tables, next))
    ensures NamesAfterAll(db.Keys, TablesToDrop(prev.tables, next)) == Staying(prev.tables, next)
  {
    DropTablesNames(prev.tables, next, db.Keys);
  }

  lemma {:induction false} AltersLinked(prev: Schema, next: Schema, names: set<Name>)
    requires ReferencesClosed(next) && forall n :: HasTable(next, n) ==> n in names
    ensures var ts := TablesToCreate(prev, next.tables);
            var steps := TablesToAlter(prev.tables, next) + ExtraAlterations(ts, NamesOf(ts));
            LinksExist(names, steps) && NamesAfterAll(names, steps) == names
  {
    var ts := TablesToCreate(prev, next.tables);
    CreatedAreNext(prev, next.tables);
    AlterTablesWithin(prev.tables, next, names);
    ExtrasWithin(ts, next, NamesOf(ts), names);
    AlterLinks(names, TablesToAlter(prev.tables, next) + ExtraAlterations(ts, NamesOf(ts)));
  }

  lemma {:induction false} SixLinks(
    names: set<Name>, a: seq<Step>, b: seq<Step>, c: seq<Step>, d: seq<Step>, e: seq<Step>, f: seq<Step>)
    ensures LinksExist(names, a + b + c + d + e + f) <==>
            var afterA := NamesAfterAll(names, a);
            var afterB := NamesAfterAll(afterA, b);
            var afterC := NamesAfterAll(afterB, c);
            var afterD := NamesAfterAll(afterC, d);
            && LinksExist(names, a) && LinksExist(afterA, b) && LinksExist(afterB, c) && LinksExist(afterC, d)
            && LinksExist(afterD, e) && LinksExist(NamesAfterAll(afterD, e), f)
  {
    LinksConcat(names, a, b);
    LinksConcat(names, a + b, c);
    LinksConcat(names, a + b + c, d);
    LinksConcat(names, a + b + c + d, e);
    LinksConcat(names, a + b + c + d + e, f);
  }
}
