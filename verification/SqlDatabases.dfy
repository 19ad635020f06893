/**
  What migration steps do to a database.

  A database is a map from table names to columns, indexes, a primary key and
  rows.  A step is rendered to one SQL statement; its meaning here is the effect
  of that statement, or `None` when the database refuses it.
 */
module SqlDatabases {
  import opened Wrappers
  import opened Names
  import opened SqlSchemas

  datatype SqlFamily = Postgres | Mysql | Sqlite

  datatype TableChange =
    | AddColumn(column: Column)
    | DropColumn(name: Name)
    | AlterColumn(name: Name, column: Column)
    | DropForeignKey(constraintName: Name)

  /**
    `CopyRows` and `Pragma` are the two kinds of raw SQL the inferrer emits.
    `Rebuild` is no statement: it stands for the statements that rebuild a table
    on SQLite, and `SqliteFix` says which they are.
   */
  datatype Step =
    | CreateTable(table: Table)
    | DropTable(name: Name)
    | DropTables(names: seq<Name>)
    | AlterTable(table: Table, changes: seq<TableChange>)
    | RenameTable(name: Name, newName: Name)
    | CopyRows(source: Name, target: Name, columns: seq<Name>)
    | Pragma
    | CreateIndex(onTable: Name, index: Index)
    | DropIndex(onTable: Name, indexName: Name)
    | AlterIndex(onTable: Name, indexName: Name, indexNewName: Name)
    | Rebuild(current: Table, next: Table)

  datatype Value = Null | Text(text: string)

  type Row = map<Name, Value>

  /** `default` is what a row holds when it is given no value. */
  datatype DbColumn = DbColumn(family: ColumnTypeFamily, arity: ColumnArity, fk: Option<ForeignKey>, default: Value)

  datatype DbIndex = DbIndex(columns: seq<Name>, tpe: IndexType)

  datatype DbTable = DbTable(
    columns: map<Name, DbColumn>,
    indices: map<Name, DbIndex>,
    primaryKey: Option<seq<Name>>,
    rows: seq<Row>)

  type Db = map<Name, DbTable>

  // ----- columns -----

  /**
    How a column is rendered: it is declared NOT NULL, and its default written,
    only where the column is required, and NOT NULL never on a foreign key.
   */
  function Rendered(t: Table, c: Column): DbColumn {
    var fk := FkOf(t, c.name);
    DbColumn(
      c.family,
      if c.arity.Required? && fk.None? then Required else Nullable,
      fk,
      if c.arity.Required? && c.default.Some? then Text(c.default.value) else Null)
  }

  function RenderedColumns(t: Table, cs: seq<Column>): (r: map<Name, DbColumn>)
    ensures forall n :: n in r <==> FindColumn(cs, n).Some?
    ensures forall n :: n in r ==> r[n] == Rendered(t, FindColumn(cs, n).value)
  {
    if cs == [] then map[] else RenderedColumns(t, cs[1..])[cs[0].name := Rendered(t, cs[0])]
  }

  function AddTo(d: DbTable, n: Name, c: DbColumn): DbTable {
    d.(columns := d.columns[n := c], rows := seq(|d.rows|, i requires 0 <= i < |d.rows| => d.rows[i][n := c.default]))
  }

  /** Dropping a column drops the indexes and the primary key that contain it. */
  function DropFrom(d: DbTable, n: Name): DbTable {
    DbTable(
      d.columns - {n},
      map x | x in d.indices && n !in d.indices[x].columns :: d.indices[x],
      if d.primaryKey.Some? && n in d.primaryKey.value then None else d.primaryKey,
      seq(|d.rows|, i requires 0 <= i < |d.rows| => d.rows[i] - {n}))
  }

  function Unlink(c: DbColumn, constraint: Name): DbColumn {
    if c.fk.Some? && c.fk.value.constraintName == Some(constraint) then c.(fk := None) else c
  }

  /** MySQL keeps a column for as long as it has a foreign key. */
  predicate Droppable(family: SqlFamily, d: DbTable, n: Name) {
    n in d.columns && (family.Mysql? ==> d.columns[n].fk.None?)
  }

  function ApplyChange(family: SqlFamily, t: Table, d: DbTable, change: TableChange): Option<DbTable> {
    match change
    case AddColumn(c) =>
      if c.name in d.columns then None else Some(AddTo(d, c.name, Rendered(t, c)))
    case DropColumn(n) =>
      if Droppable(family, d, n) then Some(DropFrom(d, n)) else None
    case AlterColumn(n, c) =>
      if Droppable(family, d, n) && (c.name == n || c.name !in d.columns)
      then Some(AddTo(DropFrom(d, n), c.name, Rendered(t, c))) else None
    case DropForeignKey(x) =>
      Some(if family.Mysql? then d.(columns := map n | n in d.columns :: Unlink(d.columns[n], x)) else d)
  }

  function ApplyChanges(family: SqlFamily, t: Table, d: DbTable, changes: seq<TableChange>): Option<DbTable>
    decreases |changes|
  {
    if changes == [] then Some(d)
    else
      var d' :- ApplyChange(family, t, d, changes[0]);
      ApplyChanges(family, t, d', changes[1..])
  }

  /**
    Whether the family has a statement for the changes.  Dropping a foreign key
    is rendered for MySQL alone, and SQLite only adds one nullable column at a time.
   */
  predicate Renderable(family: SqlFamily, changes: seq<TableChange>) {
    match family
    case Postgres => exists change :: change in changes && !change.DropForeignKey?
    case Mysql => changes != []
    case Sqlite => |changes| == 1 && changes[0].AddColumn? && !changes[0].column.arity.Required?
  }

  // ----- steps that concern one table -----

  datatype Slot = Absent | Present(table: DbTable)

  predicate Local(step: Step) {
    !step.DropTables? && !step.RenameTable? && !step.CopyRows? && !step.Pragma?
  }

  function Target(step: Step): Name
    requires Local(step)
  {
    match step
    case CreateTable(t) => t.name
    case DropTable(n) => n
    case AlterTable(t, _) => t.name
    case CreateIndex(n, _) => n
    case DropIndex(n, _) => n
    case AlterIndex(n, _, _) => n
    case Rebuild(_, q) => q.name
  }

  function Renamed(indices: map<Name, DbIndex>, x: Name, y: Name): map<Name, DbIndex>
    requires x in indices
  {
    (indices - {x})[y := indices[x]]
  }

  /** The names of the columns of both tables, in the order of the first. */
  function Common(q: Table, cs: seq<Column>): (r: seq<Name>)
    ensures forall n :: n in r <==> FindColumn(cs, n).Some? && FindColumn(q.columns, n).Some?
  {
    if cs == [] then []
    else if FindColumn(q.columns, cs[0].name).Some? then [cs[0].name] + Common(q, cs[1..])
    else Common(q, cs[1..])
  }

  function RenderedIndices(xs: seq<Index>): (r: map<Name, DbIndex>)
    ensures forall n :: n in r <==> FindIndex(xs, n).Some?
    ensures forall n :: n in r ==> r[n] == DbIndex(FindIndex(xs, n).value.columns, FindIndex(xs, n).value.tpe)
  {
    if xs == [] then map[] else RenderedIndices(xs[1..])[xs[0].name := DbIndex(xs[0].columns, xs[0].tpe)]
  }

  /** The row inserted into a table when only some columns are given. */
  function Inserted(into: map<Name, DbColumn>, columns: seq<Name>, row: Row): Row {
    map n | n in into :: if n in columns && n in row then row[n] else into[n].default
  }

  function InsertedRows(into: map<Name, DbColumn>, columns: seq<Name>, rows: seq<Row>): seq<Row> {
    seq(|rows|, i requires 0 <= i < |rows| => Inserted(into, columns, rows[i]))
  }

  /** A table rebuilt to a description, with the cells of the given columns copied. */
  function Rebuilt(d: DbTable, q: Table, columns: seq<Name>): DbTable {
    var into := RenderedColumns(q, q.columns);
    DbTable(into, RenderedIndices(q.indices), q.primaryKey, InsertedRows(into, columns, d.rows))
  }

  /** What a step does to the table it concerns. */
  function ApplyToTable(family: SqlFamily, s: Slot, step: Step): Option<Slot>
    requires Local(step)
  {
    match step
    case CreateTable(t) =>
      if s.Absent? && ColumnsDistinct(t.columns) && KeyColumnsPresent(t)
      then Some(Present(DbTable(RenderedColumns(t, t.columns), map[], t.primaryKey, []))) else None
    case DropTable(n) =>
      if s.Present? then Some(Absent) else None
    case AlterTable(t, changes) =>
      if s.Present? && Renderable(family, changes) then
        var d :- ApplyChanges(family, t, s.table, changes);
        Some(Present(d))
      else None
    case CreateIndex(n, x) =>
      if s.Present? && x.name !in s.table.indices && (forall c :: c in x.columns ==> c in s.table.columns)
      then Some(Present(s.table.(indices := s.table.indices[x.name := DbIndex(x.columns, x.tpe)]))) else None
    case DropIndex(n, x) =>
      if s.Present? && x in s.table.indices
      then Some(Present(s.table.(indices := s.table.indices - {x}))) else None
    case AlterIndex(n, x, y) =>
      if s.Present? && !family.Sqlite? && x in s.table.indices && y !in s.table.indices
      then Some(Present(s.table.(indices := Renamed(s.table.indices, x, y)))) else None
    case Rebuild(p, q) =>
      var columns := Common(q, p.columns);
      if s.Present? && columns != [] && (forall c :: c in columns ==> c in s.table.columns)
      then Some(Present(Rebuilt(s.table, q, columns))) else None
  }

  function RunOnTable(family: SqlFamily, s: Slot, steps: seq<Step>): Option<Slot>
    requires forall step :: step in steps ==> Local(step)
    decreases |steps|
  {
    if steps == [] then Some(s)
    else
      var s' :- ApplyToTable(family, s, steps[0]);
      RunOnTable(family, s', steps[1..])
  }

  // ----- steps on a database -----

  function SlotOf(db: Db, n: Name): Slot {
    if n in db then Present(db[n]) else Absent
  }

  function Put(db: Db, n: Name, s: Slot): Db {
    if s.Present? then db[n := s.table] else db - {n}
  }

  function Apply(family: SqlFamily, db: Db, step: Step): Option<Db> {
    match step
    case DropTables(names) =>
      if names != [] && (forall n :: n in names ==> n in db)
      then Some(map n | n in db && n !in names :: db[n]) else None
    case RenameTable(n, m) =>
      if n in db && m !in db then Some((db - {n})[m := db[n]]) else None
    case CopyRows(n, m, columns) =>
      if n in db && m in db && columns != [] && (forall c :: c in columns ==> c in db[n].columns && c in db[m].columns)
      then Some(db[m := db[m].(rows := db[m].rows + InsertedRows(db[m].columns, columns, db[n].rows))]) else None
    case Pragma =>
      Some(db)
    case _ =>
      var s :- ApplyToTable(family, SlotOf(db, Target(step)), step);
      Some(Put(db, Target(step), s))
  }

  function Run(family: SqlFamily, db: Db, steps: seq<Step>): Option<Db>
    decreases |steps|
  {
    if steps == [] then Some(db)
    else
      var db' :- Apply(family, db, steps[0]);
      Run(family, db', steps[1..])
  }

  lemma {:induction false} RunNext(family: SqlFamily, db: Db, step: Step, steps: seq<Step>)
    ensures Run(family, db, [step] + steps) ==
            var db' := Apply(family, db, step);
            if db'.Some? then Run(family, db'.value, steps) else None
  {
    assert ([step] + steps)[1..] == steps;
  }

  lemma {:induction false} RunOne(family: SqlFamily, db: Db, step: Step)
    ensures Run(family, db, [step]) == Apply(family, db, step)
  {
    assert [step][1..] == [];
  }

  lemma {:induction false} RunConcat(family: SqlFamily, db: Db, xs: seq<Step>, ys: seq<Step>)
    ensures Run(family, db, xs + ys) ==
            if Run(family, db, xs).Some? then Run(family, Run(family, db, xs).value, ys) else None
    decreases |xs|
  {
    if xs == [] {
      assert xs + ys == ys;
    } else {
      assert (xs + ys)[0] == xs[0] && (xs + ys)[1..] == xs[1..] + ys;
      var db' := Apply(family, db, xs[0]);
      if db'.Some? {
        RunConcat(family, db'.value, xs[1..], ys);
      }
    }
  }

  lemma {:induction false} RunNone(family: SqlFamily, s: Slot)
    ensures RunOnTable(family, s, []) == Some(s)
  {
  }

  lemma {:induction false} RunFirst(family: SqlFamily, s: Slot, step: Step, steps: seq<Step>)
    requires Local(step) && forall step :: step in steps ==> Local(step)
    ensures RunOnTable(family, s, [step] + steps) ==
            var s' := ApplyToTable(family, s, step);
            if s'.Some? then RunOnTable(family, s'.value, steps) else None
  {
    assert ([step] + steps)[1..] == steps;
  }

  lemma {:induction false} RunOnTableConcat(family: SqlFamily, s: Slot, xs: seq<Step>, ys: seq<Step>)
    requires forall step :: step in xs ==> Local(step)
    requires forall step :: step in ys ==> Local(step)
    ensures RunOnTable(family, s, xs + ys) ==
            if RunOnTable(family, s, xs).Some? then RunOnTable(family, RunOnTable(family, s, xs).value, ys) else None
    decreases |xs|
  {
    if xs == [] {
      assert xs + ys == ys;
    } else {
      assert (xs + ys)[0] == xs[0] && (xs + ys)[1..] == xs[1..] + ys;
      var s' := ApplyToTable(family, s, xs[0]);
      if s'.Some? {
        RunOnTableConcat(family, s'.value, xs[1..], ys);
      }
    }
  }

  lemma {:induction false} ChangesConcat(family: SqlFamily, t: Table, d: DbTable, xs: seq<TableChange>, ys: seq<TableChange>)
    ensures ApplyChanges(family, t, d, xs + ys) ==
            if ApplyChanges(family, t, d, xs).Some? then ApplyChanges(family, t, ApplyChanges(family, t, d, xs).value, ys)
            else None
    decreases |xs|
  {
    if xs == [] {
      assert xs + ys == ys;
    } else {
      assert (xs + ys)[0] == xs[0] && (xs + ys)[1..] == xs[1..] + ys;
      var d' := ApplyChange(family, t, d, xs[0]);
      if d'.Some? {
        ChangesConcat(family, t, d'.value, xs[1..], ys);
      }
    }
  }

  // ----- a run, table by table -----

  /** The steps that concern one table. */
  function For(n: Name, steps: seq<Step>): (r: seq<Step>)
    ensures forall step :: step in r ==> step in steps && Local(step) && Target(step) == n
  {
    if steps == [] then []
    else if Local(steps[0]) && Target(steps[0]) == n then [steps[0]] + For(n, steps[1..])
    else For(n, steps[1..])
  }

  lemma {:induction false} ForConcat(n: Name, xs: seq<Step>, ys: seq<Step>)
    ensures For(n, xs + ys) == For(n, xs) + For(n, ys)
  {
    if xs == [] {
      assert xs + ys == ys;
    } else {
      assert (xs + ys)[0] == xs[0] && (xs + ys)[1..] == xs[1..] + ys;
      ForConcat(n, xs[1..], ys);
    }
  }

  /**
    A run of local steps is, for every table, the run of the steps that concern
    that table: it succeeds exactly when they all do, and leaves every table as
    its own run leaves it.
   */
  lemma {:induction false} RunTableByTable(family: SqlFamily, db: Db, steps: seq<Step>)
    requires forall step :: step in steps ==> Local(step)
    ensures Run(family, db, steps).Some? <==> forall n :: RunOnTable(family, SlotOf(db, n), For(n, steps)).Some?
    ensures Run(family, db, steps).Some? ==>
              forall n :: RunOnTable(family, SlotOf(db, n), For(n, steps)) == Some(SlotOf(Run(family, db, steps).value, n))
    decreases |steps|
  {
    if steps != [] {
      var step, rest, m := steps[0], steps[1..], Target(steps[0]);
      assert For(m, steps) == [step] + For(m, rest);
      var s := ApplyToTable(family, SlotOf(db, m), step);
      assert s.None? ==> RunOnTable(family, SlotOf(db, m), For(m, steps)).None?;
      if s.Some? {
        var db' := Put(db, m, s.value);
        RunTableByTable(family, db', rest);
        forall n
          ensures RunOnTable(family, SlotOf(db, n), For(n, steps)) == RunOnTable(family, SlotOf(db', n), For(n, rest))
        {
          assert SlotOf(db', n) == if n == m then s.value else SlotOf(db, n);
          assert For(n, steps) == if n == m then [step] + For(n, rest) else For(n, rest);
          assert ([step] + For(n, rest))[1..] == For(n, rest);
        }
      }
    }
  }
}
