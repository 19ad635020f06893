/**
  The changes of one ALTER TABLE, column by column: when every change concerns
  a column of its own, their order does not matter.
 */
module SqlChanges {
  import opened Wrappers
  import opened Names
  import opened SqlSchemas
  import opened SqlDatabases

  function ChangedColumn(change: TableChange): Name
    requires !change.DropForeignKey?
  {
    match change
    case AddColumn(c) => c.name
    case DropColumn(n) => n
    case AlterColumn(n, _) => n
  }

  function FindChange(changes: seq<TableChange>, n: Name): (r: Option<TableChange>)
    ensures r.Some? ==> r.value in changes && !r.value.DropForeignKey? && ChangedColumn(r.value) == n
    ensures r.None? ==> forall c :: c in changes && !c.DropForeignKey? ==> ChangedColumn(c) != n
  {
    if changes == [] then None
    else if !changes[0].DropForeignKey? && ChangedColumn(changes[0]) == n then Some(changes[0])
    else FindChange(changes[1..], n)
  }

  /** No two changes concern the same column. */
  ghost predicate ColumnWise(changes: seq<TableChange>) {
    changes != [] ==>
      && !changes[0].DropForeignKey?
      && (changes[0].AlterColumn? ==> changes[0].column.name == changes[0].name)
      && FindChange(changes[1..], ChangedColumn(changes[0])).None?
      && ColumnWise(changes[1..])
  }

  predicate Drops(change: Option<TableChange>) {
    change.Some? && (change.value.DropColumn? || change.value.AlterColumn?)
  }

  predicate Adds(change: Option<TableChange>) {
    change.Some? && (change.value.AddColumn? || change.value.AlterColumn?)
  }

  /** Whether a change drops, or drops and adds again, one of the columns. */
  ghost predicate Hit(changes: seq<TableChange>, columns: seq<Name>) {
    exists n :: n in columns && Drops(FindChange(changes, n))
  }

  predicate Applicable(family: SqlFamily, d: DbTable, change: TableChange)
    requires !change.DropForeignKey?
  {
    if change.AddColumn? then change.column.name !in d.columns else Droppable(family, d, ChangedColumn(change))
  }

  ghost predicate AllApplicable(family: SqlFamily, d: DbTable, changes: seq<TableChange>) {
    forall n {:trigger FindChange(changes, n)} ::
      FindChange(changes, n).Some? ==> Applicable(family, d, FindChange(changes, n).value)
  }

  function ColumnAt(d: DbTable, n: Name): Option<DbColumn> {
    if n in d.columns then Some(d.columns[n]) else None
  }

  function CellAt(row: Row, n: Name): Option<Value> {
    if n in row then Some(row[n]) else None
  }

  /** What the change of a column makes of the column. */
  function Outcome(t: Table, was: Option<DbColumn>, change: Option<TableChange>): Option<DbColumn> {
    if Adds(change) then Some(Rendered(t, change.value.column)) else if Drops(change) then None else was
  }

  function CellOutcome(t: Table, was: Option<Value>, change: Option<TableChange>): Option<Value> {
    if Adds(change) then Some(Rendered(t, change.value.column).default) else if Drops(change) then None else was
  }

  ghost predicate ColumnsAltered(t: Table, d: DbTable, changes: seq<TableChange>, d': DbTable) {
    forall n :: ColumnAt(d', n) == Outcome(t, ColumnAt(d, n), FindChange(changes, n))
  }

  ghost predicate IndicesAltered(d: DbTable, changes: seq<TableChange>, d': DbTable) {
    && (forall x :: x in d'.indices <==> x in d.indices && !Hit(changes, d.indices[x].columns))
    && (forall x :: x in d'.indices ==> d'.indices[x] == d.indices[x])
  }

  ghost predicate KeyAltered(d: DbTable, changes: seq<TableChange>, d': DbTable) {
    d'.primaryKey == if d.primaryKey.Some? && Hit(changes, d.primaryKey.value) then None else d.primaryKey
  }

  ghost predicate RowAltered(t: Table, row: Row, changes: seq<TableChange>, row': Row) {
    forall n :: CellAt(row', n) == CellOutcome(t, CellAt(row, n), FindChange(changes, n))
  }

  ghost predicate RowsAltered(t: Table, d: DbTable, changes: seq<TableChange>, d': DbTable) {
    |d'.rows| == |d.rows| && forall i :: 0 <= i < |d.rows| ==> RowAltered(t, d.rows[i], changes, d'.rows[i])
  }

  /** What the changes make of the columns, the indexes, the primary key and the rows of a table. */
  ghost predicate Altered(t: Table, d: DbTable, changes: seq<TableChange>, d': DbTable) {
    && ColumnsAltered(t, d, changes, d')
    && IndicesAltered(d, changes, d')
    && KeyAltered(d, changes, d')
    && RowsAltered(t, d, changes, d')
  }

  // ----- one change -----

  lemma {:induction false} FindOnly(change: TableChange, n: Name)
    requires ColumnWise([change])
    ensures FindChange([change], n) == if n == ChangedColumn(change) then Some(change) else None
  {
    assert [change][1..] == [];
  }

  lemma {:induction false} FindFirst(change: TableChange, changes: seq<TableChange>, n: Name)
    requires ColumnWise([change] + changes)
    ensures FindChange([change] + changes, n) == if n == ChangedColumn(change) then Some(change) else FindChange(changes, n)
    ensures ColumnWise([change]) && ColumnWise(changes)
    ensures n == ChangedColumn(change) ==> FindChange(changes, n).None?
  {
    assert ([change] + changes)[1..] == changes && [change][1..] == [];
  }

  lemma {:induction false} HitOne(change: TableChange, columns: seq<Name>)
    requires ColumnWise([change])
    ensures Hit([change], columns) <==> !change.AddColumn? && ChangedColumn(change) in columns
  {
    FindOnly(change, ChangedColumn(change));
    if n :| n in columns && Drops(FindChange([change], n)) {
      FindOnly(change, n);
    }
  }

  lemma {:induction false} HitSplit(change: TableChange, changes: seq<TableChange>, columns: seq<Name>)
    requires ColumnWise([change] + changes)
    ensures Hit([change] + changes, columns) <==> Hit([change], columns) || Hit(changes, columns)
  {
    var both := [change] + changes;
    FindFirst(change, changes, ChangedColumn(change));
    HitOne(change, columns);
    if n :| n in columns && Drops(FindChange(both, n)) {
      FindFirst(change, changes, n);
      assert n == ChangedColumn(change) || Drops(FindChange(changes, n));
    }
    if n :| n in columns && Drops(FindChange(changes, n)) {
      FindFirst(change, changes, n);
      assert Drops(FindChange(both, n));
    }
    assert Drops(FindChange(both, ChangedColumn(change))) <==> !change.AddColumn?;
  }

  lemma {:induction false} OneColumnsAltered(family: SqlFamily, t: Table, d: DbTable, change: TableChange)
    requires ColumnWise([change]) && Applicable(family, d, change)
    ensures ApplyChange(family, t, d, change).Some?
    ensures ColumnsAltered(t, d, [change], ApplyChange(family, t, d, change).value)
    ensures RowsAltered(t, d, [change], ApplyChange(family, t, d, change).value)
  {
    var d' := ApplyChange(family, t, d, change).value;
    forall n ensures ColumnAt(d', n) == Outcome(t, ColumnAt(d, n), FindChange([change], n)) {
      FindOnly(change, n);
    }
    forall i, n | 0 <= i < |d.rows|
      ensures CellAt(d'.rows[i], n) == CellOutcome(t, CellAt(d.rows[i], n), FindChange([change], n))
    {
      FindOnly(change, n);
    }
  }

  lemma {:induction false} OneIndicesAltered(family: SqlFamily, t: Table, d: DbTable, change: TableChange)
    requires ColumnWise([change]) && Applicable(family, d, change)
    ensures ApplyChange(family, t, d, change).Some?
    ensures IndicesAltered(d, [change], ApplyChange(family, t, d, change).value)
    ensures KeyAltered(d, [change], ApplyChange(family, t, d, change).value)
  {
    var d' := ApplyChange(family, t, d, change).value;
    forall x | x in d.indices ensures Hit([change], d.indices[x].columns) <==> x !in d'.indices {
      HitOne(change, d.indices[x].columns);
    }
    if d.primaryKey.Some? {
      HitOne(change, d.primaryKey.value);
    }
  }

  // ----- one change after another -----

  lemma {:induction false} ThenColumnsAltered(t: Table, d: DbTable, change: TableChange, d1: DbTable, changes: seq<TableChange>, d2: DbTable)
    requires ColumnWise([change] + changes)
    requires ColumnsAltered(t, d, [change], d1) && ColumnsAltered(t, d1, changes, d2)
    ensures ColumnsAltered(t, d, [change] + changes, d2)
  {
    forall n ensures ColumnAt(d2, n) == Outcome(t, ColumnAt(d, n), FindChange([change] + changes, n)) {
      FindFirst(change, changes, n);
      FindOnly(change, n);
      assert ColumnAt(d1, n) == Outcome(t, ColumnAt(d, n), FindChange([change], n));
    }
  }

  lemma {:induction false} ThenRowAltered(t: Table, r: Row, change: TableChange, r1: Row, changes: seq<TableChange>, r2: Row)
    requires ColumnWise([change] + changes)
    requires RowAltered(t, r, [change], r1) && RowAltered(t, r1, changes, r2)
    ensures RowAltered(t, r, [change] + changes, r2)
  {
    forall n ensures CellAt(r2, n) == CellOutcome(t, CellAt(r, n), FindChange([change] + changes, n)) {
      FindFirst(change, changes, n);
      FindOnly(change, n);
      assert CellAt(r1, n) == CellOutcome(t, CellAt(r, n), FindChange([change], n));
    }
  }

  lemma {:induction false} ThenIndicesAltered(d: DbTable, change: TableChange, d1: DbTable, changes: seq<TableChange>, d2: DbTable)
    requires ColumnWise([change] + changes)
    requires IndicesAltered(d, [change], d1) && IndicesAltered(d1, changes, d2)
    requires KeyAltered(d, [change], d1) && KeyAltered(d1, changes, d2)
    ensures IndicesAltered(d, [change] + changes, d2)
    ensures KeyAltered(d, [change] + changes, d2)
  {
    hide Hit;
    forall x | x in d.indices ensures x in d2.indices <==> !Hit([change] + changes, d.indices[x].columns) {
      HitSplit(change, changes, d.indices[x].columns);
    }
    if d.primaryKey.Some? {
      HitSplit(change, changes, d.primaryKey.value);
    }
  }

  lemma {:induction false} ThenAltered(t: Table, d: DbTable, change: TableChange, d1: DbTable, changes: seq<TableChange>, d2: DbTable)
    requires ColumnWise([change] + changes)
    requires Altered(t, d, [change], d1) && Altered(t, d1, changes, d2)
    ensures Altered(t, d, [change] + changes, d2)
  {
    ThenColumnsAltered(t, d, change, d1, changes, d2);
    ThenIndicesAltered(d, change, d1, changes, d2);
    hide ColumnsAltered, IndicesAltered, KeyAltered, RowAltered;
    forall i | 0 <= i < |d.rows| ensures RowAltered(t, d.rows[i], [change] + changes, d2.rows[i]) {
      ThenRowAltered(t, d.rows[i], change, d1.rows[i], changes, d2.rows[i]);
    }
  }

  lemma {:induction false} StillApplicable(family: SqlFamily, t: Table, d: DbTable, change: TableChange, d': DbTable, changes: seq<TableChange>)
    requires ColumnWise([change] + changes) && ColumnsAltered(t, d, [change], d')
    ensures AllApplicable(family, d, [change] + changes) <==>
            Applicable(family, d, change) && AllApplicable(family, d', changes)
  {
    var both, m := [change] + changes, ChangedColumn(change);
    FindFirst(change, changes, m);
    forall n | n != m
      ensures FindChange(both, n) == FindChange(changes, n)
      ensures ColumnAt(d', n) == ColumnAt(d, n)
    {
      FindFirst(change, changes, n);
      FindOnly(change, n);
    }
    if AllApplicable(family, d, both) {
      forall n | FindChange(changes, n).Some? ensures Applicable(family, d', FindChange(changes, n).value) {
        assert n != m && ColumnAt(d', n) == ColumnAt(d, n);
        assert Applicable(family, d, FindChange(both, n).value);
      }
    }
    if Applicable(family, d, change) && AllApplicable(family, d', changes) {
      forall n | FindChange(both, n).Some? ensures Applicable(family, d, FindChange(both, n).value) {
        if n != m {
          assert ColumnAt(d', n) == ColumnAt(d, n);
          assert Applicable(family, d', FindChange(changes, n).value);
        }
      }
    }
  }

  /** The changes succeed exactly when each of them alone could, and do what they say. */
  lemma {:induction false} ChangesColumnByColumn(family: SqlFamily, t: Table, d: DbTable, changes: seq<TableChange>)
    requires ColumnWise(changes)
    ensures ApplyChanges(family, t, d, changes).Some? <==> AllApplicable(family, d, changes)
    ensures AllApplicable(family, d, changes) ==> Altered(t, d, changes, ApplyChanges(family, t, d, changes).value)
    decreases |changes|
  {
    if changes != [] {
      var change, rest := changes[0], changes[1..];
      assert changes == [change] + rest;
      assert ColumnWise([change]) by { assert [change][1..] == []; }
      if Applicable(family, d, change) {
        OneColumnsAltered(family, t, d, change);
        OneIndicesAltered(family, t, d, change);
        var d' := ApplyChange(family, t, d, change).value;
        hide ColumnsAltered, IndicesAltered, KeyAltered, RowsAltered;
        ChangesColumnByColumn(family, t, d', rest);
        StillApplicable(family, t, d, change, d', rest);
        if AllApplicable(family, d', rest) {
          ThenAltered(t, d, change, d', rest, ApplyChanges(family, t, d', rest).value);
        }
      } else {
        assert FindChange(changes, ChangedColumn(change)) == Some(change);
      }
    }
  }
}
