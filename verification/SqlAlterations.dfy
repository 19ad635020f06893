/** What the ALTER TABLE step of a diff does to the table it concerns. */
module SqlAlterations {
  import opened Wrappers
  import opened Names
  import opened SqlSchemas
  import opened SqlDatabases
  import opened SqlChanges
  import opened SqlDiffer

  // ----- the changes of a diff, column by column -----

  /** The change a diff makes to one column. */
  function ColumnChange(p: Table, q: Table, n: Name): (r: Option<TableChange>)
    ensures r.Some? ==> !r.value.DropForeignKey? && ChangedColumn(r.value) == n
  {
    var c, c' := FindColumn(p.columns, n), FindColumn(q.columns, n);
    if c'.None? then if c.Some? then Some(DropColumn(n)) else None
    else if c.None? then Some(AddColumn(c'.value))
    else if ToAlter(p, q, c'.value) then Some(AlterColumn(n, c'.value))
    else None
  }

  lemma {:induction false} FindConcat(xs: seq<TableChange>, ys: seq<TableChange>, n: Name)
    ensures FindChange(xs + ys, n) == if FindChange(xs, n).Some? then FindChange(xs, n) else FindChange(ys, n)
  {
    if xs == [] {
      assert xs + ys == ys;
    } else {
      assert (xs + ys)[0] == xs[0] && (xs + ys)[1..] == xs[1..] + ys;
      FindConcat(xs[1..], ys, n);
    }
  }

  lemma {:induction false} ColumnWiseConcat(xs: seq<TableChange>, ys: seq<TableChange>)
    requires ColumnWise(xs) && ColumnWise(ys)
    requires forall n :: FindChange(xs, n).None? || FindChange(ys, n).None?
    ensures ColumnWise(xs + ys)
  {
    if xs == [] {
      assert xs + ys == ys;
    } else {
      assert (xs + ys)[0] == xs[0] && (xs + ys)[1..] == xs[1..] + ys;
      forall n ensures FindChange(xs[1..], n).None? || FindChange(ys, n).None? {
        assert FindChange(xs, n).None? || FindChange(ys, n).None?;
      }
      ColumnWiseConcat(xs[1..], ys);
      FindConcat(xs[1..], ys, ChangedColumn(xs[0]));
      assert FindChange(xs, ChangedColumn(xs[0])) == Some(xs[0]);
    }
  }

  lemma {:induction false} DropFound(ps: seq<Column>, qs: seq<Column>, n: Name)
    ensures FindChange(ColumnsToDrop(ps, qs), n) ==
            if FindColumn(ps, n).Some? && FindColumn(qs, n).None? then Some(DropColumn(n)) else None
  {
    if ps != [] {
      DropFound(ps[1..], qs, n);
      FindConcat([DropColumn(ps[0].name)], ColumnsToDrop(ps[1..], qs), n);
      assert [DropColumn(ps[0].name)][1..] == [];
    }
  }

  lemma {:induction false} AddFound(ps: seq<Column>, qs: seq<Column>, n: Name)
    ensures FindChange(ColumnsToAdd(ps, qs), n) ==
            if FindColumn(qs, n).Some? && FindColumn(ps, n).None? then Some(AddColumn(FindColumn(qs, n).value)) else None
  {
    if qs != [] {
      AddFound(ps, qs[1..], n);
      FindConcat([AddColumn(qs[0])], ColumnsToAdd(ps, qs[1..]), n);
      assert [AddColumn(qs[0])][1..] == [];
    }
  }

  lemma {:induction false} AlterFound(p: Table, q: Table, cs: seq<Column>, n: Name)
    requires ColumnsDistinct(cs)
    ensures FindChange(ColumnsToAlter(p, q, cs), n) ==
            var c := FindColumn(cs, n);
            if c.Some? && ToAlter(p, q, c.value) then Some(AlterColumn(n, c.value)) else None
  {
    if cs != [] {
      AlterFound(p, q, cs[1..], n);
      FindConcat([AlterColumn(cs[0].name, cs[0])], ColumnsToAlter(p, q, cs[1..]), n);
      assert [AlterColumn(cs[0].name, cs[0])][1..] == [];
    }
  }

  lemma {:induction false} DropsColumnWise(ps: seq<Column>, qs: seq<Column>)
    requires ColumnsDistinct(ps)
    ensures ColumnWise(ColumnsToDrop(ps, qs))
  {
    if ps != [] {
      DropsColumnWise(ps[1..], qs);
      DropFound(ps[1..], qs, ps[0].name);
      assert ([DropColumn(ps[0].name)] + ColumnsToDrop(ps[1..], qs))[1..] == ColumnsToDrop(ps[1..], qs);
    }
  }

  lemma {:induction false} AddsColumnWise(ps: seq<Column>, qs: seq<Column>)
    requires ColumnsDistinct(qs)
    ensures ColumnWise(ColumnsToAdd(ps, qs))
  {
    if qs != [] {
      AddsColumnWise(ps, qs[1..]);
      AddFound(ps, qs[1..], qs[0].name);
      assert ([AddColumn(qs[0])] + ColumnsToAdd(ps, qs[1..]))[1..] == ColumnsToAdd(ps, qs[1..]);
    }
  }

  lemma {:induction false} AltersColumnWise(p: Table, q: Table, cs: seq<Column>)
    requires ColumnsDistinct(cs)
    ensures ColumnWise(ColumnsToAlter(p, q, cs))
  {
    if cs != [] {
      AltersColumnWise(p, q, cs[1..]);
      AlterFound(p, q, cs[1..], cs[0].name);
      assert ([AlterColumn(cs[0].name, cs[0])] + ColumnsToAlter(p, q, cs[1..]))[1..] == ColumnsToAlter(p, q, cs[1..]);
    }
  }

  lemma {:induction false} ChangeFound(p: Table, q: Table, n: Name)
    requires ColumnsDistinct(q.columns)
    ensures FindChange(ColumnChanges(p, q), n) == ColumnChange(p, q, n)
  {
    var a, b, c := ColumnsToDrop(p.columns, q.columns), ColumnsToAdd(p.columns, q.columns), ColumnsToAlter(p, q, q.columns);
    DropFound(p.columns, q.columns, n);
    AddFound(p.columns, q.columns, n);
    AlterFound(p, q, q.columns, n);
    FindConcat(a, b, n);
    FindConcat(a + b, c, n);
  }

  lemma {:induction false} ChangesColumnWise(p: Table, q: Table)
    requires ColumnsDistinct(p.columns) && ColumnsDistinct(q.columns)
    ensures ColumnWise(ColumnChanges(p, q))
  {
    var a, b, c := ColumnsToDrop(p.columns, q.columns), ColumnsToAdd(p.columns, q.columns), ColumnsToAlter(p, q, q.columns);
    DropsColumnWise(p.columns, q.columns);
    AddsColumnWise(p.columns, q.columns);
    AltersColumnWise(p, q, q.columns);
    forall n
      ensures FindChange(a, n).None? || FindChange(b, n).None?
      ensures FindChange(a + b, n).None? || FindChange(c, n).None?
    {
      DropFound(p.columns, q.columns, n);
      AddFound(p.columns, q.columns, n);
      AlterFound(p, q, q.columns, n);
      FindConcat(a, b, n);
    }
    ColumnWiseConcat(a, b);
    ColumnWiseConcat(a + b, c);
  }

  // ----- dropping foreign keys -----

  lemma {:induction false} ForeignKeyDropped(fs: seq<ForeignKey>, gs: seq<ForeignKey>, f: ForeignKey)
    requires ConstraintsDistinct(fs) && f in fs && f.constraintName.Some?
    ensures DropForeignKey(f.constraintName.value) in ForeignKeysToDrop(fs, gs) <==> Unmatched(f, gs)
  {
    if Unmatched(f, gs) {
      DropListed(fs, gs, f);
    }
    if DropForeignKey(f.constraintName.value) in ForeignKeysToDrop(fs, gs) {
      var g := DropSource(fs, gs, f.constraintName.value);
      assert g == f;
    }
  }

  lemma {:induction false} DropListed(fs: seq<ForeignKey>, gs: seq<ForeignKey>, f: ForeignKey)
    requires f in fs && f.constraintName.Some? && Unmatched(f, gs)
    ensures DropForeignKey(f.constraintName.value) in ForeignKeysToDrop(fs, gs)
  {
    if fs[0] != f {
      DropListed(fs[1..], gs, f);
    }
  }

  lemma {:induction false} DropSource(fs: seq<ForeignKey>, gs: seq<ForeignKey>, x: Name) returns (f: ForeignKey)
    requires DropForeignKey(x) in ForeignKeysToDrop(fs, gs)
    ensures f in fs && f.constraintName == Some(x) && Unmatched(f, gs)
  {
    if DropForeignKey(x) in ForeignKeysToDrop(fs[1..], gs) {
      f := DropSource(fs[1..], gs, x);
    } else {
      f := fs[0];
    }
  }

  ghost predicate OnlyForeignKeys(changes: seq<TableChange>) {
    forall c :: c in changes ==> c.DropForeignKey?
  }

  lemma {:induction false} DropsOnlyForeignKeys(fs: seq<ForeignKey>, gs: seq<ForeignKey>)
    ensures OnlyForeignKeys(ForeignKeysToDrop(fs, gs))
  {
    if fs != [] {
      DropsOnlyForeignKeys(fs[1..], gs);
    }
  }

  /** On MySQL the column loses a foreign key whose constraint is dropped. */
  function Unlinked(family: SqlFamily, c: Option<DbColumn>, changes: seq<TableChange>): Option<DbColumn> {
    if family.Mysql? && c.Some? && c.value.fk.Some? && c.value.fk.value.constraintName.Some?
       && DropForeignKey(c.value.fk.value.constraintName.value) in changes
    then Some(c.value.(fk := None)) else c
  }

  lemma {:induction false} ForeignKeysUnlinked(family: SqlFamily, t: Table, d: DbTable, changes: seq<TableChange>)
    returns (d': DbTable)
    requires OnlyForeignKeys(changes)
    ensures ApplyChanges(family, t, d, changes) == Some(d')
    ensures d' == d.(columns := d'.columns)
    ensures forall n :: ColumnAt(d', n) == Unlinked(family, ColumnAt(d, n), changes)
    decreases |changes|
  {
    if changes == [] {
      d' := d;
    } else {
      assert changes[0] in changes;
      var d1 := ApplyChange(family, t, d, changes[0]).value;
      d' := ForeignKeysUnlinked(family, t, d1, changes[1..]);
      assert changes == [changes[0]] + changes[1..];
      forall n ensures ColumnAt(d', n) == Unlinked(family, ColumnAt(d, n), changes) {
        assert ColumnAt(d1, n) == Unlinked(family, ColumnAt(d, n), [changes[0]]);
      }
    }
  }

  // ----- the whole alteration -----

  /** Whether the columns and foreign keys of a table are as described. */
  ghost predicate ColumnsDescribed(t: Table, d: DbTable) {
    forall n :: ColumnDescribed(t, n, ColumnAt(d, n))
  }

  predicate ColumnDescribed(t: Table, n: Name, c: Option<DbColumn>) {
    var described := FindColumn(t.columns, n);
    && (c.Some? <==> described.Some?)
    && (c.Some? ==>
          && c.value.family == described.value.family
          && c.value.arity == described.value.arity
          && c.value.fk == FkOf(t, n))
  }

  /** On MySQL, every foreign key of a column that is dropped or rebuilt is dropped before it. */
  ghost predicate Unlinkable(family: SqlFamily, p: Table, q: Table) {
    family.Mysql? ==>
      forall n :: Drops(ColumnChange(p, q, n)) && FkOf(p, n).Some? ==>
        FkOf(p, n).value.constraintName.Some? && Unmatched(FkOf(p, n).value, q.foreignKeys)
  }

  /** A column whose foreign key has no match is dropped or rebuilt. */
  lemma {:induction false} UnmatchedIsChanged(p: Table, q: Table, f: ForeignKey)
    requires WellFormedTable(p) && f in p.foreignKeys && Unmatched(f, q.foreignKeys)
    ensures |f.columns| == 1 && FkOf(p, f.columns[0]) == Some(f) && Drops(ColumnChange(p, q, f.columns[0]))
  {
    ForeignKeyFound(p.foreignKeys, f);
    var n := f.columns[0];
    assert FindColumn(p.columns, n).Some?;
    assert ForeignKeyChanged(Some(f), FkOf(q, n));
  }

  lemma {:induction false} UnlinkedAre(family: SqlFamily, p: Table, q: Table, d: DbTable, n: Name)
    requires WellFormedTable(p) && ColumnsDescribed(p, d)
    ensures Unlinked(family, ColumnAt(d, n), ForeignKeysToDrop(p.foreignKeys, q.foreignKeys)) ==
            var c := ColumnAt(d, n);
            if family.Mysql? && c.Some? && FkOf(p, n).Some? && FkOf(p, n).value.constraintName.Some?
               && Unmatched(FkOf(p, n).value, q.foreignKeys)
            then Some(c.value.(fk := None)) else c
  {
    assert ColumnDescribed(p, n, ColumnAt(d, n));
    if FkOf(p, n).Some? && FkOf(p, n).value.constraintName.Some? {
      ForeignKeyDropped(p.foreignKeys, q.foreignKeys, FkOf(p, n).value);
    }
  }

  lemma {:induction false} SomeColumnChanges(p: Table, q: Table)
    requires WellFormedTable(p) && WellFormedTable(q) && Changes(p, q) != []
    ensures ColumnChanges(p, q) != []
  {
    var fks := ForeignKeysToDrop(p.foreignKeys, q.foreignKeys);
    if fks != [] {
      DropsOnlyForeignKeys(p.foreignKeys, q.foreignKeys);
      assert fks[0] in fks;
      var f := DropSource(p.foreignKeys, q.foreignKeys, fks[0].constraintName);
      UnmatchedIsChanged(p, q, f);
      ChangeFound(p, q, f.columns[0]);
    }
  }

  lemma {:induction false} ChangesRenderable(family: SqlFamily, p: Table, q: Table)
    requires !family.Sqlite? && WellFormedTable(p) && WellFormedTable(q) && Changes(p, q) != []
    ensures Renderable(family, Changes(p, q))
  {
    SomeColumnChanges(p, q);
    ChangesColumnWise(p, q);
    assert ColumnChanges(p, q)[0] in Changes(p, q);
  }

  lemma {:induction false} AllApplicableIff(family: SqlFamily, p: Table, q: Table, d: DbTable, d': DbTable)
    requires WellFormedTable(p) && WellFormedTable(q) && ColumnsDescribed(p, d)
    requires forall n :: ColumnAt(d', n) == Unlinked(family, ColumnAt(d, n), ForeignKeysToDrop(p.foreignKeys, q.foreignKeys))
    ensures AllApplicable(family, d', ColumnChanges(p, q)) <==> Unlinkable(family, p, q)
  {
    forall n
      ensures FindChange(ColumnChanges(p, q), n) == ColumnChange(p, q, n)
      ensures ColumnChange(p, q, n).Some? ==>
                (Applicable(family, d', ColumnChange(p, q, n).value) <==>
                 (family.Mysql? && Drops(ColumnChange(p, q, n)) && FkOf(p, n).Some? ==>
                    FkOf(p, n).value.constraintName.Some? && Unmatched(FkOf(p, n).value, q.foreignKeys)))
    {
      ChangeFound(p, q, n);
      UnlinkedAre(family, p, q, d, n);
      assert ColumnDescribed(p, n, ColumnAt(d, n));
      assert ColumnAt(d', n) == Unlinked(family, ColumnAt(d, n), ForeignKeysToDrop(p.foreignKeys, q.foreignKeys));
    }
  }

  /** Dropping foreign keys first changes nothing in the outcome. */
  lemma {:induction false} AlteredFromLinked(family: SqlFamily, p: Table, q: Table, d: DbTable, d1: DbTable, d2: DbTable)
    requires WellFormedTable(p) && WellFormedTable(q) && ColumnsDescribed(p, d) && d1 == d.(columns := d1.columns)
    requires forall n :: ColumnAt(d1, n) == Unlinked(family, ColumnAt(d, n), ForeignKeysToDrop(p.foreignKeys, q.foreignKeys))
    requires Altered(q, d1, ColumnChanges(p, q), d2)
    ensures Altered(q, d, ColumnChanges(p, q), d2)
  {
    forall n ensures ColumnAt(d2, n) == Outcome(q, ColumnAt(d, n), FindChange(ColumnChanges(p, q), n)) {
      ChangeFound(p, q, n);
      UnlinkedAre(family, p, q, d, n);
      assert ColumnAt(d1, n) == Unlinked(family, ColumnAt(d, n), ForeignKeysToDrop(p.foreignKeys, q.foreignKeys));
      if FkOf(p, n).Some? && Unmatched(FkOf(p, n).value, q.foreignKeys) {
        UnmatchedIsChanged(p, q, FkOf(p, n).value);
      }
    }
  }

  /** The alteration of a table succeeds exactly when MySQL lets go of every column it drops. */
  lemma {:induction false} AlterationRuns(family: SqlFamily, p: Table, q: Table, d: DbTable)
    requires !family.Sqlite? && WellFormedTable(p) && WellFormedTable(q) && ColumnsDescribed(p, d)
    ensures RunOnTable(family, Present(d), TableAlteration(p, Some(q))).Some? <==> Unlinkable(family, p, q)
    ensures Unlinkable(family, p, q) ==>
              var s := RunOnTable(family, Present(d), TableAlteration(p, Some(q))).value;
              s.Present? && Altered(q, d, ColumnChanges(p, q), s.table)
  {
    var fks, cols := ForeignKeysToDrop(p.foreignKeys, q.foreignKeys), ColumnChanges(p, q);
    DropsOnlyForeignKeys(p.foreignKeys, q.foreignKeys);
    ChangesColumnWise(p, q);
    var d1 := ForeignKeysUnlinked(family, q, d, fks);
    ChangesConcat(family, q, d, fks, cols);
    ChangesColumnByColumn(family, q, d1, cols);
    AllApplicableIff(family, p, q, d, d1);
    hide ColumnChanges, ForeignKeysToDrop, Altered, AllApplicable, Unlinkable, ColumnsDescribed, WellFormedTable;
    if Unlinkable(family, p, q) {
      AlteredFromLinked(family, p, q, d, d1, ApplyChanges(family, q, d1, cols).value);
    }
    if Changes(p, q) == [] {
      assert fks == [] && cols == [];
      assert d1 == d;
    } else {
      ChangesRenderable(family, p, q);
      RunFirst(family, Present(d), AlterTable(q, Changes(p, q)), []);
      assert [AlterTable(q, Changes(p, q))] + [] == TableAlteration(p, Some(q));
    }
  }
}
