/**
  SQLite: tables whose alteration the database has no statement for are rebuilt
  under a temporary name, with their rows copied.
 */
module SqliteFix {
  import opened Wrappers
  import opened Names
  import opened SqlSchemas
  import opened SqlDatabases
  import opened SqlChanges
  import opened SqlDiffer
  import opened SqlTableSteps
  import opened SqlIndexes
  import opened SqlAlterations
  import opened SqlTableMigration
  import opened SqlMigration

  // ----- the corrected steps -----

  predicate NeedsFix(changes: seq<TableChange>) {
    exists c :: c in changes && (c.AddColumn? ==> c.column.arity.Required?)
  }

  function TemporaryName(n: Name): Name {
    "new_" + n
  }

  function CreateAll(n: Name, xs: seq<Index>): seq<Step> {
    if xs == [] then [] else [CreateIndex(n, xs[0])] + CreateAll(n, xs[1..])
  }

  function Fix(p: Table, q: Table): seq<Step> {
    var temporary := TemporaryName(q.name);
    [Pragma,
     CreateTable(q.(name := temporary)),
     CopyRows(q.name, temporary, Common(q, p.columns)),
     DropTable(p.name),
     RenameTable(temporary, q.name)]
    + CreateAll(q.name, q.indices)
    + [Pragma, Pragma]
  }

  function FixTable(current: Schema, next: Schema, n: Name): Option<seq<Step>> {
    var p :- Of(current, n);
    var q :- Of(next, n);
    Some([Rebuild(p, q)])
  }

  /** What a step becomes, given the tables rebuilt before it. */
  function CorrectedStep(step: Step, fixed: seq<Name>, current: Schema, next: Schema): Option<seq<Step>> {
    if step.AlterTable? && NeedsFix(step.changes) then FixTable(current, next, step.table.name)
    else if step.CreateIndex? && step.onTable in fixed then Some([])
    else if step.AlterIndex? then FixTable(current, next, step.onTable)
    else Some([step])
  }

  function FixedBy(step: Step): seq<Name> {
    if step.AlterTable? && NeedsFix(step.changes) then [step.table.name]
    else if step.AlterIndex? then [step.onTable]
    else []
  }

  /** The corrected steps, every rebuilt table as one step. */
  function Corrected(steps: seq<Step>, fixed: seq<Name>, current: Schema, next: Schema): Option<seq<Step>> {
    if steps == [] then Some([])
    else
      var first :- CorrectedStep(steps[0], fixed, current, next);
      var rest :- Corrected(steps[1..], fixed + FixedBy(steps[0]), current, next);
      Some(first + rest)
  }

  function Statements(step: Step): seq<Step> {
    if step.Rebuild? then Fix(step.current, step.next) else [step]
  }

  function Expand(steps: seq<Step>): seq<Step> {
    if steps == [] then [] else Statements(steps[0]) + Expand(steps[1..])
  }

  lemma {:induction false} ExpandConcat(xs: seq<Step>, ys: seq<Step>)
    ensures Expand(xs + ys) == Expand(xs) + Expand(ys)
  {
    if xs == [] {
      assert xs + ys == ys;
    } else {
      assert (xs + ys)[0] == xs[0] && (xs + ys)[1..] == xs[1..] + ys;
      ExpandConcat(xs[1..], ys);
    }
  }

  lemma {:induction false} ExpandOne(step: Step)
    ensures Expand([step]) == Statements(step)
  {
    assert [step][1..] == [];
    assert Expand([step]) == Statements(step) + [];
  }

  method SqliteFixTable(current: Schema, next: Schema, n: Name) returns (r: Option<seq<Step>>)
    ensures var rebuild := FixTable(current, next, n);
            r == if rebuild.Some? then Some(Expand(rebuild.value)) else None
  {
    var p, q := Of(current, n), Of(next, n);
    if p.None? || q.None? {
      return None;
    }
    ghost var rebuild := Rebuild(p.value, q.value);
    ExpandOne(rebuild);
    assert FixTable(current, next, n) == Some([rebuild]);
    r := Some(Fix(p.value, q.value));
    assert r == Some(Expand([rebuild]));
  }

  /** The steps SQLite is given, or `None` for a table that one of the schemas lacks. */
  method FixStupidSqlite(diff: SqlSchemaDiff, current: Schema, next: Schema) returns (r: Option<seq<Step>>)
    requires forall step :: step in IntoSteps(diff) ==> !step.Rebuild?
    ensures var corrected := Corrected(IntoSteps(diff), [], current, next);
            r == if corrected.Some? then Some(Expand(corrected.value)) else None
  {
    hide Fix, IntoSteps, NeedsFix;
    var steps := IntoSteps(diff);
    var result: seq<Step>, fixed: seq<Name> := [], [];
    for i := 0 to |steps|
      invariant CorrectedFrom(steps, i, fixed, current, next, result)
    {
      var step := steps[i];
      var added: Option<seq<Step>>;
      if step.AlterTable? && NeedsFix(step.changes) {
        added := SqliteFixTable(current, next, step.table.name);
      } else if step.CreateIndex? && step.onTable in fixed {
        added := Some([]);
      } else if step.AlterIndex? {
        added := SqliteFixTable(current, next, step.onTable);
      } else {
        ExpandOne(step);
        added := Some([step]);
      }
      CorrectedNext(steps, i, fixed, current, next, result, added);
      if added.None? {
        return None;
      }
      result := result + added.value;
      fixed := fixed + FixedBy(step);
    }
    assert steps[|steps|..] == [] && result + [] == result;
    r := Some(result);
  }

  /** After `i` steps, `result` is what they became, and the rest is still to come. */
  ghost predicate CorrectedFrom(
    steps: seq<Step>, i: nat, fixed: seq<Name>, current: Schema, next: Schema, result: seq<Step>)
    requires i <= |steps|
  {
    var whole, rest := Corrected(steps, [], current, next), Corrected(steps[i..], fixed, current, next);
    && (whole.Some? <==> rest.Some?)
    && (whole.Some? ==> Expand(whole.value) == result + Expand(rest.value))
  }

  lemma {:induction false} CorrectedNext(
    steps: seq<Step>, i: nat, fixed: seq<Name>, current: Schema, next: Schema, result: seq<Step>, added: Option<seq<Step>>)
    requires i < |steps| && CorrectedFrom(steps, i, fixed, current, next, result)
    requires var first := CorrectedStep(steps[i], fixed, current, next);
             added == if first.Some? then Some(Expand(first.value)) else None
    ensures added.None? ==> Corrected(steps, [], current, next).None?
    ensures added.Some? ==> CorrectedFrom(steps, i + 1, fixed + FixedBy(steps[i]), current, next, result + added.value)
  {
    assert steps[i..][1..] == steps[i + 1..];
    var first := CorrectedStep(steps[i], fixed, current, next);
    var rest := Corrected(steps[i + 1..], fixed + FixedBy(steps[i]), current, next);
    if first.Some? && rest.Some? {
      ExpandConcat(first.value, rest.value);
    }
  }

  // ----- a rebuilt table, statement by statement -----

  lemma {:induction false} TemporaryIsOther(n: Name)
    ensures TemporaryName(n) != n
  {
    assert |TemporaryName(n)| == 4 + |n|;
  }

  lemma {:induction false} SameRendering(q: Table, n: Name)
    ensures RenderedColumns(q.(name := n), q.columns) == RenderedColumns(q, q.columns)
  {
    var a, b := RenderedColumns(q.(name := n), q.columns), RenderedColumns(q, q.columns);
    assert a.Keys == b.Keys;
    forall c | c in a ensures a[c] == b[c] {
    }
  }

  lemma {:induction false} CreateAllRuns(db: Db, n: Name, xs: seq<Index>)
    requires n in db && IndicesDistinct(xs)
    requires forall x :: x in xs ==> x.name !in db[n].indices
    requires forall x, c :: x in xs && c in x.columns ==> c in db[n].columns
    ensures Run(Sqlite, db, CreateAll(n, xs)) ==
            Some(db[n := db[n].(indices := db[n].indices + RenderedIndices(xs))])
    decreases |xs|
  {
    hide Run, Apply, ApplyToTable, RenderedIndices;
    if xs == [] {
      NoneAdded(db[n].indices);
      assert db[n := db[n].(indices := db[n].indices)] == db;
      assert Run(Sqlite, db, []) == Some(db) by { RunsNothing(db); }
    } else {
      var x, rest := xs[0], xs[1..];
      assert x in xs;
      var d1 := db[n].(indices := db[n].indices[x.name := ToDb(x)]);
      var db1 := db[n := d1];
      CreateRuns(db, n, x);
      RunNext(Sqlite, db, CreateIndex(n, x), CreateAll(n, rest));
      CreateAllRuns(db1, n, rest);
      OneAdded(db[n].indices, x, rest);
      assert xs == [x] + rest;
      assert db1[n := db[n].(indices := db[n].indices + RenderedIndices(xs))] ==
             db[n := db[n].(indices := db[n].indices + RenderedIndices(xs))];
    }
  }

  lemma {:induction false} RunsNothing(db: Db)
    ensures Run(Sqlite, db, []) == Some(db)
  {
  }

  lemma {:induction false} CreateRuns(db: Db, n: Name, x: Index)
    requires n in db && x.name !in db[n].indices && forall c :: c in x.columns ==> c in db[n].columns
    ensures Apply(Sqlite, db, CreateIndex(n, x)) ==
            Some(db[n := db[n].(indices := db[n].indices[x.name := ToDb(x)])])
  {
  }

  lemma {:induction false} NoneAdded(indices: map<Name, DbIndex>)
    ensures indices + RenderedIndices([]) == indices
  {
  }

  lemma {:induction false} OneAdded(indices: map<Name, DbIndex>, x: Index, rest: seq<Index>)
    requires FindIndex(rest, x.name).None?
    ensures indices[x.name := ToDb(x)] + RenderedIndices(rest) == indices + RenderedIndices([x] + rest)
  {
    assert ([x] + rest)[1..] == rest;
    assert RenderedIndices([x] + rest) == RenderedIndices(rest)[x.name := ToDb(x)];
    UpdateLater(indices, RenderedIndices(rest), x.name, ToDb(x));
  }

  lemma {:induction false} UpdateLater(m: map<Name, DbIndex>, m': map<Name, DbIndex>, n: Name, x: DbIndex)
    requires n !in m'
    ensures m[n := x] + m' == m + m'[n := x]
  {
  }

  /** The empty table that the rows are copied to. */
  function Fresh(q: Table): DbTable {
    DbTable(RenderedColumns(q, q.columns), map[], q.primaryKey, [])
  }

  predicate Copyable(d: DbTable, p: Table, q: Table) {
    Common(q, p.columns) != [] && forall c :: c in Common(q, p.columns) ==> c in d.columns
  }

  lemma {:induction false} CopyRuns(db: Db, p: Table, q: Table)
    requires WellFormedTable(q) && TemporaryName(q.name) !in db
    ensures var temporary, columns := TemporaryName(q.name), Common(q, p.columns);
            Run(Sqlite, db, [Pragma, CreateTable(q.(name := temporary)), CopyRows(q.name, temporary, columns)]) ==
            if q.name in db && Copyable(db[q.name], p, q)
            then Some(db[temporary := Fresh(q).(rows := InsertedRows(Fresh(q).columns, columns, db[q.name].rows))])
            else None
  {
    var temporary, columns := TemporaryName(q.name), Common(q, p.columns);
    var create, copy := CreateTable(q.(name := temporary)), CopyRows(q.name, temporary, columns);
    var db1 := db[temporary := Fresh(q)];
    CreateTemporaryRuns(db, q);
    CopyOnlyRuns(db, p, q);
    hide Run, Apply, Fresh, WellFormedTable, Copyable, InsertedRows;
    RunNext(Sqlite, db, Pragma, [create, copy]);
    RunNext(Sqlite, db, create, [copy]);
    RunOne(Sqlite, db1, copy);
    assert [Pragma] + [create, copy] == [Pragma, create, copy] && [create] + [copy] == [create, copy];
    assert Apply(Sqlite, db, Pragma) == Some(db) by { PragmaRuns(db); }
  }

  lemma {:induction false} PragmaRuns(db: Db)
    ensures Apply(Sqlite, db, Pragma) == Some(db)
  {
  }

  lemma {:induction false} CreateTemporaryRuns(db: Db, q: Table)
    requires WellFormedTable(q) && TemporaryName(q.name) !in db
    ensures Apply(Sqlite, db, CreateTable(q.(name := TemporaryName(q.name)))) == Some(db[TemporaryName(q.name) := Fresh(q)])
  {
    SameRendering(q, TemporaryName(q.name));
  }

  lemma {:induction false} CopyOnlyRuns(db: Db, p: Table, q: Table)
    requires TemporaryName(q.name) !in db
    ensures var temporary, columns := TemporaryName(q.name), Common(q, p.columns);
            Apply(Sqlite, db[temporary := Fresh(q)], CopyRows(q.name, temporary, columns)) ==
            if q.name in db && Copyable(db[q.name], p, q)
            then Some(db[temporary := Fresh(q).(rows := InsertedRows(Fresh(q).columns, columns, db[q.name].rows))])
            else None
  {
    TemporaryIsOther(q.name);
    var temporary, columns := TemporaryName(q.name), Common(q, p.columns);
    if q.name in db && Copyable(db[q.name], p, q) {
      var rows := InsertedRows(Fresh(q).columns, columns, db[q.name].rows);
      assert [] + rows == rows;
      assert db[temporary := Fresh(q)][temporary := Fresh(q).(rows := rows)] == db[temporary := Fresh(q).(rows := rows)];
    }
  }

  lemma {:induction false} SwapRuns(db: Db, n: Name, temporary: Name, d: DbTable)
    requires n in db && temporary !in db && n != temporary
    ensures Run(Sqlite, db[temporary := d], [DropTable(n), RenameTable(temporary, n)]) == Some(db[n := d])
  {
    var drop, rename := DropTable(n), RenameTable(temporary, n);
    var db1 := db[temporary := d] - {n};
    assert Apply(Sqlite, db[temporary := d], drop) == Some(db1);
    assert [drop, rename][1..] == [rename] && [rename][1..] == [];
    assert (db1 - {temporary})[n := d] == db[n := d];
    assert Run(Sqlite, db1, [rename]) == Apply(Sqlite, db1, rename);
  }

  /** The statements of a rebuild do what `Rebuild` says, and the temporary table is gone after them. */
  lemma {:induction false} RebuildRuns(db: Db, p: Table, q: Table)
    requires p.name == q.name && WellFormedTable(q) && TemporaryName(q.name) !in db
    ensures Run(Sqlite, db, Fix(p, q)) == Apply(Sqlite, db, Rebuild(p, q))
  {
    var n, temporary, columns := q.name, TemporaryName(q.name), Common(q, p.columns);
    var a := [Pragma, CreateTable(q.(name := temporary)), CopyRows(n, temporary, columns)];
    var b := [DropTable(n), RenameTable(temporary, n)] + (CreateAll(n, q.indices) + [Pragma, Pragma]);
    assert Fix(p, q) == a + b;
    RebuildIs(db, p, q);
    RunConcat(Sqlite, db, a, b);
    CopyRuns(db, p, q);
    hide Run, Apply, Fix, Copyable, InsertedRows, CreateAll, WellFormedTable, RenderedColumns, RenderedIndices;
    if n in db && Copyable(db[n], p, q) {
      var d := Fresh(q).(rows := InsertedRows(Fresh(q).columns, columns, db[n].rows));
      assert Rebuilt(db[n], q, columns) == d.(indices := RenderedIndices(q.indices));
      SwapAndIndex(db, q, d);
    }
  }

  lemma {:induction false} SwapAndIndex(db: Db, q: Table, d: DbTable)
    requires WellFormedTable(q) && q.name in db && TemporaryName(q.name) !in db
    requires d.indices == map[] && d.columns == RenderedColumns(q, q.columns)
    ensures var n, temporary := q.name, TemporaryName(q.name);
            Run(Sqlite, db[temporary := d],
                [DropTable(n), RenameTable(temporary, n)] + (CreateAll(n, q.indices) + [Pragma, Pragma])) ==
            Some(db[n := d.(indices := RenderedIndices(q.indices))])
  {
    var n, temporary, d' := q.name, TemporaryName(q.name), d.(indices := RenderedIndices(q.indices));
    TemporaryIsOther(n);
    hide Run, CreateAll, WellFormedTable, RenderedColumns, RenderedIndices;
    RunConcat(Sqlite, db[temporary := d], [DropTable(n), RenameTable(temporary, n)], CreateAll(n, q.indices) + [Pragma, Pragma]);
    SwapRuns(db, n, temporary, d);
    IndexesAndPragmas(db[n := d], q);
    assert db[n := d][n := d'] == db[n := d'];
  }

  lemma {:induction false} RebuildIs(db: Db, p: Table, q: Table)
    ensures Apply(Sqlite, db, Rebuild(p, q)) ==
            if q.name in db && Copyable(db[q.name], p, q)
            then Some(db[q.name := Rebuilt(db[q.name], q, Common(q, p.columns))]) else None
  {
  }

  lemma {:induction false} IndexesAndPragmas(db: Db, q: Table)
    requires WellFormedTable(q) && q.name in db
    requires db[q.name].indices == map[] && db[q.name].columns == RenderedColumns(q, q.columns)
    ensures Run(Sqlite, db, CreateAll(q.name, q.indices) + [Pragma, Pragma]) ==
            Some(db[q.name := db[q.name].(indices := RenderedIndices(q.indices))])
  {
    hide Run, Apply, CreateAll, RenderedColumns, RenderedIndices;
    ColumnsOfIndexes(q);
    AllIndexesRun(db, q);
    RunConcat(Sqlite, db, CreateAll(q.name, q.indices), [Pragma, Pragma]);
    PragmasRun(Run(Sqlite, db, CreateAll(q.name, q.indices)).value);
  }

  lemma {:induction false} AllIndexesRun(db: Db, q: Table)
    requires WellFormedTable(q) && q.name in db && db[q.name].indices == map[]
    requires forall x, c :: x in q.indices && c in x.columns ==> c in db[q.name].columns
    ensures Run(Sqlite, db, CreateAll(q.name, q.indices)) == Some(db[q.name := db[q.name].(indices := RenderedIndices(q.indices))])
  {
    hide Run, CreateAll, RenderedIndices, WellFormedTable;
    assert IndicesDistinct(q.indices) by { IndexNamesDistinct(q); }
    CreateAllRuns(db, q.name, q.indices);
    assert map[] + RenderedIndices(q.indices) == RenderedIndices(q.indices);
  }

  lemma {:induction false} IndexNamesDistinct(q: Table)
    requires WellFormedTable(q)
    ensures IndicesDistinct(q.indices)
  {
  }

  lemma {:induction false} PragmasRun(db: Db)
    ensures Run(Sqlite, db, [Pragma, Pragma]) == Some(db)
  {
    hide Run, Apply;
    PragmaRuns(db);
    RunNext(Sqlite, db, Pragma, [Pragma]);
    RunOne(Sqlite, db, Pragma);
    assert [Pragma] + [Pragma] == [Pragma, Pragma];
  }

  // ----- a list of corrected steps -----

  /** The names that must stay free for the rebuilds to come. */
  ghost predicate TemporariesFree(db: Db, steps: seq<Step>) {
    forall r :: r in steps && r.Rebuild? ==>
      && TemporaryName(r.next.name) !in db
      && forall c :: c in steps && c.CreateTable? ==> c.table.name != TemporaryName(r.next.name)
  }

  ghost predicate RebuildsWellFormed(steps: seq<Step>) {
    forall r :: r in steps && r.Rebuild? ==> r.current.name == r.next.name && WellFormedTable(r.next)
  }

  lemma {:induction false} NothingElseAppears(db: Db, step: Step, db': Db, n: Name)
    requires Local(step) && Apply(Sqlite, db, step) == Some(db') && n !in db
    requires step.CreateTable? ==> step.table.name != n
    ensures n !in db'
  {
    assert SlotOf(db, n) == Absent;
  }

  lemma {:induction false} StillFree(db: Db, steps: seq<Step>, db': Db)
    requires steps != [] && Local(steps[0]) && TemporariesFree(db, steps) && Apply(Sqlite, db, steps[0]) == Some(db')
    ensures TemporariesFree(db', steps[1..])
  {
    forall r | r in steps[1..] && r.Rebuild?
      ensures TemporaryName(r.next.name) !in db'
      ensures forall c :: c in steps[1..] && c.CreateTable? ==> c.table.name != TemporaryName(r.next.name)
    {
      assert r in steps && steps[0] in steps;
      assert TemporaryName(r.next.name) !in db;
      NothingElseAppears(db, steps[0], db', TemporaryName(r.next.name));
      assert forall c :: c in steps[1..] ==> c in steps;
    }
  }

  /** Every rebuild finds its temporary name free when its turn comes. */
  ghost predicate FreeAlong(db: Db, steps: seq<Step>)
    decreases |steps|
  {
    steps != [] ==>
      && (steps[0].Rebuild? ==> TemporaryName(steps[0].next.name) !in db)
      && (Apply(Sqlite, db, steps[0]).Some? ==> FreeAlong(Apply(Sqlite, db, steps[0]).value, steps[1..]))
  }

  lemma {:induction false} FreeThroughout(db: Db, steps: seq<Step>)
    requires AllLocal(steps) && TemporariesFree(db, steps)
    ensures FreeAlong(db, steps)
    decreases |steps|
  {
    if steps != [] {
      assert steps[0] in steps;
      var db' := Apply(Sqlite, db, steps[0]);
      if db'.Some? {
        StillFree(db, steps, db'.value);
        assert forall step :: step in steps[1..] ==> step in steps;
        FreeThroughout(db'.value, steps[1..]);
      }
    }
  }

  lemma {:induction false} TakenNameFails(db: Db, p: Table, q: Table)
    requires TemporaryName(q.name) in db
    ensures Run(Sqlite, db, Fix(p, q)).None?
  {
    var temporary := TemporaryName(q.name);
    var create := CreateTable(q.(name := temporary));
    var rest := [CopyRows(q.name, temporary, Common(q, p.columns)), DropTable(p.name), RenameTable(temporary, q.name)]
                + CreateAll(q.name, q.indices) + [Pragma, Pragma];
    assert Fix(p, q) == [Pragma] + ([create] + rest);
    assert Apply(Sqlite, db, create).None?;
    hide Fix, CreateAll, Run, Common;
    PragmaRuns(db);
    RunNext(Sqlite, db, Pragma, [create] + rest);
    RunNext(Sqlite, db, create, rest);
  }

  /**
    The statements of all steps do what the steps do, and fail exactly where a table
    has the temporary name of a rebuilt one when its turn comes.
   */
  lemma {:induction false} ExpandRunsIff(db: Db, steps: seq<Step>)
    requires RebuildsWellFormed(steps)
    ensures Run(Sqlite, db, Expand(steps)) == if FreeAlong(db, steps) then Run(Sqlite, db, steps) else None
    decreases |steps|
  {
    if steps != [] {
      var step, rest := steps[0], steps[1..];
      assert step in steps;
      RunConcat(Sqlite, db, Statements(step), Expand(rest));
      if step.Rebuild? && TemporaryName(step.next.name) in db {
        TakenNameFails(db, step.current, step.next);
      } else {
        StatementsRun(db, step);
        var db' := Apply(Sqlite, db, step);
        if db'.Some? {
          assert forall r :: r in rest ==> r in steps;
          ExpandRunsIff(db'.value, rest);
        }
      }
    }
  }

  /** Steps without a rebuild need no name. */
  lemma {:induction false} FreeAlongConcat(db: Db, xs: seq<Step>, ys: seq<Step>)
    requires forall x :: x in xs ==> !x.Rebuild?
    ensures FreeAlong(db, xs + ys) <==> (Run(Sqlite, db, xs).Some? ==> FreeAlong(Run(Sqlite, db, xs).value, ys))
    decreases |xs|
  {
    if xs == [] {
      assert xs + ys == ys;
    } else {
      assert (xs + ys)[0] == xs[0] && (xs + ys)[1..] == xs[1..] + ys && xs[0] in xs;
      var db' := Apply(Sqlite, db, xs[0]);
      if db'.Some? {
        FreeAlongConcat(db'.value, xs[1..], ys);
      }
    }
  }

  /** A table that is not there, or dropped on the way, and never created is not there in the end. */
  lemma {:induction false} Gone(db: Db, steps: seq<Step>, n: Name)
    requires AllLocal(steps) && Run(Sqlite, db, steps).Some? && (n !in db || DropTable(n) in steps)
    requires forall c :: c in steps && c.CreateTable? ==> c.table.name != n
    ensures n !in Run(Sqlite, db, steps).value
    decreases |steps|
  {
    if steps != [] {
      var step, db' := steps[0], Apply(Sqlite, db, steps[0]).value;
      assert step in steps && forall s :: s in steps[1..] ==> s in steps;
      if n !in db {
        NothingElseAppears(db, step, db', n);
      } else if step == DropTable(n) {
        assert n !in db';
      }
      Gone(db', steps[1..], n);
    }
  }

  /** After steps that create no table, none has the temporary name of one that was rebuilt. */
  lemma {:induction false} RebuiltNameIsFree(db: Db, steps: seq<Step>, r: Step)
    requires AllLocal(steps) && Run(Sqlite, db, steps).Some? && FreeAlong(db, steps) && r in steps && r.Rebuild?
    requires forall c :: c in steps ==> !c.CreateTable?
    ensures TemporaryName(r.next.name) !in Run(Sqlite, db, steps).value
    decreases |steps|
  {
    assert forall s :: s in steps[1..] ==> s in steps;
    if steps[0] == r {
      Gone(db, steps, TemporaryName(r.next.name));
    } else {
      RebuiltNameIsFree(Apply(Sqlite, db, steps[0]).value, steps[1..], r);
    }
  }

  lemma {:induction false} StatementsRun(db: Db, step: Step)
    requires step.Rebuild? ==>
               && step.current.name == step.next.name && WellFormedTable(step.next)
               && TemporaryName(step.next.name) !in db
    ensures Run(Sqlite, db, Statements(step)) == Apply(Sqlite, db, step)
  {
    if step.Rebuild? {
      RebuildRuns(db, step.current, step.next);
    } else {
      assert [step][1..] == [];
    }
  }
}
