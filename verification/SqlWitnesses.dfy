/** Schemas whose migration does not reach its target, one for each condition that can fail. */
module SqlWitnesses {
  import opened Wrappers
  import opened Names
  import opened SqlSchemas
  import opened SqlDatabases
  import opened SqlChanges
  import opened SqlDiffer
  import opened SqlTableSteps
  import opened SqlIndexes
  import opened SqlAlterations
  import opened SqlTableMigration
  import opened SqlMigration
  import opened SqliteFix
  import opened SqliteMigration
  import opened ForeignKeyDelay
  import opened SqlInference

  function Col(n: Name): Column {
    Column(n, Int, Required, None)
  }

  function Nullables(n: Name): Column {
    Column(n, Int, Nullable, None)
  }

  function On(n: Name, column: Name, tpe: IndexType): Index {
    Index(n, [column], tpe)
  }

  function Plain(n: Name, cs: seq<Column>, xs: seq<Index>): Table {
    Table(n, cs, xs, None, [])
  }

  // ----- schemas of one or two tables -----

  lemma {:induction false} OneTable(t: Table)
    requires WellFormedTable(t)
    ensures WellFormed(Schema([t]))
    ensures forall n :: Of(Schema([t]), n) == if n == t.name then Some(t) else None
  {
    assert [t][1..] == [];
    forall n ensures Of(Schema([t]), n) == if n == t.name then Some(t) else None {
      assert FindTable([], n) == None;
    }
  }

  lemma {:induction false} TwoTables(t: Table, u: Table)
    requires WellFormedTable(t) && WellFormedTable(u) && t.name != u.name
    ensures WellFormed(Schema([t, u]))
    ensures forall n :: Of(Schema([t, u]), n) == if n == t.name then Some(t) else if n == u.name then Some(u) else None
  {
    assert [t, u][1..] == [u];
    OneTable(u);
    forall n ensures Of(Schema([t, u]), n) == if n == t.name then Some(t) else if n == u.name then Some(u) else None {
      assert FindTable([u], n) == Of(Schema([u]), n);
    }
  }

  lemma {:induction false} PlainWellFormed(n: Name, cs: seq<Column>, xs: seq<Index>)
    requires ColumnsDistinct(cs) && IndicesDistinct(xs)
    requires forall x, c :: x in xs && c in x.columns ==> FindColumn(cs, c).Some?
    ensures WellFormedTable(Plain(n, cs, xs))
  {
  }

  lemma {:induction false} TwoColumns(a: Column, b: Column)
    requires a.name != b.name
    ensures ColumnsDistinct([a, b]) && ColumnsDistinct([a])
    ensures forall n :: FindColumn([a, b], n) == if n == a.name then Some(a) else if n == b.name then Some(b) else None
    ensures forall n :: FindColumn([a], n) == if n == a.name then Some(a) else None
  {
    assert [a, b][1..] == [b] && [b][1..] == [] && [a][1..] == [];
    forall n
      ensures FindColumn([a, b], n) == if n == a.name then Some(a) else if n == b.name then Some(b) else None
      ensures FindColumn([a], n) == if n == a.name then Some(a) else None
    {
      assert FindColumn([b], n) == if n == b.name then Some(b) else None;
    }
  }

  lemma {:induction false} TwoIndexes(x: Index, y: Index)
    requires x.name != y.name
    ensures IndicesDistinct([x, y]) && IndicesDistinct([x]) && IndicesDistinct([])
    ensures forall n :: FindIndex([x, y], n) == if n == x.name then Some(x) else if n == y.name then Some(y) else None
    ensures forall n :: FindIndex([x], n) == if n == x.name then Some(x) else None
  {
    assert [x, y][1..] == [y] && [y][1..] == [] && [x][1..] == [];
    forall n
      ensures FindIndex([x, y], n) == if n == x.name then Some(x) else if n == y.name then Some(y) else None
      ensures FindIndex([x], n) == if n == x.name then Some(x) else None
    {
      assert FindIndex([y], n) == if n == y.name then Some(y) else None;
    }
  }

  ghost predicate Fails(family: SqlFamily, prev: Schema, next: Schema, db: Db) {
    var r := Run(family, db, IntoSteps(Diff(prev, next)));
    WellFormed(prev) && WellFormed(next) && !(r.Some? && DbAgrees(next, r.value))
  }

  lemma {:induction false} FailsAt(family: SqlFamily, prev: Schema, next: Schema, db: Db, n: Name)
    requires !family.Sqlite? && WellFormed(prev) && WellFormed(next) && Describes(prev, db)
    requires !Safe(family, Of(prev, n), Of(next, n), AllRenames(prev, next))
    ensures Fails(family, prev, next, db)
  {
    DiffReachesNextIff(family, prev, next, db);
  }

  // ----- indexes -----

  /** An index that keeps its name while its type changes gets no step. */
  lemma {:induction false} ChangedIndexIsKept(family: SqlFamily, db: Db)
    requires !family.Sqlite? && Describes(Schema([Plain("T", [Col("a")], [On("i", "a", Unique)])]), db)
    ensures Fails(family, Schema([Plain("T", [Col("a")], [On("i", "a", Unique)])]), Schema([Plain("T", [Col("a")], [On("i", "a", Normal)])]), db)
    ensures var prev := Schema([Plain("T", [Col("a")], [On("i", "a", Unique)])]);
            var next := Schema([Plain("T", [Col("a")], [On("i", "a", Normal)])]);
            AllRenames(prev, next) == [] && TableSteps(Of(prev, "T"), Of(next, "T"), []) == []
  {
    var x, y := On("i", "a", Unique), On("i", "a", Normal);
    var p, q := Plain("T", [Col("a")], [x]), Plain("T", [Col("a")], [y]);
    TwoColumns(Col("a"), Col("b"));
    TwoIndexes(x, On("j", "b", Unique));
    TwoIndexes(y, On("j", "b", Unique));
    PlainWellFormed("T", [Col("a")], [x]);
    PlainWellFormed("T", [Col("a")], [y]);
    OneTable(p);
    OneTable(q);
    NoStepsForChanged(p, q, x, y);
    assert y in q.indices && !HasSource(Some(p), q, y) && !IsNew(Some(p), y, AllRenames(Schema([p]), Schema([q])));
    FailsAt(family, Schema([p]), Schema([q]), db, "T");
  }

  lemma {:induction false} NoStepsForChanged(p: Table, q: Table, x: Index, y: Index)
    requires p == Plain("T", [Col("a")], [x]) && q == Plain("T", [Col("a")], [y])
    requires x.name == y.name && !Equivalent(x, y)
    requires forall n :: FindColumn([Col("a")], n) == if n == "a" then Some(Col("a")) else None
    ensures Of(Schema([q]), "T") == Some(q) ==> AllRenames(Schema([p]), Schema([q])) == []
    ensures TableSteps(Some(p), Some(q), []) == []
  {
    assert [x][1..] == [] && [y][1..] == [] && [p][1..] == [] && [Col("a")][1..] == [];
    assert RenamedTo(x, [y]).None?;
    assert IndexRenames("T", [x], [y]) == IndexRenames("T", [], [y]) == [];
    assert IndexesToAlter([p], Schema([q])) ==
           IndexRenames("T", [x], IndicesOf(Of(Schema([q]), "T"))) + IndexesToAlter([p][1..], Schema([q]));
    assert FindIndex([y], x.name).Some? && FindIndex([x], y.name).Some?;
    assert IndexRemovals(p, [x], [y], []) == IndexRemovals(p, [], [y], []);
    assert IndexCreations("T", [x], [y], []) == IndexCreations("T", [x], [], []);
    assert ColumnsToDrop([Col("a")], [Col("a")]) == ColumnsToDrop([], [Col("a")]);
    assert ColumnsToAdd([Col("a")], [Col("a")]) == ColumnsToAdd([Col("a")], []);
    assert !ToAlter(p, q, Col("a"));
    assert ColumnsToAlter(p, q, [Col("a")]) == ColumnsToAlter(p, q, []);
    assert Changes(p, q) == [];
  }

  /** Two indexes that exchange their names: the first finds its new name taken. */
  lemma {:induction false} ExchangedNamesAreRefused(family: SqlFamily, db: Db)
    requires !family.Sqlite?
    requires Describes(Schema([Plain("T", [Col("a"), Col("b")], [On("i", "a", Normal), On("j", "b", Normal)])]), db)
    ensures Fails(family, Schema([Plain("T", [Col("a"), Col("b")], [On("i", "a", Normal), On("j", "b", Normal)])]),
                  Schema([Plain("T", [Col("a"), Col("b")], [On("j", "a", Normal), On("i", "b", Normal)])]), db)
  {
    var cs := [Col("a"), Col("b")];
    var xs, ys := [On("i", "a", Normal), On("j", "b", Normal)], [On("j", "a", Normal), On("i", "b", Normal)];
    var p, q := Plain("T", cs, xs), Plain("T", cs, ys);
    TwoColumns(Col("a"), Col("b"));
    TwoIndexes(xs[0], xs[1]);
    TwoIndexes(ys[0], ys[1]);
    PlainWellFormed("T", cs, xs);
    PlainWellFormed("T", cs, ys);
    OneTable(p);
    OneTable(q);
    NotFree(p, q, xs, ys);
    hide TargetsFree, WellFormedTable, Describes;
    FailsAt(family, Schema([p]), Schema([q]), db, "T");
  }

  lemma {:induction false} NotFree(p: Table, q: Table, xs: seq<Index>, ys: seq<Index>)
    requires xs == [On("i", "a", Normal), On("j", "b", Normal)] && ys == [On("j", "a", Normal), On("i", "b", Normal)]
    requires p.indices == xs && q.indices == ys && FindIndex(xs, "j") == Some(xs[1])
    ensures !TargetsFree(p, q)
  {
    assert Equivalent(xs[0], ys[0]) && Equivalent(xs[1], ys[1]) && !Equivalent(xs[1], ys[0]);
    assert RenamedTo(xs[0], ys) == Some(ys[0]) && ys[1..] == [ys[1]] && RenamedTo(xs[1], ys).Some?;
    assert !Free(p, q, 0, "j");
    assert RenamedTo(p.indices[0], q.indices).Some?;
  }

  const TWIN_I := On("i", "a", Normal)
  const TWIN_J := On("j", "a", Normal)

  lemma {:induction false} TwinsWellFormed()
    ensures WellFormed(Schema([Plain("T", [Col("a")], [TWIN_I, TWIN_J])])) && WellFormed(Schema([Plain("T", [Col("a")], [TWIN_I])]))
    ensures Of(Schema([Plain("T", [Col("a")], [TWIN_I, TWIN_J])]), "T") == Some(Plain("T", [Col("a")], [TWIN_I, TWIN_J]))
    ensures Of(Schema([Plain("T", [Col("a")], [TWIN_I])]), "T") == Some(Plain("T", [Col("a")], [TWIN_I]))
    ensures FindIndex([TWIN_I, TWIN_J], "i") == Some(TWIN_I)
  {
    TwoColumns(Col("a"), Col("b"));
    TwoIndexes(TWIN_I, TWIN_J);
    PlainWellFormed("T", [Col("a")], [TWIN_I, TWIN_J]);
    PlainWellFormed("T", [Col("a")], [TWIN_I]);
    OneTable(Plain("T", [Col("a")], [TWIN_I, TWIN_J]));
    OneTable(Plain("T", [Col("a")], [TWIN_I]));
  }

  /** Of two equivalent indexes one is to go: it is renamed to the other instead. */
  lemma {:induction false} TwinIsRenamed(family: SqlFamily, db: Db)
    requires !family.Sqlite? && Describes(Schema([Plain("T", [Col("a")], [TWIN_I, TWIN_J])]), db)
    ensures Fails(family, Schema([Plain("T", [Col("a")], [TWIN_I, TWIN_J])]), Schema([Plain("T", [Col("a")], [TWIN_I])]), db)
  {
    var p, q := Plain("T", [Col("a")], [TWIN_I, TWIN_J]), Plain("T", [Col("a")], [TWIN_I]);
    TwinsWellFormed();
    assert !TargetsFree(p, q) by {
      assert [TWIN_I][1..] == [];
      assert RenamedTo(TWIN_I, q.indices).None? && RenamedTo(TWIN_J, q.indices) == Some(TWIN_I);
      Unchanged(p, q, "a");
      assert Survives(p, q, TWIN_I);
      assert !Free(p, q, 1, "i");
      assert p.indices[1] == TWIN_J;
    }
    hide TargetsFree, WellFormedTable, Describes, Plain;
    FailsAt(family, Schema([p]), Schema([q]), db, "T");
  }

  /** A schema with two equivalent indexes differs from itself. */
  lemma {:induction false} TwinsAreNeverSettled()
    ensures var s := Schema([Plain("T", [Col("a")], [TWIN_I, TWIN_J])]); WellFormed(s) && IntoSteps(Diff(s, s)) != []
  {
    var t := Plain("T", [Col("a")], [TWIN_I, TWIN_J]);
    var s := Schema([t]);
    TwinsWellFormed();
    assert RenamedTo(TWIN_I, t.indices).Some?;
    RenameStep("T", t.indices, t.indices, TWIN_I);
    var step := AlterIndex("T", "i", RenamedTo(TWIN_I, t.indices).value.name);
    TableStepListed([t], s, t, step);
    assert step in AllRenames(s, s);
    hide IntoSteps, Diff, AllRenames, Plain;
    RenamesAreSteps(s, s);
  }

  // ----- two tables that share an index name -----

  const SHARED_A := Plain("A", [Col("a")], [On("x", "a", Normal)])
  const SHARED_A2 := Plain("A", [Col("a")], [On("y", "a", Normal)])

  lemma {:induction false} SharedRename(b: Table, b2: Table)
    requires b.name == "B" && b2.name == "B" && WellFormedTable(b) && WellFormedTable(b2)
    ensures WellFormed(Schema([SHARED_A, b])) && WellFormed(Schema([SHARED_A2, b2]))
    ensures Of(Schema([SHARED_A, b]), "B") == Some(b) && Of(Schema([SHARED_A2, b2]), "B") == Some(b2)
    ensures GetsName(AllRenames(Schema([SHARED_A, b]), Schema([SHARED_A2, b2])), "y")
    ensures LosesName(AllRenames(Schema([SHARED_A, b]), Schema([SHARED_A2, b2])), "x")
  {
    SharedWellFormed();
    hide WellFormedTable, Plain;
    TwoTables(SHARED_A, b);
    TwoTables(SHARED_A2, b2);
    hide WellFormed, AllRenames;
    TableStepListed([SHARED_A, b], Schema([SHARED_A2, b2]), SHARED_A, AlterIndex("A", "x", "y"));
  }

  lemma {:induction false} SharedWellFormed()
    ensures WellFormedTable(SHARED_A) && WellFormedTable(SHARED_A2) && SHARED_A.name == SHARED_A2.name == "A"
    ensures AlterIndex("A", "x", "y") in IndexRenames("A", SHARED_A.indices, SHARED_A2.indices)
  {
    var x, y := On("x", "a", Normal), On("y", "a", Normal);
    TwoColumns(Col("a"), Col("b"));
    TwoIndexes(x, On("z", "b", Normal));
    TwoIndexes(y, On("z", "b", Normal));
    PlainWellFormed("A", [Col("a")], [x]);
    PlainWellFormed("A", [Col("a")], [y]);
    assert RenamedTo(x, [y]) == Some(y);
    RenameStep("A", [x], [y], x);
  }

  /** On MySQL two tables may share an index name: one that is new in a table is not created if another table renames to it. */
  lemma {:induction false} SharedNameIsNotCreated(db: Db)
    requires Describes(Schema([SHARED_A, Plain("B", [Col("b")], [])]), db)
    ensures Fails(Mysql, Schema([SHARED_A, Plain("B", [Col("b")], [])]), Schema([SHARED_A2, Plain("B", [Col("b")], [On("y", "b", Normal)])]), db)
  {
    var y := On("y", "b", Normal);
    var b, b2 := Plain("B", [Col("b")], []), Plain("B", [Col("b")], [y]);
    TwoColumns(Col("b"), Col("a"));
    TwoIndexes(y, On("z", "a", Normal));
    PlainWellFormed("B", [Col("b")], []);
    PlainWellFormed("B", [Col("b")], [y]);
    SharedRename(b, b2);
    var prev, next := Schema([SHARED_A, b]), Schema([SHARED_A2, b2]);
    assert y in b2.indices && !HasSource(Some(b), b2, y) && !IsNew(Some(b), y, AllRenames(prev, next));
    FailsAt(Mysql, prev, next, db, "B");
  }

  /** Nor is one removed if another table renames from it. */
  lemma {:induction false} SharedNameIsNotRemoved(db: Db)
    requires Describes(Schema([SHARED_A, Plain("B", [Col("b")], [On("x", "b", Normal)])]), db)
    ensures Fails(Mysql, Schema([SHARED_A, Plain("B", [Col("b")], [On("x", "b", Normal)])]), Schema([SHARED_A2, Plain("B", [Col("b")], [])]), db)
  {
    var x := On("x", "b", Normal);
    var b, b2 := Plain("B", [Col("b")], [x]), Plain("B", [Col("b")], []);
    TwoColumns(Col("b"), Col("a"));
    TwoIndexes(x, On("z", "a", Normal));
    PlainWellFormed("B", [Col("b")], []);
    PlainWellFormed("B", [Col("b")], [x]);
    SharedRename(b, b2);
    var prev, next := Schema([SHARED_A, b]), Schema([SHARED_A2, b2]);
    Unchanged(b, b2, "b");
    assert x in b.indices && Unwanted(b, b2, x) && LosesName(AllRenames(prev, next), "x");
    FailsAt(Mysql, prev, next, db, "B");
  }

  lemma {:induction false} Unchanged(p: Table, q: Table, n: Name)
    requires p == Plain(p.name, p.columns, p.indices) && q == Plain(q.name, p.columns, q.indices)
    ensures ColumnChange(p, q, n).None?
  {
  }

  // ----- columns -----

  const LINKED := Table("T", [Col("a"), Col("b")], [], None, [ForeignKey(None, ["b"], "U", ["id"], NoAction)])

  lemma {:induction false} LinkedWellFormed()
    ensures WellFormedTable(LINKED) && WellFormedTable(Plain("T", [Col("a")], []))
  {
    TwoColumns(Col("a"), Col("b"));
    assert LINKED.foreignKeys[1..] == [];
    PlainWellFormed("T", [Col("a")], []);
  }

  /** MySQL keeps a column whose foreign key has no name to drop it by. */
  lemma {:induction false} UnnamedForeignKeyStays(db: Db)
    requires Describes(Schema([LINKED]), db)
    ensures Fails(Mysql, Schema([LINKED]), Schema([Plain("T", [Col("a")], [])]), db)
  {
    var q := Plain("T", [Col("a")], []);
    LinkedWellFormed();
    TwoColumns(Col("a"), Col("b"));
    OneTable(LINKED);
    OneTable(q);
    assert FkOf(LINKED, "b") == Some(LINKED.foreignKeys[0]);
    assert Drops(ColumnChange(LINKED, q, "b"));
    FailsAt(Mysql, Schema([LINKED]), Schema([q]), db, "T");
  }

  /** A list column is created as a column that is no list. */
  lemma {:induction false} ListIsNotCreated(family: SqlFamily)
    requires !family.Sqlite?
    ensures Fails(family, EMPTY_SCHEMA, Schema([Plain("T", [Column("a", Int, List, None)], [])]), map[])
  {
    var c := Column("a", Int, List, None);
    var q := Plain("T", [c], []);
    TwoColumns(c, Col("b"));
    PlainWellFormed("T", [c], []);
    OneTable(q);
    EmptyIsWellFormed();
    assert c in q.columns && FkOf(q, "a").None?;
    assert Describes(EMPTY_SCHEMA, map[]);
    FailsAt(family, EMPTY_SCHEMA, Schema([q]), map[], "T");
  }

  /** The migration table is never created. */
  lemma {:induction false} MigrationTableIsNotCreated(family: SqlFamily)
    requires !family.Sqlite?
    ensures Fails(family, EMPTY_SCHEMA, Schema([Plain(MIGRATION_TABLE, [Col("a")], [])]), map[])
  {
    var q := Plain(MIGRATION_TABLE, [Col("a")], []);
    TwoColumns(Col("a"), Col("b"));
    PlainWellFormed(MIGRATION_TABLE, [Col("a")], []);
    OneTable(q);
    EmptyIsWellFormed();
    assert Describes(EMPTY_SCHEMA, map[]);
    FailsAt(family, EMPTY_SCHEMA, Schema([q]), map[], MIGRATION_TABLE);
  }

  // ----- SQLite -----

  ghost predicate SqliteFails(prev: Schema, next: Schema, db: Db) {
    var corrected := Corrected(IntoSteps(Diff(prev, next)), [], prev, next);
    && WellFormed(prev) && WellFormed(next) && corrected.Some?
    && var r := Run(Sqlite, db, Expand(corrected.value)); !(r.Some? && DbAgrees(next, r.value))
  }

  lemma {:induction false} SqliteFailsAt(prev: Schema, next: Schema, db: Db, n: Name)
    requires WellFormed(prev) && WellFormed(next) && Describes(prev, db) && RowsFit(db)
    requires !SqliteSafe(Of(prev, n), Of(next, n), AllRenames(prev, next))
    ensures SqliteFails(prev, next, db)
  {
    SqliteReachesNextIff(prev, next, db);
  }

  /** SQLite has no statement that adds two columns. */
  lemma {:induction false} TwoNewColumnsAreRefused(db: Db)
    requires Describes(Schema([Plain("T", [Nullables("a")], [])]), db) && RowsFit(db)
    ensures SqliteFails(Schema([Plain("T", [Nullables("a")], [])]), Schema([Plain("T", [Nullables("b"), Nullables("c"), Nullables("a")], [])]), db)
  {
    var a, b, c := Nullables("a"), Nullables("b"), Nullables("c");
    var p, q := Plain("T", [a], []), Plain("T", [b, c, a], []);
    TwoColumns(a, b);
    ThreeColumns(b, c, a);
    PlainWellFormed("T", [a], []);
    PlainWellFormed("T", [b, c, a], []);
    OneTable(p);
    OneTable(q);
    TwoAdditions(p, q, a, b, c);
    SqliteFailsAt(Schema([p]), Schema([q]), db, "T");
  }

  lemma {:induction false} ThreeColumns(a: Column, b: Column, c: Column)
    requires a.name != b.name && a.name != c.name && b.name != c.name
    ensures ColumnsDistinct([a, b, c])
    ensures forall n :: FindColumn([a, b, c], n) ==
              if n == a.name then Some(a) else if n == b.name then Some(b) else if n == c.name then Some(c) else None
  {
    assert [a, b, c][1..] == [b, c];
    TwoColumns(b, c);
  }

  lemma {:induction false} TwoAdditions(p: Table, q: Table, a: Column, b: Column, c: Column)
    requires p == Plain("T", [a], []) && q == Plain("T", [b, c, a], []) && a == Nullables("a") && b == Nullables("b") && c == Nullables("c")
    requires forall n :: FindColumn(p.columns, n) == if n == "a" then Some(a) else None
    requires forall n :: FindColumn(q.columns, n) == if n == "b" then Some(b) else if n == "c" then Some(c) else if n == "a" then Some(a) else None
    ensures Changes(p, q) == [AddColumn(b), AddColumn(c)] && !NeedsFix(Changes(p, q)) && !Rebuilds(p, q)
  {
    var cs := q.columns;
    assert cs[1..] == [c, a] && [c, a][1..] == [a] && [a][1..] == [];
    assert ColumnsToDrop(p.columns, cs) == ColumnsToDrop([], cs) == [];
    assert ColumnsToAdd(p.columns, [a]) == ColumnsToAdd(p.columns, []) == [];
    assert ColumnsToAdd(p.columns, [c, a]) == [AddColumn(c)] + [];
    assert ColumnsToAdd(p.columns, cs) == [AddColumn(b)] + [AddColumn(c)];
    assert !ToAlter(p, q, a) && !ToAlter(p, q, b) && !ToAlter(p, q, c);
    assert ColumnsToAlter(p, q, [a]) == ColumnsToAlter(p, q, []) == [];
    assert ColumnsToAlter(p, q, [c, a]) == [];
    assert ColumnsToAlter(p, q, cs) == [];
    assert ForeignKeysToDrop([], []) == [];
  }

  /** A rebuild with no common column has nothing to copy. */
  lemma {:induction false} NothingToCopyIsRefused(db: Db)
    requires Describes(Schema([Plain("T", [Col("a")], [])]), db) && RowsFit(db)
    ensures SqliteFails(Schema([Plain("T", [Col("a")], [])]), Schema([Plain("T", [Col("b")], [])]), db)
  {
    var p, q := Plain("T", [Col("a")], []), Plain("T", [Col("b")], []);
    TwoColumns(Col("a"), Col("b"));
    TwoColumns(Col("b"), Col("a"));
    PlainWellFormed("T", [Col("a")], []);
    PlainWellFormed("T", [Col("b")], []);
    OneTable(p);
    OneTable(q);
    assert [Col("a")][1..] == [] && Common(q, p.columns) == Common(q, []);
    var drop := DropColumn("a");
    assert ColumnsToDrop([Col("a")], [Col("b")]) == [drop] + ColumnsToDrop([], [Col("b")]);
    assert drop in ColumnsToDrop([Col("a")], [Col("b")]);
    assert drop in Changes(p, q);
    assert NeedsFix(Changes(p, q)) && Rebuilds(p, q);
    SqliteFailsAt(Schema([p]), Schema([q]), db, "T");
  }

  lemma {:induction false} DropIsRebuilt(p: Table, q: Table, a: Column, b: Column)
    requires p.columns == [a, b] && q.columns == [a] && a.name != b.name
    ensures Rebuilds(p, q)
  {
    TwoColumns(a, b);
    var drop := DropColumn(b.name);
    assert [a, b][1..] == [b];
    assert ColumnsToDrop([b], [a]) == [drop] + ColumnsToDrop([], [a]);
    assert drop in ColumnsToDrop([a, b], [a]);
    assert drop in Changes(p, q);
    assert NeedsFix(Changes(p, q));
  }

  /** A rebuild whose temporary name is the name of another table fails. */
  lemma {:induction false} TakenTemporaryNameIsRefused(db: Db)
    requires Describes(Schema([Plain("T", [Col("a"), Col("b")], []), Plain("new_T", [Col("a")], [])]), db) && RowsFit(db)
    ensures SqliteFails(Schema([Plain("T", [Col("a"), Col("b")], []), Plain("new_T", [Col("a")], [])]),
                        Schema([Plain("T", [Col("a")], []), Plain("new_T", [Col("a")], [])]), db)
  {
    var a, b := Col("a"), Col("b");
    var p, q, t := Plain("T", [a, b], []), Plain("T", [a], []), Plain("new_T", [a], []);
    TwoColumns(a, b);
    PlainWellFormed("T", [a, b], []);
    PlainWellFormed("T", [a], []);
    PlainWellFormed("new_T", [a], []);
    TwoTables(p, t);
    TwoTables(q, t);
    DropIsRebuilt(p, q, a, b);
    assert TemporaryName("T") == "new_T";
    var prev, next := Schema([p, t]), Schema([q, t]);
    assert Of(prev, "T") == Some(p) && Of(next, "T") == Some(q) && HasTable(next, TemporaryName("T"));
    hide Plain, WellFormed, Describes, RowsFit, Rebuilds;
    assert !NoTemporaryClash(prev, next);
    SqliteReachesNextIff(prev, next, db);
  }

  // ----- the reset, and the delay of foreign keys -----

  /** A reset leaves an index of the migration table that nothing describes. */
  lemma {:induction false} ResetLeavesIndex(family: SqlFamily, db: Db)
    requires !family.Sqlite?
    requires Describes(Schema([Plain(MIGRATION_TABLE, [Col("a")], [On("i", "a", Normal)]), Plain("T", [Col("a")], [])]), db)
    ensures var from := Schema([Plain(MIGRATION_TABLE, [Col("a")], [On("i", "a", Normal)]), Plain("T", [Col("a")], [])]);
            var r := Run(family, db, Reset(from, EMPTY_SCHEMA));
            !(r.Some? && DbAgrees(EMPTY_SCHEMA, r.value))
  {
    var x := On("i", "a", Normal);
    var m, t := Plain(MIGRATION_TABLE, [Col("a")], [x]), Plain("T", [Col("a")], []);
    TwoColumns(Col("a"), Col("b"));
    TwoIndexes(x, On("j", "b", Normal));
    PlainWellFormed(MIGRATION_TABLE, [Col("a")], [x]);
    PlainWellFormed("T", [Col("a")], []);
    assert MIGRATION_TABLE[0] == '_';
    TwoTables(m, t);
    EmptyIsWellFormed();
    var from := Schema([m, t]);
    assert x in m.indices && !MigrationTableClean(from);
    assert from.tables[1..] == [t] && [t][1..] == [];
    assert "T" in TablesToReset(from.tables);
    ResetReachesIff(family, from, EMPTY_SCHEMA, db);
  }

  const KEYED_A := Table("A", [Col("b")], [], Some(["b"]), [ForeignKey(None, ["b"], "B", ["id"], NoAction)])

  lemma {:induction false} KeyedWellFormed()
    ensures WellFormed(EMPTY_SCHEMA) && WellFormed(Schema([KEYED_A, Plain("B", [Col("id")], [])]))
    ensures forall n :: Of(Schema([KEYED_A, Plain("B", [Col("id")], [])]), n) ==
              if n == "A" then Some(KEYED_A) else if n == "B" then Some(Plain("B", [Col("id")], [])) else None
  {
    TwoColumns(Col("b"), Col("c"));
    TwoColumns(Col("id"), Col("c"));
    assert KEYED_A.foreignKeys[1..] == [];
    PlainWellFormed("B", [Col("id")], []);
    assert WellFormedTable(KEYED_A);
    TwoTables(KEYED_A, Plain("B", [Col("id")], []));
    EmptyIsWellFormed();
  }

  lemma {:induction false} KeyedAreCreated()
    ensures TablesToCreate(EMPTY_SCHEMA, [KEYED_A, Plain("B", [Col("id")], [])]) == [KEYED_A, Plain("B", [Col("id")], [])]
  {
    var b := Plain("B", [Col("id")], []);
    assert MIGRATION_TABLE[0] == '_';
    assert [KEYED_A, b][1..] == [b] && [b][1..] == [];
    assert TablesToCreate(EMPTY_SCHEMA, [b]) == [b] + TablesToCreate(EMPTY_SCHEMA, []);
  }

  lemma {:induction false} KeyedIsTooEarly(ts: seq<Table>)
    requires ts == [KEYED_A, Plain("B", [Col("id")], [])]
    ensures !EarlyEnough({}, ts, NamesOf(ts))
  {
    var created := NamesOf(ts);
    assert ts[1] in ts && "B" in created;
    assert FkOf(KEYED_A, "b") == Some(KEYED_A.foreignKeys[0]) && InPrimaryKey(KEYED_A, "b");
    assert Col("b") in KEYED_A.columns && Undelayed(KEYED_A, created, Col("b"));
  }

  /** A primary key column that refers to a later table is not delayed. */
  lemma {:induction false} KeyRefersTooEarly()
    ensures !LinksExist({}, IntoSteps(DelayedDiff(Diff(EMPTY_SCHEMA, Schema([KEYED_A, Plain("B", [Col("id")], [])])))))
  {
    KeyedWellFormed();
    KeyedAreCreated();
    KeyedIsTooEarly([KEYED_A, Plain("B", [Col("id")], [])]);
    KeyedIsClosed();
    TooEarlyFails(Schema([KEYED_A, Plain("B", [Col("id")], [])]));
  }

  lemma {:induction false} KeyedIsClosed()
    ensures ReferencesClosed(Schema([KEYED_A, Plain("B", [Col("id")], [])]))
    ensures !HasTable(Schema([KEYED_A, Plain("B", [Col("id")], [])]), MIGRATION_TABLE)
  {
    var next := Schema([KEYED_A, Plain("B", [Col("id")], [])]);
    assert HasTable(next, "B");
    assert MIGRATION_TABLE[0] == '_';
  }

  lemma {:induction false} TooEarlyFails(next: Schema)
    requires WellFormed(next) && ReferencesClosed(next) && !HasTable(next, MIGRATION_TABLE)
    requires !EarlyEnough({}, TablesToCreate(EMPTY_SCHEMA, next.tables), NamesOf(TablesToCreate(EMPTY_SCHEMA, next.tables)))
    ensures !LinksExist({}, IntoSteps(DelayedDiff(Diff(EMPTY_SCHEMA, next))))
  {
    EmptyIsWellFormed();
    var db: Db := map[];
    assert db.Keys == {};
    DelayedLinksExistIff(EMPTY_SCHEMA, next, db);
  }
}
