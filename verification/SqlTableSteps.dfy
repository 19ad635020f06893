/**
  A diff, table by table: the steps of a diff that concern one table depend on
  that table's two descriptions, and on the names that indexes of any table are
  renamed from and to.
 */
module SqlTableSteps {
  import opened Wrappers
  import opened Names
  import opened SqlSchemas
  import opened SqlDatabases
  import opened SqlDiffer

  function Renames(p: Option<Table>, q: Option<Table>): seq<Step> {
    if p.Some? then IndexRenames(p.value.name, p.value.indices, IndicesOf(q)) else []
  }

  function Removals(p: Option<Table>, q: Option<Table>, alters: seq<Step>): seq<Step> {
    if p.Some? then IndexRemovals(p.value, p.value.indices, IndicesOf(q), alters) else []
  }

  function Drop(p: Option<Table>, q: Option<Table>): seq<Step> {
    if p.Some? && q.None? && p.value.name != MIGRATION_TABLE then [DropTable(p.value.name)] else []
  }

  function Create(p: Option<Table>, q: Option<Table>): seq<Step> {
    if p.None? && q.Some? && q.value.name != MIGRATION_TABLE then [CreateTable(q.value)] else []
  }

  function Alteration(p: Option<Table>, q: Option<Table>): seq<Step> {
    if p.Some? then TableAlteration(p.value, q) else []
  }

  function NewIndexes(p: Option<Table>, q: Option<Table>, alters: seq<Step>): seq<Step> {
    if q.Some? then IndexCreations(q.value.name, IndicesOf(p), q.value.indices, alters) else []
  }

  /**
    The steps that lead one table from its description `p` to its description `q`,
    among renames of indexes of all tables.
   */
  function TableSteps(p: Option<Table>, q: Option<Table>, alters: seq<Step>): seq<Step> {
    Removals(p, q, alters) + Drop(p, q) + Create(p, q) + Alteration(p, q) + NewIndexes(p, q, alters) + Renames(p, q)
  }

  /** The renames of indexes of all tables. */
  function AllRenames(prev: Schema, next: Schema): seq<Step> {
    IndexesToAlter(prev.tables, next)
  }

  /** The renames of a table are among them. */
  ghost predicate Includes(alters: seq<Step>, p: Option<Table>, q: Option<Table>) {
    forall a :: a in Renames(p, q) ==> a in alters
  }

  function Of(s: Schema, n: Name): Option<Table> {
    FindTable(s.tables, n)
  }

  // ----- which tables the steps concern -----

  predicate Concerns(n: Name, steps: seq<Step>) {
    forall step :: step in steps ==> Local(step) && Target(step) == n
  }

  lemma {:induction false} ForOwn(n: Name, steps: seq<Step>)
    requires Concerns(n, steps)
    ensures For(n, steps) == steps
  {
    if steps != [] {
      ForOwn(n, steps[1..]);
    }
  }

  lemma {:induction false} ForOther(n: Name, m: Name, steps: seq<Step>)
    requires Concerns(m, steps) && n != m
    ensures For(n, steps) == []
  {
    if steps != [] {
      ForOther(n, m, steps[1..]);
    }
  }

  /** One table's steps before the other tables' steps. */
  lemma {:induction false} ForHead(n: Name, m: Name, xs: seq<Step>, ys: seq<Step>)
    requires Concerns(m, xs)
    ensures For(n, xs + ys) == (if n == m then xs else []) + For(n, ys)
  {
    ForConcat(n, xs, ys);
    if n == m {
      ForOwn(n, xs);
    } else {
      ForOther(n, m, xs);
    }
  }

  lemma {:induction false} RenamesConcern(n: Name, xs: seq<Index>, ys: seq<Index>)
    ensures Concerns(n, IndexRenames(n, xs, ys))
  {
    if xs != [] {
      RenamesConcern(n, xs[1..], ys);
    }
  }

  lemma {:induction false} CreationsConcern(n: Name, xs: seq<Index>, ys: seq<Index>, alters: seq<Step>)
    ensures Concerns(n, IndexCreations(n, xs, ys, alters))
  {
    if ys != [] {
      CreationsConcern(n, xs, ys[1..], alters);
    }
  }

  lemma {:induction false} RemovalsConcern(t: Table, xs: seq<Index>, ys: seq<Index>, alters: seq<Step>)
    ensures Concerns(t.name, IndexRemovals(t, xs, ys, alters))
  {
    if xs != [] {
      RemovalsConcern(t, xs[1..], ys, alters);
    }
  }

  // ----- the lists of a diff, table by table -----

  lemma {:induction false} DropTablesFor(ts: seq<Table>, next: Schema, n: Name)
    requires TablesDistinct(ts)
    ensures For(n, TablesToDrop(ts, next)) == Drop(FindTable(ts, n), Of(next, n))
  {
    if ts != [] {
      DropTablesFor(ts[1..], next, n);
      var own := if HasTable(next, ts[0].name) || ts[0].name == MIGRATION_TABLE then [] else [DropTable(ts[0].name)];
      ForHead(n, ts[0].name, own, TablesToDrop(ts[1..], next));
      assert TablesToDrop(ts, next) == own + TablesToDrop(ts[1..], next);
    }
  }

  lemma {:induction false} CreateTablesFor(prev: Schema, ts: seq<Table>, n: Name)
    requires TablesDistinct(ts)
    ensures For(n, Creations(TablesToCreate(prev, ts))) == Create(Of(prev, n), FindTable(ts, n))
  {
    if ts != [] {
      CreateTablesFor(prev, ts[1..], n);
      var rest := TablesToCreate(prev, ts[1..]);
      assert ([ts[0]] + rest)[1..] == rest;
      var own := if HasTable(prev, ts[0].name) || ts[0].name == MIGRATION_TABLE then [] else [CreateTable(ts[0])];
      assert Creations(TablesToCreate(prev, ts)) == own + Creations(rest);
      ForHead(n, ts[0].name, own, Creations(rest));
    }
  }

  lemma {:induction false} AlterTablesFor(ts: seq<Table>, next: Schema, n: Name)
    requires TablesDistinct(ts)
    ensures For(n, TablesToAlter(ts, next)) == Alteration(FindTable(ts, n), Of(next, n))
  {
    if ts != [] {
      hide Changes;
      AlterTablesFor(ts[1..], next, n);
      ForHead(n, ts[0].name, TableAlteration(ts[0], Of(next, ts[0].name)), TablesToAlter(ts[1..], next));
    }
  }

  lemma {:induction false} AlterIndexesFor(ts: seq<Table>, next: Schema, n: Name)
    requires TablesDistinct(ts)
    ensures For(n, IndexesToAlter(ts, next)) == Renames(FindTable(ts, n), Of(next, n))
  {
    if ts != [] {
      hide IndexRenames;
      AlterIndexesFor(ts[1..], next, n);
      var own := IndexRenames(ts[0].name, ts[0].indices, IndicesOf(Of(next, ts[0].name)));
      RenamesConcern(ts[0].name, ts[0].indices, IndicesOf(Of(next, ts[0].name)));
      ForHead(n, ts[0].name, own, IndexesToAlter(ts[1..], next));
      hide For;
      assert FindTable(ts, n) == if n == ts[0].name then Some(ts[0]) else FindTable(ts[1..], n);
      assert own + [] == own;
    }
  }

  lemma {:induction false} CreateIndexesFor(prev: Schema, ts: seq<Table>, alters: seq<Step>, n: Name)
    requires TablesDistinct(ts)
    ensures For(n, IndexesToCreate(prev, ts, alters)) ==
            var q := FindTable(ts, n);
            if q.Some? then IndexCreations(n, IndicesOf(Of(prev, n)), q.value.indices, alters) else []
  {
    if ts != [] {
      CreateIndexesFor(prev, ts[1..], alters, n);
      var own := IndexCreations(ts[0].name, IndicesOf(Of(prev, ts[0].name)), ts[0].indices, alters);
      CreationsConcern(ts[0].name, IndicesOf(Of(prev, ts[0].name)), ts[0].indices, alters);
      ForHead(n, ts[0].name, own, IndexesToCreate(prev, ts[1..], alters));
    }
  }

  lemma {:induction false} DropIndexesFor(ts: seq<Table>, next: Schema, alters: seq<Step>, n: Name)
    requires TablesDistinct(ts)
    ensures For(n, IndexesToDrop(ts, next, alters)) ==
            var p := FindTable(ts, n);
            if p.Some? then IndexRemovals(p.value, p.value.indices, IndicesOf(Of(next, n)), alters) else []
  {
    if ts != [] {
      DropIndexesFor(ts[1..], next, alters, n);
      var own := IndexRemovals(ts[0], ts[0].indices, IndicesOf(Of(next, ts[0].name)), alters);
      RemovalsConcern(ts[0], ts[0].indices, IndicesOf(Of(next, ts[0].name)), alters);
      ForHead(n, ts[0].name, own, IndexesToDrop(ts[1..], next, alters));
    }
  }

  // ----- renames -----

  lemma {:induction false} RenameStep(n: Name, xs: seq<Index>, ys: seq<Index>, x: Index)
    requires x in xs && RenamedTo(x, ys).Some?
    ensures AlterIndex(n, x.name, RenamedTo(x, ys).value.name) in IndexRenames(n, xs, ys)
  {
    if xs[0] != x {
      RenameStep(n, xs[1..], ys, x);
    }
  }

  lemma {:induction false} TableStepListed(ts: seq<Table>, next: Schema, t: Table, step: Step)
    requires t in ts && step in IndexRenames(t.name, t.indices, IndicesOf(Of(next, t.name)))
    ensures step in IndexesToAlter(ts, next)
  {
    if ts[0] != t {
      TableStepListed(ts[1..], next, t, step);
    }
  }

  lemma {:induction false} RenamesIncluded(prev: Schema, next: Schema, n: Name)
    requires TablesDistinct(prev.tables)
    ensures Includes(AllRenames(prev, next), Of(prev, n), Of(next, n))
  {
    var p := Of(prev, n);
    if p.Some? {
      forall a | a in Renames(p, Of(next, n)) ensures a in AllRenames(prev, next) {
        TableStepListed(prev.tables, next, p.value, a);
      }
    }
  }

  /** The pieces of which a table's steps consist, one list after another. */
  lemma {:induction false} DiffPieces(prev: Schema, next: Schema, n: Name)
    requires TablesDistinct(prev.tables) && TablesDistinct(next.tables)
    ensures var diff, p, q, alters := Diff(prev, next), Of(prev, n), Of(next, n), AllRenames(prev, next);
            && For(n, diff.dropIndexes) == Removals(p, q, alters)
            && For(n, diff.dropTables) == Drop(p, q)
            && For(n, Creations(diff.createTables)) == Create(p, q)
            && For(n, diff.alterTables) == Alteration(p, q)
            && For(n, diff.createIndexes) == NewIndexes(p, q, alters)
            && For(n, diff.alterIndexes) == Renames(p, q)
  {
    var diff := Diff(prev, next);
    DropIndexesFor(prev.tables, next, diff.alterIndexes, n);
    DropTablesFor(prev.tables, next, n);
    CreateTablesFor(prev, next.tables, n);
    AlterTablesFor(prev.tables, next, n);
    CreateIndexesFor(prev, next.tables, diff.alterIndexes, n);
    AlterIndexesFor(prev.tables, next, n);
  }

  /**
    What a diff does to a table follows from the table's descriptions in the two
    schemas, and from the renames of indexes.
   */
  lemma {:induction false} DiffTableByTable(prev: Schema, next: Schema, n: Name)
    requires TablesDistinct(prev.tables) && TablesDistinct(next.tables)
    ensures For(n, IntoSteps(Diff(prev, next))) == TableSteps(Of(prev, n), Of(next, n), AllRenames(prev, next))
  {
    DiffPieces(prev, next, n);
    StepsFor(Diff(prev, next), n);
  }

  lemma {:induction false} StepsFor(diff: SqlSchemaDiff, n: Name)
    ensures For(n, IntoSteps(diff)) ==
            For(n, diff.dropIndexes) + For(n, diff.dropTables) + For(n, Creations(diff.createTables))
            + For(n, diff.alterTables) + For(n, diff.createIndexes) + For(n, diff.alterIndexes)
  {
    var a, b, c, d, e, f :=
      diff.dropIndexes, diff.dropTables, Creations(diff.createTables), diff.alterTables, diff.createIndexes, diff.alterIndexes;
    ForConcat(n, a, b);
    ForConcat(n, a + b, c);
    ForConcat(n, a + b + c, d);
    ForConcat(n, a + b + c + d, e);
    ForConcat(n, a + b + c + d + e, f);
  }
}
