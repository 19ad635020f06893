/**
  Running the steps of one table on Postgres or MySQL: they reach the table's
  next description exactly when a condition on the two descriptions holds.
 */
module SqlTableMigration {
  import opened Wrappers
  import opened Names
  import opened SqlSchemas
  import opened SqlDatabases
  import opened SqlChanges
  import opened SqlDiffer
  import opened SqlTableSteps
  import opened SqlIndexes
  import opened SqlAlterations

  // ----- a table and its description -----

  function IndexDescribed(t: Table, n: Name): Option<DbIndex> {
    var x := FindIndex(t.indices, n);
    if x.Some? then Some(ToDb(x.value)) else None
  }

  ghost predicate IndicesDescribed(t: Table, d: DbTable) {
    forall n :: IndexAt(d, n) == IndexDescribed(t, n)
  }

  ghost predicate TableDescribed(t: Table, d: DbTable) {
    ColumnsDescribed(t, d) && IndicesDescribed(t, d) && d.primaryKey == t.primaryKey
  }

  ghost predicate Described(t: Option<Table>, s: Slot) {
    if t.Some? then s.Present? && TableDescribed(t.value, s.table) else s.Absent?
  }

  // ----- agreement with the next description -----

  /** Equal in family, foreign key and arity; arities of foreign keys are not compared. */
  predicate ColumnAgrees(q: Table, n: Name, c: Option<DbColumn>) {
    var wanted := FindColumn(q.columns, n);
    && (c.Some? <==> wanted.Some?)
    && (c.Some? ==>
          && c.value.family == wanted.value.family
          && !ForeignKeyChanged(c.value.fk, FkOf(q, n))
          && (c.value.arity == wanted.value.arity || (c.value.fk.Some? && FkOf(q, n).Some?)))
  }

  /** The wanted indexes, and besides them only indexes that cover the primary key. */
  predicate IndexAgrees(q: Table, key: Option<seq<Name>>, n: Name, x: Option<DbIndex>) {
    var wanted := FindIndex(q.indices, n);
    if wanted.Some? then x == Some(ToDb(wanted.value))
    else x.Some? ==>
      CoversKey(key, x.value.columns) && RenamedTo(Index(n, x.value.columns, x.value.tpe), q.indices).None?
  }

  ghost predicate ColumnsAgree(q: Table, d: DbTable) {
    forall n :: ColumnAgrees(q, n, ColumnAt(d, n))
  }

  ghost predicate IndicesAgree(q: Table, d: DbTable) {
    forall n :: IndexAgrees(q, d.primaryKey, n, IndexAt(d, n))
  }

  /** The migration table may stay although nothing describes it. */
  ghost predicate Agrees(q: Option<Table>, n: Name, s: Slot) {
    match q
    case Some(t) => s.Present? && ColumnsAgree(t, s.table) && IndicesAgree(t, s.table)
    case None =>
      s.Present? ==>
        && n == MIGRATION_TABLE
        && forall x :: IndexAt(s.table, x).Some? ==> CoversKey(s.table.primaryKey, IndexAt(s.table, x).value.columns)
  }

  ghost predicate Reaches(family: SqlFamily, s: Slot, steps: seq<Step>, q: Option<Table>, n: Name)
    requires forall step :: step in steps ==> Local(step)
  {
    var r := RunOnTable(family, s, steps);
    r.Some? && Agrees(q, n, r.value)
  }

  // ----- the condition -----

  predicate Survives(p: Table, q: Table, x: Index) {
    forall n :: n in x.columns ==> !Drops(ColumnChange(p, q, n))
  }

  /** An index with the columns and the type of `y` is there, under whatever name, and none of its columns is rebuilt. */
  ghost predicate HasEquivalent(p: Table, q: Table, y: Index) {
    exists x :: x in p.indices && Equivalent(x, y) && Survives(p, q, x)
  }

  /** The wanted index that an index is renamed to, or else the one of its name. */
  predicate Becomes(x: Index, ys: seq<Index>, y: Index) {
    if RenamedTo(x, ys).Some? then RenamedTo(x, ys).value == y else x.name == y.name
  }

  /** And one of these becomes `y`. */
  ghost predicate HasSource(p: Option<Table>, q: Table, y: Index) {
    p.Some? && exists x :: x in p.value.indices && Equivalent(x, y) && Becomes(x, q.indices, y) && Survives(p.value, q, x)
  }

  /** Nothing has the name of an index yet, and no index of any table is renamed to it. */
  predicate IsNew(p: Option<Table>, y: Index, alters: seq<Step>) {
    FindIndex(IndicesOf(p), y.name).None? && !GetsName(alters, y.name)
  }

  /** Every wanted index is there already or is created. */
  ghost predicate Provided(p: Option<Table>, q: Table, alters: seq<Step>) {
    forall y :: y in q.indices ==> HasSource(p, q, y) || IsNew(p, y, alters)
  }

  /** A name is free for the i-th index: nothing has it, or its index is renamed before, or lost. */
  predicate Free(p: Table, q: Table, i: nat, n: Name)
    requires i <= |p.indices|
  {
    var h := FindIndex(p.indices, n);
    h.Some? ==>
      if RenamedTo(h.value, q.indices).Some? then Vacated(p.indices, q.indices, i, n) else !Survives(p, q, h.value)
  }

  /** Every renamed index finds its new name free. */
  ghost predicate TargetsFree(p: Table, q: Table) {
    forall i :: 0 <= i < |p.indices| && RenamedTo(p.indices[i], q.indices).Some? ==>
      Free(p, q, i, RenamedTo(p.indices[i], q.indices).value.name)
  }

  predicate Unwanted(p: Table, q: Table, x: Index) {
    && FindIndex(q.indices, x.name).None? && RenamedTo(x, q.indices).None?
    && !CoversKey(p.primaryKey, x.columns) && Survives(p, q, x)
  }

  /** No index that must go has the name of an index, of any table, that is renamed. */
  ghost predicate Cleared(p: Table, q: Table, alters: seq<Step>) {
    forall x :: x in p.indices && Unwanted(p, q, x) ==> !LosesName(alters, x.name)
  }

  /** The same for the migration table, which stays although nothing describes it. */
  ghost predicate ClearedOf(p: Table, alters: seq<Step>) {
    forall x :: x in p.indices && !CoversKey(p.primaryKey, x.columns) ==> !LosesName(alters, x.name)
  }

  /** Columns are rendered nullable or required: no list column is created, unless as a foreign key. */
  predicate NoListCreated(p: Option<Table>, q: Table) {
    forall c :: c in q.columns && c.arity.List? && FkOf(q, c.name).None? ==>
      p.Some? && !Adds(ColumnChange(p.value, q, c.name))
  }

  /** The migration table is never created. */
  ghost predicate Safe(family: SqlFamily, p: Option<Table>, q: Option<Table>, alters: seq<Step>) {
    && (q.Some? ==> NoListCreated(p, q.value) && Provided(p, q.value, alters))
    && (p.None? && q.Some? ==> q.value.name != MIGRATION_TABLE)
    && (p.Some? && q.None? && p.value.name == MIGRATION_TABLE ==> ClearedOf(p.value, alters))
    && (p.Some? && q.Some? ==>
          && Unlinkable(family, p.value, q.value)
          && TargetsDiffer(p.value.indices, q.value.indices) && TargetsFree(p.value, q.value)
          && Cleared(p.value, q.value, alters))
  }

  // ----- indexes of two descriptions -----

  ghost predicate Comparable(p: Table, q: Table) {
    p.name == q.name && WellFormedTable(p) && WellFormedTable(q)
  }

  lemma {:induction false} RenamedLoses(p: Table, q: Table, x: Index, alters: seq<Step>)
    requires x in p.indices && RenamedTo(x, q.indices).Some? && Includes(alters, Some(p), Some(q))
    ensures LosesName(alters, x.name) && GetsName(alters, RenamedTo(x, q.indices).value.name)
  {
    RenameStep(p.name, p.indices, q.indices, x);
  }

  lemma {:induction false} SurvivesIff(p: Table, q: Table, columns: seq<Name>)
    requires ColumnsDistinct(q.columns)
    ensures Hit(ColumnChanges(p, q), columns) <==> exists n :: n in columns && Drops(ColumnChange(p, q, n))
  {
    forall n ensures FindChange(ColumnChanges(p, q), n) == ColumnChange(p, q, n) {
      ChangeFound(p, q, n);
    }
    if n :| n in columns && Drops(ColumnChange(p, q, n)) {
      assert Drops(FindChange(ColumnChanges(p, q), n));
    }
  }

  // ----- the indexes of a kept table, step by step -----

  /** What is left of an index after removals and the alteration. */
  function Left(p: Table, q: Table, alters: seq<Step>, n: Name): Option<DbIndex> {
    var x := FindIndex(p.indices, n);
    if x.Some? && !Removed(p, x.value, q.indices, alters) && Survives(p, q, x.value)
    then Some(ToDb(x.value)) else None
  }

  ghost predicate HasLeft(p: Table, q: Table, alters: seq<Step>, d: DbTable) {
    forall n :: IndexAt(d, n) == Left(p, q, alters, n)
  }

  lemma {:induction false} LeftAfterAlteration(p: Table, q: Table, alters: seq<Step>, d: DbTable, d1: DbTable, d2: DbTable)
    requires Comparable(p, q) && IndicesDescribed(p, d)
    requires RemovedFrom(d, p, p.indices, q.indices, alters, d1)
    requires IndicesAltered(d1, ColumnChanges(p, q), d2)
    ensures HasLeft(p, q, alters, d2)
  {
    hide ColumnChanges, Hit, Removed, IndexDescribed;
    forall n ensures IndexAt(d2, n) == Left(p, q, alters, n) {
      assert IndexAt(d, n) == IndexDescribed(p, n);
      var x := FindIndex(p.indices, n);
      if x.Some? {
        SurvivesIff(p, q, x.value.columns);
        LeftUnlessRemoved(p, q, alters, d, d1, n);
        assert n in d1.indices ==> d1.indices[n] == ToDb(x.value);
      } else {
        NotDescribed(p, n);
        assert n !in d1.indices;
      }
    }
  }

  lemma {:induction false} NotDescribed(t: Table, n: Name)
    ensures IndexDescribed(t, n).Some? <==> FindIndex(t.indices, n).Some?
    ensures IndexDescribed(t, n).Some? ==> IndexDescribed(t, n).value == ToDb(FindIndex(t.indices, n).value)
  {
  }

  lemma {:induction false} LeftUnlessRemoved(p: Table, q: Table, alters: seq<Step>, d: DbTable, d1: DbTable, n: Name)
    requires IndicesDescribed(p, d) && FindIndex(p.indices, n).Some?
    requires RemovedFrom(d, p, p.indices, q.indices, alters, d1)
    ensures var x := FindIndex(p.indices, n).value;
            IndexAt(d1, n) == if Removed(p, x, q.indices, alters) then None else Some(ToDb(x))
  {
    assert IndexAt(d, n) == IndexDescribed(p, n);
  }

  /** The index under a name once new indexes have been created. */
  function Built(p: Table, q: Table, alters: seq<Step>, n: Name): Option<DbIndex> {
    var y := FindIndex(q.indices, n);
    if y.Some? && IsNew(Some(p), y.value, alters) then Some(ToDb(y.value)) else Left(p, q, alters, n)
  }

  ghost predicate HasBuilt(p: Table, q: Table, alters: seq<Step>, d: DbTable) {
    forall n :: IndexAt(d, n) == Built(p, q, alters, n)
  }

  lemma {:induction false} BuiltAfterCreations(p: Table, q: Table, alters: seq<Step>, d2: DbTable, d3: DbTable)
    requires HasLeft(p, q, alters, d2) && CreatedIn(d2, p.indices, q.indices, alters, d3)
    ensures HasBuilt(p, q, alters, d3)
  {
    hide Left;
    forall n ensures IndexAt(d3, n) == Built(p, q, alters, n) {
      assert IndexAt(d2, n) == Left(p, q, alters, n);
    }
  }

  // ----- when the renames succeed -----

  /** Every wanted index that nothing has the columns and type of is new. */
  ghost predicate Covered(p: Table, q: Table, alters: seq<Step>) {
    forall y :: y in q.indices ==> HasEquivalent(p, q, y) || IsNew(Some(p), y, alters)
  }

  lemma {:induction false} ProvidedIsCovered(p: Table, q: Table, alters: seq<Step>)
    requires Provided(Some(p), q, alters)
    ensures Covered(p, q, alters)
  {
    forall y | y in q.indices ensures HasEquivalent(p, q, y) || IsNew(Some(p), y, alters) {
    }
  }

  /** A renamed index is left under its old name, if the index it becomes is covered. */
  lemma {:induction false} RenamedIsBuilt(p: Table, q: Table, alters: seq<Step>, x: Index)
    requires Comparable(p, q) && Includes(alters, Some(p), Some(q)) && Covered(p, q, alters)
    requires x in p.indices && RenamedTo(x, q.indices).Some?
    ensures Survives(p, q, x) && Built(p, q, alters, x.name) == Some(ToDb(x))
  {
    var y := RenamedTo(x, q.indices).value;
    RenamedLoses(p, q, x, alters);
    IndexFound(p.indices, x);
    assert HasEquivalent(p, q, y);
    var x' :| x' in p.indices && Equivalent(x', y) && Survives(p, q, x');
    assert x'.columns == x.columns;
  }

  lemma {:induction false} RenamesAreThere(p: Table, q: Table, alters: seq<Step>, d3: DbTable)
    requires Comparable(p, q) && Includes(alters, Some(p), Some(q)) && HasBuilt(p, q, alters, d3) && Covered(p, q, alters)
    ensures RenamesPresent(d3, p.indices, q.indices)
  {
    forall x | x in p.indices && RenamedTo(x, q.indices).Some? ensures x.name in d3.indices {
      RenamedIsBuilt(p, q, alters, x);
      assert IndexAt(d3, x.name) == Built(p, q, alters, x.name);
    }
  }

  lemma {:induction false} RenamesReady(p: Table, q: Table, alters: seq<Step>, d3: DbTable)
    requires Comparable(p, q) && Includes(alters, Some(p), Some(q)) && HasBuilt(p, q, alters, d3)
    requires Covered(p, q, alters) && TargetsFree(p, q)
    ensures RenamesPresent(d3, p.indices, q.indices) && FreeInOrder(d3, p.indices, q.indices)
  {
    RenamesAreThere(p, q, alters, d3);
    hide Covered, Includes;
    forall i | 0 <= i < |p.indices| ensures FreeAt(d3, p.indices, q.indices, i) {
      if RenamedTo(p.indices[i], q.indices).Some? {
        FreeMeans(p, q, alters, d3, i);
      }
    }
  }

  lemma {:induction false} FreeMeans(p: Table, q: Table, alters: seq<Step>, d3: DbTable, i: nat)
    requires Comparable(p, q) && Includes(alters, Some(p), Some(q)) && HasBuilt(p, q, alters, d3)
    requires i < |p.indices| && RenamedTo(p.indices[i], q.indices).Some?
    requires Free(p, q, i, RenamedTo(p.indices[i], q.indices).value.name)
    ensures FreeAt(d3, p.indices, q.indices, i)
  {
    var n := RenamedTo(p.indices[i], q.indices).value.name;
    RenamedLoses(p, q, p.indices[i], alters);
    assert IndexAt(d3, n) == Built(p, q, alters, n);
  }

  /** A new name that is not free is taken when its turn comes. */
  lemma {:induction false} TakenMeans(p: Table, q: Table, alters: seq<Step>, d3: DbTable, i: nat)
    requires Comparable(p, q) && Includes(alters, Some(p), Some(q)) && HasBuilt(p, q, alters, d3)
    requires Covered(p, q, alters) && i < |p.indices| && RenamedTo(p.indices[i], q.indices).Some?
    requires !Free(p, q, i, RenamedTo(p.indices[i], q.indices).value.name)
    ensures !FreeAt(d3, p.indices, q.indices, i)
  {
    var n := RenamedTo(p.indices[i], q.indices).value.name;
    var h := FindIndex(p.indices, n).value;
    IndexFound(q.indices, RenamedTo(p.indices[i], q.indices).value);
    if RenamedTo(h, q.indices).Some? {
      RenamedIsBuilt(p, q, alters, h);
    }
    assert IndexAt(d3, n) == Built(p, q, alters, n);
    forall j | 0 <= j < i && p.indices[j].name == n ensures p.indices[j] == h {
      IndexFound(p.indices, p.indices[j]);
    }
  }

  // ----- what the renames lead to -----

  lemma {:induction false} FinalAgrees(p: Table, q: Table, alters: seq<Step>, key: Option<seq<Name>>, d3: DbTable, d4: DbTable, n: Name)
    requires Comparable(p, q) && Includes(alters, Some(p), Some(q)) && HasBuilt(p, q, alters, d3)
    requires Provided(Some(p), q, alters) && Cleared(p, q, alters) && RenamedIn(d3, p.indices, q.indices, d4)
    requires key == p.primaryKey || (p.primaryKey.Some? && exists c :: c in p.primaryKey.value && Drops(ColumnChange(p, q, c)))
    ensures IndexAgrees(q, key, n, IndexAt(d4, n))
  {
    var x, y, o := FindIndex(p.indices, n), FindIndex(q.indices, n), Origin(p.indices, q.indices, n);
    assert IndexAt(d3, n) == Built(p, q, alters, n);
    ProvidedIsCovered(p, q, alters);
    if o.Some? {
      RenamedIsBuilt(p, q, alters, o.value);
      IndexFound(q.indices, RenamedTo(o.value, q.indices).value);
      assert IndexAt(d3, o.value.name) == Built(p, q, alters, o.value.name);
    } else if y.Some? {
      WantedIsBuilt(p, q, alters, y.value);
    } else if x.Some? && RenamedTo(x.value, q.indices).None? && Built(p, q, alters, n).Some? {
      assert CoversKey(p.primaryKey, x.value.columns);
      assert Index(n, x.value.columns, x.value.tpe) == x.value;
    }
  }

  /** A wanted index that nothing is renamed to is there under its name. */
  lemma {:induction false} WantedIsBuilt(p: Table, q: Table, alters: seq<Step>, y: Index)
    requires Comparable(p, q) && Provided(Some(p), q, alters) && y in q.indices && Origin(p.indices, q.indices, y.name).None?
    ensures Built(p, q, alters, y.name) == Some(ToDb(y))
    ensures FindIndex(p.indices, y.name).Some? ==> RenamedTo(FindIndex(p.indices, y.name).value, q.indices).None?
  {
    IndexFound(q.indices, y);
    if !IsNew(Some(p), y, alters) {
      var x :| x in p.indices && Equivalent(x, y) && Becomes(x, q.indices, y) && Survives(p, q, x);
      IndexFound(p.indices, x);
    }
  }

  lemma {:induction false} ProvidedAndClearedAgree(p: Table, q: Table, alters: seq<Step>, d3: DbTable, d4: DbTable)
    requires Comparable(p, q) && Includes(alters, Some(p), Some(q)) && HasBuilt(p, q, alters, d3)
    requires Provided(Some(p), q, alters) && Cleared(p, q, alters) && RenamedIn(d3, p.indices, q.indices, d4)
    requires d3.primaryKey == p.primaryKey
             || (p.primaryKey.Some? && exists c :: c in p.primaryKey.value && Drops(ColumnChange(p, q, c)))
    ensures IndicesAgree(q, d4)
  {
    hide IndexAgrees, RenamedIn, HasBuilt, Provided, Cleared, Includes, Comparable;
    assert d4.primaryKey == d3.primaryKey by {
      SameKey(d3, p.indices, q.indices, d4);
    }
    forall n ensures IndexAgrees(q, d4.primaryKey, n, IndexAt(d4, n)) {
      FinalAgrees(p, q, alters, d4.primaryKey, d3, d4, n);
    }
  }

  lemma {:induction false} SameKey(d: DbTable, xs: seq<Index>, ys: seq<Index>, d': DbTable)
    requires RenamedIn(d, xs, ys, d')
    ensures d'.primaryKey == d.primaryKey
  {
  }

  /** An index that is not covered is not there in the end. */
  lemma {:induction false} UncoveredIsMissing(p: Table, q: Table, alters: seq<Step>, d3: DbTable, d4: DbTable, y: Index)
    requires Comparable(p, q) && HasBuilt(p, q, alters, d3) && Moved(d3, p.indices, q.indices, d4)
    requires y in q.indices && !HasEquivalent(p, q, y) && !IsNew(Some(p), y, alters)
    ensures !IndicesAgree(q, d4)
  {
    IndexFound(q.indices, y);
    if IndexAgrees(q, d4.primaryKey, y.name, IndexAt(d4, y.name)) {
      assert ComesFrom(d3, p.indices, q.indices, y.name, ToDb(y));
      NotFromAnywhere(p, q, alters, d3, y);
    }
  }

  lemma {:induction false} NotFromAnywhere(p: Table, q: Table, alters: seq<Step>, d3: DbTable, y: Index)
    requires Comparable(p, q) && HasBuilt(p, q, alters, d3)
    requires y in q.indices && !HasEquivalent(p, q, y) && !IsNew(Some(p), y, alters)
    ensures !ComesFrom(d3, p.indices, q.indices, y.name, ToDb(y))
  {
    IndexFound(q.indices, y);
    NotLeft(p, q, alters, y, y.name);
    assert IndexAt(d3, y.name) == Built(p, q, alters, y.name);
    forall x | x in p.indices ensures IndexAt(d3, x.name) != Some(ToDb(y)) {
      IndexFound(p.indices, x);
      NotLeft(p, q, alters, y, x.name);
      assert IndexAt(d3, x.name) == Built(p, q, alters, x.name);
    }
  }

  lemma {:induction false} NotLeft(p: Table, q: Table, alters: seq<Step>, y: Index, n: Name)
    requires !HasEquivalent(p, q, y)
    ensures Left(p, q, alters, n) != Some(ToDb(y))
  {
  }

  /** Where the renames succeed, a wanted index that has no source is not there in the end. */
  lemma {:induction false} UnprovidedIsMissing(p: Table, q: Table, alters: seq<Step>, d3: DbTable, d4: DbTable, y: Index)
    requires Comparable(p, q) && Includes(alters, Some(p), Some(q)) && HasBuilt(p, q, alters, d3) && Covered(p, q, alters)
    requires RenamedIn(d3, p.indices, q.indices, d4)
    requires y in q.indices && !HasSource(Some(p), q, y) && !IsNew(Some(p), y, alters)
    ensures !IndicesAgree(q, d4)
  {
    var o, x := Origin(p.indices, q.indices, y.name), FindIndex(p.indices, y.name);
    IndexFound(q.indices, y);
    assert IndexAt(d3, y.name) == Built(p, q, alters, y.name);
    if o.Some? {
      IndexFound(q.indices, RenamedTo(o.value, q.indices).value);
      RenamedIsBuilt(p, q, alters, o.value);
      assert Becomes(o.value, q.indices, y);
      assert false;
    }
    assert IndexAt(d4, y.name) != Some(ToDb(y));
    assert !IndexAgrees(q, d4.primaryKey, y.name, IndexAt(d4, y.name));
  }

  /** An index that is not cleared stays. */
  lemma {:induction false} UnclearedStays(p: Table, q: Table, alters: seq<Step>, d3: DbTable, d4: DbTable, x: Index)
    requires Comparable(p, q) && HasBuilt(p, q, alters, d3) && Moved(d3, p.indices, q.indices, d4)
    requires x in p.indices && Unwanted(p, q, x) && LosesName(alters, x.name)
    requires d3.primaryKey == p.primaryKey || d3.primaryKey.None?
    ensures !IndicesAgree(q, d4)
  {
    IndexFound(p.indices, x);
    assert IndexAt(d3, x.name) == Built(p, q, alters, x.name);
    assert !IndexAgrees(q, d4.primaryKey, x.name, IndexAt(d4, x.name));
  }

  // ----- the columns of a kept table -----

  lemma {:induction false} OutcomeAgrees(p: Table, q: Table, n: Name, c: Option<DbColumn>)
    requires ColumnDescribed(p, n, c) && ColumnsDistinct(q.columns)
    ensures ColumnAgrees(q, n, Outcome(q, c, ColumnChange(p, q, n))) <==>
            var wanted := FindColumn(q.columns, n);
            wanted.Some? && wanted.value.arity.List? && FkOf(q, n).None? ==> !Adds(ColumnChange(p, q, n))
  {
  }

  lemma {:induction false} ColumnsAgreeIff(p: Table, q: Table, d: DbTable, d2: DbTable)
    requires ColumnsDescribed(p, d) && ColumnsDistinct(q.columns) && ColumnsAltered(q, d, ColumnChanges(p, q), d2)
    ensures ColumnsAgree(q, d2) <==> NoListCreated(Some(p), q)
    ensures forall n :: FindColumn(q.columns, n).Some? ==> n in d2.columns
  {
    hide ColumnChanges;
    forall n
      ensures ColumnAgrees(q, n, ColumnAt(d2, n)) <==>
              var wanted := FindColumn(q.columns, n);
              wanted.Some? && wanted.value.arity.List? && FkOf(q, n).None? ==> !Adds(ColumnChange(p, q, n))
      ensures FindColumn(q.columns, n).Some? ==> ColumnAt(d2, n).Some?
    {
      assert ColumnDescribed(p, n, ColumnAt(d, n));
      ChangeFound(p, q, n);
      OutcomeAgrees(p, q, n, ColumnAt(d, n));
    }
    hide ColumnAgrees, ColumnChange;
    if NoListCreated(Some(p), q) {
      forall n ensures ColumnAgrees(q, n, ColumnAt(d2, n)) {
      }
    }
    if ColumnsAgree(q, d2) {
      forall c | c in q.columns && c.arity.List? && FkOf(q, c.name).None? ensures !Adds(ColumnChange(p, q, c.name)) {
        ColumnFound(q.columns, c);
        assert ColumnAgrees(q, c.name, ColumnAt(d2, c.name));
      }
    }
  }

  // ----- a kept table -----

  /** The cells of columns that are neither dropped nor rebuilt, row by row. */
  ghost predicate RowsKept(p: Table, q: Table, d: DbTable, d': DbTable) {
    && |d'.rows| == |d.rows|
    && forall i, n :: 0 <= i < |d.rows| && ColumnChange(p, q, n).None? ==> CellAt(d'.rows[i], n) == CellAt(d.rows[i], n)
  }

  /** The primary key stays, or goes with one of its columns. */
  ghost predicate KeyKept(p: Table, q: Table, d: DbTable) {
    || d.primaryKey == p.primaryKey
    || (d.primaryKey.None? && p.primaryKey.Some? && exists c :: c in p.primaryKey.value && Drops(ColumnChange(p, q, c)))
  }

  lemma {:induction false} KeyAfterAlteration(p: Table, q: Table, d: DbTable, d2: DbTable)
    requires ColumnsDistinct(q.columns) && d.primaryKey == p.primaryKey && KeyAltered(d, ColumnChanges(p, q), d2)
    ensures KeyKept(p, q, d2)
  {
    if p.primaryKey.Some? {
      SurvivesIff(p, q, p.primaryKey.value);
    }
  }

  lemma {:induction false} RowsAfterAlteration(p: Table, q: Table, d: DbTable, d2: DbTable)
    requires ColumnsDistinct(q.columns) && RowsAltered(q, d, ColumnChanges(p, q), d2)
    ensures RowsKept(p, q, d, d2)
  {
    forall i, n | 0 <= i < |d.rows| && ColumnChange(p, q, n).None?
      ensures CellAt(d2.rows[i], n) == CellAt(d.rows[i], n)
    {
      ChangeFound(p, q, n);
      assert RowAltered(q, d.rows[i], ColumnChanges(p, q), d2.rows[i]);
    }
  }

  lemma {:induction false} SameColumnsDescribed(t: Table, d: DbTable, d1: DbTable)
    requires ColumnsDescribed(t, d) && d1.columns == d.columns
    ensures ColumnsDescribed(t, d1)
  {
    forall n ensures ColumnDescribed(t, n, ColumnAt(d1, n)) {
      assert ColumnDescribed(t, n, ColumnAt(d, n));
    }
  }

  /** The states a kept table goes through while its alteration is possible. */
  lemma {:induction false} KeptStates(
    family: SqlFamily, p: Table, q: Table, alters: seq<Step>, d: DbTable, d1: DbTable, d2: DbTable
  ) returns (d3: DbTable)
    requires Comparable(p, q) && TableDescribed(p, d)
    requires RemovedFrom(d, p, p.indices, q.indices, alters, d1)
    requires Altered(q, d1, ColumnChanges(p, q), d2)
    ensures (ColumnsAgree(q, d2) <==> NoListCreated(Some(p), q)) && RowsKept(p, q, d, d2)
    ensures Concerns(p.name, NewIndexes(Some(p), Some(q), alters))
    ensures RunOnTable(family, Present(d2), NewIndexes(Some(p), Some(q), alters)) == Some(Present(d3))
    ensures SameButIndexes(d2, d3) && HasBuilt(p, q, alters, d3) && KeyKept(p, q, d3)
  {
    LeftAfterAlteration(p, q, alters, d, d1, d2);
    SameColumnsDescribed(p, d, d1);
    ColumnsAgreeIff(p, q, d1, d2);
    KeyAfterAlteration(p, q, d1, d2);
    RowsAfterAlteration(p, q, d1, d2);
    forall y | y in q.indices && Created(p.indices, y, alters) ensures y.name !in d2.indices {
      assert IndexAt(d2, y.name) == Left(p, q, alters, y.name);
    }
    forall y, c | y in q.indices && c in y.columns ensures c in d2.columns {
      assert FindColumn(q.columns, c).Some?;
    }
    d3 := RunCreations(family, d2, q.name, p.indices, q.indices, alters);
    BuiltAfterCreations(p, q, alters, d2, d3);
  }

  lemma {:induction false} KeptSteps(p: Table, q: Table, alters: seq<Step>)
    requires p.name == q.name
    ensures TableSteps(Some(p), Some(q), alters) ==
            Removals(Some(p), Some(q), alters) + TableAlteration(p, Some(q)) + NewIndexes(Some(p), Some(q), alters) + Renames(Some(p), Some(q))
    ensures Concerns(p.name, Removals(Some(p), Some(q), alters)) && Concerns(p.name, TableAlteration(p, Some(q)))
    ensures Concerns(p.name, NewIndexes(Some(p), Some(q), alters)) && Concerns(p.name, Renames(Some(p), Some(q)))
  {
    RemovalsConcern(p, p.indices, q.indices, alters);
    CreationsConcern(q.name, p.indices, q.indices, alters);
    RenamesConcern(p.name, p.indices, q.indices);
  }

  /** The steps of a kept table, as one run after another. */
  lemma {:induction false} KeptRun(family: SqlFamily, p: Table, q: Table, alters: seq<Step>, s: Slot)
    requires p.name == q.name
    ensures Concerns(p.name, TableSteps(Some(p), Some(q), alters))
    ensures Concerns(p.name, Removals(Some(p), Some(q), alters)) && Concerns(p.name, TableAlteration(p, Some(q)))
    ensures Concerns(p.name, NewIndexes(Some(p), Some(q), alters)) && Concerns(p.name, Renames(Some(p), Some(q)))
    ensures RunOnTable(family, s, TableSteps(Some(p), Some(q), alters)) ==
            var s1 := RunOnTable(family, s, Removals(Some(p), Some(q), alters));
            if s1.None? then None else
              var s2 := RunOnTable(family, s1.value, TableAlteration(p, Some(q)));
              if s2.None? then None else
                var s3 := RunOnTable(family, s2.value, NewIndexes(Some(p), Some(q), alters));
                if s3.None? then None else RunOnTable(family, s3.value, Renames(Some(p), Some(q)))
  {
    KeptSteps(p, q, alters);
    var a, b, c, e :=
      Removals(Some(p), Some(q), alters), TableAlteration(p, Some(q)), NewIndexes(Some(p), Some(q), alters), Renames(Some(p), Some(q));
    hide TableSteps, Removals, TableAlteration, NewIndexes, Renames, RunOnTable;
    RunOnTableConcat(family, s, a, b);
    RunOnTableConcat(family, s, a + b, c);
    RunOnTableConcat(family, s, a + b + c, e);
  }

  lemma {:induction false} KeptTableReaches(family: SqlFamily, p: Table, q: Table, alters: seq<Step>, d: DbTable)
    requires !family.Sqlite? && Comparable(p, q) && TableDescribed(p, d) && Includes(alters, Some(p), Some(q))
    ensures var steps := TableSteps(Some(p), Some(q), alters);
            && Concerns(p.name, steps)
            && (Reaches(family, Present(d), steps, Some(q), p.name) <==> Safe(family, Some(p), Some(q), alters))
            && var r := RunOnTable(family, Present(d), steps);
               (r.Some? ==> r.value.Present? && RowsKept(p, q, d, r.value.table))
  {
    KeptRun(family, p, q, alters, Present(d));
    var d1 := KeptRemovals(family, p, q, alters, d);
    hide TableSteps, Removals, TableAlteration, NewIndexes, Renames, RunOnTable, Altered, RemovedFrom, TableDescribed, Comparable;
    hide ColumnsAgree, IndicesAgree, Provided, TargetsFree, TargetsDiffer, Cleared, NoListCreated, Unlinkable, HasBuilt, RowsKept, Includes;
    if Unlinkable(family, p, q) {
      var d2 := RunOnTable(family, Present(d1), TableAlteration(p, Some(q))).value.table;
      var d3 := KeptStates(family, p, q, alters, d, d1, d2);
      KeptRenames(family, p, q, alters, d3);
      var r := RunOnTable(family, Present(d3), Renames(Some(p), Some(q)));
      if r.Some? {
        SameColumnsAndRows(p, q, d, d2, r.value.table);
      }
    }
  }

  lemma {:induction false} SameColumnsAndRows(p: Table, q: Table, d: DbTable, d2: DbTable, d4: DbTable)
    requires d4.columns == d2.columns && d4.rows == d2.rows
    ensures ColumnsAgree(q, d4) <==> ColumnsAgree(q, d2)
    ensures RowsKept(p, q, d, d4) <==> RowsKept(p, q, d, d2)
  {
    assert forall n :: ColumnAt(d4, n) == ColumnAt(d2, n);
  }

  lemma {:induction false} KeptRemovals(family: SqlFamily, p: Table, q: Table, alters: seq<Step>, d: DbTable) returns (d1: DbTable)
    requires !family.Sqlite? && Comparable(p, q) && TableDescribed(p, d)
    ensures Concerns(p.name, Removals(Some(p), Some(q), alters))
    ensures RunOnTable(family, Present(d), Removals(Some(p), Some(q), alters)) == Some(Present(d1))
    ensures RemovedFrom(d, p, p.indices, q.indices, alters, d1)
    ensures RunOnTable(family, Present(d1), TableAlteration(p, Some(q))).Some? <==> Unlinkable(family, p, q)
    ensures Unlinkable(family, p, q) ==>
              var s := RunOnTable(family, Present(d1), TableAlteration(p, Some(q))).value;
              s.Present? && Altered(q, d1, ColumnChanges(p, q), s.table)
  {
    IndicesPresent(p, d);
    d1 := RunRemovals(family, d, p, p.indices, q.indices, alters);
    SameColumnsDescribed(p, d, d1);
    AlterationRuns(family, p, q, d1);
    hide TableAlteration, RunOnTable, Altered, Unlinkable, ColumnChanges;
  }

  lemma {:induction false} IndicesPresent(t: Table, d: DbTable)
    requires WellFormedTable(t) && IndicesDescribed(t, d)
    ensures forall x :: x in t.indices ==> x.name in d.indices
  {
    forall x | x in t.indices ensures x.name in d.indices {
      IndexFound(t.indices, x);
      assert IndexAt(d, x.name) == IndexDescribed(t, x.name);
    }
  }

  lemma {:induction false} KeptRenames(family: SqlFamily, p: Table, q: Table, alters: seq<Step>, d3: DbTable)
    requires !family.Sqlite? && Comparable(p, q) && Includes(alters, Some(p), Some(q))
    requires HasBuilt(p, q, alters, d3) && KeyKept(p, q, d3)
    ensures Concerns(p.name, Renames(Some(p), Some(q)))
    ensures var r := RunOnTable(family, Present(d3), Renames(Some(p), Some(q)));
            && (r.Some? ==> r.value.Present? && SameButIndexes(d3, r.value.table))
            && (r.Some? && IndicesAgree(q, r.value.table) <==>
                && Provided(Some(p), q, alters) && TargetsDiffer(p.indices, q.indices) && TargetsFree(p, q)
                && Cleared(p, q, alters))
  {
    RenamesMove(family, d3, p.name, p.indices, q.indices);
    var r := RunOnTable(family, Present(d3), Renames(Some(p), Some(q)));
    hide RunOnTable, IndexRenames, IndicesAgree, HasBuilt, Includes, WellFormedTable, RenamedIn, HasSource, HasEquivalent;
    if Provided(Some(p), q, alters) {
      ProvidedIsCovered(p, q, alters);
    }
    if !Covered(p, q, alters) {
      if r.Some? {
        var y :| y in q.indices && !HasEquivalent(p, q, y) && !IsNew(Some(p), y, alters);
        UncoveredIsMissing(p, q, alters, d3, r.value.table, y);
      }
    } else if !TargetsDiffer(p.indices, q.indices) {
      SharedTargets(family, p, q, alters, d3);
    } else if !TargetsFree(p, q) {
      var i :| 0 <= i < |p.indices| && RenamedTo(p.indices[i], q.indices).Some?
               && !Free(p, q, i, RenamedTo(p.indices[i], q.indices).value.name);
      TakenMeans(p, q, alters, d3, i);
      RenamesBlocked(family, d3, p.name, p.indices, q.indices, i);
    } else {
      AllRenamed(family, p, q, alters, d3);
      hide Moved, Provided, Cleared, Covered;
      RenamedAgreeIff(p, q, alters, d3, r.value.table);
    }
  }

  lemma {:induction false} SharedTargets(family: SqlFamily, p: Table, q: Table, alters: seq<Step>, d3: DbTable)
    requires !family.Sqlite? && Comparable(p, q) && Includes(alters, Some(p), Some(q)) && HasBuilt(p, q, alters, d3)
    requires Covered(p, q, alters) && !TargetsDiffer(p.indices, q.indices)
    ensures Concerns(p.name, Renames(Some(p), Some(q)))
    ensures RunOnTable(family, Present(d3), Renames(Some(p), Some(q))).None?
  {
    RenamesAreThere(p, q, alters, d3);
    RenamesConcern(p.name, p.indices, q.indices);
    hide RunOnTable, HasBuilt, Includes, Covered, RenamesPresent;
    var x, x' :| x in p.indices && x' in p.indices && RenamedTo(x, q.indices).Some? && RenamedTo(x', q.indices).Some?
                 && RenamedTo(x, q.indices).value.name == RenamedTo(x', q.indices).value.name && x != x';
    var i :| 0 <= i < |p.indices| && p.indices[i] == x;
    var j :| 0 <= j < |p.indices| && p.indices[j] == x';
    if i < j {
      SharedTargetBlocks(family, d3, p.name, p.indices, q.indices, i, j);
    } else {
      SharedTargetBlocks(family, d3, p.name, p.indices, q.indices, j, i);
    }
  }

  lemma {:induction false} RenamedAgreeIff(p: Table, q: Table, alters: seq<Step>, d3: DbTable, d4: DbTable)
    requires Comparable(p, q) && Includes(alters, Some(p), Some(q)) && HasBuilt(p, q, alters, d3) && KeyKept(p, q, d3)
    requires Covered(p, q, alters) && RenamedIn(d3, p.indices, q.indices, d4) && Moved(d3, p.indices, q.indices, d4)
    ensures IndicesAgree(q, d4) <==> Provided(Some(p), q, alters) && Cleared(p, q, alters)
  {
    hide IndicesAgree, HasBuilt, Includes, WellFormedTable, RenamedIn, HasSource, Covered, Moved;
    if !Provided(Some(p), q, alters) {
      var y :| y in q.indices && !HasSource(Some(p), q, y) && !IsNew(Some(p), y, alters);
      UnprovidedIsMissing(p, q, alters, d3, d4, y);
    } else if !Cleared(p, q, alters) {
      var x :| x in p.indices && Unwanted(p, q, x) && LosesName(alters, x.name);
      UnclearedStays(p, q, alters, d3, d4, x);
    } else {
      ProvidedAndClearedAgree(p, q, alters, d3, d4);
    }
  }

  lemma {:induction false} AllRenamed(family: SqlFamily, p: Table, q: Table, alters: seq<Step>, d3: DbTable)
    requires !family.Sqlite? && Comparable(p, q) && Includes(alters, Some(p), Some(q)) && HasBuilt(p, q, alters, d3)
    requires Covered(p, q, alters) && TargetsDiffer(p.indices, q.indices) && TargetsFree(p, q)
    ensures Concerns(p.name, Renames(Some(p), Some(q)))
    ensures var r := RunOnTable(family, Present(d3), Renames(Some(p), Some(q)));
            r.Some? && r.value.Present? && RenamedIn(d3, p.indices, q.indices, r.value.table)
  {
    RenamesReady(p, q, alters, d3);
    hide RunOnTable, IndexRenames, HasBuilt, Includes, RenamedIn, Covered, TargetsFree, TargetsDiffer;
    RunRenames(family, d3, p.name, p.indices, q.indices);
  }
}
