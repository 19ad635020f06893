/** Whole migrations on SQLite. */
module SqliteMigration {
  import opened Wrappers
  import opened Names
  import opened SqlSchemas
  import opened SqlDatabases
  import opened SqlChanges
  import opened SqlDiffer
  import opened SqlTableSteps
  import opened SqlIndexes
  import opened SqlAlterations
  import opened SqlTableMigration
  import opened SqlMigration
  import opened SqliteFix

  // ----- corrected steps, table by table -----

  /** The correction of one table's steps, given the step that rebuilds it. */
  function CorrectTable(steps: seq<Step>, fixed: bool, rebuild: seq<Step>): seq<Step> {
    if steps == [] then []
    else if FixedBy(steps[0]) != [] then rebuild + CorrectTable(steps[1..], true, rebuild)
    else if steps[0].CreateIndex? && fixed then CorrectTable(steps[1..], fixed, rebuild)
    else [steps[0]] + CorrectTable(steps[1..], fixed, rebuild)
  }

  function RebuildOf(p: Option<Table>, q: Option<Table>): seq<Step> {
    if p.Some? && q.Some? then [Rebuild(p.value, q.value)] else []
  }

  lemma {:induction false} StepFixed(step: Step, n: Name)
    requires Local(step)
    ensures FixedBy(step) != [] ==> FixedBy(step) == [Target(step)]
  {
  }

  lemma {:induction false} CorrectedFor(steps: seq<Step>, fixed: seq<Name>, current: Schema, next: Schema, n: Name)
    requires AllLocal(steps) && Corrected(steps, fixed, current, next).Some?
    ensures For(n, Corrected(steps, fixed, current, next).value) ==
            CorrectTable(For(n, steps), n in fixed, RebuildOf(Of(current, n), Of(next, n)))
  {
    if steps != [] {
      var step, rest, m := steps[0], steps[1..], Target(steps[0]);
      assert step in steps;
      var fixed' := fixed + FixedBy(step);
      var first := CorrectedStep(step, fixed, current, next).value;
      var others := Corrected(rest, fixed', current, next).value;
      CorrectedFor(rest, fixed', current, next, n);
      StepFixed(step, n);
      CorrectedStepConcerns(step, fixed, current, next);
      ForHead(n, m, first, others);
      assert n in fixed' <==> n in fixed || (n == m && FixedBy(step) != []);
      if n == m {
        assert For(n, steps) == [step] + For(n, rest) && ([step] + For(n, rest))[1..] == For(n, rest);
      }
    }
  }

  lemma {:induction false} CorrectedStepConcerns(step: Step, fixed: seq<Name>, current: Schema, next: Schema)
    requires Local(step) && CorrectedStep(step, fixed, current, next).Some?
    ensures Concerns(Target(step), CorrectedStep(step, fixed, current, next).value)
    ensures FixedBy(step) != [] ==>
              CorrectedStep(step, fixed, current, next).value == RebuildOf(Of(current, Target(step)), Of(next, Target(step)))
  {
  }

  ghost predicate Fixes(steps: seq<Step>) {
    exists step :: step in steps && FixedBy(step) != []
  }

  lemma {:induction false} CorrectConcat(xs: seq<Step>, ys: seq<Step>, fixed: bool, rebuild: seq<Step>)
    ensures CorrectTable(xs + ys, fixed, rebuild) ==
            CorrectTable(xs, fixed, rebuild) + CorrectTable(ys, fixed || Fixes(xs), rebuild)
  {
    if xs == [] {
      assert xs + ys == ys;
    } else {
      assert (xs + ys)[0] == xs[0] && (xs + ys)[1..] == xs[1..] + ys;
      FixesFirst(xs);
      hide FixedBy, Fixes;
      var fixed' := fixed || FixedBy(xs[0]) != [];
      CorrectConcat(xs[1..], ys, fixed', rebuild);
      var first :=
        if FixedBy(xs[0]) != [] then rebuild else if xs[0].CreateIndex? && fixed then [] else [xs[0]];
      var a, b := CorrectTable(xs[1..], fixed', rebuild), CorrectTable(ys, fixed' || Fixes(xs[1..]), rebuild);
      assert CorrectTable(xs, fixed, rebuild) == first + a;
      assert CorrectTable(xs + ys, fixed, rebuild) == first + CorrectTable(xs[1..] + ys, fixed', rebuild);
      assert first + (a + b) == (first + a) + b;
    }
  }

  lemma {:induction false} FixesFirst(xs: seq<Step>)
    requires xs != []
    ensures Fixes(xs) <==> FixedBy(xs[0]) != [] || Fixes(xs[1..])
  {
    assert xs == [xs[0]] + xs[1..];
  }

  lemma {:induction false} CorrectKeeps(steps: seq<Step>, rebuild: seq<Step>)
    requires !Fixes(steps)
    ensures CorrectTable(steps, false, rebuild) == steps
  {
    if steps != [] {
      assert steps[0] in steps;
      CorrectKeeps(steps[1..], rebuild);
    }
  }

  lemma {:induction false} CorrectSkips(n: Name, xs: seq<Index>, ys: seq<Index>, alters: seq<Step>, rebuild: seq<Step>)
    ensures CorrectTable(IndexCreations(n, xs, ys, alters), true, rebuild) == []
    ensures !Fixes(IndexCreations(n, xs, ys, alters))
  {
    if ys != [] {
      CorrectSkips(n, xs, ys[1..], alters, rebuild);
      var rest := IndexCreations(n, xs, ys[1..], alters);
      assert ([CreateIndex(n, ys[0])] + rest)[1..] == rest;
    }
  }

  lemma {:induction false} RemovalsNotFixed(t: Table, xs: seq<Index>, ys: seq<Index>, alters: seq<Step>)
    ensures !Fixes(IndexRemovals(t, xs, ys, alters))
  {
    if xs != [] {
      RemovalsNotFixed(t, xs[1..], ys, alters);
    }
  }

  function Times(k: nat, step: Step): seq<Step> {
    if k == 0 then [] else [step] + Times(k - 1, step)
  }

  lemma {:induction false} CorrectRenames(n: Name, xs: seq<Index>, ys: seq<Index>, fixed: bool, rebuild: Step)
    ensures CorrectTable(IndexRenames(n, xs, ys), fixed, [rebuild]) == Times(|IndexRenames(n, xs, ys)|, rebuild)
  {
    if xs != [] {
      var rest := IndexRenames(n, xs[1..], ys);
      CorrectRenames(n, xs[1..], ys, true, rebuild);
      CorrectRenames(n, xs[1..], ys, fixed, rebuild);
      if RenamedTo(xs[0], ys).Some? {
        var first := AlterIndex(n, xs[0].name, RenamedTo(xs[0], ys).value.name);
        assert IndexRenames(n, xs, ys) == [first] + rest && ([first] + rest)[1..] == rest;
      }
    }
  }

  // ----- the corrected steps of a kept table -----

  /** What happens before the first rebuild, other than removing indexes. */
  function Middle(p: Table, q: Table, alters: seq<Step>): seq<Step> {
    if NeedsFix(Changes(p, q)) then [] else TableAlteration(p, Some(q)) + NewIndexes(Some(p), Some(q), alters)
  }

  function RebuildCount(p: Table, q: Table): nat {
    |Renames(Some(p), Some(q))| + if NeedsFix(Changes(p, q)) then 1 else 0
  }

  predicate Rebuilds(p: Table, q: Table) {
    RebuildCount(p, q) > 0
  }

  lemma {:induction false} CorrectAlteration(p: Table, q: Table, rebuild: seq<Step>)
    ensures CorrectTable(TableAlteration(p, Some(q)), false, rebuild) ==
            if NeedsFix(Changes(p, q)) then rebuild else TableAlteration(p, Some(q))
    ensures Fixes(TableAlteration(p, Some(q))) <==> NeedsFix(Changes(p, q))
  {
    hide Changes;
    if Changes(p, q) != [] {
      var step := AlterTable(q, Changes(p, q));
      assert TableAlteration(p, Some(q)) == [step];
      assert [step][1..] == [];
      assert step in [step];
      assert FixedBy(step) != [] <==> NeedsFix(Changes(p, q));
      assert rebuild + [] == rebuild;
    } else {
      assert !NeedsFix(Changes(p, q));
    }
  }

  lemma {:induction false} PiecesCorrected(p: Table, q: Table, alters: seq<Step>)
    requires p.name == q.name
    ensures var fixed, rebuild := NeedsFix(Changes(p, q)), [Rebuild(p, q)];
            && CorrectTable(Removals(Some(p), Some(q), alters), false, rebuild) == Removals(Some(p), Some(q), alters)
            && !Fixes(Removals(Some(p), Some(q), alters))
            && CorrectTable(NewIndexes(Some(p), Some(q), alters), fixed, rebuild) == (if fixed then [] else NewIndexes(Some(p), Some(q), alters))
            && !Fixes(NewIndexes(Some(p), Some(q), alters))
            && CorrectTable(Renames(Some(p), Some(q)), fixed, rebuild) == Times(|Renames(Some(p), Some(q))|, Rebuild(p, q))
  {
    hide Changes, NeedsFix;
    var rebuild := Rebuild(p, q);
    RemovalsNotFixed(p, p.indices, q.indices, alters);
    CorrectKeeps(Removals(Some(p), Some(q), alters), [rebuild]);
    CorrectSkips(q.name, p.indices, q.indices, alters, [rebuild]);
    CorrectKeeps(NewIndexes(Some(p), Some(q), alters), [rebuild]);
    CorrectRenames(p.name, p.indices, q.indices, NeedsFix(Changes(p, q)), rebuild);
  }

  lemma {:induction false} CorrectFour(a: seq<Step>, b: seq<Step>, c: seq<Step>, e: seq<Step>, rebuild: seq<Step>)
    requires !Fixes(a) && !Fixes(c)
    ensures CorrectTable(a + b + c + e, false, rebuild) ==
            CorrectTable(a, false, rebuild) + CorrectTable(b, false, rebuild)
            + CorrectTable(c, Fixes(b), rebuild) + CorrectTable(e, Fixes(b), rebuild)
  {
    CorrectConcat(a, b, false, rebuild);
    CorrectConcat(a + b, c, false, rebuild);
    CorrectConcat(a + b + c, e, false, rebuild);
    FixesConcat(a, b);
    FixesConcat(a + b, c);
  }

  /** Its indexes are removed, then it is altered or rebuilt, once more for every renamed index. */
  lemma {:induction false} CorrectedKeptTable(p: Table, q: Table, alters: seq<Step>)
    requires p.name == q.name
    ensures CorrectTable(TableSteps(Some(p), Some(q), alters), false, [Rebuild(p, q)]) ==
            Removals(Some(p), Some(q), alters) + (Middle(p, q, alters) + Times(RebuildCount(p, q), Rebuild(p, q)))
  {
    hide CorrectTable, TableSteps, Removals, TableAlteration, NewIndexes, Renames, Fixes, Changes, NeedsFix;
    var rebuild := Rebuild(p, q);
    var a, b, c, e :=
      Removals(Some(p), Some(q), alters), TableAlteration(p, Some(q)), NewIndexes(Some(p), Some(q), alters), Renames(Some(p), Some(q));
    KeptSteps(p, q, alters);
    PiecesCorrected(p, q, alters);
    CorrectAlteration(p, q, [rebuild]);
    CorrectFour(a, b, c, e, [rebuild]);
    if NeedsFix(Changes(p, q)) {
      assert Times(|e| + 1, rebuild) == [rebuild] + Times(|e|, rebuild);
      assert a + [rebuild] + [] + Times(|e|, rebuild) == a + ([] + ([rebuild] + Times(|e|, rebuild)));
    } else {
      assert a + b + c + Times(|e|, rebuild) == a + ((b + c) + Times(|e|, rebuild));
    }
  }

  lemma {:induction false} FixesConcat(xs: seq<Step>, ys: seq<Step>)
    ensures Fixes(xs + ys) <==> Fixes(xs) || Fixes(ys)
  {
    if Fixes(xs) {
      var step :| step in xs && FixedBy(step) != [];
      assert step in xs + ys;
    }
    if Fixes(ys) {
      var step :| step in ys && FixedBy(step) != [];
      assert step in xs + ys;
    }
  }

  // ----- running them -----

  /** The cells of the columns common to both descriptions, row by row. */
  ghost predicate CommonKept(p: Table, q: Table, d: DbTable, d': DbTable) {
    && |d'.rows| == |d.rows|
    && forall i, n :: 0 <= i < |d.rows| && n in Common(q, p.columns) ==> CellAt(d'.rows[i], n) == CellAt(d.rows[i], n)
  }

  /** Every row has a cell in every column that is copied. */
  ghost predicate RowsHave(d: DbTable, columns: seq<Name>) {
    forall i, n :: 0 <= i < |d.rows| && n in columns ==> n in d.rows[i]
  }

  /** A table that is exactly as described. */
  ghost predicate Exact(q: Table, d: DbTable) {
    d.columns == RenderedColumns(q, q.columns) && d.indices == RenderedIndices(q.indices) && d.primaryKey == q.primaryKey
  }

  lemma {:induction false} RebuildKeeps(p: Table, q: Table, d: DbTable)
    requires RowsHave(d, Common(q, p.columns))
    ensures var d' := Rebuilt(d, q, Common(q, p.columns));
            Exact(q, d') && CommonKept(p, q, d, d') && RowsHave(d', Common(q, p.columns))
            && forall c :: c in Common(q, p.columns) ==> c in d'.columns
  {
  }

  lemma {:induction false} RebuildTimes(k: nat, p: Table, q: Table, d: DbTable)
    requires k > 0 && RowsHave(d, Common(q, p.columns)) && forall c :: c in Common(q, p.columns) ==> c in d.columns
    ensures Concerns(q.name, Times(k, Rebuild(p, q)))
    ensures var r := RunOnTable(Sqlite, Present(d), Times(k, Rebuild(p, q)));
            && (r.Some? <==> Common(q, p.columns) != [])
            && (r.Some? ==> r.value.Present? && Exact(q, r.value.table) && CommonKept(p, q, d, r.value.table))
    decreases k
  {
    TimesConcerns(k, Rebuild(p, q));
    TimesConcerns(k - 1, Rebuild(p, q));
    RunFirst(Sqlite, Present(d), Rebuild(p, q), Times(k - 1, Rebuild(p, q)));
    RebuildKeeps(p, q, d);
    RebuildApplies(p, q, d);
    hide Rebuilt, Exact, RowsHave, CommonKept, ApplyToTable;
    if Common(q, p.columns) != [] {
      var d' := Rebuilt(d, q, Common(q, p.columns));
      if k > 1 {
        RebuildTimes(k - 1, p, q, d');
        CommonKeptTwice(p, q, d, d', RunOnTable(Sqlite, Present(d'), Times(k - 1, Rebuild(p, q))).value.table);
      }
    }
  }

  lemma {:induction false} RebuildApplies(p: Table, q: Table, d: DbTable)
    requires forall c :: c in Common(q, p.columns) ==> c in d.columns
    ensures ApplyToTable(Sqlite, Present(d), Rebuild(p, q)) ==
            if Common(q, p.columns) != [] then Some(Present(Rebuilt(d, q, Common(q, p.columns)))) else None
  {
  }

  lemma {:induction false} TimesConcerns(k: nat, step: Step)
    requires Local(step)
    ensures Concerns(Target(step), Times(k, step))
  {
    if k > 0 {
      TimesConcerns(k - 1, step);
    }
  }

  lemma {:induction false} CommonKeptTwice(p: Table, q: Table, d: DbTable, d1: DbTable, d2: DbTable)
    requires CommonKept(p, q, d, d1) && CommonKept(p, q, d1, d2)
    ensures CommonKept(p, q, d, d2)
  {
    forall i, n | 0 <= i < |d.rows| && n in Common(q, p.columns) ensures CellAt(d2.rows[i], n) == CellAt(d.rows[i], n) {
      assert CellAt(d1.rows[i], n) == CellAt(d.rows[i], n);
    }
  }

  lemma {:induction false} ExactAgrees(q: Table, d: DbTable)
    requires WellFormedTable(q) && Exact(q, d)
    ensures ColumnsAgree(q, d) <==> NoListCreated(None, q)
    ensures IndicesAgree(q, d)
  {
    FreshColumns(q, d);
  }

  // ----- a table that only gets new columns -----

  lemma {:induction false} OnlyAdds(p: Table, q: Table)
    requires WellFormedTable(p) && WellFormedTable(q) && !NeedsFix(Changes(p, q))
    ensures ForeignKeysToDrop(p.foreignKeys, q.foreignKeys) == []
    ensures Changes(p, q) == ColumnChanges(p, q)
    ensures forall c :: c in ColumnChanges(p, q) ==> c.AddColumn? && !c.column.arity.Required?
    ensures forall n :: !Drops(ColumnChange(p, q, n))
  {
    forall n ensures !Drops(ColumnChange(p, q, n)) {
      ChangeFound(p, q, n);
    }
    forall f | f in p.foreignKeys ensures !Unmatched(f, q.foreignKeys) {
      if Unmatched(f, q.foreignKeys) {
        UnmatchedIsChanged(p, q, f);
      }
    }
    NoForeignKeysToDrop(p.foreignKeys, q.foreignKeys);
    assert Changes(p, q) == ColumnChanges(p, q);
  }

  lemma {:induction false} AdditionsApplicable(p: Table, q: Table, d: DbTable)
    requires WellFormedTable(p) && WellFormedTable(q) && !NeedsFix(Changes(p, q)) && ColumnsDescribed(p, d)
    ensures AllApplicable(Sqlite, d, ColumnChanges(p, q))
  {
    OnlyAdds(p, q);
    forall n | FindChange(ColumnChanges(p, q), n).Some?
      ensures Applicable(Sqlite, d, FindChange(ColumnChanges(p, q), n).value)
    {
      ChangeFound(p, q, n);
      assert ColumnDescribed(p, n, ColumnAt(d, n));
    }
  }

  lemma {:induction false} AdditionsRun(p: Table, q: Table, d: DbTable)
    requires WellFormedTable(p) && WellFormedTable(q) && !NeedsFix(Changes(p, q)) && ColumnsDescribed(p, d)
    ensures var r := RunOnTable(Sqlite, Present(d), TableAlteration(p, Some(q)));
            && (r.Some? <==> |Changes(p, q)| <= 1)
            && (r.Some? ==> r.value.Present? && Altered(q, d, ColumnChanges(p, q), r.value.table))
  {
    OnlyAdds(p, q);
    var cols := ColumnChanges(p, q);
    ChangesColumnWise(p, q);
    ChangesColumnByColumn(Sqlite, q, d, cols);
    AdditionsApplicable(p, q, d);
    assert |cols| == 1 ==> cols[0] in cols;
    hide Changes, NeedsFix, ColumnChanges, Altered, AllApplicable, ColumnsDescribed, WellFormedTable, ApplyChanges, ColumnWise;
    if Changes(p, q) != [] {
      RunFirst(Sqlite, Present(d), AlterTable(q, Changes(p, q)), []);
      assert [AlterTable(q, Changes(p, q))] + [] == TableAlteration(p, Some(q));
    }
  }

  /** Without renames and rebuilt columns, the indexes agree if all are provided and cleared. */
  lemma {:induction false} UnrenamedAgreeIff(p: Table, q: Table, alters: seq<Step>, d3: DbTable)
    requires Comparable(p, q) && Renames(Some(p), Some(q)) == [] && Includes(alters, Some(p), Some(q))
    requires HasBuilt(p, q, alters, d3) && KeyKept(p, q, d3)
    ensures IndicesAgree(q, d3) <==> Provided(Some(p), q, alters) && Cleared(p, q, alters)
  {
    forall x | x in p.indices ensures RenamedTo(x, q.indices).None? {
      if RenamedTo(x, q.indices).Some? {
        RenameStep(p.name, p.indices, q.indices, x);
      }
    }
    assert RenamedIn(d3, p.indices, q.indices, d3);
    NothingMoved(d3, p.indices, q.indices);
    hide IndicesAgree, HasBuilt, WellFormedTable, RenamedIn, Moved;
    if Covered(p, q, alters) {
      RenamedAgreeIff(p, q, alters, d3, d3);
    } else {
      var y :| y in q.indices && !HasEquivalent(p, q, y) && !IsNew(Some(p), y, alters);
      UncoveredIsMissing(p, q, alters, d3, d3, y);
      if Provided(Some(p), q, alters) {
        ProvidedIsCovered(p, q, alters);
      }
    }
  }

  /** Without a rebuild before it, the alteration keeps every common column. */
  lemma {:induction false} MiddleRuns(p: Table, q: Table, alters: seq<Step>, d: DbTable, d1: DbTable)
    requires Comparable(p, q) && TableDescribed(p, d) && !NeedsFix(Changes(p, q)) && Includes(alters, Some(p), Some(q))
    requires RemovedFrom(d, p, p.indices, q.indices, alters, d1)
    ensures Concerns(p.name, Middle(p, q, alters))
    ensures var r := RunOnTable(Sqlite, Present(d1), Middle(p, q, alters));
            && (r.Some? <==> |Changes(p, q)| <= 1)
            && (r.Some? ==>
                  && r.value.Present? && CommonKept(p, q, d, r.value.table)
                  && (forall c :: c in Common(q, p.columns) ==> c in r.value.table.columns)
                  && (Renames(Some(p), Some(q)) == [] ==>
                        && (IndicesAgree(q, r.value.table) <==> Provided(Some(p), q, alters) && Cleared(p, q, alters))
                        && (ColumnsAgree(q, r.value.table) <==> NoListCreated(Some(p), q))))
  {
    KeptSteps(p, q, alters);
    SameColumnsDescribed(p, d, d1);
    AdditionsRun(p, q, d1);
    hide TableAlteration, NewIndexes, Renames, RunOnTable, Altered, RemovedFrom, TableSteps, Removals, Provided, Cleared, IndicesAgree, Includes;
    RunOnTableConcat(Sqlite, Present(d1), TableAlteration(p, Some(q)), NewIndexes(Some(p), Some(q), alters));
    if |Changes(p, q)| <= 1 {
      var d2 := RunOnTable(Sqlite, Present(d1), TableAlteration(p, Some(q))).value.table;
      var d3 := KeptStates(Sqlite, p, q, alters, d, d1, d2);
      AdditionsKeep(p, q, alters, d, d1, d2, d3);
    }
  }

  lemma {:induction false} AdditionsKeep(p: Table, q: Table, alters: seq<Step>, d: DbTable, d1: DbTable, d2: DbTable, d3: DbTable)
    requires Comparable(p, q) && ColumnsDescribed(p, d) && !NeedsFix(Changes(p, q)) && d1.columns == d.columns
    requires Altered(q, d1, ColumnChanges(p, q), d2) && Includes(alters, Some(p), Some(q))
    requires (ColumnsAgree(q, d2) <==> NoListCreated(Some(p), q)) && RowsKept(p, q, d, d2)
    requires SameButIndexes(d2, d3) && HasBuilt(p, q, alters, d3) && KeyKept(p, q, d3)
    ensures CommonKept(p, q, d, d3)
    ensures forall c :: c in Common(q, p.columns) ==> c in d3.columns
    ensures Renames(Some(p), Some(q)) == [] ==>
              && (IndicesAgree(q, d3) <==> Provided(Some(p), q, alters) && Cleared(p, q, alters))
              && (ColumnsAgree(q, d3) <==> NoListCreated(Some(p), q))
  {
    OnlyAdds(p, q);
    forall n | n in Common(q, p.columns) ensures ColumnChange(p, q, n).None? && n in d2.columns {
      ChangeFound(p, q, n);
      assert ColumnDescribed(p, n, ColumnAt(d, n));
      assert ColumnAt(d1, n) == ColumnAt(d, n);
      assert ColumnAt(d2, n) == Outcome(q, ColumnAt(d1, n), FindChange(ColumnChanges(p, q), n));
    }
    if Renames(Some(p), Some(q)) == [] {
      UnrenamedAgreeIff(p, q, alters, d3);
      SameColumnsAndRows(p, q, d, d2, d3);
    }
  }

  // ----- the condition, and the theorem for one table -----

  /**
    SQLite adds one column at a time; a rebuild needs a column to copy, and creates every
    column and index anew; without a rebuild, every wanted index is there or is created
    and the others are removed.
   */
  ghost predicate SqliteSafe(p: Option<Table>, q: Option<Table>, alters: seq<Step>) {
    && (p.None? && q.Some? ==> NoListCreated(None, q.value) && Provided(None, q.value, alters) && q.value.name != MIGRATION_TABLE)
    && (p.Some? && q.None? && p.value.name == MIGRATION_TABLE ==> ClearedOf(p.value, alters))
    && (p.Some? && q.Some? ==>
          && (!NeedsFix(Changes(p.value, q.value)) ==> |Changes(p.value, q.value)| <= 1)
          && (if Rebuilds(p.value, q.value)
              then Common(q.value, p.value.columns) != [] && NoListCreated(None, q.value)
              else NoListCreated(p, q.value) && Provided(p, q.value, alters) && Cleared(p.value, q.value, alters)))
  }

  lemma {:induction false} RemovalsRun(family: SqlFamily, p: Table, q: Table, alters: seq<Step>, d: DbTable) returns (d1: DbTable)
    requires Comparable(p, q) && TableDescribed(p, d)
    ensures Concerns(p.name, Removals(Some(p), Some(q), alters))
    ensures RunOnTable(family, Present(d), Removals(Some(p), Some(q), alters)) == Some(Present(d1))
    ensures RemovedFrom(d, p, p.indices, q.indices, alters, d1)
  {
    IndicesPresent(p, d);
    d1 := RunRemovals(family, d, p, p.indices, q.indices, alters);
  }

  lemma {:induction false} RestRuns(p: Table, q: Table, alters: seq<Step>, d: DbTable, d1: DbTable)
    requires Comparable(p, q) && TableDescribed(p, d) && RowsHave(d, Common(q, p.columns)) && Includes(alters, Some(p), Some(q))
    requires RemovedFrom(d, p, p.indices, q.indices, alters, d1)
    ensures Concerns(p.name, Middle(p, q, alters) + Times(RebuildCount(p, q), Rebuild(p, q)))
    ensures var r := RunOnTable(Sqlite, Present(d1), Middle(p, q, alters) + Times(RebuildCount(p, q), Rebuild(p, q)));
            && (r.Some? && Agrees(Some(q), p.name, r.value) <==> SqliteSafe(Some(p), Some(q), alters))
            && (r.Some? ==> r.value.Present? && CommonKept(p, q, d, r.value.table))
  {
    var k, rebuild := RebuildCount(p, q), Rebuild(p, q);
    TimesConcerns(k, rebuild);
    if NeedsFix(Changes(p, q)) {
      assert [] + Times(k, rebuild) == Times(k, rebuild);
      CommonDescribed(p, q, d, d1);
      RebuiltAgreesIff(k, p, q, d1);
    } else {
      MiddleRuns(p, q, alters, d, d1);
      hide Includes, Provided, Cleared, Middle, Changes, NeedsFix, RemovedFrom, TableDescribed, RunOnTable, RebuildCount, CommonKept;
      RunOnTableConcat(Sqlite, Present(d1), Middle(p, q, alters), Times(k, rebuild));
      var r := RunOnTable(Sqlite, Present(d1), Middle(p, q, alters));
      if r.Some? {
        RowsHaveStill(p, q, d, r.value.table);
        if k > 0 {
          RebuiltAgreesIff(k, p, q, r.value.table);
        } else {
          RunNone(Sqlite, r.value);
          CountZero(p, q);
        }
        CommonKeptAfter(p, q, d, r.value.table, k);
      }
    }
  }

  lemma {:induction false} CountZero(p: Table, q: Table)
    requires RebuildCount(p, q) == 0
    ensures Renames(Some(p), Some(q)) == [] && !NeedsFix(Changes(p, q))
  {
  }

  lemma {:induction false} CommonKeptAfter(p: Table, q: Table, d: DbTable, d': DbTable, k: nat)
    requires CommonKept(p, q, d, d') && RowsHave(d', Common(q, p.columns))
    requires forall c :: c in Common(q, p.columns) ==> c in d'.columns
    ensures Concerns(q.name, Times(k, Rebuild(p, q)))
    ensures var r := RunOnTable(Sqlite, Present(d'), Times(k, Rebuild(p, q)));
            r.Some? ==> r.value.Present? && CommonKept(p, q, d, r.value.table)
  {
    TimesConcerns(k, Rebuild(p, q));
    if k > 0 {
      RebuildTimes(k, p, q, d');
      var r := RunOnTable(Sqlite, Present(d'), Times(k, Rebuild(p, q)));
      if r.Some? {
        CommonKeptTwice(p, q, d, d', r.value.table);
      }
    }
  }

  lemma {:induction false} RebuiltAgreesIff(k: nat, p: Table, q: Table, d: DbTable)
    requires k > 0 && WellFormedTable(q) && RowsHave(d, Common(q, p.columns))
    requires forall c :: c in Common(q, p.columns) ==> c in d.columns
    ensures Concerns(q.name, Times(k, Rebuild(p, q)))
    ensures var r := RunOnTable(Sqlite, Present(d), Times(k, Rebuild(p, q)));
            && (r.Some? && Agrees(Some(q), q.name, r.value) <==>
                Common(q, p.columns) != [] && NoListCreated(None, q))
            && (r.Some? ==> r.value.Present? && CommonKept(p, q, d, r.value.table))
  {
    RebuildTimes(k, p, q, d);
    var r := RunOnTable(Sqlite, Present(d), Times(k, Rebuild(p, q)));
    hide Exact, CommonKept, RowsHave, ColumnsAgree, IndicesAgree, WellFormedTable, NoListCreated;
    if r.Some? {
      ExactAgrees(q, r.value.table);
    }
  }

  lemma {:induction false} RowsHaveStill(p: Table, q: Table, d: DbTable, d': DbTable)
    requires RowsHave(d, Common(q, p.columns)) && CommonKept(p, q, d, d')
    ensures RowsHave(d', Common(q, p.columns))
  {
    forall i, n | 0 <= i < |d'.rows| && n in Common(q, p.columns) ensures n in d'.rows[i] {
      assert CellAt(d'.rows[i], n) == CellAt(d.rows[i], n);
    }
  }

  lemma {:induction false} CommonDescribed(p: Table, q: Table, d: DbTable, d1: DbTable)
    requires ColumnsDescribed(p, d) && d1.columns == d.columns
    ensures forall c :: c in Common(q, p.columns) ==> c in d1.columns
  {
    forall c | c in Common(q, p.columns) ensures c in d1.columns {
      assert ColumnDescribed(p, c, ColumnAt(d, c));
    }
  }

  lemma {:induction false} SqliteKeptTableReaches(p: Table, q: Table, alters: seq<Step>, d: DbTable)
    requires Comparable(p, q) && TableDescribed(p, d) && RowsHave(d, Common(q, p.columns)) && Includes(alters, Some(p), Some(q))
    ensures var steps := CorrectTable(TableSteps(Some(p), Some(q), alters), false, [Rebuild(p, q)]);
            && Concerns(p.name, steps)
            && (Reaches(Sqlite, Present(d), steps, Some(q), p.name) <==> SqliteSafe(Some(p), Some(q), alters))
            && var r := RunOnTable(Sqlite, Present(d), steps);
               r.Some? ==> r.value.Present? && CommonKept(p, q, d, r.value.table)
  {
    CorrectedKeptTable(p, q, alters);
    var d1 := RemovalsRun(Sqlite, p, q, alters, d);
    RestRuns(p, q, alters, d, d1);
    hide CorrectTable, TableSteps, Removals, Middle, RunOnTable, SqliteSafe, Agrees, RemovedFrom, TableDescribed, Comparable;
    RunOnTableConcat(Sqlite, Present(d), Removals(Some(p), Some(q), alters), Middle(p, q, alters) + Times(RebuildCount(p, q), Rebuild(p, q)));
  }

  // ----- whole schemas -----

  ghost predicate AllSqliteSafe(prev: Schema, next: Schema) {
    forall n :: SqliteSafe(Of(prev, n), Of(next, n), AllRenames(prev, next))
  }

  /** No table of the next schema has the temporary name of a rebuilt table. */
  ghost predicate NoTemporaryClash(prev: Schema, next: Schema) {
    forall n :: Of(prev, n).Some? && Of(next, n).Some? && Rebuilds(Of(prev, n).value, Of(next, n).value) ==>
      !HasTable(next, TemporaryName(n))
  }

  /** Every row has a cell in every column of its table. */
  ghost predicate RowsFit(db: Db) {
    forall n, i :: n in db && 0 <= i < |db[n].rows| ==> db[n].rows[i].Keys == db[n].columns.Keys
  }

  lemma {:induction false} StepIsItsTables(n: Name, steps: seq<Step>, step: Step)
    requires step in steps && Local(step) && Target(step) == n
    ensures step in For(n, steps)
  {
    if steps[0] != step {
      StepIsItsTables(n, steps[1..], step);
    }
  }

  lemma {:induction false} OnlyKeptTablesAreFixed(p: Option<Table>, q: Option<Table>, alters: seq<Step>, step: Step)
    requires step in TableSteps(p, q, alters) && (step.AlterTable? || step.AlterIndex?)
    ensures p.Some? && q.Some?
  {
    if p.Some? && q.None? {
      NothingToRename(p.value.name, p.value.indices);
      RemovalsOnly(p.value, p.value.indices, [], alters);
    } else if p.None? && q.Some? {
      CreationsOnly(q.value.name, [], q.value.indices, alters);
    }
  }

  lemma {:induction false} RemovalsOnly(t: Table, xs: seq<Index>, ys: seq<Index>, alters: seq<Step>)
    ensures forall step :: step in IndexRemovals(t, xs, ys, alters) ==> step.DropIndex?
  {
    if xs != [] {
      RemovalsOnly(t, xs[1..], ys, alters);
    }
  }

  lemma {:induction false} CreationsOnly(n: Name, xs: seq<Index>, ys: seq<Index>, alters: seq<Step>)
    ensures forall step :: step in IndexCreations(n, xs, ys, alters) ==> step.CreateIndex?
  {
    if ys != [] {
      CreationsOnly(n, xs, ys[1..], alters);
    }
  }

  lemma {:induction false} FixesFound(steps: seq<Step>, fixed: seq<Name>, current: Schema, next: Schema)
    requires AllLocal(steps)
    requires forall step :: step in steps && (step.AlterTable? || step.AlterIndex?) ==>
               FixTable(current, next, Target(step)).Some?
    ensures Corrected(steps, fixed, current, next).Some?
  {
    if steps != [] {
      assert steps[0] in steps;
      assert forall step :: step in steps[1..] ==> step in steps;
      FixesFound(steps[1..], fixed + FixedBy(steps[0]), current, next);
    }
  }

  /** The correction of a diff always finds the tables it rebuilds. */
  lemma {:induction false} DiffIsCorrected(prev: Schema, next: Schema)
    requires WellFormed(prev) && WellFormed(next)
    ensures Corrected(IntoSteps(Diff(prev, next)), [], prev, next).Some?
  {
    var steps := IntoSteps(Diff(prev, next));
    DiffIsLocal(prev, next);
    forall step | step in steps && (step.AlterTable? || step.AlterIndex?)
      ensures FixTable(prev, next, Target(step)).Some?
    {
      StepIsItsTables(Target(step), steps, step);
      DiffTableByTable(prev, next, Target(step));
      OnlyKeptTablesAreFixed(Of(prev, Target(step)), Of(next, Target(step)), AllRenames(prev, next), step);
    }
    FixesFound(steps, [], prev, next);
  }

  lemma {:induction false} CorrectedIsLocal(steps: seq<Step>, fixed: seq<Name>, current: Schema, next: Schema)
    requires AllLocal(steps) && Corrected(steps, fixed, current, next).Some?
    ensures AllLocal(Corrected(steps, fixed, current, next).value)
  {
    if steps != [] {
      assert steps[0] in steps;
      CorrectedIsLocal(steps[1..], fixed + FixedBy(steps[0]), current, next);
      CorrectedStepConcerns(steps[0], fixed, current, next);
    }
  }

  // ----- which steps a corrected table has -----

  lemma {:induction false} TimesOnly(k: nat, step: Step)
    ensures forall s :: s in Times(k, step) ==> s == step && k > 0
  {
    if k > 0 {
      TimesOnly(k - 1, step);
    }
  }

  lemma {:induction false} RebuildInKept(p: Table, q: Table, alters: seq<Step>, step: Step)
    requires p.name == q.name
    requires step in CorrectTable(TableSteps(Some(p), Some(q), alters), false, [Rebuild(p, q)])
    ensures step.Rebuild? ==> step == Rebuild(p, q) && Rebuilds(p, q)
    ensures !step.CreateTable?
  {
    CorrectedKeptTable(p, q, alters);
    RemovalsOnly(p, p.indices, q.indices, alters);
    CreationsOnly(q.name, p.indices, q.indices, alters);
    TimesOnly(RebuildCount(p, q), Rebuild(p, q));
    hide CorrectTable, TableSteps, Changes, NeedsFix, IndexRemovals, IndexCreations, IndexRenames;
  }

  lemma {:induction false} NothingFixed(p: Option<Table>, q: Option<Table>, alters: seq<Step>)
    requires p.None? || q.None?
    ensures CorrectTable(TableSteps(p, q, alters), false, []) == TableSteps(p, q, alters)
  {
    if Fixes(TableSteps(p, q, alters)) {
      var step :| step in TableSteps(p, q, alters) && FixedBy(step) != [];
      OnlyKeptTablesAreFixed(p, q, alters, step);
    }
    CorrectKeeps(TableSteps(p, q, alters), []);
  }

  lemma {:induction false} StepsOfDroppedOrCreated(p: Option<Table>, q: Option<Table>, alters: seq<Step>, step: Step)
    requires (p.None? || q.None?) && step in TableSteps(p, q, alters)
    ensures !step.Rebuild? && (step.CreateTable? ==> q == Some(step.table))
  {
    if p.Some? {
      NothingToRename(p.value.name, p.value.indices);
      RemovalsOnly(p.value, p.value.indices, [], alters);
    } else if q.Some? {
      CreationsOnly(q.value.name, [], q.value.indices, alters);
    }
  }

  lemma {:induction false} CorrectedSteps(prev: Schema, next: Schema, step: Step)
    requires WellFormed(prev) && WellFormed(next)
    requires var steps := Corrected(IntoSteps(Diff(prev, next)), [], prev, next); steps.Some? && step in steps.value
    ensures Local(step)
    ensures var p, q := Of(prev, Target(step)), Of(next, Target(step));
            && (step.Rebuild? ==> p.Some? && q.Some? && step == Rebuild(p.value, q.value) && Rebuilds(p.value, q.value))
            && (step.CreateTable? ==> q == Some(step.table))
  {
    var diff := IntoSteps(Diff(prev, next));
    var steps := Corrected(diff, [], prev, next).value;
    DiffIsLocal(prev, next);
    CorrectedIsLocal(diff, [], prev, next);
    var n := Target(step);
    var p, q := Of(prev, n), Of(next, n);
    StepIsItsTables(n, steps, step);
    CorrectedFor(diff, [], prev, next, n);
    DiffTableByTable(prev, next, n);
    hide Corrected, Diff, IntoSteps, For, CorrectTable, TableSteps, Rebuilds, WellFormed;
    if p.Some? && q.Some? {
      RebuildInKept(p.value, q.value, AllRenames(prev, next), step);
    } else {
      NothingFixed(p, q, AllRenames(prev, next));
      StepsOfDroppedOrCreated(p, q, AllRenames(prev, next), step);
    }
  }

  // ----- the temporary names -----

  /** What a diff drops and creates, before anything is altered. */
  function Early(diff: SqlSchemaDiff): seq<Step> {
    diff.dropIndexes + diff.dropTables + Creations(diff.createTables)
  }

  function Late(diff: SqlSchemaDiff): seq<Step> {
    diff.alterTables + diff.createIndexes + diff.alterIndexes
  }

  predicate IsEarly(step: Step) {
    step.DropIndex? || step.DropTable? || step.CreateTable?
  }

  predicate IsLate(step: Step) {
    step.AlterTable? || step.CreateIndex? || step.AlterIndex?
  }

  lemma {:induction false} DropsAreEarly(ts: seq<Table>, next: Schema, alters: seq<Step>)
    ensures forall step :: step in IndexesToDrop(ts, next, alters) ==> step.DropIndex?
    ensures forall step :: step in TablesToDrop(ts, next) ==> step.DropTable?
  {
    if ts != [] {
      RemovalsOnly(ts[0], ts[0].indices, IndicesOf(FindTable(next.tables, ts[0].name)), alters);
      DropsAreEarly(ts[1..], next, alters);
    }
  }

  lemma {:induction false} CreationsAreEarly(ts: seq<Table>)
    ensures forall step :: step in Creations(ts) ==> step.CreateTable?
  {
    if ts != [] {
      CreationsAreEarly(ts[1..]);
    }
  }

  lemma {:induction false} RenamesOnly(table: Name, xs: seq<Index>, ys: seq<Index>)
    ensures forall step :: step in IndexRenames(table, xs, ys) ==> step.AlterIndex?
  {
    if xs != [] {
      RenamesOnly(table, xs[1..], ys);
    }
  }

  lemma {:induction false} AlterationsAreLate(ts: seq<Table>, next: Schema)
    ensures forall step :: step in TablesToAlter(ts, next) ==> step.AlterTable?
    ensures forall step :: step in IndexesToAlter(ts, next) ==> step.AlterIndex?
  {
    if ts != [] {
      RenamesOnly(ts[0].name, ts[0].indices, IndicesOf(FindTable(next.tables, ts[0].name)));
      AlterationsAreLate(ts[1..], next);
    }
  }

  lemma {:induction false} NewIndexesAreLate(prev: Schema, ts: seq<Table>, alters: seq<Step>)
    ensures forall step :: step in IndexesToCreate(prev, ts, alters) ==> step.CreateIndex?
  {
    if ts != [] {
      CreationsOnly(ts[0].name, IndicesOf(FindTable(prev.tables, ts[0].name)), ts[0].indices, alters);
      NewIndexesAreLate(prev, ts[1..], alters);
    }
  }

  lemma {:induction false} EarlyThenLate(prev: Schema, next: Schema)
    ensures var diff := Diff(prev, next);
            && IntoSteps(diff) == Early(diff) + Late(diff)
            && (forall step :: step in Early(diff) ==> IsEarly(step))
            && (forall step :: step in Late(diff) ==> IsLate(step))
  {
    var diff := Diff(prev, next);
    DropsAreEarly(prev.tables, next, diff.alterIndexes);
    CreationsAreEarly(diff.createTables);
    AlterationsAreLate(prev.tables, next);
    NewIndexesAreLate(prev, next.tables, diff.alterIndexes);
    hide IndexesToDrop, TablesToDrop, TablesToCreate, TablesToAlter, IndexesToAlter, IndexesToCreate, Creations;
  }

  lemma {:induction false} EarlyStepIsKept(step: Step, fixed: seq<Name>, current: Schema, next: Schema)
    requires IsEarly(step)
    ensures CorrectedStep(step, fixed, current, next) == Some([step]) && fixed + FixedBy(step) == fixed
  {
  }

  /** Early steps stay as they are. */
  lemma {:induction false} EarlyIsKept(xs: seq<Step>, ys: seq<Step>, fixed: seq<Name>, current: Schema, next: Schema)
    requires forall x :: x in xs ==> IsEarly(x)
    ensures Corrected(xs + ys, fixed, current, next) ==
            var rest := Corrected(ys, fixed, current, next);
            if rest.Some? then Some(xs + rest.value) else None
    decreases |xs|
  {
    hide IsEarly, CorrectedStep, FixedBy;
    var rest := Corrected(ys, fixed, current, next);
    if xs == [] {
      assert xs + ys == ys;
      assert rest.Some? ==> xs + rest.value == rest.value;
    } else {
      assert (xs + ys)[0] == xs[0] && (xs + ys)[1..] == xs[1..] + ys && xs[0] in xs;
      assert forall x :: x in xs[1..] ==> x in xs;
      EarlyStepIsKept(xs[0], fixed, current, next);
      EarlyIsKept(xs[1..], ys, fixed, current, next);
      assert rest.Some? ==> [xs[0]] + (xs[1..] + rest.value) == xs + rest.value;
    }
  }

  lemma {:induction false} CorrectedIsLate(steps: seq<Step>, fixed: seq<Name>, current: Schema, next: Schema)
    requires (forall x :: x in steps ==> IsLate(x)) && Corrected(steps, fixed, current, next).Some?
    ensures forall x :: x in Corrected(steps, fixed, current, next).value ==> !x.CreateTable?
  {
    if steps != [] {
      assert steps[0] in steps && forall x :: x in steps[1..] ==> x in steps;
      CorrectedIsLate(steps[1..], fixed + FixedBy(steps[0]), current, next);
    }
  }

  /** The corrected steps: no rebuild at first, and no new table after that. */
  lemma {:induction false} CorrectedParts(prev: Schema, next: Schema) returns (early: seq<Step>, late: seq<Step>)
    requires WellFormed(prev) && WellFormed(next) && Corrected(IntoSteps(Diff(prev, next)), [], prev, next).Some?
    ensures Corrected(IntoSteps(Diff(prev, next)), [], prev, next).value == early + late
    ensures early == Early(Diff(prev, next)) && AllLocal(early) && AllLocal(late)
    ensures (forall x :: x in early ==> !x.Rebuild?) && (forall x :: x in late ==> !x.CreateTable?)
  {
    var diff := Diff(prev, next);
    early := Early(diff);
    EarlyThenLate(prev, next);
    DiffIsLocal(prev, next);
    CorrectedIsLocal(IntoSteps(diff), [], prev, next);
    EarlyIsKept(early, Late(diff), [], prev, next);
    late := Corrected(Late(diff), [], prev, next).value;
    CorrectedIsLate(Late(diff), [], prev, next);
    hide Diff, IntoSteps, Early, Late, Corrected, WellFormed;
    assert forall x :: x in early + late <==> x in early || x in late;
  }

  lemma {:induction false} DropListed(ts: seq<Table>, next: Schema, n: Name)
    requires FindTable(ts, n).Some? && !HasTable(next, n) && n != MIGRATION_TABLE
    ensures DropTable(n) in TablesToDrop(ts, next)
  {
    if ts[0].name != n {
      DropListed(ts[1..], next, n);
    }
  }

  lemma {:induction false} RebuildsWellFormedOf(prev: Schema, next: Schema)
    requires WellFormed(prev) && WellFormed(next) && Corrected(IntoSteps(Diff(prev, next)), [], prev, next).Some?
    ensures RebuildsWellFormed(Corrected(IntoSteps(Diff(prev, next)), [], prev, next).value)
  {
    var steps := Corrected(IntoSteps(Diff(prev, next)), [], prev, next).value;
    hide Corrected, Diff, IntoSteps;
    forall r | r in steps && r.Rebuild? ensures r.current.name == r.next.name && WellFormedTable(r.next) {
      CorrectedSteps(prev, next, r);
    }
  }

  /** A free temporary name stays free, or becomes free in time. */
  lemma {:induction false} FreeInTime(prev: Schema, next: Schema, db: Db, early: seq<Step>, n: Name)
    requires WellFormed(prev) && WellFormed(next) && Describes(prev, db) && !HasTable(next, TemporaryName(n))
    requires early == Early(Diff(prev, next)) && AllLocal(early) && Run(Sqlite, db, early).Some?
    requires forall c :: c in early && c.CreateTable? ==> HasTable(next, c.table.name)
    ensures TemporaryName(n) !in Run(Sqlite, db, early).value
  {
    var m := TemporaryName(n);
    assert m[0] == 'n' && MIGRATION_TABLE[0] == '_';
    assert Described(Of(prev, m), SlotOf(db, m));
    if m in db {
      DropListed(prev.tables, next, m);
      assert DropTable(m) in early;
    }
    Gone(db, early, m);
  }

  lemma {:induction false} FreeUnlessClash(prev: Schema, next: Schema, db: Db)
    requires WellFormed(prev) && WellFormed(next) && Describes(prev, db) && NoTemporaryClash(prev, next)
    requires Corrected(IntoSteps(Diff(prev, next)), [], prev, next).Some?
    ensures FreeAlong(db, Corrected(IntoSteps(Diff(prev, next)), [], prev, next).value)
  {
    var steps := Corrected(IntoSteps(Diff(prev, next)), [], prev, next).value;
    var early, late := CorrectedParts(prev, next);
    hide Corrected, Diff, IntoSteps, Early, WellFormed, Rebuilds, Describes;
    FreeAlongConcat(db, early, late);
    if Run(Sqlite, db, early).Some? {
      var db' := Run(Sqlite, db, early).value;
      forall c | c in early && c.CreateTable? ensures HasTable(next, c.table.name) {
        assert c in early + late;
        CorrectedSteps(prev, next, c);
      }
      forall r | r in late && r.Rebuild? ensures TemporaryName(r.next.name) !in db' {
        assert r in early + late;
        CorrectedSteps(prev, next, r);
        FreeInTime(prev, next, db, early, r.next.name);
      }
      FreeThroughout(db', late);
    }
  }

  lemma {:induction false} RebuildIsListed(prev: Schema, next: Schema, n: Name)
    requires WellFormed(prev) && WellFormed(next) && Corrected(IntoSteps(Diff(prev, next)), [], prev, next).Some?
    requires Of(prev, n).Some? && Of(next, n).Some? && Rebuilds(Of(prev, n).value, Of(next, n).value)
    ensures Rebuild(Of(prev, n).value, Of(next, n).value) in Corrected(IntoSteps(Diff(prev, next)), [], prev, next).value
  {
    var diff := IntoSteps(Diff(prev, next));
    var steps, p, q := Corrected(diff, [], prev, next).value, Of(prev, n).value, Of(next, n).value;
    DiffIsLocal(prev, next);
    CorrectedFor(diff, [], prev, next, n);
    DiffTableByTable(prev, next, n);
    CorrectedKeptTable(p, q, AllRenames(prev, next));
    RebuiltAtLeastOnce(p, q);
    hide Corrected, Diff, IntoSteps, CorrectTable, TableSteps, Rebuilds, WellFormed;
    assert Rebuild(p, q) in For(n, steps);
    StepFromTable(n, steps, Rebuild(p, q));
  }

  lemma {:induction false} RebuiltAtLeastOnce(p: Table, q: Table)
    requires Rebuilds(p, q)
    ensures Rebuild(p, q) in Times(RebuildCount(p, q), Rebuild(p, q))
  {
  }

  lemma {:induction false} StepFromTable(n: Name, steps: seq<Step>, step: Step)
    requires step in For(n, steps)
    ensures step in steps
  {
    if steps != [] && step !in For(n, steps[1..]) {
      assert step == steps[0];
    } else {
      StepFromTable(n, steps[1..], step);
    }
  }

  /** A table with a temporary name is lost, or the rebuild fails. */
  lemma {:induction false} ClashMisses(prev: Schema, next: Schema, db: Db)
    requires WellFormed(prev) && WellFormed(next) && !NoTemporaryClash(prev, next)
    requires Corrected(IntoSteps(Diff(prev, next)), [], prev, next).Some?
    ensures var steps := Corrected(IntoSteps(Diff(prev, next)), [], prev, next).value;
            var r := Run(Sqlite, db, steps);
            FreeAlong(db, steps) && r.Some? ==> !DbAgrees(next, r.value)
  {
    var steps := Corrected(IntoSteps(Diff(prev, next)), [], prev, next).value;
    var early, late := CorrectedParts(prev, next);
    var n :| Of(prev, n).Some? && Of(next, n).Some? && Rebuilds(Of(prev, n).value, Of(next, n).value) && HasTable(next, TemporaryName(n));
    var rebuild := Rebuild(Of(prev, n).value, Of(next, n).value);
    RebuildIsListed(prev, next, n);
    hide Corrected, Diff, IntoSteps, Early, WellFormed, Rebuilds;
    FreeAlongConcat(db, early, late);
    RunConcat(Sqlite, db, early, late);
    if FreeAlong(db, steps) && Run(Sqlite, db, steps).Some? {
      RebuiltNameIsFree(Run(Sqlite, db, early).value, late, rebuild);
      var r, m := Run(Sqlite, db, steps).value, TemporaryName(n);
      assert m !in r;
      assert !Agrees(Of(next, m), m, SlotOf(r, m));
    }
  }

  // ----- the theorems -----

  lemma {:induction false} RowsHaveCommon(p: Table, q: Table, d: DbTable)
    requires ColumnsDescribed(p, d) && forall i :: 0 <= i < |d.rows| ==> d.rows[i].Keys == d.columns.Keys
    ensures RowsHave(d, Common(q, p.columns))
  {
    forall i, n | 0 <= i < |d.rows| && n in Common(q, p.columns) ensures n in d.rows[i] {
      assert ColumnDescribed(p, n, ColumnAt(d, n));
      assert n in d.columns.Keys;
    }
  }

  lemma {:induction false} SqliteTableReaches(p: Option<Table>, q: Option<Table>, alters: seq<Step>, s: Slot, n: Name)
    requires Described(p, s) && Includes(alters, p, q)
    requires p.Some? ==> p.value.name == n && WellFormedTable(p.value)
    requires q.Some? ==> q.value.name == n && WellFormedTable(q.value)
    requires p.Some? && q.Some? ==> RowsHave(s.table, Common(q.value, p.value.columns))
    ensures var steps := CorrectTable(TableSteps(p, q, alters), false, RebuildOf(p, q));
            && Concerns(n, steps)
            && (Reaches(Sqlite, s, steps, q, n) <==> SqliteSafe(p, q, alters))
            && (p.Some? && q.Some? ==>
                  var r := RunOnTable(Sqlite, s, steps);
                  r.Some? ==> r.value.Present? && CommonKept(p.value, q.value, s.table, r.value.table))
  {
    hide CorrectTable, TableSteps, RunOnTable, Agrees, TableDescribed, WellFormedTable, RowsHave, CommonKept;
    if p.Some? && q.Some? {
      SqliteKeptTableReaches(p.value, q.value, alters, s.table);
    } else {
      NothingFixed(p, q, alters);
      if p.Some? {
        DroppedTableReaches(Sqlite, p.value, alters, s.table);
      } else if q.Some? {
        CreatedTableReaches(Sqlite, q.value, alters);
      } else {
        EmptyTableReaches(n, alters);
      }
    }
  }

  lemma {:induction false} EmptyTableReaches(n: Name, alters: seq<Step>)
    ensures Concerns(n, TableSteps(None, None, alters)) && Reaches(Sqlite, Absent, TableSteps(None, None, alters), None, n)
  {
    assert TableSteps(None, None, alters) == [];
  }

  lemma {:induction false} SqliteTableOf(prev: Schema, next: Schema, db: Db, n: Name)
    requires WellFormed(prev) && WellFormed(next) && Describes(prev, db) && RowsFit(db)
    requires Corrected(IntoSteps(Diff(prev, next)), [], prev, next).Some?
    ensures var steps := For(n, Corrected(IntoSteps(Diff(prev, next)), [], prev, next).value);
            var p, q := Of(prev, n), Of(next, n);
            && (Reaches(Sqlite, SlotOf(db, n), steps, q, n) <==> SqliteSafe(p, q, AllRenames(prev, next)))
            && (p.Some? && q.Some? ==>
                  var r := RunOnTable(Sqlite, SlotOf(db, n), steps);
                  r.Some? ==>
                    && n in db && r.value.Present?
                    && CommonKept(p.value, q.value, db[n], r.value.table))
  {
    var p, q := Of(prev, n), Of(next, n);
    TableOfSchema(prev, n);
    TableOfSchema(next, n);
    DiffIsLocal(prev, next);
    CorrectedFor(IntoSteps(Diff(prev, next)), [], prev, next, n);
    DiffTableByTable(prev, next, n);
    RenamesIncluded(prev, next, n);
    assert Described(p, SlotOf(db, n));
    if p.Some? && q.Some? {
      RowsHaveCommon(p.value, q.value, db[n]);
    }
    hide Corrected, Diff, IntoSteps, For, CorrectTable, TableSteps, RunOnTable, Agrees, SqliteSafe, CommonKept, RowsHave;
    hide TableDescribed, WellFormedTable;
    SqliteTableReaches(p, q, AllRenames(prev, next), SlotOf(db, n), n);
  }

  /** What the corrected steps do, a rebuild being one step. */
  lemma {:induction false} RebuildsReachIff(prev: Schema, next: Schema, db: Db)
    requires WellFormed(prev) && WellFormed(next) && Describes(prev, db) && RowsFit(db)
    requires Corrected(IntoSteps(Diff(prev, next)), [], prev, next).Some?
    ensures var r := Run(Sqlite, db, Corrected(IntoSteps(Diff(prev, next)), [], prev, next).value);
            r.Some? && DbAgrees(next, r.value) <==> AllSqliteSafe(prev, next)
  {
    var steps := Corrected(IntoSteps(Diff(prev, next)), [], prev, next).value;
    DiffIsLocal(prev, next);
    CorrectedIsLocal(IntoSteps(Diff(prev, next)), [], prev, next);
    RunTableByTable(Sqlite, db, steps);
    hide Corrected, Diff, IntoSteps, Run, RunOnTable, SqliteSafe, Agrees, WellFormed, AllRenames, Describes, RowsFit;
    forall n
      ensures Reaches(Sqlite, SlotOf(db, n), For(n, steps), Of(next, n), n) <==> SqliteSafe(Of(prev, n), Of(next, n), AllRenames(prev, next))
    {
      SqliteTableOf(prev, next, db, n);
    }
    var r := Run(Sqlite, db, steps);
    if r.Some? {
      assert forall n :: RunOnTable(Sqlite, SlotOf(db, n), For(n, steps)) == Some(SlotOf(r.value, n));
      if DbAgrees(next, r.value) {
        forall n ensures SqliteSafe(Of(prev, n), Of(next, n), AllRenames(prev, next)) {
          assert Agrees(Of(next, n), n, SlotOf(r.value, n));
          assert Reaches(Sqlite, SlotOf(db, n), For(n, steps), Of(next, n), n);
        }
      }
      if AllSqliteSafe(prev, next) {
        forall n ensures Agrees(Of(next, n), n, SlotOf(r.value, n)) {
          assert SqliteSafe(Of(prev, n), Of(next, n), AllRenames(prev, next));
          assert Reaches(Sqlite, SlotOf(db, n), For(n, steps), Of(next, n), n);
        }
      }
    } else {
      var n :| RunOnTable(Sqlite, SlotOf(db, n), For(n, steps)).None?;
      assert !SqliteSafe(Of(prev, n), Of(next, n), AllRenames(prev, next));
    }
  }

  /**
    On SQLite, the corrected steps end in agreement with the next schema if and
    only if every table that is altered without a rebuild gets a single column and
    has its wanted indexes provided and the others cleared, every rebuilt table keeps
    a column and has its temporary name free, and no list column is created.
   */
  lemma {:induction false} SqliteReachesNextIff(prev: Schema, next: Schema, db: Db)
    requires WellFormed(prev) && WellFormed(next) && Describes(prev, db) && RowsFit(db)
    ensures var corrected := Corrected(IntoSteps(Diff(prev, next)), [], prev, next);
            && corrected.Some?
            && var r := Run(Sqlite, db, Expand(corrected.value));
               (r.Some? && DbAgrees(next, r.value) <==> AllSqliteSafe(prev, next) && NoTemporaryClash(prev, next))
  {
    DiffIsCorrected(prev, next);
    RebuildsWellFormedOf(prev, next);
    hide Corrected, Diff, IntoSteps, WellFormed, AllSqliteSafe, NoTemporaryClash, Describes, RowsFit, Expand, DbAgrees, Run, RebuildsWellFormed;
    ExpandRunsIff(db, Corrected(IntoSteps(Diff(prev, next)), [], prev, next).value);
    RebuildsReachIff(prev, next, db);
    if NoTemporaryClash(prev, next) {
      FreeUnlessClash(prev, next, db);
    } else {
      ClashMisses(prev, next, db);
    }
  }

  /** A rebuilt table, like any kept table, keeps its rows and the cells of all common columns. */
  lemma {:induction false} SqliteKeepsRows(prev: Schema, next: Schema, db: Db, n: Name)
    requires WellFormed(prev) && WellFormed(next) && Describes(prev, db) && RowsFit(db) && NoTemporaryClash(prev, next)
    requires AllSqliteSafe(prev, next) && HasTable(prev, n) && HasTable(next, n)
    ensures var corrected := Corrected(IntoSteps(Diff(prev, next)), [], prev, next);
            && corrected.Some?
            && var r := Run(Sqlite, db, Expand(corrected.value));
               r.Some? && n in db && n in r.value && CommonKept(Of(prev, n).value, Of(next, n).value, db[n], r.value[n])
  {
    SqliteReachesNextIff(prev, next, db);
    RebuildsWellFormedOf(prev, next);
    FreeUnlessClash(prev, next, db);
    var steps := Corrected(IntoSteps(Diff(prev, next)), [], prev, next).value;
    DiffIsLocal(prev, next);
    CorrectedIsLocal(IntoSteps(Diff(prev, next)), [], prev, next);
    hide Corrected, Diff, IntoSteps, Run, RunOnTable, SqliteSafe, Agrees, WellFormed, AllRenames, Describes, RowsFit, Expand, CommonKept;
    ExpandRunsIff(db, steps);
    RunTableByTable(Sqlite, db, steps);
    SqliteTableOf(prev, next, db, n);
    var r := Run(Sqlite, db, steps);
    assert RunOnTable(Sqlite, SlotOf(db, n), For(n, steps)) == Some(SlotOf(r.value, n));
  }
}
