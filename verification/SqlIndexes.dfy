/**
  What the index steps of one table do: removals before the table is altered,
  creations and renames after.
 */
module SqlIndexes {
  import opened Wrappers
  import opened Names
  import opened SqlSchemas
  import opened SqlDatabases
  import opened SqlDiffer
  import opened SqlTableSteps

  function ToDb(x: Index): DbIndex {
    DbIndex(x.columns, x.tpe)
  }

  function IndexAt(d: DbTable, n: Name): Option<DbIndex> {
    if n in d.indices then Some(d.indices[n]) else None
  }

  /** Two tables that differ in nothing but their indexes. */
  ghost predicate SameButIndexes(d: DbTable, d': DbTable) {
    d' == d.(indices := d'.indices)
  }

  // ----- removals -----

  predicate Removed(t: Table, x: Index, ys: seq<Index>, alters: seq<Step>) {
    FindIndex(ys, x.name).None? && !LosesName(alters, x.name) && !CoversKey(t.primaryKey, x.columns)
  }

  ghost predicate RemovedFrom(d: DbTable, t: Table, xs: seq<Index>, ys: seq<Index>, alters: seq<Step>, d': DbTable) {
    && SameButIndexes(d, d')
    && forall n :: IndexAt(d', n) ==
                   var x := FindIndex(xs, n);
                   if x.Some? && Removed(t, x.value, ys, alters) then None else IndexAt(d, n)
  }

  lemma {:induction false} RunRemovals(
    family: SqlFamily, d: DbTable, t: Table, xs: seq<Index>, ys: seq<Index>, alters: seq<Step>
  ) returns (d': DbTable)
    requires IndicesDistinct(xs) && forall x :: x in xs ==> x.name in d.indices
    ensures Concerns(t.name, IndexRemovals(t, xs, ys, alters))
    ensures RunOnTable(family, Present(d), IndexRemovals(t, xs, ys, alters)) == Some(Present(d'))
    ensures RemovedFrom(d, t, xs, ys, alters, d')
    decreases |xs|
  {
    RemovalsConcern(t, xs, ys, alters);
    if xs == [] {
      d' := d;
    } else if Removed(t, xs[0], ys, alters) {
      var d1 := d.(indices := d.indices - {xs[0].name});
      d' := RunRemovals(family, d1, t, xs[1..], ys, alters);
      var rest := IndexRemovals(t, xs[1..], ys, alters);
      RunFirst(family, Present(d), DropIndex(t.name, xs[0].name), rest);
      forall n ensures IndexAt(d1, n) == if n == xs[0].name then None else IndexAt(d, n) {
      }
    } else {
      d' := RunRemovals(family, d, t, xs[1..], ys, alters);
    }
  }

  // ----- creations -----

  predicate Created(xs: seq<Index>, y: Index, alters: seq<Step>) {
    FindIndex(xs, y.name).None? && !GetsName(alters, y.name)
  }

  ghost predicate CreatedIn(d: DbTable, xs: seq<Index>, ys: seq<Index>, alters: seq<Step>, d': DbTable) {
    && SameButIndexes(d, d')
    && forall n :: IndexAt(d', n) ==
                   var y := FindIndex(ys, n);
                   if y.Some? && Created(xs, y.value, alters) then Some(ToDb(y.value)) else IndexAt(d, n)
  }

  lemma {:induction false} RunCreations(
    family: SqlFamily, d: DbTable, table: Name, xs: seq<Index>, ys: seq<Index>, alters: seq<Step>
  ) returns (d': DbTable)
    requires IndicesDistinct(ys)
    requires forall y :: y in ys && Created(xs, y, alters) ==> y.name !in d.indices
    requires forall y, c :: y in ys && c in y.columns ==> c in d.columns
    ensures Concerns(table, IndexCreations(table, xs, ys, alters))
    ensures RunOnTable(family, Present(d), IndexCreations(table, xs, ys, alters)) == Some(Present(d'))
    ensures CreatedIn(d, xs, ys, alters, d')
    decreases |ys|
  {
    CreationsConcern(table, xs, ys, alters);
    if ys == [] {
      d' := d;
    } else if Created(xs, ys[0], alters) {
      var d1 := d.(indices := d.indices[ys[0].name := ToDb(ys[0])]);
      d' := RunCreations(family, d1, table, xs, ys[1..], alters);
      var rest := IndexCreations(table, xs, ys[1..], alters);
      RunFirst(family, Present(d), CreateIndex(table, ys[0]), rest);
      forall n ensures IndexAt(d1, n) == if n == ys[0].name then Some(ToDb(ys[0])) else IndexAt(d, n) {
      }
    } else {
      d' := RunCreations(family, d, table, xs, ys[1..], alters);
    }
  }

  // ----- renames -----

  /** The index that is renamed to `n`. */
  function Origin(xs: seq<Index>, ys: seq<Index>, n: Name): (r: Option<Index>)
    ensures r.Some? ==> r.value in xs && RenamedTo(r.value, ys).Some? && RenamedTo(r.value, ys).value.name == n
    ensures r.None? ==> forall x :: x in xs && RenamedTo(x, ys).Some? ==> RenamedTo(x, ys).value.name != n
  {
    if xs == [] then None
    else if RenamedTo(xs[0], ys).Some? && RenamedTo(xs[0], ys).value.name == n then Some(xs[0])
    else Origin(xs[1..], ys, n)
  }

  /** No two indexes get the same name. */
  ghost predicate TargetsDiffer(xs: seq<Index>, ys: seq<Index>) {
    forall x, x' :: x in xs && x' in xs && RenamedTo(x, ys).Some? && RenamedTo(x', ys).Some? ==>
      (RenamedTo(x, ys).value.name == RenamedTo(x', ys).value.name ==> x == x')
  }

  ghost predicate RenamesPresent(d: DbTable, xs: seq<Index>, ys: seq<Index>) {
    forall x :: x in xs && RenamedTo(x, ys).Some? ==> x.name in d.indices
  }

  /** One of the first `i` indexes gives this name up. */
  predicate Vacated(xs: seq<Index>, ys: seq<Index>, i: nat, n: Name)
    requires i <= |xs|
  {
    exists j :: 0 <= j < i && xs[j].name == n && RenamedTo(xs[j], ys).Some?
  }

  predicate FreeAt(d: DbTable, xs: seq<Index>, ys: seq<Index>, i: nat)
    requires i < |xs|
  {
    RenamedTo(xs[i], ys).Some? ==>
      RenamedTo(xs[i], ys).value.name !in d.indices || Vacated(xs, ys, i, RenamedTo(xs[i], ys).value.name)
  }

  /** Every new name is free when its turn comes. */
  ghost predicate FreeInOrder(d: DbTable, xs: seq<Index>, ys: seq<Index>) {
    forall i :: 0 <= i < |xs| ==> FreeAt(d, xs, ys, i)
  }

  ghost predicate RenamedIn(d: DbTable, xs: seq<Index>, ys: seq<Index>, d': DbTable) {
    && SameButIndexes(d, d')
    && forall n :: IndexAt(d', n) ==
                   if Origin(xs, ys, n).Some? then IndexAt(d, Origin(xs, ys, n).value.name)
                   else if FindIndex(xs, n).Some? && RenamedTo(FindIndex(xs, n).value, ys).Some? then None
                   else IndexAt(d, n)
  }

  lemma {:induction false} FirstRuns(family: SqlFamily, d: DbTable, table: Name, xs: seq<Index>, ys: seq<Index>)
    requires !family.Sqlite? && xs != []
    ensures Concerns(table, IndexRenames(table, xs, ys)) && Concerns(table, IndexRenames(table, xs[1..], ys))
    ensures RunOnTable(family, Present(d), IndexRenames(table, xs, ys)) ==
            if RenamedTo(xs[0], ys).None? then RunOnTable(family, Present(d), IndexRenames(table, xs[1..], ys))
            else
              var y := RenamedTo(xs[0], ys).value.name;
              if xs[0].name in d.indices && y !in d.indices
              then RunOnTable(family, Present(d.(indices := Renamed(d.indices, xs[0].name, y))), IndexRenames(table, xs[1..], ys))
              else None
  {
    RenamesConcern(table, xs, ys);
    RenamesConcern(table, xs[1..], ys);
    if RenamedTo(xs[0], ys).Some? {
      RunFirst(family, Present(d), AlterIndex(table, xs[0].name, RenamedTo(xs[0], ys).value.name), IndexRenames(table, xs[1..], ys));
    }
  }

  /** Renames whose sources are there and whose targets are free in order succeed. */
  lemma {:induction false} RunRenames(family: SqlFamily, d: DbTable, table: Name, xs: seq<Index>, ys: seq<Index>)
    requires !family.Sqlite? && IndicesDistinct(xs) && TargetsDiffer(xs, ys) && RenamesPresent(d, xs, ys) && FreeInOrder(d, xs, ys)
    ensures Concerns(table, IndexRenames(table, xs, ys))
    ensures var s := RunOnTable(family, Present(d), IndexRenames(table, xs, ys));
            s.Some? && s.value.Present? && RenamedIn(d, xs, ys, s.value.table)
    decreases |xs|
  {
    if xs == [] {
    } else {
      FirstRuns(family, d, table, xs, ys);
      TailRenames(d, xs, ys);
      hide RenamesPresent, FreeInOrder, TargetsDiffer, RunOnTable, IndexRenames;
      if RenamedTo(xs[0], ys).Some? {
        var d1 := d.(indices := Renamed(d.indices, xs[0].name, RenamedTo(xs[0], ys).value.name));
        RunRenames(family, d1, table, xs[1..], ys);
        ThenRenamed(d, d1, xs, ys, RunOnTable(family, Present(d1), IndexRenames(table, xs[1..], ys)).value.table);
      } else {
        RunRenames(family, d, table, xs[1..], ys);
        NotRenamedFirst(d, xs, ys, RunOnTable(family, Present(d), IndexRenames(table, xs[1..], ys)).value.table);
      }
    }
  }

  lemma {:induction false} TailRenames(d: DbTable, xs: seq<Index>, ys: seq<Index>)
    requires xs != [] && IndicesDistinct(xs) && TargetsDiffer(xs, ys) && RenamesPresent(d, xs, ys) && FreeInOrder(d, xs, ys)
    ensures IndicesDistinct(xs[1..]) && TargetsDiffer(xs[1..], ys)
    ensures RenamedTo(xs[0], ys).None? ==> RenamesPresent(d, xs[1..], ys) && FreeInOrder(d, xs[1..], ys)
    ensures RenamedTo(xs[0], ys).Some? ==>
              var y := RenamedTo(xs[0], ys).value.name;
              && xs[0].name in d.indices && y !in d.indices
              && var d1 := d.(indices := Renamed(d.indices, xs[0].name, y));
                 RenamesPresent(d1, xs[1..], ys) && FreeInOrder(d1, xs[1..], ys)
  {
    FirstIsFree(d, xs, ys);
    hide FreeAt, RenamesPresent, TargetsDiffer, Renamed;
    if RenamedTo(xs[0], ys).None? {
      forall i | 0 <= i < |xs[1..]| ensures FreeAt(d, xs[1..], ys, i) {
        FreesLater(d, xs, ys, i);
      }
    } else {
      var d1 := d.(indices := Renamed(d.indices, xs[0].name, RenamedTo(xs[0], ys).value.name));
      forall i | 0 <= i < |xs[1..]| ensures FreeAt(d1, xs[1..], ys, i) {
        FreesLater(d, xs, ys, i);
      }
    }
  }

  lemma {:induction false} FirstIsFree(d: DbTable, xs: seq<Index>, ys: seq<Index>)
    requires xs != [] && IndicesDistinct(xs) && TargetsDiffer(xs, ys) && RenamesPresent(d, xs, ys) && FreeAt(d, xs, ys, 0)
    ensures TargetsDiffer(xs[1..], ys) && RenamesPresent(d, xs[1..], ys)
    ensures RenamedTo(xs[0], ys).Some? ==>
              var y := RenamedTo(xs[0], ys).value.name;
              && xs[0].name in d.indices && y !in d.indices
              && RenamesPresent(d.(indices := Renamed(d.indices, xs[0].name, y)), xs[1..], ys)
  {
    assert xs[0] in xs;
    assert forall x :: x in xs[1..] ==> x in xs;
  }

  ghost predicate FreeAfter(d: DbTable, xs: seq<Index>, ys: seq<Index>, i: nat)
    requires i < |xs| - 1
  {
    && (RenamedTo(xs[0], ys).None? ==> FreeAt(d, xs[1..], ys, i))
    && (RenamedTo(xs[0], ys).Some? && xs[0].name in d.indices ==>
          FreeAt(d.(indices := Renamed(d.indices, xs[0].name, RenamedTo(xs[0], ys).value.name)), xs[1..], ys, i))
  }

  lemma {:induction false} FreesLater(d: DbTable, xs: seq<Index>, ys: seq<Index>, i: nat)
    requires i < |xs| - 1 && IndicesDistinct(xs) && TargetsDiffer(xs, ys) && FreeAt(d, xs, ys, i + 1)
    ensures FreeAfter(d, xs, ys, i)
  {
    var x := xs[i + 1];
    assert xs[1..][i] == x && x in xs && x in xs[1..];
    if RenamedTo(x, ys).Some? {
      var n := RenamedTo(x, ys).value.name;
      if Vacated(xs, ys, i + 1, n) {
        var j :| 0 <= j < i + 1 && xs[j].name == n && RenamedTo(xs[j], ys).Some?;
        if j > 0 {
          assert xs[1..][j - 1] == xs[j];
          assert Vacated(xs[1..], ys, i, n);
        }
      }
    }
  }

  lemma {:induction false} NotRenamedFirst(d: DbTable, xs: seq<Index>, ys: seq<Index>, d': DbTable)
    requires xs != [] && IndicesDistinct(xs) && RenamedTo(xs[0], ys).None? && RenamedIn(d, xs[1..], ys, d')
    ensures RenamedIn(d, xs, ys, d')
  {
  }

  lemma {:induction false} ThenRenamed(d: DbTable, d1: DbTable, xs: seq<Index>, ys: seq<Index>, d2: DbTable)
    requires xs != [] && IndicesDistinct(xs) && TargetsDiffer(xs, ys) && RenamesPresent(d, xs, ys)
    requires RenamedTo(xs[0], ys).Some? && xs[0].name in d.indices && RenamedTo(xs[0], ys).value.name !in d.indices
    requires d1 == d.(indices := Renamed(d.indices, xs[0].name, RenamedTo(xs[0], ys).value.name))
    requires RenamedIn(d1, xs[1..], ys, d2)
    ensures RenamedIn(d, xs, ys, d2)
  {
    var x, y, tail := xs[0], RenamedTo(xs[0], ys).value, xs[1..];
    forall n
      ensures IndexAt(d2, n) ==
              if Origin(xs, ys, n).Some? then IndexAt(d, Origin(xs, ys, n).value.name)
              else if FindIndex(xs, n).Some? && RenamedTo(FindIndex(xs, n).value, ys).Some? then None
              else IndexAt(d, n)
    {
      assert IndexAt(d1, n) == if n == y.name then IndexAt(d, x.name) else if n == x.name then None else IndexAt(d, n);
      if n == y.name {
        assert x in xs && Origin(tail, ys, n).None?;
        if FindIndex(tail, n).Some? {
          assert FindIndex(tail, n).value in xs;
        }
      } else if Origin(tail, ys, n).Some? {
        var o := Origin(tail, ys, n).value;
        assert o in xs && o.name != x.name && o.name != y.name;
      }
    }
  }

  /** A new name that is taken when its turn comes stops the renames. */
  lemma {:induction false} RenamesBlocked(family: SqlFamily, d: DbTable, table: Name, xs: seq<Index>, ys: seq<Index>, i: nat)
    requires !family.Sqlite? && i < |xs| && !FreeAt(d, xs, ys, i)
    ensures Concerns(table, IndexRenames(table, xs, ys))
    ensures RunOnTable(family, Present(d), IndexRenames(table, xs, ys)).None?
    decreases |xs|
  {
    FirstRuns(family, d, table, xs, ys);
    if i > 0 {
      var n := RenamedTo(xs[i], ys).value.name;
      assert xs[1..][i - 1] == xs[i];
      assert forall j :: 0 <= j < i - 1 ==> xs[1..][j] == xs[j + 1];
      assert !Vacated(xs[1..], ys, i - 1, n);
      hide RunOnTable, IndexRenames;
      if RenamedTo(xs[0], ys).None? {
        RenamesBlocked(family, d, table, xs[1..], ys, i - 1);
      } else {
        var y := RenamedTo(xs[0], ys).value.name;
        if xs[0].name in d.indices && y !in d.indices {
          assert xs[0].name != n;
          RenamesBlocked(family, d.(indices := Renamed(d.indices, xs[0].name, y)), table, xs[1..], ys, i - 1);
        }
      }
    }
  }

  /** Of two indexes that are there and get the same new name, the second finds it taken. */
  lemma {:induction false} SharedTargetBlocks(family: SqlFamily, d: DbTable, table: Name, xs: seq<Index>, ys: seq<Index>, i: nat, j: nat)
    requires !family.Sqlite? && IndicesDistinct(xs) && RenamesPresent(d, xs, ys) && i < j < |xs|
    requires RenamedTo(xs[i], ys).Some? && RenamedTo(xs[j], ys).Some?
    requires RenamedTo(xs[i], ys).value.name == RenamedTo(xs[j], ys).value.name
    ensures Concerns(table, IndexRenames(table, xs, ys))
    ensures RunOnTable(family, Present(d), IndexRenames(table, xs, ys)).None?
    decreases |xs|
  {
    FirstRuns(family, d, table, xs, ys);
    assert xs[1..][j - 1] == xs[j];
    hide RunOnTable, IndexRenames;
    if RenamedTo(xs[0], ys).None? {
      assert xs[1..][i - 1] == xs[i];
      SharedTargetBlocks(family, d, table, xs[1..], ys, i - 1, j - 1);
    } else {
      var y := RenamedTo(xs[0], ys).value.name;
      if xs[0].name in d.indices && y !in d.indices {
        var d1 := d.(indices := Renamed(d.indices, xs[0].name, y));
        if i > 0 {
          assert xs[1..][i - 1] == xs[i];
          StillPresent(d, xs, ys);
          SharedTargetBlocks(family, d1, table, xs[1..], ys, i - 1, j - 1);
        } else {
          TakenByFirst(d, xs, ys, j);
          RenamesBlocked(family, d1, table, xs[1..], ys, j - 1);
        }
      }
    }
  }

  lemma {:induction false} StillPresent(d: DbTable, xs: seq<Index>, ys: seq<Index>)
    requires xs != [] && IndicesDistinct(xs) && RenamesPresent(d, xs, ys) && RenamedTo(xs[0], ys).Some? && xs[0].name in d.indices
    ensures RenamesPresent(d.(indices := Renamed(d.indices, xs[0].name, RenamedTo(xs[0], ys).value.name)), xs[1..], ys)
  {
    assert forall x :: x in xs[1..] ==> x in xs;
  }

  lemma {:induction false} TakenByFirst(d: DbTable, xs: seq<Index>, ys: seq<Index>, j: nat)
    requires 0 < j < |xs| && IndicesDistinct(xs) && RenamesPresent(d, xs, ys)
    requires RenamedTo(xs[0], ys).Some? && RenamedTo(xs[j], ys).Some? && xs[0].name in d.indices
    requires RenamedTo(xs[0], ys).value.name == RenamedTo(xs[j], ys).value.name && RenamedTo(xs[0], ys).value.name !in d.indices
    ensures !FreeAt(d.(indices := Renamed(d.indices, xs[0].name, RenamedTo(xs[0], ys).value.name)), xs[1..], ys, j - 1)
  {
    assert xs[1..][j - 1] == xs[j];
    assert forall k :: 0 <= k < j - 1 ==> xs[1..][k] in xs;
  }

  /** An index stays where it is, or comes from a name that is given up. */
  ghost predicate ComesFrom(d: DbTable, xs: seq<Index>, ys: seq<Index>, n: Name, i: DbIndex) {
    || IndexAt(d, n) == Some(i)
    || exists x :: x in xs && RenamedTo(x, ys).Some? && IndexAt(d, x.name) == Some(i)
  }

  /** What renames cannot do: bring in a new index, or touch a name that none of them mentions. */
  ghost predicate Moved(d: DbTable, xs: seq<Index>, ys: seq<Index>, d': DbTable) {
    && SameButIndexes(d, d')
    && (forall n :: n in d'.indices ==> ComesFrom(d, xs, ys, n, d'.indices[n]))
    && (forall n :: FindIndex(ys, n).None? && (FindIndex(xs, n).Some? ==> RenamedTo(FindIndex(xs, n).value, ys).None?) ==>
          IndexAt(d', n) == IndexAt(d, n))
  }

  lemma {:induction false} RenamesMove(family: SqlFamily, d: DbTable, table: Name, xs: seq<Index>, ys: seq<Index>)
    requires !family.Sqlite? && IndicesDistinct(xs)
    ensures Concerns(table, IndexRenames(table, xs, ys))
    ensures var s := RunOnTable(family, Present(d), IndexRenames(table, xs, ys));
            s.Some? ==> s.value.Present? && Moved(d, xs, ys, s.value.table)
    decreases |xs|
  {
    if xs == [] {
      NothingMoved(d, xs, ys);
    } else {
      FirstRuns(family, d, table, xs, ys);
      hide RunOnTable, IndexRenames, Moved;
      var s := RunOnTable(family, Present(d), IndexRenames(table, xs, ys));
      if RenamedTo(xs[0], ys).None? {
        RenamesMove(family, d, table, xs[1..], ys);
        if s.Some? {
          MovedLater(d, d, xs, ys, s.value.table);
        }
      } else if s.Some? {
        var d1 := d.(indices := Renamed(d.indices, xs[0].name, RenamedTo(xs[0], ys).value.name));
        RenamesMove(family, d1, table, xs[1..], ys);
        MovedLater(d, d1, xs, ys, s.value.table);
      }
    }
  }

  lemma {:induction false} NothingMoved(d: DbTable, xs: seq<Index>, ys: seq<Index>)
    ensures Moved(d, xs, ys, d)
  {
  }

  lemma {:induction false} ComesFromEarlier(d: DbTable, d1: DbTable, xs: seq<Index>, ys: seq<Index>, n: Name, i: DbIndex)
    requires xs != [] && ComesFrom(d1, xs[1..], ys, n, i)
    requires d1 == d || (RenamedTo(xs[0], ys).Some? && xs[0].name in d.indices
                         && d1 == d.(indices := Renamed(d.indices, xs[0].name, RenamedTo(xs[0], ys).value.name)))
    ensures ComesFrom(d, xs, ys, n, i)
  {
    assert xs[0] in xs && forall x :: x in xs[1..] ==> x in xs;
    if IndexAt(d1, n) != Some(i) {
      var x :| x in xs[1..] && RenamedTo(x, ys).Some? && IndexAt(d1, x.name) == Some(i);
      if IndexAt(d, x.name) != Some(i) {
        assert IndexAt(d, xs[0].name) == Some(i);
      }
    } else if IndexAt(d, n) != Some(i) {
      assert IndexAt(d, xs[0].name) == Some(i);
    }
  }

  lemma {:induction false} MovedLater(d: DbTable, d1: DbTable, xs: seq<Index>, ys: seq<Index>, d2: DbTable)
    requires xs != [] && IndicesDistinct(xs) && Moved(d1, xs[1..], ys, d2)
    requires d1 == d || (RenamedTo(xs[0], ys).Some? && xs[0].name in d.indices
                         && d1 == d.(indices := Renamed(d.indices, xs[0].name, RenamedTo(xs[0], ys).value.name)))
    requires RenamedTo(xs[0], ys).Some? || d1 == d
    ensures Moved(d, xs, ys, d2)
  {
    forall n | n in d2.indices ensures ComesFrom(d, xs, ys, n, d2.indices[n]) {
      ComesFromEarlier(d, d1, xs, ys, n, d2.indices[n]);
    }
    forall n | FindIndex(ys, n).None? && (FindIndex(xs, n).Some? ==> RenamedTo(FindIndex(xs, n).value, ys).None?)
      ensures IndexAt(d2, n) == IndexAt(d, n)
    {
      assert FindIndex(xs[1..], n).Some? ==> FindIndex(xs, n) == FindIndex(xs[1..], n);
      assert IndexAt(d2, n) == IndexAt(d1, n);
    }
  }
}
