/**
  What the commands of a run leave behind: each record of the log is that of one
  command, and the steps that ran for it are those of this command and of the one
  that took it back.
 */
module MigrationRuns {
  import opened Wrappers
  import opened Names
  import opened MigrationLog

  // ----- which command makes, and which takes back, a revision -----

  predicate Accepts(c: Command) {
    c.ApplyMigration? && (c.warnings ==> c.force)
  }

  /** The number of accepted commands among the first `n`. */
  function Accepted(commands: seq<Command>, n: nat): nat
    requires n <= |commands|
  {
    if n == 0 then 0 else Accepted(commands, n - 1) + (if Accepts(commands[n - 1]) then 1 else 0)
  }

  /** The state after the first `n` commands. */
  function StateAt(commands: seq<Command>, n: nat): State
    requires n <= |commands|
  {
    Run(EMPTY, commands[..n])
  }

  /** The successful migrations after the first `n` commands. */
  function StackAt(commands: seq<Command>, n: nat): Stack
    requires n <= |commands|
  {
    StackRun(Stack([], 1), commands[..n])
  }

  /** The command rolls back the migration of a revision. */
  predicate Pops(commands: seq<Command>, j: nat, revision: nat)
    requires j < |commands|
  {
    && commands[j].UnapplyMigration?
    && var top := StackAt(commands, j).revisions;
       top != [] && top[|top| - 1] == revision
  }

  /** The steps before the one that fails, or all. */
  function Before(steps: seq<Step>, fails: Option<nat>): seq<Step> {
    match fails
    case None => steps
    case Some(k) => if k < |steps| then steps[..k] else steps
  }

  /** The steps that ran backwards are those of the rollback before the failure of the command that made it, or none. */
  ghost predicate TakenBack(commands: seq<Command>, n: nat, revision: nat, rollback: seq<Step>, ran: seq<Step>)
    requires n <= |commands|
  {
    && (forall j: nat :: j < n && Pops(commands, j, revision) ==> ran == Before(rollback, commands[j].fails))
    && ((forall j: nat :: j < n ==> !Pops(commands, j, revision)) ==> ran == [])
  }

  /** The command makes a revision: they are numbered by the accepted commands. */
  predicate Makes(commands: seq<Command>, i: nat, revision: nat)
    requires i < |commands|
  {
    Accepts(commands[i]) && revision == Accepted(commands, i) + 1
  }

  /** The record of a revision is the command as it was given, and what ran for it is what it and its rollback say. */
  ghost predicate RecordOf(commands: seq<Command>, n: nat, s: State, c: Command, revision: nat)
    requires n <= |commands|
  {
    && c.ApplyMigration? && 0 < revision <= |s.log|
    && var m := s.log[revision - 1];
       && m.revision == revision && m.name == c.name && m.steps == c.steps && m.rollback == c.rollback
       && Ran(s.executed, revision, true) == Before(c.steps, c.fails)
       && TakenBack(commands, n, revision, c.rollback, Ran(s.executed, revision, false))
  }

  ghost predicate AllRecorded(commands: seq<Command>, n: nat)
    requires n <= |commands|
  {
    && |StateAt(commands, n).log| == Accepted(commands, n)
    && forall i: nat, r: nat :: i < n && Makes(commands, i, r) ==> RecordOf(commands, n, StateAt(commands, n), commands[i], r)
  }

  // ----- one command -----

  /** A command changes nothing if and only if it is refused for its warnings, or there is nothing to roll back. */
  lemma {:induction false} ChangesNothingIff(s: State, c: Command)
    ensures Execute(s, c) == s <==>
            match c {
              case ApplyMigration(_, _, _, warnings, force, _) => warnings && !force
              case UnapplyMigration(_) => forall m :: m in s.log ==> !m.status.MigrationSuccess?
            }
  {
    match c
    case ApplyMigration(name, steps, rollback, _, _, fails) =>
      var created := Create(s, NewMigration(name, steps, rollback));
      WritesGrow(created, created.log[|created.log| - 1], true, fails);
    case UnapplyMigration(fails) =>
      NoLast(s.log);
      if Last(s.log).Some? {
        WritesGrow(s, Last(s.log).value, false, fails);
      }
  }

  lemma {:induction false} WritesGrow(s: State, m: Migration, forward: bool, fails: Option<nat>)
    ensures |Migrate(s, m, forward, fails).writes| > |s.writes|
  {
    hide Updated, Trace, Done, Outcome;
  }

  lemma {:induction false} NoLast(log: Log)
    ensures Last(log).None? <==> forall m :: m in log ==> !m.status.MigrationSuccess?
    decreases |log|
  {
    if log != [] {
      NoLast(log[..|log| - 1]);
      assert log == log[..|log| - 1] + [log[|log| - 1]];
    }
  }

  // ----- the stack of a run -----

  ghost predicate Rising(stack: Stack) {
    && (forall i, j :: 0 <= i < j < |stack.revisions| ==> stack.revisions[i] < stack.revisions[j])
    && forall r :: r in stack.revisions ==> r < stack.next
  }

  lemma {:induction false} Next(commands: seq<Command>, n: nat)
    requires n < |commands|
    ensures StackAt(commands, n + 1) == StackAfter(StackAt(commands, n), commands[n])
    ensures StateAt(commands, n + 1) == Execute(StateAt(commands, n), commands[n])
    ensures Accepted(commands, n + 1) == Accepted(commands, n) + (if Accepts(commands[n]) then 1 else 0)
  {
    hide Execute, StackAfter;
    assert commands[..n + 1][..n] == commands[..n];
  }

  lemma {:induction false} PushRises(stack: Stack, r: nat)
    requires Rising(stack) && r == stack.next
    ensures Rising(Stack(stack.revisions + [r], r + 1)) && Rising(stack.(next := r + 1))
  {
    var after := stack.revisions + [r];
    forall i, j | 0 <= i < j < |after| ensures after[i] < after[j] {
      assert after[i] == stack.revisions[i] && stack.revisions[i] in stack.revisions;
    }
  }

  lemma {:induction false} PopRises(stack: Stack)
    requires Rising(stack) && stack.revisions != []
    ensures var after := stack.revisions[..|stack.revisions| - 1];
            && Rising(stack.(revisions := after)) && (forall r :: r in after ==> r in stack.revisions)
            && stack.revisions[|stack.revisions| - 1] !in after
  {
    var after := stack.revisions[..|stack.revisions| - 1];
    assert forall i :: 0 <= i < |after| ==> after[i] == stack.revisions[i];
    forall r | r in after ensures r in stack.revisions && r != stack.revisions[|stack.revisions| - 1] {
      var i :| 0 <= i < |after| && after[i] == r;
    }
  }

  lemma {:induction false} StackStep(stack: Stack, c: Command)
    requires Rising(stack)
    ensures var after := StackAfter(stack, c);
            && Rising(after) && after.next == stack.next + (if Accepts(c) then 1 else 0)
            && (forall r :: r in after.revisions ==> r in stack.revisions || r >= stack.next)
            && (c.UnapplyMigration? && stack.revisions != [] ==> stack.revisions[|stack.revisions| - 1] !in after.revisions)
  {
    PushRises(stack, stack.next);
    hide Rising;
    if stack.revisions != [] {
      PopRises(stack);
    }
  }

  lemma {:induction false} NothingStacked(commands: seq<Command>)
    ensures Accepted(commands, 0) == 0 && StackAt(commands, 0) == Stack([], 1) && Rising(StackAt(commands, 0))
  {
  }

  /** Revisions are numbered by the accepted commands, and the stack rises. */
  lemma {:induction false} StackRises(commands: seq<Command>, n: nat)
    requires n <= |commands|
    ensures StackAt(commands, n).next == Accepted(commands, n) + 1 && Rising(StackAt(commands, n))
  {
    hide StackAt, StateAt, StackAfter, Execute, Accepted, Rising;
    if n > 0 {
      StackRises(commands, n - 1);
      Next(commands, n - 1);
      StackStep(StackAt(commands, n - 1), commands[n - 1]);
    } else {
      NothingStacked(commands);
    }
  }

  lemma {:induction false} AcceptedGrows(commands: seq<Command>, a: nat, b: nat)
    requires a <= b <= |commands|
    ensures Accepted(commands, a) <= Accepted(commands, b)
  {
    if a < b {
      AcceptedGrows(commands, a, b - 1);
    }
  }

  /** A revision is popped only once it is made. */
  lemma {:induction false} PopsMade(commands: seq<Command>, j: nat, revision: nat, n: nat)
    requires j < n <= |commands| && Pops(commands, j, revision)
    ensures revision <= Accepted(commands, n)
  {
    StackRises(commands, j);
    AcceptedGrows(commands, j, n);
    hide StackAt, Accepted;
    var top := StackAt(commands, j).revisions;
    assert top[|top| - 1] in top;
  }

  /** A revision that was popped never comes back. */
  lemma {:induction false} PoppedIsGone(commands: seq<Command>, j: nat, revision: nat, n: nat)
    requires j < n <= |commands| && Pops(commands, j, revision)
    ensures revision !in StackAt(commands, n).revisions
    decreases n
  {
    hide StackAt, StateAt, Accepted, Execute, StackAfter, Rising;
    StackRises(commands, n - 1);
    Next(commands, n - 1);
    StackStep(StackAt(commands, n - 1), commands[n - 1]);
    if j < n - 1 {
      PoppedIsGone(commands, j, revision, n - 1);
      PopsMade(commands, j, revision, n - 1);
    }
  }

  // ----- one record -----

  lemma {:induction false} DoneIsBefore(steps: seq<Step>, fails: Option<nat>)
    ensures Done(steps, fails) == Before(steps, fails)
  {
  }

  lemma {:induction false} NothingPopped(commands: seq<Command>, n: nat, revision: nat, rollback: seq<Step>, ran: seq<Step>)
    requires n < |commands| && TakenBack(commands, n, revision, rollback, ran) && !Pops(commands, n, revision)
    ensures TakenBack(commands, n + 1, revision, rollback, ran)
  {
    hide Pops;
    if forall j: nat :: j < n + 1 ==> !Pops(commands, j, revision) {
      assert forall j: nat :: j < n ==> !Pops(commands, j, revision);
    }
  }

  /** The record of a revision says the same, and the same ran for it. */
  ghost predicate Same(s: State, t: State, revision: nat) {
    && 0 < revision <= |s.log| && revision <= |t.log|
    && var m, m' := s.log[revision - 1], t.log[revision - 1];
       && m'.revision == m.revision && m'.name == m.name && m'.steps == m.steps && m'.rollback == m.rollback
       && forall f :: Ran(t.executed, revision, f) == Ran(s.executed, revision, f)
  }

  lemma {:induction false} StaysRecorded(commands: seq<Command>, n: nat, s: State, t: State, c: Command, revision: nat)
    requires n < |commands| && RecordOf(commands, n, s, c, revision) && Same(s, t, revision) && !Pops(commands, n, revision)
    ensures RecordOf(commands, n + 1, t, c, revision)
  {
    hide Pops, Ran, Before, TakenBack;
    NothingPopped(commands, n, revision, c.rollback, Ran(s.executed, revision, false));
  }

  lemma {:induction false} RanAlike(s: State, m: Migration, forward: bool, fails: Option<nat>, revision: nat, f: bool)
    requires revision != m.revision || f != forward
    ensures Ran(Migrate(s, m, forward, fails).executed, revision, f) == Ran(s.executed, revision, f)
  {
    hide Migrate, Lived, Done, Ran, History;
    MigrateTraces(s, m, forward, fails, revision, f);
    assert Ran(s.executed, revision, f) + [] == Ran(s.executed, revision, f);
  }

  lemma {:induction false} RanFirst(s: State, m: Migration, forward: bool, fails: Option<nat>)
    requires Ran(s.executed, m.revision, forward) == []
    ensures Ran(Migrate(s, m, forward, fails).executed, m.revision, forward) == Before(if forward then m.steps else m.rollback, fails)
  {
    DoneIsBefore(if forward then m.steps else m.rollback, fails);
    hide Migrate, Lived, Done, Ran, History, Before;
    MigrateTraces(s, m, forward, fails, m.revision, forward);
  }

  lemma {:induction false} NotYetPopped(commands: seq<Command>, n: nat, revision: nat, rollback: seq<Step>)
    requires n < |commands| && Makes(commands, n, revision)
    ensures TakenBack(commands, n + 1, revision, rollback, [])
  {
    forall j: nat | j < n + 1 ensures !Pops(commands, j, revision) {
      if j < n && Pops(commands, j, revision) {
        PopsMade(commands, j, revision, n);
      }
    }
  }

  lemma {:induction false} NowPopped(commands: seq<Command>, n: nat, revision: nat, rollback: seq<Step>)
    requires n < |commands| && Pops(commands, n, revision)
    ensures TakenBack(commands, n + 1, revision, rollback, Before(rollback, commands[n].fails))
  {
    forall j: nat | j < n ensures !Pops(commands, j, revision) {
      if Pops(commands, j, revision) {
        PoppedIsGone(commands, j, revision, n);
      }
    }
    hide Before;
  }

  // ----- an accepted command -----

  /** The record of a command beside those that there are. */
  ghost predicate Adds(s: State, t: State, c: Command) {
    var r := NextRevision(s.log);
    && c.ApplyMigration? && |t.log| == |s.log| + 1 && (forall k :: 0 <= k < |s.log| ==> t.log[k] == s.log[k])
    && (var m := t.log[|s.log|]; m.revision == r && m.name == c.name && m.steps == c.steps && m.rollback == c.rollback)
    && Ran(t.executed, r, true) == Before(c.steps, c.fails) && Ran(t.executed, r, false) == []
    && forall x, f :: x != r ==> Ran(t.executed, x, f) == Ran(s.executed, x, f)
  }

  lemma {:induction false} ApplyingAdds(s: State, c: Command)
    requires Orderly(s) && Accepts(c)
    ensures Adds(s, Execute(s, c), c)
  {
    var n := NewMigration(c.name, c.steps, c.rollback);
    var m, created := n.(revision := NextRevision(s.log)), Create(s, n);
    ApplyKeepsOrder(s, n, c.fails);
    OutcomeKeeps(Started(m, true), true, c.fails);
    assert Execute(s, c) == Migrate(created, m, true, c.fails);
    assert Untouched(s, m.revision);
    hide Execute, Migrate, Ran, Outcome, Before, Settled, Orderly, History;
    RanFirst(created, m, true, c.fails);
    RanAlike(created, m, true, c.fails, m.revision, false);
    forall x, f | x != m.revision ensures Ran(Execute(s, c).executed, x, f) == Ran(s.executed, x, f) {
      RanAlike(created, m, true, c.fails, x, f);
    }
  }

  lemma {:induction false} NextIsNumbered(commands: seq<Command>, n: nat)
    requires n <= |commands|
    ensures Orderly(StateAt(commands, n)) && NextRevision(StateAt(commands, n).log) == Accepted(commands, n) + 1
  {
    RunsAreOrderly(commands[..n]);
    SuccessesAreStack(commands[..n]);
    StackRises(commands, n);
    hide Run, StackRun, Orderly, Last, Successes;
  }

  lemma {:induction false} OldStays(commands: seq<Command>, n: nat, s: State, t: State, c: Command, revision: nat)
    requires n < |commands| && Adds(s, t, commands[n]) && NextRevision(s.log) == |s.log| + 1
    requires RecordOf(commands, n, s, c, revision)
    ensures RecordOf(commands, n + 1, t, c, revision)
  {
    hide Ran, Before, TakenBack, NextRevision;
    StaysRecorded(commands, n, s, t, c, revision);
  }

  lemma {:induction false} NewIsRecorded(commands: seq<Command>, n: nat, s: State, t: State)
    requires n < |commands| && Accepts(commands[n]) && Adds(s, t, commands[n])
    requires |s.log| == Accepted(commands, n) && NextRevision(s.log) == |s.log| + 1
    ensures RecordOf(commands, n + 1, t, commands[n], Accepted(commands, n) + 1)
  {
    hide Ran, Before, TakenBack, NextRevision, Accepted;
    NotYetPopped(commands, n, Accepted(commands, n) + 1, commands[n].rollback);
  }

  lemma {:induction false} RecordedByApplying(commands: seq<Command>, n: nat)
    requires n < |commands| && Accepts(commands[n]) && AllRecorded(commands, n)
    ensures AllRecorded(commands, n + 1)
  {
    var s, t, c := StateAt(commands, n), StateAt(commands, n + 1), commands[n];
    NextIsNumbered(commands, n);
    Next(commands, n);
    ApplyingAdds(s, c);
    assert |t.log| == |s.log| + 1;
    hide StateAt, StackAt, Execute, Orderly, StackAfter, RecordOf, Adds, NextRevision, Makes;
    forall i: nat, r: nat | i < n + 1 && Makes(commands, i, r) ensures RecordOf(commands, n + 1, t, commands[i], r) {
      if i < n {
        OldStays(commands, n, s, t, commands[i], r);
      } else {
        MakesIs(commands, n, r);
        NewIsRecorded(commands, n, s, t);
      }
    }
  }

  lemma {:induction false} MakesIs(commands: seq<Command>, n: nat, r: nat)
    requires n < |commands| && Makes(commands, n, r)
    ensures r == Accepted(commands, n) + 1
  {
  }

  // ----- a rollback -----

  lemma {:induction false} NotBackYet(s: State, m: Migration)
    requires Orderly(s) && m in s.log && m.status.MigrationSuccess?
    ensures Ran(s.executed, m.revision, false) == []
  {
    assert Settled(s, m);
    hide Ran, History;
  }

  lemma {:induction false} UnapplyMigrates(s: State, fails: Option<nat>)
    requires Last(s.log).Some?
    ensures Execute(s, UnapplyMigration(fails)) == Migrate(s, Last(s.log).value, false, fails)
  {
  }

  /** What ran for one revision grows, and nothing else changes what was recorded. */
  ghost predicate TakesBack(s: State, t: State, m: Migration, fails: Option<nat>) {
    && |t.log| == |s.log| && m in s.log
    && (forall k :: 0 <= k < |s.log| ==>
          && t.log[k].revision == s.log[k].revision && t.log[k].name == s.log[k].name
          && t.log[k].steps == s.log[k].steps && t.log[k].rollback == s.log[k].rollback)
    && Ran(t.executed, m.revision, false) == Before(m.rollback, fails)
    && forall x, f :: x != m.revision || f ==> Ran(t.executed, x, f) == Ran(s.executed, x, f)
  }

  lemma {:induction false} RollbackTakesBack(s: State, fails: Option<nat>)
    requires Orderly(s) && Last(s.log).Some?
    ensures TakesBack(s, Execute(s, UnapplyMigration(fails)), Last(s.log).value, fails)
  {
    hide Execute, Migrate, Ran, Outcome, Before, Settled, Orderly, History, Last;
    LastIs(s.log);
    var i: nat :| i < |s.log| && Topmost(s.log, i) && Last(s.log) == Some(s.log[i]);
    var m, t := s.log[i], Execute(s, UnapplyMigration(fails));
    RollbackKeepsOrder(s, i, fails);
    OutcomeKeeps(Started(m, false), false, fails);
    NotBackYet(s, m);
    UnapplyMigrates(s, fails);
    RanFirst(s, m, false, fails);
    forall x, f | x != m.revision || f ensures Ran(t.executed, x, f) == Ran(s.executed, x, f) {
      RanAlike(s, m, false, fails, x, f);
    }
  }

  lemma {:induction false} BackStays(commands: seq<Command>, n: nat, s: State, t: State, m: Migration, c: Command, revision: nat)
    requires n < |commands| && commands[n].UnapplyMigration? && Sorted(s.log) && TakesBack(s, t, m, commands[n].fails)
    requires RecordOf(commands, n, s, c, revision) && forall r :: Pops(commands, n, r) <==> r == m.revision
    ensures RecordOf(commands, n + 1, t, c, revision)
  {
    hide Ran, Before, TakenBack, Pops;
    if revision == m.revision {
      assert s.log[revision - 1] == m;
      NowPopped(commands, n, revision, c.rollback);
    } else {
      StaysRecorded(commands, n, s, t, c, revision);
    }
  }

  lemma {:induction false} PopsLast(commands: seq<Command>, n: nat, r: nat)
    requires n < |commands| && commands[n].UnapplyMigration? && Last(StateAt(commands, n).log).Some?
    ensures Pops(commands, n, r) <==> r == Last(StateAt(commands, n).log).value.revision
  {
    SuccessesAreStack(commands[..n]);
    hide Run, StackRun, Last;
  }

  lemma {:induction false} RecordedByRollback(commands: seq<Command>, n: nat)
    requires n < |commands| && commands[n].UnapplyMigration? && AllRecorded(commands, n)
    requires Last(StateAt(commands, n).log).Some?
    ensures AllRecorded(commands, n + 1)
  {
    var s, t, fails := StateAt(commands, n), StateAt(commands, n + 1), commands[n].fails;
    var m := Last(s.log).value;
    hide StateAt, StackAt, Execute, Orderly, StackAfter, RecordOf, TakesBack, NextRevision, Makes, Pops, Last, Sorted, Accepted;
    NextIsNumbered(commands, n);
    Next(commands, n);
    RollbackTakesBack(s, fails);
    BackKeeps(s, t, m, fails);
    forall r ensures Pops(commands, n, r) <==> r == m.revision {
      PopsLast(commands, n, r);
    }
    forall i: nat, r: nat | i < n + 1 && Makes(commands, i, r) ensures RecordOf(commands, n + 1, t, commands[i], r) {
      assert i < n by { MakesAccepts(commands, i, r); }
      BackStays(commands, n, s, t, m, commands[i], r);
    }
  }

  lemma {:induction false} BackKeeps(s: State, t: State, m: Migration, fails: Option<nat>)
    requires Orderly(s) && TakesBack(s, t, m, fails)
    ensures Sorted(s.log) && |t.log| == |s.log|
  {
    hide Sorted;
  }

  lemma {:induction false} MakesAccepts(commands: seq<Command>, i: nat, r: nat)
    requires i < |commands| && Makes(commands, i, r)
    ensures Accepts(commands[i])
  {
  }

  // ----- every run -----

  lemma {:induction false} NothingToPop(commands: seq<Command>, n: nat)
    requires n < |commands| && (commands[n].UnapplyMigration? ==> Last(StateAt(commands, n).log).None?)
    ensures forall r :: !Pops(commands, n, r)
  {
    SuccessesAreStack(commands[..n]);
    hide Run, StackRun, Last;
  }

  /** Where nothing changes, the records stay. */
  lemma {:induction false} RecordedByNothing(commands: seq<Command>, n: nat)
    requires n < |commands| && !Accepts(commands[n]) && AllRecorded(commands, n)
    requires StateAt(commands, n + 1) == StateAt(commands, n) && forall r :: !Pops(commands, n, r)
    ensures AllRecorded(commands, n + 1)
  {
    var s := StateAt(commands, n);
    Next(commands, n);
    hide StateAt, StackAt, StackAfter, Ran, Pops, RecordOf, Execute, Makes;
    forall i: nat, r: nat | i < n + 1 && Makes(commands, i, r) ensures RecordOf(commands, n + 1, s, commands[i], r) {
      assert i < n by { MakesAccepts(commands, i, r); }
      RecordHolds(commands, n, s, commands[i], r);
    }
  }

  lemma {:induction false} RecordHolds(commands: seq<Command>, n: nat, s: State, c: Command, revision: nat)
    requires n < |commands| && RecordOf(commands, n, s, c, revision) && !Pops(commands, n, revision)
    ensures RecordOf(commands, n + 1, s, c, revision)
  {
    hide Pops, Ran, Before, TakenBack;
    StaysRecorded(commands, n, s, s, c, revision);
  }

  /**
    After every run, and for every accepted command of it, the record of its revision
    has its name, steps and rollback; its steps ran up to its own failure, and its
    rollback up to the failure of the command that took it back, if there was one.
   */
  lemma {:induction false} CommandsAreRecorded(commands: seq<Command>, n: nat)
    requires n <= |commands|
    ensures AllRecorded(commands, n)
  {
    hide StateAt, StackAt, Run, AllRecorded, Execute, Last, StackAfter, Accepted;
    if n == 0 {
      NothingRecorded(commands);
    } else {
      CommandsAreRecorded(commands, n - 1);
      Next(commands, n - 1);
      var s, c := StateAt(commands, n - 1), commands[n - 1];
      ChangesNothingIff(s, c);
      NoLast(s.log);
      if Accepts(c) {
        RecordedByApplying(commands, n - 1);
      } else if c.UnapplyMigration? && Last(s.log).Some? {
        RecordedByRollback(commands, n - 1);
      } else {
        NothingToPop(commands, n - 1);
        RecordedByNothing(commands, n - 1);
      }
    }
  }

  lemma {:induction false} NothingRecorded(commands: seq<Command>)
    ensures AllRecorded(commands, 0)
  {
  }
}
