/** The migration engine: applies and rolls back migrations step by step, and records each move in its log. */
module MigrationEngine {
  import opened Wrappers
  import opened Names
  import opened MigrationLog

  class Engine {
    var log: Log
    var executed: seq<Executed>
    ghost var writes: seq<Migration>

    ghost function Contents(): State
      reads this
    {
      State(log, executed, writes)
    }

    constructor ()
      ensures Contents() == EMPTY
    {
      log, executed, writes := [], [], [];
    }

    /** The successful migration of the highest revision. */
    method Last() returns (m: Option<Migration>)
      ensures m == MigrationLog.Last(log)
    {
      var i := |log|;
      assert log[..i] == log;
      while i > 0
        invariant 0 <= i <= |log|
        invariant MigrationLog.Last(log) == MigrationLog.Last(log[..i])
      {
        assert log[..i][..i - 1] == log[..i - 1];
        if log[i - 1].status.MigrationSuccess? {
          return Some(log[i - 1]);
        }
        i := i - 1;
      }
      m := None;
    }

    method Create(m: Migration) returns (saved: Migration)
      modifies this
      ensures Contents() == MigrationLog.Create(old(Contents()), m)
      ensures saved == m.(revision := NextRevision(old(log)))
    {
      saved := m.(revision := NextRevision(log));
      log := log + [saved];
      writes := writes + [saved];
    }

    method Update(m: Migration)
      modifies this
      ensures Contents() == MigrationLog.Update(old(Contents()), m)
    {
      var updated := [];
      for i := 0 to |log|
        invariant log == old(log) && executed == old(executed) && writes == old(writes)
        invariant Updated(log, m) == updated + Updated(log[i..], m)
      {
        assert log[i..][0] == log[i] && log[i..][1..] == log[i + 1..];
        if log[i].name == m.name && log[i].revision == m.revision {
          updated := updated + [Written(log[i], m)];
        } else {
          updated := updated + [log[i]];
        }
      }
      log := updated;
      writes := writes + [m];
    }

    /** Executes one step, if it is there and does not fail, and tells whether another one follows. */
    method ApplyStep(revision: nat, forward: bool, steps: seq<Step>, index: nat, fails: Option<nat>) returns (more: Option<bool>)
      modifies this`executed
      ensures (executed, more) == Attempt(old(executed), revision, forward, steps, index, fails)
    {
      if index >= |steps| {
        return Some(false);
      }
      if fails == Some(index) {
        return None;
      }
      executed := executed + [Executed(revision, forward, steps[index])];
      more := Some(index + 1 < |steps|);
    }

    /** Executes the steps of a migration in one direction, and records the progress. */
    method Go(m: Migration, forward: bool, fails: Option<nat>) returns (updates: Migration, ok: bool)
      modifies this
      ensures Contents() == MigrationLog.Go(old(Contents()), m, forward, fails)
      ensures var steps := if forward then m.steps else m.rollback;
              updates == Advanced(m, forward, Progress(steps, fails)) && ok == Succeeds(steps, fails)
    {
      hide Reached, Attempt, MigrationLog.Go, Progress, Succeeds, MigrationLog.Update;
      var steps := if forward then m.steps else m.rollback;
      updates := m;
      var step := 0;
      ghost var s0 := Contents();
      var more := ApplyStep(m.revision, forward, steps, step, fails);
      ReachedFirst(s0, m, forward, fails);
      while more == Some(true)
        invariant updates == Advanced(m, forward, step)
        invariant Reached(s0, Contents(), m, forward, fails, step, more)
        decreases |steps| - step
      {
        ReachedNext(s0, Contents(), m, forward, fails, step);
        step := step + 1;
        updates := Advanced(updates, forward, 1);
        Update(updates);
        more := ApplyStep(m.revision, forward, steps, step, fails);
      }
      ReachedEnd(s0, Contents(), m, forward, fails, step, more);
      ok := more.Some?;
    }

    /** Applies a pending migration. */
    method Apply(m: Migration, fails: Option<nat>) returns (ok: bool)
      requires m.status.Pending?
      modifies this
      ensures Contents() == Migrate(old(Contents()), m, true, fails) && ok == Succeeds(m.steps, fails)
    {
      hide MigrationLog.Go, Progress, MigrationLog.Update;
      var updates := m.(status := MigrationInProgress);
      Update(updates);
      updates, ok := Go(updates, true, fails);
      if ok {
        updates := updates.(status := MigrationSuccess, finished := true);
      } else {
        updates := updates.(status := MigrationFailure, errors := [fails.value]);
      }
      Update(updates);
    }

    /** Rolls a successful migration back. */
    method Unapply(m: Migration, fails: Option<nat>) returns (ok: bool)
      requires m.status.MigrationSuccess?
      modifies this
      ensures Contents() == Migrate(old(Contents()), m, false, fails) && ok == Succeeds(m.rollback, fails)
    {
      hide MigrationLog.Go, Progress, MigrationLog.Update;
      var updates := m.(status := RollingBack);
      Update(updates);
      updates, ok := Go(updates, false, fails);
      if ok {
        updates := updates.(status := RollbackSuccess);
      } else {
        updates := updates.(status := RollbackFailure, errors := [fails.value]);
      }
      Update(updates);
    }

    /** The command to apply a new migration; warnings stop it unless it is forced. */
    method ApplyMigration(name: Name, steps: seq<Step>, rollback: seq<Step>, warnings: bool, force: bool, fails: Option<nat>)
        returns (ok: bool)
      modifies this
      ensures Contents() == Execute(old(Contents()), Command.ApplyMigration(name, steps, rollback, warnings, force, fails))
      ensures ok <==> (warnings && !force) || Succeeds(steps, fails)
    {
      hide Migrate;
      ok := true;
      if !warnings || force {
        var saved := Create(NewMigration(name, steps, rollback));
        ok := Apply(saved, fails);
      }
    }

    /** The command to roll the last migration back; it tells which migration was rolled back and which is active now. */
    method UnapplyMigration(fails: Option<nat>) returns (rolledBack: Option<Name>, active: Option<Name>, ok: bool)
      modifies this
      ensures Contents() == Execute(old(Contents()), Command.UnapplyMigration(fails))
      ensures var last := MigrationLog.Last(old(log));
              && (ok <==> last.None? || Succeeds(last.value.rollback, fails))
              && rolledBack == (if last.Some? && ok then Some(last.value.name) else None)
              && active == (if last.Some? && ok then NameOf(MigrationLog.Last(log)) else None)
    {
      hide Migrate;
      rolledBack, active, ok := None, None, true;
      var last := Last();
      if last.Some? {
        LastSucceeded(log);
        ok := Unapply(last.value, fails);
        if ok {
          var now := Last();
          rolledBack, active := Some(last.value.name), NameOf(now);
        }
      }
    }

    /** The trailing migrations of the log that were made in watch mode. */
    method LoadCurrentWatchMigrations() returns (result: seq<Migration>)
      ensures exists k :: 0 <= k <= |log| && result == log[k..] && (forall m :: m in log[k..] ==> IsWatch(m))
                       && (k > 0 ==> !IsWatch(log[k - 1]))
    {
      result := [];
      var i := |log|;
      while i > 0 && IsWatch(log[i - 1])
        invariant 0 <= i <= |log| && result == log[i..]
        invariant forall m :: m in log[i..] ==> IsWatch(m)
      {
        i := i - 1;
        result := [log[i]] + result;
      }
    }
  }

  predicate IsWatch(m: Migration) {
    "watch" <= m.name
  }

  function NameOf(m: Option<Migration>): Option<Name> {
    if m.Some? then Some(m.value.name) else None
  }

  /** What trying one step does. */
  function Attempt(executed: seq<Executed>, revision: nat, forward: bool, steps: seq<Step>, index: nat, fails: Option<nat>)
      : (seq<Executed>, Option<bool>)
  {
    if index >= |steps| then (executed, Some(false))
    else if fails == Some(index) then (executed, None)
    else (executed + [Executed(revision, forward, steps[index])], Some(index + 1 < |steps|))
  }

  /** The state once a step has been tried, and what trying it has told. */
  ghost predicate Reached(s0: State, s: State, m: Migration, forward: bool, fails: Option<nat>, step: nat, more: Option<bool>) {
    var steps := if forward then m.steps else m.rollback;
    && s.log == UpdatedUpTo(s0.log, m, forward, step) && s.writes == s0.writes + Counted(m, forward, step)
    && if steps == [] then step == 0 && more == Some(false) && s.executed == s0.executed
       else
         && step < |steps| && (fails.Some? ==> fails.value >= step)
         && more == (if fails == Some(step) then None else Some(step + 1 < |steps|))
         && s.executed == s0.executed + Trace(m.revision, forward, steps[..if fails == Some(step) then step else step + 1])
  }

  lemma {:induction false} ReachedFirst(s0: State, m: Migration, forward: bool, fails: Option<nat>)
    ensures var steps := if forward then m.steps else m.rollback;
            var (executed, more) := Attempt(s0.executed, m.revision, forward, steps, 0, fails);
            Reached(s0, s0.(executed := executed), m, forward, fails, 0, more)
  {
    var steps := if forward then m.steps else m.rollback;
    assert Counted(m, forward, 0) == [];
    if steps != [] {
      assert Trace(m.revision, forward, steps[..0]) == [];
      assert Trace(m.revision, forward, steps[..1]) == [Executed(m.revision, forward, steps[0])];
    }
  }

  lemma {:induction false} ReachedNext(s0: State, s: State, m: Migration, forward: bool, fails: Option<nat>, step: nat)
    requires Reached(s0, s, m, forward, fails, step, Some(true))
    ensures var steps := if forward then m.steps else m.rollback;
            var t := MigrationLog.Update(s, Advanced(m, forward, step + 1));
            var (executed, more) := Attempt(t.executed, m.revision, forward, steps, step + 1, fails);
            && step + 1 < |steps| && Advanced(Advanced(m, forward, step), forward, 1) == Advanced(m, forward, step + 1)
            && Reached(s0, t.(executed := executed), m, forward, fails, step + 1, more)
  {
    hide Updated;
    var steps := if forward then m.steps else m.rollback;
    UpdatedAgain(s0.log, m, forward, step + 1);
    assert Counted(m, forward, step + 1) == Counted(m, forward, step) + [Advanced(m, forward, step + 1)];
    assert s0.writes + Counted(m, forward, step + 1) == (s0.writes + Counted(m, forward, step)) + [Advanced(m, forward, step + 1)];
    var ran, one := Trace(m.revision, forward, steps[..step + 1]), [Executed(m.revision, forward, steps[step + 1])];
    assert Trace(m.revision, forward, steps[..step + 2]) == ran + one;
    assert s0.executed + (ran + one) == (s0.executed + ran) + one;
  }

  lemma {:induction false} ReachedEnd(s0: State, s: State, m: Migration, forward: bool, fails: Option<nat>, step: nat, more: Option<bool>)
    requires Reached(s0, s, m, forward, fails, step, more) && more != Some(true)
    ensures var steps := if forward then m.steps else m.rollback;
            s == MigrationLog.Go(s0, m, forward, fails) && step == Progress(steps, fails) && more.Some? == Succeeds(steps, fails)
  {
    var steps := if forward then m.steps else m.rollback;
    if steps == [] {
      assert Trace(m.revision, forward, steps) == [];
    } else if more.Some? {
      assert steps[..step + 1] == steps;
    }
  }

  lemma {:induction false} LastSucceeded(log: Log)
    requires MigrationLog.Last(log).Some?
    ensures MigrationLog.Last(log).value.status.MigrationSuccess?
    decreases |log|
  {
    if !log[|log| - 1].status.MigrationSuccess? {
      LastSucceeded(log[..|log| - 1]);
    }
  }

  lemma {:induction false} UpdatedAgain(log: Log, m: Migration, forward: bool, k: nat)
    requires k > 0
    ensures Updated(UpdatedUpTo(log, m, forward, k - 1), Advanced(m, forward, k)) == UpdatedUpTo(log, m, forward, k)
  {
    if k > 1 {
      UpdatedTwice(log, Advanced(m, forward, k - 1), Advanced(m, forward, k));
    }
  }
}
