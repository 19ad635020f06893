/**
  The log of migrations, the commands that apply and roll back migrations, and
  what holds of the log after every run of such commands.
 */
module MigrationLog {
  import opened Wrappers
  import opened Names

  type Step = string

  datatype Status =
    | Pending
    | MigrationInProgress
    | MigrationSuccess
    | MigrationFailure
    | RollingBack
    | RollbackSuccess
    | RollbackFailure

  /** A record of the log; an error tells the step that failed. */
  datatype Migration = Migration(
    name: Name, revision: nat, status: Status, applied: nat, rolledBack: nat,
    steps: seq<Step>, rollback: seq<Step>, errors: seq<nat>, finished: bool)

  type Log = seq<Migration>

  datatype Executed = Executed(revision: nat, forward: bool, step: Step)

  /** The log in the order of revisions, the steps the database has executed, and all that was written to the log. */
  datatype State = State(log: Log, executed: seq<Executed>, writes: seq<Migration>)

  // ----- the stored records -----

  function NextRevision(log: Log): nat {
    if log == [] then 1 else log[|log| - 1].revision + 1
  }

  /** The successful migration of the highest revision. */
  function Last(log: Log): Option<Migration> {
    if log == [] then None
    else if log[|log| - 1].status.MigrationSuccess? then Some(log[|log| - 1])
    else Last(log[..|log| - 1])
  }

  function Updated(log: Log, m: Migration): Log {
    if log == [] then []
    else [if log[0].name == m.name && log[0].revision == m.revision then Written(log[0], m) else log[0]] + Updated(log[1..], m)
  }

  /** An update leaves the steps of a migration alone. */
  function Written(old_: Migration, m: Migration): Migration {
    m.(steps := old_.steps, rollback := old_.rollback)
  }

  function Create(s: State, m: Migration): State {
    var saved := m.(revision := NextRevision(s.log));
    State(s.log + [saved], s.executed, s.writes + [saved])
  }

  function Update(s: State, m: Migration): State {
    s.(log := Updated(s.log, m), writes := s.writes + [m])
  }

  // ----- running the steps of a migration -----

  /** The steps that are executed before one fails. */
  function Done(steps: seq<Step>, fails: Option<nat>): seq<Step> {
    if fails.Some? && fails.value < |steps| then steps[..fails.value] else steps
  }

  predicate Succeeds(steps: seq<Step>, fails: Option<nat>) {
    fails.None? || fails.value >= |steps|
  }

  /** How often progress is recorded: after each step that another one follows. */
  function Progress(steps: seq<Step>, fails: Option<nat>): nat {
    if !Succeeds(steps, fails) then fails.value else if steps == [] then 0 else |steps| - 1
  }

  function Trace(revision: nat, forward: bool, steps: seq<Step>): seq<Executed> {
    seq(|steps|, i requires 0 <= i < |steps| => Executed(revision, forward, steps[i]))
  }

  function Advanced(m: Migration, forward: bool, k: nat): Migration {
    if forward then m.(applied := m.applied + k) else m.(rolledBack := m.rolledBack + k)
  }

  /** The records that are written while k steps are counted. */
  function Counted(m: Migration, forward: bool, k: nat): seq<Migration> {
    seq(k, i requires 0 <= i < k => Advanced(m, forward, i + 1))
  }

  /** The log after k counted steps. */
  function UpdatedUpTo(log: Log, m: Migration, forward: bool, k: nat): Log {
    if k == 0 then log else Updated(log, Advanced(m, forward, k))
  }

  function Go(s: State, m: Migration, forward: bool, fails: Option<nat>): State {
    var steps := if forward then m.steps else m.rollback;
    var k := Progress(steps, fails);
    State(UpdatedUpTo(s.log, m, forward, k), s.executed + Trace(m.revision, forward, Done(steps, fails)), s.writes + Counted(m, forward, k))
  }

  /** The record that is written in the end. */
  function Outcome(m: Migration, forward: bool, fails: Option<nat>): Migration {
    var steps := if forward then m.steps else m.rollback;
    var counted := Advanced(m, forward, Progress(steps, fails));
    if Succeeds(steps, fails) then
      if forward then counted.(status := MigrationSuccess, finished := true) else counted.(status := RollbackSuccess)
    else
      counted.(status := if forward then MigrationFailure else RollbackFailure, errors := [fails.value])
  }

  function Started(m: Migration, forward: bool): Migration {
    m.(status := if forward then MigrationInProgress else RollingBack)
  }

  /** Applies a migration, or rolls it back. */
  function Migrate(s: State, m: Migration, forward: bool, fails: Option<nat>): State {
    var started := Started(m, forward);
    Update(Go(Update(s, started), started, forward, fails), Outcome(started, forward, fails))
  }

  // ----- commands -----

  /** A command, with the step at which its run fails, if there is one. */
  datatype Command =
    | ApplyMigration(name: Name, steps: seq<Step>, rollback: seq<Step>, warnings: bool, force: bool, fails: Option<nat>)
    | UnapplyMigration(fails: Option<nat>)

  function NewMigration(name: Name, steps: seq<Step>, rollback: seq<Step>): Migration {
    Migration(name, 0, Pending, 0, 0, steps, rollback, [], false)
  }

  predicate Refused(c: Command)
    requires c.ApplyMigration?
  {
    c.warnings && !c.force
  }

  function Execute(s: State, c: Command): State {
    match c
    case ApplyMigration(name, steps, rollback, _, _, fails) =>
      if Refused(c) then s
      else
        var created := Create(s, NewMigration(name, steps, rollback));
        Migrate(created, created.log[|created.log| - 1], true, fails)
    case UnapplyMigration(fails) =>
      if Last(s.log).None? then s else Migrate(s, Last(s.log).value, false, fails)
  }

  function Run(s: State, commands: seq<Command>): State
    decreases |commands|
  {
    if commands == [] then s else Execute(Run(s, commands[..|commands| - 1]), commands[|commands| - 1])
  }

  const EMPTY := State([], [], [])

  // ----- what happened to one revision -----

  /** The steps of one revision that were executed, in one direction. */
  function Ran(executed: seq<Executed>, revision: nat, forward: bool): seq<Step> {
    if executed == [] then []
    else (if executed[0].revision == revision && executed[0].forward == forward then [executed[0].step] else [])
         + Ran(executed[1..], revision, forward)
  }

  /** The statuses that were written for one revision. */
  function History(writes: seq<Migration>, revision: nat): seq<Status> {
    if writes == [] then []
    else (if writes[0].revision == revision then [writes[0].status] else []) + History(writes[1..], revision)
  }

  lemma {:induction false} RanConcat(a: seq<Executed>, b: seq<Executed>, revision: nat, forward: bool)
    ensures Ran(a + b, revision, forward) == Ran(a, revision, forward) + Ran(b, revision, forward)
  {
    if a == [] {
      assert a + b == b;
    } else {
      RanConcat(a[1..], b, revision, forward);
      assert (a + b)[0] == a[0] && (a + b)[1..] == a[1..] + b;
      var head := if a[0].revision == revision && a[0].forward == forward then [a[0].step] else [];
      var tail, rest := Ran(a[1..], revision, forward), Ran(b, revision, forward);
      assert Ran(a + b, revision, forward) == head + (tail + rest);
      assert head + (tail + rest) == (head + tail) + rest;
    }
  }

  lemma {:induction false} HistoryConcat(a: seq<Migration>, b: seq<Migration>, revision: nat)
    ensures History(a + b, revision) == History(a, revision) + History(b, revision)
  {
    if a == [] {
      assert a + b == b;
    } else {
      HistoryConcat(a[1..], b, revision);
      assert (a + b)[0] == a[0] && (a + b)[1..] == a[1..] + b;
      var head, tail, rest := if a[0].revision == revision then [a[0].status] else [], History(a[1..], revision), History(b, revision);
      assert History(a, revision) == head + tail;
      assert History(a + b, revision) == head + (tail + rest);
      assert head + (tail + rest) == (head + tail) + rest;
    }
  }

  lemma {:induction false} RanTrace(r: nat, f: bool, steps: seq<Step>, revision: nat, forward: bool)
    ensures Ran(Trace(r, f, steps), revision, forward) == if r == revision && f == forward then steps else []
  {
    if steps != [] {
      RanTrace(r, f, steps[1..], revision, forward);
      var t := Trace(r, f, steps);
      assert t[0] == Executed(r, f, steps[0]) && t[1..] == Trace(r, f, steps[1..]);
      assert steps == [steps[0]] + steps[1..];
    }
  }

  function Repeated(status: Status, k: nat): seq<Status> {
    seq(k, i => status)
  }

  lemma {:induction false} HistoryCounted(m: Migration, forward: bool, k: nat, revision: nat)
    ensures History(Counted(m, forward, k), revision) == if m.revision == revision then Repeated(m.status, k) else []
  {
    if k > 0 {
      HistoryCounted(m, forward, k - 1, revision);
      var last := Advanced(m, forward, k);
      assert Counted(m, forward, k) == Counted(m, forward, k - 1) + [last];
      HistoryConcat(Counted(m, forward, k - 1), [last], revision);
      assert History([last], revision) == if m.revision == revision then [m.status] else [];
      assert Repeated(m.status, k) == Repeated(m.status, k - 1) + [m.status];
    }
  }

  /** What a migration adds to the statuses of its own revision. */
  function Lived(m: Migration, forward: bool, fails: Option<nat>): seq<Status> {
    var started := Started(m, forward);
    var steps := if forward then m.steps else m.rollback;
    [started.status] + Repeated(started.status, Progress(steps, fails)) + [Outcome(started, forward, fails).status]
  }

  lemma {:induction false} MigrateTraces(s: State, m: Migration, forward: bool, fails: Option<nat>, revision: nat, dir: bool)
    ensures var steps := if forward then m.steps else m.rollback;
            var t := Migrate(s, m, forward, fails);
            && Ran(t.executed, revision, dir)
               == Ran(s.executed, revision, dir) + (if revision == m.revision && dir == forward then Done(steps, fails) else [])
            && History(t.writes, revision)
               == History(s.writes, revision) + (if revision == m.revision then Lived(m, forward, fails) else [])
  {
    var steps := if forward then m.steps else m.rollback;
    var started := Started(m, forward);
    var outcome := Outcome(started, forward, fails);
    var k := Progress(steps, fails);
    var counted := Counted(started, forward, k);
    RanConcat(s.executed, Trace(m.revision, forward, Done(steps, fails)), revision, dir);
    RanTrace(m.revision, forward, Done(steps, fails), revision, dir);
    WritesTrace(s.writes, started, counted, outcome, revision);
    HistoryCounted(started, forward, k, revision);
    hide Ran, History, Trace, Counted, Done, Outcome;
    assert Migrate(s, m, forward, fails).writes == s.writes + [started] + counted + [outcome];
    assert outcome.revision == m.revision by {
      OutcomeKeeps(started, forward, fails);
    }
  }

  lemma {:induction false} OutcomeKeeps(m: Migration, forward: bool, fails: Option<nat>)
    ensures var o := Outcome(m, forward, fails);
            o.revision == m.revision && o.name == m.name && o.steps == m.steps && o.rollback == m.rollback
  {
  }

  lemma {:induction false} WritesTrace(writes: seq<Migration>, a: Migration, counted: seq<Migration>, b: Migration, revision: nat)
    ensures History(writes + [a] + counted + [b], revision)
            == History(writes, revision) + ((if a.revision == revision then [a.status] else []) + History(counted, revision)
                                           + (if b.revision == revision then [b.status] else []))
  {
    HistoryConcat(writes + [a] + counted, [b], revision);
    HistoryConcat(writes + [a], counted, revision);
    HistoryConcat(writes, [a], revision);
  }

  // ----- the record of one migration -----

  predicate Allowed(a: Status, b: Status) {
    match a
    case Pending => b.MigrationInProgress?
    case MigrationInProgress => b.MigrationInProgress? || b.MigrationSuccess? || b.MigrationFailure?
    case MigrationSuccess => b.RollingBack?
    case RollingBack => b.RollingBack? || b.RollbackSuccess? || b.RollbackFailure?
    case _ => false
  }

  /** A life that starts pending and moves along allowed transitions only. */
  predicate Path(h: seq<Status>) {
    h != [] && h[0].Pending? && forall i :: 0 < i < |h| ==> Allowed(h[i - 1], h[i])
  }

  /** The count that a complete run of steps leaves: one less than there are. */
  function Counter(steps: seq<Step>): nat {
    if steps == [] then 0 else |steps| - 1
  }

  /** What the record of a migration says about the steps that ran. */
  predicate Truthful(m: Migration, ran: seq<Step>, back: seq<Step>) {
    match m.status
    case MigrationSuccess =>
      ran == m.steps && m.applied == Counter(m.steps) && back == [] && m.rolledBack == 0 && m.errors == [] && m.finished
    case MigrationFailure =>
      && |m.errors| == 1 && m.errors[0] < |m.steps| && ran == m.steps[..m.errors[0]] && m.applied == m.errors[0]
      && back == [] && m.rolledBack == 0 && !m.finished
    case RollbackSuccess =>
      && ran == m.steps && m.applied == Counter(m.steps) && m.errors == [] && m.finished
      && back == m.rollback && m.rolledBack == Counter(m.rollback)
    case RollbackFailure =>
      && ran == m.steps && m.applied == Counter(m.steps) && m.finished
      && |m.errors| == 1 && m.errors[0] < |m.rollback| && back == m.rollback[..m.errors[0]] && m.rolledBack == m.errors[0]
    case _ => false
  }

  predicate Settled(s: State, m: Migration) {
    && (var h := History(s.writes, m.revision); Path(h) && h[|h| - 1] == m.status)
    && Truthful(m, Ran(s.executed, m.revision, true), Ran(s.executed, m.revision, false))
  }

  ghost predicate Sorted(log: Log) {
    forall i, j :: 0 <= i < j < |log| ==> log[i].revision < log[j].revision
  }

  ghost predicate Untouched(s: State, revision: nat) {
    History(s.writes, revision) == [] && forall f :: Ran(s.executed, revision, f) == []
  }

  /** The log is in order, every record is settled, and nothing happened to a revision that is to come. */
  ghost predicate Orderly(s: State) {
    && Sorted(s.log)
    && (forall i :: 0 <= i < |s.log| ==> Settled(s, s.log[i]))
    && (forall r :: r >= NextRevision(s.log) ==> Untouched(s, r))
  }

  lemma {:induction false} PathGoesOn(h: seq<Status>, m: Migration, forward: bool, fails: Option<nat>)
    requires Path(h) && h[|h| - 1] == if forward then Pending else MigrationSuccess
    ensures Path(h + Lived(m, forward, fails))
    ensures var all := h + Lived(m, forward, fails); all[|all| - 1] == Outcome(Started(m, forward), forward, fails).status
  {
    hide Progress;
    var lived := Lived(m, forward, fails);
    var all := h + lived;
    forall i | 0 < i < |all|
      ensures Allowed(all[i - 1], all[i])
    {
      if i < |h| {
        assert all[i - 1] == h[i - 1] && all[i] == h[i];
      } else {
        assert all[i] == lived[i - |h|];
      }
    }
  }

  // ----- the log after a migration -----

  lemma {:induction false} UpdatedTwice(log: Log, a: Migration, b: Migration)
    requires a.name == b.name && a.revision == b.revision
    ensures Updated(Updated(log, a), b) == Updated(log, b)
  {
    if log != [] {
      UpdatedTwice(log[1..], a, b);
      var u := Updated(log, a);
      assert u[1..] == Updated(log[1..], a);
    }
  }

  /** Of all that is written, the log keeps the outcome. */
  lemma {:induction false} MigrateLog(s: State, m: Migration, forward: bool, fails: Option<nat>)
    ensures Migrate(s, m, forward, fails).log == Updated(s.log, Outcome(Started(m, forward), forward, fails))
  {
    hide Updated, Outcome, Progress;
    var started := Started(m, forward);
    var outcome := Outcome(started, forward, fails);
    OutcomeKeeps(started, forward, fails);
    var k := Progress(if forward then m.steps else m.rollback, fails);
    var first := Updated(s.log, started);
    if k > 0 {
      UpdatedTwice(first, Advanced(started, forward, k), outcome);
    }
    UpdatedTwice(s.log, started, outcome);
  }

  /** An update changes one record. */
  lemma {:induction false} UpdatedAt(log: Log, i: nat, m: Migration)
    requires Sorted(log) && i < |log|
    requires log[i].revision == m.revision && log[i].name == m.name && log[i].steps == m.steps && log[i].rollback == m.rollback
    ensures Updated(log, m) == log[i := m]
  {
    assert log == [log[0]] + log[1..];
    if i == 0 {
      NotUpdated(log[1..], m);
    } else {
      UpdatedAt(log[1..], i - 1, m);
    }
  }

  lemma {:induction false} NotUpdated(log: Log, m: Migration)
    requires forall x :: x in log ==> x.revision != m.revision
    ensures Updated(log, m) == log
  {
    if log != [] {
      NotUpdated(log[1..], m);
    }
  }

  // ----- every run keeps the log orderly -----

  lemma {:induction false} TruthAfterApplying(m: Migration, fails: Option<nat>)
    requires m.status.Pending? && m.applied == 0 && m.rolledBack == 0 && m.errors == [] && !m.finished
    ensures Truthful(Outcome(Started(m, true), true, fails), Done(m.steps, fails), [])
  {
  }

  lemma {:induction false} TruthAfterRollback(m: Migration, ran: seq<Step>, fails: Option<nat>)
    requires m.status.MigrationSuccess? && Truthful(m, ran, [])
    ensures Truthful(Outcome(Started(m, false), false, fails), ran, Done(m.rollback, fails))
  {
  }

  lemma {:induction false} LastIs(log: Log)
    requires Last(log).Some?
    ensures exists i :: 0 <= i < |log| && Topmost(log, i) && Last(log) == Some(log[i])
  {
    if log[|log| - 1].status.MigrationSuccess? {
      assert Topmost(log, |log| - 1);
    } else {
      var rest := log[..|log| - 1];
      LastIs(rest);
      var i :| 0 <= i < |rest| && Topmost(rest, i) && Last(rest) == Some(rest[i]);
      assert forall j :: i < j < |log| ==> j == |log| - 1 || log[j] == rest[j];
      assert Topmost(log, i);
    }
  }

  /** A success that no later record is. */
  predicate Topmost(log: Log, i: nat)
    requires i < |log|
  {
    log[i].status.MigrationSuccess? && forall j :: i < j < |log| ==> !log[j].status.MigrationSuccess?
  }

  /** A rollback keeps the other records settled, and settles its own. */
  lemma {:induction false} RollbackKeepsOrder(s: State, i: nat, fails: Option<nat>)
    requires Orderly(s) && i < |s.log| && s.log[i].status.MigrationSuccess?
    ensures var t := Migrate(s, s.log[i], false, fails);
            Orderly(t) && t.log == s.log[i := Outcome(Started(s.log[i], false), false, fails)]
  {
    hide Migrate, Outcome, History, Ran, Updated, Path, Truthful, Lived, Done;
    var m := s.log[i];
    assert Settled(s, m);
    var outcome := Outcome(Started(m, false), false, fails);
    var t := Migrate(s, m, false, fails);
    OutcomeKeeps(Started(m, false), false, fails);
    MigrateLog(s, m, false, fails);
    UpdatedAt(s.log, i, outcome);
    assert Settled(t, outcome) by {
      SettledByRollback(s, m, fails);
    }
    forall j | 0 <= j < |t.log|
      ensures Settled(t, t.log[j])
    {
      if j != i {
        assert s.log[j].revision != m.revision;
        OthersStaySettled(s, m, false, fails, s.log[j]);
      }
    }
    forall r | r >= NextRevision(t.log)
      ensures Untouched(t, r)
    {
      assert r > m.revision by {
        assert s.log[|s.log| - 1].revision >= m.revision;
      }
      StaysUntouched(s, m, false, fails, r);
    }
  }

  lemma {:induction false} SettledByRollback(s: State, m: Migration, fails: Option<nat>)
    requires Settled(s, m) && m.status.MigrationSuccess?
    ensures Settled(Migrate(s, m, false, fails), Outcome(Started(m, false), false, fails))
  {
    hide Migrate, Lived, Done, Path, History, Ran, Outcome;
    OutcomeKeeps(Started(m, false), false, fails);
    MigrateTraces(s, m, false, fails, m.revision, true);
    MigrateTraces(s, m, false, fails, m.revision, false);
    PathGoesOn(History(s.writes, m.revision), m, false, fails);
    var ran := Ran(s.executed, m.revision, true);
    assert Truthful(m, ran, []);
    TruthAfterRollback(m, ran, fails);
    hide Truthful;
    assert ran + [] == ran && [] + Done(m.rollback, fails) == Done(m.rollback, fails);
  }

  lemma {:induction false} OthersStaySettled(s: State, m: Migration, forward: bool, fails: Option<nat>, x: Migration)
    requires Settled(s, x) && x.revision != m.revision
    ensures Settled(Migrate(s, m, forward, fails), x)
  {
    hide Migrate, Lived, Done, Path, Truthful, History, Ran;
    MigrateTraces(s, m, forward, fails, x.revision, true);
    MigrateTraces(s, m, forward, fails, x.revision, false);
    assert History(s.writes, x.revision) + [] == History(s.writes, x.revision);
    assert Ran(s.executed, x.revision, true) + [] == Ran(s.executed, x.revision, true);
    assert Ran(s.executed, x.revision, false) + [] == Ran(s.executed, x.revision, false);
  }

  lemma {:induction false} StaysUntouched(s: State, m: Migration, forward: bool, fails: Option<nat>, r: nat)
    requires Untouched(s, r) && r != m.revision
    ensures Untouched(Migrate(s, m, forward, fails), r)
  {
    hide Migrate, Lived, Done;
    forall f
      ensures Ran(Migrate(s, m, forward, fails).executed, r, f) == []
    {
      MigrateTraces(s, m, forward, fails, r, f);
    }
    MigrateTraces(s, m, forward, fails, r, true);
  }

  /** A new migration keeps the other records settled, and is settled itself. */
  lemma {:induction false} ApplyKeepsOrder(s: State, n: Migration, fails: Option<nat>)
    requires Orderly(s)
    requires n.status.Pending? && n.applied == 0 && n.rolledBack == 0 && n.errors == [] && !n.finished
    ensures var created := Create(s, n);
            var m := n.(revision := NextRevision(s.log));
            var t := Migrate(created, m, true, fails);
            Orderly(t) && t.log == s.log + [Outcome(Started(m, true), true, fails)]
  {
    hide Migrate, Outcome, History, Ran, Updated, Path, Truthful, Lived, Done;
    var created := Create(s, n);
    var m := n.(revision := NextRevision(s.log));
    var outcome := Outcome(Started(m, true), true, fails);
    var t := Migrate(created, m, true, fails);
    OutcomeKeeps(Started(m, true), true, fails);
    MigrateLog(created, m, true, fails);
    assert Sorted(created.log);
    UpdatedAt(created.log, |s.log|, outcome);
    assert t.log == s.log + [outcome];
    assert Untouched(s, m.revision);
    SettledByApplying(s, n, fails);
    forall j | 0 <= j < |t.log|
      ensures Settled(t, t.log[j])
    {
      if j < |s.log| {
        assert t.log[j] == s.log[j] && Settled(s, s.log[j]) && s.log[j].revision < m.revision;
        CreatedElsewhere(s, n, s.log[j].revision);
        assert Settled(created, s.log[j]);
        OthersStaySettled(created, m, true, fails, s.log[j]);
      }
    }
    forall r | r >= NextRevision(t.log)
      ensures Untouched(t, r)
    {
      assert NextRevision(t.log) == m.revision + 1;
      assert Untouched(s, r);
      CreatedElsewhere(s, n, r);
      StaysUntouched(created, m, true, fails, r);
    }
  }

  lemma {:induction false} CreatedElsewhere(s: State, n: Migration, r: nat)
    requires r != NextRevision(s.log)
    ensures History(Create(s, n).writes, r) == History(s.writes, r) && Create(s, n).executed == s.executed
  {
    var m := n.(revision := NextRevision(s.log));
    HistoryConcat(s.writes, [m], r);
    assert History([m], r) == [];
  }

  lemma {:induction false} SettledByApplying(s: State, n: Migration, fails: Option<nat>)
    requires n.status.Pending? && n.applied == 0 && n.rolledBack == 0 && n.errors == [] && !n.finished
    requires Untouched(s, NextRevision(s.log))
    ensures var m := n.(revision := NextRevision(s.log));
            Settled(Migrate(Create(s, n), m, true, fails), Outcome(Started(m, true), true, fails))
  {
    hide Migrate, Lived, Done, Outcome;
    var created := Create(s, n);
    var m := n.(revision := NextRevision(s.log));
    OutcomeKeeps(Started(m, true), true, fails);
    HistoryConcat(s.writes, [m], m.revision);
    assert History(created.writes, m.revision) == [Pending];
    MigrateTraces(created, m, true, fails, m.revision, true);
    MigrateTraces(created, m, true, fails, m.revision, false);
    PathGoesOn([Pending], m, true, fails);
    TruthAfterApplying(m, fails);
    hide Truthful, History, Ran, Path;
    assert [] + Done(m.steps, fails) == Done(m.steps, fails);
  }

  /** After every run of commands, with any failures, the log is orderly. */
  lemma {:induction false} RunsAreOrderly(commands: seq<Command>)
    ensures Orderly(Run(EMPTY, commands))
    decreases |commands|
  {
    hide Migrate, Settled, Last, History, Ran;
    if commands == [] {
      EmptyIsOrderly();
    } else {
      var n := |commands| - 1;
      RunsAreOrderly(commands[..n]);
      ExecuteKeepsOrder(Run(EMPTY, commands[..n]), commands[n]);
    }
  }

  lemma {:induction false} EmptyIsOrderly()
    ensures Orderly(EMPTY)
  {
  }

  lemma {:induction false} ExecuteKeepsOrder(s: State, c: Command)
    requires Orderly(s)
    ensures Orderly(Execute(s, c))
  {
    hide Migrate, Settled, Last, Orderly, Outcome;
    match c
    case ApplyMigration(name, steps, rollback, _, _, fails) =>
      if !Refused(c) {
        ApplyKeepsOrder(s, NewMigration(name, steps, rollback), fails);
      }
    case UnapplyMigration(fails) =>
      if Last(s.log).Some? {
        LastIs(s.log);
        var i :| 0 <= i < |s.log| && Topmost(s.log, i) && Last(s.log) == Some(s.log[i]);
        RollbackKeepsOrder(s, i, fails);
      }
  }

  // ----- the successful migrations form a stack -----

  /** The revisions of the successful migrations, in order. */
  function Successes(log: Log): seq<nat> {
    if log == [] then []
    else Successes(log[..|log| - 1]) + (if log[|log| - 1].status.MigrationSuccess? then [log[|log| - 1].revision] else [])
  }

  /** A stack of revisions, and the next revision. */
  datatype Stack = Stack(revisions: seq<nat>, next: nat)

  function StackAfter(stack: Stack, c: Command): Stack {
    match c
    case ApplyMigration(_, steps, _, _, _, fails) =>
      if c.warnings && !c.force then stack
      else Stack(if Succeeds(steps, fails) then stack.revisions + [stack.next] else stack.revisions, stack.next + 1)
    case UnapplyMigration(_) =>
      if stack.revisions == [] then stack else stack.(revisions := stack.revisions[..|stack.revisions| - 1])
  }

  function StackRun(stack: Stack, commands: seq<Command>): Stack
    decreases |commands|
  {
    if commands == [] then stack else StackAfter(StackRun(stack, commands[..|commands| - 1]), commands[|commands| - 1])
  }

  function StackOf(s: State): Stack {
    Stack(Successes(s.log), NextRevision(s.log))
  }

  /** The last migration is the top of the stack. */
  lemma {:induction false} LastIsTop(log: Log)
    ensures var top := Successes(log);
            Last(log).Some? == (top != []) && (top != [] ==> Last(log).value.revision == top[|top| - 1])
    decreases |log|
  {
    if log != [] && !log[|log| - 1].status.MigrationSuccess? {
      LastIsTop(log[..|log| - 1]);
    }
  }

  /** Taking the status of success from the last success takes the top off the stack. */
  lemma {:induction false} DroppedTop(log: Log, i: nat, m: Migration)
    requires i < |log| && Topmost(log, i) && !m.status.MigrationSuccess?
    ensures Successes(log) != [] && Successes(log[i := m]) == Successes(log)[..|Successes(log)| - 1]
    decreases |log|
  {
    var n := |log| - 1;
    var after := log[i := m];
    if i == n {
      assert after[..n] == log[..n];
    } else {
      assert after[..n] == log[..n][i := m];
      assert Topmost(log[..n], i);
      DroppedTop(log[..n], i, m);
    }
  }

  lemma {:induction false} ApplyIsPush(s: State, c: Command)
    requires Orderly(s) && c.ApplyMigration? && !Refused(c)
    ensures StackOf(Execute(s, c)) == StackAfter(StackOf(s), c)
  {
    hide Migrate, Orderly;
    var n := NewMigration(c.name, c.steps, c.rollback);
    ApplyKeepsOrder(s, n, c.fails);
    var m := n.(revision := NextRevision(s.log));
    var outcome := Outcome(Started(m, true), true, c.fails);
    OutcomeKeeps(Started(m, true), true, c.fails);
    assert outcome.status.MigrationSuccess? <==> Succeeds(c.steps, c.fails);
    hide Outcome;
    assert (s.log + [outcome])[..|s.log|] == s.log;
  }

  lemma {:induction false} UnapplyIsPop(s: State, fails: Option<nat>)
    requires Orderly(s) && Last(s.log).Some?
    ensures StackOf(Execute(s, UnapplyMigration(fails))) == StackAfter(StackOf(s), UnapplyMigration(fails))
  {
    hide Migrate, Last, Orderly, Successes;
    LastIs(s.log);
    var i :| 0 <= i < |s.log| && Topmost(s.log, i) && Last(s.log) == Some(s.log[i]);
    RollbackKeepsOrder(s, i, fails);
    var outcome := Outcome(Started(s.log[i], false), false, fails);
    OutcomeKeeps(Started(s.log[i], false), false, fails);
    assert !outcome.status.MigrationSuccess?;
    hide Outcome;
    DroppedTop(s.log, i, outcome);
  }

  /** A command on the log is a push, a pop or nothing on the stack. */
  lemma {:induction false} ExecuteIsStackStep(s: State, c: Command)
    requires Orderly(s)
    ensures StackOf(Execute(s, c)) == StackAfter(StackOf(s), c)
  {
    hide Migrate, Orderly;
    match c
    case ApplyMigration(_, _, _, _, _, _) =>
      if !Refused(c) {
        ApplyIsPush(s, c);
      }
    case UnapplyMigration(fails) =>
      LastIsTop(s.log);
      if Last(s.log).Some? {
        UnapplyIsPop(s, fails);
      }
  }

  /** Over every run, the successful migrations are the stack of the runs' pushes and pops, and `Last` is its top. */
  lemma {:induction false} SuccessesAreStack(commands: seq<Command>)
    ensures StackOf(Run(EMPTY, commands)) == StackRun(Stack([], 1), commands)
    ensures var top, last := StackRun(Stack([], 1), commands).revisions, Last(Run(EMPTY, commands).log);
            last.Some? == (top != []) && (top != [] ==> last.value.revision == top[|top| - 1])
    decreases |commands|
  {
    hide Execute, Last, Orderly, StackAfter, Successes;
    if commands == [] {
      assert StackOf(EMPTY) == Stack([], 1) by {
        EmptyStack();
      }
    } else {
      var n := |commands| - 1;
      SuccessesAreStack(commands[..n]);
      RunsAreOrderly(commands[..n]);
      ExecuteIsStackStep(Run(EMPTY, commands[..n]), commands[n]);
    }
    LastIsTop(Run(EMPTY, commands).log);
  }

  lemma {:induction false} EmptyStack()
    ensures StackOf(EMPTY) == Stack([], 1)
  {
  }
}
