/** One replica's program (internal/database/migrate.go), run while it holds the
    lock. Any statement may fail; one that fails may still have taken effect.
    That no other replica's step comes in between is what the invariant of
    Migrations shows; that the program takes no steps but those of Migrations is
    shown here: the ghost `actions` are the run it follows. */
module Migrate {
  import opened Collections
  import opened Migrations

  /** Some steps lead from one world to another. */
  ghost predicate Leads<S>(p: Plan<S>, start: World<S>, actions: seq<Action>, end: World<S>) {
    CanRun(p, start, actions) && Final(p, start, actions) == end
  }

  lemma {:induction false} LeadsOn<S>(p: Plan<S>, start: World<S>, actions: seq<Action>, end: World<S>, a: Action)
    requires Leads(p, start, actions, end) && Enabled(p, end, a)
    ensures Leads(p, start, actions + [a], Do(p, end, a))
    decreases |actions|
  {
    hide Enabled, Do;
    var more := actions + [a];
    if actions == [] {
      assert more == [a] && more[1..] == [];
      var next := Do(p, start, a);
      assert CanRun(p, next, []) && Final(p, next, []) == next;
    } else {
      LeadsOn(p, Do(p, start, actions[0]), actions[1..], end, a);
      assert more[0] == actions[0] && more[1..] == actions[1..] + [a];
    }
  }

  class Database<!S> {
    const plan: Plan<S>  // the embedded files
    var data: S
    var table: bool
    var versions: set<string>
    var locked: bool
    var failures: nat

    ghost var start: World<S>        // when the replica started
    ghost var actions: seq<Action>   // its steps since then
    ghost var phase: Phase<S>        // where it is now
    ghost var session: bool

    constructor (data: S, plan: Plan<S>)
      ensures this.data == data && versions == {} && !locked && !table
    {
      this.data, table, versions, locked, failures := data, false, {}, false, 0;
      this.plan, actions, phase, session := plan, [], Starting, false;
      start := World(data, false, {}, Free, []);
    }

    ghost function Now(): World<S>
      reads this
    {
      World(data, table, versions, if locked then Held(0) else Free, [Replica(phase, session)])
    }

    ghost predicate Follows()
      reads this
    {
      Leads(plan, start, actions, Now())
    }

    /** The step that was just taken. */
    ghost method Took(a: Action, before: World<S>)
      requires Leads(plan, start, actions, before) && Enabled(plan, before, a) && Do(plan, before, a) == Now()
      modifies `actions
      ensures Follows()
    {
      LeadsOn(plan, start, actions, before, a);
      actions := actions + [a];
    }

    /** Whether a statement goes through. */
    method Try() returns (ok: bool)
      modifies `failures
      ensures if ok then failures == old(failures) else failures > old(failures)
    {
      ok := *;
      if !ok {
        failures := failures + 1;
      }
    }

    // -------------------------------------------------------------------
    // The statements, one step each
    // -------------------------------------------------------------------

    /** Takes the advisory lock, once nobody else holds it. */
    method AcquireLock() returns (ok: bool)
      requires Follows() && phase == Starting && !session && !locked
      modifies `locked, `failures, `phase, `session, `actions
      ensures if ok then failures == old(failures) else failures > old(failures)
      ensures Follows() && locked == session == ok && phase == if ok then Locked else Returned(false)
    {
      hide Leads;
      ghost var before := Now();
      ok := Try();
      if ok {
        locked, phase, session := true, Locked, true;
      } else {
        phase := Returned(false);
      }
      Took(Acquire(0, ok), before);
    }

    method ReleaseLock() returns (ok: bool)
      requires Follows() && phase.Releasing? && session && locked
      modifies `locked, `failures, `phase, `actions
      ensures if ok then failures == old(failures) else failures > old(failures)
      ensures Follows() && locked == !ok && phase == Returned(old(phase).ok)
    {
      hide Leads;
      ghost var before := Now();
      ok := Try();
      locked := !ok;
      phase := Returned(phase.ok);
      Took(Unlock(0, ok), before);
    }

    method CreateTable() returns (ok: bool)
      requires Follows() && session && phase == Locked
      modifies `table, `failures, `phase, `actions
      ensures if ok then failures == old(failures) else failures > old(failures)
      ensures Follows() && phase == if ok then TableReady else Releasing(false)
      ensures ok ==> table
    {
      hide Leads;
      ghost var before := Now();
      ok := Try();
      var took: bool := *;
      table := table || ok || took;
      phase := if ok then TableReady else Releasing(false);
      Took(Action.CreateTable(0, ok, ok || took), before);
    }

    /** Reads the recorded versions, row by row. */
    method AppliedVersions() returns (applied: set<string>, ok: bool)
      requires Follows() && session && phase == TableReady && table
      modifies `failures, `phase, `actions
      ensures if ok then failures == old(failures) else failures > old(failures)
      ensures ok ==> applied == versions
      ensures Follows() && phase == if ok then Applying(versions, 0) else Releasing(false)
    {
      hide Leads;
      ghost var before := Now();
      applied := {};
      ok := Try();
      var rows := versions;
      while ok && rows != {}
        invariant ok ==> failures == old(failures)
        invariant !ok ==> failures > old(failures)
        invariant rows <= versions && applied == versions - rows
        invariant Now() == before && start == old(start) && actions == old(actions)
        decreases ok, rows
      {
        ok := Try();
        if ok {
          var version :| version in rows;
          applied, rows := applied + {version}, rows - {version};
        }
      }
      phase := if ok then Applying(versions, 0) else Releasing(false);
      Took(ReadVersions(0, ok), before);
    }

    /** The file at hand is applied already. */
    ghost method SkipFile(applied: set<string>, next: nat)
      requires Follows() && phase == Applying(applied, next)
      requires next < |plan.files| && plan.files[next] in applied
      modifies `phase, `actions
      ensures Follows() && phase == Applying(applied, next + 1)
    {
      hide Leads;
      var before := Now();
      phase := Applying(applied, next + 1);
      Took(Skip(0), before);
    }

    /** No file is left. */
    ghost method NoFileLeft(applied: set<string>)
      requires Follows() && phase == Applying(applied, |plan.files|)
      modifies `phase, `actions
      ensures Follows() && phase == Releasing(true)
    {
      hide Leads;
      var before := Now();
      phase := Releasing(true);
      Took(Done(0), before);
    }

    method BeginTransaction(ghost applied: set<string>, ghost next: nat) returns (ok: bool)
      requires Follows() && session && phase == Applying(applied, next)
      requires next < |plan.files| && plan.files[next] !in applied
      modifies `failures, `phase, `actions
      ensures if ok then failures == old(failures) else failures > old(failures)
      ensures Follows() && phase == if ok then Open(applied, next) else Releasing(false)
    {
      hide Leads;
      ghost var before := Now();
      ok := Try();
      phase := if ok then Open(applied, next) else Releasing(false);
      Took(Begin(0, ok), before);
    }

    /** Runs the file's statements; only the transaction sees what they did. */
    method Execute(name: string, ghost applied: set<string>, ghost next: nat) returns (staged: S, ok: bool)
      requires Follows() && session && phase == Open(applied, next)
      requires next < |plan.files| && plan.files[next] == name
      modifies `failures, `phase, `actions
      ensures if ok then failures == old(failures) else failures > old(failures)
      ensures staged == plan.effect(data, name)
      ensures Follows() && phase == if ok then Ran(applied, next, staged) else Releasing(false)
    {
      hide Leads;
      ghost var before := Now();
      staged := plan.effect(data, name);
      ok := Try();
      phase := if ok then Ran(applied, next, staged) else Releasing(false);
      Took(RunBody(0, ok), before);
    }

    method Insert(name: string, ghost applied: set<string>, ghost next: nat, ghost staged: S)
      returns (recorded: set<string>, ok: bool)
      requires Follows() && session && phase == Ran(applied, next, staged)
      requires next < |plan.files| && plan.files[next] == name && name !in versions
      modifies `failures, `phase, `actions
      ensures if ok then failures == old(failures) else failures > old(failures)
      ensures recorded == versions + {name}
      ensures Follows() && phase == if ok then Recorded(applied, next, staged) else Releasing(false)
    {
      hide Leads;
      ghost var before := Now();
      recorded := versions + {name};
      ok := Try();
      phase := if ok then Recorded(applied, next, staged) else Releasing(false);
      Took(Record(0, ok), before);
    }

    /** Makes the transaction's changes visible; one that fails may have. */
    method CommitTransaction(staged: S, recorded: set<string>, ghost applied: set<string>, ghost next: nat)
      returns (ok: bool)
      requires Follows() && session && phase == Recorded(applied, next, staged)
      requires next < |plan.files| && recorded == versions + {plan.files[next]}
      modifies `data, `versions, `failures, `phase, `actions
      ensures if ok then failures == old(failures) else failures > old(failures)
      ensures Follows() && phase == if ok then Applying(applied, next + 1) else Releasing(false)
      ensures (data == staged && versions == recorded) || (!ok && data == old(data) && versions == old(versions))
    {
      hide Leads;
      ghost var before := Now();
      ok := Try();
      var took: bool := *;
      if ok || took {
        data, versions := staged, recorded;
      }
      phase := if ok then Applying(applied, next + 1) else Releasing(false);
      Took(Commit(0, ok, ok || took), before);
    }

    // -------------------------------------------------------------------
    // The program
    // -------------------------------------------------------------------

    /** The files that took effect since some moment, and the database after
        each: the next ones in order, each run on what the one before left. */
    ghost predicate Trail(from: World<S>, ran: seq<string>, states: seq<S>)
      reads this
    {
      && |states| == |ran| + 1 && states[0] == from.data && states[|ran|] == data
      && |versions| == |from.versions| + |ran| <= |plan.files|
      && forall i :: 0 <= i < |ran| ==>
           ran[i] == plan.files[|from.versions| + i] && states[i + 1] == plan.effect(states[i], ran[i])
    }

    lemma TrailStarts()
      requires Sequential(plan, Now())
      ensures Trail(Now(), [], [data])
    {
    }

    lemma TrailSame(one: World<S>, two: World<S>, ran: seq<string>, states: seq<S>)
      requires Trail(one, ran, states) && one.data == two.data && one.versions == two.versions
      ensures Trail(two, ran, states)
    {
    }

    lemma TrailUnfolds(from: World<S>, ran: seq<string>, states: seq<S>)
      requires Trail(from, ran, states)
      ensures |states| == |ran| + 1 && states[0] == from.data && states[|ran|] == data
      ensures |versions| == |from.versions| + |ran| <= |plan.files|
      ensures forall i :: 0 <= i < |ran| ==>
                ran[i] == plan.files[|from.versions| + i] && states[i + 1] == plan.effect(states[i], ran[i])
    {
    }

    lemma TrailKept(from: World<S>, before: World<S>, ran: seq<string>, states: seq<S>)
      requires |states| == |ran| + 1 && states[0] == from.data && states[|ran|] == before.data
      requires |before.versions| == |from.versions| + |ran| <= |plan.files|
      requires forall i :: 0 <= i < |ran| ==>
                 ran[i] == plan.files[|from.versions| + i] && states[i + 1] == plan.effect(states[i], ran[i])
      ensures data == before.data && versions == before.versions ==> Trail(from, ran, states)
      ensures |before.versions| < |plan.files| && |versions| == |before.versions| + 1
              && data == plan.effect(before.data, plan.files[|before.versions|]) ==>
                Trail(from, ran + [plan.files[|before.versions|]], states + [data])
    {
    }

    /** Runs one file and records it, in one transaction: both or neither. */
    method ApplyMigration(name: string, ghost applied: set<string>, ghost next: nat) returns (ok: bool)
      requires Follows() && session && phase == Applying(applied, next)
      requires next < |plan.files| && plan.files[next] == name && name !in applied && name !in versions
      modifies `data, `versions, `failures, `phase, `actions
      ensures if ok then failures == old(failures) else failures > old(failures)
      ensures Follows() && phase == if ok then Applying(applied, next + 1) else Releasing(false)
      ensures ok ==> data == plan.effect(old(data), name) && versions == old(versions) + {name}
      ensures !ok ==> || (data == old(data) && versions == old(versions))
                      || (data == plan.effect(old(data), name) && versions == old(versions) + {name})
    {
      hide Follows;
      ok := BeginTransaction(applied, next);
      if !ok {
        return;
      }
      var staged;
      staged, ok := Execute(name, applied, next);
      if !ok {
        return;
      }
      var recorded;
      recorded, ok := Insert(name, applied, next, staged);
      if !ok {
        return;
      }
      ok := CommitTransaction(staged, recorded, applied, next);
    }

    /** Applies every file that is not applied yet, in order. However it ends,
        the database is the sequential run over the recorded files; success
        means all of them. When nothing fails it succeeds, unless there are no
        files at all, and lets go of the lock. What it did is a run of the one
        replica from where it started. */
    method Migrate() returns (ok: bool, ghost ran: seq<string>, ghost states: seq<S>)
      requires Distinct(plan.files) && Sequential(plan, Now()) && !locked
      modifies this
      ensures Sequential(plan, Now()) && |versions| >= |old(versions)|
      ensures |states| == |ran| + 1 && states[0] == old(data) && states[|ran|] == data
      ensures |old(versions)| + |ran| <= |plan.files|
      ensures forall i :: 0 <= i < |ran| ==>
                ran[i] == plan.files[|old(versions)| + i] && states[i + 1] == plan.effect(states[i], ran[i])
      ensures versions == set i | 0 <= i < |old(versions)| + |ran| :: plan.files[i]
      ensures ok ==> |old(versions)| + |ran| == |plan.files|
      ensures ok ==> plan.files != [] && AllApplied(plan, Now())
      ensures failures == old(failures) ==> (ok <==> plan.files != []) && !locked
      ensures failures >= old(failures)
      ensures plan.files != [] ==>
                Leads(plan, World(old(data), old(table), old(versions), Free, [Replica(Starting, false)]), actions,
                      World(data, table, versions, if locked then Held(0) else Free, [Replica(Returned(ok), session)]))
      ensures plan.files == [] ==> !ok && data == old(data) && versions == old(versions) && table == old(table)
    {
      hide Sequential, AllApplied, Leads, Follows, Trail, Distinct;
      ghost var from := Now();
      Started();
      SameRows(plan, from, start);
      TrailStarts();
      ran, states := [], [data];
      TrailMeans(start, ran, states);
      if plan.files == [] {
        return false, ran, states;
      }
      ok := AcquireLock();
      SameRows(plan, start, Now());
      if !ok {
        WhereItLed();
        return;
      }
      ghost var held := Now();
      ok, ran, states := MigrateLocked();
      TrailSame(held, from, ran, states);
      TrailMeans(from, ran, states);
      ghost var before := Now();
      var _ := ReleaseLock();
      SameRows(plan, before, Now());
      WhereItLed();
    }

    lemma TrailMeans(from: World<S>, ran: seq<string>, states: seq<S>)
      requires Trail(from, ran, states) && Sequential(plan, Now())
      ensures |states| == |ran| + 1 && states[0] == from.data && states[|ran|] == data
      ensures |from.versions| + |ran| <= |plan.files|
      ensures forall i :: 0 <= i < |ran| ==>
                ran[i] == plan.files[|from.versions| + i] && states[i + 1] == plan.effect(states[i], ran[i])
      ensures versions == set i | 0 <= i < |from.versions| + |ran| :: plan.files[i]
      ensures AllApplied(plan, Now()) ==> |from.versions| + |ran| == |plan.files|
    {
      var n := |from.versions| + |ran|;
      assert forall i :: 0 <= i < n ==> plan.files[..n][i] == plan.files[i];
    }

    /** What is applied does not depend on who holds the lock. */
    lemma SameRows(p: Plan<S>, one: World<S>, two: World<S>)
      requires one.data == two.data && one.versions == two.versions
      ensures Sequential(p, one) ==> Sequential(p, two)
      ensures AllApplied(p, one) ==> AllApplied(p, two)
    {
    }

    ghost method Started()
      requires !locked
      modifies `phase, `session, `actions, `start
      ensures Follows() && start == Now() && phase == Starting && !session
      ensures start == World(data, table, versions, Free, [Replica(Starting, false)])
    {
      phase, session, actions := Starting, false, [];
      start := Now();
    }

    lemma WhereItLed()
      requires Follows()
      ensures Leads(plan, start, actions, Now())
    {
    }

    method MigrateLocked() returns (ok: bool, ghost ran: seq<string>, ghost states: seq<S>)
      requires Proper(plan) && Sequential(plan, Now()) && locked && Follows() && phase == Locked && session
      modifies `data, `versions, `table, `failures, `phase, `actions
      ensures if ok then failures == old(failures) else failures > old(failures)
      ensures Follows() && phase == Releasing(ok)
      ensures Sequential(plan, Now()) && |versions| >= |old(versions)|
      ensures Trail(old(Now()), ran, states)
      ensures ok ==> AllApplied(plan, Now())
    {
      hide Follows, Sequential, AllApplied, Trail;
      ghost var before := Now();
      ran, states := [], [data];
      ok := CreateTable();
      SameRows(plan, before, Now());
      TrailStarts();
      TrailSame(Now(), before, ran, states);
      if !ok {
        return;
      }
      var applied;
      applied, ok := AppliedVersions();
      SameRows(plan, before, Now());
      TrailStarts();
      TrailSame(Now(), before, ran, states);
      if !ok {
        return;
      }
      ghost var ready := Now();
      ok, ran, states := ApplyAll(applied);
      TrailSame(ready, before, ran, states);
    }

    /** The loop over the files. */
    method ApplyAll(applied: set<string>) returns (ok: bool, ghost ran: seq<string>, ghost states: seq<S>)
      requires Proper(plan) && Sequential(plan, Now()) && applied == versions
      requires Follows() && phase == Applying(applied, 0) && session
      modifies `data, `versions, `failures, `phase, `actions
      ensures if ok then failures == old(failures) else failures > old(failures)
      ensures Follows() && phase == Releasing(ok)
      ensures Sequential(plan, Now()) && |versions| >= |old(versions)|
      ensures Trail(old(Now()), ran, states)
      ensures ok ==> AllApplied(plan, Now())
    {
      hide Follows, Sequential, AllApplied, Elements, Trail;
      ghost var from := Now();
      TrailStarts();
      ran, states := [], [data];
      ElementsNone(plan.files);
      var i := 0;
      while i < |plan.files|
        invariant 0 <= i <= |plan.files| && failures == old(failures)
        invariant Follows() && phase == Applying(applied, i)
        invariant Sequential(plan, Now()) && |versions| >= |old(versions)|
        invariant versions == applied + Elements(plan.files[..i])
        invariant Trail(from, ran, states)
      {
        ok, ran, states := ApplyNext(applied, i, from, ran, states);
        if !ok {
          return;
        }
        i := i + 1;
      }
      EverythingApplied(plan, Now(), applied) by { assert plan.files[..|plan.files|] == plan.files; }
      ghost var before := Now();
      TrailUnfolds(from, ran, states);
      NoFileLeft(applied);
      SameRows(plan, before, Now());
      TrailKept(from, before, ran, states);
      ok := true;
    }

    /** One round of the loop: skips the file at hand or applies it. */
    method ApplyNext(applied: set<string>, i: nat, ghost from: World<S>, ghost done: seq<string>, ghost seen: seq<S>)
      returns (ok: bool, ghost ran: seq<string>, ghost states: seq<S>)
      requires Proper(plan) && Sequential(plan, Now()) && i < |plan.files|
      requires Follows() && phase == Applying(applied, i) && session
      requires versions == applied + Elements(plan.files[..i]) && Trail(from, done, seen)
      modifies `data, `versions, `failures, `phase, `actions
      ensures if ok then failures == old(failures) else failures > old(failures)
      ensures Follows() && phase == if ok then Applying(applied, i + 1) else Releasing(false)
      ensures Sequential(plan, Now()) && |versions| >= |old(versions)| && Trail(from, ran, states)
      ensures ok ==> versions == applied + Elements(plan.files[..i + 1])
    {
      hide Follows, Sequential, Elements, Trail;
      ElementsPush(plan.files, i);
      ghost var before := Now();
      ran, states := done, seen;
      TrailUnfolds(from, ran, states);
      if plan.files[i] in applied {
        SkipFile(applied, i);
        SameRows(plan, before, Now());
        TrailKept(from, before, ran, states);
        ok := true;
      } else {
        NextIsFirstMissing(plan, before, applied, i);
        ok := ApplyMigration(plan.files[i], applied, i);
        AppliedOrNot(plan, before, Now(), applied, i);
        TrailKept(from, before, ran, states);
        if data != before.data || versions != before.versions {
          ran, states := ran + [plan.files[i]], states + [data];
        }
      }
    }

    lemma AppliedOrNot(p: Plan<S>, before: World<S>, after: World<S>, applied: set<string>, i: nat)
      requires Proper(p) && Sequential(p, before) && i < |p.files| && p.files[i] !in applied
      requires before.versions == applied + Elements(p.files[..i])
      ensures after.data == before.data && after.versions == before.versions ==> Sequential(p, after)
      ensures after.data == p.effect(before.data, p.files[i]) && after.versions == before.versions + {p.files[i]} ==>
                && Sequential(p, after) && |after.versions| == |before.versions| + 1
                && after.versions == applied + Elements(p.files[..i + 1])
    {
      hide Sequential, Elements;
      if after.data == before.data && after.versions == before.versions {
        SameRows(p, before, after);
      }
      if after.data == p.effect(before.data, p.files[i]) && after.versions == before.versions + {p.files[i]} {
        CommitRefines(p, before, after, applied, i);
      }
    }
  }
}
