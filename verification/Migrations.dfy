/** Database migrations (internal/database/migrate.go): any number of replicas
    start at once, each runs the same program against one database, and any of
    them may fail, lose its connection or crash at any point. */
module Migrations {
  import opened Collections

  /** The embedded files in order, what running one does to the database, and
      the database before any of them. */
  datatype Plan<!S> = Plan(files: seq<string>, effect: (S, string) -> S, base: S)

  ghost predicate Proper<S>(p: Plan<S>) {
    p.files != [] && Distinct(p.files)
  }

  /** Where a replica is. A transaction under way keeps its changes to itself. */
  datatype Phase<S> =
    | Starting
    | Locked
    | TableReady
    | Applying(applied: set<string>, next: nat)
    | Open(applied: set<string>, next: nat)
    | Ran(applied: set<string>, next: nat, staged: S)
    | Recorded(applied: set<string>, next: nat, staged: S)
    | Releasing(ok: bool)
    | Returned(ok: bool)
    | Dead

  /** A replica and whether its database session is alive. */
  datatype Replica<S> = Replica(phase: Phase<S>, session: bool)

  datatype Lock = Free | Held(holder: nat)

  datatype World<S> = World(data: S, table: bool, versions: set<string>, lock: Lock, replicas: seq<Replica<S>>)

  /** `ok` is what the replica learns, `took` what happened in the database. */
  datatype Action =
    | Join
    | Acquire(r: nat, ok: bool)
    | CreateTable(r: nat, ok: bool, took: bool)
    | ReadVersions(r: nat, ok: bool)
    | Skip(r: nat)
    | Begin(r: nat, ok: bool)
    | RunBody(r: nat, ok: bool)
    | Record(r: nat, ok: bool)
    | Commit(r: nat, ok: bool, took: bool)
    | Done(r: nat)
    | Unlock(r: nat, took: bool)
    | LoseSession(r: nat)
    | Crash(r: nat)

  /** The database after the first k files, run once each and in order. */
  function Fold<S>(p: Plan<S>, k: nat): S
    requires k <= |p.files|
  {
    if k == 0 then p.base else p.effect(Fold(p, k - 1), p.files[k - 1])
  }

  predicate Enabled<S>(p: Plan<S>, w: World<S>, a: Action) {
    a.Join? ||
    (a.r < |w.replicas| &&
     var phase, session := w.replicas[a.r].phase, w.replicas[a.r].session;
     match a
     case Acquire(_, ok) => phase.Starting? && (ok ==> w.lock.Free?)
     case CreateTable(_, ok, took) => phase.Locked? && (ok ==> took) && (took ==> session)
     case ReadVersions(_, ok) => phase.TableReady? && (ok ==> session && w.table)
     case Skip(_) => phase.Applying? && phase.next < |p.files| && p.files[phase.next] in phase.applied
     case Begin(_, ok) =>
       phase.Applying? && phase.next < |p.files| && p.files[phase.next] !in phase.applied && (ok ==> session)
     case RunBody(_, ok) => phase.Open? && (ok ==> session && phase.next < |p.files|)
     case Record(_, ok) =>
       phase.Ran? && (ok ==> session && phase.next < |p.files| && p.files[phase.next] !in w.versions)
     case Commit(_, ok, took) => phase.Recorded? && (ok ==> took) && (took ==> session && phase.next < |p.files|)
     case Done(_) => phase.Applying? && phase.next >= |p.files|
     case Unlock(_, took) => phase.Releasing? && (took ==> session)
     case LoseSession(_) => session
     case Crash(_) => true)
  }

  function Released(lock: Lock, r: nat): Lock {
    if lock == Held(r) then Free else lock
  }

  /** The world with replica r in another phase. */
  function Moved<S>(w: World<S>, r: nat, phase: Phase<S>): World<S>
    requires r < |w.replicas|
  {
    w.(replicas := w.replicas[r := w.replicas[r].(phase := phase)])
  }

  function Do<S>(p: Plan<S>, w: World<S>, a: Action): World<S>
    requires Enabled(p, w, a)
  {
    if a.Join? then w.(replicas := w.replicas + [Replica(Starting, false)])
    else
      var phase := w.replicas[a.r].phase;
      match a
      case Acquire(r, ok) =>
        if ok then w.(lock := Held(r), replicas := w.replicas[r := Replica(Locked, true)])
        else Moved(w, r, Returned(false))
      case CreateTable(r, ok, took) =>
        Moved(if took then w.(table := true) else w, r, if ok then TableReady else Releasing(false))
      case ReadVersions(r, ok) => Moved(w, r, if ok then Applying(w.versions, 0) else Releasing(false))
      case Skip(r) => Moved(w, r, Applying(phase.applied, phase.next + 1))
      case Begin(r, ok) => Moved(w, r, if ok then Open(phase.applied, phase.next) else Releasing(false))
      case RunBody(r, ok) =>
        Moved(w, r, if ok then Ran(phase.applied, phase.next, p.effect(w.data, p.files[phase.next]))
                    else Releasing(false))
      case Record(r, ok) =>
        Moved(w, r, if ok then Recorded(phase.applied, phase.next, phase.staged) else Releasing(false))
      case Commit(r, ok, took) =>
        Moved(if took then w.(data := phase.staged, versions := w.versions + {p.files[phase.next]}) else w,
              r, if ok then Applying(phase.applied, phase.next + 1) else Releasing(false))
      case Done(r) => Moved(w, r, Releasing(true))
      case Unlock(r, took) =>
        Moved(if took then w.(lock := Released(w.lock, r)) else w, r, Returned(phase.ok))
      case LoseSession(r) =>
        w.(lock := Released(w.lock, r), replicas := w.replicas[r := w.replicas[r].(session := false)])
      case Crash(r) =>
        w.(lock := Released(w.lock, r), replicas := w.replicas[r := Replica(Dead, false)])
  }

  // ---------------------------------------------------------------------
  // The invariant
  // ---------------------------------------------------------------------

  /** The database is the sequential run over the first files, as many as are
      recorded, and those are the ones recorded. */
  ghost predicate Sequential<S>(p: Plan<S>, w: World<S>) {
    && |w.versions| <= |p.files|
    && w.versions == Elements(p.files[..|w.versions|])
    && w.data == Fold(p, |w.versions|)
  }

  ghost predicate AllApplied<S>(p: Plan<S>, w: World<S>) {
    |w.versions| == |p.files| && w.versions == Elements(p.files) && w.data == Fold(p, |p.files|)
  }

  predicate Holds(lock: Lock, session: bool, r: nat) {
    session ==> lock == Held(r)
  }

  /** What a replica in the file loop knows: everything up to its position is
      recorded; and nothing else is, as long as its session holds the lock. */
  ghost predicate UpTo<S>(p: Plan<S>, w: World<S>, r: nat, session: bool, applied: set<string>, next: nat) {
    && next <= |p.files|
    && applied + Elements(p.files[..next]) <= w.versions
    && Holds(w.lock, session, r)
    && (session ==> w.versions == applied + Elements(p.files[..next]))
  }

  ghost predicate InTransaction<S>(p: Plan<S>, w: World<S>, r: nat, session: bool, applied: set<string>, next: nat) {
    UpTo(p, w, r, session, applied, next) && next < |p.files| && p.files[next] !in applied
  }

  ghost predicate Consistent<S>(p: Plan<S>, w: World<S>, r: nat, me: Replica<S>) {
    match me.phase
    case Starting => true
    case Locked => Holds(w.lock, me.session, r)
    case TableReady => w.table && Holds(w.lock, me.session, r)
    case Applying(applied, next) => UpTo(p, w, r, me.session, applied, next)
    case Open(applied, next) => InTransaction(p, w, r, me.session, applied, next)
    case Ran(applied, next, staged) =>
      InTransaction(p, w, r, me.session, applied, next) && (me.session ==> staged == p.effect(w.data, p.files[next]))
    case Recorded(applied, next, staged) =>
      InTransaction(p, w, r, me.session, applied, next) && (me.session ==> staged == p.effect(w.data, p.files[next]))
    case Releasing(ok) => Holds(w.lock, me.session, r) && (ok ==> |w.versions| == |p.files|)
    case Returned(ok) => ok ==> |w.versions| == |p.files|
    case Dead => !me.session
  }

  ghost predicate Inv<S>(p: Plan<S>, w: World<S>) {
    && Proper(p) && Sequential(p, w)
    && (w.lock.Held? ==>
          && w.lock.holder < |w.replicas|
          && w.replicas[w.lock.holder].session && !w.replicas[w.lock.holder].phase.Starting?)
    && forall r :: 0 <= r < |w.replicas| ==> Consistent(p, w, r, w.replicas[r])
  }

  /** One step: nothing changes, or the next file, and no other, takes effect
      and is recorded in the same moment. */
  ghost predicate OneStep<S>(p: Plan<S>, w: World<S>, after: World<S>) {
    || (after.data == w.data && after.versions == w.versions)
    || (&& |w.versions| < |p.files|
        && after.data == p.effect(w.data, p.files[|w.versions|])
        && p.files[|w.versions|] !in w.versions
        && after.versions == w.versions + {p.files[|w.versions|]})
  }

  /** In a transaction whose session is alive, the file at hand is exactly the
      first that is not recorded. */
  lemma NextIsFirstMissing<S>(p: Plan<S>, w: World<S>, applied: set<string>, next: nat)
    requires Proper(p) && Sequential(p, w) && next < |p.files| && p.files[next] !in applied
    requires w.versions == applied + Elements(p.files[..next])
    ensures |w.versions| == next && p.files[next] !in w.versions
  {
    hide Elements;
    var k := |w.versions|;
    InPrefix(p.files, next, next);
    InPrefix(p.files, next, k);
    if k < next {
      InPrefix(p.files, k, next);
      InPrefix(p.files, k, k);
    }
  }

  /** A replica's own step that touches neither the data nor the lock. */
  lemma MovedKeepsInv<S>(p: Plan<S>, w: World<S>, after: World<S>, r: nat, me: Replica<S>)
    requires Inv(p, w) && r < |w.replicas|
    requires after.data == w.data && after.versions == w.versions && after.lock == w.lock && (w.table ==> after.table)
    requires after.replicas == w.replicas[r := me] && me.session == w.replicas[r].session && !me.phase.Starting?
    requires Consistent(p, after, r, me)
    ensures Inv(p, after)
  {
    hide Elements, Fold, Proper;
    forall i | 0 <= i < |after.replicas| ensures Consistent(p, after, i, after.replicas[i]) {
      if i != r {
        assert Consistent(p, w, i, w.replicas[i]);
      }
    }
  }

  /** A step of replica r after which it does not hold the lock. */
  lemma LetGoKeepsInv<S>(p: Plan<S>, w: World<S>, after: World<S>, r: nat, me: Replica<S>)
    requires Inv(p, w) && r < |w.replicas|
    requires after.data == w.data && after.versions == w.versions && after.table == w.table
    requires after.lock == Released(w.lock, r)
    requires after.replicas == w.replicas[r := me]
    requires Consistent(p, after, r, me)
    ensures Inv(p, after)
  {
    hide Elements, Fold, Proper;
    forall i | 0 <= i < |after.replicas| ensures Consistent(p, after, i, after.replicas[i]) {
      if i != r {
        assert Consistent(p, w, i, w.replicas[i]);
      }
    }
  }

  lemma AcquireKeepsInv<S>(p: Plan<S>, w: World<S>, r: nat)
    requires Inv(p, w) && r < |w.replicas| && w.lock.Free? && w.replicas[r].phase.Starting?
    ensures Inv(p, w.(lock := Held(r), replicas := w.replicas[r := Replica(Locked, true)]))
  {
    hide Elements, Fold, Proper;
    var after := w.(lock := Held(r), replicas := w.replicas[r := Replica(Locked, true)]);
    forall i | 0 <= i < |after.replicas| ensures Consistent(p, after, i, after.replicas[i]) {
      if i != r {
        assert Consistent(p, w, i, w.replicas[i]);
      }
    }
  }

  /** Nobody else is inside the critical section, so what they know still holds. */
  lemma CommitLeavesOthers<S>(p: Plan<S>, w: World<S>, after: World<S>, r: nat, i: nat, other: Replica<S>)
    requires Consistent(p, w, i, other) && i != r && w.lock == Held(r) && after.lock == w.lock && after.table == w.table
    requires w.versions <= after.versions && |w.versions| <= |after.versions| <= |p.files|
    ensures Consistent(p, after, i, other)
  {
    hide Elements;
  }

  lemma CommitRefines<S>(p: Plan<S>, w: World<S>, after: World<S>, applied: set<string>, next: nat)
    requires Proper(p) && Sequential(p, w) && next < |p.files| && p.files[next] !in applied
    requires w.versions == applied + Elements(p.files[..next])
    requires after.data == p.effect(w.data, p.files[next]) && after.versions == w.versions + {p.files[next]}
    ensures Sequential(p, after) && OneStep(p, w, after) && |after.versions| == |w.versions| + 1
    ensures after.versions == applied + Elements(p.files[..next + 1])
  {
    hide Elements;
    NextIsFirstMissing(p, w, applied, next);
    ElementsPush(p.files, next);
    hide Proper;
    assert Fold(p, next + 1) == p.effect(Fold(p, next), p.files[next]);
  }

  /** The commit makes the body's effect and its record visible together. */
  lemma CommitKeepsInv<S>(p: Plan<S>, w: World<S>, r: nat, ok: bool)
    requires Inv(p, w) && Enabled(p, w, Commit(r, ok, true))
    ensures Inv(p, Do(p, w, Commit(r, ok, true))) && OneStep(p, w, Do(p, w, Commit(r, ok, true)))
  {
    hide Elements, Fold, Proper, Sequential, OneStep;
    var phase, after := w.replicas[r].phase, Do(p, w, Commit(r, ok, true));
    assert Consistent(p, w, r, w.replicas[r]);
    CommitRefines(p, w, after, phase.applied, phase.next);
    assert |after.versions| <= |p.files| by {
      SequentialSize(p, after);
    }
    forall i | 0 <= i < |after.replicas| ensures Consistent(p, after, i, after.replicas[i]) {
      if i != r {
        CommitLeavesOthers(p, w, after, r, i, w.replicas[i]);
      }
    }
  }

  lemma SequentialSize<S>(p: Plan<S>, w: World<S>)
    requires Sequential(p, w)
    ensures |w.versions| <= |p.files|
  {
  }

  lemma JoinKeepsInv<S>(p: Plan<S>, w: World<S>)
    requires Inv(p, w)
    ensures Inv(p, w.(replicas := w.replicas + [Replica(Starting, false)]))
  {
    hide Elements, Fold, Proper;
    var after := w.(replicas := w.replicas + [Replica(Starting, false)]);
    forall i | 0 <= i < |after.replicas| ensures Consistent(p, after, i, after.replicas[i]) {
      if i < |w.replicas| {
        assert Consistent(p, w, i, w.replicas[i]);
      }
    }
  }

  lemma SkipStep<S>(p: Plan<S>, w: World<S>, r: nat)
    requires Inv(p, w) && Enabled(p, w, Skip(r))
    ensures Consistent(p, Do(p, w, Skip(r)), r, Do(p, w, Skip(r)).replicas[r])
  {
    hide Elements, Fold, Sequential, Distinct;
    assert Consistent(p, w, r, w.replicas[r]);
    ElementsPush(p.files, w.replicas[r].phase.next);
  }

  lemma DoneStep<S>(p: Plan<S>, w: World<S>, r: nat)
    requires Inv(p, w) && Enabled(p, w, Done(r))
    ensures Consistent(p, Do(p, w, Done(r)), r, Do(p, w, Done(r)).replicas[r])
  {
    hide Elements, Fold, Sequential, Distinct;
    assert Consistent(p, w, r, w.replicas[r]);
    assert p.files[..|p.files|] == p.files;
    EverythingApplied(p, w, w.replicas[r].phase.applied);
  }

  lemma ReadStep<S>(p: Plan<S>, w: World<S>, r: nat, ok: bool)
    requires Inv(p, w) && Enabled(p, w, ReadVersions(r, ok))
    ensures var after := Do(p, w, ReadVersions(r, ok)); Consistent(p, after, r, after.replicas[r])
  {
    hide Elements, Fold, Sequential, Distinct;
    assert Consistent(p, w, r, w.replicas[r]);
    ElementsNone(p.files);
  }

  lemma StatementStep<S>(p: Plan<S>, w: World<S>, a: Action)
    requires Inv(p, w) && Enabled(p, w, a)
    requires a.CreateTable? || a.Begin? || a.RunBody? || a.Record?
    ensures Consistent(p, Do(p, w, a), a.r, Do(p, w, a).replicas[a.r])
  {
    hide Elements, Fold, Sequential, Distinct;
    assert Consistent(p, w, a.r, w.replicas[a.r]);
  }

  /** What replica r knows after a step of its own in the file loop. */
  lemma OwnStep<S>(p: Plan<S>, w: World<S>, a: Action)
    requires Inv(p, w) && Enabled(p, w, a)
    requires InLoop(a)
    ensures Consistent(p, Do(p, w, a), a.r, Do(p, w, a).replicas[a.r])
  {
    hide Inv, Consistent, Moved;
    match a {
      case Skip(r) => SkipStep(p, w, r);
      case Done(r) => DoneStep(p, w, r);
      case ReadVersions(r, ok) => ReadStep(p, w, r, ok);
      case _ => StatementStep(p, w, a);
    }
  }

  predicate InLoop(a: Action) {
    a.CreateTable? || a.ReadVersions? || a.Skip? || a.Begin? || a.RunBody? || a.Record? || a.Done?
  }

  predicate LetsGo(a: Action) {
    (a.Unlock? && a.took) || a.LoseSession? || a.Crash?
  }

  lemma LetGoStep<S>(p: Plan<S>, w: World<S>, a: Action)
    requires Inv(p, w) && Enabled(p, w, a) && LetsGo(a)
    ensures Inv(p, Do(p, w, a)) && OneStep(p, w, Do(p, w, a))
  {
    assert Consistent(p, w, a.r, w.replicas[a.r]);
    hide Elements, Fold, Sequential, UpTo, InTransaction, Inv;
    LetGoKeepsInv(p, w, Do(p, w, a), a.r, Do(p, w, a).replicas[a.r]);
  }

  lemma FailedStep<S>(p: Plan<S>, w: World<S>, a: Action)
    requires Inv(p, w) && Enabled(p, w, a)
    requires (a.Acquire? && !a.ok) || (a.Commit? && !a.took) || (a.Unlock? && !a.took)
    ensures Consistent(p, Do(p, w, a), a.r, Do(p, w, a).replicas[a.r])
  {
    assert Consistent(p, w, a.r, w.replicas[a.r]);
    hide Elements, Fold, Sequential, Inv;
  }

  lemma LocalStep<S>(p: Plan<S>, w: World<S>, a: Action)
    requires Inv(p, w) && Enabled(p, w, a)
    requires InLoop(a) || (a.Acquire? && !a.ok) || (a.Commit? && !a.took) || (a.Unlock? && !a.took)
    ensures Inv(p, Do(p, w, a)) && OneStep(p, w, Do(p, w, a))
  {
    hide Elements, Fold, Sequential, Consistent, Inv;
    if InLoop(a) {
      OwnStep(p, w, a);
    } else {
      FailedStep(p, w, a);
    }
    MovedKeepsInv(p, w, Do(p, w, a), a.r, Do(p, w, a).replicas[a.r]);
  }

  /** Every step of any replica keeps the invariant, and is a step of the
      sequential run or leaves the database as it was. */
  lemma InvHolds<S>(p: Plan<S>, w: World<S>, a: Action)
    requires Inv(p, w) && Enabled(p, w, a)
    ensures Inv(p, Do(p, w, a)) && OneStep(p, w, Do(p, w, a))
  {
    hide Elements, Fold, Sequential, Consistent, Inv;
    if a.Join? {
      JoinKeepsInv(p, w);
    } else if a.Acquire? && a.ok {
      AcquireKeepsInv(p, w, a.r);
    } else if a.Commit? && a.took {
      CommitKeepsInv(p, w, a.r, a.ok);
    } else if LetsGo(a) {
      LetGoStep(p, w, a);
    } else {
      LocalStep(p, w, a);
    }
  }

  lemma EverythingApplied<S>(p: Plan<S>, w: World<S>, applied: set<string>)
    requires Proper(p) && Sequential(p, w) && applied + Elements(p.files) <= w.versions
    ensures AllApplied(p, w)
  {
    var k := |w.versions|;
    assert p.files[..|p.files|] == p.files;
    if k < |p.files| {
      InPrefix(p.files, k, |p.files|);
      InPrefix(p.files, k, k);
    }
  }

  // ---------------------------------------------------------------------
  // Any run
  // ---------------------------------------------------------------------

  ghost predicate CanRun<S>(p: Plan<S>, w: World<S>, actions: seq<Action>)
    decreases |actions|
  {
    actions == [] || (Enabled(p, w, actions[0]) && CanRun(p, Do(p, w, actions[0]), actions[1..]))
  }

  ghost function Final<S>(p: Plan<S>, w: World<S>, actions: seq<Action>): World<S>
    requires CanRun(p, w, actions)
    decreases |actions|
  {
    if actions == [] then w else Final(p, Do(p, w, actions[0]), actions[1..])
  }

  /** The files whose transactions were committed in a run, in the order of the
      commits. */
  ghost function TookEffect<S>(p: Plan<S>, w: World<S>, actions: seq<Action>): seq<string>
    requires CanRun(p, w, actions)
    decreases |actions|
  {
    if actions == [] then []
    else
      (if actions[0].Commit? && actions[0].took then [p.files[w.replicas[actions[0].r].phase.next]] else [])
      + TookEffect(p, Do(p, w, actions[0]), actions[1..])
  }

  /** Before any replica starts: the first files have been applied, or none. */
  ghost predicate Initial<S>(p: Plan<S>, w: World<S>) {
    Proper(p) && Sequential(p, w) && w.lock.Free? && w.replicas == []
  }

  lemma CommittedFile<S>(p: Plan<S>, w: World<S>, a: Action)
    requires Inv(p, w) && Enabled(p, w, a)
    ensures if a.Commit? && a.took
            then |w.versions| < |p.files| && p.files[w.replicas[a.r].phase.next] == p.files[|w.versions|]
                 && |Do(p, w, a).versions| == |w.versions| + 1
            else Do(p, w, a).versions == w.versions
  {
    if a.Commit? && a.took {
      assert Consistent(p, w, a.r, w.replicas[a.r]);
      var phase := w.replicas[a.r].phase;
      hide Elements, Fold;
      NextIsFirstMissing(p, w, phase.applied, phase.next);
    }
  }

  /** In every run of any number of replicas, whatever fails: the database stays
      the sequential run over the recorded files; the files that take effect
      are the next ones, each once and in order; and a replica that reports
      success leaves every file applied. */
  lemma {:induction false} EveryRunIsSequential<S>(p: Plan<S>, w: World<S>, actions: seq<Action>)
    requires Inv(p, w) && CanRun(p, w, actions)
    ensures var end := Final(p, w, actions);
            && Inv(p, end)
            && |w.versions| <= |end.versions| <= |p.files|
            && end.versions == (set i | 0 <= i < |end.versions| :: p.files[i]) && end.data == Fold(p, |end.versions|)
            && TookEffect(p, w, actions) == p.files[|w.versions|..|end.versions|]
            && (forall r :: 0 <= r < |end.replicas| && end.replicas[r].phase == Returned(true) ==> AllApplied(p, end))
    decreases |actions|
  {
    hide Enabled, Do, Consistent, OneStep, Sequential;
    SequentialSize(p, w);
    if actions == [] {
      SuccessMeansAll(p, w);
      WhatIsApplied(p, w);
    } else {
      var a := actions[0];
      var after := Do(p, w, a);
      InvHolds(p, w, a);
      CommittedFile(p, w, a);
      EveryRunIsSequential(p, after, actions[1..]);
    }
  }

  lemma WhatIsApplied<S>(p: Plan<S>, w: World<S>)
    requires Sequential(p, w)
    ensures w.versions == (set i | 0 <= i < |w.versions| :: p.files[i]) && w.data == Fold(p, |w.versions|)
  {
    assert forall i :: 0 <= i < |w.versions| ==> p.files[..|w.versions|][i] == p.files[i];
  }

  lemma SuccessMeansAll<S>(p: Plan<S>, w: World<S>)
    requires Inv(p, w)
    ensures forall r :: 0 <= r < |w.replicas| && w.replicas[r].phase == Returned(true) ==> AllApplied(p, w)
  {
    forall r | 0 <= r < |w.replicas| && w.replicas[r].phase == Returned(true) ensures AllApplied(p, w) {
      assert Consistent(p, w, r, w.replicas[r]);
      assert p.files[..|p.files|] == p.files;
    }
  }

  lemma InitialIsInv<S>(p: Plan<S>, w: World<S>)
    requires Initial(p, w)
    ensures Inv(p, w)
  {
  }

  /** A database that never saw a replica is where a run may start. */
  lemma FreshIsInitial<S>(p: Plan<S>)
    requires Proper(p)
    ensures Initial(p, World(p.base, false, {}, Free, []))
  {
    hide Proper;
  }

  /** Recording a version never collides with one that is there already. */
  lemma RecordNeverCollides<S>(p: Plan<S>, w: World<S>, r: nat)
    requires Inv(p, w) && r < |w.replicas| && w.replicas[r].phase.Ran? && w.replicas[r].session
    ensures Enabled(p, w, Record(r, true))
  {
    assert Consistent(p, w, r, w.replicas[r]);
    var phase := w.replicas[r].phase;
    hide Elements;
    NextIsFirstMissing(p, w, phase.applied, phase.next);
  }

  // ---------------------------------------------------------------------
  // Nobody waits for ever
  // ---------------------------------------------------------------------

  /** The next step of a replica inside the critical section, when all is well. */
  ghost function NextAction<S>(p: Plan<S>, phase: Phase<S>, r: nat): Action {
    match phase
    case Locked => CreateTable(r, true, true)
    case TableReady => ReadVersions(r, true)
    case Applying(applied, next) =>
      if next >= |p.files| then Done(r)
      else if p.files[next] in applied then Skip(r)
      else Begin(r, true)
    case Open(_, _) => RunBody(r, true)
    case Ran(_, _, _) => Record(r, true)
    case Recorded(_, _, _) => Commit(r, true, true)
    case _ => Unlock(r, true)
  }

  ghost function StepsLeft<S>(p: Plan<S>, phase: Phase<S>): int {
    match phase
    case Locked => 4 * |p.files| + 4
    case TableReady => 4 * |p.files| + 3
    case Applying(_, next) => 4 * (|p.files| - next) + 2
    case Open(_, next) => 4 * (|p.files| - next) + 1
    case Ran(_, next, _) => 4 * (|p.files| - next)
    case Recorded(_, next, _) => 4 * (|p.files| - next) - 1
    case _ => 1
  }

  ghost predicate Inside<S>(w: World<S>, r: nat) {
    r < |w.replicas| && w.lock == Held(r) && !w.replicas[r].phase.Returned?
  }

  ghost predicate Working<S>(phase: Phase<S>) {
    !phase.Starting? && !phase.Returned? && !phase.Dead?
  }

  lemma HolderIsWorking<S>(p: Plan<S>, w: World<S>, r: nat)
    requires Inv(p, w) && Inside(w, r)
    ensures w.replicas[r].session && Working(w.replicas[r].phase) && StepsLeft(p, w.replicas[r].phase) > 0
    ensures w.replicas[r].phase.TableReady? ==> w.table
    ensures w.replicas[r].phase.Open? || w.replicas[r].phase.Ran? || w.replicas[r].phase.Recorded? ==>
              w.replicas[r].phase.next < |p.files|
  {
    assert Consistent(p, w, r, w.replicas[r]);
    hide Elements, Fold, Sequential, Distinct;
  }

  lemma HolderIsEnabled<S>(p: Plan<S>, w: World<S>, r: nat)
    requires Inv(p, w) && Inside(w, r)
    ensures Enabled(p, w, NextAction(p, w.replicas[r].phase, r))
  {
    hide Enabled, Inv, StepsLeft, Working;
    HolderIsWorking(p, w, r);
    if w.replicas[r].phase.Ran? {
      RecordNeverCollides(p, w, r);
    } else {
      OtherIsEnabled(p, w, r);
    }
  }

  lemma OtherIsEnabled<S>(p: Plan<S>, w: World<S>, r: nat)
    requires Inside(w, r) && w.replicas[r].session && Working(w.replicas[r].phase) && !w.replicas[r].phase.Ran?
    requires w.replicas[r].phase.TableReady? ==> w.table
    requires w.replicas[r].phase.Open? || w.replicas[r].phase.Recorded? ==> w.replicas[r].phase.next < |p.files|
    ensures Enabled(p, w, NextAction(p, w.replicas[r].phase, r))
  {
  }

  lemma NextStaysInside<S>(p: Plan<S>, w: World<S>, r: nat)
    requires Inside(w, r) && Working(w.replicas[r].phase) && Enabled(p, w, NextAction(p, w.replicas[r].phase, r))
    ensures var after := Do(p, w, NextAction(p, w.replicas[r].phase, r));
            if w.replicas[r].phase.Releasing? then after.lock.Free? else Inside(after, r)
  {
  }

  lemma NextIsShorter<S>(p: Plan<S>, w: World<S>, r: nat)
    requires Inside(w, r) && Working(w.replicas[r].phase) && Enabled(p, w, NextAction(p, w.replicas[r].phase, r))
    requires !w.replicas[r].phase.Releasing? && StepsLeft(p, w.replicas[r].phase) > 0
    ensures var after := Do(p, w, NextAction(p, w.replicas[r].phase, r));
            && |after.replicas| == |w.replicas|
            && StepsLeft(p, after.replicas[r].phase) < StepsLeft(p, w.replicas[r].phase)
  {
  }

  /** A waiting replica waits for one that can finish: from every reachable
      state in which the lock is held by a replica that has not returned, that
      replica can run to its return, and the lock is free then. */
  lemma {:induction false} HolderFinishes<S>(p: Plan<S>, w: World<S>, r: nat) returns (actions: seq<Action>)
    requires Inv(p, w) && Inside(w, r)
    ensures CanRun(p, w, actions)
    ensures Final(p, w, actions).lock.Free?
    ensures forall a :: a in actions ==> !a.LoseSession? && !a.Crash?
    decreases StepsLeft(p, w.replicas[r].phase)
  {
    hide Enabled, Do, Consistent, OneStep, Sequential, NextAction, StepsLeft, Working;
    var a := NextAction(p, w.replicas[r].phase, r);
    HolderIsWorking(p, w, r);
    HolderIsEnabled(p, w, r);
    NextStaysInside(p, w, r);
    InvHolds(p, w, a);
    var after := Do(p, w, a);
    var rest := [];
    if !w.replicas[r].phase.Releasing? {
      NextIsShorter(p, w, r);
      rest := HolderFinishes(p, after, r);
    }
    actions := [a] + rest;
    assert actions[1..] == rest;
    assert !a.LoseSession? && !a.Crash? by { NextIsOrdinary(p, w.replicas[r].phase, r); }
  }

  lemma NextIsOrdinary<S>(p: Plan<S>, phase: Phase<S>, r: nat)
    ensures var a := NextAction(p, phase, r); !a.LoseSession? && !a.Crash?
  {
  }

  /** What becomes of a lock that is held: its holder can finish; or the holder
      returned without having managed to unlock, and then the end of its session,
      which stays in the connection pool, is the only step that frees it. */
  lemma LockIsFreedExactlyBy<S>(p: Plan<S>, w: World<S>, r: nat) returns (actions: seq<Action>)
    requires Inv(p, w) && w.lock == Held(r)
    ensures CanRun(p, w, actions) && Final(p, w, actions).lock.Free?
    ensures !w.replicas[r].phase.Returned? ==> forall a :: a in actions ==> !a.LoseSession? && !a.Crash?
    ensures w.replicas[r].phase.Returned? ==>
              && actions == [LoseSession(r)]
              && forall a :: Enabled(p, w, a) ==> (Do(p, w, a).lock.Free? <==> a == LoseSession(r) || a == Crash(r))
  {
    if w.replicas[r].phase.Returned? {
      hide Inv;
      HolderHasSession(p, w, r);
      actions := [LoseSession(r)];
      assert actions[1..] == [];
      var after := Do(p, w, LoseSession(r));
      assert CanRun(p, after, []) && Final(p, after, []) == after;
      forall a | Enabled(p, w, a) ensures Do(p, w, a).lock.Free? <==> a == LoseSession(r) || a == Crash(r) {
        LeakedLock(p, w, r, a);
      }
    } else {
      actions := HolderFinishes(p, w, r);
    }
  }

  /** A replica may crash, lose its session, fail to get the lock, or another one
      may start, at any moment. */
  lemma AnythingMayFail<S>(p: Plan<S>, w: World<S>, r: nat)
    requires r < |w.replicas|
    ensures Enabled(p, w, Crash(r)) && Enabled(p, w, Join)
    ensures w.replicas[r].session ==> Enabled(p, w, LoseSession(r))
    ensures w.replicas[r].phase.Starting? ==> Enabled(p, w, Acquire(r, false))
    ensures Do(p, w, Crash(r)).data == w.data && Do(p, w, Crash(r)).versions == w.versions
    ensures w.lock == Held(r) ==> Do(p, w, Crash(r)).lock.Free?
  {
  }

  lemma HolderHasSession<S>(p: Plan<S>, w: World<S>, r: nat)
    requires Inv(p, w) && w.lock == Held(r)
    ensures r < |w.replicas| && w.replicas[r].session
  {
  }

  lemma LeakedLock<S>(p: Plan<S>, w: World<S>, r: nat, a: Action)
    requires r < |w.replicas| && w.lock == Held(r) && w.replicas[r].phase.Returned? && Enabled(p, w, a)
    ensures Do(p, w, a).lock.Free? <==> a == LoseSession(r) || a == Crash(r)
  {
  }
}
