/** The fixed-window counter of one key and how much it lets through
    (internal/auth/ratelimit.go). Times are in milliseconds. */
module FixedWindow {
  import opened Redis

  datatype Limit = Limit(requests: nat, window: int)

  datatype Counter = Absent | Counter(count: nat, expiry: Expiry)

  /** What happened to a counter: an attempt, whose caller may not have learnt
      the answer, or a reset. */
  datatype Event = Attempt(at: int, answered: bool) | Cleared(at: int)

  predicate Current(c: Counter, at: int) {
    c.Counter? && Live(c.expiry, at)
  }

  /** An attempt counts in the window that is open, or opens one. */
  function Hit(l: Limit, c: Counter, at: int): Counter {
    if Current(c, at) then c.(count := c.count + 1) else Counter(1, At(at + l.window))
  }

  ghost function After(l: Limit, log: seq<Event>): Counter {
    if log == [] then Absent
    else
      match log[|log| - 1]
      case Attempt(at, _) => Hit(l, After(l, log[..|log| - 1]), at)
      case Cleared(_) => Absent
  }

  /** The last attempt was within quota, and its caller was told so. */
  ghost predicate Passes(l: Limit, log: seq<Event>) {
    && log != [] && log[|log| - 1].Attempt? && log[|log| - 1].answered
    && After(l, log).Counter? && After(l, log).count <= l.requests
  }

  ghost predicate Ordered(log: seq<Event>, now: int) {
    log != [] ==> log[|log| - 1].at <= now && Ordered(log[..|log| - 1], log[|log| - 1].at)
  }

  /** A counter always carries an expiry, never more than a window away from the
      last attempt; so no lockout is permanent. */
  lemma {:induction false} AlwaysExpires(l: Limit, log: seq<Event>, now: int)
    requires l.window > 0 && Ordered(log, now)
    ensures After(l, log).Counter? ==>
              && After(l, log).count >= 1 && After(l, log).expiry.At?
              && After(l, log).expiry.when <= now + l.window
  {
    if log != [] {
      AlwaysExpires(l, log[..|log| - 1], log[|log| - 1].at);
    }
  }

  // ---------------------------------------------------------------------
  // What a refusal means
  // ---------------------------------------------------------------------

  ghost predicate OnlyAttempts(log: seq<Event>, latest: int) {
    forall e :: e in log ==> e.Attempt? && e.at <= latest
  }

  /** Once over quota, attempts until the window's end change neither its end
      nor the answer: refused callers cannot be kept out longer. */
  lemma {:induction false} RefusalDoesNotExtend(l: Limit, log: seq<Event>, more: seq<Event>)
    requires After(l, log).Counter? && After(l, log).expiry.At? && After(l, log).count > l.requests
    requires OnlyAttempts(more, After(l, log).expiry.when)
    ensures After(l, log + more) == Counter(After(l, log).count + |more|, After(l, log).expiry)
    ensures more != [] ==> !Passes(l, log + more)
  {
    if more == [] {
      assert log + more == log;
    } else {
      var init := more[..|more| - 1];
      assert (log + more)[..|log + more| - 1] == log + init;
      assert more[|more| - 1] in more;
      forall e | e in init ensures e in more {
      }
      RefusalDoesNotExtend(l, log, init);
    }
  }

  /** The wait that a refusal reports is exact: an attempt after it passes, one
      before its end does not, whatever attempts were refused in between. */
  lemma WaitIsExact(l: Limit, log: seq<Event>, more: seq<Event>, at: int)
    requires l.requests >= 1 && l.window > 0
    requires After(l, log).Counter? && After(l, log).expiry.At? && After(l, log).count > l.requests
    requires OnlyAttempts(more, After(l, log).expiry.when)
    ensures Passes(l, log + more + [Attempt(at, true)]) <==> at > After(l, log).expiry.when
  {
    RefusalDoesNotExtend(l, log, more);
    assert (log + more + [Attempt(at, true)])[..|log + more|] == log + more;
  }

  // ---------------------------------------------------------------------
  // How much passes in any stretch of time
  // ---------------------------------------------------------------------

  ghost predicate Within(at: int, from: int, to: int) {
    from <= at <= to
  }

  /** The attempts between two moments that passed. */
  ghost function Passed(l: Limit, log: seq<Event>, from: int, to: int): nat {
    if log == [] then 0
    else
      Passed(l, log[..|log| - 1], from, to)
      + if Passes(l, log) && Within(log[|log| - 1].at, from, to) then 1 else 0
  }

  /** The resets between two moments. */
  ghost function Resets(log: seq<Event>, from: int, to: int): nat {
    if log == [] then 0
    else
      Resets(log[..|log| - 1], from, to)
      + if log[|log| - 1].Cleared? && Within(log[|log| - 1].at, from, to) then 1 else 0
  }

  /** The windows that were open at some attempt since a moment. */
  ghost function WindowsUsed(l: Limit, log: seq<Event>, from: int): nat {
    if log == [] || log[|log| - 1].at < from then 0
    else
      var init, last := log[..|log| - 1], log[|log| - 1];
      var before := WindowsUsed(l, init, from);
      if last.Cleared? then before
      else if Current(After(l, init), last.at) then (if before == 0 then 1 else before)
      else before + 1
  }

  ghost function Product(a: int, b: int): int {
    a * b
  }

  lemma ProductSteps(a: int, b: int)
    ensures Product(a, b + 1) == Product(a, b) + a && Product(a, b - 1) == Product(a, b) - a
    ensures Product(a, 0) == 0 && Product(a, 1) == a
  {
  }

  lemma ProductGrows(a: int, b: int, c: int)
    requires 0 <= a && b <= c
    ensures Product(a, b) <= Product(a, c)
  {
  }

  /** The moment before which the open window cannot have started, given how
      many windows were used and how many resets there were since `from`. */
  ghost function Earliest(l: Limit, from: int, windows: int, resets: int): int {
    from - l.window + Product(l.window + 1, windows - 1 - resets)
  }

  /** Where a counter stands at a moment, given the windows used, the attempts
      passed and the resets since `from`. */
  ghost predicate Sound(l: Limit, c: Counter, from: int, now: int, used: nat, passed: nat, resets: nat) {
    && (c.Counter? ==> c.expiry.At? && c.count >= 1 && c.expiry.when - l.window <= now)
    && (used == 0 ==> passed == 0 && (c.Counter? ==> resets == 0))
    && (used > 0 && c.Counter? ==>
          && passed <= Product(l.requests, used - 1) + (if c.count <= l.requests then c.count else l.requests)
          && Earliest(l, from, used, resets) <= c.expiry.when - l.window)
    && (used > 0 && c.Absent? ==>
          passed <= Product(l.requests, used) && Earliest(l, from, used + 1, resets) <= now)
  }

  lemma ClearedIsSound(l: Limit, c: Counter, from: int, now: int, at: int, used: nat, passed: nat, resets: nat)
    requires Sound(l, c, from, now, used, passed, resets) && now <= at && from <= at && l.window > 0
    ensures Sound(l, Absent, from, at, used, passed, resets + 1)
  {
    hide Product;
    ProductSteps(l.window + 1, used - resets);
    ProductSteps(l.requests, used - 1);
    if c.Counter? {
      assert Earliest(l, from, used + 1, resets + 1) == Earliest(l, from, used, resets);
    }
  }

  lemma SameWindowIsSound(l: Limit, c: Counter, from: int, now: int, at: int,
                          used: nat, passed: nat, resets: nat, more: nat)
    requires Sound(l, c, from, now, used, passed, resets) && now <= at && from <= at && l.window > 0
    requires Current(c, at) && more <= (if c.count + 1 <= l.requests then 1 else 0)
    ensures Sound(l, Hit(l, c, at), from, at, if used == 0 then 1 else used, passed + more, resets)
  {
    hide Product;
    ProductSteps(l.window + 1, 0);
    ProductSteps(l.requests, 0);
  }

  lemma NewWindowIsSound(l: Limit, c: Counter, from: int, now: int, at: int,
                         used: nat, passed: nat, resets: nat, more: nat)
    requires Sound(l, c, from, now, used, passed, resets) && now <= at && from <= at && l.window > 0
    requires !Current(c, at) && more <= (if 1 <= l.requests then 1 else 0)
    ensures Sound(l, Hit(l, c, at), from, at, used + 1, passed + more, resets)
  {
    hide Product;
    ProductSteps(l.requests, used - 1);
    if used == 0 {
      ProductGrows(l.window + 1, 0 - resets as int, 0);
      ProductSteps(l.window + 1, 0);
      ProductSteps(l.requests, 0);
    } else {
      ProductSteps(l.window + 1, used - 1 - resets);
    }
  }

  lemma {:induction false} NothingBefore(l: Limit, log: seq<Event>, now: int, from: int, to: int)
    requires Ordered(log, now) && now < from
    ensures Passed(l, log, from, to) == 0 && Resets(log, from, to) == 0
  {
    if log != [] {
      NothingBefore(l, log[..|log| - 1], log[|log| - 1].at, from, to);
    }
  }

  lemma {:induction false} CounterIsSound(l: Limit, log: seq<Event>, now: int, from: int, to: int)
    requires l.window > 0 && Ordered(log, now) && now <= to
    ensures Sound(l, After(l, log), from, now,
                  WindowsUsed(l, log, from), Passed(l, log, from, to), Resets(log, from, to))
  {
    if log != [] {
      var init, last := log[..|log| - 1], log[|log| - 1];
      CounterIsSound(l, init, last.at, from, to);
      AlwaysExpires(l, log, now);
      if last.at < from {
        NothingBefore(l, log, last.at, from, to);
        NothingBefore(l, init, last.at, from, to);
      } else {
        var c, used := After(l, init), WindowsUsed(l, init, from);
        var passed, resets := Passed(l, init, from, to), Resets(init, from, to);
        var more := if Passes(l, log) then 1 else 0;
        hide Sound, Product, Earliest;
        match last {
          case Cleared(at) => ClearedIsSound(l, c, from, last.at, at, used, passed, resets);
          case Attempt(at, _) =>
            if Current(c, at) {
              SameWindowIsSound(l, c, from, last.at, at, used, passed, resets, more);
            } else {
              NewWindowIsSound(l, c, from, last.at, at, used, passed, resets, more);
            }
        }
        LaterIsSound(l, After(l, log), from, last.at, now,
                     WindowsUsed(l, log, from), Passed(l, log, from, to), Resets(log, from, to));
      }
    }
  }

  lemma LaterIsSound(l: Limit, c: Counter, from: int, now: int, later: int, used: nat, passed: nat, resets: nat)
    requires Sound(l, c, from, now, used, passed, resets) && now <= later
    ensures Sound(l, c, from, later, used, passed, resets)
  {
  }

  /** In any n windows' worth of time, in which the counter was reset m times, at
      most (n + 1 + m) times the quota passes. */
  lemma BoundInAnyInterval(l: Limit, log: seq<Event>, now: int, from: int, n: nat)
    requires l.window > 0 && Ordered(log, now)
    ensures var to := from + l.window * n;
            |set i | 0 <= i < |log| && Passes(l, log[..i + 1]) && from <= log[i].at <= to|
            <= l.requests * (n + 1 + |set i | 0 <= i < |log| && log[i].Cleared? && from <= log[i].at <= to|)
  {
    hide Passes, Passed, Resets, Ordered;
    CountedBound(l, log, now, from, n);
    PassedIs(l, log, from, from + l.window * n);
    ResetsIs(log, from, from + l.window * n);
  }

  ghost function PassedAt(l: Limit, log: seq<Event>, from: int, to: int): set<int> {
    set i | 0 <= i < |log| && Passes(l, log[..i + 1]) && from <= log[i].at <= to
  }

  lemma {:induction false} PassedIs(l: Limit, log: seq<Event>, from: int, to: int)
    ensures Passed(l, log, from, to)
         == |set i | 0 <= i < |log| && Passes(l, log[..i + 1]) && from <= log[i].at <= to|
  {
    hide Passes;
    if log == [] {
      assert PassedAt(l, log, from, to) == {};
    } else {
      PassedIs(l, log[..|log| - 1], from, to);
      PassedMore(l, log, |log| - 1, from, to);
    }
  }

  lemma PassedMore(l: Limit, log: seq<Event>, n: nat, from: int, to: int)
    requires |log| == n + 1
    ensures PassedAt(l, log, from, to)
         == PassedAt(l, log[..n], from, to) + if Passes(l, log) && from <= log[n].at <= to then {n} else {}
    ensures n !in PassedAt(l, log[..n], from, to)
  {
    hide Passes;
    assert log[..n + 1] == log;
    forall i | 0 <= i < n ensures log[..n][..i + 1] == log[..i + 1] && log[..n][i] == log[i] {
    }
  }

  ghost function ResetsAt(log: seq<Event>, from: int, to: int): set<int> {
    set i | 0 <= i < |log| && log[i].Cleared? && from <= log[i].at <= to
  }

  lemma {:induction false} ResetsIs(log: seq<Event>, from: int, to: int)
    ensures Resets(log, from, to) == |set i | 0 <= i < |log| && log[i].Cleared? && from <= log[i].at <= to|
  {
    if log == [] {
      assert ResetsAt(log, from, to) == {};
    } else {
      ResetsIs(log[..|log| - 1], from, to);
      ResetsMore(log, |log| - 1, from, to);
    }
  }

  lemma ResetsMore(log: seq<Event>, n: nat, from: int, to: int)
    requires |log| == n + 1
    ensures ResetsAt(log, from, to)
         == ResetsAt(log[..n], from, to) + if log[n].Cleared? && from <= log[n].at <= to then {n} else {}
    ensures n !in ResetsAt(log[..n], from, to)
  {
  }

  lemma {:induction false} CountedBound(l: Limit, log: seq<Event>, now: int, from: int, n: nat)
    requires l.window > 0 && Ordered(log, now)
    ensures var to := from + Product(l.window, n);
            Passed(l, log, from, to) <= Product(l.requests, n + 1 + Resets(log, from, to))
  {
    var to := from + Product(l.window, n);
    if log != [] && log[|log| - 1].at > to {
      CountedBound(l, log[..|log| - 1], log[|log| - 1].at, from, n);
    } else {
      var latest := if log == [] then to else log[|log| - 1].at;
      CounterIsSound(l, log, latest, from, to);
      BoundFromSound(l, After(l, log), from, latest, n,
                     WindowsUsed(l, log, from), Passed(l, log, from, to), Resets(log, from, to));
    }
  }

  lemma BoundFromSound(l: Limit, c: Counter, from: int, now: int, n: nat, used: nat, passed: nat, resets: nat)
    requires Sound(l, c, from, now, used, passed, resets) && now <= from + Product(l.window, n) && l.window > 0
    ensures passed <= Product(l.requests, n + 1 + resets)
  {
    hide Product;
    ProductGrows(l.requests, 0, n + 1 + resets);
    ProductSteps(l.requests, 0);
    if used > 0 {
      ProductSteps(l.requests, used - 1);
      var w := if c.Counter? then used else used + 1;
      assert Earliest(l, from, w, resets) <= from + Product(l.window, n);
      ProductSteps(l.window, n);
      AtMost(l.window, n, w - 1 - resets);
      ProductGrows(l.requests, used, n + 1 + resets);
    }
  }

  lemma AtMost(window: int, n: nat, k: int)
    requires window > 0 && Product(window + 1, k) <= Product(window, n + 1)
    ensures k <= n
  {
    assert Product(window + 1, n + 1) == Product(window, n + 1) + (n + 1);
    if k > n {
      ProductGrows(window + 1, n + 1, k);
    }
  }
}
