/** How login and its neighbours spend the limiter (internal/auth/service.go).
    A login is two steps, so that any others may come between the checks and
    the outcome of the password verification. */
module Login {
  import opened FixedWindow
  import opened Redis
  import opened RateLimit

  /** What verification against the user store came to and, when the password
      matched, whether the session could be created. */
  datatype Outcome = UnknownUser | StoreError | Disabled | UnusableHash | Mismatch | Match(stored: bool)

  datatype Started = RateLimited(retryAfter: int) | LimiterDown | Verifying

  datatype Result = InvalidCredentials | LookupFailed | NotStored | LoggedIn

  /** What is worth counting: a guess that got to verification, and a password
      that matched, with whether the account's counter was reset and whether the
      login came to a session. */
  datatype Mark =
    | Guess(account: string, at: int)
    | Matched(account: string, at: int, reset: bool, stored: bool)

  datatype Kind = AGuess | AMatch | ALogin | AReset | AResetWithoutLogin

  predicate IsA(k: Kind, m: Mark) {
    match k
    case AGuess => m.Guess?
    case AMatch => m.Matched?
    case ALogin => m.Matched? && m.stored
    case AReset => m.Matched? && m.reset
    case AResetWithoutLogin => m.Matched? && m.reset && !m.stored
  }

  /** How many marks of a kind an account got between two moments. */
  ghost function Count(trace: seq<Mark>, k: Kind, account: string, from: int, to: int): nat {
    if trace == [] then 0
    else
      var last := trace[|trace| - 1];
      Count(trace[..|trace| - 1], k, account, from, to)
      + if IsA(k, last) && last.account == account && Within(last.at, from, to) then 1 else 0
  }

  /** A reset comes with a match, and with a login unless no session could be
      created. */
  lemma {:induction false} ResetsAndLogins(trace: seq<Mark>, account: string, from: int, to: int)
    ensures Count(trace, AReset, account, from, to) <= Count(trace, AMatch, account, from, to)
    ensures Count(trace, AReset, account, from, to)
         <= Count(trace, ALogin, account, from, to) + Count(trace, AResetWithoutLogin, account, from, to)
  {
    if trace != [] {
      ResetsAndLogins(trace[..|trace| - 1], account, from, to);
    }
  }

  /** Over any interval, the guesses at an account are the attempts its counter
      let through, and its resets are those marked. */
  ghost predicate Tallies(trace: seq<Mark>, account: string, log: seq<Event>) {
    forall from, to ::
      && Count(trace, AGuess, account, from, to) == Passed(LOGIN_PER_ACCOUNT, log, from, to)
      && Count(trace, AReset, account, from, to) == Resets(log, from, to)
  }

  ghost predicate AllTally(trace: seq<Mark>, logs: map<string, seq<Event>>) {
    forall account :: Tallies(trace, account, LogOf(logs, LOGIN_ACCOUNT_PREFIX + account))
  }

  lemma PassedOne(log: seq<Event>, e: Event, from: int, to: int)
    ensures Passed(LOGIN_PER_ACCOUNT, log + [e], from, to)
         == Passed(LOGIN_PER_ACCOUNT, log, from, to)
            + if Passes(LOGIN_PER_ACCOUNT, log + [e]) && Within(e.at, from, to) then 1 else 0
    ensures Resets(log + [e], from, to)
         == Resets(log, from, to) + if e.Cleared? && Within(e.at, from, to) then 1 else 0
  {
    assert (log + [e])[..|log|] == log;
  }

  lemma MarkedOne(trace: seq<Mark>, m: Mark, k: Kind, account: string, from: int, to: int)
    ensures Count(trace + [m], k, account, from, to)
         == Count(trace, k, account, from, to)
            + if IsA(k, m) && m.account == account && Within(m.at, from, to) then 1 else 0
  {
    assert (trace + [m])[..|trace|] == trace;
  }

  /** An attempt on an account's counter tallies with a guess if it passes. */
  lemma AttemptTallies(trace: seq<Mark>, account: string, log: seq<Event>, at: int, answered: bool)
    requires Tallies(trace, account, log)
    ensures var more := log + [Attempt(at, answered)];
            if Passes(LOGIN_PER_ACCOUNT, more) then Tallies(trace + [Guess(account, at)], account, more)
            else Tallies(trace, account, more)
  {
    hide Count, Passed, Resets, Passes;
    var more := log + [Attempt(at, answered)];
    var after := if Passes(LOGIN_PER_ACCOUNT, more) then trace + [Guess(account, at)] else trace;
    forall from, to
      ensures Count(after, AGuess, account, from, to) == Passed(LOGIN_PER_ACCOUNT, more, from, to)
      ensures Count(after, AReset, account, from, to) == Resets(more, from, to)
    {
      PassedOne(log, Attempt(at, answered), from, to);
      MarkedOne(trace, Guess(account, at), AGuess, account, from, to);
      MarkedOne(trace, Guess(account, at), AReset, account, from, to);
    }
  }

  /** A match tallies with a reset of the counter if there was one. */
  lemma MatchTallies(trace: seq<Mark>, account: string, log: seq<Event>, at: int, reset: bool, stored: bool)
    requires Tallies(trace, account, log)
    ensures Tallies(trace + [Matched(account, at, reset, stored)], account, if reset then log + [Cleared(at)] else log)
  {
    hide Count, Passed, Resets, Passes;
    var mark, more := Matched(account, at, reset, stored), if reset then log + [Cleared(at)] else log;
    forall from, to
      ensures Count(trace + [mark], AGuess, account, from, to) == Passed(LOGIN_PER_ACCOUNT, more, from, to)
      ensures Count(trace + [mark], AReset, account, from, to) == Resets(more, from, to)
    {
      ClearedPassesNothing(log, at);
      PassedOne(log, Cleared(at), from, to);
      MarkedOne(trace, mark, AGuess, account, from, to);
      MarkedOne(trace, mark, AReset, account, from, to);
    }
  }

  lemma ClearedPassesNothing(log: seq<Event>, at: int)
    ensures !Passes(LOGIN_PER_ACCOUNT, log + [Cleared(at)])
  {
  }

  /** A mark of another account leaves an account's tally alone. */
  lemma OtherMark(trace: seq<Mark>, m: Mark, account: string, log: seq<Event>)
    requires Tallies(trace, account, log) && m.account != account
    ensures Tallies(trace + [m], account, log)
  {
    hide Count, Passed, Resets;
    forall from, to
      ensures Count(trace + [m], AGuess, account, from, to) == Passed(LOGIN_PER_ACCOUNT, log, from, to)
      ensures Count(trace + [m], AReset, account, from, to) == Resets(log, from, to)
    {
      MarkedOne(trace, m, AGuess, account, from, to);
      MarkedOne(trace, m, AReset, account, from, to);
    }
  }

  /** So does whatever happens to any other key. */
  lemma OtherKey(trace: seq<Mark>, logs: map<string, seq<Event>>, key: string, e: Event)
    requires AllTally(trace, logs) && forall account :: LOGIN_ACCOUNT_PREFIX + account != key
    ensures AllTally(trace, Logged(logs, key, e))
  {
    hide Tallies;
    forall account
      ensures Tallies(trace, account, LogOf(Logged(logs, key, e), LOGIN_ACCOUNT_PREFIX + account))
    {
      assert LogOf(Logged(logs, key, e), LOGIN_ACCOUNT_PREFIX + account) == LogOf(logs, LOGIN_ACCOUNT_PREFIX + account);
    }
  }

  /** An account whose tally is kept, keeps everybody's. */
  lemma AccountKeyOnly(trace: seq<Mark>, after: seq<Mark>, logs: map<string, seq<Event>>, account: string, e: Event)
    requires AllTally(trace, logs)
    requires after == trace || (after != [] && after[|after| - 1].account == account && after[..|after| - 1] == trace)
    requires Tallies(after, account, LogOf(logs, LOGIN_ACCOUNT_PREFIX + account) + [e])
    ensures AllTally(after, Logged(logs, LOGIN_ACCOUNT_PREFIX + account, e))
  {
    var more := Logged(logs, LOGIN_ACCOUNT_PREFIX + account, e);
    forall other ensures Tallies(after, other, LogOf(more, LOGIN_ACCOUNT_PREFIX + other)) {
      assert Tallies(trace, other, LogOf(logs, LOGIN_ACCOUNT_PREFIX + other));
      hide Tallies;
      if other != account {
        AccountKeysAreApart(other, account);
        OthersTally(trace, after, other, LogOf(logs, LOGIN_ACCOUNT_PREFIX + other));
      }
    }
  }

  lemma OthersTally(trace: seq<Mark>, after: seq<Mark>, account: string, log: seq<Event>)
    requires Tallies(trace, account, log)
    requires after == trace || (after != [] && after[|after| - 1].account != account && after[..|after| - 1] == trace)
    ensures Tallies(after, account, log)
  {
    if after != trace {
      assert after == trace + [after[|after| - 1]];
      OtherMark(trace, after[|after| - 1], account, log);
    }
  }

  lemma OnlyMarked(trace: seq<Mark>, m: Mark, logs: map<string, seq<Event>>)
    requires AllTally(trace, logs)
    requires Tallies(trace + [m], m.account, LogOf(logs, LOGIN_ACCOUNT_PREFIX + m.account))
    ensures AllTally(trace + [m], logs)
  {
    forall other ensures Tallies(trace + [m], other, LogOf(logs, LOGIN_ACCOUNT_PREFIX + other)) {
      assert Tallies(trace, other, LogOf(logs, LOGIN_ACCOUNT_PREFIX + other));
      hide Tallies;
      if other != m.account {
        OtherMark(trace, m, other, LogOf(logs, LOGIN_ACCOUNT_PREFIX + other));
      }
    }
  }

  /** What one check does to the logs, given its answer. */
  ghost predicate Counted(logs: map<string, seq<Event>>, after: map<string, seq<Event>>,
                          key: string, at: int, s: Started)
  {
    match s
    case LimiterDown => after == logs || after == Logged(logs, key, Attempt(at, false))
    case RateLimited(_) => after == Logged(logs, key, Attempt(at, true)) && !Passes(LimitOf(key), LogOf(after, key))
    case Verifying => after == Logged(logs, key, Attempt(at, true)) && Passes(LimitOf(key), LogOf(after, key))
  }

  lemma OtherKeyCounted(trace: seq<Mark>, logs: map<string, seq<Event>>, after: map<string, seq<Event>>,
                        key: string, at: int, s: Started)
    requires AllTally(trace, logs) && Counted(logs, after, key, at, s)
    requires forall account :: LOGIN_ACCOUNT_PREFIX + account != key
    ensures AllTally(trace, after)
  {
    OtherKey(trace, logs, key, Attempt(at, true));
    OtherKey(trace, logs, key, Attempt(at, false));
  }

  lemma AddressKeysAreApart(ip: string)
    ensures forall account :: LOGIN_ACCOUNT_PREFIX + account != LOGIN_IP_PREFIX + ip
    ensures forall account :: LOGIN_ACCOUNT_PREFIX + account != REGISTER_IP_PREFIX + ip
    ensures forall account :: LOGIN_ACCOUNT_PREFIX + account != PASSWORD_IP_PREFIX + ip
  {
    forall account
      ensures LOGIN_ACCOUNT_PREFIX + account != LOGIN_IP_PREFIX + ip
      ensures LOGIN_ACCOUNT_PREFIX + account != REGISTER_IP_PREFIX + ip
      ensures LOGIN_ACCOUNT_PREFIX + account != PASSWORD_IP_PREFIX + ip
    {
      KeysAreApart(account, ip);
    }
  }

  lemma OneTallies(trace: seq<Mark>, logs: map<string, seq<Event>>, account: string)
    requires AllTally(trace, logs)
    ensures Tallies(trace, account, LogOf(logs, LOGIN_ACCOUNT_PREFIX + account))
  {
    hide Tallies;
  }

  lemma AccountCounted(trace: seq<Mark>, logs: map<string, seq<Event>>, after: map<string, seq<Event>>,
                       account: string, at: int, s: Started)
    requires AllTally(trace, logs) && Counted(logs, after, LOGIN_ACCOUNT_PREFIX + account, at, s)
    ensures AllTally(if s.Verifying? then trace + [Guess(account, at)] else trace, after)
  {
    hide AllTally, Tallies, LimitOf, LogOf, Logged, After;
    var key := LOGIN_ACCOUNT_PREFIX + account;
    KeysAreApart(account, "");
    OneTallies(trace, logs, account);
    LoggedDiffers(logs, key, Attempt(at, true));
    if after != logs {
      var answered := !s.LimiterDown?;
      AttemptTallies(trace, account, LogOf(logs, key), at, answered);
      LastOf(logs, key, Attempt(at, answered));
      var marked := if s.Verifying? then trace + [Guess(account, at)] else trace;
      AccountKeyOnly(trace, marked, logs, account, Attempt(at, answered));
    }
  }

  lemma MatchIsTallied(trace: seq<Mark>, logs: map<string, seq<Event>>, account: string, at: int,
                       reset: bool, stored: bool)
    requires AllTally(trace, logs)
    ensures AllTally(trace + [Matched(account, at, reset, stored)],
                     if reset then Logged(logs, LOGIN_ACCOUNT_PREFIX + account, Cleared(at)) else logs)
  {
    hide AllTally, Tallies;
    var key, mark := LOGIN_ACCOUNT_PREFIX + account, Matched(account, at, reset, stored);
    OneTallies(trace, logs, account);
    MatchTallies(trace, account, LogOf(logs, key), at, reset, stored);
    if reset {
      AccountKeyOnly(trace, trace + [mark], logs, account, Cleared(at));
    } else {
      OnlyMarked(trace, mark, logs);
    }
  }

  ghost function Later(from: int, windows: nat): int {
    from + Product(LOGIN_PER_ACCOUNT.window, windows)
  }

  /** At most (n + 1 + m) times its quota of passwords is tried on an account in
      any n windows' worth of time with m marks of a kind. */
  ghost predicate Bounded(trace: seq<Mark>, k: Kind, account: string, from: int, n: nat) {
    Count(trace, AGuess, account, from, Later(from, n))
    <= Product(LOGIN_PER_ACCOUNT.requests, n + 1 + Count(trace, k, account, from, Later(from, n)))
  }

  /** That holds of resets, so of matched passwords, and of logins if no reset in
      that time goes with a login for which no session could be created. */
  lemma GuessBound(trace: seq<Mark>, log: seq<Event>, now: int, account: string, from: int, n: nat)
    requires Ordered(log, now) && Tallies(trace, account, log)
    ensures Bounded(trace, AReset, account, from, n) && Bounded(trace, AMatch, account, from, n)
    ensures Count(trace, AResetWithoutLogin, account, from, Later(from, n)) == 0 ==>
              Bounded(trace, ALogin, account, from, n)
  {
    hide Count, Passed, Resets, Product;
    var to := Later(from, n);
    CountedBound(LOGIN_PER_ACCOUNT, log, now, from, n);
    assert Count(trace, AGuess, account, from, to) == Passed(LOGIN_PER_ACCOUNT, log, from, to);
    assert Count(trace, AReset, account, from, to) == Resets(log, from, to);
    ResetsAndLogins(trace, account, from, to);
    var r := LOGIN_PER_ACCOUNT.requests;
    var resets := n + 1 + Resets(log, from, to);
    ProductGrows(r, resets, n + 1 + Count(trace, AMatch, account, from, to));
    if Count(trace, AResetWithoutLogin, account, from, to) == 0 {
      ProductGrows(r, resets, n + 1 + Count(trace, ALogin, account, from, to));
    }
  }

  /** The marks of a kind, counted one by one. */
  ghost function MarkedAt(trace: seq<Mark>, k: Kind, account: string, from: int, to: int): set<int> {
    set i | 0 <= i < |trace| && IsA(k, trace[i]) && trace[i].account == account && from <= trace[i].at <= to
  }

  lemma {:induction false} CountIs(trace: seq<Mark>, k: Kind, account: string, from: int, to: int)
    ensures Count(trace, k, account, from, to) == |MarkedAt(trace, k, account, from, to)|
  {
    if trace == [] {
      assert MarkedAt(trace, k, account, from, to) == {};
    } else {
      CountIs(trace[..|trace| - 1], k, account, from, to);
      MarkedMore(trace, k, account, |trace| - 1, from, to);
      hide IsA, MarkedAt;
    }
  }

  lemma MarkedMore(trace: seq<Mark>, k: Kind, account: string, n: nat, from: int, to: int)
    requires |trace| == n + 1
    ensures var here := IsA(k, trace[n]) && trace[n].account == account && from <= trace[n].at <= to;
            && MarkedAt(trace, k, account, from, to)
               == MarkedAt(trace[..n], k, account, from, to) + (if here then {n} else {})
            && n !in MarkedAt(trace[..n], k, account, from, to)
  {
    hide IsA;
  }

  /** Five passwords and quarters of an hour, spelt out. */
  lemma BoundsMean(trace: seq<Mark>, account: string, from: int, n: nat)
    requires Bounded(trace, AMatch, account, from, n)
    requires Count(trace, AResetWithoutLogin, account, from, Later(from, n)) == 0 ==>
               Bounded(trace, ALogin, account, from, n)
    ensures var to := from + 900_000 * n;
            var guesses := set i | 0 <= i < |trace| && trace[i].Guess? && trace[i].account == account
                                   && from <= trace[i].at <= to;
            var matches := set i | 0 <= i < |trace| && trace[i].Matched? && trace[i].account == account
                                   && from <= trace[i].at <= to;
            var logins := set i | i in matches && trace[i].stored;
            && |guesses| <= 5 * (n + 1 + |matches|)
            && ((forall i :: i in matches && trace[i].reset ==> trace[i].stored) ==>
                  |guesses| <= 5 * (n + 1 + |logins|))
  {
    hide Count;
    var to := Later(from, n);
    CountIs(trace, AGuess, account, from, to);
    CountIs(trace, AMatch, account, from, to);
    CountIs(trace, ALogin, account, from, to);
    CountIs(trace, AResetWithoutLogin, account, from, to);
    var guesses := set i | 0 <= i < |trace| && trace[i].Guess? && trace[i].account == account
                           && from <= trace[i].at <= to;
    var matches := set i | 0 <= i < |trace| && trace[i].Matched? && trace[i].account == account
                           && from <= trace[i].at <= to;
    var logins := set i | i in matches && trace[i].stored;
    assert guesses == MarkedAt(trace, AGuess, account, from, to);
    assert matches == MarkedAt(trace, AMatch, account, from, to);
    assert logins == MarkedAt(trace, ALogin, account, from, to);
    if forall i :: i in matches && trace[i].reset ==> trace[i].stored {
      assert MarkedAt(trace, AResetWithoutLogin, account, from, to) == {};
    }
  }

  // ---------------------------------------------------------------------
  // Resets without a login
  // ---------------------------------------------------------------------

  /** One account at one moment: so many attempts since the last reset, so many
      guesses in all, so many resets without a login, and no login. */
  ghost predicate Storm(trace: seq<Mark>, log: seq<Event>, account: string, tries: nat, guesses: nat, resets: nat) {
    && Ordered(log, 0) && Tallies(trace, account, log)
    && After(LOGIN_PER_ACCOUNT, log)
       == (if tries == 0 then Absent else Counter(tries, At(LOGIN_PER_ACCOUNT.window)))
    && Count(trace, AGuess, account, 0, 0) == guesses
    && Count(trace, AResetWithoutLogin, account, 0, 0) == resets
    && Count(trace, ALogin, account, 0, 0) == 0
  }

  lemma OneMoreTry(trace: seq<Mark>, log: seq<Event>, account: string, tries: nat, guesses: nat, resets: nat)
    requires Storm(trace, log, account, tries, guesses, resets) && tries < LOGIN_PER_ACCOUNT.requests
    ensures Storm(trace + [Guess(account, 0)], log + [Attempt(0, true)], account, tries + 1, guesses + 1, resets)
  {
    hide Tallies, Count;
    LogOne(LOGIN_PER_ACCOUNT, log, Attempt(0, true), 0);
    AttemptTallies(trace, account, log, 0, true);
    MarkedOne(trace, Guess(account, 0), AGuess, account, 0, 0);
    MarkedOne(trace, Guess(account, 0), AResetWithoutLogin, account, 0, 0);
    MarkedOne(trace, Guess(account, 0), ALogin, account, 0, 0);
  }

  lemma OneMoreReset(trace: seq<Mark>, log: seq<Event>, account: string, tries: nat, guesses: nat, resets: nat)
    requires Storm(trace, log, account, tries, guesses, resets)
    ensures Storm(trace + [Matched(account, 0, true, false)], log + [Cleared(0)], account, 0, guesses, resets + 1)
  {
    hide Tallies, Count;
    var mark := Matched(account, 0, true, false);
    LogOne(LOGIN_PER_ACCOUNT, log, Cleared(0), 0);
    MatchTallies(trace, account, log, 0, true, false);
    MarkedOne(trace, mark, AGuess, account, 0, 0);
    MarkedOne(trace, mark, AResetWithoutLogin, account, 0, 0);
    MarkedOne(trace, mark, ALogin, account, 0, 0);
  }

  /** Five passwords are tried on an account at once, the fifth matches, the
      counter is reset but no session can be created; and so on, so many times. */
  lemma {:induction false} ManyResets(account: string, resets: nat, tries: nat)
    returns (trace: seq<Mark>, log: seq<Event>)
    requires tries <= 5
    ensures Storm(trace, log, account, tries, 5 * resets + tries, resets)
    decreases resets, tries
  {
    if tries > 0 {
      trace, log := ManyResets(account, resets, tries - 1);
      OneMoreTry(trace, log, account, tries - 1, 5 * resets + tries - 1, resets);
      trace, log := trace + [Guess(account, 0)], log + [Attempt(0, true)];
    } else if resets > 0 {
      trace, log := ManyResets(account, resets - 1, 5);
      OneMoreReset(trace, log, account, 5, 5 * (resets - 1) + 5, resets - 1);
      trace, log := trace + [Matched(account, 0, true, false)], log + [Cleared(0)];
    } else {
      trace, log := [], [];
    }
  }

  /** Counted in logins, the bound holds for every interval with so many resets
      without a login exactly if there are none: one is enough to break it. */
  lemma LoginBoundExactlyWhen(account: string, resets: nat)
    ensures resets == 0 <==>
              forall trace, log, now, from, n: nat ::
                Ordered(log, now) && Tallies(trace, account, log)
                && Count(trace, AResetWithoutLogin, account, from, Later(from, n)) == resets ==>
                  Bounded(trace, ALogin, account, from, n)
  {
    hide Tallies, Count;
    if resets == 0 {
      forall trace, log, now, from, n: nat
        | Ordered(log, now) && Tallies(trace, account, log)
          && Count(trace, AResetWithoutLogin, account, from, Later(from, n)) == 0
        ensures Bounded(trace, ALogin, account, from, n)
      {
        GuessBound(trace, log, now, account, from, n);
      }
    } else {
      var trace, log := ManyResets(account, resets, 5);
      assert Later(0, 0) == 0;
      assert Ordered(log, 0) && Tallies(trace, account, log)
             && Count(trace, AResetWithoutLogin, account, 0, Later(0, 0)) == resets;
      assert !Bounded(trace, ALogin, account, 0, 0);
    }
  }

  lemma OtherIsStored(counters: map<string, Counter>, key: string, c: Counter, other: string)
    requires key != other
    ensures Stored(counters[key := c], other) == Stored(counters, other)
  {
  }

  lemma LoggedDiffers(logs: map<string, seq<Event>>, key: string, e: Event)
    ensures Logged(logs, key, e) != logs
  {
    assert |LogOf(Logged(logs, key, e), key)| == |LogOf(logs, key)| + 1;
  }

  class LoginService {
    const limiter: RateLimiter
    var pending: map<nat, string>
    var started: nat
    ghost var trace: seq<Mark>

    ghost predicate Valid()
      reads this, limiter
    {
      && limiter.Valid() && AllTally(trace, limiter.logs)
      && forall ticket :: ticket in pending ==> ticket < started
    }

    constructor (limiter: RateLimiter)
      requires limiter.Valid() && limiter.logs == map[]
      ensures Valid() && this.limiter == limiter && trace == []
    {
      this.limiter, pending, started, trace := limiter, map[], 0, [];
    }

    /** Consumes from one counter; a limiter that cannot answer refuses. */
    method Check(key: string) returns (s: Started)
      requires limiter.Valid() && LimitOf(key).window > 0
      modifies limiter
      ensures limiter.Valid() && limiter.now == old(limiter.now)
      ensures Counted(old(limiter.logs), limiter.logs, key, limiter.now, s)
      ensures limiter.failures == old(limiter.failures) + if s.LimiterDown? then 1 else 0
      ensures var hit := Hit(LimitOf(key), Stored(old(limiter.counters), key), limiter.now);
              && (limiter.counters == old(limiter.counters)[key := hit]
                  || (s.LimiterDown? && limiter.counters == old(limiter.counters)))
              && (s.Verifying? ==> hit.count <= LimitOf(key).requests)
              && (s.RateLimited? ==> hit.count > LimitOf(key).requests && hit.expiry == At(limiter.now + s.retryAfter))
      ensures s.RateLimited? ==>
                && 0 <= s.retryAfter <= LimitOf(key).window
                && After(LimitOf(key), LogOf(limiter.logs, key)).Counter?
                && After(LimitOf(key), LogOf(limiter.logs, key)).count > LimitOf(key).requests
                && After(LimitOf(key), LogOf(limiter.logs, key)).expiry == At(limiter.now + s.retryAfter)
    {
      HitMeans(limiter.counters, key, LimitOf(key), limiter.now);
      hide Hit, Stored;
      var verdict := limiter.Allow(key, LimitOf(key));
      match verdict {
        case Unavailable => return LimiterDown;
        case Denied(retryAfter) => return RateLimited(retryAfter);
        case Allowed => return Verifying;
      }
    }

    /** The checks before a password is looked at: the address first, and only
        if that passes the account. */
    method Begin(ip: string, account: string) returns (s: Started, ticket: nat)
      requires Valid()
      modifies this, limiter
      ensures Valid() && limiter.now == old(limiter.now)
      ensures if s.Verifying?
              then trace == old(trace) + [Guess(account, limiter.now)]
                   && ticket !in old(pending) && pending == old(pending)[ticket := account]
              else trace == old(trace) && pending == old(pending)
      ensures limiter.failures == old(limiter.failures) + if s.LimiterDown? then 1 else 0
      ensures var first := Hit(Limit(20, 900_000), Stored(old(limiter.counters), "login:ip:" + ip), limiter.now);
              var second := Hit(Limit(5, 900_000), Stored(old(limiter.counters), "login:account:" + account),
                                limiter.now);
              var once := old(limiter.counters)["login:ip:" + ip := first];
              var twice := once["login:account:" + account := second];
              match s
              case LimiterDown => limiter.counters in [old(limiter.counters), once, twice]
              case RateLimited(retryAfter) =>
                if first.count > 20 then limiter.counters == once && first.expiry == At(limiter.now + retryAfter)
                else limiter.counters == twice && second.count > 5 && second.expiry == At(limiter.now + retryAfter)
              case Verifying => limiter.counters == twice && first.count <= 20 && second.count <= 5
      ensures exists first, between ::
                && Counted(old(limiter.logs), between, LOGIN_IP_PREFIX + ip, limiter.now, first)
                && if first.Verifying?
                   then Counted(between, limiter.logs, LOGIN_ACCOUNT_PREFIX + account, limiter.now, s)
                   else s == first && limiter.logs == between
    {
      hide AllTally, Counted, Hit, Stored, LimitOf, LogOf;
      ghost var logs := limiter.logs;
      ticket := started;
      KeysAreApart(account, ip);
      OtherIsStored(limiter.counters, LOGIN_IP_PREFIX + ip,
                    Hit(LOGIN_PER_IP, Stored(limiter.counters, LOGIN_IP_PREFIX + ip), limiter.now),
                    LOGIN_ACCOUNT_PREFIX + account);
      s := Check(LOGIN_IP_PREFIX + ip);
      ghost var first, between := s, limiter.logs;
      OtherKeyCounted(trace, logs, between, LOGIN_IP_PREFIX + ip, limiter.now, s) by { AddressKeysAreApart(ip); }
      if !s.Verifying? {
        return;
      }
      s := Check(LOGIN_ACCOUNT_PREFIX + account);
      AccountCounted(trace, between, limiter.logs, account, limiter.now, s);
      if !s.Verifying? {
        return;
      }
      trace := trace + [Guess(account, limiter.now)];
      pending, started := pending[ticket := account], started + 1;
    }

    /** The outcome of a verification that had begun. A matching password clears
        the account's counter; if that fails, the login goes on nevertheless.
        Then the session is created, and if that fails so does the login, though
        the counter is cleared. */
    method Finish(ticket: nat, outcome: Outcome) returns (r: Result)
      requires Valid() && ticket in pending
      modifies this, limiter
      ensures Valid() && limiter.now == old(limiter.now)
      ensures pending == old(pending) - {ticket}
      ensures r.LoggedIn? <==> outcome.Match? && outcome.stored
      ensures r.NotStored? <==> outcome.Match? && !outcome.stored
      ensures r.LookupFailed? <==> outcome.StoreError?
      ensures !outcome.Match? ==>
                trace == old(trace) && limiter.logs == old(limiter.logs) && limiter.counters == old(limiter.counters)
      ensures outcome.Match? ==>
                var account := old(pending)[ticket];
                exists reset ::
                  && (limiter.failures == old(limiter.failures) ==> reset)
                  && trace == old(trace) + [Matched(account, limiter.now, reset, outcome.stored)]
                  && limiter.counters == (if reset then old(limiter.counters) - {"login:account:" + account}
                                          else old(limiter.counters))
                  && limiter.logs == (if reset then Logged(old(limiter.logs), LOGIN_ACCOUNT_PREFIX + account,
                                                           Cleared(limiter.now))
                                      else old(limiter.logs))
    {
      hide AllTally, Logged;
      var account := pending[ticket];
      pending := pending - {ticket};
      match outcome {
        case StoreError => return LookupFailed;
        case UnknownUser | Disabled | UnusableHash | Mismatch => return InvalidCredentials;
        case Match(stored) =>
          MatchIsTallied(trace, limiter.logs, account, limiter.now, true, stored);
          MatchIsTallied(trace, limiter.logs, account, limiter.now, false, stored);
          ghost var before := limiter.logs;
          var _ := limiter.Reset(LOGIN_ACCOUNT_PREFIX + account);
          ghost var after := Logged(before, LOGIN_ACCOUNT_PREFIX + account, Cleared(limiter.now));
          LoggedDiffers(before, LOGIN_ACCOUNT_PREFIX + account, Cleared(limiter.now));
          trace := trace + [Matched(account, limiter.now, limiter.logs == after, stored)];
          return if stored then LoggedIn else NotStored;
      }
    }

    /** The other endpoints that consume from the limiter, by address. */
    method Elsewhere(register: bool, ip: string) returns (s: Started)
      requires Valid()
      modifies limiter
      ensures Valid() && limiter.now == old(limiter.now)
      ensures Counted(old(limiter.logs), limiter.logs,
                      (if register then REGISTER_IP_PREFIX else PASSWORD_IP_PREFIX) + ip, limiter.now, s)
      ensures var key := (if register then "register:ip:" else "password:ip:") + ip;
              var quota := if register then 5 else 10;
              var hit := Hit(Limit(quota, 3_600_000), Stored(old(limiter.counters), key), limiter.now);
              && (limiter.counters == old(limiter.counters)[key := hit]
                  || (s.LimiterDown? && limiter.counters == old(limiter.counters)))
              && (s.Verifying? ==> hit.count <= quota)
              && (s.RateLimited? ==> hit.count > quota && hit.expiry == At(limiter.now + s.retryAfter))
      ensures limiter.failures == old(limiter.failures) + if s.LimiterDown? then 1 else 0
    {
      hide AllTally, Counted, Hit, Stored;
      var key := (if register then REGISTER_IP_PREFIX else PASSWORD_IP_PREFIX) + ip;
      ghost var logs := limiter.logs;
      KeysAreApart("", ip);
      s := Check(key);
      OtherKeyCounted(trace, logs, limiter.logs, key, limiter.now, s) by { AddressKeysAreApart(ip); }
    }

    method Wait(pause: nat)
      requires Valid()
      modifies limiter
      ensures Valid() && limiter.now == old(limiter.now) + pause
    {
      limiter.Tick(pause);
    }

    /** However logins of any accounts from any addresses, other limited calls
        and the clock interleave, and whatever fails. */
    method Run(steps: seq<Step>)
      requires Valid()
      modifies this, limiter
      ensures Valid()
      ensures forall account: string, from, n: nat ::
                && Bounded(trace, AMatch, account, from, n)
                && (Count(trace, AResetWithoutLogin, account, from, Later(from, n)) == 0 ==>
                      Bounded(trace, ALogin, account, from, n))
    {
      for i := 0 to |steps|
        invariant Valid()
      {
        match steps[i] {
          case BeginStep(ip, account) => var _, _ := Begin(ip, account);
          case FinishStep(ticket, outcome) =>
            if ticket in pending {
              var _ := Finish(ticket, outcome);
            }
          case ElsewhereStep(register, ip) => var _ := Elsewhere(register, ip);
          case WaitStep(pause) => Wait(pause);
        }
      }
      forall account: string, from, n: nat
        ensures Bounded(trace, AMatch, account, from, n)
        ensures Count(trace, AResetWithoutLogin, account, from, Later(from, n)) == 0 ==>
                  Bounded(trace, ALogin, account, from, n)
      {
        GuessesAreBounded(account, from, n);
      }
    }

    lemma GuessesAreBounded(account: string, from: int, n: nat)
      requires Valid()
      ensures Bounded(trace, AMatch, account, from, n)
      ensures Count(trace, AResetWithoutLogin, account, from, Later(from, n)) == 0 ==>
                Bounded(trace, ALogin, account, from, n)
    {
      var log := LogOf(limiter.logs, LOGIN_ACCOUNT_PREFIX + account);
      assert Tallies(trace, account, log);
      assert Ordered(log, limiter.now) by { assert Told(limiter.counters, limiter.logs, limiter.now); }
      GuessBound(trace, log, limiter.now, account, from, n);
    }

    /** At any moment of any run: in any n quarters of an hour at most five
        passwords are tried on an account for each of them, five more, and five
        more for every password that matched, or every login if no reset went
        with a login for which no session could be created. */
    lemma GuessesAreFew(account: string, from: int, n: nat)
      requires Valid()
      ensures var to := from + 900_000 * n;
              var guesses := set i | 0 <= i < |trace| && trace[i].Guess? && trace[i].account == account
                                     && from <= trace[i].at <= to;
              var matches := set i | 0 <= i < |trace| && trace[i].Matched? && trace[i].account == account
                                     && from <= trace[i].at <= to;
              var logins := set i | i in matches && trace[i].stored;
              && |guesses| <= 5 * (n + 1 + |matches|)
              && ((forall i :: i in matches && trace[i].reset ==> trace[i].stored) ==>
                    |guesses| <= 5 * (n + 1 + |logins|))
    {
      GuessesAreBounded(account, from, n);
      BoundsMean(trace, account, from, n);
    }
  }

  datatype Step =
    | BeginStep(ip: string, account: string)
    | FinishStep(ticket: nat, outcome: Outcome)
    | ElsewhereStep(register: bool, ip: string)
    | WaitStep(pause: nat)
}
