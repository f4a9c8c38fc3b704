/** The rate limiter (internal/auth/ratelimit.go) over its counters in Redis. */
module RateLimit {
  import opened Redis
  import opened FixedWindow

  const LOGIN_PER_ACCOUNT := Limit(5, 15 * 60_000)
  const LOGIN_PER_IP := Limit(20, 15 * 60_000)
  const REGISTER_PER_IP := Limit(5, 60 * 60_000)
  const PASSWORD_CHANGE_IP := Limit(10, 60 * 60_000)

  const LOGIN_IP_PREFIX := "login:ip:"
  const LOGIN_ACCOUNT_PREFIX := "login:account:"
  const REGISTER_IP_PREFIX := "register:ip:"
  const PASSWORD_IP_PREFIX := "password:ip:"

  datatype Verdict = Allowed | Denied(retryAfter: int) | Unavailable

  /** The quota a key is always counted against. */
  function LimitOf(key: string): Limit {
    if LOGIN_ACCOUNT_PREFIX <= key then LOGIN_PER_ACCOUNT
    else if LOGIN_IP_PREFIX <= key then LOGIN_PER_IP
    else if REGISTER_IP_PREFIX <= key then REGISTER_PER_IP
    else PASSWORD_CHANGE_IP
  }

  /** No address, however chosen, makes a key that counts for an account. */
  lemma KeysAreApart(email: string, ip: string)
    ensures LimitOf(LOGIN_ACCOUNT_PREFIX + email) == LOGIN_PER_ACCOUNT
    ensures LimitOf(LOGIN_IP_PREFIX + ip) == LOGIN_PER_IP
    ensures LimitOf(REGISTER_IP_PREFIX + ip) == REGISTER_PER_IP
    ensures LimitOf(PASSWORD_IP_PREFIX + ip) == PASSWORD_CHANGE_IP
    ensures LOGIN_ACCOUNT_PREFIX + email != LOGIN_IP_PREFIX + ip
    ensures LOGIN_ACCOUNT_PREFIX + email != REGISTER_IP_PREFIX + ip
    ensures LOGIN_ACCOUNT_PREFIX + email != PASSWORD_IP_PREFIX + ip
  {
    assert (LOGIN_ACCOUNT_PREFIX + email)[6] == 'a';
    assert (LOGIN_IP_PREFIX + ip)[6] == 'i';
    assert (LOGIN_ACCOUNT_PREFIX + email)[0] == 'l' && (LOGIN_IP_PREFIX + ip)[0] == 'l';
    assert (REGISTER_IP_PREFIX + ip)[0] == 'r' && (PASSWORD_IP_PREFIX + ip)[0] == 'p';
  }

  lemma AccountKeysAreApart(email: string, other: string)
    ensures LOGIN_ACCOUNT_PREFIX + email == LOGIN_ACCOUNT_PREFIX + other ==> email == other
  {
    var n := |LOGIN_ACCOUNT_PREFIX|;
    assert (LOGIN_ACCOUNT_PREFIX + email)[n..] == email;
    assert (LOGIN_ACCOUNT_PREFIX + other)[n..] == other;
  }

  function Stored(counters: map<string, Counter>, key: string): Counter {
    if key in counters then counters[key] else Absent
  }

  lemma HitMeans(counters: map<string, Counter>, key: string, limit: Limit, now: int)
    ensures var c := if key in counters then counters[key] else Absent;
            Hit(limit, Stored(counters, key), now)
            == if c.Counter? && (c.expiry.Never? || now <= c.expiry.when) then Counter(c.count + 1, c.expiry)
               else Counter(1, At(now + limit.window))
    ensures Hit(Limit(0, limit.window), Stored(counters, key), now) == Hit(limit, Stored(counters, key), now)
  {
  }

  ghost function LogOf(logs: map<string, seq<Event>>, key: string): seq<Event> {
    if key in logs then logs[key] else []
  }

  ghost function Logged(logs: map<string, seq<Event>>, key: string, e: Event): map<string, seq<Event>> {
    logs[key := LogOf(logs, key) + [e]]
  }

  /** Every counter is what its attempts and resets made it. */
  ghost predicate Told(counters: map<string, Counter>, logs: map<string, seq<Event>>, now: int) {
    forall key :: Stored(counters, key) == After(LimitOf(key), LogOf(logs, key)) && Ordered(LogOf(logs, key), now)
  }

  lemma LogOne(l: Limit, log: seq<Event>, e: Event, now: int)
    requires Ordered(log, now) && e.at == now
    ensures Ordered(log + [e], now)
    ensures After(l, log + [e]) == if e.Cleared? then Absent else Hit(l, After(l, log), now)
  {
    assert (log + [e])[..|log|] == log;
  }

  lemma ToldOne(counters: map<string, Counter>, logs: map<string, seq<Event>>, now: int, key: string, e: Event,
                after: map<string, Counter>)
    requires Told(counters, logs, now) && e.at == now
    requires forall k :: k != key ==> Stored(after, k) == Stored(counters, k)
    requires Stored(after, key) == if e.Cleared? then Absent else Hit(LimitOf(key), Stored(counters, key), now)
    ensures Told(after, Logged(logs, key, e), now)
  {
    LogOne(LimitOf(key), LogOf(logs, key), e, now);
    var more := Logged(logs, key, e);
    forall k ensures Stored(after, k) == After(LimitOf(k), LogOf(more, k)) && Ordered(LogOf(more, k), now) {
      if k != key {
        assert LogOf(more, k) == LogOf(logs, k);
      }
    }
  }

  lemma ToldLater(counters: map<string, Counter>, logs: map<string, seq<Event>>, now: int, later: int)
    requires Told(counters, logs, now) && now <= later
    ensures Told(counters, logs, later)
  {
    forall k ensures Ordered(LogOf(logs, k), later) {
      assert Ordered(LogOf(logs, k), now);
    }
  }

  lemma CounterIsSane(counters: map<string, Counter>, logs: map<string, seq<Event>>, now: int, key: string)
    requires Told(counters, logs, now) && LimitOf(key).window > 0
    ensures var c := Stored(counters, key);
            && c == After(LimitOf(key), LogOf(logs, key))
            && (c.Counter? ==> c.count >= 1 && c.expiry.At? && c.expiry.when <= now + LimitOf(key).window)
  {
    AlwaysExpires(LimitOf(key), LogOf(logs, key), now);
  }

  lemma LastOf(logs: map<string, seq<Event>>, key: string, e: Event)
    ensures var log := LogOf(Logged(logs, key, e), key);
            log == LogOf(logs, key) + [e] && log[|log| - 1] == e
  {
  }

  class RateLimiter {
    var now: int
    var counters: map<string, Counter>
    ghost var logs: map<string, seq<Event>>
    ghost var failures: nat  // how many commands failed

    ghost predicate Valid()
      reads this
    {
      Told(counters, logs, now)
    }

    constructor (now: int)
      ensures Valid() && logs == map[] && this.now == now
    {
      counters, logs, failures, this.now := map[], map[], 0, now;
    }

    /** Counts a hit and, for the first of a window, sets the window's end, in
        one atomic script; answers with the count and the time to live. */
    method IncrementAndExpire(key: string, window: int) returns (count: nat, ttl: int)
      requires window > 0 && (Stored(counters, key).Counter? ==> Stored(counters, key).count >= 1)
      modifies `counters
      ensures forall k :: k != key ==> Stored(counters, k) == Stored(old(counters), k)
      ensures counters == old(counters)[key := Stored(counters, key)]
      ensures Stored(counters, key) == Hit(Limit(0, window), Stored(old(counters), key), now)
      ensures Stored(counters, key).Counter? && count == Stored(counters, key).count
      ensures ttl == if Stored(counters, key).expiry.At? then Stored(counters, key).expiry.when - now else -1
    {
      var c := Stored(counters, key);
      if Current(c, now) {
        c := c.(count := c.count + 1);
      } else {
        c := Counter(1, Never);
      }
      if c.count == 1 {
        c := c.(expiry := At(now + window));
      }
      counters := counters[key := c];
      count, ttl := c.count, if c.expiry.At? then c.expiry.when - now else -1;
    }

    /** Records an attempt and reports whether it is within quota and, if not,
        how long to wait. The script may fail, with or without effect. */
    method Allow(key: string, limit: Limit) returns (v: Verdict)
      requires Valid() && limit == LimitOf(key) && limit.window > 0
      modifies this
      ensures Valid() && now == old(now)
      ensures failures == old(failures) + if v.Unavailable? then 1 else 0
      ensures var c := if key in old(counters) then old(counters)[key] else Absent;
              var open := c.Counter? && (c.expiry.Never? || now <= c.expiry.when);
              var hit := if open then Counter(c.count + 1, c.expiry) else Counter(1, At(now + limit.window));
              && ((v.Unavailable? && counters == old(counters)) || counters == old(counters)[key := hit])
              && (v.Allowed? ==> hit.count <= limit.requests)
              && (v.Denied? ==> hit.count > limit.requests && hit.expiry == At(now + v.retryAfter))
      ensures !v.Unavailable? ==> logs == Logged(old(logs), key, Attempt(now, true))
      ensures v.Unavailable? ==> logs == old(logs) || logs == Logged(old(logs), key, Attempt(now, false))
      ensures v.Allowed? ==> Passes(limit, LogOf(logs, key))
      ensures v.Denied? ==>
                && !Passes(limit, LogOf(logs, key))
                && After(limit, LogOf(logs, key)).Counter? && After(limit, LogOf(logs, key)).count > limit.requests
                && After(limit, LogOf(logs, key)).expiry == At(now + v.retryAfter)
                && 0 <= v.retryAfter <= limit.window
    {
      hide Told, FixedWindow.After, Logged;
      var failed, took := Attempted();
      if failed && !took {
        return Unavailable;
      }
      ghost var before := counters;
      CounterIsSane(counters, logs, now, key);
      HitMeans(counters, key, limit, now);
      var count, ttl := IncrementAndExpire(key, limit.window);
      ToldOne(before, logs, now, key, Attempt(now, !failed), counters);
      logs := Logged(logs, key, Attempt(now, !failed));
      CounterIsSane(counters, logs, now, key);
      LastOf(old(logs), key, Attempt(now, !failed));
      if failed {
        return Unavailable;
      }
      if count > limit.requests {
        return Denied(if ttl < 0 then limit.window else ttl);
      }
      return Allowed;
    }

    /** A command goes to Redis: it may fail, and may have taken effect then. */
    method Attempted() returns (failed: bool, took: bool)
      modifies `failures
      ensures failures == old(failures) + if failed then 1 else 0
    {
      failed, took := *, *;
      failures := failures + if failed then 1 else 0;
    }

    /** Clears a counter. It may fail, with or without effect. */
    method Reset(key: string) returns (ok: bool)
      requires Valid()
      modifies this
      ensures Valid() && now == old(now)
      ensures failures == old(failures) + if ok then 0 else 1
      ensures || (logs == Logged(old(logs), key, Cleared(now)) && counters == old(counters) - {key})
              || (!ok && logs == old(logs) && counters == old(counters))
    {
      hide Told;
      var failed, took := Attempted();
      if failed && !took {
        return false;
      }
      ToldOne(counters, logs, now, key, Cleared(now), counters - {key});
      counters := counters - {key};
      logs := Logged(logs, key, Cleared(now));
      return !failed;
    }

    method Tick(pause: nat)
      requires Valid()
      modifies `now
      ensures Valid() && now == old(now) + pause
    {
      ToldLater(counters, logs, now, now + pause);
      now := now + pause;
    }
  }
}
