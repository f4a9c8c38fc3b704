/** The message budget of one connection (internal/signaling/ratelimit.go).
    Times are in seconds; float rounding is not modelled. */
module TokenBuckets {

  const MESSAGE_BURST := 120.0
  const MESSAGES_PER_SECOND := 60.0

  datatype Level = Level(tokens: real, last: real)

  /** The tokens that accrue in some time. */
  function Credit(rate: real, elapsed: real): real {
    elapsed * rate
  }

  lemma CreditAdds(rate: real, a: real, b: real)
    ensures Credit(rate, a + b) == Credit(rate, a) + Credit(rate, b)
  {
  }

  lemma CreditGrows(rate: real, elapsed: real)
    requires rate >= 0.0 && elapsed >= 0.0
    ensures Credit(rate, elapsed) >= 0.0 && Credit(rate, 0.0) == 0.0
  {
  }

  lemma CreditIs(rate: real, elapsed: real)
    ensures Credit(rate, elapsed) == rate * elapsed
  {
  }

  /** Once this much time has passed, the credit makes up for what is missing. */
  lemma LongEnough(rate: real, missing: real, elapsed: real)
    requires rate > 0.0 && elapsed >= missing / rate
    ensures rate * elapsed >= missing
  {
    assert rate * (missing / rate) == missing;
    ProductGrows(rate, missing / rate, elapsed);
  }

  lemma ProductGrows(rate: real, a: real, b: real)
    requires rate > 0.0 && a <= b
    ensures rate * a <= rate * b
  {
  }

  /** The bucket once time has been credited up to `now`. A clock that steps
      back credits nothing. */
  function Accrue(capacity: real, rate: real, b: Level, now: real): Level {
    if now > b.last then
      var tokens := b.tokens + Credit(rate, now - b.last);
      Level(if tokens > capacity then capacity else tokens, now)
    else
      b
  }

  function Spend(b: Level): (Level, bool) {
    if b.tokens < 1.0 then (b, false) else (b.(tokens := b.tokens - 1.0), true)
  }

  class TokenBucket {
    var tokens: real
    var last: real
    const capacity: real
    const rate: real

    constructor (capacity: real, rate: real, now: real)
      ensures Contents() == Level(capacity, now) && this.capacity == capacity && this.rate == rate
    {
      tokens, last, this.capacity, this.rate := capacity, now, capacity, rate;
    }

    function Contents(): Level
      reads this
    {
      Level(tokens, last)
    }

    /** Consumes one token, or reports that the budget is exhausted. */
    method Allow(now: real) returns (ok: bool)
      modifies this
      ensures (Contents(), ok) == Spend(Accrue(capacity, rate, old(Contents()), now))
      ensures last == if now > old(last) then now else old(last)
      ensures var credited := old(tokens) + rate * (last - old(last));
              var full := if last > old(last) && credited > capacity then capacity else credited;
              ok == (full >= 1.0) && tokens == if ok then full - 1.0 else full
      ensures rate > 0.0 && capacity >= 1.0 && now > old(last) && now - old(last) >= (1.0 - old(tokens)) / rate ==> ok
    {
      CreditIs(rate, now - last);
      if rate > 0.0 && now - last >= (1.0 - tokens) / rate {
        LongEnough(rate, 1.0 - tokens, now - last);
      }
      var elapsed := now - last;
      if elapsed > 0.0 {
        tokens := tokens + Credit(rate, elapsed);
        if tokens > capacity {
          tokens := capacity;
        }
        last := now;
      }
      assert Contents() == Accrue(capacity, rate, old(Contents()), now);
      if tokens < 1.0 {
        return false;
      }
      tokens := tokens - 1.0;
      return true;
    }
  }

  /** The bucket after calls at these times. */
  ghost function After(capacity: real, rate: real, b: Level, times: seq<real>): Level {
    if times == [] then b
    else
      var before := After(capacity, rate, b, times[..|times| - 1]);
      Spend(Accrue(capacity, rate, before, times[|times| - 1])).0
  }

  ghost predicate Allowed(capacity: real, rate: real, b: Level, times: seq<real>, j: nat)
    requires j < |times|
  {
    Spend(Accrue(capacity, rate, After(capacity, rate, b, times[..j]), times[j])).1
  }

  // ---------------------------------------------------------------------
  // What the budget means
  // ---------------------------------------------------------------------

  ghost predicate Ordered(start: real, times: seq<real>) {
    forall i, j :: 0 <= i <= j < |times| ==> start <= times[i] <= times[j]
  }

  /** The messages i to j are more than the burst and the refill in between. */
  ghost predicate Flood(capacity: real, rate: real, times: seq<real>, i: nat, j: nat)
    requires i <= j < |times|
  {
    (j - i + 1) as real > capacity + rate * (times[j] - times[i])
  }

  /** Some stretch of messages that ends with j is a flood. */
  ghost predicate Overflows(capacity: real, rate: real, times: seq<real>, j: nat)
    requires j < |times|
  {
    exists i :: 0 <= i <= j && Flood(capacity, rate, times, i, j)
  }

  /** The room left by the stretch that starts at i, just before message j. */
  ghost function Slack(capacity: real, rate: real, times: seq<real>, i: nat, j: nat): real
    requires i <= j < |times|
  {
    capacity + rate * (times[j] - times[i]) - (j - i) as real
  }

  lemma SlackNext(capacity: real, rate: real, times: seq<real>, i: nat, j: nat)
    requires i <= j && j + 1 < |times|
    ensures Slack(capacity, rate, times, i, j + 1)
         == Slack(capacity, rate, times, i, j) - 1.0 + Credit(rate, times[j + 1] - times[j])
  {
    CreditAdds(rate, times[j] - times[i], times[j + 1] - times[j]);
    CreditIs(rate, times[j] - times[i]);
    CreditIs(rate, times[j + 1] - times[i]);
  }

  /** While every message was allowed, the counter is the smallest slack over
      all stretches that end here. */
  lemma {:induction false} CounterIsLeastSlack(capacity: real, rate: real, start: real, times: seq<real>, j: nat)
    requires Ordered(start, times) && rate >= 0.0 && j < |times|
    requires forall k :: 0 <= k < j ==> Allowed(capacity, rate, Level(capacity, start), times, k)
    ensures var b := Accrue(capacity, rate, After(capacity, rate, Level(capacity, start), times[..j]), times[j]);
            && b.last == times[j]
            && (forall i :: 0 <= i <= j ==> b.tokens <= Slack(capacity, rate, times, i, j))
            && (exists i :: 0 <= i <= j && b.tokens == Slack(capacity, rate, times, i, j))
    decreases j
  {
    hide Credit;
    CreditGrows(rate, 0.0);
    var full := Level(capacity, start);
    var b := Accrue(capacity, rate, After(capacity, rate, full, times[..j]), times[j]);
    assert Slack(capacity, rate, times, j, j) == capacity;
    if j == 0 {
      assert times[..0] == [];
      CreditGrows(rate, times[0] - start);
      assert b.tokens == capacity;
    } else {
      CounterIsLeastSlack(capacity, rate, start, times, j - 1);
      var was := Accrue(capacity, rate, After(capacity, rate, full, times[..j - 1]), times[j - 1]);
      assert times[..j][..j - 1] == times[..j - 1];
      assert Allowed(capacity, rate, full, times, j - 1);
      assert was.tokens <= Slack(capacity, rate, times, j - 1, j - 1) == capacity;
      CounterNext(capacity, rate, was, times[j], b);
      LeastNext(capacity, rate, times, j - 1, j, was.tokens, b.tokens);
    }
  }

  lemma LeastNext(capacity: real, rate: real, times: seq<real>, j: nat, next: nat, was: real, now: real)
    requires next == j + 1 < |times|
    requires forall i :: 0 <= i <= j ==> was <= Slack(capacity, rate, times, i, j)
    requires exists i :: 0 <= i <= j && was == Slack(capacity, rate, times, i, j)
    requires Slack(capacity, rate, times, next, next) == capacity
    requires var credited := was - 1.0 + Credit(rate, times[next] - times[j]);
             now == if credited > capacity then capacity else credited
    ensures forall i :: 0 <= i <= next ==> now <= Slack(capacity, rate, times, i, next)
    ensures exists i :: 0 <= i <= next && now == Slack(capacity, rate, times, i, next)
  {
    hide Credit, Slack;
    forall i | 0 <= i <= next ensures now <= Slack(capacity, rate, times, i, next) {
      if i <= j {
        SlackNext(capacity, rate, times, i, j);
      }
    }
    var i :| 0 <= i <= j && was == Slack(capacity, rate, times, i, j);
    SlackNext(capacity, rate, times, i, j);
    assert now == Slack(capacity, rate, times, if now == capacity then next else i, next);
  }

  lemma CounterNext(capacity: real, rate: real, was: Level, now: real, b: Level)
    requires was.tokens >= 1.0 && was.last <= now && rate >= 0.0 && was.tokens <= capacity
    requires b == Accrue(capacity, rate, was.(tokens := was.tokens - 1.0), now)
    ensures b.last == now
    ensures var credited := was.tokens - 1.0 + Credit(rate, now - was.last);
            b.tokens == if credited > capacity then capacity else credited
  {
    CreditGrows(rate, now - was.last);
  }

  /** The lazily refilled counter refuses message j, having refused none before,
      exactly if j is the first message that ends a flood. */
  lemma {:induction false} BudgetMeansNoFlood(capacity: real, rate: real, start: real, times: seq<real>, j: nat)
    requires Ordered(start, times) && rate >= 0.0 && j < |times|
    ensures (forall k :: 0 <= k <= j ==> Allowed(capacity, rate, Level(capacity, start), times, k))
       <==> (forall k :: 0 <= k <= j ==> !Overflows(capacity, rate, times, k))
    ensures ((forall k :: 0 <= k < j ==> Allowed(capacity, rate, Level(capacity, start), times, k))
             && !Allowed(capacity, rate, Level(capacity, start), times, j))
       <==> (Overflows(capacity, rate, times, j) && forall k :: 0 <= k < j ==> !Overflows(capacity, rate, times, k))
    decreases j
  {
    var full := Level(capacity, start);
    if j > 0 {
      BudgetMeansNoFlood(capacity, rate, start, times, j - 1);
    }
    if forall k :: 0 <= k < j ==> Allowed(capacity, rate, full, times, k) {
      CounterIsLeastSlack(capacity, rate, start, times, j);
      var b := Accrue(capacity, rate, After(capacity, rate, full, times[..j]), times[j]);
      if b.tokens < 1.0 {
        var i :| 0 <= i <= j && b.tokens == Slack(capacity, rate, times, i, j);
        assert Flood(capacity, rate, times, i, j);
      } else {
        forall i | 0 <= i <= j ensures !Flood(capacity, rate, times, i, j) {
          assert b.tokens <= Slack(capacity, rate, times, i, j);
        }
      }
      assert Allowed(capacity, rate, full, times, j) <==> !Overflows(capacity, rate, times, j);
    }
  }

  // ---------------------------------------------------------------------
  // Any clock
  // ---------------------------------------------------------------------

  ghost function CountAllowed(capacity: real, rate: real, b: Level, times: seq<real>): nat {
    if times == [] then 0
    else
      var n := |times| - 1;
      CountAllowed(capacity, rate, b, times[..n]) + if Allowed(capacity, rate, b, times, n) then 1 else 0
  }

  ghost function AllowedAt(capacity: real, rate: real, b: Level, times: seq<real>): set<int> {
    set k | 0 <= k < |times| && Allowed(capacity, rate, b, times, k)
  }

  lemma AllowedMore(capacity: real, rate: real, b: Level, times: seq<real>, n: nat)
    requires |times| == n + 1
    ensures AllowedAt(capacity, rate, b, times)
         == AllowedAt(capacity, rate, b, times[..n]) + if Allowed(capacity, rate, b, times, n) then {n} else {}
    ensures n !in AllowedAt(capacity, rate, b, times[..n])
  {
    hide Allowed;
    forall k | 0 <= k < n
      ensures Allowed(capacity, rate, b, times[..n], k) <==> Allowed(capacity, rate, b, times, k)
    {
      AllowedInPrefix(capacity, rate, b, times, n, k);
    }
  }

  lemma {:induction false} CountIs(capacity: real, rate: real, b: Level, times: seq<real>)
    ensures CountAllowed(capacity, rate, b, times) == |AllowedAt(capacity, rate, b, times)|
  {
    if times != [] {
      hide Allowed, AllowedAt;
      CountIs(capacity, rate, b, times[..|times| - 1]);
      AllowedMore(capacity, rate, b, times, |times| - 1);
    } else {
      assert AllowedAt(capacity, rate, b, times) == {};
    }
  }

  lemma AllowedInPrefix(capacity: real, rate: real, b: Level, times: seq<real>, n: nat, k: nat)
    requires k < n <= |times|
    ensures Allowed(capacity, rate, b, times[..n], k) <==> Allowed(capacity, rate, b, times, k)
  {
    assert times[..n][..k] == times[..k];
  }

  ghost function Latest(start: real, times: seq<real>): real {
    if times == [] then start
    else
      var before, now := Latest(start, times[..|times| - 1]), times[|times| - 1];
      if now > before then now else before
  }

  /** Over any stretch of calls, under a clock that may step back, no more is
      allowed than the burst and the refill for the time by which the clock has
      passed everything it had shown before; and the counter stays in range. */
  lemma BoundUnderAnyClock(capacity: real, rate: real, b: Level, times: seq<real>)
    requires rate >= 0.0 && 0.0 <= b.tokens <= capacity
    ensures var after := After(capacity, rate, b, times);
            && 0.0 <= after.tokens <= capacity
            && after.last == Latest(b.last, times) && b.last <= after.last
    ensures |set k | 0 <= k < |times| && Allowed(capacity, rate, b, times, k)| as real
         <= capacity + rate * (Latest(b.last, times) - b.last)
  {
    hide Credit, After, CountAllowed, Allowed, Latest;
    CountedAtMost(capacity, rate, b, times);
    CountIs(capacity, rate, b, times);
    CreditIs(rate, Latest(b.last, times) - b.last);
  }

  lemma {:induction false} CountedAtMost(capacity: real, rate: real, b: Level, times: seq<real>)
    requires rate >= 0.0 && 0.0 <= b.tokens <= capacity
    ensures var after := After(capacity, rate, b, times);
            && 0.0 <= after.tokens <= capacity
            && after.last == Latest(b.last, times) && b.last <= after.last
            && CountAllowed(capacity, rate, b, times) as real + after.tokens
               <= b.tokens + Credit(rate, after.last - b.last)
  {
    hide Credit, Accrue;
    CreditGrows(rate, 0.0);
    if times != [] {
      var n := |times| - 1;
      CountedAtMost(capacity, rate, b, times[..n]);
      var before := After(capacity, rate, b, times[..n]);
      AccrueAtMost(capacity, rate, before, times[n]);
      var after := After(capacity, rate, b, times);
      CreditAdds(rate, before.last - b.last, after.last - before.last);
    }
  }

  lemma AccrueAtMost(capacity: real, rate: real, b: Level, now: real)
    requires rate >= 0.0 && 0.0 <= b.tokens <= capacity
    ensures var after := Accrue(capacity, rate, b, now);
            && 0.0 <= after.tokens <= capacity
            && b.last <= after.last == (if now > b.last then now else b.last)
            && after.tokens <= b.tokens + Credit(rate, after.last - b.last)
  {
    hide Credit;
    CreditGrows(rate, if now > b.last then now - b.last else 0.0);
  }

  lemma {:induction false} AfterConcat(capacity: real, rate: real, b: Level, first: seq<real>, rest: seq<real>)
    ensures After(capacity, rate, b, first + rest) == After(capacity, rate, After(capacity, rate, b, first), rest)
  {
    if rest == [] {
      assert first + rest == first;
    } else {
      var n := |rest| - 1;
      assert (first + rest)[..|first + rest| - 1] == first + rest[..n];
      AfterConcat(capacity, rate, b, first, rest[..n]);
    }
  }

  /** The same for any stretch in the middle of a connection's life. */
  lemma BoundOverAnyStretch(capacity: real, rate: real, start: real, before: seq<real>, times: seq<real>)
    requires rate >= 0.0 && capacity >= 0.0
    ensures var b := After(capacity, rate, Level(capacity, start), before);
            |set k | 0 <= k < |times| && Allowed(capacity, rate, b, times, k)| as real
            <= capacity + rate * (Latest(start, before + times) - Latest(start, before))
  {
    hide Credit, After, CountAllowed, Allowed, Latest;
    BoundUnderAnyClock(capacity, rate, Level(capacity, start), before);
    BoundUnderAnyClock(capacity, rate, After(capacity, rate, Level(capacity, start), before), times);
    LatestConcat(start, before, times);
  }

  lemma {:induction false} LatestConcat(start: real, before: seq<real>, times: seq<real>)
    ensures Latest(start, before + times) == Latest(Latest(start, before), times)
  {
    if times == [] {
      assert before + times == before;
    } else {
      var n := |times| - 1;
      assert (before + times)[..|before + times| - 1] == before + times[..n];
      LatestConcat(start, before, times[..n]);
    }
  }
}
