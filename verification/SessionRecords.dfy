/** Stored sessions and their life under a sliding window capped by an absolute
    one (internal/auth/sessions.go). Times are in milliseconds. */
module SessionRecords {
  import opened Redis

  const TOUCH_GRANULARITY := 60_000

  datatype Session = Session(userID: string, createdAt: int, expiresAt: int, lastSeenAt: int)

  datatype Stored = Stored(session: Session, expiry: Expiry)

  /** The two configured windows. */
  datatype Windows = Windows(idle: int, absolute: int)

  predicate Positive(w: Windows) {
    0 < w.idle <= w.absolute
  }

  /** Never lets the idle window outlive the absolute expiry. */
  function TtlFor(w: Windows, s: Session, now: int): int {
    var remaining := s.expiresAt - now;
    if remaining < w.idle then remaining else w.idle
  }

  /** What storing a session now leaves behind: a time to live that is not
      positive stores a key without any expiry. */
  function Put(w: Windows, s: Session, now: int): Stored {
    var ttl := TtlFor(w, s, now);
    Stored(s, if ttl > 0 then At(now + ttl) else Never)
  }

  /** A session that lookup resolves and does not reject. */
  predicate Accepts(r: Stored, now: int) {
    Live(r.expiry, now) && now <= r.session.expiresAt
  }

  predicate IsFresh(r: Stored, now: int) {
    now - r.session.lastSeenAt < TOUCH_GRANULARITY
  }

  function Touched(w: Windows, r: Stored, now: int): Stored {
    if IsFresh(r, now) then r else Put(w, r.session.(lastSeenAt := now), now)
  }

  function Born(w: Windows, userID: string, now: int): Stored {
    Put(w, Session(userID, now, now + w.absolute, now), now)
  }

  /** A request that found the session at one time and slid its window at
      another, not earlier. */
  datatype Request = Request(at: int, later: int)

  datatype History = History(userID: string, createdAt: int, requests: seq<Request>)

  ghost function Served(w: Windows, h: History): Stored
    decreases |h.requests|
  {
    if h.requests == [] then Born(w, h.userID, h.createdAt)
    else Touched(w, Served(w, Earlier(h)), h.requests[|h.requests| - 1].later)
  }

  ghost function Earlier(h: History): History
    requires h.requests != []
  {
    h.(requests := h.requests[..|h.requests| - 1])
  }

  ghost function LastUse(h: History): int {
    if h.requests == [] then h.createdAt else h.requests[|h.requests| - 1].later
  }

  /** Every request came after the one before, and found the session. */
  ghost predicate Happened(w: Windows, h: History)
    decreases |h.requests|
  {
    h.requests != [] ==>
      var q := h.requests[|h.requests| - 1];
      && Happened(w, Earlier(h))
      && LastUse(Earlier(h)) <= q.at <= q.later
      && Accepts(Served(w, Earlier(h)), q.at)
  }

  /** No request came more than `gap` after the one before. */
  ghost predicate GapsWithin(h: History, gap: int)
    decreases |h.requests|
  {
    h.requests != [] ==>
      && GapsWithin(Earlier(h), gap)
      && h.requests[|h.requests| - 1].at - LastUse(Earlier(h)) <= gap
  }

  /** The stored expiry is the earlier of the idle deadline and the absolute
      one, unless the session was last touched at or after its absolute expiry:
      exactly then it is stored without any. */
  ghost predicate Timed(w: Windows, r: Stored) {
    && r.session.expiresAt == r.session.createdAt + w.absolute
    && r.session.createdAt <= r.session.lastSeenAt
    && r.expiry == if r.session.lastSeenAt >= r.session.expiresAt then Never
                   else if r.session.lastSeenAt + w.idle <= r.session.expiresAt then At(r.session.lastSeenAt + w.idle)
                   else At(r.session.expiresAt)
  }

  /** Every stored session keeps its owner and its absolute expiry, carries the
      expiry above, and was last seen within a granule of its last use. */
  lemma {:induction false} ServedIsTimed(w: Windows, h: History)
    requires Positive(w) && Happened(w, h)
    ensures var r := Served(w, h);
            && Timed(w, r)
            && r.session.userID == h.userID && r.session.createdAt == h.createdAt
            && LastUse(h) - TOUCH_GRANULARITY < r.session.lastSeenAt <= LastUse(h)
            && h.createdAt <= LastUse(h)
    decreases |h.requests|
  {
    if h.requests != [] {
      ServedIsTimed(w, Earlier(h));
    }
  }

  /** A session in use lives until its absolute expiry: if no gap between one
      request and the next was longer than the idle window less a granule, and
      the last use was no longer ago than that, then it is accepted. */
  lemma UsedSessionLives(w: Windows, h: History, now: int)
    requires Positive(w) && Happened(w, h)
    requires LastUse(h) <= now <= h.createdAt + w.absolute
    requires now - LastUse(h) <= w.idle - TOUCH_GRANULARITY
    ensures Accepts(Served(w, h), now)
  {
    ServedIsTimed(w, h);
  }

  /** A session left alone for longer than the idle window is not accepted, and
      none is accepted past its absolute expiry, however it was used. */
  lemma AbandonedSessionEnds(w: Windows, h: History, now: int)
    requires Positive(w) && Happened(w, h)
    requires now > LastUse(h) + w.idle || now > h.createdAt + w.absolute
    ensures !Accepts(Served(w, h), now)
  {
    ServedIsTimed(w, h);
  }

  /** Whoever keeps asking is let in: a sequence of requests whose gaps are
      short enough, all before the absolute expiry, is accepted one by one. */
  lemma {:induction false} RegularUseIsServed(w: Windows, h: History)
    requires Positive(w) && w.idle >= TOUCH_GRANULARITY
    requires GapsWithin(h, w.idle - TOUCH_GRANULARITY) && InOrder(h)
    requires h.requests != [] ==> h.requests[|h.requests| - 1].at <= h.createdAt + w.absolute
    ensures Happened(w, h)
    decreases |h.requests|
  {
    if h.requests != [] {
      var before := Earlier(h);
      if before.requests != [] {
        assert before.requests[|before.requests| - 1].later == LastUse(before) <= h.requests[|h.requests| - 1].at;
      }
      RegularUseIsServed(w, before);
      UsedSessionLives(w, before, h.requests[|h.requests| - 1].at);
    }
  }

  ghost predicate InOrder(h: History)
    decreases |h.requests|
  {
    h.requests != [] ==>
      var q := h.requests[|h.requests| - 1];
      InOrder(Earlier(h)) && LastUse(Earlier(h)) <= q.at <= q.later
  }

  /** The granule cannot be spared: a gap two milliseconds longer can lose a
      session that is used regularly, well before its absolute expiry. */
  lemma GranuleIsNeeded(w: Windows, h: History)
    requires w.idle >= TOUCH_GRANULARITY && w.absolute > 2 * w.idle
    requires h == History("u", 0, [Request(TOUCH_GRANULARITY - 1, TOUCH_GRANULARITY - 1)])
    ensures Happened(w, h)
    ensures var now := LastUse(h) + w.idle - TOUCH_GRANULARITY + 2;
            now < h.createdAt + w.absolute && !Accepts(Served(w, h), now)
  {
    var none := Earlier(h);
    assert none.requests == [];
    assert Served(w, none) == Born(w, "u", 0);
  }
}
