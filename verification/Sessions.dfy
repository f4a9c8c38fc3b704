/** The session store (internal/auth/sessions.go) over Redis. Any command may
    fail; a failed write may still have taken effect. Transactions are atomic,
    and so is each operation, except that time passes between the lookup and
    the touch of one request. */
module Sessions {
  import opened Collections
  import opened Redis
  import opened SessionRecords
  import opened SessionIndex

  datatype Reply = Value(session: Session) | NotFound | Failed

  datatype Op =
    | CreateOp(token: string, userID: string)
    | LookupOp(token: string)
    | RequestOp(token: string, pause: nat)
    | RevokeOp(token: string)
    | RevokeAllOp(userID: string, exceptToken: string)
    | TickOp(pause: nat)

  ghost predicate Recounts(w: Windows, r: Stored, h: History, now: int) {
    Happened(w, h) && LastUse(h) <= now && r == Served(w, h)
  }

  /** Each stored session is what its issue and the requests it served made it,
      and every id anywhere was issued. */
  ghost predicate Told(w: Windows, db: Db, histories: map<string, History>, now: int) {
    && (forall id :: id in db.keys ==> id in histories && Recounts(w, db.keys[id], histories[id], now))
    && (forall user, id :: user in db.index && id in db.index[user].ids ==> id in histories)
    && "" !in histories
  }

  /** A session that was issued before and is acceptable now, was acceptable
      before: nothing brings a session back. */
  ghost predicate NoneRevived(issued: set<string>, db: Db, now: int, after: Db, later: int) {
    forall id :: id in issued && Acceptable(after, id, later) ==> Acceptable(db, id, now)
  }

  lemma FewerKeys(w: Windows, db: Db, after: Db, histories: map<string, History>, now: int)
    requires Told(w, db, histories, now)
    requires after.keys.Keys <= db.keys.Keys && forall id :: id in after.keys ==> after.keys[id] == db.keys[id]
    requires forall user :: user in after.index ==> user in db.index && after.index[user].ids <= db.index[user].ids
    ensures Told(w, after, histories, now)
    ensures NoneRevived(histories.Keys, db, now, after, now)
  {
  }

  lemma IssueIsTold(w: Windows, db: Db, histories: map<string, History>, user: string, id: string, now: int)
    requires Agrees(w, db, now) && Told(w, db, histories, now) && id !in histories && id != ""
    ensures var after, told := Created(w, db, user, id, now), histories[id := History(user, now, [])];
            && Agrees(w, after, now) && Told(w, after, told, now)
            && NoneRevived(histories.Keys, db, now, after, now)
            && Members(after, user, now) == Members(db, user, now) + {id}
  {
    hide Created, Members, Indexed, Owned, Sane, Recounts;
    NewIsRecounted(w, user, now);
    CreateAgrees(w, db, user, id, now);
    CreatedIs(w, db, user, id, now);
    IndexIsIssued(db, user, histories.Keys, now);
    var after, told := Created(w, db, user, id, now), histories[id := History(user, now, [])];
    forall u, i | u in after.index && i in after.index[u].ids ensures i in told {
    }
  }

  lemma NewIsRecounted(w: Windows, user: string, now: int)
    requires Positive(w)
    ensures Recounts(w, Born(w, user, now), History(user, now, []), now)
  {
  }

  lemma IndexIsIssued(db: Db, user: string, issued: set<string>, now: int)
    requires forall user, id :: user in db.index && id in db.index[user].ids ==> id in issued
    ensures Members(db, user, now) <= issued
  {
  }

  lemma TouchIsTold(w: Windows, db: Db, histories: map<string, History>, id: string, at: int, now: int)
    requires Agrees(w, db, at) && Told(w, db, histories, at) && at <= now && Acceptable(db, id, at)
    ensures var after := SetKey(db, id, Touched(w, db.keys[id], now));
            var h := histories[id];
            var told := histories[id := WithRequest(h, Request(at, now))];
            && Agrees(w, after, now) && Told(w, after, told, now)
            && NoneRevived(histories.Keys, db, at, after, now)
  {
    hide Agrees, Touched, Acceptable, Accepts, WithRequest, NoneRevived, Recounts;
    AcceptableIs(db, id, at);
    TouchAgrees(w, db, id, at, now);
    TouchRevivesNone(db, histories.Keys, id, at, now, Touched(w, db.keys[id], now));
    OneMoreRequest(w, db.keys[id], histories[id], at, now);
    forall i | i in db.keys ensures Recounts(w, db.keys[i], histories[i], now) {
      LaterToo(w, db.keys[i], histories[i], at, now);
    }
  }

  lemma AcceptableIs(db: Db, id: string, at: int)
    requires Acceptable(db, id, at)
    ensures id in db.keys && Accepts(db.keys[id], at)
  {
  }

  lemma OneMoreRequest(w: Windows, r: Stored, h: History, at: int, now: int)
    requires Recounts(w, r, h, at) && Accepts(r, at) && at <= now
    ensures Recounts(w, Touched(w, r, now), WithRequest(h, Request(at, now)), now)
  {
    hide Touched, Accepts;
    assert Earlier(WithRequest(h, Request(at, now))) == h;
  }

  lemma LaterToo(w: Windows, r: Stored, h: History, at: int, now: int)
    requires Recounts(w, r, h, at) && at <= now
    ensures Recounts(w, r, h, now)
  {
  }

  /** No session of the user can be used any longer except the kept one, which,
      like everybody else's, is as it was. */
  ghost predicate AllRevoked(db: Db, after: Db, user: string, keep: string, now: int) {
    && (forall id :: Acceptable(after, id, now) && after.keys[id].session.userID == user ==> id == keep && keep != "")
    && after.keys.Keys <= db.keys.Keys
    && (forall id :: id in db.keys && (id == keep || db.keys[id].session.userID != user) ==>
          id in after.keys && after.keys[id] == db.keys[id])
    && OthersKept(db, after, user)
    && Members(after, user, now) == Members(db, user, now) * {keep}
  }

  lemma NoneLeftButKept(db: Db, after: Db, user: string, keep: string, now: int)
    requires AllRevoked(db, after, user, keep, now)
    ensures forall id :: id in after.keys && after.keys[id].session.userID == user && id != keep ==>
              now > after.keys[id].session.expiresAt || (after.keys[id].expiry.At? && now > after.keys[id].expiry.when)
  {
    forall id | id in after.keys && after.keys[id].session.userID == user && id != keep
      ensures now > after.keys[id].session.expiresAt || (after.keys[id].expiry.At? && now > after.keys[id].expiry.when)
    {
      assert !Acceptable(after, id, now);
    }
  }

  lemma RevokeAllIsTold(w: Windows, db: Db, histories: map<string, History>, user: string, keep: string, now: int)
    requires Agrees(w, db, now) && Told(w, db, histories, now)
    ensures var ids := Members(db, user, now);
            var after := RevokedAll(w, db, user, ids - {keep}, ids * {keep}, now);
            && Agrees(w, after, now) && Told(w, after, histories, now)
            && NoneRevived(histories.Keys, db, now, after, now)
            && Shrunk(db, now, after, now)
            && AllRevoked(db, after, user, keep, now)
  {
    hide Agrees;
    var ids := Members(db, user, now);
    var after := RevokedAll(w, db, user, ids - {keep}, ids * {keep}, now);
    RevokeAllIsTotal(w, db, user, keep, now);
    hide RevokedAll, Recounts, Members, OthersKept, Shrunk, NoneRevived;
    FewerKeys(w, db, after, histories, now);
    OneIsShrunk(db, after, user, now);
  }

  lemma OneIsShrunk(db: Db, after: Db, user: string, now: int)
    requires OthersKept(db, after, user) && Members(after, user, now) <= Members(db, user, now)
    ensures Shrunk(db, now, after, now)
  {
  }

  /** No index has gained an entry. */
  ghost predicate Shrunk(db: Db, now: int, after: Db, later: int) {
    forall user :: Members(after, user, later) <= Members(db, user, now)
  }

  ghost predicate WithinCap(db: Db, now: int) {
    forall user :: |Members(db, user, now)| <= MAX_SESSIONS_PER_USER
  }

  lemma SameIsShrunk(db: Db, now: int, later: int)
    requires now <= later
    ensures Shrunk(db, now, db, later)
  {
  }

  lemma ShrunkStaysWithinCap(db: Db, now: int, after: Db, later: int)
    requires Shrunk(db, now, after, later)
    ensures WithinCap(db, now) ==> WithinCap(after, later)
  {
    forall user ensures |Members(after, user, later)| <= |Members(db, user, now)| {
      SubsetSize(Members(after, user, later), Members(db, user, now));
    }
  }

  lemma CreatedStaysWithinCap(w: Windows, db: Db, user: string, id: string, after: Db, now: int)
    requires Positive(w) && WithinCap(db, now)
    requires OthersKept(Created(w, db, user, id, now), after, user)
    requires |Members(after, user, now)| <= MAX_SESSIONS_PER_USER
    ensures WithinCap(after, now)
  {
    CreatedIs(w, db, user, id, now);
    hide Created;
    forall u ensures |Members(after, u, now)| <= MAX_SESSIONS_PER_USER {
      if u != user {
        assert Members(after, u, now) == Members(db, u, now);
      }
    }
  }

  lemma TouchRevivesNone(db: Db, issued: set<string>, id: string, at: int, now: int, r: Stored)
    requires Acceptable(db, id, at) && at <= now
    ensures NoneRevived(issued, db, at, SetKey(db, id, r), now)
  {
  }

  lemma SameIsToldLater(w: Windows, db: Db, histories: map<string, History>, now: int, later: int)
    requires Agrees(w, db, now) && Told(w, db, histories, now) && now <= later
    ensures Agrees(w, db, later) && Told(w, db, histories, later)
    ensures NoneRevived(histories.Keys, db, now, db, later)
  {
    TimePasses(w, db, now, later);
  }

  lemma SameIsNotRevived(issued: set<string>, db: Db, now: int)
    ensures NoneRevived(issued, db, now, db, now)
  {
  }

  lemma RevivalComposes(issued: set<string>, more: set<string>, a: Db, t: int, b: Db, u: int, c: Db, v: int)
    requires NoneRevived(issued, a, t, b, u) && NoneRevived(more, b, u, c, v) && issued <= more
    ensures NoneRevived(issued, a, t, c, v)
  {
  }

  function WithRequest(h: History, q: Request): History {
    h.(requests := h.requests + [q])
  }

  lemma BornMeans(w: Windows, user: string, now: int)
    requires Positive(w)
    ensures Born(w, user, now) == Stored(Session(user, now, now + w.absolute, now), At(now + w.idle))
  {
  }

  lemma WithRequestIs(h: History, q: Request)
    ensures WithRequest(h, q) == History(h.userID, h.createdAt, h.requests + [q])
  {
  }

  lemma TouchedUnfolds(w: Windows, r: Stored, now: int)
    ensures Touched(w, r, now) == if now - r.session.lastSeenAt < TOUCH_GRANULARITY then r
                                  else Put(w, r.session.(lastSeenAt := now), now)
  {
  }

  lemma SameKey(db: Db, id: string)
    requires id in db.keys
    ensures SetKey(db, id, db.keys[id]) == db
  {
  }

  /** What capping the sessions of a user comes to when no command fails. */
  ghost predicate Capped(db: Db, after: Db, user: string, now: int) {
    if |Members(db, user, now)| > MAX_SESSIONS_PER_USER then Trimmed(db, after, user, now) else after == db
  }

  lemma CappedMeans(db: Db, after: Db, user: string, now: int)
    requires Capped(db, after, user, now)
    ensures var listed, kept := Members(db, user, now), Members(after, user, now);
            if |listed| <= 20 then after == db
            else
              var live := set id | id in listed && id in db.keys
                                   && (db.keys[id].expiry.Never? || now <= db.keys[id].expiry.when);
              && kept <= live && |kept| == (if |live| > 20 then 20 else |live|)
              && after.keys == db.keys - (live - kept) && after.index - {user} == db.index - {user}
              && forall gone, id :: gone in live - kept && id in kept ==>
                   db.keys[gone].session.createdAt <= db.keys[id].session.createdAt
  {
    hide Members;
    if |Members(db, user, now)| > MAX_SESSIONS_PER_USER {
      assert LiveOnes(db, user, now) == set id | id in Members(db, user, now) && id in db.keys
                                                && (db.keys[id].expiry.Never? || now <= db.keys[id].expiry.when);
      OthersAre(db, after, user);
    }
  }

  lemma OthersAre(db: Db, after: Db, user: string)
    requires OthersKept(db, after, user)
    ensures after.index - {user} == db.index - {user}
  {
  }

  lemma TrimmedAtMostMeans(db: Db, after: Db, user: string, now: int)
    requires TrimmedAtMost(db, after, user, now)
    ensures forall id :: id in after.keys ==> id in db.keys && after.keys[id] == db.keys[id]
    ensures forall id :: id in db.keys && id !in after.keys ==> id in Members(db, user, now)
    ensures after.index - {user} == db.index - {user}
    ensures forall id :: id in Members(db, user, now) && id in after.keys
                         && (after.keys[id].expiry.Never? || now <= after.keys[id].expiry.when) ==>
                           id in Members(after, user, now)
  {
    OthersAre(db, after, user);
    forall id | id in db.keys && id !in after.keys ensures id in Members(db, user, now) {
      assert id in db.keys.Keys - after.keys.Keys;
    }
  }

  lemma TrimIsTold(w: Windows, db: Db, after: Db, histories: map<string, History>, user: string, now: int)
    requires Agrees(w, db, now) && Told(w, db, histories, now) && TrimmedAtMost(db, after, user, now)
    ensures Agrees(w, after, now) && Told(w, after, histories, now)
    ensures NoneRevived(histories.Keys, db, now, after, now)
  {
    hide Agrees, Told, NoneRevived;
    TrimAgrees(w, db, after, user, now);
    FewerKeys(w, db, after, histories, now);
  }

  lemma TrimKeepsOthers(db: Db, after: Db, user: string, now: int)
    requires TrimmedAtMost(db, after, user, now)
    ensures OthersKept(db, after, user)
  {
  }

  lemma CapHolds(db: Db, after: Db, user: string, now: int)
    ensures Capped(db, after, user, now) ==> |Members(after, user, now)| <= MAX_SESSIONS_PER_USER
  {
  }

  class SessionStore {
    const windows: Windows
    const hash: string -> string
    var now: int
    var db: Db
    var failures: nat
    ghost var histories: map<string, History>

    ghost predicate Valid()
      reads this
    {
      Agrees(windows, db, now) && Told(windows, db, histories, now)
    }

    constructor (windows: Windows, hash: string -> string, now: int)
      requires Positive(windows)
      ensures Valid() && histories == map[] && this.windows == windows && this.hash == hash
    {
      this.windows, this.hash, this.now := windows, hash, now;
      db, failures, histories := Db(map[], map[]), 0, map[];
    }

    // -------------------------------------------------------------------
    // Redis
    // -------------------------------------------------------------------

    /** Runs a write or a transaction. */
    method Exec(next: Db) returns (ok: bool)
      modifies `db, `failures
      ensures ok ==> db == next && failures == old(failures)
      ensures !ok ==> (db == next || db == old(db)) && failures > old(failures)
    {
      ok := true;
      if * {
        ok := false;
        failures := failures + 1;
        if * {
          return;
        }
      }
      db := next;
    }

    method Lookup(id: string) returns (reply: Reply)
      modifies `failures
      ensures reply.Value? ==> Found(db, id, now) && reply.session == db.keys[id].session
      ensures reply.NotFound? ==> !Found(db, id, now)
      ensures if reply.Failed? then failures > old(failures) else failures == old(failures)
    {
      if * {
        failures := failures + 1;
        return Failed;
      }
      if id in db.keys && Live(db.keys[id].expiry, now) {
        return Value(db.keys[id].session);
      }
      return NotFound;
    }

    method SMembers(user: string) returns (ids: seq<string>, ok: bool)
      modifies `failures
      ensures if ok then failures == old(failures) else failures > old(failures)
      ensures ok ==> Elements(ids) == Members(db, user, now) && |ids| == |Members(db, user, now)|
      ensures ok ==> Distinct(ids)
    {
      ids := [];
      if * {
        failures := failures + 1;
        return ids, false;
      }
      var left := Members(db, user, now);
      while left != {}
        invariant failures == old(failures) && left <= Members(db, user, now)
        invariant Elements(ids) == Members(db, user, now) - left
        invariant |ids| + |left| == |Members(db, user, now)|
        invariant Distinct(ids)
      {
        var id :| id in left;
        assert id !in Elements(ids);
        ElementsMore(ids, id);
        ids, left := ids + [id], left - {id};
      }
      assert Members(db, user, now) - {} == Members(db, user, now);
      ok := true;
    }

    // -------------------------------------------------------------------
    // Operations
    // -------------------------------------------------------------------

    /** Issues a session under a token never used before, then caps the number
        of the user's sessions. */
    method Create(token: string, userID: string) returns (r: Reply, ghost made: Db)
      requires Valid() && hash(token) !in histories && hash(token) != ""
      modifies this
      ensures Valid() && now == old(now) && failures >= old(failures)
      ensures NoneRevived(old(histories).Keys, old(db), old(now), db, now)
      ensures made == Db(old(db).keys[hash(token) := Stored(Session(userID, now, now + windows.absolute, now),
                                                            At(now + windows.idle))],
                         old(db).index[userID := Index(Members(old(db), userID, now) + {hash(token)},
                                                       At(now + windows.absolute))])
      ensures !r.Value? ==> db == old(db) || db == made
      ensures r.Value? ==> r.session == Session(userID, now, now + windows.absolute, now)
      ensures r.Value? ==>
                && histories == old(histories)[hash(token) := History(userID, now, [])]
                && TrimmedAtMost(made, db, userID, now)
      ensures old(histories).Keys <= histories.Keys && histories.Keys <= old(histories).Keys + {hash(token)}
      ensures failures == old(failures) ==>
                && r.Value? && |Members(db, userID, now)| <= 20 && Capped(made, db, userID, now)
                && (WithinCap(old(db), old(now)) ==> WithinCap(db, now))
    {
      hide Valid, Positive, Created, NoneRevived, TrimmedAtMost, Capped, WithinCap, Members, Born;
      WindowsArePositive();
      made := Created(windows, db, userID, hash(token), now);
      CreatedIs(windows, db, userID, hash(token), now);
      BornMeans(windows, userID, now);
      r := IssueAndTrim(token, userID);
    }

    lemma WindowsArePositive()
      requires Valid()
      ensures Positive(windows)
    {
    }

    /** The transaction, and the trim after it. */
    method IssueAndTrim(token: string, userID: string) returns (r: Reply)
      requires Valid() && hash(token) !in histories && hash(token) != ""
      modifies this
      ensures Valid() && now == old(now) && failures >= old(failures)
      ensures NoneRevived(old(histories).Keys, old(db), old(now), db, now)
      ensures r.Value? ==>
                && r.session == Born(windows, userID, now).session
                && histories == old(histories)[hash(token) := History(userID, now, [])]
                && TrimmedAtMost(Created(windows, old(db), userID, hash(token), now), db, userID, now)
      ensures !r.Value? ==> db == old(db) || db == Created(windows, old(db), userID, hash(token), now)
      ensures old(histories).Keys <= histories.Keys && histories.Keys <= old(histories).Keys + {hash(token)}
      ensures failures == old(failures) ==>
                && r.Value? && |Members(db, userID, now)| <= MAX_SESSIONS_PER_USER
                && Capped(Created(windows, old(db), userID, hash(token), now), db, userID, now)
                && (WithinCap(old(db), old(now)) ==> WithinCap(db, now))
    {
      assert Positive(windows);
      hide Agrees, Told, Created, NoneRevived, Trimmed, TrimmedAtMost, Capped, WithinCap;
      var id, r0 := hash(token), Born(windows, userID, now);
      ghost var before := db;
      ghost var made := Created(windows, db, userID, id, now);
      IssueIsTold(windows, db, histories, userID, id, now);
      SameIsNotRevived(histories.Keys, db, now);
      var ok := Exec(Created(windows, db, userID, id, now));
      if db == made {
        histories := histories[id := History(userID, now, [])];
      }
      if !ok {
        return Failed;
      }
      TrimSessions(userID);
      TrimIsTold(windows, made, db, histories, userID, now);
      RevivalComposes(old(histories).Keys, histories.Keys, before, now, made, now, db, now);
      CapHolds(made, db, userID, now);
      TrimKeepsOthers(made, db, userID, now);
      if WithinCap(before, now) && |Members(db, userID, now)| <= MAX_SESSIONS_PER_USER {
        CreatedStaysWithinCap(windows, before, userID, id, db, now);
      }
      return Value(r0.session);
    }

    /** Resolves a token; rejects and revokes what is past its absolute expiry. */
    method Get(token: string) returns (r: Reply)
      requires Valid()
      modifies `db, `failures
      ensures Valid() && failures >= old(failures)
      ensures NoneRevived(old(histories).Keys, old(db), old(now), db, now)
      ensures Shrunk(old(db), old(now), db, now)
      ensures var id := hash(token);
              var stored := id in old(db).keys
                            && (old(db).keys[id].expiry.Never? || now <= old(db).keys[id].expiry.when);
              && (r.Value? ==> stored && now <= old(db).keys[id].session.expiresAt
                               && r.session == old(db).keys[id].session && db == old(db))
              && (db != old(db) ==> stored && now > old(db).keys[id].session.expiresAt)
              && (failures == old(failures) ==>
                    (if stored && now <= old(db).keys[id].session.expiresAt then r.Value? else r.NotFound?))
              && (failures == old(failures) && !stored ==> db == old(db))
      ensures var id := hash(token);
              (failures == old(failures) && id in old(db).keys && now > old(db).keys[id].session.expiresAt
               && (old(db).keys[id].expiry.Never? || now <= old(db).keys[id].expiry.when)) || db != old(db) ==>
                && id in old(db).keys
                && var user := old(db).keys[id].session.userID;
                && db.keys == old(db).keys - {id}
                && db.index == if user == "" || user !in old(db).index then old(db).index
                               else
                                 var listed := old(db).index[user];
                                 if listed.expiry.At? && now > listed.expiry.when then old(db).index
                                 else if listed.ids <= {id} then old(db).index - {user}
                                 else old(db).index[user := Index(listed.ids - {id}, listed.expiry)]
      ensures r.Value? ==>
                Acceptable(old(db), hash(token), now) && r.session == old(db).keys[hash(token)].session && db == old(db)
      ensures failures == old(failures) ==> (r.Value? <==> Acceptable(old(db), hash(token), now))
      ensures failures == old(failures) && !Acceptable(old(db), hash(token), now) ==>
                r.NotFound? && !Found(db, hash(token), now)
      ensures db == old(db)
           || (&& Found(old(db), hash(token), now) && !Acceptable(old(db), hash(token), now)
               && db == Revoked(old(db), old(db).keys[hash(token)].session.userID, hash(token), now))
    {
      hide Agrees, Told, Revoked, NoneRevived;
      var id := hash(token);
      AcceptableMeans(db, id, now);
      SameIsNotRevived(histories.Keys, db, now);
      var reply := Lookup(id);
      if !reply.Value? {
        return reply;
      }
      if now > reply.session.expiresAt {
        var ok := RevokeByID(reply.session.userID, id);
        return if ok then NotFound else Failed;
      }
      return reply;
    }

    /** Slides the idle window, unless the session was seen moments ago. It
        writes what it is given whatever has become of the key meanwhile. */
    method Touch(id: string, s: Session) returns (ok: bool)
      modifies `db, `failures
      ensures failures >= old(failures) && (ok <==> failures == old(failures))
      ensures var put := if now >= s.expiresAt || windows.idle <= 0 then Never
                         else if now + windows.idle <= s.expiresAt then At(now + windows.idle) else At(s.expiresAt);
              var slid := Db(old(db).keys[id := Stored(Session(s.userID, s.createdAt, s.expiresAt, now), put)],
                             old(db).index);
              if now - s.lastSeenAt < 60_000 then ok && db == old(db)
              else (ok ==> db == slid) && (!ok ==> db == old(db) || db == slid)
      ensures now - s.lastSeenAt < TOUCH_GRANULARITY ==> ok && db == old(db)
      ensures ok && now - s.lastSeenAt >= TOUCH_GRANULARITY ==>
                db == SetKey(old(db), id, Put(windows, s.(lastSeenAt := now), now))
      ensures !ok ==> db == old(db) || db == SetKey(old(db), id, Put(windows, s.(lastSeenAt := now), now))
    {
      PutMeans(windows, s.(lastSeenAt := now), now);
      if now - s.lastSeenAt < TOUCH_GRANULARITY {
        return true;
      }
      ok := Exec(SetKey(db, id, Put(windows, s.(lastSeenAt := now), now)));
    }

    /** One authenticated request: resolve the token, and a moment later slide
        the window of the session it named. */
    method Serve(token: string, pause: nat) returns (r: Reply)
      requires Valid()
      modifies this
      ensures Valid() && now == old(now) + pause && failures >= old(failures)
      ensures NoneRevived(old(histories).Keys, old(db), old(now), db, now)
      ensures Shrunk(old(db), old(now), db, now)
      ensures r.Value? ==> Acceptable(old(db), hash(token), old(now))
      ensures failures == old(failures) ==> (r.Value? <==> Acceptable(old(db), hash(token), old(now)))
      ensures failures == old(failures) && r.Value? ==>
                var id := hash(token);
                && db == SetKey(old(db), id, Touched(windows, old(db).keys[id], now))
                && histories == old(histories)[id := WithRequest(old(histories)[id], Request(old(now), now))]
      ensures var id := hash(token);
              failures == old(failures) && r.Value? ==>
                && id in old(db).keys && id in old(histories) && db.index == old(db).index
                && var was, h := old(db).keys[id].session, old(histories)[id];
                && r.session == was
                && histories == old(histories)[id := History(h.userID, h.createdAt,
                                                             h.requests + [Request(old(now), now)])]
                && db.keys == if now - was.lastSeenAt < 60_000 then old(db).keys
                              else
                                var put := if now >= was.expiresAt || windows.idle <= 0 then Never
                                           else if now + windows.idle <= was.expiresAt then At(now + windows.idle)
                                           else At(was.expiresAt);
                                old(db).keys[id := Stored(Session(was.userID, was.createdAt, was.expiresAt, now), put)]
      ensures db.keys - {hash(token)} == old(db).keys - {hash(token)}
      ensures histories.Keys == old(histories).Keys && (!r.Value? ==> histories == old(histories))
    {
      hide Agrees, Told, NoneRevived, Touched, WithRequest, Revoked;
      var id, at := hash(token), now;
      r := Get(token);
      ghost var read := db;
      now := now + pause;
      SameIsToldLater(windows, db, histories, at, now);
      RevivalComposes(old(histories).Keys, histories.Keys, old(db), at, read, at, db, now);
      if r.Value? {
        TouchIsTold(windows, db, histories, id, at, now);
        TouchedUnfolds(windows, db.keys[id], now);
        SameKey(db, id);
        WithRequestIs(histories[id], Request(at, now));
        ghost var slid := Touched(windows, db.keys[id], now);
        var ok := Touch(id, r.session);
        if db == SetKey(read, id, slid) {
          histories := histories[id := WithRequest(histories[id], Request(at, now))];
        }
      }
    }

    /** Drops one session. An unknown token is not an error. */
    method Revoke(token: string) returns (ok: bool)
      requires Valid()
      modifies `db, `failures
      ensures Valid() && failures >= old(failures) && (ok <==> failures == old(failures))
      ensures NoneRevived(old(histories).Keys, old(db), old(now), db, now)
      ensures Shrunk(old(db), old(now), db, now)
      ensures ok ==> !Found(db, hash(token), now)
      ensures var id := hash(token);
              var stored := id in old(db).keys
                            && (old(db).keys[id].expiry.Never? || now <= old(db).keys[id].expiry.when);
              (if stored then db != old(db) ==> id !in db.keys else db == old(db))
      ensures var id := hash(token);
              (ok && id in old(db).keys && (old(db).keys[id].expiry.Never? || now <= old(db).keys[id].expiry.when))
              || db != old(db) ==>
                && id in old(db).keys
                && var user := old(db).keys[id].session.userID;
                && db.keys == old(db).keys - {id}
                && db.index == if user == "" || user !in old(db).index then old(db).index
                               else
                                 var listed := old(db).index[user];
                                 if listed.expiry.At? && now > listed.expiry.when then old(db).index
                                 else if listed.ids <= {id} then old(db).index - {user}
                                 else old(db).index[user := Index(listed.ids - {id}, listed.expiry)]
      ensures db == old(db)
           || (&& Found(old(db), hash(token), now)
               && db == Revoked(old(db), old(db).keys[hash(token)].session.userID, hash(token), now))
    {
      hide Agrees, Told, NoneRevived, Revoked;
      AcceptableMeans(db, hash(token), now);
      SameIsNotRevived(histories.Keys, db, now);
      var reply := Lookup(hash(token));
      match reply {
        case NotFound => return true;
        case Failed => return false;
        case Value(s) => ok := RevokeByID(s.userID, hash(token));
      }
    }

    method RevokeByID(userID: string, id: string) returns (ok: bool)
      requires Valid()
      modifies `db, `failures
      ensures Valid() && failures >= old(failures) && (ok <==> failures == old(failures))
      ensures NoneRevived(old(histories).Keys, old(db), old(now), db, now)
      ensures Shrunk(old(db), old(now), db, now)
      ensures ok ==> db == Revoked(old(db), userID, id, now) && id !in db.keys
      ensures var user := userID;
              ok || db != old(db) ==>
                && db.keys == old(db).keys - {id}
                && db.index == if user == "" || user !in old(db).index then old(db).index
                               else
                                 var listed := old(db).index[user];
                                 if listed.expiry.At? && now > listed.expiry.when then old(db).index
                                 else if listed.ids <= {id} then old(db).index - {user}
                                 else old(db).index[user := Index(listed.ids - {id}, listed.expiry)]
      ensures !ok ==> db == old(db) || db == Revoked(old(db), userID, id, now)
    {
      hide Agrees, Told, NoneRevived;
      SameIsNotRevived(histories.Keys, db, now);
      RevokeAgrees(windows, db, userID, id, now);
      RevokedMeans(db, userID, id, now);
      FewerKeys(windows, db, Revoked(db, userID, id, now), histories, now);
      hide Revoked;
      ok := Exec(Revoked(db, userID, id, now));
    }

    /** Invalidates every session of an account but one. */
    method RevokeAllForUser(userID: string, exceptToken: string) returns (n: nat, ok: bool)
      requires Valid()
      modifies `db, `failures
      ensures Valid() && failures >= old(failures) && (ok <==> failures == old(failures))
      ensures NoneRevived(old(histories).Keys, old(db), old(now), db, now)
      ensures Shrunk(old(db), old(now), db, now)
      ensures ok ==> AllRevoked(old(db), db, userID, Kept(exceptToken), now)
      ensures ok ==> n == |Members(old(db), userID, now) - {Kept(exceptToken)}|
      ensures var keep := if exceptToken == "" then "" else hash(exceptToken);
              var listed := if userID in old(db).index && (old(db).index[userID].expiry.Never?
                                                           || now <= old(db).index[userID].expiry.when)
                            then old(db).index[userID].ids else {};
              && (ok ==> n == |listed - {keep}|)
              && (ok || db != old(db) ==>
                    && db.keys == old(db).keys - (listed - {keep})
                    && (db.index == if keep in listed
                                    then old(db).index[userID := Index({keep}, At(now + windows.absolute))]
                                    else old(db).index - {userID})
                    && forall id :: id in db.keys && db.keys[id].session.userID == userID && id != keep ==>
                         now > db.keys[id].session.expiresAt
                         || (db.keys[id].expiry.At? && now > db.keys[id].expiry.when))
      ensures !ok ==> db == old(db) || AllRevoked(old(db), db, userID, Kept(exceptToken), now)
    {
      hide Agrees, Told, NoneRevived, Shrunk, AllRevoked, Members;
      SameIsNotRevived(histories.Keys, db, now);
      SameIsShrunk(db, now, now);
      n := 0;
      var ids;
      ids, ok := SMembers(userID);
      if !ok {
        return;
      }
      var keep := Kept(exceptToken);
      var keys, remaining := Split(ids, keep);
      hide RevokedAll;
      RevokeAllIsTold(windows, db, histories, userID, keep, now);
      RevokedAllMeans(windows, db, userID, keep, now);
      MembersAre(db, userID, now);
      ok := Exec(RevokedAll(windows, db, userID, Elements(keys), remaining, now));
      n := if ok then |keys| else 0;
      if ok || db != old(db) {
        NoneLeftButKept(old(db), db, userID, keep, now);
      }
    }

    /** The ids to delete, and the kept one if it is among them. */
    method Split(ids: seq<string>, keep: string) returns (keys: seq<string>, remaining: set<string>)
      requires Distinct(ids)
      ensures Elements(keys) == Elements(ids) - {keep} && |keys| == |Elements(ids) - {keep}|
      ensures remaining == Elements(ids) * {keep}
    {
      keys, remaining := [], {};
      for i := 0 to |ids|
        invariant Elements(keys) == Elements(ids[..i]) - {keep} && |keys| == |Elements(ids[..i]) - {keep}|
        invariant remaining == Elements(ids[..i]) * {keep}
      {
        hide Elements;
        IdsPrefix(ids, i);
        SplitOne(Elements(ids[..i]), ids[i], keep);
        if ids[i] == keep {
          remaining := remaining + {ids[i]};
        } else {
          ElementsMore(keys, ids[i]);
          keys := keys + [ids[i]];
        }
      }
      assert ids[..|ids|] == ids;
    }

    function Kept(exceptToken: string): string {
      if exceptToken != "" then hash(exceptToken) else ""
    }

    /** Prunes index entries whose keys are gone, then drops the oldest sessions
        above the cap. It gives up at the first error. */
    method TrimSessions(userID: string)
      modifies `db, `failures
      ensures failures >= old(failures)
      ensures TrimmedAtMost(old(db), db, userID, now)
      ensures failures == old(failures) ==> Capped(old(db), db, userID, now)
      ensures var listed := if userID in old(db).index && (old(db).index[userID].expiry.Never?
                                                           || now <= old(db).index[userID].expiry.when)
                            then old(db).index[userID].ids else {};
              var kept := if userID in db.index
                             && (db.index[userID].expiry.Never? || now <= db.index[userID].expiry.when)
                          then db.index[userID].ids else {};
              && (forall id :: id in db.keys ==> id in old(db).keys && db.keys[id] == old(db).keys[id])
              && (forall id :: id in old(db).keys && id !in db.keys ==> id in listed)
              && db.index - {userID} == old(db).index - {userID}
              && (forall id :: id in listed && id in db.keys ==>
                    id in kept || (db.keys[id].expiry.At? && now > db.keys[id].expiry.when))
      ensures var listed := if userID in old(db).index && (old(db).index[userID].expiry.Never?
                                                           || now <= old(db).index[userID].expiry.when)
                            then old(db).index[userID].ids else {};
              var kept := if userID in db.index
                             && (db.index[userID].expiry.Never? || now <= db.index[userID].expiry.when)
                          then db.index[userID].ids else {};
              failures == old(failures) ==>
                if |listed| <= 20 then db == old(db)
                else
                  var live := set id | id in listed && id in old(db).keys
                                       && (old(db).keys[id].expiry.Never? || now <= old(db).keys[id].expiry.when);
                  && kept <= live && |kept| == (if |live| > 20 then 20 else |live|)
                  && db.keys == old(db).keys - (live - kept) && db.index - {userID} == old(db).index - {userID}
                  && forall gone, id :: gone in live - kept && id in kept ==>
                       old(db).keys[gone].session.createdAt <= old(db).keys[id].session.createdAt
    {
      hide TrimmedAtMost, Capped, Members;
      MembersAre(db, userID, now);
      TrimListed(userID);
      MembersAre(db, userID, now);
      TrimmedAtMostMeans(old(db), db, userID, now);
      if failures == old(failures) {
        CappedMeans(old(db), db, userID, now);
      }
    }

    method TrimListed(userID: string)
      modifies `db, `failures
      ensures failures >= old(failures)
      ensures TrimmedAtMost(old(db), db, userID, now)
      ensures failures == old(failures) ==> Capped(old(db), db, userID, now)
    {
      hide TrimmedAtMost, Trimming, Trimmed, Members, DelKeys, SRem;
      ghost var before := db;
      TrimNothing(db, userID, now);
      var ids, ok := SMembers(userID);
      if !ok || |ids| <= MAX_SESSIONS_PER_USER {
        return;
      }
      var live, stale;
      live, stale, ok := Classify(userID, ids);
      if !ok {
        return;
      }
      while |live| > MAX_SESSIONS_PER_USER
        invariant failures == old(failures)
        invariant Trimming(before, db, userID, now, live, stale)
      {
        var k := Oldest(live);
        DropOldest(before, db, userID, now, live, stale, k);
        TrimStopped(before, db, userID, now, live, stale);
        var id := live[k].id;
        live, stale := Without(live, k), stale + {id};
        TrimStopped(before, DelKeys(db, {id}), userID, now, live, stale);
        ok := Exec(DelKeys(db, {id}));
        if !ok {
          return;
        }
      }
      TrimStopped(before, db, userID, now, live, stale);
      SRemIsSafe(before, db, userID, now, stale);
      TrimDone(before, db, userID, now, live, stale);
      if |stale| > 0 {
        ok := Exec(SRem(db, userID, stale, now));
      }
    }

    /** The oldest of the entries, the first of several. */
    method Oldest(live: seq<Entry>) returns (oldest: nat)
      requires |live| > 0
      ensures oldest < |live|
      ensures forall e :: e in live ==> live[oldest].created <= e.created
      ensures forall i :: 0 <= i < oldest ==> live[oldest].created < live[i].created
    {
      oldest := 0;
      for i := 0 to |live|
        invariant oldest < |live| && oldest <= i
        invariant forall j :: 0 <= j < i ==> live[oldest].created <= live[j].created
        invariant forall j :: 0 <= j < oldest ==> live[oldest].created < live[j].created
      {
        if live[i].created < live[oldest].created {
          oldest := i;
        }
      }
    }

    /** Looks every indexed id up: the sessions that exist, and the ids whose
        keys are gone. */
    method Classify(userID: string, ids: seq<string>) returns (live: seq<Entry>, stale: set<string>, ok: bool)
      requires Elements(ids) == Members(db, userID, now)
      requires Distinct(ids)
      modifies `failures
      ensures if ok then failures == old(failures) else failures > old(failures)
      ensures ok ==> Trimming(db, db, userID, now, live, stale) && Ids(live) == LiveOnes(db, userID, now)
    {
      live, stale := [], {};
      for i := 0 to |ids|
        invariant failures == old(failures)
        invariant Sorted(db, now, ids[..i], live, stale)
      {
        var reply := Lookup(ids[i]);
        if reply.Failed? {
          return live, stale, false;
        }
        if reply.NotFound? {
          SortMissing(db, now, ids, i, live, stale);
          stale := stale + {ids[i]};
        } else {
          SortFound(db, now, ids, i, live, stale);
          live := live + [Entry(ids[i], reply.session.createdAt)];
        }
      }
      assert ids[..|ids|] == ids;
      SortedAll(db, userID, now, ids, live, stale);
      ok := true;
    }

    method Tick(pause: nat)
      requires Valid()
      modifies `now
      ensures Valid() && now == old(now) + pause
      ensures NoneRevived(old(histories).Keys, old(db), old(now), db, now)
      ensures Shrunk(old(db), old(now), db, now)
    {
      now := now + pause;
      SameIsToldLater(windows, db, histories, old(now), now);
    }

    // -------------------------------------------------------------------
    // Any run
    // -------------------------------------------------------------------

    method Step(op: Op)
      requires Valid()
      requires op.CreateOp? ==> hash(op.token) !in histories && hash(op.token) != ""
      modifies this
      ensures Valid() && NoneRevived(old(histories).Keys, old(db), old(now), db, now)
      ensures old(histories).Keys <= histories.Keys && histories.Keys <= old(histories).Keys + Issues(op)
      ensures failures >= old(failures)
      ensures failures == old(failures) && WithinCap(old(db), old(now)) ==> WithinCap(db, now)
      ensures op.RevokeOp? && failures == old(failures) ==> !Found(db, hash(op.token), now)
      ensures op.RevokeAllOp? && failures == old(failures) ==>
                AllRevoked(old(db), db, op.userID, Kept(op.exceptToken), now)
      ensures op.CreateOp? && failures == old(failures) ==> hash(op.token) in histories
      ensures now == old(now) + if op.RequestOp? || op.TickOp? then op.pause else 0
    {
      hide Agrees, Told, NoneRevived, Shrunk, WithinCap, Members, AllRevoked;
      ghost var before, at := db, now;
      match op {
        case CreateOp(token, userID) => var _, _ := Create(token, userID);
        case LookupOp(token) => var _ := Get(token);
        case RequestOp(token, pause) => var _ := Serve(token, pause);
        case RevokeOp(token) => var _ := Revoke(token);
        case RevokeAllOp(userID, exceptToken) => var _, _ := RevokeAllForUser(userID, exceptToken);
        case TickOp(pause) => Tick(pause);
      }
      if !op.CreateOp? {
        ShrunkStaysWithinCap(before, at, db, now);
      }
    }

    function Issues(op: Op): set<string> {
      if op.CreateOp? then {hash(op.token)} else {}
    }

    /** In every run, whatever fails, the index stays complete and a session
        that could not be used at the start, say because it was revoked, cannot
        be used at the end; while nothing fails, no user has more indexed
        sessions than the cap. */
    method Run(ops: seq<Op>)
      requires Valid()
      requires forall i :: 0 <= i < |ops| ==> Issues(ops[i]) !! histories.Keys && "" !in Issues(ops[i])
      requires forall i, j :: 0 <= i < j < |ops| ==> Issues(ops[i]) !! Issues(ops[j])
      modifies this
      ensures Valid() && NoneRevived(old(histories).Keys, old(db), old(now), db, now)
      ensures failures == old(failures) && WithinCap(old(db), old(now)) ==> WithinCap(db, now)
    {
      hide Agrees, Told, NoneRevived, WithinCap;
      SameIsNotRevived(histories.Keys, db, now);
      for i := 0 to |ops|
        invariant Valid() && NoneRevived(old(histories).Keys, old(db), old(now), db, now)
        invariant old(histories).Keys <= histories.Keys && failures >= old(failures)
        invariant failures == old(failures) && WithinCap(old(db), old(now)) ==> WithinCap(db, now)
        invariant forall j :: i <= j < |ops| ==> Issues(ops[j]) !! histories.Keys
      {
        ghost var issued, midway, at := histories.Keys, db, now;
        assert ops[i].CreateOp? ==> hash(ops[i].token) in Issues(ops[i]);
        Step(ops[i]);
        RevivalComposes(old(histories).Keys, issued, old(db), old(now), midway, at, db, now);
      }
    }

    /** At any moment of any run: a stored session is accepted while it is used
        often enough and never past its windows, and whenever it is accepted it
        is in its user's index, where total revocation finds it. */
    lemma LifeOfASession(id: string)
      requires Valid() && id in db.keys
      ensures id in histories
      ensures var h, r := histories[id], db.keys[id];
              var used := if h.requests == [] then h.createdAt else h.requests[|h.requests| - 1].later;
              var accepted := now <= r.session.expiresAt && (r.expiry.Never? || now <= r.expiry.when);
              && r.session.userID == h.userID && r.session.createdAt == h.createdAt
              && r.session.expiresAt == h.createdAt + windows.absolute
              && (now - used <= windows.idle - 60_000 && now <= h.createdAt + windows.absolute ==> accepted)
              && (accepted ==> now <= used + windows.idle && now <= h.createdAt + windows.absolute)
              && (accepted ==> h.userID in db.index && id in db.index[h.userID].ids
                               && (db.index[h.userID].expiry.Never? || now <= db.index[h.userID].expiry.when))
      ensures var h, r := histories[id], db.keys[id];
              && Timed(windows, r) && r.session.userID == h.userID
              && (now - LastUse(h) <= windows.idle - TOUCH_GRANULARITY && now <= h.createdAt + windows.absolute ==>
                    Acceptable(db, id, now))
              && (Acceptable(db, id, now) ==>
                    && now <= LastUse(h) + windows.idle && now <= h.createdAt + windows.absolute
                    && id in Members(db, h.userID, now))
    {
      ServedIsTimed(windows, histories[id]);
    }
  }
}
