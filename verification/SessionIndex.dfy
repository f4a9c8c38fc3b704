/** The keys and per-user index sets behind the session store, as Redis keeps
    them, and what keeps the two in agreement (internal/auth/sessions.go). */
module SessionIndex {
  import opened Collections
  import opened Redis
  import opened SessionRecords

  const MAX_SESSIONS_PER_USER := 20

  /** A set key: it disappears as a whole when it expires. */
  datatype Index = Index(ids: set<string>, expiry: Expiry)

  datatype Db = Db(keys: map<string, Stored>, index: map<string, Index>)

  predicate Found(db: Db, id: string, now: int) {
    id in db.keys && Live(db.keys[id].expiry, now)
  }

  predicate Acceptable(db: Db, id: string, now: int) {
    id in db.keys && Accepts(db.keys[id], now)
  }

  // ---------------------------------------------------------------------
  // The commands
  // ---------------------------------------------------------------------

  function Members(db: Db, user: string, now: int): set<string> {
    if user in db.index && Live(db.index[user].expiry, now) then db.index[user].ids else {}
  }

  function SetKey(db: Db, id: string, r: Stored): Db {
    db.(keys := db.keys[id := r])
  }

  function DelKeys(db: Db, ids: set<string>): Db {
    db.(keys := db.keys - ids)
  }

  function DelIndex(db: Db, user: string): Db {
    db.(index := db.index - {user})
  }

  function SAdd(db: Db, user: string, ids: set<string>, now: int): Db {
    if user in db.index && Live(db.index[user].expiry, now) then
      db.(index := db.index[user := Index(db.index[user].ids + ids, db.index[user].expiry)])
    else
      db.(index := db.index[user := Index(ids, Never)])
  }

  function ExpireIndex(db: Db, user: string, ttl: int, now: int): Db {
    if user in db.index && Live(db.index[user].expiry, now) then
      db.(index := db.index[user := Index(db.index[user].ids, At(now + ttl))])
    else
      db
  }

  /** A set that becomes empty is removed. */
  function SRem(db: Db, user: string, ids: set<string>, now: int): Db {
    if user in db.index && Live(db.index[user].expiry, now) then
      var left := db.index[user].ids - ids;
      if left == {} then DelIndex(db, user)
      else db.(index := db.index[user := Index(left, db.index[user].expiry)])
    else
      db
  }

  // ---------------------------------------------------------------------
  // The transactions
  // ---------------------------------------------------------------------

  function Created(w: Windows, db: Db, user: string, id: string, now: int): Db {
    ExpireIndex(SAdd(SetKey(db, id, Born(w, user, now)), user, {id}, now), user, w.absolute, now)
  }

  function Revoked(db: Db, user: string, id: string, now: int): Db {
    if user != "" then SRem(DelKeys(db, {id}), user, {id}, now) else DelKeys(db, {id})
  }

  function RevokedAll(w: Windows, db: Db, user: string, doomed: set<string>, remaining: set<string>, now: int): Db {
    var gone := DelIndex(DelKeys(db, doomed), user);
    if remaining != {} then ExpireIndex(SAdd(gone, user, remaining, now), user, w.absolute, now) else gone
  }

  // ---------------------------------------------------------------------
  // What the transactions come to, key by key and entry by entry
  // ---------------------------------------------------------------------

  lemma MembersAre(db: Db, user: string, now: int)
    ensures Members(db, user, now)
         == if user in db.index && (db.index[user].expiry.Never? || now <= db.index[user].expiry.when)
            then db.index[user].ids else {}
  {
  }

  lemma AcceptableMeans(db: Db, id: string, now: int)
    ensures Found(db, id, now) <==> id in db.keys && (db.keys[id].expiry.Never? || now <= db.keys[id].expiry.when)
    ensures Acceptable(db, id, now) <==> Found(db, id, now) && now <= db.keys[id].session.expiresAt
  {
  }

  lemma PutMeans(w: Windows, s: Session, now: int)
    ensures Put(w, s, now)
         == Stored(s, if now >= s.expiresAt || w.idle <= 0 then Never
                      else if now + w.idle <= s.expiresAt then At(now + w.idle) else At(s.expiresAt))
  {
  }

  lemma RevokedMeans(db: Db, user: string, id: string, now: int)
    ensures var after := Revoked(db, user, id, now);
            && after.keys == db.keys - {id} && after.index - {user} == db.index - {user}
            && (user == "" || user !in db.index || !Live(db.index[user].expiry, now) ==> after.index == db.index)
            && (user != "" && user in db.index && Live(db.index[user].expiry, now) ==>
                  after.index == if db.index[user].ids <= {id} then db.index - {user}
                                 else db.index[user := Index(db.index[user].ids - {id}, db.index[user].expiry)])
  {
  }

  lemma RevokedAllMeans(w: Windows, db: Db, user: string, keep: string, now: int)
    ensures var ids := Members(db, user, now);
            var after := RevokedAll(w, db, user, ids - {keep}, ids * {keep}, now);
            && after.keys == db.keys - (ids - {keep})
            && after.index == if keep in ids then db.index[user := Index({keep}, At(now + w.absolute))]
                              else db.index - {user}
  {
    var ids := Members(db, user, now);
    if keep in ids {
      assert ids * {keep} == {keep};
    } else {
      assert ids * {keep} == {};
    }
  }

  // ---------------------------------------------------------------------
  // Agreement of the index with the keys
  // ---------------------------------------------------------------------

  ghost predicate Outlives(e: Expiry, when: int) {
    e.Never? || e.when >= when
  }

  /** Every session that lookup would accept is in its user's index, and that
      index will not be gone before the session's absolute expiry. */
  ghost predicate Indexed(db: Db, now: int) {
    forall id :: Acceptable(db, id, now) ==>
      var s := db.keys[id].session;
      s.userID in db.index && id in db.index[s.userID].ids && Outlives(db.index[s.userID].expiry, s.expiresAt)
  }

  /** An index names only sessions of its own user. */
  ghost predicate Owned(db: Db) {
    forall user, id :: user in db.index && id in db.index[user].ids && id in db.keys ==>
      db.keys[id].session.userID == user
  }

  ghost predicate Sane(w: Windows, db: Db, now: int) {
    forall id :: id in db.keys ==> Timed(w, db.keys[id]) && db.keys[id].session.lastSeenAt <= now
  }

  ghost predicate Agrees(w: Windows, db: Db, now: int) {
    Positive(w) && Indexed(db, now) && Owned(db) && Sane(w, db, now)
  }

  /** An id that was never issued is nowhere. */
  ghost predicate Unknown(db: Db, id: string) {
    id !in db.keys && forall user :: user in db.index ==> id !in db.index[user].ids
  }

  lemma TimePasses(w: Windows, db: Db, now: int, later: int)
    requires Agrees(w, db, now) && now <= later
    ensures Agrees(w, db, later)
  {
    forall id | Acceptable(db, id, later) ensures Acceptable(db, id, now) {
    }
  }

  lemma CreatedIs(w: Windows, db: Db, user: string, id: string, now: int)
    requires Positive(w)
    ensures Created(w, db, user, id, now)
         == Db(db.keys[id := Born(w, user, now)],
               db.index[user := Index(Members(db, user, now) + {id}, At(now + w.absolute))])
  {
    var added := SAdd(SetKey(db, id, Born(w, user, now)), user, {id}, now);
    assert added.index == db.index[user := added.index[user]];
    assert added.index[user].ids == Members(db, user, now) + {id};
    assert Created(w, db, user, id, now).index == db.index[user := Index(added.index[user].ids, At(now + w.absolute))];
  }

  lemma CreateAgrees(w: Windows, db: Db, user: string, id: string, now: int)
    requires Agrees(w, db, now) && Unknown(db, id)
    ensures var after := Created(w, db, user, id, now);
            && Agrees(w, after, now)
            && Members(after, user, now) == Members(db, user, now) + {id}
            && after.keys == db.keys[id := Born(w, user, now)]
            && (forall u :: u != user ==> (u in after.index <==> u in db.index))
            && (forall u :: u != user && u in db.index ==> after.index[u] == db.index[u])
  {
    hide Created;
    CreatedIs(w, db, user, id, now);
    var after := Created(w, db, user, id, now);
    forall i | Acceptable(after, i, now)
      ensures var s := after.keys[i].session;
              && s.userID in after.index && i in after.index[s.userID].ids
              && Outlives(after.index[s.userID].expiry, s.expiresAt)
    {
      if i != id {
        assert Acceptable(db, i, now);
        assert Timed(w, db.keys[i]);
      }
    }
  }

  /** Storing the session again under its id, for the user it belongs to, at a
      time when the key may already be gone. */
  lemma TouchAgrees(w: Windows, db: Db, id: string, at: int, now: int)
    requires Agrees(w, db, at) && at <= now && Acceptable(db, id, at)
    ensures Agrees(w, SetKey(db, id, Touched(w, db.keys[id], now)), now)
  {
    var after := SetKey(db, id, Touched(w, db.keys[id], now));
    assert Timed(w, db.keys[id]);
    forall i | Acceptable(after, i, now)
      ensures var s := after.keys[i].session;
              && s.userID in after.index && i in after.index[s.userID].ids
              && Outlives(after.index[s.userID].expiry, s.expiresAt)
    {
      assert Acceptable(db, i, at);
    }
  }

  /** Deleting keys, and dropping from one user's index only ids whose keys are
      gone, keeps the agreement: what every way of revoking does. */
  lemma ShrinkAgrees(w: Windows, db: Db, after: Db, user: string, now: int)
    requires Agrees(w, db, now)
    requires after.keys.Keys <= db.keys.Keys && forall id :: id in after.keys ==> after.keys[id] == db.keys[id]
    requires forall u :: u != user ==> (u in after.index <==> u in db.index)
    requires forall u :: u != user && u in db.index ==> after.index[u] == db.index[u]
    requires user in after.index ==> user in db.index && after.index[user].ids <= db.index[user].ids
    requires forall id :: user in db.index && id in db.index[user].ids && Acceptable(after, id, now) ==>
               user in after.index && id in after.index[user].ids
    requires user in after.index ==>
               after.index[user].expiry == db.index[user].expiry || Outlives(after.index[user].expiry, now + w.absolute)
    ensures Agrees(w, after, now)
  {
    forall i | Acceptable(after, i, now)
      ensures var s := after.keys[i].session;
              && s.userID in after.index && i in after.index[s.userID].ids
              && Outlives(after.index[s.userID].expiry, s.expiresAt)
    {
      assert Acceptable(db, i, now);
      assert Timed(w, db.keys[i]);
    }
  }

  lemma RevokedIs(db: Db, user: string, id: string, now: int)
    ensures var after := Revoked(db, user, id, now);
            && after.keys == db.keys - {id}
            && (forall u :: u != user ==> (u in after.index <==> u in db.index))
            && (forall u :: u != user && u in db.index ==> after.index[u] == db.index[u])
            && (user in after.index ==>
                  && user in db.index && after.index[user].ids <= db.index[user].ids
                  && after.index[user].expiry == db.index[user].expiry)
            && (forall i :: user in db.index && i in db.index[user].ids && i != id ==>
                  user in after.index && i in after.index[user].ids)
  {
    if user in db.index && Live(db.index[user].expiry, now) {
      var left := db.index[user].ids - {id};
      assert forall i :: i in db.index[user].ids && i != id ==> i in left;
    }
  }

  lemma RevokeAgrees(w: Windows, db: Db, user: string, id: string, now: int)
    requires Agrees(w, db, now)
    ensures Agrees(w, Revoked(db, user, id, now), now)
    ensures Revoked(db, user, id, now).keys == db.keys - {id}
  {
    hide Revoked, Agrees;
    RevokedIs(db, user, id, now);
    ShrinkAgrees(w, db, Revoked(db, user, id, now), user, now);
  }

  /** Total revocation: no session of the user is acceptable any longer except
      the kept one, which is as acceptable as before; nobody else's changes. */
  lemma RevokeAllIsTotal(w: Windows, db: Db, user: string, keep: string, now: int)
    requires Agrees(w, db, now)
    ensures var ids := Members(db, user, now);
            var after := RevokedAll(w, db, user, ids - {keep}, ids * {keep}, now);
            && Agrees(w, after, now)
            && (forall id :: Acceptable(after, id, now) && after.keys[id].session.userID == user ==> id == keep)
            && (forall id :: id in db.keys && (id == keep || db.keys[id].session.userID != user) ==>
                  id in after.keys && after.keys[id] == db.keys[id])
            && after.keys.Keys <= db.keys.Keys && (forall id :: id in after.keys ==> after.keys[id] == db.keys[id])
            && OthersKept(db, after, user)
            && Members(after, user, now) == ids * {keep}
            && (user in after.index ==> user in db.index && after.index[user].ids <= db.index[user].ids)
  {
    hide RevokedAll, Members, OthersKept;
    var ids := Members(db, user, now);
    var after := RevokedAll(w, db, user, ids - {keep}, ids * {keep}, now);
    RevokedAllIs(w, db, user, keep, now);
    assert forall u :: u != user ==> (u in after.index <==> u in db.index) by { OthersUnfold(db, after, user); }
    assert forall u :: u != user && u in db.index ==> after.index[u] == db.index[u] by {
      OthersUnfold(db, after, user);
    }
    forall id | id in db.keys && user in db.index && id in db.index[user].ids && Acceptable(after, id, now)
      ensures user in after.index && id in after.index[user].ids
    {
      IndexedIsMember(w, db, id, now);
    }
    ShrinkAgrees(w, db, after, user, now);
    forall id | Acceptable(after, id, now) && after.keys[id].session.userID == user ensures id == keep {
      IndexedIsMember(w, db, id, now);
    }
  }

  lemma OthersUnfold(db: Db, after: Db, user: string)
    requires OthersKept(db, after, user)
    ensures forall u :: u != user ==> (u in after.index <==> u in db.index)
    ensures forall u :: u != user && u in db.index ==> after.index[u] == db.index[u]
  {
  }

  /** An acceptable session is listed by its user's index, which is alive. */
  lemma IndexedIsMember(w: Windows, db: Db, id: string, now: int)
    requires Agrees(w, db, now) && id in db.keys
    ensures Acceptable(db, id, now) ==> id in Members(db, db.keys[id].session.userID, now)
  {
  }

  lemma RevokedAllIs(w: Windows, db: Db, user: string, keep: string, now: int)
    requires Positive(w) && Owned(db)
    ensures var ids := Members(db, user, now);
            var after := RevokedAll(w, db, user, ids - {keep}, ids * {keep}, now);
            && after.keys == db.keys - (ids - {keep})
            && OthersKept(db, after, user) && Members(after, user, now) == ids * {keep}
            && (user in after.index ==> user in db.index && after.index[user].ids <= db.index[user].ids)
            && (user in after.index ==> after.index[user].expiry == At(now + w.absolute))
            && (keep in ids ==> user in after.index && keep in after.index[user].ids)
            && (forall id :: id in ids && id in db.keys ==> db.keys[id].session.userID == user)
  {
    var ids := Members(db, user, now);
    if keep in ids {
      assert ids * {keep} == {keep};
    } else {
      assert ids * {keep} == {};
    }
  }

  // ---------------------------------------------------------------------
  // Trimming
  // ---------------------------------------------------------------------

  /** The indexed ids whose keys exist. */
  ghost function LiveOnes(db: Db, user: string, now: int): set<string> {
    set id | id in Members(db, user, now) && Found(db, id, now)
  }

  /** What a trim that met no error leaves: of the live sessions it keeps the
      newest, as many as the cap allows; the index becomes exactly those. */
  ghost predicate Trimmed(db: Db, after: Db, user: string, now: int) {
    var live, kept := LiveOnes(db, user, now), Members(after, user, now);
    && kept <= live && after.keys == db.keys - (live - kept)
    && |kept| == (if |live| > MAX_SESSIONS_PER_USER then MAX_SESSIONS_PER_USER else |live|)
    && (forall dropped, id :: dropped in live - kept && id in kept ==>
          db.keys[dropped].session.createdAt <= db.keys[id].session.createdAt)
    && OthersKept(db, after, user)
  }

  ghost predicate OthersKept(db: Db, after: Db, user: string) {
    && (forall u :: u != user ==> (u in after.index <==> u in db.index))
    && (forall u :: u != user && u in db.index ==> after.index[u] == db.index[u])
  }

  /** What a trim leaves in any case: some indexed sessions are dropped, and an
      id leaves the index only if its key is gone. */
  ghost predicate TrimmedAtMost(db: Db, after: Db, user: string, now: int) {
    && OthersKept(db, after, user)
    && after.keys.Keys <= db.keys.Keys && db.keys.Keys - after.keys.Keys <= LiveOnes(db, user, now)
    && (forall id :: id in after.keys ==> after.keys[id] == db.keys[id])
    && (user in after.index ==> user in db.index && after.index[user].expiry == db.index[user].expiry
                                && after.index[user].ids <= db.index[user].ids)
    && (forall id :: user in db.index && id in db.index[user].ids && Found(after, id, now) ==>
          user in after.index && id in after.index[user].ids)
  }

  lemma TrimAgrees(w: Windows, db: Db, after: Db, user: string, now: int)
    requires Agrees(w, db, now) && TrimmedAtMost(db, after, user, now)
    ensures Agrees(w, after, now)
  {
    ShrinkAgrees(w, db, after, user, now);
  }

  datatype Entry = Entry(id: string, created: int)

  ghost function Ids(live: seq<Entry>): set<string> {
    set e | e in live :: e.id
  }

  ghost predicate DistinctIds(live: seq<Entry>) {
    forall i, j :: 0 <= i < j < |live| ==> live[i].id != live[j].id
  }

  /** A trim under way: `live` are the sessions still kept, `stale` the ids that
      are to leave the index. */
  ghost predicate Trimming(db: Db, after: Db, user: string, now: int, live: seq<Entry>, stale: set<string>) {
    var found := LiveOnes(db, user, now);
    && DistinctIds(live) && Ids(live) <= found
    && stale == Members(db, user, now) - Ids(live)
    && after == DelKeys(db, found - Ids(live))
    && |live| == |Ids(live)|
    && (found == Ids(live) || |live| >= MAX_SESSIONS_PER_USER)
    && (forall e :: e in live ==> e.id in Ids(live) && db.keys[e.id].session.createdAt == e.created)
    && (forall gone, e :: gone in found - Ids(live) && e in live ==> db.keys[gone].session.createdAt <= e.created)
  }

  function Without(live: seq<Entry>, k: nat): (rest: seq<Entry>)
    requires k < |live|
    ensures |rest| == |live| - 1
    ensures forall i :: 0 <= i < |rest| ==> rest[i] == live[if i < k then i else i + 1]
  {
    live[..k] + live[k + 1..]
  }

  lemma RestIds(live: seq<Entry>, k: nat)
    requires DistinctIds(live) && k < |live|
    ensures var rest := Without(live, k);
            && DistinctIds(rest) && Ids(rest) == Ids(live) - {live[k].id}
            && (forall e :: e in rest ==> e in live && e.id != live[k].id)
  {
    hide Without;
    var rest, id := Without(live, k), live[k].id;
    forall e | e in rest ensures e in live && e.id != id {
      var i :| 0 <= i < |rest| && rest[i] == e;
    }
    forall e | e in live && e.id != id ensures e in rest {
      var i :| 0 <= i < |live| && live[i] == e;
      assert e == rest[if i < k then i else i - 1];
    }
    assert DistinctIds(rest);
  }

  lemma DropOldest(db: Db, after: Db, user: string, now: int, live: seq<Entry>, stale: set<string>, k: nat)
    requires Trimming(db, after, user, now, live, stale)
    requires |live| > MAX_SESSIONS_PER_USER && k < |live|
    requires forall e :: e in live ==> live[k].created <= e.created
    ensures Trimming(db, DelKeys(after, {live[k].id}), user, now, Without(live, k), stale + {live[k].id})
  {
    hide LiveOnes, Members, Ids, DistinctIds, DelKeys, Without;
    var rest, id := Without(live, k), live[k].id;
    RestIds(live, k);
    assert live[k] in live && id in Ids(live);
    var found := LiveOnes(db, user, now);
    OneMoreOut(found, Ids(live), id);
    LiveAreMembers(db, user, now);
    OneMoreOut(Members(db, user, now), Ids(live), id);
    DelOneMore(db, found - Ids(live), id);
    assert |rest| == |Ids(rest)|;
  }

  lemma OneMoreOut(all: set<string>, kept: set<string>, id: string)
    requires id in kept && kept <= all
    ensures all - (kept - {id}) == (all - kept) + {id}
  {
  }

  lemma DelOneMore(db: Db, gone: set<string>, id: string)
    ensures DelKeys(DelKeys(db, gone), {id}) == DelKeys(db, gone + {id})
  {
    assert db.keys - gone - {id} == db.keys - (gone + {id});
  }

  lemma LiveAreMembers(db: Db, user: string, now: int)
    ensures LiveOnes(db, user, now) <= Members(db, user, now) && LiveOnes(db, user, now) <= db.keys.Keys
  {
  }

  lemma SRemMembers(db: Db, user: string, ids: set<string>, now: int)
    ensures var after := SRem(db, user, ids, now);
            && Members(after, user, now) == Members(db, user, now) - ids
            && after.keys == db.keys && OthersKept(db, after, user)
  {
  }

  lemma TrimDone(db: Db, after: Db, user: string, now: int, live: seq<Entry>, stale: set<string>)
    requires Trimming(db, after, user, now, live, stale) && |live| <= MAX_SESSIONS_PER_USER
    ensures Trimmed(db, SRem(after, user, stale, now), user, now)
    ensures stale == {} ==> Trimmed(db, after, user, now)
  {
    hide SRem, LiveOnes, Ids, DistinctIds, Trimmed, Members, OthersKept;
    OthersAreKept(db, after);
    LiveAreMembers(db, user, now);
    SRemMembers(after, user, stale, now);
    SameIndexMembers(db, after, user, now);
    assert Members(db, user, now) - stale == Ids(live);
    IndexIsTrimmed(db, after, SRem(after, user, stale, now), user, now, live, stale);
    if stale == {} {
      IndexIsTrimmed(db, after, after, user, now, live, stale);
    }
  }

  lemma OthersAreKept(db: Db, after: Db)
    ensures after.index == db.index ==> forall user, end :: OthersKept(after, end, user) ==> OthersKept(db, end, user)
    ensures after.index == db.index ==> forall user :: OthersKept(db, after, user)
  {
  }

  lemma SameIndexMembers(db: Db, after: Db, user: string, now: int)
    ensures after.index == db.index ==> Members(after, user, now) == Members(db, user, now)
  {
  }

  lemma IndexIsTrimmed(db: Db, after: Db, end: Db, user: string, now: int, live: seq<Entry>, stale: set<string>)
    requires Trimming(db, after, user, now, live, stale) && |live| <= MAX_SESSIONS_PER_USER
    requires Members(end, user, now) == Ids(live) && end.keys == after.keys && OthersKept(db, end, user)
    ensures Trimmed(db, end, user, now)
  {
    LiveAreMembers(db, user, now);
    hide LiveOnes, Members, OthersKept, DistinctIds;
    var found := LiveOnes(db, user, now);
    forall gone, id | gone in found - Ids(live) && id in Ids(live)
      ensures db.keys[gone].session.createdAt <= db.keys[id].session.createdAt
    {
      var e :| e in live && e.id == id;
    }
    hide Ids;
    if found != Ids(live) {
      ProperSubset(Ids(live), found);
    }
  }

  lemma ProperSubset(a: set<string>, b: set<string>)
    requires a < b
    ensures |a| < |b|
  {
    assert b == a + (b - a);
    assert |b - a| > 0;
  }

  lemma TrimStopped(db: Db, after: Db, user: string, now: int, live: seq<Entry>, stale: set<string>)
    requires Trimming(db, after, user, now, live, stale)
    ensures TrimmedAtMost(db, after, user, now)
    ensures forall id :: id in stale ==> !Found(after, id, now)
  {
    LiveAreMembers(db, user, now);
    forall id | id in stale ensures !Found(after, id, now) {
      if Found(db, id, now) {
        assert id in LiveOnes(db, user, now) - Ids(live);
      }
    }
  }

  lemma SRemIsSafe(db: Db, after: Db, user: string, now: int, stale: set<string>)
    requires TrimmedAtMost(db, after, user, now)
    requires forall id :: id in stale ==> !Found(after, id, now)
    ensures TrimmedAtMost(db, SRem(after, user, stale, now), user, now)
  {
    if user in after.index && Live(after.index[user].expiry, now) {
      var left := after.index[user].ids - stale;
      forall id | id in after.index[user].ids && Found(after, id, now) ensures id in left {
      }
    }
  }

  lemma TrimNothing(db: Db, user: string, now: int)
    ensures TrimmedAtMost(db, db, user, now)
  {
  }

  // ---------------------------------------------------------------------
  // Looking the indexed ids up
  // ---------------------------------------------------------------------

  ghost predicate Sorted(db: Db, now: int, ids: seq<string>, live: seq<Entry>, stale: set<string>) {
    && DistinctIds(live) && |live| == |Ids(live)|
    && Ids(live) + stale == Elements(ids)
    && (forall id :: id in stale ==> !Found(db, id, now))
    && (forall e :: e in live ==> Found(db, e.id, now) && db.keys[e.id].session.createdAt == e.created)
  }

  lemma IdsPrefix(ids: seq<string>, i: nat)
    requires i < |ids| && Distinct(ids)
    ensures Elements(ids[..i + 1]) == Elements(ids[..i]) + {ids[i]}
    ensures ids[i] !in Elements(ids[..i])
  {
    assert ids[..i + 1] == ids[..i] + [ids[i]];
    ElementsMore(ids[..i], ids[i]);
  }

  lemma SplitOne(a: set<string>, id: string, keep: string)
    requires id !in a
    ensures (a + {id}) - {keep} == if id == keep then a - {keep} else (a - {keep}) + {id}
    ensures (a + {id}) * {keep} == if id == keep then (a * {keep}) + {id} else a * {keep}
    ensures id != keep ==> |(a + {id}) - {keep}| == |a - {keep}| + 1
  {
    if id != keep {
      assert (a + {id}) - {keep} == (a - {keep}) + {id};
    }
  }

  lemma SortMissing(db: Db, now: int, ids: seq<string>, i: nat, live: seq<Entry>, stale: set<string>)
    requires i < |ids| && Distinct(ids)
    requires Sorted(db, now, ids[..i], live, stale) && !Found(db, ids[i], now)
    ensures Sorted(db, now, ids[..i + 1], live, stale + {ids[i]})
  {
    hide Elements, Ids, DistinctIds;
    IdsPrefix(ids, i);
  }

  lemma SortFound(db: Db, now: int, ids: seq<string>, i: nat, live: seq<Entry>, stale: set<string>)
    requires i < |ids| && Distinct(ids)
    requires Sorted(db, now, ids[..i], live, stale) && Found(db, ids[i], now)
    ensures Sorted(db, now, ids[..i + 1], live + [Entry(ids[i], db.keys[ids[i]].session.createdAt)], stale)
  {
    hide Elements, Ids, DistinctIds;
    IdsPrefix(ids, i);
    assert ids[i] !in Ids(live);
    var e := Entry(ids[i], db.keys[ids[i]].session.createdAt);
    OneMoreEntry(live, e);
    assert (Ids(live) + {e.id}) + stale == Elements(ids[..i + 1]);
  }

  lemma OneMoreEntry(live: seq<Entry>, e: Entry)
    requires DistinctIds(live) && e.id !in Ids(live)
    ensures DistinctIds(live + [e]) && Ids(live + [e]) == Ids(live) + {e.id}
  {
    forall k | 0 <= k < |live| ensures live[k].id != e.id {
      assert live[k] in live;
    }
  }

  lemma SortedAll(db: Db, user: string, now: int, ids: seq<string>, live: seq<Entry>, stale: set<string>)
    requires Sorted(db, now, ids, live, stale) && Elements(ids) == Members(db, user, now)
    ensures Trimming(db, db, user, now, live, stale) && Ids(live) == LiveOnes(db, user, now)
  {
    forall id | id in Ids(live) ensures id in LiveOnes(db, user, now) {
      assert id in Elements(ids);
      var e :| e in live && e.id == id;
    }
    forall id | id in LiveOnes(db, user, now) ensures id in Ids(live) {
    }
    assert LiveOnes(db, user, now) - Ids(live) == {};
    assert db.keys - {} == db.keys;
  }
}
