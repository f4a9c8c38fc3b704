/** The inbox hub (internal/inbox/hub.go): events for a user, delivered to every
    connection the user holds open. Every operation holds the hub's mutex, so
    each is one step; the connections' writers drain their queues in between. */
module Inbox {

  const SEND_BUFFER_SIZE: nat := 16

  class Conn {
    const userID: string
    const capacity: nat
    var send: seq<string>  // the buffered channel
    var open: bool         // not yet closed by the hub
    ghost var accepted: seq<string>  // every event the queue ever took
    ghost var taken: seq<string>     // every event the writer took off it

    ghost predicate Valid()
      reads `send, `accepted, `taken
    {
      |send| <= capacity && accepted == taken + send
    }

    constructor (userID: string)
      ensures Valid() && open && send == [] && this.userID == userID && capacity == 16
    {
      this.userID, capacity, send, open := userID, SEND_BUFFER_SIZE, [], true;
      accepted, taken := [], [];
    }

    function View(): Slot
      reads `send, `open
    {
      Slot(send, open, capacity)
    }

    /** The non-blocking send on an open channel. */
    method TrySend(data: string) returns (ok: bool)
      requires Valid() && open
      modifies `send, `accepted
      ensures Valid()
      ensures ok <==> old(|send|) < capacity
      ensures send == (if ok then old(send) + [data] else old(send))
      ensures accepted == (if ok then old(accepted) + [data] else old(accepted))
    {
      ok := |send| < capacity;
      if ok {
        send, accepted := send + [data], accepted + [data];
        assert accepted == taken + send;
      }
    }

    method Close()
      requires open
      modifies `open
      ensures !open
    {
      open := false;
    }

    /** The writer takes the next event off the queue. */
    method Take() returns (data: string)
      requires Valid() && send != []
      modifies `send, `taken
      ensures Valid() && old(send) == [data] + send && taken == old(taken) + [data]
    {
      data := send[0];
      taken, send := taken + [data], send[1..];
    }
  }

  function Size(conns: set<Conn>): nat {
    |conns|
  }

  /** What the hub can tell about a connection. */
  datatype Slot = Slot(send: seq<string>, open: bool, capacity: nat)

  ghost function Slots(conns: set<Conn>): map<Conn, Slot>
    reads conns
  {
    map c | c in conns :: c.View()
  }

  /** The connections with room for one more event. */
  ghost function Roomy(slots: map<Conn, Slot>, among: set<Conn>): set<Conn> {
    set c | c in among && c in slots && |slots[c].send| < slots[c].capacity
  }

  lemma RoomyIs(slots: map<Conn, Slot>, among: set<Conn>)
    ensures Roomy(slots, among) == set c | c in among && c in slots && |slots[c].send| < slots[c].capacity
  {
  }

  lemma SizeIs(conns: set<Conn>)
    ensures Size(conns) == |conns| && (Size(conns) == 0 <==> conns == {})
  {
  }

  lemma NoneRoomy(slots: map<Conn, Slot>)
    ensures Roomy(slots, {}) == {} && Size({}) == 0
  {
  }

  lemma RoomyIsVisited(slots: map<Conn, Slot>, visited: set<Conn>)
    ensures Roomy(slots, visited) <= visited
  {
  }

  lemma RoomyOne(slots: map<Conn, Slot>, visited: set<Conn>, c: Conn, mine: set<Conn>)
    requires c in slots && c !in visited && c in mine && visited <= mine && slots.Keys == mine
    ensures var room := |slots[c].send| < slots[c].capacity;
            && Size(Roomy(slots, visited + {c})) == Size(Roomy(slots, visited)) + (if room then 1 else 0)
            && (mine - visited) + Roomy(slots, visited) - (if room then {} else {c})
               == (mine - (visited + {c})) + Roomy(slots, visited + {c})
  {
    hide Roomy, Size;
    RoomyIsVisited(slots, visited);
    RoomyMore(slots, visited, c);
    OneLessLeft(mine, visited, c);
    if |slots[c].send| < slots[c].capacity {
      StaysIn(mine - visited, Roomy(slots, visited), c);
      SizeMore(Roomy(slots, visited), c);
    } else {
      GoesOut(mine - visited, Roomy(slots, visited), c);
    }
  }

  lemma OneLessLeft(mine: set<Conn>, visited: set<Conn>, c: Conn)
    ensures mine - (visited + {c}) == mine - visited - {c}
  {
  }

  lemma RoomyMore(slots: map<Conn, Slot>, visited: set<Conn>, c: Conn)
    requires c in slots
    ensures Roomy(slots, visited + {c})
         == if |slots[c].send| < slots[c].capacity then Roomy(slots, visited) + {c} else Roomy(slots, visited)
  {
  }

  lemma StaysIn(left: set<Conn>, kept: set<Conn>, c: Conn)
    requires c in left
    ensures left + kept == (left - {c}) + (kept + {c})
    ensures left + kept - {} == left + kept
  {
  }

  lemma GoesOut(left: set<Conn>, kept: set<Conn>, c: Conn)
    requires c !in kept
    ensures left + kept - {c} == (left - {c}) + kept
  {
  }

  lemma SizeMore(conns: set<Conn>, c: Conn)
    requires c !in conns
    ensures Size(conns + {c}) == Size(conns) + 1
  {
  }

  /** What one delivery does to a connection: it takes the event, or it is
      closed because its queue is full. */
  ghost function Offered(s: Slot, data: string): Slot {
    if |s.send| < s.capacity then s.(send := s.send + [data]) else s.(open := false)
  }

  lemma OfferedIs(s: Slot, data: string)
    ensures Offered(s, data).send == if |s.send| < s.capacity then s.send + [data] else s.send
    ensures Offered(s, data).open == (|s.send| < s.capacity && s.open)
  {
  }

  lemma OfIs(users: map<string, set<Conn>>, user: string)
    ensures Of(users, user) == if user in users then users[user] else {}
  {
  }

  lemma SameOthers(before: map<string, set<Conn>>, users: map<string, set<Conn>>, user: string)
    requires forall u :: u != user ==> Of(users, u) == Of(before, u)
    requires forall u :: u in users ==> users[u] != {}
    requires forall u :: u in before ==> before[u] != {}
    ensures users - {user} == before - {user}
  {
    forall u | u != user ensures (u in users <==> u in before) && (u in users ==> users[u] == before[u]) {
      assert Of(users, u) == Of(before, u);
    }
  }

  function Of(users: map<string, set<Conn>>, user: string): set<Conn> {
    if user in users then users[user] else {}
  }

  function With(users: map<string, set<Conn>>, c: Conn): map<string, set<Conn>> {
    users[c.userID := Of(users, c.userID) + {c}]
  }

  lemma WithIs(users: map<string, set<Conn>>, c: Conn)
    ensures With(users, c) == users[c.userID := (if c.userID in users then users[c.userID] else {}) + {c}]
  {
  }

  /** A set that becomes empty goes from the map. */
  function Without(users: map<string, set<Conn>>, c: Conn): map<string, set<Conn>> {
    if c.userID !in users then users
    else
      var left := users[c.userID] - {c};
      if left == {} then users - {c.userID} else users[c.userID := left]
  }

  lemma WithoutIs(users: map<string, set<Conn>>, c: Conn, user: string)
    ensures Of(Without(users, c), user) == if user == c.userID then Of(users, user) - {c} else Of(users, user)
  {
  }

  /** The map holds the members, each under its user, and no empty set. */
  ghost predicate Books(users: map<string, set<Conn>>, members: set<Conn>) {
    && (forall user :: user in users ==> users[user] != {})
    && (forall user, c :: user in users && c in users[user] ==> c in members && c.userID == user)
    && (forall c :: c in members ==> c in Of(users, c.userID))
  }

  ghost predicate Tidy(users: map<string, set<Conn>>, closed: bool, count: int, members: set<Conn>, ever: set<Conn>) {
    && Books(users, members) && count == Size(members) && members <= ever
    && (closed ==> members == {})
  }

  lemma TidyWith(users: map<string, set<Conn>>, count: int, members: set<Conn>, ever: set<Conn>, c: Conn)
    requires Tidy(users, false, count, members, ever) && c !in ever
    ensures Tidy(With(users, c), false, count + 1, members + {c}, ever + {c})
  {
    BooksWith(users, members, c);
    hide Books, With;
    assert Size(members + {c}) == Size(members) + 1;
  }

  lemma BooksWith(users: map<string, set<Conn>>, members: set<Conn>, c: Conn)
    requires Books(users, members)
    ensures Books(With(users, c), members + {c})
  {
  }

  lemma TidyWithout(users: map<string, set<Conn>>, closed: bool, count: int, members: set<Conn>, ever: set<Conn>,
                    c: Conn)
    requires Tidy(users, closed, count, members, ever)
    ensures members <= ever && (c in members <==> c in Of(users, c.userID))
    ensures c in members ==> Tidy(Without(users, c), closed, count - 1, members - {c}, ever)
    ensures c !in members ==> Without(users, c) == users
  {
    BooksWithout(users, members, c);
    WithoutNothing(users, members, c);
    assert c in members <==> c in Of(users, c.userID);
    hide Books, Without;
    if c in members {
      assert Size(members - {c}) == Size(members) - 1;
    }
  }

  lemma BooksWithout(users: map<string, set<Conn>>, members: set<Conn>, c: Conn)
    requires Books(users, members)
    ensures Books(Without(users, c), members - {c})
  {
  }

  lemma OpenOnesWithout(ever: set<Conn>, members: set<Conn>, c: Conn)
    requires forall d :: d in ever ==> d.Valid() && (d.open <==> d in members && d != c)
    ensures OpenOnes(ever, members - {c})
  {
  }

  lemma OneOut(users: map<string, set<Conn>>, c: Conn)
    ensures forall user ::
              Of(Without(users, c), user) == Of(users, user) - if user == c.userID then {c} else {}
  {
    forall user
      ensures Of(Without(users, c), user) == Of(users, user) - if user == c.userID then {c} else {}
    {
      WithoutIs(users, c, user);
    }
  }

  lemma WithoutUnfolds(users: map<string, set<Conn>>, c: Conn)
    ensures c in Of(users, c.userID) <==> c.userID in users && c in users[c.userID]
    ensures c.userID in users ==>
              var left := users[c.userID] - {c};
              Without(users, c) == if left == {} then users - {c.userID} else users[c.userID := left]
  {
  }

  lemma WithoutNothing(users: map<string, set<Conn>>, members: set<Conn>, c: Conn)
    requires Books(users, members)
    ensures c !in Of(users, c.userID) ==> Without(users, c) == users
  {
    if c.userID in users && c !in users[c.userID] {
      assert users[c.userID] - {c} == users[c.userID];
      assert users[c.userID := users[c.userID]] == users;
    }
  }

  ghost predicate OpenOnes(ever: set<Conn>, members: set<Conn>)
    reads ever
  {
    forall c :: c in ever ==> c.Valid() && (c.open <==> c in members)
  }

  lemma OpenUnfolds(ever: set<Conn>, members: set<Conn>)
    requires OpenOnes(ever, members)
    ensures forall c :: c in ever ==> c.Valid() && (c.open <==> c in members)
  {
  }

  lemma OpenOnesWith(ever: set<Conn>, members: set<Conn>, c: Conn)
    requires OpenOnes(ever, members) && c !in ever && c.Valid() && c.open
    ensures OpenOnes(ever + {c}, members + {c})
  {
  }

  class Hub {
    var users: map<string, set<Conn>>
    var closed: bool
    var count: int
    ghost var members: set<Conn>  // the connections of all users
    ghost var ever: set<Conn>     // every connection that was ever added

    /** The count is the number of connections, no user is kept without any,
        and of all connections ever added exactly the members are open. */
    ghost predicate Valid()
      reads this, ever
    {
      Tidy(users, closed, count, members, ever) && OpenOnes(ever, members)
    }

    constructor ()
      ensures Valid() && users == map[] && !closed && ever == {}
    {
      users, closed, count, members, ever := map[], false, 0, {}, {};
    }

    /** Queues an event on every connection of the user and reports how many
        took it: those are the user's connections afterwards. A connection that
        did not drain its queue is removed and closed, while the loop runs over
        the very set it is removed from. */
    method Deliver(userID: string, data: string) returns (delivered: nat, ghost mine: set<Conn>)
      requires Valid()
      modifies this`users, this`count, this`members, Of(users, userID)
      ensures Valid()
      ensures mine == if userID in old(users) then old(users)[userID] else {}
      ensures forall c :: c in mine ==>
                if |old(c.send)| < c.capacity then c.send == old(c.send) + [data] && c.open
                else c.send == old(c.send) && !c.open
      ensures delivered == |set c | c in mine && |old(c.send)| < c.capacity|
      ensures users - {userID} == old(users) - {userID} && count == old(count) - |mine| + delivered
      ensures if delivered == 0 then userID !in users
              else userID in users && users[userID] == set c | c in mine && |old(c.send)| < c.capacity
    {
      hide Tidy, Of, Roomy, Slots, OpenOnes, Size, Offered, Valid;
      OfIs(users, userID);
      mine := Of(users, userID);
      ghost var slots, before := Slots(mine), users;
      SlotsOf(mine);
      MineAreMembers(userID);
      MembersAreOpen();
      NoneKeptEmpty(userID);
      SizeIs(mine);
      delivered := DeliverToEach(userID, data);
      RoomyIs(slots, mine);
      RoomyIsVisited(slots, mine);
      SizeIs(Roomy(slots, mine));
      NoneKeptEmpty(userID);
      SameOthers(before, users, userID);
      forall c | c in mine
        ensures if |old(c.send)| < c.capacity then c.send == old(c.send) + [data] && c.open
                else c.send == old(c.send) && !c.open
      {
        OfferedIs(slots[c], data);
      }
      assert Roomy(slots, mine) == set c | c in mine && |old(c.send)| < c.capacity;
    }

    lemma MembersAreOpen()
      requires Valid()
      ensures members <= ever && forall c :: c in members ==> c.open
    {
    }

    lemma NoneKeptEmpty(userID: string)
      requires Valid()
      ensures if userID in users then Of(users, userID) == users[userID] != {} else Of(users, userID) == {}
      ensures forall user :: user in users ==> users[user] != {}
    {
    }

    /** The loop of deliver. */
    method DeliverToEach(userID: string, data: string) returns (delivered: nat)
      requires Valid()
      modifies this`users, this`count, this`members, Of(users, userID)
      ensures Valid()
      ensures count == old(count) - Size(old(Of(users, userID))) + delivered
      ensures delivered == Size(Of(users, userID))
      ensures Of(users, userID) == Roomy(old(Slots(Of(users, userID))), old(Of(users, userID)))
      ensures forall c :: c in old(Of(users, userID)) ==> c.View() == Offered(old(c.View()), data)
      ensures forall user :: user != userID ==> Of(users, user) == old(Of(users, user))
    {
      hide Tidy, Offered, Without, Of, Roomy, Slots, OpenOnes, Size;
      delivered := 0;
      var visited: set<Conn> := {};
      ghost var mine := Of(users, userID);
      ghost var slots := Slots(mine);
      SlotsOf(mine);
      NoneRoomy(slots);
      while Of(users, userID) - visited != {}
        invariant Valid() && visited <= mine
        invariant Of(users, userID) == (mine - visited) + Roomy(slots, visited)
        invariant delivered == Size(Roomy(slots, visited))
        invariant count == old(count) - Size(visited) + delivered
        invariant forall c :: c in visited ==> c.View() == Offered(slots[c], data)
        invariant forall c :: c in mine - visited ==> c.View() == slots[c]
        invariant forall user :: user != userID ==> Of(users, user) == old(Of(users, user))
        decreases mine - visited
      {
        var c :| c in Of(users, userID) - visited;
        RoomyIsVisited(slots, visited);
        RoomyOne(slots, visited, c, mine);
        var ok := Visit(userID, c, data);
        if ok {
          delivered := delivered + 1;
        }
        SizeMore(visited, c);
        visited := visited + {c};
      }
      RoomyIsVisited(slots, visited);
      assert visited == mine;
      assert Of(users, userID) == Roomy(slots, visited);
    }

    lemma SlotsOf(conns: set<Conn>)
      ensures Slots(conns).Keys == conns
      ensures forall c :: c in conns ==> Slots(conns)[c] == c.View()
    {
    }

    lemma MineAreMembers(user: string)
      requires Valid()
      ensures Of(users, user) <= members
      ensures forall c :: c in Of(users, user) ==> c.userID == user
    {
    }

    /** One round of the delivery loop. */
    method Visit(userID: string, c: Conn, data: string) returns (ok: bool)
      requires Valid() && c in Of(users, userID)
      modifies this`users, this`count, this`members, c
      ensures Valid()
      ensures ok <==> old(|c.send|) < c.capacity
      ensures count == old(count) - if ok then 0 else 1
      ensures c.View() == Offered(old(c.View()), data)
      ensures Of(users, userID) == old(Of(users, userID)) - if ok then {} else {c}
      ensures forall user :: user != userID ==> Of(users, user) == old(Of(users, user))
    {
      MineAreMembers(userID);
      hide Tidy;
      ok := c.TrySend(data);
      if !ok {
        RemoveLocked(c);
      }
    }

    /** Registers a new connection, unless the hub has shut down. */
    method Add(c: Conn) returns (ok: bool)
      requires Valid() && c !in ever && c.Valid() && c.open
      modifies this
      ensures Valid() && closed == old(closed) && ok == !closed
      ensures ok ==>
                users == old(users)[c.userID := (if c.userID in old(users) then old(users)[c.userID] else {}) + {c}]
      ensures ok ==> users == With(old(users), c) && ever == old(ever) + {c} && count == old(count) + 1
      ensures !ok ==> users == old(users) && ever == old(ever) && count == old(count)
    {
      hide Tidy, Of, OpenOnes, With;
      if closed {
        return false;
      }
      TidyWith(users, count, members, ever, c);
      OpenOnesWith(ever, members, c);
      WithIs(users, c);
      ghost var m, e := members + {c}, ever + {c};
      users, count, members, ever := With(users, c), count + 1, m, e;
      assert OpenOnes(e, m);
      return true;
    }

    /** Unregisters a connection; more than once is harmless, and so is one that
        never registered. */
    method Remove(c: Conn)
      requires Valid()
      modifies this`users, this`count, this`members, c`open
      ensures Valid() && c.open == (old(c.open) && c !in ever)
      ensures if c.userID in old(users) && c in old(users)[c.userID] then
                && !c.open && count == old(count) - 1
                && users == (if old(users)[c.userID] == {c} then old(users) - {c.userID}
                             else old(users)[c.userID := old(users)[c.userID] - {c}])
              else
                users == old(users) && count == old(count) && c.open == old(c.open)
    {
      hide Tidy, OpenOnes, Of, Without;
      MemberIsOpen(c);
      WithoutUnfolds(users, c);
      RemoveLocked(c);
    }

    lemma MemberIsOpen(c: Conn)
      requires Valid()
      ensures c in ever && c.open ==> c.userID in users && c in users[c.userID]
      ensures c.userID in users && c in users[c.userID] ==> c in ever && c.open
      ensures c.userID in users && c !in users[c.userID] ==> Without(users, c) == users
      ensures c.userID !in users ==> Without(users, c) == users
    {
      WithoutNothing(users, members, c);
    }

    method RemoveLocked(c: Conn)
      requires Valid()
      modifies this`users, this`count, this`members, c`open
      ensures Valid() && c.open == (old(c.open) && c !in ever)
      ensures users == Without(old(users), c)
      ensures count == old(count) - (if c in old(Of(users, c.userID)) then 1 else 0)
      ensures forall user :: Of(users, user) == old(Of(users, user)) - if user == c.userID then {c} else {}
    {
      hide Tidy, OpenOnes, Size, Of, Without;
      TidyWithout(users, closed, count, members, ever, c);
      OneOut(users, c);
      WithoutUnfolds(users, c);
      OpenUnfolds(ever, members);
      if c.userID !in users {
        return;
      }
      if c !in users[c.userID] {
        return;
      }
      ghost var left := members - {c};
      c.Close();
      OpenOnesWithout(ever, members, c);
      members, count := left, count - 1;
      var others := users[c.userID] - {c};
      users := if others == {} then users - {c.userID} else users[c.userID := others];
    }

    /** Closes every connection, each once, and refuses new ones from now on. */
    method Shutdown()
      requires Valid()
      modifies this, members`open
      ensures Valid() && closed && users == map[] && count == 0 && ever == old(ever)
      ensures forall user, c :: user in old(users) && c in old(users)[user] ==> !c.open
      ensures forall c :: c in ever ==> !c.open
    {
      hide Tidy, OpenOnes, Of;
      ClosedSoFar(users, closed, count, members, ever);
      closed := true;
      var todo := users.Keys;
      while todo != {}
        invariant closed && todo <= users.Keys && users == old(users) && members == old(members) && ever == old(ever)
        invariant forall c :: c in ever ==> (c.open <==> c in members && c.userID in todo)
      {
        var user :| user in todo;
        CloseEach(users[user]);
        todo := todo - {user};
      }
      NoneIsTidy(ever);
      NoneIsOpen(ever);
      users, count, members := map[], 0, {};
    }
  }

  method CloseEach(conns: set<Conn>)
    requires forall c :: c in conns ==> c.open
    modifies conns`open
    ensures forall c :: c in conns ==> !c.open
  {
    var todo := conns;
    while todo != {}
      invariant todo <= conns && forall c :: c in conns ==> (c.open <==> c in todo)
    {
      var c :| c in todo;
      c.Close();
      todo := todo - {c};
    }
  }

  lemma ClosedSoFar(users: map<string, set<Conn>>, closed: bool, count: int, members: set<Conn>, ever: set<Conn>)
    requires Tidy(users, closed, count, members, ever) && OpenOnes(ever, members)
    ensures members <= ever
    ensures forall c :: c in members ==> c.userID in users
    ensures forall user, c :: user in users ==> (c in users[user] <==> c in members && c.userID == user)
    ensures forall c :: c in ever ==> c.Valid() && (c.open <==> c in members)
  {
  }

  lemma NoneIsOpen(ever: set<Conn>)
    requires forall c :: c in ever ==> c.Valid() && !c.open
    ensures OpenOnes(ever, {})
  {
  }

  lemma NoneIsTidy(ever: set<Conn>)
    ensures Tidy(map[], true, 0, {}, ever)
  {
  }
}
