/** The signaling hub (internal/signaling/hub.go): who is in which room, and
    the step each join, departure or message takes. */
module SignalingHub {
  import opened Protocol
  import opened Clients
  import opened Cascade
  import opened Collections
  import opened Confluence
  import opened HubOutcome
  import opened HubPresence
  import opened PresenceLog

  ghost function Box(c: Client): Mailbox
    reads c`offered, c`took, c`accepted, c`taken
  {
    Mailbox(c.offered, c.took, c.accepted, |c.taken|, c.capacity)
  }

  ghost function Snap(s: set<Client>): Room
    reads s`offered, s`took, s`accepted, s`taken
  {
    map c | c in s :: Box(c)
  }

  lemma LeaveCost(pre: Moment, post: Moment, forced: set<Client>, gone: seq<Client>, quiet: bool)
    requires Outcome(pre, post, Nothing, forced, gone, quiet)
    ensures 2 * (post.pushes - pre.pushes) == PushesToEvict(|pre.boxes.Keys|, |gone|)
  {
    hide Settled, Departed, At, Audience, LeftPushes, PushesToEvict;
    NobodyAsked(pre.boxes.Keys);
    LeftPushesExactly(|pre.boxes.Keys|, |gone|);
  }

  lemma DeliverCosts(pre: Moment, post: Moment, m: Message, gone: seq<Client>, quiet: bool)
    requires Outcome(pre, post, Relay(m), {}, gone, quiet)
    ensures 2 * (post.pushes - pre.pushes) <= |pre.boxes.Keys| * (|pre.boxes.Keys| + 1)
  {
    hide Settled, Departed, At, Audience, AnnouncedTo;
    DeliverCost(pre.boxes.Keys, m, gone);
  }

  lemma SnapMinus(s: set<Client>, c: Client)
    ensures Snap(s - {c}) == Snap(s) - {c}
    ensures Snap(s).Keys == s && (c in s ==> Snap(s)[c] == Box(c))
  {
  }

  lemma SnapPlus(s: set<Client>, c: Client)
    ensures Snap(s + {c}) == Snap(s)[c := Box(c)]
  {
  }

  lemma SnapOnly(s: set<Client>, rest: set<Client>)
    requires rest <= s
    ensures Snap(rest) == Snap(s) - (Snap(s).Keys - rest)
  {
  }

  lemma SnapIs(s: set<Client>)
    ensures Snap(s).Keys == s && forall c :: c in s ==> Snap(s)[c] == Box(c)
  {
  }

  lemma SnapSays(s: set<Client>)
    ensures Snap(s).Keys == s
    ensures forall c :: c in s ==> Snap(s)[c].offered == c.offered && Snap(s)[c].accepted == c.accepted
  {
  }

  /** The hub and c's room once c is on the map and was sent its welcome. */
  ghost function Arrival(b: Books, boxes: Room, c: Client, peers: seq<Peer>, pushes: int): Moment {
    var box := if c.capacity > 0 then Greeted(c, peers)
               else Mailbox([Welcome(c.userID, peers)], [false], [], 0, c.capacity);
    Moment(Entered(b, c), c.roomID, boxes[c := box], pushes + 1)
  }

  lemma ArrivalSays(b: Books, boxes: Room, c: Client, peers: seq<Peer>, was: int)
    requires c !in boxes
    ensures var m := Arrival(b, boxes, c, peers, was);
            && m.books == Entered(b, c) && m.room == c.roomID && m.boxes.Keys == boxes.Keys + {c}
            && (forall d :: d in boxes ==> m.boxes[d] == boxes[d])
            && m.boxes[c].offered == [Welcome(c.userID, peers)]
            && m.boxes[c].accepted == (if c.capacity > 0 then [Welcome(c.userID, peers)] else [])
            && m.boxes[c].Free() == if c.capacity > 0 then c.capacity - 1 else 0
  {
  }

  lemma IsArrival(b: Books, boxes: Room, c: Client, peers: seq<Peer>, was: int, now: Moment, box: Mailbox)
    requires now.books == Entered(b, c) && now.room == c.roomID && now.pushes == was + 1
    requires now.boxes == boxes[c := box]
    requires box == if c.capacity > 0 then Greeted(c, peers)
                    else Mailbox([Welcome(c.userID, peers)], [false], [], 0, c.capacity)
    ensures now == Arrival(b, boxes, c, peers, was)
  {
  }

  /** What a join offers the room as it was, and the newcomer. */
  lemma JoinIsHeard(pre: Room, post: Room, boxes: Room, c: Client, peers: seq<Peer>, o: Offer, forced: set<Client>,
                    joined: Outbound, announced: seq<Outbound>, gone: seq<Client>)
    requires c !in boxes && announced == if c.capacity > 0 then [joined] else []
    requires Heard(pre, post, o, forced, gone)
    requires o == if c.capacity > 0 then Announcement(joined, c) else Nothing
    requires forced == if c.capacity > 0 then {} else {c}
    requires pre.Keys == boxes.Keys + {c} && forall d :: d in boxes ==> pre[d] == boxes[d]
    requires pre[c].offered == [Welcome(c.userID, peers)]
    requires c.capacity > 0 ==> pre[c].accepted == [Welcome(c.userID, peers)] && pre[c].Free() == c.capacity - 1
    requires c.capacity == 0 ==> pre[c].accepted == [] && gone != [] && gone[0] == c
    ensures post.Keys == boxes.Keys + {c} && |LeftFrames(gone)| == |gone|
    ensures forall d :: d in boxes && d !in gone ==>
              && post[d].offered == boxes[d].offered + (announced + LeftFrames(gone))
              && post[d].accepted == boxes[d].accepted + (announced + LeftFrames(gone))
    ensures forall i :: 0 <= i < |gone| && gone[i] != c ==>
              && gone[i] in boxes
              && post[gone[i]].offered == boxes[gone[i]].offered + (announced + LeftFrames(gone)[..i])
              && boxes[gone[i]].Free() < |announced| + i
    ensures c !in gone ==>
              && post[c].offered == [Welcome(c.userID, peers)] + LeftFrames(gone)
              && post[c].accepted == [Welcome(c.userID, peers)] + LeftFrames(gone)
    ensures forall i :: 0 <= i < |gone| && gone[i] == c ==>
              post[c].offered == [Welcome(c.userID, peers)] + LeftFrames(gone)[..i] && c.capacity < 1 + i
    ensures c.capacity == 0 ==> post[c].accepted == []
  {
    hide Heard, LeftFrames, Mailbox.Free, Own, Welcome;
    OwnSays(o, c, joined, announced);
    OthersHear(pre, post, o, forced, c, announced, gone);
  }

  lemma FirstFramesSay(c: Client, peers: seq<Peer>)
    ensures var welcome := Welcome(c.userID, peers);
            && welcome.msgType == "welcome" && welcome.sender == c.userID && welcome.payload == ""
            && welcome.peers == peers
    ensures var joined := PeerJoined(c.Peer());
            && joined.msgType == "peer-joined" && joined.sender == c.userID && joined.payload == ""
            && |joined.peers| == 1 && joined.peers[0].id == c.userID && joined.peers[0].displayName == c.displayName
  {
  }

  lemma OwnSays(o: Offer, c: Client, joined: Outbound, announced: seq<Outbound>)
    requires announced == if c.capacity > 0 then [joined] else []
    requires o == if c.capacity > 0 then Announcement(joined, c) else Nothing
    ensures forall d :: Own(o, d) == if d == c then [] else announced
  {
  }

  /** What wakes the hub's loop, and the rounds writers get in between. */
  datatype Event =
    | Register(c: Client)
    | Unregister(c: Client)
    | Broadcast(m: Message)
    | Pump(c: Client, turns: seq<Turn>)

  function Registered(events: seq<Event>): set<Client> {
    set e | e in events && e.Register? :: e.c
  }

  /** Every connection registers at most once, as ServeHTTP made it, and its
      writer starts after that. */
  ghost predicate Admissible(events: seq<Event>, known: set<Client>)
    reads Registered(events)
  {
    && (forall i :: 0 <= i < |events| && events[i].Register? ==>
                      && events[i].c !in known && events[i].c.Pristine() && events[i].c.capacity > 0
                      && events[i].c !in Registered(events[..i]))
    && (forall i :: 0 <= i < |events| && events[i].Pump? ==> events[i].c in known + Registered(events[..i]))
  }

  class Hub {
    /** Whether writers may run while a step is in progress. The scheduler
        allows it; what needs the queues to hold still says !midStepDrains. */
    const midStepDrains: bool

    var rooms: map<string, set<Client>>
    var count: int

    ghost var all: set<Client>    // the current members of every room
    ghost var ever: set<Client>   // everyone who was ever registered
    ghost var log: seq<Change>    // every change of `rooms`, in order
    ghost var joins: map<Client, nat>  // how long the log was after each join
    ghost var pushes: nat         // how many sends were attempted

    ghost function Records(): Books
      reads this
    {
      Books(rooms, all, ever, log, joins)
    }

    ghost function View(room: string, clients: set<Client>): Moment
      reads this, clients
    {
      Moment(Records(), room, Snap(clients), pushes)
    }

    ghost function Here(room: string): Moment
      reads this, At(rooms, room)
    {
      View(room, At(rooms, room))
    }

    ghost predicate Valid()
      reads this, ever
    {
      && Tidy(Records(), count)
      && forall c :: c in ever ==> c.Valid() && (c.open <==> c in all)
    }

    constructor (midStepDrains: bool)
      ensures Valid() && Records() == Books(map[], {}, {}, [], map[]) && count == pushes == 0
      ensures this.midStepDrains == midStepDrains
    {
      this.midStepDrains := midStepDrains;
      rooms, count, all, ever, log, joins, pushes := map[], 0, {}, {}, [], map[], 0;
    }

    lemma MemberIsOpen(c: Client)
      requires Valid() && c in all
      ensures c in ever && c.Valid() && c.open
    {
    }

    /** Offers a frame without blocking. */
    method Push(c: Client, data: Outbound) returns (ok: bool)
      requires Valid() && c in all
      modifies this`pushes, c`send, c`writing, c`taken, c`wire, c`accepted, c`offered, c`took
      ensures Valid()
      ensures Asked(old(Box(c)), Box(c), [data], !ok, !midStepDrains)
      ensures pushes == old(pushes) + 1 && |c.taken| <= |old(c.accepted)|
    {
      hide Tidy, Client.Valid, Asked, Box, Picked;
      MemberIsOpen(c);
      ok := Send(c, data);
      pushes := pushes + 1;
    }

    /** The select of push, with the rounds c's writer may get before it. */
    method Send(c: Client, data: Outbound) returns (ok: bool)
      requires c.Valid() && c.open
      modifies c`send, c`writing, c`taken, c`wire, c`accepted, c`offered, c`took
      ensures c.Valid() && Asked(old(Box(c)), Box(c), [data], !ok, !midStepDrains)
      ensures |c.taken| <= |old(c.accepted)|
    {
      hide Client.Valid, Asked;
      c.Counts();
      ghost var pre := Box(c);
      if midStepDrains {
        var turns: seq<Turn> := *;
        ghost var _ := c.WritePump(turns);
        c.Counts();
      }
      ok := c.TrySend(data);
      c.Counts();
      PushIsAsked(pre, Box(c), data, ok, !midStepDrains);
    }

    /** One turn of the push loop: skips a client the step is not for. */
    method Ask(c: Client, o: Offer) returns (ok: bool)
      requires Valid() && c in all
      modifies this`pushes, c`send, c`writing, c`taken, c`wire, c`accepted, c`offered, c`took
      ensures Valid()
      ensures Asked(old(Box(c)), Box(c), Own(o, c), !ok, !midStepDrains)
      ensures pushes == old(pushes) + |Own(o, c)|
    {
      assert c.Valid();
      ok := true;
      if Own(o, c) != [] {
        ok := Push(c, Own(o, c)[0]);
      }
    }

    /** The same as part of the loop over some members. */
    method AskNext(c: Client, o: Offer, ghost members: set<Client>, ghost was: Room, ghost todo: set<Client>,
                   ghost stalled: seq<Client>) returns (ok: bool)
      requires Valid() && members <= all && c in todo && todo <= members
      requires Asking(was, Snap(members), o, todo, Elements(stalled), !midStepDrains)
      modifies this`pushes, c`send, c`writing, c`taken, c`wire, c`accepted, c`offered, c`took
      ensures Valid()
      ensures Asking(was, Snap(members), o, todo - {c}, Elements(if ok then stalled else stalled + [c]), !midStepDrains)
      ensures pushes + |Audience(todo - {c}, o)| == old(pushes) + |Audience(todo, o)|
    {
      hide Valid, Asked, Own, Asking, Elements, Audience, Snap;
      ghost var before := Snap(members);
      SnapIs(members);
      AudienceMinus(todo, o, c);
      ok := Ask(c, o);
      SnapIs(members);
      ElementsMore(stalled, c);
      AskingOne(was, before, Snap(members), o, todo, Elements(stalled), c, !ok, !midStepDrains);
    }

    /** The push loop of announce and of deliver, which differ only in whom
        they skip: offers everyone its frame and collects those who refuse. */
    method AskAll(room: string, o: Offer) returns (stalled: seq<Client>)
      requires Valid()
      modifies this`pushes, At(rooms, room)
      ensures Valid()
      ensures forall c :: c in stalled ==> c in At(rooms, room) && c.roomID == room
      ensures Offered(old(Snap(At(rooms, room))), Snap(At(rooms, room)), o, Elements(stalled), !midStepDrains)
      ensures pushes == old(pushes) + |Audience(At(rooms, room), o)|
    {
      hide Valid, Tidy, At, Audience, Asking, Offered, Elements;
      MembersOf(room);
      NobodyLeft(o);
      var members := At(rooms, room);
      ghost var was := Snap(members);
      AskingStarts(was, o, !midStepDrains);
      stalled := [];
      ElementsNone(stalled);
      assert was.Keys == members && Elements(stalled) == {};
      var todo := members;
      while todo != {}
        invariant Valid() && todo <= members
        invariant forall c :: c in stalled ==> c in members && c.roomID == room
        invariant Asking(was, Snap(members), o, todo, Elements(stalled), !midStepDrains)
        invariant pushes + |Audience(todo, o)| == old(pushes) + |Audience(members, o)|
        decreases todo
      {
        var c :| c in todo;
        var ok := AskNext(c, o, members, was, todo, stalled);
        todo := todo - {c};
        if !ok {
          stalled := stalled + [c];
        }
      }
      AskingEnds(was, Snap(members), o, Elements(stalled), !midStepDrains);
    }

    lemma MembersOf(room: string)
      requires Valid()
      ensures At(rooms, room) <= all && forall c :: c in At(rooms, room) ==> c.roomID == room
    {
    }

    /** Sends a server frame to a room, skipping one client. */
    method Announce(room: string, data: Outbound, except: Client) returns (ghost gone: seq<Client>)
      requires Valid()
      modifies this, At(rooms, room)
      decreases |At(rooms, room)|, 3
      ensures Valid()
      ensures Outcome(old(Here(room)), View(room, old(At(rooms, room))),
                      Announcement(data, except), {}, gone, !midStepDrains)
    {
      hide Valid, Outcome, Offered, Audience, At;
      var o := Announcement(data, except);
      ghost var members := At(rooms, room);
      ghost var pre := View(room, members);
      var stalled := AskAll(room, o);
      ghost var mid := View(room, members);
      gone := DropStalled(room, stalled);
      assert pre.boxes.Keys == members;
      OutcomeOfOffer(pre, mid, View(room, members), o, Elements(stalled), gone, !midStepDrains);
    }

    /** An eviction loop under way: of the members at its start, those in
        `dropped` have been dealt with and `gone` left. */
    ghost predicate Dropping(from: Moment, members: set<Client>, dropped: set<Client>, gone: seq<Client>)
      reads this, ever, members
    {
      && Valid() && from.boxes.Keys == members
      && Outcome(from, View(from.room, members), Nothing, dropped, gone, !midStepDrains)
    }

    lemma DroppingShrinks(from: Moment, members: set<Client>, dropped: set<Client>, gone: seq<Client>)
      requires Dropping(from, members, dropped, gone)
      ensures Valid() && At(rooms, from.room) <= members && |At(rooms, from.room)| <= |members|
    {
      hide Valid, Outcome;
      OutcomeShrinks(from, View(from.room, members), Nothing, dropped, gone, !midStepDrains);
    }

    lemma DroppingStarts(room: string)
      requires Valid()
      ensures Dropping(Here(room), At(rooms, room), {}, [])
    {
      hide Valid, Outcome;
      OutcomeNone(Here(room), !midStepDrains);
    }

    /** Evicts clients that could not keep up. */
    method DropStalled(ghost room: string, stalled: seq<Client>) returns (ghost gone: seq<Client>)
      requires Valid()
      requires forall c :: c in stalled ==> c in At(rooms, room) && c.roomID == room
      modifies this, At(rooms, room)
      decreases |At(rooms, room)|, 2
      ensures Valid()
      ensures Outcome(old(Here(room)), View(room, old(At(rooms, room))),
                      Nothing, Elements(stalled), gone, !midStepDrains)
    {
      hide Valid, Outcome, Elements, At, Dropping;
      ghost var members := At(rooms, room);
      ghost var from := Here(room);
      gone := [];
      DroppingStarts(room);
      ElementsNone(stalled);
      ghost var dropped: set<Client> := {};
      var i := 0;
      while i < |stalled|
        invariant i <= |stalled| && dropped == Elements(stalled[..i])
        invariant Dropping(from, members, dropped, gone)
      {
        var c := stalled[i];
        assert c in stalled;
        ElementsPush(stalled, i);
        DroppingShrinks(from, members, dropped, gone);
        ghost var more := DropOne(c, members, from, dropped, gone);
        gone, dropped := gone + more, dropped + {c};
        i := i + 1;
      }
      assert stalled[..|stalled|] == stalled;
      DroppingEnds(from, members, dropped, gone);
    }

    lemma DroppingEnds(from: Moment, members: set<Client>, dropped: set<Client>, gone: seq<Client>)
      requires Dropping(from, members, dropped, gone)
      ensures Valid() && Outcome(from, View(from.room, members), Nothing, dropped, gone, !midStepDrains)
    {
    }

    /** The body of the eviction loop: c may be gone already. */
    method DropOne(c: Client, ghost members: set<Client>, ghost from: Moment, ghost dropped: set<Client>,
                   ghost gone: seq<Client>) returns (ghost more: seq<Client>)
      requires Dropping(from, members, dropped, gone) && c in members && c.roomID == from.room
      modifies this, At(rooms, c.roomID)
      decreases |At(rooms, c.roomID)|, 1
      ensures Dropping(from, members, dropped + {c}, gone + more)
    {
      hide Valid, Outcome, At, Snap, PushesToEvict;
      ghost var rest := At(rooms, c.roomID);
      ghost var mid := View(c.roomID, members);
      OutcomeShrinks(from, mid, Nothing, dropped, gone, !midStepDrains);
      SnapIs(members);
      SnapOnly(members, rest);
      var left;
      left, more := LeaveRoom(c);
      ghost var post := View(c.roomID, members);
      SnapIs(members);
      SnapOnly(members, rest);
      OutcomeMore(from, mid, post, dropped, c, gone, more, !midStepDrains);
    }

    /** Leave, with its outcome on values. */
    method LeaveRoom(c: Client) returns (left: bool, ghost gone: seq<Client>)
      requires Valid()
      modifies this, At(rooms, c.roomID)
      decreases |At(rooms, c.roomID)|, 0
      ensures Valid()
      ensures left == old(c in At(rooms, c.roomID))
      ensures !left ==> gone == [] && unchanged(this) && unchanged(old(At(rooms, c.roomID)))
      ensures left ==> gone != [] && gone[0] == c
      ensures left ==> Outcome(old(Here(c.roomID)), View(c.roomID, old(At(rooms, c.roomID))),
                               Nothing, {c}, gone, !midStepDrains)
      ensures left ==> 2 * (pushes - old(pushes)) == PushesToEvict(|old(At(rooms, c.roomID))|, |gone|)
    {
      hide Valid, Outcome, Departed, At, PushesToEvict, PeerLeft, Snap;
      gone := [];
      if c !in At(rooms, c.roomID) {
        return false, [];
      }
      ghost var members := At(rooms, c.roomID);
      ghost var pre := View(c.roomID, members);
      Remove(c);
      ghost var rest := members - {c};
      ghost var mid := View(c.roomID, rest);
      SnapMinus(members, c);
      gone := Announce(c.roomID, PeerLeft(c.Peer()), c);
      ghost var post := View(c.roomID, members);
      SnapMinus(members, c);
      OutcomeOfLeave(pre, mid, post, c, gone, !midStepDrains);
      gone := [c] + gone;
      LeaveCost(pre, post, {c}, gone, !midStepDrains);
      left := true;
    }

    /** Removes a client and tells the rest of its room: whoever stays is told of
        its departure first, and then of everyone's who could not be told. */
    method Leave(c: Client)
      returns (left: bool, ghost gone: seq<Client>, ghost members: set<Client>, ghost said: seq<Outbound>)
      requires Valid()
      modifies this, At(rooms, c.roomID)
      ensures Valid()
      ensures members == if c.roomID in old(rooms) then old(rooms)[c.roomID] else {}
      ensures left == (c in members)
      ensures !left ==> gone == [] && unchanged(this) && unchanged(old(At(rooms, c.roomID)))
      ensures left ==> gone != [] && gone[0] == c
      ensures |said| == |gone| && forall i :: 0 <= i < |gone| ==>
                && said[i].msgType == "peer-left" && said[i].sender == gone[i].userID && said[i].payload == ""
                && |said[i].peers| == 1 && said[i].peers[0].id == gone[i].userID
                && said[i].peers[0].displayName == gone[i].displayName
      ensures forall d :: d in members && d !in gone ==>
                d.offered == old(d.offered) + said && d.accepted == old(d.accepted) + said
      ensures forall i :: 0 <= i < |gone| ==>
                var d := gone[i];
                && d in members && d.offered == old(d.offered) + said[..i]
                && (i == 0 || |old(d.send)| + i > d.capacity)
      ensures left ==> Outcome(old(Here(c.roomID)), View(c.roomID, old(At(rooms, c.roomID))),
                               Nothing, {c}, gone, !midStepDrains)
      ensures left ==> 2 * (pushes - old(pushes)) == PushesToEvict(|old(At(rooms, c.roomID))|, |gone|)
    {
      hide Valid, Outcome, At, Tidy, Snap, Box, LeftFrames, PushesToEvict, Mailbox.Free, Heard;
      members := At(rooms, c.roomID);
      AtIs(rooms, c.roomID);
      SnapSays(members);
      MembersQueues(c.roomID);
      ghost var pre, forced := View(c.roomID, members), if c in members then {c} else {};
      OutcomeNone(pre, !midStepDrains);
      left, gone := LeaveRoom(c);
      ghost var post := View(c.roomID, members);
      SnapSays(members);
      GoneOnce(pre, post, Nothing, forced, gone, !midStepDrains);
      WhatWasHeard(pre, post, Nothing, forced, gone, !midStepDrains);
      OnlyLeftsHeard(pre.boxes, post.boxes, forced, gone);
      said := LeftFrames(gone);
      LeftFramesSay(gone);
    }

    /** The part of leave that touches the map: the member is deleted, its
        queue closed, and a room left empty is deleted with it. */
    method Remove(c: Client)
      requires Valid() && c in At(rooms, c.roomID)
      modifies this`rooms, this`count, this`all, this`log, c`open
      ensures Valid() && Departed(old(Records()), Records(), c.roomID, [c])
      ensures At(rooms, c.roomID) == old(At(rooms, c.roomID)) - {c}
      ensures c.roomID in old(rooms) && c in old(rooms)[c.roomID] && !c.open && count == old(count) - 1
      ensures rooms == if old(rooms)[c.roomID] == {c} then old(rooms) - {c.roomID}
                       else old(rooms)[c.roomID := old(rooms)[c.roomID] - {c}]
    {
      hide Tidy, Departed, At, Without, Elements;
      WithoutIs(rooms, c);
      TidyRoom(Records(), count, c.roomID);
      WithoutStaysTidy(Records(), Books(Without(rooms, c), all - {c}, ever, log + [Left(c)], joins), c, count);
      rooms := Without(rooms, c);
      c.Close();
      count, all, log := count - 1, all - {c}, log + [Left(c)];
      assert Records() == Books(Without(old(rooms), c), old(all) - {c}, ever, old(log) + [Left(c)], joins);
      assert forall d :: d in ever && d != c ==> d.Valid() && (d.open <==> d in old(all));
    }

    lemma WithoutIs(rooms: map<string, set<Client>>, c: Client)
      requires c in At(rooms, c.roomID)
      ensures c.roomID in rooms && c in rooms[c.roomID]
      ensures Without(rooms, c) == if rooms[c.roomID] == {c} then rooms - {c.roomID}
                                   else rooms[c.roomID := rooms[c.roomID] - {c}]
    {
    }

    /** Whatever the order in which members were visited, those evicted are the
        least fixed point; fewer only if writers ran meanwhile. */
    lemma GoneIsLeast(pre: Moment, room: string, members: set<Client>, o: Offer, forced: set<Client>, gone: seq<Client>)
      requires Valid() && Outcome(pre, View(room, members), o, forced, gone, !midStepDrains)
      ensures Elements(gone) <= Evicted(pre.boxes, o, forced)
      ensures !midStepDrains ==> Elements(gone) == Evicted(pre.boxes, o, forced)
    {
      hide Outcome, Settled, Tidy, Evicted, At, Elements;
      var post := View(room, members);
      OutcomeShrinks(pre, post, o, forced, gone, !midStepDrains);
      OutcomeSettles(pre, post, o, forced, gone, !midStepDrains);
      Known(pre.room);
      ElementsConcat(gone, []);
      forall c | c in members && c !in gone ensures Box(c).Free() >= 0 {
        assert c in At(rooms, pre.room) && c.Valid();
      }
      CascadeIsLeastFixedPoint(pre.boxes, post.boxes, o, forced, gone, !midStepDrains);
    }

    /** Routes one client message within its room: whom it is for is offered it
        first, and everyone then hears of those who went before it. */
    method Deliver(m: Message)
      returns (ghost gone: seq<Client>, ghost members: set<Client>, ghost said: seq<Outbound>)
      requires Valid()
      modifies this, At(rooms, m.room)
      ensures Valid()
      ensures members == if m.room in old(rooms) then old(rooms)[m.room] else {}
      ensures rooms - {m.room} == old(rooms) - {m.room} && count == old(count) - |gone|
      ensures forall i, j :: 0 <= i < j < |gone| ==> gone[i] != gone[j]
      ensures if forall c :: c in members ==> c in gone then m.room !in rooms
              else m.room in rooms && forall c :: c in rooms[m.room] <==> c in members && c !in gone
      ensures |said| == |gone| && forall i :: 0 <= i < |gone| ==>
                && said[i].msgType == "peer-left" && said[i].sender == gone[i].userID && said[i].payload == ""
                && |said[i].peers| == 1 && said[i].peers[0].id == gone[i].userID
                && said[i].peers[0].displayName == gone[i].displayName
      ensures forall c :: c in members && c !in gone ==>
                var own := if c != m.sender && (m.to == "" || c.userID == m.to) then [m.data] else [];
                && c.offered == old(c.offered) + (own + said) && c.accepted == old(c.accepted) + (own + said) && c.open
      ensures forall i :: 0 <= i < |gone| ==>
                var c := gone[i];
                var own := if c != m.sender && (m.to == "" || c.userID == m.to) then [m.data] else [];
                && c in members && c.offered == old(c.offered) + (own + said[..i]) && !c.open
                && |old(c.send)| + |own| + i > c.capacity
      ensures Outcome(old(Here(m.room)), View(m.room, old(At(rooms, m.room))),
                      Relay(m), {}, gone, !midStepDrains)
      ensures 2 * (pushes - old(pushes)) <= |old(At(rooms, m.room))| * (|old(At(rooms, m.room))| + 1)
      ensures Elements(gone) <= Evicted(old(Snap(At(rooms, m.room))), Relay(m), {})
      ensures !midStepDrains ==> Elements(gone) == Evicted(old(Snap(At(rooms, m.room))), Relay(m), {})
    {
      hide Valid, Outcome, Offered, Audience, Evicted, At, Tidy, Snap, Box, LeftFrames, PushesToEvict, Heard;
      hide Mailbox.Free;
      members := At(rooms, m.room);
      AtIs(rooms, m.room);
      Known(m.room);
      SnapSays(members);
      ghost var pre, before := View(m.room, members), count;
      MembersQueues(m.room);
      gone := DeliverToRoom(m);
      ghost var post := View(m.room, members);
      Known(m.room);
      SnapSays(members);
      OpenAre();
      WhoIsLeft(pre, post, Relay(m), {}, gone, !midStepDrains, before, count);
      WhatWasHeard(pre, post, Relay(m), {}, gone, !midStepDrains);
      RelayIsHeard(pre.boxes, post.boxes, m, gone);
      said := LeftFrames(gone);
      LeftFramesSay(gone);
    }

    /** Asks everyone the message is for, then drops those who refused. */
    method DeliverToRoom(m: Message) returns (ghost gone: seq<Client>)
      requires Valid()
      modifies this, At(rooms, m.room)
      ensures Valid()
      ensures Outcome(old(Here(m.room)), View(m.room, old(At(rooms, m.room))),
                      Relay(m), {}, gone, !midStepDrains)
      ensures 2 * (pushes - old(pushes)) <= |old(At(rooms, m.room))| * (|old(At(rooms, m.room))| + 1)
      ensures Elements(gone) <= Evicted(old(Snap(At(rooms, m.room))), Relay(m), {})
      ensures !midStepDrains ==> Elements(gone) == Evicted(old(Snap(At(rooms, m.room))), Relay(m), {})
    {
      hide Valid, Outcome, Offered, Audience, Evicted, At;
      ghost var members := At(rooms, m.room);
      ghost var pre := View(m.room, members);
      var stalled := AskAll(m.room, Relay(m));
      ghost var mid := View(m.room, members);
      gone := DropStalled(m.room, stalled);
      assert pre.boxes.Keys == members;
      OutcomeOfOffer(pre, mid, View(m.room, members), Relay(m), Elements(stalled), gone, !midStepDrains);
      DeliverCosts(pre, View(m.room, members), m, gone, !midStepDrains);
      GoneIsLeast(pre, m.room, members, Relay(m), {}, gone);
    }

    lemma AtIs(rooms: map<string, set<Client>>, room: string)
      ensures At(rooms, room) == if room in rooms then rooms[room] else {}
    {
    }

    /** A member's queue holds what it took and its writer has not yet taken away. */
    lemma MembersQueues(room: string)
      requires Valid()
      ensures forall c :: c in At(rooms, room) ==> Snap(At(rooms, room))[c].Free() == c.capacity - |c.send|
    {
      MembersOf(room);
      forall c | c in At(rooms, room) ensures Snap(At(rooms, room))[c].Free() == c.capacity - |c.send| {
        MemberIsOpen(c);
        c.Counts();
      }
    }

    lemma OpenAre()
      requires Valid()
      ensures forall c :: c in ever ==> (c.open <==> c in all)
    {
    }

    lemma NobodyIsPeer()
      ensures PeersOf({}) == multiset{}
    {
    }

    /** The peers a newcomer is told about, in whatever order the map yields. */
    method PeersIn(room: string) returns (peers: seq<Peer>, ghost order: seq<Client>)
      ensures multiset(peers) == PeersOf(At(rooms, room))
      ensures |order| == |At(rooms, room)| && forall d :: d in order <==> d in At(rooms, room)
      ensures |peers| == |order|
      ensures forall i :: 0 <= i < |order| ==>
                peers[i].id == order[i].userID && peers[i].displayName == order[i].displayName
    {
      hide PeersOf, At;
      peers, order := [], [];
      NobodyIsPeer();
      var todo := At(rooms, room);
      while todo != {}
        invariant multiset(peers) + PeersOf(todo) == PeersOf(At(rooms, room))
        invariant todo <= At(rooms, room) && |order| + |todo| == |At(rooms, room)|
        invariant forall d :: d in order <==> d in At(rooms, room) && d !in todo
        invariant |peers| == |order|
        invariant forall i :: 0 <= i < |order| ==>
                    peers[i].id == order[i].userID && peers[i].displayName == order[i].displayName
        decreases todo
      {
        var c :| c in todo;
        PeersOfMinus(todo, c);
        todo := todo - {c};
        peers, order := peers + [c.Peer()], order + [c];
      }
    }

    /** The order in which the welcome lists the peers does not matter to who is
        evicted. */
    lemma ArrivalsAreAlike(b: Books, boxes: Room, c: Client, peers: seq<Peer>, was: int)
      requires c.capacity > 0
      ensures Evicted(Arrival(b, boxes, c, peers, was).boxes, Announcement(PeerJoined(c.Peer()), c), {})
           == Evicted(boxes[c := Greeted(c, [])], Announcement(PeerJoined(c.Peer()), c), {})
    {
      EvictedDependsOnFree(Arrival(b, boxes, c, peers, was).boxes, boxes[c := Greeted(c, [])],
                           Announcement(PeerJoined(c.Peer()), c), {});
    }

    /** Puts a client in its room, tells it who is there, and announces it. A
        client that cannot hold its own welcome is removed at once. */
    method Join(c: Client)
      returns (ghost gone: seq<Client>, ghost members: set<Client>, ghost order: seq<Client>,
               ghost welcome: Outbound, ghost joined: Outbound, ghost announced: seq<Outbound>,
               ghost said: seq<Outbound>)
      requires Valid() && c !in ever && c.Pristine()
      modifies this, At(rooms, c.roomID), c
      ensures Valid()
      ensures members == if c.roomID in old(rooms) then old(rooms)[c.roomID] else {}
      ensures |order| == |members| && forall d :: d in order <==> d in members
      ensures welcome.msgType == "welcome" && welcome.sender == c.userID && welcome.payload == ""
      ensures |welcome.peers| == |order| && forall i :: 0 <= i < |order| ==>
                welcome.peers[i].id == order[i].userID && welcome.peers[i].displayName == order[i].displayName
      ensures joined.msgType == "peer-joined" && joined.sender == c.userID && joined.payload == ""
              && |joined.peers| == 1 && joined.peers[0].id == c.userID && joined.peers[0].displayName == c.displayName
      ensures |said| == |gone| && forall i :: 0 <= i < |gone| ==>
                && said[i].msgType == "peer-left" && said[i].sender == gone[i].userID && said[i].payload == ""
                && |said[i].peers| == 1 && said[i].peers[0].id == gone[i].userID
                && said[i].peers[0].displayName == gone[i].displayName
      ensures announced == if c.capacity > 0 then [joined] else []
      ensures forall d :: d in members && d !in gone ==>
                d.offered == old(d.offered) + (announced + said) && d.accepted == old(d.accepted) + (announced + said)
      ensures c !in gone ==> c.offered == [welcome] + said && c.accepted == [welcome] + said
      ensures forall i :: 0 <= i < |gone| && gone[i] == c ==> c.offered == [welcome] + said[..i] && c.capacity < 1 + i
      ensures forall i :: 0 <= i < |gone| && gone[i] != c ==>
                var d := gone[i];
                && d in members && d.offered == old(d.offered) + (announced + said[..i])
                && |old(d.send)| + |announced| + i > d.capacity
      ensures c.capacity == 0 ==> gone != [] && gone[0] == c && c.accepted == []
      ensures multiset(welcome.peers) == PeersOf(members)
      ensures Outcome(Arrival(old(Records()), old(Snap(At(rooms, c.roomID))), c, welcome.peers, old(pushes)),
                      View(c.roomID, old(At(rooms, c.roomID)) + {c}),
                      if c.capacity > 0 then Announcement(PeerJoined(c.Peer()), c) else Nothing,
                      if c.capacity > 0 then {} else {c}, gone, !midStepDrains)
      ensures c.capacity > 0 && !midStepDrains ==>
                Elements(gone) == Evicted(old(Snap(At(rooms, c.roomID)))[c := Greeted(c, [])],
                                          Announcement(PeerJoined(c.Peer()), c), {})
    {
      hide Valid, Outcome, At, Tidy, Snap, Box, LeftFrames, Mailbox.Free, Heard, Evicted, PeersOf, Arrival;
      hide Entered, Greeted, Welcome, PeerJoined, Client.Peer, Elements;
      members := At(rooms, c.roomID);
      AtIs(rooms, c.roomID);
      NotThere(c);
      SnapSays(members);
      MembersQueues(c.roomID);
      ghost var b, boxes, was := Records(), Snap(members), pushes;
      ghost var peers;
      gone, peers, order := JoinRoom(c);
      welcome, joined := Welcome(c.userID, peers), PeerJoined(c.Peer());
      FirstFramesSay(c, peers);
      ghost var pre, post := Arrival(b, boxes, c, peers, was), View(c.roomID, members + {c});
      SnapSays(members + {c});
      ArrivalSays(b, boxes, c, peers, was);
      ghost var o := if c.capacity > 0 then Announcement(joined, c) else Nothing;
      ghost var forced := if c.capacity > 0 then {} else {c};
      announced := if c.capacity > 0 then [joined] else [];
      WhatWasHeard(pre, post, o, forced, gone, !midStepDrains);
      JoinIsHeard(pre.boxes, post.boxes, boxes, c, peers, o, forced, joined, announced, gone);
      said := LeftFrames(gone);
      LeftFramesSay(gone);
    }

    /** Join, with its outcome on values. */
    method JoinRoom(c: Client) returns (ghost gone: seq<Client>, ghost peers: seq<Peer>, ghost order: seq<Client>)
      requires Valid() && c !in ever && c.Pristine()
      modifies this, At(rooms, c.roomID), c
      ensures Valid()
      ensures multiset(peers) == PeersOf(old(At(rooms, c.roomID)))
      ensures |order| == |old(At(rooms, c.roomID))| && forall d :: d in order <==> d in old(At(rooms, c.roomID))
      ensures |peers| == |order|
      ensures forall i :: 0 <= i < |order| ==>
                peers[i].id == order[i].userID && peers[i].displayName == order[i].displayName
      ensures c.capacity == 0 ==> gone != [] && gone[0] == c
      ensures Outcome(Arrival(old(Records()), old(Snap(At(rooms, c.roomID))), c, peers, old(pushes)),
                      View(c.roomID, old(At(rooms, c.roomID)) + {c}),
                      if c.capacity > 0 then Announcement(PeerJoined(c.Peer()), c) else Nothing,
                      if c.capacity > 0 then {} else {c}, gone, !midStepDrains)
      ensures c.capacity > 0 && !midStepDrains ==>
                Elements(gone) == Evicted(old(Snap(At(rooms, c.roomID)))[c := Greeted(c, [])],
                                          Announcement(PeerJoined(c.Peer()), c), {})
    {
      hide Outcome, Valid, PeersOf, Arrival, Evicted, At;
      ghost var members := At(rooms, c.roomID) + {c};
      ghost var pre;
      var ok;
      ok, peers, order := Greet(c);
      pre := View(c.roomID, At(rooms, c.roomID));
      if ok {
        gone := Announce(c.roomID, PeerJoined(c.Peer()), c);
        GoneIsLeast(pre, c.roomID, members, Announcement(PeerJoined(c.Peer()), c), {}, gone);
        ArrivalsAreAlike(old(Records()), old(Snap(At(rooms, c.roomID))), c, peers, old(pushes));
      } else {
        var left;
        left, gone := LeaveRoom(c);
      }
    }

    /** The first half of join: c is put on the map and offered its welcome. */
    method Greet(c: Client) returns (ok: bool, ghost peers: seq<Peer>, ghost order: seq<Client>)
      requires Valid() && c !in ever && c.Pristine()
      modifies this, c
      ensures Valid() && c in all && ok == (c.capacity > 0)
      ensures multiset(peers) == PeersOf(old(At(rooms, c.roomID)))
      ensures |order| == |old(At(rooms, c.roomID))| && forall d :: d in order <==> d in old(At(rooms, c.roomID))
      ensures |peers| == |order|
      ensures forall i :: 0 <= i < |order| ==>
                peers[i].id == order[i].userID && peers[i].displayName == order[i].displayName
      ensures At(rooms, c.roomID) == old(At(rooms, c.roomID)) + {c}
      ensures View(c.roomID, At(rooms, c.roomID))
           == Arrival(old(Records()), old(Snap(At(rooms, c.roomID))), c, peers, old(pushes))
    {
      hide PeersOf, Valid, Entered, At, Snap, Tidy, Arrival, Client.Valid, Picked, Outcome, Welcome, Greeted, Box;
      hide Client.Peer;
      NotThere(c);
      ghost var members, boxes, b, was := At(rooms, c.roomID), Snap(At(rooms, c.roomID)), Records(), pushes;
      var listed;
      listed, order := PeersIn(c.roomID);
      peers := listed;
      Enter(c);
      assert Snap(members) == boxes;
      ok := SendWelcome(c, listed, members);
      assert Records() == Entered(b, c);
      IsArrival(b, boxes, c, listed, was, View(c.roomID, members + {c}), Box(c));
    }

    /** The newcomer's first frame. */
    method SendWelcome(c: Client, listed: seq<Peer>, ghost others: set<Client>) returns (ok: bool)
      requires Valid() && c in all && c !in others && c.Pristine()
      modifies this`pushes, c`send, c`writing, c`taken, c`wire, c`accepted, c`offered, c`took
      ensures Valid() && ok == (c.capacity > 0) && pushes == old(pushes) + 1
      ensures Snap(others + {c}) == old(Snap(others))[c := Box(c)]
      ensures Box(c) == if c.capacity > 0 then Greeted(c, listed)
                        else Mailbox([Welcome(c.userID, listed)], [false], [], 0, c.capacity)
    {
      hide Valid, Snap, Welcome;
      ok := Push(c, Welcome(c.userID, listed));
      SnapPlus(others, c);
    }

    lemma NotThere(c: Client)
      requires Valid() && c !in ever
      ensures c !in At(rooms, c.roomID)
    {
    }

    /** The part of join that touches the map. */
    method Enter(c: Client)
      requires Valid() && c !in ever && c.Pristine()
      modifies this`rooms, this`count, this`all, this`ever, this`log, this`joins
      ensures Valid() && Records() == Entered(old(Records()), c) && c in all && count == old(count) + 1
      ensures rooms == old(rooms)[c.roomID := (if c.roomID in old(rooms) then old(rooms)[c.roomID] else {}) + {c}]
      ensures At(rooms, c.roomID) == old(At(rooms, c.roomID)) + {c}
    {
      hide Tidy, At, Client.Valid, Picked;
      AtIs(rooms, c.roomID);
      EnteredStaysTidy(Records(), c, count);
      PristineIsValid(c);
      ghost var before := Records();
      var members := At(rooms, c.roomID) + {c};
      rooms := rooms[c.roomID := members];
      joins := joins[c := |log| + 1];
      count, all, ever, log := count + 1, all + {c}, ever + {c}, log + [Joined(c)];
      assert Records() == Entered(before, c);
    }

    lemma PristineIsValid(c: Client)
      requires c.Pristine()
      ensures c.Valid() && c.open
    {
    }

    /** The log is the history of the rooms and every client is in step. */
    ghost predicate InStep()
      reads this, ever
    {
      Consistent(Records(), Snap(ever), !midStepDrains)
    }

    // -------------------------------------------------------------------
    // What clients see
    // -------------------------------------------------------------------

    /** What c took of the presence frames it was offered reads as a beginning of
        them: from the first it refused on, whatever it still took reads like
        the frames from that one on. */
    ghost predicate HeardABeginning(c: Client)
      requires |c.took| == |c.offered|
      reads c
    {
      Unbroken(Presence(c.offered), PresenceTook(c.offered, c.took))
    }

    /** That is exactly when what c took is a true beginning of what happened to
        its room while it was there. Unless a refused frame is offered again,
        it means that c took no presence frame after refusing one. */
    lemma BeginningExactlyWhen(c: Client)
      requires Valid() && InStep() && c in ever
      ensures c in joins && c.Valid()
      ensures PastSync(log, joins[c], c, c.accepted) <==> HeardABeginning(c)
      ensures var told, picks := Presence(c.offered), PresenceTook(c.offered, c.took);
              && (NoneAfterRefusal(picks) ==> HeardABeginning(c))
              && (RefusedOnce(told, picks) ==> (HeardABeginning(c) <==> NoneAfterRefusal(picks)))
    {
      hide Unbroken, Presence, PresenceTook, PastSync, Told, Current, Tidy;
      assert Snap(ever)[c].accepted == c.accepted && Snap(ever)[c].offered == c.offered;
      assert Recorded(log, joins[c], c, Snap(ever)[c], c in all, !midStepDrains);
      TrueBeginningExactlyWhen(log, joins[c], c, c.offered, c.took);
      UnbrokenExactlyWhen(Presence(c.offered), PresenceTook(c.offered, c.took));
    }

    /** Members always did, and so did everyone else if writers only run between
        steps. */
    lemma MembersHeardABeginning(c: Client)
      requires Valid() && InStep() && c in ever && (c in all || !midStepDrains)
      ensures c.Valid() && HeardABeginning(c)
    {
      hide Unbroken, Presence, PresenceTook, Told, InSync, Tidy;
      assert Snap(ever)[c].accepted == c.accepted && Snap(ever)[c].offered == c.offered;
      if c in all {
        assert c in joins && Current(log, joins[c], c, Snap(ever)[c]);
      } else {
        assert c in joins && Recorded(log, joins[c], c, Snap(ever)[c], false, !midStepDrains);
      }
      PresencePrefix(c.accepted, c.offered);
      PresencePicked(c.offered, c.took);
      UnbrokenIsPrefix(Presence(c.offered), PresenceTook(c.offered, c.took));
    }

    /** Whatever has reached the socket of such a client, once it holds the
        welcome, shows its room as it really was at one moment of its stay, and
        more frames never take it back. */
    lemma WireShowsThePast(c: Client, wire: seq<Outbound>, longer: seq<Outbound>)
      requires Valid() && InStep() && c in ever
      requires c.Valid() && HeardABeginning(c)
      requires wire <= longer <= c.wire && Presence(wire) != []
      ensures joins[c] <= LeftAt(log, c)
      ensures var now, later := MomentOf(log, joins[c], c, wire), MomentOf(log, joins[c], c, longer);
              && joins[c] <= now <= later <= LeftAt(log, c)
              && Believed(Presence(wire)) == PeersOf(Replay(log[..now], c.roomID) - {c})
    {
      hide Replay, PeersOf, Believed, Presence, PastSync, HeardABeginning, Recorded, Current, Tidy;
      assert c.accepted == c.taken + c.send;
      BeginningExactlyWhen(c);
      PastIsAfterJoin(log, joins[c], c, c.accepted);
      SeenIsAPastRoom(log, joins[c], c, c.accepted, wire);
      PresencePrefix(wire, longer);
      SeenIsAPastRoom(log, joins[c], c, c.accepted, longer);
      SeenMovesForward(log, joins[c], c, c.accepted, wire, longer);
    }

    /** A member whose queue is drained believes exactly who is in its room. */
    lemma DrainedMemberIsCurrent(c: Client)
      requires Valid() && InStep() && c in all && c.writing && c.send == []
      ensures Believed(Presence(c.wire)) == PeersOf(At(rooms, c.roomID) - {c})
    {
      hide Replay, PeersOf, Believed, Presence, Current, Recorded, Tidy;
      assert c.Valid() && c.wire == c.accepted;
      assert Snap(ever)[c].accepted == c.accepted;
      CaughtUp(Records(), Snap(ever), !midStepDrains, c);
    }

    // -------------------------------------------------------------------
    // The loop
    // -------------------------------------------------------------------

    lemma WhereMembersAre(c: Client)
      requires Valid()
      ensures c in all <==> c in At(rooms, c.roomID)
    {
    }

    lemma Known(room: string)
      requires Valid()
      ensures At(rooms, room) <= all <= ever && Tidy(Records(), count)
    {
    }

    /** A connection registers. */
    method OnRegister(c: Client) returns (ghost gone: seq<Client>, ghost welcome: Outbound)
      requires Valid() && InStep() && c !in ever && c.Pristine() && c.capacity > 0
      modifies this, ever, c
      ensures Valid() && InStep() && ever == old(ever) + {c} && Thinned(old(all) + {c}, gone, all)
      ensures multiset(welcome.peers) == PeersOf(old(At(rooms, c.roomID)))
      ensures Outcome(Arrival(old(Records()), old(Snap(At(rooms, c.roomID))), c, welcome.peers, old(pushes)),
                      View(c.roomID, old(At(rooms, c.roomID)) + {c}), Announcement(PeerJoined(c.Peer()), c), {}, gone,
                      !midStepDrains)
      ensures !midStepDrains ==>
                Elements(gone) == Evicted(old(Snap(At(rooms, c.roomID)))[c := Greeted(c, [])],
                                          Announcement(PeerJoined(c.Peer()), c), {})
    {
      hide Valid, Outcome, Tidy, Consistent, PeersOf, Arrival, At, PeerJoined, Evicted, Thinned, Snap, Greeted, Box;
      hide Client.Peer, Elements;
      AtIs(rooms, c.roomID);
      Known(c.roomID);
      SnapIs(ever);
      SnapIs(At(rooms, c.roomID));
      ghost var before, boxes, guests, was := Records(), Snap(ever), Snap(At(rooms, c.roomID)), pushes;
      ghost var members, order, joined, announced, said;
      gone, members, order, welcome, joined, announced, said := Join(c);
      JoinKeepsInStep(before, boxes, guests, was, c, welcome.peers, members, gone);
    }

    /** An arrival keeps everyone in step, whatever the hub was before. */
    lemma JoinKeepsInStep(before: Books, boxes: Room, guests: Room, was: int, c: Client, peers: seq<Peer>,
                          members: set<Client>, gone: seq<Client>)
      requires Valid() && Consistent(before, boxes, !midStepDrains) && c !in before.ever && c.capacity > 0
      requires boxes.Keys == before.ever && guests.Keys == members == At(before.rooms, c.roomID) <= before.all
      requires before.all <= before.ever && multiset(peers) == PeersOf(members)
      requires forall d :: d in guests ==> guests[d] == boxes[d]
      requires forall d :: d in before.ever && d !in members ==> Box(d) == boxes[d]
      requires Outcome(Arrival(before, guests, c, peers, was), View(c.roomID, members + {c}),
                       Announcement(PeerJoined(c.Peer()), c), {}, gone, !midStepDrains)
      ensures InStep() && ever == before.ever + {c} && Thinned(before.all + {c}, gone, all)
    {
      hide Valid, Outcome, Tidy, Consistent, PeersOf, Carries, Arrival, Own, At, Entered, Welcome, PeerJoined;
      hide Thinned, Snap, Greeted, Box, Client.Peer, Elements;
      var pre, post, after := Arrival(before, guests, c, peers, was), View(c.roomID, members + {c}), Snap(ever);
      DepartedEver(pre, post, gone, Announcement(PeerJoined(c.Peer()), c), {}, !midStepDrains);
      ArrivalIs(before, guests, c, peers, was);
      OutcomeThins(pre, post, Announcement(PeerJoined(c.Peer()), c), {}, gone, !midStepDrains);
      Known(c.roomID);
      SnapIs(ever);
      SnapIs(members + {c});
      assert ever == before.ever + {c};
      CarriesArrival(pre, post, boxes, after, guests, c, Greeted(c, peers));
      ArrivalKeepsConsistent(before, boxes, c, peers, pre, post, after, gone, count, !midStepDrains);
    }

    lemma ArrivalIs(b: Books, boxes: Room, c: Client, peers: seq<Peer>, was: int)
      requires c.capacity > 0
      ensures var m := Arrival(b, boxes, c, peers, was);
              && m.books == Entered(b, c) && m.room == c.roomID
              && m.books.ever == b.ever + {c} && m.books.all == b.all + {c}
              && m.boxes == boxes[c := Greeted(c, peers)]
    {
    }

    /** A connection is over. */
    method OnUnregister(c: Client) returns (ghost gone: seq<Client>)
      requires Valid() && InStep()
      modifies this, ever
      ensures Valid() && InStep() && ever == old(ever) && Thinned(old(all), gone, all)
      ensures if c in old(all) then gone != [] && gone[0] == c else gone == []
      ensures c in old(all) ==> Outcome(old(Here(c.roomID)), View(c.roomID, old(At(rooms, c.roomID))),
                                        Nothing, {c}, gone, !midStepDrains)
      ensures c in old(all) && !midStepDrains ==>
                Elements(gone) == Evicted(old(Snap(At(rooms, c.roomID))), Nothing, {c})
    {
      hide Valid, Outcome, Tidy, Consistent, Evicted, At, Thinned, PushesToEvict, Snap, Box, Elements;
      AtIs(rooms, c.roomID);
      Known(c.roomID);
      SnapIs(ever);
      SnapIs(At(rooms, c.roomID));
      NobodyThins(all);
      WhereMembersAre(c);
      ghost var pre, boxes := Here(c.roomID), Snap(ever);
      var left;
      ghost var members, said;
      left, gone, members, said := Leave(c);
      if left {
        StepKeepsInStep(pre, boxes, Nothing, {c}, gone);
      }
    }

    /** A departure or a relay keeps everyone in step. */
    lemma StepKeepsInStep(pre: Moment, boxes: Room, o: Offer, forced: set<Client>, gone: seq<Client>)
      requires Valid() && Consistent(pre.books, boxes, !midStepDrains) && !o.Announcement?
      requires boxes.Keys == pre.books.ever && pre.boxes.Keys <= pre.books.all <= pre.books.ever
      requires forall d :: d in pre.boxes ==> pre.boxes[d] == boxes[d]
      requires forall d :: d in pre.books.ever && d !in pre.boxes ==> Box(d) == boxes[d]
      requires Outcome(pre, View(pre.room, pre.boxes.Keys), o, forced, gone, !midStepDrains)
      ensures InStep() && ever == pre.books.ever && Thinned(pre.books.all, gone, all)
      ensures !midStepDrains ==> Elements(gone) == Evicted(pre.boxes, o, forced)
    {
      hide Valid, Outcome, Tidy, Consistent, Carries, Thinned, Snap, Box, Elements, Evicted;
      GoneIsLeast(pre, pre.room, pre.boxes.Keys, o, forced, gone);
      var post, after := View(pre.room, pre.boxes.Keys), Snap(ever);
      DepartedEver(pre, post, gone, o, forced, !midStepDrains);
      OutcomeThins(pre, post, o, forced, gone, !midStepDrains);
      Known(pre.room);
      SnapIs(ever);
      SnapIs(pre.boxes.Keys);
      CarriesRest(pre, post, boxes, after);
      StepKeepsConsistent(pre, post, boxes, after, o, forced, gone, count, !midStepDrains);
    }

    /** A client message arrives. */
    method OnBroadcast(m: Message)
      returns (ghost gone: seq<Client>, ghost members: set<Client>, ghost said: seq<Outbound>)
      requires Valid() && InStep()
      modifies this, ever
      ensures Valid() && InStep() && ever == old(ever) && Thinned(old(all), gone, all)
      ensures members == if m.room in old(rooms) then old(rooms)[m.room] else {}
      ensures rooms - {m.room} == old(rooms) - {m.room} && count == old(count) - |gone|
      ensures forall i, j :: 0 <= i < j < |gone| ==> gone[i] != gone[j]
      ensures if forall c :: c in members ==> c in gone then m.room !in rooms
              else m.room in rooms && forall c :: c in rooms[m.room] <==> c in members && c !in gone
      ensures |said| == |gone| && forall i :: 0 <= i < |gone| ==>
                && said[i].msgType == "peer-left" && said[i].sender == gone[i].userID && said[i].payload == ""
                && |said[i].peers| == 1 && said[i].peers[0].id == gone[i].userID
                && said[i].peers[0].displayName == gone[i].displayName
      ensures forall c :: c in members && c !in gone ==>
                var own := if c != m.sender && (m.to == "" || c.userID == m.to) then [m.data] else [];
                && c.offered == old(c.offered) + (own + said) && c.accepted == old(c.accepted) + (own + said) && c.open
      ensures forall i :: 0 <= i < |gone| ==>
                var c := gone[i];
                var own := if c != m.sender && (m.to == "" || c.userID == m.to) then [m.data] else [];
                && c in members && c.offered == old(c.offered) + (own + said[..i]) && !c.open
                && |old(c.send)| + |own| + i > c.capacity
      ensures Outcome(old(Here(m.room)), View(m.room, old(At(rooms, m.room))), Relay(m), {}, gone, !midStepDrains)
      ensures forall c :: c in ever && c !in members ==> c.offered == old(c.offered)
    {
      hide Valid, Outcome, Tidy, Consistent, Evicted, At, Thinned, Snap, Box, Elements;
      AtIs(rooms, m.room);
      Known(m.room);
      SnapIs(ever);
      SnapIs(At(rooms, m.room));
      ghost var pre, boxes := Here(m.room), Snap(ever);
      gone, members, said := Deliver(m);
      StepKeepsInStep(pre, boxes, Relay(m), {}, gone);
    }

    /** A writer runs between two steps. */
    method OnPump(c: Client, turns: seq<Turn>) returns (ghost n: nat)
      requires Valid() && InStep() && c in ever
      modifies c`send, c`writing, c`taken, c`wire
      ensures Valid() && InStep()
      ensures n <= |old(c.send)| && c.send == old(c.send)[n..] && c.taken == old(c.taken) + old(c.send)[..n]
      ensures c.writing ==>
                var frames := |set i | 0 <= i < |turns| && turns[i].Frame?|;
                && c.wire == old(c.wire) + old(c.send)[..n]
                && n == if frames <= |old(c.send)| then frames else |old(c.send)|
    {
      hide Consistent;
      ghost var before := Snap(ever);
      n := c.WritePump(turns);
      PumpKeepsConsistent(Records(), before, Snap(ever), !midStepDrains);
    }

    /** The hub's loop, for any finite stretch of it: after every step, and so
        at the end of this stretch, the hub is valid and everyone in step. */
    method Serve(events: seq<Event>)
      requires Valid() && InStep() && Admissible(events, ever)
      modifies this, ever, Registered(events)
      ensures Valid() && InStep() && ever == old(ever) + Registered(events)
      ensures forall r :: r in rooms ==> rooms[r] != {}
      ensures forall r, c :: r in rooms && c in rooms[r] ==> c in ever && c.roomID == r && c.open
      ensures forall c :: c in ever && c.open ==> c.roomID in rooms && c in rooms[c.roomID]
      ensures count == |set c | c in ever && c.open|
    {
      hide Valid, InStep, Outcome;
      ServeEach(events);
      BooksAreRight();
    }

    /** The loop itself. */
    method ServeEach(events: seq<Event>)
      requires Valid() && InStep() && Admissible(events, ever)
      modifies this, ever, Registered(events)
      ensures Valid() && InStep() && ever == old(ever) + Registered(events)
    {
      hide Valid, InStep, Client.Valid, Thinned, Evicted, Outcome, At, Snap;
      ghost var known := ever;
      var i := 0;
      assert Registered(events[..0]) == {} by { assert events[..0] == []; }
      while i < |events|
        invariant i <= |events| && Valid() && InStep()
        invariant ever == known + Registered(events[..i])
        invariant forall j :: i <= j < |events| && events[j].Register? ==> events[j].c.Pristine()
      {
        assert events[..i + 1] == events[..i] + [events[i]];
        assert events[i] in events;
        RegisteredLater(events, known, i);
        assert events[i].Register? ==> events[i].c !in Registered(events[..i]);
        ghost var _, _ := Handle(events[i]);
        i := i + 1;
      }
      assert events[..|events|] == events;
    }

    /** Nobody is in two rooms or in another's, no empty room is kept, exactly the
        members' queues are open, and the count is theirs. */
    lemma BooksAreRight()
      requires Valid()
      ensures forall r :: r in rooms ==> rooms[r] != {}
      ensures forall r, c :: r in rooms && c in rooms[r] ==> c in ever && c.roomID == r && c.open
      ensures forall c :: c in ever && c.open ==> c.roomID in rooms && c in rooms[c.roomID]
      ensures count == |set c | c in ever && c.open|
    {
      hide Client.Valid;
      assert all == set c | c in ever && c.open;
    }

    /** One turn of the loop: the select, and what it comes to. */
    method Handle(e: Event) returns (ghost gone: seq<Client>, ghost welcome: Outbound)
      requires Valid() && InStep()
      requires e.Register? ==> e.c !in ever && e.c.Pristine() && e.c.capacity > 0
      requires e.Pump? ==> e.c in ever
      modifies this, ever, if e.Register? then {e.c} else {}
      ensures Valid() && InStep() && ever == old(ever) + if e.Register? then {e.c} else {}
      ensures e.Register? ==>
                Outcome(Arrival(old(Records()), old(Snap(At(rooms, e.c.roomID))), e.c, welcome.peers, old(pushes)),
                        View(e.c.roomID, old(At(rooms, e.c.roomID)) + {e.c}),
                        Announcement(PeerJoined(e.c.Peer()), e.c), {}, gone, !midStepDrains)
      ensures e.Unregister? && e.c in old(all) ==>
                Outcome(old(Here(e.c.roomID)), View(e.c.roomID, old(At(rooms, e.c.roomID))),
                        Nothing, {e.c}, gone, !midStepDrains)
      ensures e.Broadcast? ==>
                Outcome(old(Here(e.m.room)), View(e.m.room, old(At(rooms, e.m.room))), Relay(e.m), {}, gone,
                        !midStepDrains)
      ensures e.Pump? && e.c.writing && |old(e.c.send)| <= |set i | 0 <= i < |e.turns| && e.turns[i].Frame?| ==>
                e.c.send == []
    {
      hide Valid, InStep, Client.Valid, Thinned, Evicted, At, Tidy, Snap, Elements, Greeted, Outcome, Arrival, PeersOf;
      gone, welcome := [], Welcome("", []);
      match e {
        case Register(c) => gone, welcome := OnRegister(c);
        case Unregister(c) => gone := OnUnregister(c);
        case Broadcast(m) =>
          ghost var members, said;
          gone, members, said := OnBroadcast(m);
        case Pump(c, turns) => ghost var _ := OnPump(c, turns);
      }
    }

    /** Closes every queue that is still open. */
    method CloseAll()
      requires Valid()
      modifies this`rooms, this`count, this`all, all`open
      ensures Valid() && rooms == map[] && count == 0 && ever == old(ever)
      ensures forall c :: c in ever ==> !c.open && c.accepted == old(c.accepted)
    {
      hide Client.Valid, Tidy;
      NobodyIsTidy(Records(), count);
      var rest := rooms.Keys;
      while rest != {}
        invariant Records() == old(Records()) && rest <= rooms.Keys
        invariant forall c :: c in ever ==> c.Valid() && c.accepted == old(c.accepted)
        invariant forall c :: c in ever ==> (c.open <==> c in all && c.roomID in rest)
        decreases rest
      {
        var room :| room in rest;
        assert forall c :: c in rooms[room] <==> c in all && c.roomID == room;
        CloseRoom(rooms[room]);
        rest := rest - {room};
      }
      rooms, count, all := map[], 0, {};
    }

    /** The inner loop: closes every queue of one room. */
    method CloseRoom(members: set<Client>)
      requires forall c :: c in members ==> c.Valid() && c.open
      modifies members`open
      ensures forall c :: c in members ==> c.Valid() && !c.open
    {
      hide Client.Valid;
      var todo := members;
      while todo != {}
        invariant todo <= members
        invariant forall c :: c in members ==> c.Valid() && (c.open <==> c in todo)
        decreases todo
      {
        var c :| c in todo;
        c.Close();
        todo := todo - {c};
      }
    }

    /** The hub's life: it serves until its context ends, then closes up. */
    method Run(events: seq<Event>)
      requires Valid() && InStep() && Admissible(events, ever)
      modifies this, ever, Registered(events)
      ensures Valid() && rooms == map[] && count == 0
      ensures ever == old(ever) + Registered(events) && forall c :: c in ever ==> !c.open
    {
      Serve(events);
      assert all <= ever;
      CloseAll();
    }
  }

  lemma RegisteredLater(events: seq<Event>, known: set<Client>, i: nat)
    requires i < |events|
    requires forall j :: 0 <= j < |events| && events[j].Register? ==>
                           events[j].c !in known && events[j].c !in Registered(events[..j])
    ensures Registered(events[..i + 1]) == Registered(events[..i]) + (if events[i].Register? then {events[i].c} else {})
    ensures forall j :: i < j < |events| && events[j].Register? ==> events[j].c !in known + Registered(events[..i + 1])
    ensures Registered(events[..i + 1]) <= Registered(events)
  {
    forall j | i < j < |events| && events[j].Register? ensures events[j].c !in known + Registered(events[..i + 1]) {
      assert events[..j][..i + 1] == events[..i + 1];
    }
  }
}
