/** Every hub step keeps every client in step with the log, on values. */
module HubPresence {
  import opened Protocol
  import opened Clients
  import opened Cascade
  import opened Collections
  import opened HubOutcome
  import opened PresenceLog

  /** The log is the history of the rooms, every member took all of it since it
      joined, everyone who ever joined was offered all of it until it left, and,
      if writers only run between steps, took a beginning of that. */
  ghost predicate Consistent(b: Books, boxes: Room, quiet: bool) {
    && History(b, boxes)
    && (forall c :: c in b.all ==> Current(b.log, b.joins[c], c, boxes[c]))
    && (forall c :: c in b.ever ==> Recorded(b.log, b.joins[c], c, boxes[c], c in b.all, quiet))
  }

  /** A member refused nothing, and so is in step. */
  ghost predicate Current(log: seq<Change>, joinedAt: nat, c: Client, box: Mailbox) {
    box.accepted == box.offered && InSync(log, joinedAt, c, box.accepted)
  }

  /** Whether c is still there or not, what it was offered is the log's story,
      and without writers running inside steps it took a beginning of that. */
  ghost predicate Recorded(log: seq<Change>, joinedAt: nat, c: Client, box: Mailbox, here: bool, quiet: bool) {
    && (here || Left(c) in log)
    && Told(log, joinedAt, c, box.offered)
    && Presence(box.accepted) != []
    && (quiet ==> box.accepted <= box.offered)
  }

  lemma CurrentIsRecorded(log: seq<Change>, joinedAt: nat, c: Client, box: Mailbox, quiet: bool)
    requires Current(log, joinedAt, c, box)
    ensures Recorded(log, joinedAt, c, box, true, quiet)
  {
    hide Presence, RoomChanges, Replay, PeersOf, Told;
    InSyncIsTold(log, joinedAt, c, box.accepted);
  }

  lemma RecordedGrows(log: seq<Change>, more: seq<Change>, joinedAt: nat, c: Client, box: Mailbox, quiet: bool)
    requires Recorded(log, joinedAt, c, box, false, quiet)
    ensures Recorded(log + more, joinedAt, c, box, false, quiet)
  {
    hide Presence, Told;
    ToldGrows(log, more, joinedAt, c, box.offered);
  }

  ghost predicate History(b: Books, boxes: Room) {
    && boxes.Keys == b.joins.Keys == b.ever && b.all <= b.ever
    && WellFormed(b.log) && (forall change :: change in b.log ==> change.c in b.ever)
    && (forall r :: Replay(b.log, r) == At(b.rooms, r))
    && (forall r, c :: c in At(b.rooms, r) ==> c.roomID == r && c in b.all)
    && (forall c :: c in b.all ==> c in At(b.rooms, c.roomID))
  }

  /** The same in the middle of a step: the members of `room` are about to be
      in step, once they take the frame o has for them. */
  ghost predicate Poised(b: Books, boxes: Room, room: string, o: Offer, quiet: bool) {
    && History(b, boxes)
    && (forall c :: c in At(b.rooms, room) ==> Awaits(b.log, b.joins[c], c, boxes[c], Own(o, c)))
    && (forall c :: c in b.all && c.roomID != room ==> Current(b.log, b.joins[c], c, boxes[c]))
    && (forall c :: c in b.ever && c !in b.all ==> Recorded(b.log, b.joins[c], c, boxes[c], false, quiet))
  }

  ghost predicate Awaits(log: seq<Change>, joinedAt: nat, c: Client, box: Mailbox, own: seq<Outbound>) {
    && Presence(box.accepted) != [] && box.accepted == box.offered
    && InSync(log, joinedAt, c, box.offered + own)
  }

  lemma {:induction false} DepartureIsHistory(log: seq<Change>, gone: seq<Client>, room: string)
    requires WellFormed(log) && Distinct(gone) && Elements(gone) <= Replay(log, room)
    requires forall c :: c in gone ==> c.roomID == room
    ensures WellFormed(log + Lefts(gone))
    ensures Replay(log + Lefts(gone), room) == Replay(log, room) - Elements(gone)
    ensures forall r :: r != room ==> Replay(log + Lefts(gone), r) == Replay(log, r)
  {
    hide WellFormed, Fits, Replay, Elements, Lefts;
    if gone == [] {
      assert log + Lefts(gone) == log by { NobodyLeaves(log); }
      ElementsNone(gone);
    } else {
      var init, last := gone[..|gone| - 1], gone[|gone| - 1];
      assert gone == init + [last] && last in gone;
      ElementsConcat(init, [last]);
      ElementsMore(init, last);
      assert last in Elements(gone) && last !in Elements(init) by { LastIsNew(gone); }
      assert Elements(init) <= Elements(gone) && Distinct(init);
      DepartureIsHistory(log, init, room);
      LeftsMore(log, init, last);
      OneLess(log + Lefts(init), last, room);
    }
  }

  lemma NobodyLeaves(log: seq<Change>)
    ensures log + Lefts([]) == log
  {
  }

  lemma LeftsMore(log: seq<Change>, gone: seq<Client>, c: Client)
    ensures log + Lefts(gone + [c]) == log + Lefts(gone) + [Left(c)]
  {
    assert Lefts(gone + [c]) == Lefts(gone) + [Left(c)];
  }

  lemma LastIsNew<T>(s: seq<T>)
    requires s != [] && Distinct(s)
    ensures var last := s[|s| - 1]; last in Elements(s) && last !in Elements(s[..|s| - 1])
  {
  }

  lemma OneLess(log: seq<Change>, c: Client, room: string)
    requires WellFormed(log) && c in Replay(log, room) && c.roomID == room
    ensures WellFormed(log + [Left(c)])
    ensures Replay(log + [Left(c)], room) == Replay(log, room) - {c}
    ensures forall r :: r != room ==> Replay(log + [Left(c)], r) == Replay(log, r)
  {
    OneMore(log, Left(c));
    forall r ensures Replay(log + [Left(c)], r) == if r == room then Replay(log, r) - {c} else Replay(log, r) {
      ReplayOne(log, Left(c), r);
    }
  }

  lemma OneMore(log: seq<Change>, change: Change)
    requires WellFormed(log) && Fits(log, change)
    ensures WellFormed(log + [change])
  {
    var longer := log + [change];
    forall i | 0 <= i < |longer| ensures Fits(longer[..i], longer[i]) {
      SliceConcat(log, [change], i);
    }
  }

  /** A step that announces no change of its own finds everyone in step. */
  lemma PoisedToRelay(b: Books, boxes: Room, room: string, o: Offer, quiet: bool)
    requires Consistent(b, boxes, quiet) && !o.Announcement?
    ensures Poised(b, boxes, room, o, quiet)
  {
    hide WellFormed, Replay, Recorded, Awaits, Current, Own;
    forall c | c in At(b.rooms, room) ensures Awaits(b.log, b.joins[c], c, boxes[c], Own(o, c)) {
      CurrentAwaits(b.log, [], b.joins[c], c, boxes[c], Own(o, c)) by { OwnIsQuiet(o, c); }
      assert b.log + [] == b.log;
    }
  }

  /** A frame that announces the log's next changes is what c awaits. */
  lemma CurrentAwaits(log: seq<Change>, more: seq<Change>, joinedAt: nat, c: Client, box: Mailbox, own: seq<Outbound>)
    requires Current(log, joinedAt, c, box)
    requires RoomChanges(more, c.roomID) == Presence(own) && Left(c) !in more
    ensures Awaits(log + more, joinedAt, c, box, own)
  {
    hide InSync, Presence, RoomChanges;
    InSyncOwn(log, more, joinedAt, c, box.accepted, own);
    InSyncHasWelcome(log, joinedAt, c, box.accepted);
  }

  lemma InSyncHasWelcome(log: seq<Change>, joinedAt: nat, c: Client, accepted: seq<Outbound>)
    requires InSync(log, joinedAt, c, accepted)
    ensures Presence(accepted) != []
  {
  }

  lemma OwnIsQuiet(o: Offer, c: Client)
    requires !o.Announcement?
    ensures Presence(Own(o, c)) == [] == RoomChanges([], c.roomID)
  {
    if o.Relay? {
      PresenceOne(o.m.data);
      ClientTypesAreNotPresence(o.m.data);
    }
  }

  /** The books and mailboxes just after c was put on the map and took its
      welcome. */
  ghost function Entered(b: Books, c: Client): Books {
    Books(b.rooms[c.roomID := At(b.rooms, c.roomID) + {c}], b.all + {c}, b.ever + {c}, b.log + [Joined(c)],
          b.joins[c := |b.log| + 1])
  }

  lemma EnteredStaysTidy(b: Books, c: Client, count: int)
    requires Tidy(b, count) && c !in b.ever
    ensures Tidy(Entered(b, c), count + 1)
    ensures At(Entered(b, c).rooms, c.roomID) == At(b.rooms, c.roomID) + {c}
  {
    AtEntered(b.rooms, c);
    EnteredKeepsRooms(b, c);
    EnteredKeepsMembers(b, c, count);
    hide At;
    assert |b.all + {c}| == |b.all| + 1;
  }

  lemma EnteredKeepsMembers(b: Books, c: Client, count: int)
    requires Tidy(b, count)
    ensures var after := Entered(b, c);
            && (forall r, d :: r in after.rooms && d in after.rooms[r] ==> d.roomID == r && d in after.all)
            && (forall d :: d in after.all ==> d in At(after.rooms, d.roomID))
  {
    hide At;
    var after := Entered(b, c);
    AtEntered(b.rooms, c);
    TidyRooms(b, count);
    forall r, d | r in after.rooms && d in after.rooms[r] ensures d.roomID == r && d in after.all {
      assert d in At(after.rooms, r);
    }
    forall d | d in after.all ensures d in At(after.rooms, d.roomID) {
      if d != c {
        assert d in At(b.rooms, d.roomID);
      }
    }
  }

  lemma EnteredKeepsRooms(b: Books, c: Client)
    requires forall r :: r in b.rooms ==> b.rooms[r] != {}
    ensures forall r :: r in Entered(b, c).rooms ==> Entered(b, c).rooms[r] != {}
  {
    forall r | r in Entered(b, c).rooms ensures Entered(b, c).rooms[r] != {} {
      if r == c.roomID {
        assert c in Entered(b, c).rooms[r];
      }
    }
  }

  lemma AtEntered(rooms: map<string, set<Client>>, c: Client)
    ensures var after := rooms[c.roomID := At(rooms, c.roomID) + {c}];
            && At(after, c.roomID) == At(rooms, c.roomID) + {c}
            && (forall r :: r != c.roomID ==> At(after, r) == At(rooms, r))
            && (forall r :: r in after ==> after[r] == At(after, r))
  {
  }

  lemma PoisedToWelcome(b: Books, boxes: Room, c: Client, peers: seq<Peer>, quiet: bool)
    requires Consistent(b, boxes, quiet) && c !in b.ever
    requires multiset(peers) == PeersOf(At(b.rooms, c.roomID))
    ensures Poised(Entered(b, c), boxes[c := Greeted(c, peers)], c.roomID, Announcement(PeerJoined(c.Peer()), c), quiet)
  {
    hide WellFormed, Replay, PeersOf, Current, Awaits, Recorded, Greeted;
    var o := Announcement(PeerJoined(c.Peer()), c);
    EnteredIsHistory(b, boxes, c, Greeted(c, peers));
    WelcomeIsAwaited(b.log, c, peers, At(b.rooms, c.roomID));
    forall d | d in b.all
      ensures d.roomID == c.roomID ==> Awaits(b.log + [Joined(c)], b.joins[d], d, boxes[d], Own(o, d))
      ensures d.roomID != c.roomID ==> Current(b.log + [Joined(c)], b.joins[d], d, boxes[d])
    {
      JoinIsAwaited(b.log, b.joins[d], d, boxes[d], c);
    }
    forall d | d in b.ever && d !in b.all
      ensures Recorded(b.log + [Joined(c)], b.joins[d], d, boxes[d], false, quiet)
    {
      RecordedGrows(b.log, [Joined(c)], b.joins[d], d, boxes[d], quiet);
    }
  }

  lemma JoinIsAwaited(log: seq<Change>, joinedAt: nat, d: Client, box: Mailbox, c: Client)
    requires Current(log, joinedAt, d, box) && d != c
    ensures d.roomID == c.roomID ==> Awaits(log + [Joined(c)], joinedAt, d, box, [PeerJoined(c.Peer())])
    ensures d.roomID != c.roomID ==> Current(log + [Joined(c)], joinedAt, d, box)
  {
    hide InSync, Presence, RoomChanges, Awaits;
    RoomChangesOne(Joined(c), d.roomID);
    PresenceOne(PeerJoined(c.Peer()));
    if d.roomID == c.roomID {
      CurrentAwaits(log, [Joined(c)], joinedAt, d, box, [PeerJoined(c.Peer())]);
    } else {
      InSyncElsewhere(log, [Joined(c)], joinedAt, d, box.accepted);
    }
  }

  lemma EnteredIsHistory(b: Books, boxes: Room, c: Client, box: Mailbox)
    requires History(b, boxes) && c !in b.ever
    ensures History(Entered(b, c), boxes[c := box])
    ensures Replay(b.log, c.roomID) == At(b.rooms, c.roomID)
  {
    hide WellFormed, Replay, At;
    OneMoreJoin(b, c);
    AtEntered(b.rooms, c);
    var after := Entered(b, c);
    forall r ensures Replay(after.log, r) == At(after.rooms, r) {
      ReplayOne(b.log, Joined(c), r);
    }
    assert boxes[c := box].Keys == boxes.Keys + {c};
    assert after.joins.Keys == b.joins.Keys + {c};
  }

  lemma OneMoreJoin(b: Books, c: Client)
    requires WellFormed(b.log) && c !in Replay(b.log, c.roomID)
    ensures WellFormed(b.log + [Joined(c)])
  {
    OneMore(b.log, Joined(c));
  }

  lemma WelcomeIsAwaited(log: seq<Change>, c: Client, peers: seq<Peer>, members: set<Client>)
    requires multiset(peers) == PeersOf(members) && members == Replay(log, c.roomID)
    requires Left(c) !in log
    ensures Awaits(log + [Joined(c)], |log| + 1, c, Greeted(c, peers), [])
  {
    hide PeersOf, Replay, Presence, RoomChanges;
    var welcome, longer := Welcome(c.userID, peers), log + [Joined(c)];
    PresenceOne(welcome);
    SliceConcat(log, [Joined(c)], |log|);
    assert longer[..|log|] == log && longer[|log| + 1..] == [];
    NoChanges(c.roomID);
    AddNothing([welcome]);
    assert Left(c) !in longer && longer[|log|] == Joined(c);
  }

  /** From the middle of a step to its end. */
  lemma CascadeKeepsConsistent(pre: Moment, post: Moment, before: Room, after: Room,
                               o: Offer, forced: set<Client>, gone: seq<Client>, quiet: bool)
    requires Poised(pre.books, before, pre.room, o, quiet)
    requires Outcome(pre, post, o, forced, gone, quiet)
    requires Carries(pre, post, before, after)
    requires forall r, c :: r in post.books.rooms && c in post.books.rooms[r] ==> c.roomID == r && c in post.books.all
    requires forall c :: c in post.books.all ==> c in At(post.books.rooms, c.roomID)
    ensures Consistent(post.books, after, quiet)
  {
    hide History, Settled, AnnouncedTo, Audience, Fed, Own, Awaits, Current, Recorded, Lefts, At;
    var b, b', room := pre.books, post.books, pre.room;
    OutcomeGone(pre, post, o, forced, gone, quiet);
    DepartureKeepsHistory(b, b', before, after, room, gone);
    WhoIsWhere(b, before, room, gone);
    forall c | c in b.ever
      ensures c in b'.all ==> Current(b'.log, b.joins[c], c, after[c])
      ensures Recorded(b'.log, b.joins[c], c, after[c], c in b'.all, quiet)
    {
      if c in At(b.rooms, room) {
        MemberIsRecorded(b.log, b.joins[c], c, before[c], after[c], Own(o, c), gone, quiet);
      } else if c in b.all {
        StrangerStaysCurrent(b.log, b.joins[c], c, before[c], gone, room, quiet);
      } else {
        RecordedGrows(b.log, Lefts(gone), b.joins[c], c, after[c], quiet);
      }
    }
  }

  lemma WhoIsWhere(b: Books, boxes: Room, room: string, gone: seq<Client>)
    requires History(b, boxes) && Elements(gone) <= At(b.rooms, room)
    ensures boxes.Keys == b.joins.Keys == b.ever && b.all <= b.ever
    ensures forall c :: c in At(b.rooms, room) ==> c.roomID == room && c in b.all
    ensures forall c :: c in b.all && c.roomID == room ==> c in At(b.rooms, room)
    ensures forall c :: c in gone ==> c.roomID == room
  {
    assert forall c :: c in gone ==> c in Elements(gone);
  }

  lemma MemberIsRecorded(log: seq<Change>, joinedAt: nat, c: Client, pre: Mailbox, post: Mailbox,
                         own: seq<Outbound>, gone: seq<Client>, quiet: bool)
    requires Awaits(log, joinedAt, c, pre, own) && Fed(pre, post, own, c, gone, quiet)
    requires forall d :: d in gone ==> d.roomID == c.roomID
    ensures c !in gone ==> Current(log + Lefts(gone), joinedAt, c, post)
    ensures Recorded(log + Lefts(gone), joinedAt, c, post, c !in gone, quiet)
  {
    hide Presence, InSync, Told, Fed;
    StepKeepsSync(log, joinedAt, c, pre, post, own, gone, quiet);
    PresencePrefix(pre.accepted, post.accepted);
    if c in gone {
      var i :| 0 <= i < |gone| && gone[i] == c;
      assert (log + Lefts(gone))[|log| + i] == Left(c);
    }
  }

  lemma DepartureKeepsHistory(b: Books, b': Books, before: Room, after: Room, room: string, gone: seq<Client>)
    requires History(b, before) && after.Keys == before.Keys
    requires Departed(b, b', room, gone) && Distinct(gone)
    requires forall r, c :: r in b'.rooms && c in b'.rooms[r] ==> c.roomID == r && c in b'.all
    requires forall c :: c in b'.all ==> c in At(b'.rooms, c.roomID)
    ensures History(b', after)
  {
    hide WellFormed, Replay;
    assert forall c :: c in gone ==> c in Elements(gone) && c.roomID == room;
    DepartureIsHistory(b.log, gone, room);
    assert forall change :: change in Lefts(gone) ==> change.c in b.ever;
  }

  lemma OutcomeGone(pre: Moment, post: Moment, o: Offer, forced: set<Client>, gone: seq<Client>, quiet: bool)
    requires Outcome(pre, post, o, forced, gone, quiet)
    ensures Distinct(gone) && post.boxes.Keys == pre.boxes.Keys
    ensures forall c :: c in gone <==> c in Elements(gone)
    ensures forall c :: c in gone ==> c in pre.boxes
    ensures forall c :: c in pre.boxes ==> Fed(pre.boxes[c], post.boxes[c], Own(o, c), c, gone, quiet)
  {
  }

  lemma StrangerStaysCurrent(log: seq<Change>, joinedAt: nat, c: Client, box: Mailbox, gone: seq<Client>,
                             room: string, quiet: bool)
    requires Current(log, joinedAt, c, box)
    requires c.roomID != room && forall d :: d in gone ==> d.roomID == room
    ensures Current(log + Lefts(gone), joinedAt, c, box)
    ensures Recorded(log + Lefts(gone), joinedAt, c, box, true, quiet)
  {
    hide InSync, Recorded, RoomChanges;
    RoomChangesOfLefts(gone, c.roomID, room);
    assert c !in gone;
    InSyncElsewhere(log, Lefts(gone), joinedAt, c, box.accepted);
    CurrentIsRecorded(log + Lefts(gone), joinedAt, c, box, quiet);
  }

  /** `after` are everyone's mailboxes once `post` is done with one room. */
  ghost predicate Carries(pre: Moment, post: Moment, before: Room, after: Room) {
    && after.Keys == before.Keys
    && (forall c :: c in pre.boxes ==> c in before && pre.boxes[c] == before[c]
                                       && c in post.boxes && post.boxes[c] == after[c])
    && (forall c :: c in before && c !in pre.boxes ==> after[c] == before[c])
  }

  lemma CarriesRest(pre: Moment, post: Moment, before: Room, after: Room)
    requires after.Keys == before.Keys && pre.boxes.Keys <= before.Keys && post.boxes.Keys == pre.boxes.Keys
    requires forall d :: d in pre.boxes ==> pre.boxes[d] == before[d] && post.boxes[d] == after[d]
    requires forall d :: d in before.Keys - pre.boxes.Keys ==> after[d] == before[d]
    ensures Carries(pre, post, before, after)
  {
  }

  lemma CarriesArrival(pre: Moment, post: Moment, before: Room, after: Room, guests: Room, c: Client, entry: Mailbox)
    requires pre.boxes == guests[c := entry] && guests.Keys <= before.Keys && c !in before
    requires forall d :: d in guests ==> guests[d] == before[d]
    requires post.boxes.Keys == guests.Keys + {c} && after.Keys == before.Keys + {c}
    requires forall d :: d in post.boxes ==> post.boxes[d] == after[d]
    requires forall d :: d in before.Keys - guests.Keys ==> after[d] == before[d]
    ensures Carries(pre, post, before[c := entry], after)
  {
    var was := before[c := entry];
    CarriesRest(pre, post, was, after) by {
      assert was.Keys == before.Keys + {c} && pre.boxes.Keys == guests.Keys + {c};
      assert was.Keys - pre.boxes.Keys == before.Keys - guests.Keys;
    }
  }

  /** A departure or a relayed message keeps everyone in step. */
  lemma StepKeepsConsistent(pre: Moment, post: Moment, before: Room, after: Room,
                            o: Offer, forced: set<Client>, gone: seq<Client>, count: int, quiet: bool)
    requires Consistent(pre.books, before, quiet) && !o.Announcement?
    requires Outcome(pre, post, o, forced, gone, quiet) && Carries(pre, post, before, after)
    requires Tidy(post.books, count)
    ensures Consistent(post.books, after, quiet)
  {
    hide Outcome, Poised, Consistent;
    PoisedToRelay(pre.books, before, pre.room, o, quiet);
    CascadeKeepsConsistent(pre, post, before, after, o, forced, gone, quiet);
  }

  /** Writers take frames off the queues; what was accepted stays. */
  lemma PumpKeepsConsistent(b: Books, before: Room, after: Room, quiet: bool)
    requires Consistent(b, before, quiet)
    requires after.Keys == before.Keys
    requires forall c :: c in before ==>
                           after[c].accepted == before[c].accepted && after[c].offered == before[c].offered
    ensures Consistent(b, after, quiet)
  {
    hide History, InSync, Told, Presence;
    SameHistory(b, before, after);
  }

  lemma SameHistory(b: Books, before: Room, after: Room)
    requires History(b, before) && after.Keys == before.Keys
    ensures History(b, after) && before.Keys == b.ever && b.all <= b.ever
  {
  }

  /** So does an arrival, once the newcomer holds its welcome. */
  lemma ArrivalKeepsConsistent(b: Books, boxes: Room, c: Client, peers: seq<Peer>, pre: Moment, post: Moment,
                               after: Room, gone: seq<Client>, count: int, quiet: bool)
    requires Consistent(b, boxes, quiet) && c !in b.ever
    requires multiset(peers) == PeersOf(At(b.rooms, c.roomID))
    requires pre.books == Entered(b, c) && pre.room == c.roomID
    requires Outcome(pre, post, Announcement(PeerJoined(c.Peer()), c), {}, gone, quiet)
    requires Carries(pre, post, boxes[c := Greeted(c, peers)], after)
    requires Tidy(post.books, count)
    ensures Consistent(post.books, after, quiet)
  {
    hide Outcome, Poised, Consistent, PeersOf, Entered;
    PoisedToWelcome(b, boxes, c, peers, quiet);
    CascadeKeepsConsistent(pre, post, boxes[c := Greeted(c, peers)], after,
                           Announcement(PeerJoined(c.Peer()), c), {}, gone, quiet);
  }

  // ---------------------------------------------------------------------
  // What clients believe
  // ---------------------------------------------------------------------

  /** The position of the log a client has reached that was sent `wire`. */
  ghost function MomentOf(log: seq<Change>, joinedAt: nat, c: Client, wire: seq<Outbound>): nat
    requires joinedAt <= LeftAt(log, c)
  {
    var told, story := |Presence(wire)| - 1, log[..LeftAt(log, c)];
    if 0 <= told <= |RoomChanges(story[joinedAt..], c.roomID)| then Reached(story, joinedAt, c.roomID, told) else 0
  }

  /** Whatever a client has been sent, once it holds its welcome, shows its room
      as it really was at one moment since it joined and before it left. */
  lemma SeenIsAPastRoom(log: seq<Change>, joinedAt: nat, c: Client, accepted: seq<Outbound>, wire: seq<Outbound>)
    requires WellFormed(log) && PastSync(log, joinedAt, c, accepted)
    requires wire <= accepted && Presence(wire) != []
    ensures joinedAt <= MomentOf(log, joinedAt, c, wire) <= LeftAt(log, c)
    ensures Believed(Presence(wire))
         == PeersOf(Replay(log[..MomentOf(log, joinedAt, c, wire)], c.roomID) - {c})
  {
    hide Believed, PeersOf, Replay, RoomChanges, Presence;
    PresencePrefix(wire, accepted);
    var end := LeftAt(log, c);
    var story, told, welcome := log[..end], Presence(wire), Presence(accepted)[0];
    assert story[joinedAt..] == log[joinedAt..end];
    var changes := RoomChanges(story[joinedAt..], c.roomID);
    var k := |told| - 1;
    assert told[0] == welcome;
    ShorterPrefix(told, [welcome], changes);
    ReachedHas(story, joinedAt, c.roomID, k);
    var n := Reached(story, joinedAt, c.roomID, k);
    assert story[joinedAt..n] == log[joinedAt..n];
    BelievedAt(log, joinedAt, c, welcome, n);
  }

  lemma ShorterPrefix(s: seq<Outbound>, a: seq<Outbound>, b: seq<Outbound>)
    requires s <= a + b && |s| >= |a|
    ensures |s| - |a| <= |b| && s == a + b[..|s| - |a|]
  {
  }

  lemma PastIsAfterJoin(log: seq<Change>, joinedAt: nat, c: Client, accepted: seq<Outbound>)
    requires PastSync(log, joinedAt, c, accepted)
    ensures joinedAt <= LeftAt(log, c)
  {
  }

  /** More frames never take a client back in time. */
  lemma SeenMovesForward(log: seq<Change>, joinedAt: nat, c: Client, accepted: seq<Outbound>,
                         earlier: seq<Outbound>, later: seq<Outbound>)
    requires PastSync(log, joinedAt, c, accepted)
    requires earlier <= later <= accepted && Presence(earlier) != []
    ensures MomentOf(log, joinedAt, c, earlier) <= MomentOf(log, joinedAt, c, later)
  {
    hide RoomChanges, Presence;
    PresencePrefix(earlier, later);
    PresencePrefix(later, accepted);
    var end := LeftAt(log, c);
    var story := log[..end];
    assert story[joinedAt..] == log[joinedAt..end];
    var changes := RoomChanges(story[joinedAt..], c.roomID);
    ReachedForward(story, joinedAt, c.roomID, |Presence(earlier)| - 1, |Presence(later)| - 1);
  }

  /** Once it has read everything it was offered, a member believes exactly who
      is in its room, itself left out. */
  lemma CaughtUp(b: Books, boxes: Room, quiet: bool, c: Client)
    requires Consistent(b, boxes, quiet) && c in b.all
    ensures Believed(Presence(boxes[c].accepted)) == PeersOf(At(b.rooms, c.roomID) - {c})
  {
    hide Believed, PeersOf, RoomChanges, Presence, Replay;
    var log, accepted := b.log, boxes[c].accepted;
    LeftAtConcat(log, [], c);
    assert log + [] == log && log[..|log|] == log && log[b.joins[c]..|log|] == log[b.joins[c]..];
    BelievedAt(log, b.joins[c], c, Presence(accepted)[0], |log|);
  }
}
