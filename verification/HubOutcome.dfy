/** What one hub step does to the hub's records and to one room, on values. */
module HubOutcome {
  import opened Protocol
  import opened Clients
  import opened Cascade
  import opened Collections

  datatype Change = Joined(c: Client) | Left(c: Client)

  ghost function Lefts(gone: seq<Client>): seq<Change> {
    seq(|gone|, i requires 0 <= i < |gone| => Left(gone[i]))
  }

  function At(rooms: map<string, set<Client>>, room: string): set<Client> {
    if room in rooms then rooms[room] else {}
  }

  /** The hub's records: everything but the queues. `all` are the members of
      every room, `ever` everyone who was once registered, `log` every change
      of `rooms` in the order it was made, and `joins` how long the log was
      just after each client joined. */
  datatype Books = Books(rooms: map<string, set<Client>>, all: set<Client>, ever: set<Client>,
                         log: seq<Change>, joins: map<Client, nat>)

  /** No client is in two rooms or in a room that is not its own, no empty room
      is kept, and the count is right. */
  ghost predicate Tidy(b: Books, count: int) {
    && b.all <= b.ever
    && (forall r :: r in b.rooms ==> b.rooms[r] != {})
    && (forall r, c :: r in b.rooms && c in b.rooms[r] ==> c.roomID == r && c in b.all)
    && (forall c :: c in b.all ==> c in At(b.rooms, c.roomID))
    && count == |b.all|
  }

  lemma TidyRoom(b: Books, count: int, room: string)
    requires Tidy(b, count)
    ensures forall c :: c in At(b.rooms, room) ==> c.roomID == room && c in b.all && c in b.ever
  {
  }

  /** `gone` left `room`, in this order, and nothing else changed hands. */
  ghost predicate Departed(pre: Books, post: Books, room: string, gone: seq<Client>) {
    && Elements(gone) <= At(pre.rooms, room)
    && At(post.rooms, room) == At(pre.rooms, room) - Elements(gone)
    && (forall r :: r != room ==> At(post.rooms, r) == At(pre.rooms, r))
    && post.all == pre.all - Elements(gone)
    && post.ever == pre.ever && post.joins == pre.joins
    && post.log == pre.log + Lefts(gone)
  }

  lemma DepartedTwice(pre: Books, mid: Books, post: Books, room: string, first: seq<Client>, second: seq<Client>)
    requires Departed(pre, mid, room, first) && Departed(mid, post, room, second)
    ensures Departed(pre, post, room, first + second)
  {
    assert Elements(first + second) == Elements(first) + Elements(second);
    assert Lefts(first + second) == Lefts(first) + Lefts(second);
  }

  /** The map without c, and without its room once that is empty. */
  function Without(rooms: map<string, set<Client>>, c: Client): map<string, set<Client>> {
    var members := At(rooms, c.roomID) - {c};
    if members == {} then rooms - {c.roomID} else rooms[c.roomID := members]
  }

  lemma AtWithout(rooms: map<string, set<Client>>, c: Client)
    ensures At(Without(rooms, c), c.roomID) == At(rooms, c.roomID) - {c}
    ensures forall r :: r != c.roomID ==> At(Without(rooms, c), r) == At(rooms, r)
    ensures forall r :: r in Without(rooms, c) ==> Without(rooms, c)[r] == At(Without(rooms, c), r)
    ensures (forall r :: r in rooms ==> rooms[r] != {}) ==>
              forall r :: r in Without(rooms, c) ==> Without(rooms, c)[r] != {}
  {
  }

  lemma WithoutStaysTidy(pre: Books, post: Books, c: Client, count: int)
    requires Tidy(pre, count) && c in At(pre.rooms, c.roomID)
    requires post == Books(Without(pre.rooms, c), pre.all - {c}, pre.ever, pre.log + [Left(c)], pre.joins)
    ensures Tidy(post, count - 1) && Departed(pre, post, c.roomID, [c])
    ensures At(post.rooms, c.roomID) == At(pre.rooms, c.roomID) - {c}
  {
    hide Without, At, Tidy;
    AtWithout(pre.rooms, c);
    TidyRooms(pre, count);
    TidyWithout(pre, post, c, count);
    assert Lefts([c]) == [Left(c)] && Elements([c]) == {c};
  }

  lemma TidyWithout(pre: Books, post: Books, c: Client, count: int)
    requires Tidy(pre, count) && c in At(pre.rooms, c.roomID)
    requires post == Books(Without(pre.rooms, c), pre.all - {c}, pre.ever, pre.log + [Left(c)], pre.joins)
    ensures Tidy(post, count - 1)
  {
    hide Without, At;
    AtWithout(pre.rooms, c);
    TidyRooms(pre, count);
  }

  lemma TidyRooms(b: Books, count: int)
    requires Tidy(b, count)
    ensures forall r, c :: c in At(b.rooms, r) ==> c.roomID == r && c in b.all
  {
  }

  /** The hub and some clients of one room at one moment. */
  datatype Moment = Moment(books: Books, room: string, boxes: Room, pushes: int) {
    ghost function Only(clients: set<Client>): Moment {
      this.(boxes := boxes - (boxes.Keys - clients))
    }
  }

  /** What became of a room: the step offered o, `forced` had to go, `gone`
      went in this order, and every push was counted. */
  ghost predicate Outcome(pre: Moment, post: Moment, o: Offer, forced: set<Client>, gone: seq<Client>, quiet: bool) {
    && pre.room == post.room && pre.boxes.Keys == At(pre.books.rooms, pre.room)
    && Departed(pre.books, post.books, pre.room, gone)
    && Settled(pre.boxes, post.boxes, o, forced, gone, quiet)
    && forced <= Elements(gone)
    && |gone| + |At(post.books.rooms, pre.room)| == |pre.boxes.Keys|
    && post.pushes == pre.pushes + |Audience(pre.boxes.Keys, o)| + AnnouncedTo(pre.boxes.Keys, gone)
  }

  /** The members at the end are among those at the start. */
  lemma OutcomeShrinks(pre: Moment, post: Moment, o: Offer, forced: set<Client>, gone: seq<Client>, quiet: bool)
    requires Outcome(pre, post, o, forced, gone, quiet)
    ensures At(post.books.rooms, pre.room) <= pre.boxes.Keys
    ensures |At(post.books.rooms, pre.room)| <= |pre.boxes.Keys|
    ensures pre.boxes.Keys - At(post.books.rooms, pre.room) == Elements(gone)
    ensures post.boxes.Keys == pre.boxes.Keys
  {
    hide Settled, Audience, AnnouncedTo, Lefts;
    SettledKeys(pre.boxes, post.boxes, o, forced, gone, quiet);
  }

  lemma OutcomeSettles(pre: Moment, post: Moment, o: Offer, forced: set<Client>, gone: seq<Client>, quiet: bool)
    requires Outcome(pre, post, o, forced, gone, quiet)
    ensures Settled(pre.boxes, post.boxes, o, forced, gone, quiet) && forced <= Elements(gone)
    ensures post.room == pre.room
  {
    hide Settled, Audience, AnnouncedTo, Lefts, Departed, Elements;
  }

  /** What the room was offered: everyone its own frame, and the departure of
      everyone who went before it; a survivor took it all, and whoever went had
      no room for it or had to go. */
  ghost predicate Heard(pre: Room, post: Room, o: Offer, forced: set<Client>, gone: seq<Client>) {
    && post.Keys == pre.Keys
    && (forall c :: c in pre && c !in gone ==>
          && post[c].offered == pre[c].offered + Feed(Own(o, c), gone)
          && post[c].accepted == pre[c].accepted + Feed(Own(o, c), gone))
    && (forall i :: 0 <= i < |gone| ==> gone[i] in pre && HeardLess(pre, post, o, forced, gone, i))
  }

  ghost predicate HeardLess(pre: Room, post: Room, o: Offer, forced: set<Client>, gone: seq<Client>, i: nat)
    requires i < |gone| && gone[i] in pre && post.Keys == pre.Keys
  {
    var a, b := pre[gone[i]], post[gone[i]];
    && b.offered == a.offered + Feed(Own(o, gone[i]), gone[..i])
    && a.accepted <= b.accepted && |b.accepted| <= |a.accepted| + |Own(o, gone[i])| + i
    && (gone[i] in forced || a.Free() < |Own(o, gone[i])| + i)
  }

  lemma WhatWasHeard(pre: Moment, post: Moment, o: Offer, forced: set<Client>, gone: seq<Client>, quiet: bool)
    requires Outcome(pre, post, o, forced, gone, quiet)
    ensures Heard(pre.boxes, post.boxes, o, forced, gone)
  {
    hide Outcome, Own, Settled, Fed, Feed;
    OutcomeSettles(pre, post, o, forced, gone, quiet);
    OutcomeShrinks(pre, post, o, forced, gone, quiet);
    forall c | c in pre.boxes && c !in gone
      ensures && post.boxes[c].offered == pre.boxes[c].offered + Feed(Own(o, c), gone)
              && post.boxes[c].accepted == pre.boxes[c].accepted + Feed(Own(o, c), gone)
    {
      OneMember(pre.boxes, post.boxes, o, forced, gone, quiet, c);
      FedAll(pre.boxes[c], post.boxes[c], Own(o, c), c, gone, quiet);
    }
    forall i | 0 <= i < |gone| ensures gone[i] in pre.boxes && HeardLess(pre.boxes, post.boxes, o, forced, gone, i) {
      var c := gone[i];
      assert c in Elements(gone);
      OneMember(pre.boxes, post.boxes, o, forced, gone, quiet, c);
      FedUpTo(pre.boxes[c], post.boxes[c], Own(o, c), gone, i, quiet);
    }
  }

  /** Of a step that has no frame of its own. */
  lemma OnlyLeftsHeard(pre: Room, post: Room, forced: set<Client>, gone: seq<Client>)
    requires Heard(pre, post, Nothing, forced, gone)
    requires forced == {} || (gone != [] && forced == {gone[0]} && forall i :: 0 < i < |gone| ==> gone[i] != gone[0])
    ensures post.Keys == pre.Keys && |LeftFrames(gone)| == |gone|
    ensures forall c :: c in pre && c !in gone ==>
              && post[c].offered == pre[c].offered + LeftFrames(gone)
              && post[c].accepted == pre[c].accepted + LeftFrames(gone)
    ensures forall i :: 0 <= i < |gone| ==>
              && gone[i] in pre && post[gone[i]].offered == pre[gone[i]].offered + LeftFrames(gone)[..i]
              && (i == 0 || pre[gone[i]].Free() < i)
  {
    hide Feed, LeftFrames, Mailbox.Free, Own;
    FeedSays([], gone);
    assert forall c :: Own(Nothing, c) == [] by { NothingIsOwn(); }
    forall i | 0 <= i < |gone|
      ensures && gone[i] in pre && post[gone[i]].offered == pre[gone[i]].offered + LeftFrames(gone)[..i]
              && (i == 0 || pre[gone[i]].Free() < i)
    {
      assert HeardLess(pre, post, Nothing, forced, gone, i);
    }
  }

  lemma GoneOnce(pre: Moment, post: Moment, o: Offer, forced: set<Client>, gone: seq<Client>, quiet: bool)
    requires Outcome(pre, post, o, forced, gone, quiet)
    ensures forall i, j :: 0 <= i < j < |gone| ==> gone[i] != gone[j]
  {
    hide Outcome, Settled;
    OutcomeSettles(pre, post, o, forced, gone, quiet);
    SettledKeys(pre.boxes, post.boxes, o, forced, gone, quiet);
  }

  lemma NothingIsOwn()
    ensures forall c :: Own(Nothing, c) == []
  {
  }

  /** The frame of the step's own, then the departures. */
  lemma FeedSays(own: seq<Outbound>, gone: seq<Client>)
    ensures Feed(own, gone) == own + LeftFrames(gone) && (own == [] ==> Feed(own, gone) == LeftFrames(gone))
    ensures |LeftFrames(gone)| == |gone|
    ensures forall i :: 0 <= i <= |gone| ==> Feed(own, gone[..i]) == own + LeftFrames(gone)[..i]
    ensures own == [] ==> forall i :: 0 <= i <= |gone| ==> Feed(own, gone[..i]) == LeftFrames(gone)[..i]
  {
    forall i | 0 <= i <= |gone|
      ensures Feed(own, gone[..i]) == own + LeftFrames(gone)[..i]
      ensures own == [] ==> Feed(own, gone[..i]) == LeftFrames(gone)[..i]
    {
      assert LeftFrames(gone[..i]) == LeftFrames(gone)[..i];
    }
  }

  /** Of a relay. */
  lemma RelayIsHeard(pre: Room, post: Room, m: Message, gone: seq<Client>)
    requires Heard(pre, post, Relay(m), {}, gone)
    ensures post.Keys == pre.Keys && |LeftFrames(gone)| == |gone|
    ensures forall c :: c in pre && c !in gone ==>
              var own := if c != m.sender && (m.to == "" || c.userID == m.to) then [m.data] else [];
              && post[c].offered == pre[c].offered + (own + LeftFrames(gone))
              && post[c].accepted == pre[c].accepted + (own + LeftFrames(gone))
    ensures forall i :: 0 <= i < |gone| ==>
              var c := gone[i];
              var own := if c != m.sender && (m.to == "" || c.userID == m.to) then [m.data] else [];
              && c in pre && post[c].offered == pre[c].offered + (own + LeftFrames(gone)[..i])
              && pre[c].Free() < |own| + i
  {
    hide Feed, LeftFrames, Mailbox.Free;
    FeedSays([], gone);
    FeedSays([m.data], gone);
    assert forall i :: 0 <= i < |gone| ==> HeardLess(pre, post, Relay(m), {}, gone, i);
  }

  /** Of a step that has the same frame for everyone but c, or none. */
  lemma OthersHear(pre: Room, post: Room, o: Offer, forced: set<Client>, c: Client, own: seq<Outbound>,
                   gone: seq<Client>)
    requires Heard(pre, post, o, forced, gone) && forced <= {c}
    requires forall d :: Own(o, d) == if d == c then [] else own
    ensures post.Keys == pre.Keys && |LeftFrames(gone)| == |gone|
    ensures forall d :: d in pre && d !in gone && d != c ==>
              && post[d].offered == pre[d].offered + (own + LeftFrames(gone))
              && post[d].accepted == pre[d].accepted + (own + LeftFrames(gone))
    ensures c in pre && c !in gone ==>
              && post[c].offered == pre[c].offered + LeftFrames(gone)
              && post[c].accepted == pre[c].accepted + LeftFrames(gone)
    ensures forall i :: 0 <= i < |gone| && gone[i] != c ==>
              && gone[i] in pre && post[gone[i]].offered == pre[gone[i]].offered + (own + LeftFrames(gone)[..i])
              && pre[gone[i]].Free() < |own| + i
    ensures forall i :: 0 <= i < |gone| && gone[i] == c ==>
              && c in pre && post[c].offered == pre[c].offered + LeftFrames(gone)[..i]
              && (c in forced || pre[c].Free() < i)
    ensures gone != [] && gone[0] == c && c in pre && c in post ==> post[c].accepted == pre[c].accepted
  {
    hide Feed, LeftFrames, Mailbox.Free, Own;
    FeedSays([], gone);
    FeedSays(own, gone);
    forall i | 0 <= i < |gone| && gone[i] != c
      ensures && gone[i] in pre && post[gone[i]].offered == pre[gone[i]].offered + (own + LeftFrames(gone)[..i])
              && pre[gone[i]].Free() < |own| + i
    {
      assert HeardLess(pre, post, o, forced, gone, i);
    }
    forall i | 0 <= i < |gone| && gone[i] == c
      ensures && c in pre && post[c].offered == pre[c].offered + LeftFrames(gone)[..i]
              && (c in forced || pre[c].Free() < i)
    {
      assert HeardLess(pre, post, o, forced, gone, i);
    }
    if gone != [] && gone[0] == c {
      assert HeardLess(pre, post, o, forced, gone, 0);
    }
  }

  lemma OneMember(pre: Room, post: Room, o: Offer, forced: set<Client>, gone: seq<Client>, quiet: bool, c: Client)
    requires Settled(pre, post, o, forced, gone, quiet) && c in pre
    ensures c in post && Fed(pre[c], post[c], Own(o, c), c, gone, quiet) && Distinct(gone)
    ensures forall i :: 0 <= i < |gone| && gone[i] == c ==> c in forced || pre[c].Free() < |Own(o, c)| + i
  {
    hide Fed, Own, Distinct;
  }

  lemma FedAll(pre: Mailbox, post: Mailbox, own: seq<Outbound>, c: Client, gone: seq<Client>, quiet: bool)
    requires Fed(pre, post, own, c, gone, quiet) && c !in gone
    ensures post.offered == pre.offered + Feed(own, gone) && post.accepted == pre.accepted + Feed(own, gone)
  {
    hide Feed, Picked;
    BeforeAbsent(gone, c);
  }

  lemma FedUpTo(pre: Mailbox, post: Mailbox, own: seq<Outbound>, gone: seq<Client>, i: nat, quiet: bool)
    requires i < |gone| && Fed(pre, post, own, gone[i], gone, quiet) && Distinct(gone)
    ensures post.offered == pre.offered + Feed(own, gone[..i])
    ensures pre.accepted <= post.accepted && |post.accepted| <= |pre.accepted| + |own| + i
  {
    hide Distinct, Picked;
    BeforeAt(gone, i);
    var offer := Feed(own, Before(gone, gone[i]));
    var answers: seq<bool> :| |answers| == |offer| && post.took == pre.took + answers
                              && post.accepted == pre.accepted + Picked(offer, answers);
    PickedLength(offer, answers);
  }

  lemma LeftFramesSay(gone: seq<Client>)
    ensures |LeftFrames(gone)| == |gone|
    ensures forall i :: 0 <= i < |gone| ==>
              var f := LeftFrames(gone)[i];
              && f.msgType == "peer-left" && f.sender == gone[i].userID && f.payload == ""
              && |f.peers| == 1 && f.peers[0].id == gone[i].userID && f.peers[0].displayName == gone[i].displayName
  {
  }

  lemma {:induction false} BeforeAbsent<T>(s: seq<T>, x: T)
    requires x !in s
    ensures Before(s, x) == s
  {
    if s != [] {
      BeforeAbsent(s[1..], x);
    }
  }

  /** Who was in the room, and who is afterwards. */
  lemma WhoIsLeft(pre: Moment, post: Moment, o: Offer, forced: set<Client>, gone: seq<Client>, quiet: bool,
                  count: int, after: int)
    requires Outcome(pre, post, o, forced, gone, quiet)
    requires Tidy(pre.books, count) && Tidy(post.books, after)
    ensures post.books.rooms - {pre.room} == pre.books.rooms - {pre.room} && after == count - |gone|
    ensures forall c :: c in gone ==> c in pre.boxes && c !in post.books.all
    ensures forall c :: c in pre.boxes && c !in gone ==> c in post.books.all
    ensures post.books.ever == pre.books.ever
    ensures forall i, j :: 0 <= i < j < |gone| ==> gone[i] != gone[j]
    ensures if forall c :: c in pre.boxes ==> c in gone then pre.room !in post.books.rooms
            else pre.room in post.books.rooms
                 && forall c :: c in post.books.rooms[pre.room] <==> c in pre.boxes && c !in gone
  {
    hide Outcome, Settled, Tidy;
    OutcomeSettles(pre, post, o, forced, gone, quiet);
    SettledKeys(pre.boxes, post.boxes, o, forced, gone, quiet);
    DepartedFrom(pre, post, o, forced, gone, quiet);
    TidyCounts(pre.books, count, pre.room);
    TidyCounts(post.books, after, pre.room);
    SameElsewhere(pre.books, post.books, pre.room, gone, count, after);
    DistinctSize(gone);
    assert Elements(gone) <= pre.books.all;
    assert after == |pre.books.all - Elements(gone)|;
    if !(forall c :: c in pre.boxes ==> c in gone) {
      var c :| c in pre.boxes && c !in gone;
      assert c in At(post.books.rooms, pre.room);
    }
  }

  lemma TidyCounts(b: Books, count: int, room: string)
    requires Tidy(b, count)
    ensures count == |b.all| && At(b.rooms, room) <= b.all
    ensures if room in b.rooms then b.rooms[room] == At(b.rooms, room) != {} else At(b.rooms, room) == {}
  {
  }

  lemma DepartedFrom(pre: Moment, post: Moment, o: Offer, forced: set<Client>, gone: seq<Client>, quiet: bool)
    requires Outcome(pre, post, o, forced, gone, quiet)
    ensures Departed(pre.books, post.books, pre.room, gone) && pre.boxes.Keys == At(pre.books.rooms, pre.room)
  {
    hide Settled, Departed, Audience, AnnouncedTo, At;
  }

  lemma SameElsewhere(pre: Books, post: Books, room: string, gone: seq<Client>, count: int, after: int)
    requires Departed(pre, post, room, gone) && Tidy(pre, count) && Tidy(post, after)
    ensures post.rooms - {room} == pre.rooms - {room}
  {
    hide Tidy;
    forall r | r != room
      ensures (r in post.rooms <==> r in pre.rooms) && (r in post.rooms ==> post.rooms[r] == pre.rooms[r])
    {
      TidyCounts(pre, count, r);
      TidyCounts(post, after, r);
    }
  }

  /** Those in `gone` went, and nobody else. */
  ghost predicate Thinned(before: set<Client>, gone: seq<Client>, after: set<Client>) {
    Elements(gone) <= before && after == before - Elements(gone)
  }

  lemma OutcomeThins(pre: Moment, post: Moment, o: Offer, forced: set<Client>, gone: seq<Client>, quiet: bool)
    requires Outcome(pre, post, o, forced, gone, quiet) && pre.boxes.Keys <= pre.books.all
    ensures Thinned(pre.books.all, gone, post.books.all)
  {
    hide Settled, Audience, AnnouncedTo, Lefts;
    OutcomeShrinks(pre, post, o, forced, gone, quiet);
  }

  lemma NobodyThins(all: set<Client>)
    ensures Thinned(all, [], all)
  {
  }

  lemma DepartedEver(pre: Moment, post: Moment, gone: seq<Client>, o: Offer, forced: set<Client>, quiet: bool)
    requires Outcome(pre, post, o, forced, gone, quiet)
    ensures post.books.ever == pre.books.ever && post.room == pre.room
  {
    hide Settled, Audience, AnnouncedTo, Lefts;
  }

  lemma OutcomeNone(m: Moment, quiet: bool)
    requires m.boxes.Keys == At(m.books.rooms, m.room)
    ensures Outcome(m, m, Nothing, {}, [], quiet)
  {
    hide Settled, Audience, AnnouncedTo, Departed;
    SettledNothing(m.boxes, quiet);
    DepartedNone(m.books, m.room);
    NobodyAsked(m.boxes.Keys);
    AnnouncedToNobody(m.boxes.Keys);
  }

  lemma DepartedNone(b: Books, room: string)
    ensures Departed(b, b, room, [])
  {
    assert b.log + Lefts([]) == b.log;
  }

  /** After everyone was asked, those who refused are dropped. */
  lemma OutcomeOfOffer(pre: Moment, mid: Moment, post: Moment, o: Offer, stalled: set<Client>, gone: seq<Client>,
                       quiet: bool)
    requires pre.room == mid.room && pre.books == mid.books
    requires Offered(pre.boxes, mid.boxes, o, stalled, quiet)
    requires mid.pushes == pre.pushes + |Audience(pre.boxes.Keys, o)|
    requires Outcome(mid, post, Nothing, stalled, gone, quiet)
    ensures Outcome(pre, post, o, {}, gone, quiet)
  {
    hide Settled, Asked, Departed, Audience, AnnouncedTo, At;
    OfferThenDrop(pre.boxes, mid.boxes, post.boxes, o, stalled, gone, quiet);
    NobodyAsked(mid.boxes.Keys);
  }

  /** After c was removed, its departure is announced to the rest. */
  lemma OutcomeOfLeave(pre: Moment, mid: Moment, post: Moment, c: Client, gone: seq<Client>, quiet: bool)
    requires pre.room == mid.room == c.roomID && pre.boxes.Keys == At(pre.books.rooms, pre.room)
    requires c in pre.boxes && post.boxes.Keys == pre.boxes.Keys && post.boxes[c] == pre.boxes[c]
    requires mid.boxes == pre.boxes - {c} && mid.pushes == pre.pushes
    requires Departed(pre.books, mid.books, c.roomID, [c])
    requires Outcome(mid, post.(boxes := post.boxes - {c}), Announcement(PeerLeft(c.Peer()), c), {}, gone, quiet)
    ensures Outcome(pre, post, Nothing, {c}, [c] + gone, quiet)
  {
    hide Settled, Departed, Audience, AnnouncedTo, At, Elements;
    var members := pre.boxes.Keys;
    assert mid.boxes.Keys == members - {c};
    LeaveSettles(pre.boxes, post.boxes, c, gone, quiet);
    DepartedTwice(pre.books, mid.books, post.books, c.roomID, [c], gone);
    LeavePushes(members, c, gone);
    IsFirst(c, gone);
  }

  lemma IsFirst<T>(x: T, s: seq<T>)
    ensures {x} <= Elements([x] + s)
  {
  }

  lemma LeavePushes(members: set<Client>, c: Client, gone: seq<Client>)
    requires c in members
    ensures |members - {c}| + 1 == |members|
    ensures |gone| < |members| ==>
              |Audience(members - {c}, Announcement(PeerLeft(c.Peer()), c))| + AnnouncedTo(members - {c}, gone)
              == |Audience(members, Nothing)| + AnnouncedTo(members, [c] + gone)
  {
    hide Audience, AnnouncedTo;
    EveryoneElse(members - {c}, PeerLeft(c.Peer()), c);
    NobodyAsked(members);
    assert |members - {c}| == |members| - 1;
    if |gone| < |members| {
      AnnouncedFirst(members, c, gone);
    }
  }

  /** One more eviction among those who are left; `more` is empty if c had
      already gone. */
  lemma OutcomeMore(pre: Moment, mid: Moment, post: Moment, dropped: set<Client>, c: Client,
                    gone: seq<Client>, more: seq<Client>, quiet: bool)
    requires Outcome(pre, mid, Nothing, dropped, gone, quiet)
    requires c in pre.boxes && post.boxes.Keys == pre.boxes.Keys
    requires var rest := At(mid.books.rooms, pre.room);
             && (forall d :: d in pre.boxes.Keys - rest ==> post.boxes[d] == mid.boxes[d])
             && (c in rest ==> Outcome(mid.Only(rest), post.Only(rest), Nothing, {c}, more, quiet))
             && (c !in rest ==> more == [] && post == mid)
    ensures Outcome(pre, post, Nothing, dropped + {c}, gone + more, quiet)
  {
    hide Settled, Departed, AnnouncedTo, Audience, At;
    var members, rest := pre.boxes.Keys, At(mid.books.rooms, pre.room);
    OutcomeShrinks(pre, mid, Nothing, dropped, gone, quiet);
    if c in rest {
      OutcomeMoreLive(pre, mid, post, dropped, c, gone, more, quiet);
    } else {
      assert gone + more == gone;
      ForcedGrows(pre.boxes, mid.boxes, dropped, {c}, gone, quiet);
    }
  }

  lemma OutcomeMoreLive(pre: Moment, mid: Moment, post: Moment, dropped: set<Client>, c: Client,
                        gone: seq<Client>, more: seq<Client>, quiet: bool)
    requires Outcome(pre, mid, Nothing, dropped, gone, quiet)
    requires post.boxes.Keys == mid.boxes.Keys == pre.boxes.Keys
    requires var rest := At(mid.books.rooms, pre.room);
             && pre.boxes.Keys - rest == Elements(gone)
             && (forall d :: d in Elements(gone) ==> post.boxes[d] == mid.boxes[d])
             && Outcome(mid.Only(rest), post.Only(rest), Nothing, {c}, more, quiet)
    ensures Outcome(pre, post, Nothing, dropped + {c}, gone + more, quiet)
  {
    hide Settled, Departed, AnnouncedTo, Audience, Elements, At;
    var members, rest := pre.boxes.Keys, At(mid.books.rooms, pre.room);
    assert mid.Only(rest).boxes.Keys == rest;
    DropsCompose(pre.boxes, mid.boxes, post.boxes, dropped, {c}, gone, more, quiet);
    DepartedTwice(pre.books, mid.books, post.books, pre.room, gone, more);
    ElementsConcat(gone, more);
    NobodyAsked(members);
    NobodyAsked(rest);
    AnnouncedTwice(members, rest, gone, more);
  }

  lemma NobodyIsTidy(b: Books, count: int)
    requires Tidy(b, count)
    ensures Tidy(Books(map[], {}, b.ever, b.log, b.joins), 0)
    ensures forall r, c :: r in b.rooms ==> (c in b.rooms[r] <==> c in b.all && c.roomID == r)
    ensures b.all <= b.ever && forall c :: c in b.all ==> c.roomID in b.rooms
  {
  }
}
