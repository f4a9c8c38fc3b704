/** Presence as one ordered log: what a client's accepted frames say about the
    changes of its room, and what a client makes of the frames it was sent. */
module PresenceLog {
  import opened Protocol
  import opened Clients
  import opened Cascade
  import opened Collections
  import opened HubOutcome

  /** The presence frames among `frames`, in order. */
  ghost function Presence(frames: seq<Outbound>): seq<Outbound> {
    if frames == [] then []
    else
      var last := frames[|frames| - 1];
      Presence(frames[..|frames| - 1]) + if IsPresence(last) then [last] else []
  }

  ghost function ChangeFrame(change: Change): Outbound {
    match change
    case Joined(c) => PeerJoined(c.Peer())
    case Left(c) => PeerLeft(c.Peer())
  }

  /** The frames that announce the changes of one room. */
  ghost function RoomChanges(log: seq<Change>, room: string): seq<Outbound> {
    if log == [] then []
    else
      var last := log[|log| - 1];
      RoomChanges(log[..|log| - 1], room) + if last.c.roomID == room then [ChangeFrame(last)] else []
  }

  /** The members of a room after the changes in `log`. */
  ghost function Replay(log: seq<Change>, room: string): set<Client> {
    if log == [] then {}
    else
      var before, last := Replay(log[..|log| - 1], room), log[|log| - 1];
      if last.c.roomID != room then before
      else if last.Joined? then before + {last.c} else before - {last.c}
  }

  /** Nobody joins twice without leaving, nobody leaves who is not there. */
  ghost predicate WellFormed(log: seq<Change>) {
    forall i :: 0 <= i < |log| ==> Fits(log[..i], log[i])
  }

  ghost predicate Fits(log: seq<Change>, change: Change) {
    change.Joined? <==> change.c !in Replay(log, change.c.roomID)
  }

  /** The position in the log where c left, or its end. */
  ghost function LeftAt(log: seq<Change>, c: Client): nat
    ensures LeftAt(log, c) <= |log|
  {
    if log == [] || log[0] == Left(c) then 0 else 1 + LeftAt(log[1..], c)
  }

  // ---------------------------------------------------------------------
  // Sequences
  // ---------------------------------------------------------------------

  lemma {:induction false} PresenceConcat(a: seq<Outbound>, b: seq<Outbound>)
    ensures Presence(a + b) == Presence(a) + Presence(b)
  {
    if b == [] {
      assert a + b == a;
    } else {
      var b' := b[..|b| - 1];
      assert (a + b)[..|a + b| - 1] == a + b';
      PresenceConcat(a, b');
    }
  }

  lemma PresenceOne(frame: Outbound)
    ensures Presence([frame]) == if IsPresence(frame) then [frame] else []
  {
    assert [frame][..0] == [];
  }

  lemma PresencePrefix(a: seq<Outbound>, b: seq<Outbound>)
    requires a <= b
    ensures Presence(a) <= Presence(b)
  {
    assert b == a + b[|a|..];
    PresenceConcat(a, b[|a|..]);
  }

  lemma {:induction false} PresenceOfFeed(gone: seq<Client>)
    ensures Presence(Feed([], gone)) == Feed([], gone)
  {
    hide Feed;
    if gone == [] {
      FeedNothing();
    } else {
      var init, last := gone[..|gone| - 1], gone[|gone| - 1];
      assert gone == init + [last];
      FeedLast(init, last);
      PresenceOfFeed(init);
      PresenceConcat(Feed([], init), [PeerLeft(last.Peer())]);
      PresenceOne(PeerLeft(last.Peer()));
    }
  }

  lemma {:induction false} RoomChangesConcat(a: seq<Change>, b: seq<Change>, room: string)
    ensures RoomChanges(a + b, room) == RoomChanges(a, room) + RoomChanges(b, room)
  {
    if b == [] {
      assert a + b == a;
    } else {
      var b' := b[..|b| - 1];
      assert (a + b)[..|a + b| - 1] == a + b';
      RoomChangesConcat(a, b', room);
    }
  }

  lemma {:induction false} RoomChangesOfLefts(gone: seq<Client>, room: string, home: string)
    requires forall c :: c in gone ==> c.roomID == home
    ensures RoomChanges(Lefts(gone), room) == if room == home then Feed([], gone) else []
  {
    hide Feed;
    if gone == [] {
      FeedNothing();
    } else {
      var init, last := gone[..|gone| - 1], gone[|gone| - 1];
      assert gone == init + [last] && last in gone;
      RoomChangesOfLefts(init, room, home);
      assert Lefts(gone)[..|gone| - 1] == Lefts(init);
      FeedLast(init, last);
    }
  }

  lemma {:induction false} LeftAtConcat(log: seq<Change>, more: seq<Change>, c: Client)
    ensures LeftAt(log + more, c) == if Left(c) in log then LeftAt(log, c) else |log| + LeftAt(more, c)
  {
    if log == [] {
      assert log + more == more;
    } else {
      assert (log + more)[1..] == log[1..] + more;
      if log[0] != Left(c) {
        LeftAtConcat(log[1..], more, c);
        assert Left(c) in log <==> Left(c) in log[1..];
      }
    }
  }

  lemma {:induction false} LeftAtOfLefts(gone: seq<Client>, c: Client)
    ensures LeftAt(Lefts(gone), c) == |Before(gone, c)| && Before(gone, c) <= gone
  {
    if gone != [] {
      assert Lefts(gone)[0] == Left(gone[0]);
      assert Lefts(gone)[1..] == Lefts(gone[1..]);
      if gone[0] != c {
        LeftAtOfLefts(gone[1..], c);
      }
    }
  }

  // ---------------------------------------------------------------------
  // Being in step with the log
  // ---------------------------------------------------------------------

  /** The frames begin with c's welcome: whoever was in the room before it. */
  ghost predicate Welcomed(log: seq<Change>, joinedAt: nat, c: Client, presence: seq<Outbound>) {
    && 1 <= joinedAt <= |log| && log[joinedAt - 1] == Joined(c)
    && presence != []
    && presence[0] == Welcome(c.userID, presence[0].peers)
    && multiset(presence[0].peers) == PeersOf(Replay(log[..joinedAt - 1], c.roomID))
  }

  /** c was told everything that happened since it joined: its welcome, then
      every later change of its room in order, none missing or repeated. */
  ghost predicate InSync(log: seq<Change>, joinedAt: nat, c: Client, accepted: seq<Outbound>) {
    var presence := Presence(accepted);
    && Welcomed(log, joinedAt, c, presence)
    && Left(c) !in log
    && presence == [presence[0]] + RoomChanges(log[joinedAt..], c.roomID)
  }

  /** c was told the beginning of what happened between its joining and its
      leaving. */
  ghost predicate PastSync(log: seq<Change>, joinedAt: nat, c: Client, accepted: seq<Outbound>) {
    var presence := Presence(accepted);
    && Welcomed(log, joinedAt, c, presence)
    && joinedAt <= LeftAt(log, c)
    && presence <= [presence[0]] + RoomChanges(log[joinedAt..LeftAt(log, c)], c.roomID)
  }

  /** c was offered its welcome and then every change of its room until it left,
      in order, none missing or repeated, whether or not it took them all. */
  ghost predicate Told(log: seq<Change>, joinedAt: nat, c: Client, offered: seq<Outbound>) {
    var presence := Presence(offered);
    && Welcomed(log, joinedAt, c, presence)
    && joinedAt <= LeftAt(log, c)
    && presence == [presence[0]] + RoomChanges(log[joinedAt..LeftAt(log, c)], c.roomID)
  }

  lemma InSyncIsTold(log: seq<Change>, joinedAt: nat, c: Client, offered: seq<Outbound>)
    requires InSync(log, joinedAt, c, offered)
    ensures Told(log, joinedAt, c, offered)
  {
    hide Presence, RoomChanges, Replay, PeersOf;
    LeftAtConcat(log, [], c);
    assert log + [] == log && log[joinedAt..|log|] == log[joinedAt..];
  }

  /** Once c has left, nothing more is its business. */
  lemma ToldGrows(log: seq<Change>, more: seq<Change>, joinedAt: nat, c: Client, offered: seq<Outbound>)
    requires Told(log, joinedAt, c, offered) && Left(c) in log
    ensures Told(log + more, joinedAt, c, offered)
  {
    hide Presence, RoomChanges, Replay, PeersOf;
    SliceConcat(log, more, joinedAt - 1);
    LeftAtConcat(log, more, c);
    assert (log + more)[joinedAt..LeftAt(log, c)] == log[joinedAt..LeftAt(log, c)];
  }

  /** Its own departure is the end of what c is told. */
  lemma ToldAtLeaving(log: seq<Change>, more: seq<Change>, joinedAt: nat, c: Client, offered: seq<Outbound>)
    requires InSync(log, joinedAt, c, offered) && (more == [] || more[0] == Left(c))
    ensures Told(log + more, joinedAt, c, offered)
  {
    hide Presence, RoomChanges, Replay, PeersOf;
    if more == [] {
      assert log + more == log;
      InSyncIsTold(log, joinedAt, c, offered);
    } else {
      SliceConcat(log, more, joinedAt - 1);
      LeftAtConcat(log, more, c);
      assert (log + more)[joinedAt..|log|] == log[joinedAt..];
    }
  }

  /** The step's own frame keeps c in step if it announces the change that was
      just made, or announces nothing. */
  lemma InSyncOwn(log: seq<Change>, more: seq<Change>, joinedAt: nat, c: Client,
                  accepted: seq<Outbound>, own: seq<Outbound>)
    requires InSync(log, joinedAt, c, accepted)
    requires RoomChanges(more, c.roomID) == Presence(own) && Left(c) !in more
    ensures InSync(log + more, joinedAt, c, accepted + own)
  {
    hide Replay, PeersOf, Presence, RoomChanges;
    SliceConcat(log, more, joinedAt - 1);
    SliceConcat(log, more, joinedAt);
    RoomChangesConcat(log[joinedAt..], more, c.roomID);
    PresenceConcat(accepted, own);
    Assoc([Presence(accepted)[0]], RoomChanges(log[joinedAt..], c.roomID), Presence(own));
  }

  /** A change in another room is none of c's business. */
  lemma InSyncElsewhere(log: seq<Change>, more: seq<Change>, joinedAt: nat, c: Client, accepted: seq<Outbound>)
    requires InSync(log, joinedAt, c, accepted)
    requires RoomChanges(more, c.roomID) == [] && Left(c) !in more
    ensures InSync(log + more, joinedAt, c, accepted)
  {
    hide InSync;
    InSyncOwn(log, more, joinedAt, c, accepted, []);
    assert accepted + [] == accepted;
  }

  /** A cascade keeps every survivor in step, and everyone else was offered
      everything up to its own departure; if no writer ran meanwhile, what it
      took of that is a beginning. */
  lemma StepKeepsSync(log: seq<Change>, joinedAt: nat, c: Client, pre: Mailbox, post: Mailbox,
                      own: seq<Outbound>, gone: seq<Client>, quiet: bool)
    requires pre.accepted == pre.offered && InSync(log, joinedAt, c, pre.offered + own)
    requires Fed(pre, post, own, c, gone, quiet)
    requires forall d :: d in gone ==> d.roomID == c.roomID
    ensures c !in gone ==> InSync(log + Lefts(gone), joinedAt, c, post.accepted) && post.accepted == post.offered
    ensures Told(log + Lefts(gone), joinedAt, c, post.offered)
    ensures pre.accepted <= post.accepted && (quiet ==> post.accepted <= post.offered)
  {
    hide InSync, Told, Before, Feed, Presence;
    var before := Before(gone, c);
    BeforeExcludes(gone, c);
    SurvivorInSync(log, joinedAt, c, pre.offered + own, before);
    FeedOwn(own, before);
    Assoc(pre.offered, own, Feed([], before));
    RestOfGone(gone, c);
    var rest := gone[|before|..];
    ToldAtLeaving(log + Lefts(before), Lefts(rest), joinedAt, c, post.offered);
    Assoc(log, Lefts(before), Lefts(rest));
    if c !in gone {
      FitsBefore(gone, c);
    }
  }

  lemma RestOfGone(gone: seq<Client>, c: Client)
    ensures |Before(gone, c)| <= |gone|
    ensures var rest := gone[|Before(gone, c)|..];
            && Lefts(gone) == Lefts(Before(gone, c)) + Lefts(rest)
            && (Lefts(rest) == [] || Lefts(rest)[0] == Left(c))
  {
    LeftAtOfLefts(gone, c);
    BeforeEnds(gone, c);
  }

  lemma {:induction false} BeforeEnds<T>(s: seq<T>, x: T)
    ensures |Before(s, x)| <= |s| && (|Before(s, x)| < |s| ==> s[|Before(s, x)|] == x)
  {
    if s != [] && s[0] != x {
      BeforeEnds(s[1..], x);
    }
  }

  lemma BeforeExcludes<T>(s: seq<T>, x: T)
    ensures x !in Before(s, x) && forall y :: y in Before(s, x) ==> y in s
  {
  }

  lemma SurvivorInSync(log: seq<Change>, joinedAt: nat, c: Client, accepted: seq<Outbound>, gone: seq<Client>)
    requires InSync(log, joinedAt, c, accepted)
    requires c !in gone && forall d :: d in gone ==> d.roomID == c.roomID
    ensures InSync(log + Lefts(gone), joinedAt, c, accepted + Feed([], gone))
  {
    RoomChangesOfLefts(gone, c.roomID, c.roomID);
    PresenceOfFeed(gone);
    InSyncOwn(log, Lefts(gone), joinedAt, c, accepted, Feed([], gone));
  }

  // ---------------------------------------------------------------------
  // Whether what a client took is a true beginning
  // ---------------------------------------------------------------------

  /** Which of the presence frames among `frames` were taken. */
  ghost function PresenceTook(frames: seq<Outbound>, took: seq<bool>): (picks: seq<bool>)
    requires |took| == |frames|
    ensures |picks| == |Presence(frames)|
  {
    if frames == [] then []
    else
      var n := |frames| - 1;
      PresenceTook(frames[..n], took[..n]) + if IsPresence(frames[n]) then [took[n]] else []
  }

  lemma {:induction false} PresencePicked(frames: seq<Outbound>, took: seq<bool>)
    requires |took| == |frames|
    ensures Presence(Picked(frames, took)) == Picked(Presence(frames), PresenceTook(frames, took))
  {
    if frames != [] {
      var n := |frames| - 1;
      var before := Picked(frames[..n], took[..n]);
      var told, picks := Presence(frames[..n]), PresenceTook(frames[..n], took[..n]);
      PresencePicked(frames[..n], took[..n]);
      PresenceConcat(before, [frames[n]]);
      PresenceOne(frames[n]);
      PickedOne(told, picks, frames[n], took[n]);
      hide Picked;
      AddNothing(before);
      AddNothing(told);
      AddNothing(picks);
      AddNothing(Picked(told, picks));
    }
  }

  lemma AddNothing<T>(s: seq<T>)
    ensures s + [] == s
  {
  }

  /** From the first refused frame on, whatever was still taken reads like the
      frames from that one on. */
  ghost predicate Unbroken(frames: seq<Outbound>, took: seq<bool>)
    requires |took| == |frames|
  {
    frames == [] || if took[0] then Unbroken(frames[1..], took[1..]) else Picked(frames, took) <= frames
  }

  /** Nothing is taken any more once something was refused. */
  ghost predicate NoneAfterRefusal(took: seq<bool>) {
    forall i, j :: 0 <= i < j < |took| && took[j] ==> took[i]
  }

  /** No refused frame is offered again, letter by letter. */
  ghost predicate RefusedOnce(frames: seq<Outbound>, took: seq<bool>)
    requires |took| == |frames|
  {
    forall i, j :: 0 <= i < j < |frames| && !took[i] ==> frames[i] != frames[j]
  }

  lemma PickedFirst<T>(s: seq<T>, picks: seq<bool>)
    requires |picks| == |s| > 0
    ensures Picked(s, picks) == (if picks[0] then [s[0]] else []) + Picked(s[1..], picks[1..])
  {
    PickedConcat([s[0]], [picks[0]], s[1..], picks[1..]);
    PickedOne([], [], s[0], picks[0]);
    assert [] + [s[0]] == [s[0]] && [] + [picks[0]] == [picks[0]];
    assert [s[0]] + s[1..] == s && [picks[0]] + picks[1..] == picks;
  }

  lemma {:induction false} UnbrokenIsPrefix(frames: seq<Outbound>, took: seq<bool>)
    requires |took| == |frames|
    ensures Unbroken(frames, took) <==> Picked(frames, took) <= frames
  {
    if frames != [] && took[0] {
      hide Picked;
      PickedFirst(frames, took);
      UnbrokenIsPrefix(frames[1..], took[1..]);
      var rest := Picked(frames[1..], took[1..]);
      assert frames == [frames[0]] + frames[1..];
      if rest <= frames[1..] {
        assert [frames[0]] + rest <= frames;
      }
      if [frames[0]] + rest <= frames {
        assert ([frames[0]] + rest)[1..] == rest;
        assert rest <= frames[1..];
      }
    }
  }

  lemma {:induction false} NoneTaken<T>(s: seq<T>, picks: seq<bool>)
    requires |picks| == |s|
    ensures Picked(s, picks) == [] <==> true !in picks
  {
    if s != [] {
      NoneTaken(s[..|s| - 1], picks[..|s| - 1]);
      assert picks == picks[..|s| - 1] + [picks[|s| - 1]];
    }
  }

  /** When no refused frame comes again, as when everyone who is evicted holds
      one connection, being unbroken is to take nothing after a refusal. */
  lemma {:induction false} UnbrokenExactlyWhen(frames: seq<Outbound>, took: seq<bool>)
    requires |took| == |frames|
    ensures NoneAfterRefusal(took) ==> Unbroken(frames, took)
    ensures RefusedOnce(frames, took) ==> (Unbroken(frames, took) <==> NoneAfterRefusal(took))
  {
    if frames != [] {
      if took[0] {
        hide Picked, RefusedOnce, NoneAfterRefusal;
        UnbrokenExactlyWhen(frames[1..], took[1..]);
        AfterATaken(frames, took);
      } else {
        AfterTheRefusal(frames, took);
      }
    }
  }

  lemma AfterATaken(frames: seq<Outbound>, took: seq<bool>)
    requires |took| == |frames| > 0 && took[0]
    ensures NoneAfterRefusal(took) <==> NoneAfterRefusal(took[1..])
    ensures RefusedOnce(frames, took) <==> RefusedOnce(frames[1..], took[1..])
  {
    var fs, ts := frames[1..], took[1..];
    assert forall i :: 0 < i < |took| ==> took[i] == ts[i - 1] && frames[i] == fs[i - 1];
    assert forall i :: 0 <= i < |ts| ==> ts[i] == took[i + 1] && fs[i] == frames[i + 1];
  }

  lemma AfterTheRefusal(frames: seq<Outbound>, took: seq<bool>)
    requires |took| == |frames| > 0 && !took[0]
    ensures NoneAfterRefusal(took) ==> Picked(frames, took) == []
    ensures RefusedOnce(frames, took) && !NoneAfterRefusal(took) ==> !(Picked(frames, took) <= frames)
  {
    hide Picked;
    var fs, ts := frames[1..], took[1..];
    PickedFirst(frames, took);
    NoneTaken(fs, ts);
    PickedLength(fs, ts);
    assert Picked(frames, took) == Picked(fs, ts);
    if NoneAfterRefusal(took) {
      assert forall j :: 0 <= j < |ts| ==> !ts[j];
    } else if RefusedOnce(frames, took) {
      var j: int :| 0 < j < |took| && took[j];
      assert ts[j - 1];
      assert Picked(fs, ts)[0] in fs && Picked(fs, ts)[0] != frames[0];
    }
  }

  /** Otherwise it is not: two connections of one user leave with equal frames,
      and whoever misses the first but takes the second has missed nothing. */
  lemma TwinFramesHideAGap(f: Outbound)
    ensures Unbroken([f, f], [false, true]) && !NoneAfterRefusal([false, true])
    ensures !RefusedOnce([f, f], [false, true])
  {
    hide Picked, IsPresence;
    var frames, took := [f, f], [false, true];
    PickedLength<Outbound>([], []);
    PickedOne([], [], f, false);
    PickedOne([f], [false], f, true);
    assert [] + [f] == [f] && [f] + [f] == frames && [] + [false] == [false] && [false] + [true] == took;
    assert Picked(frames, took) == [f];
    assert took[1] && !took[0];
    assert frames[0] == frames[1];
  }

  lemma {:induction false} ChangesAreNoWelcome(log: seq<Change>, room: string)
    ensures forall f :: f in RoomChanges(log, room) ==> f.msgType != TYPE_WELCOME
  {
    if log != [] {
      ChangesAreNoWelcome(log[..|log| - 1], room);
      assert TYPE_WELCOME[0] != TYPE_PEER_JOINED[0] && TYPE_WELCOME[0] != TYPE_PEER_LEFT[0];
    }
  }

  /** What a client took of what it was offered is a true beginning exactly when
      it is unbroken. */
  lemma TrueBeginningExactlyWhen(log: seq<Change>, joinedAt: nat, c: Client, offered: seq<Outbound>, took: seq<bool>)
    requires Told(log, joinedAt, c, offered) && |took| == |offered|
    ensures PastSync(log, joinedAt, c, Picked(offered, took)) <==>
              && Presence(Picked(offered, took)) != []
              && Unbroken(Presence(offered), PresenceTook(offered, took))
  {
    hide Presence, PresenceTook, Picked, RoomChanges, Replay, PeersOf, Unbroken;
    var told, picks := Presence(offered), PresenceTook(offered, took);
    var heard := Picked(told, picks);
    PresencePicked(offered, took);
    UnbrokenIsPrefix(told, picks);
    PickedLength(told, picks);
    var changes := RoomChanges(log[joinedAt..LeftAt(log, c)], c.roomID);
    ChangesAreNoWelcome(log[joinedAt..LeftAt(log, c)], c.roomID);
    if PastSync(log, joinedAt, c, Picked(offered, took)) {
      assert heard[0] in told && heard[0] !in changes;
      assert heard[0] == told[0];
    }
    if heard != [] && heard <= told {
      assert heard[0] == told[0];
    }
  }

  /** A schedule of the writers that breaks it. In a cascade that evicts a, b
      and c, in this order, c's queue is full when a's departure is offered;
      then its writer takes one frame, and c takes b's. What c took is then no
      beginning of what happened. */
  lemma SkippedFrameIsNoBeginning(log: seq<Change>, joinedAt: nat, c: Client, pre: Mailbox, a: Client, b: Client)
    requires InSync(log, joinedAt, c, pre.accepted) && pre.Free() == 0
    requires a != c && b != c && a.roomID == b.roomID == c.roomID && a.Peer() != b.Peer()
    ensures var post := Mailbox(pre.offered + [PeerLeft(a.Peer()), PeerLeft(b.Peer())], pre.took + [false, true],
                                pre.accepted + [PeerLeft(b.Peer())], pre.taken + 1, pre.capacity);
            && Fed(pre, post, [], c, [a, b, c], false) && post.Free() == 0
            && !PastSync(log + Lefts([a, b, c]), joinedAt, c, post.accepted)
  {
    hide Presence, RoomChanges, Replay, PeersOf, Answered;
    var gone, heard := [a, b, c], PeerLeft(b.Peer());
    SkippedIsFed(pre, c, a, b);
    PresenceConcat(pre.accepted, [heard]);
    PresenceOne(heard);
    var more := Lefts(gone);
    SliceConcat(log, more, joinedAt - 1);
    LeftAtConcat(log, more, c);
    assert more == [Left(a), Left(b)] + [Left(c)];
    LeftAtConcat([Left(a), Left(b)], [Left(c)], c);
    assert (log + more)[joinedAt..|log| + 2] == log[joinedAt..] + Lefts([a, b]);
    RoomChangesConcat(log[joinedAt..], Lefts([a, b]), c.roomID);
    RoomChangesOfLefts([a, b], c.roomID, c.roomID);
    assert Feed([], [a, b])[0] == PeerLeft(a.Peer()) != heard;
    var told := Presence(pre.accepted);
    assert (told + [heard])[|told|] == heard;
    assert ([told[0]] + (RoomChanges(log[joinedAt..], c.roomID) + Feed([], [a, b])))[|told|] == PeerLeft(a.Peer());
    assert LeftAt(log + more, c) == |log| + 2;
  }

  lemma SkippedIsFed(pre: Mailbox, c: Client, a: Client, b: Client)
    requires a != c && b != c
    ensures Fed(pre, Mailbox(pre.offered + [PeerLeft(a.Peer()), PeerLeft(b.Peer())], pre.took + [false, true],
                             pre.accepted + [PeerLeft(b.Peer())], pre.taken + 1, pre.capacity),
                [], c, [a, b, c], false)
  {
    var f, g := PeerLeft(a.Peer()), PeerLeft(b.Peer());
    BeforeConcat([a, b], [c], c);
    assert [a, b, c] == [a, b] + [c] && Before([c], c) == [];
    assert Before([a, b, c], c) == [a, b];
    assert Feed([], [a, b]) == [f, g];
    PickedOne([f], [false], g, true);
    PickedOne([], [], f, false);
    assert [] + [f] == [f] && [] + [false] == [false] && [f] + [g] == [f, g] && [false] + [true] == [false, true];
    assert Picked([f, g], [false, true]) == [g];
    AnsweredBy(pre, Mailbox(pre.offered + [f, g], pre.took + [false, true], pre.accepted + [g], pre.taken + 1,
                            pre.capacity),
               [f, g], [false, true]);
  }

  /** A client whose own welcome does not fit is announced as leaving without
      ever having been announced: everyone who stays falls out of step. */
  lemma RefusedWelcomeBreaksSync(log: seq<Change>, joinedAt: nat, d: Client, accepted: seq<Outbound>,
                                 c: Client, gone: seq<Client>)
    requires InSync(log, joinedAt, d, accepted)
    requires c.roomID == d.roomID && forall e :: e in gone ==> e.roomID == d.roomID
    ensures !InSync(log + [Joined(c)] + Lefts(gone), joinedAt, d, accepted + Feed([], gone))
  {
    hide Replay, PeersOf;
    var more := [Joined(c)] + Lefts(gone);
    Assoc(log, [Joined(c)], Lefts(gone));
    SliceConcat(log, more, joinedAt);
    RoomChangesConcat(log[joinedAt..], more, d.roomID);
    RoomChangesConcat([Joined(c)], Lefts(gone), d.roomID);
    RoomChangesOfLefts(gone, d.roomID, d.roomID);
    assert [Joined(c)][..0] == [];
    PresenceOfFeed(gone);
    PresenceConcat(accepted, Feed([], gone));
    assert |Presence(accepted + Feed([], gone))| == |Presence(accepted)| + |Feed([], gone)|;
  }

  // ---------------------------------------------------------------------
  // Replaying
  // ---------------------------------------------------------------------

  /** The peers of some clients, one for each connection: a user with two
      connections counts twice. */
  ghost function PeersOf(clients: set<Client>): multiset<Peer> {
    if clients == {} then multiset{}
    else
      var c :| c in clients;
      multiset{c.Peer()} + PeersOf(clients - {c})
  }

  lemma {:induction false} PeersOfMinus(clients: set<Client>, c: Client)
    requires c in clients
    ensures PeersOf(clients) == PeersOf(clients - {c}) + multiset{c.Peer()}
    decreases |clients|
  {
    var d :| d in clients && PeersOf(clients) == multiset{d.Peer()} + PeersOf(clients - {d});
    if d != c {
      var both := clients - {c, d};
      assert clients - {d} - {c} == both && clients - {c} - {d} == both;
      PeersOfMinus(clients - {d}, c);
      PeersOfMinus(clients - {c}, d);
    }
  }

  /** What a client that keeps a list of peers believes after these frames. */
  ghost function Believed(presence: seq<Outbound>): multiset<Peer> {
    if presence == [] then multiset{}
    else
      var before, last := Believed(presence[..|presence| - 1]), presence[|presence| - 1];
      if last.msgType == TYPE_WELCOME then multiset(last.peers)
      else if last.msgType == TYPE_PEER_JOINED then before + multiset(last.peers)
      else before - multiset(last.peers)
  }

  /** How much of the log a client knows after k room changes: the shortest
      part after `start` that contains them. */
  ghost function Reached(log: seq<Change>, start: nat, room: string, k: nat): nat
    requires start <= |log| && k <= |RoomChanges(log[start..], room)|
    ensures start <= Reached(log, start, room, k) <= |log|
    decreases |log|
  {
    if k == 0 then start
    else
      assert log[start..] != [] && log[start..][..|log| - start - 1] == log[..|log| - 1][start..];
      if k <= |RoomChanges(log[..|log| - 1][start..], room)|
      then Reached(log[..|log| - 1], start, room, k)
      else |log|
  }

  lemma {:induction false} ReachedForward(log: seq<Change>, start: nat, room: string, j: nat, k: nat)
    requires start <= |log| && j <= k <= |RoomChanges(log[start..], room)|
    ensures Reached(log, start, room, j) <= Reached(log, start, room, k)
    decreases |log|
  {
    if j != 0 && k <= |RoomChanges(log[..|log| - 1][start..], room)| {
      ReachedForward(log[..|log| - 1], start, room, j, k);
    }
  }

  lemma {:induction false} ReachedHas(log: seq<Change>, start: nat, room: string, k: nat)
    requires start <= |log| && k <= |RoomChanges(log[start..], room)|
    ensures RoomChanges(log[start..Reached(log, start, room, k)], room) == RoomChanges(log[start..], room)[..k]
    decreases |log|
  {
    hide RoomChanges;
    NoChanges(room);
    var changes := RoomChanges(log[start..], room);
    if k == 0 {
      assert log[start..start] == [];
    } else {
      var init := log[..|log| - 1];
      assert log[start..] != [];
      LastChange(log, start, room);
      var earlier := RoomChanges(init[start..], room);
      if k <= |earlier| {
        ReachedHas(init, start, room, k);
        var n := Reached(init, start, room, k);
        assert init[start..n] == log[start..n] && changes[..k] == earlier[..k];
      } else {
        assert log[start..|log|] == log[start..] && changes[..k] == changes;
      }
    }
  }

  lemma NoChanges(room: string)
    ensures RoomChanges([], room) == []
  {
  }

  lemma LastChange(log: seq<Change>, start: nat, room: string)
    requires start < |log|
    ensures var earlier, changes := RoomChanges(log[..|log| - 1][start..], room), RoomChanges(log[start..], room);
            earlier <= changes && |changes| <= |earlier| + 1
  {
    assert log[start..][..|log| - start - 1] == log[..|log| - 1][start..];
  }

  lemma WellFormedInit(log: seq<Change>, n: nat)
    requires WellFormed(log) && n < |log|
    ensures Fits(log[..n], log[n])
  {
  }

  /** Whoever reads its welcome and the changes up to some point of the log
      believes what the room was at that point, itself left out. */
  lemma {:induction false} BelievedAt(log: seq<Change>, joinedAt: nat, c: Client, welcome: Outbound, n: nat)
    requires WellFormed(log) && Welcomed(log, joinedAt, c, [welcome])
    requires joinedAt <= n <= LeftAt(log, c)
    ensures Believed([welcome] + RoomChanges(log[joinedAt..n], c.roomID)) == PeersOf(Replay(log[..n], c.roomID) - {c})
    decreases n
  {
    hide Believed, Replay, PeersOf, WellFormed, LeftAt;
    if n == joinedAt {
      BelievedFirst(log, joinedAt, c, welcome);
      assert log[joinedAt..n] == [];
      assert [welcome] + [] == [welcome];
    } else {
      BelievedAt(log, joinedAt, c, welcome, n - 1);
      BelievedStep(log, joinedAt, c, welcome, n - 1);
    }
  }

  lemma BelievedStep(log: seq<Change>, joinedAt: nat, c: Client, welcome: Outbound, n: nat)
    requires WellFormed(log) && 1 <= joinedAt <= n < LeftAt(log, c) && log[joinedAt - 1] == Joined(c)
    requires Believed([welcome] + RoomChanges(log[joinedAt..n], c.roomID)) == PeersOf(Replay(log[..n], c.roomID) - {c})
    ensures Believed([welcome] + RoomChanges(log[joinedAt..n + 1], c.roomID))
         == PeersOf(Replay(log[..n + 1], c.roomID) - {c})
  {
    hide Believed, Replay, RoomChanges, PeersOf, WellFormed, Fits;
    var change := log[n];
    var changes := RoomChanges(log[joinedAt..n], c.roomID);
    assert log[..n + 1] == log[..n] + [change];
    assert log[joinedAt..n + 1] == log[joinedAt..n] + [change];
    RoomChangesConcat(log[joinedAt..n], [change], c.roomID);
    RoomChangesOne(change, c.roomID);
    ReplayOne(log[..n], change, c.roomID);
    if change.c.roomID == c.roomID {
      WellFormedInit(log, n);
      NotAgain(log, joinedAt, c, n);
      BelievedNext(log[..n], change, c, [welcome] + changes);
      Assoc([welcome], changes, [ChangeFrame(change)]);
    } else {
      assert changes + [] == changes;
    }
  }

  lemma RoomChangesOne(change: Change, room: string)
    ensures RoomChanges([change], room) == if change.c.roomID == room then [ChangeFrame(change)] else []
  {
    assert [change][..0] == [];
  }

  lemma ReplayOne(log: seq<Change>, change: Change, room: string)
    ensures Replay(log + [change], room)
         == if change.c.roomID != room then Replay(log, room)
            else if change.Joined? then Replay(log, room) + {change.c} else Replay(log, room) - {change.c}
  {
    assert (log + [change])[..|log|] == log;
  }

  lemma BelievedFirst(log: seq<Change>, joinedAt: nat, c: Client, welcome: Outbound)
    requires WellFormed(log) && Welcomed(log, joinedAt, c, [welcome])
    ensures Believed([welcome]) == PeersOf(Replay(log[..joinedAt], c.roomID) - {c})
  {
    assert log[..joinedAt] == log[..joinedAt - 1] + [Joined(c)];
    ReplayOne(log[..joinedAt - 1], Joined(c), c.roomID);
    WellFormedInit(log, joinedAt - 1);
    assert Replay(log[..joinedAt], c.roomID) - {c} == Replay(log[..joinedAt - 1], c.roomID);
    assert [welcome][..0] == [];
  }

  lemma {:induction false} NotLeftBefore(log: seq<Change>, c: Client, n: nat)
    requires n < LeftAt(log, c)
    ensures log[n] != Left(c)
  {
    if n > 0 {
      NotLeftBefore(log[1..], c, n - 1);
    }
  }

  /** Between its joining and its leaving, c is there and no change is its own. */
  lemma {:induction false} NotAgain(log: seq<Change>, joinedAt: nat, c: Client, n: nat)
    requires WellFormed(log) && 1 <= joinedAt <= n < LeftAt(log, c) && log[joinedAt - 1] == Joined(c)
    ensures log[n].c != c && c in Replay(log[..n], c.roomID)
    decreases n
  {
    hide Replay, WellFormed, LeftAt;
    NotLeftBefore(log, c, n);
    WellFormedInit(log, n);
    assert log[..n] == log[..n - 1] + [log[n - 1]];
    ReplayOne(log[..n - 1], log[n - 1], c.roomID);
    if n > joinedAt {
      NotAgain(log, joinedAt, c, n - 1);
    }
  }

  lemma BelievedNext(log: seq<Change>, change: Change, c: Client, told: seq<Outbound>)
    requires Fits(log, change) && change.c.roomID == c.roomID && change.c != c
    requires Believed(told) == PeersOf(Replay(log, c.roomID) - {c})
    ensures Believed(told + [ChangeFrame(change)]) == PeersOf(Replay(log + [change], c.roomID) - {c})
  {
    hide Replay, PeersOf, Fits;
    ReplayOne(log, change, c.roomID);
    var now, next := Replay(log, c.roomID), Replay(log + [change], c.roomID);
    BelievedOne(told, ChangeFrame(change));
    var d := change.c;
    FitsWhere(log, change);
    if change.Joined? {
      assert next - {c} - {d} == now - {c};
      PeersOfMinus(next - {c}, d);
    } else {
      assert now - {c} - {d} == next - {c};
      PeersOfMinus(now - {c}, d);
    }
  }

  lemma FitsWhere(log: seq<Change>, change: Change)
    requires Fits(log, change)
    ensures change.Joined? <==> change.c !in Replay(log, change.c.roomID)
  {
  }

  lemma BelievedOne(told: seq<Outbound>, frame: Outbound)
    ensures Believed(told + [frame])
         == if frame.msgType == TYPE_WELCOME then multiset(frame.peers)
            else if frame.msgType == TYPE_PEER_JOINED then Believed(told) + multiset(frame.peers)
            else Believed(told) - multiset(frame.peers)
  {
    assert (told + [frame])[..|told|] == told;
  }
}
