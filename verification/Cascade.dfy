/** What an eviction cascade does to a room, stated on values.

    A room is a map from its members to their mailboxes. One hub step offers
    each member the step's own frame (if it is addressed to it) and then one
    peer-left per client evicted before it. A member that refuses a frame is
    itself evicted, which offers one more peer-left to everyone left. */
module Cascade {
  import opened Protocol
  import opened Clients
  import opened Collections

  /** A member's queue: what it was offered so far and which of that it took,
      what it took, how much of that its writer has taken away, and the capacity
      of what is in between. */
  datatype Mailbox = Mailbox(offered: seq<Outbound>, took: seq<bool>, accepted: seq<Outbound>,
                             taken: nat, capacity: nat) {
    ghost function Free(): int {
      capacity - (|accepted| - taken)
    }
  }

  type Room = map<Client, Mailbox>

  /** The mailbox of a newcomer that took its welcome. */
  ghost function Greeted(c: Client, peers: seq<Peer>): Mailbox {
    Mailbox([Welcome(c.userID, peers)], [true], [Welcome(c.userID, peers)], 0, c.capacity)
  }

  /** A client message on its way through the hub; an empty `to` addresses the
      whole room. */
  datatype Message = Message(room: string, sender: Client, to: string, data: Relayed)

  /** The frame a step sends before any eviction, and who gets it. */
  datatype Offer =
    | Nothing
    | Announcement(data: Outbound, except: Client)
    | Relay(m: Message)

  predicate Addressed(m: Message, c: Client) {
    c != m.sender && (m.to == "" || c.userID == m.to)
  }

  function Own(o: Offer, c: Client): seq<Outbound> {
    match o
    case Nothing => []
    case Announcement(data, except) => if c == except then [] else [data]
    case Relay(m) => if Addressed(m, c) then [m.data] else []
  }

  // ---------------------------------------------------------------------
  // Sequences of evicted clients
  // ---------------------------------------------------------------------

  /** The part of s before the first x, or all of it. */
  ghost function Before<T>(s: seq<T>, x: T): seq<T> {
    if s == [] || s[0] == x then [] else [s[0]] + Before(s[1..], x)
  }

  ghost function LeftFrames(gone: seq<Client>): seq<Outbound> {
    seq(|gone|, i requires 0 <= i < |gone| => PeerLeft(gone[i].Peer()))
  }

  /** Everything a step offers a client: its own frame, then the departures. */
  ghost function Feed(own: seq<Outbound>, gone: seq<Client>): seq<Outbound> {
    own + LeftFrames(gone)
  }

  /** The frames of s that still fit into n places. */
  ghost function Fit(s: seq<Outbound>, n: int): seq<Outbound> {
    if n <= 0 then [] else if |s| <= n then s else s[..n]
  }

  lemma {:induction false} BeforeConcat<T>(a: seq<T>, b: seq<T>, x: T)
    ensures Before(a + b, x) == if x in a then Before(a, x) else a + Before(b, x)
  {
    if a == [] {
      assert a + b == b;
    } else {
      assert (a + b)[1..] == a[1..] + b && (a + b)[0] == a[0];
      assert a == [a[0]] + a[1..];
      if a[0] != x {
        BeforeConcat(a[1..], b, x);
        assert x in a <==> x in a[1..];
        Assoc([a[0]], a[1..], Before(b, x));
      }
    }
  }

  lemma {:induction false} BeforeAt<T>(s: seq<T>, k: nat)
    requires k < |s| && Distinct(s)
    ensures Before(s, s[k]) == s[..k]
  {
    if k > 0 {
      assert s[0] != s[k];
      BeforeAt(s[1..], k - 1);
      assert s[..k] == [s[0]] + s[1..][..k - 1];
    }
  }

  lemma FeedNothing()
    ensures Feed([], []) == []
  {
  }

  lemma FeedOwn(own: seq<Outbound>, gone: seq<Client>)
    ensures Feed(own, gone) == own + Feed([], gone)
  {
    assert [] + LeftFrames(gone) == LeftFrames(gone);
  }

  lemma FeedConcat(first: seq<Client>, second: seq<Client>)
    ensures Feed([], first + second) == Feed([], first) + Feed([], second)
  {
    assert LeftFrames(first + second) == LeftFrames(first) + LeftFrames(second);
    assert [] + LeftFrames(first) == LeftFrames(first) && [] + LeftFrames(second) == LeftFrames(second);
  }

  lemma FeedFirst(c: Client, gone: seq<Client>)
    ensures Feed([], [c] + gone) == Feed([PeerLeft(c.Peer())], gone)
  {
    FeedConcat([c], gone);
    FeedOwn([PeerLeft(c.Peer())], gone);
    assert LeftFrames([c]) == [PeerLeft(c.Peer())];
  }

  lemma FeedLast(gone: seq<Client>, c: Client)
    ensures Feed([], gone + [c]) == Feed([], gone) + [PeerLeft(c.Peer())]
  {
    FeedConcat(gone, [c]);
    assert LeftFrames([c]) == [PeerLeft(c.Peer())];
    assert [] + [PeerLeft(c.Peer())] == [PeerLeft(c.Peer())];
  }

  lemma FitConcat(a: seq<Outbound>, b: seq<Outbound>, n: int)
    ensures Fit(a + b, n) == Fit(a, n) + Fit(b, n - |Fit(a, n)|)
  {
  }

  // ---------------------------------------------------------------------
  // The outcome of a cascade
  // ---------------------------------------------------------------------

  /** One mailbox before and after it was offered some frames: it answered each
      of them, and gained those it took. */
  ghost predicate Answered(pre: Mailbox, post: Mailbox, offer: seq<Outbound>) {
    && post.offered == pre.offered + offer
    && exists answers: seq<bool> ::
         && |answers| == |offer|
         && post.took == pre.took + answers
         && post.accepted == pre.accepted + Picked(offer, answers)
  }

  lemma AnsweredBy(pre: Mailbox, post: Mailbox, offer: seq<Outbound>, answers: seq<bool>)
    requires post.offered == pre.offered + offer && |answers| == |offer|
    requires post.took == pre.took + answers && post.accepted == pre.accepted + Picked(offer, answers)
    ensures Answered(pre, post, offer)
  {
  }

  lemma AnsweredNothing(box: Mailbox)
    ensures Answered(box, box, [])
  {
    assert box.took + [] == box.took && box.offered + [] == box.offered;
    assert box.accepted + Picked([], []) == box.accepted;
    AnsweredBy(box, box, [], []);
  }

  lemma AnsweredOwn(pre: Mailbox, post: Mailbox, own: seq<Outbound>, refused: bool)
    requires |own| <= 1 && post.offered == pre.offered + own
    requires post.took == pre.took + (if own == [] then [] else [!refused])
    requires post.accepted == pre.accepted + (if refused then [] else own)
    requires refused ==> own != []
    ensures Answered(pre, post, own)
  {
    if own == [] {
      AnsweredBy(pre, post, [], []);
    } else {
      PickedOne([], [], own[0], !refused);
      assert [] + [own[0]] == own && [] + [!refused] == [!refused];
      AnsweredBy(pre, post, own, [!refused]);
    }
  }

  lemma AnsweredTwice(pre: Mailbox, mid: Mailbox, post: Mailbox, first: seq<Outbound>, second: seq<Outbound>)
    requires Answered(pre, mid, first) && Answered(mid, post, second)
    ensures Answered(pre, post, first + second)
  {
    var p: seq<bool> :| |p| == |first| && mid.took == pre.took + p && mid.accepted == pre.accepted + Picked(first, p);
    var q: seq<bool> :| |q| == |second| && post.took == mid.took + q
                        && post.accepted == mid.accepted + Picked(second, q);
    PickedConcat(first, p, second, q);
    Assoc(pre.offered, first, second);
    Assoc(pre.took, p, q);
    Assoc(pre.accepted, Picked(first, p), Picked(second, q));
    AnsweredBy(pre, post, first + second, p + q);
  }

  /** One mailbox before and after a step that offered it `own` and then one
      peer-left per client that went before c. When `quiet`, no writer ran. */
  ghost predicate Fed(pre: Mailbox, post: Mailbox, own: seq<Outbound>, c: Client, gone: seq<Client>, quiet: bool) {
    && post.capacity == pre.capacity
    && pre.taken <= post.taken
       // whoever is evicted was offered everything up to its own departure
    && Answered(pre, post, Feed(own, Before(gone, c)))
       // a survivor got everything it was offered
    && (c !in gone ==> post.accepted == pre.accepted + Feed(own, gone))
       // without a writer running, every queue is filled up to its capacity
    && (quiet ==>
          && pre.taken == post.taken
          && post.accepted == pre.accepted + Fit(Feed(own, Before(gone, c)), pre.Free()))
  }

  /** Whoever left was removed by the step or could not hold what came before
      its turn. */
  ghost predicate Justified(pre: Room, o: Offer, forced: set<Client>, gone: seq<Client>)
    requires Elements(gone) <= pre.Keys
  {
    forall i :: 0 <= i < |gone| ==> gone[i] in forced || pre[gone[i]].Free() < |Own(o, gone[i])| + i
  }

  /** `pre` became `post` when o was offered, the clients in `forced` were
      removed, and `gone` left in this order. */
  ghost predicate Settled(pre: Room, post: Room, o: Offer, forced: set<Client>, gone: seq<Client>, quiet: bool) {
    && post.Keys == pre.Keys
    && Distinct(gone) && Elements(gone) <= pre.Keys
    && Justified(pre, o, forced, gone)
    && forall c :: c in pre ==> Fed(pre[c], post[c], Own(o, c), c, gone, quiet)
  }

  lemma SettledKeys(pre: Room, post: Room, o: Offer, forced: set<Client>, gone: seq<Client>, quiet: bool)
    requires Settled(pre, post, o, forced, gone, quiet)
    ensures post.Keys == pre.Keys && Distinct(gone) && Elements(gone) <= pre.Keys
  {
    hide Fed, Justified;
  }

  lemma SettledNothing(room: Room, quiet: bool)
    ensures Settled(room, room, Nothing, {}, [], quiet)
  {
    forall c | c in room ensures Fed(room[c], room[c], Own(Nothing, c), c, [], quiet) {
      FeedNothing();
      AnsweredNothing(room[c]);
      assert room[c].accepted + [] == room[c].accepted;
    }
  }

  lemma ForcedGrows(pre: Room, post: Room, f: set<Client>, g: set<Client>, gone: seq<Client>, quiet: bool)
    requires Settled(pre, post, Nothing, f, gone, quiet)
    ensures Settled(pre, post, Nothing, f + g, gone, quiet)
  {
  }

  /** One mailbox half way through a step: it was offered `own`, and `refused`
      says whether it turned it down. */
  ghost predicate Asked(pre: Mailbox, mid: Mailbox, own: seq<Outbound>, refused: bool, quiet: bool) {
    && mid.capacity == pre.capacity
    && pre.taken <= mid.taken
    && (quiet ==> pre.taken == mid.taken)
    && mid.Free() >= 0
    && |own| <= 1
    && mid.offered == pre.offered + own
    && mid.took == pre.took + (if own == [] then [] else [!refused])
    && mid.accepted == pre.accepted + (if refused then [] else own)
    && (refused ==> own != [] && pre.Free() <= 0)
  }

  lemma PushIsAsked(pre: Mailbox, post: Mailbox, data: Outbound, ok: bool, quiet: bool)
    requires post.offered == pre.offered + [data] && post.took == pre.took + [ok]
    requires post.accepted == pre.accepted + (if ok then [data] else [])
    requires post.capacity == pre.capacity && pre.taken <= post.taken && (quiet ==> pre.taken == post.taken)
    requires post.Free() >= 0 && (!ok ==> pre.Free() <= 0)
    ensures Asked(pre, post, [data], !ok, quiet)
  {
  }

  ghost predicate Offered(pre: Room, mid: Room, o: Offer, stalled: set<Client>, quiet: bool) {
    && mid.Keys == pre.Keys && stalled <= pre.Keys
    && forall c :: c in pre ==> Asked(pre[c], mid[c], Own(o, c), c in stalled, quiet)
  }

  /** A push loop under way: those in `todo` are still to be asked. */
  ghost predicate Asking(pre: Room, mid: Room, o: Offer, todo: set<Client>, stalled: set<Client>, quiet: bool) {
    && mid.Keys == pre.Keys && todo <= pre.Keys && stalled <= pre.Keys - todo
    && (forall c :: c in todo ==> mid[c] == pre[c])
    && forall c :: c in pre && c !in todo ==> Asked(pre[c], mid[c], Own(o, c), c in stalled, quiet)
  }

  lemma AskingStarts(room: Room, o: Offer, quiet: bool)
    ensures Asking(room, room, o, room.Keys, {}, quiet)
  {
  }

  lemma AskingOne(pre: Room, mid: Room, post: Room, o: Offer, todo: set<Client>, stalled: set<Client>, c: Client,
                  refused: bool, quiet: bool)
    requires Asking(pre, mid, o, todo, stalled, quiet) && c in todo
    requires post.Keys == mid.Keys && forall d :: d in mid && d != c ==> post[d] == mid[d]
    requires Asked(mid[c], post[c], Own(o, c), refused, quiet)
    ensures Asking(pre, post, o, todo - {c}, if refused then stalled + {c} else stalled, quiet)
  {
    hide Asked, Own;
  }

  lemma AskingEnds(pre: Room, mid: Room, o: Offer, stalled: set<Client>, quiet: bool)
    requires Asking(pre, mid, o, {}, stalled, quiet)
    ensures Offered(pre, mid, o, stalled, quiet)
  {
    hide Asked, Own;
  }

  lemma AskedThenFed(pre: Mailbox, mid: Mailbox, post: Mailbox, own: seq<Outbound>, refused: bool,
                     c: Client, gone: seq<Client>, quiet: bool)
    requires Asked(pre, mid, own, refused, quiet)
    requires Fed(mid, post, [], c, gone, quiet)
    requires refused ==> c in gone
    ensures Fed(pre, post, own, c, gone, quiet)
  {
    hide Feed, Before, Answered, Picked;
    var before := Feed([], Before(gone, c));
    FeedOwn(own, Before(gone, c));
    AnsweredOwn(pre, mid, own, refused);
    AnsweredTwice(pre, mid, post, own, before);
    FeedOwn(own, gone);
    if refused {
      assert quiet ==> mid.Free() == pre.Free() <= 0;
    } else {
      Assoc(pre.accepted, own, Feed([], gone));
      if quiet {
        FitConcat(own, before, pre.Free());
        assert Fit(own, pre.Free()) == own && mid.Free() == pre.Free() - |own|;
        Assoc(pre.accepted, own, Fit(before, mid.Free()));
      }
    }
  }

  lemma OfferThenDrop(pre: Room, mid: Room, post: Room, o: Offer, stalled: set<Client>, gone: seq<Client>, quiet: bool)
    requires Offered(pre, mid, o, stalled, quiet)
    requires Settled(mid, post, Nothing, stalled, gone, quiet)
    requires stalled <= Elements(gone)
    ensures Settled(pre, post, o, {}, gone, quiet)
  {
    hide Fed, Asked, Distinct, Own;
    forall c | c in pre ensures Fed(pre[c], post[c], Own(o, c), c, gone, quiet) {
      assert Own(Nothing, c) == [] by { OwnNothing(c); }
      AskedThenFed(pre[c], mid[c], post[c], Own(o, c), c in stalled, c, gone, quiet);
    }
    forall i | 0 <= i < |gone| ensures pre[gone[i]].Free() < |Own(o, gone[i])| + i {
      var c := gone[i];
      assert c in Elements(gone);
      OwnNothing(c);
      AskedRoom(pre[c], mid[c], Own(o, c), c in stalled, quiet);
    }
  }

  lemma OwnNothing(c: Client)
    ensures Own(Nothing, c) == []
  {
  }

  lemma AskedRoom(pre: Mailbox, mid: Mailbox, own: seq<Outbound>, refused: bool, quiet: bool)
    requires Asked(pre, mid, own, refused, quiet)
    ensures refused ==> pre.Free() < |own|
    ensures !refused ==> pre.Free() <= mid.Free() + |own|
  {
  }

  lemma AnnouncedIsFed(pre: Mailbox, post: Mailbox, c: Client, d: Client, gone: seq<Client>, quiet: bool)
    requires d != c
    requires Fed(pre, post, [PeerLeft(c.Peer())], d, gone, quiet)
    ensures Fed(pre, post, [], d, [c] + gone, quiet)
  {
    FeedFirst(c, gone);
    BeforeConcat([c], gone, d);
    FeedFirst(c, Before(gone, d));
  }

  lemma LeaverIsFed(box: Mailbox, c: Client, gone: seq<Client>, quiet: bool)
    ensures Fed(box, box, [], c, [c] + gone, quiet)
  {
    hide Feed, Answered;
    FeedNothing();
    AnsweredNothing(box);
    assert Before([c] + gone, c) == [];
    assert box.accepted + [] == box.accepted;
  }

  lemma DistinctFirst<T>(x: T, s: seq<T>, rest: set<T>)
    requires Distinct(s) && Elements(s) <= rest && x !in rest
    ensures Distinct([x] + s) && Elements([x] + s) == {x} + Elements(s)
  {
    assert forall i :: 0 <= i < |s| ==> s[i] in Elements(s);
  }

  lemma JustifiedFirst(pre: Room, c: Client, gone: seq<Client>)
    requires c in pre && Elements(gone) <= (pre - {c}).Keys && Elements([c] + gone) <= pre.Keys
    requires Justified(pre - {c}, Announcement(PeerLeft(c.Peer()), c), {}, gone)
    ensures Justified(pre, Nothing, {c}, [c] + gone)
  {
    var all := [c] + gone;
    forall i | 0 < i < |all| ensures pre[all[i]].Free() < i {
      assert all[i] == gone[i - 1] && gone[i - 1] in Elements(gone);
    }
  }

  /** Removing c and then announcing it to the rest is c's own eviction. */
  lemma LeaveSettles(pre: Room, post: Room, c: Client, gone: seq<Client>, quiet: bool)
    requires c in pre && c in post && post[c] == pre[c]
    requires Settled(pre - {c}, post - {c}, Announcement(PeerLeft(c.Peer()), c), {}, gone, quiet)
    ensures Settled(pre, post, Nothing, {c}, [c] + gone, quiet)
  {
    hide Fed, Justified, Distinct, Elements;
    assert post.Keys == (post - {c}).Keys + {c} && pre.Keys == (pre - {c}).Keys + {c};
    DistinctFirst(c, gone, (pre - {c}).Keys);
    JustifiedFirst(pre, c, gone);
    forall d | d in pre ensures Fed(pre[d], post[d], [], d, [c] + gone, quiet) {
      if d == c {
        LeaverIsFed(pre[c], c, gone, quiet);
      } else {
        assert d in pre - {c} && (post - {c})[d] == post[d];
        AnnouncedIsFed(pre[d], post[d], c, d, gone, quiet);
      }
    }
  }

  lemma FedTwice(pre: Mailbox, mid: Mailbox, post: Mailbox, c: Client,
                 first: seq<Client>, second: seq<Client>, quiet: bool)
    requires c !in first
    requires Fed(pre, mid, [], c, first, quiet)
    requires Fed(mid, post, [], c, second, quiet)
    ensures Fed(pre, post, [], c, first + second, quiet)
  {
    hide Feed, Before, Fit, Answered;
    FeedConcat(first, second);
    Assoc(pre.accepted, Feed([], first), Feed([], second));
    BeforeConcat(first, second, c);
    FitsBefore(first, c);
    var head, tail := Feed([], first), Feed([], Before(second, c));
    FeedConcat(first, Before(second, c));
    AnsweredTwice(pre, mid, post, head, tail);
    if quiet {
      FitConcat(head, tail, pre.Free());
      assert mid.Free() == pre.Free() - |Fit(head, pre.Free())|;
      Assoc(pre.accepted, Fit(head, pre.Free()), Fit(tail, mid.Free()));
    }
  }

  lemma FedFirst(pre: Mailbox, post: Mailbox, c: Client, first: seq<Client>, second: seq<Client>, quiet: bool)
    requires c in first
    requires Fed(pre, post, [], c, first, quiet)
    ensures Fed(pre, post, [], c, first + second, quiet)
  {
    BeforeConcat(first, second, c);
  }

  lemma FitsBefore<T>(s: seq<T>, x: T)
    requires x !in s
    ensures Before(s, x) == s
  {
    if s != [] {
      FitsBefore(s[1..], x);
    }
  }

  lemma JustifiedTwice(pre: Room, mid: Room, f: set<Client>, g: set<Client>,
                       first: seq<Client>, second: seq<Client>, quiet: bool)
    requires Elements(first) <= pre.Keys && mid.Keys == pre.Keys
    requires Elements(second) <= (mid - Elements(first)).Keys && Elements(first + second) <= pre.Keys
    requires Justified(pre, Nothing, f, first) && Justified(mid - Elements(first), Nothing, g, second)
    requires forall c :: c in pre && c !in first ==> mid[c].Free() >= pre[c].Free() - |first|
    ensures Justified(pre, Nothing, f + g, first + second)
  {
    var all := first + second;
    forall i | 0 <= i < |all| ensures all[i] in f + g || pre[all[i]].Free() < i {
      if i < |first| {
        assert all[i] == first[i] && first[i] in Elements(first);
      } else {
        var c := second[i - |first|];
        assert c in Elements(second) && c in mid - Elements(first) && c !in first;
      }
    }
  }

  lemma FedLeavesRoom(pre: Mailbox, mid: Mailbox, c: Client, gone: seq<Client>, quiet: bool)
    requires Fed(pre, mid, [], c, gone, quiet) && c !in gone
    ensures mid.Free() >= pre.Free() - |gone|
  {
    hide Answered;
  }

  /** Two cascades in a row, the second among the survivors of the first. */
  lemma DropsCompose(pre: Room, mid: Room, post: Room, f: set<Client>, g: set<Client>,
                     first: seq<Client>, second: seq<Client>, quiet: bool)
    requires Settled(pre, mid, Nothing, f, first, quiet)
    requires post.Keys == pre.Keys
    requires Settled(mid - Elements(first), post - Elements(first), Nothing, g, second, quiet)
    requires forall c :: c in Elements(first) ==> post[c] == mid[c]
    ensures Settled(pre, post, Nothing, f + g, first + second, quiet)
  {
    hide Fed, Justified, Distinct, Elements;
    var rest := mid - Elements(first);
    ElementsConcat(first, second);
    DistinctConcat(first, second, rest.Keys);
    forall c | c in pre ensures Fed(pre[c], post[c], [], c, first + second, quiet) {
      if c in first {
        FedFirst(pre[c], post[c], c, first, second, quiet);
      } else {
        assert c in rest && (post - Elements(first))[c] == post[c];
        FedTwice(pre[c], mid[c], post[c], c, first, second, quiet);
      }
    }
    forall c | c in pre && c !in first ensures mid[c].Free() >= pre[c].Free() - |first| {
      FedLeavesRoom(pre[c], mid[c], c, first, quiet);
    }
    JustifiedTwice(pre, mid, f, g, first, second, quiet);
  }

  lemma DistinctConcat<T>(a: seq<T>, b: seq<T>, rest: set<T>)
    requires Distinct(a) && Distinct(b) && Elements(b) <= rest && Elements(a) !! rest
    ensures Distinct(a + b)
  {
    assert forall j :: 0 <= j < |b| ==> b[j] in rest;
    assert forall i :: 0 <= i < |a| ==> a[i] in Elements(a);
  }

  // ---------------------------------------------------------------------
  // Cost
  // ---------------------------------------------------------------------

  /** Pushes made to announce k departures from a room of n. */
  ghost function LeftPushes(n: nat, k: nat): int
    requires k <= n
  {
    if k == 0 then 0 else n - 1 + LeftPushes(n - 1, k - 1)
  }

  lemma {:induction false} LeftPushesAdd(n: nat, j: nat, k: nat)
    requires j + k <= n
    ensures LeftPushes(n, j) + LeftPushes(n - j, k) == LeftPushes(n, j + k)
  {
    if j > 0 {
      LeftPushesAdd(n - 1, j - 1, k);
    }
  }

  /** Pushes made to announce to a room that `gone` left it one by one. */
  ghost function AnnouncedTo(members: set<Client>, gone: seq<Client>): int {
    if |gone| <= |members| then LeftPushes(|members|, |gone|) else 0
  }

  lemma AnnouncedToNobody(members: set<Client>)
    ensures AnnouncedTo(members, []) == 0
  {
  }

  lemma AnnouncedFirst(members: set<Client>, c: Client, gone: seq<Client>)
    requires c in members && |gone| < |members|
    ensures AnnouncedTo(members, [c] + gone) == |members - {c}| + AnnouncedTo(members - {c}, gone)
  {
    assert |members - {c}| == |members| - 1;
  }

  lemma AnnouncedTwice(members: set<Client>, rest: set<Client>, first: seq<Client>, second: seq<Client>)
    requires |first| + |rest| == |members| && |second| <= |rest|
    ensures AnnouncedTo(members, first + second) == AnnouncedTo(members, first) + AnnouncedTo(rest, second)
  {
    LeftPushesAdd(|members|, |first|, |second|);
  }

  /** The members a step sends its own frame to. */
  ghost function Audience(members: set<Client>, o: Offer): set<Client> {
    set c | c in members && Own(o, c) != []
  }

  lemma AudienceMinus(members: set<Client>, o: Offer, c: Client)
    requires c in members
    ensures |Audience(members, o)| == |Audience(members - {c}, o)| + |Own(o, c)|
  {
    if Own(o, c) == [] {
      assert Audience(members, o) == Audience(members - {c}, o);
    } else {
      assert Audience(members, o) == Audience(members - {c}, o) + {c};
    }
  }

  lemma NobodyLeft(o: Offer)
    ensures |Audience({}, o)| == 0
  {
    assert Audience({}, o) == {};
  }

  lemma EveryoneElse(members: set<Client>, data: Outbound, except: Client)
    ensures Audience(members, Announcement(data, except)) == members - {except}
    ensures except !in members ==> Audience(members, Announcement(data, except)) == members
  {
  }

  lemma NobodyAsked(members: set<Client>)
    ensures Audience(members, Nothing) == {}
  {
  }
}
