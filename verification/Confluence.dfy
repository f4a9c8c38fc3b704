/** Who is evicted by a step, independently of the order in which the members
    of a room are visited, and what the cascade costs. */
module Confluence {
  import opened Protocol
  import opened Clients
  import opened Cascade
  import opened Collections

  // ---------------------------------------------------------------------
  // The least fixed point
  // ---------------------------------------------------------------------

  /** Who cannot stay if everyone in `out` leaves: those the step removes, and
      those with less room than their own frame and one peer-left for each of
      the others takes. */
  ghost function Overwhelmed(room: Room, o: Offer, forced: set<Client>, out: set<Client>): set<Client> {
    set c | c in room && (c in forced || room[c].Free() < |Own(o, c)| + |out - {c}|)
  }

  /** The least set that contains everyone it overwhelms, by iteration. */
  ghost function Evicted(room: Room, o: Offer, forced: set<Client>): set<Client> {
    Grow(room, o, forced, {})
  }

  ghost function Grow(room: Room, o: Offer, forced: set<Client>, out: set<Client>): set<Client>
    requires out <= room.Keys
    decreases |room.Keys - out|
  {
    var more := out + Overwhelmed(room, o, forced, out);
    if more == out then out
    else
      SubsetSize(room.Keys - more, room.Keys - out);
      Grow(room, o, forced, more)
  }

  lemma OverwhelmedGrows(room: Room, o: Offer, forced: set<Client>, small: set<Client>, large: set<Client>)
    requires small <= large
    ensures Overwhelmed(room, o, forced, small) <= Overwhelmed(room, o, forced, large)
  {
    forall c | c in Overwhelmed(room, o, forced, small) ensures c in Overwhelmed(room, o, forced, large) {
      SubsetSize(small - {c}, large - {c});
    }
  }

  lemma {:induction false} GrowIsFixed(room: Room, o: Offer, forced: set<Client>, out: set<Client>)
    requires out <= room.Keys && out <= Overwhelmed(room, o, forced, out)
    ensures Overwhelmed(room, o, forced, Grow(room, o, forced, out)) == Grow(room, o, forced, out)
    decreases |room.Keys - out|
  {
    var more := out + Overwhelmed(room, o, forced, out);
    if more != out {
      SubsetSize(room.Keys - more, room.Keys - out);
      OverwhelmedGrows(room, o, forced, out, more);
      GrowIsFixed(room, o, forced, more);
    }
  }

  lemma {:induction false} GrowIsLeast(room: Room, o: Offer, forced: set<Client>, out: set<Client>, closed: set<Client>)
    requires out <= room.Keys && out <= closed && Overwhelmed(room, o, forced, closed) <= closed
    ensures Grow(room, o, forced, out) <= closed
    decreases |room.Keys - out|
  {
    var more := out + Overwhelmed(room, o, forced, out);
    OverwhelmedGrows(room, o, forced, out, closed);
    if more != out {
      SubsetSize(room.Keys - more, room.Keys - out);
      GrowIsLeast(room, o, forced, more, closed);
    }
  }

  lemma EvictedIsLeastFixedPoint(room: Room, o: Offer, forced: set<Client>)
    ensures Overwhelmed(room, o, forced, Evicted(room, o, forced)) == Evicted(room, o, forced)
    ensures forall closed :: Overwhelmed(room, o, forced, closed) <= closed ==> Evicted(room, o, forced) <= closed
  {
    GrowIsFixed(room, o, forced, {});
    forall closed | Overwhelmed(room, o, forced, closed) <= closed ensures Evicted(room, o, forced) <= closed {
      GrowIsLeast(room, o, forced, {}, closed);
    }
  }

  /** Only how much room each queue has matters, not what is in it. */
  lemma {:induction false} GrowDependsOnFree(one: Room, two: Room, o: Offer, forced: set<Client>, out: set<Client>)
    requires one.Keys == two.Keys && forall c :: c in one ==> one[c].Free() == two[c].Free()
    requires out <= one.Keys
    ensures Grow(one, o, forced, out) == Grow(two, o, forced, out)
    decreases |one.Keys - out|
  {
    hide Overwhelmed;
    OverwhelmedDependsOnFree(one, two, o, forced, out);
    var more := out + Overwhelmed(one, o, forced, out);
    if more != out {
      SubsetSize(one.Keys - more, one.Keys - out);
      GrowDependsOnFree(one, two, o, forced, more);
    }
  }

  lemma OverwhelmedDependsOnFree(one: Room, two: Room, o: Offer, forced: set<Client>, out: set<Client>)
    requires one.Keys == two.Keys && forall c :: c in one ==> one[c].Free() == two[c].Free()
    ensures Overwhelmed(one, o, forced, out) == Overwhelmed(two, o, forced, out) <= one.Keys
  {
    hide Own;
  }

  lemma EvictedDependsOnFree(one: Room, two: Room, o: Offer, forced: set<Client>)
    requires one.Keys == two.Keys && forall c :: c in one ==> one[c].Free() == two[c].Free()
    ensures Evicted(one, o, forced) == Evicted(two, o, forced)
  {
    GrowDependsOnFree(one, two, o, forced, {});
  }

  // ---------------------------------------------------------------------
  // Every order evicts the same clients
  // ---------------------------------------------------------------------

  /** Each departure was justified by those before it, so all of them lie in
      any set that is closed under being overwhelmed. */
  lemma {:induction false} JustifiedStaysWithin(room: Room, o: Offer, forced: set<Client>, gone: seq<Client>,
                                                 closed: set<Client>, n: nat)
    requires Distinct(gone) && Elements(gone) <= room.Keys && Justified(room, o, forced, gone)
    requires Overwhelmed(room, o, forced, closed) <= closed && n <= |gone|
    ensures Elements(gone[..n]) <= closed
  {
    if n > 0 {
      JustifiedStaysWithin(room, o, forced, gone, closed, n - 1);
      var c := gone[n - 1];
      ElementsPush(gone, n - 1);
      assert c in Elements(gone) && c !in Elements(gone[..n - 1]);
      DistinctSize(gone[..n - 1]);
      SubsetSize(Elements(gone[..n - 1]), closed - {c});
      assert c in Overwhelmed(room, o, forced, closed);
    }
  }

  /** The outcome of a cascade is the least fixed point, in whatever order the
      members were visited; writers that run meanwhile can only save clients. */
  lemma CascadeIsLeastFixedPoint(pre: Room, post: Room, o: Offer, forced: set<Client>, gone: seq<Client>, quiet: bool)
    requires Settled(pre, post, o, forced, gone, quiet) && forced <= Elements(gone)
    requires forall c :: c in post && c !in gone ==> post[c].Free() >= 0
    ensures Elements(gone) <= Evicted(pre, o, forced)
    ensures quiet ==> Elements(gone) == Evicted(pre, o, forced)
  {
    hide Fed, Justified, Evicted, Distinct;
    EvictedIsLeastFixedPoint(pre, o, forced);
    JustifiedStaysWithin(pre, o, forced, gone, Evicted(pre, o, forced), |gone|);
    assert gone[..|gone|] == gone;
    if quiet {
      forall c | c in Overwhelmed(pre, o, forced, Elements(gone)) ensures c in Elements(gone) {
        if c !in gone {
          NotOverwhelmed(pre[c], post[c], Own(o, c), c, gone);
        }
      }
    }
  }

  lemma NotOverwhelmed(pre: Mailbox, post: Mailbox, own: seq<Outbound>, c: Client, gone: seq<Client>)
    requires Fed(pre, post, own, c, gone, true) && c !in gone && post.Free() >= 0 && Distinct(gone)
    ensures pre.Free() >= |own| + |Elements(gone) - {c}|
  {
    hide Answered, Before;
    DistinctSize(gone);
    assert Elements(gone) - {c} == Elements(gone);
    assert |Feed(own, gone)| == |own| + |gone|;
  }

  /** Two runs of a step, from rooms that differ at most in what is in the
      queues, not in how much room is left: the same clients leave. */
  lemma OrderDoesNotMatterToWhoLeaves(preOne: Room, preTwo: Room, one: Room, two: Room, o: Offer, forced: set<Client>,
                                      goneOne: seq<Client>, goneTwo: seq<Client>)
    requires preOne.Keys == preTwo.Keys && forall c :: c in preOne ==> preOne[c].Free() == preTwo[c].Free()
    requires Settled(preOne, one, o, forced, goneOne, true) && forced <= Elements(goneOne)
    requires Settled(preTwo, two, o, forced, goneTwo, true) && forced <= Elements(goneTwo)
    requires forall c :: c in one && c !in goneOne ==> one[c].Free() >= 0
    requires forall c :: c in two && c !in goneTwo ==> two[c].Free() >= 0
    ensures Elements(goneOne) == Elements(goneTwo) && multiset(goneOne) == multiset(goneTwo)
    ensures multiset(LeftFrames(goneOne)) == multiset(LeftFrames(goneTwo))
    ensures forall c :: c in goneOne <==> c in goneTwo
  {
    hide Fed, Justified, Evicted, Distinct, LeftFrames;
    EvictedDependsOnFree(preOne, preTwo, o, forced);
    CascadeIsLeastFixedPoint(preOne, one, o, forced, goneOne, true);
    CascadeIsLeastFixedPoint(preTwo, two, o, forced, goneTwo, true);
    SameElements(goneOne, goneTwo);
    SameFrames(goneOne, goneTwo);
    assert forall c :: c in goneOne <==> c in Elements(goneOne);
    assert forall c :: c in goneTwo <==> c in Elements(goneTwo);
  }

  /** Two runs of the same step from the same room: the same clients leave, and
      every survivor gains the same frames, whatever order either run took. */
  lemma OrderDoesNotMatter(pre: Room, one: Room, two: Room, o: Offer, forced: set<Client>,
                           goneOne: seq<Client>, goneTwo: seq<Client>)
    requires Settled(pre, one, o, forced, goneOne, true) && forced <= Elements(goneOne)
    requires Settled(pre, two, o, forced, goneTwo, true) && forced <= Elements(goneTwo)
    requires forall c :: c in one && c !in goneOne ==> one[c].Free() >= 0
    requires forall c :: c in two && c !in goneTwo ==> two[c].Free() >= 0
    ensures Elements(goneOne) == Elements(goneTwo) && multiset(goneOne) == multiset(goneTwo)
    ensures forall c :: c in pre && c !in goneOne ==>
                          multiset(one[c].accepted) == multiset(two[c].accepted) && one[c].Free() == two[c].Free()
  {
    hide Fed, Justified, Distinct, Elements, LeftFrames;
    OrderDoesNotMatterToWhoLeaves(pre, pre, one, two, o, forced, goneOne, goneTwo);
    forall c | c in pre && c !in goneOne
      ensures multiset(one[c].accepted) == multiset(two[c].accepted) && one[c].Free() == two[c].Free()
    {
      SameFeed(pre[c], one[c], two[c], Own(o, c), c, goneOne, goneTwo);
    }
  }

  /** Two joins of the same client from the same room, whose welcomes may list
      the members in different orders: the same clients leave, everyone else who
      stays gains the same frames, and so does the newcomer after a welcome that
      is the same up to the order of its peers. */
  lemma JoinOrderDoesNotMatter(room: Room, c: Client, peersOne: seq<Peer>, peersTwo: seq<Peer>,
                               one: Room, two: Room, goneOne: seq<Client>, goneTwo: seq<Client>)
    requires c !in room && multiset(peersOne) == multiset(peersTwo)
    requires Settled(room[c := Greeted(c, peersOne)], one, Announcement(PeerJoined(c.Peer()), c), {}, goneOne, true)
    requires Settled(room[c := Greeted(c, peersTwo)], two, Announcement(PeerJoined(c.Peer()), c), {}, goneTwo, true)
    requires forall d :: d in one && d !in goneOne ==> one[d].Free() >= 0
    requires forall d :: d in two && d !in goneTwo ==> two[d].Free() >= 0
    ensures Elements(goneOne) == Elements(goneTwo)
    ensures forall d :: d in room && d !in goneOne ==>
                          multiset(one[d].accepted) == multiset(two[d].accepted) && one[d].Free() == two[d].Free()
    ensures c !in goneOne ==>
              && one[c].accepted == [Welcome(c.userID, peersOne)] + LeftFrames(goneOne)
              && two[c].accepted == [Welcome(c.userID, peersTwo)] + LeftFrames(goneTwo)
              && multiset(LeftFrames(goneOne)) == multiset(LeftFrames(goneTwo))
  {
    hide Fed, Justified, Distinct, Elements, LeftFrames;
    var preOne, preTwo := room[c := Greeted(c, peersOne)], room[c := Greeted(c, peersTwo)];
    var o := Announcement(PeerJoined(c.Peer()), c);
    assert preOne.Keys == room.Keys + {c} && preTwo.Keys == room.Keys + {c};
    OrderDoesNotMatterToWhoLeaves(preOne, preTwo, one, two, o, {}, goneOne, goneTwo) by { ElementsNone(goneOne); }
    forall d | d in room && d !in goneOne
      ensures multiset(one[d].accepted) == multiset(two[d].accepted) && one[d].Free() == two[d].Free()
    {
      SameFeed(room[d], one[d], two[d], Own(o, d), d, goneOne, goneTwo);
    }
    if c !in goneOne {
      OnlyDepartures(preOne[c], one[c], c, goneOne);
      OnlyDepartures(preTwo[c], two[c], c, goneTwo);
    }
  }

  lemma OnlyDepartures(pre: Mailbox, post: Mailbox, c: Client, gone: seq<Client>)
    requires Fed(pre, post, [], c, gone, true) && c !in gone
    ensures post.accepted == pre.accepted + LeftFrames(gone)
  {
    hide Answered, Before;
    assert [] + LeftFrames(gone) == LeftFrames(gone);
  }

  lemma SameFeed(pre: Mailbox, one: Mailbox, two: Mailbox, own: seq<Outbound>, c: Client,
                 goneOne: seq<Client>, goneTwo: seq<Client>)
    requires Fed(pre, one, own, c, goneOne, true) && Fed(pre, two, own, c, goneTwo, true)
    requires c !in goneOne && c !in goneTwo
    requires multiset(LeftFrames(goneOne)) == multiset(LeftFrames(goneTwo))
    ensures multiset(one.accepted) == multiset(two.accepted) && one.Free() == two.Free()
  {
    hide Answered, Before;
    assert |multiset(LeftFrames(goneOne))| == |LeftFrames(goneOne)|;
    assert |multiset(LeftFrames(goneTwo))| == |LeftFrames(goneTwo)|;
  }

  lemma {:induction false} DistinctCount<T>(s: seq<T>, x: T)
    requires Distinct(s)
    ensures multiset(s)[x] == if x in s then 1 else 0
  {
    if s != [] {
      var t, last := s[..|s| - 1], s[|s| - 1];
      assert s == t + [last];
      DistinctCount(t, x);
      assert last !in t;
    }
  }

  lemma SameElements<T>(a: seq<T>, b: seq<T>)
    requires Distinct(a) && Distinct(b) && Elements(a) == Elements(b)
    ensures multiset(a) == multiset(b)
  {
    forall x ensures multiset(a)[x] == multiset(b)[x] {
      DistinctCount(a, x);
      DistinctCount(b, x);
      assert x in a <==> x in Elements(a);
      assert x in b <==> x in Elements(b);
    }
  }

  /** A permutation of departures is a permutation of their announcements. */
  lemma {:induction false} SameFrames(a: seq<Client>, b: seq<Client>)
    requires multiset(a) == multiset(b)
    ensures multiset(LeftFrames(a)) == multiset(LeftFrames(b))
  {
    hide LeftFrames;
    if a == [] {
      assert |multiset(b)| == 0;
      assert b == [];
    } else {
      var c, rest := a[0], a[1..];
      var head, tail := PickFirst(a, b);
      SameFrames(rest, head + tail);
      assert [] + [c] + rest == a && [] + rest == rest;
      FramesSplit([], c, rest);
      FramesSplit(head, c, tail);
    }
  }

  lemma PickFirst<T>(a: seq<T>, b: seq<T>) returns (head: seq<T>, tail: seq<T>)
    requires a != [] && multiset(a) == multiset(b)
    ensures b == head + [a[0]] + tail && multiset(a[1..]) == multiset(head + tail)
  {
    var x, rest := a[0], a[1..];
    assert a == [x] + rest;
    assert x in multiset(b);
    head, tail := PickFrom(b, x);
    RemoveOne([], x, rest);
    RemoveOne(head, x, tail);
    assert multiset(rest) == multiset(a) - multiset{x};
  }

  lemma PickFrom<T>(s: seq<T>, x: T) returns (head: seq<T>, tail: seq<T>)
    requires x in multiset(s)
    ensures s == head + [x] + tail
  {
    var k :| 0 <= k < |s| && s[k] == x;
    head, tail := s[..k], s[k + 1..];
  }

  lemma RemoveOne<T>(head: seq<T>, x: T, tail: seq<T>)
    ensures multiset(head + tail) == multiset(head + [x] + tail) - multiset{x}
    ensures head == [] ==> head + tail == tail && head + [x] + tail == [x] + tail
  {
    assert multiset(head + [x] + tail) == multiset(head) + multiset{x} + multiset(tail);
  }

  lemma FramesSplit(head: seq<Client>, c: Client, tail: seq<Client>)
    ensures multiset(LeftFrames(head + [c] + tail)) == multiset(LeftFrames(head + tail)) + multiset{PeerLeft(c.Peer())}
  {
    assert LeftFrames(head + [c] + tail) == LeftFrames(head) + [PeerLeft(c.Peer())] + LeftFrames(tail);
    assert LeftFrames(head + tail) == LeftFrames(head) + LeftFrames(tail);
  }

  // ---------------------------------------------------------------------
  // What deliver promises
  // ---------------------------------------------------------------------

  /** Survivors got the message exactly once if it was addressed to them, and
      otherwise not at all; then one peer-left per evicted client. */
  lemma DeliveredOnce(pre: Room, post: Room, m: Message, gone: seq<Client>, quiet: bool, c: Client)
    requires Settled(pre, post, Relay(m), {}, gone, quiet)
    requires c in pre && c !in gone
    ensures pre[c].accepted <= post[c].accepted
    ensures var gained := post[c].accepted[|pre[c].accepted|..];
            var toldIt := c != m.sender && (m.to == "" || c.userID == m.to);
            && multiset(gained)[m.data] == (if toldIt then 1 else 0)
            && gained == (if toldIt then [m.data] else []) + LeftFrames(gone)
  {
    hide Answered, Before, Justified;
    ClientTypesAreNotPresence(m.data);
    var gained := post[c].accepted[|pre[c].accepted|..];
    assert gained == Own(Relay(m), c) + LeftFrames(gone);
    assert m.data !in LeftFrames(gone);
    assert multiset(gained) == multiset(Own(Relay(m), c)) + multiset(LeftFrames(gone));
  }

  /** Whoever was addressed and did not take the message is gone; and without a
      writer running meanwhile those are all whose queue was full. */
  lemma CouldNotTakeIt(pre: Room, post: Room, m: Message, gone: seq<Client>, c: Client, quiet: bool)
    requires Settled(pre, post, Relay(m), {}, gone, quiet)
    requires forall d :: d in post && d !in gone ==> post[d].Free() >= 0
    requires c in pre && c != m.sender && (m.to == "" || c.userID == m.to)
    ensures |pre[c].took| < |post[c].took| && !post[c].took[|pre[c].took|] ==> c in gone
    ensures quiet && pre[c].Free() <= 0 ==> c in gone
  {
    hide Justified;
    assert Fed(pre[c], post[c], [m.data], c, gone, quiet);
    if c !in gone {
      SurvivorTookAll(pre[c], post[c], [m.data], c, gone, quiet);
      if quiet {
        hide Fed;
        NotOverwhelmed(pre[c], post[c], [m.data], c, gone);
      }
    }
  }

  lemma SurvivorTookAll(pre: Mailbox, post: Mailbox, own: seq<Outbound>, c: Client, gone: seq<Client>, quiet: bool)
    requires Fed(pre, post, own, c, gone, quiet) && c !in gone
    ensures forall i :: |pre.took| <= i < |post.took| ==> post.took[i]
  {
    hide Feed;
    FitsBefore(gone, c);
    var offer := Feed(own, gone);
    var answers: seq<bool> :| |answers| == |offer| && post.took == pre.took + answers
                              && post.accepted == pre.accepted + Picked(offer, answers);
    assert |Picked(offer, answers)| == |offer|;
    PickedAll(offer, answers);
    forall i | |pre.took| <= i < |post.took| ensures post.took[i] {
      assert post.took[i] == answers[i - |pre.took|] && answers[i - |pre.took|] in answers;
    }
  }

  // ---------------------------------------------------------------------
  // Cost
  // ---------------------------------------------------------------------

  ghost function Pairs(n: nat): nat {
    if n == 0 then 0 else n - 1 + Pairs(n - 1)
  }

  lemma {:induction false} PairsExactly(n: nat)
    ensures 2 * Pairs(n) == n * (n - 1)
  {
    if n > 0 {
      PairsExactly(n - 1);
      assert n * (n - 1) == (n - 1) * (n - 2) + 2 * (n - 1);
    }
  }

  lemma {:induction false} LeftPushesArePairs(n: nat, k: nat)
    requires k <= n
    ensures LeftPushes(n, k) == Pairs(n) - Pairs(n - k)
  {
    if k > 0 {
      LeftPushesArePairs(n - 1, k - 1);
    }
  }

  lemma PairsDifference(n: int, k: int)
    ensures n * (n - 1) - (n - k) * (n - k - 1) == 2 * k * (n - 1) - k * (k - 1)
  {
    assert (n - k) * (n - k - 1) == n * (n - k - 1) - k * (n - k - 1);
    assert n * (n - k - 1) == n * (n - 1) - n * k;
    assert k * (n - k - 1) == k * (n - 1) - k * k;
    assert k * (k - 1) == k * k - k;
    assert n * k == k * (n - 1) + k;
  }

  /** Twice k(n-1) - k(k-1)/2. */
  ghost function PushesToEvict(n: int, k: int): int {
    2 * k * (n - 1) - k * (k - 1)
  }

  /** Evicting k of n members attempts exactly k(n-1) - k(k-1)/2 peer-left
      pushes. */
  lemma LeftPushesExactly(n: nat, k: nat)
    requires k <= n
    ensures 2 * LeftPushes(n, k) == PushesToEvict(n, k)
  {
    LeftPushesArePairs(n, k);
    PairsExactly(n);
    PairsExactly(n - k);
    PairsDifference(n, k);
  }

  /** A deliver to a room of n attempts at most n(n+1)/2 pushes. */
  lemma DeliverCost(members: set<Client>, m: Message, gone: seq<Client>)
    requires |gone| <= |members|
    ensures 2 * (|Audience(members, Relay(m))| + AnnouncedTo(members, gone)) <= |members| * (|members| + 1)
  {
    var n := |members|;
    SubsetSize(Audience(members, Relay(m)), members);
    LeftPushesArePairs(n, |gone|);
    PairsExactly(n);
    assert n * (n + 1) == n * (n - 1) + 2 * n;
  }
}
