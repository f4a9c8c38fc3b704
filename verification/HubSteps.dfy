/** The two models of the hub agree: what SignalingHub does for one call is a
    step of HubLifecycle, with everyone it evicts named. */
module HubSteps {
  import opened Cascade
  import opened Clients
  import opened Collections
  import opened HubLifecycle
  import opened HubOutcome
  import opened SignalingHub

  /** How often each client's queue was closed: a member's never, anyone else's
      once, as a valid hub has it. */
  ghost function Closes(ever: set<Client>, all: set<Client>): map<Client, nat> {
    map c | c in ever :: if c in all then 0 else 1
  }

  /** A state of the lifecycle that shows these members and closed queues. */
  ghost predicate Shows(s: State<Client>, ever: set<Client>, all: set<Client>) {
    all <= ever && s.members == all && s.closes == Closes(ever, all)
  }

  function CallOf(e: Event): Call<Client>
    requires !e.Pump?
  {
    match e
    case Register(c) => Add(c)
    case Unregister(c) => Drop(c)
    case Broadcast(_) => Publish
  }

  lemma AddIsServed(s: State<Client>, ever: set<Client>, all: set<Client>, c: Client, gone: seq<Client>,
                    after: set<Client>)
    requires Shows(s, ever, all) && c !in ever && Thinned(all + {c}, gone, after)
    ensures Served(s, Add(c), Elements(gone), after, Closes(ever + {c}, after)) && after <= ever + {c}
  {
    hide Elements;
  }

  lemma DropIsServed(s: State<Client>, ever: set<Client>, all: set<Client>, c: Client, gone: seq<Client>,
                     after: set<Client>)
    requires Shows(s, ever, all) && Thinned(all, gone, after)
    requires if c in all then gone != [] && gone[0] == c else gone == []
    ensures Served(s, Drop(c), Elements(gone), after, Closes(ever, after)) && after <= ever
  {
    if c in all {
      assert c in Elements(gone);
      assert Elements(gone) + {c} == Elements(gone);
    }
  }

  lemma PublishIsServed(s: State<Client>, ever: set<Client>, all: set<Client>, gone: seq<Client>, after: set<Client>)
    requires Shows(s, ever, all) && Thinned(all, gone, after)
    ensures Served(s, Publish, Elements(gone), after, Closes(ever, after)) && after <= ever
  {
    hide Elements;
  }

  /** Serves one blocked call. */
  method Serve(h: Hub, e: Event, ghost s: State<Client>, ghost caller: Name)
    returns (ghost evicted: set<Client>, ghost t: State<Client>)
    requires h.Valid() && h.InStep() && Shows(s, h.ever, h.all) && s.loop == Serving
    requires !e.Pump? && IsBlocked(s, caller) && s.callers[caller].call == CallOf(e)
    requires e.Register? ==> e.c !in h.ever && e.c.Pristine() && e.c.capacity > 0
    modifies h, h.ever, Registered([e])
    ensures h.Valid() && h.InStep() && Shows(t, h.ever, h.all)
    ensures Next(s, Meet(caller, evicted), t)
  {
    hide Hub.Valid, Hub.InStep, Thinned, Closes, Served, Elements, Outcome, At, Hub.Here, Hub.View, Snap, Arrival;
    ghost var ever, all, gone := h.ever, h.all, [];
    match e {
      case Register(c) =>
        assert c in Registered([e]) by { assert e in [e]; }
        ghost var welcome;
        gone, welcome := h.OnRegister(c);
        AddIsServed(s, ever, all, c, gone, h.all);
      case Unregister(c) =>
        gone := h.OnUnregister(c);
        DropIsServed(s, ever, all, c, gone, h.all);
      case Broadcast(m) =>
        ghost var members, said;
        gone, members, said := h.OnBroadcast(m);
        PublishIsServed(s, ever, all, gone, h.all);
    }
    evicted := Elements(gone);
    t := s.(callers := s.callers[caller := Returned(s.callers[caller].call, true)],
            members := h.all, closes := Closes(h.ever, h.all));
  }

  /** Closing up is the lifecycle's CloseAll. */
  method CloseUp(h: Hub, ghost s: State<Client>) returns (ghost t: State<Client>)
    requires h.Valid() && Shows(s, h.ever, h.all) && s.loop == Closing
    modifies h, h.all
    ensures h.Valid() && Shows(t, h.ever, h.all) && h.all == {}
    ensures Next(s, Step.CloseAll, t)
  {
    hide Hub.Valid;
    ghost var ever, all := h.ever, h.all;
    h.CloseAll();
    ClosedIsEmpty(h);
    t := s.(loop := Closed, members := {}, closes := Close(s.closes, s.members));
    EveryoneClosed(ever, all);
  }

  lemma ClosedIsEmpty(h: Hub)
    requires h.Valid() && h.rooms == map[]
    ensures h.all == {}
  {
  }

  lemma EveryoneClosed(ever: set<Client>, all: set<Client>)
    requires all <= ever
    ensures Close(Closes(ever, all), all) == Closes(ever, {})
  {
  }
}
