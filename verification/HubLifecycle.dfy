/** The hub's goroutine and its callers (internal/signaling/hub.go): add, drop
    and publish hand over on unbuffered channels or give up once `done` is
    closed. Callers are names, clients anything; the work of a step on the rooms
    is reduced to who is still a member after it (HubSteps shows that the hub's
    own steps are such steps). */
module HubLifecycle {

  type Name = nat

  datatype Call<C> = Add(client: C) | Drop(client: C) | Publish

  datatype Caller<C> = Blocked(call: Call<C>) | Returned(call: Call<C>, taken: bool)

  /** Where Run is: in its select, past ctx.Done, past closeAll, past
      close(done). */
  datatype Loop = Serving | Closing | Closed | Stopped

  datatype State<C> = State(
    loop: Loop,
    cancelled: bool,
    callers: map<Name, Caller<C>>,
    members: set<C>,
    closes: map<C, nat>)  // how often each registered client's queue was closed

  datatype Step<C> =
    | Start(caller: Name, call: Call<C>)
    | Cancel
    | Meet(caller: Name, evicted: set<C>)
    | Stop
    | CloseAll
    | CloseDone
    | GiveUp(caller: Name)

  ghost predicate Initial<C>(s: State<C>) {
    s == State(Serving, false, map[], {}, map[])
  }

  ghost predicate IsBlocked<C>(s: State<C>, caller: Name) {
    caller in s.callers && s.callers[caller].Blocked?
  }

  /** Closes the queues of `out`. */
  ghost function Close<C>(closes: map<C, nat>, out: set<C>): map<C, nat> {
    map c | c in closes :: if c in out then closes[c] + 1 else closes[c]
  }

  /** A connection that was just made: no call and no map has seen it. */
  ghost predicate Fresh<C>(s: State<C>, client: C) {
    && client !in s.closes
    && forall i :: i in s.callers && s.callers[i].call.Add? ==> s.callers[i].call.client != client
  }

  /** A step of the hub for one call. A step may evict any members; a client
      that is dropped goes, and dropping one that is not there does nothing. */
  ghost predicate Served<C>(s: State<C>, call: Call<C>, evicted: set<C>, members: set<C>, closes: map<C, nat>) {
    match call
    case Add(c) =>
      && evicted <= s.members + {c}
      && members == s.members + {c} - evicted
      && closes == Close(s.closes[c := 0], evicted)
    case Drop(c) =>
      if c in s.members then
        && evicted <= s.members
        && members == s.members - evicted - {c}
        && closes == Close(s.closes, evicted + {c})
      else
        members == s.members && closes == s.closes
    case Publish =>
      && evicted <= s.members
      && members == s.members - evicted
      && closes == Close(s.closes, evicted)
  }

  ghost predicate Next<C>(s: State<C>, step: Step<C>, t: State<C>) {
    match step
    case Start(i, call) =>
      && i !in s.callers
      && (call.Add? ==> Fresh(s, call.client))
      && t == s.(callers := s.callers[i := Blocked(call)])
    case Cancel =>
      t == s.(cancelled := true)
    case Meet(i, evicted) =>
      && s.loop == Serving && IsBlocked(s, i)
      && Served(s, s.callers[i].call, evicted, t.members, t.closes)
      && t.loop == s.loop && t.cancelled == s.cancelled
      && t.callers == s.callers[i := Returned(s.callers[i].call, true)]
    case Stop =>
      s.loop == Serving && s.cancelled && t == s.(loop := Closing)
    case CloseAll =>
      s.loop == Closing && t == s.(loop := Closed, members := {}, closes := Close(s.closes, s.members))
    case CloseDone =>
      s.loop == Closed && t == s.(loop := Stopped)
    case GiveUp(i) =>
      && s.loop == Stopped && IsBlocked(s, i)
      && t == s.(callers := s.callers[i := Returned(s.callers[i].call, false)])
  }

  /** A run: one step more than it has states after the first. */
  ghost predicate Run<C>(states: seq<State<C>>, steps: seq<Step<C>>) {
    && |states| == |steps| + 1
    && forall k :: 0 <= k < |steps| ==> Next(states[k], steps[k], states[k + 1])
  }

  /** Clients whose add returned true. */
  ghost function Added<C>(s: State<C>): set<C> {
    set i | i in s.callers && s.callers[i].Returned? && s.callers[i].taken && s.callers[i].call.Add?
      :: s.callers[i].call.client
  }

  // ---------------------------------------------------------------------
  // Nobody is leaked
  // ---------------------------------------------------------------------

  /** A client's queue is open exactly while it is a member, and closed once
      after that; nobody gives up before the hub has stopped. */
  ghost predicate Inv<C>(s: State<C>) {
    && s.members <= s.closes.Keys
    && (forall c :: c in s.closes ==> s.closes[c] == if c in s.members then 0 else 1)
    && (forall i :: i in s.callers && s.callers[i].Returned? && s.callers[i].taken && s.callers[i].call.Add?
                    ==> s.callers[i].call.client in s.closes)
    && (forall i :: IsBlocked(s, i) && s.callers[i].call.Add? ==> s.callers[i].call.client !in s.closes)
    && (s.loop == Closed || s.loop == Stopped ==> s.members == {})
    && (forall i :: i in s.callers && s.callers[i].Returned? && !s.callers[i].taken ==> s.loop == Stopped)
    && Once(s)
  }

  /** No client is added by two calls. */
  ghost predicate Once<C>(s: State<C>) {
    forall i, j :: i in s.callers && j in s.callers && i != j && s.callers[i].call.Add?
                   ==> s.callers[i].call != s.callers[j].call
  }

  lemma NextKeepsInv<C>(s: State<C>, step: Step<C>, t: State<C>)
    requires Inv(s) && Next(s, step, t)
    ensures Inv(t)
  {
    hide Inv, Next;
    if step.Meet? {
      MeetKeepsInv(s, step.caller, step.evicted, t);
    } else if step.CloseAll? {
      ClosingKeepsInv(s, t);
    } else if step.Start? {
      StartKeepsInv(s, step.caller, step.call, t);
    } else {
      OtherKeepsInv(s, step, t);
    }
  }

  lemma ClosingKeepsInv<C>(s: State<C>, t: State<C>)
    requires Inv(s) && Next(s, Step.CloseAll, t)
    ensures Inv(t)
  {
  }

  lemma OtherKeepsInv<C>(s: State<C>, step: Step<C>, t: State<C>)
    requires Inv(s) && Next(s, step, t) && !step.Meet? && !step.CloseAll? && !step.Start?
    ensures Inv(t)
  {
    hide Served, Close;
  }

  lemma StartKeepsInv<C>(s: State<C>, i: Name, call: Call<C>, t: State<C>)
    requires Inv(s) && Next(s, Start(i, call), t)
    ensures Inv(t)
  {
    hide Served, Close;
  }

  lemma MeetKeepsInv<C>(s: State<C>, i: Name, evicted: set<C>, t: State<C>)
    requires Inv(s) && Next(s, Meet(i, evicted), t)
    ensures Inv(t)
  {
    hide Served, Close;
    var call := s.callers[i].call;
    MeetCloses(s, call, evicted, t);
    forall j | IsBlocked(t, j) && t.callers[j].call.Add? ensures t.callers[j].call.client !in t.closes {
      assert j != i && IsBlocked(s, j) && s.callers[j].call != s.callers[i].call;
    }
  }

  lemma MeetCloses<C>(s: State<C>, call: Call<C>, evicted: set<C>, t: State<C>)
    requires s.members <= s.closes.Keys && forall c :: c in s.closes ==> s.closes[c] == if c in s.members then 0 else 1
    requires call.Add? ==> call.client !in s.closes
    requires Served(s, call, evicted, t.members, t.closes)
    ensures t.closes.Keys == s.closes.Keys + if call.Add? then {call.client} else {}
    ensures t.members <= t.closes.Keys && forall c :: c in t.closes ==> t.closes[c] == if c in t.members then 0 else 1
  {
  }

  lemma {:induction false} RunKeepsInv<C>(states: seq<State<C>>, steps: seq<Step<C>>, k: nat)
    requires Run(states, steps) && Inv(states[0]) && k < |states|
    ensures Inv(states[k])
  {
    if k > 0 {
      RunKeepsInv(states, steps, k - 1);
      NextKeepsInv(states[k - 1], steps[k - 1], states[k]);
    }
  }

  /** When `done` is closed, every client whose add returned true has had its
      queue closed exactly once; and no queue is ever closed twice. */
  lemma NobodyIsLeaked<C>(states: seq<State<C>>, steps: seq<Step<C>>, k: nat, client: C)
    requires Run(states, steps) && Initial(states[0]) && k < |states|
    ensures client in Added(states[k]) ==> client in states[k].closes && states[k].closes[client] <= 1
    ensures client in Added(states[k]) && states[k].loop == Stopped ==> states[k].closes[client] == 1
    ensures client in Added(states[k]) && client !in states[k].members ==> states[k].closes[client] == 1
    ensures client in Added(states[k]) <==>
              exists i :: i in states[k].callers && states[k].callers[i] == Returned(Add(client), true)
    ensures forall i :: i in states[k].callers && states[k].callers[i] == Returned(Add(client), true) ==>
              && client in states[k].closes
              && states[k].closes[client] == if states[k].loop != Stopped && client in states[k].members then 0 else 1
  {
    RunKeepsInv(states, steps, k);
  }

  /** The hub leaves its loop only when its context has ended, and nobody's call
      is turned away before it has stopped. */
  lemma {:induction false} StopsOnlyWhenCancelled<C>(states: seq<State<C>>, steps: seq<Step<C>>, k: nat)
    requires Run(states, steps) && Initial(states[0]) && k < |states|
    ensures states[k].loop != Serving ==> states[k].cancelled
    ensures forall i :: i in states[k].callers && states[k].callers[i].Returned? && !states[k].callers[i].taken ==>
              states[k].loop == Stopped && states[k].cancelled
  {
    RunKeepsInv(states, steps, k);
    if k > 0 {
      StopsOnlyWhenCancelled(states, steps, k - 1);
      var s, step, t := states[k - 1], steps[k - 1], states[k];
      assert Next(s, step, t);
    }
  }

  /** Once its context ends, a serving hub needs nobody to come to a stop. */
  lemma CancelledHubStops<C>(s: State<C>) returns (states: seq<State<C>>)
    requires s.loop == Serving
    ensures Run(states, [Cancel, Stop, CloseAll, CloseDone]) && states[0] == s
    ensures states[4].loop == Stopped && states[4].members == {} && states[4].callers == s.callers
  {
    var cancelled := s.(cancelled := true);
    var closing := cancelled.(loop := Closing);
    var closed := closing.(loop := Closed, members := {}, closes := Close(s.closes, s.members));
    states := [s, cancelled, closing, closed, closed.(loop := Stopped)];
  }

  // ---------------------------------------------------------------------
  // Nobody is stranded
  // ---------------------------------------------------------------------

  /** From every state a blocked caller can be brought back by the hub's own
      steps, whatever other callers do or do not do: at once while the hub
      serves or has stopped, otherwise once it has closed up. */
  lemma NobodyIsStranded<C>(s: State<C>, caller: Name) returns (states: seq<State<C>>, steps: seq<Step<C>>)
    requires IsBlocked(s, caller)
    ensures Run(states, steps) && states[0] == s && |steps| <= 3
    ensures forall k :: 0 <= k < |steps| ==> steps[k] in {Meet(caller, {}), CloseAll, CloseDone, GiveUp(caller)}
    ensures var last := states[|states| - 1];
            && caller in last.callers && last.callers[caller].Returned?
            && last.callers[caller].taken == (s.loop == Serving)
  {
    if s.loop == Serving {
      states, steps := [s, AfterMeeting(s, caller)], [Meet(caller, {})];
    } else {
      var closed := s.(loop := Closed, members := {}, closes := Close(s.closes, s.members));
      var stopped := if s.loop == Closing then closed.(loop := Stopped) else s.(loop := Stopped);
      var back := stopped.(callers := s.callers[caller := Returned(s.callers[caller].call, false)]);
      states := (match s.loop case Closing => [s, closed, stopped, back]
                 case Closed => [s, stopped, back] case _ => [s, back]);
      steps := (match s.loop case Closing => [CloseAll, CloseDone, GiveUp(caller)]
                case Closed => [CloseDone, GiveUp(caller)] case _ => [GiveUp(caller)]);
    }
  }

  ghost function AfterMeeting<C>(s: State<C>, caller: Name): (t: State<C>)
    requires s.loop == Serving && IsBlocked(s, caller)
    ensures Next(s, Meet(caller, {}), t)
  {
    var callers := s.callers[caller := Returned(s.callers[caller].call, true)];
    match s.callers[caller].call
    case Add(c) =>
      s.(callers := callers, members := s.members + {c}, closes := Close(s.closes[c := 0], {}))
    case Drop(c) =>
      if c in s.members then s.(callers := callers, members := s.members - {c}, closes := Close(s.closes, {c}))
      else s.(callers := callers)
    case Publish =>
      s.(callers := callers, closes := Close(s.closes, {}))
  }

  // ---------------------------------------------------------------------
  // Nobody comes too late
  // ---------------------------------------------------------------------

  /** Once the hub has left its loop it never comes back to it, and no further
      call is taken: whoever had not been served by then gives up. */
  lemma {:induction false} NobodyComesTooLate<C>(states: seq<State<C>>, steps: seq<Step<C>>, k: nat, n: nat,
                                                caller: Name)
    requires Run(states, steps) && k <= n < |states| && states[k].loop != Serving
    ensures states[n].loop != Serving
    ensures caller in states[n].callers && states[n].callers[caller].Returned? && states[n].callers[caller].taken
            ==> caller in states[k].callers && states[k].callers[caller] == states[n].callers[caller]
    ensures Added(states[n]) == Added(states[k])
    decreases n
  {
    if n > k {
      NobodyComesTooLate(states, steps, k, n - 1, caller);
      var s, step, t := states[n - 1], steps[n - 1], states[n];
      assert Next(s, step, t);
      SameAdded(s, step, t);
    }
  }

  lemma SameAdded<C>(s: State<C>, step: Step<C>, t: State<C>)
    requires Next(s, step, t) && s.loop != Serving
    ensures Added(t) == Added(s)
  {
    forall c | c in Added(s) ensures c in Added(t) {
      var i :| i in s.callers && s.callers[i].Returned? && s.callers[i].taken && s.callers[i].call == Add(c);
      assert i in t.callers && t.callers[i] == s.callers[i];
    }
    forall c | c in Added(t) ensures c in Added(s) {
      var i :| i in t.callers && t.callers[i].Returned? && t.callers[i].taken && t.callers[i].call == Add(c);
      assert i in s.callers && t.callers[i] == s.callers[i];
    }
  }
}
