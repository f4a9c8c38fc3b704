/** The reading side of a connection (internal/signaling/client.go): which
    frames it relays, under whose name, and why it stops. */
module ReadPump {
  import opened Protocol
  import opened Clients
  import opened Cascade
  import opened TokenBuckets

  /** One return of the socket's read, with the time it is looked at. */
  datatype Input = Frame(text: bool, data: Decoded, at: real) | Failed

  /** Why the reader returned, if it did. */
  datatype Ending = StillReading | ReadFailed | NotText | TooFast

  ghost function Times(inputs: seq<Input>): seq<real>
    requires forall r :: r in inputs ==> r.Frame?
  {
    seq(|inputs|, i requires 0 <= i < |inputs| => assert inputs[i] in inputs; inputs[i].at)
  }

  /** The message a valid frame becomes: whatever sender the client named, it is
      the connection's own user that is stamped on it. */
  function Relayable(c: Client, data: Decoded): seq<Message> {
    match ParseInbound(data)
    case Parsed(in') => [Stamped(c, in')]
    case _ => []
  }

  function Stamped(c: Client, in': Inbound): Message
    requires IsClientType(in'.msgType)
  {
    Message(c.roomID, c, in'.to, Outbound(in'.msgType, c.userID, in'.payload, []))
  }

  ghost function AllRelayable(c: Client, inputs: seq<Input>): seq<Message> {
    if inputs == [] then []
    else
      var last := inputs[|inputs| - 1];
      AllRelayable(c, inputs[..|inputs| - 1]) + if last.Frame? then Relayable(c, last.data) else []
  }

  ghost predicate AllText(inputs: seq<Input>) {
    forall r :: r in inputs ==> r.Frame? && r.text
  }

  /** `picked` are the numbers of the frames that were relayed, in order. */
  ghost predicate Relays(c: Client, inputs: seq<Input>, published: seq<Message>, picked: seq<nat>) {
    && |published| == |picked|
    && (forall i, j :: 0 <= i < j < |picked| ==> picked[i] < picked[j])
    && (forall k :: k in picked <==> IsRelayed(inputs, k))
    && (forall i :: 0 <= i < |published| ==>
          IsRelayed(inputs, picked[i]) && published[i] == Stamped(c, inputs[picked[i]].data.inbound))
  }

  ghost predicate IsRelayed(inputs: seq<Input>, k: int) {
    && 0 <= k < |inputs| && inputs[k].Frame? && inputs[k].data.Fields?
    && IsClientType(inputs[k].data.inbound.msgType)
  }

  lemma RelaysOne(c: Client, inputs: seq<Input>, input: Input, published: seq<Message>, picked: seq<nat>)
    requires Relays(c, inputs, published, picked) && input.Frame?
    ensures var more := Relayable(c, input.data);
            Relays(c, inputs + [input], published + more, if more == [] then picked else picked + [|inputs|])
  {
    hide IsRelayed, Stamped;
    var all, more := inputs + [input], Relayable(c, input.data);
    RelayedOne(c, inputs, input);
    var now := if more == [] then picked else picked + [|inputs|];
    forall k ensures k in now <==> IsRelayed(all, k) {
      assert k in picked <==> IsRelayed(inputs, k);
    }
    RelayedAreThere(inputs);
    RelayedAreThere(all);
    forall i | 0 <= i < |published + more|
      ensures IsRelayed(all, now[i]) && (published + more)[i] == Stamped(c, all[now[i]].data.inbound)
    {
      assert now[i] in now;
      if i < |published| {
        assert IsRelayed(inputs, picked[i]);
      }
    }
  }

  lemma RelayedAreThere(inputs: seq<Input>)
    ensures forall k :: IsRelayed(inputs, k) ==>
              && 0 <= k < |inputs| && inputs[k].Frame? && inputs[k].data.Fields?
              && IsClientType(inputs[k].data.inbound.msgType)
  {
  }

  lemma RelayedOne(c: Client, inputs: seq<Input>, input: Input)
    requires input.Frame?
    ensures var all, more := inputs + [input], Relayable(c, input.data);
            && (forall k :: IsRelayed(inputs, k) ==> 0 <= k < |inputs|)
            && (forall k :: IsRelayed(all, k) <==> IsRelayed(inputs, k) || (k == |inputs| && more != []))
            && (more != [] ==> input.data.Fields? && more == [Stamped(c, input.data.inbound)])
  {
    hide IsClientType;
    var all := inputs + [input];
    assert forall k :: 0 <= k < |inputs| ==> all[k] == inputs[k];
  }

  /** Reads until it must stop. What it publishes are the frames of the five
      client types before that, in order, each as the client wrote it but under
      the connection's own name. With a clock that does not step back, it stops
      for the message rate exactly at the first frame that ends a stretch of
      more than 120 and 60 for every second it took; under any clock, no stretch
      it let through has more than that for every second the clock moved past
      the latest it had shown. */
  method Pump(c: Client, start: real, inputs: seq<Input>)
    returns (ending: Ending, n: nat, published: seq<Message>, ghost picked: seq<nat>, ghost latest: real)
    ensures n <= |inputs| && forall k :: 0 <= k < n ==> inputs[k].Frame? && inputs[k].text
    ensures published == AllRelayable(c, inputs[..n])
    ensures |picked| == |published| && forall i, j :: 0 <= i < j < |picked| ==> picked[i] < picked[j]
    ensures forall k :: k in picked <==>
              && 0 <= k < n && inputs[k].data.Fields?
              && inputs[k].data.inbound.msgType in ["offer", "answer", "candidate", "bye", "chat"]
    ensures forall i :: 0 <= i < |published| ==>
              && picked[i] in picked
              && var said := inputs[picked[i]].data.inbound;
              && published[i].room == c.roomID && published[i].sender == c && published[i].to == said.to
              && published[i].data.msgType == said.msgType && published[i].data.payload == said.payload
              && published[i].data.sender == c.userID && published[i].data.peers == []
    ensures ending == StillReading <==> n == |inputs|
    ensures ending == ReadFailed <==> n < |inputs| && inputs[n].Failed?
    ensures ending == NotText <==> n < |inputs| && inputs[n].Frame? && !inputs[n].text
    ensures ending == TooFast ==> inputs[n].Frame? && inputs[n].text
    ensures (forall i, j :: 0 <= i <= j < n ==> start <= inputs[i].at <= inputs[j].at) ==>
              forall i, j :: 0 <= i <= j < n ==> (j - i + 1) as real <= 120.0 + 60.0 * (inputs[j].at - inputs[i].at)
    ensures ending == TooFast && (forall i, j :: 0 <= i <= j <= n ==> start <= inputs[i].at <= inputs[j].at) ==>
              exists i :: 0 <= i <= n && (n - i + 1) as real > 120.0 + 60.0 * (inputs[n].at - inputs[i].at)
    ensures start <= latest && (latest == start || exists k :: 0 <= k < n && inputs[k].at == latest)
    ensures n as real <= 120.0 + 60.0 * (latest - start)
    ensures forall i :: 0 <= i < n ==>
              inputs[i].at <= latest && (n - i - 1) as real <= 120.0 + 60.0 * (latest - inputs[i].at)
  {
    hide Times, AllRelayable, AllAllowed, Ordered, Overflows, After, Allowed;
    hide Accrue, Spend, Relayable, Relays, IsRelayed, Latest, AllText;
    ending, n, published, picked := Read(c, start, inputs);
    TextUnfolds(inputs, n);
    latest := Latest(start, Times(inputs[..n]));
    RelaysUnfold(c, inputs, n, published, picked);
    RateUnfolds(start, inputs, n);
    if ending == TooFast {
      TextUnfolds(inputs, n + 1);
      FloodUnfolds(start, inputs, n);
    }
  }

  lemma TextUnfolds(inputs: seq<Input>, n: nat)
    requires n <= |inputs| && AllText(inputs[..n])
    ensures forall k :: 0 <= k < n ==> inputs[k].Frame? && inputs[k].text
    ensures forall r :: r in inputs[..n] ==> r.Frame?
    ensures |Times(inputs[..n])| == n && forall k :: 0 <= k < n ==> Times(inputs[..n])[k] == inputs[k].at
  {
    forall k | 0 <= k < n ensures inputs[k].Frame? && inputs[k].text {
      assert inputs[..n][k] == inputs[k];
    }
  }

  lemma RelaysUnfold(c: Client, inputs: seq<Input>, n: nat, published: seq<Message>, picked: seq<nat>)
    requires n <= |inputs| && AllText(inputs[..n]) && Relays(c, inputs[..n], published, picked)
    ensures |picked| == |published| && forall i, j :: 0 <= i < j < |picked| ==> picked[i] < picked[j]
    ensures forall k :: 0 <= k < n ==> inputs[k].Frame?
    ensures forall k :: k in picked <==>
              && 0 <= k < n && inputs[k].data.Fields?
              && inputs[k].data.inbound.msgType in ["offer", "answer", "candidate", "bye", "chat"]
    ensures forall i :: 0 <= i < |published| ==>
              && picked[i] in picked
              && var said := inputs[picked[i]].data.inbound;
              && published[i].room == c.roomID && published[i].sender == c && published[i].to == said.to
              && published[i].data.msgType == said.msgType && published[i].data.payload == said.payload
              && published[i].data.sender == c.userID && published[i].data.peers == []
  {
    assert forall k :: 0 <= k < n ==> inputs[..n][k] == inputs[k];
    assert forall k :: k in picked <==> IsRelayed(inputs[..n], k);
    assert forall i :: 0 <= i < |picked| ==> picked[i] in picked;
  }

  /** What the budget says of the frames that were let through, in numbers. */
  lemma RateUnfolds(start: real, inputs: seq<Input>, n: nat)
    requires n <= |inputs| && AllText(inputs[..n])
    requires forall r :: r in inputs[..n] ==> r.Frame?
    requires AllAllowed(Level(MESSAGE_BURST, start), Times(inputs[..n]))
    ensures forall k :: 0 <= k < n ==> inputs[k].Frame?
    ensures (forall i, j :: 0 <= i <= j < n ==> start <= inputs[i].at <= inputs[j].at) ==>
              forall i, j :: 0 <= i <= j < n ==> (j - i + 1) as real <= 120.0 + 60.0 * (inputs[j].at - inputs[i].at)
    ensures var latest := Latest(start, Times(inputs[..n]));
            && start <= latest && (latest == start || exists k :: 0 <= k < n && inputs[k].at == latest)
            && n as real <= 120.0 + 60.0 * (latest - start)
            && forall i :: 0 <= i < n ==>
                 inputs[i].at <= latest && (n - i - 1) as real <= 120.0 + 60.0 * (latest - inputs[i].at)
  {
    hide AllText, AllAllowed, Times, Latest;
    TextUnfolds(inputs, n);
    var times := Times(inputs[..n]);
    LatestIs(start, times);
    NoMoreThan(start, times, 0, start);
    forall i | 0 <= i < n ensures (n - i - 1) as real <= 120.0 + 60.0 * (Latest(start, times) - inputs[i].at) {
      NoMoreThan(start, times, i + 1, inputs[i].at);
    }
    if forall i, j :: 0 <= i <= j < n ==> start <= inputs[i].at <= inputs[j].at {
      NoFlood(start, times);
      forall i, j | 0 <= i <= j < n ensures (j - i + 1) as real <= 120.0 + 60.0 * (inputs[j].at - inputs[i].at) {
        assert times[j] == inputs[j].at && times[i] == inputs[i].at;
      }
    }
  }

  lemma NoFlood(start: real, times: seq<real>)
    requires AllAllowed(Level(MESSAGE_BURST, start), times)
    requires Ordered(start, times)
    ensures forall i, j :: 0 <= i <= j < |times| ==> (j - i + 1) as real <= 120.0 + 60.0 * (times[j] - times[i])
  {
    if times != [] {
      BudgetMeansNoFlood(MESSAGE_BURST, MESSAGES_PER_SECOND, start, times, |times| - 1);
    }
    hide Ordered;
    forall i, j | 0 <= i <= j < |times| ensures (j - i + 1) as real <= 120.0 + 60.0 * (times[j] - times[i]) {
      assert !Overflows(MESSAGE_BURST, MESSAGES_PER_SECOND, times, j);
      assert !Flood(MESSAGE_BURST, MESSAGES_PER_SECOND, times, i, j);
    }
  }

  lemma FloodUnfolds(start: real, inputs: seq<Input>, n: nat)
    requires n < |inputs| && AllText(inputs[..n + 1])
    requires Ordered(start, Times(inputs[..n + 1])) ==>
               Overflows(MESSAGE_BURST, MESSAGES_PER_SECOND, Times(inputs[..n + 1]), n)
    ensures forall k :: 0 <= k <= n ==> inputs[k].Frame?
    ensures (forall i, j :: 0 <= i <= j <= n ==> start <= inputs[i].at <= inputs[j].at) ==>
              exists i :: 0 <= i <= n && (n - i + 1) as real > 120.0 + 60.0 * (inputs[n].at - inputs[i].at)
  {
    TextUnfolds(inputs, n + 1);
    var times := Times(inputs[..n + 1]);
    hide Times, AllText;
    if forall i, j :: 0 <= i <= j <= n ==> start <= inputs[i].at <= inputs[j].at {
      assert Ordered(start, times);
      var i :| 0 <= i <= n && Flood(MESSAGE_BURST, MESSAGES_PER_SECOND, times, i, n);
      assert (n - i + 1) as real > 120.0 + 60.0 * (inputs[n].at - inputs[i].at);
    }
  }

  lemma {:induction false} LatestIs(start: real, times: seq<real>)
    ensures start <= Latest(start, times) && forall k :: 0 <= k < |times| ==> times[k] <= Latest(start, times)
    ensures Latest(start, times) == start || exists k :: 0 <= k < |times| && times[k] == Latest(start, times)
  {
    if times != [] {
      var n := |times| - 1;
      LatestIs(start, times[..n]);
      if times[n] == Latest(start, times) {
      } else if Latest(start, times) != start {
        var k :| 0 <= k < n && times[..n][k] == Latest(start, times[..n]);
        assert times[k] == Latest(start, times);
      }
    }
  }

  /** The frames from the i-th on, counted against a moment the clock had shown
      before them. */
  lemma NoMoreThan(start: real, times: seq<real>, i: nat, before: real)
    requires AllAllowed(Level(MESSAGE_BURST, start), times) && i <= |times|
    requires if i == 0 then before == start else before == times[i - 1]
    ensures (|times| - i) as real <= 120.0 + 60.0 * (Latest(start, times) - before)
  {
    hide Latest, Allowed;
    var first, rest := times[..i], times[i..];
    assert first + rest == times;
    LatestIs(start, first);
    BoundOverAnyStretch(MESSAGE_BURST, MESSAGES_PER_SECOND, start, first, rest);
    var b := TokenBuckets.After(MESSAGE_BURST, MESSAGES_PER_SECOND, Level(MESSAGE_BURST, start), first);
    forall k | 0 <= k < |rest| ensures Allowed(MESSAGE_BURST, MESSAGES_PER_SECOND, b, rest, k) {
      AllowedLater(start, first, rest, k);
    }
    Everything(b, rest);
  }

  lemma Everything(b: Level, times: seq<real>)
    requires AllAllowed(b, times)
    ensures |set k | 0 <= k < |times| && Allowed(MESSAGE_BURST, MESSAGES_PER_SECOND, b, times, k)| == |times|
  {
    hide Allowed;
    AllCounted(b, times);
    CountIs(MESSAGE_BURST, MESSAGES_PER_SECOND, b, times);
  }

  lemma {:induction false} AllCounted(b: Level, times: seq<real>)
    requires AllAllowed(b, times)
    ensures CountAllowed(MESSAGE_BURST, MESSAGES_PER_SECOND, b, times) == |times|
  {
    hide Allowed;
    if times != [] {
      var n := |times| - 1;
      forall k | 0 <= k < n ensures Allowed(MESSAGE_BURST, MESSAGES_PER_SECOND, b, times[..n], k) {
        AllowedInPrefix(MESSAGE_BURST, MESSAGES_PER_SECOND, b, times, n, k);
      }
      AllCounted(b, times[..n]);
    }
  }

  lemma AllowedLater(start: real, first: seq<real>, rest: seq<real>, k: nat)
    requires k < |rest|
    ensures Allowed(MESSAGE_BURST, MESSAGES_PER_SECOND, Level(MESSAGE_BURST, start), first + rest, |first| + k)
       <==> Allowed(MESSAGE_BURST, MESSAGES_PER_SECOND,
                    TokenBuckets.After(MESSAGE_BURST, MESSAGES_PER_SECOND, Level(MESSAGE_BURST, start), first), rest, k)
  {
    AfterConcat(MESSAGE_BURST, MESSAGES_PER_SECOND, Level(MESSAGE_BURST, start), first, rest[..k]);
    assert (first + rest)[..|first| + k] == first + rest[..k];
  }

  /** The reader's loop. */
  method Read(c: Client, start: real, inputs: seq<Input>)
    returns (ending: Ending, n: nat, published: seq<Message>, ghost picked: seq<nat>)
    ensures n <= |inputs| && AllText(inputs[..n])
    ensures published == AllRelayable(c, inputs[..n]) && Relays(c, inputs[..n], published, picked)
    ensures ending == StillReading <==> n == |inputs|
    ensures ending == ReadFailed <==> n < |inputs| && inputs[n].Failed?
    ensures ending == NotText <==> n < |inputs| && inputs[n].Frame? && !inputs[n].text
    ensures AllAllowed(Level(MESSAGE_BURST, start), Times(inputs[..n]))
    ensures ending == TooFast ==> AllText(inputs[..n + 1])
    ensures ending == TooFast && Ordered(start, Times(inputs[..n + 1])) ==>
              Overflows(MESSAGE_BURST, MESSAGES_PER_SECOND, Times(inputs[..n + 1]), n)
  {
    hide Times, AllRelayable, AllAllowed, Ordered, Overflows, After, Allowed;
    hide Accrue, Spend, Relayable, Relays;
    var budget := new TokenBucket(MESSAGE_BURST, MESSAGES_PER_SECOND, start);
    ghost var full := budget.Contents();
    n, published, picked := 0, [], [];
    NothingRead(c, inputs, full);
    while n < |inputs|
      invariant n <= |inputs| && AllText(inputs[..n])
      invariant published == AllRelayable(c, inputs[..n]) && Relays(c, inputs[..n], published, picked)
      invariant budget.capacity == MESSAGE_BURST && budget.rate == MESSAGES_PER_SECOND
      invariant budget.Contents() == After(MESSAGE_BURST, MESSAGES_PER_SECOND, full, Times(inputs[..n]))
      invariant AllAllowed(full, Times(inputs[..n]))
    {
      match inputs[n] {
        case Failed =>
          return ReadFailed, n, published, picked;
        case Frame(text, data, at) =>
          if !text {
            return NotText, n, published, picked;
          }
          OneMoreRead(c, inputs, n);
          OneMoreCall(full, Times(inputs[..n]), at);
          var ok := budget.Allow(at);
          if !ok {
            OneTooMany(start, Times(inputs[..n]), at);
            return TooFast, n, published, picked;
          }
          RelaysOne(c, inputs[..n], inputs[n], published, picked);
          var more := Relayable(c, data);
          picked := if more == [] then picked else picked + [n];
          published := published + more;
          n := n + 1;
      }
    }
    return StillReading, n, published, picked;
  }

  ghost predicate AllAllowed(full: Level, times: seq<real>) {
    forall k :: 0 <= k < |times| ==> Allowed(MESSAGE_BURST, MESSAGES_PER_SECOND, full, times, k)
  }

  lemma NothingRead(c: Client, inputs: seq<Input>, full: Level)
    ensures AllText(inputs[..0]) && Times(inputs[..0]) == [] && AllRelayable(c, inputs[..0]) == []
    ensures After(MESSAGE_BURST, MESSAGES_PER_SECOND, full, Times(inputs[..0])) == full
    ensures AllAllowed(full, Times(inputs[..0])) && Relays(c, inputs[..0], [], [])
  {
  }

  lemma OneMoreRead(c: Client, inputs: seq<Input>, n: nat)
    requires n < |inputs| && AllText(inputs[..n]) && inputs[n].Frame? && inputs[n].text
    ensures AllText(inputs[..n + 1]) && inputs[..n + 1] == inputs[..n] + [inputs[n]]
    ensures Times(inputs[..n + 1]) == Times(inputs[..n]) + [inputs[n].at] && |Times(inputs[..n])| == n
    ensures AllRelayable(c, inputs[..n + 1]) == AllRelayable(c, inputs[..n]) + Relayable(c, inputs[n].data)
  {
    assert inputs[..n + 1] == inputs[..n] + [inputs[n]];
    assert inputs[..n + 1][..n] == inputs[..n];
  }

  lemma OneMoreCall(full: Level, times: seq<real>, at: real)
    requires AllAllowed(full, times)
    ensures var before := After(MESSAGE_BURST, MESSAGES_PER_SECOND, full, times);
            var spent := Spend(Accrue(MESSAGE_BURST, MESSAGES_PER_SECOND, before, at));
            && After(MESSAGE_BURST, MESSAGES_PER_SECOND, full, times + [at]) == spent.0
            && (spent.1 ==> AllAllowed(full, times + [at]))
            && (!spent.1 ==> !Allowed(MESSAGE_BURST, MESSAGES_PER_SECOND, full, times + [at], |times|))
  {
    var more := times + [at];
    assert more[..|times|] == times;
    forall k | 0 <= k < |times| ensures Allowed(MESSAGE_BURST, MESSAGES_PER_SECOND, full, more, k) {
      SamePrefix(full, times, at, k);
    }
  }

  lemma SamePrefix(full: Level, times: seq<real>, at: real, k: nat)
    requires k < |times|
    ensures Allowed(MESSAGE_BURST, MESSAGES_PER_SECOND, full, times + [at], k)
       <==> Allowed(MESSAGE_BURST, MESSAGES_PER_SECOND, full, times, k)
  {
    assert (times + [at])[..k] == times[..k];
  }

  lemma OneTooMany(start: real, times: seq<real>, at: real)
    requires AllAllowed(Level(MESSAGE_BURST, start), times)
    requires !Allowed(MESSAGE_BURST, MESSAGES_PER_SECOND, Level(MESSAGE_BURST, start), times + [at], |times|)
    ensures Ordered(start, times + [at]) ==> Overflows(MESSAGE_BURST, MESSAGES_PER_SECOND, times + [at], |times|)
  {
    if Ordered(start, times + [at]) {
      forall k | 0 <= k < |times|
        ensures Allowed(MESSAGE_BURST, MESSAGES_PER_SECOND, Level(MESSAGE_BURST, start), times + [at], k)
      {
        SamePrefix(Level(MESSAGE_BURST, start), times, at, k);
      }
      BudgetMeansNoFlood(MESSAGE_BURST, MESSAGES_PER_SECOND, start, times + [at], |times|);
    }
  }

  /** Nothing a client sends is ever published as someone else or as presence. */
  lemma {:induction false} PublishedIsStamped(c: Client, inputs: seq<Input>)
    ensures forall m :: m in AllRelayable(c, inputs) ==>
                          m.sender == c && m.room == c.roomID && m.data.sender == c.userID && !IsPresence(m.data)
  {
    if inputs != [] {
      PublishedIsStamped(c, inputs[..|inputs| - 1]);
      var last := inputs[|inputs| - 1];
      if last.Frame? {
        forall m | m in Relayable(c, last.data) ensures !IsPresence(m.data) {
          ClientTypesAreNotPresence(m.data);
        }
      }
    }
  }
}
