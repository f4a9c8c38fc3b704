/** One websocket connection as the hub sees it: a bounded queue, filled by the
    hub and drained by the connection's writer (internal/signaling/client.go). */
module Clients {
  import opened Collections
  import opened Protocol

  /** One round of the writer's select: take a frame or the close off the
      queue, or send a ping. `ok` says whether the socket write succeeded. */
  datatype Turn = Frame(ok: bool) | Ping(ok: bool)

  const SEND_BUFFER_SIZE: nat := 64

  ghost function FramesBefore(turns: seq<Turn>, k: nat): set<int>
    requires k <= |turns|
  {
    set i | 0 <= i < k && turns[i].Frame?
  }

  lemma NoFrames(turns: seq<Turn>)
    ensures FramesBefore(turns, 0) == {}
  {
  }

  lemma OneMoreRound(turns: seq<Turn>, k: nat)
    requires k < |turns|
    ensures FramesBefore(turns, k + 1) == FramesBefore(turns, k) + if turns[k].Frame? then {k} else {}
    ensures k !in FramesBefore(turns, k)
  {
  }

  /** What is queued, what was taken off and what was written. */
  datatype Pipe = Pipe(send: seq<Outbound>, taken: seq<Outbound>, wire: seq<Outbound>)

  /** After k rounds, in which n frames were taken. */
  ghost predicate Pumped(was: Pipe, turns: seq<Turn>, k: nat, n: nat, now: Pipe, writing: bool)
    requires k <= |turns|
  {
    && n <= |was.send| && now.send == was.send[n..] && now.taken == was.taken + was.send[..n]
    && (now.wire == was.wire + was.send[..n] || (!writing && n > 0 && now.wire == was.wire + was.send[..n - 1]))
    && (writing ==>
          var frames := |FramesBefore(turns, k)|;
          now.wire == was.wire + was.send[..n] && n == if frames <= |was.send| then frames else |was.send|)
  }

  lemma PumpedNothing(was: Pipe, turns: seq<Turn>)
    ensures forall writing :: Pumped(was, turns, 0, 0, was, writing)
  {
    NoFrames(turns);
  }

  lemma PumpedMore(was: Pipe, turns: seq<Turn>, k: nat, n: nat, before: Pipe, now: Pipe, writing: bool)
    returns (more: nat)
    requires k < |turns| && Pumped(was, turns, k, n, before, true)
    requires var turn := turns[k];
             if turn.Frame? && before.send != [] then
               && now == Pipe(before.send[1..], before.taken + [before.send[0]],
                              if turn.ok then before.wire + [before.send[0]] else before.wire)
               && writing == turn.ok
             else now == before
    ensures Pumped(was, turns, k + 1, more, now, writing) && n <= more
    ensures before.send == [] ==> more == n
  {
    hide FramesBefore;
    OneMoreRound(turns, k);
    more := if turns[k].Frame? && before.send != [] then n + 1 else n;
    if before.send != [] {
      assert was.send[..n + 1] == was.send[..n] + [before.send[0]];
    }
  }

  lemma PumpedMeans(was: Pipe, turns: seq<Turn>, k: nat, n: nat, now: Pipe, writing: bool)
    requires k <= |turns| && Pumped(was, turns, k, n, now, writing) && (writing ==> k == |turns|)
    ensures n <= |was.send| && now.send == was.send[n..] && now.taken == was.taken + was.send[..n]
    ensures now.wire == was.wire + was.send[..n] || (!writing && n > 0 && now.wire == was.wire + was.send[..n - 1])
    ensures was.taken <= now.taken && was.wire <= now.wire
    ensures |now.send| <= |was.send| && now.send == was.send[|was.send| - |now.send|..]
    ensures writing ==>
              var frames := |set i | 0 <= i < |turns| && turns[i].Frame?|;
              now.wire == was.wire + was.send[..n] && n == if frames <= |was.send| then frames else |was.send|
  {
    FramesAre(turns);
  }

  lemma FramesAre(turns: seq<Turn>)
    ensures FramesBefore(turns, |turns|) == set i | 0 <= i < |turns| && turns[i].Frame?
  {
  }

  class Client {
    const userID: string
    const displayName: string
    const roomID: string
    const capacity: nat

    var send: seq<Outbound>  // the buffered channel
    var open: bool           // not yet closed by the hub
    var writing: bool        // the writer goroutine has not returned

    ghost var offered: seq<Outbound>   // every frame the hub ever tried to send
    ghost var took: seq<bool>          // which of those the queue took
    ghost var accepted: seq<Outbound>  // every frame the queue ever took
    ghost var taken: seq<Outbound>     // every frame the writer took off it
    ghost var wire: seq<Outbound>      // every frame written to the socket

    ghost predicate Valid()
      reads this
    {
      && |send| <= capacity
      && |took| == |offered| && accepted == Picked(offered, took)
      && accepted == taken + send
      && wire <= taken
      && (writing ==> wire == taken)
    }

    lemma Counts()
      requires Valid()
      ensures |accepted| == |taken| + |send| && |send| <= capacity
    {
      hide Picked;
    }

    /** As ServeHTTP hands it to the hub. */
    ghost predicate Pristine()
      reads this
    {
      && open && writing
      && send == offered == accepted == taken == wire == []
      && took == []
    }

    function Peer(): Peer {
      Protocol.Peer(userID, displayName)
    }

    constructor (userID: string, displayName: string, roomID: string)
      ensures Pristine() && Valid() && capacity == 64
      ensures this.userID == userID && this.displayName == displayName && this.roomID == roomID
    {
      this.userID, this.displayName, this.roomID := userID, displayName, roomID;
      capacity := SEND_BUFFER_SIZE;
      send, open, writing := [], true, true;
      offered, took, accepted, taken, wire := [], [], [], [], [];
    }

    /** The writer goroutine, for as many rounds as the scheduler gives it. A
        Frame round on an empty open queue blocks. Of the n frames it takes each
        reaches the socket in queue order, but for the last if its write fails;
        nothing is put on the queue. While it lives it takes a frame in every
        Frame round as long as there are any, and it stops only for a failed
        write or because the hub closed a queue that is empty by now. */
    method WritePump(turns: seq<Turn>) returns (ghost n: nat)
      requires Valid()
      modifies this`send, this`writing, this`taken, this`wire
      ensures Valid()
      ensures old(taken) <= taken && old(wire) <= wire
      ensures |send| <= |old(send)| && send == old(send)[|old(send)| - |send|..]
      ensures n <= |old(send)| && send == old(send)[n..] && taken == old(taken) + old(send)[..n]
      ensures wire == old(wire) + old(send)[..n] || (!writing && n > 0 && wire == old(wire) + old(send)[..n - 1])
      ensures writing ==>
                var frames := |set i | 0 <= i < |turns| && turns[i].Frame?|;
                wire == old(wire) + old(send)[..n] && n == if frames <= |old(send)| then frames else |old(send)|
      ensures old(writing) && !writing ==>
                exists i :: 0 <= i < |turns| && (!turns[i].ok || (turns[i].Frame? && !open && send == []))
      ensures !old(writing) ==> n == 0 && !writing
    {
      hide Valid, FramesBefore, Pumped;
      n := 0;
      var i := 0;
      ghost var was := Pipe(send, taken, wire);
      PumpedNothing(was, turns);
      while i < |turns| && writing
        invariant Valid() && i <= |turns|
        invariant Pumped(was, turns, i, n, Pipe(send, taken, wire), writing)
        invariant !old(writing) ==> n == 0 && !writing
        invariant old(writing) && !writing ==>
                    i > 0 && (!turns[i - 1].ok || (turns[i - 1].Frame? && !open && send == []))
      {
        ghost var before := Pipe(send, taken, wire);
        Round(turns[i]);
        n := PumpedMore(was, turns, i, n, before, Pipe(send, taken, wire), writing);
        i := i + 1;
      }
      PumpedMeans(was, turns, i, n, Pipe(send, taken, wire), writing);
    }

    /** One round of it. */
    method Round(turn: Turn)
      requires Valid() && writing
      modifies this`send, this`writing, this`taken, this`wire
      ensures Valid()
      ensures turn.Frame? && old(send) != [] ==>
                && send == old(send)[1..] && taken == old(taken) + [old(send)[0]] && writing == turn.ok
                && wire == if turn.ok then old(wire) + [old(send)[0]] else old(wire)
      ensures turn.Ping? || old(send) == [] ==> send == old(send) && taken == old(taken) && wire == old(wire)
      ensures turn.Ping? ==> writing == turn.ok
      ensures turn.Frame? && old(send) == [] ==> writing == open
    {
      hide Picked;
      match turn {
        case Ping(ok) =>
          writing := ok;
        case Frame(ok) =>
          if send != [] {
            var data := send[0];
            send := send[1..];
            taken := taken + [data];
            if ok {
              wire := wire + [data];
            } else {
              writing := false;
            }
          } else if !open {
            writing := false;
          }
      }
    }

    /** The non-blocking send of hub.push. Sending on a closed channel would
        panic, so an open queue is required. */
    method TrySend(data: Outbound) returns (ok: bool)
      requires Valid() && open
      modifies this`send, this`accepted, this`offered, this`took
      ensures Valid()
      ensures ok == (|old(send)| < capacity)
      ensures accepted == old(accepted) + if ok then [data] else []
      ensures offered == old(offered) + [data] && took == old(took) + [ok]
    {
      ok := |send| < capacity;
      PickedOne(offered, took, data, ok);
      offered, took := offered + [data], took + [ok];
      if ok {
        send := send + [data];
        accepted := accepted + [data];
      }
    }

    /** close(c.send): closing twice would panic. */
    method Close()
      requires open
      modifies this`open
      ensures !open && (old(Valid()) ==> Valid())
    {
      open := false;
    }
  }
}
