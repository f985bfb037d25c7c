/** The write side of a USB stack: the array of transfers, the queue and the counter of dropped requests. */
module Usb {
  import opened UsbSpec

  const TWO32 := 0x1_0000_0000

  class Stack {
    const transfers: array<Transfer>
    var queue: seq<nat>
    var droppedRequests: nat
    var expectingDisconnect: bool
    ghost var w: Writer

    /** The fields hold `w`, and the counter counts what was dropped, in 32 bits. */
    ghost predicate Holds()
      reads this, transfers
    {
      && w.transfers == transfers[..] && w.queue == queue && w.leaving == expectingDisconnect
      && droppedRequests == |w.dropped| % TWO32
    }

    ghost predicate Valid()
      reads this, transfers
    {
      Holds() && Inv(w)
    }

    constructor ()
      ensures Valid() && w == Start() && fresh(transfers)
    {
      transfers := new Transfer[MAX_WRITE_TRANSFERS](_ => Transfer(false, 0));
      queue, droppedRequests, expectingDisconnect := [], 0, false;
      w := Start();
      new;
      assert transfers[..] == w.transfers;
      RunKeeps([]);
    }

    /** Submits a transfer with the request it holds, unless it is busy already. */
    method Submit(i: nat, accepted: bool) returns (ok: bool)
      requires Holds() && i < transfers.Length
      modifies this`w, transfers
      ensures Holds() && ok == (accepted && !old(transfers[i]).submitted)
      ensures w == if old(transfers[i]).submitted then old(w)
                   else Submitted(old(w), i, old(transfers[i]).packet, accepted)
    {
      if transfers[i].submitted {
        return false;
      }
      w := Submitted(w, i, transfers[i].packet, accepted);
      transfers[i] := transfers[i].(submitted := true);
      if !accepted {
        transfers[i] := transfers[i].(submitted := false);
        return false;
      }
      return true;
    }

    /** Copies a request into an idle transfer and submits that. */
    method Send(i: nat, x: nat, accepted: bool) returns (ok: bool)
      requires Holds() && i < transfers.Length && !transfers[i].submitted
      modifies this`w, transfers
      ensures Holds() && ok == accepted && w == Submitted(old(w), i, x, accepted)
    {
      transfers[i] := transfers[i].(packet := x);
      w := w.(transfers := w.transfers[i := transfers[i]]);
      ok := Submit(i, accepted);
    }

    /** Tries the idle transfers in turn. */
    method TrySubmit(x: nat, accepts: nat -> bool) returns (done: bool)
      requires Holds()
      modifies this`w, transfers
      ensures Holds() && (w, done) == Offered(old(w), 0, x, accepts)
    {
      var i := 0;
      while i < transfers.Length
        invariant i <= transfers.Length && Holds()
        invariant Offered(w, i, x, accepts) == Offered(old(w), 0, x, accepts)
      {
        if !transfers[i].submitted {
          var ok := Send(i, x, accepts(i));
          if ok {
            return true;
          }
        }
        i := i + 1;
      }
      return false;
    }

    /** Drops the oldest requests of a full queue; the counter is advanced once, by as many as will go. */
    method Trim()
      requires Holds()
      modifies this
      ensures Holds() && w == Trimmed(old(w))
    {
      if |queue| >= MAX_QUEUED_WRITES {
        var requestsToDrop := |queue| - MAX_QUEUED_WRITES + 1;
        droppedRequests := (droppedRequests + requestsToDrop) % TWO32;
        ghost var n := |w.dropped|;
        while |queue| >= MAX_QUEUED_WRITES
          invariant w.transfers == transfers[..] && w.queue == queue && w.leaving == expectingDisconnect
          invariant Trimmed(w) == Trimmed(old(w))
          invariant |queue| >= MAX_QUEUED_WRITES - 1
          invariant |w.dropped| + (|queue| - MAX_QUEUED_WRITES + 1) == n + requestsToDrop
          invariant droppedRequests == (n % TWO32 + requestsToDrop) % TWO32
        {
          w := w.(queue := queue[1..], dropped := w.dropped + [queue[0]]);
          queue := queue[1..];
        }
      }
    }

    /** Puts a request into the queue. */
    method Push(x: nat, room: bool) returns (ok: bool)
      requires Holds()
      modifies this
      ensures Holds() && ok == room && w == Queued(old(w), x, room)
    {
      Trim();
      if !room {
        w := w.(refused := w.refused + [x]);
        return false;
      }
      queue := queue + [x];
      w := w.(queue := queue);
      return true;
    }

    /** Requests are numbered in the order of dispatch. */
    method Dispatch(x: nat, accepts: nat -> bool, room: bool) returns (ok: bool)
      requires Valid() && x == w.next
      modifies this, transfers
      ensures Valid() && w == Dispatched(old(w), accepts, room)
      ensures ok <==> old(expectingDisconnect) || Taken(old(w), accepts) || room
    {
      DispatchedKeeps(w, accepts, room);
      OfferedTaken(w.(next := x + 1), 0, x, accepts);
      w := w.(next := x + 1);
      if expectingDisconnect {
        w := w.(refused := w.refused + [x]);
        return true;
      }
      var done := TrySubmit(x, accepts);
      if done {
        return true;
      }
      ok := Push(x, room);
    }

    /** The next request in the queue takes the transfer that came back. */
    method WriteCallback(i: nat, accepted: bool)
      requires Holds() && i < transfers.Length && !transfers[i].submitted
      modifies this, transfers
      ensures Holds() && w == if old(expectingDisconnect) then old(w) else Refilled(old(w), i, accepted)
    {
      if !expectingDisconnect && |queue| > 0 {
        var ok := Send(i, queue[0], accepted);
        if ok {
          queue := queue[1..];
          w := w.(queue := queue);
        }
      }
    }

    /** A write transfer comes back. */
    method Return(i: nat, status: Status, accepted: bool)
      requires Valid() && i < transfers.Length
      modifies this, transfers
      ensures Valid() && w == Returned(old(w), i, status, accepted)
    {
      ReturnedKeeps(w, i, status, accepted);
      if !transfers[i].submitted {
        return;
      }
      transfers[i] := transfers[i].(submitted := false);
      w := w.(transfers := w.transfers[i := transfers[i]]);
      match status {
        case Cancelled =>
          expectingDisconnect := true;
          w := w.(leaving := true);
        case NoDevice =>
          expectingDisconnect := true;
          w := w.(leaving := true);
        case Stall =>
        case Failed =>
        case Completed =>
          if !expectingDisconnect {
            WriteCallback(i, accepted);
          }
      }
    }
  }
}
