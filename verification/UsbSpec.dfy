/** Writing requests to a USB device: ten transfers and a queue for what does not fit. Requests are numbered as they are
    dispatched. */
module UsbSpec {
  import opened Counting

  const MAX_WRITE_TRANSFERS := 10
  const MAX_QUEUED_WRITES := 32768

  datatype Transfer = Transfer(submitted: bool, packet: nat)

  /** How a transfer that was submitted comes back. */
  datatype Status = Completed | Cancelled | NoDevice | Stall | Failed

  /** `leaving` says that the device is about to be disconnected. `sent` lists the requests that were submitted, in that
      order, `dropped` those that had to leave the queue and `refused` those that were not taken at all. */
  datatype Writer = Writer(transfers: seq<Transfer>, queue: seq<nat>, leaving: bool,
                           sent: seq<nat>, dropped: seq<nat>, refused: seq<nat>, next: nat)

  function Start(): Writer {
    Writer(seq(MAX_WRITE_TRANSFERS, _ => Transfer(false, 0)), [], false, [], [], [], 0)
  }

  // ----- dispatching a request

  /** Puts a request into transfer `i` and submits it. */
  function Submitted(w: Writer, i: nat, x: nat, accepted: bool): Writer
    requires i < |w.transfers|
  {
    w.(transfers := w.transfers[i := Transfer(accepted, x)], sent := if accepted then w.sent + [x] else w.sent)
  }

  /** Offers a request to the idle transfers from `i` on, until one submission succeeds. */
  function Offered(w: Writer, i: nat, x: nat, accepts: nat -> bool): (Writer, bool)
    decreases |w.transfers| - i
  {
    if i >= |w.transfers| then (w, false)
    else if w.transfers[i].submitted then Offered(w, i + 1, x, accepts)
    else if accepts(i) then (Submitted(w, i, x, true), true)
    else Offered(Submitted(w, i, x, false), i + 1, x, accepts)
  }

  /** Makes room in a full queue by dropping the oldest requests. */
  function Trimmed(w: Writer): Writer
    decreases |w.queue|
  {
    if |w.queue| < MAX_QUEUED_WRITES then w
    else Trimmed(w.(queue := w.queue[1..], dropped := w.dropped + [w.queue[0]]))
  }

  function Queued(w: Writer, x: nat, room: bool): Writer {
    var w' := Trimmed(w);
    if room then w'.(queue := w'.queue + [x]) else w'.(refused := w'.refused + [x])
  }

  function Dispatched(w: Writer, accepts: nat -> bool, room: bool): Writer {
    var x, w' := w.next, w.(next := w.next + 1);
    if w.leaving then w'.(refused := w'.refused + [x])
    else
      var (tried, done) := Offered(w', 0, x, accepts);
      if done then tried else Queued(tried, x, room)
  }

  // ----- a transfer comes back

  function Returned(w: Writer, i: nat, status: Status, accepted: bool): Writer {
    if i >= |w.transfers| || !w.transfers[i].submitted then w
    else
      var w' := w.(transfers := w.transfers[i := w.transfers[i].(submitted := false)]);
      match status
      case Cancelled => w'.(leaving := true)
      case NoDevice => w'.(leaving := true)
      case Stall => w'
      case Failed => w'
      case Completed => if w.leaving then w' else Refilled(w', i, accepted)
  }

  /** The next request from the queue takes the transfer that came back. */
  function Refilled(w: Writer, i: nat, accepted: bool): Writer
    requires i < |w.transfers|
  {
    if w.queue == [] then w
    else
      var w' := Submitted(w, i, w.queue[0], accepted);
      if accepted then w'.(queue := w.queue[1..]) else w'
  }

  // ----- runs

  datatype Event = Dispatch(accepts: nat -> bool, room: bool) | Return(i: nat, status: Status, accepted: bool) | Leave

  function Step(w: Writer, e: Event): Writer {
    match e
    case Dispatch(accepts, room) => Dispatched(w, accepts, room)
    case Return(i, status, accepted) => Returned(w, i, status, accepted)
    case Leave => w.(leaving := true)
  }

  function Run(events: seq<Event>): Writer {
    if events == [] then Start() else Step(Run(events[..|events| - 1]), events[|events| - 1])
  }

  // ----- every request is somewhere, once

  function Everywhere(w: Writer, x: nat): nat {
    Times(w.sent, x) + Times(w.queue, x) + Times(w.dropped, x) + Times(w.refused, x)
  }

  ghost predicate Inv(w: Writer) {
    && |w.transfers| == MAX_WRITE_TRANSFERS && |w.queue| <= MAX_QUEUED_WRITES
    && forall x: nat :: Everywhere(w, x) == if x < w.next then 1 else 0
  }

  /** Offering changes nothing but the transfers, and the list of what was submitted when it succeeds. */
  lemma {:induction false} OfferedIs(w: Writer, i: nat, x: nat, accepts: nat -> bool)
    ensures var (w', done) := Offered(w, i, x, accepts);
            && w' == w.(transfers := w'.transfers, sent := if done then w.sent + [x] else w.sent)
            && |w'.transfers| == |w.transfers|
    decreases |w.transfers| - i
  {
    if i < |w.transfers| {
      if w.transfers[i].submitted {
        OfferedIs(w, i + 1, x, accepts);
      } else if !accepts(i) {
        OfferedIs(Submitted(w, i, x, false), i + 1, x, accepts);
      }
    }
  }

  /** A full queue loses its oldest request and no other one. */
  lemma TrimsOldest(w: Writer)
    requires |w.queue| <= MAX_QUEUED_WRITES
    ensures Trimmed(w) == if |w.queue| == 32768
                          then w.(queue := w.queue[1..], dropped := w.dropped + [w.queue[0]]) else w
  {
  }

  lemma TrimmedEverywhere(w: Writer, x: nat)
    requires |w.queue| <= MAX_QUEUED_WRITES
    ensures Everywhere(Trimmed(w), x) == Everywhere(w, x) && |Trimmed(w).queue| < MAX_QUEUED_WRITES
  {
    TrimsOldest(w);
    if |w.queue| == MAX_QUEUED_WRITES {
      TimesHead(w.queue, x);
      TimesMore(w.dropped, w.queue[0], x);
    }
  }

  lemma QueuedEverywhere(w: Writer, y: nat, room: bool, x: nat)
    requires |w.queue| <= MAX_QUEUED_WRITES
    ensures Everywhere(Queued(w, y, room), x) == Everywhere(w, x) + if x == y then 1 else 0
    ensures |Queued(w, y, room).queue| <= MAX_QUEUED_WRITES
  {
    TrimmedEverywhere(w, x);
    TimesMore(Trimmed(w).queue, y, x);
    TimesMore(Trimmed(w).refused, y, x);
  }

  lemma DispatchedEverywhere(w: Writer, accepts: nat -> bool, room: bool, x: nat)
    requires |w.queue| <= MAX_QUEUED_WRITES
    ensures Everywhere(Dispatched(w, accepts, room), x) == Everywhere(w, x) + if x == w.next then 1 else 0
    ensures |Dispatched(w, accepts, room).queue| <= MAX_QUEUED_WRITES
  {
    var y, w1 := w.next, w.(next := w.next + 1);
    TimesMore(w.refused, y, x);
    TimesMore(w.sent, y, x);
    OfferedIs(w1, 0, y, accepts);
    QueuedEverywhere(Offered(w1, 0, y, accepts).0, y, room, x);
  }

  lemma RefilledEverywhere(w: Writer, i: nat, accepted: bool, x: nat)
    requires i < |w.transfers|
    ensures var w' := Refilled(w, i, accepted);
            && Everywhere(w', x) == Everywhere(w, x) && |w'.queue| <= |w.queue|
            && |w'.transfers| == |w.transfers| && w'.next == w.next
  {
    if w.queue != [] {
      var s, q, y := w.sent, w.queue[1..], w.queue[0];
      TimesHead(w.queue, x);
      TimesMore(s, y, x);
      assert Times(s + [y], x) + Times(q, x) == Times(s, x) + Times(w.queue, x);
    }
  }

  lemma ReturnedEverywhere(w: Writer, i: nat, status: Status, accepted: bool, x: nat)
    ensures var w' := Returned(w, i, status, accepted);
            && Everywhere(w', x) == Everywhere(w, x) && |w'.queue| <= |w.queue|
            && |w'.transfers| == |w.transfers| && w'.next == w.next
  {
    if i < |w.transfers| {
      RefilledEverywhere(w.(transfers := w.transfers[i := w.transfers[i].(submitted := false)]), i, accepted, x);
    }
  }

  lemma DispatchedShape(w: Writer, accepts: nat -> bool, room: bool)
    requires |w.queue| <= MAX_QUEUED_WRITES
    ensures var w' := Dispatched(w, accepts, room); |w'.transfers| == |w.transfers| && w'.next == w.next + 1
  {
    OfferedIs(w.(next := w.next + 1), 0, w.next, accepts);
    TrimsOldest(Offered(w.(next := w.next + 1), 0, w.next, accepts).0);
  }

  lemma DispatchedKeeps(w: Writer, accepts: nat -> bool, room: bool)
    requires Inv(w)
    ensures Inv(Dispatched(w, accepts, room))
  {
    DispatchedShape(w, accepts, room);
    DispatchedEverywhere(w, accepts, room, 0);
    forall x: nat
      ensures Everywhere(Dispatched(w, accepts, room), x) == if x < w.next + 1 then 1 else 0
    {
      DispatchedEverywhere(w, accepts, room, x);
    }
  }

  lemma ReturnedKeeps(w: Writer, i: nat, status: Status, accepted: bool)
    requires Inv(w)
    ensures Inv(Returned(w, i, status, accepted))
  {
    ReturnedEverywhere(w, i, status, accepted, 0);
    forall x: nat
      ensures Everywhere(Returned(w, i, status, accepted), x) == Everywhere(w, x)
    {
      ReturnedEverywhere(w, i, status, accepted, x);
    }
  }

  /** In every reachable state the queue is within its limit and each request that was dispatched is in exactly one
      place: submitted, queued, dropped from the queue or refused. */
  lemma {:induction false} RunKeeps(events: seq<Event>)
    ensures Inv(Run(events))
  {
    if events != [] {
      RunKeeps(events[..|events| - 1]);
      match events[|events| - 1]
      case Dispatch(accepts, room) => DispatchedKeeps(Run(events[..|events| - 1]), accepts, room);
      case Return(i, status, accepted) => ReturnedKeeps(Run(events[..|events| - 1]), i, status, accepted);
      case Leave => LeaveKeeps(Run(events[..|events| - 1]));
    }
  }

  lemma LeaveKeeps(w: Writer)
    requires Inv(w)
    ensures Inv(w.(leaving := true))
  {
    assert forall x: nat :: Everywhere(w.(leaving := true), x) == Everywhere(w, x);
  }

  // ----- what is refused

  /** Some idle transfer takes a request. */
  predicate Taken(w: Writer, accepts: nat -> bool) {
    exists i :: 0 <= i < |w.transfers| && !w.transfers[i].submitted && accepts(i)
  }

  lemma {:induction false} OfferedTaken(w: Writer, i: nat, x: nat, accepts: nat -> bool)
    ensures Offered(w, i, x, accepts).1
        <==> exists j :: i <= j < |w.transfers| && !w.transfers[j].submitted && accepts(j)
    decreases |w.transfers| - i
  {
    if i < |w.transfers| {
      if w.transfers[i].submitted {
        OfferedTaken(w, i + 1, x, accepts);
      } else if !accepts(i) {
        var w' := Submitted(w, i, x, false);
        OfferedTaken(w', i + 1, x, accepts);
        assert forall j :: i < j < |w.transfers| ==> w'.transfers[j] == w.transfers[j];
      }
    }
  }

  /** A request is refused exactly when the device is about to leave, or no transfer takes it and the queue cannot
      grow; it is submitted at once exactly when a transfer takes it. */
  lemma RefusedExactly(w: Writer, accepts: nat -> bool, room: bool)
    requires |w.queue| <= MAX_QUEUED_WRITES
    ensures var w' := Dispatched(w, accepts, room);
            && w'.refused == (if w.leaving || !(Taken(w, accepts) || room) then w.refused + [w.next] else w.refused)
            && w'.sent == (if !w.leaving && Taken(w, accepts) then w.sent + [w.next] else w.sent)
  {
    var w1 := w.(next := w.next + 1);
    OfferedIs(w1, 0, w.next, accepts);
    OfferedTaken(w1, 0, w.next, accepts);
    TrimsOldest(Offered(w1, 0, w.next, accepts).0);
  }

  // ----- order, while nothing fails

  ghost predicate Increasing(s: seq<nat>) {
    forall i, j :: 0 <= i < j < |s| ==> s[i] < s[j]
  }

  predicate AllBusy(w: Writer) {
    forall i :: 0 <= i < |w.transfers| ==> w.transfers[i].submitted
  }

  /** Submissions follow the order of dispatch, and only busy transfers make a request wait. */
  ghost predicate Ordered(w: Writer) {
    && |w.queue| <= MAX_QUEUED_WRITES && !w.leaving
    && Increasing(w.sent + w.queue) && (forall i :: 0 <= i < |w.sent + w.queue| ==> (w.sent + w.queue)[i] < w.next)
    && (w.queue != [] ==> AllBusy(w))
  }

  /** No submission and no transfer fails. */
  ghost predicate Quiet(e: Event) {
    match e
    case Dispatch(accepts, room) => room && forall i :: accepts(i)
    case Return(i, status, accepted) => status == Completed && accepted
    case Leave => false
  }

  lemma {:induction false} BusyOffer(w: Writer, i: nat, x: nat, accepts: nat -> bool)
    requires AllBusy(w)
    ensures Offered(w, i, x, accepts) == (w, false)
    decreases |w.transfers| - i
  {
    if i < |w.transfers| {
      BusyOffer(w, i + 1, x, accepts);
    }
  }

  lemma IncreasingMore(s: seq<nat>, next: nat)
    requires Increasing(s) && forall i :: 0 <= i < |s| ==> s[i] < next
    ensures Increasing(s + [next])
  {
  }

  lemma IncreasingWithout(a: seq<nat>, b: seq<nat>)
    requires b != [] && Increasing(a + b)
    ensures Increasing(a + b[1..])
    ensures forall y :: y in a + b[1..] ==> y in a + b
  {
    var s := a + b[1..];
    assert forall k :: 0 <= k < |s| ==> s[k] == (a + b)[if k < |a| then k else k + 1];
  }

  lemma DispatchOrdered(w: Writer, accepts: nat -> bool)
    requires Ordered(w) && forall i :: accepts(i)
    ensures Ordered(Dispatched(w, accepts, true))
  {
    var w1, y := w.(next := w.next + 1), w.next;
    if AllBusy(w) {
      BusyOffer(w1, 0, y, accepts);
      TrimsOldest(w1);
      QueueOrdered(w, Trimmed(w1).queue, y);
    } else {
      var i :| 0 <= i < |w.transfers| && !w.transfers[i].submitted && accepts(i);
      OfferedTaken(w1, 0, y, accepts);
      OfferedIs(w1, 0, y, accepts);
      assert w.sent + w.queue == w.sent;
      IncreasingMore(w.sent, y);
      assert w.sent + [y] + [] == w.sent + [y];
    }
  }

  lemma QueueOrdered(w: Writer, queue: seq<nat>, y: nat)
    requires Ordered(w) && y == w.next
    requires queue == w.queue || (w.queue != [] && queue == w.queue[1..])
    ensures Increasing(w.sent + (queue + [y]))
    ensures forall i :: 0 <= i < |w.sent + (queue + [y])| ==> (w.sent + (queue + [y]))[i] <= y
  {
    if queue != w.queue {
      IncreasingWithout(w.sent, w.queue);
    }
    var s := w.sent + queue;
    assert forall i :: 0 <= i < |s| ==> s[i] in w.sent + w.queue;
    IncreasingMore(s, y);
    assert w.sent + (queue + [y]) == s + [y];
  }

  lemma ReturnOrdered(w: Writer, i: nat)
    requires Ordered(w)
    ensures Ordered(Returned(w, i, Completed, true))
  {
    if i < |w.transfers| && w.transfers[i].submitted && w.queue != [] {
      assert w.sent + [w.queue[0]] + w.queue[1..] == w.sent + w.queue;
    }
  }

  /** While no submission or transfer fails, requests are submitted in the order in which they were dispatched. */
  lemma {:induction false} RunOrdered(events: seq<Event>)
    requires forall k :: 0 <= k < |events| ==> Quiet(events[k])
    ensures Ordered(Run(events))
  {
    if events != [] {
      var n := |events| - 1;
      RunOrdered(events[..n]);
      assert Quiet(events[n]);
      match events[n]
      case Dispatch(accepts, room) => DispatchOrdered(Run(events[..n]), accepts);
      case Return(i, status, accepted) => ReturnOrdered(Run(events[..n]), i);
    }
  }

  /** One transfer that fails is enough: whatever waits in the queue is overtaken by the next request. */
  lemma FailedTransferOvertakes(w: Writer, i: nat, accepts: nat -> bool)
    requires Ordered(w) && w.queue != [] && i < |w.transfers| && accepts(i)
    ensures var w' := Dispatched(Returned(w, i, Failed, true), accepts, true);
            w'.sent == w.sent + [w.next] && w'.queue == w.queue && !Increasing(w'.sent + w'.queue)
  {
    var w1 := Returned(w, i, Failed, true);
    assert !w1.transfers[i].submitted;
    RefusedExactly(w1, accepts, true);
    OfferedIs(w1.(next := w.next + 1), 0, w.next, accepts);
    OfferedTaken(w1.(next := w.next + 1), 0, w.next, accepts);
    var s := w.sent + [w.next] + w.queue;
    assert s[|w.sent|] == w.next && s[|w.sent| + 1] == (w.sent + w.queue)[|w.sent|] < w.next;
  }

  // ----- order, exactly

  /** Submitted and waiting requests are in the order of dispatch. */
  ghost predicate InOrder(w: Writer) {
    Increasing(w.sent + w.queue) && forall i :: 0 <= i < |w.sent + w.queue| ==> (w.sent + w.queue)[i] < w.next
  }

  /** A request does not overtake: it is refused, nothing waits, or it has to wait itself. */
  predicate Patient(w: Writer, accepts: nat -> bool) {
    w.leaving || w.queue == [] || !Taken(w, accepts)
  }

  lemma OvertakenIsOutOfOrder(sent: seq<nat>, x: nat, queue: seq<nat>)
    requires queue != [] && queue[0] < x
    ensures !Increasing(sent + [x] + queue)
  {
    var s := sent + [x] + queue;
    assert s[|sent|] == x && s[|sent| + 1] == queue[0];
  }

  lemma QueuedInOrder(w: Writer, x: nat, room: bool)
    requires InOrder(w) && |w.queue| <= MAX_QUEUED_WRITES && w.next <= x + 1
    requires forall i :: 0 <= i < |w.sent + w.queue| ==> (w.sent + w.queue)[i] < x
    ensures var w' := Queued(w, x, room);
            && Increasing(w'.sent + w'.queue)
            && forall i :: 0 <= i < |w'.sent + w'.queue| ==> (w'.sent + w'.queue)[i] <= x
  {
    TrimsOldest(w);
    var t := Trimmed(w);
    if t.queue != w.queue {
      IncreasingWithout(w.sent, w.queue);
    }
    var s := t.sent + t.queue;
    assert forall i :: 0 <= i < |s| ==> s[i] in w.sent + w.queue;
    IncreasingMore(s, x);
    assert t.sent + (t.queue + [x]) == s + [x];
  }

  /** A dispatch keeps the order if and only if it does not overtake. */
  lemma DispatchOrderExactly(w: Writer, accepts: nat -> bool, room: bool)
    requires InOrder(w) && |w.queue| <= MAX_QUEUED_WRITES
    ensures InOrder(Dispatched(w, accepts, room)) <==> Patient(w, accepts)
  {
    var x, w1 := w.next, w.(next := w.next + 1);
    OfferedIs(w1, 0, x, accepts);
    OfferedTaken(w1, 0, x, accepts);
    var (tried, done) := Offered(w1, 0, x, accepts);
    DispatchedShape(w, accepts, room);
    if !w.leaving && done {
      if w.queue == [] {
        assert w.sent + w.queue == w.sent && w.sent + [x] + [] == w.sent + [x];
        IncreasingMore(w.sent, x);
      } else {
        assert (w.sent + w.queue)[|w.sent|] == w.queue[0];
        OvertakenIsOutOfOrder(w.sent, x, w.queue);
      }
    } else if !w.leaving {
      QueuedInOrder(tried, x, room);
    }
  }

  /** A transfer that comes back keeps the order, whatever its status. */
  lemma ReturnInOrder(w: Writer, i: nat, status: Status, accepted: bool)
    requires InOrder(w)
    ensures InOrder(Returned(w, i, status, accepted))
  {
    if w.queue != [] {
      assert w.sent + [w.queue[0]] + w.queue[1..] == w.sent + w.queue;
    }
  }

  ghost predicate StepIsPatient(w: Writer, e: Event) {
    e.Dispatch? ==> Patient(w, e.accepts)
  }

  lemma StepOrderExactly(w: Writer, e: Event)
    requires InOrder(w) && |w.queue| <= MAX_QUEUED_WRITES
    ensures InOrder(Step(w, e)) <==> StepIsPatient(w, e)
  {
    match e
    case Dispatch(accepts, room) => DispatchOrderExactly(w, accepts, room);
    case Return(i, status, accepted) => ReturnInOrder(w, i, status, accepted);
    case Leave =>
  }

  ghost predicate AlwaysInOrder(events: seq<Event>) {
    forall n :: 0 <= n <= |events| ==> InOrder(Run(events[..n]))
  }

  ghost predicate NeverOvertakes(events: seq<Event>) {
    forall n :: 0 <= n < |events| ==> StepIsPatient(Run(events[..n]), events[n])
  }

  lemma RunNext(events: seq<Event>, n: nat)
    requires n < |events|
    ensures Run(events[..n + 1]) == Step(Run(events[..n]), events[n])
  {
    assert events[..n + 1][..n] == events[..n];
  }

  lemma {:induction false} PatientRunInOrder(events: seq<Event>, n: nat)
    requires NeverOvertakes(events) && n <= |events|
    ensures InOrder(Run(events[..n]))
  {
    if n > 0 {
      PatientRunInOrder(events, n - 1);
      RunKeeps(events[..n - 1]);
      RunNext(events, n - 1);
      StepOrderExactly(Run(events[..n - 1]), events[n - 1]);
    }
  }

  /** A run is in the order of dispatch all along if and only if no request is dispatched while others wait and an idle
      transfer takes it. */
  lemma OrderExactly(events: seq<Event>)
    ensures AlwaysInOrder(events) <==> NeverOvertakes(events)
  {
    if NeverOvertakes(events) {
      forall n | 0 <= n <= |events|
        ensures InOrder(Run(events[..n]))
      {
        PatientRunInOrder(events, n);
      }
    }
    if AlwaysInOrder(events) {
      forall n | 0 <= n < |events|
        ensures StepIsPatient(Run(events[..n]), events[n])
      {
        assert InOrder(Run(events[..n])) && InOrder(Run(events[..n + 1]));
        RunKeeps(events[..n]);
        RunNext(events, n);
        StepOrderExactly(Run(events[..n]), events[n]);
      }
    }
  }

  // ----- a run in which it happens

  function Accepting(): Event { Dispatch(_ => true, true) }

  function Dispatches(n: nat): (events: seq<Event>)
    ensures |events| == n
  {
    seq(n, _ => Accepting())
  }

  lemma {:induction false} OfferedSkips(w: Writer, i: nat, k: nat, x: nat)
    requires i <= k < |w.transfers| && !w.transfers[k].submitted
    requires forall j :: i <= j < k ==> w.transfers[j].submitted
    ensures Offered(w, i, x, _ => true) == (Submitted(w, k, x, true), true)
    decreases k - i
  {
    if i < k {
      OfferedSkips(w, i + 1, k, x);
    }
  }

  lemma {:induction false} TransfersFill(n: nat)
    requires n <= MAX_WRITE_TRANSFERS
    ensures var w := Run(Dispatches(n));
            && |w.transfers| == MAX_WRITE_TRANSFERS && w.queue == [] && !w.leaving && w.next == n
            && forall i :: 0 <= i < MAX_WRITE_TRANSFERS ==> (w.transfers[i].submitted <==> i < n)
  {
    if n > 0 {
      TransfersFill(n - 1);
      assert Dispatches(n)[..n - 1] == Dispatches(n - 1);
      OfferedSkips(Run(Dispatches(n - 1)).(next := n), 0, n - 1, n - 1);
    }
  }

  lemma EleventhWaits()
    ensures var w := Run(Dispatches(11)); w.queue == [10] && w.next == 11 && |w.transfers| == MAX_WRITE_TRANSFERS
  {
    TransfersFill(10);
    assert Dispatches(11)[..10] == Dispatches(10);
    var w := Run(Dispatches(10)).(next := 11);
    BusyOffer(w, 0, 10, _ => true);
    TrimsOldest(w);
  }

  /** Eleven requests, of which the last has to wait; then a transfer fails and the next request is dispatched: it is
      submitted before the one that waits. */
  lemma OvertakingHappens()
    ensures var events := Dispatches(11) + [Return(0, Failed, true), Accepting()];
            Run(events).queue == [10] && 11 in Run(events).sent && !InOrder(Run(events))
  {
    var events := Dispatches(11) + [Return(0, Failed, true), Accepting()];
    EleventhWaits();
    RunOrdered(Dispatches(11));
    assert events[..12][..11] == Dispatches(11) && events[..12][11] == Return(0, Failed, true);
    FailedTransferOvertakes(Run(Dispatches(11)), 0, _ => true);
  }

  // ----- which transfer takes a request, and what comes of a transfer

  /** An idle transfer before `i` takes the request. */
  predicate TakenBefore(w: Writer, from: nat, i: nat, accepts: nat -> bool) {
    exists k :: from <= k < i && k < |w.transfers| && !w.transfers[k].submitted && accepts(k)
  }

  /** The first idle transfer whose submission succeeds carries the request; idle ones before it were tried in vain, and
      no other transfer changes. */
  lemma {:induction false} OfferedTo(w: Writer, i: nat, x: nat, accepts: nat -> bool, j: nat)
    requires i <= j < |w.transfers|
    ensures |Offered(w, i, x, accepts).0.transfers| == |w.transfers|
    ensures Offered(w, i, x, accepts).0.transfers[j]
         == if w.transfers[j].submitted || TakenBefore(w, i, j, accepts) then w.transfers[j]
            else Transfer(accepts(j), x)
    decreases |w.transfers| - i
  {
    OfferedIs(w, i, x, accepts);
    if w.transfers[i].submitted {
      if i < j {
        OfferedTo(w, i + 1, x, accepts, j);
        assert TakenBefore(w, i, j, accepts) == TakenBefore(w, i + 1, j, accepts);
      } else {
        OfferedLeaves(w, i + 1, x, accepts, j);
      }
    } else if !accepts(i) {
      var w1 := Submitted(w, i, x, false);
      if i < j {
        OfferedTo(w1, i + 1, x, accepts, j);
        assert TakenBefore(w, i, j, accepts) == TakenBefore(w1, i + 1, j, accepts);
      } else {
        OfferedLeaves(w1, i + 1, x, accepts, j);
      }
    }
  }

  lemma {:induction false} OfferedLeaves(w: Writer, i: nat, x: nat, accepts: nat -> bool, j: nat)
    requires j < i && j < |w.transfers|
    ensures |Offered(w, i, x, accepts).0.transfers| == |w.transfers|
    ensures Offered(w, i, x, accepts).0.transfers[j] == w.transfers[j]
    decreases |w.transfers| - i
  {
    OfferedIs(w, i, x, accepts);
    if i < |w.transfers| {
      if w.transfers[i].submitted {
        OfferedLeaves(w, i + 1, x, accepts, j);
      } else if !accepts(i) {
        OfferedLeaves(Submitted(w, i, x, false), i + 1, x, accepts, j);
      }
    }
  }

  /** The transfer of a dispatched request, unless the device is about to leave. */
  lemma DispatchedTo(w: Writer, accepts: nat -> bool, room: bool, j: nat)
    requires j < |w.transfers| && |w.queue| <= MAX_QUEUED_WRITES
    ensures |Dispatched(w, accepts, room).transfers| == |w.transfers|
    ensures Dispatched(w, accepts, room).transfers[j]
         == if w.leaving || w.transfers[j].submitted || TakenBefore(w, 0, j, accepts) then w.transfers[j]
            else Transfer(accepts(j), w.next)
  {
    var w1 := w.(next := w.next + 1);
    OfferedTo(w1, 0, w.next, accepts, j);
    assert TakenBefore(w, 0, j, accepts) == TakenBefore(w1, 0, j, accepts);
    OfferedIs(w1, 0, w.next, accepts);
    TrimsOldest(Offered(w1, 0, w.next, accepts).0);
  }

  /** What comes of a transfer that was submitted: the next request takes its place if and only if it completed, one is
      waiting, the device stays and the submission succeeds. A transfer that was cancelled or found no device says that
      the device is about to leave. */
  lemma ReturnedExactly(w: Writer, i: nat, status: Status, accepted: bool)
    requires i < |w.transfers| && w.transfers[i].submitted
    ensures var w', next := Returned(w, i, status, accepted), status == Completed && !w.leaving && w.queue != [];
            && w'.leaving == (w.leaving || status == Cancelled || status == NoDevice)
            && w'.queue == (if next && accepted then w.queue[1..] else w.queue)
            && w'.sent == (if next && accepted then w.sent + [w.queue[0]] else w.sent)
            && w'.transfers == w.transfers[i := Transfer(next && accepted,
                                                         if next then w.queue[0] else w.transfers[i].packet)]
            && w'.dropped == w.dropped && w'.refused == w.refused && w'.next == w.next
  {
  }

  // ----- a device that is about to leave

  /** The event says that the device is about to leave. */
  predicate SaysGoodbye(w: Writer, e: Event) {
    || e.Leave?
    || (e.Return? && e.i < |w.transfers| && w.transfers[e.i].submitted
        && (e.status == Cancelled || e.status == NoDevice))
  }

  lemma StepLeaves(w: Writer, e: Event)
    ensures Step(w, e).leaving <==> w.leaving || SaysGoodbye(w, e)
    ensures w.leaving ==> Step(w, e).sent == w.sent && Step(w, e).queue == w.queue
    ensures w.leaving && e.Dispatch? ==> Step(w, e).refused == w.refused + [w.next]
  {
    match e
    case Return(i, status, accepted) =>
      if i < |w.transfers| && w.transfers[i].submitted {
        ReturnedExactly(w, i, status, accepted);
      }
    case Dispatch(accepts, room) =>
      if !w.leaving {
        OfferedIs(w.(next := w.next + 1), 0, w.next, accepts);
        TrimmedStays(Offered(w.(next := w.next + 1), 0, w.next, accepts).0);
      }
    case Leave =>
  }

  lemma {:induction false} TrimmedStays(w: Writer)
    ensures Trimmed(w) == w.(queue := Trimmed(w).queue, dropped := Trimmed(w).dropped)
    decreases |w.queue|
  {
    if |w.queue| >= MAX_QUEUED_WRITES {
      TrimmedStays(w.(queue := w.queue[1..], dropped := w.dropped + [w.queue[0]]));
    }
  }

  ghost predicate SaidAt(events: seq<Event>, k: nat) {
    k < |events| && SaysGoodbye(Run(events[..k]), events[k])
  }

  lemma RunLeaves(events: seq<Event>, n: nat)
    requires n < |events|
    ensures Run(events[..n + 1]).leaving <==> Run(events[..n]).leaving || SaidAt(events, n)
    ensures Run(events[..n]).leaving ==> Run(events[..n + 1]).sent == Run(events[..n]).sent
  {
    RunNext(events, n);
    StepLeaves(Run(events[..n]), events[n]);
  }

  /** In every run, the device is about to leave if and only if something said so before. */
  lemma {:induction false} LeavingExactly(events: seq<Event>, n: nat)
    requires n <= |events|
    ensures Run(events[..n]).leaving <==> exists k: nat :: k < n && SaidAt(events, k)
  {
    if n == 0 {
      assert events[..0] == [];
    } else {
      LeavingExactly(events, n - 1);
      RunLeaves(events, n - 1);
    }
  }

  /** From then on nothing is submitted any more. */
  lemma {:induction false} NothingAfterGoodbye(events: seq<Event>, k: nat, n: nat)
    requires k <= n <= |events| && Run(events[..k]).leaving
    ensures Run(events[..n]).leaving && Run(events[..n]).sent == Run(events[..k]).sent
  {
    if k < n {
      NothingAfterGoodbye(events, k, n - 1);
      RunLeaves(events, n - 1);
    }
  }
}
