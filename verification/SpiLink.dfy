/** The stop-and-wait protocol between the RED Brick and one slave of its stack: the master as coded, a slave
    that follows four stated rules, and a wire that may lose or corrupt either half of any transfer. */
module SpiLink {
  import opened Bytes
  import opened Wrappers
  import opened SpiFrame

  /** The significant bytes of a request or a response. */
  type Packet = p: seq<byte> | HEADER_SIZE <= |p| <= MAX_PAYLOAD witness Zeros(HEADER_SIZE)

  /** What the master keeps for a slave. */
  datatype Master = Master(msn: byte, ssn: byte, nextEmpty: bool, queue: seq<Packet>)

  /** The effect of one transfer; an empty `received` means that nothing new came in. */
  datatype Outcome = Outcome(master: Master, acked: bool, received: seq<byte>)

  const POWER_ON := Master(1, 0, false, [])

  function NextMaster(msn: byte): byte {
    if msn + 1 > MASTER_MASK then 0 else msn + 1
  }

  /** One transfer of `send` (or of an empty frame), in which the frame `heard` came back, if any did. */
  function Transceived(m: Master, send: Option<seq<byte>>, heard: Option<Frame>): Outcome {
    match heard
    case None =>
      Outcome(if send.None? then m.(nextEmpty := true) else m, false, [])
    case Some(f) =>
      var acked := send.Some? && f.master == m.msn;
      var m1 :=
        if acked then m.(msn := NextMaster(m.msn))
        else if send.Some? then m
        else if f.master == m.msn || NextMaster(m.msn) != f.master then m.(msn := NextMaster(m.msn))
        else m.(nextEmpty := true);
      if f.slave == m.ssn then Outcome(m1, acked, [])
      else Outcome(m1.(ssn := f.slave), acked, f.payload)
  }

  /** What the polling loop sends next. */
  function ToSend(m: Master): Option<seq<byte>> {
    if m.nextEmpty || m.queue == [] then None else Some(m.queue[0])
  }

  /** One pass of the polling loop. */
  function Polled(m: Master, heard: Option<Frame>): Outcome {
    var o := Transceived(m.(nextEmpty := false), ToSend(m), heard);
    if o.acked then o.(master := o.master.(queue := o.master.queue[1..])) else o
  }

  /** An offer of slave discovery, which holds its request in a local variable, is a pass of the polling loop with
      that request alone in the queue. */
  lemma OfferIsPoll(m: Master, request: Packet, heard: Option<Frame>)
    requires !m.nextEmpty && m.queue == []
    ensures var o := Transceived(m, Some(request), heard);
            Polled(m.(queue := [request]), heard)
            == o.(master := o.master.(queue := if o.acked then [] else [request]))
  {
    var q := m.(queue := [request]);
    assert Transceived(q, Some(request), heard).master.queue == [request];
  }

  function Sent(m: Master, send: Option<seq<byte>>): Frame {
    Frame(m.msn, m.ssn, if send.Some? then send.value else [])
  }

  // ----- the slave, as assumed

  /** `echo` is the master number of the last frame accepted, `taken` the requests in those frames, `number` and
      `answer` the response on offer (empty if there is none), `settled` whether that number was echoed,
      `answered` the earlier responses. */
  datatype Slave = Slave(echo: byte, taken: seq<seq<byte>>,
                         number: byte, answer: seq<byte>, settled: bool, answered: seq<seq<byte>>)

  const SLAVE_POWER_ON := Slave(0, [], 0, [], true, [])

  function NextSlave(number: byte): byte {
    (number + 8) & SLAVE_MASK
  }

  function Offered(s: Slave): Frame {
    Frame(s.echo, s.number, s.answer)
  }

  function Some1(p: seq<byte>): seq<seq<byte>> {
    if p == [] then [] else [p]
  }

  /** An intact frame from the master: ignored if its number repeats, taken otherwise; an echo of the slave's
      number settles the response on offer. */
  function Heard(s: Slave, f: Frame): Slave {
    s.(echo := f.master,
       taken := if f.master == s.echo then s.taken else s.taken + Some1(f.payload),
       settled := s.settled || f.slave == s.number)
  }

  /** The slave puts a new response (or an empty frame) on offer, which it does only once the last is settled. */
  function Answered(s: Slave, answer: seq<byte>): Slave {
    if !s.settled then s
    else s.(number := NextSlave(s.number), answer := answer, settled := false,
            answered := s.answered + Some1(s.answer))
  }

  // ----- runs

  /** `Transfer` is one pass of the polling loop, `Probe` a transfer of slave discovery, which sends an empty frame
      without looking at `nextEmpty`; the flags say which half of the exchange arrives intact. */
  datatype Event =
    | Push(request: Packet)
    | Transfer(toSlave: bool, toMaster: bool)
    | Probe(toSlave: bool, toMaster: bool)
    | Answer(response: seq<byte>)
    | Reset

  /** A link with its history since the last reset: requests pushed and popped, responses dispatched. */
  datatype Link = Link(master: Master, slave: Slave,
                       pushed: seq<seq<byte>>, popped: seq<seq<byte>>, dispatched: seq<seq<byte>>)

  const START := Link(POWER_ON, SLAVE_POWER_ON, [], [], [])

  function Exchanged(l: Link, sent: Frame, o: Outcome, toSlave: bool): Link {
    Link(o.master, if toSlave then Heard(l.slave, sent) else l.slave, l.pushed,
         if o.acked && l.master.queue != [] then l.popped + [l.master.queue[0]] else l.popped,
         l.dispatched + Some1(o.received))
  }

  function Step(l: Link, e: Event): Link {
    match e
    case Push(p) =>
      l.(master := l.master.(queue := l.master.queue + [p]), pushed := l.pushed + [p])
    case Transfer(toSlave, toMaster) =>
      var heard := if toMaster then Some(Offered(l.slave)) else None;
      Exchanged(l, Sent(l.master, ToSend(l.master)), Polled(l.master, heard), toSlave)
    case Probe(toSlave, toMaster) =>
      var heard := if toMaster then Some(Offered(l.slave)) else None;
      if l.master.queue != [] then l
      else Exchanged(l, Sent(l.master, None), Transceived(l.master, None, heard), toSlave)
    case Answer(p) => l.(slave := Answered(l.slave, p))
    case Reset => START
  }

  function Run(events: seq<Event>): Link {
    if events == [] then START else Step(Run(events[..|events| - 1]), events[|events| - 1])
  }

  // ----- what every step keeps

  /** The slave has taken exactly the popped requests, or one more: the queue head, in which case its echo is the
      master's number; when it has not, its echo is another number unless the next frame is known to be empty. */
  ghost predicate RequestsInStep(l: Link) {
    && |l.popped| + |l.master.queue| == |l.pushed|
    && l.popped + l.master.queue == l.pushed
    && if l.slave.taken == l.popped then l.master.nextEmpty || l.slave.echo != l.master.msn
       else && l.master.queue != [] && l.slave.taken == l.popped + [l.master.queue[0]]
            && l.slave.echo == l.master.msn && !l.master.nextEmpty
  }

  /** The master has dispatched exactly the earlier responses, plus the one on offer once it knows its number. */
  ghost predicate ResponsesInStep(l: Link) {
    && (l.slave.settled ==> l.master.ssn == l.slave.number)
    && l.dispatched == l.slave.answered + (if l.master.ssn == l.slave.number then Some1(l.slave.answer) else [])
  }

  lemma NextDiffers(b: byte)
    ensures NextMaster(b) != b && NextSlave(b) != b
  {
  }

  /** What a transfer without data does to the master's number: it moves past the echo, or the next frame is
      empty again. */
  lemma EmptyTransfer(m: Master, heard: Option<Frame>)
    ensures var o := Transceived(m, None, heard);
            && !o.acked && o.master.queue == m.queue
            && (o.master.nextEmpty || (heard.Some? && o.master.msn != m.msn && o.master.msn != heard.value.master))
  {
    NextDiffers(m.msn);
  }

  /** What a transfer of data does: only an echo of the current number counts, and then the number changes. */
  lemma DataTransfer(m: Master, send: seq<byte>, heard: Option<Frame>)
    ensures var o := Transceived(m, Some(send), heard);
            && o.acked == (heard.Some? && heard.value.master == m.msn)
            && o.master.queue == m.queue && o.master.nextEmpty == m.nextEmpty
            && (o.master.msn == m.msn) == !o.acked
  {
    NextDiffers(m.msn);
  }

  lemma SendsKeep(l: Link, toSlave: bool, toMaster: bool)
    requires RequestsInStep(l) && ToSend(l.master).Some?
    ensures RequestsInStep(Step(l, Transfer(toSlave, toMaster)))
  {
    var heard := if toMaster then Some(Offered(l.slave)) else None;
    DataTransfer(l.master.(nextEmpty := false), l.master.queue[0], heard);
    assert l.popped + [l.master.queue[0]] + l.master.queue[1..] == l.pushed;
    assert l.popped + [l.master.queue[0]] != l.popped;
  }

  lemma EmptiesKeep(l: Link, m: Master, o: Outcome, toSlave: bool, heard: Option<Frame>)
    requires RequestsInStep(l) && (l.master.nextEmpty || l.master.queue == [])
    requires m == l.master || m == l.master.(nextEmpty := false)
    requires heard == None || heard == Some(Offered(l.slave))
    requires o == Transceived(m, None, heard)
    ensures RequestsInStep(Exchanged(l, Sent(l.master, None), o, toSlave))
  {
    EmptyTransfer(m, heard);
  }

  lemma PushKeeps(l: Link, p: Packet)
    requires RequestsInStep(l)
    ensures RequestsInStep(Step(l, Push(p)))
  {
    assert l.popped + (l.master.queue + [p]) == l.pushed + [p];
  }

  lemma StepKeepsRequests(l: Link, e: Event)
    requires RequestsInStep(l)
    ensures RequestsInStep(Step(l, e))
  {
    match e
    case Push(p) => PushKeeps(l, p);
    case Transfer(toSlave, toMaster) =>
      var heard := if toMaster then Some(Offered(l.slave)) else None;
      if ToSend(l.master).Some? {
        SendsKeep(l, toSlave, toMaster);
      } else {
        EmptiesKeep(l, l.master.(nextEmpty := false), Polled(l.master, heard), toSlave, heard);
      }
    case Probe(toSlave, toMaster) =>
      var heard := if toMaster then Some(Offered(l.slave)) else None;
      if l.master.queue == [] {
        EmptiesKeep(l, l.master, Transceived(l.master, None, heard), toSlave, heard);
      }
    case _ =>
  }

  lemma AnyTransfer(m: Master, send: Option<seq<byte>>, heard: Option<Frame>)
    ensures var o := Transceived(m, send, heard);
            && o.master.ssn == (if heard.Some? then heard.value.slave else m.ssn)
            && o.received == (if heard.Some? && heard.value.slave != m.ssn then heard.value.payload else [])
  {
  }

  lemma ExchangeKeepsResponses(l: Link, sent: Frame, o: Outcome, toSlave: bool, toMaster: bool)
    requires ResponsesInStep(l) && sent.slave == l.master.ssn
    requires o.master.ssn == (if toMaster then l.slave.number else l.master.ssn)
    requires o.received == (if toMaster && l.slave.number != l.master.ssn then l.slave.answer else [])
    ensures ResponsesInStep(Exchanged(l, sent, o, toSlave))
  {
  }

  lemma StepKeepsResponses(l: Link, e: Event)
    requires ResponsesInStep(l)
    ensures ResponsesInStep(Step(l, e))
  {
    match e
    case Transfer(toSlave, toMaster) =>
      var heard := if toMaster then Some(Offered(l.slave)) else None;
      AnyTransfer(l.master.(nextEmpty := false), ToSend(l.master), heard);
      ExchangeKeepsResponses(l, Sent(l.master, ToSend(l.master)), Polled(l.master, heard), toSlave, toMaster);
    case Probe(toSlave, toMaster) =>
      var heard := if toMaster then Some(Offered(l.slave)) else None;
      AnyTransfer(l.master, None, heard);
      ExchangeKeepsResponses(l, Sent(l.master, None), Transceived(l.master, None, heard), toSlave, toMaster);
    case Answer(p) => NextDiffers(l.slave.number);
    case _ =>
  }

  lemma {:induction false} RunKeeps(events: seq<Event>)
    ensures RequestsInStep(Run(events)) && ResponsesInStep(Run(events))
  {
    if events != [] {
      var l := Run(events[..|events| - 1]);
      RunKeeps(events[..|events| - 1]);
      StepKeepsRequests(l, events[|events| - 1]);
      StepKeepsResponses(l, events[|events| - 1]);
    }
  }

  // ----- what holds over whole runs

  /** In every run the slave has taken, once each and in the order they were pushed, exactly the popped requests
      and at most the one that is next. */
  lemma RequestsExactlyOnce(events: seq<Event>)
    ensures var l := Run(events);
            l.popped <= l.slave.taken <= l.pushed && |l.slave.taken| <= |l.popped| + 1
  {
    RunKeeps(events);
    OneMore(Run(events));
  }

  lemma OneMore(l: Link)
    requires RequestsInStep(l)
    ensures l.popped <= l.slave.taken <= l.pushed && |l.slave.taken| <= |l.popped| + 1
  {
    if l.slave.taken == l.popped {
      assert l.pushed[..|l.popped|] == l.popped;
    } else {
      assert l.pushed[..|l.popped| + 1] == l.slave.taken;
    }
  }

  /** No request is popped on the strength of an echo that another frame caused: when a transfer pops one, the
      slave had taken it before. */
  lemma PopsOnlyTaken(events: seq<Event>, e: Event)
    ensures var l := Run(events);
            var popped := Step(l, e).popped;
            e == Reset || popped == l.popped
            || (l.master.queue != [] && popped == l.popped + [l.master.queue[0]] == l.slave.taken)
  {
    var l := Run(events);
    RunKeeps(events);
    if e.Transfer? {
      var heard := if e.toMaster then Some(Offered(l.slave)) else None;
      if ToSend(l.master).Some? {
        DataTransfer(l.master.(nextEmpty := false), l.master.queue[0], heard);
      } else {
        EmptyTransfer(l.master.(nextEmpty := false), heard);
      }
    } else if e.Probe? {
      EmptyTransfer(l.master, if e.toMaster then Some(Offered(l.slave)) else None);
    }
  }

  /** In every run the responses dispatched are, once each and in order, those the slave is done with, and at
      most the one on offer. */
  lemma ResponsesExactlyOnce(events: seq<Event>)
    ensures var l := Run(events);
            l.slave.answered <= l.dispatched <= l.slave.answered + Some1(l.slave.answer)
  {
    RunKeeps(events);
  }

  // ----- the numbers

  /** The master counts from 0 to 7, the slave does so in the bits above. */
  lemma NumbersCycle(msn: byte, number: byte)
    requires msn <= 7 && number & 0x38 == number
    ensures NextMaster(msn) == if msn == 7 then 0 else msn + 1
    ensures NextSlave(number) == if number == 0x38 then 0 else number + 8
  {
  }

  // ----- progress

  /** An upper bound on the undisturbed transfers until the head of the queue is popped. */
  function Distance(l: Link): nat {
    if l.slave.taken != l.popped then 1
    else if !l.master.nextEmpty then 2
    else if l.slave.echo == l.master.msn || NextMaster(l.master.msn) != l.slave.echo then 3
    else 4
  }

  function Undisturbed(l: Link, n: nat): Link
    decreases n
  {
    if n == 0 then l else Undisturbed(Step(l, Transfer(true, true)), n - 1)
  }

  lemma DataComesCloser(l: Link)
    requires RequestsInStep(l) && ToSend(l.master).Some?
    ensures var l' := Step(l, Transfer(true, true));
            if Distance(l) == 1 then l'.popped == l.popped + [l.master.queue[0]]
            else l'.popped == l.popped && l'.master.queue == l.master.queue && Distance(l') < Distance(l)
  {
    DataTransfer(l.master.(nextEmpty := false), l.master.queue[0], Some(Offered(l.slave)));
  }

  lemma EmptyComesCloser(l: Link)
    requires RequestsInStep(l) && l.master.nextEmpty
    ensures var l' := Step(l, Transfer(true, true));
            l'.popped == l.popped && l'.master.queue == l.master.queue && Distance(l') < Distance(l)
  {
    EmptyTransfer(l.master.(nextEmpty := false), Some(Offered(l.slave)));
  }

  lemma {:induction false} PopsWithin(l: Link) returns (n: nat)
    requires RequestsInStep(l) && l.master.queue != []
    ensures n <= Distance(l)
    ensures Undisturbed(l, n).popped == l.popped + [l.master.queue[0]]
    decreases Distance(l)
  {
    var l' := Step(l, Transfer(true, true));
    StepKeepsRequests(l, Transfer(true, true));
    if l.master.nextEmpty {
      EmptyComesCloser(l);
    } else {
      DataComesCloser(l);
    }
    if Distance(l) == 1 {
      n := 1;
      assert Undisturbed(l', 0) == l';
    } else {
      n := PopsWithin(l');
      n := n + 1;
    }
  }

  /** An undisturbed transfer tells the master the slave's number, and with it the response on offer, if that is new. */
  lemma ResponseComesIn(l: Link)
    ensures var l' := Step(l, Transfer(true, true));
            && l'.master.ssn == l.slave.number && l'.slave.number == l.slave.number
            && l'.dispatched == (if l.slave.number == l.master.ssn then l.dispatched
                                 else l.dispatched + Some1(l.slave.answer))
            && (l.master.ssn == l.slave.number ==> l'.slave.settled)
  {
    AnyTransfer(l.master.(nextEmpty := false), ToSend(l.master), Some(Offered(l.slave)));
  }

  /** In every run, a response that the slave puts on offer once it is done with the last one is dispatched by the next
      undisturbed transfer, and the one after that makes the slave ready for another. */
  lemma ResponsesGetAcross(events: seq<Event>, response: seq<byte>)
    requires Run(events).slave.settled
    ensures var l := Run(events);
            var l1 := Step(Step(l, Answer(response)), Transfer(true, true));
            && l1.dispatched == l.dispatched + Some1(response)
            && l1.slave.answered == l.slave.answered + Some1(l.slave.answer) && l1.slave.answer == response
            && Step(l1, Transfer(true, true)).slave.settled
  {
    var l := Run(events);
    RunKeeps(events);
    var l0 := Step(l, Answer(response));
    NextDiffers(l.slave.number);
    ResponseComesIn(l0);
    ResponseComesIn(Step(l0, Transfer(true, true)));
  }

  /** From every reachable state two undisturbed transfers make the slave ready for another response. */
  lemma SlaveGetsReady(events: seq<Event>)
    ensures Undisturbed(Run(events), 2).slave.settled
  {
    var l := Run(events);
    ResponseComesIn(l);
    var l1 := Step(l, Transfer(true, true));
    ResponseComesIn(l1);
    assert Undisturbed(l, 2) == Undisturbed(l1, 1) == Undisturbed(Step(l1, Transfer(true, true)), 0);
  }

  /** From every reachable state four undisturbed transfers are enough to get the next request across. */
  lemma NeverStuck(events: seq<Event>)
    requires Run(events).master.queue != []
    ensures var l := Run(events);
            exists n: nat :: n <= 4 && Undisturbed(l, n).popped == l.popped + [l.master.queue[0]]
  {
    RunKeeps(events);
    var n := PopsWithin(Run(events));
  }
}
