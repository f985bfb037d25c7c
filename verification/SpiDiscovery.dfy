/** Slave discovery as a stretch of a run of the SPI link, and the answer that comes one probe too late. */
module SpiDiscovery {
  import opened Bytes
  import opened Wrappers
  import opened SpiFrame
  import opened SpiLink
  import opened RedStack

  // ----- every frame of a run survives the wire

  /** The numbers of both sides have three bits each, in their places. */
  ghost predicate Numbered(l: Link) {
    Sequenced(l.master.msn, l.master.ssn) && Sequenced(l.slave.echo, l.slave.number)
  }

  lemma NextMasterStays(msn: byte)
    requires msn & MASTER_MASK == msn
    ensures NextMaster(msn) & MASTER_MASK == NextMaster(msn)
  {
  }

  lemma NextSlaveStays(number: byte)
    ensures NextSlave(number) & SLAVE_MASK == NextSlave(number)
  {
  }

  lemma TransferNumbers(m: Master, send: Option<seq<byte>>, heard: Option<Frame>)
    requires Sequenced(m.msn, m.ssn) && (heard.Some? ==> Sequenced(heard.value.master, heard.value.slave))
    ensures var m' := Transceived(m, send, heard).master; Sequenced(m'.msn, m'.ssn)
  {
    NextMasterStays(m.msn);
    var m' := Transceived(m, send, heard).master;
    assert m'.msn == m.msn || m'.msn == NextMaster(m.msn);
    assert m'.ssn == m.ssn || (heard.Some? && m'.ssn == heard.value.slave);
  }

  /** The numbers after an exchange are the master's, and those of the slave before it or of the frame it heard. */
  lemma ExchangeNumbers(l: Link, sent: Frame, o: Outcome, toSlave: bool)
    requires Numbered(l) && sent.master == l.master.msn && Sequenced(o.master.msn, o.master.ssn)
    ensures Numbered(Exchanged(l, sent, o, toSlave))
  {
  }

  lemma AnswerNumbers(l: Link, answer: seq<byte>)
    requires Numbered(l)
    ensures Numbered(l.(slave := SpiLink.Answered(l.slave, answer)))
  {
    NextSlaveStays(l.slave.number);
  }

  lemma StartNumbers()
    ensures Numbered(START)
  {
  }

  lemma StepNumbers(l: Link, e: Event)
    requires Numbered(l)
    ensures Numbered(Step(l, e))
  {
    match e
    case Push(_) =>
    case Transfer(toSlave, toMaster) =>
      var heard := if toMaster then Some(Offered(l.slave)) else None;
      TransferNumbers(l.master.(nextEmpty := false), ToSend(l.master), heard);
      ExchangeNumbers(l, Sent(l.master, ToSend(l.master)), Polled(l.master, heard), toSlave);
    case Probe(toSlave, toMaster) =>
      var heard := if toMaster then Some(Offered(l.slave)) else None;
      TransferNumbers(l.master, None, heard);
      ExchangeNumbers(l, Sent(l.master, None), Transceived(l.master, None, heard), toSlave);
    case Answer(answer) => AnswerNumbers(l, answer);
    case Reset => StartNumbers();
  }

  lemma {:induction false} RunNumbers(events: seq<Event>)
    ensures Numbered(Run(events))
  {
    if events != [] {
      RunNumbers(events[..|events| - 1]);
      StepNumbers(Run(events[..|events| - 1]), events[|events| - 1]);
    }
  }

  /** In every run the next frame of the master is read back from its bytes as it was, and so is a frame of the slave
      with a response that is a packet. */
  lemma FramesSurviveWire(events: seq<Event>)
    ensures var l := Run(events);
            && Parsed(Wire(Sent(l.master, ToSend(l.master)))) == Some(Sent(l.master, ToSend(l.master)))
            && (LegalLength(|l.slave.answer| + EMPTY_SIZE) ==> Parsed(Wire(Offered(l.slave))) == Some(Offered(l.slave)))
  {
    var l := Run(events);
    RunNumbers(events);
    WireRoundTrip(Sent(l.master, ToSend(l.master)));
    if LegalLength(|l.slave.answer| + EMPTY_SIZE) {
      WireRoundTrip(Offered(l.slave));
    }
  }

  // ----- discovery as part of a run

  /** One exchange: what the slave puts on offer before it, if anything, and which halves arrive. */
  datatype Turn = Turn(answer: Option<seq<byte>>, toSlave: bool, toMaster: bool)

  function Before(t: Turn): seq<Event> {
    if t.answer.Some? then [Answer(t.answer.value)] else []
  }

  function WithOffer(events: seq<Event>, t: Turn): seq<Event> {
    events + Before(t) + [Transfer(t.toSlave, t.toMaster)]
  }

  function WithProbe(events: seq<Event>, t: Turn): seq<Event> {
    events + Before(t) + [Probe(t.toSlave, t.toMaster)]
  }

  /** `k` offers of the request. */
  function Offers(request: Packet, turns: nat -> Turn, k: nat): seq<Event> {
    if k == 0 then [Push(request)]
    else WithOffer(Offers(request, turns, k - 1), turns(k - 1))
  }

  /** `k` probes after `events`. */
  function Probes(events: seq<Event>, turns: nat -> Turn, k: nat): seq<Event> {
    if k == 0 then events
    else WithProbe(Probes(events, turns, k - 1), turns(k - 1))
  }

  function Later(turns: nat -> Turn, n: nat): nat -> Turn {
    (t: nat) => turns(n + t)
  }

  /** What the master hears in a turn after `events`. */
  function HeardIn(events: seq<Event>, t: Turn): Option<Frame> {
    if t.toMaster then Some(Offered(Run(events + Before(t)).slave)) else None
  }

  lemma RunNext(events: seq<Event>, e: Event)
    ensures Run(events + [e]) == Step(Run(events), e)
  {
    assert (events + [e])[..|events|] == events;
  }

  /** Before an exchange nothing changes for the master. */
  lemma BeforeKeeps(events: seq<Event>, t: Turn)
    ensures Run(events + Before(t)).master == Run(events).master
    ensures Run(events + Before(t)).pushed == Run(events).pushed
  {
    if t.answer.Some? {
      RunNext(events, Answer(t.answer.value));
    } else {
      assert events + Before(t) == events;
    }
  }

  /** The offers, the probes are heard as in a run. */
  predicate OffersHeard(request: Packet, turns: nat -> Turn, heard: nat -> Option<Frame>, k: nat) {
    k == 0 || (&& OffersHeard(request, turns, heard, k - 1)
               && heard(k - 1) == HeardIn(Offers(request, turns, k - 1), turns(k - 1)))
  }

  predicate ProbesHeard(events: seq<Event>, turns: nat -> Turn, heard: nat -> Option<Frame>, k: nat) {
    k == 0 || (&& ProbesHeard(events, turns, heard, k - 1)
               && heard(k - 1) == HeardIn(Probes(events, turns, k - 1), turns(k - 1)))
  }

  /** The outcome of offers so far, and the master of the run: it keeps the request in its queue until it is taken. */
  ghost predicate Offering(o: Outcome, l: Link, request: Packet) {
    && !o.master.nextEmpty && o.master.queue == []
    && l.master == o.master.(queue := if o.acked then [] else [request]) && l.pushed == [request]
  }

  lemma OfferStep(o: Outcome, events: seq<Event>, t: Turn, request: Packet)
    requires Offering(o, Run(events), request) && !o.acked
    ensures Offering(Transceived(o.master, Some(request), HeardIn(events, t)),
                     Run(WithOffer(events, t)), request)
  {
    BeforeKeeps(events, t);
    RunNext(events + Before(t), Transfer(t.toSlave, t.toMaster));
    OfferIsPoll(o.master, request, HeardIn(events, t));
    assert o.master.(queue := []) == o.master;
  }

  lemma {:induction false} OffersAreRun(request: Packet, turns: nat -> Turn, heard: nat -> Option<Frame>, k: nat)
    requires OffersHeard(request, turns, heard, k)
    requires forall j: nat :: j < k ==> !Repeated(Outcome(POWER_ON, false, []), Some(request), heard, j).acked
    ensures Offering(Repeated(Outcome(POWER_ON, false, []), Some(request), heard, k),
                     Run(Offers(request, turns, k)), request)
  {
    if k == 0 {
      RunNext([], Push(request));
      assert [] + [Push(request)] == [Push(request)];
      assert POWER_ON.queue + [request] == [request];
    } else {
      OffersAreRun(request, turns, heard, k - 1);
      OfferStep(Repeated(Outcome(POWER_ON, false, []), Some(request), heard, k - 1), Offers(request, turns, k - 1),
                turns(k - 1), request);
    }
  }

  lemma ProbeStep(events: seq<Event>, t: Turn)
    requires Run(events).master.queue == []
    ensures var l := Run(WithProbe(events, t));
            && l.master == Transceived(Run(events).master, None, HeardIn(events, t)).master
            && l.master.queue == [] && l.pushed == Run(events).pushed
  {
    BeforeKeeps(events, t);
    RunNext(events + Before(t), Probe(t.toSlave, t.toMaster));
  }

  lemma {:induction false} ProbesAreRun(o: Outcome, events: seq<Event>, turns: nat -> Turn,
                                        heard: nat -> Option<Frame>, k: nat)
    requires Run(events).master == o.master && o.master.queue == []
    requires ProbesHeard(events, turns, heard, k)
    ensures var l := Run(Probes(events, turns, k));
            l.master == Repeated(o, None, heard, k).master && l.master.queue == [] && l.pushed == Run(events).pushed
  {
    if k > 0 {
      ProbesAreRun(o, events, turns, heard, k - 1);
      ProbeStep(Probes(events, turns, k - 1), turns(k - 1));
    }
  }

  /** The exchanges of a discovery are those of a run of the link. */
  ghost predicate OnLink(request: Packet, bus: nat -> Exchange, turns: nat -> Turn, offers: nat, probes: nat) {
    && OffersHeard(request, turns, HeardOn(bus), offers)
    && ProbesHeard(Offers(request, turns, offers), Later(turns, offers), HeardOn(From(bus, offers)), probes)
  }

  /** A slave that is found has taken the request exactly once, and its link is in a state of a run, so that everything
      that holds over runs goes on to hold when polling starts. */
  lemma DiscoveryIsRun(e: Entry, request: Packet, bus: nat -> Exchange, e': Entry, offers: nat, probes: nat,
                       turns: nat -> Turn)
    requires e.link == POWER_ON && Discovered(e, request, bus, e', offers, probes)
    requires OnLink(request, bus, turns, offers, probes)
    ensures var l := Run(Probes(Offers(request, turns, offers), Later(turns, offers), probes));
            e'.available ==> l.master == e'.link && l.pushed == l.popped == l.slave.taken == [request]
  {
    var events := Offers(request, turns, offers);
    var o := Repeated(Outcome(POWER_ON, false, []), Some(request), HeardOn(bus), offers);
    OffersAreRun(request, turns, HeardOn(bus), offers);
    if e'.available {
      ProbesAreRun(o, events, Later(turns, offers), HeardOn(From(bus, offers)), probes);
      AllTaken(Probes(events, Later(turns, offers), probes));
    }
  }

  lemma AllTaken(events: seq<Event>)
    requires Run(events).master.queue == []
    ensures var l := Run(events); l.popped == l.pushed == l.slave.taken
  {
    RunKeeps(events);
    assert Run(events).popped + [] == Run(events).popped;
  }

  // ----- when a slave is found

  /** The request is acknowledged for the first time by offer `n`, of at most ten. */
  ghost predicate AckedBy(m: Master, request: Packet, heard: nat -> Option<Frame>, n: nat) {
    && 1 <= n <= 10 && Repeated(Outcome(m, false, []), Some(request), heard, n).acked
    && forall j: nat :: j < n ==> !Repeated(Outcome(m, false, []), Some(request), heard, j).acked
  }

  /** An answer comes in with that offer or with one of the first nine probes, and for the first time with probe `p`. */
  ghost predicate AnsweredBy(o: Outcome, heard: nat -> Option<Frame>, p: nat) {
    p <= 9 && Repeated(o, None, heard, p).received != [] && forall j: nat :: j < p ==>
      Repeated(o, None, heard, j).received == []
  }

  lemma FirstProbe(o: Outcome, heard: nat -> Option<Frame>, n: nat)
    requires ProbesEnd(o, heard, n)
    ensures n < 10 <==> exists p: nat :: AnsweredBy(o, heard, p)
    ensures forall p: nat :: AnsweredBy(o, heard, p) ==> n == p
  {
    if n < 10 {
      assert AnsweredBy(o, heard, n);
    }
    forall p: nat | AnsweredBy(o, heard, p)
      ensures n == p
    {
      assert Repeated(o, None, heard, p).received != [];
    }
  }

  /** A slave is found if and only if the request is acknowledged by one of ten offers and an answer comes in with that
      offer or with one of the first nine probes. Nothing is offered or probed after that. */
  lemma FoundExactly(e: Entry, request: Packet, bus: nat -> Exchange, e': Entry, offers: nat, probes: nat)
    requires Discovered(e, request, bus, e', offers, probes)
    ensures e'.available <==>
              && AckedBy(e.link, request, HeardOn(bus), offers)
              && exists p: nat :: AnsweredBy(Repeated(Outcome(e.link, false, []), Some(request), HeardOn(bus), offers),
                                             HeardOn(From(bus, offers)), p)
    ensures e'.available ==>
              AnsweredBy(Repeated(Outcome(e.link, false, []), Some(request), HeardOn(bus), offers),
                         HeardOn(From(bus, offers)), probes)
    ensures (exists n: nat :: AckedBy(e.link, request, HeardOn(bus), n)) ==>
              AckedBy(e.link, request, HeardOn(bus), offers)
    ensures (forall n: nat :: !AckedBy(e.link, request, HeardOn(bus), n)) ==> offers == 10
  {
    var o0 := Outcome(e.link, false, []);
    var o := Repeated(o0, Some(request), HeardOn(bus), offers);
    if n: nat :| AckedBy(e.link, request, HeardOn(bus), n) {
      assert Repeated(o0, Some(request), HeardOn(bus), n).acked;
      assert n == offers;
    }
    if o.acked {
      assert AckedBy(e.link, request, HeardOn(bus), offers);
      FirstProbe(o, HeardOn(From(bus, offers)), probes);
    }
  }

  // ----- an answer to the tenth probe

  /** A frame that comes in whole, and an exchange that brings nothing. */
  function Arrives(f: Frame): Exchange
    requires |f.payload| <= MAX_PAYLOAD
  {
    Raw(PACKET_SIZE, Wire(f))
  }

  const NOTHING: Exchange := Raw(-1, Zeros(PACKET_SIZE))

  /** The slave takes the request with the first offer and acknowledges it with the second; its answer comes with the
      tenth probe. */
  function LateAt(answer: Packet, t: nat): Exchange {
    if t == 0 then Arrives(Frame(0, 0, []))
    else if t == 1 then Arrives(Frame(1, 0, []))
    else if t == 11 then Arrives(Frame(1, 8, answer))
    else NOTHING
  }

  function LateAnswer(answer: Packet): nat -> Exchange {
    (t: nat) => LateAt(answer, t)
  }

  lemma ArrivesWhole(f: Frame)
    requires WellFormed(f)
    ensures FrameIn(Arrives(f)) == Some(f)
  {
    WireRoundTrip(f);
  }

  lemma LateAnswerHeard(answer: Packet, t: nat)
    ensures HeardOn(LateAnswer(answer))(t) == if t == 0 then Some(Frame(0, 0, []))
                                              else if t == 1 then Some(Frame(1, 0, []))
                                              else if t == 11 then Some(Frame(1, 8, answer))
                                              else None
  {
    assert HeardOn(LateAnswer(answer))(t) == FrameIn(LateAt(answer, t));
    if t == 0 {
      ArrivesWhole(Frame(0, 0, []));
    } else if t == 1 {
      ArrivesWhole(Frame(1, 0, []));
    } else if t == 11 {
      assert WellFormed(Frame(1, 8, answer));
      ArrivesWhole(Frame(1, 8, answer));
    }
  }

  lemma LateAnswerProbed(answer: Packet, t: nat)
    ensures HeardOn(From(LateAnswer(answer), 2))(t) == if t == 9 then Some(Frame(1, 8, answer)) else None
  {
    LateAnswerHeard(answer, 2 + t);
    assert HeardOn(From(LateAnswer(answer), 2))(t) == HeardOn(LateAnswer(answer))(2 + t);
  }

  lemma {:induction false} NothingYet(o: Outcome, heard: nat -> Option<Frame>, k: nat)
    requires o.received == [] && forall t: nat :: t < k ==> heard(t) == None
    ensures Repeated(o, None, heard, k).received == [] && Repeated(o, None, heard, k).master.ssn == o.master.ssn
  {
    if k > 0 {
      NothingYet(o, heard, k - 1);
    }
  }

  lemma OldEcho(m: Master, request: Packet, f: Frame)
    requires f.master != m.msn && f.slave == m.ssn
    ensures Transceived(m, Some(request), Some(f)) == Outcome(m, false, [])
  {
  }

  lemma NewEcho(m: Master, request: Packet, f: Frame)
    requires f.master == m.msn && f.slave == m.ssn
    ensures var o := Transceived(m, Some(request), Some(f)); o.acked && o.received == [] && o.master.ssn == m.ssn
  {
  }

  lemma RepeatedNext(o: Outcome, send: Option<seq<byte>>, heard: nat -> Option<Frame>, k: nat)
    ensures Repeated(o, send, heard, k + 1) == Transceived(Repeated(o, send, heard, k).master, send, heard(k))
  {
  }

  /** An old echo and then the acknowledgement: two offers. */
  lemma TwoOffers(o: nat -> Outcome, n: nat)
    requires 0 < n <= ROUTING_TRIES && (n == ROUTING_TRIES || o(n).acked) && forall j: nat :: j < n ==> !o(j).acked
    requires !o(0).acked && !o(1).acked && o(2).acked
    ensures n == 2
  {
  }

  lemma LateOffers(request: Packet, heard: nat -> Option<Frame>, n: nat)
    requires OffersEnd(POWER_ON, request, heard, n)
    requires heard(0) == Some(Frame(0, 0, [])) && heard(1) == Some(Frame(1, 0, []))
    ensures n == 2
    ensures var o := Repeated(Outcome(POWER_ON, false, []), Some(request), heard, 2);
            o.acked && o.received == [] && o.master.ssn == 0
  {
    var o := (k: nat) => Repeated(Outcome(POWER_ON, false, []), Some(request), heard, k);
    assert o(0) == Outcome(POWER_ON, false, []);
    RepeatedNext(o(0), Some(request), heard, 0);
    OldEcho(POWER_ON, request, Frame(0, 0, []));
    RepeatedNext(o(0), Some(request), heard, 1);
    NewEcho(POWER_ON, request, Frame(1, 0, []));
    TwoOffers(o, n);
  }

  lemma TenProbes(o: Outcome, heard: nat -> Option<Frame>, n: nat, f: Frame)
    requires ProbesEnd(o, heard, n) && o.received == [] && f.slave != o.master.ssn
    requires heard(9) == Some(f) && forall t: nat :: t < 9 ==> heard(t) == None
    ensures n == 10 && Repeated(o, None, heard, 10).received == f.payload
  {
    forall k: nat | k < 10
      ensures Repeated(o, None, heard, k).received == [] && Repeated(o, None, heard, k).master.ssn == o.master.ssn
    {
      NothingYet(o, heard, k);
    }
    assert Repeated(o, None, heard, 10) == Transceived(Repeated(o, None, heard, 9).master, None, heard(9));
  }

  /** The tenth probe brings the answer, and the slave still counts as absent. */
  lemma TenthProbeIgnored(available: bool, request: Packet, answer: Packet, e': Entry, offers: nat, probes: nat)
    requires Discovered(Entry(available, POWER_ON), request, LateAnswer(answer), e', offers, probes)
    ensures offers == 2 && probes == 10 && !e'.available
    ensures var heard := HeardOn(LateAnswer(answer));
            var o := Repeated(Outcome(POWER_ON, false, []), Some(request), heard, 2);
            o.acked && Repeated(o, None, HeardOn(From(LateAnswer(answer), 2)), 10).received == answer
  {
    var bus := LateAnswer(answer);
    LateAnswerHeard(answer, 0);
    LateAnswerHeard(answer, 1);
    forall t: nat
      ensures HeardOn(From(bus, 2))(t) == if t == 9 then Some(Frame(1, 8, answer)) else None
    {
      LateAnswerProbed(answer, t);
    }
    LateOffers(request, HeardOn(bus), offers);
    var o := Repeated(Outcome(POWER_ON, false, []), Some(request), HeardOn(bus), 2);
    TenProbes(o, HeardOn(From(bus, 2)), probes, Frame(1, 8, answer));
  }

  // ----- and it happens on the link

  /** Both offers get through; of the probes only the answer to the tenth does. */
  function LateTurns(answer: Packet): nat -> Turn {
    (t: nat) => if t < 2 then Turn(None, true, true)
                else if t == 11 then Turn(Some(answer), false, true)
                else Turn(None, false, false)
  }

  /** The slave after `k` offers that got through. */
  function Asked(request: Packet, k: nat): Slave {
    if k == 0 then SLAVE_POWER_ON else Slave(1, [request], 0, [], true, [])
  }

  lemma QuietBefore(events: seq<Event>, t: Turn)
    requires t.answer.None?
    ensures Run(events + Before(t)) == Run(events)
  {
    assert events + Before(t) == events;
  }

  /** An offer as the slave sees it. */
  lemma OfferReaches(events: seq<Event>, request: Packet, k: nat)
    requires Run(events).master == POWER_ON.(queue := [request]) && Run(events).slave == Asked(request, k)
    ensures Run(WithOffer(events, Turn(None, true, true))).slave == Asked(request, k + 1)
  {
    QuietBefore(events, Turn(None, true, true));
    RunNext(events + Before(Turn(None, true, true)), Transfer(true, true));
    assert SLAVE_POWER_ON.taken + [request] == [request];
  }

  /** Before the second offer nothing has changed for the master. */
  lemma OfferUnheard(events: seq<Event>, request: Packet)
    requires Run(events).master == POWER_ON.(queue := [request]) && Run(events).slave == SLAVE_POWER_ON
    ensures Run(WithOffer(events, Turn(None, true, true))).master == Run(events).master
  {
    QuietBefore(events, Turn(None, true, true));
    RunNext(events + Before(Turn(None, true, true)), Transfer(true, true));
  }

  lemma NoOffers(request: Packet)
    ensures Run([Push(request)]).master == POWER_ON.(queue := [request]) && Run([Push(request)]).slave == SLAVE_POWER_ON
  {
    RunNext([], Push(request));
    assert [] + [Push(request)] == [Push(request)] && POWER_ON.queue + [request] == [request];
  }

  lemma FirstOffers(request: Packet, turns: nat -> Turn)
    requires turns(0) == turns(1) == Turn(None, true, true)
    ensures Run(Offers(request, turns, 0)).slave == Asked(request, 0)
    ensures Run(Offers(request, turns, 1)).slave == Asked(request, 1)
    ensures Run(Offers(request, turns, 2)).slave == Asked(request, 2)
  {
    NoOffers(request);
    OfferReaches([Push(request)], request, 0);
    OfferUnheard([Push(request)], request);
    OfferReaches(WithOffer([Push(request)], turns(0)), request, 1);
  }

  lemma SilentProbe(events: seq<Event>, t: Turn)
    requires t == Turn(None, false, false)
    ensures Run(WithProbe(events, t)).slave == Run(events).slave
  {
    QuietBefore(events, t);
    RunNext(events + Before(t), Probe(false, false));
  }

  lemma {:induction false} SilentProbes(events: seq<Event>, turns: nat -> Turn, k: nat)
    requires forall t: nat :: t < k ==> turns(t) == Turn(None, false, false)
    ensures Run(Probes(events, turns, k)).slave == Run(events).slave
  {
    if k > 0 {
      SilentProbes(events, turns, k - 1);
      SilentProbe(Probes(events, turns, k - 1), turns(k - 1));
    }
  }

  /** The slave of such a run puts its answer on offer. */
  lemma AnswerOffered(events: seq<Event>, request: Packet, answer: Packet)
    requires Run(events).slave == Asked(request, 2)
    ensures HeardIn(events, Turn(Some(answer), false, true)) == Some(Frame(1, 8, answer))
  {
    RunNext(events, Answer(answer));
  }

  lemma {:induction false} NothingHeard(events: seq<Event>, turns: nat -> Turn, heard: nat -> Option<Frame>, k: nat)
    requires forall t: nat :: t < k ==> turns(t) == Turn(None, false, false) && heard(t) == None
    ensures ProbesHeard(events, turns, heard, k)
  {
    if k > 0 {
      NothingHeard(events, turns, heard, k - 1);
    }
  }

  lemma LateOffersHeard(request: Packet, answer: Packet)
    ensures OffersHeard(request, LateTurns(answer), HeardOn(LateAnswer(answer)), 2)
  {
    var turns, heard := LateTurns(answer), HeardOn(LateAnswer(answer));
    LateAnswerHeard(answer, 0);
    LateAnswerHeard(answer, 1);
    FirstOffers(request, turns);
    QuietBefore(Offers(request, turns, 0), turns(0));
    QuietBefore(Offers(request, turns, 1), turns(1));
    assert OffersHeard(request, turns, heard, 0);
    assert OffersHeard(request, turns, heard, 1);
  }

  lemma LateProbesHeard(request: Packet, answer: Packet, events: seq<Event>, turns: nat -> Turn)
    requires Run(events).slave == Asked(request, 2) && turns == Later(LateTurns(answer), 2)
    ensures ProbesHeard(events, turns, HeardOn(From(LateAnswer(answer), 2)), 10)
  {
    var heard := HeardOn(From(LateAnswer(answer), 2));
    forall t: nat | t < 9
      ensures turns(t) == Turn(None, false, false) && heard(t) == None
    {
      LateAnswerProbed(answer, t);
    }
    NothingHeard(events, turns, heard, 9);
    SilentProbes(events, turns, 9);
    AnswerOffered(Probes(events, turns, 9), request, answer);
    LateAnswerProbed(answer, 9);
  }

  /** The exchanges of the late answer are those of a run with a slave that keeps to its rules. */
  lemma LateAnswerOnLink(request: Packet, answer: Packet)
    ensures OnLink(request, LateAnswer(answer), LateTurns(answer), 2, 10)
  {
    LateOffersHeard(request, answer);
    FirstOffers(request, LateTurns(answer));
    LateProbesHeard(request, answer, Offers(request, LateTurns(answer), 2), Later(LateTurns(answer), 2));
  }
}
