/** The SPI link on the buffers that are exchanged: each arrives intact, not at all, or with one byte changed. */
module SpiBytes {
  import opened Bytes
  import opened Wrappers
  import opened Pearson
  import opened SpiFrame
  import opened SpiLink
  import Discovery = SpiDiscovery
  import RedStack

  /** What happens to a buffer on its way. */
  datatype AnyFault = Intact | Lost | Changed(at: nat, to: byte)

  /** A change of the length byte is left out, because the checksum does not protect it. */
  type Fault = h: AnyFault | h.Changed? ==> h.at < PACKET_SIZE && h.at != 1 witness Intact

  function Delivered(tx: seq<byte>, h: Fault): Option<seq<byte>>
    requires |tx| == PACKET_SIZE
  {
    match h
    case Intact => Some(tx)
    case Lost => None
    case Changed(at, to) => Some(tx[at := to])
  }

  /** What the other side takes it for. */
  function FrameFrom(tx: seq<byte>, h: Fault): Option<Frame>
    requires |tx| == PACKET_SIZE
  {
    var rx := Delivered(tx, h);
    if rx.Some? then Parsed(rx.value) else None
  }

  /** What the other side hears of a frame. */
  function Arriving(f: Frame, h: Fault): Option<Frame> {
    if |f.payload| > MAX_PAYLOAD then None else FrameFrom(Wire(f), h)
  }

  /** The buffer arrives, and nothing that belongs to the frame is changed. */
  predicate Survives(f: Frame, h: Fault)
    requires |f.payload| <= MAX_PAYLOAD
  {
    h.Intact? || (h.Changed? && (h.at >= |f.payload| + EMPTY_SIZE || h.to == Wire(f)[h.at]))
  }

  lemma LengthByte(f: Frame)
    requires |f.payload| <= MAX_PAYLOAD
    ensures Value(Wire(f)[1]) == |f.payload| + EMPTY_SIZE
  {
    ToByteValue(|f.payload| + EMPTY_SIZE);
  }

  /** A frame is taken for what it is, or for nothing. */
  lemma FrameOrNothing(f: Frame, h: Fault)
    requires WellFormed(f)
    ensures Arriving(f, h) == if Survives(f, h) then Some(f) else None
  {
    var tx := Wire(f);
    WireRoundTrip(f);
    if h.Changed? {
      if h.to == tx[h.at] {
        assert tx[h.at := h.to] == tx;
      } else {
        LengthByte(f);
        assert DifferOnlyAt(tx, tx[h.at := h.to], h.at);
        SingleByteCorruption(tx, tx[h.at := h.to], h.at);
      }
    }
  }

  // ----- runs over buffers

  /** A response that fits into a frame, or an empty one. */
  type Reply = p: seq<byte> | LegalLength(|p| + EMPTY_SIZE) witness []

  datatype ByteEvent =
    | Pushed(request: Packet)
    | Transferred(toSlave: Fault, toMaster: Fault)
    | Probed(toSlave: Fault, toMaster: Fault)
    | Replied(reply: Reply)
    | WasReset

  /** A way in which frames are heard by the other side. */
  type Hearing = (Frame, Fault) -> Option<Frame>

  /** What the slave makes of the master's frame, and the master of the slave's, which is in `o` already. */
  function Exchange(l: Link, sent: Frame, o: Outcome, toSlave: Fault, hear: Hearing): Link {
    var f := hear(sent, toSlave);
    Exchanged(l, sent, o, false).(slave := if f.Some? then Heard(l.slave, f.value) else l.slave)
  }

  function StepWith(l: Link, e: ByteEvent, hear: Hearing): Link {
    match e
    case Pushed(p) => Step(l, Push(p))
    case Transferred(toSlave, toMaster) =>
      Exchange(l, Sent(l.master, ToSend(l.master)), Polled(l.master, hear(Offered(l.slave), toMaster)), toSlave, hear)
    case Probed(toSlave, toMaster) =>
      if l.master.queue != [] then l
      else Exchange(l, Sent(l.master, None), Transceived(l.master, None, hear(Offered(l.slave), toMaster)),
                    toSlave, hear)
    case Replied(p) => Step(l, Answer(p))
    case WasReset => START
  }

  function ByteRun(events: seq<ByteEvent>): Link {
    if events == [] then START else StepWith(ByteRun(events[..|events| - 1]), events[|events| - 1], Arriving)
  }

  // ----- they are runs over frames

  /** A frame is heard as it is, or not at all. */
  ghost predicate Honest(hear: Hearing) {
    forall f, h :: WellFormed(f) ==> hear(f, h) == None || hear(f, h) == Some(f)
  }

  lemma ArrivingIsHonest()
    ensures Honest(Arriving)
  {
    forall f, h | WellFormed(f)
      ensures Arriving(f, h) == None || Arriving(f, h) == Some(f)
    {
      FrameOrNothing(f, h);
    }
  }

  /** The frames of both sides are well-formed. */
  ghost predicate Sound(l: Link) {
    Discovery.Numbered(l) && LegalLength(|l.slave.answer| + EMPTY_SIZE)
  }

  lemma SoundFrames(l: Link)
    requires Sound(l)
    ensures WellFormed(Sent(l.master, ToSend(l.master))) && WellFormed(Sent(l.master, None))
    ensures WellFormed(Offered(l.slave))
  {
  }

  /** A step on buffers is a step on frames. */
  lemma StepWithIsStep(l: Link, e: ByteEvent, hear: Hearing) returns (e': Event)
    requires Sound(l) && Honest(hear)
    ensures StepWith(l, e, hear) == Step(l, e')
  {
    SoundFrames(l);
    match e
    case Pushed(p) => e' := Push(p);
    case Transferred(toSlave, toMaster) =>
      e' := Transfer(hear(Sent(l.master, ToSend(l.master)), toSlave).Some?, hear(Offered(l.slave), toMaster).Some?);
    case Probed(toSlave, toMaster) =>
      e' := Probe(hear(Sent(l.master, None), toSlave).Some?, hear(Offered(l.slave), toMaster).Some?);
    case Replied(p) => e' := Answer(p);
    case WasReset => e' := Reset;
  }

  lemma AnswersFit(l: Link, e: ByteEvent, hear: Hearing)
    requires LegalLength(|l.slave.answer| + EMPTY_SIZE)
    ensures LegalLength(|StepWith(l, e, hear).slave.answer| + EMPTY_SIZE)
  {
  }

  /** A run over buffers, whatever happens to them, is a run of the link. */
  lemma {:induction false} ByteRunIsRun(events: seq<ByteEvent>) returns (es: seq<Event>)
    ensures |es| == |events| && Run(es) == ByteRun(events) && Sound(ByteRun(events))
  {
    if events == [] {
      es := [];
    } else {
      var n := |events| - 1;
      var l := ByteRun(events[..n]);
      es := ByteRunIsRun(events[..n]);
      ArrivingIsHonest();
      var e := StepWithIsStep(l, events[n], Arriving);
      AnswersFit(l, events[n], Arriving);
      Discovery.RunNext(es, e);
      es := es + [e];
    }
    Discovery.RunNumbers(es);
  }

  /** In every run over buffers, requests and responses get across once each and in order. */
  lemma ExactlyOnceOnBytes(events: seq<ByteEvent>)
    ensures var l := ByteRun(events);
            && l.popped <= l.slave.taken <= l.pushed && |l.slave.taken| <= |l.popped| + 1
            && l.slave.answered <= l.dispatched <= l.slave.answered + Some1(l.slave.answer)
  {
    var es := ByteRunIsRun(events);
    RequestsExactlyOnce(es);
    ResponsesExactlyOnce(es);
  }

  // ----- what the driver reports

  /** An exchange that brings the buffer, or fails. */
  predicate Brings(x: RedStack.Exchange, rx: Option<seq<byte>>) {
    if rx.Some? then x.rc == PACKET_SIZE && x.rx == rx.value else x.rc < 0 || x.rc % 256 != PACKET_SIZE
  }

  lemma BringsFrame(x: RedStack.Exchange, f: Frame, h: Fault)
    requires |f.payload| <= MAX_PAYLOAD && Brings(x, Delivered(Wire(f), h))
    ensures RedStack.FrameIn(x) == Arriving(f, h)
  {
  }

  lemma MasterOfStep(l: Link, toSlave: Fault, toMaster: Fault, hear: Hearing)
    ensures var l', o := StepWith(l, Transferred(toSlave, toMaster), hear),
                         Polled(l.master, hear(Offered(l.slave), toMaster));
            l'.master == o.master && l'.dispatched == l.dispatched + Some1(o.received)
  {
  }

  /** A pass of the polling loop is such a step: it puts the buffer of the master on the wire and makes of the slave's
      buffer what the step does. */
  lemma PollIsByteStep(l: Link, e: RedStack.Entry, x: RedStack.Exchange, e': RedStack.Entry, tx: seq<byte>,
                       received: seq<byte>, toSlave: Fault, toMaster: Fault)
    requires e.link == l.master && RedStack.Polls(e, x, e', tx, received)
    requires |l.slave.answer| <= MAX_PAYLOAD && Brings(x, Delivered(Wire(Offered(l.slave)), toMaster))
    ensures tx == Wire(Sent(l.master, ToSend(l.master)))
    ensures var l' := StepWith(l, Transferred(toSlave, toMaster), Arriving);
            l'.master == e'.link && l'.dispatched == l.dispatched + Some1(received)
  {
    BringsFrame(x, Offered(l.slave), toMaster);
    MasterOfStep(l, toSlave, toMaster, Arriving);
  }
}
