/** The SPI stack of the RED Brick: frame assembly, one transfer, the polling loop, slave discovery, dispatch and
    reset, on the bytes and fields the source uses. */
module RedStack {
  import opened Bytes
  import opened Wrappers
  import opened Pearson
  import opened SpiFrame
  import opened SpiLink

  const MAX_SLAVES := 8
  const ROUTING_TRIES := 10

  // ----- the bits of a transfer's result

  const DATA_SEND: bv16 := 0x100
  const DATA_RECEIVED: bv16 := 0x80
  const SEND_ERROR: bv16 := 1
  const SEND_NONE: bv16 := 2
  const SEND_OK: bv16 := 3
  const READ_ERROR: bv16 := 8
  const READ_NONE: bv16 := 16
  const READ_OK: bv16 := 24
  const MASK_SEND: bv16 := 0x07
  const MASK_READ: bv16 := 0x38

  function WithSend(retval: bv16, bits: bv16): bv16 {
    (retval & !MASK_SEND) | bits
  }

  function WithRead(retval: bv16, bits: bv16): bv16 {
    (retval & !MASK_READ) | bits
  }

  /** The result says what happened: whether data was acknowledged, and whether a frame or data was read. */
  ghost predicate Reports(retval: bv16, o: Outcome, heard: Option<Frame>) {
    && (retval & MASK_SEND == SEND_OK) == o.acked
    && (retval & MASK_READ == READ_ERROR) == heard.None?
    && (retval & MASK_READ == READ_OK) == (o.received != [])
  }

  /** The result, bit by bit: 0x100 for data that went out, 0x80 for data that came in; the lower three bits say whether
      it was acknowledged (3) or there was none (2), the next three whether data (24), nothing (16) or an error (8) came
      back. A driver that fails makes it 9. */
  function ResultBits(send: bool, acked: bool, received: bool, heard: bool, driver: bool): bv16 {
    if driver then 9
    else
      var sent: bv16 := if !send then 2 else if acked then 0x103 else 0x100;
      var read: bv16 := if !heard then 8 else if received then 0x98 else 16;
      sent | read
  }

  /** One full-duplex exchange as the driver reports it: its return value and the bytes it read. */
  datatype RawExchange = Raw(rc: int, rx: seq<byte>)

  type Exchange = x: RawExchange | |x.rx| == PACKET_SIZE witness Raw(0, Zeros(PACKET_SIZE))

  /** What the master hears; the return value is kept in eight bits before it is compared. */
  function FrameIn(x: Exchange): Option<Frame> {
    if x.rc < 0 || x.rc % 256 != PACKET_SIZE then None else Parsed(x.rx)
  }

  /** Assembles all of a frame but its checksum in a zeroed buffer. */
  method FillFrame(length: byte, payload: seq<byte>, info: byte) returns (tx: array<byte>)
    requires |payload| <= MAX_PAYLOAD
    ensures fresh(tx) && tx[..] == Covered(length, payload, info) + Zeros(MAX_PAYLOAD + 1 - |payload|)
  {
    tx := new byte[PACKET_SIZE](_ => 0);
    tx[0] := PREAMBLE;
    tx[1] := length;
    forall k | 0 <= k < |payload| {
      tx[2 + k] := payload[k];
    }
    tx[2 + |payload|] := info;
  }

  lemma FirstZero(s: seq<byte>, n: nat, b: byte)
    requires n > 0
    ensures (s + Zeros(n))[|s| := b] == s + [b] + Zeros(n - 1)
    ensures (s + Zeros(n))[..|s|] == s
  {
  }

  method AppendChecksum(tx: array<byte>, n: nat, ghost covered: seq<byte>)
    requires |covered| == n < tx.Length
    requires tx[..] == covered + Zeros(tx.Length - n)
    modifies tx
    ensures tx[..] == covered + [Hash(Permutation, covered)] + Zeros(tx.Length - n - 1)
  {
    FirstZero(covered, tx.Length - n, Hash(Permutation, covered));
    var checksum := CalculateHash(tx[..n]);
    tx[n] := checksum;
  }

  method BuildFrame(length: byte, msn: byte, ssn: byte, payload: seq<byte>) returns (tx: array<byte>)
    requires |payload| <= MAX_PAYLOAD
    ensures fresh(tx) && tx[..] == Assembled(length, Frame(msn, ssn, payload))
  {
    tx := FillFrame(length, payload, msn | ssn);
    AppendChecksum(tx, |payload| + 3, Covered(length, payload, msn | ssn));
  }

  method CheckBody(rx: seq<byte>, length: nat) returns (ok: bool, f: Frame)
    requires 4 <= length <= |rx|
    ensures ok == Checksummed(rx, length) && f == Body(rx, length)
  {
    var checksum := CalculateHash(rx[..length - 1]);
    ok := checksum == rx[length - 1];
    f := Frame(rx[length - 2] & MASTER_MASK, rx[length - 2] & SLAVE_MASK, rx[2..length - 2]);
  }

  /** Checks a received buffer the way the source does. */
  method CheckFrame(x: Exchange) returns (ok: bool, f: Frame, length: nat)
    ensures FrameIn(x) == if ok then Some(f) else None
    ensures ok ==> length == |f.payload| + EMPTY_SIZE
  {
    ok, f, length := false, Frame(0, 0, []), Value(x.rx[1]);
    if x.rc < 0 || x.rc % 256 != PACKET_SIZE || x.rx[0] != PREAMBLE {
      return;
    }
    if length != EMPTY_SIZE && (length < EMPTY_SIZE + HEADER_SIZE || length > PACKET_SIZE) {
      return;
    }
    ok, f := CheckBody(x.rx, length);
  }

  /** One entry of the slave table: whether the slave answered discovery, and the state of its link. */
  datatype Entry = Entry(available: bool, link: Master)

  /** Data goes out only to a slave that is there, and only if it fits; an empty frame always goes out. */
  predicate Sends(e: Entry, send: Option<seq<byte>>) {
    send.None? || (e.available && |send.value| <= MAX_PAYLOAD)
  }

  /** The number handling of a transfer in which a frame came back, of `length` bytes. */
  method HandleFrame(link: Master, send: Option<seq<byte>>, f: Frame, length: nat, sent: bv16)
    returns (link': Master, retval: bv16, received: seq<byte>)
    requires sent == if send.Some? then DATA_SEND else SEND_NONE
    requires length == |f.payload| + EMPTY_SIZE
    ensures var o := Transceived(link, send, Some(f));
            && link' == o.master && received == o.received && Reports(retval, o, Some(f))
            && retval == ResultBits(send.Some?, o.acked, o.received != [], true, false)
  {
    link', retval, received := link, sent, [];
    if send.Some? {
      if f.master == link.msn {
        retval := WithSend(retval, SEND_OK);
        link' := link'.(msn := NextMaster(link.msn));
      }
    } else {
      var seqInc := if link.msn + 1 > MASTER_MASK then 0 else link.msn + 1;
      if f.master == link.msn || seqInc != f.master {
        link' := link'.(msn := NextMaster(link.msn));
      } else {
        link' := link'.(nextEmpty := true);
      }
    }

    if f.slave == link.ssn {
      retval := WithRead(retval, READ_NONE);
    } else {
      link' := link'.(ssn := f.slave);
      if length == EMPTY_SIZE {
        retval := WithRead(retval, READ_NONE);
      } else {
        received := f.payload;
        retval := WithRead(retval, READ_OK) | DATA_RECEIVED;
      }
    }
  }

  /** A transfer from which no frame came back. */
  method HandleError(link: Master, send: Option<seq<byte>>, driver: bool, sent: bv16)
    returns (link': Master, retval: bv16)
    requires sent == if send.Some? then DATA_SEND else SEND_NONE
    ensures var o := Transceived(link, send, None);
            && link' == o.master && Reports(retval, o, None)
            && retval == ResultBits(send.Some?, false, false, false, driver)
  {
    link' := if send.None? then link.(nextEmpty := true) else link;
    retval := if driver then SEND_ERROR | READ_ERROR else WithRead(sent, READ_ERROR);
  }

  /** What a transfer amounts to: `heard` is what came back. */
  ghost predicate Transfers(e: Entry, send: Option<seq<byte>>, heard: Option<Frame>,
                            e': Entry, retval: bv16, received: seq<byte>)
  {
    var o := Transceived(e.link, send, heard);
    e' == e.(link := o.master) && received == o.received && Reports(retval, o, heard)
  }

  /** One transfer with the slave whose table entry is `e`. */
  method Transceive(e: Entry, send: Option<seq<byte>>, x: Exchange)
    returns (e': Entry, retval: bv16, tx: seq<byte>, received: seq<byte>)
    ensures Sends(e, send) <==> (send.Some? ==> e.available && |send.value| <= 80)
    ensures Sends(e, send) ==>
              Transfers(e, send, FrameIn(x), e', retval, received) && tx == Wire(Sent(e.link, send))
    ensures Sends(e, send) ==>
              var o, driver := Transceived(e.link, send, FrameIn(x)), x.rc < 0 || x.rc % 256 != 84;
              retval == ResultBits(send.Some?, o.acked, o.received != [], FrameIn(x).Some?, driver)
    ensures !Sends(e, send) ==> e' == e && retval == 1 && tx == [] && received == []
  {
    e', retval, tx, received := e, SEND_NONE, [], [];
    if send.Some? {
      if !e.available || |send.value| > MAX_PAYLOAD {
        retval := SEND_ERROR;
        return;
      }
      retval := DATA_SEND;
    }
    tx := Transmit(e.link, send);
    var link;
    var ok, f, length := CheckFrame(x);
    if ok {
      link, retval, received := HandleFrame(e.link, send, f, length, retval);
    } else {
      link, retval := HandleError(e.link, send, x.rc < 0 || x.rc % 256 != PACKET_SIZE, retval);
    }
    e' := e.(link := link);
  }

  method Transmit(link: Master, send: Option<seq<byte>>) returns (tx: seq<byte>)
    requires send.Some? ==> |send.value| <= MAX_PAYLOAD
    ensures tx == Wire(Sent(link, send))
  {
    var payload := if send.Some? then send.value else [];
    var buffer := BuildFrame(ToByte(|payload| + EMPTY_SIZE), link.msn, link.ssn, payload);
    tx := buffer[..];
  }

  /** What a pass of the polling loop does with one slave. */
  ghost predicate Polls(e: Entry, x: Exchange, e': Entry, tx: seq<byte>, received: seq<byte>) {
    var o := Polled(e.link, FrameIn(x));
    tx == Wire(Sent(e.link, ToSend(e.link))) && e' == e.(link := o.master) && received == o.received
  }

  lemma PollFromTransfer(e: Entry, heard: Option<Frame>, t: Entry, retval: bv16, received: seq<byte>)
    requires Transfers(e.(link := e.link.(nextEmpty := false)), ToSend(e.link), heard, t, retval, received)
    ensures retval & MASK_SEND == SEND_OK ==> t.link.queue != [] && retval & MASK_READ != READ_ERROR
    ensures var o := Polled(e.link, heard);
            && o.received == (if retval & MASK_READ == READ_OK then received else [])
            && e.(link := o.master) == if retval & MASK_SEND == SEND_OK
                                       then t.(link := t.link.(queue := t.link.queue[1..])) else t
  {
  }

  method PollSlave(e: Entry, x: Exchange) returns (e': Entry, tx: seq<byte>, received: seq<byte>)
    requires e.available
    ensures Polls(e, x, e', tx, received) && e'.available
  {
    var request: Option<seq<byte>> := None;
    e' := e;
    if e.link.nextEmpty {
      e' := e.(link := e.link.(nextEmpty := false));
    } else if e.link.queue != [] {
      request := Some(e.link.queue[0]);
    }
    var retval;
    e', retval, tx, received := Transceive(e', request, x);
    PollFromTransfer(e, FrameIn(x), e', retval, received);
    if retval & MASK_SEND == SEND_OK {
      if retval & MASK_READ != READ_ERROR {
        e' := e'.(link := e'.link.(queue := e'.link.queue[1..]));
      }
    }
    if retval & MASK_READ != READ_OK {
      received := [];
    }
  }

  // ----- discovery: one request is offered until it is acknowledged, then empty frames probe for the answer

  /** `k` transfers of the same frame after `o`, when transfer `t` brings back `heard(t)`. */
  function Repeated(o: Outcome, send: Option<seq<byte>>, heard: nat -> Option<Frame>, k: nat): Outcome {
    if k == 0 then o
    else Transceived(Repeated(o, send, heard, k - 1).master, send, heard(k - 1))
  }

  /** `n` offers end discovery's first loop: at the first acknowledgement, or after ten. */
  ghost predicate OffersEnd(m: Master, request: Packet, heard: nat -> Option<Frame>, n: nat) {
    var o := Outcome(m, false, []);
    && 0 < n <= ROUTING_TRIES
    && (n == ROUTING_TRIES || Repeated(o, Some(request), heard, n).acked)
    && forall j: nat :: j < n ==> !Repeated(o, Some(request), heard, j).acked
  }

  /** `n` probes end its second loop: at the first answer, or after ten. */
  ghost predicate ProbesEnd(o: Outcome, heard: nat -> Option<Frame>, n: nat) {
    && n <= ROUTING_TRIES
    && (n == ROUTING_TRIES || Repeated(o, None, heard, n).received != [])
    && forall j: nat :: j < n ==> Repeated(o, None, heard, j).received == []
  }

  function HeardOn(bus: nat -> Exchange): nat -> Option<Frame> {
    (t: nat) => FrameIn(bus(t))
  }

  function From(bus: nat -> Exchange, t: nat): nat -> Exchange {
    (i: nat) => bus(t + i)
  }

  /** Discovery ended after `offers` and `probes`: the slave counts as available exactly if the request was
      acknowledged and an answer came in before the tenth probe, and the link is where those transfers took it. */
  ghost predicate Discovered(e: Entry, request: Packet, bus: nat -> Exchange, e': Entry, offers: nat, probes: nat) {
    && OffersEnd(e.link, request, HeardOn(bus), offers)
    && var o := Repeated(Outcome(e.link, false, []), Some(request), HeardOn(bus), offers);
       if !o.acked then e' == Entry(false, o.master)
       else && ProbesEnd(o, HeardOn(From(bus, offers)), probes)
            && e' == Entry(probes < ROUTING_TRIES, Repeated(o, None, HeardOn(From(bus, offers)), probes).master)
  }

  /** Discovery turns one entry of the slave table into another. */
  ghost predicate Finds(e: Entry, request: Packet, bus: nat -> Exchange, e': Entry) {
    exists offers, probes :: Discovered(e, request, bus, e', offers, probes)
  }

  ghost predicate Hears(bus: nat -> Exchange, heard: nat -> Option<Frame>) {
    forall t: nat {:trigger FrameIn(bus(t))} :: heard(t) == FrameIn(bus(t))
  }

  /** Exchange number `t` of a discovery loop, told apart only by what is heard. */
  method Exchanges(e: Entry, send: Option<seq<byte>>, bus: nat -> Exchange, t: nat, ghost heard: nat -> Option<Frame>)
    returns (e': Entry, acked: bool, received: seq<byte>)
    requires Hears(bus, heard) && Sends(e, send)
    ensures Transceived(e.link, send, heard(t)) == Outcome(e'.link, acked, received)
    ensures e'.available == e.available
  {
    var retval, tx;
    e', retval, tx, received := Transceive(e, send, bus(t));
    acked := retval & MASK_SEND == SEND_OK;
  }

  /** The first loop of discovery. */
  method OfferRequest(e: Entry, request: Packet, bus: nat -> Exchange, ghost heard: nat -> Option<Frame>)
    returns (e': Entry, acked: bool, received: seq<byte>, tries: nat)
    requires e.available && Hears(bus, heard)
    ensures e'.available
    ensures Repeated(Outcome(e.link, false, []), Some(request), heard, tries) == Outcome(e'.link, acked, received)
    ensures OffersEnd(e.link, request, heard, tries)
  {
    ghost var o := Outcome(e.link, false, []);
    e', acked, received, tries := e, false, [], 0;
    while tries < ROUTING_TRIES && !acked
      invariant 0 <= tries <= ROUTING_TRIES && e'.available
      invariant acked ==> tries > 0
      invariant Repeated(o, Some(request), heard, tries) == Outcome(e'.link, acked, received)
      invariant forall j: nat :: j < tries ==> !Repeated(o, Some(request), heard, j).acked
      decreases ROUTING_TRIES - tries
    {
      e', acked, received := Exchanges(e', Some(request), bus, tries, heard);
      tries := tries + 1;
    }
  }

  /** The second loop of discovery: it looks at the previous result before each probe, so the result of a tenth
      probe is never looked at. */
  method ProbeAnswer(e: Entry, o: Outcome, bus: nat -> Exchange, ghost heard: nat -> Option<Frame>)
    returns (e': Entry, received: seq<byte>, tries: nat)
    requires e.available && e.link == o.master && Hears(bus, heard)
    ensures e'.available
    ensures Repeated(o, None, heard, tries).master == e'.link && Repeated(o, None, heard, tries).received == received
    ensures ProbesEnd(o, heard, tries)
  {
    var acked := o.acked;
    e', received, tries := e, o.received, 0;
    while tries < ROUTING_TRIES && received == []
      invariant 0 <= tries <= ROUTING_TRIES && e'.available
      invariant Repeated(o, None, heard, tries) == Outcome(e'.link, acked, received)
      invariant forall j: nat :: j < tries ==> Repeated(o, None, heard, j).received == []
      decreases ROUTING_TRIES - tries
    {
      e', acked, received := Exchanges(e', None, bus, tries, heard);
      tries := tries + 1;
    }
  }

  /** Discovery of one slave; `bus(t)` is its exchange number `t`. */
  method DiscoverSlave(e: Entry, request: Packet, bus: nat -> Exchange)
    returns (e': Entry, response: seq<byte>, offers: nat, probes: nat)
    ensures Discovered(e, request, bus, e', offers, probes)
    ensures e'.available ==> response != []
  {
    var acked;
    e', acked, response, offers := OfferRequest(e.(available := true), request, bus, HeardOn(bus));
    probes := 0;
    if !acked {
      e' := e'.(available := false);
      return;
    }
    e', response, probes :=
      ProbeAnswer(e', Outcome(e'.link, acked, response), From(bus, offers), HeardOn(From(bus, offers)));
    if probes == ROUTING_TRIES {
      e' := e'.(available := false);
    }
  }

  /** What is proved of each slave, without what it says. */
  ghost predicate Judges(finds: (nat, Entry, Entry) -> bool, request: Packet, bus: nat -> nat -> Exchange) {
    forall a, e, e' {:trigger Finds(e, request, bus(a), e')} :: Finds(e, request, bus(a), e') ==> finds(a, e, e')
  }

  method DiscoverAt(e: Entry, a: nat, request: Packet, bus: nat -> nat -> Exchange,
                    ghost finds: (nat, Entry, Entry) -> bool)
    returns (e': Entry)
    requires Judges(finds, request, bus)
    ensures finds(a, e, e')
  {
    var response, offers, probes;
    e', response, offers, probes := DiscoverSlave(e, request, bus(a));
    assert Finds(e, request, bus(a), e');
  }

  /** The slaves in turn, up to the first that does not answer. */
  method DiscoverAll(slaves: array<Entry>, request: Packet, bus: nat -> nat -> Exchange,
                     ghost finds: (nat, Entry, Entry) -> bool)
    returns (address: nat)
    requires slaves.Length == MAX_SLAVES && Judges(finds, request, bus)
    modifies slaves
    ensures address <= MAX_SLAVES
    ensures forall a: nat :: a < address ==> slaves[a].available
    ensures forall a: nat :: a <= address && a < MAX_SLAVES ==> finds(a, old(slaves[a]), slaves[a])
    ensures address < MAX_SLAVES ==> !slaves[address].available
    ensures forall a: nat :: address < a < MAX_SLAVES ==> slaves[a] == old(slaves[a])
  {
    address := 0;
    ghost var was := slaves[..];
    while address < MAX_SLAVES
      invariant address <= MAX_SLAVES
      invariant forall a: nat :: a < address ==> slaves[a].available && finds(a, was[a], slaves[a])
      invariant forall a: nat :: address <= a < MAX_SLAVES ==> slaves[a] == was[a]
    {
      var e := DiscoverAt(slaves[address], address, request, bus, finds);
      slaves[address] := e;
      if !e.available {
        break;
      }
      address := address + 1;
    }
  }

  function Uid(p: Packet): seq<byte> {
    p[..4]
  }

  lemma UidIsZero(p: Packet)
    ensures Uid(p) == [0, 0, 0, 0] <==> p[0] == p[1] == p[2] == p[3] == 0
  {
    assert Uid(p) == [p[0], p[1], p[2], p[3]];
  }

  function Queued(e: Entry, p: Packet): Entry {
    e.(link := e.link.(queue := e.link.queue + [p]))
  }

  predicate Targets(p: Packet, recipient: Option<nat>, i: nat, slaveNum: nat) {
    if Uid(p) == [0, 0, 0, 0] then i < slaveNum else recipient == Some(i)
  }

  datatype Response = Response(packet: seq<byte>, address: nat)

  class SpiStack {
    const slaves: array<Entry>
    var slaveNum: nat
    var cycle: nat
    var responses: seq<Response>

    ghost predicate Valid()
      reads this, slaves
    {
      && slaves.Length == MAX_SLAVES
      && slaveNum <= MAX_SLAVES
      && (slaveNum > 0 ==> cycle < slaveNum)
      && forall i :: 0 <= i < slaveNum ==> slaves[i].available
    }

    constructor ()
      ensures Valid() && slaveNum == 0 && responses == [] && fresh(slaves) && slaves.Length == 8
      ensures forall i :: 0 <= i < MAX_SLAVES ==> slaves[i] == Entry(false, POWER_ON)
    {
      slaves := new Entry[MAX_SLAVES](_ => Entry(false, POWER_ON));
      slaveNum := 0;
      cycle := 0;
      responses := [];
    }

    /** One pass of the polling loop: only the slave whose turn it is takes part, the turn moves on, and a response
        is handed to the event thread. */
    method PollNext(x: Exchange) returns (tx: seq<byte>, received: seq<byte>)
      requires Valid() && slaveNum > 0
      modifies this, slaves
      ensures Valid() && slaveNum == old(slaveNum)
      ensures cycle == if old(cycle) + 1 < slaveNum then old(cycle) + 1 else 0
      ensures forall i :: 0 <= i < slaves.Length && i != old(cycle) ==> slaves[i] == old(slaves[i])
      ensures Polls(old(slaves[cycle]), x, slaves[old(cycle)], tx, received)
      ensures responses == old(responses) + if received == [] then [] else [Response(received, old(cycle))]
    {
      var address := cycle;
      var e := slaves[address];
      cycle := cycle + 1;
      if cycle >= slaveNum {
        cycle := 0;
      }
      e, tx, received := PollSlave(e, x);
      slaves[address] := e;
      if received != [] {
        responses := responses + [Response(received, address)];
      }
    }

    /** A request for UID 0 goes to every slave, any other to the slave its recipient entry names, if there is one. */
    method DispatchToSpi(request: Packet, recipient: Option<nat>)
      requires Valid()
      requires recipient.Some? ==> recipient.value < slaves.Length
      modifies slaves
      ensures Valid()
      ensures forall i :: 0 <= i < slaves.Length ==>
        slaves[i] == if Targets(request, recipient, i, slaveNum) then Queued(old(slaves[i]), request)
                     else old(slaves[i])
      ensures forall i :: 0 <= i < slaves.Length ==>
        && slaves[i].available == old(slaves[i].available)
        && slaves[i].link == old(slaves[i].link).(queue := slaves[i].link.queue)
        && slaves[i].link.queue
           == if (if request[0] == request[1] == request[2] == request[3] == 0 then i < slaveNum
                  else recipient == Some(i))
              then old(slaves[i].link.queue) + [request] else old(slaves[i].link.queue)
    {
      UidIsZero(request);
      if Uid(request) == [0, 0, 0, 0] {
        var i := 0;
        while i < slaveNum
          invariant 0 <= i <= slaveNum
          invariant forall j :: 0 <= j < slaves.Length ==>
            slaves[j] == if j < i then Queued(old(slaves[j]), request) else old(slaves[j])
        {
          slaves[i] := Queued(slaves[i], request);
          i := i + 1;
        }
      } else if recipient.Some? {
        slaves[recipient.value] := Queued(slaves[recipient.value], request);
      }
    }

    /** After a reset every link is back in its power-on state, its queue discarded. */
    method HandleReset()
      requires Valid()
      modifies this, slaves
      ensures Valid() && slaveNum == 0 && responses == old(responses)
      ensures forall i :: 0 <= i < slaves.Length ==> slaves[i] == Entry(false, POWER_ON)
    {
      slaveNum := 0;
      var i := 0;
      while i < MAX_SLAVES
        invariant 0 <= i <= MAX_SLAVES
        invariant slaves.Length == MAX_SLAVES && slaveNum == 0 && responses == old(responses)
        invariant forall j :: 0 <= j < i ==> slaves[j] == Entry(false, POWER_ON)
      {
        var queue := slaves[i].link.queue;
        while queue != [] {
          queue := queue[1..];
        }
        slaves[i] := Entry(false, Master(1, 0, false, queue));
        i := i + 1;
      }
    }

    /** Discovery of all slaves in turn, up to the first that does not answer: those before it are available, those
        behind it are left alone. `bus(a)` are the exchanges with the slave of address `a`, `request` is the stack
        enumerate request. */
    method CreateRoutingTable(request: Packet, bus: nat -> nat -> Exchange)
      requires Valid() && slaveNum == 0
      modifies this, slaves
      ensures Valid() && cycle == 0 && responses == old(responses)
      ensures forall a: nat :: a <= slaveNum && a < MAX_SLAVES ==> Finds(old(slaves[a]), request, bus(a), slaves[a])
      ensures slaveNum < MAX_SLAVES ==> !slaves[slaveNum].available
      ensures forall a: nat :: slaveNum < a < MAX_SLAVES ==> slaves[a] == old(slaves[a])
    {
      cycle := 0;
      ghost var finds := (a: nat, e, e') => Finds(e, request, bus(a), e');
      slaveNum := DiscoverAll(slaves, request, bus, finds);
    }
  }
}
