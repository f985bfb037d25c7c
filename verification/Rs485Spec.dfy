/** The RS485 master: it polls its slaves in turn, one request at a time, driven by serial data, a timer and new
    requests. */
module Rs485Spec {
  import opened Bytes
  import opened Wrappers

  const RECEIVE_BUFFER_SIZE := 1024
  const REQUEST_SIZE := 85
  const HEADER_LENGTH := 3
  const OVERHEAD := 5
  const FUNCTION_CODE: byte := 100
  const TRIES_DATA := 10
  const TRIES_EMPTY := 1
  const SECOND := 1_000_000_000

  /** A packet without UID and function: it polls a slave or acknowledges a response. */
  const EMPTY_PACKET: seq<byte> := [0, 0, 0, 0, 8, 0, 0, 0]

  /** What waits for a slave. The data requests of a slave are numbered as they are queued. */
  datatype Entry = Data(tag: nat, packet: seq<byte>, tries: nat) | Empty(tries: nat)

  /** `wire` lists the data requests written to the serial line, once for each time. */
  datatype Slave = Slave(address: byte, sequence: byte, queue: seq<Entry>, accepted: nat, wire: seq<nat>)

  datatype Timer = Off | Armed | Expired

  /** `used` bytes of `buffer` were received. `request` holds the last frame written; `verify` says that its echo is
      still due. `ack` is 1 when the head of the queue became an acknowledgement and 2 when that was queued on its own.
      `interval` says that the timer stands for the delay between polls. */
  datatype Master = Master(slaves: seq<Slave>, current: int, buffer: seq<byte>, used: nat, request: seq<byte>,
                           verify: bool, ack: nat, interval: bool, timer: Timer,
                           polls: seq<int>, responses: seq<seq<byte>>)

  /** Durations in nanoseconds, and the checksum of a frame. */
  datatype Config = Config(timeout: nat, interval: nat, crc: seq<byte> -> bv16)

  /** Whether the serial line takes a frame and whether there is memory for a packet. */
  datatype Env = Env(writes: bool, pushes: bool)

  predicate Shaped(m: Master) {
    && |m.buffer| == RECEIVE_BUFFER_SIZE && m.used <= RECEIVE_BUFFER_SIZE && |m.request| == REQUEST_SIZE
    && 0 <= m.current < |m.slaves|
  }

  /** Still the same slave's turn, with everything in place. */
  predicate SameTurn(m: Master, m': Master) {
    Shaped(m') && m'.current == m.current && m'.polls == m.polls && |m'.slaves| == |m.slaves|
  }

  // ----- the timer

  /** Setting the timer fails without effect when the nanoseconds do not make a fraction of a second. */
  function Arm(m: Master, ns: nat): Master {
    if ns >= SECOND then m else m.(timer := if ns == 0 then Off else Armed)
  }

  function ArmInterval(m: Master, cfg: Config): Master {
    Arm(m.(interval := true), cfg.interval)
  }

  function Disarm(m: Master): Master { m.(timer := Off) }

  // ----- the queue of a slave

  function Popped(s: Slave): Slave {
    if s.queue == [] then s else s.(queue := s.queue[1..])
  }

  /** One try less for the head, which leaves with its last one. */
  function Tried(s: Slave): Slave {
    if s.queue == [] then s
    else if s.queue[0].tries == 1 then Popped(s)
    else s.(queue := s.queue[0 := s.queue[0].(tries := if s.queue[0].tries == 0 then 255 else s.queue[0].tries - 1)])
  }

  function Bumped(s: Slave): Slave { s.(sequence := s.sequence + 1) }

  function Pushed(s: Slave, e: Entry): Slave { s.(queue := s.queue + [e]) }

  /** An acknowledgement takes the place of the head. */
  function Replaced(s: Slave): Slave
    requires s.queue != []
  {
    s.(queue := s.queue[0 := Empty(TRIES_EMPTY)])
  }

  function Written(s: Slave): Slave
    requires s.queue != []
  {
    if s.queue[0].Data? then s.(wire := s.wire + [s.queue[0].tag]) else s
  }

  function PacketOf(e: Entry): seq<byte> { if e.Data? then e.packet else EMPTY_PACKET }

  /** The slave that is being polled, and the master with that slave changed. */
  function Now(m: Master): Slave
    requires Shaped(m)
  {
    m.slaves[m.current]
  }

  function WithNow(m: Master, s: Slave): Master
    requires Shaped(m)
  {
    m.(slaves := m.slaves[m.current := s])
  }

  // ----- the steps of the master

  function High(x: bv16): byte { ((x >> 8) & 0xFF) as byte }

  function Low(x: bv16): byte { (x & 0xFF) as byte }

  function Joined(high: byte, low: byte): bv16 { ((high as bv16) << 8) | (low as bv16) }

  lemma JoinedHalves(x: bv16)
    ensures Joined(High(x), Low(x)) == x
  {
  }

  function FrameOf(s: Slave, packet: seq<byte>, crc: seq<byte> -> bv16): (frame: seq<byte>)
    ensures |frame| == |packet| + OVERHEAD
  {
    var body := [s.address, FUNCTION_CODE, s.sequence] + packet;
    body + [High(crc(body)), Low(crc(body))]
  }

  function Overwritten(request: seq<byte>, frame: seq<byte>): seq<byte> {
    if |frame| <= |request| then frame + request[|frame|..] else request
  }

  /** Writes the head of the queue to the serial line. */
  function Sent(m: Master, cfg: Config, env: Env): (m': Master)
    requires Shaped(m)
    ensures SameTurn(m, m')
  {
    var s := Now(m);
    if s.queue == [] || !env.writes then ArmInterval(m, cfg)
    else
      var frame := FrameOf(s, PacketOf(s.queue[0]), cfg.crc);
      Arm(WithNow(m, Written(s)).(request := Overwritten(m.request, frame), verify := true), cfg.timeout)
  }

  predicate IsEmptyRequest(request: seq<byte>)
    requires |request| == REQUEST_SIZE
  {
    request[3] == 0 && request[4] == 0 && request[5] == 0 && request[6] == 0 && request[7] == 8 && request[8] == 0
  }

  /** The current request is over without success: it has one try less, and the next slave's turn comes. */
  function GivenUp(m: Master, cfg: Config): (m': Master)
    requires Shaped(m)
    ensures SameTurn(m, m')
  {
    var s := if IsEmptyRequest(m.request) then Bumped(Now(m)) else Now(m);
    ArmInterval(WithNow(m, Tried(s)), cfg)
  }

  function FrameLength(m: Master): nat
    requires Shaped(m)
  {
    OVERHEAD + Value(m.buffer[7])
  }

  /** The first bytes received are the frame that was written. */
  predicate Echoed(m: Master)
    requires Shaped(m)
  {
    FrameLength(m) <= REQUEST_SIZE && m.buffer[..FrameLength(m)] == m.request[..FrameLength(m)]
  }

  /** The current request is over: its entry leaves the queue and the sequence number goes on. */
  function Done(m: Master, cfg: Config): (m': Master)
    requires Shaped(m)
    ensures SameTurn(m, m')
  {
    ArmInterval(WithNow(m, Popped(Bumped(Now(m)))), cfg)
  }

  /** A data response is acknowledged in place of the request it answers. */
  function Acknowledged(m: Master, cfg: Config, env: Env): (m': Master)
    requires Shaped(m)
    ensures SameTurn(m, m')
  {
    var s := Now(m);
    if s.queue == [] && !env.pushes then m
    else
      var m1 := (if s.queue == [] then WithNow(m, Pushed(s, Empty(TRIES_EMPTY))).(ack := 2)
                 else WithNow(m, Replaced(s)).(ack := 1)).(buffer := Zeros(RECEIVE_BUFFER_SIZE), used := 0);
      Sent(m1, cfg, env)
  }

  predicate NoUid(m: Master)
    requires Shaped(m)
  {
    m.buffer[3] == 0 && m.buffer[4] == 0 && m.buffer[5] == 0 && m.buffer[6] == 0
  }

  predicate Checks(m: Master, cfg: Config)
    requires Shaped(m) && FrameLength(m) <= m.used
  {
    var n := FrameLength(m);
    && Joined(m.buffer[n - 2], m.buffer[n - 1]) == cfg.crc(m.buffer[..n - 2])
    && m.buffer[0] == m.request[0] && m.buffer[1] == m.request[1]
  }

  /** A complete frame was received and is not the echo of the request. */
  function Answered(m: Master, cfg: Config, env: Env): (m': Master)
    requires Shaped(m) && FrameLength(m) <= m.used
    ensures SameTurn(m, m')
  {
    if !Checks(m, cfg) then GivenUp(Disarm(m), cfg)
    else if NoUid(m) && m.buffer[8] == 0 then
      if m.buffer[2] != m.request[2] then GivenUp(Disarm(m), cfg) else Done(Disarm(m), cfg)
    else if !NoUid(m) && m.buffer[8] != 0 then
      Acknowledged(if m.buffer[2] == m.request[2] then m.(responses := m.responses + [m.buffer[3..83]]) else m,
                   cfg, env)
    else GivenUp(Disarm(m), cfg)
  }

  /** The echo of a frame is complete. */
  function Verified(m: Master, cfg: Config): (m': Master)
    requires Shaped(m) && FrameLength(m) <= m.used
    ensures SameTurn(m, m')
  {
    var n := FrameLength(m);
    if m.ack == 1 then Done(Disarm(m), cfg)
    else if m.ack > 0 then ArmInterval(Disarm(m), cfg)
    else if m.used == n then m.(buffer := Zeros(RECEIVE_BUFFER_SIZE), used := 0)
    else m.(buffer := m.buffer[n..m.used] + m.buffer[m.used - n..], used := m.used - n)
  }

  predicate Complete(m: Master)
    requires Shaped(m)
  {
    m.used >= 8 && m.used >= FrameLength(m)
  }

  /** Looks at what was received, once for the echo and once more for what follows it. */
  function Looked(m: Master, cfg: Config, env: Env): (m': Master)
    requires Shaped(m)
    ensures SameTurn(m, m')
  {
    if !Complete(m) then m
    else if !m.verify then Answered(m, cfg, env)
    else if !Echoed(m) then GivenUp(Disarm(m), cfg)
    else
      var m1 := Verified(m.(verify := false), cfg);
      if m.ack == 0 && Complete(m1) then Answered(m1, cfg, env) else m1
  }

  // ----- the handlers

  /** As many bytes as there is room for go to the end of the receive buffer. */
  function Filled(m: Master, bytes: seq<byte>): (m': Master)
    requires Shaped(m)
    ensures SameTurn(m, m') && m'.slaves == m.slaves && m'.interval == m.interval && m'.ack == m.ack
    ensures m'.timer == m.timer
  {
    var n := if m.used + |bytes| <= RECEIVE_BUFFER_SIZE then |bytes| else RECEIVE_BUFFER_SIZE - m.used;
    m.(buffer := m.buffer[..m.used] + bytes[..n] + m.buffer[m.used + n..], used := m.used + n)
  }

  function Received(m: Master, bytes: seq<byte>, cfg: Config, env: Env): (m': Master)
    requires Shaped(m)
    ensures SameTurn(m, m')
  {
    if m.used >= RECEIVE_BUFFER_SIZE then ArmInterval(m, cfg) else Looked(Filled(m, bytes), cfg, env)
  }

  /** The next slave's turn. */
  function Polled(m: Master, cfg: Config, env: Env): (m': Master)
    requires |m.slaves| > 0 && -1 <= m.current < |m.slaves| && |m.request| == REQUEST_SIZE
    ensures Shaped(m') && |m'.slaves| == |m.slaves| && m'.polls == m.polls + [m'.current]
    ensures m'.current == if m.current + 1 >= |m.slaves| then 0 else m.current + 1
  {
    var next := if m.current + 1 >= |m.slaves| then 0 else m.current + 1;
    var m1 := m.(ack := 0, buffer := Zeros(RECEIVE_BUFFER_SIZE), used := 0, current := next, polls := m.polls + [next]);
    var s := Now(m1);
    if s.queue != [] then Sent(m1, cfg, env)
    else if env.pushes then Sent(WithNow(m1, Pushed(s, Empty(TRIES_EMPTY))), cfg, env)
    else m1
  }

  function TimedOut(m: Master, elapsed: nat, cfg: Config, env: Env): (m': Master)
    requires Shaped(m)
    ensures Shaped(m') && |m'.slaves| == |m.slaves|
  {
    var m1 := Disarm(m);
    if elapsed < (if m.interval then cfg.interval else cfg.timeout)
    then Arm(m1, if m.interval then cfg.interval else cfg.timeout)
    else if m.interval then Polled(m1.(interval := false), cfg, env)
    else GivenUp(m1, cfg)
  }

  /** A data request is queued for slave `i`. */
  function Accepted(s: Slave, packet: seq<byte>): Slave {
    Pushed(s, Data(s.accepted, packet, TRIES_DATA)).(accepted := s.accepted + 1)
  }

  /** Queues a request for all slaves from `i` on, until memory runs out. */
  function Broadcast(m: Master, i: nat, packet: seq<byte>, pushes: nat -> bool): (m': Master)
    ensures m' == m.(slaves := m'.slaves) && |m'.slaves| == |m.slaves|
    decreases |m.slaves| - i
  {
    if i >= |m.slaves| || !pushes(i) then m
    else Broadcast(m.(slaves := m.slaves[i := Accepted(m.slaves[i], packet)]), i + 1, packet, pushes)
  }

  /** Queues a request for the first slave with an address, if there is one. */
  function Addressed(m: Master, i: nat, address: byte, packet: seq<byte>, pushes: nat -> bool): (m': Master)
    ensures m' == m.(slaves := m'.slaves) && |m'.slaves| == |m.slaves|
    decreases |m.slaves| - i
  {
    if i >= |m.slaves| then m
    else if m.slaves[i].address != address then Addressed(m, i + 1, address, packet, pushes)
    else if pushes(i) then m.(slaves := m.slaves[i := Accepted(m.slaves[i], packet)])
    else m
  }

  /** Slave `i` is the first with an address. */
  predicate FirstWith(slaves: seq<Slave>, address: byte, i: nat)
    requires i < |slaves|
  {
    slaves[i].address == address && forall j :: 0 <= j < i ==> slaves[j].address != address
  }

  /** A request for UID 0, or for a device that no slave is known for, goes to all slaves. */
  predicate IsForAll(packet: seq<byte>, recipient: Option<byte>)
    requires |packet| >= 4
  {
    recipient == None || (packet[0] == 0 && packet[1] == 0 && packet[2] == 0 && packet[3] == 0)
  }

  /** Slave `i` is meant by a request. */
  predicate IsMeant(slaves: seq<Slave>, packet: seq<byte>, recipient: Option<byte>, i: nat)
    requires |packet| >= 4 && i < |slaves|
  {
    IsForAll(packet, recipient) || FirstWith(slaves, recipient.value, i)
  }

  function Dispatched(m: Master, packet: seq<byte>, recipient: Option<byte>, pushes: nat -> bool): (m': Master)
    requires |packet| >= 4
    ensures m' == m.(slaves := m'.slaves) && |m'.slaves| == |m.slaves|
  {
    if IsForAll(packet, recipient) then Broadcast(m, 0, packet, pushes)
    else Addressed(m, 0, recipient.value, packet, pushes)
  }

  // ----- frames

  /** A packet as its header describes it. */
  predicate Legal(packet: seq<byte>) {
    8 <= |packet| <= 80 && Value(packet[4]) == |packet|
  }

  /** The frame that was written passes for its own echo. */
  lemma FrameIsEchoed(m: Master, s: Slave, packet: seq<byte>, crc: seq<byte> -> bv16)
    requires Shaped(m) && Legal(packet)
    requires var frame := FrameOf(s, packet, crc);
             m.buffer[..|frame|] == frame && exists r :: |r| == REQUEST_SIZE && m.request == Overwritten(r, frame)
    ensures FrameLength(m) == |packet| + OVERHEAD && Echoed(m)
  {
    var frame := FrameOf(s, packet, crc);
    assert m.buffer[7] == m.buffer[..|frame|][7] == packet[4];
    assert m.request[..|frame|] == frame;
  }

  /** A slave that answers in the same way passes the checks of the master. */
  lemma AnswerPasses(m: Master, s: Slave, packet: seq<byte>, cfg: Config)
    requires Shaped(m) && Legal(packet) && m.used >= |packet| + OVERHEAD
    requires var frame := FrameOf(s, packet, cfg.crc); m.buffer[..|frame|] == frame
    requires m.request[0] == s.address && m.request[1] == FUNCTION_CODE
    ensures Complete(m) && Checks(m, cfg)
  {
    var frame := FrameOf(s, packet, cfg.crc);
    var n, body := |frame|, [s.address, FUNCTION_CODE, s.sequence] + packet;
    assert forall i :: 0 <= i < n ==> m.buffer[i] == frame[i];
    assert m.buffer[7] == packet[4];
    assert m.buffer[..n - 2] == body;
    JoinedHalves(cfg.crc(body));
  }
}
