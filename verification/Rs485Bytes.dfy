/** What the RS485 master does, byte by byte and field by field. */
module Rs485Bytes {
  import opened Bytes
  import opened Wrappers
  import opened Rs485Spec

  // ----- the timer

  /** The timer that a duration in nanoseconds makes of another: one that is no fraction of a second leaves it alone. */
  function TimerFor(timer: Timer, ns: nat): Timer {
    if ns >= 1_000_000_000 then timer else if ns == 0 then Off else Armed
  }

  /** The master waits for the delay between polls; nothing else has changed since `m`. */
  predicate Waits(m: Master, m': Master, cfg: Config) {
    m' == m.(interval := true, timer := TimerFor(m.timer, cfg.interval))
  }

  // ----- a frame is written

  function PacketBytes(e: Entry): seq<byte> {
    match e
    case Data(_, packet, _) => packet
    case Empty(_) => [0, 0, 0, 0, 8, 0, 0, 0]
  }

  /** The bytes of a frame: address, function code 100, number, packet, and the checksum of all that, high byte
      first. */
  predicate IsFrame(frame: seq<byte>, address: byte, number: byte, packet: seq<byte>, crc: seq<byte> -> bv16) {
    var n := |packet|;
    && |frame| == n + 5 && frame[0] == address && frame[1] == 100 && frame[2] == number && frame[3..n + 3] == packet
    && Says(frame[n + 3], frame[n + 4], crc(frame[..n + 3]))
  }

  /** Two bytes make a checksum, the high one first. */
  predicate Says(high: byte, low: byte, crc: bv16) {
    (high as bv16) * 256 + (low as bv16) == crc
  }

  lemma ChecksumBytes(x: bv16)
    ensures Says(High(x), Low(x), x)
  {
  }

  lemma FrameIsFrame(s: Slave, packet: seq<byte>, crc: seq<byte> -> bv16)
    ensures IsFrame(FrameOf(s, packet, crc), s.address, s.sequence, packet, crc)
  {
    var frame := FrameOf(s, packet, crc);
    var body := [s.address, FUNCTION_CODE, s.sequence] + packet;
    assert frame[..|packet| + 3] == body && frame[3..|packet| + 3] == packet;
    ChecksumBytes(crc(body));
  }

  lemma FrameInFront(request: seq<byte>, frame: seq<byte>)
    requires |frame| <= |request|
    ensures var r := Overwritten(request, frame); r[..|frame|] == frame && r[|frame|..] == request[|frame|..]
  {
  }

  /** Without a request, or when the line does not take the frame, the master waits for the next poll. */
  lemma NotSent(m: Master, cfg: Config, env: Env)
    requires Shaped(m) && (Now(m).queue == [] || !env.writes)
    ensures Waits(m, Sent(m, cfg, env), cfg)
  {
  }

  lemma SentFields(m: Master, cfg: Config, env: Env)
    requires Shaped(m) && Now(m).queue != [] && env.writes
    ensures var m', s := Sent(m, cfg, env), Now(m);
            && m'.request == Overwritten(m.request, FrameOf(s, PacketBytes(s.queue[0]), cfg.crc))
            && m' == m.(request := m'.request, verify := true, timer := TimerFor(m.timer, cfg.timeout),
                        slaves := m.slaves[m.current := s.(wire := if s.queue[0].Data? then s.wire + [s.queue[0].tag]
                                                                   else s.wire)])
  {
  }

  /** Otherwise the frame of the head of the queue is remembered in front of what was there, its echo is due, the answer
      is timed, and a data request counts as written once more. */
  lemma SentOnBytes(m: Master, cfg: Config, env: Env)
    requires Shaped(m) && Now(m).queue != [] && env.writes && |PacketBytes(Now(m).queue[0])| <= 80
    ensures var m', s, n := Sent(m, cfg, env), Now(m), |PacketBytes(Now(m).queue[0])| + 5;
            && IsFrame(m'.request[..n], s.address, s.sequence, PacketBytes(s.queue[0]), cfg.crc)
            && m'.request[n..] == m.request[n..]
            && m' == m.(request := m'.request, verify := true, timer := TimerFor(m.timer, cfg.timeout),
                        slaves := m.slaves[m.current := s.(wire := if s.queue[0].Data? then s.wire + [s.queue[0].tag]
                                                                   else s.wire)])
  {
    var s := Now(m);
    var packet := PacketBytes(s.queue[0]);
    SentFields(m, cfg, env);
    FrameIsFrame(s, packet, cfg.crc);
    FrameInFront(m.request, FrameOf(s, packet, cfg.crc));
  }

  // ----- a request is over

  /** The last frame written polls a slave or acknowledges. */
  predicate PollsOnly(request: seq<byte>)
    requires |request| == REQUEST_SIZE
  {
    request[3..9] == [0, 0, 0, 0, 8, 0]
  }

  lemma PollBytes(request: seq<byte>)
    requires |request| == REQUEST_SIZE
    ensures IsEmptyRequest(request) <==> PollsOnly(request)
  {
    var r := request[3..9];
    assert r[0] == request[3] && r[1] == request[4] && r[2] == request[5] && r[3] == request[6];
    assert r[4] == request[7] && r[5] == request[8];
    assert PollsOnly(request) <==> r == [0, 0, 0, 0, 8, 0];
  }

  /** The queue of a slave when its head has used up a try: the head stays with one less, or goes with its last. */
  function WithoutTry(queue: seq<Entry>): seq<Entry> {
    if queue == [] then []
    else if queue[0].tries == 1 then queue[1..]
    else [queue[0].(tries := if queue[0].tries == 0 then 255 else queue[0].tries - 1)] + queue[1..]
  }

  lemma TriedOnBytes(s: Slave)
    ensures Tried(s) == s.(queue := WithoutTry(s.queue))
  {
    var q := s.queue;
    if q != [] && q[0].tries != 1 {
      var e := q[0].(tries := if q[0].tries == 0 then 255 else q[0].tries - 1);
      assert q[0 := e] == [e] + q[1..];
    }
  }

  /** A request that is given up: its number is used up only if it was a poll or an acknowledgement. */
  lemma GivenUpOnBytes(m: Master, cfg: Config)
    requires Shaped(m)
    ensures var s := Now(m);
            Waits(m.(slaves := m.slaves[m.current :=
                       s.(sequence := if PollsOnly(m.request) then s.sequence + 1 else s.sequence,
                          queue := WithoutTry(s.queue))]),
                  GivenUp(m, cfg), cfg)
  {
    PollBytes(m.request);
    TriedOnBytes(if IsEmptyRequest(m.request) then Bumped(Now(m)) else Now(m));
  }

  /** A request that succeeded: its number is used up and it leaves the queue. */
  lemma DoneOnBytes(m: Master, cfg: Config)
    requires Shaped(m)
    ensures var s := Now(m);
            Waits(m.(slaves := m.slaves[m.current := s.(sequence := s.sequence + 1,
                                                        queue := if s.queue == [] then [] else s.queue[1..])]),
                  Done(m, cfg), cfg)
  {
  }

  /** A data response is acknowledged with an empty packet, which takes the place of the head of the queue, or is queued
      on its own if there is memory; the receive buffer is cleared, and the frame is written. */
  lemma AcknowledgedOnBytes(m: Master, cfg: Config, env: Env)
    requires Shaped(m)
    ensures var s, m' := Now(m), Acknowledged(m, cfg, env);
            if s.queue == [] && !env.pushes then m' == m
            else m' == Sent(m.(ack := if s.queue == [] then 2 else 1, buffer := Zeros(1024), used := 0,
                               slaves := m.slaves[m.current :=
                                           s.(queue := [Empty(1)] + if s.queue == [] then [] else s.queue[1..])]),
                            cfg, env)
  {
    var q := Now(m).queue;
    if q == [] {
      assert q + [Empty(1)] == [Empty(1)] + [];
    } else {
      assert q[0 := Empty(1)] == [Empty(1)] + q[1..];
    }
  }

  // ----- a frame is received

  /** The length of the frame in the receive buffer. */
  function Length(m: Master): nat
    requires Shaped(m)
  {
    5 + Value(m.buffer[7])
  }

  /** The frame has the right checksum, and comes from the slave that was asked. */
  predicate Genuine(m: Master, cfg: Config)
    requires Shaped(m) && Length(m) <= m.used
  {
    var n := Length(m);
    && Says(m.buffer[n - 2], m.buffer[n - 1], cfg.crc(m.buffer[..n - 2]))
    && m.buffer[..2] == m.request[..2]
  }

  /** Its packet is empty, or a response: with a device and a function. */
  predicate HasNothing(m: Master)
    requires Shaped(m)
  {
    m.buffer[3..7] == [0, 0, 0, 0] && m.buffer[8] == 0
  }

  predicate HasResponse(m: Master)
    requires Shaped(m)
  {
    m.buffer[3..7] != [0, 0, 0, 0] && m.buffer[8] != 0
  }

  lemma UidBytes(m: Master)
    requires Shaped(m)
    ensures NoUid(m) <==> m.buffer[3..7] == [0, 0, 0, 0]
  {
    var u := m.buffer[3..7];
    assert u[0] == m.buffer[3] && u[1] == m.buffer[4] && u[2] == m.buffer[5] && u[3] == m.buffer[6];
  }

  lemma ChecksumIs(high: byte, low: byte, crc: bv16)
    ensures Joined(high, low) == crc <==> Says(high, low, crc)
  {
  }

  lemma FirstTwo(a: seq<byte>, b: seq<byte>)
    requires |a| >= 2 && |b| >= 2
    ensures a[..2] == b[..2] <==> a[0] == b[0] && a[1] == b[1]
  {
    assert a[..2] == [a[0], a[1]] && b[..2] == [b[0], b[1]];
  }

  lemma GenuineExactly(m: Master, cfg: Config)
    requires Shaped(m) && Length(m) <= m.used
    ensures Checks(m, cfg) <==> Genuine(m, cfg)
  {
    var n := Length(m);
    ChecksumIs(m.buffer[n - 2], m.buffer[n - 1], cfg.crc(m.buffer[..n - 2]));
    FirstTwo(m.buffer, m.request);
  }

  /** A frame that is no echo: a genuine response is acknowledged, and handed on if its number is that of the request; a
      genuine empty packet with that number ends the request; anything else makes the master give it up. */
  lemma AnsweredOnBytes(m: Master, cfg: Config, env: Env)
    requires Shaped(m) && Length(m) <= m.used
    ensures var m', stopped, right := Answered(m, cfg, env), m.(timer := Off), m.buffer[2] == m.request[2];
            if Genuine(m, cfg) && HasResponse(m) then
              m' == Acknowledged(if right then m.(responses := m.responses + [m.buffer[3..83]]) else m, cfg, env)
            else if Genuine(m, cfg) && HasNothing(m) && right then m' == Done(stopped, cfg)
            else m' == GivenUp(stopped, cfg)
  {
    GenuineExactly(m, cfg);
    UidBytes(m);
  }

  lemma FrontAndBack(a: seq<byte>, b: seq<byte>)
    ensures (a + b)[..|a|] == a && (a + b)[|a|..] == b
  {
  }

  /** The echo of an acknowledgement ends its request, or only the turn if it had been queued on its own; behind any
      other echo the bytes that are left move to the front of the buffer. */
  lemma VerifiedOnBytes(m: Master, cfg: Config)
    requires Shaped(m) && Length(m) <= m.used
    ensures var m', n := Verified(m, cfg), Length(m);
            if m.ack == 1 then m' == Done(m.(timer := Off), cfg)
            else if m.ack > 1 then Waits(m.(timer := Off), m', cfg)
            else
              && m' == m.(buffer := m'.buffer, used := m.used - n)
              && m'.buffer[..m.used - n] == m.buffer[n..m.used]
              && (m.used == n ==> m'.buffer == Zeros(1024))
              && (m.used != n ==> m'.buffer[m.used - n..] == m.buffer[m.used - n..])
  {
    var n := Length(m);
    if m.ack == 0 && m.used != n {
      FrontAndBack(m.buffer[n..m.used], m.buffer[m.used - n..]);
    }
  }

  /** A whole frame is there: its first eight bytes, and as many as they say. */
  predicate IsWhole(m: Master)
    requires Shaped(m)
  {
    8 <= m.used && Length(m) <= m.used
  }

  /** The frame in the buffer is the one that was written. */
  predicate ComesBack(m: Master)
    requires Shaped(m)
  {
    Length(m) <= 85 && forall i :: 0 <= i < Length(m) ==> m.buffer[i] == m.request[i]
  }

  lemma EchoBytes(m: Master)
    requires Shaped(m)
    ensures Echoed(m) <==> ComesBack(m)
  {
    var n := Length(m);
    if n <= 85 {
      assert m.buffer[..n] == m.request[..n] <==> forall i :: 0 <= i < n ==> m.buffer[..n][i] == m.request[..n][i];
    }
  }

  /** Nothing happens before a whole frame is there. If its echo is due, it has to be that, or the request is given up;
      behind the echo of a request the next frame counts as its answer. */
  lemma LookedOnBytes(m: Master, cfg: Config, env: Env)
    requires Shaped(m)
    ensures var m' := Looked(m, cfg, env);
            if !IsWhole(m) then m' == m
            else if !m.verify then m' == Answered(m, cfg, env)
            else if !ComesBack(m) then m' == GivenUp(m.(timer := Off), cfg)
            else
              var m1 := Verified(m.(verify := false), cfg);
              if m.ack == 0 && IsWhole(m1) then m' == Answered(m1, cfg, env) else m' == m1
  {
    EchoBytes(m);
  }

  /** New bytes go behind those that were received, as many as fit into 1024. */
  lemma FilledOnBytes(m: Master, bytes: seq<byte>)
    requires Shaped(m)
    ensures var m' := Filled(m, bytes);
            && m' == m.(buffer := m'.buffer, used := if m.used + |bytes| < 1024 then m.used + |bytes| else 1024)
            && |m'.buffer| == 1024
            && forall i :: 0 <= i < 1024 ==>
                 m'.buffer[i] == if m.used <= i < m'.used then bytes[i - m.used] else m.buffer[i]
  {
  }

  lemma ReceivedOnBytes(m: Master, bytes: seq<byte>, cfg: Config, env: Env)
    requires Shaped(m)
    ensures var m' := Received(m, bytes, cfg, env);
            if m.used >= 1024 then Waits(m, m', cfg) else m' == Looked(Filled(m, bytes), cfg, env)
  {
  }

  // ----- turns and requests

  /** The next slave's turn starts with an empty buffer; a slave with nothing queued is polled with an empty packet, if
      there is memory for one. */
  lemma PolledOnBytes(m: Master, cfg: Config, env: Env)
    requires |m.slaves| > 0 && -1 <= m.current < |m.slaves| && |m.request| == REQUEST_SIZE
    ensures var next := (m.current + 1) % |m.slaves|;
            var s := m.slaves[next];
            var m1 := m.(ack := 0, buffer := Zeros(1024), used := 0, current := next, polls := m.polls + [next]);
            if s.queue != [] then Polled(m, cfg, env) == Sent(m1, cfg, env)
            else if env.pushes
                 then Polled(m, cfg, env) == Sent(m1.(slaves := m.slaves[next := s.(queue := [Empty(1)])]), cfg, env)
            else Polled(m, cfg, env) == m1
  {
    NextTurn(m.current, |m.slaves|);
    assert [] + [Empty(1)] == [Empty(1)];
  }

  lemma NextTurn(i: int, n: nat)
    requires -1 <= i < n && n > 0
    ensures (i + 1) % n == if i + 1 >= n then 0 else i + 1
  {
  }

  /** A timeout that comes too early sets the timer again; otherwise the delay is over and the next slave is polled, or
      the request is given up. */
  lemma TimedOutOnBytes(m: Master, elapsed: nat, cfg: Config, env: Env)
    requires Shaped(m)
    ensures var m', due := TimedOut(m, elapsed, cfg, env), if m.interval then cfg.interval else cfg.timeout;
            if elapsed < due then m' == m.(timer := TimerFor(Off, due))
            else if m.interval then m' == Polled(m.(timer := Off, interval := false), cfg, env)
            else m' == GivenUp(m.(timer := Off), cfg)
  {
  }

  /** A request that is accepted for a slave has ten tries and the next tag, and waits behind the others. */
  lemma AcceptedOnBytes(s: Slave, packet: seq<byte>)
    ensures Accepted(s, packet)
         == s.(queue := s.queue + [Data(s.accepted, packet, 10)], accepted := s.accepted + 1)
  {
  }
}
