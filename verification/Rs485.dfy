/** The RS485 extension in master mode: the receive buffer, the current request, the flags and the queues. */
module Rs485 {
  import opened Bytes
  import opened Wrappers
  import opened Rs485Spec
  import opened Rs485Runs
  import Crc16

  ghost predicate LegalQueue(s: Slave) {
    forall j :: 0 <= j < |s.queue| ==> Legal(PacketOf(s.queue[j]))
  }

  ghost predicate AllLegal(slaves: seq<Slave>) {
    forall i :: 0 <= i < |slaves| ==> LegalQueue(slaves[i])
  }

  lemma TriedLegal(s: Slave)
    requires LegalQueue(s)
    ensures LegalQueue(Tried(s)) && LegalQueue(Popped(s))
  {
    if s.queue != [] {
      assert Legal(PacketOf(s.queue[0]));
    }
  }

  lemma PushedLegal(s: Slave, e: Entry)
    requires LegalQueue(s) && Legal(PacketOf(e))
    ensures LegalQueue(Pushed(s, e)) && (s.queue != [] ==> LegalQueue(s.(queue := s.queue[0 := e])))
  {
  }

  /** The checksum of frames is the byte-swapped MODBUS checksum. */
  ghost predicate IsCrc(crc: seq<byte> -> bv16) {
    forall data {:trigger Crc16.Modbus(data)} :: crc(data) == Crc16.Swapped(Crc16.Modbus(data))
  }

  // What bounds the writes of each request is kept by all that happens.

  lemma FullKeeps(m: Master, cfg: Config, env: Env)
    requires Shaped(m) && m.used >= RECEIVE_BUFFER_SIZE
    ensures Kept(m) ==> Kept(ArmInterval(m, cfg))
  {
    if Kept(m) {
      ReceivedKeeps(m, [], cfg, env);
    }
  }

  lemma TimeoutKeeps(m: Master, elapsed: nat, cfg: Config, env: Env)
    requires Shaped(m)
    ensures Kept(m) ==> Kept(TimedOut(m, elapsed, cfg, env))
  {
    if Kept(m) {
      TimedOutKeeps(m, elapsed, cfg, env);
    }
  }

  lemma DispatchKeeps(m: Master, packet: seq<byte>, recipient: Option<byte>, pushes: nat -> bool)
    requires Shaped(m) && Legal(packet)
    ensures Kept(m) ==> Kept(Dispatched(m, packet, recipient, pushes))
  {
    if Kept(m) {
      DispatchedKeeps(m, packet, recipient, pushes);
    }
  }

  class Extension {
    const cfg: Config
    const buffer: array<byte>
    const request: array<byte>
    var slaves: seq<Slave>
    var current: int
    var used: nat
    var verify: bool
    var ack: nat
    var interval: bool
    var timer: Timer
    ghost var polls: seq<int>
    ghost var responses: seq<seq<byte>>

    ghost function View(): Master
      reads this, buffer, request
    {
      Master(slaves, current, buffer[..], used, request[..], verify, ack, interval, timer, polls, responses)
    }

    /** All of it in place, perhaps before the first poll. */
    ghost predicate Ready()
      reads this, buffer, request
    {
      && buffer != request && IsCrc(cfg.crc) && buffer.Length == RECEIVE_BUFFER_SIZE && request.Length == REQUEST_SIZE
      && |slaves| > 0 && -1 <= current < |slaves| && AllLegal(slaves) && Value(request[7]) <= 80
    }

    ghost predicate Valid()
      reads this, buffer, request
    {
      Ready() && Shaped(View())
    }

    /** Polls the first slave at once. */
    constructor (addresses: seq<byte>, cfg: Config, env: Env)
      requires addresses != [] && IsCrc(cfg.crc)
      ensures Valid() && View() == Polled(Start(addresses), cfg, env) && Kept(View()) && this.cfg == cfg
      ensures fresh(buffer) && fresh(request)
    {
      this.cfg := cfg;
      buffer, request := new byte[RECEIVE_BUFFER_SIZE](_ => 0), new byte[REQUEST_SIZE](_ => 0);
      slaves := Start(addresses).slaves;
      current, used, verify, ack, interval, timer, polls, responses := -1, 0, false, 0, false, Off, [], [];
      new;
      assert buffer[..] == Zeros(RECEIVE_BUFFER_SIZE) && request[..] == Zeros(REQUEST_SIZE);
      PollSlave(env);
      StartKeeps(addresses, cfg, env);
    }

    method SetTimer(ns: nat)
      modifies `timer
      ensures View() == Arm(old(View()), ns)
    {
      if ns < SECOND {
        timer := if ns == 0 then Off else Armed;
      }
    }

    method DisableMasterTimer()
      modifies `timer
      ensures View() == Disarm(old(View()))
    {
      timer := Off;
    }

    method ArmPollInterval()
      modifies `timer, `interval
      ensures View() == ArmInterval(old(View()), cfg)
    {
      interval := true;
      SetTimer(cfg.interval);
    }

    method IsCurrentRequestEmpty() returns (empty: bool)
      requires Valid()
      ensures empty == IsEmptyRequest(request[..])
    {
      var uidIsZero := request[3] == 0 && request[4] == 0 && request[5] == 0 && request[6] == 0;
      empty := uidIsZero && request[7] == 8 && request[8] == 0;
    }

    /** The current slave changes. */
    method Change(s: Slave)
      requires Valid() && LegalQueue(s)
      modifies `slaves
      ensures Valid() && View() == WithNow(old(View()), s) && slaves[current] == s
    {
      slaves := slaves[current := s];
    }

    method BumpSequence()
      requires Valid()
      modifies `slaves
      ensures Valid() && View() == WithNow(old(View()), Bumped(Now(old(View()))))
    {
      var s := slaves[current];
      assert LegalQueue(slaves[current]);
      Change(s.(sequence := s.sequence + 1));
    }

    /** The head of the current queue has one try less and leaves with the last one. */
    method PopFromSlaveQueue()
      requires Valid()
      modifies `slaves
      ensures Valid() && View() == WithNow(old(View()), Tried(Now(old(View()))))
    {
      var s := slaves[current];
      assert LegalQueue(slaves[current]);
      TriedLegal(s);
      if s.queue != [] {
        var e := s.queue[0].(tries := if s.queue[0].tries == 0 then 255 else s.queue[0].tries - 1);
        Change(s.(queue := if e.tries == 0 then s.queue[1..] else s.queue[0 := e]));
      }
    }

    method SeqPopPoll()
      requires Valid()
      modifies `slaves, `timer, `interval
      ensures Valid() && View() == GivenUp(old(View()), cfg)
    {
      var empty := IsCurrentRequestEmpty();
      if empty {
        BumpSequence();
      }
      PopFromSlaveQueue();
      ArmPollInterval();
    }

    /** The current request is done with. */
    method Finish()
      requires Valid()
      modifies `slaves, `timer, `interval
      ensures Valid() && View() == Done(old(View()), cfg)
    {
      BumpSequence();
      var s := slaves[current];
      assert LegalQueue(slaves[current]);
      TriedLegal(s);
      Change(Popped(s));
      ArmPollInterval();
    }

    /** Remembers a frame that was written. */
    method Remember(frame: seq<byte>)
      requires |frame| <= request.Length
      modifies request
      ensures request[..] == Overwritten(old(request[..]), frame)
    {
      CopyTo(request, 0, frame, |frame|);
      assert request[..] == frame + old(request[..])[|frame|..];
    }

    method Checksum(data: seq<byte>) returns (crc: bv16)
      requires IsCrc(cfg.crc)
      ensures crc == cfg.crc(data)
    {
      crc := Crc16.Crc(data);
    }

    method Assemble(s: Slave, packet: seq<byte>) returns (frame: seq<byte>)
      requires IsCrc(cfg.crc)
      ensures frame == FrameOf(s, packet, cfg.crc)
    {
      var body := [s.address, FUNCTION_CODE, s.sequence] + packet;
      var crc := Checksum(body);
      frame := body + [High(crc), Low(crc)];
    }

    method SendPacket(env: Env)
      requires Valid()
      modifies `slaves, `timer, `interval, `verify, request
      ensures Valid() && View() == Sent(old(View()), cfg, env)
    {
      var s := slaves[current];
      assert LegalQueue(slaves[current]);
      if s.queue == [] || !env.writes {
        ArmPollInterval();
        return;
      }
      var packet := PacketOf(s.queue[0]);
      assert Legal(packet);
      var frame := Assemble(s, packet);
      Change(Written(s));
      assert frame[7] == packet[4];
      Remember(frame);
      verify := true;
      SetTimer(cfg.timeout);
    }

    method ClearBuffer()
      requires Ready()
      modifies `used, buffer
      ensures Ready() && View() == old(View()).(buffer := Zeros(RECEIVE_BUFFER_SIZE), used := 0)
    {
      used := 0;
      var i := 0;
      while i < buffer.Length
        invariant i <= buffer.Length && forall k :: 0 <= k < i ==> buffer[k] == 0
        modifies buffer
      {
        buffer[i] := 0;
        i := i + 1;
      }
      assert buffer[..] == Zeros(RECEIVE_BUFFER_SIZE);
    }

    /** The bytes from `n` on move to the front. */
    static method MoveDown(a: array<byte>, n: nat, end: nat)
      requires n <= end <= a.Length
      modifies a
      ensures a[..] == old(a[..])[n..end] + old(a[..])[end - n..]
    {
      var i := 0;
      while i < end - n
        invariant i <= end - n
        invariant forall k :: 0 <= k < i ==> a[k] == old(a[k + n])
        invariant forall k :: i <= k < a.Length ==> a[k] == old(a[k])
      {
        a[i] := a[i + n];
        i := i + 1;
      }
    }

    /** The bytes behind a frame move to the front. */
    method ShiftBuffer(n: nat)
      requires Valid() && n <= used
      modifies `used, buffer
      ensures Valid()
      ensures View() == old(View()).(buffer := old(buffer[..])[n..old(used)] + old(buffer[..])[old(used) - n..],
                                     used := old(used) - n)
    {
      MoveDown(buffer, n, used);
      used := used - n;
    }

    /** Compares what was received with the last frame written. The length byte is compared before the end of that frame
        can be passed. */
    method IsEcho(n: nat) returns (same: bool)
      requires Valid() && n == FrameLength(View())
      ensures same == Echoed(View())
    {
      var i := 0;
      while i < n
        invariant i <= n && i <= request.Length && n <= buffer.Length
        invariant forall k :: 0 <= k < i ==> buffer[k] == request[k]
      {
        assert i >= 8 ==> buffer[7] == request[7];
        if buffer[i] != request[i] {
          assert n <= REQUEST_SIZE ==> buffer[..n][i] != request[..n][i];
          return false;
        }
        i := i + 1;
      }
      assert buffer[..n] == request[..n];
      return true;
    }

    method IsChecksumRight(n: nat) returns (ok: bool)
      requires IsCrc(cfg.crc) && 2 <= n <= buffer.Length
      ensures ok == (Joined(buffer[n - 2], buffer[n - 1]) == cfg.crc(buffer[..][..n - 2]))
    {
      var body := buffer[..n - 2];
      assert buffer[..][..n - 2] == body;
      var calculated := Checksum(body);
      ok := calculated == Joined(buffer[n - 2], buffer[n - 1]);
    }

    /** The checksum, the address and the function code of the frame received. */
    method IsChecked(n: nat) returns (ok: bool)
      requires Valid() && n == FrameLength(View()) <= used
      ensures ok == Checks(View(), cfg)
    {
      ok := IsChecksumRight(n);
      ok := ok && buffer[0] == request[0] && buffer[1] == request[1];
    }

    /** Acknowledges a data response. */
    method Acknowledge(env: Env)
      requires Valid()
      modifies `slaves, `timer, `interval, `verify, `ack, `used, buffer, request
      ensures Valid() && View() == Acknowledged(old(View()), cfg, env)
    {
      var s := slaves[current];
      assert LegalQueue(slaves[current]);
      PushedLegal(s, Empty(TRIES_EMPTY));
      if s.queue == [] {
        if !env.pushes {
          return;
        }
        ack := 2;
        Change(Pushed(s, Empty(TRIES_EMPTY)));
      } else {
        ack := 1;
        Change(Replaced(s));
      }
      ClearBuffer();
      SendPacket(env);
    }

    /** A complete frame that is not the echo of the request. */
    method HandleAnswer(n: nat, env: Env)
      requires Valid() && n == FrameLength(View()) <= used
      modifies this, buffer, request
      ensures Valid() && View() == Answered(old(View()), cfg, env)
    {
      var ok := IsChecked(n);
      if !ok {
        DisableMasterTimer();
        SeqPopPoll();
        return;
      }
      var noUid := buffer[3] == 0 && buffer[4] == 0 && buffer[5] == 0 && buffer[6] == 0;
      if noUid && buffer[8] == 0 {
        DisableMasterTimer();
        if buffer[2] != request[2] {
          SeqPopPoll();
        } else {
          Finish();
        }
      } else if !noUid && buffer[8] != 0 {
        if buffer[2] == request[2] {
          responses := responses + [buffer[3..83]];
        }
        Acknowledge(env);
      } else {
        DisableMasterTimer();
        SeqPopPoll();
      }
    }

    /** The echo of the request is complete. */
    method HandleEcho(n: nat)
      requires Valid() && n == FrameLength(View()) <= used
      modifies this, buffer, request
      ensures Valid() && View() == Verified(old(View()), cfg)
    {
      if ack > 0 {
        DisableMasterTimer();
        if ack == 1 {
          Finish();
        } else {
          ArmPollInterval();
        }
      } else if used == n {
        ClearBuffer();
      } else {
        ShiftBuffer(n);
      }
    }

    method VerifyBuffer(env: Env)
      requires Valid()
      modifies this, buffer, request
      ensures Valid() && View() == Looked(old(View()), cfg, env)
      decreases verify
    {
      if used < 8 {
        return;
      }
      var n := OVERHEAD + Value(buffer[7]);
      if used < n {
        return;
      }
      if !verify {
        HandleAnswer(n, env);
        return;
      }
      var same := IsEcho(n);
      if !same {
        DisableMasterTimer();
        SeqPopPoll();
        return;
      }
      verify := false;
      var waiting := ack == 0;
      HandleEcho(n);
      if waiting && used >= 8 {
        VerifyBuffer(env);
      }
    }

    /** Turns to the next slave. */
    method Turn()
      requires Ready()
      modifies `ack, `current, `used, `polls, buffer
      ensures Valid()
      ensures View() == old(View()).(ack := 0, buffer := Zeros(RECEIVE_BUFFER_SIZE), used := 0, current := current,
                                     polls := old(polls) + [current])
      ensures current == if old(current) + 1 >= |slaves| then 0 else old(current) + 1
    {
      ack := 0;
      ClearBuffer();
      current := current + 1;
      if current >= |slaves| {
        current := 0;
      }
      polls := polls + [current];
    }

    method PollSlave(env: Env)
      requires Ready()
      modifies this, buffer, request
      ensures Valid() && View() == Polled(old(View()), cfg, env)
    {
      Turn();
      var s := slaves[current];
      if s.queue == [] {
        if !env.pushes {
          return;
        }
        PushedLegal(s, Empty(TRIES_EMPTY));
        Change(Pushed(s, Empty(TRIES_EMPTY)));
      }
      SendPacket(env);
    }

    /** Copies bytes into an array. */
    static method CopyTo(a: array<byte>, at: nat, bytes: seq<byte>, n: nat)
      requires at + n <= a.Length && n <= |bytes|
      modifies a
      ensures a[..] == old(a[..])[..at] + bytes[..n] + old(a[..])[at + n..]
    {
      var i := 0;
      while i < n
        invariant i <= n
        invariant forall k :: 0 <= k < i ==> a[at + k] == bytes[k]
        invariant forall k :: 0 <= k < a.Length && !(at <= k < at + i) ==> a[k] == old(a[k])
      {
        a[at + i] := bytes[i];
        i := i + 1;
      }
    }

    /** Bytes from the serial line go to the end of the buffer. */
    method Fill(bytes: seq<byte>)
      requires Valid() && used < RECEIVE_BUFFER_SIZE
      modifies `used, buffer
      ensures Valid() && View() == Filled(old(View()), bytes)
    {
      var n := if used + |bytes| <= RECEIVE_BUFFER_SIZE then |bytes| else RECEIVE_BUFFER_SIZE - used;
      CopyTo(buffer, used, bytes, n);
      used := used + n;
    }

    /** What the serial line delivers, or nothing if it cannot be read, which is looked at only when there is room. */
    method SerialDataAvailable(read: Option<seq<byte>>, env: Env)
      requires Valid()
      modifies this, buffer, request
      ensures Valid() && (old(Kept(View())) ==> Kept(View()))
      ensures View() == if read.Some? then Received(old(View()), read.value, cfg, env)
                        else if old(used) < RECEIVE_BUFFER_SIZE then old(View()) else ArmInterval(old(View()), cfg)
    {
      ghost var was := View();
      if used >= RECEIVE_BUFFER_SIZE {
        ArmPollInterval();
        FullKeeps(was, cfg, env);
        return;
      }
      if read.None? {
        return;
      }
      Fill(read.value);
      VerifyBuffer(env);
      if Kept(was) {
        ReceivedKeeps(was, read.value, cfg, env);
      }
    }

    /** `elapsed` is the time since the timer was set. */
    method MasterTimeout(elapsed: nat, env: Env)
      requires Valid()
      modifies this, buffer, request
      ensures Valid() && View() == TimedOut(old(View()), elapsed, cfg, env) && (old(Kept(View())) ==> Kept(View()))
    {
      TimeoutKeeps(View(), elapsed, cfg, env);
      DisableMasterTimer();
      if interval {
        if elapsed < cfg.interval {
          SetTimer(cfg.interval);
          return;
        }
        interval := false;
        PollSlave(env);
        return;
      }
      if elapsed < cfg.timeout {
        SetTimer(cfg.timeout);
        return;
      }
      SeqPopPoll();
    }

    method Enqueue(i: nat, packet: seq<byte>)
      requires Valid() && i < |slaves| && Legal(packet)
      modifies `slaves
      ensures Valid() && |slaves| == |old(slaves)|
      ensures View() == old(View()).(slaves := old(slaves)[i := Accepted(old(slaves)[i], packet)])
    {
      var s := slaves[i];
      assert LegalQueue(slaves[i]);
      PushedLegal(s, Data(s.accepted, packet, TRIES_DATA));
      slaves := slaves[i := Accepted(s, packet)];
    }

    /** Queues a request for all slaves. */
    method DispatchToAll(packet: seq<byte>, pushes: nat -> bool) returns (ok: bool)
      requires Valid() && Legal(packet)
      modifies `slaves
      ensures Valid() && View() == Broadcast(old(View()), 0, packet, pushes)
      ensures ok <==> forall i :: 0 <= i < |slaves| ==> pushes(i)
    {
      var i := 0;
      while i < |slaves|
        invariant Valid() && i <= |slaves| == |old(slaves)|
        invariant Broadcast(View(), i, packet, pushes) == Broadcast(old(View()), 0, packet, pushes)
        invariant forall k :: 0 <= k < i ==> pushes(k)
      {
        if !pushes(i) {
          return false;
        }
        Enqueue(i, packet);
        i := i + 1;
      }
      return true;
    }

    /** Queues a request for the slave with the recipient's address. */
    method DispatchToOne(address: byte, packet: seq<byte>, pushes: nat -> bool) returns (ok: bool)
      requires Valid() && Legal(packet)
      modifies `slaves
      ensures Valid() && View() == Addressed(old(View()), 0, address, packet, pushes)
      ensures ok <==> forall i :: 0 <= i < |old(slaves)| && FirstWith(old(slaves), address, i) ==> pushes(i)
    {
      var i := 0;
      while i < |slaves|
        invariant Valid() && i <= |slaves| && View() == old(View())
        invariant Addressed(View(), i, address, packet, pushes) == Addressed(old(View()), 0, address, packet, pushes)
        invariant forall k :: 0 <= k < i ==> slaves[k].address != address
      {
        if slaves[i].address == address {
          assert FirstWith(slaves, address, i);
          if pushes(i) {
            Enqueue(i, packet);
          }
          return pushes(i);
        }
        i := i + 1;
      }
      return true;
    }

    method Dispatch(packet: seq<byte>, recipient: Option<byte>, pushes: nat -> bool) returns (ok: bool)
      requires Valid() && Legal(packet)
      modifies `slaves
      ensures Valid() && View() == Dispatched(old(View()), packet, recipient, pushes)
      ensures old(Kept(View())) ==> Kept(View())
      ensures ok <==> forall i :: 0 <= i < |old(slaves)| && IsMeant(old(slaves), packet, recipient, i) ==> pushes(i)
    {
      DispatchKeeps(View(), packet, recipient, pushes);
      if recipient.None? || (packet[0] == 0 && packet[1] == 0 && packet[2] == 0 && packet[3] == 0) {
        ok := DispatchToAll(packet, pushes);
      } else {
        ok := DispatchToOne(recipient.value, packet, pushes);
      }
    }
  }
}
