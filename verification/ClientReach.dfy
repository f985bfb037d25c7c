/** What becomes of a request, by its bytes, and which requests reach the hardware. */
module ClientReach {
  import opened Bytes
  import opened Wrappers
  import opened ClientSpec

  // ----- one request

  /** The UID of the daemon, 1 in little-endian order. */
  predicate ForDaemon(p: Packet) { p[0] == 1 && p[1] == 0 && p[2] == 0 && p[3] == 0 }

  lemma UidBytes(p: Packet)
    ensures Uid(p) == UID_BRICK_DAEMON <==> ForDaemon(p)
  {
    assert Uid(p) == [p[0], p[1], p[2], p[3]];
  }

  function If(b: bool, e: Event): seq<Event> { if b then [e] else [] }

  /** A request is remembered if it expects a response, there is memory, and it is not dropped. */
  predicate Kept(cfg: Config, s: Session, p: Packet) {
    (p[6] / 8) % 2 == 1 && cfg.room(s.handled) && (ForDaemon(p) || s.auth == Disabled || s.auth == Done)
  }

  /** A nonce request that is in order: of the right length, from a client that has to authenticate and has no nonce
      out. */
  predicate Asks(cfg: Config, s: Session, p: Packet) {
    ForDaemon(p) && p[5] == cfg.nonceFunction && |p| == 8 && (s.auth == Enabled || s.auth == Done)
  }

  /** An authenticate request that is in order: of the right length, with a nonce out, and its last 20 bytes are the
      keyed digest of both nonces. */
  predicate Proves(cfg: Config, s: Session, p: Packet) {
    && ForDaemon(p) && p[5] == cfg.authenticateFunction != cfg.nonceFunction && |p| == 32 && s.auth == NonceSent
    && cfg.secret.Some? && p[12..32] == cfg.mac(cfg.secret.value, s.nonce + p[8..12])
  }

  /** Any other request to the daemon. */
  predicate IsOther(cfg: Config, p: Packet) {
    ForDaemon(p) && p[5] != cfg.nonceFunction && p[5] != cfg.authenticateFunction
  }

  predicate IsOpen(s: Session) { s.auth == Disabled || s.auth == Done }

  lemma ExpectedBit(b: byte)
    ensures b & 0x08 != 0 <==> (b / 8) % 2 == 1
  {
  }

  lemma DaemonOnBytes(cfg: Config, s: Session, p: Packet, remembered: bool)
    requires ForDaemon(p)
    ensures var step := DaemonHandled(cfg, s, p, remembered);
            && step.events == If(Asks(cfg, s, p) && remembered, NonceResponse(p)) + If(Asks(cfg, s, p), NonceGiven(p))
                            + If(Proves(cfg, s, p), Accepted(p))
                            + If(remembered && (Proves(cfg, s, p) || (IsOther(cfg, p) && IsOpen(s))), Response(p))
            && step.s == s.(auth := if Asks(cfg, s, p) then NonceSent else if Proves(cfg, s, p) then Done else s.auth,
                            disconnected := s.disconnected
                                            || !(Asks(cfg, s, p) || Proves(cfg, s, p) || IsOther(cfg, p)))
  {
    if p[5] == cfg.nonceFunction {
      assert !Proves(cfg, s, p) && !IsOther(cfg, p);
    } else if p[5] == cfg.authenticateFunction {
      assert !Asks(cfg, s, p) && !IsOther(cfg, p);
    } else {
      assert !Asks(cfg, s, p) && !Proves(cfg, s, p);
    }
  }

  lemma RemembersExactly(cfg: Config, s: Session, p: Packet)
    requires ForDaemon(p) || IsOpen(s)
    ensures Remembers(cfg, s, p) == Kept(cfg, s, p)
  {
    UidBytes(p);
    ExpectedBit(p[6]);
  }

  lemma ToDaemonOnBytes(cfg: Config, s: Session, p: Packet)
    requires ForDaemon(p)
    ensures var step := DaemonHandled(cfg, s.(handled := s.handled + 1), p, Kept(cfg, s, p));
            Handled(cfg, s, p) == step.(events := [Taken(p, Kept(cfg, s, p))] + step.events)
  {
    UidBytes(p);
    RemembersExactly(cfg, s, p);
  }

  lemma ToDeviceOnBytes(cfg: Config, s: Session, p: Packet)
    requires !ForDaemon(p)
    ensures Handled(cfg, s, p).s == s.(handled := s.handled + 1)
    ensures Handled(cfg, s, p).events == [Taken(p, Kept(cfg, s, p))] + If(IsOpen(s), Hardware(p))
  {
    UidBytes(p);
    if IsOpen(s) {
      RemembersExactly(cfg, s, p);
    }
  }

  lemma NoHardware(cfg: Config, s: Session, p: Packet, remembered: bool)
    ensures Hardware(p) !in DaemonHandled(cfg, s, p, remembered).events
  {
  }

  /** Everything that a request does, by its bytes and the state of the client. */
  lemma HandledOnBytes(cfg: Config, s: Session, p: Packet)
    ensures var step, kept := Handled(cfg, s, p), Kept(cfg, s, p);
            && step.events == [Taken(p, kept)]
                            + (If(Asks(cfg, s, p) && kept, NonceResponse(p)) + If(Asks(cfg, s, p), NonceGiven(p))
                               + If(Proves(cfg, s, p), Accepted(p))
                               + If(kept && (Proves(cfg, s, p) || (IsOther(cfg, p) && IsOpen(s))), Response(p)))
                            + If(!ForDaemon(p) && IsOpen(s), Hardware(p))
            && step.s == s.(auth := if Asks(cfg, s, p) then NonceSent else if Proves(cfg, s, p) then Done else s.auth,
                            disconnected := s.disconnected
                                            || (ForDaemon(p)
                                                && !(Asks(cfg, s, p) || Proves(cfg, s, p) || IsOther(cfg, p))),
                            handled := s.handled + 1)
  {
    if ForDaemon(p) {
      var s' := s.(handled := s.handled + 1);
      ToDaemonOnBytes(cfg, s, p);
      DaemonOnBytes(cfg, s', p, Kept(cfg, s, p));
      assert Proves(cfg, s', p) == Proves(cfg, s, p) && Asks(cfg, s', p) == Asks(cfg, s, p);
    } else {
      ToDeviceOnBytes(cfg, s, p);
    }
  }

  /** A request reaches the hardware if and only if it is for some device and the client need not authenticate or has
      done so. */
  lemma HardwareExactly(cfg: Config, s: Session, p: Packet)
    ensures Hardware(p) in Handled(cfg, s, p).events <==> !ForDaemon(p) && (s.auth == Disabled || s.auth == Done)
  {
    if ForDaemon(p) {
      ToDaemonOnBytes(cfg, s, p);
      NoHardware(cfg, s.(handled := s.handled + 1), p, Kept(cfg, s, p));
    } else {
      ToDeviceOnBytes(cfg, s, p);
    }
  }

  // ----- requests in the buffer

  /** A packet whose header is valid and says how long it is. */
  predicate Framed(cfg: Config, p: Packet) { cfg.isValid(p[..8]) && Value(p[4]) == |p| }

  /** Less than a packet: not even a header, or a valid header that announces more bytes. */
  predicate Short(cfg: Config, tail: seq<byte>) {
    |tail| < 8 || (cfg.isValid(tail[..8]) && |tail| < Value(tail[4]))
  }

  /** The requests one after the other, without disconnect probes, up to the first that disconnects the client. */
  function Through(cfg: Config, c: Client, ps: seq<Packet>): Client
    decreases |ps|
  {
    if ps == [] || c.s.disconnected then c
    else if ps[0][5] == cfg.probeFunction then Through(cfg, c, ps[1..])
    else
      var step := Handled(cfg, c.s, ps[0]);
      Through(cfg, c.(s := step.s, trace := c.trace + step.events), ps[1..])
  }

  lemma {:induction false} ConcatenatedFirst(first: seq<byte>, rest: seq<seq<byte>>)
    ensures Concatenated([first] + rest) == first + Concatenated(rest)
    decreases |rest|
  {
    var all := [first] + rest;
    if rest == [] {
      assert all[..0] == [];
    } else {
      var n := |rest| - 1;
      ConcatenatedFirst(first, rest[..n]);
      assert all[..|all| - 1] == [first] + rest[..n];
      assert first + Concatenated(rest[..n]) + rest[n] == first + (Concatenated(rest[..n]) + rest[n]);
    }
  }

  lemma NextIsFirst(cfg: Config, p: Packet, more: seq<byte>)
    requires Framed(cfg, p)
    ensures NextOf(cfg, p + more) == Complete(p) && (p + more)[|p|..] == more
  {
    assert (p + more)[..8] == p[..8] && (p + more)[..|p|] == p && (p + more)[4] == p[4];
  }

  lemma TakenIs(cfg: Config, c: Client, p: Packet)
    ensures RequestTaken(cfg, c, p)
         == if p[5] == cfg.probeFunction then c
            else c.(s := Handled(cfg, c.s, p).s, trace := c.trace + Handled(cfg, c.s, p).events)
  {
  }

  /** Bytes that are packets and the start of another one are handled packet by packet, and that start stays. */
  lemma {:induction false} DrainsPackets(cfg: Config, c: Client, ps: seq<Packet>, tail: seq<byte>)
    requires (forall i :: 0 <= i < |ps| ==> Framed(cfg, ps[i])) && Short(cfg, tail)
    requires c.buffer == Concatenated(ps) + tail
    ensures Same(Drained(cfg, c), Through(cfg, c, ps).(buffer := tail))
    decreases |ps|
  {
    if !c.s.disconnected {
      if ps == [] {
        assert c.buffer == tail;
      } else {
        var p, more := ps[0], Concatenated(ps[1..]) + tail;
        assert ps == [p] + ps[1..];
        ConcatenatedFirst(p, ps[1..]);
        assert c.buffer == p + more;
        NextIsFirst(cfg, p, more);
        DrainedAfter(cfg, c, p);
        TakenIs(cfg, c, p);
        var d := RequestTaken(cfg, c, p).(buffer := more);
        DrainsPackets(cfg, d, ps[1..], tail);
        ThroughElsewhere(cfg, RequestTaken(cfg, c, p), ps[1..], more);
      }
    }
  }

  lemma {:induction false} ThroughElsewhere(cfg: Config, c: Client, ps: seq<Packet>, buffer: seq<byte>)
    ensures Through(cfg, c.(buffer := buffer), ps) == Through(cfg, c, ps).(buffer := buffer)
    decreases |ps|
  {
    if ps != [] && !c.s.disconnected {
      if ps[0][5] == cfg.probeFunction {
        ThroughElsewhere(cfg, c, ps[1..], buffer);
      } else {
        var step := Handled(cfg, c.s, ps[0]);
        ThroughElsewhere(cfg, c.(s := step.s, trace := c.trace + step.events), ps[1..], buffer);
      }
    }
  }

  /** A header that is not valid disconnects the client, and nothing behind it is looked at. */
  lemma BadHeaderDisconnects(cfg: Config, c: Client)
    requires !c.s.disconnected && |c.buffer| >= 8 && !cfg.isValid(c.buffer[..8])
    ensures Drained(cfg, c) == c.(s := c.s.(disconnected := true))
  {
  }

  // ----- whole runs

  function TakenCount(trace: seq<Event>): nat {
    if trace == [] then 0
    else TakenCount(trace[..|trace| - 1]) + if trace[|trace| - 1].Taken? then 1 else 0
  }

  lemma {:induction false} TakenConcat(a: seq<Event>, b: seq<Event>)
    ensures TakenCount(a + b) == TakenCount(a) + TakenCount(b)
    decreases |b|
  {
    if b == [] {
      assert a + b == a;
    } else {
      var n := |b| - 1;
      TakenConcat(a, b[..n]);
      assert (a + b)[..|a + b| - 1] == a + b[..n];
    }
  }

  lemma {:induction false} TakenNone(b: seq<Event>)
    requires forall e :: e in b ==> !e.Taken?
    ensures TakenCount(b) == 0
  {
    if b != [] {
      TakenNone(b[..|b| - 1]);
    }
  }

  predicate IsNext(trace: seq<Event>, i: nat, e: Event) { i + 1 < |trace| && trace[i + 1] == e }

  /** What holds of the request taken at `i`: it was remembered if and only if it expects a response, there was memory
      for it, and it was for the daemon or went on to the hardware. */
  predicate Follows(cfg: Config, trace: seq<Event>, i: nat)
    requires i < |trace| && trace[i].Taken?
  {
    var p := trace[i].request;
    trace[i].remembered <==>
      && (p[6] / 8) % 2 == 1 && cfg.room(TakenCount(trace[..i]))
      && (ForDaemon(p) || IsNext(trace, i, Hardware(p)))
  }

  predicate Reaches(trace: seq<Event>, i: nat)
    requires i < |trace| && trace[i].Taken?
  {
    !ForDaemon(trace[i].request) ==> IsNext(trace, i, Hardware(trace[i].request))
  }

  ghost predicate AllFollow(cfg: Config, trace: seq<Event>) {
    forall i: nat :: i < |trace| && trace[i].Taken? ==> Follows(cfg, trace, i)
  }

  ghost predicate AllReach(trace: seq<Event>) {
    forall i: nat :: i < |trace| && trace[i].Taken? ==> Reaches(trace, i)
  }

  ghost predicate InOrder(cfg: Config, c: Client) {
    && c.s.handled == TakenCount(c.trace)
    && AllFollow(cfg, c.trace)
    && (cfg.secret.None? ==> c.s.auth == Disabled && AllReach(c.trace))
  }

  /** The events of one request: the first says that it was taken, and no other does. */
  ghost predicate OneTaken(events: seq<Event>) {
    events != [] && events[0].Taken? && forall i :: 0 < i < |events| ==> !events[i].Taken?
  }

  lemma OneMore(trace: seq<Event>, events: seq<Event>)
    requires OneTaken(events)
    ensures TakenCount(trace + events) == TakenCount(trace) + 1
  {
    assert events == [events[0]] + events[1..] && [events[0]][..0] == [];
    TakenNone(events[1..]);
    TakenConcat([events[0]], events[1..]);
    TakenConcat(trace, events);
  }

  /** What was said of earlier requests still holds. */
  lemma StillFollows(cfg: Config, trace: seq<Event>, events: seq<Event>, i: nat)
    requires OneTaken(events) && i < |trace| && trace[i].Taken? && Follows(cfg, trace, i)
    ensures Follows(cfg, trace + events, i)
    ensures Reaches(trace, i) ==> Reaches(trace + events, i)
  {
    var all := trace + events;
    assert all[..i] == trace[..i] && all[i] == trace[i];
    assert i + 1 < |trace| ==> all[i + 1] == trace[i + 1];
    assert i + 1 == |trace| ==> all[i + 1] == events[0];
  }

  lemma NowFollows(cfg: Config, s: Session, p: Packet, trace: seq<Event>, events: seq<Event>)
    requires OneTaken(events) && events[0] == Taken(p, Kept(cfg, s, p)) && s.handled == TakenCount(trace)
    requires (|events| > 1 && events[1] == Hardware(p)) == (!ForDaemon(p) && IsOpen(s))
    ensures Follows(cfg, trace + events, |trace|)
    ensures IsOpen(s) ==> Reaches(trace + events, |trace|)
  {
    var all := trace + events;
    assert all[..|trace|] == trace && all[|trace|] == events[0];
    assert |events| > 1 ==> all[|trace| + 1] == events[1];
  }

  lemma EventsOfOne(cfg: Config, s: Session, p: Packet)
    ensures var events := Handled(cfg, s, p).events;
            && OneTaken(events) && events[0] == Taken(p, Kept(cfg, s, p))
            && (|events| > 1 && events[1] == Hardware(p)) == (!ForDaemon(p) && IsOpen(s))
  {
    HandledOnBytes(cfg, s, p);
  }

  lemma AllInOrder(cfg: Config, s: Session, p: Packet, trace: seq<Event>, events: seq<Event>)
    requires OneTaken(events) && events[0] == Taken(p, Kept(cfg, s, p)) && s.handled == TakenCount(trace)
    requires (|events| > 1 && events[1] == Hardware(p)) == (!ForDaemon(p) && IsOpen(s))
    requires AllFollow(cfg, trace)
    ensures AllFollow(cfg, trace + events)
    ensures IsOpen(s) && AllReach(trace) ==> AllReach(trace + events)
  {
    var all := trace + events;
    NowFollows(cfg, s, p, trace, events);
    forall i: nat | i < |all| && all[i].Taken?
      ensures Follows(cfg, all, i) && (IsOpen(s) && AllReach(trace) ==> Reaches(all, i))
    {
      if i < |trace| {
        assert all[i] == trace[i];
        StillFollows(cfg, trace, events, i);
      } else {
        assert all[i] == events[i - |trace|];
      }
    }
  }

  /** Authentication that is not required stays so. */
  lemma StaysDisabled(cfg: Config, s: Session, p: Packet)
    requires cfg.secret.None? && s.auth == Disabled
    ensures Handled(cfg, s, p).s.auth == Disabled
  {
    HandledOnBytes(cfg, s, p);
  }

  lemma OneMoreHandled(cfg: Config, s: Session, p: Packet)
    ensures Handled(cfg, s, p).s.handled == s.handled + 1
  {
    HandledOnBytes(cfg, s, p);
  }

  lemma HandledInOrder(cfg: Config, c: Client, p: Packet)
    requires InOrder(cfg, c)
    ensures InOrder(cfg, c.(s := Handled(cfg, c.s, p).s, trace := c.trace + Handled(cfg, c.s, p).events))
  {
    var events := Handled(cfg, c.s, p).events;
    EventsOfOne(cfg, c.s, p);
    OneMore(c.trace, events);
    OneMoreHandled(cfg, c.s, p);
    AllInOrder(cfg, c.s, p, c.trace, events);
    if cfg.secret.None? {
      StaysDisabled(cfg, c.s, p);
    }
  }

  lemma {:induction false} DrainedInOrder(cfg: Config, c: Client)
    requires InOrder(cfg, c)
    ensures InOrder(cfg, Drained(cfg, c))
    decreases |c.buffer|
  {
    if !c.s.disconnected {
      match NextOf(cfg, c.buffer)
      case Complete(p) =>
        TakenIs(cfg, c, p);
        HandledInOrder(cfg, c, p);
        DrainedInOrder(cfg, RequestTaken(cfg, c, p).(buffer := c.buffer[|p|..]));
      case _ =>
    }
  }

  lemma {:induction false} FedAllInOrder(cfg: Config, nonce: seq<byte>, chunks: seq<seq<byte>>)
    ensures InOrder(cfg, FedAll(cfg, Client(Created(cfg, nonce), [], []), chunks))
    decreases |chunks|
  {
    if chunks != [] {
      var n := |chunks| - 1;
      FedAllInOrder(cfg, nonce, chunks[..n]);
      var c := FedAll(cfg, Client(Created(cfg, nonce), [], []), chunks[..n]);
      DrainedInOrder(cfg, c.(buffer := c.buffer + chunks[n]));
    }
  }

  /** Over every run, a request is remembered if and only if it expects a response, there is memory for it, and it is
      for the daemon or goes on to the hardware. */
  lemma RememberedExactly(cfg: Config, nonce: seq<byte>, chunks: seq<seq<byte>>, i: nat)
    requires i < |TraceOf(cfg, nonce, chunks)| && TraceOf(cfg, nonce, chunks)[i].Taken?
    ensures Follows(cfg, TraceOf(cfg, nonce, chunks), i)
  {
    FedAllInOrder(cfg, nonce, chunks);
  }

  /** Over every run of a client without a secret, each request for a device goes on to the hardware at once. */
  lemma WithoutSecretAllReach(cfg: Config, nonce: seq<byte>, chunks: seq<seq<byte>>, i: nat)
    requires cfg.secret.None? && i < |TraceOf(cfg, nonce, chunks)| && TraceOf(cfg, nonce, chunks)[i].Taken?
    requires !ForDaemon(TraceOf(cfg, nonce, chunks)[i].request)
    ensures IsNext(TraceOf(cfg, nonce, chunks), i, Hardware(TraceOf(cfg, nonce, chunks)[i].request))
  {
    FedAllInOrder(cfg, nonce, chunks);
    assert Reaches(TraceOf(cfg, nonce, chunks), i);
  }
}
