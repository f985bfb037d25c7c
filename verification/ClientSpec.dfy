/** What a client's byte stream amounts to: the requests in it, how each is handled, and what has to happen before a
    request reaches the hardware when a secret is configured. */
module ClientSpec {
  import opened Bytes
  import opened Wrappers

  const HEADER_SIZE := 8
  const PACKET_SIZE := 80
  const NONCE_REQUEST_SIZE := 8
  const AUTHENTICATE_REQUEST_SIZE := 32
  const UID_BRICK_DAEMON: seq<byte> := [1, 0, 0, 0]

  /** The constants and functions that come from elsewhere: three function IDs, the validity of a header, the keyed
      digest of a secret and a text, and whether there is memory to remember a request as pending, which may differ from
      request to request. A valid header has a length between those of a header and of a packet. */
  datatype Config = Config(nonceFunction: byte, authenticateFunction: byte, probeFunction: byte,
                           isValid: seq<byte> -> bool, mac: (seq<byte>, seq<byte>) -> seq<byte>,
                           secret: Option<seq<byte>>, room: nat -> bool)

  ghost predicate Sound(cfg: Config) {
    forall h :: |h| == HEADER_SIZE && cfg.isValid(h) ==> HEADER_SIZE <= Value(h[4]) <= PACKET_SIZE
  }

  // ----- a complete request and its fields

  type Packet = p: seq<byte> | HEADER_SIZE <= |p| <= PACKET_SIZE witness Zeros(HEADER_SIZE)

  function Uid(p: Packet): seq<byte> { p[..4] }

  function FunctionId(p: Packet): byte { p[5] }

  predicate ResponseExpected(p: Packet) { p[6] & 0x08 != 0 }

  function ClientNonce(p: Packet): seq<byte>
    requires |p| == AUTHENTICATE_REQUEST_SIZE
  {
    p[8..12]
  }

  function ClaimedDigest(p: Packet): seq<byte>
    requires |p| == AUTHENTICATE_REQUEST_SIZE
  {
    p[12..32]
  }

  // ----- handling one request

  datatype Authentication = Disabled | Enabled | NonceSent | Done

  /** `handled` counts the requests, which tells their allocations apart. */
  datatype Session = Session(auth: Authentication, disconnected: bool, nonce: seq<byte>, handled: nat)

  /** A new client: it has to authenticate if there is a secret. */
  function Created(cfg: Config, nonce: seq<byte>): Session {
    Session(if cfg.secret.Some? then Enabled else Disabled, false, nonce, 0)
  }

  /** What happens to a request: it is taken from the stream and perhaps remembered as pending, a nonce is written in
      response to it, it opens the way to authentication, it is accepted as authentication, answered otherwise, or
      handed to the hardware. A response finds its way to the client only if the request was remembered. */
  datatype Event =
    | Taken(request: Packet, remembered: bool)
    | NonceResponse(request: Packet)
    | NonceGiven(request: Packet)
    | Accepted(request: Packet)
    | Response(request: Packet)
    | Hardware(request: Packet)

  datatype Step = Step(s: Session, events: seq<Event>)

  predicate DigestMatches(cfg: Config, nonce: seq<byte>, p: Packet) {
    && |p| == AUTHENTICATE_REQUEST_SIZE
    && cfg.secret.Some?
    && ClaimedDigest(p) == cfg.mac(cfg.secret.value, nonce + ClientNonce(p))
  }

  /** The nonce counts as given whether or not there is a request to answer. */
  function NonceHandled(s: Session, p: Packet, remembered: bool): Step {
    if |p| != NONCE_REQUEST_SIZE || s.auth.Disabled? || s.auth.NonceSent? then Step(s.(disconnected := true), [])
    else Step(s.(auth := NonceSent), (if remembered then [NonceResponse(p)] else []) + [NonceGiven(p)])
  }

  function AuthenticateHandled(cfg: Config, s: Session, p: Packet, remembered: bool): Step {
    if !s.auth.NonceSent? || !DigestMatches(cfg, s.nonce, p) then Step(s.(disconnected := true), [])
    else Step(s.(auth := Done), [Accepted(p)] + if remembered then [Response(p)] else [])
  }

  predicate IsNonceRequest(cfg: Config, p: Packet) {
    Uid(p) == UID_BRICK_DAEMON && FunctionId(p) == cfg.nonceFunction
  }

  /** A client that need not authenticate or has done so. */
  predicate Open(s: Session) { s.auth.Disabled? || s.auth.Done? }

  /** A request to the daemon itself. The last kind of response is withheld from a client that is not open. */
  function DaemonHandled(cfg: Config, s: Session, p: Packet, remembered: bool): Step {
    if FunctionId(p) == cfg.nonceFunction then NonceHandled(s, p, remembered)
    else if FunctionId(p) == cfg.authenticateFunction then AuthenticateHandled(cfg, s, p, remembered)
    else Step(s, if remembered && Open(s) then [Response(p)] else [])
  }

  predicate Remembers(cfg: Config, s: Session, p: Packet) {
    ResponseExpected(p) && cfg.room(s.handled)
  }

  function Handled(cfg: Config, s: Session, p: Packet): Step {
    var remembered, s' := Remembers(cfg, s, p), s.(handled := s.handled + 1);
    if Uid(p) == UID_BRICK_DAEMON then
      var step := DaemonHandled(cfg, s', p, remembered);
      step.(events := [Taken(p, remembered)] + step.events)
    else if Open(s) then Step(s', [Taken(p, remembered), Hardware(p)])
    else Step(s', [Taken(p, false)])
  }

  /** A nonce request that is in order opens the way to authentication in any case, but a nonce is written in response
      to it if and only if a response is expected and there is memory to remember the request. */
  lemma NonceAnsweredExactly(cfg: Config, s: Session, p: Packet)
    requires IsNonceRequest(cfg, p) && |p| == NONCE_REQUEST_SIZE && (s.auth.Enabled? || s.auth.Done?)
    ensures Handled(cfg, s, p).s.auth.NonceSent? && NonceGiven(p) in Handled(cfg, s, p).events
    ensures NonceResponse(p) in Handled(cfg, s, p).events <==> ResponseExpected(p) && cfg.room(s.handled)
  {
    var r := Remembers(cfg, s, p);
    assert Handled(cfg, s, p).events == [Taken(p, r)] + ((if r then [NonceResponse(p)] else []) + [NonceGiven(p)]);
  }

  // ----- every request that reaches the hardware is authenticated

  /** No nonce request was taken from position `j` to position `n`. */
  ghost predicate NoNonceRequest(cfg: Config, trace: seq<Event>, j: nat, n: nat) {
    forall m :: j < m < n && m < |trace| && trace[m].Taken? ==> !IsNonceRequest(cfg, trace[m].request)
  }

  /** Authentication was completed in `trace[..n]`: a nonce was given at `j`, then at `k` a digest over that client's
      nonce was accepted, and no nonce request was taken since `j`. */
  ghost predicate AuthenticatedBy(cfg: Config, nonce: seq<byte>, trace: seq<Event>, n: nat, j: nat, k: nat) {
    && j < k < n <= |trace|
    && trace[j].NonceGiven?
    && trace[k].Accepted? && DigestMatches(cfg, nonce, trace[k].request)
    && NoNonceRequest(cfg, trace, j, n)
  }

  ghost predicate Authenticated(cfg: Config, nonce: seq<byte>, trace: seq<Event>, n: nat) {
    exists j: nat, k: nat :: AuthenticatedBy(cfg, nonce, trace, n, j, k)
  }

  ghost predicate HardwareOnlyAuthenticated(cfg: Config, nonce: seq<byte>, trace: seq<Event>) {
    forall i: nat :: i < |trace| && trace[i].Hardware? ==> Authenticated(cfg, nonce, trace, i)
  }

  /** A nonce was given, at `j`, and no nonce request was taken since. */
  ghost predicate NonceOut(cfg: Config, trace: seq<Event>, j: nat) {
    j < |trace| && trace[j].NonceGiven? && NoNonceRequest(cfg, trace, j, |trace|)
  }

  /** Right before a nonce was given at `j`, its request was taken without being remembered, or it was taken, remembered
      and answered. */
  predicate GivenFor(cfg: Config, trace: seq<Event>, j: nat, p: Packet) {
    && IsNonceRequest(cfg, p)
    && (|| (1 <= j <= |trace| && trace[j - 1] == Taken(p, false))
        || (2 <= j <= |trace| && trace[j - 1] == NonceResponse(p) && trace[j - 2] == Taken(p, true)))
  }

  /** Right before a nonce response was written at `j`, its request was taken and remembered. */
  predicate WrittenFor(cfg: Config, trace: seq<Event>, j: nat, p: Packet) {
    IsNonceRequest(cfg, p) && 1 <= j <= |trace| && trace[j - 1] == Taken(p, true)
  }

  predicate Served(cfg: Config, trace: seq<Event>, j: nat)
    requires j < |trace|
  {
    && (trace[j].NonceGiven? ==> GivenFor(cfg, trace, j, trace[j].request))
    && (trace[j].NonceResponse? ==> WrittenFor(cfg, trace, j, trace[j].request))
  }

  ghost predicate AllServed(cfg: Config, trace: seq<Event>) {
    forall j: nat :: j < |trace| ==> Served(cfg, trace, j)
  }

  /** What the session and the trace have to do with each other. */
  ghost predicate InStep(cfg: Config, s: Session, trace: seq<Event>) {
    && s.auth != Disabled
    && (s.auth.NonceSent? && !s.disconnected ==> exists j: nat :: NonceOut(cfg, trace, j))
    && (s.auth.Done? && !s.disconnected ==> Authenticated(cfg, s.nonce, trace, |trace|))
    && HardwareOnlyAuthenticated(cfg, s.nonce, trace)
    && AllServed(cfg, trace)
  }

  ghost predicate Harmless(cfg: Config, e: Event) {
    !(e.Taken? && IsNonceRequest(cfg, e.request))
  }

  lemma NoneMore(cfg: Config, trace: seq<Event>, more: seq<Event>, j: nat, n: nat)
    requires j < |trace| <= n <= |trace + more| && NoNonceRequest(cfg, trace, j, |trace|)
    requires forall e :: e in more ==> Harmless(cfg, e)
    ensures NoNonceRequest(cfg, trace + more, j, n)
  {
    assert forall m :: |trace| <= m < n ==> (trace + more)[m] in more;
  }

  /** More events that are not nonce requests do not undo an authentication, and none reaches back. */
  lemma Extends(cfg: Config, nonce: seq<byte>, trace: seq<Event>, more: seq<Event>)
    requires forall e :: e in more ==> Harmless(cfg, e)
    ensures Authenticated(cfg, nonce, trace, |trace|) ==>
              forall n :: |trace| <= n <= |trace + more| ==> Authenticated(cfg, nonce, trace + more, n)
  {
    if Authenticated(cfg, nonce, trace, |trace|) {
      var j: nat, k: nat :| AuthenticatedBy(cfg, nonce, trace, |trace|, j, k);
      forall n | |trace| <= n <= |trace + more|
        ensures Authenticated(cfg, nonce, trace + more, n)
      {
        NoneMore(cfg, trace, more, j, n);
        assert AuthenticatedBy(cfg, nonce, trace + more, n, j, k);
      }
    }
  }

  lemma NonceStaysOut(cfg: Config, trace: seq<Event>, more: seq<Event>)
    requires exists j: nat :: NonceOut(cfg, trace, j)
    requires forall e :: e in more ==> Harmless(cfg, e)
    ensures exists j: nat :: NonceOut(cfg, trace + more, j)
  {
    var j: nat :| NonceOut(cfg, trace, j);
    NoneMore(cfg, trace, more, j, |trace + more|);
    assert NonceOut(cfg, trace + more, j);
  }

  lemma KeepsPast(cfg: Config, nonce: seq<byte>, trace: seq<Event>, more: seq<Event>, i: nat)
    requires i <= |trace| && Authenticated(cfg, nonce, trace, i)
    ensures Authenticated(cfg, nonce, trace + more, i)
  {
    var j: nat, k: nat :| AuthenticatedBy(cfg, nonce, trace, i, j, k);
    assert AuthenticatedBy(cfg, nonce, trace + more, i, j, k);
  }

  lemma QuietKeeps(cfg: Config, nonce: seq<byte>, trace: seq<Event>, more: seq<Event>)
    requires HardwareOnlyAuthenticated(cfg, nonce, trace)
    requires forall e :: e in more ==> !e.Hardware?
    ensures HardwareOnlyAuthenticated(cfg, nonce, trace + more)
  {
    var all := trace + more;
    assert forall i: nat :: |trace| <= i < |all| ==> all[i] in more;
    forall i: nat | i < |trace| && all[i].Hardware?
      ensures Authenticated(cfg, nonce, all, i)
    {
      KeepsPast(cfg, nonce, trace, more, i);
    }
  }

  lemma HardwareKeeps(cfg: Config, nonce: seq<byte>, trace: seq<Event>, taken: Event, p: Packet)
    requires HardwareOnlyAuthenticated(cfg, nonce, trace) && Authenticated(cfg, nonce, trace, |trace|)
    requires taken.Taken? && Harmless(cfg, taken)
    ensures HardwareOnlyAuthenticated(cfg, nonce, trace + [taken, Hardware(p)])
    ensures var all := trace + [taken, Hardware(p)]; Authenticated(cfg, nonce, all, |all|)
  {
    Extends(cfg, nonce, trace, [taken, Hardware(p)]);
    var all := trace + [taken, Hardware(p)];
    forall i: nat | i < |all| && all[i].Hardware?
      ensures Authenticated(cfg, nonce, all, i)
    {
      if i < |trace| {
        KeepsPast(cfg, nonce, trace, [taken, Hardware(p)], i);
      }
    }
  }

  lemma AcceptedNow(cfg: Config, s: Session, trace: seq<Event>, p: Packet, remembered: bool, after: seq<Event>)
    requires (exists j: nat :: NonceOut(cfg, trace, j)) && !IsNonceRequest(cfg, p)
    requires DigestMatches(cfg, s.nonce, p) && forall e :: e in after ==> !e.Taken?
    ensures var all := trace + ([Taken(p, remembered)] + ([Accepted(p)] + after));
            Authenticated(cfg, s.nonce, all, |all|)
  {
    var more := [Taken(p, remembered)] + ([Accepted(p)] + after);
    var all := trace + more;
    var j: nat :| NonceOut(cfg, trace, j);
    NoneMore(cfg, trace, more, j, |all|);
    assert all[j] == trace[j] && all[|trace| + 1] == Accepted(p);
    assert AuthenticatedBy(cfg, s.nonce, all, |all|, j, |trace| + 1);
  }

  lemma NonceNowOut(cfg: Config, trace: seq<Event>, before: seq<Event>, p: Packet)
    ensures exists j: nat :: NonceOut(cfg, trace + (before + [NonceGiven(p)]), j)
  {
    var all := trace + (before + [NonceGiven(p)]);
    assert NonceOut(cfg, all, |all| - 1);
  }

  lemma ServedMore(cfg: Config, trace: seq<Event>, more: seq<Event>)
    requires AllServed(cfg, trace) && AllServed(cfg, more)
    ensures AllServed(cfg, trace + more)
  {
    var all := trace + more;
    forall j: nat | j < |all|
      ensures Served(cfg, all, j)
    {
      if j < |trace| {
        assert Served(cfg, trace, j);
      } else {
        ServedBehind(cfg, trace, more, j - |trace|);
      }
    }
  }

  lemma ServedBehind(cfg: Config, trace: seq<Event>, more: seq<Event>, j: nat)
    requires j < |more| && Served(cfg, more, j)
    ensures Served(cfg, trace + more, |trace| + j)
  {
    var all := trace + more;
    assert all[|trace| + j] == more[j];
    assert j >= 1 ==> all[|trace| + j - 1] == more[j - 1];
    assert j >= 2 ==> all[|trace| + j - 2] == more[j - 2];
  }

  lemma DaemonServes(cfg: Config, s: Session, p: Packet, remembered: bool)
    requires Uid(p) == UID_BRICK_DAEMON
    ensures AllServed(cfg, [Taken(p, remembered)] + DaemonHandled(cfg, s, p, remembered).events)
  {
    var events := DaemonHandled(cfg, s, p, remembered).events;
    if FunctionId(p) == cfg.nonceFunction && events != [] {
      var more := [Taken(p, remembered)] + events;
      assert more == if remembered then [Taken(p, true), NonceResponse(p), NonceGiven(p)]
                     else [Taken(p, false), NonceGiven(p)];
    }
  }

  lemma DaemonKeeps(cfg: Config, s: Session, p: Packet, trace: seq<Event>, remembered: bool)
    requires InStep(cfg, s, trace) && !s.disconnected && Uid(p) == UID_BRICK_DAEMON
    ensures var step := DaemonHandled(cfg, s, p, remembered);
            InStep(cfg, step.s, trace + ([Taken(p, remembered)] + step.events))
  {
    var step := DaemonHandled(cfg, s, p, remembered);
    var more := [Taken(p, remembered)] + step.events;
    QuietKeeps(cfg, s.nonce, trace, more);
    DaemonServes(cfg, s, p, remembered);
    ServedMore(cfg, trace, more);
    if !step.s.disconnected {
      if FunctionId(p) == cfg.nonceFunction {
        var before := [Taken(p, remembered)] + if remembered then [NonceResponse(p)] else [];
        assert more == before + [NonceGiven(p)];
        NonceNowOut(cfg, trace, before, p);
      } else if FunctionId(p) == cfg.authenticateFunction {
        AcceptedNow(cfg, s, trace, p, remembered, if remembered then [Response(p)] else []);
      } else {
        Extends(cfg, s.nonce, trace, more);
        if s.auth.NonceSent? {
          NonceStaysOut(cfg, trace, more);
        }
      }
    }
  }

  lemma HardwareStepKeeps(cfg: Config, s: Session, p: Packet, trace: seq<Event>, remembered: bool)
    requires InStep(cfg, s, trace) && !s.disconnected && s.auth.Done? && Uid(p) != UID_BRICK_DAEMON
    ensures InStep(cfg, s, trace + [Taken(p, remembered), Hardware(p)])
  {
    HardwareKeeps(cfg, s.nonce, trace, Taken(p, remembered), p);
    ServedMore(cfg, trace, [Taken(p, remembered), Hardware(p)]);
  }

  lemma DroppedKeeps(cfg: Config, s: Session, p: Packet, trace: seq<Event>)
    requires InStep(cfg, s, trace) && !s.disconnected && !Open(s) && Uid(p) != UID_BRICK_DAEMON
    ensures InStep(cfg, s, trace + [Taken(p, false)])
  {
    QuietKeeps(cfg, s.nonce, trace, [Taken(p, false)]);
    ServedMore(cfg, trace, [Taken(p, false)]);
    if s.auth.NonceSent? {
      NonceStaysOut(cfg, trace, [Taken(p, false)]);
    }
  }

  lemma HandledIs(cfg: Config, s: Session, p: Packet, keeps: (Session, seq<Event>) -> bool)
    requires var remembered, s' := Remembers(cfg, s, p), s.(handled := s.handled + 1);
             if Uid(p) == UID_BRICK_DAEMON then
               var step := DaemonHandled(cfg, s', p, remembered);
               keeps(step.s, [Taken(p, remembered)] + step.events)
             else if Open(s) then keeps(s', [Taken(p, remembered), Hardware(p)])
             else keeps(s', [Taken(p, false)])
    ensures keeps(Handled(cfg, s, p).s, Handled(cfg, s, p).events)
  {
  }

  /** What every request keeps. */
  lemma HandledKeeps(cfg: Config, s: Session, p: Packet, trace: seq<Event>)
    requires InStep(cfg, s, trace) && !s.disconnected
    ensures var step := Handled(cfg, s, p); InStep(cfg, step.s, trace + step.events) && step.s.nonce == s.nonce
  {
    var remembered, s' := Remembers(cfg, s, p), s.(handled := s.handled + 1);
    if Uid(p) == UID_BRICK_DAEMON {
      DaemonKeeps(cfg, s', p, trace, remembered);
    } else if Open(s) {
      HardwareStepKeeps(cfg, s', p, trace, remembered);
    } else {
      DroppedKeeps(cfg, s', p, trace);
    }
    HandledIs(cfg, s, p, (t: Session, events) => InStep(cfg, t, trace + events) && t.nonce == s.nonce);
  }

  // ----- requests in a stream of bytes

  datatype Next = Incomplete | Invalid | Complete(request: Packet)

  /** What the buffer starts with. */
  function NextOf(cfg: Config, buffer: seq<byte>): Next {
    if |buffer| < HEADER_SIZE then Incomplete
    else if !cfg.isValid(buffer[..HEADER_SIZE]) then Invalid
    else
      var n := Value(buffer[4]);
      if |buffer| < n then Incomplete
      else if HEADER_SIZE <= n <= PACKET_SIZE then Complete(buffer[..n])
      else Invalid
  }

  /** A client between two reads: the bytes not used yet, and everything that has happened. */
  datatype Client = Client(s: Session, buffer: seq<byte>, trace: seq<Event>)

  /** A disconnect probe is dropped, any other request handled. */
  function RequestTaken(cfg: Config, c: Client, p: Packet): Client {
    if FunctionId(p) == cfg.probeFunction then c
    else
      var step := Handled(cfg, c.s, p);
      c.(s := step.s, trace := c.trace + step.events)
  }

  /** All complete requests in the buffer, up to the first disconnect. */
  function Drained(cfg: Config, c: Client): Client
    decreases |c.buffer|
  {
    if c.s.disconnected then c
    else
      match NextOf(cfg, c.buffer)
      case Incomplete => c
      case Invalid => c.(s := c.s.(disconnected := true))
      case Complete(p) => Drained(cfg, RequestTaken(cfg, c, p).(buffer := c.buffer[|p|..]))
  }

  /** One round of draining. */
  function DrainedOnce(cfg: Config, c: Client): Client {
    match NextOf(cfg, c.buffer)
    case Incomplete => c
    case Invalid => c.(s := c.s.(disconnected := true))
    case Complete(p) => RequestTaken(cfg, c, p).(buffer := c.buffer[|p|..])
  }

  lemma DrainedByRounds(cfg: Config, c: Client)
    requires !c.s.disconnected
    ensures Drained(cfg, DrainedOnce(cfg, c)) == Drained(cfg, c)
  {
  }

  /** More bytes arrive; a disconnected client reads no more. */
  function Fed(cfg: Config, c: Client, chunk: seq<byte>): Client {
    if c.s.disconnected then c else Drained(cfg, c.(buffer := c.buffer + chunk))
  }

  function FedAll(cfg: Config, c: Client, chunks: seq<seq<byte>>): Client {
    if chunks == [] then c else Fed(cfg, FedAll(cfg, c, chunks[..|chunks| - 1]), chunks[|chunks| - 1])
  }

  /** Two clients to which the same has happened: nothing tells them apart except, once they are disconnected, bytes
      that will never be looked at. */
  predicate Same(c: Client, d: Client) {
    c.s == d.s && c.trace == d.trace && (c.s.disconnected || c.buffer == d.buffer)
  }

  lemma NextIsStable(cfg: Config, buffer: seq<byte>, more: seq<byte>)
    ensures var n := NextOf(cfg, buffer); n != Incomplete ==> NextOf(cfg, buffer + more) == n
  {
    var all := buffer + more;
    if |buffer| >= HEADER_SIZE {
      assert all[..HEADER_SIZE] == buffer[..HEADER_SIZE] && all[4] == buffer[4];
      var n := Value(buffer[4]);
      if n <= |buffer| {
        assert all[..n] == buffer[..n];
      }
    }
  }

  /** Draining what is there first and the rest later comes to the same as draining everything at once. */
  lemma {:induction false} DrainedInTwo(cfg: Config, c: Client, more: seq<byte>)
    ensures Same(Fed(cfg, Drained(cfg, c), more), Drained(cfg, c.(buffer := c.buffer + more)))
    decreases |c.buffer|
  {
    if !c.s.disconnected {
      NextIsStable(cfg, c.buffer, more);
      match NextOf(cfg, c.buffer)
      case Complete(p) =>
        var d := RequestTaken(cfg, c, p).(buffer := c.buffer[|p|..]);
        DrainedInTwo(cfg, d, more);
        assert (c.buffer + more)[|p|..] == c.buffer[|p|..] + more;
        DrainedAfter(cfg, c, p);
        DrainedAfter(cfg, c.(buffer := c.buffer + more), p);
        TakenElsewhere(cfg, c, p, c.buffer + more);
      case _ =>
    }
  }

  lemma DrainedAfter(cfg: Config, c: Client, p: Packet)
    requires !c.s.disconnected && NextOf(cfg, c.buffer) == Complete(p)
    ensures |p| <= |c.buffer| && Drained(cfg, c) == Drained(cfg, RequestTaken(cfg, c, p).(buffer := c.buffer[|p|..]))
  {
  }

  /** What a request does has nothing to do with the bytes behind it. */
  lemma TakenElsewhere(cfg: Config, c: Client, p: Packet, buffer: seq<byte>)
    ensures RequestTaken(cfg, c.(buffer := buffer), p) == RequestTaken(cfg, c, p).(buffer := buffer)
  {
  }

  /** What is left in the buffer is always less than a packet. */
  lemma {:induction false} DrainedIsShort(cfg: Config, c: Client)
    requires Sound(cfg)
    ensures var d := Drained(cfg, c);
            !d.s.disconnected ==> |d.buffer| < PACKET_SIZE && NextOf(cfg, d.buffer) == Incomplete
    decreases |c.buffer|
  {
    if !c.s.disconnected {
      match NextOf(cfg, c.buffer)
      case Complete(p) => DrainedIsShort(cfg, RequestTaken(cfg, c, p).(buffer := c.buffer[|p|..]));
      case _ =>
    }
  }

  lemma SameFed(cfg: Config, c: Client, d: Client, chunk: seq<byte>)
    requires Same(c, d)
    ensures Same(Fed(cfg, c, chunk), Fed(cfg, d, chunk))
  {
    if !c.s.disconnected {
      assert c == d;
    }
  }

  /** However the bytes of a client are cut into reads, the same requests are handled with the same effects. */
  lemma {:induction false} CutsDoNotMatter(cfg: Config, nonce: seq<byte>, chunks: seq<seq<byte>>)
    ensures var c := Client(Created(cfg, nonce), [], []);
            Same(FedAll(cfg, c, chunks), Fed(cfg, c, Concatenated(chunks)))
    decreases |chunks|
  {
    var c := Client(Created(cfg, nonce), [], []);
    if chunks == [] {
      assert c.buffer + Concatenated(chunks) == [];
    } else {
      var n := |chunks| - 1;
      var before, last := Concatenated(chunks[..n]), chunks[n];
      CutsDoNotMatter(cfg, nonce, chunks[..n]);
      SameFed(cfg, FedAll(cfg, c, chunks[..n]), Fed(cfg, c, before), last);
      DrainedInTwo(cfg, c.(buffer := c.buffer + before), last);
      assert c.buffer + before + last == c.buffer + (before + last);
    }
  }

  lemma {:induction false} DrainedKeeps(cfg: Config, c: Client)
    requires InStep(cfg, c.s, c.trace)
    ensures var d := Drained(cfg, c); InStep(cfg, d.s, d.trace) && d.s.nonce == c.s.nonce
    decreases |c.buffer|
  {
    if !c.s.disconnected {
      match NextOf(cfg, c.buffer)
      case Complete(p) =>
        HandledKeeps(cfg, c.s, p, c.trace);
        DrainedKeeps(cfg, RequestTaken(cfg, c, p).(buffer := c.buffer[|p|..]));
      case _ =>
    }
  }

  lemma {:induction false} FedAllKeeps(cfg: Config, nonce: seq<byte>, chunks: seq<seq<byte>>)
    requires cfg.secret.Some?
    ensures var c := FedAll(cfg, Client(Created(cfg, nonce), [], []), chunks);
            InStep(cfg, c.s, c.trace) && c.s.nonce == nonce
    decreases |chunks|
  {
    if chunks != [] {
      var n := |chunks| - 1;
      FedAllKeeps(cfg, nonce, chunks[..n]);
      var c := FedAll(cfg, Client(Created(cfg, nonce), [], []), chunks[..n]);
      DrainedKeeps(cfg, c.(buffer := c.buffer + chunks[n]));
    }
  }

  /** Everything that happens to a new client that sends `chunks`. */
  function TraceOf(cfg: Config, nonce: seq<byte>, chunks: seq<seq<byte>>): seq<Event> {
    FedAll(cfg, Client(Created(cfg, nonce), [], []), chunks).trace
  }

  /** Over every run of a client created with a secret, whatever it sends: each request handed to the hardware comes
      after a nonce was given and a later authenticate request with the right digest, with no nonce request since the
      nonce was given. */
  lemma OnlyAuthenticatedRequestsReachHardware(cfg: Config, nonce: seq<byte>, chunks: seq<seq<byte>>)
    requires cfg.secret.Some?
    ensures HardwareOnlyAuthenticated(cfg, nonce, TraceOf(cfg, nonce, chunks))
  {
    FedAllKeeps(cfg, nonce, chunks);
  }

  /** The request for a nonce was the last one taken before the nonce was given. */
  predicate AskedAt(trace: seq<Event>, m: nat, j: nat) {
    && m < j < |trace| && trace[j].NonceGiven? && trace[m].Taken? && trace[m].request == trace[j].request
    && forall l :: m < l < j ==> !trace[l].Taken?
  }

  /** Over every such run, a nonce was written before it was given if and only if the request for it was remembered. */
  lemma NonceWrittenIfRemembered(cfg: Config, nonce: seq<byte>, chunks: seq<seq<byte>>, j: nat) returns (m: nat)
    requires cfg.secret.Some?
    requires var trace := TraceOf(cfg, nonce, chunks); j < |trace| && trace[j].NonceGiven?
    ensures var trace := TraceOf(cfg, nonce, chunks);
            && AskedAt(trace, m, j) && IsNonceRequest(cfg, trace[j].request)
            && (trace[m].remembered <==> NonceResponse(trace[j].request) in trace[m..j])
  {
    FedAllKeeps(cfg, nonce, chunks);
    var trace := TraceOf(cfg, nonce, chunks);
    assert Served(cfg, trace, j);
    m := if trace[j - 1].Taken? then j - 1 else j - 2;
    assert trace[m..j] == if trace[j - 1].Taken? then [trace[j - 1]] else [trace[j - 2], trace[j - 1]];
  }

  /** What one would expect before the hardware is reached at `i`: a nonce was written at `j`, then at `k` a digest over
      it was accepted, and no nonce request was taken since `j`. */
  ghost predicate AnsweredBy(cfg: Config, nonce: seq<byte>, trace: seq<Event>, i: nat, j: nat, k: nat) {
    && j < k < i <= |trace| && trace[j].NonceResponse?
    && trace[k].Accepted? && DigestMatches(cfg, nonce, trace[k].request)
    && NoNonceRequest(cfg, trace, j, i)
  }

  /** The last nonce request before `i` was taken at `m`, and remembered. */
  ghost predicate LastRemembered(cfg: Config, trace: seq<Event>, i: nat, m: nat) {
    && m < i <= |trace| && trace[m].Taken? && trace[m].remembered && IsNonceRequest(cfg, trace[m].request)
    && NoNonceRequest(cfg, trace, m, i)
  }

  lemma AnswerWasRemembered(cfg: Config, nonce: seq<byte>, trace: seq<Event>, i: nat, j: nat, k: nat)
    requires AllServed(cfg, trace) && AnsweredBy(cfg, nonce, trace, i, j, k)
    ensures j >= 1 && LastRemembered(cfg, trace, i, j - 1)
  {
    assert Served(cfg, trace, j);
  }

  lemma RememberedWasAnswered(cfg: Config, nonce: seq<byte>, trace: seq<Event>, i: nat, m: nat)
    requires AllServed(cfg, trace) && LastRemembered(cfg, trace, i, m) && Authenticated(cfg, nonce, trace, i)
    ensures exists j: nat, k: nat :: AnsweredBy(cfg, nonce, trace, i, j, k)
  {
    var g: nat, k: nat :| AuthenticatedBy(cfg, nonce, trace, i, g, k);
    assert Served(cfg, trace, g);
    if trace[g - 1] == Taken(trace[g].request, false) {
      assert false;
    }
    assert AnsweredBy(cfg, nonce, trace, i, g - 1, k);
  }

  /** Over every run, a request handed to the hardware comes after a nonce that was written and a digest over it, if and
      only if the last nonce request before it was remembered. */
  lemma HardwareAfterResponseExactly(cfg: Config, nonce: seq<byte>, chunks: seq<seq<byte>>, i: nat)
    requires cfg.secret.Some? && i < |TraceOf(cfg, nonce, chunks)| && TraceOf(cfg, nonce, chunks)[i].Hardware?
    ensures (exists j: nat, k: nat :: AnsweredBy(cfg, nonce, TraceOf(cfg, nonce, chunks), i, j, k))
       <==> exists m: nat :: LastRemembered(cfg, TraceOf(cfg, nonce, chunks), i, m)
  {
    var trace := TraceOf(cfg, nonce, chunks);
    FedAllKeeps(cfg, nonce, chunks);
    if j: nat, k: nat :| AnsweredBy(cfg, nonce, trace, i, j, k) {
      AnswerWasRemembered(cfg, nonce, trace, i, j, k);
    }
    if m: nat :| LastRemembered(cfg, trace, i, m) {
      RememberedWasAnswered(cfg, nonce, trace, i, m);
    }
  }

  // ----- the nonce response may be missing

  /** A packet that arrives on its own. */
  predicate Whole(cfg: Config, p: Packet) {
    cfg.isValid(p[..HEADER_SIZE]) && Value(p[4]) == |p| && FunctionId(p) != cfg.probeFunction
  }

  lemma FedWhole(cfg: Config, c: Client, p: Packet)
    requires !c.s.disconnected && c.buffer == [] && Whole(cfg, p)
    ensures Fed(cfg, c, p) == RequestTaken(cfg, c, p).(buffer := [])
  {
    assert [] + p == p && p[..|p|] == p;
    var d := c.(buffer := p);
    DrainedAfter(cfg, d, p);
    TakenElsewhere(cfg, c, p, p);
    assert p[|p|..] == [];
  }

  /** A nonce request that expects no response; like the next two, it has sequence number 1. */
  function MuteNonceRequest(cfg: Config): Packet { UID_BRICK_DAEMON + [8, cfg.nonceFunction, 0x10, 0] }

  /** The authenticate request with the right digest for a nonce of zeros. */
  function RightAuthenticateRequest(cfg: Config, nonce: seq<byte>): (p: Packet)
    requires cfg.secret.Some? && |cfg.mac(cfg.secret.value, nonce + Zeros(4))| == 20
    ensures |p| == AUTHENTICATE_REQUEST_SIZE
  {
    UID_BRICK_DAEMON + [32, cfg.authenticateFunction, 0x10, 0] + Zeros(4) + cfg.mac(cfg.secret.value, nonce + Zeros(4))
  }

  /** A request for some device. */
  function DeviceRequest(functionId: byte): Packet { [2, 0, 0, 0, 8, functionId, 0x10, 0] }

  lemma RightDigestMatches(cfg: Config, nonce: seq<byte>)
    requires cfg.secret.Some? && |cfg.mac(cfg.secret.value, nonce + Zeros(4))| == 20
    ensures var p := RightAuthenticateRequest(cfg, nonce);
            && DigestMatches(cfg, nonce, p) && Uid(p) == UID_BRICK_DAEMON
            && FunctionId(p) == cfg.authenticateFunction && !ResponseExpected(p)
  {
    var p := RightAuthenticateRequest(cfg, nonce);
    assert p[8..12] == Zeros(4) && p[12..32] == cfg.mac(cfg.secret.value, nonce + Zeros(4));
    assert p[..4] == UID_BRICK_DAEMON;
  }

  lemma MuteNonceTaken(cfg: Config, c: Client, p: Packet)
    requires IsNonceRequest(cfg, p) && |p| == NONCE_REQUEST_SIZE && !ResponseExpected(p) && c.s.auth.Enabled?
    requires FunctionId(p) != cfg.probeFunction
    ensures RequestTaken(cfg, c, p)
         == c.(s := c.s.(auth := NonceSent, handled := c.s.handled + 1),
               trace := c.trace + [Taken(p, false), NonceGiven(p)])
  {
    assert [Taken(p, false)] + ([] + [NonceGiven(p)]) == [Taken(p, false), NonceGiven(p)];
  }

  lemma RightDigestTaken(cfg: Config, c: Client, p: Packet)
    requires Uid(p) == UID_BRICK_DAEMON && FunctionId(p) == cfg.authenticateFunction != cfg.nonceFunction
    requires c.s.auth.NonceSent? && DigestMatches(cfg, c.s.nonce, p) && !ResponseExpected(p)
    requires FunctionId(p) != cfg.probeFunction
    ensures RequestTaken(cfg, c, p)
         == c.(s := c.s.(auth := Done, handled := c.s.handled + 1), trace := c.trace + [Taken(p, false), Accepted(p)])
  {
    assert [Taken(p, false)] + ([Accepted(p)] + []) == [Taken(p, false), Accepted(p)];
  }

  lemma DeviceTaken(cfg: Config, c: Client, p: Packet)
    requires Uid(p) != UID_BRICK_DAEMON && c.s.auth.Done? && !ResponseExpected(p) && FunctionId(p) != cfg.probeFunction
    ensures RequestTaken(cfg, c, p)
         == c.(s := c.s.(handled := c.s.handled + 1), trace := c.trace + [Taken(p, false), Hardware(p)])
  {
  }

  /** Whatever the packets: without a response the nonce counts as given, and authentication with it counts. */
  lemma MuteExchange(cfg: Config, nonce: seq<byte>, p: Packet, q: Packet, r: Packet)
    requires cfg.secret.Some? && cfg.nonceFunction != cfg.authenticateFunction
    requires Whole(cfg, p) && IsNonceRequest(cfg, p) && |p| == NONCE_REQUEST_SIZE && !ResponseExpected(p)
    requires Whole(cfg, q) && Uid(q) == UID_BRICK_DAEMON && FunctionId(q) == cfg.authenticateFunction
    requires DigestMatches(cfg, nonce, q) && !ResponseExpected(q)
    requires Whole(cfg, r) && Uid(r) != UID_BRICK_DAEMON && !ResponseExpected(r)
    ensures FedAll(cfg, Client(Created(cfg, nonce), [], []), [p, q, r]).trace
         == [Taken(p, false), NonceGiven(p), Taken(q, false), Accepted(q), Taken(r, false), Hardware(r)]
  {
    var c := Client(Created(cfg, nonce), [], []);
    FedWhole(cfg, c, p);
    MuteNonceTaken(cfg, c, p);
    var c1 := Fed(cfg, c, p);
    FedWhole(cfg, c1, q);
    RightDigestTaken(cfg, c1, q);
    var c2 := Fed(cfg, c1, q);
    FedWhole(cfg, c2, r);
    DeviceTaken(cfg, c2, r);
    FedThree(cfg, c, p, q, r);
  }

  lemma FedNext(cfg: Config, c: Client, chunks: seq<seq<byte>>, p: seq<byte>)
    ensures FedAll(cfg, c, chunks + [p]) == Fed(cfg, FedAll(cfg, c, chunks), p)
  {
    assert (chunks + [p])[..|chunks|] == chunks;
  }

  lemma FedThree(cfg: Config, c: Client, p: seq<byte>, q: seq<byte>, r: seq<byte>)
    ensures FedAll(cfg, c, [p, q, r]) == Fed(cfg, Fed(cfg, Fed(cfg, c, p), q), r)
  {
    FedNext(cfg, c, [], p);
    FedNext(cfg, c, [p], q);
    FedNext(cfg, c, [p, q], r);
    assert [] + [p] == [p] && [p] + [q] == [p, q] && [p, q] + [r] == [p, q, r];
  }

  /** A client whose nonce request expects no response gets no nonce, and still opens the hardware by authenticating. */
  lemma UnansweredNonceOpensHardware(cfg: Config, nonce: seq<byte>, functionId: byte)
    requires cfg.secret.Some? && |cfg.mac(cfg.secret.value, nonce + Zeros(4))| == 20
    requires cfg.nonceFunction != cfg.authenticateFunction
    requires Whole(cfg, MuteNonceRequest(cfg)) && Whole(cfg, DeviceRequest(functionId))
    requires Whole(cfg, RightAuthenticateRequest(cfg, nonce))
    ensures var chunks := [MuteNonceRequest(cfg), RightAuthenticateRequest(cfg, nonce), DeviceRequest(functionId)];
            var trace := FedAll(cfg, Client(Created(cfg, nonce), [], []), chunks).trace;
            |trace| == 6 && trace[5] == Hardware(chunks[2]) && forall i :: 0 <= i < 6 ==> !trace[i].NonceResponse?
  {
    RightDigestMatches(cfg, nonce);
    MutePackets(cfg, functionId);
    MuteExchange(cfg, nonce, MuteNonceRequest(cfg), RightAuthenticateRequest(cfg, nonce), DeviceRequest(functionId));
  }

  lemma MutePackets(cfg: Config, functionId: byte)
    ensures IsNonceRequest(cfg, MuteNonceRequest(cfg)) && !ResponseExpected(MuteNonceRequest(cfg))
    ensures Uid(DeviceRequest(functionId)) != UID_BRICK_DAEMON && !ResponseExpected(DeviceRequest(functionId))
  {
    var p, r := MuteNonceRequest(cfg), DeviceRequest(functionId);
    assert p[..4] == UID_BRICK_DAEMON && p[5] == cfg.nonceFunction && p[6] == 0x10;
    assert Uid(r)[0] != UID_BRICK_DAEMON[0] && r[6] == 0x10;
  }
}
