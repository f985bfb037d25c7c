/** How often a request is written to a slave that does not answer: exactly ten times. */
module Rs485Silence {
  import opened Bytes
  import opened Counting
  import opened Wrappers
  import opened Rs485Spec
  import opened Rs485Runs
  import opened Rs485Loss

  // ----- one slave

  /** Writes so far and tries left add up to ten, or to eleven for the head while its turn lasts. */
  predicate Adds(s: Slave, i: nat, open: bool)
    requires i < |s.queue|
  {
    && s.queue[i].tries >= 1
    && (s.queue[i].Data? ==> Times(s.wire, s.queue[i].tag) + s.queue[i].tries == 10 + if open && i == 0 then 1 else 0)
    && (s.queue[i].Empty? ==> s.queue[i].tries == 1)
  }

  /** Each data request that was accepted is still queued, or was written ten times; nothing else was written. */
  ghost predicate Spent(s: Slave) {
    forall t: nat :: if t < s.accepted then IsQueued(s, t) || Times(s.wire, t) == 10 else Times(s.wire, t) == 0
  }

  ghost predicate Exact(s: Slave, open: bool) {
    && Tags(s) && Spent(s) && (open ==> s.queue != [])
    && forall i :: 0 <= i < |s.queue| ==> Adds(s, i, open)
  }

  lemma ExactBumped(s: Slave, open: bool)
    requires Exact(s, open)
    ensures Exact(Bumped(s), open)
  {
    var b := Bumped(s);
    forall i | 0 <= i < |s.queue|
      ensures Adds(b, i, open)
    {
      assert Adds(s, i, open);
    }
    forall t: nat
      ensures IsQueued(b, t) == IsQueued(s, t)
    {
      SameTags(s, b, t);
      SameTags(b, s, t);
    }
  }

  /** The turn of the head is over: it has one try less, or is gone with its tenth write. */
  lemma ExactTried(s: Slave)
    requires Exact(s, true)
    ensures Exact(Tried(s), false)
  {
    assert Adds(s, 0, true);
    if s.queue[0].tries == 1 {
      ExactPopped(s);
    } else {
      var p := Tried(s);
      forall i | 0 <= i < |p.queue|
        ensures Adds(p, i, false)
      {
        assert Adds(s, i, true);
      }
      forall t: nat
        ensures IsQueued(p, t) == IsQueued(s, t)
      {
        SameTags(s, p, t);
        SameTags(p, s, t);
      }
    }
  }

  lemma SameTags(s: Slave, p: Slave, t: nat)
    requires |p.queue| == |s.queue|
    requires forall i :: 0 <= i < |s.queue| && s.queue[i].Data? ==> p.queue[i].Data? && p.queue[i].tag == s.queue[i].tag
    ensures IsQueued(s, t) ==> IsQueued(p, t)
  {
    if IsQueued(s, t) {
      var i :| 0 <= i < |s.queue| && s.queue[i].Data? && s.queue[i].tag == t;
      assert p.queue[i].tag == t;
    }
  }

  lemma ExactPopped(s: Slave)
    requires Exact(s, true) && s.queue[0].tries == 1
    ensures Exact(Popped(s), false)
  {
    var p := Popped(s);
    assert Adds(s, 0, true);
    forall i | 0 <= i < |p.queue|
      ensures Adds(p, i, false)
    {
      assert Adds(s, i + 1, true);
    }
    forall t: nat
      ensures IsQueued(p, t) <==> IsQueued(s, t) && !(s.queue[0].Data? && s.queue[0].tag == t)
    {
      HeadlessQueue(s, p, t);
    }
  }

  lemma ExactWritten(s: Slave)
    requires Exact(s, false) && s.queue != []
    ensures Exact(Written(s), true)
  {
    var w := Written(s);
    if s.queue[0].Data? {
      forall t: nat
        ensures Times(w.wire, t) == Times(s.wire, t) + if t == s.queue[0].tag then 1 else 0
      {
        TimesMore(s.wire, s.queue[0].tag, t);
      }
      assert IsQueued(w, s.queue[0].tag);
    }
    forall i | 0 <= i < |w.queue|
      ensures Adds(w, i, true)
    {
      assert Adds(s, i, false);
    }
    forall t: nat
      ensures IsQueued(w, t) == IsQueued(s, t)
    {
      SameTags(s, w, t);
      SameTags(w, s, t);
    }
  }

  lemma QueuedMore(s: Slave, s': Slave, e: Entry, t: nat)
    requires s'.queue == s.queue + [e]
    ensures IsQueued(s', t) <==> IsQueued(s, t) || (e.Data? && e.tag == t)
  {
    if IsQueued(s, t) {
      var i :| 0 <= i < |s.queue| && s.queue[i].Data? && s.queue[i].tag == t;
      assert s'.queue[i].tag == t;
    }
    assert s'.queue[|s.queue|] == e;
    if IsQueued(s', t) {
      var i :| 0 <= i < |s'.queue| && s'.queue[i].Data? && s'.queue[i].tag == t;
      assert i < |s.queue| ==> s.queue[i].tag == t;
    }
  }

  lemma ExactPolling(s: Slave)
    requires Exact(s, false) && s.queue == []
    ensures Exact(Pushed(s, Empty(TRIES_EMPTY)), false)
  {
    forall t: nat
      ensures IsQueued(Pushed(s, Empty(TRIES_EMPTY)), t) == IsQueued(s, t)
    {
      QueuedMore(s, Pushed(s, Empty(TRIES_EMPTY)), Empty(TRIES_EMPTY), t);
    }
  }

  lemma ExactAccepted(s: Slave, open: bool, packet: seq<byte>)
    requires Exact(s, open)
    ensures Exact(Accepted(s, packet), open)
  {
    var a, e := Accepted(s, packet), Data(s.accepted, packet, TRIES_DATA);
    assert a.queue == s.queue + [e];
    forall i | 0 <= i < |a.queue|
      ensures Adds(a, i, open)
    {
      assert i < |s.queue| ==> Adds(s, i, open);
    }
    forall t: nat
      ensures IsQueued(a, t) <==> IsQueued(s, t) || t == s.accepted
    {
      QueuedMore(s, a, e, t);
    }
  }

  // ----- the master

  /** The turn of the current slave lasts. */
  predicate Lasts(m: Master) { !m.interval }

  ghost predicate Silent(m: Master) {
    && Shaped(m) && m.ack == 0
    && forall i :: 0 <= i < |m.slaves| ==> Exact(m.slaves[i], Lasts(m) && i == m.current)
  }

  /** The bytes that were written come back, as they do on the line, and nothing else does. */
  predicate IsEcho(m: Master, bytes: seq<byte>)
    requires Shaped(m)
  {
    && m.verify && m.used == 0 && 8 <= |bytes| == OVERHEAD + Value(m.request[7]) <= REQUEST_SIZE
    && bytes == m.request[..|bytes|]
  }

  /** What may happen while the slaves say nothing: the line takes every frame, there is memory for poll packets, and
      only echoes are received. */
  predicate Quiet(m: Master, e: Event)
    requires Shaped(m)
  {
    match e
    case Receive(bytes, env) => IsEcho(m, bytes)
    case Timeout(elapsed, env) => env.writes && env.pushes
    case Expire => true
    case Request(packet, recipient, pushes) => true
  }

  lemma EchoFills(m: Master, bytes: seq<byte>)
    requires Shaped(m) && IsEcho(m, bytes)
    ensures var m1 := Filled(m, bytes);
            && m1.used == |bytes| == FrameLength(m1) && m1.buffer[..|bytes|] == bytes
            && m1 == m.(buffer := m1.buffer, used := |bytes|)
  {
    var m1 := Filled(m, bytes);
    assert bytes[..|bytes|] == bytes;
    assert m1.buffer[..|bytes|] == bytes;
    assert m1.buffer[7] == bytes[7] == m.request[7];
  }

  lemma EchoOnly(m: Master, bytes: seq<byte>, cfg: Config, env: Env)
    requires Shaped(m) && IsEcho(m, bytes) && m.ack == 0
    ensures Received(m, bytes, cfg, env) == m.(verify := false, buffer := Zeros(RECEIVE_BUFFER_SIZE), used := 0)
  {
    EchoFills(m, bytes);
    assert m.request[..|bytes|] == bytes;
  }

  lemma SameSilent(m: Master, m': Master)
    requires Silent(m) && Shaped(m') && m'.slaves == m.slaves && m'.current == m.current && m'.ack == 0
    requires m'.interval == m.interval
    ensures Silent(m')
  {
  }

  lemma GivenUpSilent(m: Master, cfg: Config)
    requires Silent(m) && !m.interval
    ensures Silent(GivenUp(m, cfg))
  {
    var s := if IsEmptyRequest(m.request) then Bumped(Now(m)) else Now(m);
    assert Exact(m.slaves[m.current], true);
    ExactBumped(Now(m), true);
    ExactTried(s);
    var m' := GivenUp(m, cfg);
    assert m'.slaves == m.slaves[m.current := Tried(s)] && m'.interval;
    forall i | 0 <= i < |m'.slaves|
      ensures Exact(m'.slaves[i], false)
    {
      assert i != m.current ==> Exact(m.slaves[i], false);
    }
  }

  /** The next slave's turn, when the turn of the last one is over. */
  ghost predicate Between(m: Master) {
    forall i :: 0 <= i < |m.slaves| ==> Exact(m.slaves[i], false)
  }

  lemma SentSilent(m: Master, cfg: Config, env: Env)
    requires Shaped(m) && Between(m) && m.ack == 0 && !m.interval && env.writes && Now(m).queue != []
    ensures Silent(Sent(m, cfg, env))
  {
    var m' := Sent(m, cfg, env);
    assert Exact(m.slaves[m.current], false);
    ExactWritten(Now(m));
    SentShape(m, cfg, env);
    assert m'.slaves == m.slaves[m.current := Written(Now(m))] && !m'.interval;
    forall i | 0 <= i < |m'.slaves|
      ensures Exact(m'.slaves[i], i == m.current)
    {
      assert i != m.current ==> Exact(m.slaves[i], false);
    }
  }

  lemma PolledSilent(m: Master, cfg: Config, env: Env)
    requires |m.slaves| > 0 && -1 <= m.current < |m.slaves| && |m.request| == REQUEST_SIZE
    requires Between(m) && !m.interval && env.writes && env.pushes
    ensures Silent(Polled(m, cfg, env))
  {
    var next := if m.current + 1 >= |m.slaves| then 0 else m.current + 1;
    var m1 := m.(ack := 0, buffer := Zeros(RECEIVE_BUFFER_SIZE), used := 0, current := next, polls := m.polls + [next]);
    var s := Now(m1);
    assert Exact(m.slaves[next], false) && Between(m1);
    if s.queue != [] {
      SentSilent(m1, cfg, env);
    } else {
      ExactPolling(s);
      SentSilent(WithNow(m1, Pushed(s, Empty(TRIES_EMPTY))), cfg, env);
    }
  }

  lemma TimedOutSilent(m: Master, elapsed: nat, cfg: Config, env: Env)
    requires Silent(m) && env.writes && env.pushes
    ensures Silent(TimedOut(m, elapsed, cfg, env))
  {
    if elapsed < (if m.interval then cfg.interval else cfg.timeout) {
      SameSilent(m, TimedOut(m, elapsed, cfg, env));
    } else if m.interval {
      PolledSilent(Disarm(m).(interval := false), cfg, env);
    } else {
      SameSilent(m, Disarm(m));
      GivenUpSilent(Disarm(m), cfg);
    }
  }

  lemma AcceptedSilent(m: Master, i: nat, packet: seq<byte>)
    requires Silent(m) && i < |m.slaves|
    ensures Silent(m.(slaves := m.slaves[i := Accepted(m.slaves[i], packet)]))
  {
    assert Exact(m.slaves[i], Lasts(m) && i == m.current);
    ExactAccepted(m.slaves[i], Lasts(m) && i == m.current, packet);
    var m' := m.(slaves := m.slaves[i := Accepted(m.slaves[i], packet)]);
    forall j | 0 <= j < |m'.slaves|
      ensures Exact(m'.slaves[j], Lasts(m') && j == m'.current)
    {
      assert j != i ==> Exact(m.slaves[j], Lasts(m) && j == m.current);
    }
  }

  lemma {:induction false} BroadcastSilent(m: Master, i: nat, packet: seq<byte>, pushes: nat -> bool)
    requires Silent(m)
    ensures Silent(Broadcast(m, i, packet, pushes))
    decreases |m.slaves| - i
  {
    if i < |m.slaves| && pushes(i) {
      AcceptedSilent(m, i, packet);
      BroadcastSilent(m.(slaves := m.slaves[i := Accepted(m.slaves[i], packet)]), i + 1, packet, pushes);
    }
  }

  lemma {:induction false} AddressedSilent(m: Master, i: nat, address: byte, packet: seq<byte>, pushes: nat -> bool)
    requires Silent(m)
    ensures Silent(Addressed(m, i, address, packet, pushes))
    decreases |m.slaves| - i
  {
    if i < |m.slaves| {
      if m.slaves[i].address != address {
        AddressedSilent(m, i + 1, address, packet, pushes);
      } else {
        AcceptedSilent(m, i, packet);
      }
    }
  }

  lemma StepSilent(m: Master, e: Event, cfg: Config)
    requires Silent(m) && Quiet(m, e)
    ensures Silent(Step(m, e, cfg))
  {
    match e
    case Receive(bytes, env) =>
      EchoOnly(m, bytes, cfg, env);
      SameSilent(m, Received(m, bytes, cfg, env));
    case Timeout(elapsed, env) => TimedOutSilent(m, elapsed, cfg, env);
    case Expire => SameSilent(m, Step(m, e, cfg));
    case Request(packet, recipient, pushes) =>
      if |packet| >= 4 {
        if IsForAll(packet, recipient) {
          BroadcastSilent(m, 0, packet, pushes);
        } else {
          AddressedSilent(m, 0, recipient.value, packet, pushes);
        }
      }
  }

  /** Nothing but what may happen while the slaves say nothing. */
  ghost predicate AllQuiet(addresses: seq<byte>, events: seq<Event>, cfg: Config, env: Env)
    requires addresses != []
  {
    && env.writes && env.pushes
    && forall n :: 0 <= n < |events| ==> Quiet(After(addresses, events, n, cfg, env), events[n])
  }

  lemma StartSilent(addresses: seq<byte>, cfg: Config, env: Env)
    requires addresses != [] && env.writes && env.pushes
    ensures Silent(Polled(Start(addresses), cfg, env))
  {
    PolledSilent(Start(addresses), cfg, env);
  }

  lemma {:induction false} AfterSilent(addresses: seq<byte>, events: seq<Event>, n: nat, cfg: Config, env: Env)
    requires addresses != [] && n <= |events| && AllQuiet(addresses, events, cfg, env)
    ensures Silent(After(addresses, events, n, cfg, env))
  {
    if n == 0 {
      WholeRun(addresses, events, cfg, env);
      StartSilent(addresses, cfg, env);
    } else {
      AfterSilent(addresses, events, n - 1, cfg, env);
      AfterNext(addresses, events, n - 1, cfg, env);
      StepSilent(After(addresses, events, n - 1, cfg, env), events[n - 1], cfg);
    }
  }

  lemma SilentCounts(m: Master, i: nat, j: nat)
    requires Silent(m) && i < |m.slaves| && j < |m.slaves[i].queue| && m.slaves[i].queue[j].Data?
    ensures Times(m.slaves[i].wire, m.slaves[i].queue[j].tag) + m.slaves[i].queue[j].tries
         == if !m.interval && i == m.current && j == 0 then 11 else 10
  {
    assert Exact(m.slaves[i], Lasts(m) && i == m.current);
    assert Adds(m.slaves[i], j, Lasts(m) && i == m.current);
  }

  lemma SilentSpent(m: Master, i: nat, t: nat)
    requires Silent(m) && i < |m.slaves| && t < m.slaves[i].accepted && !IsQueued(m.slaves[i], t)
    ensures Times(m.slaves[i].wire, t) == 10
  {
    assert Exact(m.slaves[i], Lasts(m) && i == m.current);
  }

  /** In every run with silent slaves, on a line that takes every frame: while a data request is queued, writes so far
      and tries left are ten together, or eleven while its turn lasts. */
  lemma WritesAndTriesAreTen(addresses: seq<byte>, events: seq<Event>, cfg: Config, env: Env, i: nat, j: nat)
    requires i < |addresses| && AllQuiet(addresses, events, cfg, env)
    requires var s := Run(addresses, events, cfg, env).slaves[i]; j < |s.queue| && s.queue[j].Data?
    ensures var m := Run(addresses, events, cfg, env);
            Times(m.slaves[i].wire, m.slaves[i].queue[j].tag) + m.slaves[i].queue[j].tries
            == if !m.interval && i == m.current && j == 0 then 11 else 10
  {
    AfterSilent(addresses, events, |events|, cfg, env);
    WholeRun(addresses, events, cfg, env);
    SilentCounts(Run(addresses, events, cfg, env), i, j);
  }

  /** Once it is gone, it was written exactly ten times. */
  lemma GoneAfterTenWrites(addresses: seq<byte>, events: seq<Event>, cfg: Config, env: Env, i: nat, t: nat)
    requires i < |addresses| && AllQuiet(addresses, events, cfg, env)
    requires var s := Run(addresses, events, cfg, env).slaves[i]; t < s.accepted && !IsQueued(s, t)
    ensures Times(Run(addresses, events, cfg, env).slaves[i].wire, t) == 10
  {
    AfterSilent(addresses, events, |events|, cfg, env);
    WholeRun(addresses, events, cfg, env);
    SilentSpent(Run(addresses, events, cfg, env), i, t);
  }

  // ----- turn by turn

  /** A request comes in during the first poll; then `k` turns pass without an answer. */
  function Unanswered(packet: seq<byte>, pushes: nat -> bool, k: nat, cfg: Config, env: Env): seq<Event> {
    if k == 0 then [Request(packet, None, pushes)]
    else Unanswered(packet, pushes, k - 1, cfg, env) + [Timeout(cfg.timeout, env)] + [Timeout(cfg.interval, env)]
  }

  /** The single slave's turn lasts, and it has this in its queue and this on its wire. */
  predicate At(m: Master, queue: seq<Entry>, wire: seq<nat>) {
    Shaped(m) && |m.slaves| == 1 && !m.interval && m.slaves[0].queue == queue && m.slaves[0].wire == wire
  }

  lemma TurnEnds(m: Master, queue: seq<Entry>, wire: seq<nat>, cfg: Config, env: Env)
    requires At(m, queue, wire) && queue != []
    ensures var m' := TimedOut(m, cfg.timeout, cfg, env);
            && |m'.slaves| == 1 && m'.interval && m'.slaves[0].wire == wire
            && m'.slaves[0].queue == Tried(m.slaves[0]).queue
  {
  }

  lemma TurnStarts(m: Master, e: Entry, wire: seq<nat>, cfg: Config, env: Env)
    requires Shaped(m) && |m.slaves| == 1 && m.interval && env.writes
    requires m.slaves[0].queue == [e] && e.Data? && m.slaves[0].wire == wire
    ensures At(TimedOut(m, cfg.interval, cfg, env), [e], wire + [e.tag])
  {
  }

  lemma RunMore(addresses: seq<byte>, events: seq<Event>, e: Event, cfg: Config, env: Env)
    requires addresses != []
    ensures Run(addresses, events + [e], cfg, env) == Step(Run(addresses, events, cfg, env), e, cfg)
  {
    assert (events + [e])[..|events|] == events;
  }

  lemma RunTurn(addresses: seq<byte>, events: seq<Event>, cfg: Config, env: Env)
    requires addresses != []
    ensures Run(addresses, events + [Timeout(cfg.timeout, env)] + [Timeout(cfg.interval, env)], cfg, env)
         == TimedOut(TimedOut(Run(addresses, events, cfg, env), cfg.timeout, cfg, env), cfg.interval, cfg, env)
  {
    RunMore(addresses, events, Timeout(cfg.timeout, env), cfg, env);
    RunMore(addresses, events + [Timeout(cfg.timeout, env)], Timeout(cfg.interval, env), cfg, env);
  }

  /** The queue while turn `k` lasts. */
  function QueueAfter(packet: seq<byte>, k: nat): seq<Entry>
    requires k <= 10
  {
    if k == 0 then [Empty(1), Data(0, packet, 10)] else [Data(0, packet, 11 - k)]
  }

  predicate IsPolling(m: Master, a: byte) {
    Shaped(m) && m.slaves == [Slave(a, 0, [Empty(1)], 0, [])] && !m.interval
  }

  lemma PollAt(a: byte, cfg: Config, env: Env)
    requires env.writes
    ensures IsPolling(Sent(Polling(a), cfg, env), a)
  {
  }

  lemma RequestAt(m: Master, a: byte, packet: seq<byte>, pushes: nat -> bool)
    requires IsPolling(m, a) && |packet| >= 4 && pushes(0)
    ensures At(Dispatched(m, packet, None, pushes), QueueAfter(packet, 0), [])
  {
    RequestComesIn(m, m.slaves[0], packet, pushes);
    assert [Empty(1)] + [Data(0, packet, 10)] == [Empty(1), Data(0, packet, 10)];
  }

  lemma AfterRequest(a: byte, packet: seq<byte>, pushes: nat -> bool, cfg: Config, env: Env)
    requires |packet| >= 4 && pushes(0) && env.writes && env.pushes
    ensures At(Run([a], Unanswered(packet, pushes, 0, cfg, env), cfg, env), QueueAfter(packet, 0), [])
  {
    FirstPolled(a, cfg, env);
    PollAt(a, cfg, env);
    RunMore([a], [], Request(packet, None, pushes), cfg, env);
    assert [] + [Request(packet, None, pushes)] == [Request(packet, None, pushes)];
    RequestAt(Sent(Polling(a), cfg, env), a, packet, pushes);
  }

  lemma OneTurn(m: Master, packet: seq<byte>, k: nat, wire: seq<nat>, cfg: Config, env: Env)
    requires k < 10 && At(m, QueueAfter(packet, k), wire) && env.writes
    ensures At(TimedOut(TimedOut(m, cfg.timeout, cfg, env), cfg.interval, cfg, env),
               QueueAfter(packet, k + 1), wire + [0])
  {
    var m1 := TimedOut(m, cfg.timeout, cfg, env);
    TurnEnds(m, QueueAfter(packet, k), wire, cfg, env);
    assert m1.slaves[0].queue == [Data(0, packet, 10 - k)];
    TurnStarts(m1, Data(0, packet, 10 - k), wire, cfg, env);
  }

  /** What `k` writes of the request leave on the wire. */
  function Copies(k: nat): seq<nat> { seq(k, _ => 0) }

  lemma OneCopyMore(k: nat)
    ensures Copies(k) + [0] == Copies(k + 1)
  {
  }

  lemma {:induction false} AfterTurns(a: byte, packet: seq<byte>, pushes: nat -> bool, k: nat, cfg: Config, env: Env)
    requires |packet| >= 4 && pushes(0) && env.writes && env.pushes && k <= 10
    ensures At(Run([a], Unanswered(packet, pushes, k, cfg, env), cfg, env), QueueAfter(packet, k), Copies(k))
  {
    if k == 0 {
      AfterRequest(a, packet, pushes, cfg, env);
    } else {
      var events := Unanswered(packet, pushes, k - 1, cfg, env);
      AfterTurns(a, packet, pushes, k - 1, cfg, env);
      RunTurn([a], events, cfg, env);
      OneTurn(Run([a], events, cfg, env), packet, k - 1, Copies(k - 1), cfg, env);
      OneCopyMore(k - 1);
    }
  }

  /** After `k` turns that were not answered, the request has been written exactly `k` times, and when the `k`-th turn
      is over it is still queued if and only if `k` is less than ten. */
  lemma WrittenOncePerTurn(a: byte, packet: seq<byte>, pushes: nat -> bool, k: nat, cfg: Config, env: Env)
    requires |packet| >= 4 && pushes(0) && env.writes && env.pushes && 1 <= k <= 10
    ensures var m := Run([a], Unanswered(packet, pushes, k, cfg, env), cfg, env);
            && m.slaves[0].wire == seq(k, _ => 0)
            && TimedOut(m, cfg.timeout, cfg, env).slaves[0].queue == if k < 10 then [Data(0, packet, 10 - k)] else []
  {
    AfterTurns(a, packet, pushes, k, cfg, env);
    TurnEnds(Run([a], Unanswered(packet, pushes, k, cfg, env), cfg, env),
             QueueAfter(packet, k), Copies(k), cfg, env);
  }
}
