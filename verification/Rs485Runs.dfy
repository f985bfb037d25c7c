/** What holds of the RS485 master over every run. */
module Rs485Runs {
  import opened Bytes
  import opened Counting
  import opened Wrappers
  import opened Rs485Spec

  /** No frame is longer than this. */
  const MAX_FRAME := 260

  // ----- the retry budget of one slave

  /** A data request was written as often as it has used up tries, at most; `over` allows the head one write more. */
  ghost predicate Budget(s: Slave, i: nat, over: bool)
    requires i < |s.queue|
  {
    && s.queue[i].tries >= 1
    && (s.queue[i].Data? ==>
          Times(s.wire, s.queue[i].tag) + s.queue[i].tries <= TRIES_DATA + if over && i == 0 then 1 else 0)
  }

  ghost predicate Tags(s: Slave) {
    && (forall i :: 0 <= i < |s.queue| && s.queue[i].Data? ==> s.queue[i].tag < s.accepted)
    && (forall i, j :: 0 <= i < j < |s.queue| && s.queue[i].Data? && s.queue[j].Data? ==>
          s.queue[i].tag < s.queue[j].tag)
  }

  ghost predicate Limit(s: Slave) {
    forall t: nat :: Times(s.wire, t) <= if t < s.accepted then TRIES_DATA else 0
  }

  ghost predicate Fits(s: Slave, over: bool) {
    && Tags(s) && Limit(s)
    && forall i :: 0 <= i < |s.queue| ==> Budget(s, i, over)
  }

  lemma FitsPopped(s: Slave)
    requires Fits(s, true)
    ensures Fits(Popped(s), false)
  {
    var p := Popped(s);
    forall i | 0 <= i < |p.queue|
      ensures Budget(p, i, false)
    {
      assert Budget(s, i + 1, true);
    }
  }

  lemma FitsTried(s: Slave)
    requires Fits(s, true)
    ensures Fits(Tried(s), false)
  {
    var p := Tried(s);
    if s.queue != [] {
      assert Budget(s, 0, true);
      if s.queue[0].tries == 1 {
        FitsPopped(s);
      } else {
        forall i | 0 <= i < |p.queue|
          ensures Budget(p, i, false)
        {
          assert Budget(s, i, true);
        }
      }
    }
  }

  lemma FitsReplaced(s: Slave)
    requires Fits(s, true) && s.queue != []
    ensures Fits(Replaced(s), false)
  {
    var p := Replaced(s);
    forall i | 0 <= i < |p.queue|
      ensures Budget(p, i, false)
    {
      assert Budget(s, i, true);
    }
  }

  lemma FitsWritten(s: Slave)
    requires Fits(s, false) && s.queue != []
    ensures Fits(Written(s), true)
  {
    var p, e := Written(s), s.queue[0];
    if e.Data? {
      assert Budget(s, 0, false);
      forall t: nat
        ensures Times(p.wire, t) == Times(s.wire, t) + if t == e.tag then 1 else 0
      {
        TimesMore(s.wire, e.tag, t);
      }
    }
    forall i | 0 <= i < |p.queue|
      ensures Budget(p, i, true)
    {
      assert Budget(s, i, false);
    }
  }

  lemma FitsPushed(s: Slave, over: bool)
    requires Fits(s, over)
    ensures Fits(Pushed(s, Empty(TRIES_EMPTY)), over)
  {
    var p := Pushed(s, Empty(TRIES_EMPTY));
    forall i | 0 <= i < |p.queue|
      ensures Budget(p, i, over)
    {
      if i < |s.queue| {
        assert Budget(s, i, over);
      }
    }
  }

  lemma FitsAccepted(s: Slave, over: bool, packet: seq<byte>)
    requires Fits(s, over)
    ensures Fits(Accepted(s, packet), over)
  {
    var p := Accepted(s, packet);
    forall i | 0 <= i < |p.queue|
      ensures Budget(p, i, over)
    {
      if i < |s.queue| {
        assert Budget(s, i, over);
      } else {
        assert Times(s.wire, s.accepted) == 0;
      }
    }
  }

  lemma FitsLoose(s: Slave, over: bool)
    requires Fits(s, false)
    ensures Fits(s, over)
  {
    forall i | 0 <= i < |s.queue|
      ensures Budget(s, i, over)
    {
      assert Budget(s, i, false);
    }
  }

  lemma FitsBumped(s: Slave, over: bool)
    requires Fits(s, over)
    ensures Fits(Bumped(s), over)
  {
    forall i | 0 <= i < |s.queue|
      ensures Budget(Bumped(s), i, over)
    {
      assert Budget(s, i, over);
    }
  }

  // ----- all slaves

  /** Every slave keeps to its budget; `over` allows the head of the current one a write that is not accounted for. */
  ghost predicate All(m: Master, over: bool) {
    && Shaped(m)
    && forall i :: 0 <= i < |m.slaves| ==> Fits(m.slaves[i], over && i == m.current)
  }

  /** The current request may still be answered: nothing has ended it, and less than a frame was received. */
  predicate Open(m: Master) {
    !m.interval && m.ack == 0 && m.used < MAX_FRAME
  }

  /** Between two events only an open request has a write that is not accounted for yet. */
  ghost predicate Kept(m: Master) {
    All(m, Open(m))
  }

  lemma AllWithNow(m: Master, s: Slave, over: bool, over': bool)
    requires All(m, over) && Fits(s, over')
    ensures All(WithNow(m, s), over')
  {
  }

  /** Only the slaves and which of them is current matter. */
  lemma AllFrame(m: Master, m': Master, over: bool)
    requires All(m, over) && Shaped(m') && m'.slaves == m.slaves && m'.current == m.current
    ensures All(m', over)
  {
  }

  lemma AllLoose(m: Master, over: bool)
    requires All(m, false)
    ensures All(m, over) && Kept(m)
  {
    forall i | 0 <= i < |m.slaves|
      ensures Fits(m.slaves[i], true) && Fits(m.slaves[i], false)
    {
      assert Fits(m.slaves[i], false && i == m.current);
      FitsLoose(m.slaves[i], true);
    }
  }

  lemma NowLoose(m: Master, over: bool)
    requires All(m, over)
    ensures Fits(Now(m), true) && All(m, true)
  {
    assert Fits(m.slaves[m.current], over && m.current == m.current);
    if !over {
      AllLoose(m, true);
    }
  }

  lemma GivenUpSettles(m: Master, cfg: Config, over: bool)
    requires All(m, over)
    ensures All(GivenUp(m, cfg), false)
  {
    NowLoose(m, over);
    FitsBumped(Now(m), true);
    var s := if IsEmptyRequest(m.request) then Bumped(Now(m)) else Now(m);
    FitsTried(s);
    AllWithNow(m, Tried(s), over, false);
    AllFrame(WithNow(m, Tried(s)), GivenUp(m, cfg), false);
  }

  lemma DoneSettles(m: Master, cfg: Config, over: bool)
    requires All(m, over)
    ensures All(Done(m, cfg), false)
  {
    NowLoose(m, over);
    FitsBumped(Now(m), true);
    FitsPopped(Bumped(Now(m)));
    AllWithNow(m, Popped(Bumped(Now(m))), over, false);
    AllFrame(WithNow(m, Popped(Bumped(Now(m)))), Done(m, cfg), false);
  }

  lemma SentShape(m: Master, cfg: Config, env: Env)
    requires Shaped(m)
    ensures var m' := Sent(m, cfg, env);
            && m'.current == m.current && m'.ack == m.ack && m'.used == m.used && |m'.request| == REQUEST_SIZE
            && m'.buffer == m.buffer
            && (Now(m).queue == [] || !env.writes ==> m'.slaves == m.slaves && m'.interval)
            && (Now(m).queue != [] && env.writes ==>
                  m'.slaves == WithNow(m, Written(Now(m))).slaves && m'.interval == m.interval)
  {
  }

  /** Writing a poll or an acknowledgement leaves the budgets alone. */
  lemma EmptySettles(m: Master, cfg: Config, env: Env)
    requires All(m, false) && Now(m).queue != [] && Now(m).queue[0].Empty?
    ensures All(Sent(m, cfg, env), false)
  {
    SentShape(m, cfg, env);
    assert WithNow(m, Now(m)).slaves == m.slaves;
    AllFrame(m, Sent(m, cfg, env), false);
  }

  lemma SentKeeps(m: Master, cfg: Config, env: Env)
    requires All(m, false) && m.ack == 0 && m.used == 0 && !m.interval
    ensures Kept(Sent(m, cfg, env))
  {
    var m' := Sent(m, cfg, env);
    SentShape(m, cfg, env);
    if Now(m).queue == [] || !env.writes {
      AllFrame(m, m', false);
      AllLoose(m', true);
    } else {
      assert Fits(m.slaves[m.current], false && m.current == m.current);
      FitsWritten(Now(m));
      AllWithNow(m, Written(Now(m)), false, true);
      AllFrame(WithNow(m, Written(Now(m))), m', true);
    }
  }

  lemma AcknowledgedSettles(m: Master, cfg: Config, env: Env, over: bool)
    requires All(m, over)
    ensures All(Acknowledged(m, cfg, env), false)
  {
    var s := Now(m);
    NowLoose(m, over);
    if s.queue == [] {
      assert Fits(s, false);
      AllWithNow(m, s, over, false);
      assert WithNow(m, s) == m;
      if env.pushes {
        FitsPushed(s, false);
        AllWithNow(m, Pushed(s, Empty(TRIES_EMPTY)), over, false);
        var m1 := WithNow(m, Pushed(s, Empty(TRIES_EMPTY))).(ack := 2, buffer := Zeros(RECEIVE_BUFFER_SIZE), used := 0);
        AllFrame(WithNow(m, Pushed(s, Empty(TRIES_EMPTY))), m1, false);
        EmptySettles(m1, cfg, env);
      }
    } else {
      FitsReplaced(s);
      AllWithNow(m, Replaced(s), over, false);
      var m1 := WithNow(m, Replaced(s)).(ack := 1, buffer := Zeros(RECEIVE_BUFFER_SIZE), used := 0);
      AllFrame(WithNow(m, Replaced(s)), m1, false);
      EmptySettles(m1, cfg, env);
    }
  }

  lemma AnsweredIs(m: Master, cfg: Config, env: Env, keeps: Master -> bool)
    requires Shaped(m) && FrameLength(m) <= m.used
    requires keeps(GivenUp(Disarm(m), cfg)) && keeps(Done(Disarm(m), cfg)) && keeps(Acknowledged(m, cfg, env))
    requires keeps(Acknowledged(m.(responses := m.responses + [m.buffer[3..83]]), cfg, env))
    ensures keeps(Answered(m, cfg, env))
  {
  }

  lemma AnsweredSettles(m: Master, cfg: Config, env: Env, over: bool)
    requires All(m, over) && FrameLength(m) <= m.used
    ensures All(Answered(m, cfg, env), false)
  {
    var m1 := m.(responses := m.responses + [m.buffer[3..83]]);
    AllFrame(m, Disarm(m), over);
    AllFrame(m, m1, over);
    GivenUpSettles(Disarm(m), cfg, over);
    DoneSettles(Disarm(m), cfg, over);
    AcknowledgedSettles(m, cfg, env, over);
    AcknowledgedSettles(m1, cfg, env, over);
    AnsweredIs(m, cfg, env, n => All(n, false));
  }

  /** A request that is still open is either ended by what was received, or less than a frame is left over. */
  lemma LookedKeeps(m: Master, cfg: Config, env: Env, over: bool)
    requires All(m, over) && (over ==> !m.interval && m.ack == 0)
    ensures Kept(Looked(m, cfg, env))
  {
    var m' := Looked(m, cfg, env);
    if !Complete(m) {
      AllFrame(m, m, over);
      if !over {
        AllLoose(m, true);
      }
    } else if !m.verify {
      AnsweredSettles(m, cfg, env, over);
      AllLoose(m', true);
    } else if !Echoed(m) {
      AllFrame(m, Disarm(m), over);
      GivenUpSettles(Disarm(m), cfg, over);
      AllLoose(m', true);
    } else {
      VerifiedKeeps(m.(verify := false), cfg, env, over);
    }
  }

  lemma VerifiedKeeps(m: Master, cfg: Config, env: Env, over: bool)
    requires All(m, over) && (over ==> !m.interval && m.ack == 0) && Complete(m)
    ensures var m1 := Verified(m, cfg);
            Kept(if m.ack == 0 && Complete(m1) then Answered(m1, cfg, env) else m1)
  {
    var m1 := Verified(m, cfg);
    if m.ack == 1 {
      AllFrame(m, Disarm(m), over);
      DoneSettles(Disarm(m), cfg, over);
      AllLoose(m1, true);
    } else {
      AllFrame(m, m1, over);
      if !over {
        AllLoose(m1, true);
      }
      if m.ack == 0 && Complete(m1) {
        AnsweredSettles(m1, cfg, env, over);
        AllLoose(Answered(m1, cfg, env), true);
      }
    }
  }

  lemma ReceivedKeeps(m: Master, bytes: seq<byte>, cfg: Config, env: Env)
    requires Kept(m)
    ensures Kept(Received(m, bytes, cfg, env))
  {
    if m.used >= RECEIVE_BUFFER_SIZE {
      AllFrame(m, ArmInterval(m, cfg), false);
      AllLoose(ArmInterval(m, cfg), true);
    } else {
      var m1 := Filled(m, bytes);
      AllFrame(m, m1, Open(m));
      LookedKeeps(m1, cfg, env, Open(m));
    }
  }

  lemma PolledKeeps(m: Master, cfg: Config, env: Env)
    requires All(m, false) && !m.interval
    ensures Kept(Polled(m, cfg, env))
  {
    var next := if m.current + 1 >= |m.slaves| then 0 else m.current + 1;
    var m1 := m.(ack := 0, buffer := Zeros(RECEIVE_BUFFER_SIZE), used := 0, current := next, polls := m.polls + [next]);
    assert All(m1, false) by {
      forall i | 0 <= i < |m.slaves|
        ensures Fits(m.slaves[i], false)
      {
        assert Fits(m.slaves[i], false && i == m.current);
      }
    }
    PolledAt(m1, cfg, env);
  }

  lemma PolledAt(m: Master, cfg: Config, env: Env)
    requires All(m, false) && m.ack == 0 && m.used == 0 && !m.interval
    ensures Kept(if Now(m).queue != [] then Sent(m, cfg, env)
                 else if env.pushes then Sent(WithNow(m, Pushed(Now(m), Empty(TRIES_EMPTY))), cfg, env)
                 else m)
  {
    if Now(m).queue != [] {
      SentKeeps(m, cfg, env);
    } else if env.pushes {
      assert Fits(m.slaves[m.current], false && m.current == m.current);
      FitsPushed(Now(m), false);
      AllWithNow(m, Pushed(Now(m), Empty(TRIES_EMPTY)), false, false);
      SentKeeps(WithNow(m, Pushed(Now(m), Empty(TRIES_EMPTY))), cfg, env);
    } else {
      AllLoose(m, true);
    }
  }

  lemma TimedOutKeeps(m: Master, elapsed: nat, cfg: Config, env: Env)
    requires Kept(m)
    ensures Kept(TimedOut(m, elapsed, cfg, env))
  {
    var m1 := Disarm(m);
    AllFrame(m, m1, Open(m));
    if elapsed < (if m.interval then cfg.interval else cfg.timeout) {
      AllFrame(m1, TimedOut(m, elapsed, cfg, env), Open(m));
    } else if m.interval {
      AllFrame(m1, m1.(interval := false), false);
      PolledKeeps(m1.(interval := false), cfg, env);
    } else {
      GivenUpSettles(m1, cfg, Open(m));
      AllLoose(GivenUp(m1, cfg), true);
    }
  }

  lemma {:induction false} BroadcastKeeps(m: Master, i: nat, packet: seq<byte>, pushes: nat -> bool)
    requires Kept(m)
    ensures Kept(Broadcast(m, i, packet, pushes))
    decreases |m.slaves| - i
  {
    if i < |m.slaves| && pushes(i) {
      AcceptedKeeps(m, i, packet);
      BroadcastKeeps(m.(slaves := m.slaves[i := Accepted(m.slaves[i], packet)]), i + 1, packet, pushes);
    }
  }

  lemma AcceptedKeeps(m: Master, i: nat, packet: seq<byte>)
    requires Kept(m) && i < |m.slaves|
    ensures Kept(m.(slaves := m.slaves[i := Accepted(m.slaves[i], packet)]))
  {
    assert Fits(m.slaves[i], Open(m) && i == m.current);
    FitsAccepted(m.slaves[i], Open(m) && i == m.current, packet);
  }

  lemma {:induction false} AddressedKeeps(m: Master, i: nat, address: byte, packet: seq<byte>, pushes: nat -> bool)
    requires Kept(m)
    ensures Kept(Addressed(m, i, address, packet, pushes))
    decreases |m.slaves| - i
  {
    if i < |m.slaves| {
      if m.slaves[i].address != address {
        AddressedKeeps(m, i + 1, address, packet, pushes);
      } else {
        AcceptedKeeps(m, i, packet);
      }
    }
  }

  lemma DispatchedKeeps(m: Master, packet: seq<byte>, recipient: Option<byte>, pushes: nat -> bool)
    requires Kept(m) && |packet| >= 4
    ensures Kept(Dispatched(m, packet, recipient, pushes))
  {
    if IsForAll(packet, recipient) {
      BroadcastKeeps(m, 0, packet, pushes);
    } else {
      AddressedKeeps(m, 0, recipient.value, packet, pushes);
    }
  }

  /** Every slave gets the request, or the first with the recipient's address does and no other. */
  lemma DispatchedTo(m: Master, packet: seq<byte>, recipient: Option<byte>, i: nat)
    requires |packet| >= 4 && i < |m.slaves|
    ensures Dispatched(m, packet, recipient, _ => true).slaves[i]
         == if IsMeant(m.slaves, packet, recipient, i) then Accepted(m.slaves[i], packet) else m.slaves[i]
  {
    if IsForAll(packet, recipient) {
      BroadcastReaches(m, 0, packet, i);
    } else {
      AddressedReaches(m, 0, recipient.value, packet, i);
    }
  }

  lemma {:induction false} BroadcastReaches(m: Master, n: nat, packet: seq<byte>, i: nat)
    requires i < |m.slaves|
    ensures Broadcast(m, n, packet, _ => true).slaves[i] == if i < n then m.slaves[i] else Accepted(m.slaves[i], packet)
    decreases |m.slaves| - n
  {
    if n < |m.slaves| {
      BroadcastReaches(m.(slaves := m.slaves[n := Accepted(m.slaves[n], packet)]), n + 1, packet, i);
    }
  }

  lemma {:induction false} AddressedReaches(m: Master, n: nat, address: byte, packet: seq<byte>, i: nat)
    requires n <= |m.slaves| && i < |m.slaves| && forall j :: 0 <= j < n ==> m.slaves[j].address != address
    ensures Addressed(m, n, address, packet, _ => true).slaves[i]
         == if FirstWith(m.slaves, address, i) then Accepted(m.slaves[i], packet) else m.slaves[i]
    decreases |m.slaves| - n
  {
    if n < |m.slaves| && m.slaves[n].address != address {
      AddressedReaches(m, n + 1, address, packet, i);
    }
  }

  // ----- runs

  datatype Event =
    | Receive(bytes: seq<byte>, env: Env)
    | Timeout(elapsed: nat, env: Env)
    | Expire
    | Request(packet: seq<byte>, recipient: Option<byte>, pushes: nat -> bool)

  /** The slaves as they are configured, before the first poll. */
  function Start(addresses: seq<byte>): Master {
    Master(seq(|addresses|, i requires 0 <= i < |addresses| => Slave(addresses[i], 0, [], 0, [])), -1,
           Zeros(RECEIVE_BUFFER_SIZE), 0, Zeros(REQUEST_SIZE), false, 0, false, Off, [], [])
  }

  function Step(m: Master, e: Event, cfg: Config): (m': Master)
    requires Shaped(m)
    ensures Shaped(m') && |m'.slaves| == |m.slaves|
  {
    match e
    case Receive(bytes, env) => Received(m, bytes, cfg, env)
    case Timeout(elapsed, env) => TimedOut(m, elapsed, cfg, env)
    case Expire => if m.timer == Armed then m.(timer := Expired) else m
    case Request(packet, recipient, pushes) =>
      if |packet| >= 4 then Dispatched(m, packet, recipient, pushes) else m
  }

  /** The first slave is polled at once, everything else follows from events. */
  function Run(addresses: seq<byte>, events: seq<Event>, cfg: Config, env: Env): (m: Master)
    requires addresses != []
    ensures Shaped(m) && |m.slaves| == |addresses|
  {
    if events == [] then Polled(Start(addresses), cfg, env)
    else Step(Run(addresses, events[..|events| - 1], cfg, env), events[|events| - 1], cfg)
  }

  /** The run after its first `n` events. */
  ghost function After(addresses: seq<byte>, events: seq<Event>, n: nat, cfg: Config, env: Env): (m: Master)
    requires addresses != [] && n <= |events|
    ensures Shaped(m)
  {
    Run(addresses, events[..n], cfg, env)
  }

  lemma AfterNext(addresses: seq<byte>, events: seq<Event>, n: nat, cfg: Config, env: Env)
    requires addresses != [] && n < |events|
    ensures After(addresses, events, n + 1, cfg, env) == Step(After(addresses, events, n, cfg, env), events[n], cfg)
  {
    assert events[..n + 1][..n] == events[..n];
  }

  lemma WholeRun(addresses: seq<byte>, events: seq<Event>, cfg: Config, env: Env)
    requires addresses != []
    ensures After(addresses, events, 0, cfg, env) == Polled(Start(addresses), cfg, env)
    ensures After(addresses, events, |events|, cfg, env) == Run(addresses, events, cfg, env)
  {
    assert events[..0] == [] && events[..|events|] == events;
  }

  lemma StepKeeps(m: Master, e: Event, cfg: Config)
    requires Kept(m)
    ensures Kept(Step(m, e, cfg))
  {
    match e
    case Receive(bytes, env) => ReceivedKeeps(m, bytes, cfg, env);
    case Timeout(elapsed, env) => TimedOutKeeps(m, elapsed, cfg, env);
    case Expire =>
    case Request(packet, recipient, pushes) =>
      if |packet| >= 4 {
        DispatchedKeeps(m, packet, recipient, pushes);
      }
  }

  lemma StartKeeps(addresses: seq<byte>, cfg: Config, env: Env)
    requires addresses != []
    ensures Kept(Polled(Start(addresses), cfg, env))
  {
    var m := Start(addresses).(current := 0, polls := [0]);
    assert All(m, false);
    PolledAt(m, cfg, env);
  }

  lemma {:induction false} RunKeeps(addresses: seq<byte>, events: seq<Event>, cfg: Config, env: Env)
    requires addresses != []
    ensures Kept(Run(addresses, events, cfg, env))
  {
    if events == [] {
      StartKeeps(addresses, cfg, env);
    } else {
      RunKeeps(addresses, events[..|events| - 1], cfg, env);
      StepKeeps(Run(addresses, events[..|events| - 1], cfg, env), events[|events| - 1], cfg);
    }
  }

  /** However data, timeouts and requests interleave, no data request is written to the serial line more than ten times
      for a slave. */
  lemma RetryBound(addresses: seq<byte>, events: seq<Event>, cfg: Config, env: Env, i: nat, t: nat)
    requires i < |addresses|
    ensures Times(Run(addresses, events, cfg, env).slaves[i].wire, t) <= TRIES_DATA
  {
    RunKeeps(addresses, events, cfg, env);
    var m := Run(addresses, events, cfg, env);
    assert Fits(m.slaves[i], Open(m) && i == m.current);
  }

  // ----- the timer never rests

  /** Both durations are a fraction of a second. */
  predicate Sane(cfg: Config) {
    0 < cfg.timeout < SECOND && 0 < cfg.interval < SECOND
  }

  lemma AcknowledgedRuns(m: Master, cfg: Config, env: Env)
    requires Shaped(m) && Sane(cfg) && m.timer != Off
    ensures Acknowledged(m, cfg, env).timer != Off
  {
  }

  lemma AnsweredRuns(m: Master, cfg: Config, env: Env)
    requires Shaped(m) && Sane(cfg) && m.timer != Off && FrameLength(m) <= m.used
    ensures Answered(m, cfg, env).timer != Off
  {
    AcknowledgedRuns(m, cfg, env);
    AcknowledgedRuns(m.(responses := m.responses + [m.buffer[3..83]]), cfg, env);
    AnsweredIs(m, cfg, env, (n: Master) => n.timer != Off);
  }

  lemma LookedRuns(m: Master, cfg: Config, env: Env)
    requires Shaped(m) && Sane(cfg) && m.timer != Off
    ensures Looked(m, cfg, env).timer != Off
  {
    if Complete(m) {
      if !m.verify {
        AnsweredRuns(m, cfg, env);
      } else if Echoed(m) {
        var m1 := Verified(m.(verify := false), cfg);
        if m.ack == 0 && Complete(m1) {
          AnsweredRuns(m1, cfg, env);
        }
      }
    }
  }

  /** The timer is left off after a timeout exactly when the next slave has nothing queued and there is no memory for
      the packet that polls it. */
  lemma TimedOutRuns(m: Master, elapsed: nat, cfg: Config, env: Env)
    requires Shaped(m) && Sane(cfg)
    ensures TimedOut(m, elapsed, cfg, env).timer == Off
        <==> && m.interval && elapsed >= cfg.interval && !env.pushes
             && m.slaves[if m.current + 1 >= |m.slaves| then 0 else m.current + 1].queue == []
  {
  }

  /** Memory suffices for every packet that polls a slave. */
  predicate Roomy(e: Event) {
    e.Timeout? ==> e.env.pushes
  }

  ghost predicate AllRoomy(events: seq<Event>) {
    forall n :: 0 <= n < |events| ==> Roomy(events[n])
  }

  lemma StepRuns(m: Master, e: Event, cfg: Config)
    requires Shaped(m) && Sane(cfg) && Roomy(e) && m.timer != Off
    ensures Step(m, e, cfg).timer != Off
  {
    match e
    case Receive(bytes, env) => LookedRuns(Filled(m, bytes), cfg, env);
    case Timeout(elapsed, env) => TimedOutRuns(m, elapsed, cfg, env);
    case Expire =>
    case Request(packet, recipient, pushes) =>
  }

  /** After every event the timer is armed, or it has expired and its handler is due. */
  lemma {:induction false} NeverStalls(addresses: seq<byte>, events: seq<Event>, cfg: Config, env: Env)
    requires addresses != [] && Sane(cfg) && env.pushes && AllRoomy(events)
    ensures Run(addresses, events, cfg, env).timer != Off
  {
    if events != [] {
      var n := |events| - 1;
      NeverStalls(addresses, events[..n], cfg, env);
      StepRuns(Run(addresses, events[..n], cfg, env), events[n], cfg);
    }
  }

  /** The first poll, and the timeout when nothing comes back. */
  function Silence(cfg: Config, env: Env): seq<Event> {
    [Expire, Timeout(cfg.timeout, env)]
  }

  lemma SilenceRun(addresses: seq<byte>, cfg: Config, env: Env)
    requires addresses != []
    ensures Run(addresses, Silence(cfg, env), cfg, env)
         == TimedOut(Step(Polled(Start(addresses), cfg, env), Expire, cfg), cfg.timeout, cfg, env)
  {
    var events := Silence(cfg, env);
    WholeRun(addresses, events, cfg, env);
    AfterNext(addresses, events, 0, cfg, env);
    AfterNext(addresses, events, 1, cfg, env);
  }

  /** A timeout of no fraction of a second leaves the timer off from the start, such a delay after the first request
      that is not answered. */
  lemma StallsWithout(addresses: seq<byte>, cfg: Config, env: Env)
    requires addresses != [] && !Sane(cfg) && env.writes && env.pushes
    ensures Run(addresses, [], cfg, env).timer == Off || Run(addresses, Silence(cfg, env), cfg, env).timer == Off
  {
    if 0 < cfg.timeout < SECOND {
      SilenceRun(addresses, cfg, env);
      var m := Polled(Start(addresses), cfg, env);
      assert !m.interval;
    }
  }

  /** With memory for poll packets the timer never rests, whatever happens, if and only if both durations are a fraction
      of a second. The configuration allows longer delays. */
  lemma NeverStallsExactly(addresses: seq<byte>, cfg: Config)
    requires addresses != []
    ensures Sane(cfg) <==> forall events: seq<Event>, env: Env :: env.pushes && AllRoomy(events) ==>
                             Run(addresses, events, cfg, env).timer != Off
  {
    if Sane(cfg) {
      forall events: seq<Event>, env: Env | env.pushes && AllRoomy(events)
        ensures Run(addresses, events, cfg, env).timer != Off
      {
        NeverStalls(addresses, events, cfg, env);
      }
    } else {
      var env := Env(true, true);
      StallsWithout(addresses, cfg, env);
      assert AllRoomy([]) && AllRoomy(Silence(cfg, env));
    }
  }

  /** No serial data, and the timeout handler is called only when the timer has expired. */
  predicate Idle(m: Master, e: Event) {
    !e.Receive? && (e.Timeout? ==> m.timer == Expired)
  }

  lemma StepIdle(m: Master, e: Event, cfg: Config)
    requires Shaped(m) && m.timer == Off && Idle(m, e)
    ensures Step(m, e, cfg).timer == Off && Step(m, e, cfg).polls == m.polls
  {
  }

  /** Once the timer is off, no slave is polled before serial data comes in. */
  lemma {:induction false} StallLasts(addresses: seq<byte>, events: seq<Event>, j: nat, n: nat, cfg: Config, env: Env)
    requires addresses != [] && j <= n <= |events| && After(addresses, events, j, cfg, env).timer == Off
    requires forall k :: j <= k < n ==> Idle(After(addresses, events, k, cfg, env), events[k])
    ensures After(addresses, events, n, cfg, env).timer == Off
    ensures After(addresses, events, n, cfg, env).polls == After(addresses, events, j, cfg, env).polls
  {
    if j < n {
      StallLasts(addresses, events, j, n - 1, cfg, env);
      AfterNext(addresses, events, n - 1, cfg, env);
      StepIdle(After(addresses, events, n - 1, cfg, env), events[n - 1], cfg);
    }
  }

  // ----- every slave has its turn

  /** The slaves are polled one after the other. */
  ghost predicate InTurn(m: Master) {
    && Shaped(m) && m.polls != [] && m.polls[|m.polls| - 1] == m.current
    && (forall k :: 0 <= k < |m.polls| ==> 0 <= m.polls[k] < |m.slaves|)
    && forall k :: 0 <= k < |m.polls| - 1 ==>
         m.polls[k + 1] == if m.polls[k] + 1 >= |m.slaves| then 0 else m.polls[k] + 1
  }

  lemma PolledInTurn(m: Master, cfg: Config, env: Env)
    requires InTurn(m)
    ensures InTurn(Polled(m, cfg, env))
  {
    var m' := Polled(m, cfg, env);
    forall k | 0 <= k < |m'.polls| - 1
      ensures m'.polls[k + 1] == if m'.polls[k] + 1 >= |m.slaves| then 0 else m'.polls[k] + 1
    {
      if k < |m.polls| - 1 {
        assert m.polls[k + 1] == if m.polls[k] + 1 >= |m.slaves| then 0 else m.polls[k] + 1;
      }
    }
  }

  lemma StepInTurn(m: Master, e: Event, cfg: Config)
    requires InTurn(m)
    ensures InTurn(Step(m, e, cfg))
  {
    if e.Timeout? && m.interval && e.elapsed >= cfg.interval {
      PolledInTurn(Disarm(m).(interval := false), cfg, e.env);
    }
  }

  lemma {:induction false} RunInTurn(addresses: seq<byte>, events: seq<Event>, cfg: Config, env: Env)
    requires addresses != []
    ensures InTurn(Run(addresses, events, cfg, env))
  {
    if events != [] {
      RunInTurn(addresses, events[..|events| - 1], cfg, env);
      StepInTurn(Run(addresses, events[..|events| - 1], cfg, env), events[|events| - 1], cfg);
    }
  }

  /** Which slave is polled `j` turns after turn `k`, within one round. */
  lemma {:induction false} TurnAfter(m: Master, k: nat, j: nat)
    requires InTurn(m) && j < |m.slaves| && k + j < |m.polls|
    ensures m.polls[k + j] == if m.polls[k] + j < |m.slaves| then m.polls[k] + j else m.polls[k] + j - |m.slaves|
  {
    if j > 0 {
      TurnAfter(m, k, j - 1);
    }
  }

  /** A round of polls visits each slave exactly once. */
  lemma OnceInRound(polls: seq<int>, n: nat, k: nat, i: nat)
    requires i < n && k + n <= |polls| && 0 <= polls[k] < n
    requires forall l :: k <= l < k + n ==>
               polls[l] == if polls[k] + l - k < n then polls[k] + l - k else polls[k] + l - k - n
    ensures exists j :: k <= j < k + n && polls[j] == i && forall l :: k <= l < k + n && polls[l] == i ==> l == j
  {
    var j := if i >= polls[k] then k + i - polls[k] else k + i + n - polls[k];
    assert polls[j] == i;
  }

  /** In every run, as many polls in a row as there are slaves visit each slave exactly once. */
  lemma EverySlaveOnce(addresses: seq<byte>, events: seq<Event>, cfg: Config, env: Env, k: nat, i: nat)
    requires i < |addresses| && k + |addresses| <= |Run(addresses, events, cfg, env).polls|
    ensures var polls := Run(addresses, events, cfg, env).polls;
            exists j :: k <= j < k + |addresses| && polls[j] == i
                     && forall l :: k <= l < k + |addresses| && polls[l] == i ==> l == j
  {
    RunInTurn(addresses, events, cfg, env);
    TurnsMakeRound(Run(addresses, events, cfg, env), k);
    OnceInRound(Run(addresses, events, cfg, env).polls, |addresses|, k, i);
  }

  lemma TurnsMakeRound(m: Master, k: nat)
    requires InTurn(m) && k + |m.slaves| <= |m.polls|
    ensures 0 <= m.polls[k] < |m.slaves|
    ensures forall l :: k <= l < k + |m.slaves| ==>
              m.polls[l] == if m.polls[k] + l - k < |m.slaves| then m.polls[k] + l - k
                            else m.polls[k] + l - k - |m.slaves|
  {
    forall l | k <= l < k + |m.slaves|
      ensures m.polls[l] == if m.polls[k] + l - k < |m.slaves| then m.polls[k] + l - k
                            else m.polls[k] + l - k - |m.slaves|
    {
      TurnAfter(m, k, l - k);
    }
  }

  // ----- an exchange that succeeds

  /** A frame that arrives whole in an empty buffer. */
  lemma FilledWithFrame(m: Master, s: Slave, packet: seq<byte>, cfg: Config)
    requires Shaped(m) && m.used == 0 && Legal(packet)
    ensures var frame := FrameOf(s, packet, cfg.crc);
            var m' := Filled(m, frame);
            && m'.used == |frame| == FrameLength(m') && m'.buffer[..|frame|] == frame && Complete(m')
  {
    var frame := FrameOf(s, packet, cfg.crc);
    var m' := Filled(m, frame);
    assert frame[..|frame|] == frame;
    assert m'.buffer[..|frame|] == frame;
    assert m'.buffer[7] == frame[7] == packet[4];
  }

  /** The echo of the request is recognized, and the master waits for the answer. */
  lemma EchoAccepted(m: Master, cfg: Config, env: Env)
    requires Shaped(m) && m.used == 0 && m.ack == 0 && env.writes
    requires Now(m).queue != [] && Legal(PacketOf(Now(m).queue[0]))
    ensures var frame, m1 := FrameOf(Now(m), PacketOf(Now(m).queue[0]), cfg.crc), Sent(m, cfg, env);
            Received(m1, frame, cfg, env) == m1.(verify := false, buffer := Zeros(RECEIVE_BUFFER_SIZE), used := 0)
  {
    var s, packet := Now(m), PacketOf(Now(m).queue[0]);
    var frame, m1 := FrameOf(s, packet, cfg.crc), Sent(m, cfg, env);
    SentShape(m, cfg, env);
    FilledWithFrame(m1, s, packet, cfg);
    FrameIsEchoed(Filled(m1, frame), s, packet, cfg.crc);
  }

  /** What the master remembers of its request. */
  predicate Asked(m: Master, s: Slave)
    requires Shaped(m)
  {
    m.request[0] == s.address && m.request[1] == FUNCTION_CODE && m.request[2] == s.sequence
  }

  lemma SentAsks(m: Master, cfg: Config, env: Env)
    requires Shaped(m) && env.writes && Now(m).queue != [] && Legal(PacketOf(Now(m).queue[0]))
    ensures Asked(Sent(m, cfg, env), Now(m))
  {
  }

  lemma FramePasses(m: Master, s: Slave, packet: seq<byte>, cfg: Config)
    requires Shaped(m) && m.used == 0 && Legal(packet) && Asked(m, s)
    ensures var m' := Filled(m, FrameOf(s, packet, cfg.crc)); Complete(m') && Checks(m', cfg)
  {
    FilledWithFrame(m, s, packet, cfg);
    AnswerPasses(Filled(m, FrameOf(s, packet, cfg.crc)), s, packet, cfg);
  }

  lemma FilledBytes(m: Master, bytes: seq<byte>)
    requires Shaped(m) && m.used == 0 && |bytes| <= RECEIVE_BUFFER_SIZE
    ensures forall i :: 0 <= i < |bytes| ==> Filled(m, bytes).buffer[i] == bytes[i]
  {
  }

  lemma FrameBytes(s: Slave, packet: seq<byte>, crc: seq<byte> -> bv16)
    ensures var frame := FrameOf(s, packet, crc);
            frame[2] == s.sequence && forall i :: 3 <= i < 3 + |packet| ==> frame[i] == packet[i - 3]
  {
  }

  /** What the master sees of a frame that arrives whole. */
  lemma FrameArrives(m: Master, s: Slave, packet: seq<byte>, cfg: Config)
    requires Shaped(m) && m.used == 0 && Legal(packet)
    ensures var m' := Filled(m, FrameOf(s, packet, cfg.crc));
            && m'.buffer[2] == s.sequence && packet <= m'.buffer[3..83] && m'.buffer[8] == packet[5]
            && NoUid(m') == (packet[0] == 0 && packet[1] == 0 && packet[2] == 0 && packet[3] == 0)
  {
    FilledBytes(m, FrameOf(s, packet, cfg.crc));
    FrameBytes(s, packet, cfg.crc);
    SeenBytes(Filled(m, FrameOf(s, packet, cfg.crc)), FrameOf(s, packet, cfg.crc), packet);
  }

  lemma SeenBytes(m: Master, frame: seq<byte>, packet: seq<byte>)
    requires Shaped(m) && Legal(packet) && |frame| == |packet| + OVERHEAD
    requires forall i :: 0 <= i < |frame| ==> m.buffer[i] == frame[i]
    requires forall i :: 3 <= i < 3 + |packet| ==> frame[i] == packet[i - 3]
    ensures packet <= m.buffer[3..83] && m.buffer[8] == packet[5]
    ensures NoUid(m) == (packet[0] == 0 && packet[1] == 0 && packet[2] == 0 && packet[3] == 0)
  {
    assert forall i :: 0 <= i < |packet| ==> m.buffer[3..83][i] == m.buffer[i + 3] == frame[i + 3];
  }

  /** An empty answer with the right number ends the request: its entry leaves the queue and the number goes on. */
  lemma EmptyAnswerEnds(m: Master, s: Slave, cfg: Config, env: Env)
    requires Shaped(m) && m.used == 0 && !m.verify && Asked(m, s)
    ensures var m' := Received(m, FrameOf(s, EMPTY_PACKET, cfg.crc), cfg, env);
            Now(m') == Popped(Bumped(Now(m))) && m'.interval && m'.responses == m.responses
  {
    FrameArrives(m, s, EMPTY_PACKET, cfg);
    FramePasses(m, s, EMPTY_PACKET, cfg);
  }

  /** An answer with data and the right number is handed on, once, and acknowledged in place of the request. */
  lemma DataAnswerHandedOn(m: Master, s: Slave, packet: seq<byte>, cfg: Config, env: Env)
    requires Shaped(m) && m.used == 0 && !m.verify && Asked(m, s) && Legal(packet) && env.writes
    requires packet[0] != 0 || packet[1] != 0 || packet[2] != 0 || packet[3] != 0
    requires packet[5] != 0 && Now(m).queue != []
    ensures var m' := Received(m, FrameOf(s, packet, cfg.crc), cfg, env);
            && |m'.responses| == |m.responses| + 1 && m'.responses[..|m.responses|] == m.responses
            && packet <= m'.responses[|m.responses|]
            && Now(m') == Replaced(Now(m)) && m'.ack == 1 && m'.verify && m'.used == 0
  {
    var m1 := Filled(m, FrameOf(s, packet, cfg.crc));
    FrameArrives(m, s, packet, cfg);
    FramePasses(m, s, packet, cfg);
    DataAnswered(m1, cfg, env);
  }

  lemma DataAnswered(m: Master, cfg: Config, env: Env)
    requires Shaped(m) && Complete(m) && Checks(m, cfg) && !NoUid(m) && m.buffer[8] != 0 && m.buffer[2] == m.request[2]
    requires env.writes && Now(m).queue != []
    ensures var m' := Answered(m, cfg, env);
            && m'.responses == m.responses + [m.buffer[3..83]]
            && Now(m') == Replaced(Now(m)) && m'.ack == 1 && m'.verify && m'.used == 0
  {
    AcknowledgedReplaces(m.(responses := m.responses + [m.buffer[3..83]]), cfg, env);
  }

  lemma AcknowledgedReplaces(m: Master, cfg: Config, env: Env)
    requires Shaped(m) && env.writes && Now(m).queue != []
    ensures var m' := Acknowledged(m, cfg, env);
            && m'.responses == m.responses && Now(m') == Replaced(Now(m)) && m'.ack == 1 && m'.verify && m'.used == 0
  {
  }

  /** The echo of the acknowledgement ends the request. */
  lemma AckEchoEnds(m: Master, s: Slave, r: seq<byte>, cfg: Config, env: Env)
    requires Shaped(m) && m.used == 0 && m.verify && m.ack == 1 && |r| == REQUEST_SIZE
    requires m.request == Overwritten(r, FrameOf(s, EMPTY_PACKET, cfg.crc))
    ensures var m' := Received(m, FrameOf(s, EMPTY_PACKET, cfg.crc), cfg, env);
            Now(m') == Popped(Bumped(Now(m))) && m'.interval && m'.responses == m.responses
  {
    var frame := FrameOf(s, EMPTY_PACKET, cfg.crc);
    FilledWithFrame(m, s, EMPTY_PACKET, cfg);
    FrameIsEchoed(Filled(m, frame), s, EMPTY_PACKET, cfg.crc);
  }

  lemma NothingHandedOn(m: Master, cfg: Config, env: Env)
    requires Shaped(m)
    ensures Acknowledged(m, cfg, env).responses == m.responses
    ensures GivenUp(m, cfg).responses == m.responses && Done(m, cfg).responses == m.responses
  {
  }

  /** A frame is handed on exactly when its checksum is right, it comes from the slave that was asked, has the number of
      the request and is a response, and then as it was received. */
  lemma HandedOnExactly(m: Master, cfg: Config, env: Env)
    requires Shaped(m) && Complete(m)
    ensures Answered(m, cfg, env).responses
         == if Checks(m, cfg) && !NoUid(m) && m.buffer[8] != 0 && m.buffer[2] == m.request[2]
            then m.responses + [m.buffer[3..83]] else m.responses
  {
    NothingHandedOn(m, cfg, env);
    NothingHandedOn(Disarm(m), cfg, env);
    NothingHandedOn(m.(responses := m.responses + [m.buffer[3..83]]), cfg, env);
  }
}
