/** When a queued request is lost on the RS485 master: late bytes make it look again at a frame it has handled. */
module Rs485Loss {
  import opened Bytes
  import opened Counting
  import opened Wrappers
  import opened Rs485Spec
  import opened Rs485Runs

  // ----- one slave

  predicate IsQueued(s: Slave, t: nat) {
    exists i :: 0 <= i < |s.queue| && s.queue[i].Data? && s.queue[i].tag == t
  }

  /** Every data request that was accepted is still queued or was written. */
  ghost predicate NoneLost(s: Slave) {
    forall t: nat :: t < s.accepted ==> Times(s.wire, t) >= 1 || IsQueued(s, t)
  }

  /** The head of the queue is not a data request that was never written. */
  predicate HeadDone(s: Slave) {
    s.queue == [] || s.queue[0].Empty? || Times(s.wire, s.queue[0].tag) >= 1
  }

  /** The queue after its head is gone; `s'` may have something else in front. */
  ghost predicate Headless(s: Slave, s': Slave) {
    && s.queue != [] && s'.wire == s.wire && s'.accepted == s.accepted
    && (s'.queue == s.queue[1..] || (s'.queue != [] && s'.queue[0].Empty? && s'.queue[1..] == s.queue[1..]))
  }

  lemma HeadlessQueue(s: Slave, s': Slave, t: nat)
    requires Headless(s, s') && Tags(s)
    ensures IsQueued(s', t) <==> IsQueued(s, t) && !(s.queue[0].Data? && s.queue[0].tag == t)
  {
    var d := if s'.queue == s.queue[1..] then 1 else 0;
    assert forall i :: 1 <= i < |s.queue| ==> s.queue[i] == s.queue[1..][i - 1] && s.queue[i] == s'.queue[i - d];
    if IsQueued(s, t) && !(s.queue[0].Data? && s.queue[0].tag == t) {
      var i :| 0 <= i < |s.queue| && s.queue[i].Data? && s.queue[i].tag == t;
      assert s'.queue[i - d].tag == t;
    }
    if IsQueued(s', t) {
      var i :| 0 <= i < |s'.queue| && s'.queue[i].Data? && s'.queue[i].tag == t;
      assert s.queue[i + d] == s'.queue[i];
    }
  }

  /** The head may go, or be replaced, if and only if it is done with. */
  lemma HeadMayGo(s: Slave, s': Slave)
    requires NoneLost(s) && Tags(s) && Headless(s, s')
    ensures NoneLost(s') <==> HeadDone(s)
  {
    forall t: nat
      ensures IsQueued(s', t) <==> IsQueued(s, t) && !(s.queue[0].Data? && s.queue[0].tag == t)
    {
      HeadlessQueue(s, s', t);
    }
  }

  lemma PoppedLoses(s: Slave)
    requires NoneLost(s) && Tags(s)
    ensures NoneLost(Popped(s)) <==> HeadDone(s)
  {
    if s.queue != [] {
      HeadMayGo(s, Popped(s));
    }
  }

  lemma ReplacedLoses(s: Slave)
    requires NoneLost(s) && Tags(s) && s.queue != []
    ensures NoneLost(Replaced(s)) <==> HeadDone(s)
  {
    assert Replaced(s).queue[1..] == s.queue[1..];
    HeadMayGo(s, Replaced(s));
  }

  /** The same requests are queued. */
  lemma SameQueued(s: Slave, s': Slave)
    requires NoneLost(s) && s'.accepted == s.accepted && |s'.queue| == |s.queue|
    requires forall t: nat :: Times(s'.wire, t) >= Times(s.wire, t)
    requires forall i :: 0 <= i < |s.queue| && s.queue[i].Data? ==>
               s'.queue[i].Data? && s'.queue[i].tag == s.queue[i].tag
    ensures NoneLost(s')
  {
    forall t: nat | t < s.accepted && IsQueued(s, t)
      ensures IsQueued(s', t)
    {
      var i :| 0 <= i < |s.queue| && s.queue[i].Data? && s.queue[i].tag == t;
      assert s'.queue[i].tag == t;
    }
  }

  lemma TriedLoses(s: Slave)
    requires NoneLost(s) && Tags(s)
    ensures NoneLost(Tried(s)) <==> HeadDone(s) || s.queue[0].tries != 1
  {
    PoppedLoses(s);
    if s.queue != [] && s.queue[0].tries != 1 {
      SameQueued(s, Tried(s));
    }
  }

  lemma WrittenLosesNone(s: Slave)
    requires NoneLost(s) && s.queue != []
    ensures NoneLost(Written(s)) && HeadDone(Written(s))
  {
    if s.queue[0].Data? {
      forall t: nat
        ensures Times(Written(s).wire, t) == Times(s.wire, t) + if t == s.queue[0].tag then 1 else 0
      {
        TimesMore(s.wire, s.queue[0].tag, t);
      }
    }
    SameQueued(s, Written(s));
  }

  lemma PushedLosesNone(s: Slave, e: Entry)
    requires NoneLost(s)
    ensures NoneLost(Pushed(s, e)) && (s.queue != [] ==> HeadDone(Pushed(s, e)) == HeadDone(s))
  {
    forall t: nat | t < s.accepted && IsQueued(s, t)
      ensures IsQueued(Pushed(s, e), t)
    {
      var i :| 0 <= i < |s.queue| && s.queue[i].Data? && s.queue[i].tag == t;
      assert Pushed(s, e).queue[i] == s.queue[i];
    }
  }

  lemma AcceptedLosesNone(s: Slave, packet: seq<byte>)
    requires NoneLost(s)
    ensures NoneLost(Accepted(s, packet)) && (s.queue != [] ==> HeadDone(Accepted(s, packet)) == HeadDone(s))
  {
    var e := Data(s.accepted, packet, TRIES_DATA);
    PushedLosesNone(s, e);
    assert Accepted(s, packet).queue[|s.queue|] == e;
    assert forall t: nat :: IsQueued(Pushed(s, e), t) ==> IsQueued(Accepted(s, packet), t);
  }

  lemma BumpedSame(s: Slave)
    ensures NoneLost(Bumped(s)) == NoneLost(s) && HeadDone(Bumped(s)) == HeadDone(s) && Tags(Bumped(s)) == Tags(s)
  {
    assert forall t: nat :: IsQueued(Bumped(s), t) == IsQueued(s, t);
  }

  // ----- the master

  ghost predicate Safe(m: Master) {
    Shaped(m) && forall i :: 0 <= i < |m.slaves| ==> NoneLost(m.slaves[i])
  }

  ghost predicate Tagged(m: Master) {
    Shaped(m) && forall i :: 0 <= i < |m.slaves| ==> Tags(m.slaves[i])
  }

  lemma KeptIsTagged(m: Master)
    requires Kept(m)
    ensures Tagged(m)
  {
    forall i | 0 <= i < |m.slaves|
      ensures Tags(m.slaves[i])
    {
      assert Fits(m.slaves[i], Open(m) && i == m.current);
    }
  }

  /** Only the current slave changes. */
  lemma NowDecides(m: Master, m': Master, s: Slave)
    requires Safe(m) && Shaped(m') && m'.slaves == m.slaves[m.current := s]
    ensures Safe(m') <==> NoneLost(s)
  {
    if Safe(m') {
      assert NoneLost(m'.slaves[m.current]);
    }
  }

  lemma SameSafe(m: Master, m': Master)
    requires Safe(m) && Shaped(m') && m'.slaves == m.slaves
    ensures Safe(m')
  {
  }

  /** The frame that was received does not pass, so that the request is given up. */
  predicate GivesUp(m: Master, cfg: Config)
    requires Shaped(m) && FrameLength(m) <= m.used
  {
    !Checks(m, cfg) || NoUid(m) != (m.buffer[8] == 0) || (NoUid(m) && m.buffer[2] != m.request[2])
  }

  /** The head of the queue leaves, or makes room for an acknowledgement, when the frame is looked at as an answer. */
  predicate AnswerEnds(m: Master, cfg: Config)
    requires Shaped(m) && FrameLength(m) <= m.used
  {
    Now(m).queue != [] && (GivesUp(m, cfg) ==> Now(m).queue[0].tries == 1)
  }

  /** The same for everything in the buffer. */
  predicate Ends(m: Master, cfg: Config)
    requires Shaped(m)
  {
    Complete(m) &&
    if !m.verify then AnswerEnds(m, cfg)
    else if !Echoed(m) then Now(m).queue != [] && Now(m).queue[0].tries == 1
    else if m.ack > 0 then Now(m).queue != [] && m.ack == 1
    else
      var m1 := Verified(m.(verify := false), cfg);
      Complete(m1) && AnswerEnds(m1, cfg)
  }

  lemma GivenUpLoses(m: Master, cfg: Config)
    requires Safe(m) && Tagged(m)
    ensures Safe(GivenUp(m, cfg)) <==> HeadDone(Now(m)) || Now(m).queue[0].tries != 1
  {
    BumpedSame(Now(m));
    assert NoneLost(m.slaves[m.current]) && Tags(m.slaves[m.current]);
    var s := if IsEmptyRequest(m.request) then Bumped(Now(m)) else Now(m);
    TriedLoses(s);
    NowDecides(m, GivenUp(m, cfg), Tried(s));
  }

  lemma DoneLoses(m: Master, cfg: Config)
    requires Safe(m) && Tagged(m)
    ensures Safe(Done(m, cfg)) <==> HeadDone(Now(m))
  {
    BumpedSame(Now(m));
    assert NoneLost(m.slaves[m.current]) && Tags(m.slaves[m.current]);
    PoppedLoses(Bumped(Now(m)));
    NowDecides(m, Done(m, cfg), Popped(Bumped(Now(m))));
  }

  /** Writing loses nothing, and an open request has been written. */
  lemma SentLosesNone(m: Master, cfg: Config, env: Env)
    requires Safe(m)
    ensures var m' := Sent(m, cfg, env);
            Safe(m') && (!m'.interval ==> Now(m').queue != [] && HeadDone(Now(m')))
  {
    var m', s := Sent(m, cfg, env), Now(m);
    SentShape(m, cfg, env);
    assert NoneLost(m.slaves[m.current]);
    if s.queue != [] && env.writes {
      WrittenLosesNone(s);
      NowDecides(m, m', Written(s));
    } else {
      SameSafe(m, m');
    }
  }

  /** Writing an acknowledgement changes no slave. */
  lemma SentEmpty(m: Master, cfg: Config, env: Env)
    requires Shaped(m) && Now(m).queue != [] && Now(m).queue[0].Empty?
    ensures Sent(m, cfg, env).slaves == m.slaves
  {
    SentShape(m, cfg, env);
    assert m.slaves[m.current := Now(m)] == m.slaves;
  }

  lemma AcknowledgedLoses(m: Master, cfg: Config, env: Env)
    requires Safe(m) && Tagged(m)
    ensures Safe(Acknowledged(m, cfg, env)) <==> HeadDone(Now(m))
    ensures HeadDone(Now(m)) && !Acknowledged(m, cfg, env).interval && Now(m).queue != [] ==>
              Now(Acknowledged(m, cfg, env)).queue != [] && HeadDone(Now(Acknowledged(m, cfg, env)))
  {
    var s, m' := Now(m), Acknowledged(m, cfg, env);
    assert NoneLost(m.slaves[m.current]) && Tags(m.slaves[m.current]);
    if s.queue != [] {
      var m1 := WithNow(m, Replaced(s)).(ack := 1, buffer := Zeros(RECEIVE_BUFFER_SIZE), used := 0);
      ReplacedLoses(s);
      SentEmpty(m1, cfg, env);
      NowDecides(m, m', Replaced(s));
    } else if env.pushes {
      var e := Empty(TRIES_EMPTY);
      var m1 := WithNow(m, Pushed(s, e)).(ack := 2, buffer := Zeros(RECEIVE_BUFFER_SIZE), used := 0);
      PushedLosesNone(s, e);
      SentEmpty(m1, cfg, env);
      NowDecides(m, m', Pushed(s, e));
    }
  }

  lemma AnsweredCases(m: Master, cfg: Config, env: Env, p: Master -> bool, q: bool)
    requires Shaped(m) && FrameLength(m) <= m.used
    requires GivesUp(m, cfg) ==> p(GivenUp(Disarm(m), cfg)) == q
    requires !GivesUp(m, cfg) ==>
               && p(Done(Disarm(m), cfg)) == q && p(Acknowledged(m, cfg, env)) == q
               && p(Acknowledged(m.(responses := m.responses + [m.buffer[3..83]]), cfg, env)) == q
    ensures p(Answered(m, cfg, env)) == q
  {
  }

  /** A frame looked at as an answer loses a request if and only if the head was never written and has to go. */
  lemma AnsweredLoses(m: Master, cfg: Config, env: Env)
    requires Safe(m) && Tagged(m) && FrameLength(m) <= m.used
    ensures Safe(Answered(m, cfg, env)) <==> HeadDone(Now(m)) || !AnswerEnds(m, cfg)
  {
    var m1 := m.(responses := m.responses + [m.buffer[3..83]]);
    GivenUpLoses(Disarm(m), cfg);
    DoneLoses(Disarm(m), cfg);
    AcknowledgedLoses(m, cfg, env);
    AcknowledgedLoses(m1, cfg, env);
    AnsweredCases(m, cfg, env, n => Safe(n), HeadDone(Now(m)) || !AnswerEnds(m, cfg));
  }

  /** What holds of the current slave: an open request is in its queue and has been written. */
  predicate Underway(m: Master)
    requires Shaped(m)
  {
    !m.interval ==> Now(m).queue != [] && HeadDone(Now(m))
  }

  lemma AnsweredUnderway(m: Master, cfg: Config, env: Env)
    requires Safe(m) && Tagged(m) && Underway(m) && FrameLength(m) <= m.used
    ensures Underway(Answered(m, cfg, env))
  {
    var m1 := m.(responses := m.responses + [m.buffer[3..83]]);
    AcknowledgedLoses(m, cfg, env);
    AcknowledgedLoses(m1, cfg, env);
    AcknowledgedKeepsInterval(m, cfg, env);
    AcknowledgedKeepsInterval(m1, cfg, env);
    AnsweredCases(m, cfg, env, n => Shaped(n) && Underway(n), true);
  }

  lemma AcknowledgedKeepsInterval(m: Master, cfg: Config, env: Env)
    requires Shaped(m)
    ensures m.interval ==> Acknowledged(m, cfg, env).interval
  {
  }

  /** What is received loses a request if and only if the head was never written and what is in the buffer ends it. */
  lemma LookedLoses(m: Master, cfg: Config, env: Env)
    requires Safe(m) && Tagged(m)
    ensures Safe(Looked(m, cfg, env)) <==> HeadDone(Now(m)) || !Ends(m, cfg)
  {
    if Complete(m) {
      if !m.verify {
        AnsweredLoses(m, cfg, env);
      } else if !Echoed(m) {
        GivenUpLoses(Disarm(m), cfg);
      } else {
        VerifiedLoses(m.(verify := false), cfg, env);
      }
    }
  }

  lemma VerifiedLoses(m: Master, cfg: Config, env: Env)
    requires Safe(m) && Tagged(m) && Complete(m)
    ensures var m1 := Verified(m, cfg);
            if m.ack > 0 then Safe(m1) <==> HeadDone(Now(m)) || m.ack != 1
            else if Complete(m1) then Safe(Answered(m1, cfg, env)) <==> HeadDone(Now(m)) || !AnswerEnds(m1, cfg)
            else Safe(m1)
  {
    var m1 := Verified(m, cfg);
    if m.ack == 1 {
      DoneLoses(Disarm(m), cfg);
    } else {
      SameSafe(m, m1);
      if m.ack == 0 && Complete(m1) {
        AnsweredLoses(m1, cfg, env);
      }
    }
  }

  lemma LookedUnderway(m: Master, cfg: Config, env: Env)
    requires Safe(m) && Tagged(m) && Underway(m)
    ensures Underway(Looked(m, cfg, env))
  {
    if Complete(m) {
      if !m.verify {
        AnsweredUnderway(m, cfg, env);
      } else if Echoed(m) {
        var m1 := Verified(m.(verify := false), cfg);
        if m.ack == 0 && Complete(m1) {
          SameSafe(m, m1);
          AnsweredUnderway(m1, cfg, env);
        }
      }
    }
  }

  /** Serial data makes the master lose a request. */
  predicate Loses(m: Master, bytes: seq<byte>, cfg: Config)
    requires Shaped(m)
  {
    m.used < RECEIVE_BUFFER_SIZE && !HeadDone(Now(m)) && Ends(Filled(m, bytes), cfg)
  }

  /** Serial data loses a request if and only if the head of the queue was never written and the bytes in the buffer
      then end it. */
  lemma ReceivedLoses(m: Master, bytes: seq<byte>, cfg: Config, env: Env)
    requires Safe(m) && Tagged(m)
    ensures Safe(Received(m, bytes, cfg, env)) <==> !Loses(m, bytes, cfg)
    ensures Underway(m) ==> Underway(Received(m, bytes, cfg, env))
  {
    if m.used < RECEIVE_BUFFER_SIZE {
      var m1 := Filled(m, bytes);
      SameSafe(m, m1);
      LookedLoses(m1, cfg, env);
      if Underway(m) {
        LookedUnderway(m1, cfg, env);
      }
    } else {
      SameSafe(m, ArmInterval(m, cfg));
    }
  }

  // ----- the other events lose nothing

  lemma PollPushedLosesNone(m: Master, cfg: Config, env: Env)
    requires Safe(m) && Now(m).queue == []
    ensures var m' := Sent(WithNow(m, Pushed(Now(m), Empty(TRIES_EMPTY))), cfg, env); Safe(m') && Underway(m')
  {
    var s := Pushed(Now(m), Empty(TRIES_EMPTY));
    PushedLosesNone(Now(m), Empty(TRIES_EMPTY));
    NowDecides(m, WithNow(m, s), s);
    SentLosesNone(WithNow(m, s), cfg, env);
  }

  lemma PolledLosesNone(m: Master, cfg: Config, env: Env)
    requires |m.slaves| > 0 && -1 <= m.current < |m.slaves| && |m.request| == REQUEST_SIZE && env.pushes
    requires forall i :: 0 <= i < |m.slaves| ==> NoneLost(m.slaves[i])
    ensures Safe(Polled(m, cfg, env)) && Underway(Polled(m, cfg, env))
  {
    var next := if m.current + 1 >= |m.slaves| then 0 else m.current + 1;
    var m1 := m.(ack := 0, buffer := Zeros(RECEIVE_BUFFER_SIZE), used := 0, current := next, polls := m.polls + [next]);
    assert Safe(m1);
    if Now(m1).queue != [] {
      SentLosesNone(m1, cfg, env);
    } else {
      PollPushedLosesNone(m1, cfg, env);
    }
  }

  lemma TimedOutLosesNone(m: Master, elapsed: nat, cfg: Config, env: Env)
    requires Safe(m) && Tagged(m) && Underway(m) && env.pushes
    ensures Safe(TimedOut(m, elapsed, cfg, env)) && Underway(TimedOut(m, elapsed, cfg, env))
  {
    if elapsed < (if m.interval then cfg.interval else cfg.timeout) {
      SameSafe(m, TimedOut(m, elapsed, cfg, env));
    } else if m.interval {
      PolledLosesNone(Disarm(m).(interval := false), cfg, env);
    } else {
      GivenUpLoses(Disarm(m), cfg);
    }
  }

  lemma {:induction false} BroadcastLosesNone(m: Master, i: nat, packet: seq<byte>, pushes: nat -> bool)
    requires Safe(m) && Underway(m)
    ensures Safe(Broadcast(m, i, packet, pushes)) && Underway(Broadcast(m, i, packet, pushes))
    decreases |m.slaves| - i
  {
    if i < |m.slaves| && pushes(i) {
      AcceptedStaysSafe(m, i, packet);
      BroadcastLosesNone(m.(slaves := m.slaves[i := Accepted(m.slaves[i], packet)]), i + 1, packet, pushes);
    }
  }

  lemma AcceptedStaysSafe(m: Master, i: nat, packet: seq<byte>)
    requires Safe(m) && Underway(m) && i < |m.slaves|
    ensures var m' := m.(slaves := m.slaves[i := Accepted(m.slaves[i], packet)]); Safe(m') && Underway(m')
  {
    assert NoneLost(m.slaves[i]);
    AcceptedLosesNone(m.slaves[i], packet);
  }

  lemma {:induction false} AddressedLosesNone(m: Master, i: nat, address: byte, packet: seq<byte>, pushes: nat -> bool)
    requires Safe(m) && Underway(m)
    ensures Safe(Addressed(m, i, address, packet, pushes)) && Underway(Addressed(m, i, address, packet, pushes))
    decreases |m.slaves| - i
  {
    if i < |m.slaves| {
      if m.slaves[i].address != address {
        AddressedLosesNone(m, i + 1, address, packet, pushes);
      } else {
        AcceptedStaysSafe(m, i, packet);
      }
    }
  }

  // ----- runs

  predicate LosesBy(m: Master, e: Event, cfg: Config)
    requires Shaped(m)
  {
    e.Receive? && Loses(m, e.bytes, cfg)
  }

  lemma StepLoses(m: Master, e: Event, cfg: Config)
    requires Safe(m) && Tagged(m) && Underway(m) && Roomy(e)
    ensures Safe(Step(m, e, cfg)) <==> !LosesBy(m, e, cfg)
    ensures Underway(Step(m, e, cfg))
  {
    match e
    case Receive(bytes, env) => ReceivedLoses(m, bytes, cfg, env);
    case Timeout(elapsed, env) => TimedOutLosesNone(m, elapsed, cfg, env);
    case Expire => SameSafe(m, Step(m, e, cfg));
    case Request(packet, recipient, pushes) =>
      if |packet| >= 4 {
        if IsForAll(packet, recipient) {
          BroadcastLosesNone(m, 0, packet, pushes);
        } else {
          AddressedLosesNone(m, 0, recipient.value, packet, pushes);
        }
      }
  }

  ghost predicate NeverLoses(addresses: seq<byte>, events: seq<Event>, cfg: Config, env: Env)
    requires addresses != []
  {
    forall n :: 0 <= n < |events| ==> !LosesBy(After(addresses, events, n, cfg, env), events[n], cfg)
  }

  ghost predicate AlwaysSafe(addresses: seq<byte>, events: seq<Event>, cfg: Config, env: Env)
    requires addresses != []
  {
    forall n :: 0 <= n <= |events| ==> Safe(After(addresses, events, n, cfg, env))
  }

  lemma StartIsSafe(addresses: seq<byte>, cfg: Config, env: Env)
    requires addresses != [] && env.pushes
    ensures Safe(Polled(Start(addresses), cfg, env)) && Underway(Polled(Start(addresses), cfg, env))
  {
    PolledLosesNone(Start(addresses), cfg, env);
  }

  lemma {:induction false} CarefulRunIsSafe(addresses: seq<byte>, events: seq<Event>, n: nat, cfg: Config, env: Env)
    requires addresses != [] && n <= |events| && env.pushes && AllRoomy(events)
    requires forall k :: 0 <= k < n ==> !LosesBy(After(addresses, events, k, cfg, env), events[k], cfg)
    ensures var m := After(addresses, events, n, cfg, env); Safe(m) && Underway(m)
  {
    if n == 0 {
      assert events[..0] == [];
      StartIsSafe(addresses, cfg, env);
    } else {
      CarefulRunIsSafe(addresses, events, n - 1, cfg, env);
      AfterNext(addresses, events, n - 1, cfg, env);
      var m := After(addresses, events, n - 1, cfg, env);
      RunKeeps(addresses, events[..n - 1], cfg, env);
      KeptIsTagged(m);
      StepLoses(m, events[n - 1], cfg);
    }
  }

  /** The first event that loses a request makes the run unsafe. */
  lemma {:induction false} LossShows(addresses: seq<byte>, events: seq<Event>, n: nat, cfg: Config, env: Env)
    requires addresses != [] && n < |events| && env.pushes && AllRoomy(events)
    requires LosesBy(After(addresses, events, n, cfg, env), events[n], cfg)
    ensures !AlwaysSafe(addresses, events, cfg, env)
  {
    if k :| 0 <= k < n && LosesBy(After(addresses, events, k, cfg, env), events[k], cfg) {
      LossShows(addresses, events, k, cfg, env);
    } else {
      CarefulRunIsSafe(addresses, events, n, cfg, env);
      AfterNext(addresses, events, n, cfg, env);
      var m := After(addresses, events, n, cfg, env);
      RunKeeps(addresses, events[..n], cfg, env);
      KeptIsTagged(m);
      StepLoses(m, events[n], cfg);
      assert !Safe(After(addresses, events, n + 1, cfg, env));
    }
  }

  /** In runs with memory for poll packets, every accepted data request is queued or was written, all along, if and
      only if serial data never ends a request that was not written. */
  lemma LosesExactly(addresses: seq<byte>, events: seq<Event>, cfg: Config, env: Env)
    requires addresses != [] && env.pushes && AllRoomy(events)
    ensures AlwaysSafe(addresses, events, cfg, env) <==> NeverLoses(addresses, events, cfg, env)
  {
    if NeverLoses(addresses, events, cfg, env) {
      forall n | 0 <= n <= |events|
        ensures Safe(After(addresses, events, n, cfg, env))
      {
        CarefulRunIsSafe(addresses, events, n, cfg, env);
      }
    } else {
      var n :| 0 <= n < |events| && LosesBy(After(addresses, events, n, cfg, env), events[n], cfg);
      LossShows(addresses, events, n, cfg, env);
    }
  }

  /** No serial data comes in during the delay between polls. */
  ghost predicate NoLateBytes(addresses: seq<byte>, events: seq<Event>, cfg: Config, env: Env)
    requires addresses != []
  {
    forall n :: 0 <= n < |events| && events[n].Receive? ==> !After(addresses, events, n, cfg, env).interval
  }

  lemma UnlateStepIsSafe(m: Master, e: Event, cfg: Config)
    requires Shaped(m) && Underway(m) && (e.Receive? ==> !m.interval)
    ensures !LosesBy(m, e, cfg)
  {
  }

  lemma {:induction false} UnlateRunIsSafe(addresses: seq<byte>, events: seq<Event>, n: nat, cfg: Config, env: Env)
    requires addresses != [] && n <= |events| && env.pushes && AllRoomy(events)
    requires NoLateBytes(addresses, events, cfg, env)
    ensures var m := After(addresses, events, n, cfg, env); Safe(m) && Underway(m)
  {
    if n == 0 {
      assert events[..0] == [];
      StartIsSafe(addresses, cfg, env);
    } else {
      UnlateRunIsSafe(addresses, events, n - 1, cfg, env);
      AfterNext(addresses, events, n - 1, cfg, env);
      var m := After(addresses, events, n - 1, cfg, env);
      RunKeeps(addresses, events[..n - 1], cfg, env);
      KeptIsTagged(m);
      UnlateStepIsSafe(m, events[n - 1], cfg);
      StepLoses(m, events[n - 1], cfg);
    }
  }

  /** In every run without late bytes and with memory for poll packets, each data request accepted for a slave is still
      queued or was written at least once. */
  lemma NothingLostWithoutLateBytes(addresses: seq<byte>, events: seq<Event>, cfg: Config, env: Env, i: nat, t: nat)
    requires i < |addresses| && env.pushes && AllRoomy(events) && NoLateBytes(addresses, events, cfg, env)
    ensures var s := Run(addresses, events, cfg, env).slaves[i];
            t < s.accepted ==> Times(s.wire, t) >= 1 || IsQueued(s, t)
  {
    UnlateRunIsSafe(addresses, events, |events|, cfg, env);
    assert events[..|events|] == events;
    assert NoneLost(Run(addresses, events, cfg, env).slaves[i]);
  }

  // ----- how a late byte loses a request

  /** The buffer holds an answer that ends the request it belongs to. */
  predicate Ending(m: Master, cfg: Config)
    requires Shaped(m)
  {
    !m.verify && Complete(m) && Checks(m, cfg) && NoUid(m) && m.buffer[8] == 0 && m.buffer[2] == m.request[2]
  }

  lemma EndingIsDone(m: Master, cfg: Config, env: Env)
    requires Shaped(m) && Ending(m, cfg)
    ensures Looked(m, cfg, env) == Done(Disarm(m), cfg)
  {
  }

  lemma AnswerIsEnding(m: Master, s: Slave, cfg: Config)
    requires Shaped(m) && m.used == 0 && !m.verify && Asked(m, s)
    ensures var frame := FrameOf(s, EMPTY_PACKET, cfg.crc); var m1 := Filled(m, frame);
            Ending(m1, cfg) && m1.used == |frame| && m1.slaves == m.slaves
  {
    FrameArrives(m, s, EMPTY_PACKET, cfg);
    FramePasses(m, s, EMPTY_PACKET, cfg);
  }

  lemma FilledAppends(m: Master, b: byte)
    requires Shaped(m) && m.used < RECEIVE_BUFFER_SIZE
    ensures var m1 := Filled(m, [b]);
            && m1.used == m.used + 1 && m1.verify == m.verify && m1.request == m.request
            && forall i :: 0 <= i < m.used ==> m1.buffer[i] == m.buffer[i]
  {
  }

  lemma EndingSame(m: Master, m': Master, cfg: Config)
    requires Shaped(m) && Shaped(m') && Ending(m, cfg) && FrameLength(m) >= 9
    requires m'.used >= m.used && m'.request == m.request && !m'.verify
    requires forall i :: 0 <= i < FrameLength(m) ==> m'.buffer[i] == m.buffer[i]
    ensures Ending(m', cfg)
  {
    assert m'.buffer[..FrameLength(m) - 2] == m.buffer[..FrameLength(m) - 2];
  }

  lemma EndingStays(m: Master, b: byte, cfg: Config)
    requires Shaped(m) && Ending(m, cfg) && FrameLength(m) >= 9 && m.used < RECEIVE_BUFFER_SIZE
    ensures Ending(Filled(m, [b]), cfg)
  {
    FilledAppends(m, b);
    EndingSame(m, Filled(m, [b]), cfg);
  }

  /** An answer stays in the buffer when it ends a request... */
  lemma AnswerStays(m: Master, s: Slave, cfg: Config, env: Env)
    requires Shaped(m) && m.used == 0 && !m.verify && Asked(m, s)
    ensures var m1 := Received(m, FrameOf(s, EMPTY_PACKET, cfg.crc), cfg, env);
            && Ending(m1, cfg) && 9 <= FrameLength(m1) && m1.used < RECEIVE_BUFFER_SIZE
            && m1.slaves == m.slaves[m.current := Popped(Bumped(Now(m)))]
  {
    var m1 := Filled(m, FrameOf(s, EMPTY_PACKET, cfg.crc));
    AnswerIsEnding(m, s, cfg);
    EndingIsDone(m1, cfg, env);
    FilledWithFrame(m, s, EMPTY_PACKET, cfg);
  }

  /** ... and with one byte more it ends the next request, too. */
  lemma EndsAgain(m: Master, b: byte, cfg: Config, env: Env)
    requires Shaped(m) && Ending(m, cfg) && 9 <= FrameLength(m) && m.used < RECEIVE_BUFFER_SIZE
    ensures Received(m, [b], cfg, env).slaves == m.slaves[m.current := Popped(Bumped(Now(m)))]
  {
    EndingStays(m, b, cfg);
    EndingIsDone(Filled(m, [b]), cfg, env);
  }

  /** The master as it polls a single slave for the first time. */
  function Polling(a: byte): (m: Master)
    ensures Shaped(m)
  {
    Start([a]).(current := 0, polls := [0], slaves := [Slave(a, 0, [Empty(TRIES_EMPTY)], 0, [])])
  }

  lemma FirstPolled(a: byte, cfg: Config, env: Env)
    requires env.pushes
    ensures Polled(Start([a]), cfg, env) == Sent(Polling(a), cfg, env)
  {
    var m := Start([a]).(current := 0, polls := [0]);
    assert m.slaves == [Slave(a, 0, [], 0, [])];
    assert Pushed(Now(m), Empty(TRIES_EMPTY)).queue == [Empty(TRIES_EMPTY)];
    assert WithNow(m, Pushed(Now(m), Empty(TRIES_EMPTY))) == Polling(a);
    assert Start([a]).polls + [0] == [0];
  }

  /** The first poll, echoed: the slave's answer is awaited. */
  lemma FirstPoll(a: byte, cfg: Config, env: Env)
    requires env.writes && env.pushes
    ensures var s := Now(Polling(a));
            Waiting(Step(Polled(Start([a]), cfg, env), Receive(FrameOf(s, EMPTY_PACKET, cfg.crc), env), cfg), s, s)
  {
    FirstPolled(a, cfg, env);
    EchoAccepted(Polling(a), cfg, env);
    SentAsks(Polling(a), cfg, env);
    assert Sent(Polling(a), cfg, env).slaves == [Now(Polling(a))];
  }

  lemma RequestComesIn(m: Master, s: Slave, packet: seq<byte>, pushes: nat -> bool)
    requires m.slaves == [s] && |packet| >= 4 && pushes(0)
    ensures Dispatched(m, packet, None, pushes) == m.(slaves := [Accepted(s, packet)])
  {
    var m1 := m.(slaves := m.slaves[0 := Accepted(s, packet)]);
    assert Broadcast(m1, 1, packet, pushes) == m1;
  }

  /** The poll is echoed, a request comes in, the poll is answered, and one byte follows. */
  function LateByte(a: byte, packet: seq<byte>, pushes: nat -> bool, b: byte, cfg: Config, env: Env): seq<Event> {
    var frame := FrameOf(Now(Polling(a)), EMPTY_PACKET, cfg.crc);
    [Receive(frame, env), Request(packet, None, pushes), Receive(frame, env), Receive([b], env)]
  }

  // What holds after each of these events.

  predicate Waiting(m: Master, s: Slave, s': Slave) {
    Shaped(m) && m.slaves == [s'] && m.used == 0 && !m.verify && Asked(m, s)
  }

  predicate Left(m: Master, s: Slave, cfg: Config) {
    Shaped(m) && m.slaves == [s] && Ending(m, cfg) && 9 <= FrameLength(m) && m.used < RECEIVE_BUFFER_SIZE
  }

  function Gone(s: Slave): Slave { Popped(Bumped(s)) }

  /** Event `n` leads from one master of a run to the next. */
  ghost predicate Next(run: nat -> Master, events: seq<Event>, n: nat, cfg: Config) {
    n < |events| && Shaped(run(n)) && run(n + 1) == Step(run(n), events[n], cfg)
  }

  /** `run` lists the masters of a run, from its start to its end. */
  ghost predicate Lists(run: nat -> Master, start: Master, end: Master, events: seq<Event>, cfg: Config) {
    run(0) == start && run(|events|) == end && forall n: nat :: n < |events| ==> Next(run, events, n, cfg)
  }

  lemma IsNext(addresses: seq<byte>, events: seq<Event>, n: nat, cfg: Config, env: Env, run: nat -> Master)
    requires addresses != [] && n < |events|
    requires run(n) == After(addresses, events, n, cfg, env) && run(n + 1) == After(addresses, events, n + 1, cfg, env)
    ensures Next(run, events, n, cfg)
  {
    AfterNext(addresses, events, n, cfg, env);
  }

  ghost function Masters(addresses: seq<byte>, events: seq<Event>, cfg: Config, env: Env): nat -> Master
    requires addresses != []
  {
    (n: nat) => After(addresses, events, if n < |events| then n else |events|, cfg, env)
  }

  lemma MasterAt(addresses: seq<byte>, events: seq<Event>, n: nat, cfg: Config, env: Env)
    requires addresses != [] && n <= |events|
    ensures Masters(addresses, events, cfg, env)(n) == After(addresses, events, n, cfg, env)
  {
  }

  lemma IsRun(addresses: seq<byte>, events: seq<Event>, cfg: Config, env: Env, run: nat -> Master, start: Master)
    requires addresses != [] && run == Masters(addresses, events, cfg, env)
    requires start == Polled(Start(addresses), cfg, env)
    ensures Lists(run, start, Run(addresses, events, cfg, env), events, cfg)
  {
    MasterAt(addresses, events, 0, cfg, env);
    MasterAt(addresses, events, |events|, cfg, env);
    WholeRun(addresses, events, cfg, env);
    forall n: nat | n < |events|
      ensures Next(run, events, n, cfg)
    {
      MasterAt(addresses, events, n, cfg, env);
      MasterAt(addresses, events, n + 1, cfg, env);
      IsNext(addresses, events, n, cfg, env, run);
    }
  }

  lemma FirstEchoed(a: byte, run: nat -> Master, events: seq<Event>, s: Slave, cfg: Config, env: Env)
    requires env.writes && env.pushes && s == Now(Polling(a)) && Next(run, events, 0, cfg)
    requires run(0) == Polled(Start([a]), cfg, env) && events[0] == Receive(FrameOf(s, EMPTY_PACKET, cfg.crc), env)
    ensures Waiting(run(1), s, s)
  {
    FirstPoll(a, cfg, env);
  }

  lemma RequestWaits(run: nat -> Master, events: seq<Event>, n: nat, s: Slave, cfg: Config)
    requires Waiting(run(n), s, s) && Next(run, events, n, cfg)
    requires var e := events[n]; e.Request? && e.recipient == None && |e.packet| >= 4 && e.pushes(0)
    ensures Waiting(run(n + 1), s, Accepted(s, events[n].packet))
  {
    RequestComesIn(run(n), s, events[n].packet, events[n].pushes);
  }

  lemma AnswerLeft(run: nat -> Master, events: seq<Event>, n: nat, s: Slave, s': Slave, cfg: Config, env: Env)
    requires Waiting(run(n), s, s') && Next(run, events, n, cfg)
    requires events[n] == Receive(FrameOf(s, EMPTY_PACKET, cfg.crc), env)
    ensures Left(run(n + 1), Gone(s'), cfg)
  {
    AnswerStays(run(n), s, cfg, env);
  }

  lemma LateByteEnds(run: nat -> Master, events: seq<Event>, n: nat, s: Slave, b: byte, cfg: Config, env: Env)
    requires Left(run(n), s, cfg) && Next(run, events, n, cfg) && events[n] == Receive([b], env)
    ensures run(n + 1).slaves == [Gone(s)]
  {
    EndsAgain(run(n), b, cfg, env);
  }

  lemma LateByteMasters(a: byte, packet: seq<byte>, pushes: nat -> bool, b: byte, cfg: Config, env: Env,
                        run: nat -> Master, s: Slave)
    requires |packet| >= 4 && pushes(0) && env.writes && env.pushes && s == Now(Polling(a))
    requires run(0) == Polled(Start([a]), cfg, env)
    requires forall n: nat :: n < 4 ==> Next(run, LateByte(a, packet, pushes, b, cfg, env), n, cfg)
    ensures run(4).slaves == [Gone(Gone(Accepted(s, packet)))]
  {
    var events := LateByte(a, packet, pushes, b, cfg, env);
    FirstEchoed(a, run, events, s, cfg, env);
    RequestWaits(run, events, 1, s, cfg);
    AnswerLeft(run, events, 2, s, Accepted(s, packet), cfg, env);
    LateByteEnds(run, events, 3, Gone(Accepted(s, packet)), b, cfg, env);
  }

  /** The request is gone, although it was never written. */
  lemma LateByteLosesRequest(a: byte, packet: seq<byte>, pushes: nat -> bool, b: byte, cfg: Config, env: Env)
    requires |packet| >= 4 && pushes(0) && env.writes && env.pushes
    ensures AllRoomy(LateByte(a, packet, pushes, b, cfg, env))
    ensures var s := Run([a], LateByte(a, packet, pushes, b, cfg, env), cfg, env).slaves[0];
            s.accepted == 1 && s.wire == [] && s.queue == []
  {
    var events := LateByte(a, packet, pushes, b, cfg, env);
    var run := Masters([a], events, cfg, env);
    IsRun([a], events, cfg, env, run, Polled(Start([a]), cfg, env));
    LateByteMasters(a, packet, pushes, b, cfg, env, run, Now(Polling(a)));
  }
}
