/** The client object: its receive buffer, the loop that takes requests out of it, and authentication. */
module Client {
  import opened Bytes
  import opened Sha1Spec
  import opened Hmac
  import opened Spec = ClientSpec

  const BUFFER_SIZE := 512

  /** What a read of the socket came to: data, the end of the connection, nothing for now, or an error. */
  datatype Received = Data(bytes: seq<byte>) | End | Nothing | Error

  /** The keyed digest is HMAC-SHA1. */
  ghost predicate UsesHmac(cfg: Config) {
    forall key, text {:trigger HmacOf(Hash, Key(Hash, key), text)} ::
      cfg.mac(key, text) == HmacOf(Hash, Key(Hash, key), text)
  }

  class Connection {
    const cfg: Config
    const little: bool
    const nonce: seq<byte>
    const buffer: array<byte>
    var bufferUsed: nat
    var headerChecked: bool
    var disconnected: bool
    var auth: Authentication
    var handled: nat
    var trace: seq<Event>

    /** What holds inside the loop that takes requests out of the buffer. */
    ghost predicate Consistent()
      reads this, buffer
    {
      && Sound(cfg) && UsesHmac(cfg)
      && (auth != Disabled ==> cfg.secret.Some?)
      && buffer.Length == BUFFER_SIZE && bufferUsed <= BUFFER_SIZE
      && (headerChecked ==> HEADER_SIZE <= bufferUsed && cfg.isValid(buffer[..HEADER_SIZE]))
    }

    /** What holds between reads: there is always room for more. */
    ghost predicate Valid()
      reads this, buffer
    {
      && Consistent()
      && (!disconnected ==> bufferUsed < PACKET_SIZE && NextOf(cfg, buffer[..bufferUsed]) == Incomplete)
    }

    ghost function SessionView(): Session
      reads this
    {
      Session(auth, disconnected, nonce, handled)
    }

    ghost function View(): Spec.Client
      requires bufferUsed <= buffer.Length
      reads this, buffer
    {
      Spec.Client(SessionView(), buffer[..bufferUsed], trace)
    }

    constructor (cfg: Config, nonce: seq<byte>, little: bool)
      requires Sound(cfg) && UsesHmac(cfg)
      ensures Valid() && fresh(buffer) && this.cfg == cfg
      ensures View() == Spec.Client(Created(cfg, nonce), [], [])
    {
      this.cfg, this.nonce, this.little := cfg, nonce, little;
      buffer := new byte[BUFFER_SIZE](_ => 0);
      bufferUsed, headerChecked, disconnected, handled := 0, false, false, 0;
      auth := if cfg.secret.Some? then Enabled else Disabled;
      trace := [];
    }

    method HandleNonceRequest(p: Packet, remembered: bool)
      requires |p| == NONCE_REQUEST_SIZE
      modifies this`auth, this`disconnected, this`trace
      ensures var step := NonceHandled(old(SessionView()), p, remembered);
              SessionView() == step.s && trace == old(trace) + step.events
    {
      if auth == Disabled {
        disconnected := true;
        return;
      }
      if auth == Done {
        auth := Enabled;
      }
      if auth != Enabled {
        disconnected := true;
        return;
      }
      if remembered {
        trace := trace + [NonceResponse(p)];
      }
      auth := NonceSent;
      trace := trace + [NonceGiven(p)];
    }

    method Mac(text: seq<byte>) returns (digest: seq<byte>)
      requires UsesHmac(cfg) && cfg.secret.Some?
      ensures digest == cfg.mac(cfg.secret.value, text)
    {
      digest := HmacSha1(cfg.secret.value, text, little);
    }

    method HandleAuthenticateRequest(p: Packet, remembered: bool)
      requires UsesHmac(cfg) && |p| == AUTHENTICATE_REQUEST_SIZE && (auth.NonceSent? ==> cfg.secret.Some?)
      modifies this`auth, this`disconnected, this`trace
      ensures var step := AuthenticateHandled(cfg, old(SessionView()), p, remembered);
              SessionView() == step.s && trace == old(trace) + step.events
    {
      if auth == Disabled {
        disconnected := true;
        return;
      }
      if auth != NonceSent {
        disconnected := true;
        return;
      }
      var digest := Mac(nonce + ClientNonce(p));
      if ClaimedDigest(p) != digest {
        disconnected := true;
        return;
      }
      auth := Done;
      trace := trace + [Accepted(p)];
      if remembered {
        trace := trace + [Response(p)];
      }
    }

    /** A request to the daemon itself. */
    method HandleDaemonRequest(p: Packet, remembered: bool)
      requires UsesHmac(cfg) && (auth != Disabled ==> cfg.secret.Some?)
      modifies this`auth, this`disconnected, this`trace
      ensures var step := DaemonHandled(cfg, old(SessionView()), p, remembered);
              SessionView() == step.s && trace == old(trace) + step.events
      ensures auth != Disabled ==> cfg.secret.Some?
    {
      if FunctionId(p) == cfg.nonceFunction {
        if |p| != NONCE_REQUEST_SIZE {
          disconnected := true;
          return;
        }
        HandleNonceRequest(p, remembered);
      } else if FunctionId(p) == cfg.authenticateFunction {
        if |p| != AUTHENTICATE_REQUEST_SIZE {
          disconnected := true;
          return;
        }
        HandleAuthenticateRequest(p, remembered);
      } else if remembered && (auth == Disabled || auth == Done) {
        trace := trace + [Response(p)];
      }
    }

    method TakeForDaemon(p: Packet, remembered: bool)
      requires UsesHmac(cfg) && (auth != Disabled ==> cfg.secret.Some?)
      modifies this`auth, this`disconnected, this`trace
      ensures var step := DaemonHandled(cfg, old(SessionView()), p, remembered);
              SessionView() == step.s && trace == old(trace) + ([Taken(p, remembered)] + step.events)
      ensures auth != Disabled ==> cfg.secret.Some?
    {
      trace := trace + [Taken(p, remembered)];
      HandleDaemonRequest(p, remembered);
    }

    /** One request, handled by the daemon itself, handed to the hardware, or dropped. */
    method HandleRequest(p: Packet)
      requires UsesHmac(cfg) && (auth != Disabled ==> cfg.secret.Some?)
      modifies this`auth, this`disconnected, this`trace, this`handled
      ensures var step := Handled(cfg, old(SessionView()), p);
              SessionView() == step.s && trace == old(trace) + step.events
      ensures auth != Disabled ==> cfg.secret.Some?
    {
      var remembered := ResponseExpected(p) && cfg.room(handled);
      handled := handled + 1;
      if Uid(p) == UID_BRICK_DAEMON {
        TakeForDaemon(p, remembered);
      } else if auth == Disabled || auth == Done {
        trace := trace + [Taken(p, remembered), Hardware(p)];
      } else {
        trace := trace + [Taken(p, false)];
      }
    }

    /** The first `length` bytes of the buffer are done with. */
    method Shift(length: nat)
      requires Consistent() && length <= bufferUsed
      modifies this`bufferUsed, this`headerChecked, buffer
      ensures Consistent() && buffer[..bufferUsed] == old(buffer[length..bufferUsed])
      ensures bufferUsed == old(bufferUsed) - length
    {
      forall k | 0 <= k < bufferUsed - length {
        buffer[k] := buffer[length + k];
      }
      bufferUsed := bufferUsed - length;
      headerChecked := false;
    }

    /** A complete request is handled, unless it is a disconnect probe, and leaves the buffer. */
    method ProcessRequest(length: nat, request: Packet)
      requires Consistent() && length <= bufferUsed && request == buffer[..length]
      modifies this, buffer
      ensures Consistent() && bufferUsed == old(bufferUsed) - length
      ensures View() == RequestTaken(cfg, old(View()), request).(buffer := old(View()).buffer[length..])
    {
      if FunctionId(request) != cfg.probeFunction {
        HandleRequest(request);
      }
      Shift(length);
    }

    /** Looks at the start of the buffer; a header that was found valid is not checked again. */
    method Inspect() returns (next: Next)
      requires Consistent()
      modifies this`headerChecked
      ensures Consistent() && next == NextOf(cfg, buffer[..bufferUsed])
    {
      ghost var all := buffer[..bufferUsed];
      if bufferUsed < HEADER_SIZE {
        return Incomplete;
      }
      assert all[..HEADER_SIZE] == buffer[..HEADER_SIZE];
      if !headerChecked {
        if !cfg.isValid(buffer[..HEADER_SIZE]) {
          return Invalid;
        }
        headerChecked := true;
      }
      var length := Value(buffer[4]);
      if bufferUsed < length {
        return Incomplete;
      }
      assert all[..length] == buffer[..length];
      next := Complete(buffer[..length]);
    }

    /** One pass of the loop over the buffer; `more` is false if it has to wait for more bytes. */
    method TakeRequest() returns (more: bool)
      requires Consistent() && !disconnected && bufferUsed > 0
      modifies this, buffer
      ensures Consistent() && View() == DrainedOnce(cfg, old(View()))
      ensures more ==> bufferUsed < old(bufferUsed) || (bufferUsed == old(bufferUsed) && disconnected)
      ensures !more ==> !disconnected && NextOf(cfg, View().buffer) == Incomplete
    {
      var next := Inspect();
      match next
      case Incomplete =>
        more := false;
      case Invalid =>
        disconnected := true;
        more := true;
      case Complete(p) =>
        assert p == buffer[..|p|];
        ProcessRequest(|p|, p);
        more := true;
    }

    /** A read: new bytes go behind the old ones, then all complete requests are taken out, unless the client is only
        waiting to be removed. */
    method HandleRead(r: Received)
      requires Valid()
      requires r.Data? ==> 0 < |r.bytes| <= BUFFER_SIZE - bufferUsed
      modifies this, buffer
      ensures Valid()
      ensures match r
              case Data(bytes) =>
                View() == if old(disconnected) then old(View()).(buffer := old(View()).buffer + bytes)
                          else Fed(cfg, old(View()), bytes)
              case Nothing => View() == old(View())
              case _ => View() == old(View()).(s := old(View()).s.(disconnected := true))
    {
      match r
      case End => disconnected := true;
      case Error => disconnected := true;
      case Nothing =>
      case Data(bytes) =>
        Append(bytes);
        Drain();
    }

    method Append(bytes: seq<byte>)
      requires Consistent() && |bytes| <= BUFFER_SIZE - bufferUsed
      modifies this`bufferUsed, buffer
      ensures Consistent() && buffer[..bufferUsed] == old(buffer[..bufferUsed]) + bytes
    {
      ghost var header := buffer[..HEADER_SIZE];
      forall k | 0 <= k < |bytes| {
        buffer[bufferUsed + k] := bytes[k];
      }
      assert headerChecked ==> buffer[..HEADER_SIZE] == header;
      bufferUsed := bufferUsed + |bytes|;
    }

    method Drain()
      requires Consistent()
      modifies this, buffer
      ensures Valid() && View() == Drained(cfg, old(View()))
    {
      ghost var c := View();
      while !disconnected && bufferUsed > 0
        invariant Consistent() && Drained(cfg, View()) == Drained(cfg, c)
        decreases bufferUsed, !disconnected
      {
        DrainedByRounds(cfg, View());
        var more := TakeRequest();
        if !more {
          break;
        }
      }
      DrainedIsShort(cfg, c);
    }
  }
}
