/** Decoding of the frames that a WebSocket client sends (sections 5.2 and 5.3 of RFC 6455), one byte at a time. */
module WebsocketSpec {
  import opened Bytes
  import opened Wrappers

  const HEADER_LENGTH := 6
  const MASK_LENGTH := 4
  const MAX_PAYLOAD := 125

  // ----- the fields of a frame header

  function Opcode(b: byte): byte { b & 0xF }

  function PayloadLength(b: byte): nat { Value(b & 0x7F) }

  function Mask(b: byte): byte { (b >> 7) & 1 }

  /** What a complete header announces. */
  datatype Kind = Binary(length: nat) | Close | Unsupported

  function Announced(header: seq<byte>): Kind
    requires |header| == HEADER_LENGTH
  {
    if Mask(header[1]) != 1 || PayloadLength(header[1]) > MAX_PAYLOAD then Unsupported
    else if Opcode(header[0]) == 2 then Binary(PayloadLength(header[1]))
    else if Opcode(header[0]) == 8 then Close
    else Unsupported
  }

  // ----- the decoder

  /** Either some bytes of a header have come, or `left` bytes of a payload are still to come and byte `index` of the
      masking key is next. */
  datatype Decoder = Header(bytes: seq<byte>) | Payload(key: seq<byte>, index: nat, left: nat)

  predicate Valid(d: Decoder) {
    match d
    case Header(bytes) => |bytes| < HEADER_LENGTH
    case Payload(key, index, left) => |key| == MASK_LENGTH && index < MASK_LENGTH && left <= MAX_PAYLOAD
  }

  type State = d: Decoder | Valid(d) witness Header([])

  /** What has come of some input: the decoder goes on, or a close frame or an unacceptable one has ended it;
      `out` is the payload decoded so far. */
  datatype Result = Going(d: State, out: seq<byte>) | Closed(out: seq<byte>) | Failed

  function Take(d: State, b: byte): Result {
    match d
    case Header(bytes) => TakeHeader(bytes, b)
    case Payload(key, index, left) =>
      if left == 0 then TakeHeader([], b)
      else Going(if left == 1 then Header([]) else Payload(key, (index + 1) % MASK_LENGTH, left - 1),
                 [b ^ key[index]])
  }

  function TakeHeader(bytes: seq<byte>, b: byte): Result
    requires |bytes| < HEADER_LENGTH
  {
    if |bytes| + 1 < HEADER_LENGTH then Going(Header(bytes + [b]), []) else Taken(bytes + [b])
  }

  /** What a complete header leads to. */
  function Taken(header: seq<byte>): Result
    requires |header| == HEADER_LENGTH
  {
    match Announced(header)
    case Binary(length) => BinaryAnnounced(header)
    case Close => Closed([])
    case Unsupported => Failed
  }

  function BinaryAnnounced(header: seq<byte>): Result
    requires |header| == HEADER_LENGTH && Announced(header).Binary?
  {
    Going(Payload(header[2..], 0, Announced(header).length), [])
  }

  function Prepend(out: seq<byte>, r: Result): Result {
    match r
    case Going(d, more) => Going(d, out + more)
    case Closed(more) => Closed(out + more)
    case Failed => Failed
  }

  function Run(d: State, input: seq<byte>): Result
    decreases |input|
  {
    if input == [] then Going(d, [])
    else
      match Take(d, input[0])
      case Going(d', out) => Prepend(out, Run(d', input[1..]))
      case r => r
  }

  function Then(r: Result, input: seq<byte>): Result {
    if r.Going? then Prepend(r.out, Run(r.d, input)) else r
  }

  lemma PrependTwice(a: seq<byte>, b: seq<byte>, r: Result)
    ensures Prepend(a, Prepend(b, r)) == Prepend(a + b, r)
    ensures Prepend([], r) == r
  {
    match r
    case Going(d, more) => assert a + (b + more) == (a + b) + more;
    case Closed(more) => assert a + (b + more) == (a + b) + more;
    case Failed =>
  }

  /** Where the input is cut does not matter. */
  lemma {:induction false} RunConcat(d: State, a: seq<byte>, b: seq<byte>)
    ensures Run(d, a + b) == Then(Run(d, a), b)
    decreases |a|
  {
    if a == [] {
      assert a + b == b;
      PrependTwice([], [], Run(d, b));
    } else {
      assert (a + b)[1..] == a[1..] + b && (a + b)[0] == a[0];
      var r := Take(d, a[0]);
      if r.Going? {
        RunConcat(r.d, a[1..], b);
        var s := Run(r.d, a[1..]);
        if s.Going? {
          PrependTwice(r.out, s.out, Run(s.d, b));
        }
      }
    }
  }

  // ----- runs over whole stretches of input

  function Unmasked(key: seq<byte>, index: nat, data: seq<byte>): (s: seq<byte>)
    requires |key| == MASK_LENGTH
    ensures |s| == |data|
  {
    seq(|data|, i requires 0 <= i < |data| => data[i] ^ key[(index + i) % MASK_LENGTH])
  }

  /** The decoder after `n` bytes of payload. */
  function AfterPayload(key: seq<byte>, index: nat, left: nat, n: nat): State
    requires |key| == MASK_LENGTH && n <= left <= MAX_PAYLOAD
  {
    if n == left then Header([]) else Payload(key, (index + n) % MASK_LENGTH, left - n)
  }

  lemma UnmaskedFirst(key: seq<byte>, index: nat, data: seq<byte>)
    requires |key| == MASK_LENGTH && index < MASK_LENGTH && data != []
    ensures Unmasked(key, index, data)
         == [data[0] ^ key[index]] + Unmasked(key, (index + 1) % MASK_LENGTH, data[1..])
  {
    var s, t := Unmasked(key, index, data), Unmasked(key, (index + 1) % MASK_LENGTH, data[1..]);
    assert s[0] == data[0] ^ key[index];
    forall j | 0 < j < |s|
      ensures s[j] == t[j - 1]
    {
      NextIndex(index, j - 1);
    }
  }

  lemma {:induction false} RunPayload(key: seq<byte>, index: nat, left: nat, data: seq<byte>)
    requires |key| == MASK_LENGTH && index < MASK_LENGTH && 0 < |data| <= left <= MAX_PAYLOAD
    ensures Run(Payload(key, index, left), data)
         == Going(AfterPayload(key, index, left, |data|), Unmasked(key, index, data))
    decreases |data|
  {
    UnmaskedFirst(key, index, data);
    if |data| == 1 {
      RunOne(Payload(key, index, left), data[0]);
      assert data == [data[0]];
      assert Unmasked(key, (index + 1) % MASK_LENGTH, data[1..]) == [];
    } else {
      RunPayload(key, (index + 1) % MASK_LENGTH, left - 1, data[1..]);
      AfterNext(key, index, left, |data|);
      PayloadStep(key, index, left, data);
    }
  }

  lemma AfterNext(key: seq<byte>, index: nat, left: nat, n: nat)
    requires |key| == MASK_LENGTH && index < MASK_LENGTH && 1 < n <= left <= MAX_PAYLOAD
    ensures AfterPayload(key, (index + 1) % MASK_LENGTH, left - 1, n - 1) == AfterPayload(key, index, left, n)
  {
    NextIndex(index, n - 1);
  }

  lemma PayloadStep(key: seq<byte>, index: nat, left: nat, data: seq<byte>)
    requires |key| == MASK_LENGTH && index < MASK_LENGTH && 1 < |data| <= left <= MAX_PAYLOAD
    ensures Run(Payload(key, index, left), data)
         == Prepend([data[0] ^ key[index]], Run(Payload(key, (index + 1) % MASK_LENGTH, left - 1), data[1..]))
  {
    var d := Payload(key, (index + 1) % MASK_LENGTH, left - 1);
    TakePayload(key, index, left, data[0]);
    RunFirst(Payload(key, index, left), data, d, [data[0] ^ key[index]]);
  }

  lemma TakePayload(key: seq<byte>, index: nat, left: nat, b: byte)
    requires |key| == MASK_LENGTH && index < MASK_LENGTH && 1 < left <= MAX_PAYLOAD
    ensures Take(Payload(key, index, left), b)
         == Going(Payload(key, (index + 1) % MASK_LENGTH, left - 1), [b ^ key[index]])
  {
  }

  lemma RunFirst(d: State, input: seq<byte>, d': State, out: seq<byte>)
    requires input != [] && Take(d, input[0]) == Going(d', out)
    ensures Run(d, input) == Prepend(out, Run(d', input[1..]))
  {
  }

  lemma NextIndex(index: nat, n: nat)
    ensures ((index + 1) % MASK_LENGTH + n) % MASK_LENGTH == (index + 1 + n) % MASK_LENGTH
  {
  }

  lemma {:induction false} RunHeader(bytes: seq<byte>, data: seq<byte>)
    requires |bytes| + |data| < HEADER_LENGTH
    ensures Run(Header(bytes), data) == Going(Header(bytes + data), [])
    decreases |data|
  {
    if data == [] {
      assert bytes + data == bytes;
    } else {
      RunHeader(bytes + [data[0]], data[1..]);
      assert bytes + [data[0]] + data[1..] == bytes + data;
    }
  }

  /** Input that is taken without output only sets the state for what follows. */
  lemma RunAfter(d: State, a: seq<byte>, b: seq<byte>, d': State)
    requires Run(d, a) == Going(d', [])
    ensures Run(d, a + b) == Run(d', b)
  {
    RunConcat(d, a, b);
    PrependTwice([], [], Run(d', b));
  }

  /** A run that completes a header is decided by it. */
  lemma RunFullHeader(bytes: seq<byte>, data: seq<byte>)
    requires |bytes| < HEADER_LENGTH == |bytes| + |data|
    ensures Run(Header(bytes), data) == Taken(bytes + data)
  {
    var n := |data| - 1;
    RunHeader(bytes, data[..n]);
    RunAfter(Header(bytes), data[..n], [data[n]], Header(bytes + data[..n]));
    RunLast(bytes + data[..n], data[n]);
    CutLast(bytes, data);
  }

  lemma CutLast(bytes: seq<byte>, data: seq<byte>)
    requires data != []
    ensures var n := |data| - 1;
            data[..n] + [data[n]] == data && bytes + data[..n] + [data[n]] == bytes + data
  {
  }

  lemma RunLast(bytes: seq<byte>, b: byte)
    requires |bytes| + 1 == HEADER_LENGTH
    ensures Run(Header(bytes), [b]) == Taken(bytes + [b])
  {
    RunOne(Header(bytes), b);
  }

  lemma RunOne(d: State, b: byte)
    ensures Run(d, [b]) == Take(d, b)
  {
    var r := Take(d, b);
    if r.Going? {
      assert [b][1..] == [];
      assert r.out + [] == r.out;
    }
  }

  /** The rest of a payload, and more input behind it. */
  lemma MoreBehind(key: seq<byte>, index: nat, data: seq<byte>, rest: seq<byte>)
    requires |key| == MASK_LENGTH && index < MASK_LENGTH && |data| <= MAX_PAYLOAD && rest != []
    ensures Run(Payload(key, index, |data|), data + rest) == Prepend(Unmasked(key, index, data), Run(Header([]), rest))
  {
    if data == [] {
      assert Unmasked(key, index, data) == [] && data + rest == rest;
      NothingLeft(key, index, rest);
      PrependTwice([], [], Run(Header([]), rest));
    } else {
      RunPayload(key, index, |data|, data);
      GoesOn(Payload(key, index, |data|), data, Unmasked(key, index, data), rest);
    }
  }

  lemma GoesOn(d: State, a: seq<byte>, out: seq<byte>, b: seq<byte>)
    requires Run(d, a) == Going(Header([]), out)
    ensures Run(d, a + b) == Prepend(out, Run(Header([]), b))
  {
    RunConcat(d, a, b);
  }

  lemma NothingLeft(key: seq<byte>, index: nat, input: seq<byte>)
    requires |key| == MASK_LENGTH && index < MASK_LENGTH && input != []
    ensures Run(Payload(key, index, 0), input) == Run(Header([]), input)
  {
  }

  lemma LengthBits(b: byte)
    ensures Mask(b) == 1 <==> b >= 0x80
    ensures PayloadLength(b) > MAX_PAYLOAD <==> b & 0x7F >= 126
    ensures b >= 0x80 ==> PayloadLength(b) == Value(b) - 128
  {
  }

  /** What a header leads to, by its first two bytes: mask bit, seven bits of length and four bits of opcode. */
  lemma HeaderBytes(h: seq<byte>)
    requires |h| == 6
    ensures Run(Header([]), h) == Closed([]) <==> h[1] >= 0x80 && h[1] & 0x7F < 126 && h[0] & 0x0F == 8
    ensures Run(Header([]), h) == Failed <==>
              h[1] < 0x80 || h[1] & 0x7F >= 126 || (h[0] & 0x0F != 2 && h[0] & 0x0F != 8)
    ensures h[1] >= 0x80 && h[1] & 0x7F < 126 && h[0] & 0x0F == 2 ==>
              Run(Header([]), h) == Going(Payload(h[2..], 0, Value(h[1]) - 128), [])
  {
    LengthBits(h[1]);
    assert [] + h == h;
    RunFullHeader([], h);
  }

  // ----- what a read returns

  /** A read that brought no payload, as opposed to one at which the peer is gone (0) or an error (-1). The value is
      daemonlib's; only that it is negative and not -1 matters. */
  const IO_CONTINUE := -2

  /** The read gets as far as looking for payload. */
  predicate EntersPayload(d: State, input: seq<byte>) {
    match d
    case Header(bytes) =>
      |bytes| + |input| > HEADER_LENGTH && Announced((bytes + input)[..HEADER_LENGTH]).Binary?
    case Payload(_, _, _) => true
  }

  function Code(d: State, input: seq<byte>): int {
    match Run(d, input)
    case Going(_, out) => if out == [] && !EntersPayload(d, input) then IO_CONTINUE else |out|
    case Closed(out) => |out|
    case Failed => -1
  }

  /** What a read returns: -1 for a frame that cannot be accepted, the number of decoded bytes if there are any, and
      otherwise 0 or that it has to go on. */
  lemma CodeExactly(d: State, input: seq<byte>)
    ensures Code(d, input) == -1 <==> Run(d, input).Failed?
    ensures !Run(d, input).Failed? && Run(d, input).out != [] <==> Code(d, input) > 0
    ensures Code(d, input) > 0 ==> Code(d, input) == |Run(d, input).out|
    ensures Code(d, input) == IO_CONTINUE ==> Run(d, input).Going?
  {
  }

  /** The decoder is not in the middle of a frame without payload. */
  predicate Healthy(d: State) {
    d.Payload? ==> d.left > 0
  }

  /** No prefix of the input leaves the decoder in the middle of a frame without payload. */
  ghost predicate StaysHealthy(d: State, input: seq<byte>) {
    forall k :: 0 <= k <= |input| ==>
      var r := Run(d, input[..k]);
      r.Going? && Healthy(r.d)
  }

  /** Unless a frame without payload is involved, a read is never mistaken for the end of the connection. */
  lemma HealthyReadIsNeverZero(d: State, input: seq<byte>)
    requires StaysHealthy(d, input) && input != []
    ensures Code(d, input) == IO_CONTINUE || Code(d, input) > 0
  {
    assert input[..0] == [] && input[..|input|] == input;
    if EntersPayload(d, input) {
      EntersAndHealthy(d, input);
    }
  }

  lemma PayloadYields(d: State, input: seq<byte>)
    requires d.Payload? && Healthy(d) && input != []
    ensures var r := Run(d, input); r.Going? ==> r.out != []
  {
  }

  lemma EntersAndHealthy(d: State, input: seq<byte>)
    requires EntersPayload(d, input) && StaysHealthy(d, input) && input != []
    ensures Run(d, input).Going? && Run(d, input).out != []
  {
    assert input[..0] == [] && input[..|input|] == input;
    match d
    case Payload(_, _, _) => PayloadYields(d, input);
    case Header(bytes) =>
      var n := HEADER_LENGTH - |bytes|;
      var header := (bytes + input)[..HEADER_LENGTH];
      assert bytes + input[..n] == header;
      RunFullHeader(bytes, input[..n]);
      HeaderThenRest(bytes, input, header);
      PayloadYields(Run(d, input[..n]).d, input[n..]);
  }

  /** The input behind a frame without payload that the read starts in or completes the header of. */
  function BehindEmptyFrame(d: State, input: seq<byte>): Option<seq<byte>> {
    match d
    case Payload(_, _, left) => if left == 0 then Some(input) else None
    case Header(bytes) =>
      if EntersPayload(d, input) && Announced((bytes + input)[..HEADER_LENGTH]).length == 0
      then Some(input[HEADER_LENGTH - |bytes|..]) else None
  }

  /** The bytes hold no payload and nothing that ends the connection: less than a header, or the header of a binary
      frame with nothing behind it, or that of an empty binary frame with such bytes behind it. */
  predicate NoPayload(bytes: seq<byte>)
    decreases |bytes|
  {
    |bytes| < HEADER_LENGTH ||
    match Announced(bytes[..HEADER_LENGTH])
    case Binary(length) => |bytes| == HEADER_LENGTH || (length == 0 && NoPayload(bytes[HEADER_LENGTH..]))
    case _ => false
  }

  lemma EmptyFrameSkipped(key: seq<byte>, input: seq<byte>)
    requires |key| == MASK_LENGTH && input != []
    ensures Run(Payload(key, 0, 0), input) == Run(Header([]), input)
  {
    assert Take(Payload(key, 0, 0), input[0]) == Take(Header([]), input[0]);
  }

  lemma {:induction false} NoPayloadExactly(bytes: seq<byte>)
    ensures NoPayload(bytes) <==> Run(Header([]), bytes).Going? && Run(Header([]), bytes).out == []
    decreases |bytes|
  {
    if |bytes| < HEADER_LENGTH {
      RunHeader([], bytes);
    } else {
      var header, rest := bytes[..HEADER_LENGTH], bytes[HEADER_LENGTH..];
      assert [] + header == header && [] + bytes == bytes && bytes == header + rest;
      RunFullHeader([], header);
      RunConcat(Header([]), header, rest);
      if Announced(header).Binary? {
        var p := Payload(header[2..], 0, Announced(header).length);
        PrependTwice([], [], Run(p, rest));
        if rest != [] && p.left == 0 {
          EmptyFrameSkipped(header[2..], rest);
          NoPayloadExactly(rest);
        } else if rest != [] {
          PayloadYields(p, rest);
        }
      }
    }
  }

  /** A read runs into a frame without payload, and no payload is among the bytes behind it. */
  predicate FindsNoPayload(d: State, input: seq<byte>) {
    BehindEmptyFrame(d, input).Some? && NoPayload(BehindEmptyFrame(d, input).value)
  }

  lemma ZeroWithoutClose(d: State, input: seq<byte>)
    requires input != []
    ensures Code(d, input) == 0 && !Run(d, input).Closed? <==> FindsNoPayload(d, input)
  {
    if EntersPayload(d, input) {
      match d
      case Payload(key, _, left) =>
        if left > 0 {
          PayloadYields(d, input);
        } else {
          assert Take(d, input[0]) == Take(Header([]), input[0]);
          NoPayloadExactly(input);
        }
      case Header(bytes) =>
        var n := HEADER_LENGTH - |bytes|;
        var header := (bytes + input)[..HEADER_LENGTH];
        HeaderThenRest(bytes, input, header);
        var p := Payload(header[2..], 0, Announced(header).length);
        if p.left > 0 {
          PayloadYields(p, input[n..]);
        } else {
          EmptyFrameSkipped(header[2..], input[n..]);
          NoPayloadExactly(input[n..]);
        }
    }
  }

  // ----- close frames

  /** Complete binary frames and then the header of a close frame. */
  predicate Closes(bytes: seq<byte>)
    decreases |bytes|
  {
    |bytes| >= HEADER_LENGTH &&
    match Announced(bytes[..HEADER_LENGTH])
    case Binary(length) => HEADER_LENGTH + length <= |bytes| && Closes(bytes[HEADER_LENGTH + length..])
    case Close => true
    case Unsupported => false
  }

  /** The same, with no payload in any of the frames. */
  predicate ClosesAtOnce(bytes: seq<byte>)
    decreases |bytes|
  {
    |bytes| >= HEADER_LENGTH &&
    match Announced(bytes[..HEADER_LENGTH])
    case Binary(length) => length == 0 && ClosesAtOnce(bytes[HEADER_LENGTH..])
    case Close => true
    case Unsupported => false
  }

  /** The bytes of the stream from the last start of a frame on, or from the next one if there is payload before it. */
  function FromFrame(d: State, input: seq<byte>): Option<seq<byte>> {
    match d
    case Header(bytes) => Some(bytes + input)
    case Payload(_, _, left) => if left <= |input| then Some(input[left..]) else None
  }

  predicate InPayload(d: State) { d.Payload? && d.left > 0 }

  /** A payload and what is behind it. */
  lemma PayloadThenRest(key: seq<byte>, index: nat, left: nat, input: seq<byte>)
    requires |key| == MASK_LENGTH && index < MASK_LENGTH && left <= MAX_PAYLOAD && left < |input|
    ensures Run(Payload(key, index, left), input)
         == Prepend(Unmasked(key, index, input[..left]), Run(Header([]), input[left..]))
  {
    MoreBehind(key, index, input[..left], input[left..]);
    assert input[..left] + input[left..] == input;
  }

  /** A payload with nothing behind it, or only the start of one, ends nothing. */
  lemma PayloadGoesOn(key: seq<byte>, index: nat, left: nat, input: seq<byte>)
    requires |key| == MASK_LENGTH && index < MASK_LENGTH && left <= MAX_PAYLOAD && |input| <= left
    ensures Run(Payload(key, index, left), input).Going?
  {
    if input != [] {
      RunPayload(key, index, left, input);
    }
  }

  /** The result of a run that starts with a frame whose header is `header`. */
  lemma RunFrame(bytes: seq<byte>, header: seq<byte>, rest: seq<byte>)
    requires bytes == header + rest && |header| == HEADER_LENGTH
    ensures Run(Header([]), bytes) ==
              match Announced(header)
              case Binary(length) => Run(Payload(header[2..], 0, length), rest)
              case Close => Closed([])
              case Unsupported => Failed
  {
    assert [] + header == header;
    RunFullHeader([], header);
    RunConcat(Header([]), header, rest);
    if Announced(header).Binary? {
      PrependTwice([], [], Run(BinaryAnnounced(header).d, rest));
    }
  }

  /** A run is closed exactly by a close frame behind complete frames, and without output exactly if those are empty. */
  lemma {:induction false} ClosesExactly(bytes: seq<byte>)
    ensures Run(Header([]), bytes).Closed? <==> Closes(bytes)
    ensures Run(Header([]), bytes) == Closed([]) <==> ClosesAtOnce(bytes)
    decreases |bytes|
  {
    if |bytes| < HEADER_LENGTH {
      RunHeader([], bytes);
    } else {
      var header, rest := bytes[..HEADER_LENGTH], bytes[HEADER_LENGTH..];
      RunFrame(bytes, header, rest);
      if Announced(header).Binary? {
        var n := Announced(header).length;
        if n < |rest| {
          PayloadThenRest(header[2..], 0, n, rest);
          assert rest[n..] == bytes[HEADER_LENGTH + n..];
          ClosesExactly(rest[n..]);
          assert n == 0 ==> rest[n..] == rest && Unmasked(header[2..], 0, rest[..n]) == [];
        } else {
          PayloadGoesOn(header[2..], 0, n, rest);
          if n == |rest| {
            assert bytes[HEADER_LENGTH + n..] == [];
          }
        }
      }
    }
  }

  /** The same from any state of the decoder. */
  lemma ReadClosesExactly(d: State, input: seq<byte>)
    requires input != []
    ensures Run(d, input).Closed? <==> FromFrame(d, input).Some? && Closes(FromFrame(d, input).value)
    ensures Run(d, input) == Closed([]) <==>
              !InPayload(d) && FromFrame(d, input).Some? && ClosesAtOnce(FromFrame(d, input).value)
  {
    match d
    case Header(bytes) =>
      RunHeader([], bytes);
      RunConcat(Header([]), bytes, input);
      PrependTwice([], [], Run(d, input));
      assert [] + bytes == bytes;
      ClosesExactly(bytes + input);
    case Payload(key, index, left) =>
      if left < |input| {
        PayloadThenRest(key, index, left, input);
        ClosesExactly(input[left..]);
        assert left == 0 ==> Unmasked(key, index, input[..left]) == [];
      } else {
        PayloadGoesOn(key, index, left, input);
        if left == |input| {
          assert input[left..] == [];
        }
      }
  }

  /** A read returns zero exactly when it comes to a close frame with no payload before it, or when it runs into a frame
      without payload and no payload is among the bytes behind it. */
  lemma ZeroExactly(d: State, input: seq<byte>)
    requires input != []
    ensures Code(d, input) == 0 <==>
              || (!InPayload(d) && FromFrame(d, input).Some? && ClosesAtOnce(FromFrame(d, input).value))
              || FindsNoPayload(d, input)
  {
    ZeroWithoutClose(d, input);
    ReadClosesExactly(d, input);
  }

  /** A close frame goes unnoticed, because its read returns a positive number, exactly when there is payload before it
      in the same read. */
  lemma CloseSwallowedExactly(d: State, input: seq<byte>)
    requires input != []
    ensures Run(d, input).Closed? && Code(d, input) > 0 <==>
              && FromFrame(d, input).Some? && Closes(FromFrame(d, input).value)
              && (InPayload(d) || !ClosesAtOnce(FromFrame(d, input).value))
  {
    ReadClosesExactly(d, input);
  }

  lemma EmptyHeader(key: seq<byte>)
    requires |key| == MASK_LENGTH
    ensures Announced([0x82, 0x80] + key) == Binary(0) && ([0x82, 0x80] + key)[2..] == key
  {
    assert 0x80 & 0x7F == 0 as byte;
  }

  /** An input for which it does, from the state after the handshake: an empty binary frame and one more byte, in one
      read or in two. */
  lemma EmptyFrameReadsAsDisconnect(key: seq<byte>, b: byte)
    requires |key| == MASK_LENGTH
    ensures var frame := [0x82, 0x80] + key;
            && Code(Header([]), frame + [b]) == 0
            && Run(Header([]), frame) == Going(Payload(key, 0, 0), []) && Code(Payload(key, 0, 0), [b]) == 0
  {
    var frame := [0x82, 0x80] + key;
    EmptyHeader(key);
    assert [] + frame == frame && [] + (frame + [b]) == frame + [b] && (frame + [b])[..HEADER_LENGTH] == frame;
    assert (frame + [b])[HEADER_LENGTH..] == [b];
    RunFullHeader([], frame);
    ZeroExactly(Header([]), frame + [b]);
    ZeroExactly(Payload(key, 0, 0), [b]);
  }

  lemma HeaderAndRest(bytes: seq<byte>, front: seq<byte>, rest: seq<byte>, header: seq<byte>)
    requires |bytes| < HEADER_LENGTH && header == bytes + front && |header| == HEADER_LENGTH
    requires Announced(header).Binary?
    ensures Run(Header(bytes), front + rest) == Run(Payload(header[2..], 0, Announced(header).length), rest)
  {
    RunFullHeader(bytes, front);
    RunAfter(Header(bytes), front, rest, Payload(header[2..], 0, Announced(header).length));
  }

  lemma HeaderThenRest(bytes: seq<byte>, input: seq<byte>, header: seq<byte>)
    requires |bytes| < HEADER_LENGTH <= |bytes| + |input| && header == (bytes + input)[..HEADER_LENGTH]
    requires Announced(header).Binary?
    ensures Run(Header(bytes), input)
         == Run(Payload(header[2..], 0, Announced(header).length), input[HEADER_LENGTH - |bytes|..])
  {
    var n := HEADER_LENGTH - |bytes|;
    assert header == bytes + input[..n] && input == input[..n] + input[n..];
    HeaderAndRest(bytes, input[..n], input[n..], header);
  }

  // ----- streams of masked binary frames with payload

  /** `first` holds the opcode; the other bits of that byte are not looked at. */
  datatype Frame = Frame(first: byte, key: seq<byte>, payload: seq<byte>)

  predicate WellFormed(f: Frame) {
    Opcode(f.first) == 2 && |f.key| == MASK_LENGTH && 1 <= |f.payload| <= MAX_PAYLOAD
  }

  function HeaderOf(f: Frame): (s: seq<byte>)
    requires WellFormed(f)
    ensures |s| == HEADER_LENGTH
  {
    [f.first, 0x80 | ToByte(|f.payload|)] + f.key
  }

  /** A frame as a client sends it, its payload masked. */
  function Wire(f: Frame): seq<byte>
    requires WellFormed(f)
  {
    HeaderOf(f) + Unmasked(f.key, 0, f.payload)
  }

  lemma LengthByte(n: nat)
    requires n < 128
    ensures Mask(0x80 | ToByte(n)) == 1 && PayloadLength(0x80 | ToByte(n)) == n
  {
    var h, l := ToNibble(n / 16), ToNibble(n % 16);
    SmallNibble(n / 16);
    SevenBits(h, l);
    ToByteValue(n);
  }

  lemma SmallNibble(n: nat)
    requires n < 8
    ensures ToNibble(n) < 8
  {
  }

  lemma SevenBits(h: byte, l: byte)
    requires h < 8 && l < 16
    ensures Mask(0x80 | ((h << 4) | l)) == 1
    ensures (0x80 | ((h << 4) | l)) & 0x7F == (h << 4) | l
  {
  }

  lemma HeaderAnnounces(f: Frame)
    requires WellFormed(f)
    ensures Announced(HeaderOf(f)) == Binary(|f.payload|) && HeaderOf(f)[2..] == f.key
  {
    LengthByte(|f.payload|);
  }

  /** Masking twice with the same key is no masking. */
  lemma UnmaskedTwice(key: seq<byte>, data: seq<byte>)
    requires |key| == MASK_LENGTH
    ensures Unmasked(key, 0, Unmasked(key, 0, data)) == data
  {
    forall i | 0 <= i < |data|
      ensures Unmasked(key, 0, Unmasked(key, 0, data))[i] == data[i]
    {
      XorTwice(data[i], key[i % MASK_LENGTH]);
    }
  }

  lemma XorTwice(b: byte, k: byte)
    ensures (b ^ k) ^ k == b
  {
  }

  lemma FrameDecodes(f: Frame)
    requires WellFormed(f)
    ensures Run(Header([]), Wire(f)) == Going(Header([]), f.payload)
  {
    var header, body := HeaderOf(f), Unmasked(f.key, 0, f.payload);
    HeaderAnnounces(f);
    assert [] + Wire(f) == Wire(f) && Wire(f)[..HEADER_LENGTH] == header && Wire(f)[HEADER_LENGTH..] == body;
    HeaderThenRest([], Wire(f), header);
    RunPayload(f.key, 0, |f.payload|, body);
    UnmaskedTwice(f.key, f.payload);
  }

  ghost predicate AllWellFormed(fs: seq<Frame>) {
    forall i :: 0 <= i < |fs| ==> WellFormed(fs[i])
  }

  function Stream(fs: seq<Frame>): seq<byte>
    requires forall i :: 0 <= i < |fs| ==> WellFormed(fs[i])
  {
    if fs == [] then [] else Wire(fs[0]) + Stream(fs[1..])
  }

  function Payloads(fs: seq<Frame>): seq<byte> {
    if fs == [] then [] else fs[0].payload + Payloads(fs[1..])
  }

  lemma {:induction false} StreamDecodes(fs: seq<Frame>)
    requires AllWellFormed(fs)
    ensures Run(Header([]), Stream(fs)) == Going(Header([]), Payloads(fs))
  {
    if fs != [] {
      FrameDecodes(fs[0]);
      StreamDecodes(fs[1..]);
      RunConcat(Header([]), Wire(fs[0]), Stream(fs[1..]));
    }
  }

  lemma BodyPrefix(f: Frame, body: seq<byte>)
    requires WellFormed(f) && |body| < |f.payload|
    ensures var r := Run(Header([]), HeaderOf(f) + body); r.Going? && Healthy(r.d)
  {
    HeaderAnnounces(f);
    assert [] + HeaderOf(f) == HeaderOf(f);
    HeaderAndRest([], HeaderOf(f), body, HeaderOf(f));
    if body != [] {
      RunPayload(f.key, 0, |f.payload|, body);
    }
  }

  lemma FramePrefix(f: Frame, k: nat)
    requires WellFormed(f) && k < |Wire(f)|
    ensures var r := Run(Header([]), Wire(f)[..k]); r.Going? && Healthy(r.d)
  {
    var w := Wire(f)[..k];
    if k < HEADER_LENGTH {
      RunHeader([], w);
      assert [] + w == w;
    } else {
      var body := Unmasked(f.key, 0, f.payload)[..k - HEADER_LENGTH];
      assert w == HeaderOf(f) + body;
      BodyPrefix(f, body);
    }
  }

  /** Wherever a stream is cut, the decoder goes on and is not in a frame without payload. */
  lemma {:induction false} StreamPrefix(fs: seq<Frame>, k: nat)
    requires AllWellFormed(fs) && k <= |Stream(fs)|
    ensures var r := Run(Header([]), Stream(fs)[..k]); r.Going? && Healthy(r.d)
    decreases |fs|
  {
    if fs != [] {
      var w, rest := Wire(fs[0]), Stream(fs[1..]);
      if k < |w| {
        FramePrefix(fs[0], k);
        assert (w + rest)[..k] == w[..k];
      } else {
        FrameDecodes(fs[0]);
        StreamPrefix(fs[1..], k - |w|);
        RunConcat(Header([]), w, rest[..k - |w|]);
        assert (w + rest)[..k] == w + rest[..k - |w|];
      }
    }
  }
}
