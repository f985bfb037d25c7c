/** The resumable frame decoder of a WebSocket connection, which works in place on the buffer of its caller. */
module Websocket {
  import opened Bytes
  import opened WebsocketSpec

  /** What a call makes of `input`: its result, the decoder it leaves, and the decoded payload at the start of the
      buffer, whose content is `buf`. */
  ghost predicate Decodes(d: State, input: seq<byte>, ret: int, d': State, buf: seq<byte>) {
    && ret == Code(d, input)
    && match Run(d, input)
       case Going(next, out) => d' == next && out <= buf
       case Closed(out) => out <= buf && d' == if EntersPayload(d, input) then Header([]) else d
       case Failed => true
  }

  // ----- how the calls compose

  lemma DataOnly(key: seq<byte>, index: nat, left: nat, input: seq<byte>)
    requires |key| == MASK_LENGTH && index < MASK_LENGTH && 0 < |input| <= left <= MAX_PAYLOAD
    ensures Decodes(Payload(key, index, left), input, |input|,
                    AfterPayload(key, index, left, |input|), Unmasked(key, index, input))
  {
    RunPayload(key, index, left, input);
  }

  /** All payload of a frame, and more input behind it. */
  lemma DataThenMore(key: seq<byte>, index: nat, data: seq<byte>, rest: seq<byte>, r: int, d': State, buf: seq<byte>)
    requires |key| == MASK_LENGTH && index < MASK_LENGTH && |data| <= MAX_PAYLOAD && rest != []
    requires Decodes(Header([]), rest, r, d', buf)
    ensures Decodes(Payload(key, index, |data|), data + rest,
                    if r == IO_CONTINUE then |data| else if r < 0 then r else |data| + r,
                    d', Unmasked(key, index, data) + buf)
  {
    var out := Unmasked(key, index, data);
    MoreBehind(key, index, data, rest);
    match Run(Header([]), rest)
    case Going(_, more) =>
      assert out + more <= out + buf;
    case Closed(more) =>
      assert out + more <= out + buf;
    case Failed =>
  }

  lemma HeaderPart(bytes: seq<byte>, input: seq<byte>, buf: seq<byte>)
    requires |bytes| + |input| < HEADER_LENGTH
    ensures Decodes(Header(bytes), input, IO_CONTINUE, Header(bytes + input), buf)
  {
    RunHeader(bytes, input);
  }

  /** The header gets complete and announces payload, of which some is there. */
  lemma HeaderThenData(bytes: seq<byte>, input: seq<byte>, header: seq<byte>, r: int, d': State, buf: seq<byte>,
                       tail: seq<byte>)
    requires |bytes| < HEADER_LENGTH < |bytes| + |input| && header == (bytes + input)[..HEADER_LENGTH]
    requires Announced(header).Binary?
    requires Decodes(Payload(header[2..], 0, Announced(header).length), input[HEADER_LENGTH - |bytes|..], r, d', buf)
    ensures Decodes(Header(bytes), input, r, d', buf + tail)
  {
    HeaderThenRest(bytes, input, header);
  }

  /** The header gets complete with the last byte, or ends the connection. */
  lemma HeaderComplete(bytes: seq<byte>, input: seq<byte>, header: seq<byte>, ret: int, d': State, buf: seq<byte>)
    requires |bytes| < HEADER_LENGTH <= |bytes| + |input| && header == (bytes + input)[..HEADER_LENGTH]
    requires match Announced(header)
             case Binary(length) =>
               |bytes| + |input| == HEADER_LENGTH && ret == IO_CONTINUE && d' == Payload(header[2..], 0, length)
             case Close => ret == 0 && d' == Header(bytes)
             case Unsupported => ret == -1
    ensures Decodes(Header(bytes), input, ret, d', buf)
  {
    var n := HEADER_LENGTH - |bytes|;
    assert header == bytes + input[..n] && input == input[..n] + input[n..];
    RunFullHeader(bytes, input[..n]);
    RunConcat(Header(bytes), input[..n], input[n..]);
    if n == |input| {
      assert input[n..] == [];
    }
  }

  // ----- the decoder object

  datatype Phase = HandshakeDone | HeaderDone

  class Connection {
    const frame: array<byte>
    var phase: Phase
    var frameIndex: nat
    var maskIndex: nat
    var toRead: nat

    ghost predicate Valid()
      reads this
    {
      && frame.Length == HEADER_LENGTH
      && frameIndex < HEADER_LENGTH
      && (phase == HeaderDone ==> maskIndex < MASK_LENGTH && toRead <= MAX_PAYLOAD)
    }

    /** The decoder that the fields stand for. */
    ghost function Decoder(): State
      requires Valid()
      reads this, frame
    {
      if phase == HandshakeDone then Header(frame[..frameIndex]) else Payload(frame[2..], maskIndex, toRead)
    }

    /** A connection whose handshake is done. */
    constructor ()
      ensures Valid() && fresh(frame) && Decoder() == Header([])
    {
      frame := new byte[HEADER_LENGTH](_ => 0);
      phase := HandshakeDone;
      frameIndex, maskIndex, toRead := 0, 0, 0;
    }

    static method Write(buffer: array<byte>, at: nat, b: byte)
      requires at < buffer.Length
      modifies buffer
      ensures buffer[..] == old(buffer[..])[at := b]
    {
      buffer[at] := b;
    }

    method MaskedByte(b: byte) returns (c: byte)
      requires Valid() && phase == HeaderDone
      ensures c == b ^ frame[2..][maskIndex]
    {
      c := b ^ frame[2 + maskIndex];
    }

    /** Takes the masking off `n` bytes in place. */
    method Unmask(buffer: array<byte>, at: nat, n: nat)
      requires Valid() && phase == HeaderDone && buffer != frame && at + n <= buffer.Length
      modifies buffer, this`maskIndex
      ensures maskIndex == (old(maskIndex) + n) % MASK_LENGTH
      ensures buffer[..] == UnmaskedIn(old(frame[2..]), old(maskIndex), old(buffer[..]), at, n)
    {
      ghost var key, m, s := frame[2..], maskIndex, buffer[..];
      var i := 0;
      while i < n
        invariant 0 <= i <= n && maskIndex == (m + i) % MASK_LENGTH && frame[2..] == key
        invariant buffer[..] == UnmaskedIn(key, m, s, at, i)
      {
        UnmaskedMore(key, m, s, at, i);
        MaskIndexAt(m, i);
        assert buffer[at + i] == buffer[..][at + i];
        var b := MaskedByte(buffer[at + i]);
        Write(buffer, at + i, b);
        maskIndex := NextMaskIndex(maskIndex);
        i := i + 1;
      }
    }

    /** The part of `ParseData` that does not look further: `n` bytes are payload of the current frame. */
    method TakePayload(buffer: array<byte>, at: nat, n: nat)
      requires Valid() && phase == HeaderDone && buffer != frame && at + n <= buffer.Length && n <= toRead
      modifies this, buffer
      ensures Valid() && frame[..] == old(frame[..])
      ensures Decoder() == AfterPayload(old(frame[2..]), old(maskIndex), old(toRead), n)
      ensures n == old(toRead) ==> phase == HandshakeDone && frameIndex == 0
      ensures buffer[..] == UnmaskedIn(old(frame[2..]), old(maskIndex), old(buffer[..]), at, n)
    {
      Unmask(buffer, at, n);
      toRead := toRead - n;
      if toRead == 0 {
        phase := HandshakeDone;
        maskIndex := 0;
        frameIndex := 0;
      }
    }

    /** Payload: it is unmasked in place, and whatever follows it is looked at as well. */
    method ParseData(buffer: array<byte>, at: nat, length: nat) returns (ret: int)
      requires Valid() && phase == HeaderDone && buffer != frame
      requires 0 < length && at + length <= buffer.Length
      modifies this, buffer, frame
      ensures Valid() && buffer[..at] == old(buffer[..at])
      ensures Decodes(old(Decoder()), old(buffer[at..at + length]), ret, Decoder(), buffer[at..at + length])
      decreases length, 5
    {
      ghost var key, index, left, input := frame[2..], maskIndex, toRead, buffer[at..at + length];
      assert input == buffer[..][at..at + length];
      if length <= toRead {
        UnmaskedSlice(key, index, buffer[..], at, length, length);
        assert input[..length] == input && input[length..] == [];
        TakePayload(buffer, at, length);
        DataOnly(key, index, left, input);
        ret := length;
      } else {
        var n := toRead;
        UnmaskedSlice(key, index, buffer[..], at, n, length);
        TakePayload(buffer, at, n);
        assert frameIndex == 0;
        ret := ParseBehind(buffer, at, n, length, key, index, input);
      }
    }

    /** The input behind the payload of a frame, which is at `at` already. */
    method ParseBehind(buffer: array<byte>, at: nat, n: nat, length: nat,
                       ghost key: seq<byte>, ghost index: nat, ghost input: seq<byte>) returns (ret: int)
      requires Valid() && phase == HandshakeDone && frameIndex == 0 && buffer != frame
      requires n < length && at + length <= buffer.Length
      requires |key| == MASK_LENGTH && index < MASK_LENGTH && n <= MAX_PAYLOAD && |input| == length
      requires buffer[at..at + length] == Unmasked(key, index, input[..n]) + input[n..]
      modifies this, buffer, frame
      ensures Valid() && buffer[..at] == old(buffer[..at])
      ensures Decodes(Payload(key, index, n), input, ret, Decoder(), buffer[at..at + length])
      decreases length, 4
    {
      ghost var out := Unmasked(key, index, input[..n]);
      assert buffer[at + n..at + length] == buffer[at..at + length][n..];
      assert buffer[at..at + n] == buffer[at..at + length][..n];
      assert frame[..0] == [];
      ret := Parse(buffer, at + n, length - n);
      assert buffer[at..at + n] == buffer[..at + n][at..];
      assert buffer[at..at + length] == out + buffer[at + n..at + length];
      assert input[..n] + input[n..] == input;
      DataThenMore(key, index, input[..n], input[n..], ret, Decoder(), buffer[at + n..at + length]);
      if ret < 0 {
        if ret != IO_CONTINUE {
          return;
        }
        ret := 0;
      }
      ret := n + ret;
    }

    method Parse(buffer: array<byte>, at: nat, length: nat) returns (ret: int)
      requires Valid() && buffer != frame && 0 < length && at + length <= buffer.Length
      modifies this, buffer, frame
      ensures Valid() && buffer[..at] == old(buffer[..at])
      ensures Decodes(old(Decoder()), old(buffer[at..at + length]), ret, Decoder(), buffer[at..at + length])
      decreases length, if phase == HandshakeDone then 3 else 6
    {
      match phase
      case HandshakeDone => ret := ParseHeader(buffer, at, length);
      case HeaderDone => ret := ParseData(buffer, at, length);
    }

    /** Copies up to `n` bytes into the frame header. */
    method CopyHeader(buffer: array<byte>, at: nat, n: nat)
      requires Valid() && buffer != frame && at + n <= buffer.Length && frameIndex + n <= HEADER_LENGTH
      modifies frame
      ensures frame[..frameIndex + n] == old(frame[..frameIndex]) + buffer[at..at + n]
    {
      forall k | 0 <= k < n {
        frame[frameIndex + k] := buffer[at + k];
      }
    }

    /** Header: it is collected, possibly over several calls, and the payload behind it is moved to the front. */
    method ParseHeader(buffer: array<byte>, at: nat, length: nat) returns (ret: int)
      requires Valid() && phase == HandshakeDone && buffer != frame
      requires 0 < length && at + length <= buffer.Length
      modifies this, buffer, frame
      ensures Valid() && buffer[..at] == old(buffer[..at])
      ensures Decodes(old(Decoder()), old(buffer[at..at + length]), ret, Decoder(), buffer[at..at + length])
      decreases length, 2
    {
      ghost var bytes, input := frame[..frameIndex], buffer[at..at + length];
      var toCopy := if length < HEADER_LENGTH - frameIndex then length else HEADER_LENGTH - frameIndex;
      CopyHeader(buffer, at, toCopy);
      if toCopy + frameIndex < HEADER_LENGTH {
        frameIndex := frameIndex + toCopy;
        HeaderPart(bytes, input, buffer[at..at + length]);
        ret := IO_CONTINUE;
      } else {
        assert frame[..] == frame[..frameIndex + toCopy];
        assert (bytes + input)[..HEADER_LENGTH] == bytes + input[..toCopy];
        assert input[..toCopy] == buffer[at..at + toCopy];
        ret := HandleHeader(buffer, at, length, toCopy, bytes);
      }
    }

    /** A complete header. */
    method HandleHeader(buffer: array<byte>, at: nat, length: nat, toCopy: nat, ghost bytes: seq<byte>)
      returns (ret: int)
      requires Valid() && phase == HandshakeDone && buffer != frame
      requires 0 < toCopy <= length && at + length <= buffer.Length
      requires |bytes| == frameIndex == HEADER_LENGTH - toCopy
      requires frame[..] == (bytes + buffer[at..at + length])[..HEADER_LENGTH]
      modifies this, buffer, frame
      ensures Valid() && buffer[..at] == old(buffer[..at])
      ensures Decodes(Header(bytes), old(buffer[at..at + length]), ret, Decoder(), buffer[at..at + length])
      decreases length, 1
    {
      ghost var header, input := frame[..], buffer[at..at + length];
      var length7 := PayloadLength(frame[1]);
      if Mask(frame[1]) != 1 || length7 == 126 || length7 == 127 {
        ret := -1;
      } else if Opcode(frame[0]) == 2 {
        maskIndex := 0;
        frameIndex := 0;
        toRead := length7;
        phase := HeaderDone;
        if length - toCopy > 0 {
          ret := MoveAndParse(buffer, at, length, toCopy, bytes, header);
          return;
        }
        ret := IO_CONTINUE;
      } else if Opcode(frame[0]) == 8 {
        assert frame[..frameIndex] == bytes;
        ret := 0;
      } else {
        ret := -1;
      }
      SevenBitLength(header[1]);
      HeaderComplete(bytes, input, header, ret, Decoder(), buffer[at..at + length]);
    }

    /** The payload behind a header moves to the front. */
    static method MoveForward(buffer: array<byte>, at: nat, length: nat, toCopy: nat)
      requires toCopy < length && at + length <= buffer.Length
      modifies buffer
      ensures buffer[..at] == old(buffer[..at])
      ensures buffer[at..at + (length - toCopy)] == old(buffer[at..at + length])[toCopy..]
    {
      forall k | 0 <= k < length - toCopy {
        buffer[at + k] := buffer[at + toCopy + k];
      }
    }

    method MoveAndParse(buffer: array<byte>, at: nat, length: nat, toCopy: nat,
                        ghost bytes: seq<byte>, ghost header: seq<byte>) returns (ret: int)
      requires Valid() && phase == HeaderDone && buffer != frame
      requires 0 < toCopy < length && at + length <= buffer.Length && |bytes| == HEADER_LENGTH - toCopy
      requires frame[..] == header == (bytes + buffer[at..at + length])[..HEADER_LENGTH]
      requires Announced(header) == Binary(toRead) && maskIndex == 0
      modifies this, buffer, frame
      ensures Valid() && buffer[..at] == old(buffer[..at])
      ensures Decodes(Header(bytes), old(buffer[at..at + length]), ret, Decoder(), buffer[at..at + length])
      decreases length, 0
    {
      ghost var n, input := length - toCopy, buffer[at..at + length];
      MoveForward(buffer, at, length, toCopy);
      assert frame[2..] == header[2..];
      ret := ParseData(buffer, at, length - toCopy);
      ghost var whole := buffer[..][at..at + length];
      SliceOfSlice(buffer[..], at, n, length);
      HeaderThenData(bytes, input, header, ret, Decoder(), whole[..n], whole[n..]);
      CutAt(whole, n);
    }
  }

  lemma SliceOfSlice(s: seq<byte>, at: nat, n: nat, length: nat)
    requires n <= length && at + length <= |s|
    ensures s[at..at + length][..n] == s[at..at + n]
  {
  }

  lemma CutAt(s: seq<byte>, n: nat)
    requires n <= |s|
    ensures s[..n] + s[n..] == s
  {
  }

  lemma SevenBitLength(b: byte)
    ensures PayloadLength(b) < 128
  {
  }

  function NextMaskIndex(m: nat): nat {
    if m + 1 >= MASK_LENGTH then 0 else m + 1
  }

  lemma MaskIndexAt(m: nat, i: nat)
    ensures (m + (i + 1)) % MASK_LENGTH == NextMaskIndex((m + i) % MASK_LENGTH)
  {
  }

  /** A buffer in which the masking is taken off `n` bytes. */
  function UnmaskedIn(key: seq<byte>, m: nat, s: seq<byte>, at: nat, n: nat): (t: seq<byte>)
    requires |key| == MASK_LENGTH && at + n <= |s|
    ensures |t| == |s|
  {
    s[..at] + Unmasked(key, m, s[at..at + n]) + s[at + n..]
  }

  lemma UnmaskedMore(key: seq<byte>, m: nat, s: seq<byte>, at: nat, i: nat)
    requires |key| == MASK_LENGTH && at + i < |s|
    ensures var t := UnmaskedIn(key, m, s, at, i);
            && t[at + i] == s[at + i]
            && t[at + i := s[at + i] ^ key[(m + i) % MASK_LENGTH]] == UnmaskedIn(key, m, s, at, i + 1)
  {
    UnmaskedLast(key, m, s[at..at + i], s[at + i]);
    assert s[at..at + i] + [s[at + i]] == s[at..at + (i + 1)];
  }

  lemma UnmaskedSlice(key: seq<byte>, m: nat, s: seq<byte>, at: nat, n: nat, length: nat)
    requires |key| == MASK_LENGTH && n <= length && at + length <= |s|
    ensures var t := UnmaskedIn(key, m, s, at, n);
            var input := s[at..at + length];
            t[..at] == s[..at] && t[at..at + length] == Unmasked(key, m, input[..n]) + input[n..]
  {
    var input, u, rest := s[at..at + length], Unmasked(key, m, s[at..at + n]), s[at + n..];
    assert input[..n] == s[at..at + n];
    assert input[n..] == rest[..length - n];
    SliceBehind(s[..at], u, rest, length - n);
  }

  lemma SliceBehind(a: seq<byte>, b: seq<byte>, c: seq<byte>, k: nat)
    requires k <= |c|
    ensures (a + b + c)[..|a|] == a && (a + b + c)[|a|..|a| + |b| + k] == b + c[..k]
  {
  }

  lemma UnmaskedLast(key: seq<byte>, m: nat, data: seq<byte>, b: byte)
    requires |key| == MASK_LENGTH
    ensures Unmasked(key, m, data + [b]) == Unmasked(key, m, data) + [b ^ key[(m + |data|) % MASK_LENGTH]]
  {
    var all := data + [b];
    var s, t := Unmasked(key, m, all), Unmasked(key, m, data);
    forall i | 0 <= i < |data|
      ensures s[i] == t[i]
    {
      assert all[i] == data[i];
    }
    assert s[|data|] == b ^ key[(m + |data|) % MASK_LENGTH];
  }

  // ----- whole connections

  /** A close frame behind payload is met while looking for payload. */
  lemma CloseIsInPayload(d: State, input: seq<byte>)
    ensures var r := Run(d, input); r.Closed? && r.out != [] ==> EntersPayload(d, input)
  {
    if d.Header? && !EntersPayload(d, input) {
      if |d.bytes| + |input| < HEADER_LENGTH {
        RunHeader(d.bytes, input);
      } else {
        var n := HEADER_LENGTH - |d.bytes|;
        assert (d.bytes + input)[..HEADER_LENGTH] == d.bytes + input[..n] && input == input[..n] + input[n..];
        RunFullHeader(d.bytes, input[..n]);
        RunConcat(d, input[..n], input[n..]);
        if n == |input| {
          assert input[n..] == [];
        }
      }
    }
  }

  /** One read: the socket has delivered `input`, and what is returned is the code and the decoded bytes. */
  method Receive(c: Connection, input: seq<byte>) returns (ret: int, data: seq<byte>)
    requires c.Valid() && input != []
    modifies c, c.frame
    ensures c.Valid() && ret == Code(old(c.Decoder()), input)
    ensures match Run(old(c.Decoder()), input)
            case Going(d, out) => c.Decoder() == d && data == out
            case Closed(out) => data == out && (out != [] ==> c.Decoder() == Header([]))
            case Failed => data == []
    ensures |data| == if ret > 0 then ret else 0
    ensures |data| <= |input|
  {
    CloseIsInPayload(c.Decoder(), input);
    var buffer := new byte[|input|](i requires 0 <= i < |input| => input[i]);
    assert buffer[..] == input && buffer[0..|input|] == input;
    ret := c.Parse(buffer, 0, |input|);
    data := if ret > 0 then buffer[..ret] else [];
  }

  lemma StartOfStream(fs: seq<Frame>, bytes: seq<byte>)
    requires AllWellFormed(fs) && bytes <= Stream(fs)
    ensures var r := Run(Header([]), bytes); r.Going? && Healthy(r.d)
  {
    StreamPrefix(fs, |bytes|);
    assert Stream(fs)[..|bytes|] == bytes;
  }

  lemma RestOfStart(before: seq<byte>, part: seq<byte>, d: State, data: seq<byte>)
    requires Run(Header([]), before) == Going(d, data)
    requires var r := Run(Header([]), before + part); r.Going? && Healthy(r.d)
    ensures var r := Run(d, part); r.Going? && Healthy(r.d)
  {
    RunConcat(Header([]), before, part);
  }

  lemma ReadOfStream(fs: seq<Frame>, before: seq<byte>, input: seq<byte>, d: State, data: seq<byte>)
    requires AllWellFormed(fs) && before + input <= Stream(fs) && input != []
    requires Run(Header([]), before) == Going(d, data)
    ensures Code(d, input) == IO_CONTINUE || Code(d, input) > 0
    ensures var r := Run(d, input);
            r.Going? && Run(Header([]), before + input) == Going(r.d, data + r.out)
  {
    forall k | 0 <= k <= |input|
      ensures var r := Run(d, input[..k]); r.Going? && Healthy(r.d)
    {
      assert before + input[..k] <= before + input;
      StartOfStream(fs, before + input[..k]);
      RestOfStart(before, input[..k], d, data);
    }
    assert StaysHealthy(d, input);
    HealthyReadIsNeverZero(d, input);
    RunConcat(Header([]), before, input);
    assert input[..|input|] == input;
  }

  /** However a stream of masked binary frames with payload is cut into reads, the returned bytes are the payloads,
      and no read is mistaken for an error or the end of the connection. */
  method ReceiveAll(pieces: seq<seq<byte>>, ghost fs: seq<Frame>) returns (codes: seq<int>, data: seq<byte>)
    requires AllWellFormed(fs) && Concatenated(pieces) == Stream(fs)
    requires forall i :: 0 <= i < |pieces| ==> pieces[i] != []
    ensures data == Payloads(fs)
    ensures |codes| == |pieces| && forall i :: 0 <= i < |codes| ==> codes[i] == IO_CONTINUE || codes[i] > 0
  {
    var c := new Connection();
    codes, data := [], [];
    var k := 0;
    ghost var seen: seq<byte> := [];
    while k < |pieces|
      invariant 0 <= k <= |pieces| && |codes| == k && seen == Concatenated(pieces[..k])
      invariant fresh(c) && fresh(c.frame) && c.Valid()
      invariant Run(Header([]), seen) == Going(c.Decoder(), data)
      invariant forall i :: 0 <= i < |codes| ==> codes[i] == IO_CONTINUE || codes[i] > 0
    {
      ConcatenatedNext(pieces, k);
      ReadOfStream(fs, seen, pieces[k], c.Decoder(), data);
      var ret, more := Receive(c, pieces[k]);
      codes, data := codes + [ret], data + more;
      seen := seen + pieces[k];
      k := k + 1;
    }
    assert pieces[..k] == pieces;
    StreamDecodes(fs);
  }

  lemma ConcatenatedNext(pieces: seq<seq<byte>>, k: nat)
    requires k < |pieces|
    ensures Concatenated(pieces[..k + 1]) == Concatenated(pieces[..k]) + pieces[k] <= Concatenated(pieces)
  {
    ConcatenatedPrefix(pieces, k + 1);
    assert pieces[..k + 1][..k] == pieces[..k];
  }

  lemma {:induction false} ConcatenatedPrefix(pieces: seq<seq<byte>>, k: nat)
    requires k <= |pieces|
    ensures Concatenated(pieces[..k]) <= Concatenated(pieces)
  {
    if k == |pieces| {
      assert pieces[..k] == pieces;
    } else {
      var n := |pieces| - 1;
      ConcatenatedPrefix(pieces[..n], k);
      assert pieces[..n][..k] == pieces[..k];
    }
  }
}
