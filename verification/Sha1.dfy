/** The streaming hash object: a message fed in pieces of any size gives the digest of the whole. */
module Sha1 {
  import opened Bytes
  import opened Sha1Spec
  import opened Sha1Transform

  /** The chaining value after the blocks of some data. */
  type Absorbed = seq<byte> -> Vars

  /** `g` is that value as the standard defines it, under a name that the streaming proofs need not look behind. */
  ghost predicate Standard(g: Absorbed) {
    forall data {:trigger Absorb(CompressBytes, H0, data)} :: g(data) == Absorb(CompressBytes, H0, data)
  }

  lemma AbsorbMore(f: BlockFunction, h: Vars, data: seq<byte>, block: seq<byte>)
    requires |block| == 64
    ensures Absorb(f, h, data + block) == f(Absorb(f, h, data), block)
  {
    var all := data + block;
    assert all[..|all| - 64] == data && all[|all| - 64..] == block;
  }

  /** One block more. */
  method Compressed(h: Vars, block: seq<byte>, little: bool, ghost g: Absorbed, ghost before: seq<byte>)
    returns (h': Vars)
    requires Standard(g) && h == g(before) && |block| == 64
    ensures h' == g(before + block)
  {
    AbsorbMore(CompressBytes, H0, before, block);
    h' := Transform(h, block, little);
    assert h' == CompressBytes(h, block);
  }

  /** The bit counter knows the fill level of the buffer, also after it has wrapped around. */
  lemma FillLevel(length: nat)
    ensures 8 * length % TWO64 / 8 % 64 == length % 64
  {
    var q, s := length / TWO61, length % TWO61;
    assert 8 * length % TWO64 == 8 * s by {
      assert 8 * length == TWO64 * q + 8 * s;
      Remainder(q, 8 * s);
    }
    assert length == 64 * (TWO61 / 64 * q) + s;
    MultipleOf64(TWO61 / 64 * q, s);
  }

  lemma Remainder(q: nat, r: nat)
    requires r < TWO64
    ensures (TWO64 * q + r) % TWO64 == r
  {
  }

  lemma MultipleOf64(k: nat, s: nat)
    ensures (64 * k + s) % 64 == s % 64
  {
  }

  lemma CounterAdds(length: nat, more: nat)
    ensures (8 * length % TWO64 + 8 * more) % TWO64 == 8 * (length + more) % TWO64
  {
  }

  /** The state has absorbed all complete blocks of the message, the rest of it is at the start of the buffer. */
  ghost predicate Holds(g: Absorbed, state: Vars, buffer: seq<byte>, message: seq<byte>) {
    var n := |message| - |message| % 64;
    |buffer| == 64 && state == g(message[..n]) && buffer[..|message| - n] == message[n..]
  }

  lemma Floor(n: nat, r: nat)
    requires n % 64 == 0 && r < 64
    ensures (n + r) % 64 == r
  {
  }

  lemma HoldsRest(g: Absorbed, state: Vars, buffer: seq<byte>, message: seq<byte>, data: seq<byte>, i: nat)
    requires i <= |data| < i + 64 && (|message| + i) % 64 == 0
    requires state == g(message + data[..i])
    requires |buffer| == 64 && buffer[..|data| - i] == data[i..]
    ensures Holds(g, state, buffer, message + data)
  {
    var all := message + data;
    var n := |message| + i;
    Floor(n, |data| - i);
    assert all[..n] == message + data[..i];
    assert all[n..] == data[i..];
  }

  lemma HoldsLonger(g: Absorbed, state: Vars, buffer: seq<byte>, filled: seq<byte>,
                    message: seq<byte>, data: seq<byte>)
    requires Holds(g, state, buffer, message) && |message| % 64 + |data| < 64
    requires filled == buffer[..|message| % 64] + data + buffer[|message| % 64 + |data|..]
    ensures Holds(g, state, filled, message + data)
  {
    var all := message + data;
    var n := |message| - |message| % 64;
    assert n == |all| - |all| % 64;
    assert all[..n] == message[..n] && all[n..] == message[n..] + data;
    assert filled[..|all| - n] == all[n..];
  }

  /** All complete blocks of `data` from `i` on. */
  method AbsorbBlocks(h: Vars, data: seq<byte>, i: nat, little: bool, ghost g: Absorbed, ghost before: seq<byte>)
    returns (h': Vars, i': nat)
    requires Standard(g) && i <= |data| && h == g(before)
    ensures i <= i' <= |data| < i' + 64 && (i' - i) % 64 == 0
    ensures h' == g(before + data[i..i'])
  {
    h', i' := h, i;
    assert before + data[i..i'] == before;
    while i' + 63 < |data|
      invariant i <= i' <= |data| && (i' - i) % 64 == 0
      invariant h' == g(before + data[i..i'])
    {
      h' := Compressed(h', data[i'..i' + 64], little, g, before + data[i..i']);
      assert before + data[i..i'] + data[i'..i' + 64] == before + data[i..i' + 64];
      i' := i' + 64;
    }
  }

  lemma PaddingStops(length: nat, k: nat)
    requires k <= ZeroCount(length)
    ensures (length + 1 + k) % 64 == 56 <==> k == ZeroCount(length)
  {
  }

  lemma WholeMessage(g: Absorbed, state: Vars, buffer: seq<byte>, message: seq<byte>)
    requires Standard(g) && Holds(g, state, buffer, message) && |message| % 64 == 0
    ensures state == Absorb(CompressBytes, H0, message)
  {
    assert message[..|message|] == message;
  }

  /** The length field. */
  method LengthBytes(count: nat) returns (length: seq<byte>)
    requires count < TWO64
    ensures length == Bytes8(count)
  {
    var bytes := new byte[8](_ => 0);
    var i := 0;
    while i < 8
      invariant 0 <= i <= 8
      invariant forall k :: 0 <= k < i ==> bytes[k] == Base256(count, 7 - k)
    {
      bytes[i] := Base256(count, 7 - i);
      i := i + 1;
    }
    length := bytes[..];
  }

  function StateWord(h: Vars, i: nat): word
    requires i < 5
  {
    if i == 0 then h.a else if i == 1 then h.b else if i == 2 then h.c else if i == 3 then h.d else h.e
  }

  lemma ConcatAt(s: seq<seq<byte>>, i: nat)
    requires |s| == 5 && (forall j :: 0 <= j < 5 ==> |s[j]| == 4) && i < 20
    ensures (s[0] + s[1] + s[2] + s[3] + s[4])[i] == s[i / 4][i % 4]
  {
  }

  lemma WordBytesAt(x: word, k: nat)
    requires k < 4
    ensures WordBytes(x)[k] == ByteOf(x, k)
  {
  }

  lemma DigestAt(h: Vars, i: nat)
    requires i < 20
    ensures Digest(h)[i] == ByteOf(StateWord(h, i / 4), i % 4)
  {
    ConcatAt([WordBytes(h.a), WordBytes(h.b), WordBytes(h.c), WordBytes(h.d), WordBytes(h.e)], i);
    WordBytesAt(StateWord(h, i / 4), i % 4);
  }

  method DigestBytes(h: Vars) returns (digest: array<byte>)
    ensures fresh(digest) && digest[..] == Digest(h)
  {
    digest := new byte[20](_ => 0);
    var i := 0;
    while i < 20
      invariant 0 <= i <= 20
      invariant forall k :: 0 <= k < i ==> digest[k] == Digest(h)[k]
    {
      DigestAt(h, i);
      digest[i] := ByteOf(StateWord(h, i / 4), i % 4);
      i := i + 1;
    }
  }

  class SHA1 {
    const little: bool
    const buffer: array<byte>
    var state: Vars
    var count: nat
    ghost const g: Absorbed
    ghost var message: seq<byte>

    ghost predicate Valid()
      reads this, buffer
    {
      && Ready()
      && count == 8 * |message| % TWO64
      && Holds(g, state, buffer[..], message)
    }

    ghost predicate Ready() {
      buffer.Length == 64 && Standard(g)
    }

    /** An object for a host of the given byte order. */
    constructor (little: bool)
      ensures Valid() && message == [] && fresh(buffer)
    {
      this.little := little;
      buffer := new byte[64](_ => 0);
      g := data => Absorb(CompressBytes, H0, data);
      state := H0;
      count := 0;
      message := [];
    }

    /** Starts over. */
    method Init()
      requires Ready()
      modifies this
      ensures Valid() && message == []
    {
      assert Absorb(CompressBytes, H0, []) == H0;
      state := H0;
      count := 0;
      message := [];
    }

    method Update(data: seq<byte>)
      requires Valid()
      modifies this, buffer
      ensures Valid() && message == old(message) + data
    {
      var j := Advance(|data|);
      Feed(j, data);
      message := message + data;
    }

    /** Reads the fill level off the bit counter and advances the counter, which has 64 bits. */
    method Advance(length: nat) returns (j: nat)
      requires count == 8 * |message| % TWO64
      modifies this`count
      ensures j == |message| % 64 && count == 8 * (|message| + length) % TWO64
    {
      FillLevel(|message|);
      CounterAdds(|message|, length);
      j := count / 8 % 64;
      count := (count + 8 * length) % TWO64;
    }

    method Feed(j: nat, data: seq<byte>)
      requires Ready() && Holds(g, state, buffer[..], message) && j == |message| % 64
      modifies this`state, buffer
      ensures Holds(g, state, buffer[..], message + data)
    {
      if j + |data| > 63 {
        var i := CompleteBlocks(j, data);
        Store(0, data[i..]);
        HoldsRest(g, state, buffer[..], message, data, i);
      } else {
        Store(j, data);
        HoldsLonger(g, state, old(buffer[..]), buffer[..], message, data);
      }
    }

    /** The branch of `Update` in which at least one block gets complete: everything up to `i` is absorbed. */
    method CompleteBlocks(j: nat, data: seq<byte>) returns (i: nat)
      requires Ready() && Holds(g, state, buffer[..], message)
      requires j == |message| % 64 && j + |data| > 63
      modifies this`state, buffer
      ensures i <= |data| < i + 64 && (|message| + i) % 64 == 0
      ensures state == g(message + data[..i])
    {
      var first := 64 - j;
      Store(j, data[..first]);
      ghost var whole := message[..|message| - j];
      assert whole + buffer[..] == message + data[..first];
      state := Compressed(state, buffer[..], little, g, whole);
      state, i := AbsorbBlocks(state, data, first, little, g, message + data[..first]);
      assert message + data[..first] + data[first..i] == message + data[..i];
    }

    method Store(at: nat, part: seq<byte>)
      requires buffer.Length == 64 && at + |part| <= 64
      modifies buffer
      ensures buffer[..] == old(buffer[..at]) + part + old(buffer[at + |part|..])
    {
      forall k | 0 <= k < |part| {
        buffer[at + k] := part[k];
      }
    }

    /** Pads and appends the length, returns the digest of the message and wipes the object. */
    method Final() returns (digest: array<byte>)
      requires Valid()
      modifies this, buffer
      ensures fresh(digest) && digest[..] == Hash(old(message))
      ensures Ready() && state == Vars(0, 0, 0, 0, 0) && count == 0 && buffer[..] == Zeros(64)
    {
      Pad();
      WholeMessage(g, state, buffer[..], message);
      digest := DigestBytes(state);
      Wipe();
    }

    method Wipe()
      requires buffer.Length == 64
      modifies this, buffer
      ensures state == Vars(0, 0, 0, 0, 0) && count == 0 && buffer[..] == Zeros(64)
    {
      forall k | 0 <= k < 64 {
        buffer[k] := 0;
      }
      state := Vars(0, 0, 0, 0, 0);
      count := 0;
    }

    method Pad()
      requires Valid()
      modifies this, buffer
      ensures Valid() && message == Padded(old(message))
    {
      ghost var m := message;
      var length := LengthBytes(count);
      Update([0x80]);
      PadZeros(m);
      Update(length);
    }

    /** The padding loop, which stops when eight bytes are missing from a block. */
    method PadZeros(ghost m: seq<byte>)
      requires Valid() && message == m + [0x80]
      modifies this, buffer
      ensures Valid() && message == m + [0x80] + Zeros(ZeroCount(|m|))
    {
      ghost var k := 0;
      assert message == m + [0x80] + Zeros(0);
      FillLevel(|message|);
      PaddingStops(|m|, k);
      while count / 8 % 64 * 8 != 448
        invariant Valid() && k <= ZeroCount(|m|) && message == m + [0x80] + Zeros(k)
        invariant count / 8 % 64 == 56 <==> k == ZeroCount(|m|)
        decreases ZeroCount(|m|) - k
      {
        Update([0]);
        assert m + [0x80] + Zeros(k) + [0] == m + [0x80] + Zeros(k + 1);
        k := k + 1;
        FillLevel(|message|);
        PaddingStops(|m|, k);
      }
    }
  }

  /** However a message is cut, feeding the pieces in order gives the hash of the message. */
  method HashPieces(pieces: seq<seq<byte>>, little: bool) returns (digest: seq<byte>)
    ensures digest == Hash(Concatenated(pieces))
  {
    var sha1 := new SHA1(little);
    var k := 0;
    while k < |pieces|
      invariant 0 <= k <= |pieces|
      invariant fresh(sha1) && fresh(sha1.buffer) && sha1.Valid()
      invariant sha1.message == Concatenated(pieces[..k])
    {
      assert pieces[..k + 1][..k] == pieces[..k];
      sha1.Update(pieces[k]);
      k := k + 1;
    }
    assert pieces[..k] == pieces;
    var bytes := sha1.Final();
    digest := bytes[..];
  }
}
