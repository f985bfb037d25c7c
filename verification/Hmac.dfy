/** HMAC-SHA1 against section 2 of RFC 2104. */
module Hmac {
  import opened Bytes
  import opened Sha1Spec
  import opened Sha1

  const BLOCK_LENGTH := 64
  const IPAD: byte := 0x36
  const OPAD: byte := 0x5C

  type HashFunction = seq<byte> -> seq<byte>

  /** The key: a longer secret is replaced by its hash, then zeros fill up the block. */
  function Key(hash: HashFunction, secret: seq<byte>): seq<byte> {
    var k := if |secret| > BLOCK_LENGTH then hash(secret) else secret;
    if |k| <= BLOCK_LENGTH then k + Zeros(BLOCK_LENGTH - |k|) else k
  }

  function Masked(key: seq<byte>, pad: byte): (s: seq<byte>)
    ensures |s| == |key|
  {
    seq(|key|, i requires 0 <= i < |key| => key[i] ^ pad)
  }

  function HmacOf(hash: HashFunction, key: seq<byte>, text: seq<byte>): seq<byte> {
    hash(Masked(key, OPAD) + hash(Masked(key, IPAD) + text))
  }

  /** The same, byte by byte, as the RFC puts it: two pads of 64 bytes, and the hash of the text between them. */
  lemma HmacOnBytes(hash: HashFunction, secret: seq<byte>, text: seq<byte>, inner: seq<byte>, outer: seq<byte>)
    requires |secret| <= 64 && |inner| == |outer| == 64
    requires forall i :: 0 <= i < 64 ==> inner[i] == (if i < |secret| then secret[i] else 0) ^ 0x36
    requires forall i :: 0 <= i < 64 ==> outer[i] == (if i < |secret| then secret[i] else 0) ^ 0x5C
    ensures HmacOf(hash, Key(hash, secret), text) == hash(outer + hash(inner + text))
  {
    var key := Key(hash, secret);
    assert Masked(key, IPAD) == inner && Masked(key, OPAD) == outer;
  }

  /** A longer secret counts as its hash. */
  lemma LongSecret(hash: HashFunction, secret: seq<byte>)
    requires |secret| > 64 && |hash(secret)| <= 64
    ensures Key(hash, secret) == Key(hash, hash(secret))
  {
  }

  /** Fills a block with the masked key, of which `secret` is all but the zeros at the end. */
  method FillPad(secret: seq<byte>, pad: byte) returns (block: array<byte>)
    requires |secret| <= BLOCK_LENGTH
    ensures fresh(block) && block[..] == Masked(secret + Zeros(BLOCK_LENGTH - |secret|), pad)
  {
    block := new byte[BLOCK_LENGTH](_ => 0);
    ghost var key := secret + Zeros(BLOCK_LENGTH - |secret|);
    var i := 0;
    while i < |secret|
      invariant 0 <= i <= |secret|
      invariant forall k :: 0 <= k < i ==> block[k] == key[k] ^ pad
    {
      block[i] := secret[i] ^ pad;
      i := i + 1;
    }
    while i < BLOCK_LENGTH
      invariant |secret| <= i <= BLOCK_LENGTH
      invariant forall k :: 0 <= k < i ==> block[k] == key[k] ^ pad
    {
      block[i] := pad;
      XorZero(pad);
      i := i + 1;
    }
  }

  lemma XorZero(b: byte)
    ensures 0 ^ b == b
  {
  }

  /** `hash` is SHA-1, under a name that the proofs need not look behind. */
  ghost predicate IsSha1(hash: HashFunction) {
    && (forall m {:trigger Hash(m)} :: hash(m) == Hash(m))
    && (forall m :: |hash(m)| == 20)
  }

  /** Hashes the concatenation of two pieces with an object that is not in use. */
  method HashTwo(sha1: SHA1, first: seq<byte>, second: seq<byte>, ghost hash: HashFunction)
    returns (digest: seq<byte>)
    requires sha1.Ready() && IsSha1(hash)
    modifies sha1, sha1.buffer
    ensures sha1.Ready() && digest == hash(first + second)
  {
    sha1.Init();
    sha1.Update(first);
    sha1.Update(second);
    assert [] + first + second == first + second;
    var bytes := sha1.Final();
    digest := bytes[..];
  }

  method HmacWith(secret: seq<byte>, data: seq<byte>, little: bool, ghost hash: HashFunction)
    returns (digest: seq<byte>)
    requires IsSha1(hash)
    ensures digest == HmacOf(hash, Key(hash, secret), data)
  {
    var sha1 := new SHA1(little);
    var key := secret;
    if |secret| > BLOCK_LENGTH {
      assert secret + [] == secret;
      key := HashTwo(sha1, secret, [], hash);
    }
    var ipad := FillPad(key, IPAD);
    var inner := HashTwo(sha1, ipad[..], data, hash);
    var opad := FillPad(key, OPAD);
    digest := HashTwo(sha1, opad[..], inner, hash);
  }

  /** The keyed digest, for secrets and texts of every length. */
  method HmacSha1(secret: seq<byte>, data: seq<byte>, little: bool) returns (digest: seq<byte>)
    ensures digest == HmacOf(Hash, Key(Hash, secret), data)
  {
    digest := HmacWith(secret, data, little, Hash);
  }
}
