/** SHA-1 as FIPS 180-4 defines it. */
module Sha1Spec {
  import opened Bytes

  type word = bv32

  function Rotl1(x: word): word { (x << 1) | (x >> 31) }

  function Rotl5(x: word): word { (x << 5) | (x >> 27) }

  function Rotl30(x: word): word { (x << 30) | (x >> 2) }

  // ----- section 4.1.1: the logical functions

  function Ch(x: word, y: word, z: word): word { (x & y) ^ (!x & z) }

  function Parity(x: word, y: word, z: word): word { x ^ y ^ z }

  function Maj(x: word, y: word, z: word): word { (x & y) ^ (x & z) ^ (y & z) }

  function F(t: nat, x: word, y: word, z: word): word {
    if t < 20 then Ch(x, y, z)
    else if t < 40 then Parity(x, y, z)
    else if t < 60 then Maj(x, y, z)
    else Parity(x, y, z)
  }

  // ----- section 4.2.1: the constants

  function K(t: nat): word {
    if t < 20 then 0x5A827999
    else if t < 40 then 0x6ED9EBA1
    else if t < 60 then 0x8F1BBCDC
    else 0xCA62C1D6
  }

  // ----- section 6.1.2: the schedule of eighty words, the working variables, the compression of a block

  type Block = m: seq<word> | |m| == 16 witness seq(16, _ => 0)

  function W(m: Block, t: nat): word
    decreases t, m
  {
    if t < 16 then m[t]
    else Rotl1(W(m, t - 3) ^ W(m, t - 8) ^ W(m, t - 14) ^ W(m, t - 16))
  }

  datatype Vars = Vars(a: word, b: word, c: word, d: word, e: word)

  function Round(v: Vars, t: nat, w: word): Vars {
    Next(v, Rotl5(v.a), F(t, v.b, v.c, v.d), K(t), w, Rotl30(v.b))
  }

  function Next(v: Vars, a5: word, f: word, k: word, w: word, b30: word): Vars {
    Vars(Sum(a5, f, v.e, k, w), v.a, b30, v.c, v.d)
  }

  function Sum(a5: word, f: word, e: word, k: word, w: word): word {
    a5 + f + e + k + w
  }

  function Rounds(h: Vars, m: Block, t: nat): Vars
    decreases t, m
  {
    if t == 0 then h else Round(Rounds(h, m, t - 1), t - 1, W(m, t - 1))
  }

  function Plus(u: Vars, v: Vars): Vars {
    Vars(u.a + v.a, u.b + v.b, u.c + v.c, u.d + v.d, u.e + v.e)
  }

  function Compress(h: Vars, m: Block): Vars {
    Plus(h, Rounds(h, m, 80))
  }

  // ----- section 3.1: words from bytes and bytes from words, most significant byte first

  function BigEndian(b0: byte, b1: byte, b2: byte, b3: byte): word {
    ((b0 as word) << 24) | ((b1 as word) << 16) | ((b2 as word) << 8) | (b3 as word)
  }

  function Words(data: seq<byte>): Block
    requires |data| == 64
  {
    seq(16, i requires 0 <= i < 16 => BigEndian(data[4 * i], data[4 * i + 1], data[4 * i + 2], data[4 * i + 3]))
  }

  function ByteOf(x: word, k: nat): byte {
    if k == 0 then ((x >> 24) & 0xFF) as byte
    else if k == 1 then ((x >> 16) & 0xFF) as byte
    else if k == 2 then ((x >> 8) & 0xFF) as byte
    else (x & 0xFF) as byte
  }

  function WordBytes(x: word): (s: seq<byte>)
    ensures |s| == 4
  {
    [ByteOf(x, 0), ByteOf(x, 1), ByteOf(x, 2), ByteOf(x, 3)]
  }

  function Digest(h: Vars): (s: seq<byte>)
    ensures |s| == 20
  {
    WordBytes(h.a) + WordBytes(h.b) + WordBytes(h.c) + WordBytes(h.d) + WordBytes(h.e)
  }

  // ----- section 5.1.1: padding; section 5.3.1: the initial value; section 6.1.2: the hash of a message

  const TWO61 := 0x2000_0000_0000_0000
  const TWO64 := 0x1_0000_0000_0000_0000

  /** The eight bytes of a number below 2^64. */
  function Bytes8(n: nat): (s: seq<byte>)
    requires n < TWO64
    ensures |s| == 8
  {
    seq(8, i requires 0 <= i < 8 => Base256(n, 7 - i))
  }

  /** Digit `k` of a number in base 256. */
  function Base256(n: nat, k: nat): byte {
    ToByte(n / Pow256(k) % 256)
  }

  function Pow256(k: nat): (p: nat)
    ensures p > 0
  {
    if k == 0 then 1 else 256 * Pow256(k - 1)
  }

  /** The number of zero bytes between the marker byte and the length. */
  function ZeroCount(length: nat): (k: nat)
    ensures k < 64 && (length + 1 + k + 8) % 64 == 0
  {
    (119 - length % 64) % 64
  }

  /** The padded message; the length in bits fills the last eight bytes, which is all of it for every message that
      SHA-1 is defined for. */
  function Padded(message: seq<byte>): (s: seq<byte>)
    ensures |s| % 64 == 0
  {
    message + [0x80] + Zeros(ZeroCount(|message|)) + Bytes8(8 * |message| % TWO64)
  }

  const H0 := Vars(0x67452301, 0xEFCDAB89, 0x98BADCFE, 0x10325476, 0xC3D2E1F0)

  type BlockFunction = (Vars, seq<byte>) -> Vars

  /** The blocks of `data`, one after the other, through a function of a chaining value and a block. */
  function Absorb(f: BlockFunction, h: Vars, data: seq<byte>): Vars {
    if |data| < 64 then h
    else f(Absorb(f, h, data[..|data| - 64]), data[|data| - 64..])
  }

  function CompressBytes(h: Vars, block: seq<byte>): Vars {
    if |block| == 64 then Compress(h, Words(block)) else h
  }

  function Hash(message: seq<byte>): (digest: seq<byte>)
    ensures |digest| == 20
  {
    Digest(Absorb(CompressBytes, H0, Padded(message)))
  }

  /** Up to the limit of the standard the length field is the length. */
  lemma LengthFieldIsExact(message: seq<byte>)
    requires |message| < TWO61
    ensures 8 * |message| % TWO64 == 8 * |message|
  {
  }
}
