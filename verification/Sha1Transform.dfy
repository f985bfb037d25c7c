/** The unrolled block transformation, on a circular array of sixteen words, against the definition with eighty. */
module Sha1Transform {
  import opened Bytes
  import opened Sha1Spec

  // ----- the round functions as the source writes them

  lemma ChooseIsCh(w: word, x: word, y: word)
    ensures (w & (x ^ y)) ^ y == Ch(w, x, y)
  {
  }

  lemma MajorityIsMaj(w: word, x: word, y: word)
    ensures ((w | x) & y) | (w & x) == Maj(w, x, y)
  {
  }

  lemma SumIs(z: word, f: word, blk: word, k: word, v5: word)
    ensures z + (f + blk + k + v5) == Sum(v5, f, z, k, blk)
  {
  }

  // ----- what the array and the five variables hold before round `t`

  /** After the first sixteen rounds the array holds the last sixteen words of the schedule; before, the words not
      used yet are still in the byte order of the host. */
  ghost predicate Window(block: seq<word>, raw: seq<word>, m: Block, t: nat) {
    && |block| == |raw| == 16
    && (forall k: nat :: t - 16 <= k < t ==> block[k % 16] == W(m, k))
    && (forall k: nat :: t <= k < 16 ==> block[k] == raw[k])
  }

  /** What stays fixed during the rounds: the chaining value, the block, and the block as the host reads it. */
  datatype Input = Input(h: Vars, m: Block, raw: seq<word>)

  /** Before round `t` the working variables are those of the definition and the array holds the right words. */
  ghost predicate Before(t: nat, v: Vars, block: seq<word>, c: Input) {
    v == Rounds(c.h, c.m, t) && Window(block, c.raw, c.m, t)
  }

  type Progress = (nat, Vars, seq<word>) -> bool

  /** `p` is `Before`, under a name that the long chains of rounds need not look behind. */
  ghost predicate Tracks(p: Progress, c: Input) {
    forall t, v, block {:trigger Before(t, v, block, c)} :: p(t, v, block) == Before(t, v, block, c)
  }

  function Htonl(little: bool, x: word): word {
    if little then (x << 24) | ((x << 8) & 0x00FF0000) | ((x >> 8) & 0x0000FF00) | (x >> 24) else x
  }

  ghost predicate HostOrder(little: bool, c: Input) {
    && |c.raw| == 16
    && forall k :: 0 <= k < 16 ==> Htonl(little, c.raw[k]) == c.m[k]
  }

  lemma RoundStep(t: nat, v: word, w: word, x: word, y: word, z: word, f: word, k: word, blk: word, h: Vars, m: Block)
    requires Vars(v, w, x, y, z) == Rounds(h, m, t)
    requires f == F(t, w, x, y) && k == K(t) && blk == W(m, t)
    ensures Next(Vars(v, w, x, y, z), Rotl5(v), f, k, blk, Rotl30(w)) == Rounds(h, m, t + 1)
  {
  }

  /** The first sixteen words are converted when they are used. */
  method Blk0(block: array<word>, i: nat, little: bool, ghost c: Input) returns (w: word)
    requires i < 16 && HostOrder(little, c) && Window(block[..], c.raw, c.m, i)
    modifies block
    ensures w == W(c.m, i) && Window(block[..], c.raw, c.m, i + 1)
  {
    w := Htonl(little, block[i]);
    block[i] := w;
  }

  /** The word that sits `back` places behind round `t`. */
  lemma WindowAt(block: seq<word>, raw: seq<word>, m: Block, t: nat, back: nat)
    requires Window(block, raw, m, t) && 16 <= t && 1 <= back <= 16
    ensures block[(t + 16 - back) % 16] == W(m, t - back)
  {
    var k: nat := t - back;
    assert (t + 16 - back) % 16 == k % 16;
  }

  /** Words less than sixteen rounds apart lie in different places. */
  lemma PlacesDiffer(k: nat, t: nat)
    requires k < t < k + 16
    ensures k % 16 != t % 16
  {
  }

  lemma WindowSlides(block: seq<word>, raw: seq<word>, m: Block, t: nat, w: word)
    requires Window(block, raw, m, t) && 16 <= t && w == W(m, t)
    ensures Window(block[t % 16 := w], raw, m, t + 1)
  {
    forall k: nat | t + 1 - 16 <= k < t + 1
      ensures block[t % 16 := w][k % 16] == W(m, k)
    {
      if k < t {
        PlacesDiffer(k, t);
      }
    }
  }

  lemma WordFromWindow(block: seq<word>, raw: seq<word>, m: Block, i: nat)
    requires 16 <= i && Window(block, raw, m, i)
    ensures Rotl1(block[(i + 13) % 16] ^ block[(i + 8) % 16] ^ block[(i + 2) % 16] ^ block[i % 16]) == W(m, i)
  {
    WindowAt(block, raw, m, i, 3);
    WindowAt(block, raw, m, i, 8);
    WindowAt(block, raw, m, i, 14);
    WindowAt(block, raw, m, i, 16);
  }

  /** Each later word overwrites the one that is no longer needed. */
  method Blk(block: array<word>, i: nat, ghost c: Input) returns (w: word)
    requires 16 <= i && Window(block[..], c.raw, c.m, i)
    modifies block
    ensures w == W(c.m, i) && Window(block[..], c.raw, c.m, i + 1)
  {
    ghost var b := block[..];
    WordFromWindow(b, c.raw, c.m, i);
    w := Rotl1(block[(i + 13) % 16] ^ block[(i + 8) % 16] ^ block[(i + 2) % 16] ^ block[i % 16]);
    WindowSlides(b, c.raw, c.m, i, w);
    block[i % 16] := w;
    assert block[..] == b[i % 16 := w];
  }

  method Mixed(v: word, w: word, x: word, y: word, z: word, f: word, k: word, blk: word) returns (w': word, z': word)
    ensures Vars(z', v, w', x, y) == Next(Vars(v, w, x, y, z), Rotl5(v), f, k, blk, Rotl30(w))
  {
    var v5 := Rotl5(v);
    SumIs(z, f, blk, k, v5);
    z' := z + (f + blk + k + v5);
    w' := Rotl30(w);
  }

  // ----- the five kinds of rounds: `z` and `w` change, and the next round starts one name further

  method R0(v: word, w: word, x: word, y: word, z: word, block: array<word>, i: nat, little: bool,
            ghost p: Progress, ghost c: Input)
    returns (w': word, z': word)
    requires i < 16 && HostOrder(little, c) && Tracks(p, c) && p(i, Vars(v, w, x, y, z), block[..])
    modifies block
    ensures p(i + 1, Vars(z', v, w', x, y), block[..])
  {
    assert Before(i, Vars(v, w, x, y, z), block[..], c);
    var blk := Blk0(block, i, little, c);
    var f := (w & (x ^ y)) ^ y;
    ChooseIsCh(w, x, y);
    w', z' := Mixed(v, w, x, y, z, f, 0x5A827999, blk);
    RoundStep(i, v, w, x, y, z, f, 0x5A827999, blk, c.h, c.m);
    assert Before(i + 1, Vars(z', v, w', x, y), block[..], c);
  }

  method R1(v: word, w: word, x: word, y: word, z: word, block: array<word>, i: nat, ghost p: Progress, ghost c: Input)
    returns (w': word, z': word)
    requires 16 <= i < 20 && Tracks(p, c) && p(i, Vars(v, w, x, y, z), block[..])
    modifies block
    ensures p(i + 1, Vars(z', v, w', x, y), block[..])
  {
    assert Before(i, Vars(v, w, x, y, z), block[..], c);
    var blk := Blk(block, i, c);
    var f := (w & (x ^ y)) ^ y;
    ChooseIsCh(w, x, y);
    w', z' := Mixed(v, w, x, y, z, f, 0x5A827999, blk);
    RoundStep(i, v, w, x, y, z, f, 0x5A827999, blk, c.h, c.m);
    assert Before(i + 1, Vars(z', v, w', x, y), block[..], c);
  }

  method R2(v: word, w: word, x: word, y: word, z: word, block: array<word>, i: nat, ghost p: Progress, ghost c: Input)
    returns (w': word, z': word)
    requires 20 <= i < 40 && Tracks(p, c) && p(i, Vars(v, w, x, y, z), block[..])
    modifies block
    ensures p(i + 1, Vars(z', v, w', x, y), block[..])
  {
    assert Before(i, Vars(v, w, x, y, z), block[..], c);
    var blk := Blk(block, i, c);
    var f := w ^ x ^ y;
    w', z' := Mixed(v, w, x, y, z, f, 0x6ED9EBA1, blk);
    RoundStep(i, v, w, x, y, z, f, 0x6ED9EBA1, blk, c.h, c.m);
    assert Before(i + 1, Vars(z', v, w', x, y), block[..], c);
  }

  method R3(v: word, w: word, x: word, y: word, z: word, block: array<word>, i: nat, ghost p: Progress, ghost c: Input)
    returns (w': word, z': word)
    requires 40 <= i < 60 && Tracks(p, c) && p(i, Vars(v, w, x, y, z), block[..])
    modifies block
    ensures p(i + 1, Vars(z', v, w', x, y), block[..])
  {
    assert Before(i, Vars(v, w, x, y, z), block[..], c);
    var blk := Blk(block, i, c);
    var f := ((w | x) & y) | (w & x);
    MajorityIsMaj(w, x, y);
    w', z' := Mixed(v, w, x, y, z, f, 0x8F1BBCDC, blk);
    RoundStep(i, v, w, x, y, z, f, 0x8F1BBCDC, blk, c.h, c.m);
    assert Before(i + 1, Vars(z', v, w', x, y), block[..], c);
  }

  method R4(v: word, w: word, x: word, y: word, z: word, block: array<word>, i: nat, ghost p: Progress, ghost c: Input)
    returns (w': word, z': word)
    requires 60 <= i < 80 && Tracks(p, c) && p(i, Vars(v, w, x, y, z), block[..])
    modifies block
    ensures p(i + 1, Vars(z', v, w', x, y), block[..])
  {
    assert Before(i, Vars(v, w, x, y, z), block[..], c);
    var blk := Blk(block, i, c);
    var f := w ^ x ^ y;
    w', z' := Mixed(v, w, x, y, z, f, 0xCA62C1D6, blk);
    RoundStep(i, v, w, x, y, z, f, 0xCA62C1D6, blk, c.h, c.m);
    assert Before(i + 1, Vars(z', v, w', x, y), block[..], c);
  }

  method Rounds0(h: Vars, block: array<word>, little: bool, ghost p: Progress, ghost input: Input)
    returns (a: word, b: word, c: word, d: word, e: word)
    requires HostOrder(little, input) && Tracks(p, input) && p(0, h, block[..])
    modifies block
    ensures p(10, Vars(a, b, c, d, e), block[..])
  {
    a, b, c, d, e := h.a, h.b, h.c, h.d, h.e;
    b, e := R0(a, b, c, d, e, block, 0, little, p, input);
    a, d := R0(e, a, b, c, d, block, 1, little, p, input);
    e, c := R0(d, e, a, b, c, block, 2, little, p, input);
    d, b := R0(c, d, e, a, b, block, 3, little, p, input);
    c, a := R0(b, c, d, e, a, block, 4, little, p, input);
    b, e := R0(a, b, c, d, e, block, 5, little, p, input);
    a, d := R0(e, a, b, c, d, block, 6, little, p, input);
    e, c := R0(d, e, a, b, c, block, 7, little, p, input);
    d, b := R0(c, d, e, a, b, block, 8, little, p, input);
    c, a := R0(b, c, d, e, a, block, 9, little, p, input);
  }

  method Rounds10(h: Vars, block: array<word>, little: bool, ghost p: Progress, ghost input: Input)
    returns (a: word, b: word, c: word, d: word, e: word)
    requires HostOrder(little, input) && Tracks(p, input) && p(10, h, block[..])
    modifies block
    ensures p(20, Vars(a, b, c, d, e), block[..])
  {
    a, b, c, d, e := h.a, h.b, h.c, h.d, h.e;
    b, e := R0(a, b, c, d, e, block, 10, little, p, input);
    a, d := R0(e, a, b, c, d, block, 11, little, p, input);
    e, c := R0(d, e, a, b, c, block, 12, little, p, input);
    d, b := R0(c, d, e, a, b, block, 13, little, p, input);
    c, a := R0(b, c, d, e, a, block, 14, little, p, input);
    b, e := R0(a, b, c, d, e, block, 15, little, p, input);
    a, d := R1(e, a, b, c, d, block, 16, p, input);
    e, c := R1(d, e, a, b, c, block, 17, p, input);
    d, b := R1(c, d, e, a, b, block, 18, p, input);
    c, a := R1(b, c, d, e, a, block, 19, p, input);
  }

  method Rounds20(h: Vars, block: array<word>, ghost p: Progress, ghost input: Input)
    returns (a: word, b: word, c: word, d: word, e: word)
    requires Tracks(p, input) && p(20, h, block[..])
    modifies block
    ensures p(30, Vars(a, b, c, d, e), block[..])
  {
    a, b, c, d, e := h.a, h.b, h.c, h.d, h.e;
    b, e := R2(a, b, c, d, e, block, 20, p, input);
    a, d := R2(e, a, b, c, d, block, 21, p, input);
    e, c := R2(d, e, a, b, c, block, 22, p, input);
    d, b := R2(c, d, e, a, b, block, 23, p, input);
    c, a := R2(b, c, d, e, a, block, 24, p, input);
    b, e := R2(a, b, c, d, e, block, 25, p, input);
    a, d := R2(e, a, b, c, d, block, 26, p, input);
    e, c := R2(d, e, a, b, c, block, 27, p, input);
    d, b := R2(c, d, e, a, b, block, 28, p, input);
    c, a := R2(b, c, d, e, a, block, 29, p, input);
  }

  method Rounds30(h: Vars, block: array<word>, ghost p: Progress, ghost input: Input)
    returns (a: word, b: word, c: word, d: word, e: word)
    requires Tracks(p, input) && p(30, h, block[..])
    modifies block
    ensures p(40, Vars(a, b, c, d, e), block[..])
  {
    a, b, c, d, e := h.a, h.b, h.c, h.d, h.e;
    b, e := R2(a, b, c, d, e, block, 30, p, input);
    a, d := R2(e, a, b, c, d, block, 31, p, input);
    e, c := R2(d, e, a, b, c, block, 32, p, input);
    d, b := R2(c, d, e, a, b, block, 33, p, input);
    c, a := R2(b, c, d, e, a, block, 34, p, input);
    b, e := R2(a, b, c, d, e, block, 35, p, input);
    a, d := R2(e, a, b, c, d, block, 36, p, input);
    e, c := R2(d, e, a, b, c, block, 37, p, input);
    d, b := R2(c, d, e, a, b, block, 38, p, input);
    c, a := R2(b, c, d, e, a, block, 39, p, input);
  }

  method Rounds40(h: Vars, block: array<word>, ghost p: Progress, ghost input: Input)
    returns (a: word, b: word, c: word, d: word, e: word)
    requires Tracks(p, input) && p(40, h, block[..])
    modifies block
    ensures p(50, Vars(a, b, c, d, e), block[..])
  {
    a, b, c, d, e := h.a, h.b, h.c, h.d, h.e;
    b, e := R3(a, b, c, d, e, block, 40, p, input);
    a, d := R3(e, a, b, c, d, block, 41, p, input);
    e, c := R3(d, e, a, b, c, block, 42, p, input);
    d, b := R3(c, d, e, a, b, block, 43, p, input);
    c, a := R3(b, c, d, e, a, block, 44, p, input);
    b, e := R3(a, b, c, d, e, block, 45, p, input);
    a, d := R3(e, a, b, c, d, block, 46, p, input);
    e, c := R3(d, e, a, b, c, block, 47, p, input);
    d, b := R3(c, d, e, a, b, block, 48, p, input);
    c, a := R3(b, c, d, e, a, block, 49, p, input);
  }

  method Rounds50(h: Vars, block: array<word>, ghost p: Progress, ghost input: Input)
    returns (a: word, b: word, c: word, d: word, e: word)
    requires Tracks(p, input) && p(50, h, block[..])
    modifies block
    ensures p(60, Vars(a, b, c, d, e), block[..])
  {
    a, b, c, d, e := h.a, h.b, h.c, h.d, h.e;
    b, e := R3(a, b, c, d, e, block, 50, p, input);
    a, d := R3(e, a, b, c, d, block, 51, p, input);
    e, c := R3(d, e, a, b, c, block, 52, p, input);
    d, b := R3(c, d, e, a, b, block, 53, p, input);
    c, a := R3(b, c, d, e, a, block, 54, p, input);
    b, e := R3(a, b, c, d, e, block, 55, p, input);
    a, d := R3(e, a, b, c, d, block, 56, p, input);
    e, c := R3(d, e, a, b, c, block, 57, p, input);
    d, b := R3(c, d, e, a, b, block, 58, p, input);
    c, a := R3(b, c, d, e, a, block, 59, p, input);
  }

  method Rounds60(h: Vars, block: array<word>, ghost p: Progress, ghost input: Input)
    returns (a: word, b: word, c: word, d: word, e: word)
    requires Tracks(p, input) && p(60, h, block[..])
    modifies block
    ensures p(70, Vars(a, b, c, d, e), block[..])
  {
    a, b, c, d, e := h.a, h.b, h.c, h.d, h.e;
    b, e := R4(a, b, c, d, e, block, 60, p, input);
    a, d := R4(e, a, b, c, d, block, 61, p, input);
    e, c := R4(d, e, a, b, c, block, 62, p, input);
    d, b := R4(c, d, e, a, b, block, 63, p, input);
    c, a := R4(b, c, d, e, a, block, 64, p, input);
    b, e := R4(a, b, c, d, e, block, 65, p, input);
    a, d := R4(e, a, b, c, d, block, 66, p, input);
    e, c := R4(d, e, a, b, c, block, 67, p, input);
    d, b := R4(c, d, e, a, b, block, 68, p, input);
    c, a := R4(b, c, d, e, a, block, 69, p, input);
  }

  method Rounds70(h: Vars, block: array<word>, ghost p: Progress, ghost input: Input)
    returns (a: word, b: word, c: word, d: word, e: word)
    requires Tracks(p, input) && p(70, h, block[..])
    modifies block
    ensures p(80, Vars(a, b, c, d, e), block[..])
  {
    a, b, c, d, e := h.a, h.b, h.c, h.d, h.e;
    b, e := R4(a, b, c, d, e, block, 70, p, input);
    a, d := R4(e, a, b, c, d, block, 71, p, input);
    e, c := R4(d, e, a, b, c, block, 72, p, input);
    d, b := R4(c, d, e, a, b, block, 73, p, input);
    c, a := R4(b, c, d, e, a, block, 74, p, input);
    b, e := R4(a, b, c, d, e, block, 75, p, input);
    a, d := R4(e, a, b, c, d, block, 76, p, input);
    e, c := R4(d, e, a, b, c, block, 77, p, input);
    d, b := R4(c, d, e, a, b, block, 78, p, input);
    c, a := R4(b, c, d, e, a, block, 79, p, input);
  }

  /** A word as the host reads it from memory. */
  function HostWord(little: bool, b0: byte, b1: byte, b2: byte, b3: byte): word {
    if little then BigEndian(b3, b2, b1, b0) else BigEndian(b0, b1, b2, b3)
  }

  lemma HtonlIsBigEndian(little: bool, b0: byte, b1: byte, b2: byte, b3: byte)
    ensures Htonl(little, HostWord(little, b0, b1, b2, b3)) == BigEndian(b0, b1, b2, b3)
  {
  }

  method LoadBlock(data: seq<byte>, little: bool) returns (block: array<word>, ghost raw: seq<word>)
    requires |data| == 64
    ensures fresh(block) && block[..] == raw && |raw| == 16
    ensures forall k :: 0 <= k < 16 ==> Htonl(little, raw[k]) == Words(data)[k]
  {
    block := new word[16](i requires 0 <= i < 16 =>
                            HostWord(little, data[4 * i], data[4 * i + 1], data[4 * i + 2], data[4 * i + 3]));
    raw := block[..];
    forall k | 0 <= k < 16
      ensures Htonl(little, raw[k]) == Words(data)[k]
    {
      HtonlIsBigEndian(little, data[4 * k], data[4 * k + 1], data[4 * k + 2], data[4 * k + 3]);
    }
  }

  /** The compression of one block, on a host of either byte order. */
  method Transform(h: Vars, data: seq<byte>, little: bool) returns (h': Vars)
    requires |data| == 64
    ensures h' == Compress(h, Words(data))
  {
    var block, raw := LoadBlock(data, little);
    h' := CompressLoaded(h, block, little, Input(h, Words(data), raw));
  }

  method CompressLoaded(h: Vars, block: array<word>, little: bool, ghost input: Input) returns (h': Vars)
    requires input.h == h && input.raw == block[..] && HostOrder(little, input)
    modifies block
    ensures h' == Compress(h, input.m)
  {
    var v := AllRounds(h, block, little, input);
    h' := Plus(h, v);
  }

  method AllRounds(h: Vars, block: array<word>, little: bool, ghost input: Input) returns (v: Vars)
    requires input.h == h && input.raw == block[..] && HostOrder(little, input)
    modifies block
    ensures v == Rounds(h, input.m, 80)
  {
    ghost var p: Progress := (t: nat, u: Vars, s: seq<word>) => Before(t, u, s, input);
    assert Before(0, h, block[..], input);
    var a, b, c, d, e := Rounds0(h, block, little, p, input);
    a, b, c, d, e := Rounds10(Vars(a, b, c, d, e), block, little, p, input);
    a, b, c, d, e := Rounds20(Vars(a, b, c, d, e), block, p, input);
    a, b, c, d, e := Rounds30(Vars(a, b, c, d, e), block, p, input);
    a, b, c, d, e := Rounds40(Vars(a, b, c, d, e), block, p, input);
    a, b, c, d, e := Rounds50(Vars(a, b, c, d, e), block, p, input);
    a, b, c, d, e := Rounds60(Vars(a, b, c, d, e), block, p, input);
    a, b, c, d, e := Rounds70(Vars(a, b, c, d, e), block, p, input);
    v := Vars(a, b, c, d, e);
    assert Before(80, v, block[..], input);
  }
}
