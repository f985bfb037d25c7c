/** Bytes as the C sources see them, and the few conversions the other modules share. */
module Bytes {
  type byte = bv8

  /** The value of a byte as a number. */
  function Value(b: byte): (n: nat)
    ensures n < 256
  {
    16 * NibbleValue(b >> 4) + NibbleValue(b & 15)
  }

  function NibbleValue(b: byte): (n: nat)
    ensures n < 16
  {
    (if b & 8 == 0 then 0 else 8) + (if b & 4 == 0 then 0 else 4) +
    (if b & 2 == 0 then 0 else 2) + (if b & 1 == 0 then 0 else 1)
  }

  /** The byte of a given value. */
  function ToByte(n: int): byte
    requires 0 <= n < 256
  {
    (ToNibble(n / 16) << 4) | ToNibble(n % 16)
  }

  function ToNibble(n: int): (b: byte)
    requires 0 <= n < 16
    ensures b < 16 && NibbleValue(b) == n
  {
    (if n / 8 % 2 == 0 then 0 else 8) | (if n / 4 % 2 == 0 then 0 else 4) |
    (if n / 2 % 2 == 0 then 0 else 2) | (if n % 2 == 0 then 0 else 1)
  }

  lemma NibblesOf(h: byte, l: byte)
    requires h < 16 && l < 16
    ensures ((h << 4) | l) >> 4 == h && ((h << 4) | l) & 15 == l
  {
  }

  lemma ToByteValue(n: int)
    requires 0 <= n < 256
    ensures Value(ToByte(n)) == n
  {
    NibblesOf(ToNibble(n / 16), ToNibble(n % 16));
  }

  /** The pieces of a message, one after the other. */
  function Concatenated(pieces: seq<seq<byte>>): seq<byte> {
    if pieces == [] then [] else Concatenated(pieces[..|pieces| - 1]) + pieces[|pieces| - 1]
  }

  function Zeros(n: nat): (s: seq<byte>)
    ensures |s| == n && forall i :: 0 <= i < n ==> s[i] == 0
  {
    seq(n, _ => 0)
  }
}

module Wrappers {
  datatype Option<+T> = None | Some(value: T)
}
