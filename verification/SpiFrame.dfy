/** The frames that a RED Brick and the slaves of its stack exchange over SPI. */
module SpiFrame {
  import opened Bytes
  import opened Wrappers
  import opened Pearson

  const PACKET_SIZE := 84
  const EMPTY_SIZE := 4
  const HEADER_SIZE := 8
  const MAX_PAYLOAD := 80
  const PREAMBLE: byte := 0xAA
  const MASTER_MASK: byte := 0x07
  const SLAVE_MASK: byte := 0x38

  /** An empty payload stands for a frame that only polls and acknowledges. */
  datatype Frame = Frame(master: byte, slave: byte, payload: seq<byte>)

  predicate Sequenced(master: byte, slave: byte) {
    master & MASTER_MASK == master && slave & SLAVE_MASK == slave
  }

  predicate LegalLength(n: int) {
    n == EMPTY_SIZE || EMPTY_SIZE + HEADER_SIZE <= n <= PACKET_SIZE
  }

  ghost predicate WellFormed(f: Frame) {
    Sequenced(f.master, f.slave) && LegalLength(|f.payload| + EMPTY_SIZE)
  }

  /** A frame of `n` bytes at the start of `rx` carries the right checksum. */
  predicate Checksummed(rx: seq<byte>, n: int)
    requires 4 <= n <= |rx|
  {
    Hash(Permutation, rx[..n - 1]) == rx[n - 1]
  }

  function Body(rx: seq<byte>, n: int): Frame
    requires 4 <= n <= |rx|
  {
    Frame(rx[n - 2] & MASTER_MASK, rx[n - 2] & SLAVE_MASK, rx[2..n - 2])
  }

  /** What a received buffer is taken for: a frame, or nothing if one of the three checks fails. */
  function Parsed(rx: seq<byte>): Option<Frame>
    requires |rx| == PACKET_SIZE
  {
    var n := Value(rx[1]);
    if rx[0] != PREAMBLE || !LegalLength(n) || !Checksummed(rx, n) then None
    else Some(Body(rx, n))
  }

  /** Everything the checksum covers. */
  function Covered(length: byte, payload: seq<byte>, info: byte): (s: seq<byte>)
    ensures |s| == |payload| + 3
  {
    [PREAMBLE, length] + payload + [info]
  }

  /** The 84 bytes on the wire. */
  function Wire(f: Frame): (s: seq<byte>)
    requires |f.payload| <= MAX_PAYLOAD
    ensures |s| == PACKET_SIZE
  {
    Assembled(ToByte(|f.payload| + EMPTY_SIZE), f)
  }

  function Assembled(length: byte, f: Frame): (s: seq<byte>)
    requires |f.payload| <= MAX_PAYLOAD
    ensures |s| == PACKET_SIZE
  {
    var covered := Covered(length, f.payload, f.master | f.slave);
    covered + [Hash(Permutation, covered)] + Zeros(MAX_PAYLOAD - |f.payload|)
  }

  lemma InfoByte(master: byte, slave: byte)
    requires Sequenced(master, slave)
    ensures (master | slave) & MASTER_MASK == master && (master | slave) & SLAVE_MASK == slave
  {
  }

  /** Where the parts of a frame lie in the buffer. */
  lemma Layout(length: byte, payload: seq<byte>, info: byte, checksum: byte, rest: seq<byte>)
    ensures var covered := Covered(length, payload, info);
            var rx := covered + [checksum] + rest;
            var n := |payload| + EMPTY_SIZE;
            && rx[0] == PREAMBLE && rx[1] == length
            && rx[..n - 1] == covered && rx[n - 1] == checksum
            && rx[n - 2] == info && rx[2..n - 2] == payload
  {
  }

  lemma LayoutIsChecked(f: Frame, length: byte, rest: seq<byte>)
    requires Sequenced(f.master, f.slave)
    ensures var covered := Covered(length, f.payload, f.master | f.slave);
            var rx := covered + [Hash(Permutation, covered)] + rest;
            var n := |f.payload| + EMPTY_SIZE;
            rx[0] == PREAMBLE && rx[1] == length && Checksummed(rx, n) && Body(rx, n) == f
  {
    Layout(length, f.payload, f.master | f.slave,
           Hash(Permutation, Covered(length, f.payload, f.master | f.slave)), rest);
    InfoByte(f.master, f.slave);
  }

  /** A frame is parsed if its length byte is right, whatever that byte looks like. */
  lemma AssembledParses(f: Frame, length: byte)
    requires WellFormed(f) && Value(length) == |f.payload| + EMPTY_SIZE
    ensures Parsed(Assembled(length, f)) == Some(f)
  {
    AssembledIsChecked(f, length, Assembled(length, f));
    PassesChecks(Assembled(length, f), |f.payload| + EMPTY_SIZE, f);
  }

  lemma AssembledIsChecked(f: Frame, length: byte, rx: seq<byte>)
    requires Sequenced(f.master, f.slave) && |f.payload| <= MAX_PAYLOAD && rx == Assembled(length, f)
    ensures var n := |f.payload| + EMPTY_SIZE;
            rx[0] == PREAMBLE && rx[1] == length && Checksummed(rx, n) && Body(rx, n) == f
  {
    LayoutIsChecked(f, length, Zeros(MAX_PAYLOAD - |f.payload|));
  }

  lemma PassesChecks(rx: seq<byte>, n: nat, f: Frame)
    requires |rx| == PACKET_SIZE && rx[0] == PREAMBLE && Value(rx[1]) == n && LegalLength(n)
    requires Checksummed(rx, n) && Body(rx, n) == f
    ensures Parsed(rx) == Some(f)
  {
  }

  /** Every frame survives the wire. */
  lemma WireRoundTrip(f: Frame)
    requires WellFormed(f)
    ensures Parsed(Wire(f)) == Some(f)
  {
    ToByteValue(|f.payload| + EMPTY_SIZE);
    AssembledParses(f, ToByte(|f.payload| + EMPTY_SIZE));
  }

  /** The 84 bytes on the wire: preamble 0xAA, length, payload, the two numbers in one byte, the hash of all that, and
      zeros. */
  lemma WireOnBytes(f: Frame)
    requires |f.payload| <= 80
    ensures var tx, n := Wire(f), |f.payload| + 4;
            && |tx| == 84 && tx[0] == 0xAA && Value(tx[1]) == n && tx[2..n - 2] == f.payload
            && tx[n - 2] == f.master | f.slave && tx[n - 1] == Hash(Permutation, tx[..n - 1])
            && forall i :: n <= i < 84 ==> tx[i] == 0
  {
    ToByteValue(|f.payload| + 4);
    AssembledOnBytes(f, ToByte(|f.payload| + 4), Wire(f));
  }

  lemma AssembledOnBytes(f: Frame, length: byte, tx: seq<byte>)
    requires |f.payload| <= 80 && tx == Assembled(length, f)
    ensures var n := |f.payload| + 4;
            && |tx| == 84 && tx[0] == 0xAA && tx[1] == length && tx[2..n - 2] == f.payload
            && tx[n - 2] == f.master | f.slave && tx[n - 1] == Hash(Permutation, tx[..n - 1])
            && forall i :: n <= i < 84 ==> tx[i] == 0
  {
    var covered := Covered(length, f.payload, f.master | f.slave);
    Layout(length, f.payload, f.master | f.slave, Hash(Permutation, covered), Zeros(80 - |f.payload|));
    ZeroTail(covered + [Hash(Permutation, covered)], 80 - |f.payload|);
  }

  lemma ZeroTail(s: seq<byte>, k: nat)
    ensures forall i :: |s| <= i < |s| + k ==> (s + Zeros(k))[i] == 0
  {
  }

  /** A buffer is taken for a frame if and only if it has the preamble, a length of 4 or of 12 to 84, and the right
      hash; the lower three bits of the byte before the hash are the master's number, the next three the slave's. */
  lemma ParsedOnBytes(rx: seq<byte>)
    requires |rx| == 84
    ensures var n := Value(rx[1]);
            if rx[0] == 0xAA && (n == 4 || 12 <= n <= 84) && rx[n - 1] == Hash(Permutation, rx[..n - 1])
            then Parsed(rx) == Some(Frame(rx[n - 2] & 0x07, rx[n - 2] & 0x38, rx[2..n - 2]))
            else Parsed(rx) == None
  {
  }

  lemma ChecksumDetects(rx: seq<byte>, rx': seq<byte>, n: int, k: int)
    requires 4 <= n <= |rx| && DifferOnlyAt(rx, rx', k) && k < n
    requires Checksummed(rx, n)
    ensures !Checksummed(rx', n)
  {
    if k == n - 1 {
      assert rx[..n - 1] == rx'[..n - 1];
    } else {
      assert DifferOnlyAt(rx[..n - 1], rx'[..n - 1], k);
      PermutationIsInjective();
      HashDetects(Permutation, Position, rx[..n - 1], rx'[..n - 1], k);
    }
  }

  lemma RestIgnored(rx: seq<byte>, rx': seq<byte>, n: int, k: int)
    requires 4 <= n <= |rx| && DifferOnlyAt(rx, rx', k) && n <= k
    ensures Checksummed(rx', n) == Checksummed(rx, n) && Body(rx', n) == Body(rx, n)
  {
    assert rx[..n - 1] == rx'[..n - 1];
    assert rx[2..n - 2] == rx'[2..n - 2];
  }

  /** Of a valid buffer, a change of a single byte other than the length byte is noticed exactly when the
      byte belongs to the frame; the bytes behind the frame do not matter. */
  lemma SingleByteCorruption(rx: seq<byte>, rx': seq<byte>, k: int)
    requires |rx| == PACKET_SIZE && Parsed(rx).Some?
    requires DifferOnlyAt(rx, rx', k) && k != 1
    ensures k < Value(rx[1]) ==> Parsed(rx') == None
    ensures k >= Value(rx[1]) ==> Parsed(rx') == Parsed(rx)
  {
    var n := Value(rx[1]);
    if k < n {
      ChecksumDetects(rx, rx', n, k);
    } else {
      RestIgnored(rx, rx', n, k);
    }
  }

  lemma SameButLength(info: byte, checksum: byte, h: byte)
    ensures var rx := Covered(4, [], info) + [checksum] + (Zeros(7) + [h] + Zeros(72));
            var rx' := Covered(12, [info, checksum] + Zeros(6), 0) + [h] + Zeros(72);
            |rx| == PACKET_SIZE && DifferOnlyAt(rx, rx', 1)
  {
  }

  lemma TwoLengths()
    ensures Value(4) == 4 && Value(12) == 12
  {
  }

  /** The length byte is an exception: behind every empty frame there can be bytes that make it pass for a longer frame
      once its length byte is changed. */
  lemma LengthByteUnprotected(f: Frame) returns (rx: seq<byte>, rx': seq<byte>)
    requires WellFormed(f) && f.payload == []
    ensures |rx| == PACKET_SIZE && DifferOnlyAt(rx, rx', 1)
    ensures Parsed(rx) == Some(f) && Parsed(rx').Some? && Parsed(rx') != Parsed(rx)
  {
    var info := f.master | f.slave;
    var checksum := Hash(Permutation, Covered(4, [], info));
    var longer := Frame(0, 0, [info, checksum] + Zeros(6));
    var h := Hash(Permutation, Covered(12, longer.payload, 0));
    rx := Covered(4, [], info) + [checksum] + (Zeros(7) + [h] + Zeros(72));
    rx' := Covered(12, longer.payload, 0) + [h] + Zeros(72);
    SameButLength(info, checksum, h);
    TwoLengths();
    LayoutIsChecked(f, 4, Zeros(7) + [h] + Zeros(72));
    LayoutIsChecked(longer, 12, Zeros(72));
  }
}
