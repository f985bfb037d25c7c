/** The CRC-16 of the RS485 link: two lookup tables against the bit-by-bit definition of
    section 6.2.2 of the MODBUS over Serial Line guide V1.02. */
module Crc16 {
  import opened Bytes

  // ----- the definition: a 16-bit register, polynomial 0xA001, start value 0xFFFF

  function Xor(a: bv16, b: bv16): bv16 { a ^ b }

  function Half(reg: bv16): bv16 { reg >> 1 }

  /** What is added when the lowest bit has been shifted out. */
  function Feedback(reg: bv16): bv16 { if reg & 1 == 1 then 0xA001 else 0 }

  function ShiftBit(reg: bv16): bv16 {
    Xor(Half(reg), Feedback(reg))
  }

  function EightTimes<T>(f: T -> T, x: T): T { f(f(f(f(f(f(f(f(x)))))))) }

  function ShiftByte(reg: bv16): bv16 {
    EightTimes(ShiftBit, reg)
  }

  function Modbus(data: seq<byte>): bv16 {
    if data == [] then 0xFFFF
    else ModbusStep(Modbus(data[..|data| - 1]), data[|data| - 1])
  }

  function ModbusStep(reg: bv16, b: byte): bv16 {
    ShiftByte(reg ^ (b as bv16))
  }

  /** A register with its two bytes exchanged. */
  function Swapped(reg: bv16): bv16 {
    (reg << 8) | (reg >> 8)
  }

  // ----- the tables, each row holding sixteen consecutive entries, first entry leftmost

  function TableHi(i: byte): byte {
    var row: bv128 :=
      if i < 16 then 0x00C18140_01C08041_01C08041_00C18140 else
      if i < 32 then 0x01C08041_00C18140_00C18140_01C08041 else
      if i < 48 then 0x01C08041_00C18140_00C18140_01C08041 else
      if i < 64 then 0x00C18140_01C08041_01C08041_00C18140 else
      if i < 80 then 0x01C08041_00C18140_00C18140_01C08041 else
      if i < 96 then 0x00C18140_01C08041_01C08041_00C18140 else
      if i < 112 then 0x00C18140_01C08041_01C08041_00C18140 else
      if i < 128 then 0x01C08041_00C18140_00C18140_01C08041 else
      if i < 144 then 0x01C08041_00C18140_00C18140_01C08041 else
      if i < 160 then 0x00C18140_01C08041_01C08041_00C18140 else
      if i < 176 then 0x00C18140_01C08041_01C08041_00C18140 else
      if i < 192 then 0x01C08041_00C18140_00C18140_01C08041 else
      if i < 208 then 0x00C18140_01C08041_01C08041_00C18140 else
      if i < 224 then 0x01C08041_00C18140_00C18140_01C08041 else
      if i < 240 then 0x01C08041_00C18140_00C18140_01C08041 else
      0x00C18140_01C08041_01C08041_00C18140;
    ((row >> (8 * (15 - (i & 15)))) & 0xFF) as byte
  }

  function TableLo(i: byte): byte {
    var row: bv128 :=
      if i < 16 then 0x00C0C101_C30302C2_C60607C7_05C5C404 else
      if i < 32 then 0xCC0C0DCD_0FCFCE0E_0ACACB0B_C90908C8 else
      if i < 48 then 0xD81819D9_1BDBDA1A_1EDEDF1F_DD1D1CDC else
      if i < 64 then 0x14D4D515_D71716D6_D21213D3_11D1D010 else
      if i < 80 then 0xF03031F1_33F3F232_36F6F737_F53534F4 else
      if i < 96 then 0x3CFCFD3D_FF3F3EFE_FA3A3BFB_39F9F838 else
      if i < 112 then 0x28E8E929_EB2B2AEA_EE2E2FEF_2DEDEC2C else
      if i < 128 then 0xE42425E5_27E7E626_22E2E323_E12120E0 else
      if i < 144 then 0xA06061A1_63A3A262_66A6A767_A56564A4 else
      if i < 160 then 0x6CACAD6D_AF6F6EAE_AA6A6BAB_69A9A868 else
      if i < 176 then 0x78B8B979_BB7B7ABA_BE7E7FBF_7DBDBC7C else
      if i < 192 then 0xB47475B5_77B7B676_72B2B373_B17170B0 else
      if i < 208 then 0x50909151_93535292_96565797_55959454 else
      if i < 224 then 0x9C5C5D9D_5F9F9E5E_5A9A9B5B_99595898 else
      if i < 240 then 0x88484989_4B8B8A4A_4E8E8F4F_8D4D4C8C else
      0x44848545_87474686_82424383_41818040;
    ((row >> (8 * (15 - (i & 15)))) & 0xFF) as byte
  }

  function Register(hi: byte, lo: byte): bv16 {
    ((lo as bv16) << 8) | (hi as bv16)
  }

  // ----- everything here is additive: shifting, the tables, and how a register is put together

  ghost predicate Adds<T(!new)>(f: T -> T, plus: (T, T) -> T) {
    forall a, b :: f(plus(a, b)) == plus(f(a), f(b))
  }

  lemma EightAdd<T(!new)>(f: T -> T, plus: (T, T) -> T, a: T, b: T)
    requires Adds(f, plus)
    ensures EightTimes(f, plus(a, b)) == plus(EightTimes(f, a), EightTimes(f, b))
  {
  }

  ghost predicate Exchanges<T(!new)>(plus: (T, T) -> T) {
    forall a, b, c, d :: plus(plus(a, b), plus(c, d)) == plus(plus(a, c), plus(b, d))
  }

  lemma SumAdds<T(!new)>(f: T -> T, g: T -> T, plus: (T, T) -> T, a: T, b: T)
    requires Adds(f, plus) && Adds(g, plus) && Exchanges(plus)
    ensures plus(f(plus(a, b)), g(plus(a, b))) == plus(plus(f(a), g(a)), plus(f(b), g(b)))
  {
  }

  lemma HalfAdds()
    ensures Adds(Half, Xor)
  {
  }

  lemma FeedbackAdds()
    ensures Adds(Feedback, Xor)
  {
  }

  ghost predicate Commutes<T(!new)>(plus: (T, T) -> T) {
    forall a, b :: plus(a, b) == plus(b, a)
  }

  ghost predicate Associates<T(!new)>(plus: (T, T) -> T) {
    forall a, b, c :: plus(plus(a, b), c) == plus(a, plus(b, c))
  }

  lemma XorCommutes()
    ensures Commutes(Xor)
  {
  }

  lemma XorAssociates()
    ensures Associates(Xor)
  {
  }

  lemma GroupExchanges<T(!new)>(plus: (T, T) -> T)
    requires Commutes(plus) && Associates(plus)
    ensures Exchanges(plus)
  {
    forall a, b, c, d
      ensures plus(plus(a, b), plus(c, d)) == plus(plus(a, c), plus(b, d))
    {
      assert plus(plus(a, b), plus(c, d)) == plus(a, plus(b, plus(c, d))) == plus(a, plus(plus(b, c), d));
      assert plus(plus(a, c), plus(b, d)) == plus(a, plus(c, plus(b, d))) == plus(a, plus(plus(c, b), d));
    }
  }

  lemma XorExchanges()
    ensures Exchanges(Xor)
  {
    XorCommutes();
    XorAssociates();
    GroupExchanges(Xor);
  }

  lemma BitAdds()
    ensures Adds(ShiftBit, Xor)
  {
    HalfAdds();
    FeedbackAdds();
    XorExchanges();
    forall a: bv16, b: bv16
      ensures ShiftBit(Xor(a, b)) == Xor(ShiftBit(a), ShiftBit(b))
    {
      SumAdds(Half, Feedback, Xor, a, b);
    }
  }

  lemma ByteAdds()
    ensures Adds(ShiftByte, Xor)
  {
    BitAdds();
    forall a: bv16, b: bv16
      ensures ShiftByte(Xor(a, b)) == Xor(ShiftByte(a), ShiftByte(b))
    {
      EightAdd(ShiftBit, Xor, a, b);
    }
  }

  /** Eight shifts of a register make a pair of bytes. */
  predicate LooksUp(shift: bv16 -> bv16, reg: bv16, th: byte, tl: byte) {
    shift(reg) == Register(th, tl)
  }

  lemma RegisterAdds(th: byte, tl: byte, th': byte, tl': byte)
    ensures Xor(Register(th, tl), Register(th', tl')) == Register(th ^ th', tl ^ tl')
  {
  }

  /** What two registers make adds up. */
  lemma LooksUpBoth(shift: bv16 -> bv16, a: bv16, b: bv16, th: byte, tl: byte, th': byte, tl': byte)
    requires Adds(shift, Xor) && LooksUp(shift, a, th, tl) && LooksUp(shift, b, th', tl')
    ensures LooksUp(shift, Xor(a, b), th ^ th', tl ^ tl')
  {
    RegisterAdds(th, tl, th', tl');
  }

  // ----- the tables

  lemma HiAdds(i: byte)
    ensures TableHi(i) == TableHi(i & 0xF0) ^ TableHi(i & 0x0F)
  {
  }

  lemma LoAdds(i: byte)
    ensures TableLo(i) == TableLo(i & 0xF0) ^ TableLo(i & 0x0F)
  {
  }

  lemma HighNibbles(i: byte)
    ensures LooksUp(ShiftByte, (i & 0xF0) as bv16, TableHi(i & 0xF0), TableLo(i & 0xF0))
  {
  }

  lemma LowNibbles(i: byte)
    ensures LooksUp(ShiftByte, (i & 0x0F) as bv16, TableHi(i & 0x0F), TableLo(i & 0x0F))
  {
  }

  lemma NibblesAdd(i: byte)
    ensures i as bv16 == Xor((i & 0xF0) as bv16, (i & 0x0F) as bv16)
  {
  }

  /** The entries of its two nibbles make the entry of a byte. */
  lemma EntryOfNibbles(shift: bv16 -> bv16, i: byte)
    requires Adds(shift, Xor)
    requires LooksUp(shift, (i & 0xF0) as bv16, TableHi(i & 0xF0), TableLo(i & 0xF0))
    requires LooksUp(shift, (i & 0x0F) as bv16, TableHi(i & 0x0F), TableLo(i & 0x0F))
    ensures LooksUp(shift, i as bv16, TableHi(i), TableLo(i))
  {
    var h, l := i & 0xF0, i & 0x0F;
    HiAdds(i);
    LoAdds(i);
    NibblesAdd(i);
    LooksUpBoth(shift, h as bv16, l as bv16, TableHi(h), TableLo(h), TableHi(l), TableLo(l));
  }

  /** Entry `i` of the tables is what eight shifts make of `i`. */
  lemma TablesAreShifts(i: byte)
    ensures LooksUp(ShiftByte, i as bv16, TableHi(i), TableLo(i))
  {
    ByteAdds();
    HighNibbles(i);
    LowNibbles(i);
    EntryOfNibbles(ShiftByte, i);
  }

  /** Shifting out the low byte brings the high byte down unchanged. */
  lemma HighByteComesDown(y: byte)
    ensures LooksUp(ShiftByte, (y as bv16) << 8, y, 0)
  {
  }

  lemma RegisterXor(hi: byte, lo: byte, b: byte)
    ensures Register(hi, lo) ^ (b as bv16) == Xor((hi ^ b) as bv16, (lo as bv16) << 8)
  {
  }

  /** The effect of one byte, whatever pair of bytes `th`, `tl` the tables hold for it. */
  lemma TableStep(hi: byte, lo: byte, b: byte, th: byte, tl: byte)
    requires LooksUp(ShiftByte, (hi ^ b) as bv16, th, tl)
    ensures LooksUp(ShiftByte, Register(hi, lo) ^ (b as bv16), th ^ lo, tl ^ 0)
  {
    ByteAdds();
    HighByteComesDown(lo);
    RegisterXor(hi, lo, b);
    LooksUpBoth(ShiftByte, (hi ^ b) as bv16, (lo as bv16) << 8, th, tl, lo, 0);
  }

  /** One pass of the loop of `Crc`: the two table lookups advance the register by one byte. */
  method CrcByte(crcHi: byte, crcLo: byte, b: byte) returns (hi: byte, lo: byte)
    ensures Register(hi, lo) == ModbusStep(Register(crcHi, crcLo), b)
  {
    var i := crcHi ^ b;
    hi := crcLo ^ TableHi(i);
    lo := TableLo(i);
    TablesAreShifts(i);
    TableStep(crcHi, crcLo, b, TableHi(i), TableLo(i));
  }

  lemma SwappedRegister(hi: byte, lo: byte)
    ensures Swapped(Register(hi, lo)) == ((hi as bv16) << 8) | (lo as bv16)
  {
  }

  /** The register after `k` bytes. */
  predicate Holds(hi: byte, lo: byte, data: seq<byte>, k: nat)
    requires k <= |data|
  {
    Register(hi, lo) == Modbus(data[..k])
  }

  lemma HoldsNext(hi: byte, lo: byte, hi': byte, lo': byte, data: seq<byte>, k: nat)
    requires k < |data| && Holds(hi, lo, data, k) && Register(hi', lo') == ModbusStep(Register(hi, lo), data[k])
    ensures Holds(hi', lo', data, k + 1)
  {
    assert data[..k + 1][..k] == data[..k];
  }

  lemma HoldsAll(hi: byte, lo: byte, data: seq<byte>)
    requires Holds(hi, lo, data, |data|)
    ensures ((hi as bv16) << 8) | (lo as bv16) == Swapped(Modbus(data))
  {
    assert data[..|data|] == data;
    SwappedRegister(hi, lo);
  }

  lemma HoldsFirst(data: seq<byte>)
    ensures Holds(0xFF, 0xFF, data, 0)
  {
    assert Register(0xFF, 0xFF) == 0xFFFF;
  }

  /** The byte-swapped MODBUS checksum of every buffer. */
  method Crc(buffer: seq<byte>) returns (crc: bv16)
    ensures crc == Swapped(Modbus(buffer))
  {
    var crcHi: byte := 0xFF;
    var crcLo: byte := 0xFF;
    var k := 0;
    HoldsFirst(buffer);
    while k < |buffer|
      invariant 0 <= k <= |buffer| && Holds(crcHi, crcLo, buffer, k)
    {
      var hi, lo := CrcByte(crcHi, crcLo, buffer[k]);
      HoldsNext(crcHi, crcLo, hi, lo, buffer, k);
      crcHi, crcLo, k := hi, lo, k + 1;
    }
    HoldsAll(crcHi, crcLo, buffer);
    crc := ((crcHi as bv16) << 8) | (crcLo as bv16);
  }

  // ----- a known value: the example of appendix B of the guide

  lemma FirstStep()
    ensures Leads(0xFFFF, 0x02, 0x813E)
  {
  }

  lemma SecondStep()
    ensures Leads(0x813E, 0x07, 0x1241)
  {
  }

  /** One byte more, whatever it does to the register. */
  predicate Leads(before: bv16, b: byte, after: bv16) { ModbusStep(before, b) == after }

  lemma ModbusNext(data: seq<byte>, b: byte, before: bv16, after: bv16)
    requires Modbus(data) == before && Leads(before, b, after)
    ensures Modbus(data + [b]) == after
  {
    assert (data + [b])[..|data|] == data;
  }

  lemma ModbusOfTwo(x: byte, y: byte, first: bv16, second: bv16)
    requires Leads(0xFFFF, x, first) && Leads(first, y, second)
    ensures Modbus([x] + [y]) == second
  {
    ModbusOfOne(x, first);
    ModbusNext([x], y, first, second);
  }

  lemma ModbusOfOne(x: byte, first: bv16)
    requires Leads(0xFFFF, x, first)
    ensures Modbus([x]) == first
  {
    ModbusNext([], x, 0xFFFF, first);
    assert [] + [x] == [x];
  }

  /** The bytes 02 07 have the checksum 0x1241, which is sent as 41 12. */
  lemma ExampleChecksum()
    ensures Swapped(Modbus([0x02] + [0x07])) == 0x4112
  {
    FirstStep();
    SecondStep();
    ModbusOfTwo(0x02, 0x07, 0x813E, 0x1241);
  }
}
