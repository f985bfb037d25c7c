/** The Pearson checksum of the SPI frames. */
module Pearson {
  import opened Bytes

  // ----- the permutation table, each row holding sixteen consecutive entries, first entry leftmost

  function Permutation(x: byte): byte {
    var row: bv128 :=
      if x < 16 then 0x0157310C_B0B266A6_79C10654_F9E62CA3 else
      if x < 32 then 0x0EC5D5B5_A155DA50_40EF18E2_EC8E26C8 else
      if x < 48 then 0x6EB16867_8DFDFF32_4D655112_2D601FDE else
      if x < 64 then 0x196BBE46_56EDF022_48F214D6_F4E395EB else
      if x < 80 then 0x61EA3916_3CFA52AF_D0057FC7_6F3E87F8 else
      if x < 96 then 0xAEA9D33A_429A6AC3_F5AB11BB_B6B300F3 else
      if x < 112 then 0x8438944B_80859E64_827E5B0D_99F6D8DB else
      if x < 128 then 0x7744DF4E_5358C963_7A0B5C20_8872340A else
      if x < 144 then 0x8A1E30B7_9C233D1A_8F4AFB5E_81A23F98 else
      if x < 160 then 0xAA0773A7_F1CE0396_373B97DC_5A351783 else
      if x < 176 then 0x7DAD0FEE_4F5F5910_6989E1E0_D9A0257B else
      if x < 192 then 0x7649029D_2E740991_86E4CFD4_CAD745E5 else
      if x < 208 then 0x1BBC437C_A8FC2A04_1D6C15F7_13CD27CB else
      if x < 224 then 0xE928BA93_C6C09B21_A4BF62CC_A5B4754C else
      if x < 240 then 0x8C24D2AC_29369F08_B9E871C4_E72F9278 else
      0x33411C90_FEDD5DBD_C28B702B_476DB8D1;
    ((row >> (8 * (15 - (x & 15)))) & 0xFF) as byte
  }

  /** Where each value sits in the table. */
  function Position(x: byte): byte {
    var row: bv128 :=
      if x < 16 then 0x5E00B296_C7490A91_E7B67F79_036B10A2 else
      if x < 32 then 0xA75A2BCC_3ACA439E_1A3087C0_F2C8812E else
      if x < 48 then 0x7BD73785_E1AE1ECE_D1E4C6FB_0E2CB4ED else
      if x < 64 then 0x820227F0_7E9DE598_61425399_44864D8E else
      if x < 80 then 0x18F154C2_71BE33FC_38B18963_DF2873A4 else
      if x < 96 then 0x172A4674_0B153401_75A69C6A_7AF68BA5 else
      if x < 112 then 0x2D40DA77_67290623_22A85631_C9FD204C else
      if x < 128 then 0xFAEA7D92_B5DEB070_EF0878AF_C3A0694A else
      if x < 144 then 0x648C689F_6065B84E_7CA980F9_E0241D88 else
      if x < 160 then 0xF3B7EED3_623E979A_8F6C55D6_84B366E6 else
      if x < 176 then 0xAD148D0F_D8DC0793_C4519059_E3A15047 else
      if x < 192 then 0x0421055D_DD135C83_FEE8D25B_C1F732D9 else
      if x < 208 then 0xD509F857_EB11D44B_1F76BCCF_DBCD95BA else
      if x < 224 then 0x48FFE252_BB123BBD_6EAC166F_9BF52F72 else
      if x < 240 then 0xABAA1B3D_B9BF0DEC_E9D0413F_1C35A319 else
      0x3694395F_3C586DCB_4F0C458A_C525F426;
    ((row >> (8 * (15 - (x & 15)))) & 0xFF) as byte
  }

  lemma PositionOfPermutation(x: byte)
    ensures Position(Permutation(x)) == x
  {
  }

  ghost predicate LeftInverse(g: byte -> byte, f: byte -> byte) {
    forall x :: g(f(x)) == x
  }

  /** The table is a permutation: each of its values tells where it stands. */
  lemma PermutationIsInjective()
    ensures LeftInverse(Position, Permutation)
  {
    forall x
      ensures Position(Permutation(x)) == x
    {
      PositionOfPermutation(x);
    }
  }

  /** The hash over a table `f`, one byte at a time from a zero start. */
  function Hash(f: byte -> byte, data: seq<byte>): byte {
    if data == [] then 0
    else f(Hash(f, data[..|data| - 1]) ^ data[|data| - 1])
  }

  method CalculateHash(data: seq<byte>) returns (checksum: byte)
    ensures checksum == Hash(Permutation, data)
  {
    checksum := 0;
    var i := 0;
    while i < |data|
      invariant 0 <= i <= |data|
      invariant checksum == Hash(Permutation, data[..i])
    {
      assert data[..i + 1][..i] == data[..i];
      checksum := Permutation(checksum ^ data[i]);
      i := i + 1;
    }
    assert data[..i] == data;
  }

  ghost predicate DifferOnlyAt(s: seq<byte>, t: seq<byte>, k: int) {
    && |s| == |t|
    && 0 <= k < |s|
    && s[k] != t[k]
    && forall i :: 0 <= i < |s| && i != k ==> s[i] == t[i]
  }

  lemma Inverted(f: byte -> byte, g: byte -> byte, x: byte, y: byte)
    requires LeftInverse(g, f)
    ensures f(x) == f(y) ==> x == y
  {
    assert g(f(x)) == x;
    assert g(f(y)) == y;
  }

  lemma XorDiffers(a: byte, x: byte, y: byte)
    requires x != y
    ensures a ^ x != a ^ y && x ^ a != y ^ a
  {
  }

  /** One step is injective in the state and in the byte. */
  lemma StepDetects(f: byte -> byte, g: byte -> byte, a: byte, b: byte, x: byte, y: byte)
    requires LeftInverse(g, f)
    requires (a == b) != (x == y)
    ensures f(a ^ x) != f(b ^ y)
  {
    if a == b {
      XorDiffers(a, x, y);
    } else {
      XorDiffers(x, a, b);
    }
    Inverted(f, g, a ^ x, b ^ y);
  }

  /** Over any injective table, changing one byte changes the hash. */
  lemma {:induction false} HashDetects(f: byte -> byte, g: byte -> byte, s: seq<byte>, t: seq<byte>, k: int)
    requires LeftInverse(g, f)
    requires DifferOnlyAt(s, t, k)
    ensures Hash(f, s) != Hash(f, t)
  {
    var n := |s| - 1;
    if k == n {
      assert s[..n] == t[..n];
    } else {
      assert DifferOnlyAt(s[..n], t[..n], k);
      HashDetects(f, g, s[..n], t[..n], k);
    }
    StepDetects(f, g, Hash(f, s[..n]), Hash(f, t[..n]), s[n], t[n]);
  }
}
