/** The hash of a known message, step by step: the first vector of src/tests/sha1_test.c. */
module Sha1Vector {
  import opened Bytes
  import opened Sha1Spec

  /** "abc", with the padding that makes it a block. */
  const ABC: seq<byte> := [0x61, 0x62, 0x63]

  /** The sixteen words of that block. */
  predicate IsAbc(m: Block) {
    m[0] == 0x61626380 && m[15] == 0x18 && forall i :: 0 < i < 15 ==> m[i] == 0
  }

  lemma Words16(m: Block)
    requires IsAbc(m)
    ensures W(m, 16) == 0xC2C4C700 && W(m, 17) == 0x00000000 && W(m, 18) == 0x00000030 && W(m, 19) == 0x85898E01
    ensures W(m, 20) == 0x00000000 && W(m, 21) == 0x00000060 && W(m, 22) == 0x0B131C03 && W(m, 23) == 0x00000030
    ensures W(m, 24) == 0x85898EC1 && W(m, 25) == 0x16263806 && W(m, 26) == 0x00000000 && W(m, 27) == 0x00000180
    ensures W(m, 28) == 0x2C4C700C && W(m, 29) == 0x000000F0 && W(m, 30) == 0x93AFB507 && W(m, 31) == 0x5898E048
  {
    assert W(m, 16) == 0xC2C4C700;
    assert W(m, 17) == 0x00000000;
    assert W(m, 18) == 0x00000030;
    assert W(m, 19) == 0x85898E01;
    assert W(m, 20) == 0x00000000;
    assert W(m, 21) == 0x00000060;
    assert W(m, 22) == 0x0B131C03;
    assert W(m, 23) == 0x00000030;
    assert W(m, 24) == 0x85898EC1;
    assert W(m, 25) == 0x16263806;
    assert W(m, 26) == 0x00000000;
    assert W(m, 27) == 0x00000180;
    assert W(m, 28) == 0x2C4C700C;
    assert W(m, 29) == 0x000000F0;
    assert W(m, 30) == 0x93AFB507;
    assert W(m, 31) == 0x5898E048;
  }

  lemma Words32(m: Block)
    requires IsAbc(m)
    ensures W(m, 32) == 0x8E9A9202 && W(m, 33) == 0x00000600 && W(m, 34) == 0xB131C0F0 && W(m, 35) == 0x16263BC6
    ensures W(m, 36) == 0x4EBED41E && W(m, 37) == 0x626380A1 && W(m, 38) == 0x16263806 && W(m, 39) == 0x000018C0
    ensures W(m, 40) == 0xD2E138C4 && W(m, 41) == 0x00000F00 && W(m, 42) == 0x3AFB5079 && W(m, 43) == 0x898E04E5
    ensures W(m, 44) == 0xE2BA3C2B && W(m, 45) == 0x000060C0 && W(m, 46) == 0x053A37CD && W(m, 47) == 0x74458547
  {
    Words16(m);
    assert W(m, 32) == 0x8E9A9202;
    assert W(m, 33) == 0x00000600;
    assert W(m, 34) == 0xB131C0F0;
    assert W(m, 35) == 0x16263BC6;
    assert W(m, 36) == 0x4EBED41E;
    assert W(m, 37) == 0x626380A1;
    assert W(m, 38) == 0x16263806;
    assert W(m, 39) == 0x000018C0;
    assert W(m, 40) == 0xD2E138C4;
    assert W(m, 41) == 0x00000F00;
    assert W(m, 42) == 0x3AFB5079;
    assert W(m, 43) == 0x898E04E5;
    assert W(m, 44) == 0xE2BA3C2B;
    assert W(m, 45) == 0x000060C0;
    assert W(m, 46) == 0x053A37CD;
    assert W(m, 47) == 0x74458547;
  }

  lemma Words48(m: Block)
    requires IsAbc(m)
    ensures W(m, 48) == 0xDA9415ED && W(m, 49) == 0x26380A16 && W(m, 50) == 0x626383A1 && W(m, 51) == 0x4EBF54DE
    ensures W(m, 52) == 0x3835B44B && W(m, 53) == 0x0000F600 && W(m, 54) == 0x1E84C7A3 && W(m, 55) == 0x98E04D98
    ensures W(m, 56) == 0x651D16A0 && W(m, 57) == 0x62658CA1 && W(m, 58) == 0x458544D6 && W(m, 59) == 0x44584CB7
    ensures W(m, 60) == 0x7BA06619 && W(m, 61) == 0x6380AEA2 && W(m, 62) == 0x0AE55269 && W(m, 63) == 0x627B49A1
  {
    Words32(m);
    assert W(m, 48) == 0xDA9415ED;
    assert W(m, 49) == 0x26380A16;
    assert W(m, 50) == 0x626383A1;
    assert W(m, 51) == 0x4EBF54DE;
    assert W(m, 52) == 0x3835B44B;
    assert W(m, 53) == 0x0000F600;
    assert W(m, 54) == 0x1E84C7A3;
    assert W(m, 55) == 0x98E04D98;
    assert W(m, 56) == 0x651D16A0;
    assert W(m, 57) == 0x62658CA1;
    assert W(m, 58) == 0x458544D6;
    assert W(m, 59) == 0x44584CB7;
    assert W(m, 60) == 0x7BA06619;
    assert W(m, 61) == 0x6380AEA2;
    assert W(m, 62) == 0x0AE55269;
    assert W(m, 63) == 0x627B49A1;
  }

  lemma Words64(m: Block)
    requires IsAbc(m)
    ensures W(m, 64) == 0x7CD45C9D && W(m, 65) == 0x000F0000 && W(m, 66) == 0xFB50753A && W(m, 67) == 0xEC6765E8
    ensures W(m, 68) == 0xBA3C2BE2 && W(m, 69) == 0x0060C000 && W(m, 70) == 0x3A37CD05 && W(m, 71) == 0x458546F4
    ensures W(m, 72) == 0xB8599DD6 && W(m, 73) == 0x380A1A26 && W(m, 74) == 0x01E02203 && W(m, 75) == 0xE7CC3456
    ensures W(m, 76) == 0xE6E60B69 && W(m, 77) == 0x00F60A00 && W(m, 78) == 0x5795EF4F && W(m, 79) == 0x822E0879
  {
    Words48(m);
    assert W(m, 64) == 0x7CD45C9D;
    assert W(m, 65) == 0x000F0000;
    assert W(m, 66) == 0xFB50753A;
    assert W(m, 67) == 0xEC6765E8;
    assert W(m, 68) == 0xBA3C2BE2;
    assert W(m, 69) == 0x0060C000;
    assert W(m, 70) == 0x3A37CD05;
    assert W(m, 71) == 0x458546F4;
    assert W(m, 72) == 0xB8599DD6;
    assert W(m, 73) == 0x380A1A26;
    assert W(m, 74) == 0x01E02203;
    assert W(m, 75) == 0xE7CC3456;
    assert W(m, 76) == 0xE6E60B69;
    assert W(m, 77) == 0x00F60A00;
    assert W(m, 78) == 0x5795EF4F;
    assert W(m, 79) == 0x822E0879;
  }

  lemma After10(m: Block)
    requires IsAbc(m)
    ensures Rounds(H0, m, 10) == Vars(0x8351F929, 0x4B6AE328, 0x27A301F5, 0x664F8C30, 0x0FF1F290)
  {
    assert Rounds(H0, m, 1) == Vars(0x0116FC33, 0x67452301, 0x7BF36AE2, 0x98BADCFE, 0x10325476);
    assert Rounds(H0, m, 2) == Vars(0x8990536D, 0x0116FC33, 0x59D148C0, 0x7BF36AE2, 0x98BADCFE);
    assert Rounds(H0, m, 3) == Vars(0xA1390F08, 0x8990536D, 0xC045BF0C, 0x59D148C0, 0x7BF36AE2);
    assert Rounds(H0, m, 4) == Vars(0xCDD8E11B, 0xA1390F08, 0x626414DB, 0xC045BF0C, 0x59D148C0);
    assert Rounds(H0, m, 5) == Vars(0xCFD499DE, 0xCDD8E11B, 0x284E43C2, 0x626414DB, 0xC045BF0C);
    assert Rounds(H0, m, 6) == Vars(0x3FC7CA40, 0xCFD499DE, 0xF3763846, 0x284E43C2, 0x626414DB);
    assert Rounds(H0, m, 7) == Vars(0x993E30C1, 0x3FC7CA40, 0xB3F52677, 0xF3763846, 0x284E43C2);
    assert Rounds(H0, m, 8) == Vars(0x9E8C07D4, 0x993E30C1, 0x0FF1F290, 0xB3F52677, 0xF3763846);
    assert Rounds(H0, m, 9) == Vars(0x4B6AE328, 0x9E8C07D4, 0x664F8C30, 0x0FF1F290, 0xB3F52677);
    assert Rounds(H0, m, 10) == Vars(0x8351F929, 0x4B6AE328, 0x27A301F5, 0x664F8C30, 0x0FF1F290);
  }

  lemma After20(m: Block)
    requires IsAbc(m)
    ensures Rounds(H0, m, 20) == Vars(0xFD9E1D7D, 0xDC64901D, 0x20AA99CA, 0xD3A49608, 0xC82F758B)
  {
    Words16(m);
    After10(m);
    assert Rounds(H0, m, 11) == Vars(0xFBDA9E89, 0x8351F929, 0x12DAB8CA, 0x27A301F5, 0x664F8C30);
    assert Rounds(H0, m, 12) == Vars(0x63188FE4, 0xFBDA9E89, 0x60D47E4A, 0x12DAB8CA, 0x27A301F5);
    assert Rounds(H0, m, 13) == Vars(0x4607B664, 0x63188FE4, 0x7EF6A7A2, 0x60D47E4A, 0x12DAB8CA);
    assert Rounds(H0, m, 14) == Vars(0x9128F695, 0x4607B664, 0x18C623F9, 0x7EF6A7A2, 0x60D47E4A);
    assert Rounds(H0, m, 15) == Vars(0x196BEE77, 0x9128F695, 0x1181ED99, 0x18C623F9, 0x7EF6A7A2);
    assert Rounds(H0, m, 16) == Vars(0x20BDD62F, 0x196BEE77, 0x644A3DA5, 0x1181ED99, 0x18C623F9);
    assert Rounds(H0, m, 17) == Vars(0x4E925823, 0x20BDD62F, 0xC65AFB9D, 0x644A3DA5, 0x1181ED99);
    assert Rounds(H0, m, 18) == Vars(0x82AA6728, 0x4E925823, 0xC82F758B, 0xC65AFB9D, 0x644A3DA5);
    assert Rounds(H0, m, 19) == Vars(0xDC64901D, 0x82AA6728, 0xD3A49608, 0xC82F758B, 0xC65AFB9D);
    assert Rounds(H0, m, 20) == Vars(0xFD9E1D7D, 0xDC64901D, 0x20AA99CA, 0xD3A49608, 0xC82F758B);
  }

  lemma After30(m: Block)
    requires IsAbc(m)
    ensures Rounds(H0, m, 30) == Vars(0xC5FBAF5D, 0x8370B52E, 0xD2AA1365, 0x6F8D7EF5, 0x12104EE9)
  {
    Words16(m);
    After20(m);
    assert Rounds(H0, m, 21) == Vars(0x1A37B0CA, 0xFD9E1D7D, 0x77192407, 0x20AA99CA, 0xD3A49608);
    assert Rounds(H0, m, 22) == Vars(0x33A23BFC, 0x1A37B0CA, 0x7F67875F, 0x77192407, 0x20AA99CA);
    assert Rounds(H0, m, 23) == Vars(0x21283486, 0x33A23BFC, 0x868DEC32, 0x7F67875F, 0x77192407);
    assert Rounds(H0, m, 24) == Vars(0xD541F12D, 0x21283486, 0x0CE88EFF, 0x868DEC32, 0x7F67875F);
    assert Rounds(H0, m, 25) == Vars(0xC7567DC6, 0xD541F12D, 0x884A0D21, 0x0CE88EFF, 0x868DEC32);
    assert Rounds(H0, m, 26) == Vars(0x48413BA4, 0xC7567DC6, 0x75507C4B, 0x884A0D21, 0x0CE88EFF);
    assert Rounds(H0, m, 27) == Vars(0xBE35FBD5, 0x48413BA4, 0xB1D59F71, 0x75507C4B, 0x884A0D21);
    assert Rounds(H0, m, 28) == Vars(0x4AA84D97, 0xBE35FBD5, 0x12104EE9, 0xB1D59F71, 0x75507C4B);
    assert Rounds(H0, m, 29) == Vars(0x8370B52E, 0x4AA84D97, 0x6F8D7EF5, 0x12104EE9, 0xB1D59F71);
    assert Rounds(H0, m, 30) == Vars(0xC5FBAF5D, 0x8370B52E, 0xD2AA1365, 0x6F8D7EF5, 0x12104EE9);
  }

  lemma After40(m: Block)
    requires IsAbc(m)
    ensures Rounds(H0, m, 40) == Vars(0x32DE1CBA, 0x4C986405, 0xF718E5CF, 0x03D447F6, 0xF72EEC32)
  {
    Words16(m);
    Words32(m);
    After30(m);
    assert Rounds(H0, m, 31) == Vars(0x1267B407, 0xC5FBAF5D, 0xA0DC2D4B, 0xD2AA1365, 0x6F8D7EF5);
    assert Rounds(H0, m, 32) == Vars(0x3B845D33, 0x1267B407, 0x717EEBD7, 0xA0DC2D4B, 0xD2AA1365);
    assert Rounds(H0, m, 33) == Vars(0x046FAA0A, 0x3B845D33, 0xC499ED01, 0x717EEBD7, 0xA0DC2D4B);
    assert Rounds(H0, m, 34) == Vars(0x2C0EBC11, 0x046FAA0A, 0xCEE1174C, 0xC499ED01, 0x717EEBD7);
    assert Rounds(H0, m, 35) == Vars(0x21796AD4, 0x2C0EBC11, 0x811BEA82, 0xCEE1174C, 0xC499ED01);
    assert Rounds(H0, m, 36) == Vars(0xDCBBB0CB, 0x21796AD4, 0x4B03AF04, 0x811BEA82, 0xCEE1174C);
    assert Rounds(H0, m, 37) == Vars(0x0F511FD8, 0xDCBBB0CB, 0x085E5AB5, 0x4B03AF04, 0x811BEA82);
    assert Rounds(H0, m, 38) == Vars(0xDC63973F, 0x0F511FD8, 0xF72EEC32, 0x085E5AB5, 0x4B03AF04);
    assert Rounds(H0, m, 39) == Vars(0x4C986405, 0xDC63973F, 0x03D447F6, 0xF72EEC32, 0x085E5AB5);
    assert Rounds(H0, m, 40) == Vars(0x32DE1CBA, 0x4C986405, 0xF718E5CF, 0x03D447F6, 0xF72EEC32);
  }

  lemma After50(m: Block)
    requires IsAbc(m)
    ensures Rounds(H0, m, 50) == Vars(0x120731C5, 0xBAF39337, 0xAFAB40B2, 0x2806E11B, 0x8714787C)
  {
    Words32(m);
    Words48(m);
    After40(m);
    assert Rounds(H0, m, 41) == Vars(0xFC87DEDF, 0x32DE1CBA, 0x53261901, 0xF718E5CF, 0x03D447F6);
    assert Rounds(H0, m, 42) == Vars(0x970A0D5C, 0xFC87DEDF, 0x8CB7872E, 0x53261901, 0xF718E5CF);
    assert Rounds(H0, m, 43) == Vars(0x7F193DC5, 0x970A0D5C, 0xFF21F7B7, 0x8CB7872E, 0x53261901);
    assert Rounds(H0, m, 44) == Vars(0xEE1B1AAF, 0x7F193DC5, 0x25C28357, 0xFF21F7B7, 0x8CB7872E);
    assert Rounds(H0, m, 45) == Vars(0x40F28E09, 0xEE1B1AAF, 0x5FC64F71, 0x25C28357, 0xFF21F7B7);
    assert Rounds(H0, m, 46) == Vars(0x1C51E1F2, 0x40F28E09, 0xFB86C6AB, 0x5FC64F71, 0x25C28357);
    assert Rounds(H0, m, 47) == Vars(0xA01B846C, 0x1C51E1F2, 0x503CA382, 0xFB86C6AB, 0x5FC64F71);
    assert Rounds(H0, m, 48) == Vars(0xBEAD02CA, 0xA01B846C, 0x8714787C, 0x503CA382, 0xFB86C6AB);
    assert Rounds(H0, m, 49) == Vars(0xBAF39337, 0xBEAD02CA, 0x2806E11B, 0x8714787C, 0x503CA382);
    assert Rounds(H0, m, 50) == Vars(0x120731C5, 0xBAF39337, 0xAFAB40B2, 0x2806E11B, 0x8714787C);
  }

  lemma After60(m: Block)
    requires IsAbc(m)
    ensures Rounds(H0, m, 60) == Vars(0x3F52DE5A, 0x09D785FD, 0x3498BFD4, 0xF211824F, 0xD79915AB)
  {
    Words48(m);
    After50(m);
    assert Rounds(H0, m, 51) == Vars(0x641DB2CE, 0x120731C5, 0xEEBCE4CD, 0xAFAB40B2, 0x2806E11B);
    assert Rounds(H0, m, 52) == Vars(0x3847AD66, 0x641DB2CE, 0x4481CC71, 0xEEBCE4CD, 0xAFAB40B2);
    assert Rounds(H0, m, 53) == Vars(0xE490436D, 0x3847AD66, 0x99076CB3, 0x4481CC71, 0xEEBCE4CD);
    assert Rounds(H0, m, 54) == Vars(0x27E9F1D8, 0xE490436D, 0x8E11EB59, 0x99076CB3, 0x4481CC71);
    assert Rounds(H0, m, 55) == Vars(0x7B71F76D, 0x27E9F1D8, 0x792410DB, 0x8E11EB59, 0x99076CB3);
    assert Rounds(H0, m, 56) == Vars(0x5E6456AF, 0x7B71F76D, 0x09FA7C76, 0x792410DB, 0x8E11EB59);
    assert Rounds(H0, m, 57) == Vars(0xC846093F, 0x5E6456AF, 0x5EDC7DDB, 0x09FA7C76, 0x792410DB);
    assert Rounds(H0, m, 58) == Vars(0xD262FF50, 0xC846093F, 0xD79915AB, 0x5EDC7DDB, 0x09FA7C76);
    assert Rounds(H0, m, 59) == Vars(0x09D785FD, 0xD262FF50, 0xF211824F, 0xD79915AB, 0x5EDC7DDB);
    assert Rounds(H0, m, 60) == Vars(0x3F52DE5A, 0x09D785FD, 0x3498BFD4, 0xF211824F, 0xD79915AB);
  }

  lemma After70(m: Block)
    requires IsAbc(m)
    ensures Rounds(H0, m, 70) == Vars(0x3F2588C2, 0x497093C0, 0xDE37534A, 0x030F7CAD, 0x4405957E)
  {
    Words48(m);
    Words64(m);
    After60(m);
    assert Rounds(H0, m, 61) == Vars(0xD756C147, 0x3F52DE5A, 0x4275E17F, 0x3498BFD4, 0xF211824F);
    assert Rounds(H0, m, 62) == Vars(0x548C9CB2, 0xD756C147, 0x8FD4B796, 0x4275E17F, 0x3498BFD4);
    assert Rounds(H0, m, 63) == Vars(0xB66C020B, 0x548C9CB2, 0xF5D5B051, 0x8FD4B796, 0x4275E17F);
    assert Rounds(H0, m, 64) == Vars(0x6B61C9E1, 0xB66C020B, 0x9523272C, 0xF5D5B051, 0x8FD4B796);
    assert Rounds(H0, m, 65) == Vars(0x19DFA7AC, 0x6B61C9E1, 0xED9B0082, 0x9523272C, 0xF5D5B051);
    assert Rounds(H0, m, 66) == Vars(0x101655F9, 0x19DFA7AC, 0x5AD87278, 0xED9B0082, 0x9523272C);
    assert Rounds(H0, m, 67) == Vars(0x0C3DF2B4, 0x101655F9, 0x0677E9EB, 0x5AD87278, 0xED9B0082);
    assert Rounds(H0, m, 68) == Vars(0x78DD4D2B, 0x0C3DF2B4, 0x4405957E, 0x0677E9EB, 0x5AD87278);
    assert Rounds(H0, m, 69) == Vars(0x497093C0, 0x78DD4D2B, 0x030F7CAD, 0x4405957E, 0x0677E9EB);
    assert Rounds(H0, m, 70) == Vars(0x3F2588C2, 0x497093C0, 0xDE37534A, 0x030F7CAD, 0x4405957E);
  }

  lemma After80(m: Block)
    requires IsAbc(m)
    ensures Rounds(H0, m, 80) == Vars(0x42541B35, 0x5738D5E1, 0x21834873, 0x681E6DF6, 0xD8FDF6AD)
  {
    Words64(m);
    After70(m);
    assert Rounds(H0, m, 71) == Vars(0xC199F8C7, 0x3F2588C2, 0x125C24F0, 0xDE37534A, 0x030F7CAD);
    assert Rounds(H0, m, 72) == Vars(0x39859DE7, 0xC199F8C7, 0x8FC96230, 0x125C24F0, 0xDE37534A);
    assert Rounds(H0, m, 73) == Vars(0xEDB42DE4, 0x39859DE7, 0xF0667E31, 0x8FC96230, 0x125C24F0);
    assert Rounds(H0, m, 74) == Vars(0x11793F6F, 0xEDB42DE4, 0xCE616779, 0xF0667E31, 0x8FC96230);
    assert Rounds(H0, m, 75) == Vars(0x5EE76897, 0x11793F6F, 0x3B6D0B79, 0xCE616779, 0xF0667E31);
    assert Rounds(H0, m, 76) == Vars(0x63F7DAB7, 0x5EE76897, 0xC45E4FDB, 0x3B6D0B79, 0xCE616779);
    assert Rounds(H0, m, 77) == Vars(0xA079B7D9, 0x63F7DAB7, 0xD7B9DA25, 0xC45E4FDB, 0x3B6D0B79);
    assert Rounds(H0, m, 78) == Vars(0x860D21CC, 0xA079B7D9, 0xD8FDF6AD, 0xD7B9DA25, 0xC45E4FDB);
    assert Rounds(H0, m, 79) == Vars(0x5738D5E1, 0x860D21CC, 0x681E6DF6, 0xD8FDF6AD, 0xD7B9DA25);
    assert Rounds(H0, m, 80) == Vars(0x42541B35, 0x5738D5E1, 0x21834873, 0x681E6DF6, 0xD8FDF6AD);
  }

  lemma SmallLength(n: nat)
    requires 0 < n < 256
    ensures Bytes8(n) == Zeros(7) + [ToByte(n)]
  {
    forall i | 0 <= i < 7
      ensures Bytes8(n)[i] == 0
    {
      HighDigit(n, 7 - i);
    }
    LowDigit(n);
  }

  lemma DivideBy(n: nat, p: nat)
    requires n < p
    ensures n / p == 0
  {
  }

  lemma HighDigit(n: nat, k: nat)
    requires n < 256 && k > 0
    ensures Base256(n, k) == 0
  {
    LargePower(k);
    DivideBy(n, Pow256(k));
    assert ToByte(0) == 0;
  }

  lemma LowDigit(n: nat)
    requires n < 256
    ensures Base256(n, 0) == ToByte(n)
  {
    assert Pow256(0) == 1 && n / 1 == n && n % 256 == n;
  }

  lemma {:induction false} LargePower(k: nat)
    requires k > 0
    ensures Pow256(k) >= 256
  {
    if k > 1 {
      LargePower(k - 1);
    }
  }

  lemma AbcPadded()
    ensures Padded(ABC) == ABC + [0x80] + Zeros(59) + [0x18]
  {
    SmallLength(24);
    assert ToByte(24) == 0x18;
    assert Zeros(52) + (Zeros(7) + [0x18]) == Zeros(59) + [0x18];
    assert ABC + [0x80] + Zeros(52) + (Zeros(7) + [0x18]) == ABC + [0x80] + (Zeros(52) + (Zeros(7) + [0x18]));
  }

  lemma ZeroWord()
    ensures BigEndian(0, 0, 0, 0) == 0 && BigEndian(0, 0, 0, 0x18) == 0x18
    ensures BigEndian(0x61, 0x62, 0x63, 0x80) == 0x61626380
  {
  }

  lemma AbcBlock(p: seq<byte>)
    requires p == ABC + [0x80] + Zeros(59) + [0x18]
    ensures |p| == 64 && IsAbc(Words(p))
  {
    ZeroWord();
    assert p[0] == 0x61 && p[1] == 0x62 && p[2] == 0x63 && p[3] == 0x80 && p[63] == 0x18;
    assert forall i :: 4 <= i < 63 ==> p[i] == 0;
  }

  lemma OneBlock(p: seq<byte>)
    requires |p| == 64
    ensures Absorb(CompressBytes, H0, p) == Compress(H0, Words(p))
  {
    assert p[..0] == [] && p[0..] == p;
  }

  /** The digest of "abc". */
  lemma AbcHash()
    ensures Hash(ABC) == [0xA9, 0x99, 0x3E, 0x36, 0x47, 0x06, 0x81, 0x6A, 0xBA, 0x3E,
                          0x25, 0x71, 0x78, 0x50, 0xC2, 0x6C, 0x9C, 0xD0, 0xD8, 0x9D]
  {
    AbcPadded();
    AbcBlock(Padded(ABC));
    OneBlock(Padded(ABC));
    After80(Words(Padded(ABC)));
  }
}
