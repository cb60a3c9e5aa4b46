/**
 Known answers of tiger.c: the key schedule and one compressed block as numbers, for S-boxes that
 tell tables and bytes apart.
 */
module TigerKnownAnswers {
  import opened Basics
  import opened TigerCore
  import opened TigerHash
  import opened TigerWords

  /** An exclusive or of numbers, checked byte by byte. */
  lemma XorIs(x: word, y: word, z: word, a7: bv8, a6: bv8, a5: bv8, a4: bv8, a3: bv8, a2: bv8, a1: bv8, a0: bv8,
              b7: bv8, b6: bv8, b5: bv8, b4: bv8, b3: bv8, b2: bv8, b1: bv8, b0: bv8)
    requires x == Word8(a7, a6, a5, a4, a3, a2, a1, a0) && y == Word8(b7, b6, b5, b4, b3, b2, b1, b0)
    requires z == Word8(BvXor(a7, b7), BvXor(a6, b6), BvXor(a5, b5), BvXor(a4, b4),
                        BvXor(a3, b3), BvXor(a2, b2), BvXor(a1, b1), BvXor(a0, b0))
    ensures Xor(x, y) == z
  {
    hide Xor;
    hide Word8;
    hide BvXor;
    XorOfWords(a7, a6, a5, a4, a3, a2, a1, a0, b7, b6, b5, b4, b3, b2, b1, b0);
  }

  /** Table `t` has byte `b` in its bytes `t` and `t + 1`. */
  function TestBox(t: nat, b: nat): word {
    if b >= 0x100 then 0
    else if t == 0 then 0x101 * b
    else if t == 1 then 0x1_0100 * b
    else if t == 2 then 0x101_0000 * b
    else if t == 3 then 0x1_0100_0000 * b
    else 0
  }

  lemma TestBoxBytes(b: byte)
    ensures TestBox(0, b) == Bytes8(0, 0, 0, 0, 0, 0, b, b)
    ensures TestBox(1, b) == Bytes8(0, 0, 0, 0, 0, b, b, 0)
    ensures TestBox(2, b) == Bytes8(0, 0, 0, 0, b, b, 0, 0)
    ensures TestBox(3, b) == Bytes8(0, 0, 0, b, b, 0, 0, 0)
  {}

  lemma TestBoxIs(p: bv8)
    ensures TestBox(0, ByteIs(p)) == Word8(0, 0, 0, 0, 0, 0, p, p)
    ensures TestBox(1, ByteIs(p)) == Word8(0, 0, 0, 0, 0, p, p, 0)
    ensures TestBox(2, ByteIs(p)) == Word8(0, 0, 0, 0, p, p, 0, 0)
    ensures TestBox(3, ByteIs(p)) == Word8(0, 0, 0, p, p, 0, 0, 0)
  {
    assert ByteIs(0) == 0;
    hide ByteIs;
    hide TestBox;
    hide Bytes8;
    TestBoxBytes(ByteIs(p));
  }

  lemma BytesOfWord8(c7: bv8, c6: bv8, c5: bv8, c4: bv8, c3: bv8, c2: bv8, c1: bv8, c0: bv8)
    ensures var c := Word8(c7, c6, c5, c4, c3, c2, c1, c0);
            && ByteOf(c, 0) == ByteIs(c0) && ByteOf(c, 1) == ByteIs(c1) && ByteOf(c, 2) == ByteIs(c2) && ByteOf(c, 3) == ByteIs(c3)
            && ByteOf(c, 4) == ByteIs(c4) && ByteOf(c, 5) == ByteIs(c5) && ByteOf(c, 6) == ByteIs(c6) && ByteOf(c, 7) == ByteIs(c7)
  {
    hide ByteIs;
    hide ByteOf;
    hide Bytes8;
    BytesOfWord(ByteIs(c7), ByteIs(c6), ByteIs(c5), ByteIs(c4), ByteIs(c3), ByteIs(c2), ByteIs(c1), ByteIs(c0));
  }

  /** What four tables give for four bytes, in either order. */
  function Mixed(p0: bv8, p1: bv8, p2: bv8, p3: bv8): word {
    Word8(0, 0, 0, p3, BvXor(p3, p2), BvXor(p2, p1), BvXor(p1, p0), p0)
  }

  lemma FourTables(p0: bv8, p1: bv8, p2: bv8, p3: bv8)
    ensures Xor(Xor(Xor(TestBox(0, ByteIs(p0)), TestBox(1, ByteIs(p1))), TestBox(2, ByteIs(p2))), TestBox(3, ByteIs(p3)))
         == Mixed(p0, p1, p2, p3)
    ensures Xor(Xor(Xor(TestBox(3, ByteIs(p3)), TestBox(2, ByteIs(p2))), TestBox(1, ByteIs(p1))), TestBox(0, ByteIs(p0)))
         == Mixed(p0, p1, p2, p3)
  {
    hide Xor;
    hide TestBox;
    hide ByteIs;
    hide Word8;
    hide BvXor;
    TestBoxIs(p0);
    TestBoxIs(p1);
    TestBoxIs(p2);
    TestBoxIs(p3);
    XorWithZero(p0);
    XorWithZero(p1);
    XorWithZero(p2);
    XorWithZero(p3);
    XorWithZero(BvXor(p0, p1));
    XorWithZero(BvXor(p1, p2));
    XorWithZero(BvXor(p3, p2));
    XorCommutes(p0, p1);
    XorCommutes(p1, p2);
    XorCommutes(p2, p3);
    XorOfWords(0, 0, 0, 0, 0, 0, p0, p0, 0, 0, 0, 0, 0, p1, p1, 0);
    XorOfWords(0, 0, 0, 0, 0, p1, BvXor(p0, p1), p0, 0, 0, 0, 0, p2, p2, 0, 0);
    XorOfWords(0, 0, 0, 0, p2, BvXor(p1, p2), BvXor(p0, p1), p0, 0, 0, 0, p3, p3, 0, 0, 0);
    XorOfWords(0, 0, 0, p3, p3, 0, 0, 0, 0, 0, 0, 0, p2, p2, 0, 0);
    XorOfWords(0, 0, 0, p3, BvXor(p3, p2), p2, 0, 0, 0, 0, 0, 0, 0, p1, p1, 0);
    XorOfWords(0, 0, 0, p3, BvXor(p3, p2), BvXor(p2, p1), p1, 0, 0, 0, 0, 0, 0, 0, p0, p0);
  }

  /** A round with these S-boxes, its operands given as numbers and in bytes. */
  lemma TurnIs(mul: Multiplier, a: word, b: word, c: word, x: word, y: word, e: word, o: word, a': word, b': word,
               c7: bv8, c6: bv8, c5: bv8, c4: bv8, c3: bv8, c2: bv8, c1: bv8, c0: bv8,
               x7: bv8, x6: bv8, x5: bv8, x4: bv8, x3: bv8, x2: bv8, x1: bv8, x0: bv8)
    requires c == Word8(c7, c6, c5, c4, c3, c2, c1, c0) && x == Word8(x7, x6, x5, x4, x3, x2, x1, x0)
    requires y == Word8(BvXor(c7, x7), BvXor(c6, x6), BvXor(c5, x5), BvXor(c4, x4),
                        BvXor(c3, x3), BvXor(c2, x2), BvXor(c1, x1), BvXor(c0, x0))
    requires e == Mixed(BvXor(c0, x0), BvXor(c2, x2), BvXor(c4, x4), BvXor(c6, x6))
    requires o == Mixed(BvXor(c7, x7), BvXor(c5, x5), BvXor(c3, x3), BvXor(c1, x1))
    requires a' == Sub(a, e) && b' == Scale(Add(b, o), mul)
    ensures Turn(TestBox, mul, State(a, b, c), x) == State(b', y, a')
  {
    XorIs(c, x, y, c7, c6, c5, c4, c3, c2, c1, c0, x7, x6, x5, x4, x3, x2, x1, x0);
    hide Xor;
    hide BvXor;
    hide Mixed;
    hide Word8;
    hide ByteOf;
    hide TestBox;
    hide ByteIs;
    hide Add;
    hide Sub;
    hide Scale;
    var y7, y6, y5, y4 := BvXor(c7, x7), BvXor(c6, x6), BvXor(c5, x5), BvXor(c4, x4);
    var y3, y2, y1, y0 := BvXor(c3, x3), BvXor(c2, x2), BvXor(c1, x1), BvXor(c0, x0);
    BytesOfWord8(y7, y6, y5, y4, y3, y2, y1, y0);
    FourTables(y0, y2, y4, y6);
    FourTables(y7, y5, y3, y1);
  }

  lemma FirstHalfOfKey()
    ensures FirstHalf(Key(0x0706_0504_0302_0100, 0x0F0E_0D0C_0B0A_0908, 0x1716_1514_1312_1110, 0x1F1E_1D1C_1B1A_1918,
                0x2726_2524_2322_2120, 0x2F2E_2D2C_2B2A_2928, 0x8036_3534_3332_3130, 0x0000_0000_0000_01B8))
         == Key(0x6160_5F5E_5D5C_5CE3, 0x6E6E_5252_5656_55EB, 0x8584_6766_6968_66FB, 0x3634_F2F0_E151_B21D,
                0x1112_D7D4_C273_933D, 0x4041_0500_ED9D_BC65, 0x3FF5_3056_FB64_4712, 0x3FF5_3056_FB64_46AA)
  {
    hide Xor;
    XorIs(0x0000_0000_0000_01B8, 0xA5A5_A5A5_A5A5_A5A5, 0xA5A5_A5A5_A5A5_A41D,
          0x00, 0x00, 0x00, 0x00, 0x00, 0x00, 0x01, 0xB8, 0xA5, 0xA5, 0xA5, 0xA5, 0xA5, 0xA5, 0xA5, 0xA5);
    XorIs(0x0F0E_0D0C_0B0A_0908, 0x6160_5F5E_5D5C_5CE3, 0x6E6E_5252_5656_55EB,
          0x0F, 0x0E, 0x0D, 0x0C, 0x0B, 0x0A, 0x09, 0x08, 0x61, 0x60, 0x5F, 0x5E, 0x5D, 0x5C, 0x5C, 0xE3);
    XorIs(0x8584_6766_6968_66FB, 0x6D6D_4D4D_50A0_0000, 0xE8E9_2A2B_39C8_66FB,
          0x85, 0x84, 0x67, 0x66, 0x69, 0x68, 0x66, 0xFB, 0x6D, 0x6D, 0x4D, 0x4D, 0x50, 0xA0, 0x00, 0x00);
    XorIs(0x2726_2524_2322_2120, 0x3634_F2F0_E151_B21D, 0x1112_D7D4_C273_933D,
          0x27, 0x26, 0x25, 0x24, 0x23, 0x22, 0x21, 0x20, 0x36, 0x34, 0xF2, 0xF0, 0xE1, 0x51, 0xB2, 0x1D);
    XorIs(0x4041_0500_ED9D_BC65, 0x0000_01DD_DA50_567B, 0x4041_04DD_37CD_EA1E,
          0x40, 0x41, 0x05, 0x00, 0xED, 0x9D, 0xBC, 0x65, 0x00, 0x00, 0x01, 0xDD, 0xDA, 0x50, 0x56, 0x7B);
    XorIs(0x0000_0000_0000_01B8, 0x3FF5_3056_FB64_4712, 0x3FF5_3056_FB64_46AA,
          0x00, 0x00, 0x00, 0x00, 0x00, 0x00, 0x01, 0xB8, 0x3F, 0xF5, 0x30, 0x56, 0xFB, 0x64, 0x47, 0x12);
  }

  lemma SecondHalfOfKey()
    ensures SecondHalf(Key(0x6160_5F5E_5D5C_5CE3, 0x6E6E_5252_5656_55EB, 0x8584_6766_6968_66FB, 0x3634_F2F0_E151_B21D,
                0x1112_D7D4_C273_933D, 0x4041_0500_ED9D_BC65, 0x3FF5_3056_FB64_4712, 0x3FF5_3056_FB64_46AA))
         == Key(0xA155_8FB5_58C0_A38D, 0x9250_A6E9_C3ED_B25E, 0x17D4_C18F_AA85_D4A5, 0x4E09_B480_8BD7_86C2,
                0xC309_2283_E4C8_2CD5, 0x8348_2783_0955_90B0, 0xC33D_57DA_04B9_D7C2, 0x7DD7_1D99_6E52_2C7D)
  {
    hide Xor;
    XorIs(0xA155_8FB5_58C0_A38D, 0x7D48_24DD_CAA8_0000, 0xDC1D_AB68_9268_A38D,
          0xA1, 0x55, 0x8F, 0xB5, 0x58, 0xC0, 0xA3, 0x8D, 0x7D, 0x48, 0x24, 0xDD, 0xCA, 0xA8, 0x00, 0x00);
    XorIs(0x8584_6766_6968_66FB, 0x9250_A6E9_C3ED_B25E, 0x17D4_C18F_AA85_D4A5,
          0x85, 0x84, 0x67, 0x66, 0x69, 0x68, 0x66, 0xFB, 0x92, 0x50, 0xA6, 0xE9, 0xC3, 0xED, 0xB2, 0x5E);
    XorIs(0x4E09_B480_8BD7_86C2, 0x0000_01D0_567C_E0AA, 0x4E09_B550_DDAB_6668,
          0x4E, 0x09, 0xB4, 0x80, 0x8B, 0xD7, 0x86, 0xC2, 0x00, 0x00, 0x01, 0xD0, 0x56, 0x7C, 0xE0, 0xAA);
    XorIs(0x4041_0500_ED9D_BC65, 0xC309_2283_E4C8_2CD5, 0x8348_2783_0955_90B0,
          0x40, 0x41, 0x05, 0x00, 0xED, 0x9D, 0xBC, 0x65, 0xC3, 0x09, 0x22, 0x83, 0xE4, 0xC8, 0x2C, 0xD5);
    XorIs(0xC33D_57DA_04B9_D7C2, 0x0123_4567_89AB_CDEF, 0xC21E_12BD_8D12_1A2D,
          0xC3, 0x3D, 0x57, 0xDA, 0x04, 0xB9, 0xD7, 0xC2, 0x01, 0x23, 0x45, 0x67, 0x89, 0xAB, 0xCD, 0xEF);
  }

  lemma FirstHalfAgain()
    ensures FirstHalf(Key(0xA155_8FB5_58C0_A38D, 0x9250_A6E9_C3ED_B25E, 0x17D4_C18F_AA85_D4A5, 0x4E09_B480_8BD7_86C2,
                0xC309_2283_E4C8_2CD5, 0x8348_2783_0955_90B0, 0xC33D_57DA_04B9_D7C2, 0x7DD7_1D99_6E52_2C7D))
         == Key(0xC8E2_D778_8CC9_19B5, 0x5AB2_7191_4F24_ABEB, 0x7287_3320_F9AA_8090, 0x4C16_FE86_32CD_0632,
                0x8F1F_DC05_D605_2AE7, 0x1268_0388_DF5A_BB97, 0xB0D5_5470_E59C_87FE, 0xCD02_49E9_8BCE_AB83)
  {
    hide Xor;
    XorIs(0x7DD7_1D99_6E52_2C7D, 0xA5A5_A5A5_A5A5_A5A5, 0xD872_B83C_CBF7_89D8,
          0x7D, 0xD7, 0x1D, 0x99, 0x6E, 0x52, 0x2C, 0x7D, 0xA5, 0xA5, 0xA5, 0xA5, 0xA5, 0xA5, 0xA5, 0xA5);
    XorIs(0x9250_A6E9_C3ED_B25E, 0xC8E2_D778_8CC9_19B5, 0x5AB2_7191_4F24_ABEB,
          0x92, 0x50, 0xA6, 0xE9, 0xC3, 0xED, 0xB2, 0x5E, 0xC8, 0xE2, 0xD7, 0x78, 0x8C, 0xC9, 0x19, 0xB5);
    XorIs(0x7287_3320_F9AA_8090, 0x7375_86DA_A0A0_0000, 0x01F2_B5FA_590A_8090,
          0x72, 0x87, 0x33, 0x20, 0xF9, 0xAA, 0x80, 0x90, 0x73, 0x75, 0x86, 0xDA, 0xA0, 0xA0, 0x00, 0x00);
    XorIs(0xC309_2283_E4C8_2CD5, 0x4C16_FE86_32CD_0632, 0x8F1F_DC05_D605_2AE7,
          0xC3, 0x09, 0x22, 0x83, 0xE4, 0xC8, 0x2C, 0xD5, 0x4C, 0x16, 0xFE, 0x86, 0x32, 0xCD, 0x06, 0x32);
    XorIs(0x1268_0388_DF5A_BB97, 0x0000_00E1_C047_F453, 0x1268_0369_1F1D_4FC4,
          0x12, 0x68, 0x03, 0x88, 0xDF, 0x5A, 0xBB, 0x97, 0x00, 0x00, 0x00, 0xE1, 0xC0, 0x47, 0xF4, 0x53);
    XorIs(0x7DD7_1D99_6E52_2C7D, 0xB0D5_5470_E59C_87FE, 0xCD02_49E9_8BCE_AB83,
          0x7D, 0xD7, 0x1D, 0x99, 0x6E, 0x52, 0x2C, 0x7D, 0xB0, 0xD5, 0x54, 0x70, 0xE5, 0x9C, 0x87, 0xFE);
  }

  lemma SecondHalfAgain()
    ensures SecondHalf(Key(0xC8E2_D778_8CC9_19B5, 0x5AB2_7191_4F24_ABEB, 0x7287_3320_F9AA_8090, 0x4C16_FE86_32CD_0632,
                0x8F1F_DC05_D605_2AE7, 0x1268_0388_DF5A_BB97, 0xB0D5_5470_E59C_87FE, 0xCD02_49E9_8BCE_AB83))
         == Key(0x95E5_2162_1897_C538, 0x355B_F0A8_93AC_E6B3, 0x47DC_C388_6A06_6623, 0x93F3_C20E_9CD3_6C55,
                0xFB2C_1886_FB59_A769, 0xE944_1B0E_2403_1CFE, 0x9A19_6F7F_099F_A4FC, 0x31C8_1FD1_0B9A_4270)
  {
    hide Xor;
    XorIs(0x95E5_2162_1897_C538, 0xB0B3_A18A_A3E0_0000, 0x2556_80E8_BB77_C538,
          0x95, 0xE5, 0x21, 0x62, 0x18, 0x97, 0xC5, 0x38, 0xB0, 0xB3, 0xA1, 0x8A, 0xA3, 0xE0, 0x00, 0x00);
    XorIs(0x7287_3320_F9AA_8090, 0x355B_F0A8_93AC_E6B3, 0x47DC_C388_6A06_6623,
          0x72, 0x87, 0x33, 0x20, 0xF9, 0xAA, 0x80, 0x90, 0x35, 0x5B, 0xF0, 0xA8, 0x93, 0xAC, 0xE6, 0xB3);
    XorIs(0x93F3_C20E_9CD3_6C55, 0x0000_0170_4678_EF2B, 0x93F3_C37E_DAAB_837E,
          0x93, 0xF3, 0xC2, 0x0E, 0x9C, 0xD3, 0x6C, 0x55, 0x00, 0x00, 0x01, 0x70, 0x46, 0x78, 0xEF, 0x2B);
    XorIs(0x1268_0388_DF5A_BB97, 0xFB2C_1886_FB59_A769, 0xE944_1B0E_2403_1CFE,
          0x12, 0x68, 0x03, 0x88, 0xDF, 0x5A, 0xBB, 0x97, 0xFB, 0x2C, 0x18, 0x86, 0xFB, 0x59, 0xA7, 0x69);
    XorIs(0x9A19_6F7F_099F_A4FC, 0x0123_4567_89AB_CDEF, 0x9B3A_2A18_8034_6913,
          0x9A, 0x19, 0x6F, 0x7F, 0x09, 0x9F, 0xA4, 0xFC, 0x01, 0x23, 0x45, 0x67, 0x89, 0xAB, 0xCD, 0xEF);
  }

  lemma TurnsFiveA()
    ensures Turns4(TestBox, Five, State(0x0123_4567_89AB_CDEF, 0xFEDC_BA98_7654_3210, 0xF096_A5B4_C3B2_E187),
                   0x0706_0504_0302_0100, 0x0F0E_0D0C_0B0A_0908, 0x1716_1514_1312_1110, 0x1F1E_1D1C_1B1A_1918)
         == State(0xA2C0_B189_EBCA_2211, 0xCACD_3B26_4F30_E20E, 0x46E2_74E0_30B7_7873)
  {
    hide Turn;
    TurnIs(Five, 0x0123_4567_89AB_CDEF, 0xFEDC_BA98_7654_3210, 0xF096_A5B4_C3B2_E187, 0x0706_0504_0302_0100, 0xF790_A0B0_C0B0_E087,
           0x9020003787, 0xE0206057F7, 0x0123_44D7_69AB_9668, 0xFA4F_A95A_F186_B223,
           0xF0, 0x96, 0xA5, 0xB4, 0xC3, 0xB2, 0xE1, 0x87, 0x07, 0x06, 0x05, 0x04, 0x03, 0x02, 0x01, 0x00);
    TurnIs(Five, 0xFA4F_A95A_F186_B223, 0xF790_A0B0_C0B0_E087, 0x0123_44D7_69AB_9668, 0x0F0E_0D0C_0B0A_0908, 0x0E2D_49DB_62A1_9F60,
           0x2DF67AC160, 0x9FFD2B470E, 0xFA4F_A92C_FB0B_F0C3, 0xD5D3_2693_B54C_C5E9,
           0x01, 0x23, 0x44, 0xD7, 0x69, 0xAB, 0x96, 0x68, 0x0F, 0x0E, 0x0D, 0x0C, 0x0B, 0x0A, 0x09, 0x08);
    TurnIs(Five, 0xD5D3_2693_B54C_C5E9, 0x0E2D_49DB_62A1_9F60, 0xFA4F_A92C_FB0B_F0C3, 0x1716_1514_1312_1110, 0xED59_BC38_E819_E1D3,
           0x596121CAD3, 0xE1095451ED, 0xD5D3_263A_542A_FB16, 0x46E2_75AE_1BCD_B681,
           0xFA, 0x4F, 0xA9, 0x2C, 0xFB, 0x0B, 0xF0, 0xC3, 0x17, 0x16, 0x15, 0x14, 0x13, 0x12, 0x11, 0x10);
    TurnIs(Five, 0x46E2_75AE_1BCD_B681, 0xED59_BC38_E819_E1D3, 0xD5D3_263A_542A_FB16, 0x1F1E_1D1C_1B1A_1918, 0xCACD_3B26_4F30_E20E,
           0xCDEB163E0E, 0xE2AD74F1CA, 0x46E2_74E0_30B7_7873, 0xA2C0_B189_EBCA_2211,
           0xD5, 0xD3, 0x26, 0x3A, 0x54, 0x2A, 0xFB, 0x16, 0x1F, 0x1E, 0x1D, 0x1C, 0x1B, 0x1A, 0x19, 0x18);
  }

  lemma TurnsFiveB()
    ensures Turns4(TestBox, Five, State(0xA2C0_B189_EBCA_2211, 0xCACD_3B26_4F30_E20E, 0x46E2_74E0_30B7_7873),
                   0x2726_2524_2322_2120, 0x2F2E_2D2C_2B2A_2928, 0x8036_3534_3332_3130, 0x0000_0000_0000_01B8)
         == State(0x4F04_999F_5A9E_7FC1, 0xE8D5_9ADD_4EB1_FD03, 0xC5A9_17FB_A76E_A439)
  {
    hide Turn;
    TurnIs(Five, 0xA2C0_B189_EBCA_2211, 0xCACD_3B26_4F30_E20E, 0x46E2_74E0_30B7_7873, 0x2726_2524_2322_2120, 0x61C4_51C4_1395_5953,
           0xC40051C653, 0x594A423061, 0xA2C0_B0C5_EB78_5BBE, 0xF602_297D_FF3F_5C2B,
           0x46, 0xE2, 0x74, 0xE0, 0x30, 0xB7, 0x78, 0x73, 0x27, 0x26, 0x25, 0x24, 0x23, 0x22, 0x21, 0x20);
    TurnIs(Five, 0xF602_297D_FF3F_5C2B, 0x61C4_51C4_1395_5953, 0xA2C0_B0C5_EB78_5BBE, 0x2F2E_2D2C_2B2A_2928, 0x8DEE_9DE9_C052_7296,
           0xEE07BBC496, 0x72B25D108D, 0xF602_288F_F783_9795, 0xE8D5_9B11_DDBC_1160,
           0xA2, 0xC0, 0xB0, 0xC5, 0xEB, 0x78, 0x5B, 0xBE, 0x2F, 0x2E, 0x2D, 0x2C, 0x2B, 0x2A, 0x29, 0x28);
    TurnIs(Five, 0xE8D5_9B11_DDBC_1160, 0x8DEE_9DE9_C052_7296, 0xF602_288F_F783_9795, 0x8036_3534_3332_3130, 0x7634_1DBB_C4B1_A6A5,
           0x348F0A14A5, 0xA662D96B76, 0xE8D5_9ADD_4EB1_FCBB, 0xC5A9_18D0_AFDB_563C,
           0xF6, 0x02, 0x28, 0x8F, 0xF7, 0x83, 0x97, 0x95, 0x80, 0x36, 0x35, 0x34, 0x33, 0x32, 0x31, 0x30);
    TurnIs(Five, 0xC5A9_18D0_AFDB_563C, 0x7634_1DBB_C4B1_A6A5, 0xE8D5_9ADD_4EB1_FCBB, 0x0000_0000_0000_01B8, 0xE8D5_9ADD_4EB1_FD03,
           0xD5086CB203, 0xFDB3D472E8, 0xC5A9_17FB_A76E_A439, 0x4F04_999F_5A9E_7FC1,
           0xE8, 0xD5, 0x9A, 0xDD, 0x4E, 0xB1, 0xFC, 0xBB, 0x00, 0x00, 0x00, 0x00, 0x00, 0x00, 0x01, 0xB8);
  }

  lemma TurnsSevenA()
    ensures Turns4(TestBox, Seven, State(0x4F04_999F_5A9E_7FC1, 0xE8D5_9ADD_4EB1_FD03, 0xC5A9_17FB_A76E_A439),
                   0xA155_8FB5_58C0_A38D, 0x9250_A6E9_C3ED_B25E, 0x17D4_C18F_AA85_D4A5, 0x4E09_B480_8BD7_86C2)
         == State(0x061B_DAAE_C379_64D1, 0x8CE1_848B_E301_2BDE, 0x0D4D_B354_C252_D56D)
  {
    hide Turn;
    TurnIs(Seven, 0x4F04_999F_5A9E_7FC1, 0xE8D5_9ADD_4EB1_FD03, 0xC5A9_17FB_A76E_A439, 0xA155_8FB5_58C0_A38D, 0x64FC_984E_FFAE_07B4,
           0xFCB2E01AB4, 0x7F867FC64, 0x4F04_98A2_A7BE_650D, 0x5DD7_3C44_F1B5_D1D1,
           0xC5, 0xA9, 0x17, 0xFB, 0xA7, 0x6E, 0xA4, 0x39, 0xA1, 0x55, 0x8F, 0xB5, 0x58, 0xC0, 0xA3, 0x8D);
    TurnIs(Seven, 0x5DD7_3C44_F1B5_D1D1, 0x64FC_984E_FFAE_07B4, 0x4F04_98A2_A7BE_650D, 0x9250_A6E9_C3ED_B25E, 0xDD54_3E4B_6453_D753,
           0x541F180053, 0xD7B35AE3DD, 0x5DD7_3BF0_D29D_D17E, 0xC2E8_300E_E53E_70F7,
           0x4F, 0x04, 0x98, 0xA2, 0xA7, 0xBE, 0x65, 0x0D, 0x92, 0x50, 0xA6, 0xE9, 0xC3, 0xED, 0xB2, 0x5E);
    TurnIs(Seven, 0xC2E8_300E_E53E_70F7, 0xDD54_3E4B_6453_D753, 0x5DD7_3BF0_D29D_D17E, 0x17D4_C18F_AA85_D4A5, 0x4A03_FA7F_7818_05DB,
           0x37C67C3DB, 0x57D82B04A, 0xC2E8_300B_68D6_AD1C, 0x0D4D_B436_2CDD_B54B,
           0x5D, 0xD7, 0x3B, 0xF0, 0xD2, 0x9D, 0xD1, 0x7E, 0x17, 0xD4, 0xC1, 0x8F, 0xAA, 0x85, 0xD4, 0xA5);
    TurnIs(Seven, 0x0D4D_B436_2CDD_B54B, 0x4A03_FA7F_7818_05DB, 0xC2E8_300B_68D6_AD1C, 0x4E09_B480_8BD7_86C2, 0x8CE1_848B_E301_2BDE,
           0xE16A8ADFDE, 0x2BC867088C, 0x0D4D_B354_C252_D56D, 0x061B_DAAE_C379_64D1,
           0xC2, 0xE8, 0x30, 0x0B, 0x68, 0xD6, 0xAD, 0x1C, 0x4E, 0x09, 0xB4, 0x80, 0x8B, 0xD7, 0x86, 0xC2);
  }

  lemma TurnsSevenB()
    ensures Turns4(TestBox, Seven, State(0x061B_DAAE_C379_64D1, 0x8CE1_848B_E301_2BDE, 0x0D4D_B354_C252_D56D),
                   0xC309_2283_E4C8_2CD5, 0x8348_2783_0955_90B0, 0xC33D_57DA_04B9_D7C2, 0x7DD7_1D99_6E52_2C7D)
         == State(0xAFA7_9CA4_4773_2C91, 0xDE37_1F17_8902_3F9F, 0xA54B_F705_7B40_7DAF)
  {
    hide Turn;
    TurnIs(Seven, 0x061B_DAAE_C379_64D1, 0x8CE1_848B_E301_2BDE, 0x0D4D_B354_C252_D56D, 0xC309_2283_E4C8_2CD5, 0xCE44_91D7_269A_F9B8,
           0x44934D22B8, 0xF9DFB75FCE, 0x061B_DA6A_302C_4219, 0xDA2A_A6A8_530B_D1B4,
           0x0D, 0x4D, 0xB3, 0x54, 0xC2, 0x52, 0xD5, 0x6D, 0xC3, 0x09, 0x22, 0x83, 0xE4, 0xC8, 0x2C, 0xD5);
    TurnIs(Seven, 0xDA2A_A6A8_530B_D1B4, 0xCE44_91D7_269A_F9B8, 0x061B_DA6A_302C_4219, 0x8348_2783_0955_90B0, 0x8553_FDE9_3979_D2A9,
           0x53BA90D0A9, 0xD2EBC47885, 0xDA2A_A654_987B_010B, 0xA3E0_02A6_809C_1FAB,
           0x06, 0x1B, 0xDA, 0x6A, 0x30, 0x2C, 0x42, 0x19, 0x83, 0x48, 0x27, 0x83, 0x09, 0x55, 0x90, 0xB0);
    TurnIs(Seven, 0xA3E0_02A6_809C_1FAB, 0x8553_FDE9_3979_D2A9, 0xDA2A_A654_987B_010B, 0xC33D_57DA_04B9_D7C2, 0x1917_F18E_9CC2_D6C9,
           0x17994C0BC9, 0xD64A6DE819, 0xA3E0_028E_E750_13E2, 0xA54B_F73C_9B56_1B4E,
           0xDA, 0x2A, 0xA6, 0x54, 0x98, 0x7B, 0x01, 0x0B, 0xC3, 0x3D, 0x57, 0xDA, 0x04, 0xB9, 0xD7, 0xC2);
    TurnIs(Seven, 0xA54B_F73C_9B56_1B4E, 0x1917_F18E_9CC2_D6C9, 0xA3E0_028E_E750_13E2, 0x7DD7_1D99_6E52_2C7D, 0xDE37_1F17_8902_3F9F,
           0x3720159D9F, 0x3FB696C1DE, 0xA54B_F705_7B40_7DAF, 0xAFA7_9CA4_4773_2C91,
           0xA3, 0xE0, 0x02, 0x8E, 0xE7, 0x50, 0x13, 0xE2, 0x7D, 0xD7, 0x1D, 0x99, 0x6E, 0x52, 0x2C, 0x7D);
  }

  lemma TurnsNineA()
    ensures Turns4(TestBox, Nine, State(0xAFA7_9CA4_4773_2C91, 0xDE37_1F17_8902_3F9F, 0xA54B_F705_7B40_7DAF),
                   0x95E5_2162_1897_C538, 0x355B_F0A8_93AC_E6B3, 0x47DC_C388_6A06_6623, 0x93F3_C20E_9CD3_6C55)
         == State(0xC993_D78C_D25E_8112, 0x25D6_4BFC_137F_3189, 0x72DF_C818_4BA2_8BD0)
  {
    hide Turn;
    TurnIs(Nine, 0xAFA7_9CA4_4773_2C91, 0xDE37_1F17_8902_3F9F, 0xA54B_F705_7B40_7DAF, 0x95E5_2162_1897_C538, 0x30AE_D667_63D7_B897,
           0xAEC9B04097, 0xB8DBB5E630, 0xAFA7_9BF5_7DC2_EBFA, 0xCFF0_1E53_8A79_5447,
           0xA5, 0x4B, 0xF7, 0x05, 0x7B, 0x40, 0x7D, 0xAF, 0x95, 0xE5, 0x21, 0x62, 0x18, 0x97, 0xC5, 0x38);
    TurnIs(Nine, 0xCFF0_1E53_8A79_5447, 0x30AE_D667_63D7_B897, 0xAFA7_9BF5_7DC2_EBFA, 0x355B_F0A8_93AC_E6B3, 0x9AFC_6B5D_EE6E_0D49,
           0xFCA1332749, 0xDE385F19A, 0xCFF0_1D56_E946_2CFE, 0xB625_8A1F_824A_FBB9,
           0xAF, 0xA7, 0x9B, 0xF5, 0x7D, 0xC2, 0xEB, 0xFA, 0x35, 0x5B, 0xF0, 0xA8, 0x93, 0xAC, 0xE6, 0xB3);
    TurnIs(Nine, 0xB625_8A1F_824A_FBB9, 0x9AFC_6B5D_EE6E_0D49, 0xCFF0_1D56_E946_2CFE, 0x47DC_C388_6A06_6623, 0x882C_DEDE_8340_4ADD,
           0x2CF29E9DDD, 0x4AC95D5688, 0xB625_89F2_8FAC_5DDC, 0x72DF_C8EE_7626_8259,
           0xCF, 0xF0, 0x1D, 0x56, 0xE9, 0x46, 0x2C, 0xFE, 0x47, 0xDC, 0xC3, 0x88, 0x6A, 0x06, 0x66, 0x23);
    TurnIs(Nine, 0x72DF_C8EE_7626_8259, 0x882C_DEDE_8340_4ADD, 0xB625_89F2_8FAC_5DDC, 0x93F3_C20E_9CD3_6C55, 0x25D6_4BFC_137F_3189,
           0xD62A83F689, 0x3122586E25, 0x72DF_C818_4BA2_8BD0, 0xC993_D78C_D25E_8112,
           0xB6, 0x25, 0x89, 0xF2, 0x8F, 0xAC, 0x5D, 0xDC, 0x93, 0xF3, 0xC2, 0x0E, 0x9C, 0xD3, 0x6C, 0x55);
  }

  lemma TurnsNineB()
    ensures Turns4(TestBox, Nine, State(0xC993_D78C_D25E_8112, 0x25D6_4BFC_137F_3189, 0x72DF_C818_4BA2_8BD0),
                   0xFB2C_1886_FB59_A769, 0xE944_1B0E_2403_1CFE, 0x9A19_6F7F_099F_A4FC, 0x31C8_1FD1_0B9A_4270)
         == State(0x431F_E96E_179C_DA67, 0xE85A_49E9_3C22_B0EA, 0x2796_3B26_8C43_EB33)
  {
    hide Turn;
    TurnIs(Nine, 0xC993_D78C_D25E_8112, 0x25D6_4BFC_137F_3189, 0x72DF_C818_4BA2_8BD0, 0xFB2C_1886_FB59_A769, 0x89F3_D09E_B0FB_2CB9,
           0xF36D6542B9, 0x2C9C605989, 0xC993_D699_64F9_3E59, 0x5488_AD6E_2EDB_E3A2,
           0x72, 0xDF, 0xC8, 0x18, 0x4B, 0xA2, 0x8B, 0xD0, 0xFB, 0x2C, 0x18, 0x86, 0xFB, 0x59, 0xA7, 0x69);
    TurnIs(Nine, 0x5488_AD6E_2EDB_E3A2, 0x89F3_D09E_B0FB_2CB9, 0xC993_D699_64F9_3E59, 0xE944_1B0E_2403_1CFE, 0x20D7_CD97_40FA_22A7,
           0xD7406D5DA7, 0x22628DED20, 0x5488_AC96_EE6E_85FB, 0xD992_56C9_AFD1_E8A1,
           0xC9, 0x93, 0xD6, 0x99, 0x64, 0xF9, 0x3E, 0x59, 0xE9, 0x44, 0x1B, 0x0E, 0x24, 0x03, 0x1C, 0xFE);
    TurnIs(Nine, 0xD992_56C9_AFD1_E8A1, 0x20D7_CD97_40FA_22A7, 0x5488_AC96_EE6E_85FB, 0x9A19_6F7F_099F_A4FC, 0xCE91_C3E9_E7F1_2107,
           0x917818F607, 0x21C6240DCE, 0xD992_5638_37B8_F29A, 0x2796_3B81_400F_B41D,
           0x54, 0x88, 0xAC, 0x96, 0xEE, 0x6E, 0x85, 0xFB, 0x9A, 0x19, 0x6F, 0x7F, 0x09, 0x9F, 0xA4, 0xFC);
    TurnIs(Nine, 0x2796_3B81_400F_B41D, 0xCE91_C3E9_E7F1_2107, 0xD992_5638_37B8_F29A, 0x31C8_1FD1_0B9A_4270, 0xE85A_49E9_3C22_B0EA,
           0x5AB3CBC8EA, 0xB08C75A1E8, 0x2796_3B26_8C43_EB33, 0x431F_E96E_179C_DA67,
           0xD9, 0x92, 0x56, 0x38, 0x37, 0xB8, 0xF2, 0x9A, 0x31, 0xC8, 0x1F, 0xD1, 0x0B, 0x9A, 0x42, 0x70);
  }

  /** The eight words of a block, and what the key schedule makes of them, once and again. */
  const KEY_1 := Key(0x0706_0504_0302_0100, 0x0F0E_0D0C_0B0A_0908, 0x1716_1514_1312_1110, 0x1F1E_1D1C_1B1A_1918,
             0x2726_2524_2322_2120, 0x2F2E_2D2C_2B2A_2928, 0x8036_3534_3332_3130, 0x0000_0000_0000_01B8)

  const KEY_2 := Key(0xA155_8FB5_58C0_A38D, 0x9250_A6E9_C3ED_B25E, 0x17D4_C18F_AA85_D4A5, 0x4E09_B480_8BD7_86C2,
             0xC309_2283_E4C8_2CD5, 0x8348_2783_0955_90B0, 0xC33D_57DA_04B9_D7C2, 0x7DD7_1D99_6E52_2C7D)

  const KEY_3 := Key(0x95E5_2162_1897_C538, 0x355B_F0A8_93AC_E6B3, 0x47DC_C388_6A06_6623, 0x93F3_C20E_9CD3_6C55,
             0xFB2C_1886_FB59_A769, 0xE944_1B0E_2403_1CFE, 0x9A19_6F7F_099F_A4FC, 0x31C8_1FD1_0B9A_4270)

  lemma KnownSchedule()
    ensures Schedule(KEY_1) == KEY_2 && Schedule(KEY_2) == KEY_3
  {
    hide FirstHalf;
    hide SecondHalf;
    FirstHalfOfKey();
    SecondHalfOfKey();
    FirstHalfAgain();
    SecondHalfAgain();
  }

  lemma PassFive()
    ensures Pass(TestBox, Five, State(0x0123_4567_89AB_CDEF, 0xFEDC_BA98_7654_3210, 0xF096_A5B4_C3B2_E187), KEY_1)
         == State(0xE8D5_9ADD_4EB1_FD03, 0xC5A9_17FB_A76E_A439, 0x4F04_999F_5A9E_7FC1)
  {
    hide Turns4;
    TurnsFiveA();
    TurnsFiveB();
  }

  lemma PassSeven()
    ensures Pass(TestBox, Seven, State(0x4F04_999F_5A9E_7FC1, 0xE8D5_9ADD_4EB1_FD03, 0xC5A9_17FB_A76E_A439), KEY_2)
         == State(0xDE37_1F17_8902_3F9F, 0xA54B_F705_7B40_7DAF, 0xAFA7_9CA4_4773_2C91)
  {
    hide Turns4;
    TurnsSevenA();
    TurnsSevenB();
  }

  lemma PassNine()
    ensures Pass(TestBox, Nine, State(0xAFA7_9CA4_4773_2C91, 0xDE37_1F17_8902_3F9F, 0xA54B_F705_7B40_7DAF), KEY_3)
         == State(0xE85A_49E9_3C22_B0EA, 0x2796_3B26_8C43_EB33, 0x431F_E96E_179C_DA67)
  {
    hide Turns4;
    TurnsNineA();
    TurnsNineB();
  }

  /** Fifty-five bytes that count from 0. */
  function Message(): Bytes { seq(55, i requires 0 <= i < 55 => i) }

  lemma LoadedAt(b: Block, k: nat)
    requires k <= 56
    ensures LoadWord(b[k..k + 8]) == Bytes8(b[k + 7], b[k + 6], b[k + 5], b[k + 4], b[k + 3], b[k + 2], b[k + 1], b[k])
  {
    hide Bytes8;
    LoadedBytes(b[k..k + 8]);
  }

  lemma CountedWord(b: Block, k: nat)
    requires k <= 40 && forall j :: 0 <= j < 55 ==> b[j] == j
    ensures LoadWord(b[k..k + 8]) == 0x0706_0504_0302_0100 + 0x0101_0101_0101_0101 * k
  {
    LoadedAt(b, k);
    hide LoadWord;
  }

  /** A block with this message in it, the pad byte and the length of 440 bits. */
  predicate IsPadded(b: Block) {
    && (forall k :: 0 <= k < 55 ==> b[k] == k)
    && b[55] == 0x80 && b[56] == 0xB8 && b[57] == 1 && forall k :: 58 <= k < 64 ==> b[k] == 0
  }

  lemma LastWords(b: Block)
    requires IsPadded(b)
    ensures LoadWord(b[48..56]) == 0x8036_3534_3332_3130 && LoadWord(b[56..64]) == 0x0000_0000_0000_01B8
  {
    LoadedAt(b, 48);
    LoadedAt(b, 56);
    hide LoadWord;
  }

  lemma MessageKey(b: Block)
    requires IsPadded(b)
    ensures KeyOf(b) == KEY_1
  {
    LastWords(b);
    CountedWord(b, 0);
    CountedWord(b, 8);
    CountedWord(b, 16);
    CountedWord(b, 24);
    CountedWord(b, 32);
    CountedWord(b, 40);
    hide LoadWord;
    hide IsPadded;
  }

  const START := State(0x0123_4567_89AB_CDEF, 0xFEDC_BA98_7654_3210, 0xF096_A5B4_C3B2_E187)

  const AFTER_PASSES := State(0x431F_E96E_179C_DA67, 0xE85A_49E9_3C22_B0EA, 0x2796_3B26_8C43_EB33)

  const AFTER_BLOCK := State(0x423C_AC09_9E37_1788, 0xE97D_8F50_C5CE_7EDA, 0x182C_E0DB_4FF6_CCBA)

  lemma KnownPasses()
    ensures Passes(TestBox, KEY_1, START) == AFTER_PASSES
  {
    hide Schedule;
    hide Pass;
    KnownSchedule();
    PassFive();
    PassSeven();
    PassNine();
  }

  /** The three words fed forward. */
  lemma FedForward()
    ensures Xor(AFTER_PASSES.a, START.a) == AFTER_BLOCK.a
    ensures Sub(AFTER_PASSES.b, START.b) == AFTER_BLOCK.b && Add(AFTER_PASSES.c, START.c) == AFTER_BLOCK.c
  {
    XorIs(0x431F_E96E_179C_DA67, 0x0123_4567_89AB_CDEF, 0x423C_AC09_9E37_1788,
          0x43, 0x1F, 0xE9, 0x6E, 0x17, 0x9C, 0xDA, 0x67, 0x01, 0x23, 0x45, 0x67, 0x89, 0xAB, 0xCD, 0xEF);
    hide Xor;
  }

  /** One block from the initial state, as numbers. */
  lemma KnownBlock(b: Block)
    requires IsPadded(b)
    ensures Compress(TestBox, START, b) == AFTER_BLOCK
  {
    MessageKey(b);
    KnownPasses();
    FedForward();
    hide KeyOf;
    hide Passes;
    hide KEY_1;
    hide START;
    hide AFTER_PASSES;
    hide AFTER_BLOCK;
    hide Xor;
    hide Add;
    hide Sub;
  }

  lemma LengthOfMessage()
    ensures LengthBytes(55) == [0xB8, 1, 0, 0, 0, 0, 0, 0]
  {
    assert BytesOf(0, 2) == [0, 0];
    assert BytesOf(0, 4) == [0, 0, 0, 0];
    assert BytesOf(0, 6) == [0, 0, 0, 0, 0, 0];
    assert BytesOf(1, 7) == [1, 0, 0, 0, 0, 0, 0];
    assert BytesOf(440, 8) == [0xB8, 1, 0, 0, 0, 0, 0, 0];
  }

  /** The hash of a text, as numbers: initial state, padding, length and order of bytes. */
  lemma KnownHash()
    ensures Hash(TestBox, Message(), TIGER_PADDING) == AFTER_BLOCK
  {
    var padded := Message() + Padding(55, 55, TIGER_PADDING);
    LengthOfMessage();
    assert Padding(55, 55, TIGER_PADDING) == [0x80] + Zeros(0) + LengthBytes(55);
    assert |padded| == 64;
    hide Padding;
    hide LengthBytes;
    hide Fold;
    KnownBlock(padded);
    FoldOne(TestBox, INITIAL, padded);
  }
}
