/** CRC-32 against its published check value (crates/gitility-core/src/cursor.rs). */
module CheckValues {
  import opened Basics
  import opened Cursors

  /** Eight shifts, one at a time. */
  lemma EightShifts(x: seq<bv32>)
    requires |x| == 9 && forall i :: 0 <= i < 8 ==> CrcShift(x[i]) == x[i + 1]
    ensures CrcShifts(x[0], 8) == x[8]
  {
    hide CrcShift;
    ShiftsFrom(x, 0);
  }

  lemma {:induction false} ShiftsFrom(x: seq<bv32>, i: nat)
    requires |x| == 9 && i <= 8 && forall j :: 0 <= j < 8 ==> CrcShift(x[j]) == x[j + 1]
    ensures CrcShifts(x[i], 8 - i) == x[8]
    decreases 8 - i
  {
    hide CrcShift;
    if i < 8 {
      ShiftsFrom(x, i + 1);
    }
  }

  lemma Feed(crc: bv32, b: byte, word: bv32, x: seq<bv32>)
    requires ByteWord(b) == word && |x| == 9 && x[0] == crc ^ word && forall i :: 0 <= i < 8 ==> CrcShift(x[i]) == x[i + 1]
    ensures CrcByte(crc, b) == x[8]
  {
    hide CrcShift, ByteWord;
    EightShifts(x);
  }

  function Bit(b: bool): nat {
    if b then 1 else 0
  }

  lemma ValueFrom(bits: seq<bool>, i: nat)
    requires i < |bits|
    ensures BitsValue(bits[i..]) == Bit(bits[i]) + 2 * BitsValue(bits[i + 1..])
  {
    assert bits[i..][1..] == bits[i + 1..];
  }

  /** Eight bits, least significant first, and the byte they stand for. */
  predicate BitsAre(bits: seq<bool>, b: byte) {
    && |bits| == 8
    && b == Bit(bits[0]) + 2 * Bit(bits[1]) + 4 * Bit(bits[2]) + 8 * Bit(bits[3])
         + 16 * Bit(bits[4]) + 32 * Bit(bits[5]) + 64 * Bit(bits[6]) + 128 * Bit(bits[7])
  }

  lemma FourValue(bits: seq<bool>, i: nat)
    requires i + 4 <= |bits|
    ensures BitsValue(bits[i..])
      == Bit(bits[i]) + 2 * Bit(bits[i + 1]) + 4 * Bit(bits[i + 2]) + 8 * Bit(bits[i + 3]) + 16 * BitsValue(bits[i + 4..])
  {
    hide BitsValue, Bit, Pow2;
    ValueFrom(bits, i);
    ValueFrom(bits, i + 1);
    ValueFrom(bits, i + 2);
    ValueFrom(bits, i + 3);
  }

  lemma EightValue(bits: seq<bool>, b: byte)
    requires BitsAre(bits, b)
    ensures BitsValue(bits) == b
  {
    hide BitsValue, Bit, Pow2;
    FourValue(bits, 0);
    FourValue(bits, 4);
    ValueNothing();
    assert bits[0..] == bits && bits[8..] == [];
  }

  lemma EightBits(bits: seq<bool>, b: byte)
    requires BitsAre(bits, b)
    ensures ByteWord(b) == BitsWord(bits)
  {
    hide BitsOf, BitsValue, BitsWord, Bit, Pow2;
    EightValue(bits, b);
    BitsOfBitsValue(bits);
  }

  lemma ValueNothing()
    ensures BitsValue([]) == 0
  {
  }

  lemma FeedDigit1()
    ensures CrcByte(0xffff_ffff, 49) == 0x7c23_1048
  {
    hide ByteWord, CrcByte;
    EightBits([true, false, false, false, true, true, false, false], 49);
    Feed(0xffff_ffff, 49, 0x31, [0xffff_ffce, 0x7fff_ffe7, 0xd247_7cd3, 0x849b_3d49, 0xaff5_1d84, 0x57fa_8ec2, 0x2bfd_4761, 0xf846_2090, 0x7c23_1048]);
  }

  lemma FeedDigit2()
    ensures CrcByte(0x7c23_1048, 50) == 0xb0ac_bb32
  {
    hide ByteWord, CrcByte;
    EightBits([false, true, false, false, true, true, false, false], 50);
    Feed(0x7c23_1048, 50, 0x32, [0x7c23_107a, 0x3e11_883d, 0xf2b0_473e, 0x7958_239f, 0xd114_92ef, 0x8532_ca57, 0xaf21_e60b, 0xba28_7025, 0xb0ac_bb32]);
  }

  lemma FeedDigit3()
    ensures CrcByte(0xb0ac_bb32, 51) == 0x77b7_9c2d
  {
    hide ByteWord, CrcByte;
    EightBits([true, true, false, false, true, true, false, false], 51);
    Feed(0xb0ac_bb32, 51, 0x33, [0xb0ac_bb01, 0xb5ee_dea0, 0x5af7_6f50, 0x2d7b_b7a8, 0x16bd_dbd4, 0x0b5e_edea, 0x05af_76f5, 0xef6f_385a, 0x77b7_9c2d]);
  }

  lemma FeedDigit4()
    ensures CrcByte(0x77b7_9c2d, 52) == 0x641c_1f5c
  {
    hide ByteWord, CrcByte;
    EightBits([false, false, true, false, true, true, false, false], 52);
    Feed(0x77b7_9c2d, 52, 0x34, [0x77b7_9c19, 0xd663_4d2c, 0x6b31_a696, 0x3598_d34b, 0xf774_ea85, 0x9602_f662, 0x4b01_7b31, 0xc838_3eb8, 0x641c_1f5c]);
  }

  lemma FeedDigit5()
    ensures CrcByte(0x641c_1f5c, 53) == 0x340a_c5e3
  {
    hide ByteWord, CrcByte;
    EightBits([true, false, true, false, true, true, false, false], 53);
    Feed(0x641c_1f5c, 53, 0x35, [0x641c_1f69, 0xdfb6_8c94, 0x6fdb_464a, 0x37ed_a325, 0xf64e_52b2, 0x7b27_2959, 0xd02b_178c, 0x6815_8bc6, 0x340a_c5e3]);
  }

  lemma FeedDigit6()
    ensures CrcByte(0x340a_c5e3, 54) == 0xf68d_2c9e
  {
    hide ByteWord, CrcByte;
    EightBits([false, true, true, false, true, true, false, false], 54);
    Feed(0x340a_c5e3, 54, 0x36, [0x340a_c5d5, 0xf7bd_e1ca, 0x7bde_f0e5, 0xd057_fb52, 0x682b_fda9, 0xd9ad_7df4, 0x6cd6_befa, 0x366b_5f7d, 0xf68d_2c9e]);
  }

  lemma FeedDigit7()
    ensures CrcByte(0xf68d_2c9e, 55) == 0xaffc_9660
  {
    hide ByteWord, CrcByte;
    EightBits([true, true, true, false, true, true, false, false], 55);
    Feed(0xf68d_2c9e, 55, 0x37, [0xf68d_2ca9, 0x96fe_1574, 0x4b7f_0aba, 0x25bf_855d, 0xff67_418e, 0x7fb3_a0c7, 0xd261_5343, 0x8488_2a81, 0xaffc_9660]);
  }

  lemma FeedDigit8()
    ensures CrcByte(0xaffc_9660, 56) == 0x651f_2550
  {
    hide ByteWord, CrcByte;
    EightBits([false, false, false, true, true, true, false, false], 56);
    Feed(0xaffc_9660, 56, 0x38, [0xaffc_9658, 0x57fe_4b2c, 0x2bff_2596, 0x15ff_92cb, 0xe747_4a45, 0x9e1b_2602, 0x4f0d_9301, 0xca3e_4aa0, 0x651f_2550]);
  }

  lemma FeedDigit9()
    ensures CrcByte(0x651f_2550, 57) == 0x340b_c6d9
  {
    hide ByteWord, CrcByte;
    EightBits([true, false, false, true, true, true, false, false], 57);
    Feed(0x651f_2550, 57, 0x39, [0x651f_2569, 0xdf37_1194, 0x6f9b_88ca, 0x37cd_c465, 0xf65e_6112, 0x7b2f_3089, 0xd02f_1b64, 0x6817_8db2, 0x340b_c6d9]);
  }

  lemma FoldCons(crc: bv32, b: byte, rest: seq<byte>)
    ensures CrcFold(crc, [b] + rest) == CrcFold(CrcByte(crc, b), rest)
  {
    hide CrcByte;
    assert ([b] + rest)[1..] == rest;
  }

  lemma FoldNothing(crc: bv32)
    ensures CrcFold(crc, []) == crc
  {
  }

  /** The check value of CRC-32: the checksum of the ASCII digits 1 to 9. */
  lemma CheckValue()
    ensures Crc32([49, 50, 51, 52, 53, 54, 55, 56, 57]) == 0xcbf4_3926
  {
    hide CrcByte, CrcFold;
    FeedDigit1();
    FoldCons(0xffff_ffff, 49, [50, 51, 52, 53, 54, 55, 56, 57]);
    assert [49] + [50, 51, 52, 53, 54, 55, 56, 57] == [49, 50, 51, 52, 53, 54, 55, 56, 57];
    FeedDigit2();
    FoldCons(0x7c23_1048, 50, [51, 52, 53, 54, 55, 56, 57]);
    assert [50] + [51, 52, 53, 54, 55, 56, 57] == [50, 51, 52, 53, 54, 55, 56, 57];
    FeedDigit3();
    FoldCons(0xb0ac_bb32, 51, [52, 53, 54, 55, 56, 57]);
    assert [51] + [52, 53, 54, 55, 56, 57] == [51, 52, 53, 54, 55, 56, 57];
    FeedDigit4();
    FoldCons(0x77b7_9c2d, 52, [53, 54, 55, 56, 57]);
    assert [52] + [53, 54, 55, 56, 57] == [52, 53, 54, 55, 56, 57];
    FeedDigit5();
    FoldCons(0x641c_1f5c, 53, [54, 55, 56, 57]);
    assert [53] + [54, 55, 56, 57] == [53, 54, 55, 56, 57];
    FeedDigit6();
    FoldCons(0x340a_c5e3, 54, [55, 56, 57]);
    assert [54] + [55, 56, 57] == [54, 55, 56, 57];
    FeedDigit7();
    FoldCons(0xf68d_2c9e, 55, [56, 57]);
    assert [55] + [56, 57] == [55, 56, 57];
    FeedDigit8();
    FoldCons(0xaffc_9660, 56, [57]);
    assert [56] + [57] == [56, 57];
    FeedDigit9();
    FoldCons(0x651f_2550, 57, []);
    assert [57] + [] == [57];
    FoldNothing(0x340b_c6d9);
  }

  lemma LowByteIs(x: bv32, bits: seq<bool>, b: byte)
    requires WordBits(x) == bits && BitsValue(bits) == b
    ensures LowByte(x) == b
  {
  }

  /** The same digits end in their checksum with its lowest byte first. */
  lemma CheckTrailer()
    ensures Trailer([49, 50, 51, 52, 53, 54, 55, 56, 57]) == [0x26, 0x39, 0xf4, 0xcb]
  {
    hide Crc32, LowByte, BitsValue;
    CheckValue();
    EightValue([false, true, true, false, false, true, false, false], 0x26);
    LowByteIs(0xcbf4_3926, [false, true, true, false, false, true, false, false], 0x26);
    EightValue([true, false, false, true, true, true, false, false], 0x39);
    LowByteIs(0xcbf439, [true, false, false, true, true, true, false, false], 0x39);
    EightValue([false, false, true, false, true, true, true, true], 0xf4);
    LowByteIs(0xcbf4, [false, false, true, false, true, true, true, true], 0xf4);
    EightValue([true, true, false, true, false, false, true, true], 0xcb);
    LowByteIs(0xcb, [true, true, false, true, false, false, true, true], 0xcb);
  }

  /** Field lengths are written lowest byte first. */
  lemma LowestByteFirst(len: nat)
    requires len <= U16_MAX
    ensures LengthBytes(len) == [len % 256, len / 256]
  {
    assert LeBytes(len / 256, 1) == [len / 256 % 256] + LeBytes(len / 256 / 256, 0);
  }
}
