/**
 * The 256 entries of the CRC-32 table, as the source lists them: each is eight steps of the
 * polynomial. The rows are sums of their first entry and the first row, the register is linear,
 * and the 31 entries that leaves are computed on words.
 */
module CrcTable {
  import opened Bytes
  import opened Bits
  import opened ShiftRegister
  import opened Words
  import Crc32

  const ROW0: seq<bv32> := [
    0x0000_0000, 0x7707_3096, 0xEE0E_612C, 0x9909_51BA, 0x076D_C419, 0x706A_F48F, 0xE963_A535, 0x9E64_95A3,
    0x0EDB_8832, 0x79DC_B8A4, 0xE0D5_E91E, 0x97D2_D988, 0x09B6_4C2B, 0x7EB1_7CBD, 0xE7B8_2D07, 0x90BF_1D91]
  const ROW1: seq<bv32> := [
    0x1DB7_1064, 0x6AB0_20F2, 0xF3B9_7148, 0x84BE_41DE, 0x1ADA_D47D, 0x6DDD_E4EB, 0xF4D4_B551, 0x83D3_85C7,
    0x136C_9856, 0x646B_A8C0, 0xFD62_F97A, 0x8A65_C9EC, 0x1401_5C4F, 0x6306_6CD9, 0xFA0F_3D63, 0x8D08_0DF5]
  const ROW2: seq<bv32> := [
    0x3B6E_20C8, 0x4C69_105E, 0xD560_41E4, 0xA267_7172, 0x3C03_E4D1, 0x4B04_D447, 0xD20D_85FD, 0xA50A_B56B,
    0x35B5_A8FA, 0x42B2_986C, 0xDBBB_C9D6, 0xACBC_F940, 0x32D8_6CE3, 0x45DF_5C75, 0xDCD6_0DCF, 0xABD1_3D59]
  const ROW3: seq<bv32> := [
    0x26D9_30AC, 0x51DE_003A, 0xC8D7_5180, 0xBFD0_6116, 0x21B4_F4B5, 0x56B3_C423, 0xCFBA_9599, 0xB8BD_A50F,
    0x2802_B89E, 0x5F05_8808, 0xC60C_D9B2, 0xB10B_E924, 0x2F6F_7C87, 0x5868_4C11, 0xC161_1DAB, 0xB666_2D3D]
  const ROW4: seq<bv32> := [
    0x76DC_4190, 0x01DB_7106, 0x98D2_20BC, 0xEFD5_102A, 0x71B1_8589, 0x06B6_B51F, 0x9FBF_E4A5, 0xE8B8_D433,
    0x7807_C9A2, 0x0F00_F934, 0x9609_A88E, 0xE10E_9818, 0x7F6A_0DBB, 0x086D_3D2D, 0x9164_6C97, 0xE663_5C01]
  const ROW5: seq<bv32> := [
    0x6B6B_51F4, 0x1C6C_6162, 0x8565_30D8, 0xF262_004E, 0x6C06_95ED, 0x1B01_A57B, 0x8208_F4C1, 0xF50F_C457,
    0x65B0_D9C6, 0x12B7_E950, 0x8BBE_B8EA, 0xFCB9_887C, 0x62DD_1DDF, 0x15DA_2D49, 0x8CD3_7CF3, 0xFBD4_4C65]
  const ROW6: seq<bv32> := [
    0x4DB2_6158, 0x3AB5_51CE, 0xA3BC_0074, 0xD4BB_30E2, 0x4ADF_A541, 0x3DD8_95D7, 0xA4D1_C46D, 0xD3D6_F4FB,
    0x4369_E96A, 0x346E_D9FC, 0xAD67_8846, 0xDA60_B8D0, 0x4404_2D73, 0x3303_1DE5, 0xAA0A_4C5F, 0xDD0D_7CC9]
  const ROW7: seq<bv32> := [
    0x5005_713C, 0x2702_41AA, 0xBE0B_1010, 0xC90C_2086, 0x5768_B525, 0x206F_85B3, 0xB966_D409, 0xCE61_E49F,
    0x5EDE_F90E, 0x29D9_C998, 0xB0D0_9822, 0xC7D7_A8B4, 0x59B3_3D17, 0x2EB4_0D81, 0xB7BD_5C3B, 0xC0BA_6CAD]
  const ROW8: seq<bv32> := [
    0xEDB8_8320, 0x9ABF_B3B6, 0x03B6_E20C, 0x74B1_D29A, 0xEAD5_4739, 0x9DD2_77AF, 0x04DB_2615, 0x73DC_1683,
    0xE363_0B12, 0x9464_3B84, 0x0D6D_6A3E, 0x7A6A_5AA8, 0xE40E_CF0B, 0x9309_FF9D, 0x0A00_AE27, 0x7D07_9EB1]
  const ROW9: seq<bv32> := [
    0xF00F_9344, 0x8708_A3D2, 0x1E01_F268, 0x6906_C2FE, 0xF762_575D, 0x8065_67CB, 0x196C_3671, 0x6E6B_06E7,
    0xFED4_1B76, 0x89D3_2BE0, 0x10DA_7A5A, 0x67DD_4ACC, 0xF9B9_DF6F, 0x8EBE_EFF9, 0x17B7_BE43, 0x60B0_8ED5]
  const ROW10: seq<bv32> := [
    0xD6D6_A3E8, 0xA1D1_937E, 0x38D8_C2C4, 0x4FDF_F252, 0xD1BB_67F1, 0xA6BC_5767, 0x3FB5_06DD, 0x48B2_364B,
    0xD80D_2BDA, 0xAF0A_1B4C, 0x3603_4AF6, 0x4104_7A60, 0xDF60_EFC3, 0xA867_DF55, 0x316E_8EEF, 0x4669_BE79]
  const ROW11: seq<bv32> := [
    0xCB61_B38C, 0xBC66_831A, 0x256F_D2A0, 0x5268_E236, 0xCC0C_7795, 0xBB0B_4703, 0x2202_16B9, 0x5505_262F,
    0xC5BA_3BBE, 0xB2BD_0B28, 0x2BB4_5A92, 0x5CB3_6A04, 0xC2D7_FFA7, 0xB5D0_CF31, 0x2CD9_9E8B, 0x5BDE_AE1D]
  const ROW12: seq<bv32> := [
    0x9B64_C2B0, 0xEC63_F226, 0x756A_A39C, 0x026D_930A, 0x9C09_06A9, 0xEB0E_363F, 0x7207_6785, 0x0500_5713,
    0x95BF_4A82, 0xE2B8_7A14, 0x7BB1_2BAE, 0x0CB6_1B38, 0x92D2_8E9B, 0xE5D5_BE0D, 0x7CDC_EFB7, 0x0BDB_DF21]
  const ROW13: seq<bv32> := [
    0x86D3_D2D4, 0xF1D4_E242, 0x68DD_B3F8, 0x1FDA_836E, 0x81BE_16CD, 0xF6B9_265B, 0x6FB0_77E1, 0x18B7_4777,
    0x8808_5AE6, 0xFF0F_6A70, 0x6606_3BCA, 0x1101_0B5C, 0x8F65_9EFF, 0xF862_AE69, 0x616B_FFD3, 0x166C_CF45]
  const ROW14: seq<bv32> := [
    0xA00A_E278, 0xD70D_D2EE, 0x4E04_8354, 0x3903_B3C2, 0xA767_2661, 0xD060_16F7, 0x4969_474D, 0x3E6E_77DB,
    0xAED1_6A4A, 0xD9D6_5ADC, 0x40DF_0B66, 0x37D8_3BF0, 0xA9BC_AE53, 0xDEBB_9EC5, 0x47B2_CF7F, 0x30B5_FFE9]
  const ROW15: seq<bv32> := [
    0xBDBD_F21C, 0xCABA_C28A, 0x53B3_9330, 0x24B4_A3A6, 0xBAD0_3605, 0xCDD7_0693, 0x54DE_5729, 0x23D9_67BF,
    0xB366_7A2E, 0xC461_4AB8, 0x5D68_1B02, 0x2A6F_2B94, 0xB40B_BE37, 0xC30C_8EA1, 0x5A05_DF1B, 0x2D02_EF8D]

  function Row(r: nat): (row: seq<bv32>)
    requires r < 16
    ensures |row| == 16
  {
    match r
    case 0 => ROW0
    case 1 => ROW1
    case 2 => ROW2
    case 3 => ROW3
    case 4 => ROW4
    case 5 => ROW5
    case 6 => ROW6
    case 7 => ROW7
    case 8 => ROW8
    case 9 => ROW9
    case 10 => ROW10
    case 11 => ROW11
    case 12 => ROW12
    case 13 => ROW13
    case 14 => ROW14
    case _ => ROW15
  }

  /** The table of the source, looked up by a byte. */
  function Entry(i: Byte): bv32 {
    Row(i / 16)[i % 16]
  }

  /** Every row is its first entry added to the first row. */
  lemma Row1Adds(j: nat)
    requires j < 16
    ensures ROW1[j] == ROW1[0] ^ ROW0[j]
  {
  }

  lemma Row2Adds(j: nat)
    requires j < 16
    ensures ROW2[j] == ROW2[0] ^ ROW0[j]
  {
  }

  lemma Row3Adds(j: nat)
    requires j < 16
    ensures ROW3[j] == ROW3[0] ^ ROW0[j]
  {
  }

  lemma Row4Adds(j: nat)
    requires j < 16
    ensures ROW4[j] == ROW4[0] ^ ROW0[j]
  {
  }

  lemma Row5Adds(j: nat)
    requires j < 16
    ensures ROW5[j] == ROW5[0] ^ ROW0[j]
  {
  }

  lemma Row6Adds(j: nat)
    requires j < 16
    ensures ROW6[j] == ROW6[0] ^ ROW0[j]
  {
  }

  lemma Row7Adds(j: nat)
    requires j < 16
    ensures ROW7[j] == ROW7[0] ^ ROW0[j]
  {
  }

  lemma Row8Adds(j: nat)
    requires j < 16
    ensures ROW8[j] == ROW8[0] ^ ROW0[j]
  {
  }

  lemma Row9Adds(j: nat)
    requires j < 16
    ensures ROW9[j] == ROW9[0] ^ ROW0[j]
  {
  }

  lemma Row10Adds(j: nat)
    requires j < 16
    ensures ROW10[j] == ROW10[0] ^ ROW0[j]
  {
  }

  lemma Row11Adds(j: nat)
    requires j < 16
    ensures ROW11[j] == ROW11[0] ^ ROW0[j]
  {
  }

  lemma Row12Adds(j: nat)
    requires j < 16
    ensures ROW12[j] == ROW12[0] ^ ROW0[j]
  {
  }

  lemma Row13Adds(j: nat)
    requires j < 16
    ensures ROW13[j] == ROW13[0] ^ ROW0[j]
  {
  }

  lemma Row14Adds(j: nat)
    requires j < 16
    ensures ROW14[j] == ROW14[0] ^ ROW0[j]
  {
  }

  lemma Row15Adds(j: nat)
    requires j < 16
    ensures ROW15[j] == ROW15[0] ^ ROW0[j]
  {
  }

  lemma RowsAdd(r: nat, j: nat)
    requires r < 16 && j < 16
    ensures Row(r)[j] == Row(r)[0] ^ Row(0)[j]
  {
    hide ROW1, ROW2, ROW3, ROW4, ROW5, ROW6, ROW7, ROW8, ROW9, ROW10, ROW11, ROW12, ROW13, ROW14, ROW15;
    match r {
      case 0 => FirstRow();
      case 1 => Row1Adds(j);
      case 2 => Row2Adds(j);
      case 3 => Row3Adds(j);
      case 4 => Row4Adds(j);
      case 5 => Row5Adds(j);
      case 6 => Row6Adds(j);
      case 7 => Row7Adds(j);
      case 8 => Row8Adds(j);
      case 9 => Row9Adds(j);
      case 10 => Row10Adds(j);
      case 11 => Row11Adds(j);
      case 12 => Row12Adds(j);
      case 13 => Row13Adds(j);
      case 14 => Row14Adds(j);
      case _ => Row15Adds(j);
    }
  }

  lemma FirstRow()
    ensures ROW0[0] == 0
  {
  }

  /** The word of a small number. */
  function Nibble(j: nat): bv32
    requires j < 16
  {
    match j
    case 0 => 0
    case 1 => 1
    case 2 => 2
    case 3 => 3
    case 4 => 4
    case 5 => 5
    case 6 => 6
    case 7 => 7
    case 8 => 8
    case 9 => 9
    case 10 => 10
    case 11 => 11
    case 12 => 12
    case 13 => 13
    case 14 => 14
    case _ => 15
  }

  function HighNibble(r: nat): bv32
    requires r < 16
  {
    match r
    case 0 => 0x00
    case 1 => 0x10
    case 2 => 0x20
    case 3 => 0x30
    case 4 => 0x40
    case 5 => 0x50
    case 6 => 0x60
    case 7 => 0x70
    case 8 => 0x80
    case 9 => 0x90
    case 10 => 0xA0
    case 11 => 0xB0
    case 12 => 0xC0
    case 13 => 0xD0
    case 14 => 0xE0
    case _ => 0xF0
  }

  lemma LowWords()
    ensures WordByte(0, 0) == 0x0000_0000 && WordByte(0, 1) == 0x7707_3096
    ensures WordByte(0, 2) == 0xEE0E_612C && WordByte(0, 3) == 0x9909_51BA
    ensures WordByte(0, 4) == 0x076D_C419 && WordByte(0, 5) == 0x706A_F48F
    ensures WordByte(0, 6) == 0xE963_A535 && WordByte(0, 7) == 0x9E64_95A3
    ensures WordByte(0, 8) == 0x0EDB_8832 && WordByte(0, 9) == 0x79DC_B8A4
    ensures WordByte(0, 10) == 0xE0D5_E91E && WordByte(0, 11) == 0x97D2_D988
    ensures WordByte(0, 12) == 0x09B6_4C2B && WordByte(0, 13) == 0x7EB1_7CBD
    ensures WordByte(0, 14) == 0xE7B8_2D07 && WordByte(0, 15) == 0x90BF_1D91
  {
  }

  lemma HighWords()
    ensures WordByte(0, 0x00) == 0x0000_0000 && WordByte(0, 0x10) == 0x1DB7_1064
    ensures WordByte(0, 0x20) == 0x3B6E_20C8 && WordByte(0, 0x30) == 0x26D9_30AC
    ensures WordByte(0, 0x40) == 0x76DC_4190 && WordByte(0, 0x50) == 0x6B6B_51F4
    ensures WordByte(0, 0x60) == 0x4DB2_6158 && WordByte(0, 0x70) == 0x5005_713C
    ensures WordByte(0, 0x80) == 0xEDB8_8320 && WordByte(0, 0x90) == 0xF00F_9344
    ensures WordByte(0, 0xA0) == 0xD6D6_A3E8 && WordByte(0, 0xB0) == 0xCB61_B38C
    ensures WordByte(0, 0xC0) == 0x9B64_C2B0 && WordByte(0, 0xD0) == 0x86D3_D2D4
    ensures WordByte(0, 0xE0) == 0xA00A_E278 && WordByte(0, 0xF0) == 0xBDBD_F21C
  {
  }

  lemma LowEntriesBelow(j: nat)
    requires j < 8
    ensures ROW0[j] == WordByte(0, Nibble(j))
  {
    hide WordByte;
    LowWords();
  }

  lemma LowEntriesAbove(j: nat)
    requires 8 <= j < 16
    ensures ROW0[j] == WordByte(0, Nibble(j))
  {
    hide WordByte;
    LowWords();
  }

  lemma LowEntries(j: nat)
    requires j < 16
    ensures Row(0)[j] == WordByte(0, Nibble(j))
  {
    hide WordByte, Nibble, ROW1, ROW2, ROW3, ROW4, ROW5, ROW6, ROW7, ROW8, ROW9, ROW10, ROW11, ROW12, ROW13, ROW14, ROW15;
    if j < 8 {
      LowEntriesBelow(j);
    } else {
      LowEntriesAbove(j);
    }
  }

  lemma HighEntries(r: nat)
    requires r < 16
    ensures Row(r)[0] == WordByte(0, HighNibble(r))
  {
    hide WordByte;
    HighWords();
  }

  lemma NibbleValue(j: nat)
    requires j < 16
    ensures Val(Nibble(j)) == j
  {
    hide Val;
    Digit(0, 0);
    Digit(1, 0);
    Digit(2, 0);
    Digit(3, 0);
    Digit(4, 1);
    Digit(5, 1);
    Digit(6, 1);
    Digit(7, 1);
    Digit(8, 2);
    Digit(9, 2);
    Digit(10, 2);
    Digit(11, 2);
    Digit(12, 3);
    Digit(13, 3);
    Digit(14, 3);
    Digit(15, 3);
  }

  lemma HighNibbleValue(r: nat)
    requires r < 16
    ensures Val(HighNibble(r)) == 16 * r
  {
    hide Val;
    Digit(0, 0);
    Digit(1, 0);
    Digit(2, 0);
    Digit(3, 0);
    Digit(4, 1);
    Digit(5, 1);
    Digit(6, 1);
    Digit(7, 1);
    Digit(8, 2);
    Digit(9, 2);
    Digit(10, 2);
    Digit(11, 2);
    Digit(12, 3);
    Digit(13, 3);
    Digit(14, 3);
    Digit(15, 3);
    Digit(0x10, 0x04);
    Digit(0x20, 0x08);
    Digit(0x30, 0x0C);
    Digit(0x40, 0x10);
    Digit(0x50, 0x14);
    Digit(0x60, 0x18);
    Digit(0x70, 0x1C);
    Digit(0x80, 0x20);
    Digit(0x90, 0x24);
    Digit(0xA0, 0x28);
    Digit(0xB0, 0x2C);
    Digit(0xC0, 0x30);
    Digit(0xD0, 0x34);
    Digit(0xE0, 0x38);
    Digit(0xF0, 0x3C);
  }

  /** An entry computed on words is eight steps of the register. */
  lemma WordEntry(w: bv32, i: nat)
    requires Val(w) == i < 0x100
    ensures Val(WordByte(0, w)) == Crc32.TableEntry(i)
  {
    hide Val, Xor, WordByte, Steps;
    ByteVal(0, w);
    Digit(0, 0);
    XorComm(0, i);
    XorZero(i);
  }

  /** The register is linear, so the entry of a byte is that of its high part and its low part. */
  lemma EntriesAdd(r: nat, j: nat)
    requires j < 16
    ensures Crc32.TableEntry(16 * r + j) == Xor(Crc32.TableEntry(16 * r), Crc32.TableEntry(j))
  {
    hide Xor, Steps;
    StepsAdditive(Crc32.POLY, 16 * r, j, 8);
    PowersOfTwo();
    XorDisjoint(r, j, 4);
  }

  lemma SumValue(x: bv32, y: bv32, z: bv32, a: nat, b: nat)
    requires z == x ^ y && Val(x) == a && Val(y) == b
    ensures Val(z) == Xor(a, b)
  {
    hide Val, Xor;
    ValXor(x, y);
  }

  lemma LowValue(j: nat)
    requires j < 16
    ensures Val(Row(0)[j]) == Crc32.TableEntry(j)
  {
    hide Val, WordByte, Row, Nibble, Crc32.TableEntry;
    LowEntries(j);
    NibbleValue(j);
    WordEntry(Nibble(j), j);
  }

  lemma HighValue(r: nat)
    requires r < 16
    ensures Val(Row(r)[0]) == Crc32.TableEntry(16 * r)
  {
    hide Val, WordByte, Row, HighNibble, Crc32.TableEntry;
    HighEntries(r);
    HighNibbleValue(r);
    WordEntry(HighNibble(r), 16 * r);
  }

  lemma EntryValue(r: nat, j: nat)
    requires r < 16 && j < 16
    ensures Val(Row(r)[j]) == Crc32.TableEntry(16 * r + j)
  {
    hide Val, Xor, Row, Crc32.TableEntry;
    RowsAdd(r, j);
    LowValue(j);
    HighValue(r);
    SumValue(Row(r)[0], Row(0)[j], Row(r)[j], Crc32.TableEntry(16 * r), Crc32.TableEntry(j));
    EntriesAdd(r, j);
  }

  /** Every entry of the source's table is the entry generated from the polynomial. */
  lemma TableIsGenerated(i: Byte)
    ensures Val(Entry(i)) == Crc32.TableEntry(i)
  {
    hide Val, Row, Crc32.TableEntry;
    EntryValue(i / 16, i % 16);
  }
}
