/**
 gnu_debuglink_crc32 with its 256-entry table, and the loop that checksums a debuginfo file.
 */
module CrcTable {
  import opened Crc

  /** crc32_table in rows of sixteen. */
  function Row0(k: bv32): bv32 {
    Pick(k, 0x0000_0000, 0x7707_3096, 0xEE0E_612C, 0x9909_51BA,
            0x076D_C419, 0x706A_F48F, 0xE963_A535, 0x9E64_95A3,
            0x0EDB_8832, 0x79DC_B8A4, 0xE0D5_E91E, 0x97D2_D988,
            0x09B6_4C2B, 0x7EB1_7CBD, 0xE7B8_2D07, 0x90BF_1D91)
  }

  function Row1(k: bv32): bv32 {
    Pick(k, 0x1DB7_1064, 0x6AB0_20F2, 0xF3B9_7148, 0x84BE_41DE,
            0x1ADA_D47D, 0x6DDD_E4EB, 0xF4D4_B551, 0x83D3_85C7,
            0x136C_9856, 0x646B_A8C0, 0xFD62_F97A, 0x8A65_C9EC,
            0x1401_5C4F, 0x6306_6CD9, 0xFA0F_3D63, 0x8D08_0DF5)
  }

  function Row2(k: bv32): bv32 {
    Pick(k, 0x3B6E_20C8, 0x4C69_105E, 0xD560_41E4, 0xA267_7172,
            0x3C03_E4D1, 0x4B04_D447, 0xD20D_85FD, 0xA50A_B56B,
            0x35B5_A8FA, 0x42B2_986C, 0xDBBB_C9D6, 0xACBC_F940,
            0x32D8_6CE3, 0x45DF_5C75, 0xDCD6_0DCF, 0xABD1_3D59)
  }

  function Row3(k: bv32): bv32 {
    Pick(k, 0x26D9_30AC, 0x51DE_003A, 0xC8D7_5180, 0xBFD0_6116,
            0x21B4_F4B5, 0x56B3_C423, 0xCFBA_9599, 0xB8BD_A50F,
            0x2802_B89E, 0x5F05_8808, 0xC60C_D9B2, 0xB10B_E924,
            0x2F6F_7C87, 0x5868_4C11, 0xC161_1DAB, 0xB666_2D3D)
  }

  function Row4(k: bv32): bv32 {
    Pick(k, 0x76DC_4190, 0x01DB_7106, 0x98D2_20BC, 0xEFD5_102A,
            0x71B1_8589, 0x06B6_B51F, 0x9FBF_E4A5, 0xE8B8_D433,
            0x7807_C9A2, 0x0F00_F934, 0x9609_A88E, 0xE10E_9818,
            0x7F6A_0DBB, 0x086D_3D2D, 0x9164_6C97, 0xE663_5C01)
  }

  function Row5(k: bv32): bv32 {
    Pick(k, 0x6B6B_51F4, 0x1C6C_6162, 0x8565_30D8, 0xF262_004E,
            0x6C06_95ED, 0x1B01_A57B, 0x8208_F4C1, 0xF50F_C457,
            0x65B0_D9C6, 0x12B7_E950, 0x8BBE_B8EA, 0xFCB9_887C,
            0x62DD_1DDF, 0x15DA_2D49, 0x8CD3_7CF3, 0xFBD4_4C65)
  }

  function Row6(k: bv32): bv32 {
    Pick(k, 0x4DB2_6158, 0x3AB5_51CE, 0xA3BC_0074, 0xD4BB_30E2,
            0x4ADF_A541, 0x3DD8_95D7, 0xA4D1_C46D, 0xD3D6_F4FB,
            0x4369_E96A, 0x346E_D9FC, 0xAD67_8846, 0xDA60_B8D0,
            0x4404_2D73, 0x3303_1DE5, 0xAA0A_4C5F, 0xDD0D_7CC9)
  }

  function Row7(k: bv32): bv32 {
    Pick(k, 0x5005_713C, 0x2702_41AA, 0xBE0B_1010, 0xC90C_2086,
            0x5768_B525, 0x206F_85B3, 0xB966_D409, 0xCE61_E49F,
            0x5EDE_F90E, 0x29D9_C998, 0xB0D0_9822, 0xC7D7_A8B4,
            0x59B3_3D17, 0x2EB4_0D81, 0xB7BD_5C3B, 0xC0BA_6CAD)
  }

  function Row8(k: bv32): bv32 {
    Pick(k, 0xEDB8_8320, 0x9ABF_B3B6, 0x03B6_E20C, 0x74B1_D29A,
            0xEAD5_4739, 0x9DD2_77AF, 0x04DB_2615, 0x73DC_1683,
            0xE363_0B12, 0x9464_3B84, 0x0D6D_6A3E, 0x7A6A_5AA8,
            0xE40E_CF0B, 0x9309_FF9D, 0x0A00_AE27, 0x7D07_9EB1)
  }

  function Row9(k: bv32): bv32 {
    Pick(k, 0xF00F_9344, 0x8708_A3D2, 0x1E01_F268, 0x6906_C2FE,
            0xF762_575D, 0x8065_67CB, 0x196C_3671, 0x6E6B_06E7,
            0xFED4_1B76, 0x89D3_2BE0, 0x10DA_7A5A, 0x67DD_4ACC,
            0xF9B9_DF6F, 0x8EBE_EFF9, 0x17B7_BE43, 0x60B0_8ED5)
  }

  function RowA(k: bv32): bv32 {
    Pick(k, 0xD6D6_A3E8, 0xA1D1_937E, 0x38D8_C2C4, 0x4FDF_F252,
            0xD1BB_67F1, 0xA6BC_5767, 0x3FB5_06DD, 0x48B2_364B,
            0xD80D_2BDA, 0xAF0A_1B4C, 0x3603_4AF6, 0x4104_7A60,
            0xDF60_EFC3, 0xA867_DF55, 0x316E_8EEF, 0x4669_BE79)
  }

  function RowB(k: bv32): bv32 {
    Pick(k, 0xCB61_B38C, 0xBC66_831A, 0x256F_D2A0, 0x5268_E236,
            0xCC0C_7795, 0xBB0B_4703, 0x2202_16B9, 0x5505_262F,
            0xC5BA_3BBE, 0xB2BD_0B28, 0x2BB4_5A92, 0x5CB3_6A04,
            0xC2D7_FFA7, 0xB5D0_CF31, 0x2CD9_9E8B, 0x5BDE_AE1D)
  }

  function RowC(k: bv32): bv32 {
    Pick(k, 0x9B64_C2B0, 0xEC63_F226, 0x756A_A39C, 0x026D_930A,
            0x9C09_06A9, 0xEB0E_363F, 0x7207_6785, 0x0500_5713,
            0x95BF_4A82, 0xE2B8_7A14, 0x7BB1_2BAE, 0x0CB6_1B38,
            0x92D2_8E9B, 0xE5D5_BE0D, 0x7CDC_EFB7, 0x0BDB_DF21)
  }

  function RowD(k: bv32): bv32 {
    Pick(k, 0x86D3_D2D4, 0xF1D4_E242, 0x68DD_B3F8, 0x1FDA_836E,
            0x81BE_16CD, 0xF6B9_265B, 0x6FB0_77E1, 0x18B7_4777,
            0x8808_5AE6, 0xFF0F_6A70, 0x6606_3BCA, 0x1101_0B5C,
            0x8F65_9EFF, 0xF862_AE69, 0x616B_FFD3, 0x166C_CF45)
  }

  function RowE(k: bv32): bv32 {
    Pick(k, 0xA00A_E278, 0xD70D_D2EE, 0x4E04_8354, 0x3903_B3C2,
            0xA767_2661, 0xD060_16F7, 0x4969_474D, 0x3E6E_77DB,
            0xAED1_6A4A, 0xD9D6_5ADC, 0x40DF_0B66, 0x37D8_3BF0,
            0xA9BC_AE53, 0xDEBB_9EC5, 0x47B2_CF7F, 0x30B5_FFE9)
  }

  function RowF(k: bv32): bv32 {
    Pick(k, 0xBDBD_F21C, 0xCABA_C28A, 0x53B3_9330, 0x24B4_A3A6,
            0xBAD0_3605, 0xCDD7_0693, 0x54DE_5729, 0x23D9_67BF,
            0xB366_7A2E, 0xC461_4AB8, 0x5D68_1B02, 0x2A6F_2B94,
            0xB40B_BE37, 0xC30C_8EA1, 0x5A05_DF1B, 0x2D02_EF8D)
  }

  function Pick(k: bv32, t0: bv32, t1: bv32, t2: bv32, t3: bv32, t4: bv32, t5: bv32, t6: bv32, t7: bv32,
                t8: bv32, t9: bv32, tA: bv32, tB: bv32, tC: bv32, tD: bv32, tE: bv32, tF: bv32): bv32
  {
    if k < 8 then
      (if k < 4 then (if k < 2 then (if k == 0 then t0 else t1) else if k == 2 then t2 else t3)
       else if k < 6 then (if k == 4 then t4 else t5) else if k == 6 then t6 else t7)
    else
      (if k < 12 then (if k < 10 then (if k == 8 then t8 else t9) else if k == 10 then tA else tB)
       else if k < 14 then (if k == 12 then tC else tD) else if k == 14 then tE else tF)
  }

  /** crc32_table[i] */
  function Table(i: bv32): bv32
    requires i < 256
  {
    var k := i & 15;
    Pick(i >> 4, Row0(k), Row1(k), Row2(k), Row3(k), Row4(k), Row5(k), Row6(k), Row7(k),
         Row8(k), Row9(k), RowA(k), RowB(k), RowC(k), RowD(k), RowE(k), RowF(k))
  }

  lemma Row0Correct(k: bv32)
    requires k < 16
    ensures Row0(k) == Shift8(0x00 | k)
  {
  }

  lemma Row1Correct(k: bv32)
    requires k < 16
    ensures Row1(k) == Shift8(0x10 | k)
  {
  }

  lemma Row2Correct(k: bv32)
    requires k < 16
    ensures Row2(k) == Shift8(0x20 | k)
  {
  }

  lemma Row3Correct(k: bv32)
    requires k < 16
    ensures Row3(k) == Shift8(0x30 | k)
  {
  }

  lemma Row4Correct(k: bv32)
    requires k < 16
    ensures Row4(k) == Shift8(0x40 | k)
  {
  }

  lemma Row5Correct(k: bv32)
    requires k < 16
    ensures Row5(k) == Shift8(0x50 | k)
  {
  }

  lemma Row6Correct(k: bv32)
    requires k < 16
    ensures Row6(k) == Shift8(0x60 | k)
  {
  }

  lemma Row7Correct(k: bv32)
    requires k < 16
    ensures Row7(k) == Shift8(0x70 | k)
  {
  }

  lemma Row8Correct(k: bv32)
    requires k < 16
    ensures Row8(k) == Shift8(0x80 | k)
  {
  }

  lemma Row9Correct(k: bv32)
    requires k < 16
    ensures Row9(k) == Shift8(0x90 | k)
  {
  }

  lemma RowACorrect(k: bv32)
    requires k < 16
    ensures RowA(k) == Shift8(0xA0 | k)
  {
  }

  lemma RowBCorrect(k: bv32)
    requires k < 16
    ensures RowB(k) == Shift8(0xB0 | k)
  {
  }

  lemma RowCCorrect(k: bv32)
    requires k < 16
    ensures RowC(k) == Shift8(0xC0 | k)
  {
  }

  lemma RowDCorrect(k: bv32)
    requires k < 16
    ensures RowD(k) == Shift8(0xD0 | k)
  {
  }

  lemma RowECorrect(k: bv32)
    requires k < 16
    ensures RowE(k) == Shift8(0xE0 | k)
  {
  }

  lemma RowFCorrect(k: bv32)
    requires k < 16
    ensures RowF(k) == Shift8(0xF0 | k)
  {
  }

  lemma RowOf(i: bv32)
    requires i < 256
    ensures ((i >> 4) << 4) | (i & 15) == i && i & 15 < 16 && i >> 4 < 16
  {
  }

  /** Every entry is its index shifted through the register eight times. */
  lemma TableCorrect(i: bv32)
    requires i < 256
    ensures Table(i) == ShiftN(i, 8)
  {
    hide Shift8;
    hide ShiftN;
    var k := i & 15;
    RowOf(i);
    Row0Correct(k); Row1Correct(k); Row2Correct(k); Row3Correct(k);
    Row4Correct(k); Row5Correct(k); Row6Correct(k); Row7Correct(k);
    Row8Correct(k); Row9Correct(k); RowACorrect(k); RowBCorrect(k);
    RowCCorrect(k); RowDCorrect(k); RowECorrect(k); RowFCorrect(k);
    Shift8IsShiftN(i);
  }

  lemma LowByteSmall(c: bv32)
    ensures LowByte(c) < 256
  {
  }

  lemma ByteAboveEight(c: bv32, b: Byte)
    ensures Down8(Xor(c, b as bv32)) == Down8(c)
  {
  }

  /** crc32_table[(crc ^ *buf) & 0xff] ^ (crc >> 8) */
  function TableStep(c: bv32, b: Byte): bv32 {
    LowByteSmall(Xor(c, b as bv32));
    Xor(Table(LowByte(Xor(c, b as bv32))), Down8(c))
  }

  /** One table step is eight bit steps. */
  lemma TableStepCorrect(c: bv32, b: Byte)
    ensures TableStep(c, b) == FeedBits(c, b, 8)
  {
    hide Table;
    hide Xor;
    hide LowByte;
    hide Down8;
    hide ShiftN;
    hide FeedBits;
    var x := Xor(c, b as bv32);
    LowByteSmall(x);
    FeedByte(c, b);
    LowByteDecides(x);
    TableCorrect(LowByte(x));
    ByteAboveEight(c, b);
  }

  /** For a fixed register different bytes lead to different registers. */
  lemma ByteInjective(c: bv32, a: Byte, b: Byte)
    requires TableStep(c, a) == TableStep(c, b)
    ensures a == b
  {
    hide TableStep;
    hide FeedBits;
    hide ShiftN;
    hide Xor;
    TableStepCorrect(c, a);
    TableStepCorrect(c, b);
    FeedByte(c, a);
    FeedByte(c, b);
    ShiftNInjective(Xor(c, a as bv32), Xor(c, b as bv32), 8);
    XorCancel(c, a as bv32, b as bv32);
  }

  method GnuDebuglinkCrc32(crc: bv32, buf: seq<Byte>) returns (r: bv32)
    ensures r == Update(crc, buf)
  {
    hide TableStep;
    hide FeedBits;
    hide Invert;
    r := Invert(crc);
    for i := 0 to |buf|
      invariant r == Feed(Invert(crc), buf[..i])
    {
      TableStepCorrect(r, buf[i]);
      assert buf[..i + 1][..i] == buf[..i];
      r := TableStep(r, buf[i]);
    }
    assert buf[..|buf|] == buf;
    r := Invert(r);
  }

  const BUFFER_SIZE := 8 * 1024

  /** How much of the file a series of read() results covers: it ends at the first that is not positive. */
  function Covered(lens: seq<int>): nat {
    if lens == [] || lens[0] <= 0 then 0 else lens[0] + Covered(lens[1..])
  }

  /** The results of read() on a file: full or partial buffers, never past the end. */
  predicate ReadsOf(lens: seq<int>, size: nat) {
    Covered(lens) <= size && forall i | 0 <= i < |lens| :: lens[i] <= BUFFER_SIZE
  }

  /** The checksum loop of open_debug_file: however read() cuts up the file, the file is accepted
      exactly when the checksum of what was read, taken as one message, is the expected one. */
  method ChecksumMatches(file: seq<Byte>, lens: seq<int>, crc: bv32) returns (match_: bool)
    requires ReadsOf(lens, |file|)
    ensures match_ <==> crc == Crc32(file[..Covered(lens)])
    ensures Covered(lens) == |file| ==> (match_ <==> crc == Crc32(file))
  {
    hide Feed;
    var fileCrc, pos, i := 0 as bv32, 0, 0;
    assert file[..0] == [];
    EmptyMessage();
    while i < |lens|
      invariant 0 <= i <= |lens| && 0 <= pos && pos + Covered(lens[i..]) == Covered(lens)
      invariant fileCrc == Update(0, file[..pos])
    {
      var len := lens[i];
      if len <= 0 { break; }
      assert lens[i..][1..] == lens[i + 1..];
      assert file[..pos + len] == file[..pos] + file[pos..pos + len];
      UpdateAppend(0, file[..pos], file[pos..pos + len]);
      fileCrc := GnuDebuglinkCrc32(fileCrc, file[pos..pos + len]);
      pos, i := pos + len, i + 1;
    }
    assert file[..|file|] == file;
    match_ := crc == fileCrc;
  }

  lemma EmptyMessage()
    ensures Update(0, []) == 0
  {
  }

  // ----- what the inversion of the register is for -----

  /** A zero byte in front changes the checksum: leading zeros are not lost. */
  lemma LeadingZeroCounts(m: seq<Byte>)
    ensures Crc32([0] + m) != Crc32(m)
  {
    hide FeedBits;
    hide Feed;
    hide TableStep;
    var c: bv32 := 0xFFFF_FFFF;
    FeedAppend(c, [0], m);
    FeedOne(c, 0);
    ZeroFed();
    StartsInverted(m);
    StartsInverted([0] + m);
    if Crc32([0] + m) == Crc32(m) { FeedInjective(FeedBits(c, 0, 8), c, m); }
  }

  lemma StartsInverted(m: seq<Byte>)
    ensures Crc32(m) == Xor(Feed(0xFFFF_FFFF, m), 0xFFFF_FFFF)
  {
    hide Feed;
    hide Invert;
    hide Xor;
    InvertOnes(0);
    InvertOnes(Feed(0xFFFF_FFFF, m));
  }

  lemma InvertOnes(c: bv32)
    ensures Invert(c) == Xor(c, 0xFFFF_FFFF) && Invert(0) == 0xFFFF_FFFF
  {
  }

  lemma FeedOne(c: bv32, b: Byte)
    ensures Feed(c, [b]) == FeedBits(c, b, 8)
  {
    hide FeedBits;
    FeedNext(c, [], b);
    assert [] + [b] == [b];
  }

  lemma ZeroFed()
    ensures FeedBits(0xFFFF_FFFF, 0, 8) == 0x2DFD1072
  {
    hide FeedBits;
    hide ShiftN;
    FeedByte(0xFFFF_FFFF, 0);
    Shift8IsShiftN(0xFFFF_FFFF);
  }

  /** The four bytes of a checksum, lowest first. */
  function BytesOf(w: bv32): seq<Byte> {
    [(w & 0xFF) as Byte, ((w >> 8) & 0xFF) as Byte, ((w >> 16) & 0xFF) as Byte, (w >> 24) as Byte]
  }

  /** Feeding a byte after n shifts is adding it n bits higher up before them. */
  lemma ByteLater(x: bv32, y: bv32, b: bv32, n: nat)
    requires ShiftN(y, n) == b
    ensures Xor(ShiftN(x, n), b) == ShiftN(Xor(x, y), n)
  {
    hide Xor;
    hide ShiftN;
    ShiftNLinear(x, y, n);
  }

  lemma MovesDown(b: bv32)
    requires b <= 0xFF
    ensures ShiftN(b << 8, 8) == b && ShiftN(b << 16, 16) == b && ShiftN(b << 24, 24) == b
  {
    hide ShiftN;
    MoveByte(b);
    ClearByteMoves(b << 8);
    ClearByteMoves(b << 16);
    ClearByteMoves(b << 24);
    ShiftNAdd(b << 16, 8, 8);
    ShiftNAdd(b << 24, 8, 16);
    ShiftNAdd(b << 16, 8, 8);
  }

  lemma MoveByte(b: bv32)
    requires b <= 0xFF
    ensures (b << 8) & 0xFF == 0 && (b << 16) & 0xFF == 0 && (b << 24) & 0xFF == 0
    ensures (b << 8) >> 8 == b && (b << 16) >> 8 == b << 8 && (b << 24) >> 8 == b << 16
  {
  }

  /** Feeding the four bytes of w is adding w to the register and shifting 32 times. */
  lemma FeedChecksum(c: bv32, w: bv32)
    ensures Feed(c, BytesOf(w)) == ShiftN(Xor(c, w), 32)
  {
    hide Xor;
    hide ShiftN;
    hide FeedBits;
    hide Feed;
    hide BytesOf;
    BytesSum(w);
    var b0, b1, b2, b3 := BytesOf(w)[0], BytesOf(w)[1], BytesOf(w)[2], BytesOf(w)[3];
    var v1, v2, v3 := b1 as bv32, b2 as bv32, b3 as bv32;
    FeedFour(c, b0, b1, b2, b3);
    FeedByte(c, b0);
    var x0 := Xor(c, b0 as bv32);
    MovesDown(v1);
    MovesDown(v2);
    MovesDown(v3);
    ByteLater(x0, v1 << 8, v1, 8);
    var x1 := Xor(x0, v1 << 8);
    FeedByte(ShiftN(x0, 8), b1);
    ShiftNAdd(x1, 8, 8);
    ByteLater(x1, v2 << 16, v2, 16);
    var x2 := Xor(x1, v2 << 16);
    FeedByte(ShiftN(x1, 16), b2);
    ShiftNAdd(x2, 16, 8);
    ByteLater(x2, v3 << 24, v3, 24);
    var x3 := Xor(x2, v3 << 24);
    FeedByte(ShiftN(x2, 24), b3);
    ShiftNAdd(x3, 24, 8);
    XorChain(c, b0 as bv32, v1 << 8, v2 << 16, v3 << 24);
  }

  lemma XorChain(c: bv32, p: bv32, q: bv32, r: bv32, s: bv32)
    ensures Xor(Xor(Xor(Xor(c, p), q), r), s) == Xor(c, Xor(Xor(Xor(p, q), r), s))
  {
    hide Xor;
    XorAssociates(c, p, q);
    XorAssociates(c, Xor(p, q), r);
    XorAssociates(c, Xor(Xor(p, q), r), s);
  }

  lemma BytesSum(w: bv32)
    ensures |BytesOf(w)| == 4 && BytesOf(w) == [BytesOf(w)[0], BytesOf(w)[1], BytesOf(w)[2], BytesOf(w)[3]]
    ensures var b := BytesOf(w);
            && Xor(Xor(Xor(b[0] as bv32, (b[1] as bv32) << 8), (b[2] as bv32) << 16), (b[3] as bv32) << 24) == w
            && b[0] as bv32 <= 0xFF && b[1] as bv32 <= 0xFF && b[2] as bv32 <= 0xFF && b[3] as bv32 <= 0xFF
  {
  }

  lemma FeedNext(c: bv32, a: seq<Byte>, b: Byte)
    ensures Feed(c, a + [b]) == FeedBits(Feed(c, a), b, 8)
  {
    hide FeedBits;
    assert (a + [b])[..|a|] == a;
  }

  lemma FeedFour(c: bv32, b0: Byte, b1: Byte, b2: Byte, b3: Byte)
    ensures Feed(c, [b0, b1, b2, b3]) == FeedBits(FeedBits(FeedBits(FeedBits(c, b0, 8), b1, 8), b2, 8), b3, 8)
  {
    hide FeedBits;
    hide Feed;
    FeedOne(c, b0);
    FeedNext(c, [b0], b1);
    FeedNext(c, [b0, b1], b2);
    FeedNext(c, [b0, b1, b2], b3);
    assert [b0] + [b1] == [b0, b1] && [b0, b1] + [b2] == [b0, b1, b2] && [b0, b1, b2] + [b3] == [b0, b1, b2, b3];
  }

  lemma OnesShifted()
    ensures ShiftN(0xFFFF_FFFF, 32) == 0xDEBB20E3
  {
    hide ShiftN;
    ShiftNAdd(0xFFFF_FFFF, 8, 24);
    ShiftNAdd(0x2DFD1072, 8, 16);
    ShiftNAdd(0xBE26ED00, 8, 8);
    Shift8IsShiftN(0xFFFF_FFFF);
    Shift8IsShiftN(0x2DFD1072);
    Shift8IsShiftN(0xBE26ED00);
    Shift8IsShiftN(0x00BE26ED);
  }

  /** The residue of CRC-32: a message followed by four bytes, lowest first, has this one checksum
      exactly when they are the checksum of the message. */
  lemma Residue(m: seq<Byte>, w: bv32)
    ensures Crc32(m + BytesOf(w)) == 0x2144_DF1C <==> w == Crc32(m)
  {
    hide Feed;
    hide ShiftN;
    hide BytesOf;
    hide Crc32;
    hide Xor;
    var c := Feed(0xFFFF_FFFF, m);
    StartsInverted(m);
    StartsInverted(m + BytesOf(w));
    FeedAppend(0xFFFF_FFFF, m, BytesOf(w));
    FeedChecksum(c, w);
    OnesShifted();
    AllOnes(c, w);
    UndoOnes(Feed(c, BytesOf(w)));
    if ShiftN(Xor(c, w), 32) == ShiftN(0xFFFF_FFFF, 32) { ShiftNInjective(Xor(c, w), 0xFFFF_FFFF, 32); }
  }

  lemma AllOnes(c: bv32, w: bv32)
    ensures Xor(c, w) == 0xFFFF_FFFF <==> w == Xor(c, 0xFFFF_FFFF)
  {
    hide Xor;
    XorUndone(c);
    if Xor(c, w) == 0xFFFF_FFFF { XorCancel(c, w, Xor(c, 0xFFFF_FFFF)); }
  }

  lemma XorUndone(c: bv32)
    ensures Xor(c, Xor(c, 0xFFFF_FFFF)) == 0xFFFF_FFFF
  {
  }

  lemma UndoOnes(c: bv32)
    ensures Xor(c, 0xFFFF_FFFF) == 0x2144_DF1C <==> c == 0xDEBB_20E3
  {
  }
}
