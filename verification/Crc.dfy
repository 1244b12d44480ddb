/** The checksum of every block and record: the table-driven loop of the engine, the
    bit-serial CRC of section 8 of RFC 1952 that it has to compute, and what that CRC is
    able to detect. */
module Crc {
  import opened Bytes
  import opened Words

  // ---------- definition: one bit at a time ----------

  /** The reflected polynomial 0xEDB88320. */
  const POLYNOMIAL: bv32 := 0xEDB8_8320

  function Polynomial(): Register
  {
    Content(POLYNOMIAL)
  }

  function Step(c: Register, bit: bool): Register
  {
    if c[0] != bit then Xor(ShiftDown(c), Polynomial()) else ShiftDown(c)
  }

  /** The register after feeding a bit sequence into register c. */
  function Feed(c: Register, bits: seq<bool>): Register
    decreases bits
  {
    if bits == [] then c else Feed(Step(c, bits[0]), bits[1..])
  }

  /** The bits of a byte string, the lowest bit of each byte first. */
  function DataBits(data: Bytes): (s: seq<bool>)
    ensures |s| == 8 * |data|
  {
    if data == [] then [] else BitsOf(data[0], 8) + DataBits(data[1..])
  }

  /** The CRC of data that continues the CRC `previous` of the data before it. */
  function Continue(previous: Register, data: Bytes): Register
  {
    Flip(Feed(Flip(previous), DataBits(data)))
  }

  /** The checksum as the number that the file formats store. */
  function Crc32(data: Bytes): nat
  {
    Number(Continue(Zero(), data))
  }

  lemma Crc32Bound(data: Bytes)
    ensures Crc32(data) < U32
  {
    RegisterNumberBound(Continue(Zero(), data));
  }

  // ---------- the table-driven loop ----------

  type Row = (bv32, bv32, bv32, bv32, bv32, bv32, bv32, bv32)

  /** The 256-entry table, eight entries a row, in four groups of eight rows. */
  function TableRows0(r: bv32): Row
  {
    match r
    case 0 => (0x0000_0000, 0x7707_3096, 0xEE0E_612C, 0x9909_51BA, 0x076D_C419, 0x706A_F48F, 0xE963_A535, 0x9E64_95A3)
    case 1 => (0x0EDB_8832, 0x79DC_B8A4, 0xE0D5_E91E, 0x97D2_D988, 0x09B6_4C2B, 0x7EB1_7CBD, 0xE7B8_2D07, 0x90BF_1D91)
    case 2 => (0x1DB7_1064, 0x6AB0_20F2, 0xF3B9_7148, 0x84BE_41DE, 0x1ADA_D47D, 0x6DDD_E4EB, 0xF4D4_B551, 0x83D3_85C7)
    case 3 => (0x136C_9856, 0x646B_A8C0, 0xFD62_F97A, 0x8A65_C9EC, 0x1401_5C4F, 0x6306_6CD9, 0xFA0F_3D63, 0x8D08_0DF5)
    case 4 => (0x3B6E_20C8, 0x4C69_105E, 0xD560_41E4, 0xA267_7172, 0x3C03_E4D1, 0x4B04_D447, 0xD20D_85FD, 0xA50A_B56B)
    case 5 => (0x35B5_A8FA, 0x42B2_986C, 0xDBBB_C9D6, 0xACBC_F940, 0x32D8_6CE3, 0x45DF_5C75, 0xDCD6_0DCF, 0xABD1_3D59)
    case 6 => (0x26D9_30AC, 0x51DE_003A, 0xC8D7_5180, 0xBFD0_6116, 0x21B4_F4B5, 0x56B3_C423, 0xCFBA_9599, 0xB8BD_A50F)
    case _ => (0x2802_B89E, 0x5F05_8808, 0xC60C_D9B2, 0xB10B_E924, 0x2F6F_7C87, 0x5868_4C11, 0xC161_1DAB, 0xB666_2D3D)
  }

  function TableRows1(r: bv32): Row
  {
    match r
    case 0 => (0x76DC_4190, 0x01DB_7106, 0x98D2_20BC, 0xEFD5_102A, 0x71B1_8589, 0x06B6_B51F, 0x9FBF_E4A5, 0xE8B8_D433)
    case 1 => (0x7807_C9A2, 0x0F00_F934, 0x9609_A88E, 0xE10E_9818, 0x7F6A_0DBB, 0x086D_3D2D, 0x9164_6C97, 0xE663_5C01)
    case 2 => (0x6B6B_51F4, 0x1C6C_6162, 0x8565_30D8, 0xF262_004E, 0x6C06_95ED, 0x1B01_A57B, 0x8208_F4C1, 0xF50F_C457)
    case 3 => (0x65B0_D9C6, 0x12B7_E950, 0x8BBE_B8EA, 0xFCB9_887C, 0x62DD_1DDF, 0x15DA_2D49, 0x8CD3_7CF3, 0xFBD4_4C65)
    case 4 => (0x4DB2_6158, 0x3AB5_51CE, 0xA3BC_0074, 0xD4BB_30E2, 0x4ADF_A541, 0x3DD8_95D7, 0xA4D1_C46D, 0xD3D6_F4FB)
    case 5 => (0x4369_E96A, 0x346E_D9FC, 0xAD67_8846, 0xDA60_B8D0, 0x4404_2D73, 0x3303_1DE5, 0xAA0A_4C5F, 0xDD0D_7CC9)
    case 6 => (0x5005_713C, 0x2702_41AA, 0xBE0B_1010, 0xC90C_2086, 0x5768_B525, 0x206F_85B3, 0xB966_D409, 0xCE61_E49F)
    case _ => (0x5EDE_F90E, 0x29D9_C998, 0xB0D0_9822, 0xC7D7_A8B4, 0x59B3_3D17, 0x2EB4_0D81, 0xB7BD_5C3B, 0xC0BA_6CAD)
  }

  function TableRows2(r: bv32): Row
  {
    match r
    case 0 => (0xEDB8_8320, 0x9ABF_B3B6, 0x03B6_E20C, 0x74B1_D29A, 0xEAD5_4739, 0x9DD2_77AF, 0x04DB_2615, 0x73DC_1683)
    case 1 => (0xE363_0B12, 0x9464_3B84, 0x0D6D_6A3E, 0x7A6A_5AA8, 0xE40E_CF0B, 0x9309_FF9D, 0x0A00_AE27, 0x7D07_9EB1)
    case 2 => (0xF00F_9344, 0x8708_A3D2, 0x1E01_F268, 0x6906_C2FE, 0xF762_575D, 0x8065_67CB, 0x196C_3671, 0x6E6B_06E7)
    case 3 => (0xFED4_1B76, 0x89D3_2BE0, 0x10DA_7A5A, 0x67DD_4ACC, 0xF9B9_DF6F, 0x8EBE_EFF9, 0x17B7_BE43, 0x60B0_8ED5)
    case 4 => (0xD6D6_A3E8, 0xA1D1_937E, 0x38D8_C2C4, 0x4FDF_F252, 0xD1BB_67F1, 0xA6BC_5767, 0x3FB5_06DD, 0x48B2_364B)
    case 5 => (0xD80D_2BDA, 0xAF0A_1B4C, 0x3603_4AF6, 0x4104_7A60, 0xDF60_EFC3, 0xA867_DF55, 0x316E_8EEF, 0x4669_BE79)
    case 6 => (0xCB61_B38C, 0xBC66_831A, 0x256F_D2A0, 0x5268_E236, 0xCC0C_7795, 0xBB0B_4703, 0x2202_16B9, 0x5505_262F)
    case _ => (0xC5BA_3BBE, 0xB2BD_0B28, 0x2BB4_5A92, 0x5CB3_6A04, 0xC2D7_FFA7, 0xB5D0_CF31, 0x2CD9_9E8B, 0x5BDE_AE1D)
  }

  function TableRows3(r: bv32): Row
  {
    match r
    case 0 => (0x9B64_C2B0, 0xEC63_F226, 0x756A_A39C, 0x026D_930A, 0x9C09_06A9, 0xEB0E_363F, 0x7207_6785, 0x0500_5713)
    case 1 => (0x95BF_4A82, 0xE2B8_7A14, 0x7BB1_2BAE, 0x0CB6_1B38, 0x92D2_8E9B, 0xE5D5_BE0D, 0x7CDC_EFB7, 0x0BDB_DF21)
    case 2 => (0x86D3_D2D4, 0xF1D4_E242, 0x68DD_B3F8, 0x1FDA_836E, 0x81BE_16CD, 0xF6B9_265B, 0x6FB0_77E1, 0x18B7_4777)
    case 3 => (0x8808_5AE6, 0xFF0F_6A70, 0x6606_3BCA, 0x1101_0B5C, 0x8F65_9EFF, 0xF862_AE69, 0x616B_FFD3, 0x166C_CF45)
    case 4 => (0xA00A_E278, 0xD70D_D2EE, 0x4E04_8354, 0x3903_B3C2, 0xA767_2661, 0xD060_16F7, 0x4969_474D, 0x3E6E_77DB)
    case 5 => (0xAED1_6A4A, 0xD9D6_5ADC, 0x40DF_0B66, 0x37D8_3BF0, 0xA9BC_AE53, 0xDEBB_9EC5, 0x47B2_CF7F, 0x30B5_FFE9)
    case 6 => (0xBDBD_F21C, 0xCABA_C28A, 0x53B3_9330, 0x24B4_A3A6, 0xBAD0_3605, 0xCDD7_0693, 0x54DE_5729, 0x23D9_67BF)
    case _ => (0xB366_7A2E, 0xC461_4AB8, 0x5D68_1B02, 0x2A6F_2B94, 0xB40B_BE37, 0xC30C_8EA1, 0x5A05_DF1B, 0x2D02_EF8D)
  }

  function TableRow(r: bv32): Row
    requires r <= 31
  {
    match r >> 3
    case 0 => TableRows0(r & 7)
    case 1 => TableRows1(r & 7)
    case 2 => TableRows2(r & 7)
    case _ => TableRows3(r & 7)
  }

  function Table(i: bv32): bv32
    requires i <= 0xFF
  {
    var row := TableRow(i >> 3);
    match i & 7
    case 0 => row.0
    case 1 => row.1
    case 2 => row.2
    case 3 => row.3
    case 4 => row.4
    case 5 => row.5
    case 6 => row.6
    case _ => row.7
  }

  /** The engine's loop computes the bit-serial CRC. */
  method ComputeCrc(data: Bytes, previous: bv32) returns (crc: bv32)
    ensures Content(crc) == Continue(Content(previous), data)
  {
    crc := !previous;
    ghost var r := Flip(Content(previous));
    HoldsContent(previous, r);
    FlipHolds(previous, Content(previous));
    for i := 0 to |data|
      invariant Holds(crc, r)
      invariant Feed(r, DataBits(data[i..])) == Feed(Flip(Content(previous)), DataBits(data))
    {
      IndexBelow256(crc, Word(data[i]), data[i]);
      var index := (crc & 0xFF) ^ Word(data[i]);
      var next := (crc >> 8) ^ Table(index);
      TurnHolds(crc, r, data[i], crc & 0xFF, crc >> 8, index, Table(index), next);
      FeedConcat(r, BitsOf(data[i], 8), DataBits(data[i + 1..]));
      assert data[i..][0] == data[i] && data[i..][1..] == data[i + 1..];
      crc := next;
      r := Feed(r, BitsOf(data[i], 8));
    }
    FlipHolds(crc, r);
    crc := !crc;
    HoldsContent(crc, Flip(r));
  }

  // ---------- the table is exact ----------

  function WordStep(c: bv32): bv32
  {
    if c & 1 == 1 then (c >> 1) ^ POLYNOMIAL else c >> 1
  }

  function WordSteps8(c: bv32): bv32
  {
    WordStep(WordStep(WordStep(WordStep(WordStep(WordStep(WordStep(WordStep(c))))))))
  }

  predicate RowIsExact(row: Row, i: bv32)
  {
    row == (WordSteps8(i), WordSteps8(i + 1), WordSteps8(i + 2), WordSteps8(i + 3),
            WordSteps8(i + 4), WordSteps8(i + 5), WordSteps8(i + 6), WordSteps8(i + 7))
  }

  lemma RowsExact00()
    ensures RowIsExact(TableRows0(0), 0x0)
    ensures RowIsExact(TableRows0(1), 0x8)
    ensures RowIsExact(TableRows0(2), 0x10)
    ensures RowIsExact(TableRows0(3), 0x18)
  {
  }

  lemma RowsExact01()
    ensures RowIsExact(TableRows0(4), 0x20)
    ensures RowIsExact(TableRows0(5), 0x28)
    ensures RowIsExact(TableRows0(6), 0x30)
    ensures RowIsExact(TableRows0(7), 0x38)
  {
  }

  lemma RowsExact10()
    ensures RowIsExact(TableRows1(0), 0x40)
    ensures RowIsExact(TableRows1(1), 0x48)
    ensures RowIsExact(TableRows1(2), 0x50)
    ensures RowIsExact(TableRows1(3), 0x58)
  {
  }

  lemma RowsExact11()
    ensures RowIsExact(TableRows1(4), 0x60)
    ensures RowIsExact(TableRows1(5), 0x68)
    ensures RowIsExact(TableRows1(6), 0x70)
    ensures RowIsExact(TableRows1(7), 0x78)
  {
  }

  lemma RowsExact20()
    ensures RowIsExact(TableRows2(0), 0x80)
    ensures RowIsExact(TableRows2(1), 0x88)
    ensures RowIsExact(TableRows2(2), 0x90)
    ensures RowIsExact(TableRows2(3), 0x98)
  {
  }

  lemma RowsExact21()
    ensures RowIsExact(TableRows2(4), 0xA0)
    ensures RowIsExact(TableRows2(5), 0xA8)
    ensures RowIsExact(TableRows2(6), 0xB0)
    ensures RowIsExact(TableRows2(7), 0xB8)
  {
  }

  lemma RowsExact30()
    ensures RowIsExact(TableRows3(0), 0xC0)
    ensures RowIsExact(TableRows3(1), 0xC8)
    ensures RowIsExact(TableRows3(2), 0xD0)
    ensures RowIsExact(TableRows3(3), 0xD8)
  {
  }

  lemma RowsExact31()
    ensures RowIsExact(TableRows3(4), 0xE0)
    ensures RowIsExact(TableRows3(5), 0xE8)
    ensures RowIsExact(TableRows3(6), 0xF0)
    ensures RowIsExact(TableRows3(7), 0xF8)
  {
  }

  lemma Group0Exact(k: bv32)
    requires k <= 7
    ensures RowIsExact(TableRows0(k), k << 3)
  {
    match k
    case 0 =>
      RowsExact00();
      assert k << 3 == 0x0;
    case 1 =>
      RowsExact00();
      assert k << 3 == 0x8;
    case 2 =>
      RowsExact00();
      assert k << 3 == 0x10;
    case 3 =>
      RowsExact00();
      assert k << 3 == 0x18;
    case 4 =>
      RowsExact01();
      assert k << 3 == 0x20;
    case 5 =>
      RowsExact01();
      assert k << 3 == 0x28;
    case 6 =>
      RowsExact01();
      assert k << 3 == 0x30;
    case _ =>
      RowsExact01();
      assert k << 3 == 0x38;
  }

  lemma Group1Exact(k: bv32)
    requires k <= 7
    ensures RowIsExact(TableRows1(k), 0x40 + (k << 3))
  {
    match k
    case 0 =>
      RowsExact10();
      assert 0x40 + (k << 3) == 0x40;
    case 1 =>
      RowsExact10();
      assert 0x40 + (k << 3) == 0x48;
    case 2 =>
      RowsExact10();
      assert 0x40 + (k << 3) == 0x50;
    case 3 =>
      RowsExact10();
      assert 0x40 + (k << 3) == 0x58;
    case 4 =>
      RowsExact11();
      assert 0x40 + (k << 3) == 0x60;
    case 5 =>
      RowsExact11();
      assert 0x40 + (k << 3) == 0x68;
    case 6 =>
      RowsExact11();
      assert 0x40 + (k << 3) == 0x70;
    case _ =>
      RowsExact11();
      assert 0x40 + (k << 3) == 0x78;
  }

  lemma Group2Exact(k: bv32)
    requires k <= 7
    ensures RowIsExact(TableRows2(k), 0x80 + (k << 3))
  {
    match k
    case 0 =>
      RowsExact20();
      assert 0x80 + (k << 3) == 0x80;
    case 1 =>
      RowsExact20();
      assert 0x80 + (k << 3) == 0x88;
    case 2 =>
      RowsExact20();
      assert 0x80 + (k << 3) == 0x90;
    case 3 =>
      RowsExact20();
      assert 0x80 + (k << 3) == 0x98;
    case 4 =>
      RowsExact21();
      assert 0x80 + (k << 3) == 0xA0;
    case 5 =>
      RowsExact21();
      assert 0x80 + (k << 3) == 0xA8;
    case 6 =>
      RowsExact21();
      assert 0x80 + (k << 3) == 0xB0;
    case _ =>
      RowsExact21();
      assert 0x80 + (k << 3) == 0xB8;
  }

  lemma Group3Exact(k: bv32)
    requires k <= 7
    ensures RowIsExact(TableRows3(k), 0xC0 + (k << 3))
  {
    match k
    case 0 =>
      RowsExact30();
      assert 0xC0 + (k << 3) == 0xC0;
    case 1 =>
      RowsExact30();
      assert 0xC0 + (k << 3) == 0xC8;
    case 2 =>
      RowsExact30();
      assert 0xC0 + (k << 3) == 0xD0;
    case 3 =>
      RowsExact30();
      assert 0xC0 + (k << 3) == 0xD8;
    case 4 =>
      RowsExact31();
      assert 0xC0 + (k << 3) == 0xE0;
    case 5 =>
      RowsExact31();
      assert 0xC0 + (k << 3) == 0xE8;
    case 6 =>
      RowsExact31();
      assert 0xC0 + (k << 3) == 0xF0;
    case _ =>
      RowsExact31();
      assert 0xC0 + (k << 3) == 0xF8;
  }

  lemma RowParts(r: bv32)
    requires r <= 31
    ensures r >> 3 == 0 ==> r << 3 == (r & 7) << 3
    ensures r >> 3 == 1 ==> r << 3 == 0x40 + ((r & 7) << 3)
    ensures r >> 3 == 2 ==> r << 3 == 0x80 + ((r & 7) << 3)
    ensures r >> 3 == 3 ==> r << 3 == 0xC0 + ((r & 7) << 3)
    ensures r >> 3 <= 3 && r & 7 <= 7
  {
  }

  lemma EveryRowIsExact(r: bv32)
    requires r <= 31
    ensures RowIsExact(TableRow(r), r << 3)
  {
    RowParts(r);
    Group0Exact(r & 7);
    Group1Exact(r & 7);
    Group2Exact(r & 7);
    Group3Exact(r & 7);
  }

  lemma TableIsExact(i: bv32)
    requires i <= 0xFF
    ensures Table(i) == WordSteps8(i)
  {
    var r := i >> 3;
    var base := r << 3;
    EveryRowIsExact(r);
    IndexParts(i, base, i & 7);
    match i & 7
    case 0 => SameSteps(i, base);
    case 1 => SameSteps(i, base + 1);
    case 2 => SameSteps(i, base + 2);
    case 3 => SameSteps(i, base + 3);
    case 4 => SameSteps(i, base + 4);
    case 5 => SameSteps(i, base + 5);
    case 6 => SameSteps(i, base + 6);
    case _ => SameSteps(i, base + 7);
  }

  lemma IndexParts(i: bv32, base: bv32, k: bv32)
    requires i <= 0xFF && base == (i >> 3) << 3 && k == i & 7
    ensures i == base + k && k <= 7
  {
  }

  lemma SameSteps(i: bv32, j: bv32)
    requires i == j
    ensures WordSteps8(i) == WordSteps8(j)
  {
  }

  lemma WordStepFacts(c: bv32, h: bv32, s: bv32)
    requires h == Half(c) && s == WordStep(c)
    ensures s == if Odd(c) then h ^ POLYNOMIAL else h
  {
  }

  lemma WordStepHolds(c: bv32, r: Register)
    requires Holds(c, r)
    ensures Holds(WordStep(c), Step(r, false))
  {
    assert Odd(c) == BitAt(c, 0) == r[0];
    HalfHolds(c, r);
    var h, s := Half(c), WordStep(c);
    WordStepFacts(c, h, s);
    HoldsContent(POLYNOMIAL, Polynomial());
    FeedbackHolds(Odd(c), h, ShiftDown(r), s, Step(r, false));
  }

  lemma FeedbackHolds(odd: bool, h: bv32, rh: Register, s: bv32, rs: Register)
    requires Holds(h, rh) && s == (if odd then h ^ POLYNOMIAL else h)
    requires rs == if odd then Xor(rh, Polynomial()) else rh
    ensures Holds(s, rs)
  {
    HoldsContent(POLYNOMIAL, Polynomial());
    if odd {
      XorHolds(h, rh, POLYNOMIAL, Polynomial(), s);
    }
  }

  function Zeros(n: nat): (s: seq<bool>)
    ensures |s| == n
  {
    seq(n, _ => false)
  }

  lemma WordSteps8Holds(c: bv32, r: Register)
    requires Holds(c, r)
    ensures Holds(WordSteps8(c), Feed(r, Zeros(8)))
  {
    var c2, r2 := WordStep(WordStep(c)), Step(Step(r, false), false);
    var c4, r4 := WordStep(WordStep(c2)), Step(Step(r2, false), false);
    var c6, r6 := WordStep(WordStep(c4)), Step(Step(r4, false), false);
    WordStepHolds(c, r);
    WordStepHolds(WordStep(c), Step(r, false));
    WordStepHolds(c2, r2);
    WordStepHolds(WordStep(c2), Step(r2, false));
    WordStepHolds(c4, r4);
    WordStepHolds(WordStep(c4), Step(r4, false));
    WordStepHolds(c6, r6);
    WordStepHolds(WordStep(c6), Step(r6, false));
    TwoZeros(r, 6);
    TwoZeros(r2, 4);
    TwoZeros(r4, 2);
    TwoZeros(r6, 0);
  }

  lemma TwoZeros(r: Register, n: nat)
    ensures Feed(r, Zeros(n + 2)) == Feed(Step(Step(r, false), false), Zeros(n))
  {
    assert Zeros(n + 2)[1..] == Zeros(n + 1) && Zeros(n + 1)[1..] == Zeros(n);
  }

  // ---------- one table look-up is eight bit steps ----------

  /** A register that agrees with e except where d is set takes the same feedback decisions
      as e on zero input, as long as d starts with the input bits. */
  lemma {:induction false} FeedSplit(c: Register, e: Register, d: Register, bits: seq<bool>, down: Register)
    requires c == Xor(e, d) && |bits| <= 32 && d[..|bits|] == bits
    requires down == d[|bits|..] + Zeros(|bits|)
    ensures Feed(c, bits) == Xor(Feed(e, Zeros(|bits|)), down)
    decreases bits
  {
    if bits != [] {
      var n := |bits| - 1;
      assert c[0] == (e[0] != bits[0]);
      assert Step(c, bits[0]) == Xor(Step(e, false), ShiftDown(d));
      assert ShiftDown(d)[..n] == bits[1..];
      assert down == ShiftDown(d)[n..] + Zeros(n);
      FeedSplit(Step(c, bits[0]), Step(e, false), ShiftDown(d), bits[1..], down);
      assert Zeros(n + 1)[1..] == Zeros(n);
    }
  }

  lemma IndexBelow256(c: bv32, w: bv32, b: byte)
    requires w == Word(b)
    ensures (c & 0xFF) ^ w <= 0xFF
  {
    ByteHolds(b);
    SmallXor(c & 0xFF, w);
  }

  lemma SmallXor(a: bv32, b: bv32)
    requires a <= 0xFF && b <= 0xFF
    ensures a ^ b <= 0xFF
  {
  }

  /** The bits that decide the feedback during one byte, and the bits that only move down. */
  function Deciding(r: Register, b: byte): Register
  {
    Xor(LowByte(r), ByteRegister(b))
  }

  lemma ByteSplit(r: Register, b: byte)
    ensures Feed(r, BitsOf(b, 8)) == Xor(ShiftDown8(r), Feed(Deciding(r, b), Zeros(8)))
  {
    var bits := BitsOf(b, 8);
    var d: Register := bits + r[8..];
    assert r == Xor(Deciding(r, b), d);
    assert ShiftDown8(r) == d[8..] + Zeros(8);
    FeedSplit(r, Deciding(r, b), d, bits, ShiftDown8(r));
    assert Xor(ShiftDown8(r), Feed(Deciding(r, b), Zeros(8))) == Xor(Feed(Deciding(r, b), Zeros(8)), ShiftDown8(r));
  }

  lemma LookupHolds(low: bv32, rl: Register, w: bv32, rw: Register, i: bv32, t: bv32)
    requires Holds(low, rl) && Holds(w, rw) && i == low ^ w && i <= 0xFF && t == Table(i)
    ensures Holds(t, Feed(Xor(rl, rw), Zeros(8)))
  {
    XorHolds(low, rl, w, rw, i);
    WordSteps8Holds(i, Xor(rl, rw));
    TableIsExact(i);
  }

  /** One turn of the engine's loop feeds one byte. */
  lemma TurnHolds(c: bv32, r: Register, b: byte, low: bv32, high: bv32, i: bv32, t: bv32, out: bv32)
    requires Holds(c, r)
    requires low == c & 0xFF && high == c >> 8 && i == low ^ Word(b) && i <= 0xFF && t == Table(i) && out == high ^ t
    ensures Holds(out, Feed(r, BitsOf(b, 8)))
  {
    hide Holds, Feed, Xor, ShiftDown8, LowByte, Zeros, Table, BitsOf;
    var rw := ByteRegister(b);
    ByteHolds(b);
    ByteSplit(r, b);
    LowByteHolds(c, r, low);
    Half8Holds(c, r, high);
    LookupHolds(low, LowByte(r), Word(b), rw, i, t);
    CombineHolds(high, ShiftDown8(r), t, Feed(Xor(LowByte(r), rw), Zeros(8)), out, Feed(r, BitsOf(b, 8)));
  }

  lemma CombineHolds(high: bv32, rh: Register, t: bv32, rt: Register, out: bv32, ro: Register)
    requires Holds(high, rh) && Holds(t, rt) && out == high ^ t && ro == Xor(rh, rt)
    ensures Holds(out, ro)
  {
    XorHolds(high, rh, t, rt, out);
  }

  // ---------- chaining ----------

  lemma {:induction false} FeedConcat(c: Register, a: seq<bool>, b: seq<bool>)
    ensures Feed(c, a + b) == Feed(Feed(c, a), b)
    decreases a
  {
    if a == [] {
      assert a + b == b;
    } else {
      assert (a + b)[1..] == a[1..] + b;
      FeedConcat(Step(c, a[0]), a[1..], b);
    }
  }

  lemma {:induction false} DataBitsConcat(a: Bytes, b: Bytes)
    ensures DataBits(a + b) == DataBits(a) + DataBits(b)
  {
    if a == [] {
      assert a + b == b;
    } else {
      assert (a + b)[1..] == a[1..] + b;
      DataBitsConcat(a[1..], b);
      assert BitsOf(a[0], 8) + (DataBits(a[1..]) + DataBits(b)) == (BitsOf(a[0], 8) + DataBits(a[1..])) + DataBits(b);
    }
  }

  /** The CRC of a concatenation continues the CRC of its first part. */
  lemma Chaining(previous: Register, a: Bytes, b: Bytes)
    ensures Continue(previous, a + b) == Continue(Continue(previous, a), b)
  {
    DataBitsConcat(a, b);
    FeedConcat(Flip(previous), DataBits(a), DataBits(b));
    var c := Feed(Flip(previous), DataBits(a));
    assert Flip(Flip(c)) == c;
  }

  // ---------- burst detection ----------

  lemma PolynomialTop()
    ensures Polynomial()[31]
  {
    FourBits(0xEDB8_8320, 0xEDB_8832, 27);
    FourBits(0xEDB_8832, 0xED_B883, 23);
    FourBits(0xED_B883, 0xE_DB88, 19);
    FourBits(0xE_DB88, 0xEDB8, 15);
    FourBits(0xEDB8, 0xEDB, 11);
    FourBits(0xEDB, 0xED, 7);
    FourBits(0xED, 0xE, 3);
    assert BitAt(0xE, 3) == BitAt(0x7, 2) == BitAt(0x3, 1) == BitAt(1, 0);
  }

  lemma StepInjective(c: Register, d: Register, bit: bool)
    requires Step(c, bit) == Step(d, bit)
    ensures c == d
  {
    PolynomialTop();
    assert Step(c, bit)[31] == (c[0] != bit) && Step(d, bit)[31] == (d[0] != bit);
    forall i | 0 <= i < 31
      ensures c[1..][i] == d[1..][i]
    {
      assert ShiftDown(c)[i] == c[1..][i] && ShiftDown(d)[i] == d[1..][i];
      assert Step(c, bit)[i] == Step(d, bit)[i];
    }
    assert c[1..] == d[1..];
    assert c == [c[0]] + c[1..] && d == [d[0]] + d[1..];
  }

  lemma {:induction false} FeedInjective(c: Register, d: Register, bits: seq<bool>)
    requires Feed(c, bits) == Feed(d, bits)
    ensures c == d
    decreases bits
  {
    if bits != [] {
      FeedInjective(Step(c, bits[0]), Step(d, bits[0]), bits[1..]);
      StepInjective(c, d, bits[0]);
    }
  }

  /** Some bit at position `low` or above tells the two registers apart. */
  ghost predicate ApartFrom(c: Register, d: Register, low: int)
  {
    exists i :: low <= i < 32 && 0 <= i && c[i] != d[i]
  }

  /** A difference moves down by at most one position a step, whatever the inputs are, since
      a feedback taken by one register only shows up in the top bit. */
  lemma ApartStep(c: Register, d: Register, b: bool, b': bool, low: int)
    requires ApartFrom(c, d, low) && low >= 1
    ensures ApartFrom(Step(c, b), Step(d, b'), low - 1)
  {
    PolynomialTop();
    var c', d' := Step(c, b), Step(d, b');
    if (c[0] != b) != (d[0] != b') {
      assert c'[31] != d'[31];
    } else {
      var i :| low <= i < 32 && 0 <= i && c[i] != d[i];
      assert ShiftDown(c)[i - 1] == c[i] && ShiftDown(d)[i - 1] == d[i];
      assert c'[i - 1] != d'[i - 1];
    }
  }

  lemma {:induction false} ApartFeed(c: Register, d: Register, u: seq<bool>, v: seq<bool>, low: int)
    requires |u| == |v| <= low && ApartFrom(c, d, low)
    ensures Feed(c, u) != Feed(d, v)
    decreases u
  {
    if u != [] {
      ApartStep(c, d, u[0], v[0], low);
      ApartFeed(Step(c, u[0]), Step(d, v[0]), u[1..], v[1..], low - 1);
    }
  }

  /** Two different inputs of at most 32 bits never leave the same register. */
  lemma {:induction false} BurstMovesRegister(c: Register, u: seq<bool>, v: seq<bool>)
    requires |u| == |v| <= 32 && u != v
    ensures Feed(c, u) != Feed(c, v)
    decreases u
  {
    if u[0] == v[0] {
      assert u[1..] != v[1..] by {
        assert u == [u[0]] + u[1..] && v == [v[0]] + v[1..];
      }
      BurstMovesRegister(Step(c, u[0]), u[1..], v[1..]);
    } else {
      PolynomialTop();
      assert Step(c, u[0])[31] != Step(c, v[0])[31];
      ApartFeed(Step(c, u[0]), Step(c, v[0]), u[1..], v[1..], 31);
    }
  }

  /** Two byte strings of the same length whose bits differ only inside a window of at most
      32 consecutive bits, at any bit position, have different checksums. */
  lemma BitBurstDetected(a: Bytes, b: Bytes, before: seq<bool>, u: seq<bool>, v: seq<bool>, after: seq<bool>)
    requires DataBits(a) == before + u + after && DataBits(b) == before + v + after
    requires |u| == |v| <= 32 && u != v
    ensures Crc32(a) != Crc32(b)
  {
    var c := Feed(Flip(Zero()), before);
    FeedConcat(Flip(Zero()), before, u);
    FeedConcat(Flip(Zero()), before, v);
    FeedConcat(Flip(Zero()), before + u, after);
    FeedConcat(Flip(Zero()), before + v, after);
    BurstMovesRegister(c, u, v);
    var x, y := Feed(Flip(Zero()), DataBits(a)), Feed(Flip(Zero()), DataBits(b));
    if x == y {
      FeedInjective(Feed(c, u), Feed(c, v), after);
    }
    assert x == Flip(Flip(x)) && y == Flip(Flip(y));
    if Crc32(a) == Crc32(b) {
      NumberInjective(Flip(x), Flip(y));
    }
  }

  lemma {:induction false} BitsOfInjective(a: nat, b: nat, n: nat)
    requires a < Pow2(n) && b < Pow2(n) && BitsOf(a, n) == BitsOf(b, n)
    ensures a == b
  {
    NumberOfBits(a, n);
    NumberOfBits(b, n);
  }

  lemma {:induction false} DataBitsInjective(a: Bytes, b: Bytes)
    requires |a| == |b| && DataBits(a) == DataBits(b)
    ensures a == b
  {
    if a != [] {
      assert DataBits(a)[..8] == BitsOf(a[0], 8) && DataBits(b)[..8] == BitsOf(b[0], 8);
      assert DataBits(a)[8..] == DataBits(a[1..]) && DataBits(b)[8..] == DataBits(b[1..]);
      PowersOfTwo();
      BitsOfInjective(a[0], b[0], 8);
      DataBitsInjective(a[1..], b[1..]);
      assert a == [a[0]] + a[1..] && b == [b[0]] + b[1..];
    }
  }

  /** A change inside at most four consecutive bytes never keeps the checksum. */
  lemma BurstDetected(before: Bytes, u: Bytes, v: Bytes, after: Bytes)
    requires |u| == |v| <= 4 && u != v
    ensures Crc32(before + u + after) != Crc32(before + v + after)
  {
    DataBitsConcat(before, u);
    DataBitsConcat(before + u, after);
    DataBitsConcat(before, v);
    DataBitsConcat(before + v, after);
    if DataBits(u) == DataBits(v) {
      DataBitsInjective(u, v);
    }
    BitBurstDetected(before + u + after, before + v + after,
                     DataBits(before), DataBits(u), DataBits(v), DataBits(after));
  }

  // ---------- a value to compare with ----------

  lemma WordOfA()
    ensures Word(97) == 0x61
  {
    assert WordOf(0, 1) == 0;
    assert WordOf(1, 2) == 0x1;
    assert WordOf(3, 3) == 0x3;
    assert WordOf(6, 4) == 0x6;
    assert WordOf(12, 5) == 0xC;
    assert WordOf(24, 6) == 0x18;
    assert WordOf(48, 7) == 0x30;
  }

  lemma LookUpA(i: bv32)
    requires i == 0xFF ^ 0x61
    ensures Table(i) == 0x17B7_BE43
  {
  }

  /** The checksum of the one byte "a". */
  lemma ChecksumOfA()
    ensures Continue(Zero(), [97]) == Content(0xE8B7_BE43)
  {
    hide Table, Feed, Step, BitsOf, WordOf;
    WordOfA();
    LookUpA(0xFF ^ 0x61);
    OnesHold();
    assert Flip(Zero()) == Ones();
    TurnHolds(0xFFFF_FFFF, Ones(), 97, 0xFF, 0xFF_FFFF, 0x9E, 0x17B7_BE43, 0x1748_41BC);
    var r := Feed(Ones(), BitsOf(97, 8));
    FlipHolds(0x1748_41BC, r);
    assert !(0x1748_41BC as bv32) == 0xE8B7_BE43;
    assert DataBits([97]) == BitsOf(97, 8) + DataBits([]);
    assert BitsOf(97, 8) + [] == BitsOf(97, 8);
    HoldsContent(0xE8B7_BE43, Flip(r));
  }

  // ---------- a block followed by its own checksum ----------

  lemma LowByteBits(v: nat, m: nat)
    ensures BitsOf(v, 8 + m) == BitsOf(v % 256, 8) + BitsOf(v / 256, m)
  {
    hide BitsOf;
    PowersOfTwo();
    BitsSplit(v / 256, v % 256, 8, m);
    assert v / 256 * 256 + v % 256 == v;
  }

  lemma {:induction false} BitsOfLe(v: nat, n: nat)
    ensures DataBits(Le(v, n)) == BitsOf(v, 8 * n)
  {
    if n > 0 {
      hide BitsOf;
      var s := Le(v, n);
      assert s[0] == v % 256 && s[1..] == Le(v / 256, n - 1);
      BitsOfLe(v / 256, n - 1);
      LowByteBits(v, 8 * (n - 1));
    }
  }

  /** Feeding the complement of a register into it leaves the same register whatever it held. */
  lemma FeedOwnComplement(c: Register)
    ensures Feed(c, Flip(c)) == Feed(Ones(), Zeros(32))
  {
    hide Feed, Step;
    assert c == Xor(Ones(), Flip(c));
    assert Flip(c)[..32] == Flip(c);
    var down: Register := Zeros(32);
    assert down == Flip(c)[32..] + Zeros(32);
    FeedSplit(c, Ones(), Flip(c), Flip(c), down);
    assert Xor(Feed(Ones(), Zeros(32)), down) == Feed(Ones(), Zeros(32));
  }

  /** Every block that is followed by its checksum has the same checksum. */
  lemma SealedResidue(block: Bytes)
    ensures Crc32(block + Le(Crc32(block), 4)) == Number(Flip(Feed(Ones(), Zeros(32))))
  {
    hide Le, Step;
    var c := Continue(Zero(), block);
    var r := Feed(Flip(Zero()), DataBits(block));
    assert Flip(c) == r;
    BitsOfLe(Number(c), 4);
    BitsOfNumber(c);
    DataBitsConcat(block, Le(Number(c), 4));
    FeedConcat(Flip(Zero()), DataBits(block), c);
    FeedOwnComplement(r);
    assert Flip(r) == c;
  }

  /** A change inside at most four consecutive bytes of a block or of the checksum behind it, or
      across the two, never leaves the right checksum. */
  lemma SealedBurstDetected(block: Bytes, check: Bytes, before: Bytes, u: Bytes, v: Bytes, after: Bytes)
    requires |u| == |v| <= 4 && u != v && |check| == 4
    requires block + check == before + v + after
    requires exists sealed :: before + u + after == sealed + Le(Crc32(sealed), 4)
    ensures FromLe(check) != Crc32(block)
  {
    hide Le, FromLe, Crc32;
    var sealed :| before + u + after == sealed + Le(Crc32(sealed), 4);
    BurstDetected(before, u, v, after);
    SealedResidue(sealed);
    if FromLe(check) == Crc32(block) {
      Crc32Bound(block);
      Le32(Crc32(block));
      FromLeInjective(check, Le(Crc32(block), 4));
      SealedResidue(block);
    }
  }

  /** The same for a burst in any block and the checksum behind it. */
  lemma SealedBurst(block: Bytes, t: Bytes, at: nat, n: nat)
    requires Burst(block + Le(Crc32(block), 4), t, at, n)
    ensures FromLe(t[|block|..]) != Crc32(t[..|block|])
  {
    hide Le, FromLe, Crc32, Burst;
    var before, u, v, after := BurstParts(block + Le(Crc32(block), 4), t, at, n);
    assert t[..|block|] + t[|block|..] == t;
    SealedBurstDetected(t[..|block|], t[|block|..], before, u, v, after);
  }

  /** The checksum as computed by the engine, as a number. */
  method Checksum(data: Bytes) returns (crc: nat)
    ensures crc == Crc32(data)
  {
    var w := ComputeCrc(data, 0);
    assert Content(0) == Zero() by {
      forall i | 0 <= i < 32
        ensures !BitAt(0, i)
      {
        ZeroBit(i);
      }
    }
    crc := Number(Content(w));
  }
}
