// The table of bootloader/gnu-efi/lib/crc.c and its meaning bit by bit.
module CrcTables {

  /** One bit of division by the reflected polynomial 0xEDB88320. */
  function BitStep(c: bv32): bv32 {
    if c & 1 == 1 then (c >> 1) ^ 0xEDB88320 else c >> 1
  }

  function EightSteps(c: bv32): bv32 {
    BitStep(BitStep(BitStep(BitStep(BitStep(BitStep(BitStep(BitStep(c))))))))
  }

  // ----- CRCTable, in sixteen rows of sixteen entries

  function Row0(): (r: seq<bv32>)
    ensures |r| == 16
  {
    [0x00000000, 0x77073096, 0xEE0E612C, 0x990951BA, 0x076DC419, 0x706AF48F, 0xE963A535, 0x9E6495A3,
     0x0EDB8832, 0x79DCB8A4, 0xE0D5E91E, 0x97D2D988, 0x09B64C2B, 0x7EB17CBD, 0xE7B82D07, 0x90BF1D91]
  }

  function Row1(): (r: seq<bv32>)
    ensures |r| == 16
  {
    [0x1DB71064, 0x6AB020F2, 0xF3B97148, 0x84BE41DE, 0x1ADAD47D, 0x6DDDE4EB, 0xF4D4B551, 0x83D385C7,
     0x136C9856, 0x646BA8C0, 0xFD62F97A, 0x8A65C9EC, 0x14015C4F, 0x63066CD9, 0xFA0F3D63, 0x8D080DF5]
  }

  function Row2(): (r: seq<bv32>)
    ensures |r| == 16
  {
    [0x3B6E20C8, 0x4C69105E, 0xD56041E4, 0xA2677172, 0x3C03E4D1, 0x4B04D447, 0xD20D85FD, 0xA50AB56B,
     0x35B5A8FA, 0x42B2986C, 0xDBBBC9D6, 0xACBCF940, 0x32D86CE3, 0x45DF5C75, 0xDCD60DCF, 0xABD13D59]
  }

  function Row3(): (r: seq<bv32>)
    ensures |r| == 16
  {
    [0x26D930AC, 0x51DE003A, 0xC8D75180, 0xBFD06116, 0x21B4F4B5, 0x56B3C423, 0xCFBA9599, 0xB8BDA50F,
     0x2802B89E, 0x5F058808, 0xC60CD9B2, 0xB10BE924, 0x2F6F7C87, 0x58684C11, 0xC1611DAB, 0xB6662D3D]
  }

  function Row4(): (r: seq<bv32>)
    ensures |r| == 16
  {
    [0x76DC4190, 0x01DB7106, 0x98D220BC, 0xEFD5102A, 0x71B18589, 0x06B6B51F, 0x9FBFE4A5, 0xE8B8D433,
     0x7807C9A2, 0x0F00F934, 0x9609A88E, 0xE10E9818, 0x7F6A0DBB, 0x086D3D2D, 0x91646C97, 0xE6635C01]
  }

  function Row5(): (r: seq<bv32>)
    ensures |r| == 16
  {
    [0x6B6B51F4, 0x1C6C6162, 0x856530D8, 0xF262004E, 0x6C0695ED, 0x1B01A57B, 0x8208F4C1, 0xF50FC457,
     0x65B0D9C6, 0x12B7E950, 0x8BBEB8EA, 0xFCB9887C, 0x62DD1DDF, 0x15DA2D49, 0x8CD37CF3, 0xFBD44C65]
  }

  function Row6(): (r: seq<bv32>)
    ensures |r| == 16
  {
    [0x4DB26158, 0x3AB551CE, 0xA3BC0074, 0xD4BB30E2, 0x4ADFA541, 0x3DD895D7, 0xA4D1C46D, 0xD3D6F4FB,
     0x4369E96A, 0x346ED9FC, 0xAD678846, 0xDA60B8D0, 0x44042D73, 0x33031DE5, 0xAA0A4C5F, 0xDD0D7CC9]
  }

  function Row7(): (r: seq<bv32>)
    ensures |r| == 16
  {
    [0x5005713C, 0x270241AA, 0xBE0B1010, 0xC90C2086, 0x5768B525, 0x206F85B3, 0xB966D409, 0xCE61E49F,
     0x5EDEF90E, 0x29D9C998, 0xB0D09822, 0xC7D7A8B4, 0x59B33D17, 0x2EB40D81, 0xB7BD5C3B, 0xC0BA6CAD]
  }

  function Row8(): (r: seq<bv32>)
    ensures |r| == 16
  {
    [0xEDB88320, 0x9ABFB3B6, 0x03B6E20C, 0x74B1D29A, 0xEAD54739, 0x9DD277AF, 0x04DB2615, 0x73DC1683,
     0xE3630B12, 0x94643B84, 0x0D6D6A3E, 0x7A6A5AA8, 0xE40ECF0B, 0x9309FF9D, 0x0A00AE27, 0x7D079EB1]
  }

  function Row9(): (r: seq<bv32>)
    ensures |r| == 16
  {
    [0xF00F9344, 0x8708A3D2, 0x1E01F268, 0x6906C2FE, 0xF762575D, 0x806567CB, 0x196C3671, 0x6E6B06E7,
     0xFED41B76, 0x89D32BE0, 0x10DA7A5A, 0x67DD4ACC, 0xF9B9DF6F, 0x8EBEEFF9, 0x17B7BE43, 0x60B08ED5]
  }

  function RowA(): (r: seq<bv32>)
    ensures |r| == 16
  {
    [0xD6D6A3E8, 0xA1D1937E, 0x38D8C2C4, 0x4FDFF252, 0xD1BB67F1, 0xA6BC5767, 0x3FB506DD, 0x48B2364B,
     0xD80D2BDA, 0xAF0A1B4C, 0x36034AF6, 0x41047A60, 0xDF60EFC3, 0xA867DF55, 0x316E8EEF, 0x4669BE79]
  }

  function RowB(): (r: seq<bv32>)
    ensures |r| == 16
  {
    [0xCB61B38C, 0xBC66831A, 0x256FD2A0, 0x5268E236, 0xCC0C7795, 0xBB0B4703, 0x220216B9, 0x5505262F,
     0xC5BA3BBE, 0xB2BD0B28, 0x2BB45A92, 0x5CB36A04, 0xC2D7FFA7, 0xB5D0CF31, 0x2CD99E8B, 0x5BDEAE1D]
  }

  function RowC(): (r: seq<bv32>)
    ensures |r| == 16
  {
    [0x9B64C2B0, 0xEC63F226, 0x756AA39C, 0x026D930A, 0x9C0906A9, 0xEB0E363F, 0x72076785, 0x05005713,
     0x95BF4A82, 0xE2B87A14, 0x7BB12BAE, 0x0CB61B38, 0x92D28E9B, 0xE5D5BE0D, 0x7CDCEFB7, 0x0BDBDF21]
  }

  function RowD(): (r: seq<bv32>)
    ensures |r| == 16
  {
    [0x86D3D2D4, 0xF1D4E242, 0x68DDB3F8, 0x1FDA836E, 0x81BE16CD, 0xF6B9265B, 0x6FB077E1, 0x18B74777,
     0x88085AE6, 0xFF0F6A70, 0x66063BCA, 0x11010B5C, 0x8F659EFF, 0xF862AE69, 0x616BFFD3, 0x166CCF45]
  }

  function RowE(): (r: seq<bv32>)
    ensures |r| == 16
  {
    [0xA00AE278, 0xD70DD2EE, 0x4E048354, 0x3903B3C2, 0xA7672661, 0xD06016F7, 0x4969474D, 0x3E6E77DB,
     0xAED16A4A, 0xD9D65ADC, 0x40DF0B66, 0x37D83BF0, 0xA9BCAE53, 0xDEBB9EC5, 0x47B2CF7F, 0x30B5FFE9]
  }

  function RowF(): (r: seq<bv32>)
    ensures |r| == 16
  {
    [0xBDBDF21C, 0xCABAC28A, 0x53B39330, 0x24B4A3A6, 0xBAD03605, 0xCDD70693, 0x54DE5729, 0x23D967BF,
     0xB3667A2E, 0xC4614AB8, 0x5D681B02, 0x2A6F2B94, 0xB40BBE37, 0xC30C8EA1, 0x5A05DF1B, 0x2D02EF8D]
  }

  function TableRow(hi: bv8): (r: seq<bv32>)
    ensures |r| == 16
  {
    if hi == 0 then Row0()
    else if hi == 1 then Row1()
    else if hi == 2 then Row2()
    else if hi == 3 then Row3()
    else if hi == 4 then Row4()
    else if hi == 5 then Row5()
    else if hi == 6 then Row6()
    else if hi == 7 then Row7()
    else if hi == 8 then Row8()
    else if hi == 9 then Row9()
    else if hi == 10 then RowA()
    else if hi == 11 then RowB()
    else if hi == 12 then RowC()
    else if hi == 13 then RowD()
    else if hi == 14 then RowE()
    else RowF()
  }

  /** The number written by the four bits of x. */
  function Nibble(x: bv8): (n: nat)
    ensures n < 16
  {
    if x == 0 then 0 else if x == 1 then 1 else if x == 2 then 2 else if x == 3 then 3
    else if x == 4 then 4 else if x == 5 then 5 else if x == 6 then 6 else if x == 7 then 7
    else if x == 8 then 8 else if x == 9 then 9 else if x == 10 then 10 else if x == 11 then 11
    else if x == 12 then 12 else if x == 13 then 13 else if x == 14 then 14 else 15
  }

  /** CRCTable[b] */
  function Lookup(b: bv8): bv32 {
    TableRow(b >> 4)[Nibble(b & 0xf)]
  }

  // ----- every entry is eight steps of division

  lemma ShiftXor(a: bv32, b: bv32)
    ensures (a ^ b) >> 1 == (a >> 1) ^ (b >> 1)
  {
  }

  lemma LowXor(a: bv32, b: bv32)
    ensures (a ^ b) & 1 == (a & 1) ^ (b & 1)
  {
  }

  lemma LowBit(a: bv32)
    ensures a & 1 == 0 || a & 1 == 1
  {
  }

  lemma XorLeft(x: bv32, y: bv32, p: bv32)
    ensures (x ^ p) ^ y == (x ^ y) ^ p
  {
  }

  lemma XorRight(x: bv32, y: bv32, p: bv32)
    ensures x ^ (y ^ p) == (x ^ y) ^ p
  {
  }

  lemma XorBoth(x: bv32, y: bv32, p: bv32)
    ensures (x ^ p) ^ (y ^ p) == x ^ y
  {
  }

  function Xor(a: bv32, b: bv32): bv32 {
    a ^ b
  }

  lemma BitStepLinear(a: bv32, b: bv32)
    ensures BitStep(Xor(a, b)) == Xor(BitStep(a), BitStep(b))
  {
    ShiftXor(a, b);
    LowXor(a, b);
    LowBit(a);
    LowBit(b);
    XorLeft(a >> 1, b >> 1, 0xEDB88320);
    XorRight(a >> 1, b >> 1, 0xEDB88320);
    XorBoth(a >> 1, b >> 1, 0xEDB88320);
  }

  lemma EightStepsLinear(a: bv32, b: bv32)
    ensures EightSteps(Xor(a, b)) == Xor(EightSteps(a), EightSteps(b))
  {
    hide BitStep, Xor;
    BitStepLinear(a, b);
    var (a1, b1) := (BitStep(a), BitStep(b));
    BitStepLinear(a1, b1);
    var (a2, b2) := (BitStep(a1), BitStep(b1));
    BitStepLinear(a2, b2);
    var (a3, b3) := (BitStep(a2), BitStep(b2));
    BitStepLinear(a3, b3);
    var (a4, b4) := (BitStep(a3), BitStep(b3));
    BitStepLinear(a4, b4);
    var (a5, b5) := (BitStep(a4), BitStep(b4));
    BitStepLinear(a5, b5);
    var (a6, b6) := (BitStep(a5), BitStep(b5));
    BitStepLinear(a6, b6);
    BitStepLinear(BitStep(a6), BitStep(b6));
  }

  /** The first row, shifted by a constant. */
  function Shifted(c: bv32): seq<bv32> {
    ShiftedBy(c, Row0())
  }

  function ShiftedBy(c: bv32, r: seq<bv32>): (s: seq<bv32>)
    requires |r| == 16
    ensures |s| == 16
  {
    [Xor(c, r[0]), Xor(c, r[1]), Xor(c, r[2]), Xor(c, r[3]), Xor(c, r[4]), Xor(c, r[5]), Xor(c, r[6]), Xor(c, r[7]),
     Xor(c, r[8]), Xor(c, r[9]), Xor(c, r[10]), Xor(c, r[11]), Xor(c, r[12]), Xor(c, r[13]), Xor(c, r[14]), Xor(c, r[15])]
  }

  lemma ShiftedAt(c: bv32, r: seq<bv32>, n: nat)
    requires |r| == 16 && n < 16
    ensures ShiftedBy(c, r)[n] == Xor(c, r[n])
  {
    hide Xor;
    if n < 4 {
    } else if n < 8 {
    } else if n < 12 {
    } else {
    }
  }

  lemma ShiftedEntry(c: bv32, n: nat)
    requires n < 16
    ensures Shifted(c)[n] == Xor(c, Row0()[n])
  {
    hide Xor, Row0, ShiftedBy;
    ShiftedAt(c, Row0(), n);
  }

  lemma Row0Entry(lo: bv8)
    requires lo < 16
    ensures Row0()[Nibble(lo)] == EightSteps(lo as bv32)
  {
  }

  lemma Row0Shape() ensures Row0() == Shifted(Row0()[0]) && Row0()[0] == EightSteps(0x00) {}
  lemma Row1Shape() ensures Row1() == Shifted(Row1()[0]) && Row1()[0] == EightSteps(0x10) {}
  lemma Row2Shape() ensures Row2() == Shifted(Row2()[0]) && Row2()[0] == EightSteps(0x20) {}
  lemma Row3Shape() ensures Row3() == Shifted(Row3()[0]) && Row3()[0] == EightSteps(0x30) {}
  lemma Row4Shape() ensures Row4() == Shifted(Row4()[0]) && Row4()[0] == EightSteps(0x40) {}
  lemma Row5Shape() ensures Row5() == Shifted(Row5()[0]) && Row5()[0] == EightSteps(0x50) {}
  lemma Row6Shape() ensures Row6() == Shifted(Row6()[0]) && Row6()[0] == EightSteps(0x60) {}
  lemma Row7Shape() ensures Row7() == Shifted(Row7()[0]) && Row7()[0] == EightSteps(0x70) {}
  lemma Row8Shape() ensures Row8() == Shifted(Row8()[0]) && Row8()[0] == EightSteps(0x80) {}
  lemma Row9Shape() ensures Row9() == Shifted(Row9()[0]) && Row9()[0] == EightSteps(0x90) {}
  lemma RowAShape() ensures RowA() == Shifted(RowA()[0]) && RowA()[0] == EightSteps(0xA0) {}
  lemma RowBShape() ensures RowB() == Shifted(RowB()[0]) && RowB()[0] == EightSteps(0xB0) {}
  lemma RowCShape() ensures RowC() == Shifted(RowC()[0]) && RowC()[0] == EightSteps(0xC0) {}
  lemma RowDShape() ensures RowD() == Shifted(RowD()[0]) && RowD()[0] == EightSteps(0xD0) {}
  lemma RowEShape() ensures RowE() == Shifted(RowE()[0]) && RowE()[0] == EightSteps(0xE0) {}
  lemma RowFShape() ensures RowF() == Shifted(RowF()[0]) && RowF()[0] == EightSteps(0xF0) {}

  lemma TableRowShape(hi: bv8)
    requires hi < 16
    ensures TableRow(hi) == Shifted(EightSteps((hi as bv32) << 4))
  {
    hide Shifted, EightSteps;
    if hi == 0 { Row0Shape(); }
    if hi == 1 { Row1Shape(); }
    if hi == 2 { Row2Shape(); }
    if hi == 3 { Row3Shape(); }
    if hi == 4 { Row4Shape(); }
    if hi == 5 { Row5Shape(); }
    if hi == 6 { Row6Shape(); }
    if hi == 7 { Row7Shape(); }
    if hi == 8 { Row8Shape(); }
    if hi == 9 { Row9Shape(); }
    if hi == 10 { RowAShape(); }
    if hi == 11 { RowBShape(); }
    if hi == 12 { RowCShape(); }
    if hi == 13 { RowDShape(); }
    if hi == 14 { RowEShape(); }
    if hi == 15 { RowFShape(); }
  }

  lemma SplitByte(b: bv8)
    ensures Xor(((b >> 4) as bv32) << 4, (b & 0xf) as bv32) == b as bv32
  {
  }

  /** Table lookup is eight steps of bit-by-bit division, for every byte. */
  lemma LookupIsSteps(b: bv8)
    ensures Lookup(b) == EightSteps(b as bv32)
  {
    hide Shifted, EightSteps, TableRow, Nibble, Xor, Row0;
    TableRowShape(b >> 4);
    ShiftedEntry(EightSteps(((b >> 4) as bv32) << 4), Nibble(b & 0xf));
    Row0Entry(b & 0xf);
    EightStepsLinear(((b >> 4) as bv32) << 4, (b & 0xf) as bv32);
    SplitByte(b);
  }
}
