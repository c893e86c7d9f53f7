/** The CRC-32 that guards environment blocks: table driven in the program, a shift register by definition. */
module Crc32 {
  import opened Bytes

  const POLYNOMIAL: bv32 := 0xEDB88320

  function Xor(a: bv32, b: bv32): bv32 {
    a ^ b
  }

  function Half(x: bv32): bv32 {
    x >> 1
  }

  predicate Odd(x: bv32) {
    x & 1 == 1
  }

  /** One bit of the message enters the register: what leaves it decides whether the polynomial is subtracted. */
  function FeedBit(c: bv32, bit: bv32): bv32 {
    if Odd(Xor(c, bit)) then Xor(Half(c), POLYNOMIAL) else Half(c)
  }

  function Halved(w: bv32, n: nat): bv32 {
    if n == 0 then w else Half(Halved(w, n - 1))
  }

  /** The lowest n bits of w enter, lowest first. */
  function FeedBits(c: bv32, w: bv32, n: nat): bv32 {
    if n == 0 then c else FeedBit(FeedBits(c, w, n - 1), Halved(w, n - 1))
  }

  function FeedByte(c: bv32, b: byte): bv32 {
    FeedBits(c, b as bv32, 8)
  }

  function FeedAll(c: bv32, s: seq<byte>): bv32 {
    if s == [] then c else FeedByte(FeedAll(c, s[..|s| - 1]), s[|s| - 1])
  }

  /** The register starts as all ones and is complemented at the end. */
  function Crc(s: seq<byte>): bv32 {
    !FeedAll(0xFFFF_FFFF, s)
  }

  /** The feedback terms, sixteen to a row. */
  const ROW_0: seq<bv32> := [0x00000000, 0x77073096, 0xEE0E612C, 0x990951BA, 0x076DC419, 0x706AF48F, 0xE963A535, 0x9E6495A3,
                            0x0EDB8832, 0x79DCB8A4, 0xE0D5E91E, 0x97D2D988, 0x09B64C2B, 0x7EB17CBD, 0xE7B82D07, 0x90BF1D91]
  const ROW_1: seq<bv32> := [0x1DB71064, 0x6AB020F2, 0xF3B97148, 0x84BE41DE, 0x1ADAD47D, 0x6DDDE4EB, 0xF4D4B551, 0x83D385C7,
                            0x136C9856, 0x646BA8C0, 0xFD62F97A, 0x8A65C9EC, 0x14015C4F, 0x63066CD9, 0xFA0F3D63, 0x8D080DF5]
  const ROW_2: seq<bv32> := [0x3B6E20C8, 0x4C69105E, 0xD56041E4, 0xA2677172, 0x3C03E4D1, 0x4B04D447, 0xD20D85FD, 0xA50AB56B,
                            0x35B5A8FA, 0x42B2986C, 0xDBBBC9D6, 0xACBCF940, 0x32D86CE3, 0x45DF5C75, 0xDCD60DCF, 0xABD13D59]
  const ROW_3: seq<bv32> := [0x26D930AC, 0x51DE003A, 0xC8D75180, 0xBFD06116, 0x21B4F4B5, 0x56B3C423, 0xCFBA9599, 0xB8BDA50F,
                            0x2802B89E, 0x5F058808, 0xC60CD9B2, 0xB10BE924, 0x2F6F7C87, 0x58684C11, 0xC1611DAB, 0xB6662D3D]
  const ROW_4: seq<bv32> := [0x76DC4190, 0x01DB7106, 0x98D220BC, 0xEFD5102A, 0x71B18589, 0x06B6B51F, 0x9FBFE4A5, 0xE8B8D433,
                            0x7807C9A2, 0x0F00F934, 0x9609A88E, 0xE10E9818, 0x7F6A0DBB, 0x086D3D2D, 0x91646C97, 0xE6635C01]
  const ROW_5: seq<bv32> := [0x6B6B51F4, 0x1C6C6162, 0x856530D8, 0xF262004E, 0x6C0695ED, 0x1B01A57B, 0x8208F4C1, 0xF50FC457,
                            0x65B0D9C6, 0x12B7E950, 0x8BBEB8EA, 0xFCB9887C, 0x62DD1DDF, 0x15DA2D49, 0x8CD37CF3, 0xFBD44C65]
  const ROW_6: seq<bv32> := [0x4DB26158, 0x3AB551CE, 0xA3BC0074, 0xD4BB30E2, 0x4ADFA541, 0x3DD895D7, 0xA4D1C46D, 0xD3D6F4FB,
                            0x4369E96A, 0x346ED9FC, 0xAD678846, 0xDA60B8D0, 0x44042D73, 0x33031DE5, 0xAA0A4C5F, 0xDD0D7CC9]
  const ROW_7: seq<bv32> := [0x5005713C, 0x270241AA, 0xBE0B1010, 0xC90C2086, 0x5768B525, 0x206F85B3, 0xB966D409, 0xCE61E49F,
                            0x5EDEF90E, 0x29D9C998, 0xB0D09822, 0xC7D7A8B4, 0x59B33D17, 0x2EB40D81, 0xB7BD5C3B, 0xC0BA6CAD]
  const ROW_8: seq<bv32> := [0xEDB88320, 0x9ABFB3B6, 0x03B6E20C, 0x74B1D29A, 0xEAD54739, 0x9DD277AF, 0x04DB2615, 0x73DC1683,
                            0xE3630B12, 0x94643B84, 0x0D6D6A3E, 0x7A6A5AA8, 0xE40ECF0B, 0x9309FF9D, 0x0A00AE27, 0x7D079EB1]
  const ROW_9: seq<bv32> := [0xF00F9344, 0x8708A3D2, 0x1E01F268, 0x6906C2FE, 0xF762575D, 0x806567CB, 0x196C3671, 0x6E6B06E7,
                            0xFED41B76, 0x89D32BE0, 0x10DA7A5A, 0x67DD4ACC, 0xF9B9DF6F, 0x8EBEEFF9, 0x17B7BE43, 0x60B08ED5]
  const ROW_A: seq<bv32> := [0xD6D6A3E8, 0xA1D1937E, 0x38D8C2C4, 0x4FDFF252, 0xD1BB67F1, 0xA6BC5767, 0x3FB506DD, 0x48B2364B,
                            0xD80D2BDA, 0xAF0A1B4C, 0x36034AF6, 0x41047A60, 0xDF60EFC3, 0xA867DF55, 0x316E8EEF, 0x4669BE79]
  const ROW_B: seq<bv32> := [0xCB61B38C, 0xBC66831A, 0x256FD2A0, 0x5268E236, 0xCC0C7795, 0xBB0B4703, 0x220216B9, 0x5505262F,
                            0xC5BA3BBE, 0xB2BD0B28, 0x2BB45A92, 0x5CB36A04, 0xC2D7FFA7, 0xB5D0CF31, 0x2CD99E8B, 0x5BDEAE1D]
  const ROW_C: seq<bv32> := [0x9B64C2B0, 0xEC63F226, 0x756AA39C, 0x026D930A, 0x9C0906A9, 0xEB0E363F, 0x72076785, 0x05005713,
                            0x95BF4A82, 0xE2B87A14, 0x7BB12BAE, 0x0CB61B38, 0x92D28E9B, 0xE5D5BE0D, 0x7CDCEFB7, 0x0BDBDF21]
  const ROW_D: seq<bv32> := [0x86D3D2D4, 0xF1D4E242, 0x68DDB3F8, 0x1FDA836E, 0x81BE16CD, 0xF6B9265B, 0x6FB077E1, 0x18B74777,
                            0x88085AE6, 0xFF0F6A70, 0x66063BCA, 0x11010B5C, 0x8F659EFF, 0xF862AE69, 0x616BFFD3, 0x166CCF45]
  const ROW_E: seq<bv32> := [0xA00AE278, 0xD70DD2EE, 0x4E048354, 0x3903B3C2, 0xA7672661, 0xD06016F7, 0x4969474D, 0x3E6E77DB,
                            0xAED16A4A, 0xD9D65ADC, 0x40DF0B66, 0x37D83BF0, 0xA9BCAE53, 0xDEBB9EC5, 0x47B2CF7F, 0x30B5FFE9]
  const ROW_F: seq<bv32> := [0xBDBDF21C, 0xCABAC28A, 0x53B39330, 0x24B4A3A6, 0xBAD03605, 0xCDD70693, 0x54DE5729, 0x23D967BF,
                            0xB3667A2E, 0xC4614AB8, 0x5D681B02, 0x2A6F2B94, 0xB40BBE37, 0xC30C8EA1, 0x5A05DF1B, 0x2D02EF8D]

  const TABLE: seq<seq<bv32>> := [ROW_0, ROW_1, ROW_2, ROW_3, ROW_4, ROW_5, ROW_6, ROW_7, ROW_8, ROW_9, ROW_A, ROW_B, ROW_C, ROW_D, ROW_E, ROW_F]

  /** Eight zero bits enter the register. */
  function Shift8(c: bv32): bv32 {
    FeedBit(FeedBit(FeedBit(FeedBit(FeedBit(FeedBit(FeedBit(FeedBit(c, 0), 0), 0), 0), 0), 0), 0), 0)
  }

  lemma XorLaws(a: bv32, b: bv32, c: bv32, d: bv32)
    ensures Xor(a, 0) == a && Xor(a, a) == 0 && Xor(Xor(a, c), Xor(b, d)) == Xor(Xor(a, b), Xor(c, d))
  {
  }

  lemma HalfXor(a: bv32, b: bv32)
    ensures Half(Xor(a, b)) == Xor(Half(a), Half(b))
    ensures Odd(Xor(a, b)) <==> Odd(a) != Odd(b)
  {
  }

  lemma BitLinear(a: bv32, b: bv32)
    ensures FeedBit(Xor(a, b), 0) == Xor(FeedBit(a, 0), FeedBit(b, 0))
  {
    hide Odd, Half, Xor;
    HalfXor(a, b);
    XorLaws(a, 0, 0, 0);
    XorLaws(b, 0, 0, 0);
    XorLaws(Xor(a, b), 0, 0, 0);
    var p := if Odd(a) then POLYNOMIAL else 0;
    var q := if Odd(b) then POLYNOMIAL else 0;
    XorLaws(Half(a), Half(b), p, q);
    XorLaws(Half(a), 0, 0, 0);
    XorLaws(Half(b), 0, 0, 0);
    XorLaws(Xor(Half(a), Half(b)), 0, 0, 0);
    XorLaws(POLYNOMIAL, 0, 0, 0);
    XorCommutes(POLYNOMIAL, 0);
  }

  lemma XorCommutes(a: bv32, b: bv32)
    ensures Xor(a, b) == Xor(b, a)
  {
  }

  function Shift(c: bv32, n: nat): bv32 {
    if n == 0 then c else FeedBit(Shift(c, n - 1), 0)
  }

  lemma {:induction false} ShiftLinear(a: bv32, b: bv32, n: nat)
    ensures Shift(Xor(a, b), n) == Xor(Shift(a, n), Shift(b, n))
  {
    hide FeedBit, Xor;
    if n > 0 {
      ShiftLinear(a, b, n - 1);
      BitLinear(Shift(a, n - 1), Shift(b, n - 1));
    }
  }

  lemma Eight(c: bv32)
    ensures Shift(c, 8) == Shift8(c)
  {
    hide FeedBit;
    assert Shift(c, 1) == FeedBit(c, 0);
    assert Shift(c, 2) == FeedBit(FeedBit(c, 0), 0);
    assert Shift(c, 4) == FeedBit(FeedBit(Shift(c, 2), 0), 0);
    assert Shift(c, 6) == FeedBit(FeedBit(Shift(c, 4), 0), 0);
  }

  lemma Steps()
    ensures FeedBit(1, 0) == 0xEDB88320
    ensures FeedBit(2, 0) == 1 && FeedBit(4, 0) == 2 && FeedBit(8, 0) == 4 && FeedBit(16, 0) == 8 && FeedBit(32, 0) == 16 && FeedBit(64, 0) == 32 && FeedBit(128, 0) == 64
    ensures FeedBit(0, 0) == 0
    ensures FeedBit(0xEDB88320, 0) == 0x76DC4190
    ensures FeedBit(0x76DC4190, 0) == 0x3B6E20C8
    ensures FeedBit(0x3B6E20C8, 0) == 0x1DB71064
    ensures FeedBit(0x1DB71064, 0) == 0x0EDB8832
    ensures FeedBit(0x0EDB8832, 0) == 0x076DC419
    ensures FeedBit(0x076DC419, 0) == 0xEE0E612C
    ensures FeedBit(0xEE0E612C, 0) == 0x77073096
  {
  }

  /** The entries whose index has one bit. */
  lemma Basis()
    ensures Shift8(0) == 0
    ensures Shift8(1) == ROW_0[1] && Shift8(2) == ROW_0[2] && Shift8(4) == ROW_0[4] && Shift8(8) == ROW_0[8]
    ensures Shift8(16) == ROW_1[0] && Shift8(32) == ROW_2[0] && Shift8(64) == ROW_4[0] && Shift8(128) == ROW_8[0]
  {
    hide FeedBit;
    Steps();
  }

  function Row(h: nat): seq<bv32>
    requires h < 16
  {
    TABLE[h]
  }

  predicate IsXor(x: bv32, a: bv32, b: bv32) {
    x == a ^ b
  }

  predicate RowOk(row: seq<bv32>, first: seq<bv32>) {
    && |row| == |first| == 16
    && IsXor(row[0], row[0], first[0]) && IsXor(row[1], row[0], first[1]) && IsXor(row[2], row[0], first[2]) && IsXor(row[3], row[0], first[3])
    && IsXor(row[4], row[0], first[4]) && IsXor(row[5], row[0], first[5]) && IsXor(row[6], row[0], first[6]) && IsXor(row[7], row[0], first[7])
    && IsXor(row[8], row[0], first[8]) && IsXor(row[9], row[0], first[9]) && IsXor(row[10], row[0], first[10]) && IsXor(row[11], row[0], first[11])
    && IsXor(row[12], row[0], first[12]) && IsXor(row[13], row[0], first[13]) && IsXor(row[14], row[0], first[14]) && IsXor(row[15], row[0], first[15])
  }

  lemma Row0(row: seq<bv32>)
    requires |row| == 16 && row[0] == 0
    ensures RowOk(row, row)
  {
    forall l | 0 <= l < 16
      ensures IsXor(row[l], row[0], row[l])
    {
      NothingAdded(row[l]);
    }
  }

  lemma NothingAdded(a: bv32)
    ensures 0 ^ a == a
  {
  }

  lemma Row1()
    ensures RowOk(ROW_1, ROW_0)
  {
  }

  lemma Row2()
    ensures RowOk(ROW_2, ROW_0)
  {
  }

  lemma Row3()
    ensures RowOk(ROW_3, ROW_0)
  {
  }

  lemma Row4()
    ensures RowOk(ROW_4, ROW_0)
  {
  }

  lemma Row5()
    ensures RowOk(ROW_5, ROW_0)
  {
  }

  lemma Row6()
    ensures RowOk(ROW_6, ROW_0)
  {
  }

  lemma Row7()
    ensures RowOk(ROW_7, ROW_0)
  {
  }

  lemma Row8()
    ensures RowOk(ROW_8, ROW_0)
  {
  }

  lemma Row9()
    ensures RowOk(ROW_9, ROW_0)
  {
  }

  lemma RowA()
    ensures RowOk(ROW_A, ROW_0)
  {
  }

  lemma RowB()
    ensures RowOk(ROW_B, ROW_0)
  {
  }

  lemma RowC()
    ensures RowOk(ROW_C, ROW_0)
  {
  }

  lemma RowD()
    ensures RowOk(ROW_D, ROW_0)
  {
  }

  lemma RowE()
    ensures RowOk(ROW_E, ROW_0)
  {
  }

  lemma RowF()
    ensures RowOk(ROW_F, ROW_0)
  {
  }

  lemma ShiftXor(a: bv32, b: bv32)
    ensures Shift8(Xor(a, b)) == Xor(Shift8(a), Shift8(b))
  {
    hide FeedBit, Xor, Shift8, Shift;
    Eight(a);
    Eight(b);
    Eight(Xor(a, b));
    ShiftLinear(a, b, 8);
  }

  predicate IsShift8(x: bv32, c: bv32) {
    x == Shift8(c)
  }

  predicate Four(row: seq<bv32>, at: nat, p: bv32, q: bv32, r: bv32, t: bv32)
    requires at + 4 <= |row|
  {
    IsShift8(row[at], p) && IsShift8(row[at + 1], q) && IsShift8(row[at + 2], r) && IsShift8(row[at + 3], t)
  }

  lemma InFour(row: seq<bv32>, at: nat, p: bv32, q: bv32, r: bv32, t: bv32, l: nat)
    requires at + 4 <= |row| && Four(row, at, p, q, r, t) && at <= l < at + 4
    ensures IsShift8(row[l], if l == at then p else if l == at + 1 then q else if l == at + 2 then r else t)
  {
    hide IsShift8;
  }

  /** The entries whose index has no high bits. */
  predicate LowOk(row: seq<bv32>) {
    |row| == 16 && Four(row, 0, 0, 1, 2, 3) && Four(row, 4, 4, 5, 6, 7) && Four(row, 8, 8, 9, 10, 11) && Four(row, 12, 12, 13, 14, 15)
  }

  lemma LowEntry(row: seq<bv32>, l: nat)
    requires LowOk(row) && l < 16
    ensures |row| == 16 && IsShift8(row[l], l as bv32)
  {
    hide IsShift8, Four;
    if l < 4 {
      InFour(row, 0, 0, 1, 2, 3, l);
    } else if l < 8 {
      InFour(row, 4, 4, 5, 6, 7, l);
    } else if l < 12 {
      InFour(row, 8, 8, 9, 10, 11, l);
    } else {
      InFour(row, 12, 12, 13, 14, 15, l);
    }
  }

  /** Those whose index has no low bits. */
  predicate HighOk(heads: seq<bv32>) {
    && |heads| == 16
    && Four(heads, 0, 0, 0x10, 0x20, 0x30) && Four(heads, 4, 0x40, 0x50, 0x60, 0x70)
    && Four(heads, 8, 0x80, 0x90, 0xA0, 0xB0) && Four(heads, 12, 0xC0, 0xD0, 0xE0, 0xF0)
  }

  lemma HighEntry(heads: seq<bv32>, h: nat)
    requires HighOk(heads) && h < 16
    ensures |heads| == 16 && IsShift8(heads[h], (h as bv32) << 4)
  {
    hide IsShift8, Four;
    if h < 4 {
      InFour(heads, 0, 0, 0x10, 0x20, 0x30, h);
    } else if h < 8 {
      InFour(heads, 4, 0x40, 0x50, 0x60, 0x70, h);
    } else if h < 12 {
      InFour(heads, 8, 0x80, 0x90, 0xA0, 0xB0, h);
    } else {
      InFour(heads, 12, 0xC0, 0xD0, 0xE0, 0xF0, h);
    }
  }

  lemma LowTo7()
    ensures ROW_0[0] == Shift8(0) && ROW_0[1] == Shift8(1) && ROW_0[2] == Shift8(2) && ROW_0[3] == Shift8(3)
    ensures ROW_0[4] == Shift8(4) && ROW_0[5] == Shift8(5) && ROW_0[6] == Shift8(6) && ROW_0[7] == Shift8(7)
  {
    hide Shift8;
    Basis();
    ShiftXor(0x02, 0x01);
    ShiftXor(0x04, 0x01);
    ShiftXor(0x04, 0x02);
    ShiftXor(0x04, 0x03);
  }

  lemma LowToF()
    ensures LowOk(ROW_0)
  {
    hide Shift8;
    Basis();
    LowTo7();
    ShiftXor(0x08, 0x01);
    ShiftXor(0x08, 0x02);
    ShiftXor(0x08, 0x03);
    ShiftXor(0x08, 0x04);
    ShiftXor(0x08, 0x05);
    ShiftXor(0x08, 0x06);
    ShiftXor(0x08, 0x07);
  }

  lemma LowEntries(l: nat)
    requires l < 16
    ensures ROW_0[l] == Shift8(l as bv32)
  {
    hide Shift8, LowOk;
    LowToF();
    LowEntry(ROW_0, l);
  }

  const HEADS: seq<bv32> := [ROW_0[0], ROW_1[0], ROW_2[0], ROW_3[0], ROW_4[0], ROW_5[0], ROW_6[0], ROW_7[0],
                             ROW_8[0], ROW_9[0], ROW_A[0], ROW_B[0], ROW_C[0], ROW_D[0], ROW_E[0], ROW_F[0]]

  lemma HighTo7()
    ensures HEADS[0] == Shift8(0) && HEADS[1] == Shift8(0x10) && HEADS[2] == Shift8(0x20) && HEADS[3] == Shift8(0x30)
    ensures HEADS[4] == Shift8(0x40) && HEADS[5] == Shift8(0x50) && HEADS[6] == Shift8(0x60) && HEADS[7] == Shift8(0x70)
  {
    hide Shift8;
    Basis();
    ShiftXor(0x20, 0x10);
    ShiftXor(0x40, 0x10);
    ShiftXor(0x40, 0x20);
    ShiftXor(0x40, 0x30);
  }

  lemma HighToF()
    ensures HighOk(HEADS)
  {
    hide Shift8;
    Basis();
    HighTo7();
    ShiftXor(0x80, 0x10);
    ShiftXor(0x80, 0x20);
    ShiftXor(0x80, 0x30);
    ShiftXor(0x80, 0x40);
    ShiftXor(0x80, 0x50);
    ShiftXor(0x80, 0x60);
    ShiftXor(0x80, 0x70);
  }

  lemma HeadOf(h: nat)
    requires h < 16
    ensures |Row(h)| == 16 && TABLE[h][0] == HEADS[h]
  {
  }

  lemma HighEntries(h: nat)
    requires h < 16
    ensures TABLE[h][0] == Shift8((h as bv32) << 4)
  {
    hide Shift8, HighOk;
    HighToF();
    HighEntry(HEADS, h);
    HeadOf(h);
  }

  lemma RowEntry(row: seq<bv32>, first: seq<bv32>, l: nat)
    requires RowOk(row, first) && l < 16
    ensures |row| == |first| == 16 && IsXor(row[l], row[0], first[l])
  {
    hide IsXor;
  }

  lemma XorIs(x: bv32, a: bv32, b: bv32)
    requires IsXor(x, a, b)
    ensures x == Xor(a, b)
  {
  }

  lemma RowParts(high: bv32, low: bv32, l: nat, row: seq<bv32>, first: seq<bv32>)
    requires l < 16 && RowOk(row, first) && |row| == |first| == 16 && IsShift8(row[0], high) && first[l] == Shift8(low)
    ensures row[l] == Shift8(Xor(high, low))
  {
    hide Shift8, Xor, RowOk, IsXor;
    RowEntry(row, first, l);
    ShiftXor(high, low);
    XorIs(row[l], row[0], first[l]);
  }

  lemma Rows(h: nat)
    requires h < 16
    ensures RowOk(TABLE[h], ROW_0)
  {
    hide RowOk;
    if h < 8 {
      if h < 4 {
        Row0(ROW_0);
        Row1();
        Row2();
        Row3();
      } else {
        Row4();
        Row5();
        Row6();
        Row7();
      }
    } else {
      if h < 12 {
        Row8();
        Row9();
        RowA();
        RowB();
      } else {
        RowC();
        RowD();
        RowE();
        RowF();
      }
    }
  }

  lemma EntryAt(h: nat, l: nat)
    requires h < 16 && l < 16
    ensures |Row(h)| == 16 && Row(h)[l] == Shift8(Xor((h as bv32) << 4, l as bv32))
  {
    hide Shift8, Xor, RowOk;
    Rows(h);
    LowEntries(l);
    HighEntries(h);
    RowEntry(TABLE[h], ROW_0, l);
    RowParts((h as bv32) << 4, l as bv32, l, TABLE[h], ROW_0);
  }

  lemma Nibbles(x: bv32)
    requires x < 256
    ensures x >> 4 < 16 && x & 15 < 16 && Xor((x >> 4) << 4, x & 15) == x
  {
  }

  lemma NibbleIndex(x: bv32)
    requires x < 16
    ensures x as nat < 16 && (x as nat) as bv32 == x
  {
  }

  /** The table holds what eight zero bits make of every index. */
  lemma TableEntry(x: bv32)
    requires x < 256
    ensures (x >> 4) as nat < 16 && |Row((x >> 4) as nat)| == 16 && (x & 15) as nat < 16
    ensures Row((x >> 4) as nat)[(x & 15) as nat] == Shift8(x)
  {
    hide Shift8, Xor, Row;
    Nibbles(x);
    NibbleIndex(x >> 4);
    NibbleIndex(x & 15);
    EntryAt((x >> 4) as nat, (x & 15) as nat);
  }

  /** A bit entering the register is a bit added to it before. */
  lemma BitAdded(c: bv32, w: bv32)
    ensures FeedBit(Xor(c, w), 0) == Xor(FeedBit(c, w), Half(w))
  {
    hide Odd, Half, Xor;
    HalfXor(c, w);
    XorLaws(Xor(c, w), 0, 0, 0);
    var p := if Odd(Xor(c, w)) then POLYNOMIAL else 0;
    XorLaws(Half(c), Half(w), p, 0);
    XorLaws(Half(c), 0, 0, 0);
    XorLaws(Half(w), 0, 0, 0);
    XorLaws(Xor(Half(c), Half(w)), 0, 0, 0);
    XorLaws(POLYNOMIAL, 0, 0, 0);
  }

  lemma {:induction false} BitsAdded(c: bv32, w: bv32, n: nat)
    ensures Shift(Xor(c, w), n) == Xor(FeedBits(c, w, n), Halved(w, n))
  {
    hide FeedBit, Xor, Half;
    if n > 0 {
      BitsAdded(c, w, n - 1);
      BitAdded(FeedBits(c, w, n - 1), Halved(w, n - 1));
    }
  }

  lemma ByteGone(b: byte)
    ensures Halved(b as bv32, 8) == 0
  {
    var w := b as bv32;
    assert Halved(w, 1) == w >> 1;
    assert Halved(w, 2) == w >> 2;
    assert Halved(w, 3) == w >> 3;
    assert Halved(w, 4) == w >> 4;
    assert Halved(w, 5) == w >> 5;
    assert Halved(w, 6) == w >> 6;
    assert Halved(w, 7) == w >> 7;
    assert Halved(w, 8) == w >> 8;
  }

  lemma ByteAdded(c: bv32, b: byte)
    ensures FeedByte(c, b) == Shift8(Xor(c, b as bv32))
  {
    hide FeedBits, Shift, Shift8, Xor, Halved;
    BitsAdded(c, b as bv32, 8);
    Eight(Xor(c, b as bv32));
    ByteGone(b);
    XorLaws(FeedBits(c, b as bv32, 8), 0, 0, 0);
  }

  lemma NoFeedback(y: bv32)
    requires y & 0xFF == 0
    ensures Shift8(y) == y >> 8
  {
    assert FeedBit(y, 0) == y >> 1;
    assert FeedBit(y >> 1, 0) == y >> 2;
    assert FeedBit(y >> 2, 0) == y >> 3;
    assert FeedBit(y >> 3, 0) == y >> 4;
    assert FeedBit(y >> 4, 0) == y >> 5;
    assert FeedBit(y >> 5, 0) == y >> 6;
    assert FeedBit(y >> 6, 0) == y >> 7;
    assert FeedBit(y >> 7, 0) == y >> 8;
  }

  lemma SplitWord(y: bv32)
    ensures (y & 0xFFFF_FF00) & 0xFF == 0 && Xor(y & 0xFFFF_FF00, y & 0xFF) == y
    ensures (y & 0xFFFF_FF00) >> 8 == y >> 8
  {
  }

  lemma SameHigh(c: bv32, b: byte)
    ensures Xor(c, b as bv32) >> 8 == c >> 8
  {
  }

  /** One step of the table-driven form is eight steps of the shift register. */
  lemma TableStep(c: bv32, b: byte)
    ensures var x := Xor(c, b as bv32) & 0xFF;
            x < 256 && Xor(Shift8(x), c >> 8) == FeedByte(c, b)
  {
    hide Shift8, Xor, FeedByte;
    var y := Xor(c, b as bv32);
    ByteAdded(c, b);
    SplitWord(y);
    SameHigh(c, b);
    NoFeedback(y & 0xFFFF_FF00);
    ShiftXor(y & 0xFFFF_FF00, y & 0xFF);
    XorCommutes(Shift8(y & 0xFF), c >> 8);
  }

  /** crc32buf */
  method Crc32Buf(buf: seq<byte>) returns (crc: bv32)
    ensures crc == Crc(buf)
  {
    hide Shift8, FeedByte, Row, Xor;
    var c: bv32 := 0xFFFF_FFFF;
    var i := 0;
    while i < |buf|
      invariant 0 <= i <= |buf| && c == FeedAll(0xFFFF_FFFF, buf[..i])
    {
      assert buf[..i + 1][..i] == buf[..i];
      TableStep(c, buf[i]);
      var x := Xor(c, buf[i] as bv32) & 0xFF;
      TableEntry(x);
      c := Xor(Row((x >> 4) as nat)[(x & 15) as nat], c >> 8);
      i := i + 1;
    }
    assert buf[..i] == buf;
    crc := !c;
  }

  lemma {:induction false} FeedConcat(c: bv32, s: seq<byte>, t: seq<byte>)
    ensures FeedAll(c, s + t) == FeedAll(FeedAll(c, s), t)
  {
    hide FeedByte;
    if t == [] {
      assert s + t == s;
    } else {
      FeedConcat(c, s, t[..|t| - 1]);
      assert (s + t)[..|s + t| - 1] == s + t[..|t| - 1];
    }
  }

  /** The register can be run backwards: its top bit tells whether the polynomial was subtracted. */
  lemma BitInjective(a: bv32, b: bv32)
    requires FeedBit(a, 0) == FeedBit(b, 0)
    ensures a == b
  {
  }

  lemma {:induction false} ShiftInjective(a: bv32, b: bv32, n: nat)
    requires Shift(a, n) == Shift(b, n)
    ensures a == b
  {
    hide FeedBit;
    if n > 0 {
      BitInjective(Shift(a, n - 1), Shift(b, n - 1));
      ShiftInjective(a, b, n - 1);
    }
  }

  lemma XorCancels(c: bv32, x: bv32, y: bv32)
    requires Xor(c, x) == Xor(c, y) || Xor(x, c) == Xor(y, c)
    ensures x == y
  {
    hide Xor;
    XorUndone(c, x);
    XorUndone(c, y);
  }

  lemma XorUndone(c: bv32, x: bv32)
    ensures Xor(c, Xor(c, x)) == x && Xor(Xor(x, c), c) == x
  {
  }

  lemma {:induction false} TailInjective(c: bv32, d: bv32, t: seq<byte>)
    requires FeedAll(c, t) == FeedAll(d, t)
    ensures c == d
  {
    hide FeedByte, Xor, Shift, Shift8;
    if t != [] {
      var c', d', b := FeedAll(c, t[..|t| - 1]), FeedAll(d, t[..|t| - 1]), t[|t| - 1];
      ByteAdded(c', b);
      ByteAdded(d', b);
      Eight(Xor(c', b as bv32));
      Eight(Xor(d', b as bv32));
      ShiftInjective(Xor(c', b as bv32), Xor(d', b as bv32), 8);
      XorCancels(b as bv32, c', d');
      TailInjective(c, d, t[..|t| - 1]);
    }
  }

  lemma {:induction false} ShiftTwice(a: bv32, m: nat, n: nat)
    ensures Shift(Shift(a, m), n) == Shift(a, m + n)
  {
    hide FeedBit;
    if n > 0 {
      ShiftTwice(a, m, n - 1);
    }
  }

  function ByteAt(w: seq<byte>, k: nat): bv32 {
    if k < |w| then w[k] as bv32 else 0
  }

  /** Up to four bytes as one word, the first byte lowest. */
  function Word(w: seq<byte>): bv32 {
    Join(ByteAt(w, 0), ByteAt(w, 1), ByteAt(w, 2), ByteAt(w, 3))
  }

  function Join(a: bv32, b: bv32, c: bv32, d: bv32): bv32 {
    Xor(Xor(Xor(a, Raised(b, 1)), Raised(c, 2)), Raised(d, 3))
  }

  /** Byte b in place k of a word. */
  function Raised(b: bv32, k: nat): bv32
    requires k < 4
  {
    match k
    case 0 => b
    case 1 => b << 8
    case 2 => b << 16
    case 3 => b << 24
  }

  lemma InPlaceShift(b: byte, k: nat)
    requires k < 4
    ensures Shift(Raised(b as bv32, k), 8 * k) == b as bv32
  {
    hide FeedBit, Shift8, Shift;
    var w := b as bv32;
    Places(w);
    if k > 0 {
      ShiftDown(w << 8);
      if k > 1 {
        ShiftDown(w << 16);
        ShiftTwice(w << 16, 8, 8);
        if k > 2 {
          ShiftDown(w << 24);
          ShiftTwice(w << 24, 8, 16);
        }
      }
    } else {
      NoShift(w);
    }
  }

  lemma ShiftDown(y: bv32)
    requires y & 0xFF == 0
    ensures Shift(y, 8) == y >> 8
  {
    hide Shift, Shift8;
    Eight(y);
    NoFeedback(y);
  }

  lemma NoShift(y: bv32)
    ensures Shift(y, 0) == y
  {
  }

  lemma Places(w: bv32)
    requires w < 256
    ensures (w << 24) & 0xFF == 0 && (w << 16) & 0xFF == 0 && (w << 8) & 0xFF == 0
    ensures (w << 24) >> 8 == w << 16 && (w << 16) >> 8 == w << 8 && (w << 8) >> 8 == w
  {
  }

  lemma WordGrows(w: seq<byte>)
    requires 0 < |w| <= 4
    ensures Word(w) == Xor(Word(w[..|w| - 1]), Raised(w[|w| - 1] as bv32, |w| - 1))
  {
    hide Xor, Raised, ByteAt, Join;
    var w' := w[..|w| - 1];
    Shorter(w, 0);
    Shorter(w, 1);
    Shorter(w, 2);
    Shorter(w, 3);
    JoinGrows(ByteAt(w', 0), ByteAt(w', 1), ByteAt(w', 2), w[|w| - 1] as bv32, |w| - 1);
  }

  lemma Shorter(w: seq<byte>, k: nat)
    requires w != []
    ensures ByteAt(w, k) == if k == |w| - 1 then w[k] as bv32 else ByteAt(w[..|w| - 1], k)
    ensures k >= |w| - 1 ==> ByteAt(w[..|w| - 1], k) == 0
  {
  }

  lemma JoinGrows(a: bv32, b: bv32, c: bv32, x: bv32, k: nat)
    requires k < 4 && (k <= 0 ==> a == 0) && (k <= 1 ==> b == 0) && (k <= 2 ==> c == 0)
    ensures Xor(Join(a, b, c, 0), Raised(x, k)) ==
            Join(if k == 0 then x else a, if k == 1 then x else b, if k == 2 then x else c, if k == 3 then x else 0)
  {
    hide Xor, Raised;
    WithZero(a);
    WithZero(Xor(a, Raised(b, 1)));
    WithZero(Xor(Xor(a, Raised(b, 1)), Raised(c, 2)));
    WithZero(x);
    WithZero(Xor(x, 0));
    WithZero(Xor(a, Raised(x, 1)));
    WithZero(Xor(Xor(a, Raised(b, 1)), Raised(x, 2)));
    RaisedZero(x);
  }

  lemma WithZero(a: bv32)
    ensures Xor(a, 0) == a && Xor(0, a) == a
  {
  }

  lemma RaisedZero(a: bv32)
    ensures Raised(0, 1) == 0 && Raised(0, 2) == 0 && Raised(0, 3) == 0 && Raised(a, 0) == a
  {
  }

  /** Up to four bytes entering one after the other are their word added to the register before. */
  lemma {:induction false} WordAdded(c: bv32, w: seq<byte>)
    requires |w| <= 4
    ensures FeedAll(c, w) == Shift(Xor(c, Word(w)), 8 * |w|)
  {
    hide FeedByte, Xor, FeedBit, Word, Raised, Shift8, Join;
    if w == [] {
      EmptyWord(c);
    } else {
      var w', b, k := w[..|w| - 1], w[|w| - 1], |w| - 1;
      WordAdded(c, w');
      ByteAdded(FeedAll(c, w'), b);
      Eight(Xor(FeedAll(c, w'), b as bv32));
      InPlaceShift(b, k);
      ShiftLinear(Xor(c, Word(w')), Raised(b as bv32, k), 8 * k);
      ShiftTwice(Xor(Xor(c, Word(w')), Raised(b as bv32, k)), 8 * k, 8);
      WordGrows(w);
      XorAssociates(c, Word(w'), Raised(b as bv32, k));
    }
  }

  lemma EmptyWord(c: bv32)
    ensures Xor(c, Word([])) == c
  {
  }

  lemma XorAssociates(a: bv32, b: bv32, c: bv32)
    ensures Xor(Xor(a, b), c) == Xor(a, Xor(b, c))
  {
  }

  lemma WordInjective(w: seq<byte>, w': seq<byte>)
    requires |w| == |w'| <= 4 && Word(w) == Word(w')
    ensures w == w'
  {
  }

  /** Damage confined to four bytes in a row, whatever it is, always changes the checksum. */
  lemma BurstDetected(p: seq<byte>, w: seq<byte>, w': seq<byte>, t: seq<byte>)
    requires |w| == |w'| <= 4 && w != w'
    ensures Crc(p + w + t) != Crc(p + w' + t)
  {
    hide FeedAll, Shift, Xor, Word;
    var c := FeedAll(0xFFFF_FFFF, p);
    FeedConcat(0xFFFF_FFFF, p, w);
    FeedConcat(0xFFFF_FFFF, p + w, t);
    FeedConcat(0xFFFF_FFFF, p, w');
    FeedConcat(0xFFFF_FFFF, p + w', t);
    if FeedAll(0xFFFF_FFFF, p + w + t) == FeedAll(0xFFFF_FFFF, p + w' + t) {
      TailInjective(FeedAll(c, w), FeedAll(c, w'), t);
      WordAdded(c, w);
      WordAdded(c, w');
      ShiftInjective(Xor(c, Word(w)), Xor(c, Word(w')), 8 * |w|);
      XorCancels(c, Word(w), Word(w'));
      WordInjective(w, w');
    }
  }

  /** Two strings that differ in exactly one byte never share a checksum. */
  lemma OneByteDetected(s: seq<byte>, k: nat, b: byte)
    requires k < |s| && b != s[k]
    ensures Crc(s[k := b]) != Crc(s)
  {
    assert s == s[..k] + [s[k]] + s[k + 1..];
    assert s[k := b] == s[..k] + [b] + s[k + 1..];
    BurstDetected(s[..k], [s[k]], [b], s[k + 1..]);
  }

  lemma FeedNext(c: bv32, s: seq<byte>, k: nat)
    requires k < |s|
    ensures FeedAll(c, s[..k + 1]) == FeedByte(FeedAll(c, s[..k]), s[k])
  {
    hide FeedByte;
    assert s[..k + 1][..k] == s[..k];
  }

  lemma Check1()
    ensures FeedByte(0xFFFFFFFF, 49) == 0x7C231048
  {
    ByteAdded(0xFFFFFFFF, 49);
  }

  lemma Check2()
    ensures FeedByte(0x7C231048, 50) == 0xB0ACBB32
  {
    ByteAdded(0x7C231048, 50);
  }

  lemma Check3()
    ensures FeedByte(0xB0ACBB32, 51) == 0x77B79C2D
  {
    ByteAdded(0xB0ACBB32, 51);
  }

  lemma Check4()
    ensures FeedByte(0x77B79C2D, 52) == 0x641C1F5C
  {
    ByteAdded(0x77B79C2D, 52);
  }

  lemma Check5()
    ensures FeedByte(0x641C1F5C, 53) == 0x340AC5E3
  {
    ByteAdded(0x641C1F5C, 53);
  }

  lemma Check6()
    ensures FeedByte(0x340AC5E3, 54) == 0xF68D2C9E
  {
    ByteAdded(0x340AC5E3, 54);
  }

  lemma Check7()
    ensures FeedByte(0xF68D2C9E, 55) == 0xAFFC9660
  {
    ByteAdded(0xF68D2C9E, 55);
  }

  lemma Check8()
    ensures FeedByte(0xAFFC9660, 56) == 0x651F2550
  {
    ByteAdded(0xAFFC9660, 56);
  }

  lemma Check9()
    ensures FeedByte(0x651F2550, 57) == 0x340BC6D9
  {
    ByteAdded(0x651F2550, 57);
  }

  predicate IsDigits(s: seq<byte>) {
    |s| == 9 && s[0] == 49 && s[1] == 50 && s[2] == 51 && s[3] == 52 && s[4] == 53 && s[5] == 54 && s[6] == 55 && s[7] == 56 && s[8] == 57
  }

  /** The check value of CRC-32, the checksum of the text 123456789. */
  lemma CheckValue(s: seq<byte>)
    requires IsDigits(s)
    ensures Crc(s) == 0xCBF43926
  {
    hide FeedByte, FeedAll;
    NothingFed(0xFFFF_FFFF);
    assert s[..0] == [] && s[..9] == s;
    FeedNext(0xFFFF_FFFF, s, 0);
    Check1();
    FeedNext(0xFFFF_FFFF, s, 1);
    Check2();
    FeedNext(0xFFFF_FFFF, s, 2);
    Check3();
    FeedNext(0xFFFF_FFFF, s, 3);
    Check4();
    FeedNext(0xFFFF_FFFF, s, 4);
    Check5();
    FeedNext(0xFFFF_FFFF, s, 5);
    Check6();
    FeedNext(0xFFFF_FFFF, s, 6);
    Check7();
    FeedNext(0xFFFF_FFFF, s, 7);
    Check8();
    FeedNext(0xFFFF_FFFF, s, 8);
    Check9();
  }

  lemma NothingFed(c: bv32)
    ensures FeedAll(c, []) == c
  {
  }
}
