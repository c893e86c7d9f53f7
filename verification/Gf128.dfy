/** Doubling in GF(2^128), little-endian bytes, with two 64-bit words. */
module Gf128 {
  import opened AesModes
  import opened Bytes

  function Le64(b0: byte, b1: byte, b2: byte, b3: byte, b4: byte, b5: byte, b6: byte, b7: byte): bv64 {
    (b0 as bv64) | ((b1 as bv64) << 8) | ((b2 as bv64) << 16) | ((b3 as bv64) << 24)
    | ((b4 as bv64) << 32) | ((b5 as bv64) << 40) | ((b6 as bv64) << 48) | ((b7 as bv64) << 56)
  }

  function PutLe64(v: bv64): (r: seq<byte>)
    ensures |r| == 8
  {
    [(v & 0xff) as bv8, ((v >> 8) & 0xff) as bv8, ((v >> 16) & 0xff) as bv8, ((v >> 24) & 0xff) as bv8,
     ((v >> 32) & 0xff) as bv8, ((v >> 40) & 0xff) as bv8, ((v >> 48) & 0xff) as bv8, ((v >> 56) & 0xff) as bv8]
  }

  /** The low word doubled, with the reduction when the high word carries out. */
  function LowWord(a: bv64, carry: bool): seq<byte> {
    PutLe64((a << 1) ^ (if carry then 0x87 else 0))
  }

  /** The high word doubled, with the bit that leaves the low word. */
  function HighWord(a: bv64, b: bv64): seq<byte> {
    PutLe64((a >> 63) | (b << 1))
  }

  function Double(x: Block): Block {
    DoubleLow(x) + DoubleHigh(x)
  }

  function DoubleLow(x: Block): (r: seq<byte>)
    ensures |r| == 8
  {
    LowWord(Le64(x[0], x[1], x[2], x[3], x[4], x[5], x[6], x[7]), Le64(x[8], x[9], x[10], x[11], x[12], x[13], x[14], x[15]) >> 63 == 1)
  }

  function DoubleHigh(x: Block): (r: seq<byte>)
    ensures |r| == 8
  {
    HighWord(Le64(x[0], x[1], x[2], x[3], x[4], x[5], x[6], x[7]), Le64(x[8], x[9], x[10], x[11], x[12], x[13], x[14], x[15]))
  }

  /** A byte shifted left by one bit, taking in the top bit of the byte below. */
  function ShiftIn(high: byte, low: byte): byte {
    (high << 1) | (low >> 7)
  }

  lemma TopBit(b0: byte, b1: byte, b2: byte, b3: byte, b4: byte, b5: byte, b6: byte, b7: byte)
    ensures Le64(b0, b1, b2, b3, b4, b5, b6, b7) >> 63 == (b7 >> 7) as bv64
  {
  }

  lemma CarryOut(b0: byte, b1: byte, b2: byte, b3: byte, b4: byte, b5: byte, b6: byte, b7: byte)
    ensures Le64(b0, b1, b2, b3, b4, b5, b6, b7) >> 63 == 1 <==> b7 >> 7 == 1
  {
  }

  lemma LowBytes(b0: byte, b1: byte, b2: byte, b3: byte, b4: byte, b5: byte, b6: byte, b7: byte, carry: bool)
    ensures LowWord(Le64(b0, b1, b2, b3, b4, b5, b6, b7), carry) ==
            [(b0 << 1) ^ (if carry then 135 else 0), ShiftIn(b1, b0), ShiftIn(b2, b1), ShiftIn(b3, b2),
             ShiftIn(b4, b3), ShiftIn(b5, b4), ShiftIn(b6, b5), ShiftIn(b7, b6)]
  {
  }

  lemma HighBytes(b0: byte, b1: byte, b2: byte, b3: byte, b4: byte, b5: byte, b6: byte, b7: byte, low: byte, a: bv64)
    requires a >> 63 == (low >> 7) as bv64
    ensures HighWord(a, Le64(b0, b1, b2, b3, b4, b5, b6, b7)) ==
            [ShiftIn(b0, low), ShiftIn(b1, b0), ShiftIn(b2, b1), ShiftIn(b3, b2),
             ShiftIn(b4, b3), ShiftIn(b5, b4), ShiftIn(b6, b5), ShiftIn(b7, b6)]
  {
  }

  /**
   * Doubling as section 5.2 of IEEE Std 1619-2007 has it: every byte is shifted left and takes
   * in the carry of the byte below, and a carry out of the last byte adds 135 to the first.
   */
  lemma DoubleLowIsStandard(x: Block)
    ensures DoubleLow(x) ==
            [(x[0] << 1) ^ (if x[15] >> 7 == 1 then 135 else 0), ShiftIn(x[1], x[0]), ShiftIn(x[2], x[1]), ShiftIn(x[3], x[2]),
             ShiftIn(x[4], x[3]), ShiftIn(x[5], x[4]), ShiftIn(x[6], x[5]), ShiftIn(x[7], x[6])]
  {
    CarryOut(x[8], x[9], x[10], x[11], x[12], x[13], x[14], x[15]);
    LowBytes(x[0], x[1], x[2], x[3], x[4], x[5], x[6], x[7], x[15] >> 7 == 1);
  }

  lemma DoubleHighIsStandard(x: Block)
    ensures DoubleHigh(x) ==
            [ShiftIn(x[8], x[7]), ShiftIn(x[9], x[8]), ShiftIn(x[10], x[9]), ShiftIn(x[11], x[10]),
             ShiftIn(x[12], x[11]), ShiftIn(x[13], x[12]), ShiftIn(x[14], x[13]), ShiftIn(x[15], x[14])]
  {
    TopBit(x[0], x[1], x[2], x[3], x[4], x[5], x[6], x[7]);
    HighBytes(x[8], x[9], x[10], x[11], x[12], x[13], x[14], x[15], x[7], Le64(x[0], x[1], x[2], x[3], x[4], x[5], x[6], x[7]));
  }

  lemma ShiftInIs(high: byte, low: byte)
    ensures ShiftIn(high, low) == (high << 1) | (low >> 7)
  {
  }

  lemma LowByte(x: Block, k: nat)
    requires k < 8
    ensures DoubleLow(x)[k] == if k == 0 then (x[0] << 1) ^ (if x[15] >> 7 == 1 then 135 else 0) else ShiftIn(x[k], x[k - 1])
  {
    hide DoubleLow, ShiftIn;
    DoubleLowIsStandard(x);
  }

  lemma HighByte(x: Block, k: nat)
    requires 8 <= k < BLOCK
    ensures DoubleHigh(x)[k - 8] == ShiftIn(x[k], x[k - 1])
  {
    hide DoubleHigh, ShiftIn;
    DoubleHighIsStandard(x);
  }

  /** Both halves together: every byte of the doubled block. */
  lemma DoubleIsStandard(x: Block, k: nat)
    requires k < BLOCK
    ensures Double(x)[k] == if k == 0 then (x[0] << 1) ^ (if x[15] >> 7 == 1 then 135 else 0) else (x[k] << 1) | (x[k - 1] >> 7)
  {
    hide DoubleLow, DoubleHigh, ShiftIn;
    if k < 8 {
      LowByte(x, k);
    } else {
      HighByte(x, k);
    }
    if k > 0 {
      ShiftInIs(x[k], x[k - 1]);
    }
  }
}
