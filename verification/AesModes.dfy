/** The CBC and XTS modes over an arbitrary invertible 16-byte block cipher. */
module AesModes {
  import opened Bytes

  const BLOCK: nat := 16

  type Block = b: seq<byte> | |b| == BLOCK witness seq(16, _ => 0)

  datatype Direction = Encrypt | Decrypt {
    function Other(): Direction {
      if Encrypt? then Decrypt else Encrypt
    }
  }

  /** A keyed block cipher. */
  datatype Cipher = Cipher(enc: Block -> Block, dec: Block -> Block) {
    /** The two directions undo each other. */
    ghost predicate Valid() {
      forall b: Block :: dec(enc(b)) == b && enc(dec(b)) == b
    }

    function Ecb(mode: Direction, b: Block): Block {
      if mode.Encrypt? then enc(b) else dec(b)
    }
  }

  function XorByte(a: byte, b: byte): byte {
    a ^ b
  }

  function Xor(a: Block, b: Block): Block {
    seq(BLOCK, k requires 0 <= k < BLOCK => XorByte(a[k], b[k]))
  }

  /** Each bit of the sum is one exactly when one of the two bits is. */
  lemma XorIs(a: Block, b: Block, k: nat)
    requires k < BLOCK
    ensures Xor(a, b)[k] == (a[k] & !b[k]) | (!a[k] & b[k])
  {
  }

  lemma XorTwice(a: Block, b: Block)
    ensures Xor(Xor(a, b), b) == a
  {
    forall k | 0 <= k < BLOCK
      ensures Xor(Xor(a, b), b)[k] == a[k]
    {
      assert (a[k] ^ b[k]) ^ b[k] == a[k];
    }
  }

  /** The whole blocks of a byte string, and the string of a list of blocks. */
  function Split(data: seq<byte>): (r: seq<Block>)
    ensures |r| == |data| / BLOCK
  {
    seq<Block>(|data| / BLOCK, j requires 0 <= j < |data| / BLOCK => data[BLOCK * j..BLOCK * j + BLOCK])
  }

  function Join(blocks: seq<Block>): (r: seq<byte>)
    ensures |r| == BLOCK * |blocks|
  {
    seq(BLOCK * |blocks|, i requires 0 <= i < BLOCK * |blocks| => blocks[i / BLOCK][i % BLOCK])
  }

  lemma SplitJoin(blocks: seq<Block>)
    ensures Split(Join(blocks)) == blocks
  {
    forall j | 0 <= j < |blocks|
      ensures Split(Join(blocks))[j] == blocks[j]
    {
      forall k | 0 <= k < BLOCK
        ensures Split(Join(blocks))[j][k] == blocks[j][k]
      {
        assert Join(blocks)[BLOCK * j + k] == blocks[j][k];
      }
    }
  }

  lemma JoinSplit(data: seq<byte>)
    requires |data| % BLOCK == 0
    ensures Join(Split(data)) == data
  {
    forall i | 0 <= i < |data|
      ensures Join(Split(data))[i] == data[i]
    {
      assert i == BLOCK * (i / BLOCK) + i % BLOCK;
    }
  }

  // ----- CBC: section 6.2 of NIST SP 800-38A -----

  /** Every ciphertext block is the cipher of the plaintext block xor the ciphertext before it. */
  function CbcEncrypt(c: Cipher, iv: Block, data: seq<Block>): (r: seq<Block>)
    ensures |r| == |data|
    decreases |data|
  {
    if data == [] then []
    else
      var first := c.enc(Xor(data[0], iv));
      [first] + CbcEncrypt(c, first, data[1..])
  }

  function CbcDecrypt(c: Cipher, iv: Block, data: seq<Block>): (r: seq<Block>)
    ensures |r| == |data|
  {
    seq<Block>(|data|, j requires 0 <= j < |data| => Xor(c.dec(data[j]), if j == 0 then iv else data[j - 1]))
  }

  lemma {:induction false} CbcEncryptAt(c: Cipher, iv: Block, data: seq<Block>, j: nat)
    requires j < |data|
    ensures CbcEncrypt(c, iv, data)[j] == c.enc(Xor(data[j], if j == 0 then iv else CbcEncrypt(c, iv, data)[j - 1]))
    decreases |data|
  {
    if j > 0 {
      CbcEncryptAt(c, c.enc(Xor(data[0], iv)), data[1..], j - 1);
    }
  }

  /** CBC decryption undoes CBC encryption, for any invertible block function. */
  lemma {:induction false} CbcRoundTrip(c: Cipher, iv: Block, data: seq<Block>)
    requires c.Valid()
    ensures CbcDecrypt(c, iv, CbcEncrypt(c, iv, data)) == data
  {
    hide CbcEncrypt, Xor;
    var e := CbcEncrypt(c, iv, data);
    forall j | 0 <= j < |data|
      ensures CbcDecrypt(c, iv, e)[j] == data[j]
    {
      CbcEncryptAt(c, iv, data, j);
      XorTwice(data[j], if j == 0 then iv else e[j - 1]);
    }
  }

  // ----- XTS: sections 5.3 and 5.4 of IEEE Std 1619-2007 -----

  type Tweaks = nat -> Block

  function XtsBlock(c: Cipher, mode: Direction, tweak: Block, x: Block): Block {
    Xor(c.Ecb(mode, Xor(x, tweak)), tweak)
  }

  lemma XtsBlockRoundTrip(c: Cipher, mode: Direction, tweak: Block, x: Block)
    requires c.Valid()
    ensures XtsBlock(c, mode.Other(), tweak, XtsBlock(c, mode, tweak, x)) == x
  {
    XorTwice(c.Ecb(mode, Xor(x, tweak)), tweak);
    XorTwice(x, tweak);
  }

  /** The last full block of a decryption with leftover bytes takes the tweak after its own. */
  function TweakIndex(mode: Direction, blocks: nat, leftover: nat, j: nat): nat {
    if mode.Decrypt? && leftover != 0 && j + 1 == blocks then blocks else j
  }

  /** The full blocks, each under its own tweak, before any ciphertext stealing. */
  function XtsBlocks(c: Cipher, mode: Direction, tweaks: Tweaks, data: seq<Block>, leftover: nat): (r: seq<Block>)
    ensures |r| == |data|
    ensures forall j :: 0 <= j < |data| ==> r[j] == XtsBlock(c, mode, tweaks(TweakIndex(mode, |data|, leftover, j)), data[j])
  {
    seq<Block>(|data|, j requires 0 <= j < |data| => XtsBlock(c, mode, tweaks(TweakIndex(mode, |data|, leftover, j)), data[j]))
  }

  /** The tweak of the final round: the one left over from the last full block. */
  function StolenIndex(mode: Direction, blocks: nat): nat
    requires blocks > 0
  {
    if mode.Decrypt? then blocks - 1 else blocks
  }

  /** A data unit of at least one full block and fewer than sixteen leftover bytes. */
  datatype Unit = Unit(blocks: seq<Block>, tail: seq<byte>) {
    predicate Valid() {
      blocks != [] && |tail| < BLOCK
    }
  }

  function XtsCrypt(c: Cipher, mode: Direction, tweaks: Tweaks, data: Unit): (r: Unit)
    requires data.Valid()
    ensures r.Valid() && |r.blocks| == |data.blocks| && |r.tail| == |data.tail|
  {
    var blocks := XtsBlocks(c, mode, tweaks, data.blocks, |data.tail|);
    if data.tail == [] then Unit(blocks, [])
    else
      var last := |blocks| - 1;
      var b := |data.tail|;
      var stolen: Block := data.tail + blocks[last][b..];
      Unit(blocks[last := XtsBlock(c, mode, tweaks(StolenIndex(mode, |blocks|)), stolen)], blocks[last][..b])
  }

  /** y is x under the tweak t, which is added on either side of the block function. */
  ghost predicate Enciphers(c: Cipher, mode: Direction, t: Block, x: Block, y: Block) {
    Xor(y, t) == if mode.Encrypt? then c.enc(Xor(x, t)) else c.dec(Xor(x, t))
  }

  lemma BlockEnciphers(c: Cipher, mode: Direction, t: Block, x: Block)
    ensures Enciphers(c, mode, t, x, XtsBlock(c, mode, t, x))
  {
    hide Xor;
    XorTwice(c.Ecb(mode, Xor(x, t)), t);
  }

  /** The last two pieces: cc is the last full block under its tweak, its head is the tail, and the rest goes behind `stolen`. */
  ghost predicate Stolen(c: Cipher, mode: Direction, t: Block, next: Block, x: Block, stolen: seq<byte>, last: Block, tail: seq<byte>, cc: Block)
    requires |stolen| < BLOCK
  {
    && Enciphers(c, mode, t, x, cc) && tail == cc[..|stolen|] && Enciphers(c, mode, next, stolen + cc[|stolen|..], last)
  }

  lemma UnitRight(c: Cipher, mode: Direction, tweaks: Tweaks, data: Unit)
    requires data.Valid()
    ensures var e, n := XtsCrypt(c, mode, tweaks, data), |data.blocks|;
            && (forall j :: 0 <= j < n && (data.tail == [] || j + 1 < n) ==> Enciphers(c, mode, tweaks(j), data.blocks[j], e.blocks[j]))
            && (data.tail != [] ==>
                  Stolen(c, mode, tweaks(if mode.Encrypt? then n - 1 else n), tweaks(if mode.Encrypt? then n else n - 1), data.blocks[n - 1], data.tail,
                         e.blocks[n - 1], e.tail, XtsBlocks(c, mode, tweaks, data.blocks, |data.tail|)[n - 1]))
  {
    hide Enciphers, XtsBlock;
    var e, n, b := XtsCrypt(c, mode, tweaks, data), |data.blocks|, |data.tail|;
    var blocks := XtsBlocks(c, mode, tweaks, data.blocks, b);
    forall j | 0 <= j < n && (b == 0 || j + 1 < n)
      ensures Enciphers(c, mode, tweaks(j), data.blocks[j], e.blocks[j])
    {
      BlockEnciphers(c, mode, tweaks(j), data.blocks[j]);
    }
    if b != 0 {
      BlockEnciphers(c, mode, tweaks(TweakIndex(mode, n, b, n - 1)), data.blocks[n - 1]);
      BlockEnciphers(c, mode, tweaks(StolenIndex(mode, n)), data.tail + blocks[n - 1][b..]);
    }
  }

  /** XTS decryption undoes XTS encryption, and the other way round, for every length, the stolen tail included. */
  lemma XtsRoundTrip(c: Cipher, mode: Direction, tweaks: Tweaks, data: Unit)
    requires c.Valid() && data.Valid()
    ensures XtsCrypt(c, mode.Other(), tweaks, XtsCrypt(c, mode, tweaks, data)) == data
  {
    hide XtsBlock;
    var e := XtsCrypt(c, mode, tweaks, data);
    var d := XtsCrypt(c, mode.Other(), tweaks, e);
    var m, b := |data.blocks|, |data.tail|;
    forall j | 0 <= j < m && (b == 0 || j + 1 < m)
      ensures d.blocks[j] == data.blocks[j]
    {
      assert e.blocks[j] == XtsBlock(c, mode, tweaks(j), data.blocks[j]);
      assert d.blocks[j] == XtsBlock(c, mode.Other(), tweaks(j), e.blocks[j]);
      XtsBlockRoundTrip(c, mode, tweaks(j), data.blocks[j]);
    }
    if b != 0 {
      XtsStolenRoundTrip(c, mode, tweaks(TweakIndex(mode, m, b, m - 1)), tweaks(StolenIndex(mode, m)), data.blocks[m - 1], data.tail);
    }
  }

  /** The last two pieces: one direction swaps them and their tweaks, the other swaps them back. */
  lemma XtsStolenRoundTrip(c: Cipher, mode: Direction, t: Block, next: Block, p: Block, tail: seq<byte>)
    requires c.Valid() && 0 < |tail| < BLOCK
    ensures var b := |tail|;
            var cc := XtsBlock(c, mode, t, p);
            var stolen: Block := tail + cc[b..];
            var pp := XtsBlock(c, mode.Other(), next, XtsBlock(c, mode, next, stolen));
            && pp[..b] == tail
            && var back: Block := cc[..b] + pp[b..];
            && XtsBlock(c, mode.Other(), t, back) == p
  {
    var b := |tail|;
    var cc := XtsBlock(c, mode, t, p);
    var stolen: Block := tail + cc[b..];
    XtsBlockRoundTrip(c, mode, next, stolen);
    assert cc[..b] + stolen[b..] == cc;
    XtsBlockRoundTrip(c, mode, t, p);
  }

  /** The bytes that become the tail: the head of the last full block. */
  function Handed(c: Cipher, mode: Direction, tweaks: Tweaks, blocks: seq<Block>, b: nat): (r: seq<byte>)
    requires blocks != [] && b < BLOCK
    ensures |r| == b
  {
    XtsBlocks(c, mode, tweaks, blocks, b)[|blocks| - 1][..b]
  }

  /** What the loop leaves when it runs in place: the stolen bytes overwrite the tail before it is read. */
  function XtsInPlace(c: Cipher, mode: Direction, tweaks: Tweaks, data: Unit): (r: Unit)
    requires data.Valid()
  {
    XtsCrypt(c, mode, tweaks, Unit(data.blocks, Handed(c, mode, tweaks, data.blocks, |data.tail|)))
  }

  /** On one data unit, in place is right exactly when the tail happens to be what overwrites it. */
  lemma XtsInPlaceAt(c: Cipher, mode: Direction, tweaks: Tweaks, data: Unit)
    requires c.Valid() && data.Valid()
    ensures XtsInPlace(c, mode, tweaks, data) == XtsCrypt(c, mode, tweaks, data) <==>
            data.tail == Handed(c, mode, tweaks, data.blocks, |data.tail|)
  {
    hide XtsCrypt;
    var other := Unit(data.blocks, Handed(c, mode, tweaks, data.blocks, |data.tail|));
    XtsRoundTrip(c, mode, tweaks, data);
    XtsRoundTrip(c, mode, tweaks, other);
  }

  ghost predicate InPlaceRight(c: Cipher, mode: Direction, tweaks: Tweaks, data: Unit)
    requires data.Valid()
  {
    XtsInPlace(c, mode, tweaks, data) == XtsCrypt(c, mode, tweaks, data)
  }

  /** So encrypting or decrypting in place is right for all data of a length exactly when no bytes are left over. */
  lemma XtsInPlaceIff(c: Cipher, mode: Direction, tweaks: Tweaks, m: nat, b: nat)
    requires c.Valid() && m > 0 && b < BLOCK
    ensures (forall data: Unit :: data.Valid() && |data.blocks| == m && |data.tail| == b ==> InPlaceRight(c, mode, tweaks, data))
            <==> b == 0
  {
    hide XtsInPlace, XtsCrypt, XtsBlocks;
    forall data: Unit | data.Valid() && |data.blocks| == m && |data.tail| == b && b == 0
      ensures InPlaceRight(c, mode, tweaks, data)
    {
      XtsInPlaceAt(c, mode, tweaks, data);
    }
    if b > 0 {
      var data := InPlaceWrong(c, mode, tweaks, seq(m, _ => seq(BLOCK, _ => 0)), b);
      assert !InPlaceRight(c, mode, tweaks, data);
    }
  }

  /** Whatever the full blocks, some tail comes out wrong. */
  lemma InPlaceWrong(c: Cipher, mode: Direction, tweaks: Tweaks, blocks: seq<Block>, b: nat) returns (data: Unit)
    requires c.Valid() && blocks != [] && 0 < b < BLOCK
    ensures data.Valid() && data.blocks == blocks && |data.tail| == b && !InPlaceRight(c, mode, tweaks, data)
  {
    hide XtsInPlace, XtsCrypt, XtsBlocks;
    var handed := Handed(c, mode, tweaks, blocks, b);
    data := Unit(blocks, handed[0 := if handed[0] == 0 then 1 else 0]);
    XtsInPlaceAt(c, mode, tweaks, data);
  }
}
