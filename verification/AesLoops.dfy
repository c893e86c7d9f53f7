/** The buffer loops of the CBC and XTS modes, in place or between two buffers. */
module AesLoops {
  import opened Bytes
  import opened AesModes

  const ERR_INVALID_INPUT_LENGTH: int := -0x0022
  const MAX_DATA_UNIT: nat := 0x10_0000 * 16

  method PutBlock(a: array<byte>, at: nat, b: Block)
    requires at + BLOCK <= a.Length
    modifies a
    ensures forall i :: at <= i < at + BLOCK ==> a[i] == b[i - at]
    ensures forall i :: 0 <= i < a.Length && !(at <= i < at + BLOCK) ==> a[i] == old(a[i])
  {
    forall i | 0 <= i < BLOCK {
      a[at + i] := b[i];
    }
  }

  /** Blocks from..to of `a`, counted from index `at`, are those of `blocks`. */
  ghost predicate HoldsBlocks(a: array<byte>, at: nat, blocks: seq<Block>, from: nat, to: nat)
    requires to <= |blocks| && at + BLOCK * to <= a.Length
    reads a
  {
    forall k, q {:trigger blocks[k][q]} :: from <= k < to && 0 <= q < BLOCK ==> a[at + BLOCK * k + q] == blocks[k][q]
  }

  lemma HeldBlock(a: array<byte>, at: nat, blocks: seq<Block>, from: nat, to: nat, k: nat)
    requires to <= |blocks| && at + BLOCK * to <= a.Length && HoldsBlocks(a, at, blocks, from, to)
    requires from <= k < to
    ensures a[at + BLOCK * k..at + BLOCK * k + BLOCK] == blocks[k]
  {
    assert forall q :: 0 <= q < BLOCK ==> a[at + BLOCK * k..at + BLOCK * k + BLOCK][q] == blocks[k][q];
  }

  lemma HeldIsJoin(a: array<byte>, at: nat, blocks: seq<Block>)
    requires at + BLOCK * |blocks| <= a.Length && HoldsBlocks(a, at, blocks, 0, |blocks|)
    ensures a[at..at + BLOCK * |blocks|] == Join(blocks)
  {
    forall i | 0 <= i < BLOCK * |blocks|
      ensures a[at + i] == Join(blocks)[i]
    {
      var k, q := i / BLOCK, i % BLOCK;
      assert a[at + BLOCK * k + q] == blocks[k][q];
    }
  }

  lemma HeldBySplit(a: array<byte>, at: nat, length: nat)
    requires at + length <= a.Length
    ensures HoldsBlocks(a, at, Split(a[at..at + length]), 0, length / BLOCK)
  {
    var data := a[at..at + length];
    forall k, q | 0 <= k < length / BLOCK && 0 <= q < BLOCK
      ensures a[at + BLOCK * k + q] == Split(data)[k][q]
    {
      assert data[BLOCK * k + q] == a[at + BLOCK * k + q];
    }
  }

  lemma NoneHeld(a: array<byte>, at: nat, blocks: seq<Block>)
    requires at <= a.Length
    ensures HoldsBlocks(a, at, blocks, 0, 0)
  {
  }

  /** Stores the next result block; input blocks still to come stay as they were, in place or not. */
  method StoreBlock(input: array<byte>, ip: nat, ghost data: seq<Block>, output: array<byte>, op: nat, ghost result: seq<Block>, j: nat, b: Block)
    requires j < |data| == |result| && b == result[j]
    requires ip + BLOCK * |data| <= input.Length && op + BLOCK * |data| <= output.Length
    requires input == output ==> ip == op
    requires HoldsBlocks(output, op, result, 0, j) && HoldsBlocks(input, ip, data, j, |data|)
    modifies output
    ensures HoldsBlocks(output, op, result, 0, j + 1) && HoldsBlocks(input, ip, data, j + 1, |data|)
    ensures forall i :: 0 <= i < output.Length && !(op <= i < op + BLOCK * |data|) ==> output[i] == old(output[i])
  {
    PutBlock(output, op + BLOCK * j, b);
  }

  function CbcCrypt(c: Cipher, mode: Direction, iv: Block, data: seq<Block>): (r: seq<Block>)
    ensures |r| == |data|
  {
    if mode.Encrypt? then CbcEncrypt(c, iv, data) else CbcDecrypt(c, iv, data)
  }

  /** The ciphertext block after which the chain goes on. */
  ghost function ChainEnd(c: Cipher, mode: Direction, iv: Block, data: seq<Block>): Block {
    if data == [] then iv
    else if mode.Encrypt? then CbcEncrypt(c, iv, data)[|data| - 1]
    else data[|data| - 1]
  }

  method CbcBlocks(c: Cipher, mode: Direction, n: nat, iv: Block,
                   input: array<byte>, ip: nat, output: array<byte>, op: nat, ghost data: seq<Block>) returns (ivp: Block)
    requires |data| == n && ip + BLOCK * n <= input.Length && op + BLOCK * n <= output.Length
    requires input == output ==> ip == op
    requires HoldsBlocks(input, ip, data, 0, n)
    modifies output
    ensures HoldsBlocks(output, op, CbcCrypt(c, mode, iv, data), 0, n)
    ensures ivp == ChainEnd(c, mode, iv, data)
    ensures forall i :: 0 <= i < output.Length && !(op <= i < op + BLOCK * n) ==> output[i] == old(output[i])
  {
    hide HoldsBlocks, CbcEncrypt, Xor;
    ghost var result := CbcCrypt(c, mode, iv, data);
    ivp := iv;
    var j := 0;
    NoneHeld(output, op, result);
    while j < n
      invariant 0 <= j <= n
      invariant HoldsBlocks(output, op, result, 0, j) && HoldsBlocks(input, ip, data, j, n)
      invariant ivp == if j == 0 then iv else if mode.Encrypt? then result[j - 1] else data[j - 1]
      invariant forall i :: 0 <= i < output.Length && !(op <= i < op + BLOCK * n) ==> output[i] == old(output[i])
    {
      HeldBlock(input, ip, data, j, n, j);
      var x: Block := input[ip + BLOCK * j..ip + BLOCK * j + BLOCK];
      if mode.Decrypt? {
        StoreBlock(input, ip, data, output, op, result, j, Xor(c.dec(x), ivp));
        ivp := x;
      } else {
        CbcEncryptAt(c, iv, data, j);
        ivp := c.enc(Xor(x, ivp));
        StoreBlock(input, ip, data, output, op, result, j, ivp);
      }
      j := j + 1;
    }
  }

  function Piece(data: seq<byte>, j: nat): Block
    requires BLOCK * j + BLOCK <= |data|
  {
    data[BLOCK * j..BLOCK * j + BLOCK]
  }

  /** What CBC makes of a byte string: every block is chained to the ciphertext block before it. */
  ghost predicate CbcRight(c: Cipher, mode: Direction, iv: Block, data: seq<byte>, out: seq<byte>) {
    && |out| == |data|
    && forall j :: 0 <= j < |data| / BLOCK ==>
         if mode.Encrypt? then Piece(out, j) == c.enc(Xor(Piece(data, j), if j == 0 then iv else Piece(out, j - 1)))
         else Xor(Piece(out, j), if j == 0 then iv else Piece(data, j - 1)) == c.dec(Piece(data, j))
  }

  lemma ChainAt(c: Cipher, mode: Direction, iv: Block, data: seq<Block>, j: nat)
    requires j < |data|
    ensures var r := CbcCrypt(c, mode, iv, data);
            if mode.Encrypt? then r[j] == c.enc(Xor(data[j], if j == 0 then iv else r[j - 1]))
            else Xor(r[j], if j == 0 then iv else data[j - 1]) == c.dec(data[j])
  {
    hide Xor, CbcEncrypt;
    if mode.Encrypt? {
      CbcEncryptAt(c, iv, data, j);
    } else {
      XorTwice(c.dec(data[j]), if j == 0 then iv else data[j - 1]);
    }
  }

  lemma PiecesOf(data: seq<byte>, j: nat)
    requires |data| % BLOCK == 0 && j < |data| / BLOCK
    ensures Piece(data, j) == Split(data)[j]
  {
  }

  lemma ChainRight(c: Cipher, mode: Direction, iv: Block, data: seq<byte>)
    requires |data| % BLOCK == 0
    ensures CbcRight(c, mode, iv, data, Join(CbcCrypt(c, mode, iv, Split(data))))
  {
    hide Xor, Join, Split, CbcCrypt, Piece;
    var blocks := Split(data);
    var r := CbcCrypt(c, mode, iv, blocks);
    SplitJoin(r);
    forall j | 0 <= j < |data| / BLOCK
      ensures Piece(Join(r), j) == r[j] && Piece(data, j) == blocks[j]
    {
      PiecesOf(data, j);
      PiecesOf(Join(r), j);
    }
    forall j | 0 <= j < |data| / BLOCK
      ensures if mode.Encrypt? then Piece(Join(r), j) == c.enc(Xor(Piece(data, j), if j == 0 then iv else Piece(Join(r), j - 1)))
              else Xor(Piece(Join(r), j), if j == 0 then iv else Piece(data, j - 1)) == c.dec(Piece(data, j))
    {
      ChainAt(c, mode, iv, blocks, j);
    }
  }

  method CryptCbc(c: Cipher, mode: Direction, length: nat, iv: array<byte>,
                  input: array<byte>, ip: nat, output: array<byte>, op: nat) returns (ret: int)
    requires iv.Length == BLOCK && iv != input && iv != output
    requires ip + length <= input.Length && op + length <= output.Length
    requires input == output ==> ip == op
    modifies output, iv
    ensures ret == if length % BLOCK == 0 then 0 else ERR_INVALID_INPUT_LENGTH
    ensures length % BLOCK != 0 ==> output[..] == old(output[..]) && iv[..] == old(iv[..])
    ensures length % BLOCK == 0 ==>
              output[op..op + length] == Join(CbcCrypt(c, mode, old(iv[..]), Split(old(input[ip..ip + length]))))
    ensures length % BLOCK == 0 ==> CbcRight(c, mode, old(iv[..]), old(input[ip..ip + length]), output[op..op + length])
    ensures length % BLOCK == 0 ==> iv[..] == ChainEnd(c, mode, old(iv[..]), Split(old(input[ip..ip + length])))
    ensures forall i :: 0 <= i < output.Length && !(op <= i < op + length) ==> output[i] == old(output[i])
  {
    if length % BLOCK != 0 {
      return ERR_INVALID_INPUT_LENGTH;
    }
    ghost var data := Split(input[ip..ip + length]);
    HeldBySplit(input, ip, length);
    var ivp := CbcBlocks(c, mode, length / BLOCK, iv[..], input, ip, output, op, data);
    HeldIsJoin(output, op, CbcCrypt(c, mode, iv[..], data));
    ChainRight(c, mode, iv[..], old(input[ip..ip + length]));
    PutBlock(iv, 0, ivp);
    assert iv[..] == ivp;
    ret := 0;
  }

  function Iterate(next: Block -> Block, t: Block, j: nat): Block {
    if j == 0 then t else next(Iterate(next, t, j - 1))
  }

  /** The tweaks of a data unit: the first, and each next one from the one before. */
  function TweakChain(next: Block -> Block, t: Block): Tweaks {
    (j: nat) => Iterate(next, t, j)
  }

  method XtsLoop(c: Cipher, mode: Direction, next: Block -> Block, t: Block, n: nat, leftover: nat,
                 input: array<byte>, ip: nat, output: array<byte>, op: nat, ghost data: seq<Block>) returns (tweak: Block, prevTweak: Block)
    requires n > 0 && |data| == n && ip + BLOCK * n <= input.Length && op + BLOCK * n <= output.Length
    requires input == output ==> ip == op
    requires HoldsBlocks(input, ip, data, 0, n)
    modifies output
    ensures HoldsBlocks(output, op, XtsBlocks(c, mode, TweakChain(next, t), data, leftover), 0, n)
    ensures leftover != 0 ==> (if mode.Decrypt? then prevTweak else tweak) == TweakChain(next, t)(StolenIndex(mode, n))
    ensures forall i :: 0 <= i < output.Length && !(op <= i < op + BLOCK * n) ==> output[i] == old(output[i])
  {
    ghost var result := XtsBlocks(c, mode, TweakChain(next, t), data, leftover);
    tweak, prevTweak := t, t;
    var j := 0;
    while j < n
      invariant 0 <= j <= n
      invariant HoldsBlocks(output, op, result, 0, j) && HoldsBlocks(input, ip, data, j, n)
      invariant mode.Encrypt? || leftover == 0 || j < n ==> tweak == Iterate(next, t, j)
      invariant mode.Decrypt? && leftover != 0 && j == n ==> prevTweak == Iterate(next, t, n - 1)
      invariant forall i :: 0 <= i < output.Length && !(op <= i < op + BLOCK * n) ==> output[i] == old(output[i])
    {
      if leftover != 0 && mode.Decrypt? && j == n - 1 {
        prevTweak := tweak;
        tweak := next(tweak);
      }
      HeldBlock(input, ip, data, j, n, j);
      var x: Block := input[ip + BLOCK * j..ip + BLOCK * j + BLOCK];
      XtsBlockAt(c, mode, next, t, data, leftover, j);
      StoreBlock(input, ip, data, output, op, result, j, XtsBlock(c, mode, tweak, x));
      tweak := next(tweak);
      j := j + 1;
    }
  }

  lemma XtsBlockAt(c: Cipher, mode: Direction, next: Block -> Block, t: Block, data: seq<Block>, leftover: nat, j: nat)
    requires j < |data|
    ensures XtsBlocks(c, mode, TweakChain(next, t), data, leftover)[j] ==
            XtsBlock(c, mode, Iterate(next, t, TweakIndex(mode, |data|, leftover, j)), data[j])
  {
  }

  /** The blocks with the last one done again, on the tail and what the head left of it. */
  ghost function Redone(c: Cipher, mode: Direction, t: Block, blocks: seq<Block>, tail: seq<byte>): (r: seq<Block>)
    requires blocks != [] && |tail| < BLOCK
    ensures |r| == |blocks|
  {
    var n := |blocks|;
    var stolen: Block := tail + blocks[n - 1][|tail|..];
    blocks[n - 1 := XtsBlock(c, mode, t, stolen)]
  }

  /** Ciphertext stealing: the last full block gives its head to the tail and is done again. */
  method StealTail(c: Cipher, mode: Direction, t: Block, b: nat, input: array<byte>, ip: nat, output: array<byte>, op: nat,
                   n: nat, ghost blocks: seq<Block>, ghost rest: seq<byte>)
    requires 0 < b < BLOCK && n > 0 && |blocks| == n && |rest| == b
    requires ip + BLOCK * n + b <= input.Length && op + BLOCK * n + b <= output.Length
    requires input == output ==> ip == op
    requires HoldsBlocks(output, op, blocks, 0, n)
    requires input != output ==> input[ip + BLOCK * n..ip + BLOCK * n + b] == rest
    modifies output
    ensures HoldsBlocks(output, op, Redone(c, mode, t, blocks, if input == output then blocks[n - 1][..b] else rest), 0, n)
    ensures output[op + BLOCK * n..op + BLOCK * n + b] == blocks[n - 1][..b]
    ensures forall i :: 0 <= i < output.Length && !(op <= i < op + BLOCK * n + b) ==> output[i] == old(output[i])
  {
    hide XtsBlock, HoldsBlocks;
    var prev, last := op + BLOCK * (n - 1), op + BLOCK * n;
    ghost var tail := if input == output then blocks[n - 1][..b] else rest;
    ghost var stolen: Block := tail + blocks[n - 1][b..];
    CopyHead(output, op, n, b, blocks);
    HeldBlock(output, op, blocks, 0, n, n - 1);
    var head, kept := input[ip + BLOCK * n..ip + BLOCK * n + b], output[prev + b..last];
    assert kept == blocks[n - 1][b..];
    assert head == tail;
    RedoLast(output, op, n, XtsBlock(c, mode, t, head + kept), blocks);
    assert output[last..last + b] == blocks[n - 1][..b];
  }

  method CopyHead(output: array<byte>, op: nat, n: nat, b: nat, ghost blocks: seq<Block>)
    requires 0 < b < BLOCK && n > 0 && |blocks| == n && op + BLOCK * n + b <= output.Length
    requires HoldsBlocks(output, op, blocks, 0, n)
    modifies output
    ensures HoldsBlocks(output, op, blocks, 0, n)
    ensures output[op + BLOCK * n..op + BLOCK * n + b] == blocks[n - 1][..b]
    ensures forall i :: 0 <= i < output.Length && !(op + BLOCK * n <= i < op + BLOCK * n + b) ==> output[i] == old(output[i])
  {
    forall i | 0 <= i < b {
      output[op + BLOCK * n + i] := output[op + BLOCK * (n - 1) + i];
    }
    assert output[op + BLOCK * n..op + BLOCK * n + b] == blocks[n - 1][..b];
  }

  method RedoLast(output: array<byte>, op: nat, n: nat, redone: Block, ghost blocks: seq<Block>)
    requires n > 0 && |blocks| == n && op + BLOCK * n <= output.Length
    requires HoldsBlocks(output, op, blocks, 0, n)
    modifies output
    ensures HoldsBlocks(output, op, blocks[n - 1 := redone], 0, n)
    ensures forall i :: 0 <= i < output.Length && !(op + BLOCK * (n - 1) <= i < op + BLOCK * n) ==> output[i] == old(output[i])
  {
    PutBlock(output, op + BLOCK * (n - 1), redone);
  }

  function AsUnit(data: seq<byte>): (r: Unit)
    requires |data| >= BLOCK
    ensures r.Valid() && |r.blocks| == |data| / BLOCK && |r.tail| == |data| % BLOCK
  {
    Unit(Split(data), data[BLOCK * (|data| / BLOCK)..])
  }

  function UnitBytes(u: Unit): seq<byte> {
    Join(u.blocks) + u.tail
  }

  /** The bytes a call leaves, between two buffers or in place. */
  function XtsOutcome(c: Cipher, mode: Direction, tweaks: Tweaks, data: seq<byte>, inPlace: bool): seq<byte>
    requires |data| >= BLOCK
  {
    if inPlace then UnitBytes(XtsInPlace(c, mode, tweaks, AsUnit(data)))
    else UnitBytes(XtsCrypt(c, mode, tweaks, AsUnit(data)))
  }

  lemma AsUnitOfBytes(u: Unit)
    requires u.Valid()
    ensures |UnitBytes(u)| >= BLOCK && AsUnit(UnitBytes(u)) == u
  {
    var s := UnitBytes(u);
    assert |s| / BLOCK == |u.blocks|;
    forall j | 0 <= j < |u.blocks|
      ensures Split(s)[j] == u.blocks[j]
    {
      SplitJoin(u.blocks);
      assert s[BLOCK * j..BLOCK * j + BLOCK] == Join(u.blocks)[BLOCK * j..BLOCK * j + BLOCK];
      assert Split(Join(u.blocks))[j] == u.blocks[j];
    }
    assert s[BLOCK * |u.blocks|..] == u.tail;
  }

  lemma BytesOfAsUnit(data: seq<byte>)
    requires |data| >= BLOCK
    ensures UnitBytes(AsUnit(data)) == data
  {
    var n := |data| / BLOCK;
    JoinSplit(data[..BLOCK * n]);
    forall j | 0 <= j < n
      ensures Split(data)[j] == Split(data[..BLOCK * n])[j]
    {
      assert data[BLOCK * j..BLOCK * j + BLOCK] == data[..BLOCK * n][BLOCK * j..BLOCK * j + BLOCK];
    }
    assert Split(data) == Split(data[..BLOCK * n]);
  }

  /** The first tweak and, for each block, the one after it. */
  ghost predicate TweaksFrom(ts: seq<Block>, next: Block -> Block, t: Block, n: nat) {
    |ts| == n + 1 && ts[0] == t && forall j :: 0 <= j < n ==> ts[j + 1] == next(ts[j])
  }

  /** The bytes that go behind the last ones kept: the tail or, in place, what has overwritten it. */
  function TailRead(data: seq<byte>, out: seq<byte>, inPlace: bool): seq<byte>
    requires |out| == |data|
  {
    if inPlace then out[BLOCK * (|data| / BLOCK)..] else data[BLOCK * (|data| / BLOCK)..]
  }

  /**
   * What XTS makes of a data unit: every full block stands under its own tweak. With bytes left over the last two pieces
   * take the last two tweaks, in this order when encrypting and in the other one when decrypting.
   */
  ghost predicate XtsRight(c: Cipher, mode: Direction, ts: seq<Block>, data: seq<byte>, out: seq<byte>, inPlace: bool)
    requires |data| >= BLOCK && |ts| == |data| / BLOCK + 1
  {
    var n, b := |data| / BLOCK, |data| % BLOCK;
    && |out| == |data|
    && (forall j :: 0 <= j < n && (b == 0 || j + 1 < n) ==> Enciphers(c, mode, ts[j], Piece(data, j), Piece(out, j)))
    && (b != 0 ==> exists cc: Block :: TailStolen(c, mode, ts, data, out, inPlace, cc))
  }

  ghost predicate TailStolen(c: Cipher, mode: Direction, ts: seq<Block>, data: seq<byte>, out: seq<byte>, inPlace: bool, cc: Block)
    requires BLOCK <= |data| == |out| && |ts| == |data| / BLOCK + 1
  {
    var n := |data| / BLOCK;
    Stolen(c, mode, ts[if mode.Encrypt? then n - 1 else n], ts[if mode.Encrypt? then n else n - 1], Piece(data, n - 1),
           TailRead(data, out, inPlace), Piece(out, n - 1), out[BLOCK * n..], cc)
  }

  ghost predicate XtsLaw(c: Cipher, mode: Direction, next: Block -> Block, t: Block, data: seq<byte>, out: seq<byte>, inPlace: bool)
    requires |data| >= BLOCK
  {
    exists ts: seq<Block> :: TweaksFrom(ts, next, t, |data| / BLOCK) && XtsRight(c, mode, ts, data, out, inPlace)
  }

  lemma PieceIs(u: Unit, j: nat)
    requires u.Valid() && j < |u.blocks|
    ensures BLOCK * j + BLOCK <= |UnitBytes(u)| && Piece(UnitBytes(u), j) == u.blocks[j]
    ensures UnitBytes(u)[BLOCK * |u.blocks|..] == u.tail && |UnitBytes(u)| == BLOCK * |u.blocks| + |u.tail|
  {
    AsUnitOfBytes(u);
    assert Split(UnitBytes(u))[j] == u.blocks[j];
    hide Join;
  }

  lemma PiecesMatch(data: seq<byte>, e: Unit, j: nat)
    requires |data| >= BLOCK && e.Valid() && |e.blocks| == |data| / BLOCK && |e.tail| == |data| % BLOCK && j < |e.blocks|
    ensures |UnitBytes(e)| == |data| && Piece(data, j) == AsUnit(data).blocks[j] && Piece(UnitBytes(e), j) == e.blocks[j]
    ensures UnitBytes(e)[BLOCK * |e.blocks|..] == e.tail
  {
    BytesOfAsUnit(data);
    PieceIs(AsUnit(data), j);
    PieceIs(e, j);
    hide UnitBytes, AsUnit, Split;
  }

  /** The unit that a call works on: in place its tail has been overwritten. */
  function UnitRead(c: Cipher, mode: Direction, tweaks: Tweaks, data: seq<byte>, inPlace: bool): (r: Unit)
    requires |data| >= BLOCK
    ensures r.Valid() && r.blocks == AsUnit(data).blocks && |r.tail| == |data| % BLOCK
  {
    var u := AsUnit(data);
    if inPlace then Unit(u.blocks, Handed(c, mode, tweaks, u.blocks, |u.tail|)) else u
  }

  lemma OutcomeIsOf(c: Cipher, mode: Direction, tweaks: Tweaks, data: seq<byte>, inPlace: bool)
    requires |data| >= BLOCK
    ensures XtsOutcome(c, mode, tweaks, data, inPlace) == UnitBytes(XtsCrypt(c, mode, tweaks, UnitRead(c, mode, tweaks, data, inPlace)))
  {
  }

  lemma TailReadIs(c: Cipher, mode: Direction, tweaks: Tweaks, data: seq<byte>, inPlace: bool)
    requires |data| >= BLOCK && |data| % BLOCK != 0
    ensures var u := UnitRead(c, mode, tweaks, data, inPlace);
            var e := XtsCrypt(c, mode, tweaks, u);
            |UnitBytes(e)| == |data| && TailRead(data, UnitBytes(e), inPlace) == u.tail
  {
    var u := UnitRead(c, mode, tweaks, data, inPlace);
    PiecesMatch(data, XtsCrypt(c, mode, tweaks, u), 0);
    hide UnitBytes, Split, XtsBlock;
  }

  lemma OutcomeRight(c: Cipher, mode: Direction, next: Block -> Block, t: Block, data: seq<byte>, inPlace: bool)
    requires |data| >= BLOCK
    ensures XtsLaw(c, mode, next, t, data, XtsOutcome(c, mode, TweakChain(next, t), data, inPlace), inPlace)
  {
    hide Enciphers, UnitBytes, XtsCrypt, UnitRead, XtsOutcome, AsUnit, TailRead, Piece, XtsBlocks, Stolen;
    var n, b := |data| / BLOCK, |data| % BLOCK;
    var tweaks := TweakChain(next, t);
    var ts := seq<Block>(n + 1, j requires 0 <= j < n + 1 => Iterate(next, t, j));
    TweaksRun(next, t, n);
    hide Iterate, TweaksFrom;
    var u := UnitRead(c, mode, tweaks, data, inPlace);
    var e := XtsCrypt(c, mode, tweaks, u);
    UnitRight(c, mode, tweaks, u);
    OutcomeIsOf(c, mode, tweaks, data, inPlace);
    PiecesMatch(data, e, n - 1);
    forall j | 0 <= j < n
      ensures Piece(data, j) == u.blocks[j] && Piece(UnitBytes(e), j) == e.blocks[j]
    {
      PiecesMatch(data, e, j);
    }
    if b != 0 {
      TailReadIs(c, mode, tweaks, data, inPlace);
      assert TailStolen(c, mode, ts, data, UnitBytes(e), inPlace, XtsBlocks(c, mode, tweaks, u.blocks, b)[n - 1]);
    }
    assert XtsRight(c, mode, ts, data, UnitBytes(e), inPlace);
  }

  lemma TweaksRun(next: Block -> Block, t: Block, n: nat)
    ensures TweaksFrom(seq<Block>(n + 1, j requires 0 <= j < n + 1 => Iterate(next, t, j)), next, t, n)
  {
  }

  lemma TwoParts(a: array<byte>, from: nat, x: nat, to: nat)
    requires from <= x <= to <= a.Length
    ensures a[from..to] == a[from..x] + a[x..to]
  {
  }

  /** The full blocks of a call, the last one redone when bytes are left over. */
  ghost function FinalBlocks(c: Cipher, mode: Direction, tweaks: Tweaks, data: seq<byte>, inPlace: bool): (r: seq<Block>)
    requires |data| >= BLOCK
    ensures |r| == |data| / BLOCK
  {
    var n, b := |data| / BLOCK, |data| % BLOCK;
    var blocks := XtsBlocks(c, mode, tweaks, Split(data), b);
    if b == 0 then blocks
    else
      Redone(c, mode, tweaks(StolenIndex(mode, n)), blocks, if inPlace then blocks[n - 1][..b] else data[BLOCK * n..])
  }

  lemma LoopOutcome(c: Cipher, mode: Direction, tweaks: Tweaks, data: seq<byte>, inPlace: bool)
    requires |data| >= BLOCK
    ensures XtsOutcome(c, mode, tweaks, data, inPlace) ==
            Join(FinalBlocks(c, mode, tweaks, data, inPlace))
            + XtsBlocks(c, mode, tweaks, Split(data), |data| % BLOCK)[|data| / BLOCK - 1][..|data| % BLOCK]
  {
  }

  method XtsFull(c: Cipher, mode: Direction, next: Block -> Block, t: Block, n: nat, b: nat,
                 input: array<byte>, ip: nat, output: array<byte>, op: nat, ghost data: seq<byte>) returns (stolenTweak: Block)
    requires n > 0 && b < BLOCK && |data| == BLOCK * n + b
    requires ip + BLOCK * n + b <= input.Length && op + BLOCK * n + b <= output.Length
    requires input == output ==> ip == op
    requires data == input[ip..ip + BLOCK * n + b]
    modifies output
    ensures HoldsBlocks(output, op, XtsBlocks(c, mode, TweakChain(next, t), Split(data), b), 0, n)
    ensures b != 0 ==> stolenTweak == TweakChain(next, t)(StolenIndex(mode, n))
    ensures input[ip + BLOCK * n..ip + BLOCK * n + b] == data[BLOCK * n..]
    ensures forall i :: 0 <= i < output.Length && !(op <= i < op + BLOCK * n) ==> output[i] == old(output[i])
  {
    HeldBySplit(input, ip, BLOCK * n + b);
    var tweak, prevTweak := XtsLoop(c, mode, next, t, n, b, input, ip, output, op, Split(data));
    stolenTweak := if mode.Decrypt? then prevTweak else tweak;
  }

  /** The full blocks and, when bytes are left over, the stealing. */
  method XtsBuffers(c: Cipher, mode: Direction, next: Block -> Block, t: Block, n: nat, b: nat,
                    input: array<byte>, ip: nat, output: array<byte>, op: nat, ghost data: seq<byte>)
    requires n > 0 && b < BLOCK && |data| == BLOCK * n + b
    requires ip + BLOCK * n + b <= input.Length && op + BLOCK * n + b <= output.Length
    requires input == output ==> ip == op
    requires data == input[ip..ip + BLOCK * n + b]
    modifies output
    ensures HoldsBlocks(output, op, FinalBlocks(c, mode, TweakChain(next, t), data, input == output), 0, n)
    ensures output[op + BLOCK * n..op + BLOCK * n + b] == XtsBlocks(c, mode, TweakChain(next, t), Split(data), b)[n - 1][..b]
    ensures forall i :: 0 <= i < output.Length && !(op <= i < op + BLOCK * n + b) ==> output[i] == old(output[i])
  {
    hide XtsBlocks, Split, HoldsBlocks, TweakChain, Redone, XtsBlock;
    var stolenTweak := XtsFull(c, mode, next, t, n, b, input, ip, output, op, data);
    if b != 0 {
      StealTail(c, mode, stolenTweak, b, input, ip, output, op, n,
                XtsBlocks(c, mode, TweakChain(next, t), Split(data), b), data[BLOCK * n..]);
    }
  }

  lemma HeldIsOutcome(c: Cipher, mode: Direction, tweaks: Tweaks, data: seq<byte>, n: nat, b: nat, inPlace: bool, a: array<byte>, at: nat)
    requires n > 0 && b < BLOCK && |data| == BLOCK * n + b && at + |data| <= a.Length
    requires HoldsBlocks(a, at, FinalBlocks(c, mode, tweaks, data, inPlace), 0, n)
    requires a[at + BLOCK * n..at + BLOCK * n + b] == XtsBlocks(c, mode, tweaks, Split(data), b)[n - 1][..b]
    ensures a[at..at + BLOCK * n + b] == XtsOutcome(c, mode, tweaks, data, inPlace)
  {
    hide XtsOutcome, XtsBlocks, FinalBlocks, Split, Join, HoldsBlocks;
    HeldIsJoin(a, at, FinalBlocks(c, mode, tweaks, data, inPlace));
    TwoParts(a, at, at + BLOCK * n, at + BLOCK * n + b);
    LoopOutcome(c, mode, tweaks, data, inPlace);
  }

  method CryptXts(c: Cipher, tweakCipher: Cipher, next: Block -> Block, mode: Direction, length: nat, dataUnit: Block,
                  input: array<byte>, ip: nat, output: array<byte>, op: nat) returns (ret: int)
    requires ip + length <= input.Length && op + length <= output.Length
    requires input == output ==> ip == op
    modifies output
    ensures ret == if BLOCK <= length <= MAX_DATA_UNIT then 0 else ERR_INVALID_INPUT_LENGTH
    ensures ret != 0 ==> output[..] == old(output[..])
    ensures ret == 0 ==>
              XtsLaw(c, mode, next, tweakCipher.enc(dataUnit), old(input[ip..ip + length]), output[op..op + length], input == output)
    ensures ret == 0 ==>
              output[op..op + length] == XtsOutcome(c, mode, TweakChain(next, tweakCipher.enc(dataUnit)), old(input[ip..ip + length]), input == output)
    ensures forall i :: 0 <= i < output.Length && !(op <= i < op + length) ==> output[i] == old(output[i])
  {
    hide XtsLaw, XtsOutcome, TweakChain;
    if length < BLOCK || length > MAX_DATA_UNIT {
      return ERR_INVALID_INPUT_LENGTH;
    }
    ghost var data := input[ip..ip + length];
    CryptUnit(c, next, mode, length, tweakCipher.enc(dataUnit), input, ip, output, op);
    OutcomeRight(c, mode, next, tweakCipher.enc(dataUnit), data, input == output);
    ret := 0;
  }

  /** The call behind its check of the length. */
  method CryptUnit(c: Cipher, next: Block -> Block, mode: Direction, length: nat, t: Block, input: array<byte>, ip: nat, output: array<byte>, op: nat)
    requires BLOCK <= length && ip + length <= input.Length && op + length <= output.Length
    requires input == output ==> ip == op
    modifies output
    ensures output[op..op + length] == XtsOutcome(c, mode, TweakChain(next, t), old(input[ip..ip + length]), input == output)
    ensures forall i :: 0 <= i < output.Length && !(op <= i < op + length) ==> output[i] == old(output[i])
  {
    hide XtsOutcome, HoldsBlocks, FinalBlocks, XtsBlocks, Split, TweakChain;
    ghost var data := input[ip..ip + length];
    var n, b := length / BLOCK, length % BLOCK;
    XtsBuffers(c, mode, next, t, n, b, input, ip, output, op, data);
    HeldIsOutcome(c, mode, TweakChain(next, t), data, n, b, input == output, output, op);
  }
}
