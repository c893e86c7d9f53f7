/**
 * What padding a forward-moving stream of bytes to whole blocks should leave on a byte array:
 * every touched block holds its given bytes and zeros elsewhere, sealed under its own number,
 * and nothing else has changed. It depends on the bytes given and not on how they were cut.
 */
module PadModel {
  import opened Bytes
  import opened DiskCrypto

  datatype Cell = Unset | Set(value: byte)

  /** The bytes given so far, by destination offset. */
  type Given = nat -> Cell

  /** What is stored for a block, given its number and its padded contents. */
  type Seal = (nat, SectorBytes) -> SectorBytes

  function Nothing(): Given {
    (i: nat) => Unset
  }

  function Give(given: Given, offset: nat, buf: seq<byte>): Given {
    (i: nat) => if offset <= i < offset + |buf| then Set(buf[i - offset]) else given(i)
  }

  /** Some byte of block n was given. */
  ghost predicate Touched(given: Given, n: nat) {
    exists i: nat :: given(i).Set? && i / BLOCK_SIZE == n
  }

  function CellByte(c: Cell): byte {
    if c.Set? then c.value else 0
  }

  /** Block n with zeros where no byte was given. */
  function PaddedBlock(given: Given, n: nat): (r: SectorBytes)
    ensures forall q :: 0 <= q < BLOCK_SIZE ==> r[q] == CellByte(given(BLOCK_SIZE * n + q))
  {
    seq(BLOCK_SIZE, q requires 0 <= q < BLOCK_SIZE => CellByte(given(BLOCK_SIZE * n + q)))
  }

  ghost function Expect(base: Flat, given: Given, seal: Seal, i: nat): byte {
    if Touched(given, i / BLOCK_SIZE) then seal(i / BLOCK_SIZE, PaddedBlock(given, i / BLOCK_SIZE))[i % BLOCK_SIZE] else base(i)
  }

  /** `now` is what it should be, except that block `pending`, if any, has not been written yet. */
  ghost predicate Synced(base: Flat, given: Given, seal: Seal, now: Flat, pending: int) {
    forall i: nat :: now(i) == if i / BLOCK_SIZE == pending then base(i) else Expect(base, given, seal, i)
  }

  ghost predicate AllBelow(given: Given, frontier: nat) {
    forall i: nat :: given(i).Set? ==> i < frontier
  }

  function Overlay(flat: Flat, offset: nat, buf: seq<byte>): Flat {
    (i: nat) => if offset <= i < offset + |buf| then buf[i - offset] else flat(i)
  }

  lemma GiveElsewhere(given: Given, offset: nat, buf: seq<byte>, n: nat)
    requires forall i :: offset <= i < offset + |buf| ==> i / BLOCK_SIZE != n
    ensures Touched(Give(given, offset, buf), n) <==> Touched(given, n)
    ensures PaddedBlock(Give(given, offset, buf), n) == PaddedBlock(given, n)
  {
    var r := Give(given, offset, buf);
    if Touched(r, n) {
      var i: nat :| r(i).Set? && i / BLOCK_SIZE == n;
      assert given(i).Set?;
    }
    if Touched(given, n) {
      var i: nat :| given(i).Set? && i / BLOCK_SIZE == n;
      assert r(i).Set?;
    }
    forall q | 0 <= q < BLOCK_SIZE
      ensures PaddedBlock(r, n)[q] == PaddedBlock(given, n)[q]
    {
      assert (BLOCK_SIZE * n + q) / BLOCK_SIZE == n;
    }
  }

  /** Bytes added to the block that is being collected. */
  lemma GiveInBlock(base: Flat, given: Given, seal: Seal, now: Flat, n: nat, offset: nat, buf: seq<byte>, pending: int)
    requires Synced(base, given, seal, now, pending) && (pending == n || (!Touched(given, n) && pending == -1))
    requires BLOCK_SIZE * n <= offset && offset + |buf| <= BLOCK_SIZE * n + BLOCK_SIZE
    ensures Synced(base, Give(given, offset, buf), seal, now, n)
  {
    forall i: nat
      ensures now(i) == if i / BLOCK_SIZE == n then base(i) else Expect(base, Give(given, offset, buf), seal, i)
    {
      if i / BLOCK_SIZE != n {
        assert forall j :: offset <= j < offset + |buf| ==> j / BLOCK_SIZE == n;
        GiveElsewhere(given, offset, buf, i / BLOCK_SIZE);
      }
    }
  }

  /** The collected block written out. */
  lemma EmitBlock(base: Flat, given: Given, seal: Seal, now: Flat, n: nat)
    requires Synced(base, given, seal, now, n) && Touched(given, n)
    ensures Synced(base, given, seal, Overlay(now, BLOCK_SIZE * n, seal(n, PaddedBlock(given, n))), -1)
  {
  }

  /** Whole blocks given and written at once. */
  lemma EmitWhole(base: Flat, given: Given, seal: Seal, now: Flat, n: nat, buf: seq<byte>, out: seq<byte>)
    requires Synced(base, given, seal, now, -1) && |buf| == |out| && |buf| % BLOCK_SIZE == 0
    requires forall k :: 0 <= k < |buf| / BLOCK_SIZE ==> Sector(out, k) == seal(n + k, Sector(buf, k))
    ensures Synced(base, Give(given, BLOCK_SIZE * n, buf), seal, Overlay(now, BLOCK_SIZE * n, out), -1)
  {
    var r := Give(given, BLOCK_SIZE * n, buf);
    forall i: nat
      ensures Overlay(now, BLOCK_SIZE * n, out)(i) == Expect(base, r, seal, i)
    {
      if BLOCK_SIZE * n <= i < BLOCK_SIZE * n + |buf| {
        WholeByte(given, seal, n, buf, out, i);
      } else {
        assert forall j :: BLOCK_SIZE * n <= j < BLOCK_SIZE * n + |buf| ==> j / BLOCK_SIZE != i / BLOCK_SIZE;
        GiveElsewhere(given, BLOCK_SIZE * n, buf, i / BLOCK_SIZE);
      }
    }
  }

  lemma WholeByte(given: Given, seal: Seal, n: nat, buf: seq<byte>, out: seq<byte>, i: nat)
    requires |buf| == |out| && |buf| % BLOCK_SIZE == 0 && BLOCK_SIZE * n <= i < BLOCK_SIZE * n + |buf|
    requires forall k :: 0 <= k < |buf| / BLOCK_SIZE ==> Sector(out, k) == seal(n + k, Sector(buf, k))
    ensures var r := Give(given, BLOCK_SIZE * n, buf);
            Touched(r, i / BLOCK_SIZE) && out[i - BLOCK_SIZE * n] == seal(i / BLOCK_SIZE, PaddedBlock(r, i / BLOCK_SIZE))[i % BLOCK_SIZE]
  {
    var r := Give(given, BLOCK_SIZE * n, buf);
    var m := i / BLOCK_SIZE;
    var k := m - n;
    assert r(i).Set?;
    assert PaddedBlock(r, m) == Sector(buf, k);
    assert Sector(out, k)[i % BLOCK_SIZE] == out[i - BLOCK_SIZE * n];
  }

  lemma Untouched(given: Given, n: nat, written: nat)
    requires AllBelow(given, written) && written <= BLOCK_SIZE * n
    ensures !Touched(given, n)
    ensures forall q :: 0 <= q < BLOCK_SIZE ==> PaddedBlock(given, n)[q] == 0
  {
  }

  lemma GrownTouched(given: Given, n: nat, at: nat, piece: seq<byte>)
    requires BLOCK_SIZE * n <= at && at + |piece| <= BLOCK_SIZE * n + BLOCK_SIZE && piece != []
    ensures forall m: nat :: Touched(Give(given, at, piece), m) <==> m == n || Touched(given, m)
  {
    var r := Give(given, at, piece);
    assert r(at).Set? && at / BLOCK_SIZE == n;
    forall m: nat | m != n
      ensures Touched(r, m) <==> Touched(given, m)
    {
      GiveElsewhere(given, at, piece, m);
    }
  }

  /** The blocks written so far: each once, in order, all of them touched and before `written`. */
  ghost predicate EmittedOk(given: Given, emitted: seq<nat>, pending: int, written: nat) {
    && (forall a, b :: 0 <= a < b < |emitted| ==> emitted[a] < emitted[b])
    && (forall n: nat :: n in emitted <==> Touched(given, n) && n != pending)
    && (forall a :: 0 <= a < |emitted| ==> BLOCK_SIZE * emitted[a] + BLOCK_SIZE <= written)
  }

  lemma AppendKeepsEmitted(given: Given, emitted: seq<nat>, pending: int, written: nat, n: nat, at: nat, piece: seq<byte>)
    requires EmittedOk(given, emitted, pending, written) && (pending == n || (pending == -1 && !Touched(given, n)))
    requires BLOCK_SIZE * n <= at && at + |piece| <= BLOCK_SIZE * n + BLOCK_SIZE && piece != []
    ensures EmittedOk(Give(given, at, piece), emitted, n, written)
    ensures Touched(Give(given, at, piece), n)
  {
    GrownTouched(given, n, at, piece);
  }

  lemma EmitKeepsEmitted(given: Given, emitted: seq<nat>, n: nat, written: nat)
    requires EmittedOk(given, emitted, n, written) && Touched(given, n) && written <= BLOCK_SIZE * n
    ensures EmittedOk(given, emitted + [n], -1, BLOCK_SIZE * n + BLOCK_SIZE)
  {
  }

  lemma WholeKeepsEmitted(given: Given, emitted: seq<nat>, written: nat, n: nat, buf: seq<byte>)
    requires EmittedOk(given, emitted, -1, written) && written <= BLOCK_SIZE * n && |buf| % BLOCK_SIZE == 0
    ensures EmittedOk(Give(given, BLOCK_SIZE * n, buf), emitted + Numbers(n, |buf| / BLOCK_SIZE), -1, BLOCK_SIZE * n + |buf|)
  {
    var r := Give(given, BLOCK_SIZE * n, buf);
    forall m: nat
      ensures Touched(r, m) <==> n <= m < n + |buf| / BLOCK_SIZE || Touched(given, m)
    {
      if n <= m < n + |buf| / BLOCK_SIZE {
        assert r(BLOCK_SIZE * m).Set? && BLOCK_SIZE * m / BLOCK_SIZE == m;
      } else {
        GiveElsewhere(given, BLOCK_SIZE * n, buf, m);
      }
    }
  }

  /**
   * The output before the first write, the bytes given since, the output now, the end of the
   * last whole block written, and the blocks written in order.
   */
  datatype Progress = Progress(base: Flat, given: Given, now: Flat, written: nat, emitted: seq<nat>)

  /** The block being collected, if any. */
  function PendingBlock(index: nat, offset: nat): int {
    if index == 0 then -1 else offset / BLOCK_SIZE
  }

  /** Where the next write may start at the earliest. */
  function Frontier(p: Progress, index: nat, offset: nat): nat {
    if index == 0 then p.written else offset + index
  }

  /** The first `index` bytes of the buffer are those of block n. */
  ghost predicate Holds(given: Given, buffer: seq<byte>, index: nat, n: nat) {
    |buffer| == BLOCK_SIZE && index <= BLOCK_SIZE && forall q :: 0 <= q < index ==> buffer[q] == PaddedBlock(given, n)[q]
  }

  /** The invariant of the writer, seen from its buffer, its index and its offset. */
  ghost predicate PadOk(p: Progress, seal: Seal, buffer: seq<byte>, index: nat, offset: nat) {
    && Holds(p.given, buffer, index, offset / BLOCK_SIZE)
    && (index > 0 ==> offset % BLOCK_SIZE == 0 && offset >= p.written)
    && p.written % BLOCK_SIZE == 0 && AllBelow(p.given, Frontier(p, index, offset))
    && EmittedOk(p.given, p.emitted, PendingBlock(index, offset), p.written)
    && Synced(p.base, p.given, seal, p.now, PendingBlock(index, offset))
  }

  lemma AppendHolds(given: Given, buffer: seq<byte>, index: nat, n: nat, piece: seq<byte>)
    requires Holds(given, buffer, index, n) && index + |piece| <= BLOCK_SIZE
    ensures Holds(Give(given, BLOCK_SIZE * n + index, piece), Splice(buffer, index, piece), index + |piece|, n)
  {
    var at := BLOCK_SIZE * n + index;
    var buffer' := Splice(buffer, index, piece);
    forall q | 0 <= q < index + |piece|
      ensures buffer'[q] == PaddedBlock(Give(given, at, piece), n)[q]
    {
      GrownByte(given, n, at, piece, q);
    }
  }

  lemma GrownByte(given: Given, n: nat, at: nat, piece: seq<byte>, q: nat)
    requires q < BLOCK_SIZE
    ensures PaddedBlock(Give(given, at, piece), n)[q] ==
            if at <= BLOCK_SIZE * n + q < at + |piece| then piece[BLOCK_SIZE * n + q - at] else PaddedBlock(given, n)[q]
  {
  }

  /** Bytes copied to the end of the block being collected, or to the start of a new one. */
  lemma AppendOk(p: Progress, seal: Seal, buffer: seq<byte>, index: nat, offset: nat, piece: seq<byte>)
    requires PadOk(p, seal, buffer, index, offset) && offset % BLOCK_SIZE == 0 && offset >= p.written
    requires piece != [] && index + |piece| <= BLOCK_SIZE
    ensures var given' := Give(p.given, offset + index, piece);
            PadOk(p.(given := given'), seal, Splice(buffer, index, piece), index + |piece|, offset) && Touched(given', offset / BLOCK_SIZE)
  {
    var n := offset / BLOCK_SIZE;
    NewlyPending(p, seal, buffer, index, offset);
    assert offset + index == BLOCK_SIZE * n + index;
    AppendHolds(p.given, buffer, index, n, piece);
    GiveInBlock(p.base, p.given, seal, p.now, n, offset + index, piece, PendingBlock(index, offset));
    AppendKeepsEmitted(p.given, p.emitted, PendingBlock(index, offset), p.written, n, offset + index, piece);
    GiveBelow(p.given, offset + index, piece);
  }

  /** The block to append to is the one being collected, or one of which nothing was given yet. */
  lemma NewlyPending(p: Progress, seal: Seal, buffer: seq<byte>, index: nat, offset: nat)
    requires PadOk(p, seal, buffer, index, offset) && offset % BLOCK_SIZE == 0 && offset >= p.written
    ensures PendingBlock(index, offset) == offset / BLOCK_SIZE || (PendingBlock(index, offset) == -1 && !Touched(p.given, offset / BLOCK_SIZE))
    ensures AllBelow(p.given, offset + index)
  {
    if index == 0 {
      Untouched(p.given, offset / BLOCK_SIZE, p.written);
    }
  }

  lemma GiveBelow(given: Given, at: nat, piece: seq<byte>)
    requires AllBelow(given, at)
    ensures AllBelow(Give(given, at, piece), at + |piece|)
  {
  }

  lemma IdleOffset(p: Progress, seal: Seal, buffer: seq<byte>, offset: nat, offset': nat)
    requires PadOk(p, seal, buffer, 0, offset)
    ensures PadOk(p, seal, buffer, 0, offset')
  {
  }

  lemma FullBuffer(p: Progress, seal: Seal, buffer: seq<byte>, offset: nat)
    requires PadOk(p, seal, buffer, BLOCK_SIZE, offset)
    ensures buffer == PaddedBlock(p.given, offset / BLOCK_SIZE)
  {
  }

  /** The collected block after it was written out. */
  function Emitted(p: Progress, seal: Seal, offset: nat): Progress {
    var n := offset / BLOCK_SIZE;
    p.(now := Overlay(p.now, offset, seal(n, PaddedBlock(p.given, n))), written := offset + BLOCK_SIZE, emitted := p.emitted + [n])
  }

  lemma EmitOk(p: Progress, seal: Seal, buffer: seq<byte>, index: nat, offset: nat, buffer': seq<byte>)
    requires PadOk(p, seal, buffer, index, offset) && index > 0 && Touched(p.given, offset / BLOCK_SIZE) && |buffer'| == BLOCK_SIZE
    ensures PadOk(Emitted(p, seal, offset), seal, buffer', 0, offset)
  {
    EmitBlock(p.base, p.given, seal, p.now, offset / BLOCK_SIZE);
    EmitKeepsEmitted(p.given, p.emitted, offset / BLOCK_SIZE, p.written);
  }

  /** Zeros up to `to` in the block being collected. */
  lemma FillOk(p: Progress, seal: Seal, buffer: seq<byte>, index: nat, offset: nat, to: nat, buffer': seq<byte>)
    requires PadOk(p, seal, buffer, index, offset) && 0 < index <= to <= BLOCK_SIZE && |buffer'| == BLOCK_SIZE
    requires forall q :: 0 <= q < BLOCK_SIZE ==> buffer'[q] == if index <= q < to then 0 else buffer[q]
    ensures PadOk(p, seal, buffer', to, offset)
  {
    forall q | index <= q < to
      ensures PaddedBlock(p.given, offset / BLOCK_SIZE)[q] == 0
    {
      assert p.given(BLOCK_SIZE * (offset / BLOCK_SIZE) + q).Unset?;
    }
  }

  /** A new block that starts with zeros up to the first byte to be given. */
  lemma FrontOk(p: Progress, seal: Seal, buffer: seq<byte>, offset: nat, at: nat, buffer': seq<byte>)
    requires PadOk(p, seal, buffer, 0, offset) && at % BLOCK_SIZE != 0 && at >= p.written && |buffer'| == BLOCK_SIZE
    requires forall q :: 0 <= q < at % BLOCK_SIZE ==> buffer'[q] == 0
    ensures PadOk(p, seal, buffer', at % BLOCK_SIZE, at - at % BLOCK_SIZE)
  {
    Untouched(p.given, at / BLOCK_SIZE, p.written);
    GiveInBlock(p.base, p.given, seal, p.now, at / BLOCK_SIZE, at, [], -1);
  }

  /** Whole blocks handed on without being collected. */
  function Whole(p: Progress, offset: nat, buf: seq<byte>, out: seq<byte>): Progress {
    Progress(p.base, Give(p.given, offset, buf), Overlay(p.now, offset, out), offset + |buf|,
             p.emitted + Numbers(offset / BLOCK_SIZE, |buf| / BLOCK_SIZE))
  }

  lemma WholeOk(p: Progress, seal: Seal, buffer: seq<byte>, last: nat, offset: nat, buf: seq<byte>, out: seq<byte>)
    requires PadOk(p, seal, buffer, 0, last) && offset % BLOCK_SIZE == 0 && offset >= p.written
    requires |buf| == |out| && |buf| % BLOCK_SIZE == 0
    requires forall k :: 0 <= k < |buf| / BLOCK_SIZE ==> Sector(out, k) == seal(offset / BLOCK_SIZE + k, Sector(buf, k))
    ensures PadOk(Whole(p, offset, buf, out), seal, buffer, 0, last)
  {
    hide Synced, EmittedOk, Touched, PaddedBlock, Sector;
    EmitWhole(p.base, p.given, seal, p.now, offset / BLOCK_SIZE, buf, out);
    WholeKeepsEmitted(p.given, p.emitted, p.written, offset / BLOCK_SIZE, buf);
  }

  function Numbers(n: nat, count: nat): (r: seq<nat>)
    ensures |r| == count && forall k :: 0 <= k < count ==> r[k] == n + k
    ensures forall m: nat :: m in r <==> n <= m < n + count
  {
    if count == 0 then [] else Numbers(n, count - 1) + [n + count - 1]
  }
}
