/**
 * Writing one resource to its destination, end to end: the archive's chunks are spread by the sparse
 * map, padded to blocks, optionally encrypted, and go through the cache; a last hole is closed with zeros.
 */
module RawWriting {
  import opened Bytes
  import opened CacheModel
  import opened BlockCaching
  import opened AesModes
  import opened DiskCrypto
  import opened PadModel
  import opened PadWriter
  import opened PadRuns
  import opened SparseMaps
  import opened SparseApply
  import SparseRead

  /** The byte of the file at offset f, given its packed data: holes and what lies past the end are zero. */
  ghost function FileByte(sm: SparseMap, packed: seq<byte>, f: int): byte {
    if f >= 0 && InData(sm, f) && Rank(sm, f) < |packed| then packed[Rank(sm, f)] else 0
  }

  /** The bytes given to the padding writer once `taken` packed bytes were handed on. */
  ghost function CellAt(sm: SparseMap, packed: seq<byte>, dest: nat, taken: nat, i: nat): Cell {
    if i >= dest && InData(sm, i - dest) && Rank(sm, i - dest) < taken then Set(FileByte(sm, packed, i - dest)) else Unset
  }

  ghost predicate GivenData(given: Given, sm: SparseMap, packed: seq<byte>, dest: nat, taken: nat) {
    forall i: nat :: given(i) == CellAt(sm, packed, dest, taken, i)
  }

  lemma {:induction false} GiveMore(p: Progress, p': Progress, sm: SparseMap, packed: seq<byte>, dest: nat, taken: nat, offset: nat, buffer: seq<byte>)
    requires GivenData(p.given, sm, packed, dest, taken) && Advanced(p, p', dest + offset, buffer)
    requires taken + |buffer| <= |packed| && buffer == packed[taken..taken + |buffer|] && Placed(sm, buffer, offset, taken)
    ensures GivenData(p'.given, sm, packed, dest, taken + |buffer|) && p'.base == p.base
  {
    hide Rank, InData;
    forall i: nat
      ensures p'.given(i) == CellAt(sm, packed, dest, taken + |buffer|, i)
    {
      assert p'.given(i) == Give(p.given, dest + offset, buffer)(i);
      if i >= dest {
        Delivered(sm, buffer, offset, taken, i - dest);
      }
    }
  }

  /** The data bytes whose rank falls inside a piece are those of the piece. */
  lemma {:induction false} Delivered(sm: SparseMap, buffer: seq<byte>, offset: nat, taken: nat, f: nat)
    requires Placed(sm, buffer, offset, taken)
    ensures offset <= f < offset + |buffer| <==> InData(sm, f) && taken <= Rank(sm, f) < taken + |buffer|
    ensures offset <= f < offset + |buffer| ==> Rank(sm, f) == taken + f - offset
  {
    hide Rank, InData;
    if InData(sm, f) && taken <= Rank(sm, f) < taken + |buffer| {
      SameRank(sm, f, offset + Rank(sm, f) - taken);
    }
  }

  /** Where the data handed on so far ends in the file. */
  ghost predicate DataEnd(sm: SparseMap, taken: nat, end: nat) {
    if taken == 0 then end == 0 else end > 0 && InData(sm, end - 1) && Rank(sm, end - 1) == taken - 1
  }

  lemma {:induction false} NextEnd(sm: SparseMap, taken: nat, end: nat, buffer: seq<byte>, offset: nat)
    requires DataEnd(sm, taken, end) && Placed(sm, buffer, offset, taken) && buffer != []
    ensures end <= offset && DataEnd(sm, taken + |buffer|, offset + |buffer|)
    ensures InData(sm, offset + |buffer| - 1)
  {
    hide Rank, InData;
    if taken > 0 {
      LaterInFile(sm, end - 1, offset);
    }
  }

  /** Room for the whole file at its destination. */
  ghost predicate RoomFor(output: BlockCache, dc: Crypto, dest: nat, size: nat)
    reads output`trimmedEndOffset, output`endOffset, output`isSoftEndOffset
  {
    && dest % BLOCK_SIZE == 0 && RoundUp(dest + size) <= output.trimmedEndOffset && Inside(output.MediaLimit(), RoundUp(dest + size))
    && (dc.Sealed? ==> dc.session.baseOffset == dest)
  }

  lemma RoomInside(output: BlockCache, dc: Crypto, dest: nat, size: nat, from: nat, to: nat)
    requires RoomFor(output, dc, dest, size) && from <= to <= size
    ensures RoundUp(dest + to) <= output.trimmedEndOffset && Inside(output.MediaLimit(), RoundUp(dest + to))
    ensures dc.Sealed? ==> dc.session.baseOffset <= dest + from - (dest + from) % BLOCK_SIZE
  {
  }

  /** `data` was read and handed on so far, the last of it just before offset `end` of the file. */
  ghost predicate Copied(source: SparseSource, w: PadToBlockWriter, dest: nat, base: Flat, data: seq<byte>, end: nat)
    reads source, w, w.buffer, w.output
  {
    && source.Valid() && |data| == source.taken && data == source.packed[..source.taken]
    && RoomFor(w.output, w.dc, dest, Start(source.sm, |source.sm|))
    && w.Valid() && (w.index > 0 ==> w.Room(w.offset, w.offset + BLOCK_SIZE)) && w.progress.base == base
    && GivenData(w.progress.given, source.sm, source.packed, dest, |data|)
    && DataEnd(source.sm, |data|, end) && w.NextAllowed() == if |data| == 0 then 0 else dest + end
  }

  /** The read and write loop of process_resource: every piece goes to the padding writer at its destination. */
  method CopyData(source: SparseSource, w: PadToBlockWriter, dest: nat, ghost base: Flat)
    returns (ok: bool, data: seq<byte>, ghost end: nat)
    requires Copied(source, w, dest, base, [], 0) && Running(source.sm, source.mapIx)
    modifies source, w, w.buffer, w.output
    ensures ok <==> w.output.faults == old(w.output.faults)
    ensures ok ==> Copied(source, w, dest, base, data, end) && |data| == Deliverable(source.sm, |source.packed|)
  {
    hide Copied;
    data, ok, end := [], true, 0;
    var more := true;
    while more
      invariant ok && w.output.faults == old(w.output.faults) && Copied(source, w, dest, base, data, end)
      invariant if more then Running(source.sm, source.mapIx) else |data| == Deliverable(source.sm, |source.packed|)
      invariant |data| <= |source.packed|
      decreases |source.packed| - |data|, more
    {
      ok, more, data, end := CopyPiece(source, w, dest, base, data, end);
      if !ok {
        return;
      }
    }
  }

  method CopyPiece(source: SparseSource, w: PadToBlockWriter, dest: nat, ghost base: Flat, data: seq<byte>, ghost end: nat)
    returns (ok: bool, more: bool, data': seq<byte>, ghost end': nat)
    requires Copied(source, w, dest, base, data, end) && Running(source.sm, source.mapIx)
    modifies source, w, w.buffer, w.output
    ensures ok <==> w.output.faults == old(w.output.faults)
    ensures ok ==> Copied(source, w, dest, base, data', end')
    ensures ok ==> more == (|data| < |data'|) && |data| <= |data'| <= |source.packed|
    ensures ok ==> if more then Running(source.sm, source.mapIx) else |data'| == Deliverable(source.sm, |source.packed|)
  {
    hide PadOk, Agrees, BlockCache.Valid, Rank, InData, Start, Placed, Advanced, GivenData, At, Running, Deliverable, RoundUp, Touched;
    ghost var before := w.progress;
    ghost var sm := source.sm;
    var buffer, offset := source.ReadCallback();
    ok, more, data', end' := true, buffer != [], data + buffer, end;
    if more {
      NextEnd(sm, |data|, end, buffer, offset);
      DataInside(sm, offset + |buffer| - 1);
      RoomInside(w.output, w.dc, dest, Start(sm, |sm|), offset, offset + |buffer|);
      ok := w.Pwrite(buffer, dest + offset);
      if ok {
        GiveMore(before, w.progress, sm, source.packed, dest, |data|, offset, buffer);
        end' := offset + |buffer|;
      }
    }
  }

  lemma DataInside(sm: SparseMap, f: nat)
    requires InData(sm, f)
    ensures f < Start(sm, |sm|)
  {
    if f >= Start(sm, |sm|) {
      NoDataPastEnd(sm, f);
    }
  }

  function EndHole(sm: SparseMap): (r: nat)
    requires sm != []
    ensures r <= Start(sm, |sm|)
  {
    if |sm| % 2 == 0 then sm[|sm| - 1] else 0
  }

  /** How many zeros are written at the end of a file that ends in a hole. */
  function Closing(sm: SparseMap): (r: nat)
    requires sm != []
    ensures r <= EndHole(sm)
  {
    if EndHole(sm) < BLOCK_SIZE then EndHole(sm) else BLOCK_SIZE
  }

  /** Offsets of the file that are written: its data and, if it ends in a hole, the last bytes of that. */
  ghost predicate Written(sm: SparseMap, f: nat)
    requires sm != []
  {
    InData(sm, f) || Start(sm, |sm|) - Closing(sm) <= f < Start(sm, |sm|)
  }

  ghost predicate BlockWritten(sm: SparseMap, dest: nat, n: nat)
    requires sm != []
  {
    exists f: nat :: Written(sm, f) && (dest + f) / BLOCK_SIZE == n
  }

  /** Block n of the destination, were the file copied to it in full. */
  ghost function FileBlock(sm: SparseMap, packed: seq<byte>, dest: nat, n: nat): SectorBytes {
    seq(BLOCK_SIZE, q requires 0 <= q < BLOCK_SIZE => FileByte(sm, packed, BLOCK_SIZE * n + q - dest))
  }

  /** What the destination should hold: written blocks are those of the file, all others are as before. */
  ghost function RawExpect(flat: Flat, sm: SparseMap, packed: seq<byte>, dest: nat, seal: Seal, i: nat): byte
    requires sm != []
  {
    var n := i / BLOCK_SIZE;
    if BlockWritten(sm, dest, n) then seal(n, FileBlock(sm, packed, dest, n))[i % BLOCK_SIZE] else flat(i)
  }

  /** The file has a data byte in block n. */
  ghost predicate DataInBlock(sm: SparseMap, dest: nat, n: nat) {
    exists f: nat :: InData(sm, f) && (dest + f) / BLOCK_SIZE == n
  }

  /** Offset f is one of the last 512 bytes of a file that ends in a hole, and in that hole. */
  predicate InLastHole(sm: SparseMap, f: nat) {
    |sm| > 0 && |sm| % 2 == 0 && f < Start(sm, |sm|) && Start(sm, |sm|) <= f + sm[|sm| - 1] && Start(sm, |sm|) <= f + 512
  }

  ghost predicate HoleInBlock(sm: SparseMap, dest: nat, n: nat) {
    exists f: nat :: InLastHole(sm, f) && (dest + f) / BLOCK_SIZE == n
  }

  /** A block is written for its data bytes or for the last 512 bytes of a last hole, and for nothing else. */
  lemma WrittenIff(sm: SparseMap, dest: nat, n: nat)
    requires sm != []
    ensures BlockWritten(sm, dest, n) <==> DataInBlock(sm, dest, n) || HoleInBlock(sm, dest, n)
  {
    hide Start, InData;
    if BlockWritten(sm, dest, n) {
      var f: nat :| Written(sm, f) && (dest + f) / BLOCK_SIZE == n;
      assert InData(sm, f) || InLastHole(sm, f);
    }
    if DataInBlock(sm, dest, n) {
      var f: nat :| InData(sm, f) && (dest + f) / BLOCK_SIZE == n;
      assert Written(sm, f);
    }
    if HoleInBlock(sm, dest, n) {
      var f: nat :| InLastHole(sm, f) && (dest + f) / BLOCK_SIZE == n;
      assert Written(sm, f);
    }
  }

  /** Of a last hole all but the last 512 bytes stay as they are, where no data shares their block. */
  lemma HoleStays(sm: SparseMap, dest: nat, n: nat)
    requires sm != [] && !DataInBlock(sm, dest, n) && BLOCK_SIZE * n + BLOCK_SIZE <= dest + Start(sm, |sm|) - 512
    ensures !BlockWritten(sm, dest, n)
  {
    hide Start, InData;
    WrittenIff(sm, dest, n);
    forall f: nat | InLastHole(sm, f)
      ensures (dest + f) / BLOCK_SIZE != n
    {
    }
  }

  /** Block n as a reader sees it. */
  ghost function Shown(c: Cache, n: nat): SectorBytes
    requires WellFormed(c)
  {
    seq(BLOCK_SIZE, q requires 0 <= q < BLOCK_SIZE => View(c, BLOCK_SIZE * n + q))
  }

  /**
   * What raw_write leaves of block n: with neither data nor the last 512 bytes of a last hole in it, every byte as before;
   * else the file's block, as it is or as what decryption under its number in the file makes of it.
   */
  ghost predicate BlockArrived(c: Cache, flat: Flat, dc: Crypto, sm: SparseMap, packed: seq<byte>, dest: nat, n: nat)
    requires WellFormed(c)
  {
    if !DataInBlock(sm, dest, n) && !HoleInBlock(sm, dest, n) then
      forall i: nat :: i / BLOCK_SIZE == n ==> View(c, i) == flat(i)
    else
      match dc
      case Plain => Shown(c, n) == FileBlock(sm, packed, dest, n)
      case Sealed(session) =>
        && n >= dest / BLOCK_SIZE
        && (session.suite.Keyed() ==> session.suite.Crypt(Decrypt, n - dest / BLOCK_SIZE, Shown(c, n)) == FileBlock(sm, packed, dest, n))
  }

  ghost predicate Arrived(c: Cache, flat: Flat, dc: Crypto, sm: SparseMap, packed: seq<byte>, dest: nat)
    requires WellFormed(c)
  {
    forall n: nat :: BlockArrived(c, flat, dc, sm, packed, dest, n)
  }

  lemma BlockOfDest(dest: nat, f: nat)
    requires dest % BLOCK_SIZE == 0
    ensures (dest + f) / BLOCK_SIZE >= dest / BLOCK_SIZE
  {
  }

  lemma NumberInFile(session: Session, dest: nat, n: nat)
    requires session.baseOffset == dest && dest % BLOCK_SIZE == 0 && n >= dest / BLOCK_SIZE
    ensures BLOCK_SIZE * n >= dest && session.Lba(BLOCK_SIZE * n) == n - dest / BLOCK_SIZE
  {
    assert BLOCK_SIZE * n - dest == BLOCK_SIZE * (n - dest / BLOCK_SIZE);
  }

  lemma ShownIs(c: Cache, flat: Flat, sm: SparseMap, packed: seq<byte>, dest: nat, seal: Seal, n: nat)
    requires WellFormed(c) && sm != [] && forall i: nat :: View(c, i) == RawExpect(flat, sm, packed, dest, seal, i)
    ensures BlockWritten(sm, dest, n) ==> Shown(c, n) == seal(n, FileBlock(sm, packed, dest, n))
    ensures !BlockWritten(sm, dest, n) ==> forall i: nat :: i / BLOCK_SIZE == n ==> View(c, i) == flat(i)
  {
    hide View, FileBlock, BlockWritten, WellFormed;
    if BlockWritten(sm, dest, n) {
      forall q | 0 <= q < BLOCK_SIZE
        ensures Shown(c, n)[q] == seal(n, FileBlock(sm, packed, dest, n))[q]
      {
        assert (BLOCK_SIZE * n + q) / BLOCK_SIZE == n && (BLOCK_SIZE * n + q) % BLOCK_SIZE == q;
      }
    }
  }

  lemma ValidState(output: BlockCache)
    requires output.Valid()
    ensures WellFormed(output.State())
  {
    hide View;
  }

  lemma AfterBase(sm: SparseMap, dest: nat, n: nat)
    requires sm != [] && dest % BLOCK_SIZE == 0 && BlockWritten(sm, dest, n)
    ensures n >= dest / BLOCK_SIZE
  {
    var f: nat :| Written(sm, f) && (dest + f) / BLOCK_SIZE == n;
    BlockOfDest(dest, f);
  }

  lemma SealOpens(session: Session, dest: nat, n: nat, block: SectorBytes)
    requires session.baseOffset == dest && dest % BLOCK_SIZE == 0 && n >= dest / BLOCK_SIZE && session.suite.Keyed()
    ensures session.suite.Crypt(Decrypt, n - dest / BLOCK_SIZE, SealOf(Sealed(session))(n, block)) == block
  {
    hide Suite.Crypt, Suite.Keyed;
    NumberInFile(session, dest, n);
    SectorRoundTrip(session.suite, n - dest / BLOCK_SIZE, block);
  }

  lemma ArrivedIs(c: Cache, flat: Flat, dc: Crypto, sm: SparseMap, packed: seq<byte>, dest: nat)
    requires WellFormed(c) && sm != [] && dest % BLOCK_SIZE == 0 && (dc.Sealed? ==> dc.session.baseOffset == dest)
    requires forall i: nat :: View(c, i) == RawExpect(flat, sm, packed, dest, SealOf(dc), i)
    ensures Arrived(c, flat, dc, sm, packed, dest)
  {
    hide View, FileBlock, BlockWritten, WellFormed, RawExpect, DataInBlock, HoleInBlock, Suite.Crypt, Suite.Keyed, Shown;
    forall n: nat
      ensures BlockArrived(c, flat, dc, sm, packed, dest, n)
    {
      WrittenIff(sm, dest, n);
      ShownIs(c, flat, sm, packed, dest, SealOf(dc), n);
      if BlockWritten(sm, dest, n) {
        AfterBase(sm, dest, n);
        if dc.Sealed? && dc.session.suite.Keyed() {
          SealOpens(dc.session, dest, n, FileBlock(sm, packed, dest, n));
        }
      }
    }
  }

  /** Everything the file needs was given: its data, and zeros at the end of a last hole. */
  ghost predicate AllGiven(given: Given, sm: SparseMap, packed: seq<byte>, dest: nat)
    requires sm != []
  {
    forall i: nat :: given(i) == if i >= dest && Written(sm, i - dest) then Set(FileByte(sm, packed, i - dest)) else Unset
  }

  lemma {:induction false} AllDataGiven(given: Given, sm: SparseMap, packed: seq<byte>, dest: nat, i: nat)
    requires GivenData(given, sm, packed, dest, Packed(sm, |sm|)) && Packed(sm, |sm|) <= |packed|
    ensures given(i) == if i >= dest && InData(sm, i - dest) then Set(FileByte(sm, packed, i - dest)) else Unset
  {
    hide Rank, InData, Start;
    if i >= dest && InData(sm, i - dest) {
      DataInside(sm, i - dest);
      RankMonotone(sm, i - dest, Start(sm, |sm|));
      RankAtStart(sm, |sm|);
    }
  }

  lemma {:induction false} NoDataAtEnd(sm: SparseMap, f: nat)
    requires sm != [] && f >= Start(sm, |sm|) - EndHole(sm)
    ensures !InData(sm, f)
  {
    if InData(sm, f) {
      DataInside(sm, f);
      InDataAt(sm, |sm| - 1, f);
    }
  }

  /** The block-wise result: padding the file's bytes gives the file's blocks. */
  lemma {:induction false} BlocksOfFile(given: Given, sm: SparseMap, packed: seq<byte>, dest: nat, n: nat)
    requires sm != [] && AllGiven(given, sm, packed, dest)
    ensures Touched(given, n) <==> BlockWritten(sm, dest, n)
    ensures PaddedBlock(given, n) == FileBlock(sm, packed, dest, n)
  {
    hide Rank, InData, Start;
    if Touched(given, n) {
      var i: nat :| given(i).Set? && i / BLOCK_SIZE == n;
      assert Written(sm, i - dest);
    }
    if BlockWritten(sm, dest, n) {
      var f: nat :| Written(sm, f) && (dest + f) / BLOCK_SIZE == n;
      assert given(dest + f).Set?;
    }
    forall q | 0 <= q < BLOCK_SIZE
      ensures PaddedBlock(given, n)[q] == FileBlock(sm, packed, dest, n)[q]
    {
      assert given(BLOCK_SIZE * n + q).Set? || FileByte(sm, packed, BLOCK_SIZE * n + q - dest) == 0;
    }
  }

  /** The final-hole callback: zeros at the very end give the output its length. */
  method CloseHole(w: PadToBlockWriter, sm: SparseMap, dest: nat) returns (ok: bool)
    requires sm != [] && w.Valid() && w.NextAllowed() <= dest + Start(sm, |sm|) - EndHole(sm)
    requires RoomFor(w.output, w.dc, dest, Start(sm, |sm|)) && (w.index > 0 ==> w.Room(w.offset, w.offset + BLOCK_SIZE))
    modifies w, w.buffer, w.output
    ensures ok <==> w.output.faults == old(w.output.faults)
    ensures ok ==> w.Valid() && (w.index > 0 ==> w.Room(w.offset, w.offset + BLOCK_SIZE))
    ensures ok ==> Advanced(old(w.progress), w.progress, dest + Start(sm, |sm|) - Closing(sm), Zeros(Closing(sm)))
  {
    hide PadOk, Agrees, BlockCache.Valid, Start, Advanced;
    var hole := EndingHole(sm);
    EndingHoleIs(sm, hole);
    ok := true;
    if hole > 0 {
      var size := FileSize(sm);
      var toWrite := BLOCK_SIZE;
      if hole < toWrite {
        toWrite := hole;
      }
      RoomInside(w.output, w.dc, dest, size, size - toWrite, size);
      ok := w.Pwrite(Zeros(toWrite), dest + (size - toWrite));
    } else {
      NoAdvance(w.progress, dest + Start(sm, |sm|), Zeros(0));
    }
  }

  lemma EndingHoleIs(sm: SparseMap, hole: nat)
    requires sm != [] && hole <= Start(sm, |sm|)
    requires if |sm| % 2 == 0 then Start(sm, |sm|) - hole == Start(sm, |sm| - 1) else hole == 0
    ensures hole == EndHole(sm)
  {
  }

  lemma {:induction false} HoleGiven(p: Progress, p': Progress, sm: SparseMap, packed: seq<byte>, dest: nat)
    requires sm != [] && Packed(sm, |sm|) <= |packed| && GivenData(p.given, sm, packed, dest, Packed(sm, |sm|))
    requires Advanced(p, p', dest + Start(sm, |sm|) - Closing(sm), Zeros(Closing(sm)))
    ensures AllGiven(p'.given, sm, packed, dest) && p'.base == p.base
  {
    hide Rank, InData, Start, GivenData;
    forall i: nat
      ensures p'.given(i) == if i >= dest && Written(sm, i - dest) then Set(FileByte(sm, packed, i - dest)) else Unset
    {
      assert p'.given(i) == Give(p.given, dest + Start(sm, |sm|) - Closing(sm), Zeros(Closing(sm)))(i);
      AllDataGiven(p.given, sm, packed, dest, i);
      if i >= dest && i - dest >= Start(sm, |sm|) - EndHole(sm) {
        NoDataAtEnd(sm, i - dest);
      }
    }
  }

  lemma {:induction false} ResultIsFile(p: Progress, base: Flat, sm: SparseMap, packed: seq<byte>, dest: nat, seal: Seal)
    requires sm != [] && AllGiven(p.given, sm, packed, dest) && Finished(p, base, p.given, seal)
    ensures forall i: nat :: p.now(i) == RawExpect(base, sm, packed, dest, seal, i)
  {
    hide AllGiven, PaddedBlock;
    forall i: nat
      ensures p.now(i) == RawExpect(base, sm, packed, dest, seal, i)
    {
      BlocksOfFile(p.given, sm, packed, dest, i / BLOCK_SIZE);
    }
  }

  lemma {:induction false} DataBeforeHole(sm: SparseMap, taken: nat, end: nat)
    requires sm != [] && DataEnd(sm, taken, end)
    ensures end <= Start(sm, |sm|) - EndHole(sm)
  {
    hide Rank, InData, Start;
    if taken > 0 && end > Start(sm, |sm|) - EndHole(sm) {
      NoDataAtEnd(sm, end - 1);
    }
  }

  /** process_resource: all data, the last hole, then the length and the hash are compared. */
  method ProcessResource(source: SparseSource, w: PadToBlockWriter, dest: nat, hash: seq<byte> -> seq<byte>, expected: seq<byte>, ghost flat: Flat)
    returns (ok: bool)
    requires source.sm != [] && Copied(source, w, dest, flat, [], 0) && Running(source.sm, source.mapIx)
    modifies source, w, w.buffer, w.output
    ensures ok ==> w.output.faults == old(w.output.faults) && w.Valid() && (w.index > 0 ==> w.Room(w.offset, w.offset + BLOCK_SIZE))
    ensures ok ==> w.progress.base == flat && AllGiven(w.progress.given, source.sm, source.packed, dest)
    ensures var n := Deliverable(source.sm, |source.packed|);
            w.output.faults == old(w.output.faults) ==> (ok <==> n == Packed(source.sm, |source.sm|) && hash(source.packed[..n]) == expected)
    ensures ok ==> Packed(source.sm, |source.sm|) <= |source.packed|
  {
    hide PadOk, BlockCache.Valid, Start, Rank, InData, GivenData, AllGiven, Copied, Packed, Closing, EndHole;
    hide Deliverable, At, Advanced;
    var data;
    ghost var end;
    ok, data, end := CopyData(source, w, dest, flat);
    if ok {
      ghost var p := w.progress;
      AfterCopy(source, w, dest, flat, data, end);
      ok := CloseHole(w, source.sm, dest);
      if ok {
        var length := DataSize(source.sm);
        ok := |data| == length && hash(data) == expected;
        if ok {
          HoleGiven(p, w.progress, source.sm, source.packed, dest);
        }
      }
    }
  }

  lemma {:induction false} AfterCopy(source: SparseSource, w: PadToBlockWriter, dest: nat, flat: Flat, data: seq<byte>, end: nat)
    requires source.sm != [] && Copied(source, w, dest, flat, data, end)
    ensures w.Valid() && (w.index > 0 ==> w.Room(w.offset, w.offset + BLOCK_SIZE)) && w.progress.base == flat
    ensures w.NextAllowed() <= dest + Start(source.sm, |source.sm|) - EndHole(source.sm)
    ensures RoomFor(w.output, w.dc, dest, Start(source.sm, |source.sm|))
    ensures GivenData(w.progress.given, source.sm, source.packed, dest, |data|)
    ensures |data| <= |source.packed| && data == source.packed[..|data|]
  {
    hide PadOk, BlockCache.Valid, Rank, InData, Start;
    DataBeforeHole(source.sm, |data|, end);
  }

  lemma {:induction false} NothingCopied(source: SparseSource, w: PadToBlockWriter, dest: nat, flat: Flat)
    requires source.Valid() && source.taken == 0 && w.Valid() && w.index == 0 && w.progress == Progress(flat, Nothing(), flat, 0, [])
    requires RoomFor(w.output, w.dc, dest, Start(source.sm, |source.sm|))
    ensures Copied(source, w, dest, flat, [], 0)
  {
    hide PadOk, BlockCache.Valid, Rank, InData, Start;
  }

  /**
   * raw_write of one resource: it succeeds exactly when the device does not fail, all of the map's data
   * arrives and its hash is the expected one, and then the destination shows the file's blocks.
   */
  method RawWrite(output: BlockCache, dc: Crypto, sm: SparseMap, chunks: seq<seq<byte>>, dest: nat,
                  hash: seq<byte> -> seq<byte>, expected: seq<byte>, ghost flat: Flat)
    returns (ok: bool)
    requires output.Valid() && Agrees(output.State(), flat) && sm != []
    requires (forall k :: 0 <= k < |chunks| ==> chunks[k] != []) && RoomFor(output, dc, dest, Start(sm, |sm|))
    modifies output
    ensures ok ==> output.faults == old(output.faults) && output.Valid() && Packed(sm, |sm|) <= |SparseRead.Concat(chunks)|
    ensures ok ==> forall i: nat :: View(output.State(), i) == RawExpect(flat, sm, SparseRead.Concat(chunks), dest, SealOf(dc), i)
    ensures ok ==> Arrived(output.State(), flat, dc, sm, SparseRead.Concat(chunks), dest)
    ensures var packed := SparseRead.Concat(chunks);
            var n := Deliverable(sm, |packed|);
            output.faults == old(output.faults) ==> (ok <==> n == Packed(sm, |sm|) && hash(packed[..n]) == expected)
  {
    hide PadOk, BlockCache.Valid, Start, Advanced, Rank, InData, GivenData, Finished, AllGiven, RawExpect, Copied, Packed, Arrived;
    var source := new SparseSource(sm, chunks);
    var w := new PadToBlockWriter(output, dc, flat);
    NothingCopied(source, w, dest, flat);
    ok := ProcessResource(source, w, dest, hash, expected, flat);
    if ok {
      ok := w.Flush();
      if ok {
        FlushedIsFinished(w.progress, SealOf(dc), w.buffer[..], w.offset, w.progress.given);
        ResultIsFile(w.progress, flat, sm, source.packed, dest, SealOf(dc));
        ValidState(output);
        ArrivedIs(output.State(), flat, dc, sm, source.packed, dest);
      }
    }
  }

  /** The file extended with zeros in both directions. */
  function Extended(file: seq<byte>, f: int): byte {
    if 0 <= f < |file| then file[f] else 0
  }

  /**
   * When the archive entry was packed from a file by a map that is right about it (its length is the
   * file's and its holes are zero), the blocks written are those of the file itself, extended with zeros.
   */
  lemma {:induction false} FileArrives(sm: SparseMap, file: seq<byte>, dest: nat, n: nat, q: nat)
    requires Start(sm, |sm|) == |file| && q < BLOCK_SIZE
    requires forall f: nat :: f < |file| && !InData(sm, f) ==> file[f] == 0
    ensures FileBlock(sm, Select(sm, file, |file|), dest, n)[q] == Extended(file, BLOCK_SIZE * n + q - dest)
  {
    hide Rank, InData, Start, Select;
    var f := BLOCK_SIZE * n + q - dest;
    var packed := Select(sm, file, |file|);
    assert FileBlock(sm, packed, dest, n)[q] == FileByte(sm, packed, f);
    if f >= 0 && InData(sm, f) {
      DataInside(sm, f);
      SelectByRank(sm, file, |file|, f);
      assert FileByte(sm, packed, f) == packed[Rank(sm, f)];
    } else {
      assert FileByte(sm, packed, f) == 0;
    }
  }

  /** Every data byte is in a written block, and so is the last byte of a file that does not end in an empty segment. */
  lemma {:induction false} Covers(sm: SparseMap, dest: nat, f: nat)
    requires sm != [] && (InData(sm, f) || (f + 1 == Start(sm, |sm|) && sm[|sm| - 1] > 0))
    ensures BlockWritten(sm, dest, (dest + f) / BLOCK_SIZE)
  {
    if !InData(sm, f) {
      InDataAt(sm, |sm| - 1, f);
    }
    assert Written(sm, f);
  }
}
