/** Turns forward-moving writes of any size, possibly with holes, into whole-block writes to the cache. */
module PadWriter {
  import opened Bytes
  import opened CacheModel
  import opened BlockCaching
  import opened AesModes
  import opened DiskCrypto
  import opened PadModel

  datatype Crypto = Plain | Sealed(session: Session)

  function SealSector(session: Session, n: nat, s: SectorBytes): SectorBytes {
    if BLOCK_SIZE * n >= session.baseOffset then session.suite.Crypt(Encrypt, session.Lba(BLOCK_SIZE * n), s) else s
  }

  /** How a block is stored: as it is, or encrypted with the number of its own sector. */
  function SealOf(dc: Crypto): Seal {
    match dc
    case Plain => (n: nat, s: SectorBytes) => s
    case Sealed(session) => (n: nat, s: SectorBytes) => SealSector(session, n, s)
  }

  function RoundUp(i: nat): (r: nat)
    ensures r % BLOCK_SIZE == 0 && i <= r < i + BLOCK_SIZE
  {
    if i % BLOCK_SIZE == 0 then i else i - i % BLOCK_SIZE + BLOCK_SIZE
  }

  class PadToBlockWriter {
    const output: BlockCache
    const dc: Crypto
    const buffer: array<byte>
    var index: nat
    var offset: nat
    ghost var progress: Progress

    /** The state of the block being collected. */
    ghost predicate Padded()
      reads this, buffer
    {
      && (dc.Sealed? ==> dc.session.baseOffset % BLOCK_SIZE == 0)
      && buffer.Length == BLOCK_SIZE && index <= BLOCK_SIZE
      && progress.written % BLOCK_SIZE == 0 && (index > 0 ==> offset % BLOCK_SIZE == 0 && offset >= progress.written)
      && PadOk(progress, SealOf(dc), buffer[..], index, offset)
    }

    /** Some byte was given of the block being collected. */
    ghost predicate Started()
      reads this
    {
      index > 0 ==> Touched(progress.given, offset / BLOCK_SIZE)
    }

    ghost predicate OutputOk()
      reads this, output
    {
      output.Valid() && Agrees(output.State(), progress.now)
    }

    ghost predicate Valid()
      reads this, buffer, output
    {
      OutputOk() && Padded() && Started()
    }

    ghost function NextAllowed(): nat
      reads this
    {
      Frontier(progress, index, offset)
    }

    /** There is room in the output up to `end`, and encryption knows every block from `start` on. */
    ghost predicate Room(start: nat, end: nat)
      reads output`trimmedEndOffset, output`endOffset, output`isSoftEndOffset
    {
      && end <= output.trimmedEndOffset && Inside(output.MediaLimit(), end)
      && (dc.Sealed? ==> dc.session.baseOffset <= start)
    }

    constructor (output: BlockCache, dc: Crypto, ghost flat: Flat)
      requires output.Valid() && Agrees(output.State(), flat)
      requires dc.Sealed? ==> dc.session.baseOffset % BLOCK_SIZE == 0
      ensures Valid() && fresh(buffer) && this.output == output && this.dc == dc
      ensures index == 0 && progress == Progress(flat, Nothing(), flat, 0, [])
    {
      this.output := output;
      this.dc := dc;
      this.buffer := new byte[BLOCK_SIZE](_ => 0);
      this.index := 0;
      this.offset := 0;
      this.progress := Progress(flat, Nothing(), flat, 0, []);
    }

    /** Encrypts the collected block in place if need be and hands it to the cache. */
    method EncryptAndPwrite() returns (ok: bool)
      requires output.Valid() && Agrees(output.State(), progress.now)
      requires buffer.Length == BLOCK_SIZE && offset % BLOCK_SIZE == 0 && Room(offset, offset + BLOCK_SIZE)
      modifies output, buffer
      ensures ok <==> output.faults == old(output.faults)
      ensures output.faults >= old(output.faults)
      ensures output.trimmedEndOffset == old(output.trimmedEndOffset) && output.MediaLimit() == old(output.MediaLimit())
      ensures ok ==> output.Valid()
      ensures ok ==> Agrees(output.State(), Overlay(progress.now, offset, SealOf(dc)(offset / BLOCK_SIZE, old(buffer[..]))))
    {
      hide BlockCache.Valid;
      SealBuffer();
      ok := output.Pwrite(buffer[..], offset, true);
    }

    method SealBuffer()
      requires buffer.Length == BLOCK_SIZE && offset % BLOCK_SIZE == 0
      requires dc.Sealed? ==> dc.session.baseOffset <= offset
      modifies buffer
      ensures buffer[..] == SealOf(dc)(offset / BLOCK_SIZE, old(buffer[..]))
    {
      hide Suite.Crypt;
      ghost var block: SectorBytes := buffer[..];
      if dc.Sealed? {
        assert buffer[0..BLOCK_SIZE] == block;
        CryptSectors(dc.session, Encrypt, buffer, 0, buffer, 0, BLOCK_SIZE, offset);
        OneSector(dc.session.suite, dc.session.Lba(offset), block, buffer[0..BLOCK_SIZE]);
        assert buffer[..] == buffer[0..BLOCK_SIZE];
      }
    }

    /** Encrypts whole blocks that must not change to a temporary buffer and hands them to the cache. */
    method EncryptAndPwriteConst(buf: seq<byte>, at: nat) returns (ok: bool, ghost out: seq<byte>)
      requires output.Valid() && Agrees(output.State(), progress.now)
      requires at % BLOCK_SIZE == 0 && |buf| % BLOCK_SIZE == 0 && Room(at, at + |buf|)
      requires dc.Sealed? ==> dc.session.baseOffset % BLOCK_SIZE == 0
      modifies output
      ensures ok <==> output.faults == old(output.faults)
      ensures output.faults >= old(output.faults)
      ensures output.trimmedEndOffset == old(output.trimmedEndOffset) && output.MediaLimit() == old(output.MediaLimit())
      ensures |out| == |buf| && forall k :: 0 <= k < |buf| / BLOCK_SIZE ==> Sector(out, k) == SealOf(dc)(at / BLOCK_SIZE + k, Sector(buf, k))
      ensures ok ==> output.Valid() && Agrees(output.State(), Overlay(progress.now, at, out))
    {
      hide BlockCache.Valid;
      var data := buf;
      if dc.Sealed? {
        data := SealedCopy(buf, at);
      }
      out := data;
      ok := output.Pwrite(data, at, true);
    }

    method SealedCopy(buf: seq<byte>, at: nat) returns (data: seq<byte>)
      requires dc.Sealed? && dc.session.baseOffset <= at && dc.session.baseOffset % BLOCK_SIZE == 0
      requires at % BLOCK_SIZE == 0 && |buf| % BLOCK_SIZE == 0
      ensures |data| == |buf| && forall k :: 0 <= k < |buf| / BLOCK_SIZE ==> Sector(data, k) == SealOf(dc)(at / BLOCK_SIZE + k, Sector(buf, k))
    {
      hide Suite.Crypt;
      var input := new byte[|buf|](i requires 0 <= i < |buf| => buf[i]);
      assert input[..] == buf && input[0..|buf|] == buf;
      var tmp := new byte[|buf|];
      assert input[0..|buf|] == buf;
      CryptSectors(dc.session, Encrypt, input, 0, tmp, 0, |buf|, at);
      data := tmp[0..|buf|];
      forall k | 0 <= k < |buf| / BLOCK_SIZE
        ensures Sector(data, k) == SealOf(dc)(at / BLOCK_SIZE + k, Sector(buf, k))
      {
        assert Sector(data, k) == dc.session.suite.Crypt(Encrypt, dc.session.Lba(at) + k, Sector(buf, k));
        LbaOfBlock(dc.session, at, k);
      }
    }

    /** Writes the collected block out once its unfilled end is zeroed. */
    method EmitPending() returns (ok: bool)
      requires Valid() && index == BLOCK_SIZE && Room(offset, offset + BLOCK_SIZE)
      modifies this, buffer, output
      ensures ok <==> output.faults == old(output.faults)
      ensures output.faults >= old(output.faults)
      ensures output.trimmedEndOffset == old(output.trimmedEndOffset) && output.MediaLimit() == old(output.MediaLimit())
      ensures ok ==> Valid() && index == 0 && progress == Emitted(old(progress), SealOf(dc), old(offset))
    {
      hide PadOk, Advanced, Agrees, BlockCache.Valid;
      ghost var was := buffer[..];
      FullBuffer(progress, SealOf(dc), was, offset);
      ok := EncryptAndPwrite();
      if ok {
        EmitOk(progress, SealOf(dc), was, index, offset, buffer[..]);
        progress := Emitted(progress, SealOf(dc), offset);
        index := 0;
      }
    }

    /** ptbw_flush: the collected block, zero filled, goes to the cache. */
    method Flush() returns (ok: bool)
      requires Valid() && (index > 0 ==> Room(offset, offset + BLOCK_SIZE))
      modifies this, buffer, output
      ensures ok <==> output.faults == old(output.faults)
      ensures output.faults >= old(output.faults)
      ensures output.trimmedEndOffset == old(output.trimmedEndOffset) && output.MediaLimit() == old(output.MediaLimit())
      ensures ok ==> Valid() && index == 0
      ensures ok ==> progress == if old(index) == 0 then old(progress) else Emitted(old(progress), SealOf(dc), old(offset))
    {
      hide PadOk, Advanced, Agrees, BlockCache.Valid;
      if index > 0 {
        FillZeros(BLOCK_SIZE);
        ok := EmitPending();
      } else {
        ok := true;
      }
    }

    /** Zeros in the collected block from where it stands up to `to`. */
    method FillZeros(to: nat)
      requires Padded() && 0 < index <= to <= BLOCK_SIZE
      modifies buffer, `index
      ensures Padded() && index == to
    {
      hide PadOk;
      ghost var was := buffer[..];
      forall q | index <= q < to {
        buffer[q] := 0;
      }
      FillOk(progress, SealOf(dc), was, index, offset, to, buffer[..]);
      index := to;
    }

    /** Starts a block with zeros up to the first byte that will be given. */
    method PadFront(at: nat)
      requires Padded() && index == 0 && at % BLOCK_SIZE != 0 && at >= progress.written
      modifies buffer, `index, `offset
      ensures Padded() && index == at % BLOCK_SIZE && offset == at - at % BLOCK_SIZE
    {
      hide PadOk;
      ghost var was := buffer[..];
      forall q | 0 <= q < at % BLOCK_SIZE {
        buffer[q] := 0;
      }
      FrontOk(progress, SealOf(dc), was, offset, at, buffer[..]);
      index := at % BLOCK_SIZE;
      offset := at - index;
    }

    /** Copies bytes to the end of the block being collected, or to the start of a new one. */
    method Append(piece: seq<byte>)
      requires Padded() && piece != [] && index + |piece| <= BLOCK_SIZE
      requires offset % BLOCK_SIZE == 0 && offset >= progress.written
      modifies buffer, `index, `progress
      ensures Padded() && Started() && progress.now == old(progress.now) && index == old(index) + |piece|
      ensures progress == old(progress).(given := Give(old(progress).given, offset + old(index), piece))
    {
      hide PadOk;
      ghost var was := buffer[..];
      CopyIn(buffer, index, piece);
      AppendOk(progress, SealOf(dc), was, index, offset, piece);
      progress := progress.(given := Give(progress.given, offset + index, piece));
      index := index + |piece|;
    }

    /** Hands whole blocks straight to the cache. */
    method WriteWhole(buf: seq<byte>, at: nat) returns (ok: bool)
      requires Valid() && index == 0 && at % BLOCK_SIZE == 0 && |buf| % BLOCK_SIZE == 0 && at >= progress.written
      requires Room(at, at + |buf|)
      modifies output, `progress
      ensures ok <==> output.faults == old(output.faults)
      ensures output.faults >= old(output.faults)
      ensures output.trimmedEndOffset == old(output.trimmedEndOffset) && output.MediaLimit() == old(output.MediaLimit())
      ensures ok ==> Valid() && progress.written == at + |buf|
      ensures ok ==> progress.base == old(progress.base) && progress.given == Give(old(progress.given), at, buf)
    {
      hide PadOk, Advanced, Agrees, BlockCache.Valid;
      ghost var out;
      ok, out := EncryptAndPwriteConst(buf, at);
      if ok {
        WholeOk(progress, SealOf(dc), buffer[..], offset, at, buf, out);
        progress := Whole(progress, at, buf, out);
      }
    }

    /** Once nothing is being collected: whole blocks go out, the rest starts a new block. */
    method WriteAligned(buf: seq<byte>, at: nat) returns (ok: bool)
      requires Valid() && index == 0 && at % BLOCK_SIZE == 0 && at >= progress.written
      requires Room(at, RoundUp(at + |buf|))
      modifies this, buffer, output
      ensures ok <==> output.faults == old(output.faults)
      ensures output.faults >= old(output.faults)
      ensures output.trimmedEndOffset == old(output.trimmedEndOffset) && output.MediaLimit() == old(output.MediaLimit())
      ensures ok ==> Valid() && Advanced(old(progress), progress, at, buf)
      ensures ok ==> NextAllowed() == if buf == [] then old(NextAllowed()) else at + |buf|
      ensures ok && index > 0 ==> at <= offset && offset + BLOCK_SIZE == RoundUp(at + |buf|)
    {
      hide PadOk, Advanced, Agrees, BlockCache.Valid, RoundUp;
      ghost var before := progress;
      var whole := 0;
      ok := true;
      NoAdvance(before, at, buf[..0]);
      WholePart(at, |buf|);
      if |buf| > BLOCK_SIZE {
        whole := |buf| - |buf| % BLOCK_SIZE;
        ok := WriteWhole(buf[..whole], at);
        if !ok {
          return;
        }
        AdvancedBy(before, progress, at, buf[..whole]);
      }
      ghost var mid := progress;
      var rest, to := buf[whole..], at + whole;
      NoAdvance(mid, to, []);
      if rest != [] {
        IdleOffset(progress, SealOf(dc), buffer[..], offset, to);
        offset := to;
        Append(rest);
        AdvancedBy(mid, progress, to, rest);
      }
      TwoAdvances(before, mid, progress, at, buf, whole);
    }

    /** Fills up the collected block from the front of a write, or flushes it when the write is further on. */
    method Leftovers(buf: seq<byte>, at: nat) returns (ok: bool, taken: nat, done: bool)
      requires OutputOk() && Padded() && (Started() || (at == offset + index && index < BLOCK_SIZE))
      requires index > 0 && at >= offset + index && buf != [] && Room(offset, offset + BLOCK_SIZE)
      modifies this, buffer, output
      ensures ok <==> output.faults == old(output.faults)
      ensures output.faults >= old(output.faults)
      ensures output.trimmedEndOffset == old(output.trimmedEndOffset) && output.MediaLimit() == old(output.MediaLimit())
      ensures ok ==> Valid() && taken <= |buf| && Advanced(old(progress), progress, at, buf[..taken])
      ensures ok && done ==> taken == |buf| && NextAllowed() == at + |buf| && (index > 0 ==> offset == old(offset))
      ensures ok && !done ==> index == 0 && progress.written <= at + taken && (taken > 0 ==> progress.written == at + taken)
      ensures ok && !done ==> if at == old(offset) + old(index) then (at + taken) % BLOCK_SIZE == 0 else taken == 0 || (at + taken) % BLOCK_SIZE == 0
    {
      hide PadOk, Advanced, Agrees, BlockCache.Valid;
      ghost var before := progress;
      taken, done := 0, false;
      NoAdvance(before, at, buf[..0]);
      if at > offset + index && at < offset + BLOCK_SIZE {
        FillZeros(at - offset);
      }
      if at == offset + index {
        taken := if BLOCK_SIZE - index <= |buf| then BLOCK_SIZE - index else |buf|;
        if taken > 0 {
          Append(buf[..taken]);
          AdvancedBy(before, progress, at, buf[..taken]);
        }
        ghost var mid := progress;
        if index == BLOCK_SIZE {
          ok := EmitPending();
          SameGiven(before, mid, progress, at, buf[..taken]);
        } else {
          ok, done := true, true;
        }
      } else {
        ok := Flush();
        SameGiven(before, before, progress, at, buf[..0]);
      }
    }

    /** ptbw_pwrite: a write at or after the end of the one before. */
    method Pwrite(buf: seq<byte>, at: nat) returns (ok: bool)
      requires OutputOk() && Padded() && (Started() || (0 < index < BLOCK_SIZE && at == offset + index))
      requires at >= NextAllowed() && buf != []
      requires Room(at - at % BLOCK_SIZE, RoundUp(at + |buf|)) && (index > 0 ==> Room(offset, offset + BLOCK_SIZE))
      modifies this, buffer, output
      ensures ok <==> output.faults == old(output.faults)
      ensures output.faults >= old(output.faults)
      ensures output.trimmedEndOffset == old(output.trimmedEndOffset) && output.MediaLimit() == old(output.MediaLimit())
      ensures ok ==> Valid() && Advanced(old(progress), progress, at, buf)
      ensures ok ==> NextAllowed() == at + |buf| && (index > 0 ==> Room(offset, offset + BLOCK_SIZE))
      decreases if index > 0 && at == offset + index then 0 else 1
    {
      hide PadOk, Advanced, Agrees, BlockCache.Valid;
      ghost var before := progress;
      var taken, done := 0, false;
      ok := true;
      NoAdvance(before, at, buf[..0]);
      if index != 0 {
        ok, taken, done := Leftovers(buf, at);
        if !ok || done {
          assert ok ==> buf[..taken] == buf;
          return;
        }
      }
      ghost var mid := progress;
      var rest, to := buf[taken..], at + taken;
      if to % BLOCK_SIZE != 0 {
        PadFront(to);
        ok := Pwrite(rest, to);
      } else {
        ok := WriteAligned(rest, to);
      }
      if ok {
        TwoAdvances(before, mid, progress, at, buf, taken);
      }
    }
  }

  /** Where the whole blocks of a write end, and the block that the rest of it starts. */
  lemma WholePart(at: nat, n: nat)
    requires at % BLOCK_SIZE == 0
    ensures var w := if n > BLOCK_SIZE then n - n % BLOCK_SIZE else 0;
            && w % BLOCK_SIZE == 0 && at + w <= RoundUp(at + n) && (at + w) % BLOCK_SIZE == 0 && n - w <= BLOCK_SIZE
            && (n > w ==> at + w + BLOCK_SIZE == RoundUp(at + n))
  {
    hide RoundUp;
    RoundUpIs(at / BLOCK_SIZE + n / BLOCK_SIZE, n % BLOCK_SIZE);
    if n == BLOCK_SIZE {
      RoundUpIs(at / BLOCK_SIZE + 1, 0);
    }
  }

  lemma RoundUpIs(k: nat, r: nat)
    requires r < BLOCK_SIZE
    ensures RoundUp(BLOCK_SIZE * k + r) == BLOCK_SIZE * k + if r == 0 then 0 else BLOCK_SIZE
  {
  }

  /** The bytes `buf` were given at `at` and nothing else about what was asked for changed. */
  ghost predicate Advanced(p: Progress, p': Progress, at: nat, buf: seq<byte>) {
    p'.base == p.base && forall i: nat :: p'.given(i) == Give(p.given, at, buf)(i)
  }

  lemma TwoAdvances(p: Progress, p1: Progress, p2: Progress, at: nat, buf: seq<byte>, cut: nat)
    requires cut <= |buf|
    requires Advanced(p, p1, at, buf[..cut]) && Advanced(p1, p2, at + cut, buf[cut..])
    ensures Advanced(p, p2, at, buf)
  {
  }

  lemma NoAdvance(p: Progress, at: nat, buf: seq<byte>)
    requires buf == []
    ensures Advanced(p, p, at, buf)
  {
  }

  lemma SameGiven(p: Progress, p1: Progress, p2: Progress, at: nat, buf: seq<byte>)
    requires Advanced(p, p1, at, buf)
    ensures p2.base == p1.base && p2.given == p1.given ==> Advanced(p, p2, at, buf)
  {
  }

  lemma AdvancedBy(p: Progress, p': Progress, at: nat, buf: seq<byte>)
    requires p'.base == p.base && p'.given == Give(p.given, at, buf)
    ensures Advanced(p, p', at, buf)
  {
  }

  lemma LbaOfBlock(session: Session, at: nat, k: nat)
    requires session.baseOffset <= at && session.baseOffset % BLOCK_SIZE == 0 && at % BLOCK_SIZE == 0
    ensures BLOCK_SIZE * (at / BLOCK_SIZE + k) >= session.baseOffset
    ensures session.Lba(BLOCK_SIZE * (at / BLOCK_SIZE + k)) == session.Lba(at) + k
  {
  }

  lemma OneSector(suite: Suite, lba: nat, data: SectorBytes, r: seq<byte>)
    requires SectorwiseOf(suite, Encrypt, lba, data, r)
    ensures r == suite.Crypt(Encrypt, lba, data)
  {
    hide Suite.Crypt;
    assert Sector(r, 0) == suite.Crypt(Encrypt, lba + 0, Sector(data, 0));
    assert Sector(r, 0) == r && Sector(data, 0) == data;
  }
}
