/** The write-back segment cache of the single-threaded build. */
module BlockCaching {
  import opened Bytes
  import opened SegmentFlags
  import opened TrimBits
  import opened CacheModel
  import opened FlushOrder

  const TRIM_TRACKING_BYTES: nat := 65536

  class BlockCache {
    // The destination. Its contents survive the cache.
    var disk: seq<byte>

    var verifyWrites: bool
    var minimizeWrites: bool
    var timestamp: nat
    var segments: seq<Segment>
    var trimmed: seq<bv8>
    var trimmedEndOffset: nat
    var trimmedRemainder: bool
    var endOffset: nat
    var isSoftEndOffset: bool

    // An honest device has stored what it says it has.
    const honest: bool

    // How many transfers the device has failed or lied about, and the segments written back so far.
    ghost var faults: nat
    ghost var writeBacks: seq<nat>

    function MediaLimit(): Limit
      reads `endOffset, `isSoftEndOffset
    {
      if endOffset > 0 && !isSoftEndOffset then Hard(endOffset) else Unlimited
    }

    ghost function State(): Cache
      reads `disk, `segments, `trimmed, `trimmedRemainder, `endOffset, `isSoftEndOffset
    {
      Cache(segments, Ground(trimmed, trimmedRemainder, disk, MediaLimit()))
    }

    /** What holds even after a failed transfer. */
    ghost predicate Sound()
      reads this
    {
      && WellFormed(State()) && Stamped(segments, timestamp) && trimmedEndOffset == 8 * |trimmed| * SEGMENT_SIZE
      && (honest || verifyWrites)
    }

    ghost predicate Valid()
      reads this
    {
      Sound() && Coherent(State()) && PastEndTrimmed(State().ground)
    }

    /** pread on the destination: any read may fail. */
    method DiskRead(count: nat, offset: nat) returns (ok: bool, data: seq<byte>)
      modifies `faults
      ensures ok <==> faults == old(faults)
      ensures faults >= old(faults)
      ensures ok ==> data == ReadAt(disk, count, offset)
    {
      data := [];
      var fails: bool := *;
      if fails {
        faults := faults + 1;
        return false, data;
      }
      return true, ReadAt(disk, count, offset);
    }

    /**
     * pwrite on the destination: a failed write leaves any prefix of the data behind. A device that is not honest may
     * store anything in the place of the data and report success all the same.
     */
    method DiskWrite(data: seq<byte>, offset: nat) returns (reported: bool, ghost n: nat)
      modifies `disk, `faults
      ensures faults >= old(faults) && (!reported ==> faults > old(faults))
      ensures reported ==> (faults == old(faults) <==> Wrote(old(disk), disk, data, offset))
      ensures reported && honest ==> faults == old(faults) && n == |data|
      ensures ChangedOnlyAt(old(disk), disk, offset, |data|)
      ensures n <= |data| && (honest ==> Wrote(old(disk), disk, data[..n], offset))
    {
      var stored: seq<byte>, lies: bool :| |stored| <= |data| && (lies ==> !honest) && (lies || stored == data[..|stored|]);
      disk := WriteAt(disk, stored, offset);
      n := |stored|;
      reported := lies || |stored| == |data|;
      if !reported {
        faults := faults + 1;
        return;
      }
      ghost var kept := Wrote(old(disk), disk, data, offset);
      if !kept {
        faults := faults + 1;
      }
    }

    predicate IsTrimmed(offset: nat)
      reads `trimmed, `trimmedRemainder
    {
      var segmentIndex := offset / SEGMENT_SIZE;
      if segmentIndex / 8 >= |trimmed| then trimmedRemainder else Bit(trimmed, segmentIndex)
    }

    method ClearTrimmed(offset: nat)
      requires offset / SEGMENT_SIZE < 8 * |trimmed|
      modifies `trimmed
      ensures trimmed == ClearBit(old(trimmed), offset / SEGMENT_SIZE)
    {
      trimmed := ClearBit(trimmed, offset / SEGMENT_SIZE);
    }

    method CalculateIoSize(offset: nat) returns (ok: bool, count: nat)
      modifies `endOffset
      ensures MediaLimit() == old(MediaLimit())
      ensures ok <==> (MediaLimit().Hard? ==> offset <= MediaLimit().end)
      ensures ok ==> count == IoSize(MediaLimit(), offset)
      ensures endOffset == if isSoftEndOffset && 0 < old(endOffset) < offset + SEGMENT_SIZE then offset + SEGMENT_SIZE else old(endOffset)
    {
      var lastOffset := offset + SEGMENT_SIZE;
      if endOffset > 0 && !isSoftEndOffset {
        if lastOffset <= endOffset {
          return true, SEGMENT_SIZE;
        } else if offset <= endOffset {
          return true, endOffset - offset;
        } else {
          return false, 0;
        }
      } else {
        if isSoftEndOffset && endOffset > 0 && lastOffset > endOffset {
          endOffset := lastOffset;
        }
        return true, SEGMENT_SIZE;
      }
    }

    method ReadSegment(offset: nat) returns (ok: bool, data: seq<byte>)
      requires offset % SEGMENT_SIZE == 0 && offset / SEGMENT_SIZE < 8 * |trimmed|
      requires PastEndTrimmed(State().ground)
      modifies `faults, `endOffset
      ensures State() == old(State())
      ensures ok <==> faults == old(faults)
      ensures faults >= old(faults)
      ensures ok ==> |data| == SEGMENT_SIZE && forall j :: 0 <= j < SEGMENT_SIZE ==> data[j] == Back(State().ground, offset + j)
    {
      if IsTrimmed(offset) {
        data := Zeros(SEGMENT_SIZE);
        forall j | 0 <= j < SEGMENT_SIZE
          ensures data[j] == Back(State().ground, offset + j)
        {
          assert (offset + j) / SEGMENT_SIZE == offset / SEGMENT_SIZE;
        }
        return true, data;
      }
      var count;
      ok, count := CalculateIoSize(offset);
      if !ok {
        return false, [];
      }
      ok, data := DiskRead(count, offset);
      if !ok {
        return false, [];
      }
      ghost var got := data;
      data := data + Zeros(SEGMENT_SIZE - |data|);
      forall j | 0 <= j < SEGMENT_SIZE
        ensures data[j] == Back(State().ground, offset + j)
      {
        assert (offset + j) / SEGMENT_SIZE == offset / SEGMENT_SIZE;
        if j < |got| {
          assert data[j] == got[j];
        }
      }
    }

    method MakeSegmentValid(k: nat) returns (ok: bool)
      requires Valid() && k < |segments| && segments[k].inUse
      modifies `segments, `faults, `endOffset
      ensures Valid() && SameView(old(State()), State())
      ensures ok <==> faults == old(faults)
      ensures faults >= old(faults)
      ensures ok ==> Filled(old(State()), State(), k)
      ensures !ok ==> State() == old(State())
    {
      ghost var before := State();
      var allValid, allInvalid := CheckSegmentValidity(segments[k].flags);
      if allInvalid {
        var data;
        ok, data := ReadSegment(segments[k].offset);
        if !ok {
          return;
        }
        ReadInEntry(before, k, data);
        SetEntry(k, data, AllValid());
      } else if !allValid {
        var temp;
        ok, temp := ReadSegment(segments[k].offset);
        if !ok {
          return;
        }
        var data, flags := MergeBlocks(segments[k], temp);
        MergedEntry(before, k, temp, data, flags);
        SetEntry(k, data, flags);
      } else {
        AlreadyFull(before, k);
        ok := true;
      }
    }

    method SetEntry(k: nat, data: seq<byte>, flags: seq<bv8>)
      requires Sound() && k < |segments|
      requires WellFormed(WithEntry(State(), k, data, flags))
      modifies `segments
      ensures Sound() && State() == WithEntry(old(State()), k, data, flags)
    {
      StampsKept(segments, k, segments[k].(data := data, flags := flags), timestamp);
      segments := segments[k := segments[k].(data := data, flags := flags)];
    }

    /** Takes every block of a segment that is not valid from `temp`. */
    static method MergeBlocks(g: Segment, temp: seq<byte>) returns (data: seq<byte>, flags: seq<bv8>)
      requires g.inUse && ShapeOk(g) && |temp| == SEGMENT_SIZE
      ensures |data| == SEGMENT_SIZE && |flags| == FLAG_BYTES && Full(flags)
      ensures forall b :: 0 <= b < BLOCKS_PER_SEGMENT ==> (IsDirty(flags, b) <==> IsDirty(g.flags, b))
      ensures forall j :: 0 <= j < SEGMENT_SIZE ==> data[j] == if IsValid(g.flags, j / BLOCK_SIZE) then g.data[j] else temp[j]
    {
      data, flags := g.data, g.flags;
      var i := 0;
      while i < BLOCKS_PER_SEGMENT
        invariant 0 <= i <= BLOCKS_PER_SEGMENT && |data| == SEGMENT_SIZE && |flags| == FLAG_BYTES
        invariant forall b :: 0 <= b < BLOCKS_PER_SEGMENT ==> (IsDirty(flags, b) <==> IsDirty(g.flags, b))
        invariant forall b :: 0 <= b < BLOCKS_PER_SEGMENT ==> (IsValid(flags, b) <==> b < i || IsValid(g.flags, b))
        invariant forall j :: 0 <= j < SEGMENT_SIZE ==>
                    data[j] == if j < i * BLOCK_SIZE && !IsValid(g.flags, j / BLOCK_SIZE) then temp[j] else g.data[j]
      {
        if !IsValid(flags, i) {
          var at := i * BLOCK_SIZE;
          data := Splice(data, at, temp[at..at + BLOCK_SIZE]);
          flags := SetValid(flags, i);
        }
        i := i + 1;
      }
    }

    /** A comparison read that fails is not an error: the write goes ahead. */
    method SameOnDisk(data: seq<byte>, offset: nat) returns (same: bool)
      modifies `faults
      ensures faults == old(faults)
      ensures same ==> ReadAt(disk, |data|, offset) == data
    {
      var temp;
      same, temp := DiskRead(|data|, offset);
      same := same && temp == data;
      faults := old(faults);
    }

    /** Writes a whole segment, optionally skipping a write that changes nothing and reading it back. */
    method VerifiedSegmentWrite(k: nat) returns (ok: bool, ghost n: nat)
      requires k < |segments| && segments[k].inUse && |segments[k].data| == SEGMENT_SIZE
      requires Inside(MediaLimit(), segments[k].offset)
      modifies `disk, `faults, `endOffset
      ensures MediaLimit() == old(MediaLimit())
      ensures honest || verifyWrites ==> (ok <==> faults == old(faults))
      ensures faults >= old(faults)
      ensures ok && (honest || verifyWrites) ==> Wrote(old(disk), disk, segments[k].data[..IoSize(MediaLimit(), segments[k].offset)], segments[k].offset)
      ensures ChangedOnlyAt(old(disk), disk, segments[k].offset, SEGMENT_SIZE)
      ensures n <= IoSize(MediaLimit(), segments[k].offset) && (ok && honest ==> n == IoSize(MediaLimit(), segments[k].offset))
      ensures honest ==> Wrote(old(disk), disk, segments[k].data[..n], segments[k].offset)
    {
      hide Wrote, ChangedOnlyAt, ReadAt, IoSize;
      n := 0;
      var offset := segments[k].offset;
      var count;
      ok, count := CalculateIoSize(offset);
      if !ok {
        return;
      }
      var data := segments[k].data[..count];
      if minimizeWrites {
        var same := SameOnDisk(data, offset);
        if same {
          AlreadyThere(disk, data, offset);
          ChangedWithin(disk, disk, offset, 0, SEGMENT_SIZE);
          return true, count;
        }
      }
      ok, n := DiskWrite(data, offset);
      assert data[..n] == segments[k].data[..n];
      ChangedWithin(old(disk), disk, offset, count, SEGMENT_SIZE);
      if ok && verifyWrites {
        ReadBackIff(old(disk), disk, data, offset);
        var temp;
        ok, temp := DiskRead(count, offset);
        ok := ok && temp == data;
      }
    }

    /** Writes a dirty segment back; after a failure the segment is given up all the same. */
    method FlushSegment(k: nat) returns (ok: bool, ghost n: nat)
      requires Valid() && k < |segments|
      modifies `disk, `segments, `trimmed, `faults, `endOffset, `writeBacks
      ensures ok <==> faults == old(faults)
      ensures faults >= old(faults)
      ensures Sound() && PastEndTrimmed(State().ground) && OnlyEntry(old(State()), State(), k)
      ensures segments[k] == old(segments[k]).(data := segments[k].data, flags := segments[k].flags)
      ensures MediaLimit() == old(MediaLimit()) && |trimmed| == old(|trimmed|)
      ensures segments[k].inUse ==> Clean(segments[k].flags)
      ensures ok ==> Valid() && SameView(old(State()), State())
      ensures !old(Dirty(segments[k])) ==> ok && State() == old(State())
      ensures writeBacks == old(writeBacks) + if ok && old(Dirty(segments[k])) then [segments[k].offset] else []
      ensures n <= IoSize(MediaLimit(), segments[k].offset) && (n > 0 ==> old(Dirty(segments[k])))
      ensures ok && honest && old(Dirty(segments[k])) ==> n == IoSize(MediaLimit(), segments[k].offset)
      ensures honest ==> WrittenTo(old(State()), disk, segments[k].offset, n)
    {
      n := 0;
      if !segments[k].inUse {
        return true, 0;
      }
      var dirty := IsSegmentDirty(segments[k].flags);
      if !dirty {
        return true, 0;
      }
      ok, n := FlushDirty(k);
    }

    method FlushDirty(k: nat) returns (ok: bool, ghost n: nat)
      requires Valid() && k < |segments| && Dirty(segments[k])
      modifies `disk, `segments, `trimmed, `faults, `endOffset, `writeBacks
      ensures ok <==> faults == old(faults)
      ensures faults >= old(faults)
      ensures Sound() && PastEndTrimmed(State().ground) && OnlyEntry(old(State()), State(), k)
      ensures segments[k] == old(segments[k]).(data := segments[k].data, flags := segments[k].flags)
      ensures MediaLimit() == old(MediaLimit()) && |trimmed| == old(|trimmed|)
      ensures segments[k].inUse && Clean(segments[k].flags)
      ensures ok ==> Valid() && SameView(old(State()), State())
      ensures writeBacks == old(writeBacks) + if ok then [segments[k].offset] else []
      ensures n <= IoSize(MediaLimit(), segments[k].offset) && (ok && honest ==> n == IoSize(MediaLimit(), segments[k].offset))
      ensures honest ==> WrittenTo(old(State()), disk, segments[k].offset, n)
    {
      n := 0;
      ghost var first := State();
      ok := MakeSegmentValid(k);
      ghost var filled := State();
      FilledStaysDirty(first, filled, k);
      if ok {
        ok, n := WriteOut(k);
      } else {
        var flags := ClearAllDirty(segments[k].flags);
        MarkAbandoned(k, flags, filled);
      }
    }

    /** Attempts the write of a dirty segment that is valid throughout. */
    method WriteOut(k: nat) returns (ok: bool, ghost n: nat)
      requires Valid() && k < |segments| && Dirty(segments[k]) && Full(segments[k].flags)
      requires Inside(MediaLimit(), segments[k].offset)
      modifies `disk, `segments, `trimmed, `faults, `endOffset, `writeBacks
      ensures ok <==> faults == old(faults)
      ensures faults >= old(faults)
      ensures Sound() && PastEndTrimmed(State().ground) && OnlyEntry(old(State()), State(), k)
      ensures segments[k] == old(segments[k]).(flags := segments[k].flags)
      ensures MediaLimit() == old(MediaLimit()) && |trimmed| == old(|trimmed|)
      ensures |segments[k].flags| == FLAG_BYTES && Clean(segments[k].flags)
      ensures ok ==> Valid() && SameView(old(State()), State())
      ensures writeBacks == old(writeBacks) + if ok then [segments[k].offset] else []
      ensures n <= IoSize(MediaLimit(), segments[k].offset) && (ok && honest ==> n == IoSize(MediaLimit(), segments[k].offset))
      ensures honest ==> WrittenTo(old(State()), disk, segments[k].offset, n)
    {
      ghost var before := State();
      ok, n := VerifiedSegmentWrite(k);
      if honest {
        FullEntryWritten(before, disk, k, n);
      }
      var flags := ClearAllDirty(segments[k].flags);
      if ok {
        MarkWritten(k, flags, before);
      } else {
        MarkAbandoned(k, flags, before);
      }
    }

    /** Marks a segment clean and no longer trimmed after its write. */
    method MarkWritten(k: nat, flags: seq<bv8>, ghost before: Cache)
      requires Sound() && PastEndTrimmed(State().ground) && k < |segments| && segments[k].inUse
      requires Coherent(before) && State() == before.(ground := before.ground.(disk := disk))
      requires Dirty(before.segments[k]) && Full(segments[k].flags)
      requires |flags| == FLAG_BYTES && Full(flags) && Clean(flags)
      requires Wrote(before.ground.disk, disk, segments[k].data[..IoSize(before.ground.limit, segments[k].offset)], segments[k].offset)
      modifies `segments, `trimmed, `writeBacks
      ensures Valid() && SameView(before, State()) && OnlyEntry(before, State(), k)
      ensures segments[k] == before.segments[k].(flags := flags)
      ensures |trimmed| == old(|trimmed|)
      ensures writeBacks == old(writeBacks) + [segments[k].offset]
    {
      assert SegmentOk(before.ground, before.segments[k]);
      hide Coherent, View, Full, Clean;
      SetEntry(k, segments[k].data, flags);
      ClearTrimmed(segments[k].offset);
      ClearTrimmedKeepsPastEnd(before.ground, State().ground, before.segments[k]);
      WriteBackKeepsView(before, State(), k);
      writeBacks := writeBacks + [segments[k].offset];
    }

    /** The same bookkeeping after a failed write: the segment is not retried. */
    method MarkAbandoned(k: nat, flags: seq<bv8>, ghost before: Cache)
      requires Sound() && PastEndTrimmed(State().ground) && k < |segments| && segments[k].inUse
      requires Coherent(before) && State() == before.(ground := before.ground.(disk := disk))
      requires Dirty(before.segments[k])
      requires |flags| == FLAG_BYTES
      modifies `segments, `trimmed
      ensures Sound() && PastEndTrimmed(State().ground) && OnlyEntry(before, State(), k)
      ensures segments[k] == before.segments[k].(flags := flags)
      ensures |trimmed| == old(|trimmed|)
    {
      assert SegmentOk(before.ground, before.segments[k]);
      hide Coherent, View, Full, Clean;
      SetEntry(k, segments[k].data, flags);
      ClearTrimmed(segments[k].offset);
      ClearTrimmedKeepsPastEnd(before.ground, State().ground, before.segments[k]);
    }

    /** Hands entry k to `offset` with nothing in it yet; buffers are kept when there is one. */
    method InitSegment(k: nat, offset: nat)
      requires Valid() && k < |segments| && (segments[k].inUse ==> Clean(segments[k].flags))
      requires offset % SEGMENT_SIZE == 0 && offset / SEGMENT_SIZE < 8 * |trimmed|
      requires Find(segments, offset) == -1
      modifies `segments, `timestamp
      ensures Valid() && SameView(old(State()), State()) && OnlyEntry(old(State()), State(), k)
      ensures timestamp == old(timestamp) + 1
      ensures segments[k] == Segment(true, segments[k].data, offset, old(timestamp), true, NoneValid())
    {
      ghost var before := State();
      var data := if |segments[k].data| == SEGMENT_SIZE then segments[k].data else Zeros(SEGMENT_SIZE);
      StampsAdvanced(segments, k, Segment(true, data, offset, timestamp, true, NoneValid()), timestamp);
      segments := segments[k := Segment(true, data, offset, timestamp, true, NoneValid())];
      timestamp := timestamp + 1;
      ClaimKeepsView(before, State(), k);
    }

    /** A cache hit counts as an access. */
    method Touch(k: nat)
      requires Valid() && k < |segments| && segments[k].inUse
      modifies `segments, `timestamp
      ensures Valid() && SameView(old(State()), State()) && OnlyEntry(old(State()), State(), k)
      ensures timestamp == old(timestamp) + 1
      ensures segments[k] == old(segments)[k].(lastAccess := old(timestamp))
    {
      ghost var before := State();
      StampsAdvanced(segments, k, segments[k].(lastAccess := timestamp), timestamp);
      segments := segments[k := segments[k].(lastAccess := timestamp)];
      timestamp := timestamp + 1;
      SameContentsKeepsView(before, State(), k);
    }

    /** The least recently used entry, or an unused one when there is any. */
    method FindVictim() returns (k: nat)
      requires |segments| > 0
      ensures k < |segments|
      ensures segments[k].inUse ==> forall m :: 0 <= m < |segments| ==> segments[m].inUse && segments[k].lastAccess <= segments[m].lastAccess
    {
      k := 0;
      if !segments[0].inUse {
        return;
      }
      var i := 1;
      while i < |segments|
        invariant 1 <= i <= |segments| && k < i
        invariant forall m :: 0 <= m < i ==> segments[m].inUse && segments[k].lastAccess <= segments[m].lastAccess
      {
        if !segments[i].inUse {
          return i;
        }
        if segments[i].lastAccess < segments[k].lastAccess {
          k := i;
        }
        i := i + 1;
      }
    }

    /** Finds the entry for a segment, or makes room for it, evicting the least recently used one. */
    method GetSegment(offset: nat) returns (ok: bool, k: nat)
      requires Valid() && offset % SEGMENT_SIZE == 0 && offset / SEGMENT_SIZE < 8 * |trimmed|
      modifies `disk, `segments, `timestamp, `trimmed, `faults, `endOffset, `writeBacks
      ensures ok <==> faults == old(faults)
      ensures faults >= old(faults)
      ensures Sound() && PastEndTrimmed(State().ground)
      ensures k < |segments| == old(|segments|) && OnlyEntry(old(State()), State(), k)
      ensures MediaLimit() == old(MediaLimit()) && |trimmed| == old(|trimmed|)
      ensures ok ==> Valid() && SameView(old(State()), State())
      ensures ok ==> segments[k].inUse && segments[k].offset == offset
      ensures ok ==> timestamp == old(timestamp) + 1 && segments[k].lastAccess == old(timestamp)
      ensures EvictedOldest(old(segments), old(writeBacks), writeBacks)
    {
      var i := 0;
      while i < |segments|
        invariant 0 <= i <= |segments|
        invariant forall m :: 0 <= m < i ==> !(segments[m].inUse && segments[m].offset == offset)
      {
        if segments[i].inUse && segments[i].offset == offset {
          Touch(i);
          return true, i;
        }
        i := i + 1;
      }
      assert Find(segments, offset) == -1;
      k := FindVictim();
      ghost var n;
      ok, n := FlushSegment(k);
      if ok {
        assert Find(segments, offset) == -1;
        InitSegment(k, offset);
      }
    }

    /** Marks the blocks first..last dirty. */
    static method MarkDirty(flags: seq<bv8>, first: nat, last: nat) returns (r: seq<bv8>)
      requires |flags| == FLAG_BYTES && first <= last <= BLOCKS_PER_SEGMENT
      ensures |r| == FLAG_BYTES
      ensures forall b :: 0 <= b < BLOCKS_PER_SEGMENT ==> (IsDirty(r, b) <==> first <= b < last || IsDirty(flags, b))
      ensures forall b :: 0 <= b < BLOCKS_PER_SEGMENT ==> (IsValid(r, b) <==> first <= b < last || IsValid(flags, b))
    {
      r := flags;
      var i := first;
      while i < last
        invariant first <= i <= last && |r| == FLAG_BYTES
        invariant forall b :: 0 <= b < BLOCKS_PER_SEGMENT ==> (IsDirty(r, b) <==> first <= b < i || IsDirty(flags, b))
        invariant forall b :: 0 <= b < BLOCKS_PER_SEGMENT ==> (IsValid(r, b) <==> first <= b < i || IsValid(flags, b))
      {
        r := SetDirty(r, i);
        i := i + 1;
      }
    }

    /** Copies whole blocks into a segment; a segment streamed in full is written out at once. */
    method BlockSegmentPwrite(k: nat, buf: seq<byte>, at: nat, streamed: bool) returns (ok: bool)
      requires Valid() && k < |segments| && segments[k].inUse
      requires at + |buf| <= SEGMENT_SIZE && at % BLOCK_SIZE == 0 && |buf| % BLOCK_SIZE == 0
      requires Inside(MediaLimit(), segments[k].offset + at + |buf|)
      modifies `disk, `segments, `trimmed, `faults, `endOffset, `writeBacks
      ensures ok <==> faults == old(faults)
      ensures faults >= old(faults)
      ensures Sound() && PastEndTrimmed(State().ground) && |segments| == old(|segments|)
      ensures MediaLimit() == old(MediaLimit()) && |trimmed| == old(|trimmed|)
      ensures ok ==> Valid() && Overlaid(old(State()), State(), old(segments[k].offset) + at, buf)
      ensures ok ==> writeBacks == old(writeBacks) + (if streamed && old(CompletesSegment(segments[k], at, |buf|)) then [old(segments[k].offset)] else [])
      ensures ok ==> SameStamps(old(segments), segments)
    {
      StoreBlocks(k, buf, at);
      var complete := IsSegmentCompletelyDirty(segments[k].flags);
      if streamed && segments[k].streamed && complete {
        ok := WriteStreamed(k);
      } else {
        if !streamed {
          StopStreaming(k);
        }
        ok := true;
      }
    }

    method StoreBlocks(k: nat, buf: seq<byte>, at: nat)
      requires Valid() && k < |segments| && segments[k].inUse
      requires at + |buf| <= SEGMENT_SIZE && at % BLOCK_SIZE == 0 && |buf| % BLOCK_SIZE == 0
      requires Inside(MediaLimit(), segments[k].offset + at + |buf|)
      modifies `segments
      ensures SameStamps(old(segments), segments)
      ensures Valid() && |segments| == old(|segments|) && Overlaid(old(State()), State(), old(segments[k].offset) + at, buf)
      ensures segments[k] == old(segments[k]).(data := segments[k].data, flags := segments[k].flags)
      ensures forall b :: 0 <= b < BLOCKS_PER_SEGMENT ==>
                (IsDirty(segments[k].flags, b) <==> at / BLOCK_SIZE <= b < (at + |buf|) / BLOCK_SIZE || old(IsDirty(segments[k].flags, b)))
    {
      ghost var before := State();
      var data := Splice(segments[k].data, at, buf);
      var flags := MarkDirty(segments[k].flags, at / BLOCK_SIZE, (at + |buf|) / BLOCK_SIZE);
      StoreUpdatesView(before, WithEntry(before, k, data, flags), k, at, buf);
      SetEntry(k, data, flags);
    }

    method StopStreaming(k: nat)
      requires Valid() && k < |segments| && segments[k].inUse
      modifies `segments
      ensures Valid() && |segments| == old(|segments|) && SameView(old(State()), State())
      ensures segments[k] == old(segments[k]).(streamed := false) && SameStamps(old(segments), segments)
    {
      ghost var before := State();
      StampsKept(segments, k, segments[k].(streamed := false), timestamp);
      segments := segments[k := segments[k].(streamed := false)];
      SameContentsKeepsView(before, State(), k);
    }

    /** Writes out a completely dirty segment; afterwards it is clean, valid and not trimmed. */
    method WriteStreamed(k: nat) returns (ok: bool)
      requires Valid() && k < |segments| && segments[k].inUse
      requires forall b :: 0 <= b < BLOCKS_PER_SEGMENT ==> IsDirty(segments[k].flags, b)
      modifies `disk, `segments, `trimmed, `faults, `endOffset, `writeBacks
      ensures ok <==> faults == old(faults)
      ensures faults >= old(faults)
      ensures Sound() && PastEndTrimmed(State().ground) && |segments| == old(|segments|)
      ensures MediaLimit() == old(MediaLimit()) && |trimmed| == old(|trimmed|)
      ensures ok ==> Valid() && SameView(old(State()), State())
      ensures ok ==> writeBacks == old(writeBacks) + [old(segments[k].offset)]
      ensures ok ==> SameStamps(old(segments), segments)
    {
      ghost var before := State();
      assert SegmentOk(before.ground, segments[k]);
      assert IsDirty(segments[k].flags, 0);
      DirtyStartsInside(MediaLimit(), segments[k]);
      ghost var n;
      ok, n := VerifiedSegmentWrite(k);
      if ok {
        MarkWritten(k, AllValid(), before);
      }
    }

    method PwritePiece(offset: nat, piece: seq<byte>, streamed: bool) returns (ok: bool)
      requires Valid() && offset % BLOCK_SIZE == 0 && |piece| % BLOCK_SIZE == 0
      requires offset + |piece| <= SegmentBase(offset) + SEGMENT_SIZE
      requires offset / SEGMENT_SIZE < 8 * |trimmed| && Inside(MediaLimit(), offset + |piece|)
      modifies `disk, `segments, `timestamp, `trimmed, `faults, `endOffset, `writeBacks
      ensures ok <==> faults == old(faults)
      ensures faults >= old(faults)
      ensures Sound() && PastEndTrimmed(State().ground)
      ensures MediaLimit() == old(MediaLimit()) && |trimmed| == old(|trimmed|)
      ensures ok ==> Valid() && Overlaid(old(State()), State(), offset, piece)
      ensures ok ==> timestamp == old(timestamp) + 1 && TouchedOne(old(segments), segments, SegmentBase(offset), old(timestamp))
    {
      hide Coherent, View, Stamped, Overlaid, SegmentBase, Accessed, TouchedOne, SameStamps;
      BaseOnBoundary(offset);
      BaseInSegment(offset);
      ghost var before := State();
      var first := SegmentBase(offset);
      var k;
      ok, k := GetSegment(first);
      if ok {
        ghost var claimed := State();
        ok := BlockSegmentPwrite(k, piece, offset - first, streamed);
        if ok {
          GotTouched(before.segments, claimed.segments, segments, k, first, old(timestamp));
          OverlaidAfter(before, claimed, State(), offset, piece);
        }
      }
    }

    /** The next piece of a write: since then the segments from lo up to its own have been accessed. */
    method PwriteNext(offset: nat, piece: seq<byte>, streamed: bool, ghost was: seq<Segment>, ghost lo: nat, ghost since: nat) returns (ok: bool)
      requires Valid() && offset % BLOCK_SIZE == 0 && |piece| % BLOCK_SIZE == 0
      requires SegmentBase(offset) < offset + |piece| <= SegmentBase(offset) + SEGMENT_SIZE
      requires offset / SEGMENT_SIZE < 8 * |trimmed| && Inside(MediaLimit(), offset + |piece|)
      requires lo <= SegmentBase(offset) && since <= timestamp && Accessed(was, segments, since, lo, SegmentBase(offset))
      modifies `disk, `segments, `timestamp, `trimmed, `faults, `endOffset, `writeBacks
      ensures ok <==> faults == old(faults)
      ensures faults >= old(faults)
      ensures Sound() && PastEndTrimmed(State().ground)
      ensures MediaLimit() == old(MediaLimit()) && |trimmed| == old(|trimmed|)
      ensures ok ==> Valid() && Overlaid(old(State()), State(), offset, piece)
      ensures ok ==> since <= timestamp && Accessed(was, segments, since, lo, offset + |piece|)
    {
      BaseOnBoundary(offset);
      BaseInSegment(offset);
      ghost var before := State();
      hide Coherent, View, Stamped, Overlaid, SegmentBase, Accessed, TouchedOne, SameStamps;
      ghost var base := SegmentBase(offset);
      ok := PwritePiece(offset, piece, streamed);
      if ok {
        AccessedMore(was, before, State(), since, old(timestamp), lo, base, offset + |piece|);
      }
    }

    /** Writes whole blocks anywhere inside the media: exactly those bytes of the view change. */
    method Pwrite(buf: seq<byte>, offset: nat, streamed: bool) returns (ok: bool)
      requires Valid() && offset % BLOCK_SIZE == 0 && |buf| % BLOCK_SIZE == 0
      requires offset + |buf| <= trimmedEndOffset && Inside(MediaLimit(), offset + |buf|)
      modifies `disk, `segments, `timestamp, `trimmed, `faults, `endOffset, `writeBacks
      ensures ok <==> faults == old(faults)
      ensures faults >= old(faults)
      ensures Sound() && PastEndTrimmed(State().ground)
      ensures MediaLimit() == old(MediaLimit()) && |trimmed| == old(|trimmed|)
      ensures ok ==> Valid() && Overlaid(old(State()), State(), offset, buf)
      ensures ok ==> Accessed(old(segments), segments, old(timestamp), SegmentBase(offset), offset + |buf|)
    {
      hide Coherent, View, Stamped, Overlaid, SegmentBase, Accessed, Piece, WellFormed, IsPiece;
      ghost var before, since, lo, tracked := State(), timestamp, SegmentBase(offset), 8 * |trimmed|;
      BaseOnBoundary(offset);
      NothingAccessed(before, since, lo);
      OverlaidNone(before, offset, buf);
      var done := 0;
      if SegmentBase(offset) != offset {
        HeadPiece(offset, |buf|, tracked);
        var count := Piece(offset, |buf|);
        ok := PwriteStep(buf, offset, done, count, streamed, before, since);
        if !ok {
          return;
        }
        done := count;
      }
      while done < |buf|
        invariant IsRest(offset, |buf|, done)
        invariant faults == old(faults)
        invariant MediaLimit() == old(MediaLimit()) && 8 * |trimmed| == tracked
        invariant Valid() && Overlaid(before, State(), offset, buf[..done])
        invariant since <= timestamp && Accessed(before.segments, segments, since, lo, offset + done)
        decreases |buf| - done
      {
        var count := if |buf| - done <= SEGMENT_SIZE then |buf| - done else SEGMENT_SIZE;
        RestPiece(offset, |buf|, done, tracked);
        ok := PwriteStep(buf, offset, done, count, streamed, before, since);
        if !ok {
          return;
        }
        done := done + count;
      }
      assert buf[..done] == buf;
      ok := true;
    }

    /** The chunk of a write that goes into the next segment. */
    method PwriteStep(buf: seq<byte>, offset: nat, done: nat, count: nat, streamed: bool, ghost before: Cache, ghost since: nat) returns (ok: bool)
      requires Valid() && WellFormed(before) && IsPiece(offset, |buf|, done, count, 8 * |trimmed|) && Inside(MediaLimit(), offset + |buf|)
      requires Overlaid(before, State(), offset, buf[..done]) && since <= timestamp
      requires Accessed(before.segments, segments, since, SegmentBase(offset), SegmentBase(offset + done))
      modifies `disk, `segments, `timestamp, `trimmed, `faults, `endOffset, `writeBacks
      ensures ok <==> faults == old(faults)
      ensures faults >= old(faults)
      ensures Sound() && PastEndTrimmed(State().ground)
      ensures MediaLimit() == old(MediaLimit()) && |trimmed| == old(|trimmed|)
      ensures ok ==> Valid() && Overlaid(before, State(), offset, buf[..done + count])
      ensures ok ==> since <= timestamp && Accessed(before.segments, segments, since, SegmentBase(offset), offset + (done + count))
    {
      ghost var here := State();
      hide Coherent, View, Stamped, Overlaid, SegmentBase, Accessed;
      ok := PwriteNext(offset + done, buf[done..done + count], streamed, before.segments, SegmentBase(offset), since);
      if ok {
        OverlaidMore(before, here, State(), offset, buf, done, count);
      }
    }

    method PreadPiece(offset: nat, count: nat) returns (ok: bool, data: seq<byte>)
      requires Valid() && offset + count <= SegmentBase(offset) + SEGMENT_SIZE
      requires offset / SEGMENT_SIZE < 8 * |trimmed|
      modifies `disk, `segments, `timestamp, `trimmed, `faults, `endOffset, `writeBacks
      ensures ok <==> faults == old(faults)
      ensures faults >= old(faults)
      ensures Sound() && PastEndTrimmed(State().ground)
      ensures MediaLimit() == old(MediaLimit()) && |trimmed| == old(|trimmed|)
      ensures ok ==> Valid() && SameView(old(State()), State())
      ensures ok ==> Shows(State(), offset, data) && |data| == count
      ensures ok ==> timestamp == old(timestamp) + 1 && TouchedOne(old(segments), segments, SegmentBase(offset), old(timestamp))
    {
      hide TouchedOne, SameStamps;
      var first := SegmentBase(offset);
      var k;
      data := [];
      ghost var before := segments;
      ok, k := GetSegment(first);
      if ok {
        ghost var claimed := State();
        ok := MakeSegmentValid(k);
        if ok {
          FilledStamps(claimed, State(), k);
          GotTouched(before, claimed.segments, segments, k, first, old(timestamp));
          data := segments[k].data[offset - first..offset - first + count];
          FullEntryShows(State(), k, offset - first, offset, data);
        }
      }
    }

    /** The next piece of a read: since then the segments from lo up to its own have been accessed. */
    method PreadNext(offset: nat, count: nat, ghost was: seq<Segment>, ghost lo: nat, ghost since: nat) returns (ok: bool, data: seq<byte>)
      requires Valid() && SegmentBase(offset) < offset + count <= SegmentBase(offset) + SEGMENT_SIZE
      requires offset / SEGMENT_SIZE < 8 * |trimmed|
      requires lo <= SegmentBase(offset) && since <= timestamp && Accessed(was, segments, since, lo, SegmentBase(offset))
      modifies `disk, `segments, `timestamp, `trimmed, `faults, `endOffset, `writeBacks
      ensures ok <==> faults == old(faults)
      ensures faults >= old(faults)
      ensures Sound() && PastEndTrimmed(State().ground)
      ensures MediaLimit() == old(MediaLimit()) && |trimmed| == old(|trimmed|)
      ensures ok ==> Valid() && SameView(old(State()), State())
      ensures ok ==> Shows(State(), offset, data) && |data| == count
      ensures ok ==> since <= timestamp && Accessed(was, segments, since, lo, offset + count)
    {
      BaseOnBoundary(offset);
      BaseInSegment(offset);
      ghost var before := State();
      hide Coherent, View, Stamped, Shows, SegmentBase, Accessed, TouchedOne;
      ghost var base := SegmentBase(offset);
      ok, data := PreadPiece(offset, count);
      if ok {
        AccessedMore(was, before, State(), since, old(timestamp), lo, base, offset + count);
      }
    }

    /** Reads any range: the bytes are those of the view, which reading leaves alone. */
    method Pread(count: nat, offset: nat) returns (ok: bool, data: seq<byte>)
      requires Valid() && offset + count <= trimmedEndOffset
      modifies `disk, `segments, `timestamp, `trimmed, `faults, `endOffset, `writeBacks
      ensures ok <==> faults == old(faults)
      ensures faults >= old(faults)
      ensures Sound() && PastEndTrimmed(State().ground)
      ensures MediaLimit() == old(MediaLimit()) && |trimmed| == old(|trimmed|)
      ensures ok ==> Valid() && SameView(old(State()), State())
      ensures ok ==> Shows(old(State()), offset, data) && |data| == count
      ensures ok ==> Accessed(old(segments), segments, old(timestamp), SegmentBase(offset), offset + count)
    {
      hide Coherent, View, Stamped, SegmentBase, WellFormed, Accessed;
      BaseOnBoundary(offset);
      PieceFits(offset, count);
      ghost var before, since, lo := State(), timestamp, SegmentBase(offset);
      NothingAccessed(before, since, lo);
      data := [];
      var first := SegmentBase(offset);
      if first != offset {
        var piece := if count <= SEGMENT_SIZE - (offset - first) then count else SEGMENT_SIZE - (offset - first);
        ok, data := PreadNext(offset, piece, before.segments, lo, since);
        if !ok {
          return;
        }
      }
      while |data| < count
        invariant |data| <= count
        invariant |data| < count ==> (offset + |data|) % SEGMENT_SIZE == 0
        invariant faults == old(faults)
        invariant MediaLimit() == old(MediaLimit()) && |trimmed| == old(|trimmed|)
        invariant Valid() && SameView(before, State()) && Shows(before, offset, data)
        invariant since <= timestamp && Accessed(before.segments, segments, since, lo, offset + |data|)
      {
        BoundaryPiece(offset + |data|, offset + count, 8 * |trimmed|);
        BaseOnBoundary(offset + |data|);
        var piece := if count - |data| <= SEGMENT_SIZE then count - |data| else SEGMENT_SIZE;
        var got;
        ghost var here := State();
        ok, got := PreadNext(offset + |data|, piece, before.segments, lo, since);
        if !ok {
          return;
        }
        ShowsTwice(before, State(), offset, data, got);
        data := data + got;
      }
      ok := true;
    }

    /** Writes every dirty segment back in the order qsort gave, stopping at the first failure. */
    method Flush(order: seq<nat>) returns (ok: bool, ghost reached: nat, ghost n: nat)
      requires Valid() && IsFlushOrder(segments, order)
      modifies `disk, `segments, `trimmed, `faults, `endOffset, `writeBacks
      ensures ok <==> faults == old(faults)
      ensures faults >= old(faults)
      ensures Sound() && PastEndTrimmed(State().ground)
      ensures MediaLimit() == old(MediaLimit()) && |trimmed| == old(|trimmed|)
      ensures ok ==> Valid() && SameView(old(State()), State()) && OnDisk(State())
      ensures reached <= |order| && (ok <==> reached == |order|)
      ensures writeBacks == old(writeBacks) + FlushLog(old(segments), order, reached)
      ensures n > 0 ==> !ok && Dirty(old(segments)[order[reached]])
      ensures honest ==> CutAt(old(State()), disk, FlushLog(old(segments), order, reached), if ok then 0 else old(segments)[order[reached]].offset, n)
    {
      hide Coherent, FlushedTo, OnDisk, View, FlushLog, Stamped, DirtyAlong;
      ghost var first := State();
      var i := 0;
      reached := 0;
      n := 0;
      NothingFlushed(segments, order);
      NothingCut(first);
      while i < |segments|
        invariant i == reached <= |order| && |segments| == |first.segments| && FlushedTo(first.segments, segments, order, i)
        invariant faults == old(faults)
        invariant MediaLimit() == old(MediaLimit()) && |trimmed| == old(|trimmed|)
        invariant Valid() && SameView(first, State())
        invariant writeBacks == old(writeBacks) + FlushLog(first.segments, order, i)
        invariant honest ==> CutAt(first, disk, FlushLog(first.segments, order, i), 0, 0)
      {
        ghost var here := State();
        LogStep(first.segments, order, i);
        NotYetFlushed(first.segments, segments, order, i);
        ok, n := FlushSegment(order[i]);
        if honest {
          CutFurther(first, here, disk, FlushLog(first.segments, order, i), segments[order[i]].offset, n);
        }
        if !ok {
          return;
        }
        n := 0;
        FlushedOneMore(first.segments, here.segments, segments, order, i);
        i, reached := i + 1, i + 1;
      }
      FlushedViewIsDisk(first.segments, State(), order);
      ok := true;
    }

    /** Returns the cached segments that start inside from..to, whatever they hold. */
    method DropBetween(from: nat, to: nat)
      requires Sound()
      modifies `segments
      ensures Sound() && |segments| == old(|segments|)
      ensures forall k :: 0 <= k < |segments| ==> segments[k] == DroppedIf(old(segments)[k], from, to)
    {
      var i := 0;
      while i < |segments|
        invariant 0 <= i <= |segments| == old(|segments|)
        invariant forall k :: 0 <= k < i ==> segments[k] == DroppedIf(old(segments)[k], from, to)
        invariant forall k :: i <= k < |segments| ==> segments[k] == old(segments)[k]
      {
        if segments[i].inUse && segments[i].offset >= from && segments[i].offset < to {
          segments := segments[i := segments[i].(inUse := false)];
        }
        i := i + 1;
      }
    }

    /** Makes the whole segments inside a byte range read as zeros; their edges are left alone. */
    method Trim(offset: nat, count: int)
      requires Sound() && Coherent(State())
      modifies `segments, `trimmed
      ensures Sound() && Coherent(State()) && |segments| == old(|segments|)
      ensures State().ground == old(State()).ground.(trimmed := trimmed)
      ensures TrimmedWhole(old(State()), State(), offset, count)
    {
      hide Coherent, View, Stamped, TrimmedWhole, Bit, WholeSegmentIn;
      ghost var before := State();
      var alignedOffset := (offset + SEGMENT_SIZE - 1) / SEGMENT_SIZE * SEGMENT_SIZE;
      var alignedCount := count - (alignedOffset - offset);
      alignedCount := alignedCount - alignedCount % SEGMENT_SIZE;
      if alignedCount > 0 && offset < trimmedEndOffset {
        var adjustedCount := if offset + alignedCount <= trimmedEndOffset then alignedCount else trimmedEndOffset - offset;
        var begin := alignedOffset / SEGMENT_SIZE;
        var end := begin + adjustedCount / SEGMENT_SIZE;
        TrimRange(offset, count, 8 * |trimmed|);
        if end / 8 > |trimmed| {
          // The bit vector covers everything below trimmedEndOffset, so it never has to grow.
          assert false;
        }
        trimmed := SetRange(trimmed, begin, end);
        DropBetween(alignedOffset, alignedOffset + alignedCount);
        TrimOutcome(before, State(), offset, count);
      } else {
        NothingTrimmed(before, offset, count);
      }
    }

    /** Returns the cached segments that start at or after `from`, whatever they hold. */
    method DropFrom(from: nat)
      requires Sound()
      modifies `segments
      ensures Sound() && |segments| == old(|segments|)
      ensures forall k :: 0 <= k < |segments| ==> segments[k] == DroppedFrom(old(segments)[k], from)
    {
      var i := 0;
      while i < |segments|
        invariant 0 <= i <= |segments| == old(|segments|)
        invariant forall k :: 0 <= k < i ==> segments[k] == DroppedFrom(old(segments)[k], from)
        invariant forall k :: i <= k < |segments| ==> segments[k] == old(segments)[k]
      {
        if segments[i].inUse && segments[i].offset >= from {
          segments := segments[i := segments[i].(inUse := false)];
        }
        i := i + 1;
      }
    }

    /** Trims everything from `offset` on, tracked by the bit vector or not. */
    method TrimAfter(offset: nat)
      requires Sound() && Coherent(State())
      modifies `segments, `trimmed, `trimmedRemainder
      ensures Sound() && Coherent(State()) && |trimmed| == old(|trimmed|) && |segments| == old(|segments|)
      ensures offset > trimmedEndOffset ==> State() == old(State())
      ensures offset <= trimmedEndOffset ==> TrimmedFrom(old(State()), State(), AlignUp(offset))
    {
      if offset > trimmedEndOffset {
        return;
      }
      ghost var before := State();
      trimmedRemainder := true;
      DropFrom(offset);
      ghost var dropped := State();
      DropKeepsCoherent(before, dropped, offset);
      Trim(offset, trimmedEndOffset - offset);
      TrimAfterOutcome(before, dropped, State(), offset);
    }

    /** Throws the cached segments away after an error; the cache can then be used again. */
    method Reset()
      requires Sound() && PastEndTrimmed(State().ground)
      modifies `segments
      ensures Valid() && State().ground == old(State()).ground
      ensures forall i: nat :: View(State(), i) == Back(State().ground, i)
    {
      var i := 0;
      while i < |segments|
        invariant 0 <= i <= |segments| == old(|segments|)
        invariant forall k :: 0 <= k < i ==> !segments[k].inUse
        invariant Sound()
      {
        if segments[i].inUse {
          StampsKept(segments, i, segments[i].(inUse := false), timestamp);
          segments := segments[i := segments[i].(inUse := false)];
        }
        i := i + 1;
      }
    }

    /** Marks everything past a hard end of media as trimmed, where it reads as zeros already. */
    method TrimPastEnd()
      requires Sound() && Coherent(State()) && MediaLimit().Hard?
      requires forall i: nat :: i >= endOffset ==> View(State(), i) == 0
      modifies `segments, `trimmed, `trimmedRemainder
      ensures Valid() && SameView(old(State()), State()) && |segments| == old(|segments|)
    {
      var alignedEndOffset := (endOffset + SEGMENT_SIZE - 1) / SEGMENT_SIZE * SEGMENT_SIZE;
      TrimAfter(alignedEndOffset);
      forall n | 0 <= n < 8 * |trimmed| && n * SEGMENT_SIZE > endOffset
        ensures Bit(trimmed, n)
      {
        assert n * SEGMENT_SIZE >= AlignUp(alignedEndOffset) && Trimmed(State().ground, n);
      }
    }

    constructor (disk: seq<byte>, endOffset: nat, isSoftEndOffset: bool, verifyWrites: bool, minimizeWrites: bool, cacheSizeMb: nat,
                 honest: bool)
      requires honest || verifyWrites
      ensures Valid() && this.disk == disk
      ensures trimmedEndOffset == 8 * TRIM_TRACKING_BYTES * SEGMENT_SIZE
      ensures MediaLimit() == if endOffset > 0 && !isSoftEndOffset then Hard(endOffset) else Unlimited
      ensures |segments| >= 8 && (cacheSizeMb > 0 ==> |segments| == 8 * cacheSizeMb)
      ensures forall i: nat :: View(State(), i) == if Inside(MediaLimit(), i + 1) then DiskAt(disk, i) else 0
    {
      var sizeMb := if cacheSizeMb == 0 then 8 else cacheSizeMb;
      var count := sizeMb * 1024 * 1024 / SEGMENT_SIZE;
      if count < 8 {
        count := 8;
      }
      this.disk := disk;
      this.segments := seq(count, _ => Segment(false, [], 0, 0, false, []));
      this.honest := honest;
      this.verifyWrites := verifyWrites;
      this.minimizeWrites := minimizeWrites;
      this.timestamp := 0;
      this.trimmedRemainder := false;
      this.trimmedEndOffset := TRIM_TRACKING_BYTES * 8 * SEGMENT_SIZE;
      this.trimmed := Zeros(TRIM_TRACKING_BYTES);
      this.endOffset := endOffset;
      this.isSoftEndOffset := isSoftEndOffset;
      this.faults := 0;
      this.writeBacks := [];
      new;
      assert forall n :: 0 <= n < 8 * TRIM_TRACKING_BYTES ==> !Bit(this.trimmed, n);
      assert forall i: nat :: Find(segments, SegmentBase(i)) == -1;
      if !isSoftEndOffset && endOffset > 0 {
        TrimPastEnd();
      }
    }
  }
}
