/**
 * The disk at every point where a flush can be cut: the bytes that differ reach it in one order, by the last access of
 * their segment and then by their offset.
 */
module FlushCuts {
  import opened Bytes
  import opened CacheModel
  import opened FlushOrder

  /** Every byte of a range that is not on the disk as a reader sees it lies in a dirty segment, inside the media. */
  ghost predicate Settled(c: Cache, at: nat, size: nat)
    requires WellFormed(c)
  {
    forall i: nat :: at <= i < at + size ==> SettledByte(c, i)
  }

  ghost predicate SettledByte(c: Cache, i: nat)
    requires WellFormed(c)
  {
    Inside(c.ground.limit, i + 1) && (View(c, i) == DiskAt(c.ground.disk, i) || HasDirty(c, SegmentBase(i)))
  }

  ghost predicate HasDirty(c: Cache, offset: nat) {
    exists k :: 0 <= k < |c.segments| && Dirty(c.segments[k]) && c.segments[k].offset == offset
  }

  lemma UntrimmedSettled(c: Cache, at: nat, size: nat)
    requires WellFormed(c) && Coherent(c) && Inside(c.ground.limit, at + size)
    requires forall i: nat :: at <= i < at + size ==> !Trimmed(c.ground, i / SEGMENT_SIZE)
    ensures Settled(c, at, size)
  {
    hide HasDirty, View;
    forall i: nat | at <= i < at + size
      ensures SettledByte(c, i)
    {
      if !HasDirty(c, SegmentBase(i)) {
        NotDirtySettled(c, i);
      }
    }
  }

  lemma NotDirtySettled(c: Cache, i: nat)
    requires Coherent(c) && Inside(c.ground.limit, i + 1) && !Trimmed(c.ground, i / SEGMENT_SIZE) && !HasDirty(c, SegmentBase(i))
    ensures View(c, i) == DiskAt(c.ground.disk, i)
  {
    var k := Find(c.segments, SegmentBase(i));
    if k >= 0 {
      ViewInSegment(c, k, i);
      assert SegmentOk(c.ground, c.segments[k]) && !Dirty(c.segments[k]);
    }
  }

  ghost predicate OnDiskAsSeen(c: Cache, disk: seq<byte>, at: nat, size: nat)
    requires WellFormed(c)
  {
    forall i: nat :: at <= i < at + size ==> DiskAt(disk, i) == View(c, i)
  }

  ghost predicate OnDiskAsBefore(c: Cache, disk: seq<byte>, at: nat, size: nat) {
    forall i: nat :: at <= i < at + size ==> DiskAt(disk, i) == DiskAt(c.ground.disk, i)
  }

  /** Where and how far a flush was cut. */
  ghost predicate CutFlush(c: Cache, disk: seq<byte>, order: seq<nat>, reached: nat, n: nat)
    requires WellFormed(c)
  {
    && IsFlushOrder(c.segments, order) && reached <= |order| && (n > 0 ==> reached < |order| && Dirty(c.segments[order[reached]]))
    && CutAt(c, disk, FlushLog(c.segments, order, reached), if reached < |order| then c.segments[order[reached]].offset else 0, n)
  }

  lemma LogHolds(segments: seq<Segment>, order: seq<nat>, reached: nat, k: nat)
    requires IsFlushOrder(segments, order) && reached <= |order| && k in DirtyAlong(segments, order[..reached])
    ensures k < |segments| && segments[k].offset in FlushLog(segments, order, reached)
  {
    hide DirtyAlong;
    var ks := DirtyAlong(segments, order[..reached]);
    var a :| 0 <= a < |ks| && ks[a] == k;
    assert Offsets(segments, ks)[a] == segments[k].offset;
  }

  lemma LogFrom(segments: seq<Segment>, order: seq<nat>, reached: nat, offset: nat) returns (k: nat)
    requires IsFlushOrder(segments, order) && reached <= |order| && offset in FlushLog(segments, order, reached)
    ensures k < |segments| && Dirty(segments[k]) && segments[k].offset == offset && k in DirtyAlong(segments, order[..reached])
  {
    hide DirtyAlong;
    var ks := DirtyAlong(segments, order[..reached]);
    var a :| 0 <= a < |ks| && Offsets(segments, ks)[a] == offset;
    k := ks[a];
    assert k in ks;
  }

  lemma DirtyStep(segments: seq<Segment>, order: seq<nat>, i: nat)
    requires IsFlushOrder(segments, order) && i < |order|
    ensures DirtyAlong(segments, order[..i + 1]) == DirtyAlong(segments, order[..i]) + if Dirty(segments[order[i]]) then [order[i]] else []
  {
    assert order[..i + 1][..i] == order[..i];
  }

  lemma OlderIsDone(segments: seq<Segment>, order: seq<nat>, reached: nat, older: nat, newer: nat)
    requires IsFlushOrder(segments, order) && reached <= |order| && older < |segments| && newer < |segments|
    requires Dirty(segments[older]) && Dirty(segments[newer]) && segments[older].lastAccess < segments[newer].lastAccess
    requires newer in DirtyAlong(segments, order[..reached]) || (reached < |order| && newer == order[reached])
    ensures older in DirtyAlong(segments, order[..reached])
  {
    hide DirtyAlong, Dirty;
    if newer in DirtyAlong(segments, order[..reached]) {
      FlushPrefixDownwardClosed(segments, order, reached, older, newer);
    } else {
      DirtyStep(segments, order, reached);
      hide IsFlushOrder;
      assert newer in DirtyAlong(segments, order[..reached + 1]);
      FlushPrefixDownwardClosed(segments, order, reached + 1, older, newer);
    }
  }

  lemma WrittenSegment(c: Cache, disk: seq<byte>, order: seq<nat>, reached: nat, n: nat, i: nat) returns (k: nat)
    requires WellFormed(c) && CutFlush(c, disk, order, reached, n) && DiskAt(disk, i) != DiskAt(c.ground.disk, i)
    ensures k < |c.segments| && Dirty(c.segments[k]) && c.segments[k].offset == SegmentBase(i)
    ensures k in DirtyAlong(c.segments, order[..reached]) || (reached < |order| && k == order[reached])
  {
    hide DirtyAlong, View, WellFormed, FlushLog;
    if SegmentBase(i) in FlushLog(c.segments, order, reached) {
      k := LogFrom(c.segments, order, reached, SegmentBase(i));
    } else {
      k := order[reached];
    }
  }

  ghost predicate Differs(c: Cache, i: nat)
    requires WellFormed(c)
  {
    View(c, i) != DiskAt(c.ground.disk, i)
  }

  /** Byte i is written before byte j. */
  ghost predicate Ahead(c: Cache, i: nat, j: nat) {
    var k, l := Find(c.segments, SegmentBase(i)), Find(c.segments, SegmentBase(j));
    k >= 0 && l >= 0 && if k == l then i < j else c.segments[k].lastAccess < c.segments[l].lastAccess
  }

  /** Everything that differs in the first range is written before anything that differs in the second one. */
  ghost predicate RangeFirst(c: Cache, at: nat, later: nat, size: nat)
    requires WellFormed(c)
  {
    forall i: nat, j: nat :: at <= i < at + size && later <= j < later + size && Differs(c, i) && Differs(c, j) ==> Ahead(c, i, j)
  }

  lemma DirtyFound(c: Cache, k: nat)
    requires WellFormed(c) && k < |c.segments| && Dirty(c.segments[k])
    ensures Find(c.segments, c.segments[k].offset) == k
  {
  }

  /** A byte ahead of one that was written was written. */
  lemma AheadWritten(c: Cache, disk: seq<byte>, order: seq<nat>, reached: nat, n: nat, i: nat, j: nat)
    requires WellFormed(c) && CutFlush(c, disk, order, reached, n) && SettledByte(c, i) && Differs(c, i)
    requires DiskAt(disk, j) != DiskAt(c.ground.disk, j) && Ahead(c, i, j)
    ensures DiskAt(disk, i) == View(c, i)
  {
    hide DirtyAlong, View, WellFormed, FlushLog;
    var k :| 0 <= k < |c.segments| && Dirty(c.segments[k]) && c.segments[k].offset == SegmentBase(i);
    var l := WrittenSegment(c, disk, order, reached, n, j);
    DirtyFound(c, k);
    DirtyFound(c, l);
    if k == l {
      if k in DirtyAlong(c.segments, order[..reached]) {
        LogHolds(c.segments, order, reached, k);
      }
    } else {
      OlderIsDone(c.segments, order, reached, k, l);
      LogHolds(c.segments, order, reached, k);
    }
  }

  /** Cut anywhere, the second range is on the disk as before or all of the first one is there. */
  lemma EarlierReachFirst(c: Cache, disk: seq<byte>, order: seq<nat>, reached: nat, n: nat, at: nat, later: nat, size: nat)
    requires WellFormed(c) && CutFlush(c, disk, order, reached, n) && Settled(c, at, size) && RangeFirst(c, at, later, size)
    ensures OnDiskAsBefore(c, disk, later, size) || OnDiskAsSeen(c, disk, at, size)
  {
    hide View, WellFormed, CutFlush, Ahead, SettledByte;
    if !OnDiskAsBefore(c, disk, later, size) {
      var j: nat :| later <= j < later + size && DiskAt(disk, j) != DiskAt(c.ground.disk, j);
      WrittenDiffers(c, disk, order, reached, n, j);
      forall i: nat | at <= i < at + size
        ensures DiskAt(disk, i) == View(c, i)
      {
        if Differs(c, i) {
          AheadWritten(c, disk, order, reached, n, i, j);
        } else {
          WrittenOrNot(c, disk, order, reached, n, i);
        }
      }
    }
  }

  lemma WrittenDiffers(c: Cache, disk: seq<byte>, order: seq<nat>, reached: nat, n: nat, j: nat)
    requires WellFormed(c) && CutFlush(c, disk, order, reached, n) && DiskAt(disk, j) != DiskAt(c.ground.disk, j)
    ensures Differs(c, j) && DiskAt(disk, j) == View(c, j)
  {
    hide View, WellFormed, FlushLog, IsFlushOrder;
  }

  lemma WrittenOrNot(c: Cache, disk: seq<byte>, order: seq<nat>, reached: nat, n: nat, i: nat)
    requires WellFormed(c) && CutFlush(c, disk, order, reached, n)
    ensures DiskAt(disk, i) == View(c, i) || DiskAt(disk, i) == DiskAt(c.ground.disk, i)
  {
    hide View, WellFormed, FlushLog, IsFlushOrder;
  }

  /** No segment reaches past this offset. */
  ghost function Extent(segments: seq<Segment>): (r: nat)
    ensures forall k :: 0 <= k < |segments| ==> segments[k].offset + SEGMENT_SIZE <= r
  {
    if segments == [] then 0
    else
      var last, rest := segments[|segments| - 1], Extent(segments[..|segments| - 1]);
      if last.offset + SEGMENT_SIZE > rest then last.offset + SEGMENT_SIZE else rest
  }

  ghost predicate WrittenAt(c: Cache, order: seq<nat>, reached: nat, n: nat, i: nat)
    requires IsFlushOrder(c.segments, order) && reached <= |order|
  {
    && Inside(c.ground.limit, i + 1)
    && (SegmentBase(i) in FlushLog(c.segments, order, reached)
        || (reached < |order| && SegmentBase(i) == c.segments[order[reached]].offset && i < c.segments[order[reached]].offset + n))
  }

  lemma WrittenInside(c: Cache, order: seq<nat>, reached: nat, n: nat, i: nat)
    requires WellFormed(c) && IsFlushOrder(c.segments, order) && reached <= |order| && WrittenAt(c, order, reached, n, i)
    ensures i < Extent(c.segments)
  {
    hide DirtyAlong, View, FlushLog;
    if SegmentBase(i) in FlushLog(c.segments, order, reached) {
      var k := LogFrom(c.segments, order, reached, SegmentBase(i));
    }
  }

  /** Every point where a flush can be cut leaves a disk. */
  lemma CutExists(c: Cache, order: seq<nat>, reached: nat, n: nat) returns (disk: seq<byte>)
    requires WellFormed(c) && IsFlushOrder(c.segments, order) && reached < |order| && Dirty(c.segments[order[reached]])
    ensures CutFlush(c, disk, order, reached, n)
    ensures forall i: nat :: DiskAt(disk, i) == if WrittenAt(c, order, reached, n, i) then View(c, i) else DiskAt(c.ground.disk, i)
  {
    hide View, WellFormed, FlushLog, IsFlushOrder, Extent;
    var most := if |c.ground.disk| < Extent(c.segments) then Extent(c.segments) else |c.ground.disk|;
    disk := seq(most, i requires 0 <= i < most => if WrittenAt(c, order, reached, n, i) then View(c, i) else DiskAt(c.ground.disk, i));
    forall i: nat
      ensures DiskAt(disk, i) == if WrittenAt(c, order, reached, n, i) then View(c, i) else DiskAt(c.ground.disk, i)
    {
      if WrittenAt(c, order, reached, n, i) {
        WrittenInside(c, order, reached, n, i);
      }
    }
  }

  /** Of the dirty segments a flush has done with those that are older than the next one. */
  lemma DoneIffOlder(segments: seq<Segment>, order: seq<nat>, reached: nat, k: nat)
    requires IsFlushOrder(segments, order) && reached < |order| && k < |segments| && Dirty(segments[k]) && Dirty(segments[order[reached]])
    ensures k in DirtyAlong(segments, order[..reached]) <==> segments[k].lastAccess < segments[order[reached]].lastAccess
  {
    hide DirtyAlong;
    if k in DirtyAlong(segments, order[..reached]) {
      var a :| 0 <= a < reached && order[a] == k;
      assert Before(segments[order[a]], segments[order[reached]]);
    }
    if segments[k].lastAccess < segments[order[reached]].lastAccess {
      OlderIsDone(segments, order, reached, k, order[reached]);
    }
  }

  lemma OffsetDone(c: Cache, order: seq<nat>, reached: nat, k: nat)
    requires WellFormed(c) && IsFlushOrder(c.segments, order) && reached <= |order| && k < |c.segments| && Dirty(c.segments[k])
    ensures c.segments[k].offset in FlushLog(c.segments, order, reached) <==> k in DirtyAlong(c.segments, order[..reached])
  {
    hide DirtyAlong, View, FlushLog;
    if c.segments[k].offset in FlushLog(c.segments, order, reached) {
      var l := LogFrom(c.segments, order, reached, c.segments[k].offset);
      DirtyFound(c, k);
      DirtyFound(c, l);
    }
    if k in DirtyAlong(c.segments, order[..reached]) {
      LogHolds(c.segments, order, reached, k);
    }
  }

  /** The cut right behind byte y has written y and, of what differs, what is ahead of it. */
  lemma CutRight(c: Cache, y: nat) returns (disk: seq<byte>, order: seq<nat>, reached: nat, n: nat)
    requires WellFormed(c) && DistinctStamps(c.segments) && Differs(c, y) && SettledByte(c, y)
    ensures CutFlush(c, disk, order, reached, n)
    ensures forall i: nat :: Differs(c, i) && SettledByte(c, i) ==> (DiskAt(disk, i) == View(c, i) <==> i == y || Ahead(c, i, y))
  {
    hide View, WellFormed, FlushLog, DirtyAlong, SortedEntries;
    FlushOrderExists(c.segments);
    order := SortedEntries(c.segments, |c.segments|);
    var k: nat :| k < |c.segments| && Dirty(c.segments[k]) && c.segments[k].offset == SegmentBase(y);
    assert k in order;
    reached :| 0 <= reached < |order| && order[reached] == k;
    n := y + 1 - c.segments[k].offset;
    hide IsFlushOrder;
    disk := CutExists(c, order, reached, n);
    forall i: nat | Differs(c, i) && SettledByte(c, i)
      ensures DiskAt(disk, i) == View(c, i) <==> i == y || Ahead(c, i, y)
    {
      WrittenIffAhead(c, order, reached, y, i);
    }
  }

  lemma WrittenIffAhead(c: Cache, order: seq<nat>, reached: nat, y: nat, i: nat)
    requires WellFormed(c) && IsFlushOrder(c.segments, order) && reached < |order|
    requires Dirty(c.segments[order[reached]]) && c.segments[order[reached]].offset == SegmentBase(y)
    requires SettledByte(c, i) && Differs(c, i)
    ensures WrittenAt(c, order, reached, y + 1 - SegmentBase(y), i) <==> i == y || Ahead(c, i, y)
  {
    hide View, FlushLog, DirtyAlong;
    var k := order[reached];
    var l: nat :| l < |c.segments| && Dirty(c.segments[l]) && c.segments[l].offset == SegmentBase(i);
    DirtyFound(c, k);
    DirtyFound(c, l);
    OffsetDone(c, order, reached, l);
    DoneIffOlder(c.segments, order, reached, l);
  }

  /** With stamps all different the bytes that differ are written in one order. */
  lemma AheadTotal(c: Cache, i: nat, j: nat)
    requires WellFormed(c) && DistinctStamps(c.segments) && Differs(c, i) && SettledByte(c, i) && Differs(c, j) && SettledByte(c, j)
    ensures i == j || Ahead(c, i, j) || Ahead(c, j, i)
    ensures !(Ahead(c, i, j) && Ahead(c, j, i))
  {
    hide View;
    var k: nat :| k < |c.segments| && Dirty(c.segments[k]) && c.segments[k].offset == SegmentBase(i);
    var l: nat :| l < |c.segments| && Dirty(c.segments[l]) && c.segments[l].offset == SegmentBase(j);
    DirtyFound(c, k);
    DirtyFound(c, l);
  }

  lemma AheadTransitive(c: Cache, i: nat, j: nat, k: nat)
    requires Ahead(c, i, j) && Ahead(c, j, k)
    ensures Ahead(c, i, k)
  {
  }
}
