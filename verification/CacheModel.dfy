/**
 * The state of the block cache as a value, what a reader of the cache sees through it, and
 * how each kind of state change (fill, write back, claim, store, trim) affects that view.
 */
module CacheModel {
  import opened Bytes
  import opened SegmentFlags
  import opened TrimBits

  datatype Segment = Segment(
    inUse: bool,
    data: seq<byte>,
    offset: nat,
    lastAccess: nat,
    streamed: bool,
    flags: seq<bv8>)

  /** A hard end of media bounds every transfer; a soft or unknown one does not. */
  datatype Limit = Unlimited | Hard(end: nat)

  /** Everything under the cached segments. */
  datatype Ground = Ground(trimmed: seq<bv8>, remainder: bool, disk: seq<byte>, limit: Limit)

  datatype Cache = Cache(segments: seq<Segment>, ground: Ground)

  function SegmentBase(i: nat): (r: nat)
    ensures r % SEGMENT_SIZE == 0 && r <= i < r + SEGMENT_SIZE
  {
    i - i % SEGMENT_SIZE
  }

  predicate Trimmed(u: Ground, n: nat) {
    if n < 8 * |u.trimmed| then Bit(u.trimmed, n) else u.remainder
  }

  /** What lies under the cache: zeros where trimmed or past a hard end, else the disk. */
  function Back(u: Ground, i: nat): byte {
    if Trimmed(u, i / SEGMENT_SIZE) then 0
    else if u.limit.Hard? && i >= u.limit.end then 0
    else DiskAt(u.disk, i)
  }

  ghost function Find(segments: seq<Segment>, offset: nat): (k: int)
    ensures -1 <= k < |segments|
    ensures k >= 0 ==> segments[k].inUse && segments[k].offset == offset
    ensures k < 0 ==> forall m :: 0 <= m < |segments| ==> !(segments[m].inUse && segments[m].offset == offset)
  {
    if exists m :: 0 <= m < |segments| && segments[m].inUse && segments[m].offset == offset then
      var m :| 0 <= m < |segments| && segments[m].inUse && segments[m].offset == offset; m
    else -1
  }

  predicate ShapeOk(g: Segment) {
    g.inUse ==> |g.data| == SEGMENT_SIZE && |g.flags| == FLAG_BYTES && g.offset % SEGMENT_SIZE == 0
  }

  /** Structural invariant: it survives even a failed transfer. */
  ghost predicate WellFormed(c: Cache) {
    && |c.segments| > 0
    && (forall k :: 0 <= k < |c.segments| ==> ShapeOk(c.segments[k]))
    && (forall k :: 0 <= k < |c.segments| && c.segments[k].inUse ==> c.segments[k].offset / SEGMENT_SIZE < 8 * |c.ground.trimmed|)
    && (forall k, m :: 0 <= k < m < |c.segments| && c.segments[k].inUse && c.segments[m].inUse ==> c.segments[k].offset != c.segments[m].offset)
  }

  /** The byte a reader sees: a valid cached block, else what lies under the cache. */
  ghost function View(c: Cache, i: nat): byte
    requires WellFormed(c)
  {
    var k := Find(c.segments, SegmentBase(i));
    if k >= 0 && IsValid(c.segments[k].flags, i % SEGMENT_SIZE / BLOCK_SIZE) then c.segments[k].data[i % SEGMENT_SIZE]
    else Back(c.ground, i)
  }

  ghost predicate Agrees(c: Cache, flat: Flat)
    requires WellFormed(c)
  {
    forall i: nat :: View(c, i) == flat(i)
  }

  predicate Inside(limit: Limit, end: nat) {
    limit.Hard? ==> end <= limit.end
  }

  predicate DirtyOk(limit: Limit, g: Segment)
    requires g.inUse && ShapeOk(g)
  {
    forall b :: 0 <= b < BLOCKS_PER_SEGMENT && IsDirty(g.flags, b) ==>
      IsValid(g.flags, b) && Inside(limit, g.offset + BLOCK_SIZE * (b + 1))
  }

  ghost predicate CleanOk(u: Ground, g: Segment)
    requires g.inUse && ShapeOk(g)
  {
    forall j :: 0 <= j < SEGMENT_SIZE && IsValid(g.flags, j / BLOCK_SIZE) && !IsDirty(g.flags, j / BLOCK_SIZE) ==>
      g.data[j] == Back(u, g.offset + j)
  }

  ghost predicate SegmentOk(u: Ground, g: Segment) {
    g.inUse ==> ShapeOk(g) && DirtyOk(u.limit, g) && CleanOk(u, g)
  }

  /** Whole segments past a hard end are trimmed, so no transfer ever starts past the end. */
  ghost predicate PastEndTrimmed(u: Ground) {
    u.limit.Hard? ==> forall n :: 0 <= n < 8 * |u.trimmed| && n * SEGMENT_SIZE > u.limit.end ==> Bit(u.trimmed, n)
  }

  /**
   * The working invariant: dirty blocks are valid and lie inside the media, and clean valid
   * blocks hold what lies under them.
   */
  ghost predicate Coherent(c: Cache) {
    && WellFormed(c)
    && (forall k :: 0 <= k < |c.segments| ==> SegmentOk(c.ground, c.segments[k]))
  }

  ghost predicate Clean(flags: seq<bv8>)
    requires |flags| == FLAG_BYTES
  {
    forall b :: 0 <= b < BLOCKS_PER_SEGMENT ==> !IsDirty(flags, b)
  }

  ghost predicate Full(flags: seq<bv8>)
    requires |flags| == FLAG_BYTES
  {
    forall b :: 0 <= b < BLOCKS_PER_SEGMENT ==> IsValid(flags, b)
  }

  /** How many bytes a transfer of the segment at `offset` moves. */
  function IoSize(limit: Limit, offset: nat): (count: nat)
    ensures count <= SEGMENT_SIZE
  {
    if limit.Hard? && offset + SEGMENT_SIZE > limit.end then
      if offset <= limit.end then limit.end - offset else 0
    else SEGMENT_SIZE
  }

  /** The byte j of an entry, or the given byte when its block is not valid. */
  function EntryByte(g: Segment, j: nat, under: byte): byte
    requires j < SEGMENT_SIZE && |g.data| == SEGMENT_SIZE && |g.flags| == FLAG_BYTES
  {
    if IsValid(g.flags, j / BLOCK_SIZE) then g.data[j] else under
  }

  lemma ViewInSegment(c: Cache, k: nat, i: nat)
    requires WellFormed(c) && k < |c.segments| && c.segments[k].inUse && SegmentBase(i) == c.segments[k].offset
    ensures View(c, i) == EntryByte(c.segments[k], i - c.segments[k].offset, Back(c.ground, i))
  {
    assert Find(c.segments, SegmentBase(i)) == k;
  }

  lemma ViewOutside(c: Cache, i: nat)
    requires WellFormed(c) && Find(c.segments, SegmentBase(i)) == -1
    ensures View(c, i) == Back(c.ground, i)
  {
  }

  /** Entry k alone may have changed. */
  predicate OnlyEntry(c: Cache, c': Cache, k: nat) {
    k < |c.segments| == |c'.segments| && c'.segments == c.segments[k := c'.segments[k]]
  }

  /** A byte that entry k covers neither before nor after is seen as before. */
  lemma ViewElsewhere(c: Cache, c': Cache, k: nat, i: nat)
    requires WellFormed(c) && WellFormed(c') && OnlyEntry(c, c', k)
    requires c.segments[k].inUse ==> c.segments[k].offset != SegmentBase(i)
    requires c'.segments[k].inUse ==> c'.segments[k].offset != SegmentBase(i)
    requires Back(c'.ground, i) == Back(c.ground, i)
    ensures View(c', i) == View(c, i)
  {
    var m := Find(c.segments, SegmentBase(i));
    if m >= 0 {
      ViewInSegment(c, m, i);
      ViewInSegment(c', m, i);
    } else {
      ViewOutside(c, i);
      ViewOutside(c', i);
    }
  }

  ghost predicate SameView(c: Cache, c': Cache)
    requires WellFormed(c) && WellFormed(c')
  {
    forall i: nat :: View(c', i) == View(c, i)
  }

  /** The view was overwritten with `buf` from offset `start` on and nowhere else. */
  ghost predicate Overlaid(c: Cache, c': Cache, start: nat, buf: seq<byte>)
    requires WellFormed(c) && WellFormed(c')
  {
    forall i: nat :: View(c', i) == if start <= i < start + |buf| then buf[i - start] else View(c, i)
  }

  /** Every block of the entry is dirty once at..at + count is, and all of it was streamed. */
  ghost predicate CompletesSegment(g: Segment, at: nat, count: nat) {
    && g.streamed && |g.flags| == FLAG_BYTES
    && forall b :: 0 <= b < BLOCKS_PER_SEGMENT ==> at / BLOCK_SIZE <= b < (at + count) / BLOCK_SIZE || IsDirty(g.flags, b)
  }

  /** The view holds `data` from offset `start` on. */
  ghost predicate Shows(c: Cache, start: nat, data: seq<byte>)
    requires WellFormed(c)
  {
    forall i: nat :: start <= i < start + |data| ==> View(c, i) == data[i - start]
  }

  /** How much of `left` bytes from `offset` on fits in the segment `offset` lies in. */
  function Piece(offset: nat, left: nat): nat {
    if left <= SEGMENT_SIZE - offset % SEGMENT_SIZE then left else SEGMENT_SIZE - offset % SEGMENT_SIZE
  }

  lemma PieceFits(offset: nat, left: nat)
    ensures Piece(offset, left) <= left && offset + Piece(offset, left) <= SegmentBase(offset) + SEGMENT_SIZE
    ensures Piece(offset, left) < left ==> (offset + Piece(offset, left)) % SEGMENT_SIZE == 0
    ensures offset % BLOCK_SIZE == 0 && left % BLOCK_SIZE == 0 ==> Piece(offset, left) % BLOCK_SIZE == 0
    ensures 0 < left ==> 0 < Piece(offset, left)
  {
  }

  /** Whole blocks from `done` on that go into one segment, of a transfer inside what is tracked. */
  predicate IsPiece(offset: nat, length: nat, done: nat, count: nat, tracked: nat) {
    && done + count <= length && (offset + done) % BLOCK_SIZE == 0 && count % BLOCK_SIZE == 0
    && SegmentBase(offset) <= SegmentBase(offset + done) < offset + done + count <= SegmentBase(offset + done) + SEGMENT_SIZE
    && (offset + done) / SEGMENT_SIZE < tracked
  }

  /** The pieces so far end where the transfer or a segment ends. */
  predicate IsRest(offset: nat, length: nat, done: nat) {
    && done <= length && offset % BLOCK_SIZE == 0 && length % BLOCK_SIZE == 0
    && (done < length ==> (offset + done) % SEGMENT_SIZE == 0)
  }

  /** The first piece of a write that starts inside a segment. */
  lemma HeadPiece(offset: nat, left: nat, tracked: nat)
    requires offset % BLOCK_SIZE == 0 && left % BLOCK_SIZE == 0 && SegmentBase(offset) != offset && offset + left <= tracked * SEGMENT_SIZE
    ensures IsPiece(offset, left, 0, Piece(offset, left), tracked) && IsRest(offset, left, Piece(offset, left))
  {
    PieceFits(offset, left);
  }

  lemma RestPiece(offset: nat, length: nat, done: nat, tracked: nat)
    requires IsRest(offset, length, done) && done < length && offset + length <= tracked * SEGMENT_SIZE
    ensures var count := if length - done <= SEGMENT_SIZE then length - done else SEGMENT_SIZE;
            && SegmentBase(offset + done) == offset + done
            && IsPiece(offset, length, done, count, tracked) && IsRest(offset, length, done + count)
  {
    hide SegmentBase;
    var count := if length - done <= SEGMENT_SIZE then length - done else SEGMENT_SIZE;
    BoundaryPiece(offset + done, offset + length, tracked);
    BaseBelow(offset, offset + done);
    BoundaryBlocks(offset, length, done);
  }

  lemma BaseBelow(a: nat, b: nat)
    requires a <= b
    ensures SegmentBase(a) <= SegmentBase(b)
  {
  }

  lemma BoundaryBlocks(offset: nat, length: nat, done: nat)
    requires offset % BLOCK_SIZE == 0 && length % BLOCK_SIZE == 0 && done <= length && (offset + done) % SEGMENT_SIZE == 0
    ensures (offset + done) % BLOCK_SIZE == 0 && (length - done) % BLOCK_SIZE == 0
    ensures SEGMENT_SIZE % BLOCK_SIZE == 0 && (offset + done + SEGMENT_SIZE) % SEGMENT_SIZE == 0
  {
    assert SEGMENT_SIZE == 256 * BLOCK_SIZE;
    Multiple(offset + done);
  }

  lemma Multiple(n: nat)
    requires n % SEGMENT_SIZE == 0
    ensures n % BLOCK_SIZE == 0
  {
    assert n == BLOCK_SIZE * (256 * (n / SEGMENT_SIZE));
  }

  /** Where the next chunk of a read starts and ends, once it has reached a segment boundary. */
  lemma BoundaryPiece(p: nat, end: nat, tracked: nat)
    requires p % SEGMENT_SIZE == 0 && p < end <= tracked * SEGMENT_SIZE
    ensures SegmentBase(p) == p && p / SEGMENT_SIZE < tracked && (p + SEGMENT_SIZE) % SEGMENT_SIZE == 0
  {
  }

  lemma BaseInSegment(offset: nat)
    ensures SegmentBase(offset) % SEGMENT_SIZE == 0 && SegmentBase(offset) / SEGMENT_SIZE == offset / SEGMENT_SIZE
    ensures offset % BLOCK_SIZE == 0 ==> (offset - SegmentBase(offset)) % BLOCK_SIZE == 0
  {
  }

  lemma BaseOnBoundary(offset: nat)
    ensures SegmentBase(offset) <= offset < SegmentBase(offset) + SEGMENT_SIZE
    ensures SegmentBase(offset) == offset <==> offset % SEGMENT_SIZE == 0
  {
  }

  /** The disk agrees with the view on every untrimmed segment. */
  ghost predicate OnDisk(c: Cache)
    requires WellFormed(c)
  {
    forall i: nat :: !Trimmed(c.ground, i / SEGMENT_SIZE) && Inside(c.ground.limit, i + 1) ==> DiskAt(c.ground.disk, i) == View(c, i)
  }

  /** The first n bytes of a segment were written as a reader sees them, and nothing else. */
  ghost predicate WrittenTo(c: Cache, disk: seq<byte>, offset: nat, n: nat)
    requires WellFormed(c)
  {
    forall i: nat :: DiskAt(disk, i) == if offset <= i < offset + n then View(c, i) else DiskAt(c.ground.disk, i)
  }

  /**
   * The disk after a flush that was cut: the segments in `done` are written as a reader saw them, of the one at `torn`
   * the first n bytes, and everything else is as it was.
   */
  ghost predicate CutAt(c: Cache, disk: seq<byte>, done: seq<nat>, torn: nat, n: nat)
    requires WellFormed(c)
  {
    forall i: nat :: DiskAt(disk, i) ==
      if Inside(c.ground.limit, i + 1) && (SegmentBase(i) in done || (SegmentBase(i) == torn && i < torn + n)) then View(c, i)
      else DiskAt(c.ground.disk, i)
  }

  lemma FullEntryWritten(c: Cache, disk: seq<byte>, k: nat, n: nat)
    requires WellFormed(c) && k < |c.segments| && c.segments[k].inUse && Full(c.segments[k].flags) && n <= SEGMENT_SIZE
    requires Wrote(c.ground.disk, disk, c.segments[k].data[..n], c.segments[k].offset)
    ensures WrittenTo(c, disk, c.segments[k].offset, n)
  {
    hide View;
    var g := c.segments[k];
    forall i: nat | g.offset <= i < g.offset + n
      ensures DiskAt(disk, i) == View(c, i)
    {
      FullEntryByte(c, k, i);
    }
  }

  lemma FullEntryByte(c: Cache, k: nat, i: nat)
    requires WellFormed(c) && k < |c.segments| && c.segments[k].inUse && Full(c.segments[k].flags)
    requires c.segments[k].offset <= i < c.segments[k].offset + SEGMENT_SIZE
    ensures View(c, i) == c.segments[k].data[i - c.segments[k].offset]
  {
    var off := c.segments[k].offset;
    assert SegmentBase(i) == off && i % SEGMENT_SIZE == i - off;
    ViewInSegment(c, k, i);
  }

  lemma NothingCut(c: Cache)
    requires WellFormed(c)
    ensures CutAt(c, c.ground.disk, [], 0, 0)
  {
  }

  /** One more segment of a flush, written in full, in part or not at all. */
  lemma CutFurther(first: Cache, here: Cache, disk: seq<byte>, done: seq<nat>, offset: nat, n: nat)
    requires WellFormed(first) && WellFormed(here) && SameView(first, here) && here.ground.limit == first.ground.limit
    requires CutAt(first, here.ground.disk, done, 0, 0) && WrittenTo(here, disk, offset, n)
    requires (n > 0 ==> offset % SEGMENT_SIZE == 0) && n <= IoSize(first.ground.limit, offset)
    ensures CutAt(first, disk, done, offset, n)
    ensures n == 0 ==> CutAt(first, disk, done, 0, 0)
    ensures offset % SEGMENT_SIZE == 0 && n == IoSize(first.ground.limit, offset) ==> CutAt(first, disk, done + [offset], 0, 0)
  {
    hide View, WellFormed;
    forall i: nat
      ensures offset % SEGMENT_SIZE == 0 && offset <= i < offset + n ==> SegmentBase(i) == offset && Inside(first.ground.limit, i + 1)
      ensures SegmentBase(i) == offset && n == IoSize(first.ground.limit, offset) && Inside(first.ground.limit, i + 1) ==> offset <= i < offset + n
    {
    }
  }

  /** With nothing dirty, what a reader sees is on the disk wherever it is not trimmed. */
  lemma CleanViewIsDisk(c: Cache, i: nat)
    requires Coherent(c)
    requires forall k :: 0 <= k < |c.segments| && c.segments[k].inUse ==> Clean(c.segments[k].flags)
    requires !Trimmed(c.ground, i / SEGMENT_SIZE) && Inside(c.ground.limit, i + 1)
    ensures View(c, i) == DiskAt(c.ground.disk, i)
  {
    var k := Find(c.segments, SegmentBase(i));
    if k >= 0 {
      ViewInSegment(c, k, i);
      assert SegmentOk(c.ground, c.segments[k]);
    }
  }

  lemma OverlaidAfter(c: Cache, c1: Cache, c2: Cache, start: nat, buf: seq<byte>)
    requires WellFormed(c) && WellFormed(c1) && WellFormed(c2)
    requires SameView(c, c1) && Overlaid(c1, c2, start, buf)
    ensures Overlaid(c, c2, start, buf)
  {
  }

  lemma OverlaidNone(c: Cache, start: nat, buf: seq<byte>)
    requires WellFormed(c)
    ensures Overlaid(c, c, start, buf[..0])
  {
  }

  lemma OverlaidMore(c: Cache, c1: Cache, c2: Cache, start: nat, buf: seq<byte>, done: nat, count: nat)
    requires WellFormed(c) && WellFormed(c1) && WellFormed(c2) && done + count <= |buf|
    requires Overlaid(c, c1, start, buf[..done]) && Overlaid(c1, c2, start + done, buf[done..done + count])
    ensures Overlaid(c, c2, start, buf[..done + count])
  {
  }

  lemma ShowsTwice(c: Cache, c1: Cache, start: nat, data1: seq<byte>, data2: seq<byte>)
    requires WellFormed(c) && WellFormed(c1) && SameView(c, c1)
    requires Shows(c, start, data1) && Shows(c1, start + |data1|, data2)
    ensures Shows(c, start, data1 + data2)
  {
  }

  lemma FullEntryShows(c: Cache, k: nat, at: nat, start: nat, data: seq<byte>)
    requires WellFormed(c) && k < |c.segments| && c.segments[k].inUse && Full(c.segments[k].flags)
    requires at + |data| <= SEGMENT_SIZE && start == c.segments[k].offset + at
    requires data == c.segments[k].data[at..at + |data|]
    ensures Shows(c, start, data)
  {
    forall i: nat | start <= i < start + |data|
      ensures View(c, i) == data[i - start]
    {
      BaseOf(c.segments[k].offset, i);
      ViewInSegment(c, k, i);
    }
  }

  lemma OtherEntriesOk(c: Cache, c': Cache, k: nat)
    requires Coherent(c) && OnlyEntry(c, c', k) && c'.ground == c.ground
    requires SegmentOk(c'.ground, c'.segments[k]) && WellFormed(c')
    ensures Coherent(c')
  {
    forall m | 0 <= m < |c'.segments|
      ensures SegmentOk(c'.ground, c'.segments[m])
    {
      assert SegmentOk(c.ground, c.segments[m]);
    }
  }

  /** Entry k after its missing blocks were read in. */
  ghost predicate Filled(c: Cache, c': Cache, k: nat)
    requires WellFormed(c) && k < |c.segments| && c.segments[k].inUse
  {
    && OnlyEntry(c, c', k) && c'.ground == c.ground
    && var g, g' := c.segments[k], c'.segments[k];
    && g' == g.(data := g'.data, flags := g'.flags)
    && |g'.data| == SEGMENT_SIZE && |g'.flags| == FLAG_BYTES && Full(g'.flags)
    && (forall b :: 0 <= b < BLOCKS_PER_SEGMENT ==> (IsDirty(g'.flags, b) <==> IsDirty(g.flags, b)))
    && (forall j :: 0 <= j < SEGMENT_SIZE ==> g'.data[j] == (if IsValid(g.flags, j / BLOCK_SIZE) then g.data[j] else Back(c.ground, g.offset + j)))
  }

  /** Reading the missing blocks of a segment in changes nothing a reader can see. */
  lemma FillKeepsView(c: Cache, c': Cache, k: nat)
    requires Coherent(c) && k < |c.segments| && c.segments[k].inUse && Filled(c, c', k)
    ensures Coherent(c') && SameView(c, c')
  {
    assert SegmentOk(c.ground, c.segments[k]);
    OtherEntriesOk(c, c', k);
    forall i: nat
      ensures View(c', i) == View(c, i)
    {
      FilledByte(c, c', k, i);
    }
  }

  lemma FilledByte(c: Cache, c': Cache, k: nat, i: nat)
    requires WellFormed(c) && WellFormed(c') && k < |c.segments| && c.segments[k].inUse && Filled(c, c', k)
    ensures View(c', i) == View(c, i)
  {
    if SegmentBase(i) == c.segments[k].offset {
      ViewInSegment(c, k, i);
      ViewInSegment(c', k, i);
    } else {
      ViewElsewhere(c, c', k, i);
    }
  }

  function WithEntry(c: Cache, k: nat, data: seq<byte>, flags: seq<bv8>): Cache
    requires k < |c.segments|
  {
    c.(segments := c.segments[k := c.segments[k].(data := data, flags := flags)])
  }

  lemma ReadInEntry(c: Cache, k: nat, data: seq<byte>)
    requires Coherent(c) && k < |c.segments| && c.segments[k].inUse
    requires forall b :: 0 <= b < BLOCKS_PER_SEGMENT ==> !IsValid(c.segments[k].flags, b)
    requires |data| == SEGMENT_SIZE && forall j :: 0 <= j < SEGMENT_SIZE ==> data[j] == Back(c.ground, c.segments[k].offset + j)
    ensures var c' := WithEntry(c, k, data, AllValid()); Filled(c, c', k) && Coherent(c') && SameView(c, c')
  {
    assert SegmentOk(c.ground, c.segments[k]);
    assert Clean(c.segments[k].flags);
    FillKeepsView(c, WithEntry(c, k, data, AllValid()), k);
  }

  lemma MergedEntry(c: Cache, k: nat, temp: seq<byte>, data: seq<byte>, flags: seq<bv8>)
    requires Coherent(c) && k < |c.segments| && c.segments[k].inUse
    requires |temp| == SEGMENT_SIZE && forall j :: 0 <= j < SEGMENT_SIZE ==> temp[j] == Back(c.ground, c.segments[k].offset + j)
    requires |data| == SEGMENT_SIZE && |flags| == FLAG_BYTES && Full(flags)
    requires forall b :: 0 <= b < BLOCKS_PER_SEGMENT ==> (IsDirty(flags, b) <==> IsDirty(c.segments[k].flags, b))
    requires forall j :: 0 <= j < SEGMENT_SIZE ==>
               data[j] == if IsValid(c.segments[k].flags, j / BLOCK_SIZE) then c.segments[k].data[j] else temp[j]
    ensures var c' := WithEntry(c, k, data, flags); Filled(c, c', k) && Coherent(c') && SameView(c, c')
  {
    FillKeepsView(c, WithEntry(c, k, data, flags), k);
  }

  lemma AlreadyFull(c: Cache, k: nat)
    requires Coherent(c) && k < |c.segments| && c.segments[k].inUse && Full(c.segments[k].flags)
    ensures Filled(c, c, k)
  {
  }

  /** What a complete transfer of segment k to the disk leaves behind. */
  ghost predicate WrittenBack(c: Cache, c': Cache, k: nat)
    requires WellFormed(c) && k < |c.segments| && c.segments[k].inUse
  {
    && OnlyEntry(c, c', k)
    && var g, g' := c.segments[k], c'.segments[k];
    && |g'.flags| == FLAG_BYTES && g' == g.(flags := g'.flags) && Full(g'.flags) && Clean(g'.flags)
    && Wrote(c.ground.disk, c'.ground.disk, g.data[..IoSize(c.ground.limit, g.offset)], g.offset)
    && c'.ground == c.ground.(disk := c'.ground.disk, trimmed := ClearBit(c.ground.trimmed, g.offset / SEGMENT_SIZE))
  }

  lemma WriteBackUnderneath(c: Cache, c': Cache, k: nat, i: nat)
    requires Coherent(c) && k < |c.segments| && c.segments[k].inUse
    requires Full(c.segments[k].flags) && !Clean(c.segments[k].flags) && WrittenBack(c, c', k)
    ensures SegmentBase(i) == c.segments[k].offset ==> Back(c'.ground, i) == c.segments[k].data[i - c.segments[k].offset]
    ensures SegmentBase(i) != c.segments[k].offset ==> Back(c'.ground, i) == Back(c.ground, i)
  {
    var g, u, u' := c.segments[k], c.ground, c'.ground;
    var n := g.offset / SEGMENT_SIZE;
    assert SegmentOk(u, g);
    if SegmentBase(i) == g.offset {
      assert i / SEGMENT_SIZE == n && !Trimmed(u', n);
      if u.limit.Hard? && i >= u.limit.end {
        var j := i - g.offset;
        assert g.offset + BLOCK_SIZE * (j / BLOCK_SIZE + 1) > i;
        assert !IsDirty(g.flags, j / BLOCK_SIZE);
        assert g.data[j] == Back(u, g.offset + j);
      }
    } else {
      assert i / SEGMENT_SIZE != n;
      assert Trimmed(u', i / SEGMENT_SIZE) == Trimmed(u, i / SEGMENT_SIZE);
    }
  }

  lemma WriteBackKeepsOthers(c: Cache, c': Cache, k: nat, m: nat)
    requires Coherent(c) && k < |c.segments| && c.segments[k].inUse
    requires Full(c.segments[k].flags) && !Clean(c.segments[k].flags) && WrittenBack(c, c', k)
    requires m < |c.segments|
    ensures SegmentOk(c'.ground, c'.segments[m])
  {
    assert SegmentOk(c.ground, c.segments[m]);
    forall i: nat
      ensures SegmentBase(i) == c.segments[k].offset ==> Back(c'.ground, i) == c.segments[k].data[i - c.segments[k].offset]
      ensures SegmentBase(i) != c.segments[k].offset ==> Back(c'.ground, i) == Back(c.ground, i)
    {
      WriteBackUnderneath(c, c', k, i);
    }
    if m == k {
      EntryMatches(c'.ground, c'.segments[k]);
    } else if c.segments[m].inUse {
      EntryStays(c.ground, c'.ground, c.segments[m]);
    }
  }

  lemma EntryMatches(u: Ground, g: Segment)
    requires g.inUse && ShapeOk(g) && Full(g.flags) && Clean(g.flags)
    requires forall i: nat :: SegmentBase(i) == g.offset ==> Back(u, i) == g.data[i - g.offset]
    ensures SegmentOk(u, g)
  {
    forall j | 0 <= j < SEGMENT_SIZE && IsValid(g.flags, j / BLOCK_SIZE)
      ensures g.data[j] == Back(u, g.offset + j)
    {
      assert SegmentBase(g.offset + j) == g.offset;
    }
  }

  lemma EntryStays(u: Ground, u': Ground, g: Segment)
    requires g.inUse && SegmentOk(u, g) && u'.limit == u.limit
    requires forall i: nat :: SegmentBase(i) == g.offset ==> Back(u', i) == Back(u, i)
    ensures SegmentOk(u', g)
  {
    forall j | 0 <= j < SEGMENT_SIZE && IsValid(g.flags, j / BLOCK_SIZE) && !IsDirty(g.flags, j / BLOCK_SIZE)
      ensures g.data[j] == Back(u', g.offset + j)
    {
      assert SegmentBase(g.offset + j) == g.offset;
    }
  }

  lemma WriteBackKeepsCoherent(c: Cache, c': Cache, k: nat)
    requires Coherent(c) && k < |c.segments| && c.segments[k].inUse
    requires Full(c.segments[k].flags) && !Clean(c.segments[k].flags) && WrittenBack(c, c', k)
    ensures Coherent(c')
  {
    forall m | 0 <= m < |c'.segments|
      ensures SegmentOk(c'.ground, c'.segments[m])
    {
      WriteBackKeepsOthers(c, c', k, m);
    }
  }

  /** Writing a segment back changes the disk but nothing a reader can see. */
  lemma WriteBackKeepsView(c: Cache, c': Cache, k: nat)
    requires Coherent(c) && k < |c.segments| && c.segments[k].inUse
    requires Full(c.segments[k].flags) && !Clean(c.segments[k].flags) && WrittenBack(c, c', k)
    ensures Coherent(c') && SameView(c, c')
  {
    WriteBackKeepsCoherent(c, c', k);
    forall i: nat
      ensures View(c', i) == View(c, i)
    {
      WriteBackUnderneath(c, c', k, i);
      if SegmentBase(i) == c.segments[k].offset {
        ViewInSegment(c, k, i);
        ViewInSegment(c', k, i);
      } else {
        ViewElsewhere(c, c', k, i);
      }
    }
  }

  lemma DirtyStartsInside(limit: Limit, g: Segment)
    requires g.inUse && ShapeOk(g) && DirtyOk(limit, g) && !Clean(g.flags)
    ensures Inside(limit, g.offset + BLOCK_SIZE)
  {
    var b :| 0 <= b < BLOCKS_PER_SEGMENT && IsDirty(g.flags, b);
    assert Inside(limit, g.offset + BLOCK_SIZE * (b + 1));
  }

  /** Un-trimming the segment of a dirty entry leaves the whole segments past the end trimmed. */
  lemma ClearTrimmedKeepsPastEnd(u: Ground, u': Ground, g: Segment)
    requires PastEndTrimmed(u) && g.inUse && ShapeOk(g) && DirtyOk(u.limit, g) && !Clean(g.flags)
    requires g.offset / SEGMENT_SIZE < 8 * |u.trimmed|
    requires u'.limit == u.limit && u'.trimmed == ClearBit(u.trimmed, g.offset / SEGMENT_SIZE)
    ensures PastEndTrimmed(u')
  {
    DirtyStartsInside(u.limit, g);
  }

  /** Entry k handed to another offset, holding nothing yet. */
  ghost predicate Claimed(c: Cache, c': Cache, k: nat)
    requires WellFormed(c)
  {
    && OnlyEntry(c, c', k) && c'.ground == c.ground
    && (c.segments[k].inUse ==> Clean(c.segments[k].flags))
    && var g' := c'.segments[k];
    && g'.inUse && ShapeOk(g') && g'.flags == NoneValid()
    && g'.offset / SEGMENT_SIZE < 8 * |c.ground.trimmed|
    && Find(c.segments, g'.offset) == -1
  }

  /** Handing a clean or unused entry to another offset changes nothing a reader can see. */
  lemma ClaimKeepsView(c: Cache, c': Cache, k: nat)
    requires Coherent(c) && Claimed(c, c', k)
    ensures Coherent(c') && SameView(c, c')
  {
    var g, g' := c.segments[k], c'.segments[k];
    OtherEntriesOk(c, c', k);
    forall i: nat
      ensures View(c', i) == View(c, i)
    {
      if SegmentBase(i) == g'.offset {
        ViewInSegment(c', k, i);
        ViewOutside(c, i);
      } else if g.inUse && SegmentBase(i) == g.offset {
        assert SegmentOk(c.ground, g);
        ViewInSegment(c, k, i);
        ViewOutside(c', i);
      } else {
        ViewElsewhere(c, c', k, i);
      }
    }
  }

  /** The access stamp and the streamed mark of an entry have no bearing on what is seen. */
  lemma SameContentsKeepsView(c: Cache, c': Cache, k: nat)
    requires Coherent(c) && OnlyEntry(c, c', k) && c'.ground == c.ground && c.segments[k].inUse
    requires c'.segments[k] == c.segments[k].(lastAccess := c'.segments[k].lastAccess, streamed := c'.segments[k].streamed)
    ensures Coherent(c') && SameView(c, c')
  {
    assert SegmentOk(c.ground, c.segments[k]);
    OtherEntriesOk(c, c', k);
    forall i: nat
      ensures View(c', i) == View(c, i)
    {
      if SegmentBase(i) == c.segments[k].offset {
        ViewInSegment(c, k, i);
        ViewInSegment(c', k, i);
      } else {
        ViewElsewhere(c, c', k, i);
      }
    }
  }

  /** Entry k after bytes were copied over whole blocks of it. */
  ghost predicate Stored(c: Cache, c': Cache, k: nat, at: nat, buf: seq<byte>)
    requires WellFormed(c) && k < |c.segments| && c.segments[k].inUse
    requires at + |buf| <= SEGMENT_SIZE
  {
    && OnlyEntry(c, c', k) && c'.ground == c.ground
    && var g, g' := c.segments[k], c'.segments[k];
    && g'.inUse && |g'.flags| == FLAG_BYTES && g'.offset == g.offset
    && g'.data == Splice(g.data, at, buf)
    && (forall b :: 0 <= b < BLOCKS_PER_SEGMENT ==>
          (IsDirty(g'.flags, b) <==> at / BLOCK_SIZE <= b < (at + |buf|) / BLOCK_SIZE || IsDirty(g.flags, b)))
    && (forall b :: 0 <= b < BLOCKS_PER_SEGMENT ==>
          (IsValid(g'.flags, b) <==> at / BLOCK_SIZE <= b < (at + |buf|) / BLOCK_SIZE || IsValid(g.flags, b)))
  }

  /** Copying bytes over whole blocks of a segment updates exactly those bytes of the view. */
  lemma StoreUpdatesView(c: Cache, c': Cache, k: nat, at: nat, buf: seq<byte>)
    requires Coherent(c) && k < |c.segments| && c.segments[k].inUse
    requires at + |buf| <= SEGMENT_SIZE && at % BLOCK_SIZE == 0 && |buf| % BLOCK_SIZE == 0
    requires Inside(c.ground.limit, c.segments[k].offset + at + |buf|)
    requires Stored(c, c', k, at, buf)
    ensures Coherent(c') && Overlaid(c, c', c.segments[k].offset + at, buf)
  {
    StoreKeepsEntryOk(c, c', k, at, buf);
    OtherEntriesOk(c, c', k);
    var start := c.segments[k].offset + at;
    forall i: nat
      ensures View(c', i) == if start <= i < start + |buf| then buf[i - start] else View(c, i)
    {
      StoredByte(c, c', k, at, buf, i);
    }
  }

  lemma StoredByte(c: Cache, c': Cache, k: nat, at: nat, buf: seq<byte>, i: nat)
    requires WellFormed(c) && WellFormed(c') && k < |c.segments| && c.segments[k].inUse
    requires at + |buf| <= SEGMENT_SIZE && at % BLOCK_SIZE == 0 && |buf| % BLOCK_SIZE == 0
    requires Stored(c, c', k, at, buf)
    ensures var start := c.segments[k].offset + at;
            View(c', i) == if start <= i < start + |buf| then buf[i - start] else View(c, i)
  {
    var offset := c.segments[k].offset;
    if SegmentBase(i) == offset {
      ViewInSegment(c, k, i);
      ViewInSegment(c', k, i);
      StoredEntryByte(c, c', k, at, buf, i - offset, Back(c.ground, i));
    } else {
      assert !(offset + at <= i < offset + at + |buf|) by {
        BaseOf(offset, i);
      }
      ViewElsewhere(c, c', k, i);
    }
  }

  lemma BaseOf(offset: nat, i: nat)
    requires offset % SEGMENT_SIZE == 0
    ensures offset <= i < offset + SEGMENT_SIZE <==> SegmentBase(i) == offset
  {
  }

  lemma StoredEntryByte(c: Cache, c': Cache, k: nat, at: nat, buf: seq<byte>, j: nat, under: byte)
    requires WellFormed(c) && WellFormed(c') && k < |c.segments| && c.segments[k].inUse
    requires at + |buf| <= SEGMENT_SIZE && at % BLOCK_SIZE == 0 && |buf| % BLOCK_SIZE == 0
    requires Stored(c, c', k, at, buf) && j < SEGMENT_SIZE
    ensures EntryByte(c'.segments[k], j, under) == if at <= j < at + |buf| then buf[j - at] else EntryByte(c.segments[k], j, under)
  {
    WholeBlocks(at, |buf|, j);
    assert IsValid(c'.segments[k].flags, j / BLOCK_SIZE) <==> at <= j < at + |buf| || IsValid(c.segments[k].flags, j / BLOCK_SIZE);
  }

  lemma WholeBlocks(at: nat, count: nat, j: nat)
    requires at % BLOCK_SIZE == 0 && count % BLOCK_SIZE == 0
    ensures at <= j < at + count <==> at / BLOCK_SIZE <= j / BLOCK_SIZE < (at + count) / BLOCK_SIZE
  {
  }

  lemma StoreKeepsEntryOk(c: Cache, c': Cache, k: nat, at: nat, buf: seq<byte>)
    requires Coherent(c) && k < |c.segments| && c.segments[k].inUse
    requires at + |buf| <= SEGMENT_SIZE && at % BLOCK_SIZE == 0 && |buf| % BLOCK_SIZE == 0
    requires Inside(c.ground.limit, c.segments[k].offset + at + |buf|)
    requires Stored(c, c', k, at, buf)
    ensures SegmentOk(c'.ground, c'.segments[k])
  {
    StoreKeepsDirtyOk(c, c', k, at, buf);
    StoreKeepsCleanOk(c, c', k, at, buf);
    hide IsValid, IsDirty, DirtyOk, CleanOk;
  }

  lemma StoreKeepsDirtyOk(c: Cache, c': Cache, k: nat, at: nat, buf: seq<byte>)
    requires Coherent(c) && k < |c.segments| && c.segments[k].inUse
    requires at + |buf| <= SEGMENT_SIZE && at % BLOCK_SIZE == 0 && |buf| % BLOCK_SIZE == 0
    requires Inside(c.ground.limit, c.segments[k].offset + at + |buf|)
    requires Stored(c, c', k, at, buf)
    ensures c'.segments[k].inUse && ShapeOk(c'.segments[k]) && DirtyOk(c'.ground.limit, c'.segments[k])
  {
    assert SegmentOk(c.ground, c.segments[k]);
    hide IsValid, IsDirty;
  }

  lemma StoreKeepsCleanOk(c: Cache, c': Cache, k: nat, at: nat, buf: seq<byte>)
    requires Coherent(c) && k < |c.segments| && c.segments[k].inUse
    requires at + |buf| <= SEGMENT_SIZE && at % BLOCK_SIZE == 0 && |buf| % BLOCK_SIZE == 0
    requires Stored(c, c', k, at, buf)
    ensures c'.segments[k].inUse && ShapeOk(c'.segments[k]) && CleanOk(c'.ground, c'.segments[k])
  {
    var g, g' := c.segments[k], c'.segments[k];
    assert SegmentOk(c.ground, g);
    hide IsValid, IsDirty, Splice, Back;
    forall j | 0 <= j < SEGMENT_SIZE && IsValid(g'.flags, j / BLOCK_SIZE) && !IsDirty(g'.flags, j / BLOCK_SIZE)
      ensures g'.data[j] == Back(c.ground, g.offset + j)
    {
      WholeBlocks(at, |buf|, j);
    }
  }

  /** Exactly the tracked whole segments inside the range are marked, and those read as zeros. */
  ghost predicate TrimmedWhole(c: Cache, c': Cache, offset: nat, count: int)
    requires WellFormed(c) && WellFormed(c')
  {
    && |c'.ground.trimmed| == |c.ground.trimmed|
    && (forall n :: 0 <= n < 8 * |c.ground.trimmed| ==>
          (Bit(c'.ground.trimmed, n) <==> WholeSegmentIn(offset, count, n) || Bit(c.ground.trimmed, n)))
    && (forall i: nat :: View(c', i) ==
          if i / SEGMENT_SIZE < 8 * |c.ground.trimmed| && WholeSegmentIn(offset, count, i / SEGMENT_SIZE) then 0 else View(c, i))
  }

  function DroppedIf(g: Segment, from: nat, to: nat): Segment {
    if g.inUse && from <= g.offset < to then g.(inUse := false) else g
  }

  /** Segment n lies wholly inside the byte range of `count` bytes from `offset`. */
  predicate WholeSegmentIn(offset: nat, count: int, n: nat) {
    offset <= n * SEGMENT_SIZE && (n + 1) * SEGMENT_SIZE <= offset + count
  }

  function AlignUp(offset: nat): nat {
    (offset + SEGMENT_SIZE - 1) / SEGMENT_SIZE * SEGMENT_SIZE
  }

  function AlignedCount(offset: nat, count: int): int {
    var rest := count - (AlignUp(offset) - offset);
    rest - rest % SEGMENT_SIZE
  }

  /** One past the last segment a trim marks, given how many segments are tracked. */
  function TrimEnd(offset: nat, count: int, tracked: nat): int {
    var aligned := AlignedCount(offset, count);
    var adjusted := if offset + aligned <= tracked * SEGMENT_SIZE then aligned else tracked * SEGMENT_SIZE - offset;
    AlignUp(offset) / SEGMENT_SIZE + adjusted / SEGMENT_SIZE
  }

  /** The segment range a trim computes is that of the whole segments inside. */
  lemma TrimRange(offset: nat, count: int, tracked: nat)
    requires offset < tracked * SEGMENT_SIZE && AlignedCount(offset, count) > 0
    ensures AlignUp(offset) / SEGMENT_SIZE <= TrimEnd(offset, count, tracked) <= tracked
    ensures forall n: nat :: AlignUp(offset) / SEGMENT_SIZE <= n < TrimEnd(offset, count, tracked)
                             <==> n < tracked && WholeSegmentIn(offset, count, n)
    ensures forall n: nat :: n < tracked ==>
              (AlignUp(offset) / SEGMENT_SIZE <= n < TrimEnd(offset, count, tracked)
               <==> AlignUp(offset) <= n * SEGMENT_SIZE < AlignUp(offset) + AlignedCount(offset, count))
  {
  }

  /** No whole segment lies inside a range that rounds to nothing or starts past what is tracked. */
  lemma NothingToTrim(offset: nat, count: int, tracked: nat, n: nat)
    requires offset >= tracked * SEGMENT_SIZE || AlignedCount(offset, count) <= 0
    ensures !(n < tracked && WholeSegmentIn(offset, count, n))
  {
  }

  /** Segments begin..end were trimmed: their bits are set and their cache entries dropped. */
  ghost predicate TrimmedOut(c: Cache, c': Cache, begin: nat, end: nat) {
    && |c'.segments| == |c.segments| && |c'.ground.trimmed| == |c.ground.trimmed|
    && (forall k :: 0 <= k < |c.segments| ==>
          c'.segments[k] == if c.segments[k].inUse && begin <= c.segments[k].offset / SEGMENT_SIZE < end
                            then c.segments[k].(inUse := false) else c.segments[k])
    && (forall n :: 0 <= n < 8 * |c.ground.trimmed| ==> (Bit(c'.ground.trimmed, n) <==> begin <= n < end || Bit(c.ground.trimmed, n)))
    && c'.ground == c.ground.(trimmed := c'.ground.trimmed)
  }

  lemma TrimUnderneath(c: Cache, c': Cache, begin: nat, end: nat, i: nat)
    requires TrimmedOut(c, c', begin, end) && end <= 8 * |c.ground.trimmed|
    ensures Back(c'.ground, i) == if begin <= i / SEGMENT_SIZE < end then 0 else Back(c.ground, i)
  {
  }

  lemma TrimKeepsCoherent(c: Cache, c': Cache, begin: nat, end: nat)
    requires Coherent(c) && TrimmedOut(c, c', begin, end) && end <= 8 * |c.ground.trimmed|
    ensures Coherent(c')
  {
    forall m | 0 <= m < |c.segments|
      ensures SegmentOk(c'.ground, c'.segments[m])
    {
      var g := c'.segments[m];
      assert SegmentOk(c.ground, c.segments[m]);
      if g.inUse {
        forall i: nat | SegmentBase(i) == g.offset
          ensures Back(c'.ground, i) == Back(c.ground, i)
        {
          assert i / SEGMENT_SIZE == g.offset / SEGMENT_SIZE;
          TrimUnderneath(c, c', begin, end, i);
        }
        EntryStays(c.ground, c'.ground, g);
      }
    }
  }

  /** Trimming makes the trimmed segments read as zeros and leaves every other byte as it was. */
  lemma TrimZeroesView(c: Cache, c': Cache, begin: nat, end: nat)
    requires Coherent(c) && TrimmedOut(c, c', begin, end) && end <= 8 * |c.ground.trimmed|
    ensures Coherent(c')
    ensures forall i: nat :: View(c', i) == if begin <= i / SEGMENT_SIZE < end then 0 else View(c, i)
  {
    TrimKeepsCoherent(c, c', begin, end);
    forall i: nat
      ensures View(c', i) == if begin <= i / SEGMENT_SIZE < end then 0 else View(c, i)
    {
      TrimUnderneath(c, c', begin, end, i);
      var m := Find(c.segments, SegmentBase(i));
      assert SegmentBase(i) / SEGMENT_SIZE == i / SEGMENT_SIZE;
      if m >= 0 && !(begin <= i / SEGMENT_SIZE < end) {
        assert c'.segments[m] == c.segments[m];
        ViewInSegment(c, m, i);
        ViewInSegment(c', m, i);
      } else {
        assert Find(c'.segments, SegmentBase(i)) == -1;
      }
    }
  }

  /** Bits set and entries dropped as a trim does it: whole segments inside read as zeros. */
  lemma NothingTrimmed(c: Cache, offset: nat, count: int)
    requires WellFormed(c)
    requires offset >= 8 * |c.ground.trimmed| * SEGMENT_SIZE || AlignedCount(offset, count) <= 0
    ensures TrimmedWhole(c, c, offset, count)
  {
    hide View, WholeSegmentIn, AlignedCount;
    forall n: nat
      ensures !(n < 8 * |c.ground.trimmed| && WholeSegmentIn(offset, count, n))
    {
      NothingToTrim(offset, count, 8 * |c.ground.trimmed|, n);
    }
  }

  lemma TrimOutcome(c: Cache, c': Cache, offset: nat, count: int)
    requires Coherent(c) && |c'.segments| == |c.segments| && |c'.ground.trimmed| == |c.ground.trimmed|
    requires c'.ground == c.ground.(trimmed := c'.ground.trimmed)
    requires offset < 8 * |c.ground.trimmed| * SEGMENT_SIZE && AlignedCount(offset, count) > 0
    requires forall k :: 0 <= k < |c.segments| ==>
               c'.segments[k] == DroppedIf(c.segments[k], AlignUp(offset), AlignUp(offset) + AlignedCount(offset, count))
    requires forall n :: 0 <= n < 8 * |c.ground.trimmed| ==>
               (Bit(c'.ground.trimmed, n) <==>
                AlignUp(offset) / SEGMENT_SIZE <= n < TrimEnd(offset, count, 8 * |c.ground.trimmed|) || Bit(c.ground.trimmed, n))
    ensures Coherent(c') && TrimmedWhole(c, c', offset, count)
  {
    var tracked := 8 * |c.ground.trimmed|;
    var begin, end := AlignUp(offset) / SEGMENT_SIZE, TrimEnd(offset, count, tracked);
    TrimRange(offset, count, tracked);
    forall k | 0 <= k < |c.segments| && c.segments[k].inUse
      ensures AlignUp(offset) <= c.segments[k].offset < AlignUp(offset) + AlignedCount(offset, count)
              <==> begin <= c.segments[k].offset / SEGMENT_SIZE < end
    {
      var n := c.segments[k].offset / SEGMENT_SIZE;
      assert n * SEGMENT_SIZE == c.segments[k].offset;
    }
    TrimZeroesView(c, c', begin, end);
  }

  function DroppedFrom(g: Segment, from: nat): Segment {
    if g.inUse && g.offset >= from then g.(inUse := false) else g
  }

  /** Everything from the segment boundary `from` on reads as zeros and is marked, nothing before it changed. */
  ghost predicate TrimmedFrom(c: Cache, c': Cache, from: nat)
    requires WellFormed(c) && WellFormed(c')
  {
    && c'.ground == c.ground.(trimmed := c'.ground.trimmed, remainder := true)
    && (forall n: nat :: Trimmed(c'.ground, n) <==> n * SEGMENT_SIZE >= from || Trimmed(c.ground, n))
    && (forall i: nat :: View(c', i) == if i >= from then 0 else View(c, i))
  }

  ghost predicate DroppedAll(c: Cache, c': Cache, from: nat) {
    && |c'.segments| == |c.segments| && c'.ground == c.ground.(remainder := true)
    && forall k :: 0 <= k < |c.segments| ==> c'.segments[k] == DroppedFrom(c.segments[k], from)
  }

  lemma DropKeepsCoherent(c: Cache, c': Cache, from: nat)
    requires Coherent(c) && DroppedAll(c, c', from)
    ensures Coherent(c')
  {
    forall m | 0 <= m < |c.segments|
      ensures SegmentOk(c'.ground, c'.segments[m])
    {
      var g := c.segments[m];
      assert SegmentOk(c.ground, g);
      if g.inUse && g.offset < from {
        forall i: nat | SegmentBase(i) == g.offset
          ensures Back(c'.ground, i) == Back(c.ground, i)
        {
          assert i / SEGMENT_SIZE == g.offset / SEGMENT_SIZE;
        }
        EntryStays(c.ground, c'.ground, g);
      }
    }
  }

  lemma WholeFrom(offset: nat, tracked: nat, n: nat)
    ensures WholeSegmentIn(offset, tracked * SEGMENT_SIZE - offset, n) <==> n < tracked && n * SEGMENT_SIZE >= AlignUp(offset)
  {
  }

  lemma BaseAfter(offset: nat, i: nat)
    ensures i >= AlignUp(offset) <==> i / SEGMENT_SIZE * SEGMENT_SIZE >= AlignUp(offset)
  {
  }

  lemma TrimAfterByte(c: Cache, c1: Cache, c2: Cache, offset: nat, i: nat)
    requires WellFormed(c) && WellFormed(c1) && WellFormed(c2)
    requires offset <= 8 * |c.ground.trimmed| * SEGMENT_SIZE
    requires DroppedAll(c, c1, offset) && TrimmedWhole(c1, c2, offset, 8 * |c.ground.trimmed| * SEGMENT_SIZE - offset)
    ensures View(c2, i) == if i >= AlignUp(offset) then 0 else View(c, i)
  {
    hide View, AlignUp, WholeSegmentIn, Coherent, DroppedIf;
    WholeFrom(offset, 8 * |c.ground.trimmed|, i / SEGMENT_SIZE);
    BaseAfter(offset, i);
    DroppedByte(c, c1, offset, i);
  }

  lemma TrimAfterBit(c: Cache, c1: Cache, c2: Cache, offset: nat, n: nat)
    requires WellFormed(c) && WellFormed(c1) && WellFormed(c2)
    requires offset <= 8 * |c.ground.trimmed| * SEGMENT_SIZE
    requires DroppedAll(c, c1, offset) && c2.ground == c1.ground.(trimmed := c2.ground.trimmed)
    requires TrimmedWhole(c1, c2, offset, 8 * |c.ground.trimmed| * SEGMENT_SIZE - offset)
    ensures Trimmed(c2.ground, n) <==> n * SEGMENT_SIZE >= AlignUp(offset) || Trimmed(c.ground, n)
  {
    hide View, WholeSegmentIn, AlignUp, WellFormed, Bit, DroppedFrom;
    WholeFrom(offset, 8 * |c.ground.trimmed|, n);
    if n >= 8 * |c.ground.trimmed| {
      PastTracked(offset, 8 * |c.ground.trimmed|, n);
    }
  }

  lemma PastTracked(offset: nat, tracked: nat, n: nat)
    requires offset <= tracked * SEGMENT_SIZE && n >= tracked
    ensures n * SEGMENT_SIZE >= AlignUp(offset)
  {
  }

  lemma TrimAfterOutcome(c: Cache, c1: Cache, c2: Cache, offset: nat)
    requires Coherent(c) && Coherent(c1) && Coherent(c2)
    requires offset <= 8 * |c.ground.trimmed| * SEGMENT_SIZE
    requires DroppedAll(c, c1, offset) && c2.ground == c1.ground.(trimmed := c2.ground.trimmed)
    requires TrimmedWhole(c1, c2, offset, 8 * |c.ground.trimmed| * SEGMENT_SIZE - offset)
    ensures TrimmedFrom(c, c2, AlignUp(offset))
  {
    hide View, WholeSegmentIn, TrimmedWhole, AlignUp, Trimmed, SegmentOk;
    forall i: nat
      ensures View(c2, i) == if i >= AlignUp(offset) then 0 else View(c, i)
    {
      TrimAfterByte(c, c1, c2, offset, i);
    }
    forall n: nat
      ensures Trimmed(c2.ground, n) <==> n * SEGMENT_SIZE >= AlignUp(offset) || Trimmed(c.ground, n)
    {
      TrimAfterBit(c, c1, c2, offset, n);
    }
  }

  lemma BaseBefore(from: nat, i: nat)
    ensures i < AlignUp(from) <==> SegmentBase(i) < from
  {
  }

  /** A segment that starts before the cut is still the cached one, if it was. */
  lemma DroppedFind(c: Cache, c': Cache, from: nat, base: nat)
    requires WellFormed(c) && WellFormed(c') && DroppedAll(c, c', from)
    ensures Find(c'.segments, base) == if base < from then Find(c.segments, base) else -1
  {
    var m, k := Find(c.segments, base), Find(c'.segments, base);
    if k >= 0 {
      assert c.segments[k].inUse && c.segments[k].offset == base;
    }
    if m >= 0 && base < from {
      assert c'.segments[m] == c.segments[m];
    }
  }

  lemma DroppedBack(c: Cache, c': Cache, from: nat, i: nat)
    requires DroppedAll(c, c', from)
    ensures i / SEGMENT_SIZE < 8 * |c.ground.trimmed| ==> Back(c'.ground, i) == Back(c.ground, i)
    ensures i / SEGMENT_SIZE >= 8 * |c.ground.trimmed| ==> Back(c'.ground, i) == 0
  {
    hide Bit;
  }

  lemma BeforeCut(from: nat, tracked: nat, i: nat)
    requires from <= tracked * SEGMENT_SIZE
    ensures SegmentBase(i) < from ==> i / SEGMENT_SIZE < tracked
  {
  }

  lemma DroppedByte(c: Cache, c': Cache, from: nat, i: nat)
    requires WellFormed(c) && WellFormed(c') && DroppedAll(c, c', from)
    requires from <= 8 * |c.ground.trimmed| * SEGMENT_SIZE
    ensures i < AlignUp(from) ==> View(c', i) == View(c, i)
    ensures i / SEGMENT_SIZE >= 8 * |c.ground.trimmed| ==> View(c', i) == 0
  {
    BaseBefore(from, i);
    DroppedFind(c, c', from, SegmentBase(i));
    DroppedBack(c, c', from, i);
    BeforeCut(from, 8 * |c.ground.trimmed|, i);
    hide AlignUp, SegmentBase, Back, Find;
  }
}
