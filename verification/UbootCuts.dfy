/** What a reader finds when the flush behind a task is cut: the protocol's view of every disk such a cut can leave. */
module UbootCuts {
  import opened Bytes
  import opened CacheModel
  import opened FlushOrder
  import opened FlushCuts
  import opened UbootPairs
  import opened UbootCodec
  import opened UbootProtocol
  import opened UbootFlush
  import opened UbootEnvironment

  ghost function StoredCopy(env: UbootEnv, disk: seq<byte>, block: nat): (r: seq<byte>)
    ensures |r| == env.envSize
  {
    seq(env.envSize, (j: nat) => DiskAt(disk, BLOCK_SIZE * block + j))
  }

  /** The two copies as they are on the disk. */
  ghost function OnMedium(env: UbootEnv, disk: seq<byte>): (m: Media)
    ensures |m.primary| == |m.secondary| == env.envSize
  {
    Media(StoredCopy(env, disk, env.blockOffset), StoredCopy(env, disk, env.redundantBlockOffset))
  }

  ghost function Block(env: UbootEnv, primary: bool): nat {
    if primary then env.blockOffset else env.redundantBlockOffset
  }

  /** The offset of a copy in bytes. */
  ghost function At(env: UbootEnv, primary: bool): nat {
    BLOCK_SIZE * Block(env, primary)
  }

  lemma CopiesOf(env: UbootEnv, c: Cache, disk: seq<byte>, p: bool)
    requires WellFormed(c)
    ensures Copy(OnMedium(env, disk), p) == StoredCopy(env, disk, Block(env, p)) && Copy(env.MediaOf(c), p) == env.CopyAt(c, Block(env, p))
  {
    hide View, WellFormed;
  }

  ghost predicate UntrimmedAt(c: Cache, env: UbootEnv, p: bool) {
    forall i: nat :: At(env, p) <= i < At(env, p) + env.envSize ==> !Trimmed(c.ground, i / SEGMENT_SIZE)
  }

  /** So far nothing of the environment has been written back, and no segment it lies in is marked trimmed. */
  ghost predicate Quiet(env: UbootEnv, c: Cache, m: Media) {
    OnMedium(env, c.ground.disk) == m && UntrimmedAt(c, env, true) && UntrimmedAt(c, env, false)
  }

  /** A cache in which a task has been run: m is on the disk, its result in the cache. */
  ghost predicate AfterTask(env: UbootEnv, c: Cache, m: Media, ops: seq<Op>) {
    && WellFormed(c) && Coherent(c) && DistinctStamps(c.segments) && env.Apart()
    && Quiet(env, c, m) && Inside(c.ground.limit, At(env, true) + env.envSize) && Inside(c.ground.limit, At(env, false) + env.envSize)
    && Sized(m, env.envSize) && Readable(m) && WellKept(m) && GoodOps(ops) && AllFit(m, ops, env.envSize)
    && env.MediaOf(c) == Batch(m, ops, env.envSize)
  }

  /** A disk that the flush of this cache leaves when it is cut somewhere. */
  ghost predicate IsCut(c: Cache, disk: seq<byte>)
    requires WellFormed(c)
  {
    exists order: seq<nat>, reached: nat, n: nat :: CutFlush(c, disk, order, reached, n)
  }

  /** A copy that is neither the old nor the new one fails its checksum. */
  ghost predicate TornFails(m: Media, now: Media, x: Media)
    requires |x.primary| >= 5 && |x.secondary| >= 5
  {
    forall p: bool :: Copy(x, p) == Copy(m, p) || Copy(x, p) == Copy(now, p) || !Decodes(Copy(x, p))
  }

  /** Wherever the flush is cut, the reader finds the environment after some of the operations, from the first on. */
  ghost predicate AllCutsSafe(env: UbootEnv, c: Cache, m: Media, ops: seq<Op>)
    requires WellFormed(c) && Sized(m, env.envSize)
  {
    forall disk: seq<byte> :: IsCut(c, disk) && TornFails(m, env.MediaOf(c), OnMedium(env, disk)) ==>
      Safe(m, ops, env.envSize, OnMedium(env, disk))
  }

  /** All that changes in one copy is written before anything that changes in the other. */
  ghost predicate CopyFirst(env: UbootEnv, c: Cache, first: bool)
    requires WellFormed(c)
  {
    RangeFirst(c, At(env, first), At(env, !first), env.envSize)
  }

  // ----- Bytes and copies -----

  lemma CopySeen(env: UbootEnv, c: Cache, disk: seq<byte>, p: bool)
    requires WellFormed(c)
    ensures Copy(OnMedium(env, disk), p) == Copy(env.MediaOf(c), p) <==> OnDiskAsSeen(c, disk, At(env, p), env.envSize)
  {
    CopiesOf(env, c, disk, p);
    hide View;
    if StoredCopy(env, disk, Block(env, p)) == env.CopyAt(c, Block(env, p)) {
      forall i: nat | At(env, p) <= i < At(env, p) + env.envSize
        ensures DiskAt(disk, i) == View(c, i)
      {
        assert StoredCopy(env, disk, Block(env, p))[i - At(env, p)] == env.CopyAt(c, Block(env, p))[i - At(env, p)];
      }
    }
  }

  lemma CopyKept(env: UbootEnv, c: Cache, disk: seq<byte>, p: bool)
    ensures Copy(OnMedium(env, disk), p) == Copy(OnMedium(env, c.ground.disk), p) <==> OnDiskAsBefore(c, disk, At(env, p), env.envSize)
  {
    var b := Block(env, p);
    if StoredCopy(env, disk, b) == StoredCopy(env, c.ground.disk, b) {
      forall i: nat | At(env, p) <= i < At(env, p) + env.envSize
        ensures DiskAt(disk, i) == DiskAt(c.ground.disk, i)
      {
        assert StoredCopy(env, disk, b)[i - At(env, p)] == StoredCopy(env, c.ground.disk, b)[i - At(env, p)];
      }
    }
  }

  lemma CopiesSettled(env: UbootEnv, c: Cache, m: Media, ops: seq<Op>, p: bool)
    requires AfterTask(env, c, m, ops)
    ensures Settled(c, At(env, p), env.envSize)
  {
    hide View, ReadOf, Batch, AllFit, WellKept, Readable, Coherent, WellFormed;
    UntrimmedSettled(c, At(env, p), env.envSize);
  }

  /** Byte k of a copy differs between the cache and the disk exactly when it does between the old and the new copy. */
  lemma ByteDiffers(env: UbootEnv, c: Cache, m: Media, ops: seq<Op>, p: bool, k: nat)
    requires AfterTask(env, c, m, ops) && k < env.envSize
    ensures Differs(c, At(env, p) + k) <==> Copy(m, p)[k] != Copy(env.MediaOf(c), p)[k]
  {
    hide AfterTask, View, WellFormed;
    StateFacts(env, c, m, ops);
    CopiesOf(env, c, c.ground.disk, p);
    ByteOfCopy(env, c, p, k);
  }

  lemma ByteOfCopy(env: UbootEnv, c: Cache, p: bool, k: nat)
    requires WellFormed(c) && k < env.envSize
    ensures StoredCopy(env, c.ground.disk, Block(env, p))[k] == DiskAt(c.ground.disk, At(env, p) + k)
    ensures env.CopyAt(c, Block(env, p))[k] == View(c, At(env, p) + k)
  {
    hide View, WellFormed;
  }

  lemma StateFacts(env: UbootEnv, c: Cache, m: Media, ops: seq<Op>)
    requires AfterTask(env, c, m, ops)
    ensures WellFormed(c) && DistinctStamps(c.segments) && env.Apart() && Sized(m, env.envSize) && OnMedium(env, c.ground.disk) == m
  {
    hide View, ReadOf, Batch, AllFit, WellKept, Readable, Coherent, WellFormed;
  }

  lemma UnchangedKept(env: UbootEnv, c: Cache, disk: seq<byte>, m: Media, ops: seq<Op>, p: bool)
    requires AfterTask(env, c, m, ops) && IsCut(c, disk) && Copy(env.MediaOf(c), p) == Copy(m, p)
    ensures Copy(OnMedium(env, disk), p) == Copy(m, p)
  {
    CopySeen(env, c, c.ground.disk, p);
    CopySeen(env, c, disk, p);
    var order: seq<nat>, reached: nat, n: nat :| CutFlush(c, disk, order, reached, n);
    hide View, ReadOf, Batch, AllFit, WellKept, Readable, Coherent, WellFormed, UntrimmedAt, CutFlush;
    forall i: nat | At(env, p) <= i < At(env, p) + env.envSize
      ensures DiskAt(disk, i) == View(c, i)
    {
      WrittenOrNot(c, disk, order, reached, n, i);
    }
  }

  /** What a cut leaves of the two copies, if a mixture of old and new fails its checksum. */
  lemma CutLeaves(env: UbootEnv, c: Cache, disk: seq<byte>, m: Media, ops: seq<Op>)
    requires AfterTask(env, c, m, ops) && IsCut(c, disk) && TornFails(m, env.MediaOf(c), OnMedium(env, disk))
    ensures CutMedia(m, env.MediaOf(c), OnMedium(env, disk), env.envSize)
  {
    hide View, ReadOf, Batch, AllFit, WellKept, Readable, Coherent, WellFormed, UntrimmedAt, IsCut, Decodes;
    var now, x := env.MediaOf(c), OnMedium(env, disk);
    assert Copy(m, true) == m.primary && Copy(now, true) == now.primary && Copy(x, true) == x.primary;
    assert Copy(m, false) == m.secondary && Copy(now, false) == now.secondary && Copy(x, false) == x.secondary;
    if now.primary == m.primary {
      UnchangedKept(env, c, disk, m, ops, true);
    }
    if now.secondary == m.secondary {
      UnchangedKept(env, c, disk, m, ops, false);
    }
  }

  /** The second copy is as before, or all of the first one is there. */
  lemma FirstThere(env: UbootEnv, c: Cache, disk: seq<byte>, m: Media, ops: seq<Op>, first: bool)
    requires AfterTask(env, c, m, ops) && IsCut(c, disk) && CopyFirst(env, c, first)
    ensures var x := OnMedium(env, disk); Copy(x, !first) == Copy(m, !first) || Copy(x, first) == Copy(env.MediaOf(c), first)
  {
    CopiesSettled(env, c, m, ops, first);
    CopySeen(env, c, disk, first);
    CopyKept(env, c, disk, !first);
    var order: seq<nat>, reached: nat, n: nat :| CutFlush(c, disk, order, reached, n);
    EarlierReachFirst(c, disk, order, reached, n, At(env, first), At(env, !first), env.envSize);
    hide View, ReadOf, Batch, AllFit, WellKept, Readable, Coherent, WellFormed, UntrimmedAt, CutFlush, Settled, RangeFirst, Copy, OnMedium;
  }

  /** Safe: the copy written first does not change, or the other one holds an environment of the task to begin with. */
  lemma SafeCut(env: UbootEnv, c: Cache, disk: seq<byte>, m: Media, ops: seq<Op>, first: bool)
    requires AfterTask(env, c, m, ops) && CopyFirst(env, c, first)
    requires IsCut(c, disk) && TornFails(m, env.MediaOf(c), OnMedium(env, disk))
    requires Copy(env.MediaOf(c), first) == Copy(m, first) || Known(Current(m), ops, env.envSize, Copy(m, !first))
    ensures Safe(m, ops, env.envSize, OnMedium(env, disk))
  {
    hide View, ReadOf, Batch, AllFit, WellKept, Readable, Coherent, WellFormed, Quiet, IsCut, Known, Safe, CopyFirst, TornFails, Current;
    CutLeaves(env, c, disk, m, ops);
    FirstThere(env, c, disk, m, ops, first);
    FirstCopySafe(m, ops, env.envSize, OnMedium(env, disk), first);
  }

  // ----- The cut right behind the first byte of the checksum that changes -----

  /** The checksum of a copy is written before the rest of it. */
  ghost predicate HeaderFirst(env: UbootEnv, c: Cache, p: bool)
    requires WellFormed(c)
  {
    forall h: nat, i: nat :: At(env, p) <= h < At(env, p) + 4 <= i < At(env, p) + env.envSize && Differs(c, h) && Differs(c, i) ==> Ahead(c, h, i)
  }

  predicate ChecksumsDiffer(a: seq<byte>, b: seq<byte>)
    requires |a| >= 5 && |b| >= 5
  {
    exists k: nat :: k < 4 && a[k] != b[k]
  }

  lemma FirstDifference(a: seq<byte>, b: seq<byte>) returns (d: nat)
    requires |a| >= 5 && |b| >= 5 && ChecksumsDiffer(a, b)
    ensures d < 4 && a[d] != b[d] && forall k :: 0 <= k < d ==> a[k] == b[k]
  {
    d := if a[0] != b[0] then 0 else if a[1] != b[1] then 1 else if a[2] != b[2] then 2 else 3;
  }

  lemma SameSegment(env: UbootEnv, p: bool, k: nat, l: nat)
    requires k < BLOCK_SIZE && l < BLOCK_SIZE
    ensures SegmentBase(At(env, p) + k) == SegmentBase(At(env, p) + l)
  {
    OneBlock(Block(env, p), k);
    OneBlock(Block(env, p), l);
  }

  lemma OneBlock(block: nat, k: nat)
    requires k < BLOCK_SIZE
    ensures SegmentBase(BLOCK_SIZE * block + k) == SegmentBase(BLOCK_SIZE * block)
  {
    var q, r := block / 256, block % 256;
    assert BLOCK_SIZE * block == SEGMENT_SIZE * q + BLOCK_SIZE * r;
    hide SegmentBase;
    BaseOf(q, BLOCK_SIZE * r + k);
    BaseOf(q, BLOCK_SIZE * r);
  }

  lemma BaseOf(q: nat, r: nat)
    requires r < SEGMENT_SIZE
    ensures SegmentBase(SEGMENT_SIZE * q + r) == SEGMENT_SIZE * q
  {
  }

  lemma BaseIs(base: nat, i: nat)
    requires base % SEGMENT_SIZE == 0 && base <= i < base + SEGMENT_SIZE
    ensures SegmentBase(i) == base
  {
    assert base == SEGMENT_SIZE * (base / SEGMENT_SIZE);
    BaseOf(base / SEGMENT_SIZE, i - base);
    hide SegmentBase;
  }

  /** In one segment the lower byte is ahead. */
  lemma LowerAhead(c: Cache, i: nat, j: nat)
    requires WellFormed(c) && SettledByte(c, i) && Differs(c, i) && SegmentBase(i) == SegmentBase(j) && i < j
    ensures Ahead(c, i, j)
  {
    hide View;
    var k: nat :| k < |c.segments| && Dirty(c.segments[k]) && c.segments[k].offset == SegmentBase(i);
    DirtyFound(c, k);
  }

  ghost predicate InCopy(env: UbootEnv, p: bool, i: nat) {
    At(env, p) <= i < At(env, p) + env.envSize
  }

  /** Of all that changes in the two copies, byte y of copy p is written first. */
  ghost predicate FirstChanged(env: UbootEnv, c: Cache, p: bool, y: nat)
    requires WellFormed(c)
  {
    && InCopy(env, p, y) && Differs(c, y)
    && forall i: nat :: (InCopy(env, p, i) || InCopy(env, !p, i)) && Differs(c, i) && i != y ==> Ahead(c, y, i)
  }

  lemma ChecksumFirst(env: UbootEnv, c: Cache, m: Media, ops: seq<Op>, p: bool) returns (d: nat)
    requires AfterTask(env, c, m, ops) && CopyFirst(env, c, p) && HeaderFirst(env, c, p)
    requires ChecksumsDiffer(Copy(m, p), Copy(env.MediaOf(c), p))
    ensures d < 4 && Copy(m, p)[d] != Copy(env.MediaOf(c), p)[d] && FirstChanged(env, c, p, At(env, p) + d)
  {
    StateFacts(env, c, m, ops);
    hide Ahead, View, SettledByte, WellFormed, AfterTask, UbootEnv.MediaOf, OnMedium;
    d := FirstDifference(Copy(m, p), Copy(env.MediaOf(c), p));
    ByteDiffers(env, c, m, ops, p, d);
    hide CopyFirst, HeaderFirst, Differs, At, InCopy;
    forall i: nat | (InCopy(env, p, i) || InCopy(env, !p, i)) && Differs(c, i) && i != At(env, p) + d
      ensures Ahead(c, At(env, p) + d, i)
    {
      BehindChecksum(env, c, m, ops, p, d, i);
    }
    InItsCopy(env, p, d);
  }

  lemma InItsCopy(env: UbootEnv, p: bool, k: nat)
    requires k < env.envSize
    ensures InCopy(env, p, At(env, p) + k)
  {
  }

  lemma BehindChecksum(env: UbootEnv, c: Cache, m: Media, ops: seq<Op>, p: bool, d: nat, i: nat)
    requires AfterTask(env, c, m, ops) && WellFormed(c) && CopyFirst(env, c, p) && HeaderFirst(env, c, p) && d < 4
    requires Differs(c, At(env, p) + d) && (forall q :: 0 <= q < d ==> Copy(m, p)[q] == Copy(env.MediaOf(c), p)[q])
    requires (InCopy(env, p, i) || InCopy(env, !p, i)) && Differs(c, i) && i != At(env, p) + d
    ensures Ahead(c, At(env, p) + d, i)
  {
    hide Ahead, View, WellFormed, Coherent, Quiet, ReadOf, Batch, AllFit, WellKept, Readable, UbootEnv.MediaOf;
    if At(env, p) <= i < At(env, p) + 4 {
      InChecksum(env, c, m, ops, p, d, i - At(env, p));
    }
  }

  lemma InChecksum(env: UbootEnv, c: Cache, m: Media, ops: seq<Op>, p: bool, d: nat, k: nat)
    requires AfterTask(env, c, m, ops) && d < 4 && k < 4 && k != d && Differs(c, At(env, p) + k) && Differs(c, At(env, p) + d)
    requires forall q :: 0 <= q < d ==> Copy(m, p)[q] == Copy(env.MediaOf(c), p)[q]
    ensures Ahead(c, At(env, p) + d, At(env, p) + k)
  {
    hide View, ReadOf, Batch, AllFit, WellKept, Readable, Coherent, WellFormed, Quiet, Ahead, SegmentBase, SettledByte, At, UbootEnv.MediaOf;
    ByteDiffers(env, c, m, ops, p, k);
    SameSegment(env, p, d, k);
    ByteSettled(env, c, m, ops, p, d);
    LowerAhead(c, At(env, p) + d, At(env, p) + k);
  }

  lemma ByteSettled(env: UbootEnv, c: Cache, m: Media, ops: seq<Op>, p: bool, k: nat)
    requires AfterTask(env, c, m, ops) && k < env.envSize
    ensures SettledByte(c, At(env, p) + k)
  {
    hide View, ReadOf, Batch, AllFit, WellKept, Readable, Coherent, WellFormed, Quiet, SettledByte;
    CopiesSettled(env, c, m, ops, p);
  }

  /** The cut right behind that byte has changed nothing else. */
  lemma FirstByteCut(env: UbootEnv, c: Cache, m: Media, ops: seq<Op>, p: bool, d: nat) returns (disk: seq<byte>)
    requires AfterTask(env, c, m, ops) && d < env.envSize && FirstChanged(env, c, p, At(env, p) + d)
    ensures IsCut(c, disk)
    ensures Copy(OnMedium(env, disk), p) == Copy(m, p)[d := Copy(env.MediaOf(c), p)[d]]
    ensures Copy(OnMedium(env, disk), !p) == Copy(m, !p)
  {
    var y := At(env, p) + d;
    StateFacts(env, c, m, ops);
    CopiesSettled(env, c, m, ops, p);
    CopiesSettled(env, c, m, ops, !p);
    hide View, WellFormed, Ahead, CutFlush, SettledByte, UbootEnv.MediaOf, AfterTask, OnMedium;
    assert SettledByte(c, y);
    var order, reached, n;
    disk, order, reached, n := CutRight(c, y);
    assert FirstChanged(env, c, p, y);
    hide FirstChanged, Differs, Settled, At;
    forall i: nat | (InCopy(env, p, i) || InCopy(env, !p, i)) && i != y
      ensures DiskAt(disk, i) == DiskAt(c.ground.disk, i)
    {
      InSettled(env, c, p, i);
      BehindFirst(env, c, p, y, i);
      NotYetWritten(c, disk, order, reached, n, y, i);
    }
    OneByteWritten(env, c, disk, m, p, d);
  }

  lemma InSettled(env: UbootEnv, c: Cache, p: bool, i: nat)
    requires WellFormed(c) && Settled(c, At(env, p), env.envSize) && Settled(c, At(env, !p), env.envSize)
    requires InCopy(env, p, i) || InCopy(env, !p, i)
    ensures SettledByte(c, i)
  {
    hide SettledByte, WellFormed;
  }

  lemma BehindFirst(env: UbootEnv, c: Cache, p: bool, y: nat, i: nat)
    requires WellFormed(c) && FirstChanged(env, c, p, y) && (InCopy(env, p, i) || InCopy(env, !p, i)) && i != y
    ensures Differs(c, y) && (Differs(c, i) ==> Ahead(c, y, i))
  {
    hide Ahead, Differs, WellFormed;
  }

  lemma NotYetWritten(c: Cache, disk: seq<byte>, order: seq<nat>, reached: nat, n: nat, y: nat, i: nat)
    requires WellFormed(c) && DistinctStamps(c.segments) && CutFlush(c, disk, order, reached, n) && i != y
    requires Differs(c, y) && SettledByte(c, y) && SettledByte(c, i) && (Differs(c, i) ==> Ahead(c, y, i))
    requires Differs(c, i) ==> (DiskAt(disk, i) == View(c, i) <==> i == y || Ahead(c, i, y))
    ensures DiskAt(disk, i) == DiskAt(c.ground.disk, i)
  {
    hide View, WellFormed, Ahead, CutFlush, SettledByte;
    WrittenOrNot(c, disk, order, reached, n, i);
    if Differs(c, i) {
      AheadTotal(c, i, y);
    }
  }

  lemma OneByteWritten(env: UbootEnv, c: Cache, disk: seq<byte>, m: Media, p: bool, d: nat)
    requires WellFormed(c) && OnMedium(env, c.ground.disk) == m && d < env.envSize && env.Apart()
    requires DiskAt(disk, At(env, p) + d) == View(c, At(env, p) + d)
    requires forall i: nat :: (InCopy(env, p, i) || InCopy(env, !p, i)) && i != At(env, p) + d ==> DiskAt(disk, i) == DiskAt(c.ground.disk, i)
    ensures Copy(OnMedium(env, disk), p) == Copy(m, p)[d := Copy(env.MediaOf(c), p)[d]]
    ensures Copy(OnMedium(env, disk), !p) == Copy(m, !p)
  {
    hide View, WellFormed;
    CopiesOf(env, c, disk, p);
    CopiesOf(env, c, disk, !p);
    CopiesOf(env, c, c.ground.disk, p);
    CopiesOf(env, c, c.ground.disk, !p);
  }

  /**
   * Cut right behind the first byte of the checksum that changes, the copy written first fails its checksum and the
   * reader falls back on the other one, whatever that holds.
   */
  lemma FallenBack(env: UbootEnv, c: Cache, m: Media, ops: seq<Op>, p: bool) returns (disk: seq<byte>)
    requires AfterTask(env, c, m, ops) && CopyFirst(env, c, p) && HeaderFirst(env, c, p)
    requires ChecksumsDiffer(Copy(m, p), Copy(env.MediaOf(c), p)) && !Known(Current(m), ops, env.envSize, Copy(m, !p))
    ensures IsCut(c, disk) && TornFails(m, env.MediaOf(c), OnMedium(env, disk))
    ensures var x := OnMedium(env, disk);
            && Sized(x, env.envSize) && !Safe(m, ops, env.envSize, x)
            && (Readable(x) <==> Decodes(Copy(m, !p))) && (Readable(x) ==> Current(x) == SortByName(Vars(Copy(m, !p))))
  {
    hide View, ReadOf, Batch, AllFit, WellKept, Readable, Coherent, WellFormed, Quiet, FirstChanged, CopyFirst, HeaderFirst, UbootEnv.MediaOf;
    hide Known, Safe, Current, IsCut, Vars, SortByName, Decodes;
    var d := ChecksumFirst(env, c, m, ops, p);
    disk := FirstByteCut(env, c, m, ops, p, d);
    InUse(m, ops, env.envSize, p);
    OneByteTorn(Copy(m, p), d, Copy(env.MediaOf(c), p)[d]);
    FallsBack(m, ops, env.envSize, OnMedium(env, disk), p);
    OneTorn(m, env.MediaOf(c), OnMedium(env, disk), p);
  }

  /** The copy in use holds the environment from before the task, so if one copy holds none of the task's it is the other. */
  lemma InUse(m: Media, ops: seq<Op>, size: nat, p: bool)
    requires Sized(m, size) && Readable(m) && !Known(Current(m), ops, size, Copy(m, !p))
    ensures Decodes(Copy(m, p))
  {
    hide Current, Decodes, ReadOf;
    NewestKnown(m, ops, size);
    KnownDecodes(Current(m), ops, size, Newest(m, m));
    hide Known;
  }

  lemma OneByteTorn(d: seq<byte>, k: nat, v: byte)
    requires |d| >= 5 && Decodes(d) && k < 4 && v != d[k]
    ensures !Decodes(d[k := v])
  {
    ChecksumTorn(d, k, v);
  }

  lemma OneTorn(m: Media, now: Media, x: Media, p: bool)
    requires |x.primary| >= 5 && |x.secondary| >= 5 && !Decodes(Copy(x, p)) && Copy(x, !p) == Copy(m, !p)
    ensures TornFails(m, now, x)
  {
    hide Decodes;
    forall q: bool
      ensures Copy(x, q) == Copy(m, q) || Copy(x, q) == Copy(now, q) || !Decodes(Copy(x, q))
    {
      assert q == p || q == !p;
    }
  }

  /**
   * With one copy written before the other, every cut is safe exactly when the first one does not change or the second
   * one holds, before the task, an environment of the task.
   */
  lemma CutsIff(env: UbootEnv, c: Cache, m: Media, ops: seq<Op>, first: bool)
    requires AfterTask(env, c, m, ops) && CopyFirst(env, c, first) && HeaderFirst(env, c, first)
    requires Copy(env.MediaOf(c), first) != Copy(m, first) ==> ChecksumsDiffer(Copy(m, first), Copy(env.MediaOf(c), first))
    ensures AllCutsSafe(env, c, m, ops) <==>
            Copy(env.MediaOf(c), first) == Copy(m, first) || Known(Current(m), ops, env.envSize, Copy(m, !first))
  {
    hide View, ReadOf, Batch, AllFit, WellKept, Readable, Coherent, WellFormed, Quiet, CopyFirst, HeaderFirst, UbootEnv.MediaOf;
    hide Known, Safe, Current, IsCut, TornFails, ChecksumsDiffer;
    if Copy(env.MediaOf(c), first) == Copy(m, first) || Known(Current(m), ops, env.envSize, Copy(m, !first)) {
      forall disk: seq<byte> | IsCut(c, disk) && TornFails(m, env.MediaOf(c), OnMedium(env, disk))
        ensures Safe(m, ops, env.envSize, OnMedium(env, disk))
      {
        SafeCut(env, c, disk, m, ops, first);
      }
    } else {
      var disk := FallenBack(env, c, m, ops, first);
    }
  }

  // ----- Where the copies lie -----

  /** Both copies lie in one segment of the cache. */
  ghost predicate OneSegment(env: UbootEnv) {
    var base := SegmentBase(At(env, true));
    base == SegmentBase(At(env, false)) && At(env, true) + env.envSize <= base + SEGMENT_SIZE && At(env, false) + env.envSize <= base + SEGMENT_SIZE
  }

  /** The copy that reaches the disk first: the lower one of a segment, or else the one not written last. */
  ghost predicate FirstIsPrimary(env: UbootEnv, m: Media, ops: seq<Op>)
    requires Sized(m, env.envSize)
  {
    if OneSegment(env) then At(env, true) < At(env, false) else ops == [] || !LastIsPrimary(m, ops, env.envSize)
  }

  /** The order in which the task accessed the segments. */
  ghost predicate InOrder(env: UbootEnv, c: Cache, m: Media, ops: seq<Op>)
    requires Sized(m, env.envSize)
  {
    ops != [] ==>
      && env.LatestCopy(c.segments, Block(env, LastIsPrimary(m, ops, env.envSize)))
      && (env.OwnSegments() ==> env.BothRising(c.segments))
  }

  lemma DirtyAt(c: Cache, i: nat) returns (k: nat)
    requires WellFormed(c) && SettledByte(c, i) && Differs(c, i)
    ensures k < |c.segments| && c.segments[k].inUse && c.segments[k].offset == SegmentBase(i) && Find(c.segments, SegmentBase(i)) == k
  {
    hide View, WellFormed;
    k :| k < |c.segments| && Dirty(c.segments[k]) && c.segments[k].offset == SegmentBase(i);
    DirtyFound(c, k);
  }

  lemma BaseGrows(a: nat, b: nat)
    requires a <= b
    ensures SegmentBase(a) <= SegmentBase(b) <= b
  {
  }

  lemma OwnOrder(env: UbootEnv, c: Cache, last: bool, i: nat, j: nat)
    requires WellFormed(c) && env.OwnSegments() && env.LatestCopy(c.segments, Block(env, last))
    requires InCopy(env, !last, i) && InCopy(env, last, j) && Differs(c, i) && Differs(c, j) && SettledByte(c, i) && SettledByte(c, j)
    ensures Ahead(c, i, j)
  {
    hide View, WellFormed, SegmentBase, SettledByte;
    var k := DirtyAt(c, i);
    var l := DirtyAt(c, j);
    BaseGrows(At(env, !last), i);
    BaseGrows(At(env, last), j);
  }

  lemma OwnHeader(env: UbootEnv, c: Cache, p: bool, h: nat, i: nat)
    requires WellFormed(c) && env.RisingCopy(c.segments, Block(env, p)) && InCopy(env, p, h) && InCopy(env, p, i) && h < i
    requires Differs(c, i) && Differs(c, h) && SettledByte(c, i) && SettledByte(c, h)
    ensures Ahead(c, h, i)
  {
    hide View, WellFormed, SegmentBase, SettledByte;
    var k := DirtyAt(c, h);
    var l := DirtyAt(c, i);
    BaseGrows(At(env, p), h);
    BaseGrows(h, i);
  }

  lemma OneOrder(env: UbootEnv, c: Cache, i: nat, j: nat)
    requires WellFormed(c) && OneSegment(env) && (InCopy(env, true, i) || InCopy(env, false, i)) && (InCopy(env, true, j) || InCopy(env, false, j))
    requires i < j && Differs(c, i) && SettledByte(c, i)
    ensures Ahead(c, i, j)
  {
    hide View, WellFormed, SettledByte, Ahead, SegmentBase;
    BaseGrows(At(env, true), At(env, true));
    BaseGrows(At(env, false), At(env, false));
    BaseIs(SegmentBase(At(env, true)), i);
    BaseIs(SegmentBase(At(env, true)), j);
    LowerAhead(c, i, j);
  }

  lemma CopyInOrder(env: UbootEnv, c: Cache, m: Media, ops: seq<Op>)
    requires AfterTask(env, c, m, ops) && InOrder(env, c, m, ops) && (env.OwnSegments() || OneSegment(env))
    ensures CopyFirst(env, c, FirstIsPrimary(env, m, ops))
  {
    var first := FirstIsPrimary(env, m, ops);
    StateFacts(env, c, m, ops);
    CopiesSettled(env, c, m, ops, first);
    CopiesSettled(env, c, m, ops, !first);
    NothingDiffers(env, c, m, ops);
    hide View, WellFormed, AfterTask, SettledByte, Ahead, LastIsPrimary, Differs, SegmentBase, UbootEnv.LatestCopy, UbootEnv.BothRising, UbootEnv.OwnSegments;
    forall i: nat, j: nat | InCopy(env, first, i) && InCopy(env, !first, j) && Differs(c, i) && Differs(c, j)
      ensures Ahead(c, i, j)
    {
      assert SettledByte(c, i) && SettledByte(c, j);
      if OneSegment(env) {
        OneOrder(env, c, i, j);
      } else {
        OwnOrder(env, c, !first, i, j);
      }
    }
  }

  lemma HeaderInOrder(env: UbootEnv, c: Cache, m: Media, ops: seq<Op>, p: bool)
    requires AfterTask(env, c, m, ops) && InOrder(env, c, m, ops) && (env.OwnSegments() || OneSegment(env))
    ensures HeaderFirst(env, c, p)
  {
    StateFacts(env, c, m, ops);
    CopiesSettled(env, c, m, ops, p);
    NothingDiffers(env, c, m, ops);
    hide View, WellFormed, AfterTask, SettledByte, Ahead, LastIsPrimary, Differs, SegmentBase, UbootEnv.LatestCopy, UbootEnv.OwnSegments, UbootEnv.RisingCopy;
    forall h: nat, i: nat | At(env, p) <= h < At(env, p) + 4 <= i < At(env, p) + env.envSize && Differs(c, h) && Differs(c, i)
      ensures Ahead(c, h, i)
    {
      assert SettledByte(c, h) && SettledByte(c, i) && InCopy(env, p, h) && InCopy(env, p, i);
      if OneSegment(env) {
        OneOrder(env, c, h, i);
      } else {
        OwnHeader(env, c, p, h, i);
      }
    }
  }

  lemma NothingDiffers(env: UbootEnv, c: Cache, m: Media, ops: seq<Op>)
    requires AfterTask(env, c, m, ops)
    ensures ops == [] ==> forall i: nat :: InCopy(env, true, i) || InCopy(env, false, i) ==> !Differs(c, i)
  {
    hide View, ReadOf, AllFit, WellKept, Readable, Coherent, WellFormed, Quiet;
    if ops == [] {
      forall i: nat | InCopy(env, true, i) || InCopy(env, false, i)
        ensures !Differs(c, i)
      {
        if InCopy(env, true, i) {
          ByteDiffers(env, c, m, ops, true, i - At(env, true));
        } else {
          ByteDiffers(env, c, m, ops, false, i - At(env, false));
        }
      }
    }
  }

  /**
   * The exact condition, for copies in segments of their own or in one segment: every cut of the flush behind a task is
   * safe if and only if the copy that reaches the disk first does not change, or the other one holds an environment of
   * the task to begin with.
   */
  lemma TaskCutsIff(env: UbootEnv, c: Cache, m: Media, ops: seq<Op>)
    requires AfterTask(env, c, m, ops) && InOrder(env, c, m, ops) && (env.OwnSegments() || OneSegment(env))
    requires var first := FirstIsPrimary(env, m, ops);
             Copy(env.MediaOf(c), first) != Copy(m, first) ==> ChecksumsDiffer(Copy(m, first), Copy(env.MediaOf(c), first))
    ensures var first := FirstIsPrimary(env, m, ops);
            AllCutsSafe(env, c, m, ops) <==>
            Copy(env.MediaOf(c), first) == Copy(m, first) || Known(Current(m), ops, env.envSize, Copy(m, !first))
  {
    hide AfterTask, InOrder, AllCutsSafe, Known, CopyFirst, HeaderFirst, ChecksumsDiffer, UbootEnv.MediaOf, FirstIsPrimary, OneSegment;
    StateFacts(env, c, m, ops);
    CopyInOrder(env, c, m, ops);
    HeaderInOrder(env, c, m, ops, FirstIsPrimary(env, m, ops));
    CutsIff(env, c, m, ops, FirstIsPrimary(env, m, ops));
  }
}
