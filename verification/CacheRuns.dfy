/** Whole runs of the cache compared with the same runs on a plain byte array. */
module CacheRuns {
  import opened Bytes
  import opened CacheModel
  import opened FlushOrder
  import opened BlockCaching

  datatype Op =
    | Write(buf: seq<byte>, offset: nat, streamed: bool)
    | Read(count: nat, offset: nat)
    | Discard(offset: nat, size: int)
    | Sync

  function FlatStep(flat: Flat, op: Op, tracked: nat): Flat {
    match op
    case Write(buf, offset, _) => (i: nat) => if offset <= i < offset + |buf| then buf[i - offset] else flat(i)
    case Discard(offset, size) => (i: nat) => if i / SEGMENT_SIZE < tracked && WholeSegmentIn(offset, size, i / SEGMENT_SIZE) then 0 else flat(i)
    case _ => flat
  }

  function FlatRun(flat: Flat, ops: seq<Op>, tracked: nat): Flat
  {
    if ops == [] then flat else FlatRun(FlatStep(flat, ops[0], tracked), ops[1..], tracked)
  }

  /** What the reads of a run return on the byte array. */
  function FlatResults(flat: Flat, ops: seq<Op>, tracked: nat): seq<seq<byte>>
  {
    if ops == [] then []
    else
      (if ops[0].Read? then [seq(ops[0].count, (j: nat) => flat(ops[0].offset + j))] else [])
      + FlatResults(FlatStep(flat, ops[0], tracked), ops[1..], tracked)
  }

  /** Block-aligned writes inside the media, and offsets the trim bits cover. */
  predicate Allowed(op: Op, limit: Limit, tracked: nat) {
    match op
    case Write(buf, offset, _) =>
      offset % BLOCK_SIZE == 0 && |buf| % BLOCK_SIZE == 0 && offset + |buf| <= tracked * SEGMENT_SIZE && Inside(limit, offset + |buf|)
    case Read(count, offset) => offset + count <= tracked * SEGMENT_SIZE
    case _ => true
  }

  /** One operation behaves on the cache as on the byte array, or the device failed. */
  method Perform(bc: BlockCache, op: Op, ghost flat: Flat) returns (ok: bool, got: seq<seq<byte>>)
    requires bc.Valid() && Agrees(bc.State(), flat)
    requires Allowed(op, bc.MediaLimit(), 8 * |bc.trimmed|)
    modifies bc
    ensures ok <==> bc.faults == old(bc.faults)
    ensures bc.faults >= old(bc.faults)
    ensures bc.MediaLimit() == old(bc.MediaLimit()) && |bc.trimmed| == old(|bc.trimmed|)
    ensures ok ==> bc.Valid() && Agrees(bc.State(), FlatStep(flat, op, 8 * |bc.trimmed|))
    ensures ok ==> got == if op.Read? then [seq(op.count, (j: nat) => flat(op.offset + j))] else []
    ensures ok && op.Sync? ==> OnDisk(bc.State())
  {
    got := [];
    match op
    case Write(buf, offset, streamed) =>
      ok := bc.Pwrite(buf, offset, streamed);
    case Read(count, offset) =>
      var data;
      ok, data := bc.Pread(count, offset);
      if ok {
        assert data == seq(count, (j: nat) => flat(offset + j));
        got := [data];
      }
    case Discard(offset, size) =>
      bc.Trim(offset, size);
      TrimKeepsPastEnd(old(bc.State()).ground, bc.State().ground);
      ok := true;
    case Sync =>
      FlushOrderExists(bc.segments);
      ghost var reached, n;
      ok, reached, n := bc.Flush(SortedEntries(bc.segments, |bc.segments|));
  }

  lemma TrimKeepsPastEnd(u: Ground, u': Ground)
    requires PastEndTrimmed(u) && u'.limit == u.limit && |u'.trimmed| == |u.trimmed|
    requires forall n :: 0 <= n < 8 * |u.trimmed| && TrimBits.Bit(u.trimmed, n) ==> TrimBits.Bit(u'.trimmed, n)
    ensures PastEndTrimmed(u')
  {
  }

  lemma RunsOne(flat: Flat, ops: seq<Op>, i: nat, tracked: nat)
    requires i < |ops|
    ensures FlatRun(flat, ops[i..], tracked) == FlatRun(FlatStep(flat, ops[i], tracked), ops[i + 1..], tracked)
    ensures FlatResults(flat, ops[i..], tracked) ==
            (if ops[i].Read? then [seq(ops[i].count, (j: nat) => flat(ops[i].offset + j))] else [])
            + FlatResults(FlatStep(flat, ops[i], tracked), ops[i + 1..], tracked)
  {
    hide FlatStep;
    assert ops[i..][1..] == ops[i + 1..];
  }

  /**
   * Any run of operations reads from the cache what it would read from a flat byte array,
   * whatever the cache size, the streaming marks, the write options and the evictions.
   */
  method Execute(bc: BlockCache, ops: seq<Op>, ghost flat: Flat) returns (ok: bool, results: seq<seq<byte>>)
    requires bc.Valid() && Agrees(bc.State(), flat)
    requires forall k :: 0 <= k < |ops| ==> Allowed(ops[k], bc.MediaLimit(), 8 * |bc.trimmed|)
    modifies bc
    ensures ok <==> bc.faults == old(bc.faults)
    ensures ok ==> results == FlatResults(flat, ops, 8 * |bc.trimmed|)
    ensures ok ==> bc.Valid() && Agrees(bc.State(), FlatRun(flat, ops, 8 * |bc.trimmed|))
    ensures ok && ops != [] && ops[|ops| - 1].Sync? ==> OnDisk(bc.State())
  {
    hide Agrees, Coherent, PastEndTrimmed, Stamped, FlatStep, FlatRun, FlatResults, OnDisk;
    results := [];
    ghost var tracked := 8 * |bc.trimmed|;
    ghost var now := flat;
    var i := 0;
    while i < |ops|
      invariant 0 <= i <= |ops|
      invariant bc.faults == old(bc.faults) && 8 * |bc.trimmed| == tracked && bc.MediaLimit() == old(bc.MediaLimit())
      invariant bc.Valid() && Agrees(bc.State(), now)
      invariant FlatRun(now, ops[i..], tracked) == FlatRun(flat, ops, tracked)
      invariant results + FlatResults(now, ops[i..], tracked) == FlatResults(flat, ops, tracked)
      invariant i > 0 && ops[i - 1].Sync? ==> OnDisk(bc.State())
    {
      var got;
      ok, got := Perform(bc, ops[i], now);
      if !ok {
        return;
      }
      RunsOne(now, ops, i, tracked);
      results := results + got;
      now := FlatStep(now, ops[i], tracked);
      i := i + 1;
    }
    RunsNone(now, ops, tracked);
    ok := true;
  }

  lemma RunsNone(flat: Flat, ops: seq<Op>, tracked: nat)
    ensures FlatRun(flat, ops[|ops|..], tracked) == flat && FlatResults(flat, ops[|ops|..], tracked) == []
  {
  }
}
