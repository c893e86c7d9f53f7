/** The order in which a flush visits the cached segments: least recently used first. */
module FlushOrder {
  import opened Bytes
  import opened SegmentFlags
  import opened CacheModel

  ghost predicate Dirty(g: Segment) {
    g.inUse && |g.flags| == FLAG_BYTES && !Clean(g.flags)
  }

  /** A dirty entry is still dirty, and starts inside the media, after its missing blocks were read in. */
  lemma FilledStaysDirty(c: Cache, c': Cache, k: nat)
    requires WellFormed(c) && k < |c.segments| && Dirty(c.segments[k])
    requires Coherent(c') && (c' == c || Filled(c, c', k))
    ensures OnlyEntry(c, c', k) && c'.ground == c.ground
    ensures c'.segments[k] == c.segments[k].(data := c'.segments[k].data, flags := c'.segments[k].flags)
    ensures ShapeOk(c'.segments[k]) && DirtyOk(c'.ground.limit, c'.segments[k]) && Dirty(c'.segments[k])
    ensures Inside(c'.ground.limit, c'.segments[k].offset + BLOCK_SIZE)
  {
    assert SegmentOk(c'.ground, c'.segments[k]);
    var b :| 0 <= b < BLOCKS_PER_SEGMENT && IsDirty(c.segments[k].flags, b);
    assert IsDirty(c'.segments[k].flags, b);
    DirtyStartsInside(c'.ground.limit, c'.segments[k]);
  }

  /** Entry a sorts before entry b: in-use entries first, by increasing last access. */
  predicate Before(a: Segment, b: Segment) {
    b.inUse ==> a.inUse && a.lastAccess < b.lastAccess
  }

  /** A permutation of the entries that respects the least-recently-used comparison. */
  ghost predicate IsFlushOrder(segments: seq<Segment>, order: seq<nat>) {
    Arranges(segments, order, |segments|)
  }

  /** The entries before n, each once, in that order. */
  ghost predicate Arranges(segments: seq<Segment>, order: seq<nat>, n: nat) {
    && |order| == n <= |segments|
    && (forall a :: 0 <= a < |order| ==> order[a] < n)
    && (forall k :: 0 <= k < n ==> k in order)
    && (forall a, b :: 0 <= a < b < |order| ==> order[a] != order[b])
    && (forall a, b :: 0 <= a < b < |order| ==> Before(segments[order[a]], segments[order[b]]))
  }

  /** The dirty entries among `order`, in that order. */
  ghost function DirtyAlong(segments: seq<Segment>, order: seq<nat>): (r: seq<nat>)
    requires forall a :: 0 <= a < |order| ==> order[a] < |segments|
    ensures forall a :: 0 <= a < |r| ==> r[a] < |segments|
    ensures forall k :: k in r <==> k in order && Dirty(segments[k])
  {
    if order == [] then []
    else
      var last := order[|order| - 1];
      DirtyAlong(segments, order[..|order| - 1]) + if Dirty(segments[last]) then [last] else []
  }

  ghost function Offsets(segments: seq<Segment>, ks: seq<nat>): (r: seq<nat>)
    requires forall a :: 0 <= a < |ks| ==> ks[a] < |segments|
    ensures |r| == |ks| && forall a :: 0 <= a < |ks| ==> r[a] == segments[ks[a]].offset
  {
    seq(|ks|, a requires 0 <= a < |ks| => segments[ks[a]].offset)
  }

  /** The offsets a flush writes back while visiting the first i entries of its order. */
  ghost function FlushLog(segments: seq<Segment>, order: seq<nat>, i: nat): seq<nat>
    requires i <= |order|
    requires forall a :: 0 <= a < |order| ==> order[a] < |segments|
  {
    Offsets(segments, DirtyAlong(segments, order[..i]))
  }

  lemma LogStep(segments: seq<Segment>, order: seq<nat>, i: nat)
    requires forall a :: 0 <= a < |order| ==> order[a] < |segments|
    requires i < |order|
    ensures FlushLog(segments, order, i + 1) ==
            FlushLog(segments, order, i) + (if Dirty(segments[order[i]]) then [segments[order[i]].offset] else [])
  {
    assert order[..i + 1][..i] == order[..i];
  }

  /** The first i entries of the order have been cleaned, the rest are as they were. */
  ghost predicate FlushedTo(first: seq<Segment>, segments: seq<Segment>, order: seq<nat>, i: nat)
    requires IsFlushOrder(first, order)
  {
    && |segments| == |first| && i <= |order|
    && (forall a :: 0 <= a < i && segments[order[a]].inUse ==> |segments[order[a]].flags| == FLAG_BYTES && Clean(segments[order[a]].flags))
    && (forall a :: i <= a < |order| ==> segments[order[a]] == first[order[a]])
  }

  lemma NothingFlushed(segments: seq<Segment>, order: seq<nat>)
    requires IsFlushOrder(segments, order)
    ensures FlushedTo(segments, segments, order, 0) && FlushLog(segments, order, 0) == []
  {
  }

  lemma NotYetFlushed(first: seq<Segment>, segments: seq<Segment>, order: seq<nat>, i: nat)
    requires IsFlushOrder(first, order) && FlushedTo(first, segments, order, i) && i < |order|
    ensures order[i] < |segments| && segments[order[i]] == first[order[i]]
  {
  }

  lemma FlushedOneMore(first: seq<Segment>, segments: seq<Segment>, segments': seq<Segment>, order: seq<nat>, i: nat)
    requires IsFlushOrder(first, order) && FlushedTo(first, segments, order, i) && i < |order|
    requires |segments'| == |segments| && segments' == segments[order[i] := segments'[order[i]]]
    requires segments'[order[i]].inUse ==> |segments'[order[i]].flags| == FLAG_BYTES && Clean(segments'[order[i]].flags)
    ensures FlushedTo(first, segments', order, i + 1)
  {
  }

  /** Once the whole order has been flushed, what a reader sees is on the disk wherever it is not trimmed. */
  lemma FlushedViewIsDisk(first: seq<Segment>, c: Cache, order: seq<nat>)
    requires IsFlushOrder(first, order) && FlushedTo(first, c.segments, order, |order|) && Coherent(c)
    ensures OnDisk(c)
  {
    forall k | 0 <= k < |c.segments| && c.segments[k].inUse
      ensures Clean(c.segments[k].flags)
    {
      assert k in order;
      var a :| 0 <= a < |order| && order[a] == k;
    }
    forall i: nat | !Trimmed(c.ground, i / SEGMENT_SIZE) && Inside(c.ground.limit, i + 1)
      ensures DiskAt(c.ground.disk, i) == View(c, i)
    {
      CleanViewIsDisk(c, i);
    }
  }

  ghost predicate Ascending(segments: seq<Segment>, ks: seq<nat>)
    requires forall a :: 0 <= a < |ks| ==> ks[a] < |segments|
  {
    forall a, b :: 0 <= a < b < |ks| ==> segments[ks[a]].lastAccess < segments[ks[b]].lastAccess
  }

  lemma {:induction false} DirtyAlongSorted(segments: seq<Segment>, order: seq<nat>)
    requires forall a :: 0 <= a < |order| ==> order[a] < |segments|
    requires forall a, b :: 0 <= a < b < |order| ==> Before(segments[order[a]], segments[order[b]])
    ensures Ascending(segments, DirtyAlong(segments, order))
  {
    if order != [] {
      var n := |order| - 1;
      DirtyAlongSorted(segments, order[..n]);
      var r, init := DirtyAlong(segments, order), DirtyAlong(segments, order[..n]);
      forall a, b | 0 <= a < b < |r|
        ensures segments[r[a]].lastAccess < segments[r[b]].lastAccess
      {
        if b < |init| {
          assert r[a] == init[a] && r[b] == init[b];
        } else {
          assert r[b] == order[n] && Dirty(segments[order[n]]);
          assert r[a] == init[a] && init[a] in init;
          assert r[a] in order[..n];
          var p :| 0 <= p < n && order[p] == r[a];
          assert Before(segments[order[p]], segments[order[n]]);
        }
      }
    }
  }

  /**
   * However far into its order a flush got, the segments it wrote back are closed downward in
   * access order: none of them is on the disk while an older dirty one is not.
   */
  lemma FlushPrefixDownwardClosed(segments: seq<Segment>, order: seq<nat>, i: nat, older: nat, newer: nat)
    requires IsFlushOrder(segments, order) && i <= |order|
    requires older < |segments| && newer < |segments|
    requires Dirty(segments[older]) && Dirty(segments[newer])
    requires segments[older].lastAccess < segments[newer].lastAccess
    requires newer in DirtyAlong(segments, order[..i])
    ensures older in DirtyAlong(segments, order[..i])
  {
    assert older in order && newer in order[..i];
    assert forall p, q :: 0 <= p < q < |order| ==> Before(segments[order[p]], segments[order[q]]);
    var a, b :| 0 <= a < |order| && order[a] == older && 0 <= b < i && order[b] == newer;
    assert order[..i][a] == older;
  }

  /** A flush writes back in access order, each dirty segment exactly once. */
  lemma FlushWritesOldestFirst(segments: seq<Segment>, order: seq<nat>)
    requires IsFlushOrder(segments, order)
    ensures Ascending(segments, DirtyAlong(segments, order))
    ensures forall k :: k in DirtyAlong(segments, order) <==> 0 <= k < |segments| && Dirty(segments[k])
  {
    DirtyAlongSorted(segments, order);
  }

  ghost predicate DistinctStamps(segments: seq<Segment>) {
    forall k, m :: 0 <= k < m < |segments| && segments[k].inUse && segments[m].inUse ==>
      segments[k].lastAccess != segments[m].lastAccess
  }

  /** In-use entries carry distinct access stamps, all of them in the past. */
  ghost predicate Stamped(segments: seq<Segment>, timestamp: nat) {
    && DistinctStamps(segments)
    && forall k :: 0 <= k < |segments| && segments[k].inUse ==> segments[k].lastAccess < timestamp
  }

  lemma StampsKept(segments: seq<Segment>, k: nat, g: Segment, timestamp: nat)
    requires Stamped(segments, timestamp) && k < |segments|
    requires g.inUse ==> segments[k].inUse && g.lastAccess == segments[k].lastAccess
    ensures Stamped(segments[k := g], timestamp)
  {
  }

  lemma StampsAdvanced(segments: seq<Segment>, k: nat, g: Segment, timestamp: nat)
    requires Stamped(segments, timestamp) && k < |segments| && g.lastAccess == timestamp
    ensures Stamped(segments[k := g], timestamp + 1)
  {
  }

  ghost predicate SameStamps(a: seq<Segment>, b: seq<Segment>) {
    |a| == |b| && forall k :: 0 <= k < |a| ==> b[k].inUse == a[k].inUse && b[k].offset == a[k].offset && b[k].lastAccess == a[k].lastAccess
  }

  /** The segment at `base` was accessed at time t, and no other entry in use was claimed or accessed. */
  ghost predicate TouchedOne(a: seq<Segment>, b: seq<Segment>, base: nat, t: nat) {
    |a| == |b| && forall k :: 0 <= k < |a| && b[k].inUse ==>
      if b[k].offset == base then b[k].lastAccess == t
      else a[k].inUse && a[k].offset == b[k].offset && a[k].lastAccess == b[k].lastAccess
  }

  /** Since then exactly the segments that start in lo..hi were accessed. */
  ghost predicate TouchedRange(segments: seq<Segment>, since: nat, lo: nat, hi: nat) {
    forall k :: 0 <= k < |segments| && segments[k].inUse ==> (segments[k].lastAccess >= since <==> lo <= segments[k].offset < hi)
  }

  /** The segments that start in lo..hi were accessed after all the others. */
  ghost predicate Latest(segments: seq<Segment>, lo: nat, hi: nat) {
    forall k, j ::
      (0 <= k < |segments| && 0 <= j < |segments| && segments[k].inUse && segments[j].inUse
       && lo <= segments[k].offset < hi && !(lo <= segments[j].offset < hi)) ==> segments[j].lastAccess < segments[k].lastAccess
  }

  /** Entries not accessed since then are still what they were. */
  ghost predicate Kept(was: seq<Segment>, now: seq<Segment>, since: nat) {
    |was| == |now| && forall k :: 0 <= k < |now| && now[k].inUse && now[k].lastAccess < since ==>
      was[k].inUse && was[k].offset == now[k].offset && was[k].lastAccess == now[k].lastAccess
  }

  /** Among the segments that start in lo..hi, the ones further on were accessed later. */
  ghost predicate Rising(segments: seq<Segment>, lo: nat, hi: nat) {
    forall k, j ::
      (0 <= k < |segments| && 0 <= j < |segments| && segments[k].inUse && segments[j].inUse
       && lo <= segments[k].offset < segments[j].offset < hi) ==> segments[k].lastAccess < segments[j].lastAccess
  }

  /** Since then exactly the segments that start in lo..hi were accessed, one after the other, and the others left alone. */
  ghost predicate Accessed(was: seq<Segment>, now: seq<Segment>, since: nat, lo: nat, hi: nat) {
    TouchedRange(now, since, lo, hi) && Rising(now, lo, hi) && Kept(was, now, since)
  }

  lemma AccessedIsLatest(was: seq<Segment>, now: seq<Segment>, since: nat, lo: nat, hi: nat)
    requires Accessed(was, now, since, lo, hi)
    ensures Latest(now, lo, hi) && Rising(now, lo, hi)
  {
  }

  /** Another range, of which no segment was accessed, keeps its order. */
  lemma RisingElsewhere(was: seq<Segment>, now: seq<Segment>, since: nat, lo: nat, hi: nat, lo': nat, hi': nat)
    requires Accessed(was, now, since, lo, hi) && Rising(was, lo', hi') && (hi' <= lo || hi <= lo')
    ensures Rising(now, lo', hi')
  {
  }

  lemma GotTouched(a: seq<Segment>, b: seq<Segment>, c: seq<Segment>, k: nat, base: nat, t: nat)
    requires k < |a| == |b| && b == a[k := b[k]] && b[k].inUse && b[k].offset == base && b[k].lastAccess == t
    requires SameStamps(b, c) && forall m, q :: 0 <= m < q < |b| && b[m].inUse && b[q].inUse ==> b[m].offset != b[q].offset
    ensures TouchedOne(a, c, base, t)
  {
  }

  lemma FilledStamps(c: Cache, c': Cache, k: nat)
    requires WellFormed(c) && k < |c.segments| && c.segments[k].inUse && Filled(c, c', k)
    ensures SameStamps(c.segments, c'.segments)
  {
  }

  lemma NothingAccessed(c: Cache, since: nat, lo: nat)
    requires Stamped(c.segments, since)
    ensures Accessed(c.segments, c.segments, since, lo, lo)
  {
  }

  lemma AccessedMore(was: seq<Segment>, c: Cache, c': Cache, since: nat, t: nat, lo: nat, base: nat, hi': nat)
    requires WellFormed(c) && WellFormed(c') && Stamped(c.segments, t)
    requires Accessed(was, c.segments, since, lo, base) && TouchedOne(c.segments, c'.segments, base, t)
    requires since <= t && lo <= base < hi' <= base + SEGMENT_SIZE && base % SEGMENT_SIZE == 0
    ensures Accessed(was, c'.segments, since, lo, hi')
  {
    hide View;
    forall k | 0 <= k < |c'.segments| && c'.segments[k].inUse
      ensures base < c'.segments[k].offset ==> hi' <= c'.segments[k].offset
    {
      assert ShapeOk(c'.segments[k]);
      if base < c'.segments[k].offset {
        NextBoundary(base, c'.segments[k].offset);
      }
    }
  }

  lemma NextBoundary(base: nat, offset: nat)
    requires base % SEGMENT_SIZE == 0 && offset % SEGMENT_SIZE == 0 && base < offset
    ensures base + SEGMENT_SIZE <= offset
  {
  }

  /** At most one segment was written back, and then it was a dirty one no in-use entry is older than. */
  ghost predicate EvictedOldest(segments: seq<Segment>, log: seq<nat>, log': seq<nat>) {
    log' == log ||
    exists v :: 0 <= v < |segments| && Dirty(segments[v]) && log' == log + [segments[v].offset]
      && forall m :: 0 <= m < |segments| ==> segments[m].inUse && segments[v].lastAccess <= segments[m].lastAccess
  }

  /** A stand-in for qsort with the least-recently-used comparison, over entries 0..n. */
  function SortedEntries(segments: seq<Segment>, n: nat): (r: seq<nat>)
    requires n <= |segments|
    ensures |r| == n && forall a :: 0 <= a < n ==> r[a] < n
  {
    if n == 0 then []
    else
      var rest := SortedEntries(segments, n - 1);
      var at := InsertAt(segments, rest, n - 1, 0);
      rest[..at] + [n - 1] + rest[at..]
  }

  function InsertAt(segments: seq<Segment>, rest: seq<nat>, k: nat, from: nat): (at: nat)
    requires k < |segments| && from <= |rest|
    requires forall a :: 0 <= a < |rest| ==> rest[a] < |segments|
    ensures from <= at <= |rest|
    ensures forall a :: from <= a < at ==> !Before(segments[k], segments[rest[a]])
    ensures at < |rest| ==> Before(segments[k], segments[rest[at]])
    decreases |rest| - from
  {
    if from == |rest| || Before(segments[k], segments[rest[from]]) then from
    else InsertAt(segments, rest, k, from + 1)
  }

  /** Where entry k belongs among the sorted ones before it. */
  ghost predicate BelongsAt(segments: seq<Segment>, rest: seq<nat>, k: nat, at: nat) {
    && k < |segments| && at <= |rest| && (forall a :: 0 <= a < |rest| ==> rest[a] < |segments|)
    && (forall a :: 0 <= a < at ==> Before(segments[rest[a]], segments[k]))
    && (forall a :: at <= a < |rest| ==> Before(segments[k], segments[rest[a]]))
  }

  lemma InsertBelongs(segments: seq<Segment>, rest: seq<nat>, k: nat)
    requires Arranges(segments, rest, k) && k < |segments| && DistinctStamps(segments)
    ensures BelongsAt(segments, rest, k, InsertAt(segments, rest, k, 0))
  {
    hide InsertAt;
    var at := InsertAt(segments, rest, k, 0);
    forall a | at < a < |rest|
      ensures Before(segments[k], segments[rest[a]])
    {
      assert Before(segments[rest[at]], segments[rest[a]]);
    }
  }

  lemma Inserted(segments: seq<Segment>, rest: seq<nat>, k: nat, at: nat)
    requires Arranges(segments, rest, k) && BelongsAt(segments, rest, k, at)
    ensures Arranges(segments, rest[..at] + [k] + rest[at..], k + 1)
  {
    var r := rest[..at] + [k] + rest[at..];
    forall m | 0 <= m < k + 1
      ensures m in r
    {
      StillThere(rest, k, at, m);
    }
    forall a, b | 0 <= a < b < k + 1
      ensures r[a] != r[b] && Before(segments[r[a]], segments[r[b]])
    {
      StillBefore(segments, rest, k, at, a, b);
    }
  }

  lemma StillThere(rest: seq<nat>, k: nat, at: nat, m: nat)
    requires at <= |rest| && (m == k || m in rest)
    ensures m in rest[..at] + [k] + rest[at..]
  {
    assert rest == rest[..at] + rest[at..];
  }

  lemma StillBefore(segments: seq<Segment>, rest: seq<nat>, k: nat, at: nat, a: nat, b: nat)
    requires Arranges(segments, rest, k) && BelongsAt(segments, rest, k, at) && a < b < k + 1
    ensures var r := rest[..at] + [k] + rest[at..]; r[a] != r[b] && Before(segments[r[a]], segments[r[b]])
  {
    hide Before;
    var r := rest[..at] + [k] + rest[at..];
    assert r[a] == (if a < at then rest[a] else if a == at then k else rest[a - 1]);
    assert r[b] == (if b < at then rest[b] else if b == at then k else rest[b - 1]);
  }

  lemma {:induction false} EntriesArranged(segments: seq<Segment>, n: nat)
    requires n <= |segments| && DistinctStamps(segments)
    ensures Arranges(segments, SortedEntries(segments, n), n)
  {
    hide Arranges, InsertAt;
    if n > 0 {
      var rest := SortedEntries(segments, n - 1);
      EntriesArranged(segments, n - 1);
      InsertBelongs(segments, rest, n - 1);
      Inserted(segments, rest, n - 1, InsertAt(segments, rest, n - 1, 0));
    } else {
      NothingArranged(segments);
    }
  }

  lemma NothingArranged(segments: seq<Segment>)
    ensures Arranges(segments, [], 0)
  {
  }

  /** The order that Flush needs can always be had. */
  lemma FlushOrderExists(segments: seq<Segment>)
    requires DistinctStamps(segments)
    ensures IsFlushOrder(segments, SortedEntries(segments, |segments|))
  {
    hide Arranges;
    EntriesArranged(segments, |segments|);
  }
}
