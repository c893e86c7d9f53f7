/** Spreading the packed data of an archive entry back to its offsets in the file, chunk by chunk. */
module SparseApply {
  import opened Bytes
  import opened SparseMaps
  import SparseRead

  /** The first data segment from `ix` on that is empty, or the end of the map. */
  function EmptyFrom(sm: SparseMap, ix: nat): (r: nat)
    requires ix <= |sm|
    ensures ix <= r <= |sm| && (!InHole(ix) && r < |sm| ==> !InHole(r) && sm[r] == 0)
    ensures forall jx: nat :: ix <= jx < r && jx % 2 == ix % 2 ==> sm[jx] > 0
    decreases |sm| - ix
  {
    if ix == |sm| || sm[ix] == 0 then ix
    else if ix + 1 == |sm| then |sm|
    else EmptyFrom(sm, ix + 2)
  }

  /** The segment reading starts with: a file that begins with a hole starts behind it. */
  function First(sm: SparseMap): nat
    requires sm != []
  {
    if sm[0] != 0 then 0 else if |sm| > 2 then 2 else |sm|
  }

  /** The segment reading ends at: an empty read means the end to the caller. */
  function Last(sm: SparseMap): nat
    requires sm != []
  {
    EmptyFrom(sm, First(sm))
  }

  /** Data segments after the first hole are not empty, unless no data follows. */
  predicate InteriorFilled(sm: SparseMap) {
    forall ix: nat, jx: nat :: 2 <= ix < jx < |sm| && !InHole(ix) && !InHole(jx) && sm[ix] == 0 ==> sm[jx] == 0
  }

  function NextData(sm: SparseMap, ix: nat): nat {
    if ix + 2 <= |sm| then ix + 2 else |sm|
  }

  /** Where reading stands: inside data segment `mapIx`, `blockOffset` bytes into it. */
  ghost predicate At(sm: SparseMap, mapIx: nat, blockOffset: nat, actualOffset: nat, taken: nat) {
    && mapIx <= |sm| && taken == Packed(sm, mapIx) + blockOffset
    && (mapIx < |sm| ==> !InHole(mapIx) && actualOffset == Start(sm, mapIx) + blockOffset)
    && if mapIx < |sm| && sm[mapIx] > 0 then blockOffset < sm[mapIx] else blockOffset == 0
  }

  /** Reading has not come to its end yet. */
  ghost predicate Running(sm: SparseMap, mapIx: nat) {
    sm != [] && First(sm) <= mapIx <= Last(sm)
  }

  /** How many packed bytes come out before the first empty read. */
  function Deliverable(sm: SparseMap, available: nat): nat
    requires sm != []
  {
    var most := Packed(sm, Last(sm));
    if available <= most then available else most
  }

  lemma StartsAt(sm: SparseMap)
    requires sm != []
    ensures var ix := First(sm); At(sm, ix, 0, if ix == 2 && |sm| > 2 then sm[1] else 0, 0) && Running(sm, ix)
  {
    assert Packed(sm, 1) == sm[0] == Start(sm, 1);
    assert |sm| >= 2 ==> Packed(sm, 2) == sm[0] && Start(sm, 2) == sm[0] + sm[1];
  }

  /** A read comes back empty exactly when everything that can be delivered has been. */
  lemma EmptyRead(sm: SparseMap, mapIx: nat, blockOffset: nat, actualOffset: nat, taken: nat, available: nat)
    requires At(sm, mapIx, blockOffset, actualOffset, taken) && Running(sm, mapIx) && taken <= available
    ensures mapIx == |sm| || sm[mapIx] == 0 || taken == available <==> taken == Deliverable(sm, available)
    ensures mapIx < |sm| && sm[mapIx] > 0 ==> mapIx < Last(sm)
  {
    if mapIx < Last(sm) {
      assert sm[mapIx] > 0;
      StartMonotone(sm, mapIx + 1, Last(sm));
    }
  }

  /** The bytes of `buffer` are data of the file from `offset` on, `taken` data bytes after its start. */
  ghost predicate Placed(sm: SparseMap, buffer: seq<byte>, offset: nat, taken: nat) {
    forall f: nat :: offset <= f < offset + |buffer| ==> InData(sm, f) && Rank(sm, f) == taken + f - offset
  }

  lemma PlacedAt(sm: SparseMap, mapIx: nat, blockOffset: nat, actualOffset: nat, taken: nat, buffer: seq<byte>)
    requires At(sm, mapIx, blockOffset, actualOffset, taken) && mapIx < |sm| && blockOffset + |buffer| <= sm[mapIx]
    ensures Placed(sm, buffer, actualOffset, taken)
  {
    forall f: nat | actualOffset <= f < actualOffset + |buffer|
      ensures InData(sm, f) && Rank(sm, f) == taken + f - actualOffset
    {
      InSegment(sm, mapIx, blockOffset + f - actualOffset, f);
    }
  }

  lemma InSegment(sm: SparseMap, ix: nat, d: nat, f: nat)
    requires ix < |sm| && !InHole(ix) && d < sm[ix] && f == Start(sm, ix) + d
    ensures InData(sm, f) && Rank(sm, f) == Packed(sm, ix) + d
  {
    assert In(sm, ix, f);
    RankAt(sm, ix, d);
  }

  lemma NothingPlaced(sm: SparseMap, offset: nat, taken: nat)
    ensures Placed(sm, [], offset, taken)
  {
  }

  class SparseSource {
    const sm: SparseMap
    var chunks: seq<seq<byte>>
    var mapIx: nat
    var blockOffset: nat
    var actualOffset: nat
    var leftover: seq<byte>
    ghost const packed: seq<byte>
    ghost var taken: nat

    /** The cursor as set up before a resource is applied. */
    constructor (sm: SparseMap, chunks: seq<seq<byte>>)
      requires sm != [] && forall k :: 0 <= k < |chunks| ==> chunks[k] != []
      ensures Valid() && this.sm == sm && packed == SparseRead.Concat(chunks) && taken == 0 && Running(sm, mapIx)
    {
      this.sm := sm;
      this.chunks := chunks;
      this.mapIx := 0;
      this.blockOffset := 0;
      this.actualOffset := 0;
      this.leftover := [];
      this.packed := SparseRead.Concat(chunks);
      this.taken := 0;
      if sm[0] == 0 {
        if |sm| > 2 {
          this.mapIx := 2;
          this.actualOffset := sm[1];
        } else {
          this.mapIx := |sm|;
        }
      }
      StartsAt(sm);
    }

    ghost predicate Valid()
      reads this
    {
      && At(sm, mapIx, blockOffset, actualOffset, taken)
      && taken <= |packed| && packed[taken..] == leftover + SparseRead.Concat(chunks)
      && forall k :: 0 <= k < |chunks| ==> chunks[k] != []
    }

    /** read_callback_normal: the next piece of data and where in the file it belongs. */
    method ReadCallback() returns (buffer: seq<byte>, offset: nat)
      requires Valid()
      modifies this
      ensures Valid() && taken == old(taken) + |buffer| && buffer == packed[old(taken)..taken]
      ensures Placed(sm, buffer, offset, old(taken))
      ensures Running(sm, old(mapIx)) ==> (buffer == [] <==> old(taken) == Deliverable(sm, |packed|))
      ensures Running(sm, old(mapIx)) && buffer != [] ==> Running(sm, mapIx)
    {
      if Running(sm, mapIx) {
        EmptyRead(sm, mapIx, blockOffset, actualOffset, taken, |packed|);
      }
      if mapIx == |sm| {
        buffer, offset := [], 0;
      } else if leftover != [] {
        buffer, offset := FromLeftover();
      } else {
        buffer, offset := FromArchive();
      }
    }

    /** The rest of what an earlier call decompressed, up to the next hole. */
    method FromLeftover() returns (buffer: seq<byte>, offset: nat)
      requires Valid() && mapIx < |sm| && leftover != []
      modifies this
      ensures Valid() && taken == old(taken) + |buffer| && buffer == packed[old(taken)..taken]
      ensures Placed(sm, buffer, offset, old(taken)) && old(taken) < |packed|
      ensures buffer == [] <==> sm[old(mapIx)] == 0
      ensures mapIx == old(mapIx) || mapIx == NextData(sm, old(mapIx))
    {
      hide Placed;
      var chunkLen := sm[mapIx];
      var remaining := chunkLen - blockOffset;
      offset := actualOffset;
      var len := if remaining >= |leftover| then |leftover| else remaining;
      Taken(packed, taken, leftover, SparseRead.Concat(chunks), len);
      buffer := leftover[..len];
      PlacedAt(sm, mapIx, blockOffset, actualOffset, taken, buffer);
      leftover := leftover[len..];
      taken := taken + len;
      actualOffset := actualOffset + len;
      blockOffset := blockOffset + len;
      if blockOffset == chunkLen {
        AdvanceOverHole();
      }
    }

    /** The next chunk of the archive; what crosses the end of the data segment is kept for later. */
    method FromArchive() returns (buffer: seq<byte>, offset: nat)
      requires Valid() && mapIx < |sm| && leftover == []
      modifies this
      ensures Valid() && taken == old(taken) + |buffer| && buffer == packed[old(taken)..taken]
      ensures Placed(sm, buffer, offset, old(taken))
      ensures buffer == [] <==> sm[old(mapIx)] == 0 || old(taken) == |packed|
      ensures mapIx == old(mapIx) || mapIx == NextData(sm, old(mapIx))
    {
      hide Placed;
      if chunks == [] {
        buffer, offset := [], 0;
        NothingPlaced(sm, offset, taken);
        return;
      }
      buffer := chunks[0];
      chunks := chunks[1..];
      offset := actualOffset;
      assert [] + (buffer + SparseRead.Concat(chunks)) == buffer + SparseRead.Concat(chunks);
      var remaining := sm[mapIx] - blockOffset;
      var len := if remaining > |buffer| then |buffer| else remaining;
      Taken(packed, taken, buffer, SparseRead.Concat(chunks), len);
      PlacedAt(sm, mapIx, blockOffset, actualOffset, taken, buffer[..len]);
      taken := taken + len;
      if remaining > |buffer| {
        actualOffset := actualOffset + |buffer|;
        blockOffset := blockOffset + |buffer|;
      } else {
        actualOffset := actualOffset + remaining;
        leftover := buffer[remaining..];
        blockOffset := blockOffset + remaining;
        AdvanceOverHole();
      }
      buffer := buffer[..len];
    }

    /** At the end of a data segment: on to the next one, unless this is the end. */
    method AdvanceOverHole()
      requires mapIx < |sm| && !InHole(mapIx) && blockOffset == sm[mapIx]
      requires actualOffset == Start(sm, mapIx) + blockOffset && taken == Packed(sm, mapIx) + blockOffset
      modifies `mapIx, `blockOffset, `actualOffset
      ensures At(sm, mapIx, blockOffset, actualOffset, taken)
      ensures mapIx == NextData(sm, old(mapIx))
    {
      mapIx := mapIx + 1;
      blockOffset := 0;
      if mapIx != |sm| {
        actualOffset := actualOffset + sm[mapIx];
        mapIx := mapIx + 1;
      }
    }
  }

  lemma Taken(packed: seq<byte>, taken: nat, next: seq<byte>, rest: seq<byte>, len: nat)
    requires taken <= |packed| && packed[taken..] == next + rest && len <= |next|
    ensures taken + len <= |packed| && packed[taken + len..] == next[len..] + rest
    ensures packed[taken..taken + len] == next[..len]
  {
    assert packed[taken + len..] == packed[taken..][len..];
    assert packed[taken..taken + len] == packed[taken..][..len];
  }

  /** The whole file comes out exactly when no empty data segment has data behind it. */
  lemma AllDeliveredIff(sm: SparseMap, available: nat)
    requires sm != [] && available >= Packed(sm, |sm|)
    ensures Deliverable(sm, available) == Packed(sm, |sm|) <==> InteriorFilled(sm)
  {
    var last := Last(sm);
    StartMonotone(sm, last, |sm|);
    if InteriorFilled(sm) {
      if last < |sm| {
        assert last >= 2;
        NoMoreData(sm, last, |sm|);
      }
    } else {
      var ix: nat, jx: nat :| 2 <= ix < jx < |sm| && !InHole(ix) && !InHole(jx) && sm[ix] == 0 && sm[jx] != 0;
      assert last <= ix;
      StartMonotone(sm, last, jx);
      StartMonotone(sm, jx + 1, |sm|);
    }
  }

  lemma {:induction false} NoMoreData(sm: SparseMap, ix: nat, jx: nat)
    requires 2 <= ix <= jx <= |sm| && ix < |sm| && !InHole(ix) && sm[ix] == 0 && InteriorFilled(sm)
    ensures Packed(sm, jx) == Packed(sm, ix)
  {
    if ix < jx {
      NoMoreData(sm, ix, jx - 1);
    }
  }

  /** One byte, a hole, an empty data segment, a hole and one more byte: the second byte is never delivered. */
  lemma EmptySegmentEndsEarly()
    ensures var sm := [1, 4, 0, 4, 1]; Packed(sm, |sm|) == 2 && Deliverable(sm, 2) == 1 && !InteriorFilled(sm)
  {
    var sm: SparseMap := [1, 4, 0, 4, 1];
    assert EmptyFrom(sm, 0) == EmptyFrom(sm, 2) == 2;
    assert Packed(sm, 1) == 1 && Packed(sm, 2) == 1 && Packed(sm, 3) == 1 && Packed(sm, 4) == 1;
    assert sm[2] == 0 && sm[4] != 0 && !InHole(2) && !InHole(4);
  }

  /** Data that is later among the packed bytes is also later in the file. */
  lemma LaterInFile(sm: SparseMap, f: nat, g: nat)
    requires Rank(sm, f) < Rank(sm, g)
    ensures f < g
  {
    if g <= f {
      RankMonotone(sm, g, f);
    }
  }

  lemma SameRank(sm: SparseMap, f: nat, g: nat)
    requires InData(sm, f) && InData(sm, g) && Rank(sm, f) == Rank(sm, g)
    ensures f == g
  {
    if f < g {
      RankMonotone(sm, f, g);
    } else if g < f {
      RankMonotone(sm, g, f);
    }
  }

  /** What was packed from a file comes back at the offsets it came from. */
  lemma {:induction false} PlacedBack(sm: SparseMap, file: seq<byte>, buffer: seq<byte>, offset: nat, taken: nat, f: nat)
    requires Start(sm, |sm|) <= |file| && Placed(sm, buffer, offset, taken) && offset <= f < offset + |buffer|
    requires var packed := Select(sm, file, |file|); taken + |buffer| <= |packed| && buffer == packed[taken..taken + |buffer|]
    ensures f < |file| && buffer[f - offset] == file[f]
  {
    hide Select, Rank, Start;
    if f >= |file| {
      NoDataPastEnd(sm, f);
    }
    SelectByRank(sm, file, |file|, f);
  }
}
