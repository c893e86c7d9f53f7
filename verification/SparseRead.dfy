/** Packing the data of a list of concatenated files, driven by one sparse map and one position in it. */
module SparseRead {
  import opened Bytes
  import opened SparseMaps

  /** The files one after the other. */
  function Concat(files: seq<seq<byte>>): seq<byte> {
    if files == [] then [] else files[0] + Concat(files[1..])
  }

  /** pread of a regular file: at least one byte unless the offset is at or past the end. */
  method Pread(file: seq<byte>, count: nat, offset: nat) returns (got: seq<byte>)
    ensures |got| <= count && offset <= offset + |got|
    ensures got != [] ==> offset + |got| <= |file| && got == file[offset..offset + |got|]
    ensures count > 0 && offset < |file| ==> got != []
  {
    var most := |ReadAt(file, count, offset)|;
    if most == 0 {
      return [];
    }
    var n :| 1 <= n <= most;
    got := file[offset..offset + n];
  }

  class ReadIterator {
    const sm: SparseMap
    var mapIx: nat
    var offsetInSegment: nat

    /** sparse_file_start_read */
    constructor (sm: SparseMap)
      ensures Valid() && this.sm == sm && Position() == 0
    {
      this.sm := sm;
      this.mapIx := 0;
      this.offsetInSegment := 0;
    }

    ghost predicate Valid()
      reads this
    {
      mapIx <= |sm| && if mapIx < |sm| then offsetInSegment <= sm[mapIx] else offsetInSegment == 0
    }

    predicate AtEnd()
      reads this
    {
      mapIx == |sm|
    }

    /** The offset in the concatenation of all files. */
    ghost function Position(): nat
      requires Valid()
      reads this
    {
      Start(sm, mapIx) + offsetInSegment
    }

    /**
     * sparse_file_read_next_data: skips what is left of holes in this file, then returns what
     * one read of the current data segment gives. Nothing comes back at the end of the file,
     * also when it ends inside a hole, and at the end of the map.
     */
    method ReadNextData(file: seq<byte>, offset: nat, bufLen: nat) returns (offset': nat, buf: seq<byte>)
      requires Valid() && offset <= |file|
      modifies this
      ensures Valid() && offset <= offset' - |buf| && offset' <= |file| && |buf| <= bufLen
      ensures Position() - old(Position()) == offset' - offset
      ensures buf == file[offset' - |buf|..offset']
      ensures forall f: nat :: Position() - |buf| <= f < Position() ==> InData(sm, f)
      ensures forall f: nat :: old(Position()) <= f < Position() - |buf| ==> !InData(sm, f)
      ensures bufLen > 0 && buf == [] ==> offset' == |file| || AtEnd()
      ensures old(AtEnd()) ==> AtEnd() && buf == [] && offset' == offset
    {
      offset' := offset;
      buf := [];
      while true
        invariant Valid() && offset <= offset' <= |file|
        invariant Position() - old(Position()) == offset' - offset
        invariant old(AtEnd()) ==> AtEnd() && offset' == offset
        invariant forall f: nat :: old(Position()) <= f < Position() ==> !InData(sm, f)
        decreases |sm| - mapIx
      {
        if mapIx == |sm| {
          return;
        }
        ghost var here := Position();
        var leftOfSegment := sm[mapIx] - offsetInSegment;
        if InHole(mapIx) {
          forall f: nat | here <= f < here + leftOfSegment
            ensures !InData(sm, f)
          {
            InDataAt(sm, mapIx, f);
          }
          var leftOfFile := |file| - offset';
          if leftOfFile < leftOfSegment {
            offsetInSegment := offsetInSegment + leftOfFile;
            offset' := |file|;
            return;
          }
          offset' := offset' + leftOfSegment;
        } else if leftOfSegment != 0 {
          break;
        }
        offsetInSegment := 0;
        mapIx := mapIx + 1;
      }
      var toRead := sm[mapIx] - offsetInSegment;
      if toRead > bufLen {
        toRead := bufLen;
      }
      buf := Pread(file, toRead, offset');
      forall f: nat | Position() <= f < Position() + |buf|
        ensures InData(sm, f)
      {
        InDataAt(sm, mapIx, f);
      }
      offsetInSegment := offsetInSegment + |buf|;
      if offsetInSegment == sm[mapIx] {
        offsetInSegment := 0;
        mapIx := mapIx + 1;
      }
      offset' := offset' + |buf|;
    }

    /** The reader stands at offset `at` of the concatenation, or the map has no more data from there on. */
    ghost predicate Reached(at: nat)
      requires Valid()
      reads this
    {
      Position() == at || (AtEnd() && Start(sm, |sm|) <= at)
    }
  }

  ghost predicate Holds(whole: seq<byte>, base: nat, file: seq<byte>) {
    base + |file| <= |whole| && forall j :: 0 <= j < |file| ==> whole[base + j] == file[j]
  }

  /** write_file_to_archive: the data of the next file is added to the archive entry. */
  method WriteFile(reader: ReadIterator, file: seq<byte>, archive: seq<byte>, ghost whole: seq<byte>, ghost base: nat)
    returns (archive': seq<byte>)
    requires Holds(whole, base, file)
    requires reader.Valid() && reader.Reached(base) && archive == Select(reader.sm, whole, base)
    modifies reader
    ensures reader.Valid() && reader.Reached(base + |file|)
    ensures archive' == Select(reader.sm, whole, base + |file|)
  {
    archive' := archive;
    var offset := 0;
    while true
      invariant reader.Valid() && offset <= |file| && reader.Reached(base + offset)
      invariant archive' == Select(reader.sm, whole, base + offset)
      decreases |file| - offset
    {
      var buf;
      ghost var from := offset;
      offset, buf := reader.ReadNextData(file, offset, 4096);
      Gathered(reader.sm, whole, base, file, from, offset, buf);
      if buf == [] {
        break;
      }
      archive' := archive' + buf;
    }
    forall f: nat | reader.AtEnd() && base + offset <= f < base + |file|
      ensures !InData(reader.sm, f)
    {
      NoDataPastEnd(reader.sm, f);
    }
    SelectNone(reader.sm, whole, base + offset, base + |file|);
  }

  lemma Gathered(sm: SparseMap, whole: seq<byte>, base: nat, file: seq<byte>, from: nat, to: nat, buf: seq<byte>)
    requires Holds(whole, base, file) && from + |buf| <= to <= |file|
    requires buf == file[to - |buf|..to]
    requires forall f: nat :: base + from <= f < base + to - |buf| ==> !InData(sm, f)
    requires forall f: nat :: base + to - |buf| <= f < base + to ==> InData(sm, f)
    ensures Select(sm, whole, base + to) == Select(sm, whole, base + from) + buf
  {
    SelectNone(sm, whole, base + from, base + to - |buf|);
    SelectAll(sm, whole, base + to - |buf|, base + to);
    assert whole[base + to - |buf|..base + to] == buf;
  }

  /** Every file of a resource in turn: the archive entry is the data of their concatenation. */
  method WriteResource(sm: SparseMap, files: seq<seq<byte>>) returns (archive: seq<byte>)
    ensures archive == Select(sm, Concat(files), |Concat(files)|)
    ensures Start(sm, |sm|) == |Concat(files)| ==> |archive| == Packed(sm, |sm|)
  {
    var reader := new ReadIterator(sm);
    archive := [];
    ghost var whole := Concat(files);
    ghost var base := 0;
    var k := 0;
    while k < |files|
      invariant 0 <= k <= |files| && 0 <= base <= |whole| && whole[base..] == Concat(files[k..])
      invariant reader.sm == sm && fresh(reader) && reader.Valid() && reader.Reached(base)
      invariant archive == Select(sm, whole, base)
    {
      NextFile(whole, base, files[k..]);
      assert files[k..][1..] == files[k + 1..];
      archive := WriteFile(reader, files[k], archive, whole, base);
      base := base + |files[k]|;
      k := k + 1;
    }
    assert base == |whole|;
    SelectByRank(sm, whole, |whole|, |whole|);
    RankAtStart(sm, |sm|);
  }

  lemma NextFile(whole: seq<byte>, base: nat, files: seq<seq<byte>>)
    requires base <= |whole| && files != [] && whole[base..] == Concat(files)
    ensures Holds(whole, base, files[0]) && whole[base + |files[0]|..] == Concat(files[1..])
  {
    var rest := whole[base..];
    assert forall j :: 0 <= j < |files[0]| ==> rest[j] == files[0][j];
    assert whole[base + |files[0]|..] == rest[|files[0]|..];
  }
}
