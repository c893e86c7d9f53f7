/** The environment object: variables edited in place, read from and written to the cache. */
module UbootEnvironment {
  import opened Bytes
  import opened CacheModel
  import opened FlushOrder
  import opened BlockCaching
  import opened Crc32
  import opened UbootPairs
  import opened UbootCodec
  import opened UbootProtocol

  class UbootEnv {
    const blockOffset: nat
    const redundantBlockOffset: nat
    const envSize: nat
    const useRedundant: bool
    var writePrimary: bool
    var writeSecondary: bool
    var flags: byte
    var vars: seq<Pair>

    constructor (blockOffset: nat, blockCount: nat, redundant: bool, redundantBlockOffset: nat)
      ensures envSize == blockCount * BLOCK_SIZE && useRedundant == redundant && this.blockOffset == blockOffset
      ensures this.redundantBlockOffset == if redundant then redundantBlockOffset else blockOffset
      ensures writePrimary && writeSecondary == redundant && flags == 0 && vars == []
    {
      this.blockOffset := blockOffset;
      this.redundantBlockOffset := if redundant then redundantBlockOffset else blockOffset;
      envSize := blockCount * BLOCK_SIZE;
      useRedundant := redundant;
      writePrimary := true;
      writeSecondary := redundant;
      flags := 0;
      vars := [];
    }

    /** What uboot_env_create_cfg leaves, on an object used before. */
    method Renew()
      modifies this
      ensures writePrimary && writeSecondary == useRedundant && flags == 0 && vars == []
    {
      writePrimary, writeSecondary, flags, vars := true, useRedundant, 0, [];
    }

    /** uboot_env_setenv */
    method Setenv(name: seq<byte>, value: seq<byte>)
      modifies `vars
      ensures vars == WithPair(old(vars), name, value)
    {
      var k := 0;
      while k < |vars|
        invariant 0 <= k <= |vars| && vars == old(vars) && forall j :: 0 <= j < k ==> vars[j].name != name
      {
        if vars[k].name == name {
          vars := vars[k := vars[k].(value := value)];
          return;
        }
        k := k + 1;
      }
      vars := [Pair(name, value)] + vars;
    }

    /** uboot_env_unsetenv */
    method Unsetenv(name: seq<byte>)
      modifies `vars
      ensures vars == WithoutPair(old(vars), name)
    {
      var k := 0;
      while k < |vars|
        invariant 0 <= k <= |vars| && vars == old(vars) && forall j :: 0 <= j < k ==> vars[j].name != name
      {
        if vars[k].name == name {
          vars := vars[..k] + vars[k + 1..];
          return;
        }
        k := k + 1;
      }
    }

    /** uboot_env_getenv */
    method Getenv(name: seq<byte>) returns (found: bool, value: seq<byte>)
      ensures found <==> name in AsMap(vars)
      ensures found ==> value == AsMap(vars)[name]
    {
      var k := 0;
      while k < |vars|
        invariant 0 <= k <= |vars|
        invariant name in AsMap(vars) <==> name in AsMap(vars[k..])
        invariant name in AsMap(vars) ==> AsMap(vars)[name] == AsMap(vars[k..])[name]
      {
        assert vars[k..][1..] == vars[k + 1..];
        if vars[k].name == name {
          return true, vars[k].value;
        }
        k := k + 1;
      }
      return false, [];
    }

    /** uboot_env_sort: the order is the one of strcmp on the names. */
    method Sort()
      modifies `vars
      ensures vars == SortByName(old(vars))
    {
      vars := SortByName(vars);
    }

    /** uboot_env_decode: the new variables, the last one read in front. */
    method Decode(buffer: seq<byte>) returns (ok: bool)
      requires |buffer| == envSize >= BLOCK_SIZE
      modifies `vars
      ensures ok == DecodeImage(buffer, useRedundant).ok && vars == Reversed(DecodeImage(buffer, useRedundant).pairs)
    {
      vars := [];
      var dataOffset := if useRedundant then 5 else 4;
      var expected := FromLittleEndian(buffer[0], buffer[1], buffer[2], buffer[3]);
      var actual := Crc32Buf(buffer[dataOffset..]);
      if expected != actual {
        return false;
      }
      ok := ParseAll(buffer, dataOffset);
    }

    method ParseAll(buffer: seq<byte>, dataOffset: nat) returns (ok: bool)
      requires dataOffset <= |buffer| && vars == []
      modifies `vars
      ensures ok == Parse(buffer, dataOffset).ok && vars == Reversed(Parse(buffer, dataOffset).pairs)
    {
      hide ReadPair;
      var name := dataOffset;
      ghost var done: seq<Pair> := [];
      while name != |buffer| && buffer[name] != 0
        invariant name <= |buffer| && vars == Reversed(done)
        invariant Parse(buffer, dataOffset) == Parsed(done + Parse(buffer, name).pairs, Parse(buffer, name).ok)
        decreases |buffer| - name
      {
        var pair, next;
        ok, pair, next := ScanPair(buffer, name);
        if !ok {
          return;
        }
        Push(done, pair);
        assert done + ([pair] + Parse(buffer, next).pairs) == done + [pair] + Parse(buffer, next).pairs;
        done := done + [pair];
        vars := [pair] + vars;
        name := next;
      }
      ok := true;
    }

    /** One pair: the name up to '=', the value up to the NUL. */
    static method ScanPair(buffer: seq<byte>, name: nat) returns (ok: bool, pair: Pair, next: nat)
      requires name < |buffer| && buffer[name] != 0
      ensures ReadPair(buffer, name) == if ok then Got(pair, next) else Bad
      ensures ok ==> name < next <= |buffer|
    {
      hide SkipName, SkipValue, GoodName, NulFree;
      pair, next := Pair([], []), name;
      var endname, endvalue;
      ok, endname := ScanName(buffer, name + 1);
      if ok {
        ok, endvalue := ScanValue(buffer, endname + 1);
        if ok {
          pair, next := Pair(buffer[name..endname], buffer[endname + 1..endvalue]), endvalue + 1;
        }
      }
    }

    static method ScanName(buffer: seq<byte>, from: nat) returns (ok: bool, endname: nat)
      requires from <= |buffer|
      ensures endname == SkipName(buffer, from) && (ok <==> endname < |buffer| && buffer[endname] == EQUALS)
    {
      endname := from;
      while true
        invariant from <= endname <= |buffer| && SkipName(buffer, from) == SkipName(buffer, endname)
        decreases |buffer| - endname
      {
        if endname == |buffer| || buffer[endname] == 0 {
          return false, endname;
        }
        if buffer[endname] == EQUALS {
          return true, endname;
        }
        endname := endname + 1;
      }
    }

    static method ScanValue(buffer: seq<byte>, from: nat) returns (ok: bool, endvalue: nat)
      requires from <= |buffer|
      ensures endvalue == SkipValue(buffer, from) && (ok <==> endvalue < |buffer|)
    {
      endvalue := from;
      while true
        invariant from <= endvalue <= |buffer| && SkipValue(buffer, from) == SkipValue(buffer, endvalue)
        decreases |buffer| - endvalue
      {
        if endvalue == |buffer| {
          return false, endvalue;
        }
        if buffer[endvalue] == 0 {
          return true, endvalue;
        }
        endvalue := endvalue + 1;
      }
    }

    lemma Push(done: seq<Pair>, pair: Pair)
      ensures Reversed(done + [pair]) == [pair] + Reversed(done)
    {
    }

    /** uboot_env_encode: the sorted variables, a NUL, and the checksum in front; fails when there is no room. */
    method Encode(buffer: array<byte>) returns (ok: bool)
      requires buffer.Length == envSize >= BLOCK_SIZE
      modifies buffer, `vars
      ensures vars == SortByName(old(vars))
      ensures ok <==> Fits(vars, useRedundant, envSize)
      ensures ok ==> buffer[..] == Image(vars, useRedundant, 0xFF, envSize)
      ensures ok <==> vars == [] || (if useRedundant then 5 else 4) + TextLength(vars) + 2 <= envSize
      ensures ok ==> Laid(buffer[..], vars, useRedundant, 0xFF)
      ensures multiset(vars) == multiset(old(vars)) && (Distinct(old(vars)) ==> NamesRise(vars))
    {
      hide SortByName, Image, Crc, Splice, Body, Laid, NamesRise, TextLength, Distinct, Fits;
      forall k | 0 <= k < buffer.Length {
        buffer[k] := 0xFF;
      }
      ghost var blank := buffer[..];
      if Distinct(vars) {
        SortedRises(vars);
      }
      Sort();
      FitsIff(vars, useRedundant, envSize);
      var p;
      ok, p := PutPairs(buffer, blank);
      if ok {
        buffer[p] := 0;
        Ended(blank, DataOffset(useRedundant), Body(vars), buffer[..]);
        Finish(buffer, blank);
        ImageLaid(vars, useRedundant, 0xFF, envSize);
      }
    }

    /** One pair after the other, as long as there is room. */
    method PutPairs(buffer: array<byte>, ghost blank: seq<byte>) returns (ok: bool, p: nat)
      requires buffer.Length == envSize >= BLOCK_SIZE && buffer[..] == blank
      modifies buffer
      ensures ok <==> Fits(vars, useRedundant, envSize)
      ensures ok ==> p == DataOffset(useRedundant) + |Body(vars)| < envSize && buffer[..] == Splice(blank, DataOffset(useRedundant), Body(vars))
    {
      hide Entry, Body, Splice;
      var dataOffset := if useRedundant then 5 else 4;
      p := dataOffset;
      var k := 0;
      NoText(blank, dataOffset);
      while k < |vars|
        invariant 0 <= k <= |vars| && p == dataOffset + |Body(vars[..k])| && (k > 0 ==> p + 2 <= envSize)
        invariant buffer[..] == Splice(blank, dataOffset, Body(vars[..k]))
      {
        assert vars[..k + 1] == vars[..k] + [vars[k]];
        BodyAppend(vars[..k], vars[k]);
        PrefixShorter(vars, k + 1);
        EntryLength(vars[k]);
        if p + |vars[k].name| + 1 + |vars[k].value| >= envSize - 2 {
          return false, p;
        }
        PutPair(buffer, p, vars[k]);
        SpliceTwice(blank, dataOffset, Body(vars[..k]), Entry(vars[k]));
        p := p + |vars[k].name| + |vars[k].value| + 2;
        k := k + 1;
      }
      assert vars[..k] == vars;
      ok := true;
    }

    static lemma NoText(blank: seq<byte>, at: nat)
      requires at <= |blank|
      ensures Body([]) == [] && Splice(blank, at, []) == blank
    {
    }

    /** The checksum goes in front of the finished text. */
    method Finish(buffer: array<byte>, ghost blank: seq<byte>)
      requires buffer.Length == envSize >= BLOCK_SIZE && Fits(vars, useRedundant, envSize)
      requires |blank| == envSize && forall k :: 0 <= k < envSize ==> blank[k] == 0xFF
      requires DataOffset(useRedundant) + |Body(vars)| < envSize
      requires buffer[..] == Splice(blank, DataOffset(useRedundant), Body(vars) + [0])
      modifies buffer
      ensures buffer[..] == Image(vars, useRedundant, 0xFF, envSize)
    {
      hide SortByName, Entry, Crc, LittleEndian, Body;
      var dataOffset := if useRedundant then 5 else 4;
      TextIsPayload(blank, dataOffset, vars, buffer[..]);
      var crc := Crc32Buf(buffer[dataOffset..]);
      CopyIn(buffer, 0, LittleEndian(crc));
    }

    lemma EntryLength(p: Pair)
      ensures |Entry(p)| == |p.name| + |p.value| + 2
    {
    }

    lemma Ended(blank: seq<byte>, at: nat, text: seq<byte>, d: seq<byte>)
      requires at + |text| < |blank|
      requires d == Splice(blank, at, text)[at + |text| := 0]
      ensures d == Splice(blank, at, text + [0])
    {
    }

    lemma TextIsPayload(blank: seq<byte>, at: nat, ps: seq<Pair>, d: seq<byte>)
      requires at + |Body(ps)| < |blank| && forall k :: 0 <= k < |blank| ==> blank[k] == 0xFF
      requires d == Splice(blank, at, Body(ps) + [0])
      ensures d[at..] == Payload(ps, |blank| - at)
    {
    }

    static lemma SpliceTwice(d: seq<byte>, at: nat, s: seq<byte>, t: seq<byte>)
      requires at + |s| + |t| <= |d|
      ensures Splice(Splice(d, at, s), at + |s|, t) == Splice(d, at, s + t)
    {
    }

    static method PutPair(buffer: array<byte>, p: nat, pair: Pair)
      requires p + |Entry(pair)| <= buffer.Length
      modifies buffer
      ensures buffer[..] == Splice(old(buffer[..]), p, Entry(pair))
    {
      ghost var was := buffer[..];
      var q := p;
      CopyIn(buffer, q, pair.name);
      q := q + |pair.name|;
      CopyIn(buffer, q, [EQUALS]);
      SpliceTwice(was, p, pair.name, [EQUALS]);
      q := q + 1;
      CopyIn(buffer, q, pair.value);
      SpliceTwice(was, p, pair.name + [EQUALS], pair.value);
      q := q + |pair.value|;
      CopyIn(buffer, q, [0]);
      SpliceTwice(was, p, pair.name + [EQUALS] + pair.value, [0]);
    }

    /** Where the two copies are: inside what the cache tracks, apart from each other. */
    ghost predicate Placed(bc: BlockCache)
      reads bc`trimmedEndOffset, bc`endOffset, bc`isSoftEndOffset
    {
      && envSize >= BLOCK_SIZE && envSize % BLOCK_SIZE == 0
      && RoomAt(bc, blockOffset) && RoomAt(bc, redundantBlockOffset)
      && (useRedundant ==> Apart())
    }

    ghost predicate Apart() {
      || BLOCK_SIZE * blockOffset + envSize <= BLOCK_SIZE * redundantBlockOffset
      || BLOCK_SIZE * redundantBlockOffset + envSize <= BLOCK_SIZE * blockOffset
    }

    ghost predicate RoomAt(bc: BlockCache, block: nat)
      reads bc`trimmedEndOffset, bc`endOffset, bc`isSoftEndOffset
    {
      BLOCK_SIZE * block + envSize <= bc.trimmedEndOffset && Inside(bc.MediaLimit(), BLOCK_SIZE * block + envSize)
    }

    ghost function CopyAt(c: Cache, block: nat): (r: seq<byte>)
      requires WellFormed(c)
      ensures |r| == envSize
    {
      seq(envSize, (j: nat) => View(c, BLOCK_SIZE * block + j))
    }

    ghost function MediaOf(c: Cache): (m: Media)
      requires WellFormed(c)
      ensures |m.primary| == |m.secondary| == envSize
    {
      Media(CopyAt(c, blockOffset), CopyAt(c, redundantBlockOffset))
    }

    /** The segments of a copy are the ones accessed last. */
    ghost predicate LatestCopy(segments: seq<Segment>, block: nat) {
      Latest(segments, SegmentBase(BLOCK_SIZE * block), BLOCK_SIZE * block + envSize)
    }

    /** The segments of a copy were accessed one after the other. */
    ghost predicate RisingCopy(segments: seq<Segment>, block: nat) {
      Rising(segments, SegmentBase(BLOCK_SIZE * block), BLOCK_SIZE * block + envSize)
    }

    ghost predicate BothRising(segments: seq<Segment>) {
      RisingCopy(segments, blockOffset) && RisingCopy(segments, redundantBlockOffset)
    }

    /** No segment of the cache holds bytes of both blocks' copies. */
    ghost predicate ShareNone(block: nat, other: nat) {
      BLOCK_SIZE * block + envSize <= SegmentBase(BLOCK_SIZE * other) || BLOCK_SIZE * other + envSize <= SegmentBase(BLOCK_SIZE * block)
    }

    ghost predicate OwnSegments() {
      ShareNone(blockOffset, redundantBlockOffset)
    }

    /** Accessing one copy leaves the other one's segments alone, unless they share some. */
    lemma CopyAccessed(was: seq<Segment>, now: seq<Segment>, since: nat, block: nat, other: nat)
      requires Accessed(was, now, since, SegmentBase(BLOCK_SIZE * block), BLOCK_SIZE * block + envSize)
      ensures LatestCopy(now, block) && RisingCopy(now, block)
      ensures ShareNone(block, other) && RisingCopy(was, other) ==> RisingCopy(now, other)
    {
      hide SegmentBase, Accessed, Latest, Rising;
      var lo, hi, lo', hi' := SegmentBase(BLOCK_SIZE * block), BLOCK_SIZE * block + envSize, SegmentBase(BLOCK_SIZE * other), BLOCK_SIZE * other + envSize;
      AccessedIsLatest(was, now, since, lo, hi);
      if ShareNone(block, other) && RisingCopy(was, other) {
        RisingElsewhere(was, now, since, lo, hi, lo', hi');
      }
    }

    method ReadCopy(bc: BlockCache, block: nat, ghost other: nat) returns (io: bool, buffer: seq<byte>)
      requires bc.Valid() && RoomAt(bc, block)
      modifies bc
      ensures io <==> bc.faults == old(bc.faults)
      ensures bc.faults >= old(bc.faults)
      ensures bc.trimmedEndOffset == old(bc.trimmedEndOffset) && bc.MediaLimit() == old(bc.MediaLimit())
      ensures io ==> bc.Valid() && SameView(old(bc.State()), bc.State()) && buffer == CopyAt(old(bc.State()), block)
      ensures io ==> CopyAt(bc.State(), other) == CopyAt(old(bc.State()), other)
      ensures io ==> RisingCopy(bc.segments, block) && (ShareNone(block, other) && old(RisingCopy(bc.segments, other)) ==> RisingCopy(bc.segments, other))
    {
      hide Coherent, View, Accessed, Rising, Latest;
      io, buffer := bc.Pread(envSize, BLOCK_SIZE * block);
      if io {
        CopyAccessed(old(bc.segments), bc.segments, old(bc.timestamp), block, other);
      }
    }

    /** uboot_env_read_redundant: decodes the newer copy, or the other one, and marks what to write next. */
    method ReadRedundant(bc: BlockCache) returns (io: bool, ok: bool)
      requires bc.Valid() && Placed(bc) && useRedundant
      modifies this, bc
      ensures io <==> bc.faults == old(bc.faults)
      ensures bc.trimmedEndOffset == old(bc.trimmedEndOffset) && bc.MediaLimit() == old(bc.MediaLimit())
      ensures io ==> bc.Valid() && MediaOf(bc.State()) == MediaOf(old(bc.State()))
      ensures io ==> Reading(ok, vars, flags, writePrimary, writeSecondary) == ReadOf(MediaOf(old(bc.State())))
      ensures io && OwnSegments() ==> BothRising(bc.segments)
    {
      hide Coherent, DecodeImage, View, BlockCache.Valid, ReadOf, Rising, SegmentBase;
      ok, writePrimary, writeSecondary, flags := false, false, false, 0;
      var buffer1, buffer2;
      io, buffer1 := ReadCopy(bc, blockOffset, redundantBlockOffset);
      if !io {
        return;
      }
      io, buffer2 := ReadCopy(bc, redundantBlockOffset, blockOffset);
      if !io {
        return;
      }
      ok := Choose(buffer1, buffer2);
    }

    method DecodeCopy(buffer: seq<byte>) returns (ok: bool)
      requires |buffer| == envSize >= BLOCK_SIZE && useRedundant
      modifies `vars
      ensures ok == Decodes(buffer) && vars == Vars(buffer)
    {
      hide DecodeImage;
      ok := Decode(buffer);
    }

    method Choose(buffer1: seq<byte>, buffer2: seq<byte>) returns (ok: bool)
      requires |buffer1| == |buffer2| == envSize >= BLOCK_SIZE && useRedundant && !writePrimary && !writeSecondary
      modifies this
      ensures Reading(ok, vars, flags, writePrimary, writeSecondary) == ReadOf(Media(buffer1, buffer2))
    {
      hide Decodes, Vars, PrimaryFirst;
      var flag1, flag2 := buffer1[4], buffer2[4];
      if PrimaryFirst(flag1, flag2) {
        ok := DecodeCopy(buffer1);
        if ok {
          flags, writeSecondary := flag1, true;
        } else {
          flags, writePrimary := flag2, true;
          ok := DecodeCopy(buffer2);
          if !ok {
            writeSecondary := true;
          }
        }
      } else {
        ok := DecodeCopy(buffer2);
        if ok {
          flags, writePrimary := flag2, true;
        } else {
          flags, writeSecondary := flag1, true;
          ok := DecodeCopy(buffer1);
          if !ok {
            writePrimary := true;
          }
        }
      }
    }

    /** uboot_env_write: fails without writing when there is no room, else writes the marked copies with the next counter. */
    method WriteRedundant(bc: BlockCache) returns (io: bool, ok: bool)
      requires bc.Valid() && Placed(bc) && useRedundant && envSize >= BLOCK_SIZE
      modifies this, bc
      ensures vars == SortByName(old(vars)) && flags == old(flags)
      ensures writePrimary == old(writePrimary) && writeSecondary == old(writeSecondary)
      ensures io <==> bc.faults == old(bc.faults)
      ensures bc.trimmedEndOffset == old(bc.trimmedEndOffset) && bc.MediaLimit() == old(bc.MediaLimit())
      ensures ok <==> Fits(vars, true, envSize)
      ensures !ok ==> io && bc.State() == old(bc.State())
      ensures io ==> bc.Valid()
      ensures io && ok ==> MediaOf(bc.State()) ==
                           Written(MediaOf(old(bc.State())), Image(vars, true, flags + 1, envSize), writePrimary, writeSecondary, Completed)
      ensures io && ok && (writePrimary || writeSecondary) ==> LatestCopy(bc.segments, if writeSecondary then redundantBlockOffset else blockOffset)
      ensures io && ok && OwnSegments() && (old(BothRising(bc.segments)) || (writePrimary && writeSecondary)) ==> BothRising(bc.segments)
    {
      hide Coherent, SortByName, Image, View, Fits, BlockCache.Valid, CopyAt, Placed, LatestCopy, BothRising, OwnSegments;
      var buffer := new byte[envSize];
      io := true;
      ok := Encode(buffer);
      if !ok {
        return;
      }
      CounterSet(vars, flags + 1);
      buffer[4] := flags + 1;
      io := WriteCopies(bc, buffer[..]);
    }

    method WriteCopies(bc: BlockCache, img: seq<byte>) returns (io: bool)
      requires bc.Valid() && Placed(bc) && useRedundant && |img| == envSize
      modifies bc
      ensures io <==> bc.faults == old(bc.faults)
      ensures bc.trimmedEndOffset == old(bc.trimmedEndOffset) && bc.MediaLimit() == old(bc.MediaLimit())
      ensures io ==> bc.Valid()
      ensures io ==> MediaOf(bc.State()) == Written(MediaOf(old(bc.State())), img, writePrimary, writeSecondary, Completed)
      ensures io && (writePrimary || writeSecondary) ==> LatestCopy(bc.segments, if writeSecondary then redundantBlockOffset else blockOffset)
      ensures io && OwnSegments() && (old(BothRising(bc.segments)) || (writePrimary && writeSecondary)) ==> BothRising(bc.segments)
    {
      hide Coherent, View, BlockCache.Valid, CopyAt, LatestCopy, RisingCopy, SegmentBase;
      io := true;
      if writePrimary {
        io := WriteCopy(bc, img, blockOffset, redundantBlockOffset);
        if !io {
          return;
        }
      }
      if writeSecondary {
        io := WriteCopy(bc, img, redundantBlockOffset, blockOffset);
      }
    }

    lemma CounterSet(ps: seq<Pair>, flag: byte)
      requires useRedundant && envSize >= BLOCK_SIZE && Fits(ps, true, envSize)
      ensures Image(ps, true, 0xFF, envSize)[4 := flag] == Image(ps, true, flag, envSize)
    {
      hide Fits, Payload, Crc, LittleEndian;
    }

    method WriteCopy(bc: BlockCache, img: seq<byte>, block: nat, ghost other: nat) returns (io: bool)
      requires bc.Valid() && |img| == envSize && envSize % BLOCK_SIZE == 0 && RoomAt(bc, block)
      requires BLOCK_SIZE * block + envSize <= BLOCK_SIZE * other || BLOCK_SIZE * other + envSize <= BLOCK_SIZE * block
      modifies bc
      ensures io <==> bc.faults == old(bc.faults)
      ensures bc.faults >= old(bc.faults)
      ensures bc.trimmedEndOffset == old(bc.trimmedEndOffset) && bc.MediaLimit() == old(bc.MediaLimit())
      ensures io ==> bc.Valid() && CopyAt(bc.State(), block) == img && CopyAt(bc.State(), other) == CopyAt(old(bc.State()), other)
      ensures io ==> LatestCopy(bc.segments, block) && RisingCopy(bc.segments, block)
      ensures io && ShareNone(block, other) && old(RisingCopy(bc.segments, other)) ==> RisingCopy(bc.segments, other)
    {
      hide Coherent, View, Accessed, Rising, Latest;
      io := bc.Pwrite(img, BLOCK_SIZE * block, false);
      if io {
        CopyAccessed(old(bc.segments), bc.segments, old(bc.timestamp), block, other);
      }
    }
  }

  /** uboot_env_create_cfg: an environment has from 1 to 65534 blocks. */
  method CreateEnv(blockOffset: nat, blockCount: nat, redundant: bool, redundantBlockOffset: nat) returns (ok: bool, env: UbootEnv)
    ensures ok <==> 0 < blockCount < 65535
    ensures fresh(env) && env.envSize == blockCount * BLOCK_SIZE && env.useRedundant == redundant && env.blockOffset == blockOffset
    ensures env.redundantBlockOffset == if redundant then redundantBlockOffset else blockOffset
    ensures env.writePrimary && env.writeSecondary == redundant && env.flags == 0 && env.vars == []
    ensures ok ==> env.envSize >= BLOCK_SIZE && env.envSize % BLOCK_SIZE == 0
  {
    env := new UbootEnv(blockOffset, blockCount, redundant, redundantBlockOffset);
    ok := blockCount != 0 && blockCount < 65535;
  }

  method Apply(env: UbootEnv, c: Change)
    modifies env`vars
    ensures env.vars == Applied(old(env.vars), c)
  {
    match c {
      case Set(name, value) => env.Setenv(name, value);
      case Unset(name) => env.Unsetenv(name);
    }
  }

  /** The second half of a change, once m has been read. */
  method WriteChange(bc: BlockCache, env: UbootEnv, c: Change, ghost m: Media) returns (io: bool, ok: bool)
    requires bc.Valid() && env.Placed(bc) && env.useRedundant && env.envSize >= BLOCK_SIZE && m == env.MediaOf(bc.State())
    requires Reading(true, env.vars, env.flags, env.writePrimary, env.writeSecondary) == ReadOf(m)
    modifies env, bc
    ensures io ==> bc.Valid() && env.MediaOf(bc.State()) == Updated(m, c, env.envSize, Completed)
    ensures io ==> (ok <==> Fits(SortByName(Applied(ReadOf(m).vars, c)), true, env.envSize))
    ensures io && ok ==> env.LatestCopy(bc.segments, if ReadOf(m).writePrimary then env.blockOffset else env.redundantBlockOffset)
    ensures io && ok && env.OwnSegments() && old(env.BothRising(bc.segments)) ==> env.BothRising(bc.segments)
    ensures bc.trimmedEndOffset == old(bc.trimmedEndOffset) && bc.MediaLimit() == old(bc.MediaLimit())
  {
    hide Coherent, View, BlockCache.Valid, SortByName, Image, Fits, ReadOf, Updated, Written, Applied, WellFormed;
    hide UbootEnv.MediaOf, UbootEnv.LatestCopy, UbootEnv.Placed, UbootEnv.BothRising, UbootEnv.OwnSegments;
    MarksOne(m);
    UpdateWrites(m, c, env.envSize);
    Apply(env, c);
    io, ok := env.WriteRedundant(bc);
  }

  /** uboot_setenv and uboot_unsetenv: the copies, m before, change as one completed update of the protocol. */
  method ChangeVariable(bc: BlockCache, env: UbootEnv, c: Change, ghost m: Media) returns (io: bool, ok: bool)
    requires bc.Valid() && env.Placed(bc) && env.useRedundant && env.envSize >= BLOCK_SIZE && m == env.MediaOf(bc.State())
    modifies env, bc
    ensures io ==> bc.Valid() && env.MediaOf(bc.State()) == Updated(m, c, env.envSize, Completed)
    ensures io ==> (ok <==> ReadOf(m).ok && Fits(SortByName(Applied(ReadOf(m).vars, c)), true, env.envSize))
    ensures io && ok ==> env.LatestCopy(bc.segments, if ReadOf(m).writePrimary then env.blockOffset else env.redundantBlockOffset)
    ensures io && ok && env.OwnSegments() ==> env.BothRising(bc.segments)
    ensures bc.trimmedEndOffset == old(bc.trimmedEndOffset) && bc.MediaLimit() == old(bc.MediaLimit())
  {
    hide Coherent, View, BlockCache.Valid, SortByName, Fits, ReadOf, Updated, Applied, WellFormed;
    hide UbootEnv.MediaOf, UbootEnv.LatestCopy, UbootEnv.BothRising, UbootEnv.OwnSegments;
    UpdateWrites(m, c, env.envSize);
    io, ok := env.ReadRedundant(bc);
    if io && ok {
      io, ok := WriteChange(bc, env, c, m);
    }
  }

  lemma MarksOne(m: Media)
    requires |m.primary| >= 5 && |m.secondary| >= 5
    ensures ReadOf(m).ok ==> ReadOf(m).writePrimary != ReadOf(m).writeSecondary
  {
    ReadMarksOther(m);
  }

  lemma UpdateWrites(m: Media, c: Change, size: nat)
    requires Sized(m, size)
    ensures var r := ReadOf(m); var ps := SortByName(Applied(r.vars, c));
            Updated(m, c, size, Completed) ==
            if r.ok && Fits(ps, true, size) then Written(m, Image(ps, true, r.flags + 1, size), r.writePrimary, r.writeSecondary, Completed) else m
  {
    hide ReadOf, SortByName, Applied, Fits, Image, Written;
  }

  /** uboot_clearenv: a fresh environment object is written to both copies. */
  method ClearEnvironment(bc: BlockCache, env: UbootEnv, ghost m: Media) returns (io: bool)
    requires bc.Valid() && env.Placed(bc) && env.useRedundant && env.envSize >= BLOCK_SIZE && m == env.MediaOf(bc.State())
    modifies env, bc
    ensures io ==> bc.Valid() && env.MediaOf(bc.State()) == Cleared(m, env.envSize, Completed)
    ensures io ==> env.LatestCopy(bc.segments, env.redundantBlockOffset) && (env.OwnSegments() ==> env.BothRising(bc.segments))
    ensures bc.trimmedEndOffset == old(bc.trimmedEndOffset) && bc.MediaLimit() == old(bc.MediaLimit())
  {
    hide Coherent, View, BlockCache.Valid, Image, UbootEnv.LatestCopy, UbootEnv.BothRising, UbootEnv.OwnSegments, UbootEnv.MediaOf, Written, UbootEnv.Placed;
    env.Renew();
    var ok;
    io, ok := env.WriteRedundant(bc);
    ClearedIs(m, env.envSize);
  }

  lemma ClearedIs(m: Media, size: nat)
    requires size >= BLOCK_SIZE
    ensures Cleared(m, size, Completed) == Written(m, Image([], true, 0 + 1, size), true, true, Completed)
    ensures SortByName([]) == [] && Fits([], true, size)
  {
  }
}
