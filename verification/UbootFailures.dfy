/** Runs that fail: tasks whose flush, cut at one point, loses what earlier tasks had stored. */
module UbootFailures {
  import opened Bytes
  import opened SegmentFlags
  import opened TrimBits
  import opened CacheModel
  import opened FlushOrder
  import opened Crc32
  import opened UbootPairs
  import opened UbootCodec
  import opened UbootProtocol
  import opened UbootFlush
  import opened UbootEnvironment
  import opened UbootCuts
  import opened UbootEdits

  // ----- Setting one variable over and over -----

  const A: seq<byte> := [97]

  function SetA(v: byte): Op {
    Edit(Set(A, [v]))
  }

  function JustA(v: byte): seq<Pair> {
    [Pair(A, [v])]
  }

  /** The environment holds at most the variable a. */
  ghost predicate AtMostA(env: seq<Pair>) {
    env == [] || (|env| == 1 && env[0].name == A)
  }

  lemma AppliedA(env: seq<Pair>, v: byte)
    requires AtMostA(env)
    ensures SortByName(Applied(env, Set(A, [v]))) == JustA(v)
  {
    var p := Pair(A, [v]);
    assert Applied(env, Set(A, [v])) == [p];
    assert [p][1..] == [] && SortByName([p]) == [p];
  }

  lemma BodyOfA(v: byte)
    ensures Body(JustA(v)) == [97, EQUALS, v, 0] && (forall size: nat :: size >= BLOCK_SIZE ==> Fits(JustA(v), true, size))
  {
    assert JustA(v)[1..] == [] && Body(JustA(v)) == Entry(Pair(A, [v])) + Body([]);
  }

  function ImageOfA(v: byte, flag: byte, size: nat): (r: seq<byte>)
    requires size >= BLOCK_SIZE
    ensures |r| == size
  {
    BodyOfA(v);
    Image(JustA(v), true, flag, size)
  }

  function PayloadOfA(v: byte, size: nat): (r: seq<byte>)
    requires size >= BLOCK_SIZE
    ensures |r| == size - 5
  {
    BodyOfA(v);
    Payload(JustA(v), size - 5)
  }

  lemma PayloadsOfA(v: byte, w: byte, size: nat)
    requires size >= BLOCK_SIZE && v != w
    ensures Crc(PayloadOfA(v, size)) != Crc(PayloadOfA(w, size))
  {
    hide Crc, Body;
    BodyOfA(v);
    BodyOfA(w);
    var p, q := PayloadOfA(v, size), PayloadOfA(w, size);
    assert q == p[2 := w] && p[2] == v;
    OneByteDetected(p, 2, w);
  }

  lemma HeaderOfA(v: byte, flag: byte, size: nat)
    requires size >= BLOCK_SIZE
    ensures ImageOfA(v, flag, size)[..4] == LittleEndian(Crc(PayloadOfA(v, size)))
  {
    hide Crc, Payload, LittleEndian;
    BodyOfA(v);
  }

  lemma LittleEndiansDiffer(c: bv32, d: bv32)
    requires c != d
    ensures LittleEndian(c) != LittleEndian(d)
  {
    LittleEndianBack(c);
    LittleEndianBack(d);
    hide LittleEndian, FromLittleEndian;
  }

  /** Two such blocks with different values have different checksums. */
  lemma ChecksumsOfA(v: byte, flag: byte, w: byte, flag': byte, size: nat)
    requires size >= BLOCK_SIZE && v != w
    ensures ChecksumsDiffer(ImageOfA(v, flag, size), ImageOfA(w, flag', size))
  {
    hide Crc, PayloadOfA, LittleEndian, ImageOfA;
    PayloadsOfA(v, w, size);
    HeaderOfA(v, flag, size);
    HeaderOfA(w, flag', size);
    LittleEndiansDiffer(Crc(PayloadOfA(v, size)), Crc(PayloadOfA(w, size)));
    var a, b := ImageOfA(v, flag, size), ImageOfA(w, flag', size);
    var k: nat :| k < 4 && a[..4][k] != b[..4][k];
  }

  /** Copy p is in use and holds just a, with this value. */
  ghost predicate UsesA(m: Media, p: bool, v: byte, size: nat) {
    && Sized(m, size) && Readable(m) && WellKept(m) && Current(m) == JustA(v)
    && (InUsePrimary(m) <==> p) && Copy(m, p) == ImageOfA(v, ReadOf(m).flags, size)
  }

  /** Setting a goes to the copy that is not in use and leaves the other one alone. */
  lemma SetStep(m: Media, v: byte, size: nat)
    requires Sized(m, size) && Readable(m) && WellKept(m) && AtMostA(Current(m)) && v != 0
    ensures GoodOps([SetA(v)]) && Fits(SortByName(Applied(ReadOf(m).vars, SetA(v).change)), true, size)
    ensures var m1 := Performed(m, SetA(v), size);
            Sized(m1, size) && UsesA(m1, !InUsePrimary(m), v, size) && Copy(m1, InUsePrimary(m)) == Copy(m, InUsePrimary(m))
  {
    hide Applied, Fits, SortByName, Readable, WellKept, ReadOf, Updated, Body, Image;
    AppliedA(Current(m), v);
    BodyOfA(v);
    ReadIsGood(m);
    ChangedSorted(ReadOf(m).vars, SetA(v).change);
    FirstChange(m, SetA(v).change, size);
    UpdatedIs(m, SetA(v).change, size, Completed);
  }

  /** The operations that set a to these values, one after the other. */
  function SetsOfA(vs: seq<byte>): (r: seq<Op>)
    ensures |r| == |vs| && AllEdits(r)
  {
    if vs == [] then [] else [SetA(vs[0])] + SetsOfA(vs[1..])
  }

  /** The copy in use after so many of them. */
  predicate InUseAfter(p: bool, n: nat) {
    p <==> n % 2 == 0
  }

  ghost predicate HoldsA(d: seq<byte>, v: byte, size: nat) {
    size >= BLOCK_SIZE && exists flag: byte :: d == ImageOfA(v, flag, size)
  }

  /** The last value and the one before it, starting from v. */
  function LastOf(v: byte, vs: seq<byte>): byte {
    if vs == [] then v else vs[|vs| - 1]
  }

  function BeforeLast(v: byte, vs: seq<byte>): byte
    requires vs != []
  {
    LastOf(v, vs[..|vs| - 1])
  }

  /** After these values copy q is in use with the last one, and the other one holds the one before it, if there are two. */
  ghost predicate StoredA(m: Media, p: bool, v: byte, vs: seq<byte>, b: Media, size: nat) {
    var q := InUseAfter(p, |vs|);
    && UsesA(b, q, LastOf(v, vs), size)
    && if vs == [] then Copy(b, !q) == Copy(m, !p) else HoldsA(Copy(b, !q), BeforeLast(v, vs), size)
  }

  lemma InUseNext(p: bool, n: nat)
    ensures InUseAfter(!p, n) == InUseAfter(p, n + 1)
  {
  }

  lemma UsesHolds(m: Media, p: bool, v: byte, size: nat)
    requires UsesA(m, p, v, size)
    ensures Sized(m, size) && Readable(m) && WellKept(m) && Current(m) == JustA(v) && (InUsePrimary(m) <==> p) && HoldsA(Copy(m, p), v, size)
  {
    hide ReadOf, Readable, WellKept, ImageOfA;
  }

  lemma LastNext(v: byte, vs: seq<byte>)
    requires vs != []
    ensures LastOf(v, vs) == LastOf(vs[0], vs[1..])
    ensures BeforeLast(v, vs) == if |vs| == 1 then v else BeforeLast(vs[0], vs[1..])
  {
  }

  lemma StoredStep(m: Media, p: bool, v: byte, vs: seq<byte>, m1: Media, b: Media, size: nat)
    requires vs != [] && UsesA(m, p, v, size) && Copy(m1, p) == Copy(m, p) && StoredA(m1, !p, vs[0], vs[1..], b, size)
    ensures StoredA(m, p, v, vs, b, size)
  {
    hide UsesA, HoldsA, InUseAfter, LastOf, BeforeLast;
    UsesHolds(m, p, v, size);
    InUseNext(p, |vs| - 1);
    LastNext(v, vs);
  }

  lemma {:induction false} SetsStored(m: Media, p: bool, v: byte, vs: seq<byte>, size: nat)
    requires UsesA(m, p, v, size) && forall k :: 0 <= k < |vs| ==> vs[k] != 0
    ensures Sized(m, size) && GoodOps(SetsOfA(vs)) && AllFit(m, SetsOfA(vs), size) && StoredA(m, p, v, vs, Batch(m, SetsOfA(vs), size), size)
    decreases |vs|
  {
    hide ReadOf, InUsePrimary, Performed, Readable, WellKept, Current, Fits, SortByName, Applied, HoldsA, UsesA, GoodChange, StoredA, AllFit, GoodOps, Copy, Batch;
    UsesHolds(m, p, v, size);
    if vs != [] {
      var m1 := Performed(m, SetA(vs[0]), size);
      SetStep(m, vs[0], size);
      SetsStored(m1, !p, vs[0], vs[1..], size);
      var ops := SetsOfA(vs);
      assert ops[0] == SetA(vs[0]) && ops[1..] == SetsOfA(vs[1..]);
      OpsFollow(m, ops, size);
      StoredStep(m, p, v, vs, m1, Batch(m1, ops[1..], size), size);
    } else {
      NoneStored(m, p, v, size);
    }
  }

  lemma NoneStored(m: Media, p: bool, v: byte, size: nat)
    requires UsesA(m, p, v, size) && Sized(m, size)
    ensures GoodOps([]) && AllFit(m, [], size) && StoredA(m, p, v, [], Batch(m, [], size), size)
  {
    hide UsesA;
  }

  lemma OpsFollow(m: Media, ops: seq<Op>, size: nat)
    requires Sized(m, size) && ops != [] && ops[0].Edit? && GoodOps([ops[0]]) && GoodOps(ops[1..]) && Sized(Performed(m, ops[0], size), size)
    requires Fits(SortByName(Applied(ReadOf(m).vars, ops[0].change)), true, size) && AllFit(Performed(m, ops[0], size), ops[1..], size)
    ensures GoodOps(ops) && AllFit(m, ops, size) && Batch(m, ops, size) == Batch(Performed(m, ops[0], size), ops[1..], size)
  {
    hide Performed, Fits, SortByName, Applied, ReadOf, GoodChange;
    assert [ops[0]][0] == ops[0];
    assert forall k :: 1 <= k < |ops| ==> ops[k] == ops[1..][k - 1];
  }

  lemma {:induction false} SetsLeadTo(v: byte, vs: seq<byte>, size: nat)
    requires size >= BLOCK_SIZE
    ensures EnvAfterAll(JustA(v), SetsOfA(vs), size) == JustA(([v] + vs)[|vs|])
    decreases |vs|
  {
    hide Applied, SortByName, Fits;
    if vs != [] {
      AppliedA(JustA(v), vs[0]);
      BodyOfA(vs[0]);
      SetsLeadTo(vs[0], vs[1..], size);
      assert [vs[0]] + vs[1..] == vs;
      assert SetsOfA(vs)[1..] == SetsOfA(vs[1..]);
    }
  }

  lemma {:induction false} SetsOfFirst(vs: seq<byte>, j: nat)
    requires j <= |vs|
    ensures SetsOfA(vs)[..j] == SetsOfA(vs[..j])
  {
    if j > 0 {
      SetsOfFirst(vs[1..], j - 1);
      assert vs[..j][1..] == vs[1..][..j - 1];
      assert SetsOfA(vs)[..j] == [SetA(vs[0])] + SetsOfA(vs[1..])[..j - 1];
    }
  }

  /** What they lead to is a with one of the values. */
  lemma AmongSets(v: byte, vs: seq<byte>, size: nat, env: seq<Pair>)
    requires size >= BLOCK_SIZE && Among(JustA(v), SetsOfA(vs), size, env)
    ensures exists w :: w in [v] + vs && env == JustA(w)
  {
    hide EnvAfterAll;
    var j :| 0 <= j <= |vs| && env == EnvAfterAll(JustA(v), SetsOfA(vs)[..j], size);
    SetsOfFirst(vs, j);
    SetsLeadTo(v, vs[..j], size);
    assert ([v] + vs)[j] == ([v] + vs[..j])[j];
  }

  // ----- A cache that holds the copies of one medium over a disk that holds another one -----

  /** Each copy lies in one segment. */
  ghost predicate SingleSegments(env: UbootEnv) {
    forall p: bool :: At(env, p) + env.envSize <= SegmentBase(At(env, p)) + SEGMENT_SIZE
  }

  ghost function ByteOf(env: UbootEnv, m: Media, i: nat, under: byte): byte
    requires Sized(m, env.envSize)
  {
    if InCopy(env, true, i) then m.primary[i - At(env, true)]
    else if InCopy(env, false, i) then m.secondary[i - At(env, false)]
    else under
  }

  /** A disk with the copies written into it. */
  ghost function DiskWith(env: UbootEnv, m: Media, was: seq<byte>): (r: seq<byte>)
    requires Sized(m, env.envSize)
    ensures forall i: nat :: DiskAt(r, i) == ByteOf(env, m, i, DiskAt(was, i))
  {
    var end := |was| + At(env, true) + At(env, false) + env.envSize;
    seq(end, i requires 0 <= i < end => ByteOf(env, m, i, DiskAt(was, i)))
  }

  /** An entry all of whose blocks are dirty. */
  ghost function EntryWith(env: UbootEnv, now: Media, disk: seq<byte>, base: nat, stamp: nat): (g: Segment)
    requires Sized(now, env.envSize)
    ensures |g.data| == SEGMENT_SIZE && |g.flags| == FLAG_BYTES && g.inUse && g.offset == base && g.lastAccess == stamp
    ensures forall j :: 0 <= j < SEGMENT_SIZE ==> g.data[j] == ByteOf(env, now, base + j, DiskAt(disk, base + j))
    ensures forall b :: 0 <= b < BLOCKS_PER_SEGMENT ==> IsDirty(g.flags, b) && IsValid(g.flags, b)
  {
    Segment(true, seq(SEGMENT_SIZE, j requires 0 <= j < SEGMENT_SIZE => ByteOf(env, now, base + j, DiskAt(disk, base + j))), base, stamp, false,
      seq(FLAG_BYTES, _ => 0xFF))
  }

  /** The segments at these offsets, accessed in this order, over a disk that is not trimmed anywhere. */
  ghost function CacheWith(env: UbootEnv, now: Media, disk: seq<byte>, bases: seq<nat>): (c: Cache)
    requires Sized(now, env.envSize)
    ensures |c.segments| == |bases| && c.ground.disk == disk && c.ground.limit == Unlimited
    ensures forall k :: 0 <= k < |bases| ==> c.segments[k] == EntryWith(env, now, disk, bases[k], k)
  {
    Cache(seq(|bases|, k requires 0 <= k < |bases| => EntryWith(env, now, disk, bases[k], k)),
      Ground(seq(1 + Sum(bases), _ => 0), false, disk, Unlimited))
  }

  function Sum(ns: seq<nat>): (r: nat)
    ensures forall k :: 0 <= k < |ns| ==> ns[k] <= r
  {
    if ns == [] then 0 else ns[0] + Sum(ns[1..])
  }

  ghost predicate GoodBases(bases: seq<nat>) {
    bases != [] && (forall k :: 0 <= k < |bases| ==> bases[k] % SEGMENT_SIZE == 0) && forall k, l :: 0 <= k < l < |bases| ==> bases[k] != bases[l]
  }

  lemma CacheIsGood(env: UbootEnv, now: Media, disk: seq<byte>, bases: seq<nat>)
    requires Sized(now, env.envSize) && GoodBases(bases)
    ensures var c := CacheWith(env, now, disk, bases);
            WellFormed(c) && Coherent(c) && DistinctStamps(c.segments) && forall n: nat :: !Trimmed(c.ground, n)
  {
    var c := CacheWith(env, now, disk, bases);
    hide IsDirty, IsValid, ByteOf;
    forall n: nat
      ensures !Trimmed(c.ground, n)
    {
      NoBit(c.ground.trimmed, n);
    }
  }

  lemma NoBit(bits: seq<bv8>, n: nat)
    requires n < 8 * |bits| ==> bits[n / 8] == 0
    ensures n < 8 * |bits| ==> !Bit(bits, n)
  {
  }

  lemma EntryShows(env: UbootEnv, now: Media, disk: seq<byte>, base: nat, stamp: nat, j: nat, under: byte)
    requires Sized(now, env.envSize) && j < SEGMENT_SIZE
    ensures EntryByte(EntryWith(env, now, disk, base, stamp), j, under) == ByteOf(env, now, base + j, DiskAt(disk, base + j))
  {
    hide ByteOf, IsValid, IsDirty;
  }

  /** Outside the copies the entries hold what is on the disk, inside them the copies of the new medium. */
  lemma CacheShows(env: UbootEnv, now: Media, disk: seq<byte>, bases: seq<nat>, i: nat)
    requires Sized(now, env.envSize) && GoodBases(bases)
    requires SegmentBase(i) in bases
    ensures var c := CacheWith(env, now, disk, bases); WellFormed(c) && View(c, i) == ByteOf(env, now, i, DiskAt(disk, i))
  {
    hide WellFormed, View, Coherent, ByteOf, EntryByte, CacheWith, EntryWith, SegmentBase, Trimmed;
    CacheIsGood(env, now, disk, bases);
    var c := CacheWith(env, now, disk, bases);
    var k :| 0 <= k < |bases| && bases[k] == SegmentBase(i);
    assert c.segments[k] == EntryWith(env, now, disk, bases[k], k);
    ViewInSegment(c, k, i);
    EntryShows(env, now, disk, bases[k], k, i - bases[k], Back(c.ground, i));
  }

  lemma HoldsBytes(env: UbootEnv, m: Media, p: bool, i: nat, under: byte)
    requires Sized(m, env.envSize) && env.Apart() && InCopy(env, p, i)
    ensures ByteOf(env, m, i, under) == Copy(m, p)[i - At(env, p)]
  {
  }

  lemma ByteHeld(env: UbootEnv, now: Media, disk: seq<byte>, bases: seq<nat>, p: bool, k: nat)
    requires Sized(now, env.envSize) && GoodBases(bases) && env.Apart() && SingleSegments(env) && SegmentBase(At(env, p)) in bases
    requires k < env.envSize
    ensures var c := CacheWith(env, now, disk, bases); WellFormed(c) && View(c, At(env, p) + k) == Copy(now, p)[k]
  {
    hide WellFormed, View, Coherent, ByteOf, CacheWith, SegmentBase, UbootEnv.MediaOf, GoodBases;
    var i := At(env, p) + k;
    BaseIs(SegmentBase(At(env, p)), i);
    CacheShows(env, now, disk, bases, i);
    HoldsBytes(env, now, p, i, DiskAt(disk, i));
  }

  lemma CacheHolds(env: UbootEnv, now: Media, disk: seq<byte>, bases: seq<nat>, p: bool)
    requires Sized(now, env.envSize) && GoodBases(bases) && env.Apart() && SingleSegments(env) && SegmentBase(At(env, p)) in bases
    ensures var c := CacheWith(env, now, disk, bases); WellFormed(c) && Copy(env.MediaOf(c), p) == Copy(now, p)
  {
    hide WellFormed, View, CacheWith, SegmentBase, UbootEnv.MediaOf, GoodBases, At, SingleSegments, UbootEnv.Apart;
    ByteHeld(env, now, disk, bases, p, 0);
    var c := CacheWith(env, now, disk, bases);
    CopiesOf(env, c, disk, p);
    forall k | 0 <= k < env.envSize
      ensures Copy(env.MediaOf(c), p)[k] == Copy(now, p)[k]
    {
      ByteOfCopy(env, c, p, k);
      ByteHeld(env, now, disk, bases, p, k);
    }
  }

  lemma DiskHolds(env: UbootEnv, m: Media, was: seq<byte>)
    requires Sized(m, env.envSize) && env.Apart()
    ensures OnMedium(env, DiskWith(env, m, was)) == m
  {
    hide ByteOf, DiskWith;
    var disk := DiskWith(env, m, was);
    forall k | 0 <= k < env.envSize
      ensures OnMedium(env, disk).primary[k] == m.primary[k] && OnMedium(env, disk).secondary[k] == m.secondary[k]
    {
      HoldsBytes(env, m, true, At(env, true) + k, DiskAt(was, At(env, true) + k));
      HoldsBytes(env, m, false, At(env, false) + k, DiskAt(was, At(env, false) + k));
    }
  }

  /** Such a cache is one that a task can leave behind. */
  lemma CacheAfterTask(env: UbootEnv, was: seq<byte>, m: Media, ops: seq<Op>, bases: seq<nat>)
    requires Sized(m, env.envSize) && Readable(m) && WellKept(m) && GoodOps(ops) && AllFit(m, ops, env.envSize)
    requires Sized(Batch(m, ops, env.envSize), env.envSize) && env.Apart() && SingleSegments(env) && GoodBases(bases)
    requires SegmentBase(At(env, true)) in bases && SegmentBase(At(env, false)) in bases
    ensures AfterTask(env, CacheWith(env, Batch(m, ops, env.envSize), DiskWith(env, m, was), bases), m, ops)
  {
    hide ReadOf, Readable, WellKept, GoodOps, AllFit, Batch, WellFormed, View, Coherent, SegmentBase, GoodBases, SingleSegments, DistinctStamps, UbootEnv.MediaOf, Trimmed;
    var now, disk := Batch(m, ops, env.envSize), DiskWith(env, m, was);
    CacheIsGood(env, now, disk, bases);
    CacheHolds(env, now, disk, bases, true);
    CacheHolds(env, now, disk, bases, false);
    DiskHolds(env, m, was);
    var c := CacheWith(env, now, disk, bases);
    assert Copy(env.MediaOf(c), true) == env.MediaOf(c).primary && Copy(env.MediaOf(c), false) == env.MediaOf(c).secondary;
    assert Copy(now, true) == now.primary && Copy(now, false) == now.secondary;
  }

  /** The segments of the two copies in the order in which a task that wrote this copy last accessed them. */
  ghost function BasesFor(env: UbootEnv, last: bool): (r: seq<nat>) {
    if OneSegment(env) then [SegmentBase(At(env, true))] else [SegmentBase(At(env, !last)), SegmentBase(At(env, last))]
  }

  lemma BasesGood(env: UbootEnv, last: bool)
    requires env.OwnSegments() || OneSegment(env)
    requires env.envSize > 0
    ensures GoodBases(BasesFor(env, last)) && SegmentBase(At(env, true)) in BasesFor(env, last) && SegmentBase(At(env, false)) in BasesFor(env, last)
  {
    BaseGrows(At(env, true), At(env, true));
    BaseGrows(At(env, false), At(env, false));
    assert At(env, true) == BLOCK_SIZE * env.blockOffset && At(env, false) == BLOCK_SIZE * env.redundantBlockOffset;
    hide SegmentBase;
  }

  lemma AloneInOrder(env: UbootEnv, segments: seq<Segment>, last: bool)
    requires |segments| == 1 && env.envSize > 0 && OneSegment(env)
    ensures env.LatestCopy(segments, Block(env, last)) && !env.OwnSegments()
  {
    if env.OwnSegments() {
      NotBoth(env);
    }
    hide SegmentBase;
  }

  lemma PairLatest(segments: seq<Segment>, lo: nat, hi: nat)
    requires |segments| == 2 && segments[0].lastAccess < segments[1].lastAccess && !(lo <= segments[0].offset < hi)
    ensures Latest(segments, lo, hi)
  {
  }

  lemma PairRising(segments: seq<Segment>, lo: nat, hi: nat)
    requires |segments| == 2 && !(lo <= segments[0].offset < hi && lo <= segments[1].offset < hi)
    ensures Rising(segments, lo, hi)
  {
  }

  lemma BasesApart(env: UbootEnv, p: bool)
    requires env.envSize > 0 && env.OwnSegments()
    ensures !(SegmentBase(At(env, p)) <= SegmentBase(At(env, !p)) < At(env, p) + env.envSize)
    ensures !(SegmentBase(At(env, !p)) <= SegmentBase(At(env, p)) < At(env, !p) + env.envSize)
  {
    BaseGrows(At(env, p), At(env, p));
    BaseGrows(At(env, !p), At(env, !p));
    assert At(env, true) == BLOCK_SIZE * env.blockOffset && At(env, false) == BLOCK_SIZE * env.redundantBlockOffset;
    hide SegmentBase;
  }

  lemma PairInOrder(env: UbootEnv, segments: seq<Segment>, last: bool)
    requires |segments| == 2 && env.envSize > 0 && env.OwnSegments() && segments[0].lastAccess < segments[1].lastAccess
    requires segments[0].offset == SegmentBase(At(env, !last)) && segments[1].offset == SegmentBase(At(env, last))
    ensures env.LatestCopy(segments, Block(env, last)) && env.BothRising(segments)
  {
    BasesApart(env, last);
    hide SegmentBase, Latest, Rising, UbootEnv.OwnSegments;
    PairLatest(segments, SegmentBase(At(env, last)), At(env, last) + env.envSize);
    PairRising(segments, SegmentBase(At(env, true)), At(env, true) + env.envSize);
    PairRising(segments, SegmentBase(At(env, false)), At(env, false) + env.envSize);
  }

  lemma BasesInOrder(env: UbootEnv, now: Media, disk: seq<byte>, last: bool)
    requires Sized(now, env.envSize) && env.envSize > 0 && (env.OwnSegments() || OneSegment(env))
    ensures var segments := CacheWith(env, now, disk, BasesFor(env, last)).segments;
            env.LatestCopy(segments, Block(env, last)) && (env.OwnSegments() ==> env.BothRising(segments))
  {
    hide SegmentBase, Sum, UbootEnv.LatestCopy, UbootEnv.BothRising, OneSegment, UbootEnv.OwnSegments;
    var segments := CacheWith(env, now, disk, BasesFor(env, last)).segments;
    if OneSegment(env) {
      AloneInOrder(env, segments, last);
    } else {
      PairInOrder(env, segments, last);
    }
  }

  // ----- Runs that lose what was stored -----

  /** The value these sets leave in the copy that was in use before them. */
  function InThatCopy(v: byte, vs: seq<byte>): byte
    requires vs != []
  {
    if |vs| % 2 == 0 then LastOf(v, vs) else BeforeLast(v, vs)
  }

  /** Where the copy in use is written first: three or more sets in segments of their own, or two in one with it lower. */
  ghost predicate WrittenFirst(env: UbootEnv, p: bool, n: nat) {
    && SingleSegments(env)
    && if OneSegment(env) then n >= 2 && (p <==> At(env, true) < At(env, false)) else env.OwnSegments() && n >= 3 && n % 2 == 1
  }

  lemma ChecksumOfUsed(m: Media, p: bool, v: byte, vs: seq<byte>, b: Media, size: nat)
    requires UsesA(m, p, v, size) && |vs| >= 2 && StoredA(m, p, v, vs, b, size) && InThatCopy(v, vs) != v
    ensures |Copy(m, p)| == |Copy(b, p)| == size >= BLOCK_SIZE && ChecksumsDiffer(Copy(m, p), Copy(b, p))
  {
    hide Readable, WellKept, Current, ReadOf, ImageOfA, ChecksumsDiffer;
    var q := InUseAfter(p, |vs|);
    var flag: byte :| Copy(m, p) == ImageOfA(v, flag, size);
    var flag': byte :| Copy(b, p) == ImageOfA(InThatCopy(v, vs), flag', size);
    ChecksumsOfA(v, flag, InThatCopy(v, vs), flag', size);
  }

  lemma LastIsOther(env: UbootEnv, m: Media, p: bool, v: byte, vs: seq<byte>)
    requires UsesA(m, p, v, env.envSize) && vs != [] && WrittenFirst(env, p, |vs|)
    requires GoodOps(SetsOfA(vs)) && AllFit(m, SetsOfA(vs), env.envSize)
    ensures Sized(m, env.envSize) && FirstIsPrimary(env, m, SetsOfA(vs)) == p
  {
    hide Current, Batch, AllFit, GoodOps, ReadOf, Readable, WellKept, LastIsPrimary, SegmentBase;
    TakesTurns(m, SetsOfA(vs), env.envSize);
  }

  /**
   * Wherever the copy in use is written first, some cut of the flush behind the sets leaves the reader with what the
   * other copy held, and loses every task that came after that.
   */
  lemma SetsLost(env: UbootEnv, was: seq<byte>, m: Media, p: bool, v: byte, vs: seq<byte>) returns (c: Cache, disk: seq<byte>)
    requires UsesA(m, p, v, env.envSize) && (forall k :: 0 <= k < |vs| ==> vs[k] != 0) && |vs| >= 2 && InThatCopy(v, vs) != v
    requires env.Apart() && WrittenFirst(env, p, |vs|) && Decodes(Copy(m, !p))
    requires forall w :: w in [v] + vs ==> SortByName(Vars(Copy(m, !p))) != JustA(w)
    ensures AfterTask(env, c, m, SetsOfA(vs)) && InOrder(env, c, m, SetsOfA(vs)) && IsCut(c, disk)
    ensures var x := OnMedium(env, disk);
            && Readable(x) && Current(x) == SortByName(Vars(Copy(m, !p))) && !Safe(m, SetsOfA(vs), env.envSize, x)
  {
    var ops := SetsOfA(vs);
    var now := Batch(m, ops, env.envSize);
    SetsStored(m, p, v, vs, env.envSize);
    StoredSized(m, p, v, vs, now, env.envSize);
    ChecksumOfUsed(m, p, v, vs, now, env.envSize);
    LastIsOther(env, m, p, v, vs);
    var last := LastIsPrimary(m, ops, env.envSize);
    var bases := BasesFor(env, last);
    hide ReadOf, Batch, AllFit, GoodOps, Readable, WellKept, Current, LastIsPrimary, StoredA, SegmentBase, Decodes, Vars, SortByName, CacheWith, DiskWith, GoodBases, AfterTask, InOrder,
         WellFormed, Copy, UsesA, BasesFor, FirstIsPrimary, ChecksumsDiffer, Safe, IsCut, CopyFirst, HeaderFirst, Among, View, Coherent;
    BasesGood(env, last);
    UsesHolds(m, p, v, env.envSize);
    CacheAfterTask(env, was, m, ops, bases);
    c := CacheWith(env, now, DiskWith(env, m, was), bases);
    BasesInOrder(env, now, DiskWith(env, m, was), last);
    InOrderIs(env, c, m, ops);
    CopyInOrder(env, c, m, ops);
    HeaderInOrder(env, c, m, ops, p);
    StaleUnknown(m, p, v, vs, env.envSize);
    AfterIs(env, c, m, ops);
    disk := FallenBack(env, c, m, ops, p);
  }

  lemma StoredSized(m: Media, p: bool, v: byte, vs: seq<byte>, b: Media, size: nat)
    requires StoredA(m, p, v, vs, b, size)
    ensures Sized(b, size)
  {
    hide Readable, WellKept, Current, ReadOf;
  }

  lemma InOrderIs(env: UbootEnv, c: Cache, m: Media, ops: seq<Op>)
    requires Sized(m, env.envSize) && ops != []
    requires env.LatestCopy(c.segments, Block(env, LastIsPrimary(m, ops, env.envSize))) && (env.OwnSegments() ==> env.BothRising(c.segments))
    ensures InOrder(env, c, m, ops)
  {
  }

  lemma AfterIs(env: UbootEnv, c: Cache, m: Media, ops: seq<Op>)
    requires AfterTask(env, c, m, ops)
    ensures WellFormed(c) && env.MediaOf(c) == Batch(m, ops, env.envSize)
  {
  }

  lemma StaleUnknown(m: Media, p: bool, v: byte, vs: seq<byte>, size: nat)
    requires Sized(m, size) && Current(m) == JustA(v) && forall w :: w in [v] + vs ==> SortByName(Vars(Copy(m, !p))) != JustA(w)
    ensures !Known(Current(m), SetsOfA(vs), size, Copy(m, !p))
  {
    hide Current, Decodes, Vars, SortByName, Among;
    if Known(Current(m), SetsOfA(vs), size, Copy(m, !p)) {
      AmongSets(v, vs, size, SortByName(Vars(Copy(m, !p))));
    }
  }

  lemma BatchOne(m: Media, a: Op, size: nat)
    requires Sized(m, size)
    ensures Batch(m, [a], size) == Performed(m, a, size)
  {
    hide Performed;
    assert [a][1..] == [];
  }

  lemma BatchNext(m: Media, a: Op, ops: seq<Op>, size: nat)
    requires Sized(m, size) && Sized(Performed(m, a, size), size)
    ensures Batch(m, [a] + ops, size) == Batch(Performed(m, a, size), ops, size)
  {
    hide Performed;
    assert ([a] + ops)[0] == a && ([a] + ops)[1..] == ops;
  }

  /** The environment has been cleared and a set once: the secondary copy is in use, the primary one is empty. */
  lemma ClearedAndSet(before: Media, v: byte, size: nat) returns (m: Media)
    requires Sized(before, size) && v != 0
    ensures m == Batch(before, [Clear, SetA(v)], size) && UsesA(m, false, v, size)
    ensures |m.primary| >= 5 && Decodes(Copy(m, true)) && SortByName(Vars(Copy(m, true))) == []
  {
    hide Performed, Batch, UsesA, ReadOf, Readable, WellKept, Current, Decodes, Vars, SortByName, Applied, Fits, ImageOfA;
    var m0 := Performed(before, Clear, size);
    ClearIs(before, size);
    ClearCompletes(before, size);
    BothCleared(before, size);
    SetStep(m0, v, size);
    m := Performed(m0, SetA(v), size);
    BatchOne(m0, SetA(v), size);
    BatchNext(before, Clear, [SetA(v)], size);
    assert [Clear] + [SetA(v)] == [Clear, SetA(v)];
  }

  lemma ClearIs(m: Media, size: nat)
    requires Sized(m, size)
    ensures Performed(m, Clear, size) == Cleared(m, size, Completed) && Sized(Performed(m, Clear, size), size)
  {
  }

  lemma NewestIsUsed(m: Media)
    requires |m.primary| >= 5 && |m.secondary| >= 5 && Readable(m)
    ensures var d := Copy(m, InUsePrimary(m)); Decodes(d) && SortByName(Vars(d)) == Current(m)
  {
    hide ReadOf, Decodes, Vars, SortByName, Readable, Current;
    NewestHolds(m);
  }

  /** And set again: the primary copy is in use, the secondary one holds the value before. */
  lemma SetAgain(before: Media, v: byte, w: byte, size: nat) returns (m: Media)
    requires Sized(before, size) && v != 0 && w != 0
    ensures m == Batch(before, [Clear, SetA(v), SetA(w)], size) && UsesA(m, true, w, size)
    ensures |m.secondary| >= 5 && Decodes(Copy(m, false)) && SortByName(Vars(Copy(m, false))) == JustA(v)
  {
    hide Performed, Batch, UsesA, ReadOf, Readable, WellKept, Current, Decodes, Vars, SortByName, Applied, Fits, ImageOfA;
    var m0 := Performed(before, Clear, size);
    ClearCompletes(before, size);
    var m1 := ClearedAndSet(before, v, size);
    UsesHolds(m1, false, v, size);
    SetStep(m1, w, size);
    m := Performed(m1, SetA(w), size);
    UsesHolds(m, true, w, size);
    NewestIsUsed(m1);
    ClearIs(before, size);
    assert [Clear] + [SetA(v)] == [Clear, SetA(v)] && [SetA(v)] + [SetA(w)] == [SetA(v), SetA(w)];
    assert [Clear] + ([SetA(v), SetA(w)]) == [Clear, SetA(v), SetA(w)];
    BatchOne(m0, SetA(v), size);
    BatchNext(before, Clear, [SetA(v)], size);
    BatchOne(m1, SetA(w), size);
    BatchNext(m0, SetA(v), [SetA(w)], size);
    BatchNext(before, Clear, [SetA(v), SetA(w)], size);
  }

  /** The tasks before the one that is cut, and the values that one sets. */
  ghost function History(env: UbootEnv): seq<Op> {
    if OneSegment(env) && At(env, true) < At(env, false) then [Clear, SetA(49), SetA(50)] else [Clear, SetA(49)]
  }

  ghost function LastTask(env: UbootEnv): seq<byte> {
    if !OneSegment(env) then [50, 51, 52] else if At(env, true) < At(env, false) then [51, 52] else [50, 51]
  }

  /**
   * Runs that fail, over any disk. In segments of their own: cleared, a=1 stored, then a task that sets a three times. In
   * one segment: cleared, a=1 stored, where the primary copy lies lower a=2 stored as well, then a task that sets a twice.
   * That task's flush has a cut behind which the next read finds no variable, or the value before the last one stored.
   */
  lemma FailingRun(env: UbootEnv, was: seq<byte>, before: Media) returns (m: Media, c: Cache, disk: seq<byte>)
    requires Sized(before, env.envSize) && env.Apart() && SingleSegments(env) && (env.OwnSegments() || OneSegment(env))
    ensures m == Batch(before, History(env), env.envSize) && Sized(m, env.envSize)
    ensures AfterTask(env, c, m, SetsOfA(LastTask(env))) && InOrder(env, c, m, SetsOfA(LastTask(env))) && IsCut(c, disk)
    ensures var x := OnMedium(env, disk);
            && Readable(x) && !Safe(m, SetsOfA(LastTask(env)), env.envSize, x)
            && if |History(env)| == 3 then Current(m) == JustA(50) && Current(x) == JustA(49) else Current(m) == JustA(49) && Current(x) == []
  {
    hide ReadOf, Batch, Readable, WellKept, Current, SegmentBase, Decodes, Vars, SortByName, UsesA, Safe, IsCut, AfterTask, InOrder, SetsOfA, SingleSegments,
         OneSegment, UbootEnv.OwnSegments, UbootEnv.Apart;
    var size := env.envSize;
    if |History(env)| == 3 {
      m := SetAgain(before, 49, 50, size);
      UsesHolds(m, true, 50, size);
    } else {
      m := ClearedAndSet(before, 49, size);
      UsesHolds(m, false, 49, size);
    }
    c, disk := SetsLost(env, was, m, |History(env)| == 3, if |History(env)| == 3 then 50 else 49, LastTask(env));
  }
}
