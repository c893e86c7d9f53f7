/** The same for copies that lie anywhere, and for tasks that change nothing but a counter. */
module UbootLayouts {
  import opened Bytes
  import opened CacheModel
  import opened FlushOrder
  import opened FlushCuts
  import opened UbootProtocol
  import opened UbootFlush
  import opened UbootEnvironment
  import opened UbootCuts

  // ----- A copy of which only the counter changes -----

  /** The medium with one copy already new. */
  function OneNew(m: Media, now: Media, p: bool): Media {
    if p then m.(primary := now.primary) else m.(secondary := now.secondary)
  }

  predicate OnlyCounter(a: seq<byte>, b: seq<byte>) {
    |a| == |b| && |a| >= 5 && a[4] != b[4] && b == a[4 := b[4]]
  }

  lemma OnlyThere(a: seq<byte>, b: seq<byte>, k: nat)
    requires OnlyCounter(a, b) && k < |a| && k != 4
    ensures a[k] == b[k]
  {
    assert b[k] == a[4 := b[4]][k];
  }

  lemma CounterThere(a: seq<byte>, b: seq<byte>)
    requires OnlyCounter(a, b)
    ensures |a| == |b| && |a| >= 5 && a[4] != b[4]
  {
  }

  lemma ItsOffset(env: UbootEnv, p: bool, i: nat)
    requires InCopy(env, p, i)
    ensures At(env, p) <= i < At(env, p) + env.envSize
  {
  }

  lemma CopyLength(m: Media, size: nat, p: bool)
    requires Sized(m, size)
    ensures |Copy(m, p)| == size
  {
  }

  lemma CounterDiffers(env: UbootEnv, c: Cache, m: Media, ops: seq<Op>, p: bool, i: nat)
    requires AfterTask(env, c, m, ops) && OnlyCounter(Copy(m, p), Copy(env.MediaOf(c), p)) && InCopy(env, p, i)
    ensures WellFormed(c) && (Differs(c, i) <==> i == At(env, p) + 4)
  {
    hide View, WellFormed, AfterTask, UbootEnv.MediaOf, OnMedium, Differs, At, Copy, OnlyCounter;
    StateFacts(env, c, m, ops);
    var k := i - At(env, p);
    ItsOffset(env, p, i);
    ByteDiffers(env, c, m, ops, p, k);
    CopyLength(m, env.envSize, p);
    CounterThere(Copy(m, p), Copy(env.MediaOf(c), p));
    if k != 4 {
      OnlyThere(Copy(m, p), Copy(env.MediaOf(c), p), k);
    }
  }

  lemma CounterFirst(env: UbootEnv, c: Cache, m: Media, ops: seq<Op>, p: bool)
    requires AfterTask(env, c, m, ops) && CopyFirst(env, c, p) && OnlyCounter(Copy(m, p), Copy(env.MediaOf(c), p))
    ensures WellFormed(c) && FirstChanged(env, c, p, At(env, p) + 4)
  {
    StateFacts(env, c, m, ops);
    var y := At(env, p) + 4;
    InItsCopy(env, p, 4);
    CounterDiffers(env, c, m, ops, p, y);
    forall i: nat | InCopy(env, p, i)
      ensures Differs(c, i) <==> i == y
    {
      CounterDiffers(env, c, m, ops, p, i);
    }
    hide Ahead, AfterTask, UbootEnv.MediaOf, Differs, OnlyCounter, WellFormed, SettledByte;
  }

  /** A copy of which only the counter changes is never torn; what counts is the reading when it alone is new. */
  lemma CounterOnlyIff(env: UbootEnv, c: Cache, m: Media, ops: seq<Op>, first: bool)
    requires AfterTask(env, c, m, ops) && CopyFirst(env, c, first) && OnlyCounter(Copy(m, first), Copy(env.MediaOf(c), first))
    ensures AllCutsSafe(env, c, m, ops) <==> Safe(m, ops, env.envSize, OneNew(m, env.MediaOf(c), first))
  {
    StateFacts(env, c, m, ops);
    hide AfterTask, CopyFirst, Safe, IsCut, UbootEnv.MediaOf, WellFormed, Known, Decodes, OnlyCounter, TornFails, OnMedium;
    var disk := CounterWritten(env, c, m, ops, first);
    if Safe(m, ops, env.envSize, OneNew(m, env.MediaOf(c), first)) {
      forall d: seq<byte> | IsCut(c, d) && TornFails(m, env.MediaOf(c), OnMedium(env, d))
        ensures Safe(m, ops, env.envSize, OnMedium(env, d))
      {
        CounterCut(env, c, d, m, ops, first);
      }
    }
  }

  lemma CounterWritten(env: UbootEnv, c: Cache, m: Media, ops: seq<Op>, p: bool) returns (disk: seq<byte>)
    requires AfterTask(env, c, m, ops) && CopyFirst(env, c, p) && OnlyCounter(Copy(m, p), Copy(env.MediaOf(c), p))
    ensures IsCut(c, disk) && OnMedium(env, disk) == OneNew(m, env.MediaOf(c), p) && TornFails(m, env.MediaOf(c), OnMedium(env, disk))
  {
    StateFacts(env, c, m, ops);
    hide AfterTask, CopyFirst, FirstChanged, IsCut, UbootEnv.MediaOf, WellFormed, Decodes, OnlyCounter, TornFails, OnMedium;
    CounterFirst(env, c, m, ops, p);
    disk := FirstByteCut(env, c, m, ops, p, 4);
    OneNewIs(m, env.MediaOf(c), OnMedium(env, disk), p);
  }

  lemma OneNewIs(m: Media, now: Media, x: Media, p: bool)
    requires OnlyCounter(Copy(m, p), Copy(now, p)) && Copy(x, p) == Copy(m, p)[4 := Copy(now, p)[4]] && Copy(x, !p) == Copy(m, !p)
    requires |x.primary| >= 5 && |x.secondary| >= 5
    ensures x == OneNew(m, now, p) && TornFails(m, now, x)
  {
    hide Decodes;
    forall q: bool
      ensures Copy(x, q) == Copy(m, q) || Copy(x, q) == Copy(now, q)
    {
      assert q == p || q == !p;
    }
  }

  lemma CounterCut(env: UbootEnv, c: Cache, disk: seq<byte>, m: Media, ops: seq<Op>, first: bool)
    requires AfterTask(env, c, m, ops) && CopyFirst(env, c, first) && OnlyCounter(Copy(m, first), Copy(env.MediaOf(c), first))
    requires IsCut(c, disk) && TornFails(m, env.MediaOf(c), OnMedium(env, disk))
    requires Safe(m, ops, env.envSize, OneNew(m, env.MediaOf(c), first))
    ensures Safe(m, ops, env.envSize, OnMedium(env, disk))
  {
    hide View, ReadOf, AllFit, WellKept, Readable, Coherent, WellFormed, Quiet, IsCut, Known, Safe, CopyFirst, Current, Decodes, GoodOps;
    CutLeaves(env, c, disk, m, ops);
    FirstThere(env, c, disk, m, ops, first);
    var x, now := OnMedium(env, disk), env.MediaOf(c);
    CounterKept(env, c, disk, m, ops, first);
    if x == m {
      UncutIsSafe(m, ops, env.envSize);
    } else if x != OneNew(m, now, first) {
      NewCopySafe(m, ops, env.envSize, x, first);
    }
  }

  /** Every byte of a copy is the old or the new one. */
  lemma OldOrNew(env: UbootEnv, c: Cache, disk: seq<byte>, m: Media, ops: seq<Op>, p: bool, k: nat)
    requires AfterTask(env, c, m, ops) && IsCut(c, disk) && k < env.envSize
    ensures Copy(OnMedium(env, disk), p)[k] == Copy(m, p)[k] || Copy(OnMedium(env, disk), p)[k] == Copy(env.MediaOf(c), p)[k]
  {
    StateFacts(env, c, m, ops);
    hide AfterTask, View, WellFormed;
    var order: seq<nat>, reached: nat, n: nat :| CutFlush(c, disk, order, reached, n);
    hide CutFlush;
    CopiesOf(env, c, disk, p);
    CopiesOf(env, c, c.ground.disk, p);
    ByteOfCopy(env, c, p, k);
    WrittenOrNot(c, disk, order, reached, n, At(env, p) + k);
    hide OnMedium, UbootEnv.MediaOf;
  }

  lemma CounterMixed(a: seq<byte>, b: seq<byte>, x: seq<byte>)
    requires OnlyCounter(a, b) && |x| == |a| && forall k :: 0 <= k < |x| ==> x[k] == a[k] || x[k] == b[k]
    ensures x == a || x == b
  {
    forall k | 0 <= k < |x| && k != 4
      ensures x[k] == a[k]
    {
      OnlyThere(a, b, k);
    }
    assert x == a[4 := x[4]];
  }

  lemma CounterKept(env: UbootEnv, c: Cache, disk: seq<byte>, m: Media, ops: seq<Op>, p: bool)
    requires AfterTask(env, c, m, ops) && IsCut(c, disk) && OnlyCounter(Copy(m, p), Copy(env.MediaOf(c), p))
    ensures var x := OnMedium(env, disk); Copy(x, p) == Copy(m, p) || Copy(x, p) == Copy(env.MediaOf(c), p)
  {
    StateFacts(env, c, m, ops);
    hide AfterTask, IsCut, OnlyCounter, UbootEnv.MediaOf, WellFormed;
    var x := OnMedium(env, disk);
    forall k | 0 <= k < env.envSize
      ensures Copy(x, p)[k] == Copy(m, p)[k] || Copy(x, p)[k] == Copy(env.MediaOf(c), p)[k]
    {
      OldOrNew(env, c, disk, m, ops, p, k);
    }
    CounterMixed(Copy(m, p), Copy(env.MediaOf(c), p), Copy(x, p));
  }

  lemma NewCopySafe(m: Media, ops: seq<Op>, size: nat, x: Media, first: bool)
    requires Sized(m, size) && Readable(m) && WellKept(m) && GoodOps(ops) && AllFit(m, ops, size)
    requires var b := Batch(m, ops, size);
             CutMedia(m, b, x, size) && x != m && Copy(x, first) == Copy(b, first) && Copy(x, !first) != Copy(m, !first)
    ensures Safe(m, ops, size, x)
  {
    hide Current, WellKept, ReadOf, AllFit, Known, Decodes, GoodOps, Batch, Readable;
    if ops == [] {
      NothingDone(m, size);
    } else {
      var b := Batch(m, ops, size);
      BatchCopies(m, ops, size);
      KnownDecodes(Current(m), ops, size, b.primary);
      KnownDecodes(Current(m), ops, size, b.secondary);
      ReadsACopy(x, Current(m), ops, size);
    }
  }

  // ----- Copies that lie anywhere -----

  /** Whatever a cut leaves of a copy between its old and its new content fails the checksum. */
  ghost predicate MixturesFail(env: UbootEnv, c: Cache, m: Media)
    requires WellFormed(c) && Sized(m, env.envSize)
  {
    forall disk: seq<byte> :: IsCut(c, disk) ==> TornFails(m, env.MediaOf(c), OnMedium(env, disk))
  }

  predicate TwoBytes(a: seq<byte>, b: seq<byte>) {
    exists j: nat, k: nat :: j < k < |a| && k < |b| && a[j] != b[j] && a[k] != b[k]
  }

  /** Of all that changes in copy p, byte y is written first. */
  ghost predicate FirstIn(env: UbootEnv, c: Cache, p: bool, y: nat)
    requires WellFormed(c)
  {
    InCopy(env, p, y) && Differs(c, y) && forall i: nat :: InCopy(env, p, i) && Differs(c, i) && i != y ==> Ahead(c, y, i)
  }

  /** The same among the first n bytes. */
  ghost predicate FirstUpTo(env: UbootEnv, c: Cache, p: bool, n: nat, y: nat)
    requires WellFormed(c)
  {
    && At(env, p) <= y < At(env, p) + n && Differs(c, y)
    && forall i: nat :: At(env, p) <= i < At(env, p) + n && Differs(c, i) && i != y ==> Ahead(c, y, i)
  }

  lemma {:induction false} FindFirst(env: UbootEnv, c: Cache, p: bool, n: nat, k: nat) returns (y: nat)
    requires WellFormed(c) && DistinctStamps(c.segments) && Settled(c, At(env, p), env.envSize) && k < n <= env.envSize && Differs(c, At(env, p) + k)
    ensures FirstUpTo(env, c, p, n, y)
    decreases n
  {
    hide Ahead, Differs, WellFormed, SettledByte, At;
    var z := At(env, p) + n - 1;
    if k == n - 1 && (forall i: nat :: At(env, p) <= i < z ==> !Differs(c, i)) {
      y := z;
    } else {
      var q: nat := k;
      if k == n - 1 {
        var i: nat :| At(env, p) <= i < z && Differs(c, i);
        q := i - At(env, p);
      }
      var was := FindFirst(env, c, p, n - 1, q);
      y := was;
      if Differs(c, z) {
        y := Earlier(env, c, p, n, was);
      }
    }
  }

  lemma Earlier(env: UbootEnv, c: Cache, p: bool, n: nat, was: nat) returns (y: nat)
    requires WellFormed(c) && DistinctStamps(c.segments) && Settled(c, At(env, p), env.envSize) && 0 < n <= env.envSize
    requires FirstUpTo(env, c, p, n - 1, was) && Differs(c, At(env, p) + n - 1)
    ensures FirstUpTo(env, c, p, n, y)
  {
    hide Ahead, Differs, WellFormed, SettledByte, At;
    var z := At(env, p) + n - 1;
    assert SettledByte(c, z) && SettledByte(c, was);
    AheadTotal(c, was, z);
    y := if Ahead(c, was, z) then was else z;
    forall i: nat | At(env, p) <= i < At(env, p) + n && Differs(c, i) && i != y
      ensures Ahead(c, y, i)
    {
      if y == z && i != was {
        AheadTransitive(c, z, was, i);
      }
    }
  }

  lemma FirstOf(env: UbootEnv, c: Cache, m: Media, ops: seq<Op>, p: bool) returns (y: nat)
    requires AfterTask(env, c, m, ops) && TwoBytes(Copy(m, p), Copy(env.MediaOf(c), p))
    ensures WellFormed(c) && FirstIn(env, c, p, y)
  {
    StateFacts(env, c, m, ops);
    CopiesSettled(env, c, m, ops, p);
    var j: nat, k: nat :| j < k < env.envSize && Copy(m, p)[j] != Copy(env.MediaOf(c), p)[j] && Copy(m, p)[k] != Copy(env.MediaOf(c), p)[k];
    ByteDiffers(env, c, m, ops, p, j);
    y := FindFirst(env, c, p, env.envSize, j);
    hide Ahead, AfterTask, UbootEnv.MediaOf, Differs, WellFormed, SettledByte;
  }

  /** Another byte of the copy changes too. */
  lemma OtherByte(env: UbootEnv, c: Cache, m: Media, ops: seq<Op>, p: bool, y: nat) returns (i: nat)
    requires AfterTask(env, c, m, ops) && TwoBytes(Copy(m, p), Copy(env.MediaOf(c), p))
    ensures WellFormed(c) && InCopy(env, p, i) && Differs(c, i) && i != y
  {
    StateFacts(env, c, m, ops);
    var j: nat, k: nat :| j < k < env.envSize && Copy(m, p)[j] != Copy(env.MediaOf(c), p)[j] && Copy(m, p)[k] != Copy(env.MediaOf(c), p)[k];
    ByteDiffers(env, c, m, ops, p, j);
    ByteDiffers(env, c, m, ops, p, k);
    i := if At(env, p) + j == y then At(env, p) + k else At(env, p) + j;
    hide AfterTask, UbootEnv.MediaOf, Differs, WellFormed;
  }

  lemma BothNotSame(env: UbootEnv, c: Cache, disk: seq<byte>, m: Media, ops: seq<Op>, p: bool, written: nat, open: nat)
    requires AfterTask(env, c, m, ops) && WellFormed(c) && InCopy(env, p, written) && InCopy(env, p, open)
    requires Differs(c, written) && DiskAt(disk, written) == View(c, written) && DiskAt(disk, open) != View(c, open)
    ensures Copy(OnMedium(env, disk), p) != Copy(m, p) && Copy(OnMedium(env, disk), p) != Copy(env.MediaOf(c), p)
  {
    StateFacts(env, c, m, ops);
    CopySeen(env, c, disk, p);
    CopyKept(env, c, disk, p);
    hide AfterTask, View, WellFormed, UbootEnv.MediaOf;
  }

  /** The cut right behind the first byte of a copy that changes leaves that copy neither old nor new. */
  lemma TornAtFirst(env: UbootEnv, c: Cache, m: Media, ops: seq<Op>, p: bool, y: nat) returns (disk: seq<byte>)
    requires AfterTask(env, c, m, ops) && WellFormed(c) && FirstIn(env, c, p, y) && TwoBytes(Copy(m, p), Copy(env.MediaOf(c), p))
    ensures IsCut(c, disk)
    ensures Copy(OnMedium(env, disk), p) != Copy(m, p) && Copy(OnMedium(env, disk), p) != Copy(env.MediaOf(c), p)
    ensures forall i: nat :: InCopy(env, !p, i) && Differs(c, i) ==> (DiskAt(disk, i) == View(c, i) <==> i == y || Ahead(c, i, y))
  {
    StateFacts(env, c, m, ops);
    CopiesSettled(env, c, m, ops, p);
    CopiesSettled(env, c, m, ops, !p);
    hide AfterTask, View, WellFormed, Ahead, SettledByte, UbootEnv.MediaOf, Differs, CutFlush, OnMedium, TwoBytes, At;
    var i := OtherByte(env, c, m, ops, p, y);
    ItsSettled(env, c, p, y);
    ItsSettled(env, c, p, i);
    var order, reached, n;
    disk, order, reached, n := CutRight(c, y);
    AheadTotal(c, y, i);
    BothNotSame(env, c, disk, m, ops, p, y, i);
    forall j: nat | InCopy(env, !p, j) && Differs(c, j)
      ensures DiskAt(disk, j) == View(c, j) <==> j == y || Ahead(c, j, y)
    {
      ItsSettled(env, c, !p, j);
    }
  }

  lemma ItsSettled(env: UbootEnv, c: Cache, p: bool, i: nat)
    requires WellFormed(c) && Settled(c, At(env, p), env.envSize) && InCopy(env, p, i)
    ensures SettledByte(c, i)
  {
    hide SettledByte, WellFormed;
  }

  lemma BehindY(env: UbootEnv, c: Cache, p: bool, y: nat, i: nat)
    requires WellFormed(c) && CopyFirst(env, c, p) && InCopy(env, p, y) && Differs(c, y) && InCopy(env, !p, i)
    ensures Differs(c, i) ==> Ahead(c, y, i)
  {
    hide Ahead, Differs, WellFormed;
  }

  /** The other copy, all of it behind, is untouched. */
  lemma OtherUntouched(env: UbootEnv, c: Cache, disk: seq<byte>, m: Media, ops: seq<Op>, p: bool, y: nat)
    requires AfterTask(env, c, m, ops) && WellFormed(c) && CopyFirst(env, c, p) && InCopy(env, p, y) && Differs(c, y) && IsCut(c, disk)
    requires forall i: nat :: InCopy(env, !p, i) && Differs(c, i) ==> (DiskAt(disk, i) == View(c, i) <==> i == y || Ahead(c, i, y))
    ensures Copy(OnMedium(env, disk), !p) == Copy(m, !p)
  {
    StateFacts(env, c, m, ops);
    CopiesSettled(env, c, m, ops, p);
    CopiesSettled(env, c, m, ops, !p);
    CopyKept(env, c, disk, !p);
    var order: seq<nat>, reached: nat, n: nat :| CutFlush(c, disk, order, reached, n);
    hide AfterTask, View, WellFormed, Ahead, SettledByte, Settled, UbootEnv.MediaOf, Differs, CutFlush, CopyFirst, OnMedium, Copy, At;
    ItsSettled(env, c, p, y);
    forall i: nat | InCopy(env, !p, i)
      ensures DiskAt(disk, i) == DiskAt(c.ground.disk, i)
    {
      ItsSettled(env, c, !p, i);
      BehindY(env, c, p, y, i);
      Disjoint(env, p, y, i);
      NotYetWritten(c, disk, order, reached, n, y, i);
    }
    AllOld(env, c, disk, !p);
  }

  lemma AllOld(env: UbootEnv, c: Cache, disk: seq<byte>, p: bool)
    requires forall i: nat :: InCopy(env, p, i) ==> DiskAt(disk, i) == DiskAt(c.ground.disk, i)
    ensures OnDiskAsBefore(c, disk, At(env, p), env.envSize)
  {
    forall i: nat | At(env, p) <= i < At(env, p) + env.envSize
      ensures DiskAt(disk, i) == DiskAt(c.ground.disk, i)
    {
      assert InCopy(env, p, i);
    }
  }

  /** With both copies torn nothing can be read. */
  lemma BothTorn(m: Media, ops: seq<Op>, size: nat, x: Media)
    requires Sized(m, size) && Sized(x, size) && !Decodes(x.primary) && !Decodes(x.secondary)
    ensures !Safe(m, ops, size, x)
  {
    hide Decodes, Vars, Among;
    ReadMarksOther(x);
  }

  lemma FirstUnsafe(env: UbootEnv, c: Cache, m: Media, ops: seq<Op>, p: bool, y: nat)
    requires AfterTask(env, c, m, ops) && WellFormed(c) && MixturesFail(env, c, m) && FirstIn(env, c, p, y)
    requires TwoBytes(Copy(m, p), Copy(env.MediaOf(c), p))
    requires CopyFirst(env, c, p) && !Known(Current(m), ops, env.envSize, Copy(m, !p))
    ensures !AllCutsSafe(env, c, m, ops)
  {
    StateFacts(env, c, m, ops);
    hide AfterTask, View, WellFormed, Ahead, UbootEnv.MediaOf, Differs, OnMedium, TwoBytes, IsCut, CopyFirst, Safe, Known, Decodes;
    var disk := TornAtFirst(env, c, m, ops, p, y);
    assert InCopy(env, p, y) && Differs(c, y);
    OtherUntouched(env, c, disk, m, ops, p, y);
    assert TornFails(m, env.MediaOf(c), OnMedium(env, disk));
    FallsBack(m, ops, env.envSize, OnMedium(env, disk), p);
  }

  lemma SomeBehind(env: UbootEnv, c: Cache, a: bool) returns (i: nat, j: nat)
    requires WellFormed(c) && !CopyFirst(env, c, a)
    ensures InCopy(env, a, i) && InCopy(env, !a, j) && Differs(c, i) && Differs(c, j) && !Ahead(c, i, j)
  {
    hide WellFormed, Ahead, Differs;
    i, j :| InCopy(env, a, i) && InCopy(env, !a, j) && Differs(c, i) && Differs(c, j) && !Ahead(c, i, j);
  }

  /** A byte of the copy that starts first is still to come when the other one starts. */
  lemma StillToCome(env: UbootEnv, c: Cache, m: Media, ops: seq<Op>, a: bool, z: nat) returns (i: nat)
    requires AfterTask(env, c, m, ops) && WellFormed(c) && FirstIn(env, c, !a, z) && !CopyFirst(env, c, a)
    ensures InCopy(env, a, i) && Differs(c, i) && i != z && !Ahead(c, i, z)
  {
    hide AfterTask, View, WellFormed, Ahead, Differs, SettledByte, Settled, At, UbootEnv.MediaOf, OnMedium;
    StateFacts(env, c, m, ops);
    CopiesSettled(env, c, m, ops, a);
    CopiesSettled(env, c, m, ops, !a);
    var j;
    i, j := SomeBehind(env, c, a);
    hide CopyFirst;
    ItsSettled(env, c, a, i);
    ItsSettled(env, c, !a, j);
    ItsSettled(env, c, !a, z);
    Disjoint(env, a, i, j);
    Disjoint(env, a, i, z);
    AheadTotal(c, i, j);
    if z != j {
      AheadTransitive(c, z, j, i);
    }
    AheadTotal(c, z, i);
  }

  /** Where neither copy is wholly ahead of the other, some cut tears both. */
  lemma MixedUnsafe(env: UbootEnv, c: Cache, m: Media, ops: seq<Op>, a: bool, y: nat, z: nat)
    requires AfterTask(env, c, m, ops) && WellFormed(c) && MixturesFail(env, c, m)
    requires FirstIn(env, c, a, y) && FirstIn(env, c, !a, z) && Ahead(c, y, z) && !CopyFirst(env, c, a)
    requires TwoBytes(Copy(m, !a), Copy(env.MediaOf(c), !a))
    ensures !AllCutsSafe(env, c, m, ops)
  {
    StateFacts(env, c, m, ops);
    hide AfterTask, View, WellFormed, Ahead, UbootEnv.MediaOf, Differs, OnMedium, TwoBytes, IsCut, CopyFirst, Safe, Known, Decodes, At;
    var i := StillToCome(env, c, m, ops, a, z);
    var disk := TornAtFirst(env, c, m, ops, !a, z);
    assert InCopy(env, a, y) && Differs(c, y);
    BothNotSame(env, c, disk, m, ops, a, y, i);
    assert TornFails(m, env.MediaOf(c), OnMedium(env, disk));
    hide FirstIn, MixturesFail;
    NeitherDecodes(m, env.MediaOf(c), OnMedium(env, disk), a);
    BothTorn(m, ops, env.envSize, OnMedium(env, disk));
  }

  lemma NeitherDecodes(m: Media, now: Media, x: Media, a: bool)
    requires |x.primary| >= 5 && |x.secondary| >= 5 && TornFails(m, now, x)
    requires Copy(x, a) != Copy(m, a) && Copy(x, a) != Copy(now, a) && Copy(x, !a) != Copy(m, !a) && Copy(x, !a) != Copy(now, !a)
    ensures !Decodes(x.primary) && !Decodes(x.secondary)
  {
    hide Decodes;
    assert !Decodes(Copy(x, a)) && !Decodes(Copy(x, !a));
  }

  lemma Disjoint(env: UbootEnv, p: bool, i: nat, j: nat)
    requires env.Apart() && InCopy(env, p, i) && InCopy(env, !p, j)
    ensures i != j
  {
  }

  /**
   * Wherever the copies lie, if each changes in two bytes or more and whatever a cut leaves in between fails its checksum:
   * every cut is safe if and only if one copy is written wholly before the other and the other one holds an environment
   * of the task to begin with.
   */
  lemma AnyLayoutIff(env: UbootEnv, c: Cache, m: Media, ops: seq<Op>)
    requires AfterTask(env, c, m, ops) && TwoBytes(m.primary, env.MediaOf(c).primary) && TwoBytes(m.secondary, env.MediaOf(c).secondary)
    requires MixturesFail(env, c, m)
    ensures AllCutsSafe(env, c, m, ops) <==>
            exists first: bool :: CopyFirst(env, c, first) && Known(Current(m), ops, env.envSize, Copy(m, !first))
  {
    StateFacts(env, c, m, ops);
    hide AfterTask, View, WellFormed, Ahead, UbootEnv.MediaOf, Differs, OnMedium, TwoBytes, IsCut, CopyFirst, Known, Current, FirstIn, Safe;
    assert Copy(m, true) == m.primary && Copy(m, false) == m.secondary;
    assert Copy(env.MediaOf(c), true) == env.MediaOf(c).primary && Copy(env.MediaOf(c), false) == env.MediaOf(c).secondary;
    if first: bool :| CopyFirst(env, c, first) && Known(Current(m), ops, env.envSize, Copy(m, !first)) {
      forall disk: seq<byte> | IsCut(c, disk) && TornFails(m, env.MediaOf(c), OnMedium(env, disk))
        ensures Safe(m, ops, env.envSize, OnMedium(env, disk))
      {
        SafeCut(env, c, disk, m, ops, first);
      }
    } else {
      var y := FirstOf(env, c, m, ops, true);
      var z := FirstOf(env, c, m, ops, false);
      FirstsOrdered(env, c, m, ops, y, z);
      if Ahead(c, y, z) {
        EarlierUnsafe(env, c, m, ops, true, y, z);
      } else {
        EarlierUnsafe(env, c, m, ops, false, z, y);
      }
    }
  }

  lemma FirstsOrdered(env: UbootEnv, c: Cache, m: Media, ops: seq<Op>, y: nat, z: nat)
    requires AfterTask(env, c, m, ops) && WellFormed(c) && FirstIn(env, c, true, y) && FirstIn(env, c, false, z)
    ensures Ahead(c, y, z) || Ahead(c, z, y)
  {
    StateFacts(env, c, m, ops);
    CopiesSettled(env, c, m, ops, true);
    CopiesSettled(env, c, m, ops, false);
    hide AfterTask, View, WellFormed, Ahead, Differs, SettledByte;
    assert SettledByte(c, y) && SettledByte(c, z);
    Disjoint(env, true, y, z);
    AheadTotal(c, y, z);
  }

  lemma EarlierUnsafe(env: UbootEnv, c: Cache, m: Media, ops: seq<Op>, a: bool, y: nat, z: nat)
    requires AfterTask(env, c, m, ops) && WellFormed(c) && MixturesFail(env, c, m)
    requires FirstIn(env, c, a, y) && FirstIn(env, c, !a, z) && Ahead(c, y, z)
    requires TwoBytes(Copy(m, a), Copy(env.MediaOf(c), a)) && TwoBytes(Copy(m, !a), Copy(env.MediaOf(c), !a))
    requires CopyFirst(env, c, a) ==> !Known(Current(m), ops, env.envSize, Copy(m, !a))
    ensures !AllCutsSafe(env, c, m, ops)
  {
    hide AfterTask, View, WellFormed, Ahead, UbootEnv.MediaOf, TwoBytes, CopyFirst, Known, Current, FirstIn, AllCutsSafe, MixturesFail;
    if CopyFirst(env, c, a) {
      FirstUnsafe(env, c, m, ops, a, y);
    } else {
      MixedUnsafe(env, c, m, ops, a, y, z);
    }
  }
}
