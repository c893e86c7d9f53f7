/**
 * A whole task on a redundant environment: its operations run in the cache and reach the disk in one flush.
 */
module UbootTask {
  import opened Bytes
  import opened CacheModel
  import opened FlushOrder
  import opened FlushCuts
  import opened BlockCaching
  import opened UbootPairs
  import opened UbootCodec
  import opened UbootProtocol
  import opened UbootFlush
  import opened UbootEnvironment
  import opened UbootCuts

  /** The functions of a task, one after the other, and the flush behind them. `c` is the cache in between. */
  method RunTask(bc: BlockCache, env: UbootEnv, ops: seq<Op>, ghost m: Media) returns (ran: bool, flushed: bool, ghost c: Cache)
    requires bc.Valid() && bc.honest && env.Placed(bc) && env.useRedundant && m == env.MediaOf(bc.State())
    requires Readable(m) && WellKept(m) && GoodOps(ops)
    modifies env, bc
    ensures ran ==> WellFormed(c) && (Quiet(env, c, m) ==> AfterTask(env, c, m, ops) && InOrder(env, c, m, ops) && CutsExactly(env, c, m, ops))
    ensures flushed ==> ran && bc.Valid() && OnDisk(bc.State()) && env.MediaOf(bc.State()) == Batch(m, ops, env.envSize)
    ensures ran && !flushed ==> IsCut(c, bc.disk)
    ensures ran && !flushed && Quiet(env, c, m) && TornFails(m, env.MediaOf(c), OnMedium(env, bc.disk)) ==>
              CutIsSafe(env, m, ops, OnMedium(env, bc.disk))
  {
    hide Coherent, View, ReadOf, Batch, AllFit, WellKept, Readable, GoodOps, UbootEnv.MediaOf, InOrder, Quiet, TornFails, OnDisk, CutIsSafe, IsCut, AfterTask, CutsExactly;
    flushed := false;
    ran := RunOps(bc, env, ops, m);
    c := bc.State();
    if ran {
      if Quiet(env, c, m) {
        KnownExactly(env, c, m, ops);
      }
      flushed := FlushTask(bc, env, ops, m);
    }
  }

  /** When every cut is safe, for copies in segments of their own or in one segment. */
  ghost predicate CutsExactly(env: UbootEnv, c: Cache, m: Media, ops: seq<Op>)
    requires WellFormed(c) && Sized(m, env.envSize)
  {
    var now, first := env.MediaOf(c), FirstIsPrimary(env, m, ops);
    (env.OwnSegments() || OneSegment(env)) && (Copy(now, first) == Copy(m, first) || ChecksumsDiffer(Copy(m, first), Copy(now, first))) ==>
      (AllCutsSafe(env, c, m, ops) <==> Copy(now, first) == Copy(m, first) || Known(Current(m), ops, env.envSize, Copy(m, !first)))
  }

  lemma KnownExactly(env: UbootEnv, c: Cache, m: Media, ops: seq<Op>)
    requires AfterTask(env, c, m, ops) && InOrder(env, c, m, ops)
    ensures WellFormed(c) && Sized(m, env.envSize) && CutsExactly(env, c, m, ops)
  {
    StateFacts(env, c, m, ops);
    hide AfterTask, InOrder, AllCutsSafe, Known, ChecksumsDiffer, UbootEnv.MediaOf, FirstIsPrimary, OneSegment, WellFormed, UbootEnv.OwnSegments, Current;
    var now, first := env.MediaOf(c), FirstIsPrimary(env, m, ops);
    if (env.OwnSegments() || OneSegment(env)) && (Copy(now, first) == Copy(m, first) || ChecksumsDiffer(Copy(m, first), Copy(now, first))) {
      TaskCutsIff(env, c, m, ops);
    }
  }

  /** What can be relied on wherever the flush is cut. */
  ghost predicate CutIsSafe(env: UbootEnv, m: Media, ops: seq<Op>, x: Media)
    requires Sized(m, env.envSize)
  {
    var now, first := Batch(m, ops, env.envSize), FirstIsPrimary(env, m, ops);
    (env.OwnSegments() || OneSegment(env)) && (Copy(now, first) == Copy(m, first) || Known(Current(m), ops, env.envSize, Copy(m, !first))) ==>
      Safe(m, ops, env.envSize, x)
  }

  lemma CutTask(env: UbootEnv, c: Cache, disk: seq<byte>, m: Media, ops: seq<Op>)
    requires AfterTask(env, c, m, ops) && InOrder(env, c, m, ops)
    requires IsCut(c, disk) && TornFails(m, env.MediaOf(c), OnMedium(env, disk))
    ensures CutIsSafe(env, m, ops, OnMedium(env, disk))
  {
    hide View, ReadOf, Batch, AllFit, WellKept, Readable, Coherent, WellFormed, Quiet, IsCut, Known, Safe, CopyFirst, TornFails, Current, InOrder,
         OneSegment, FirstIsPrimary, UbootEnv.OwnSegments;
    if env.OwnSegments() || OneSegment(env) {
      CopyInOrder(env, c, m, ops);
      var first := FirstIsPrimary(env, m, ops);
      if Copy(env.MediaOf(c), first) == Copy(m, first) || Known(Current(m), ops, env.envSize, Copy(m, !first)) {
        SafeCut(env, c, disk, m, ops, first);
      }
    }
  }

  method FlushTask(bc: BlockCache, env: UbootEnv, ops: seq<Op>, ghost m: Media) returns (flushed: bool)
    requires bc.Valid() && bc.honest && Sized(m, env.envSize)
    requires Quiet(env, bc.State(), m) ==> AfterTask(env, bc.State(), m, ops) && InOrder(env, bc.State(), m, ops)
    requires env.MediaOf(bc.State()) == Batch(m, ops, env.envSize)
    modifies bc
    ensures flushed ==> bc.Valid() && OnDisk(bc.State()) && env.MediaOf(bc.State()) == Batch(m, ops, env.envSize)
    ensures !flushed ==> IsCut(old(bc.State()), bc.disk)
    ensures !flushed && old(Quiet(env, bc.State(), m)) && TornFails(m, Batch(m, ops, env.envSize), OnMedium(env, bc.disk)) ==>
              CutIsSafe(env, m, ops, OnMedium(env, bc.disk))
  {
    hide Coherent, View, ReadOf, Batch, InOrder, Quiet, TornFails, OnDisk, CutAt, IsFlushOrder, FlushLog, AfterTask, CutIsSafe;
    ghost var c := bc.State();
    FlushOrderExists(bc.segments);
    var order := SortedEntries(bc.segments, |bc.segments|);
    ghost var reached, n;
    flushed, reached, n := bc.Flush(order);
    SameCopies(env, c, bc.State());
    if !flushed {
      assert CutFlush(c, bc.disk, order, reached, n);
      ghost var x := OnMedium(env, bc.disk);
      if Quiet(env, c, m) && TornFails(m, env.MediaOf(c), x) {
        CutTask(env, c, bc.disk, m, ops);
      }
    }
  }

  lemma SameCopies(env: UbootEnv, c: Cache, c': Cache)
    requires WellFormed(c) && WellFormed(c')
    ensures SameView(c, c') ==> env.MediaOf(c') == env.MediaOf(c)
  {
    hide View;
  }

  method RunOps(bc: BlockCache, env: UbootEnv, ops: seq<Op>, ghost m: Media) returns (ran: bool)
    requires bc.Valid() && env.Placed(bc) && env.useRedundant && m == env.MediaOf(bc.State())
    requires Readable(m) && WellKept(m) && GoodOps(ops)
    modifies env, bc
    ensures ran ==> bc.Valid() && env.MediaOf(bc.State()) == Batch(m, ops, env.envSize)
    ensures ran && Quiet(env, bc.State(), m) ==> AfterTask(env, bc.State(), m, ops) && InOrder(env, bc.State(), m, ops)
  {
    ghost var placed := env.Placed(bc);
    ran := RunEach(bc, env, ops, m);
    if ran {
      StillInside(env, bc);
      hide View, ReadOf, Batch, AllFit, WellKept, Readable, Quiet;
    }
  }

  lemma StillInside(env: UbootEnv, bc: BlockCache)
    requires env.Placed(bc) && env.useRedundant
    ensures env.Apart() && env.envSize >= BLOCK_SIZE
    ensures Inside(bc.MediaLimit(), At(env, true) + env.envSize) && Inside(bc.MediaLimit(), At(env, false) + env.envSize)
  {
  }

  method RunEach(bc: BlockCache, env: UbootEnv, ops: seq<Op>, ghost m: Media) returns (ran: bool)
    requires bc.Valid() && env.Placed(bc) && env.useRedundant && m == env.MediaOf(bc.State())
    requires Readable(m) && WellKept(m) && GoodOps(ops)
    modifies env, bc
    ensures env.Placed(bc)
    ensures ran ==> bc.Valid() && AllFit(m, ops, env.envSize) && env.MediaOf(bc.State()) == Batch(m, ops, env.envSize)
    ensures ran && ops != [] ==> env.LatestCopy(bc.segments, Block(env, LastIsPrimary(m, ops, env.envSize)))
    ensures ran && ops != [] && env.OwnSegments() ==> env.BothRising(bc.segments)
  {
    hide Coherent, View, ReadOf, Batch, AllFit, WellKept, Readable, UbootEnv.MediaOf, UbootEnv.LatestCopy, UbootEnv.BothRising, LastIsPrimary, WellFormed, Block;
    var i := 0;
    ghost var now, last := m, false;
    assert ops[0..] == ops;
    while i < |ops|
      invariant 0 <= i <= |ops| && bc.Valid() && now == env.MediaOf(bc.State()) && Readable(now) && WellKept(now)
      invariant bc.trimmedEndOffset == old(bc.trimmedEndOffset) && bc.MediaLimit() == old(bc.MediaLimit())
      invariant Batch(now, ops[i..], env.envSize) == Batch(m, ops, env.envSize)
      invariant AllFit(now, ops[i..], env.envSize) ==> AllFit(m, ops, env.envSize)
      invariant i < |ops| ==> (LastIsPrimary(now, ops[i..], env.envSize) <==> LastIsPrimary(m, ops, env.envSize))
      invariant i > 0 ==> env.LatestCopy(bc.segments, Block(env, last)) && (env.OwnSegments() ==> env.BothRising(bc.segments))
      invariant i > 0 && i == |ops| ==> (last <==> LastIsPrimary(m, ops, env.envSize))
    {
      ran, now, last := RunOne(bc, env, ops, i, now);
      if !ran {
        return;
      }
      i := i + 1;
    }
    NoneLeft(now, ops, env.envSize);
    ran := true;
  }

  lemma NoneLeft(now: Media, ops: seq<Op>, size: nat)
    requires Sized(now, size)
    ensures Batch(now, ops[|ops|..], size) == now && AllFit(now, ops[|ops|..], size)
  {
  }

  method RunOne(bc: BlockCache, env: UbootEnv, ops: seq<Op>, i: nat, ghost now: Media) returns (ok: bool, ghost next: Media, ghost last: bool)
    requires bc.Valid() && env.Placed(bc) && env.useRedundant && now == env.MediaOf(bc.State())
    requires i < |ops| && Readable(now) && WellKept(now) && GoodOps(ops)
    modifies env, bc
    ensures bc.trimmedEndOffset == old(bc.trimmedEndOffset) && bc.MediaLimit() == old(bc.MediaLimit())
    ensures ok ==> bc.Valid() && next == env.MediaOf(bc.State()) && Readable(next) && WellKept(next)
    ensures ok ==> env.LatestCopy(bc.segments, Block(env, last)) && (env.OwnSegments() ==> env.BothRising(bc.segments))
    ensures Sized(next, env.envSize)
    ensures ok ==> Batch(now, ops[i..], env.envSize) == Batch(next, ops[i + 1..], env.envSize)
    ensures ok ==> (AllFit(next, ops[i + 1..], env.envSize) ==> AllFit(now, ops[i..], env.envSize))
    ensures ok ==> if i + 1 == |ops| then LastIsPrimary(now, ops[i..], env.envSize) == last
                   else LastIsPrimary(now, ops[i..], env.envSize) == LastIsPrimary(next, ops[i + 1..], env.envSize)
  {
    hide Coherent, View, ReadOf, Batch, AllFit, WellKept, Readable, UbootEnv.MediaOf, BlockCache.Valid, Performed, Latest, WellFormed, LastIsPrimary;
    hide Fits, SortByName, UbootProtocol.Applied, GoodChange, UbootEnv.LatestCopy, UbootEnv.BothRising, UbootEnv.OwnSegments;
    next := now;
    ok, last := Perform(bc, env, ops[i], now);
    if ok {
      PerformedIs(now, ops[i], env.envSize);
      NextOp(now, ops, i, env.envSize);
      next := Performed(now, ops[i], env.envSize);
    }
  }

  /** One function: uboot_clearenv, uboot_setenv or uboot_unsetenv. */
  method Perform(bc: BlockCache, env: UbootEnv, op: Op, ghost now: Media) returns (ok: bool, ghost last: bool)
    requires bc.Valid() && env.Placed(bc) && env.useRedundant && now == env.MediaOf(bc.State()) && env.envSize >= BLOCK_SIZE
    modifies env, bc
    ensures bc.trimmedEndOffset == old(bc.trimmedEndOffset) && bc.MediaLimit() == old(bc.MediaLimit())
    ensures ok ==> bc.Valid() && env.MediaOf(bc.State()) == Performed(now, op, env.envSize)
    ensures ok ==> env.LatestCopy(bc.segments, Block(env, last)) && (env.OwnSegments() ==> env.BothRising(bc.segments))
    ensures ok && op.Edit? ==> Fits(SortByName(Applied(ReadOf(now).vars, op.change)), true, env.envSize)
    ensures last == (op.Edit? && ReadOf(now).writePrimary)
  {
    hide Coherent, View, BlockCache.Valid, SortByName, Fits, ReadOf, Updated, Cleared, UbootProtocol.Applied, WellFormed;
    hide UbootEnv.MediaOf, UbootEnv.LatestCopy, UbootEnv.BothRising, UbootEnv.OwnSegments;
    last := op.Edit? && ReadOf(now).writePrimary;
    match op {
      case Clear => ok := ClearEnvironment(bc, env, now);
      case Edit(c) =>
        var io;
        io, ok := ChangeVariable(bc, env, c, now);
        ok := io && ok;
    }
  }

  lemma NextOp(now: Media, ops: seq<Op>, i: nat, size: nat)
    requires Sized(now, size) && i < |ops| && Sized(Performed(now, ops[i], size), size)
    requires ops[i].Edit? ==> Fits(SortByName(Applied(ReadOf(now).vars, ops[i].change)), true, size)
    ensures var next := Performed(now, ops[i], size);
            && Batch(now, ops[i..], size) == Batch(next, ops[i + 1..], size)
            && (AllFit(next, ops[i + 1..], size) ==> AllFit(now, ops[i..], size))
            && if i + 1 == |ops| then LastIsPrimary(now, ops[i..], size) == (ops[i].Edit? && ReadOf(now).writePrimary)
               else LastIsPrimary(now, ops[i..], size) == LastIsPrimary(next, ops[i + 1..], size)
  {
    hide Performed, ReadOf, SortByName, Applied, Fits;
    assert ops[i..][1..] == ops[i + 1..];
  }
}
