/**
 * Tasks that only change variables: the number of the changes and the place of the copies tell whether every cut is safe.
 */
module UbootEdits {
  import opened Bytes
  import opened CacheModel
  import opened UbootProtocol
  import opened UbootFlush
  import opened UbootEnvironment
  import opened UbootCuts

  /** The copy in use is the primary one. */
  predicate InUsePrimary(m: Media)
    requires |m.primary| >= 5 && |m.secondary| >= 5
  {
    !ReadOf(m).writePrimary
  }

  /** The checksum of the copy in use is another one after the task. */
  ghost predicate ChecksumMoves(env: UbootEnv, c: Cache, m: Media)
    requires WellFormed(c) && Sized(m, env.envSize)
  {
    env.envSize >= BLOCK_SIZE && ChecksumsDiffer(Newest(m, m), Newest(m, env.MediaOf(c)))
  }

  lemma SingleEdit(m: Media, ops: seq<Op>, size: nat)
    requires Sized(m, size) && Readable(m) && WellKept(m) && GoodOps(ops) && AllFit(m, ops, size) && AllEdits(ops) && |ops| <= 1
    ensures Newest(m, Batch(m, ops, size)) == Newest(m, m)
  {
    if |ops| == 1 {
      SingleChange(m, ops, size);
    }
  }

  lemma NotBoth(env: UbootEnv)
    requires env.OwnSegments() && env.envSize > 0
    ensures !OneSegment(env)
  {
  }

  /** With copies in segments of their own, a task of changes is safe to cut unless their number is odd and more than one. */
  lemma OwnSegmentsIff(env: UbootEnv, c: Cache, m: Media, ops: seq<Op>)
    requires AfterTask(env, c, m, ops) && InOrder(env, c, m, ops) && env.OwnSegments() && AllEdits(ops)
    requires |ops| % 2 == 1 && |ops| > 1 ==> ChecksumMoves(env, c, m)
    ensures AllCutsSafe(env, c, m, ops) <==> |ops| % 2 == 0 || |ops| == 1 || Known(Current(m), ops, env.envSize, Stale(m, m))
  {
    Facts(env, c, m, ops);
    NotBoth(env);
    TakesTurns(m, ops, env.envSize);
    hide AfterTask, InOrder, AllCutsSafe, Known, UbootEnv.MediaOf, Readable, WellKept, AllFit, GoodOps, ReadOf, Current, Batch, OneSegment, ChecksumsDiffer, LastIsPrimary;
    NewestKnown(m, ops, env.envSize);
    if ops == [] {
      NothingDone(m, env.envSize);
      TaskCutsIff(env, c, m, ops);
    } else if |ops| % 2 == 0 {
      InUseSafe(env, c, m, ops);
    } else {
      if |ops| == 1 {
        SingleEdit(m, ops, env.envSize);
      }
      TaskCutsIff(env, c, m, ops);
    }
  }

  lemma Facts(env: UbootEnv, c: Cache, m: Media, ops: seq<Op>)
    requires AfterTask(env, c, m, ops)
    ensures WellFormed(c) && Sized(m, env.envSize) && Readable(m) && WellKept(m) && GoodOps(ops) && AllFit(m, ops, env.envSize)
    ensures env.MediaOf(c) == Batch(m, ops, env.envSize)
  {
  }

  /** With the copy that is not in use written first every cut is safe. */
  lemma InUseSafe(env: UbootEnv, c: Cache, m: Media, ops: seq<Op>)
    requires AfterTask(env, c, m, ops) && InOrder(env, c, m, ops) && (env.OwnSegments() || OneSegment(env))
    requires Sized(m, env.envSize) && FirstIsPrimary(env, m, ops) == ReadOf(m).writePrimary
    ensures AllCutsSafe(env, c, m, ops)
  {
    Facts(env, c, m, ops);
    CopyInOrder(env, c, m, ops);
    NewestKnown(m, ops, env.envSize);
    var first := FirstIsPrimary(env, m, ops);
    hide AfterTask, InOrder, Known, UbootEnv.MediaOf, Readable, WellKept, AllFit, GoodOps, ReadOf, Current, Batch, IsCut, TornFails, Safe, CopyFirst, FirstIsPrimary;
    forall disk: seq<byte> | IsCut(c, disk) && TornFails(m, env.MediaOf(c), OnMedium(env, disk))
      ensures Safe(m, ops, env.envSize, OnMedium(env, disk))
    {
      SafeCut(env, c, disk, m, ops, first);
    }
  }

  /** With both copies in one segment, a task of changes is safe to cut unless it has two or more and the copy in use lies lower. */
  lemma OneSegmentIff(env: UbootEnv, c: Cache, m: Media, ops: seq<Op>)
    requires AfterTask(env, c, m, ops) && InOrder(env, c, m, ops) && OneSegment(env) && AllEdits(ops)
    requires |ops| > 1 ==> ChecksumMoves(env, c, m)
    ensures AllCutsSafe(env, c, m, ops) <==>
            |ops| <= 1 || InUsePrimary(m) != (At(env, true) < At(env, false)) || Known(Current(m), ops, env.envSize, Stale(m, m))
  {
    Facts(env, c, m, ops);
    hide AfterTask, InOrder, AllCutsSafe, Known, UbootEnv.MediaOf, Readable, WellKept, AllFit, GoodOps, ReadOf, Current, Batch, OneSegment, ChecksumsDiffer, LastIsPrimary;
    if FirstIsPrimary(env, m, ops) == ReadOf(m).writePrimary {
      InUseSafe(env, c, m, ops);
    } else {
      if |ops| <= 1 {
        SingleEdit(m, ops, env.envSize);
      }
      TaskCutsIff(env, c, m, ops);
    }
  }
}
