/**
 * A redundant U-Boot environment changed through the write-back cache: the copies reach the disk together, at the one
 * flush behind the whole task, and that flush can be cut short anywhere.
 */
module UbootFlush {
  import opened Bytes
  import opened UbootPairs
  import opened UbootCodec
  import opened UbootProtocol

  /** Every change has room, so every one of them is written. */
  predicate AllFit(m: Media, ops: seq<Op>, size: nat)
    requires Sized(m, size)
    decreases |ops|
  {
    ops != [] ==>
      && (ops[0].Edit? ==> Fits(SortByName(Applied(ReadOf(m).vars, ops[0].change)), true, size))
      && (var m' := Performed(m, ops[0], size); Sized(m', size) && AllFit(m', ops[1..], size))
  }

  predicate AllEdits(ops: seq<Op>) {
    forall k :: 0 <= k < |ops| ==> ops[k].Edit?
  }

  /** An environment that some number of the operations, from the first on, leads to. */
  ghost predicate Among(env0: seq<Pair>, ops: seq<Op>, size: nat, env: seq<Pair>) {
    exists j :: 0 <= j <= |ops| && env == EnvAfterAll(env0, ops[..j], size)
  }

  /** A block that decodes to such an environment. */
  ghost predicate Known(env0: seq<Pair>, ops: seq<Op>, size: nat, d: seq<byte>)
    requires |d| >= 5
  {
    Decodes(d) && Among(env0, ops, size, SortByName(Vars(d)))
  }

  /** The reader finds the environment after some of the operations, from the first on: nothing older, nothing mixed. */
  ghost predicate Safe(m: Media, ops: seq<Op>, size: nat, x: Media)
    requires Sized(m, size)
  {
    Sized(x, size) && Readable(x) && Among(Current(m), ops, size, Current(x))
  }

  /** One of the two copies. */
  function Copy(x: Media, primary: bool): seq<byte> {
    if primary then x.primary else x.secondary
  }

  /** The copy a reader takes, in a medium written like m, and the other one. */
  function Newest(m: Media, x: Media): seq<byte>
    requires |m.primary| >= 5 && |m.secondary| >= 5
  {
    Copy(x, !ReadOf(m).writePrimary)
  }

  function Stale(m: Media, x: Media): seq<byte>
    requires |m.primary| >= 5 && |m.secondary| >= 5
  {
    Copy(x, ReadOf(m).writePrimary)
  }

  /** What a cut leaves of a copy: as it was, as it is to be, or something that fails its checksum. */
  ghost predicate CutCopy(was: seq<byte>, now: seq<byte>, left: seq<byte>)
    requires |was| >= 5
  {
    |left| == |was| && (was == now ==> left == was) && (left == was || left == now || !Decodes(left))
  }

  ghost predicate CutMedia(m: Media, now: Media, x: Media, size: nat) {
    Sized(m, size) && CutCopy(m.primary, now.primary, x.primary) && CutCopy(m.secondary, now.secondary, x.secondary)
  }

  lemma AmongNone(env0: seq<Pair>, ops: seq<Op>, size: nat)
    ensures Among(env0, ops, size, env0)
  {
    assert ops[..0] == [];
    assert EnvAfterAll(env0, ops[..0], size) == env0;
  }

  lemma AmongLater(env0: seq<Pair>, ops: seq<Op>, size: nat, env: seq<Pair>)
    requires ops != [] && Among(EnvAfter(env0, ops[0], size), ops[1..], size, env)
    ensures Among(env0, ops, size, env)
  {
    hide EnvAfter;
    var j :| 0 <= j <= |ops| - 1 && env == EnvAfterAll(EnvAfter(env0, ops[0], size), ops[1..][..j], size);
    assert ops[..j + 1][1..] == ops[1..][..j];
  }

  lemma KnownLater(env0: seq<Pair>, ops: seq<Op>, size: nat, d: seq<byte>)
    requires ops != [] && |d| >= 5 && Known(EnvAfter(env0, ops[0], size), ops[1..], size, d)
    ensures Known(env0, ops, size, d)
  {
    hide EnvAfter, Decodes, Among;
    AmongLater(env0, ops, size, SortByName(Vars(d)));
  }

  lemma NewestHolds(m: Media)
    requires |m.primary| >= 5 && |m.secondary| >= 5 && Readable(m)
    ensures Decodes(Newest(m, m)) && SortByName(Vars(Newest(m, m))) == Current(m)
  {
    hide Decodes, Vars, PrimaryFirst, SortByName;
    ReadMarksOther(m);
  }

  lemma NewestKnown(m: Media, ops: seq<Op>, size: nat)
    requires Sized(m, size) && Readable(m)
    ensures Known(Current(m), ops, size, Newest(m, m))
  {
    hide Current, ReadOf;
    NewestHolds(m);
    AmongNone(Current(m), ops, size);
  }

  /** One completed change: the stale copy gets the new environment, and is the one read from then on. */
  lemma FirstChange(m: Media, c: Change, size: nat)
    requires Sized(m, size) && Readable(m) && WellKept(m) && GoodChange(c) && Fits(SortByName(Applied(ReadOf(m).vars, c)), true, size)
    ensures var m1 := Updated(m, c, size, Completed);
            && Sized(m1, size) && Readable(m1) && WellKept(m1) && Current(m1) == Changed(Current(m), c, size)
            && ReadOf(m1).writePrimary != ReadOf(m).writePrimary && Newest(m, m1) == Newest(m, m)
            && ReadOf(m1).flags == ReadOf(m).flags + 1
  {
    UpdatedIs(m, c, size, Completed);
    UpdateTakes(m, c, size);
    UpdateIsAtomic(m, c, size, Completed);
    hide ReadOf, Updated, Fits, WellKept, Readable, NextImage, Current, Changed;
  }

  /** A completed clear: both copies hold the empty environment, the primary one is read, the secondary written next. */
  lemma BothCleared(m: Media, size: nat)
    requires size >= BLOCK_SIZE
    ensures var m1 := Cleared(m, size, Completed);
            && Sized(m1, size) && !ReadOf(m1).writePrimary
            && Decodes(m1.primary) && Decodes(m1.secondary) && SortByName(Vars(m1.primary)) == [] && SortByName(Vars(m1.secondary)) == []
  {
    hide Decodes, Vars, Image, SortByName;
    EmptyImage(size);
  }

  /** The copy written last. */
  predicate LastIsPrimary(m: Media, ops: seq<Op>, size: nat)
    requires Sized(m, size) && ops != []
    decreases |ops|
  {
    if |ops| == 1 then ops[0].Edit? && ReadOf(m).writePrimary
    else
      var m' := Performed(m, ops[0], size);
      Sized(m', size) && LastIsPrimary(m', ops[1..], size)
  }

  /** After one operation every copy it wrote holds what the environment is now. */
  lemma FirstKnown(m: Media, ops: seq<Op>, size: nat)
    requires Sized(m, size) && Readable(m) && WellKept(m) && GoodOps(ops) && AllFit(m, ops, size) && ops != []
    ensures var m1 := Performed(m, ops[0], size); Sized(m1, size) && Known(Current(m), ops, size, m1.primary) && Known(Current(m), ops, size, m1.secondary)
  {
    hide Current, EnvAfterAll, WellKept, Readable, Fits, GoodChange, ReadOf, Updated, Cleared, Decodes, Vars, SortByName;
    var m1 := Performed(m, ops[0], size);
    PerformedIs(m, ops[0], size);
    AmongNone(Current(m1), ops[1..], size);
    AmongLater(Current(m), ops, size, Current(m1));
    match ops[0]
    case Clear => BothCleared(m, size);
    case Edit(c) =>
      FirstChange(m, c, size);
      NewestHolds(m1);
      NewestKnown(m, ops, size);
  }

  /** Of the result of a task both copies hold an environment that some number of its operations leads to. */
  lemma {:induction false} BatchCopies(m: Media, ops: seq<Op>, size: nat)
    requires Sized(m, size) && Readable(m) && WellKept(m) && GoodOps(ops) && AllFit(m, ops, size) && ops != []
    ensures var b := Batch(m, ops, size);
            Sized(b, size) && Known(Current(m), ops, size, b.primary) && Known(Current(m), ops, size, b.secondary)
    decreases |ops|
  {
    hide Current, EnvAfter, WellKept, Readable, Fits, GoodChange, Known, ReadOf, Performed;
    var m1 := Performed(m, ops[0], size);
    PerformedIs(m, ops[0], size);
    if |ops| == 1 {
      FirstKnown(m, ops, size);
      assert ops[1..] == [];
    } else {
      BatchCopies(m1, ops[1..], size);
      var b := Batch(m1, ops[1..], size);
      KnownLater(Current(m), ops, size, b.primary);
      KnownLater(Current(m), ops, size, b.secondary);
    }
  }

  /** What is read is what one of the copies that decode holds. */
  lemma ReadsACopy(x: Media, env0: seq<Pair>, ops: seq<Op>, size: nat)
    requires Sized(x, size) && (Decodes(x.primary) || Decodes(x.secondary))
    requires (Decodes(x.primary) ==> Known(env0, ops, size, x.primary)) && (Decodes(x.secondary) ==> Known(env0, ops, size, x.secondary))
    ensures Readable(x) && Among(env0, ops, size, Current(x))
  {
    hide Decodes, Vars, PrimaryFirst, SortByName, Among;
    ReadMarksOther(x);
  }

  lemma KnownDecodes(env0: seq<Pair>, ops: seq<Op>, size: nat, d: seq<byte>)
    requires |d| >= 5 && Known(env0, ops, size, d)
    ensures Decodes(d)
  {
  }

  lemma UncutIsSafe(m: Media, ops: seq<Op>, size: nat)
    requires Sized(m, size) && Readable(m)
    ensures Safe(m, ops, size, m)
  {
    hide Current, Readable;
    AmongNone(Current(m), ops, size);
  }

  /**
   * One copy is written before the other. If it does not change, or the other one already holds an environment of the
   * task, every cut is safe.
   */
  lemma FirstCopySafe(m: Media, ops: seq<Op>, size: nat, x: Media, first: bool)
    requires Sized(m, size) && Readable(m) && WellKept(m) && GoodOps(ops) && AllFit(m, ops, size)
    requires CutMedia(m, Batch(m, ops, size), x, size)
    requires Copy(x, !first) == Copy(m, !first) || Copy(x, first) == Copy(Batch(m, ops, size), first)
    requires Copy(Batch(m, ops, size), first) == Copy(m, first) || Known(Current(m), ops, size, Copy(m, !first))
    ensures Safe(m, ops, size, x)
  {
    hide Current, WellKept, ReadOf, AllFit, Known, Decodes, GoodOps, Batch;
    if x == m || ops == [] {
      NothingDone(m, size);
      UncutIsSafe(m, ops, size);
    } else {
      var b := Batch(m, ops, size);
      BatchCopies(m, ops, size);
      KnownDecodes(Current(m), ops, size, b.primary);
      KnownDecodes(Current(m), ops, size, b.secondary);
      if Known(Current(m), ops, size, Copy(m, !first)) {
        KnownDecodes(Current(m), ops, size, Copy(m, !first));
      }
      SafeCopies(m, ops, size, x, first);
    }
  }

  lemma NothingDone(m: Media, size: nat)
    requires Sized(m, size)
    ensures Batch(m, [], size) == m
  {
  }

  lemma SafeCopies(m: Media, ops: seq<Op>, size: nat, x: Media, first: bool)
    requires Sized(m, size) && Readable(m) && x != m && Sized(Batch(m, ops, size), size)
    requires CutMedia(m, Batch(m, ops, size), x, size)
    requires var b := Batch(m, ops, size);
             && Known(Current(m), ops, size, b.primary) && Known(Current(m), ops, size, b.secondary)
             && Decodes(b.primary) && Decodes(b.secondary)
             && (Copy(x, !first) == Copy(m, !first) || Copy(x, first) == Copy(b, first))
             && (Copy(b, first) == Copy(m, first) || (Known(Current(m), ops, size, Copy(m, !first)) && Decodes(Copy(m, !first))))
    ensures Safe(m, ops, size, x)
  {
    hide Current, ReadOf, Known, Decodes, Batch, Readable;
    ReadsACopy(x, Current(m), ops, size);
  }

  /** With one copy torn and the other untouched, the reader falls back on the latter. */
  lemma FallsBack(m: Media, ops: seq<Op>, size: nat, x: Media, torn: bool)
    requires Sized(m, size) && Sized(x, size) && !Decodes(Copy(x, torn)) && Copy(x, !torn) == Copy(m, !torn)
    ensures Readable(x) <==> Decodes(Copy(m, !torn))
    ensures Readable(x) ==> Current(x) == SortByName(Vars(Copy(m, !torn)))
    ensures Safe(m, ops, size, x) <==> Known(Current(m), ops, size, Copy(m, !torn))
  {
    hide Decodes, Vars, SortByName, Among, PrimaryFirst;
    ReadMarksOther(x);
  }

  lemma Unrolled(m: Media, ops: seq<Op>, size: nat)
    requires Sized(m, size) && Readable(m) && WellKept(m) && GoodOps(ops) && AllFit(m, ops, size) && AllEdits(ops) && ops != []
    ensures var m1 := Performed(m, ops[0], size);
            && Sized(m1, size) && Readable(m1) && WellKept(m1) && GoodOps(ops[1..]) && AllFit(m1, ops[1..], size) && AllEdits(ops[1..])
            && Batch(m, ops, size) == Batch(m1, ops[1..], size)
            && ReadOf(m1).writePrimary != ReadOf(m).writePrimary && Newest(m, m1) == Newest(m, m)
            && ReadOf(m1).flags == ReadOf(m).flags + 1
  {
    hide Current, Changed, WellKept, Readable, Fits, GoodChange, ReadOf, Updated;
    FirstChange(m, ops[0].change, size);
  }

  /** The copies take turns: after an even number of changes the copy in use is the same, and it was written last. */
  lemma {:induction false} TakesTurns(m: Media, ops: seq<Op>, size: nat)
    requires Sized(m, size) && Readable(m) && WellKept(m) && GoodOps(ops) && AllFit(m, ops, size) && AllEdits(ops)
    ensures var b := Batch(m, ops, size);
            Sized(b, size) && (ReadOf(b).writePrimary == ReadOf(m).writePrimary <==> |ops| % 2 == 0)
    ensures ops != [] ==> (LastIsPrimary(m, ops, size) <==> ReadOf(m).writePrimary == (|ops| % 2 == 1))
    decreases |ops|
  {
    hide Current, WellKept, Readable, ReadOf, Performed, AllFit, GoodOps;
    if ops != [] {
      Unrolled(m, ops, size);
      hide Batch;
      TakesTurns(Performed(m, ops[0], size), ops[1..], size);
    }
  }

  /** The counter of a copy after so many steps. */
  function Stepped(flag: byte, k: nat): int {
    (flag as int + k) % 256
  }

  lemma SteppedOne(flag: byte, k: nat)
    ensures Stepped(flag + 1, k) == Stepped(flag, k + 1)
  {
    assert (flag + 1) as int == (flag as int + 1) % 256;
  }

  lemma SteppedNone(flag: byte, k: nat)
    ensures Stepped(flag, 0) == flag as int && (0 < k < 256 ==> Stepped(flag, k) != flag as int)
  {
  }

  function Counter(d: seq<byte>): int
    requires |d| >= 5
  {
    d[4] as int
  }

  /** The last of the first k changes that is even, and the last that is odd. */
  function LastEven(k: nat): nat {
    k - k % 2
  }

  function LastOdd(k: nat): nat
    requires k > 0
  {
    k - 1 + k % 2
  }

  lemma NextTurn(k: nat)
    ensures LastOdd(k + 1) == LastEven(k) + 1 && (k > 0 ==> LastEven(k + 1) == LastOdd(k) + 1)
  {
  }

  /** After k changes the stale copy has been written by the odd ones, the other one by the even ones. */
  ghost predicate CountersOk(m: Media, b: Media, k: nat) {
    && |m.primary| >= 5 && |m.secondary| >= 5 && |b.primary| >= 5 && |b.secondary| >= 5
    && Counter(Newest(m, b)) == Stepped(ReadOf(m).flags, LastEven(k))
    && (k > 0 ==> Counter(Stale(m, b)) == Stepped(ReadOf(m).flags, LastOdd(k)))
  }

  lemma CountersStep(m: Media, m1: Media, b: Media, k: nat)
    requires |m.primary| >= 5 && |m.secondary| >= 5 && CountersOk(m1, b, k)
    requires ReadOf(m1).writePrimary != ReadOf(m).writePrimary && ReadOf(m1).flags == ReadOf(m).flags + 1
    requires k == 0 ==> Counter(Newest(m, b)) == Stepped(ReadOf(m).flags, LastEven(1))
    ensures CountersOk(m, b, k + 1)
  {
    hide ReadOf, Stepped, LastEven, LastOdd, Counter;
    NextTurn(k);
    SteppedOne(ReadOf(m).flags, LastEven(k));
    if k > 0 {
      SteppedOne(ReadOf(m).flags, LastOdd(k));
    }
  }

  lemma {:induction false} Counters(m: Media, ops: seq<Op>, size: nat)
    requires Sized(m, size) && Readable(m) && WellKept(m) && GoodOps(ops) && AllFit(m, ops, size) && AllEdits(ops)
    ensures Sized(Batch(m, ops, size), size) && CountersOk(m, Batch(m, ops, size), |ops|)
    decreases |ops|
  {
    hide Current, WellKept, Readable, ReadOf, Performed, AllFit, GoodOps, Stepped, Counter;
    if ops == [] {
      CounterNow(m);
    } else {
      var m1 := Performed(m, ops[0], size);
      Unrolled(m, ops, size);
      Counters(m1, ops[1..], size);
      if |ops| == 1 {
        SingleChange(m, ops, size);
      }
      hide CountersOk, Batch;
      CountersStep(m, m1, Batch(m, ops, size), |ops| - 1);
    }
  }

  lemma SingleChange(m: Media, ops: seq<Op>, size: nat)
    requires Sized(m, size) && Readable(m) && WellKept(m) && GoodOps(ops) && AllFit(m, ops, size) && AllEdits(ops) && |ops| == 1
    ensures var b := Batch(m, ops, size);
            Sized(b, size) && Newest(m, b) == Newest(m, m) && Counter(Newest(m, b)) == Stepped(ReadOf(m).flags, LastEven(1))
  {
    CounterNow(m);
    Unrolled(m, ops, size);
    assert ops[1..] == [];
    hide Current, WellKept, Readable, ReadOf, Performed, AllFit, GoodOps, Stepped, Batch, Counter;
  }

  lemma CounterNow(m: Media)
    requires |m.primary| >= 5 && |m.secondary| >= 5 && Readable(m)
    ensures Counter(Newest(m, m)) == Stepped(ReadOf(m).flags, 0)
  {
    hide Decodes, Vars, PrimaryFirst;
    ReadMarksOther(m);
    SteppedNone(ReadOf(m).flags, 0);
  }

  /** From the second change on, for as long as the counter does not come round, the copy in use changes as well. */
  lemma BothChange(m: Media, ops: seq<Op>, size: nat)
    requires Sized(m, size) && Readable(m) && WellKept(m) && GoodOps(ops) && AllFit(m, ops, size) && AllEdits(ops) && 2 <= |ops| < 256
    ensures Newest(m, Batch(m, ops, size)) != Newest(m, m)
  {
    hide Current, WellKept, Readable, ReadOf, AllFit, GoodOps, Batch, Stepped;
    Counters(m, ops, size);
    CounterNow(m);
    SteppedNone(ReadOf(m).flags, LastEven(|ops|));
  }
}
