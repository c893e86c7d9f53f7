/**
 * The two copies of a redundant U-Boot environment: which one is read, which one is written next, and
 * what is left after an update was cut short.
 */
module UbootProtocol {
  import opened Bytes
  import opened UbootPairs
  import opened UbootCodec

  datatype Media = Media(primary: seq<byte>, secondary: seq<byte>)

  predicate Sized(m: Media, size: nat) {
    |m.primary| == |m.secondary| == size && size >= BLOCK_SIZE
  }

  /** What reading leaves behind: the variables, the counter, and the copies to write next. */
  datatype Reading = Reading(ok: bool, vars: seq<Pair>, flags: byte, writePrimary: bool, writeSecondary: bool)

  /** The list decoding builds: every pair is put in front. */
  function Vars(d: seq<byte>): seq<Pair>
    requires |d| >= 5
  {
    Reversed(DecodeImage(d, true).pairs)
  }

  predicate Decodes(d: seq<byte>)
    requires |d| >= 5
  {
    DecodeImage(d, true).ok
  }

  /** The first copy is to be preferred: the counters are the same or the first is ahead, with wrap-around. */
  predicate PrimaryFirst(flag1: byte, flag2: byte) {
    var delta := flag2 - flag1;
    delta == 0 || delta >= 128
  }

  function ReadOf(m: Media): Reading
    requires |m.primary| >= 5 && |m.secondary| >= 5
  {
    var flag1, flag2 := m.primary[4], m.secondary[4];
    if PrimaryFirst(flag1, flag2) then
      if Decodes(m.primary) then Reading(true, Vars(m.primary), flag1, false, true)
      else Reading(Decodes(m.secondary), Vars(m.secondary), flag2, true, !Decodes(m.secondary))
    else
      if Decodes(m.secondary) then Reading(true, Vars(m.secondary), flag2, true, false)
      else Reading(Decodes(m.primary), Vars(m.primary), flag1, !Decodes(m.primary), true)
  }

  /** A successful read takes a copy that decodes and marks exactly the other one for writing. */
  lemma ReadMarksOther(m: Media)
    requires |m.primary| >= 5 && |m.secondary| >= 5
    ensures var r := ReadOf(m);
            && (r.ok <==> Decodes(m.primary) || Decodes(m.secondary))
            && (r.ok ==> r.writePrimary != r.writeSecondary)
            && (r.ok && r.writePrimary ==> Decodes(m.secondary) && r.vars == Vars(m.secondary) && r.flags == m.secondary[4])
            && (r.ok && r.writeSecondary ==> Decodes(m.primary) && r.vars == Vars(m.primary) && r.flags == m.primary[4])
            && (!r.ok ==> r.writePrimary && r.writeSecondary)
  {
    hide Decodes, Vars, PrimaryFirst;
  }

  datatype Change = Set(name: seq<byte>, value: seq<byte>) | Unset(name: seq<byte>)

  predicate GoodChange(c: Change) {
    c.Set? ==> GoodName(c.name) && NulFree(c.value)
  }

  function Applied(vars: seq<Pair>, c: Change): seq<Pair> {
    match c
    case Set(name, value) => WithPair(vars, name, value)
    case Unset(name) => WithoutPair(vars, name)
  }

  /** How far a write came: to the end, or it was cut short in the first or the second copy it writes. */
  datatype Outcome = Completed | TornFirst(left: seq<byte>) | TornSecond(left: seq<byte>)

  function Written(m: Media, img: seq<byte>, primary: bool, secondary: bool, out: Outcome): Media {
    if out.TornFirst? then
      if primary then m.(primary := out.left) else if secondary then m.(secondary := out.left) else m
    else
      Media(if primary then img else m.primary,
            if !secondary then m.secondary else if out.TornSecond? && primary then out.left else img)
  }

  /** A copy whose writing was cut short is as before, complete, or fails its checksum. */
  ghost predicate TornOk(out: Outcome, was: seq<byte>, img: seq<byte>) {
    out.Completed? || (|out.left| == |img| && |img| >= 5 && (out.left == was || out.left == img || !Decodes(out.left)))
  }

  /** uboot_setenv and uboot_unsetenv: read, change, write. Nothing is written when reading fails or there is no room. */
  function Updated(m: Media, c: Change, size: nat, out: Outcome): Media
    requires |m.primary| >= 5 && |m.secondary| >= 5 && size >= BLOCK_SIZE
  {
    var r := ReadOf(m);
    var ps := SortByName(Applied(r.vars, c));
    if !r.ok || !Fits(ps, true, size) then m
    else Written(m, Image(ps, true, r.flags + 1, size), r.writePrimary, r.writeSecondary, out)
  }

  /** uboot_clearenv: an empty environment goes to both copies, with the counter at one. */
  function Cleared(m: Media, size: nat, out: Outcome): Media
    requires size >= BLOCK_SIZE
  {
    Written(m, Image([], true, 1, size), true, true, out)
  }

  /** The environment as a reader sees it, in the order it would be written. */
  function Current(m: Media): seq<Pair>
    requires |m.primary| >= 5 && |m.secondary| >= 5
  {
    SortByName(ReadOf(m).vars)
  }

  ghost predicate Readable(m: Media)
    requires |m.primary| >= 5 && |m.secondary| >= 5
  {
    ReadOf(m).ok
  }

  /** No copy that decodes names a variable twice. */
  ghost predicate WellKept(m: Media)
    requires |m.primary| >= 5 && |m.secondary| >= 5
  {
    (Decodes(m.primary) ==> Distinct(Vars(m.primary))) && (Decodes(m.secondary) ==> Distinct(Vars(m.secondary)))
  }

  /** The update seen on the sorted variables alone. */
  function Changed(env: seq<Pair>, c: Change, size: nat): seq<Pair> {
    var next := SortByName(Applied(env, c));
    if Fits(next, true, size) then next else env
  }

  lemma ImageDecodes(ps: seq<Pair>, flag: byte, size: nat)
    requires size >= BLOCK_SIZE && Fits(ps, true, size) && GoodPairs(ps)
    ensures var d := Image(ps, true, flag, size); Decodes(d) && Vars(d) == Reversed(ps) && d[4] == flag
  {
    hide Image, DecodeImage, GoodPairs;
    DecodesBackIff(ps, true, flag, size);
    ImageParts(ps, true, flag, size);
  }

  lemma AppliedGood(vars: seq<Pair>, c: Change)
    requires GoodPairs(vars) && GoodChange(c) && Distinct(vars)
    ensures GoodPairs(SortByName(Applied(vars, c))) && Distinct(Applied(vars, c))
  {
    var r := Applied(vars, c);
    StaysDistinct(vars, c.name, if c.Set? then c.value else []);
    assert GoodPairs(r);
    SortMembers(r);
    var s := SortByName(r);
    forall k | 0 <= k < |s|
      ensures GoodName(s[k].name) && NulFree(s[k].value)
    {
      assert s[k] in s;
      assert s[k] in r;
    }
  }

  /** Changing the variables and putting them in order does not depend on the order they were in. */
  lemma ChangedSorted(vars: seq<Pair>, c: Change)
    requires Distinct(vars)
    ensures SortByName(Applied(SortByName(vars), c)) == SortByName(Applied(vars, c))
    ensures Distinct(SortByName(vars))
  {
    hide SortByName, AsMap, Distinct, WithPair, WithoutPair;
    var s := SortByName(vars);
    var value := if c.Set? then c.value else [];
    SortOrdered(vars);
    OrderedDistinct(s);
    SortMembers(vars);
    SameMap(s, vars);
    StaysDistinct(s, c.name, value);
    StaysDistinct(vars, c.name, value);
    if c.Set? {
      SetsTheName(s, c.name, value);
      SetsTheName(vars, c.name, value);
    } else {
      RemovesTheName(s, c.name);
      RemovesTheName(vars, c.name);
    }
    SortDependsOnMap(Applied(s, c), Applied(vars, c));
  }

  lemma {:induction false} SortOfReversed(ps: seq<Pair>)
    requires Distinct(ps)
    ensures SortByName(Reversed(SortByName(ps))) == SortByName(ps) && Distinct(Reversed(SortByName(ps)))
  {
    hide SortByName, AsMap;
    SortedBack(ps);
    SortDependsOnMap(Reversed(SortByName(ps)), ps);
  }

  lemma ReadIsGood(m: Media)
    requires |m.primary| >= 5 && |m.secondary| >= 5 && Readable(m) && WellKept(m)
    ensures GoodPairs(ReadOf(m).vars) && Distinct(ReadOf(m).vars)
  {
    hide Distinct, Parse;
    var r := ReadOf(m);
    var d := if r.writePrimary then m.secondary else m.primary;
    ReadMarksOther(m);
    ParsedAreGood(d, 5);
    assert r.vars == Reversed(Parse(d, 5).pairs);
  }

  /** What an update that starts from a readable environment writes. */
  function NextImage(m: Media, c: Change, size: nat): (r: seq<byte>)
    requires |m.primary| >= 5 && |m.secondary| >= 5 && size >= BLOCK_SIZE
    requires Fits(SortByName(Applied(ReadOf(m).vars, c)), true, size)
    ensures |r| == size
  {
    Image(SortByName(Applied(ReadOf(m).vars, c)), true, ReadOf(m).flags + 1, size)
  }

  /** The copy that an update overwrites. */
  function Target(m: Media): seq<byte>
    requires |m.primary| >= 5 && |m.secondary| >= 5
  {
    if ReadOf(m).writePrimary then m.primary else m.secondary
  }

  /**
   * The copy with the larger counter, modulo 256, is read when it decodes: one step ahead is always larger,
   * also from 255 to 0.
   */
  lemma OneAhead(flag: byte)
    ensures !PrimaryFirst(flag, flag + 1) && PrimaryFirst(flag + 1, flag)
  {
  }

  /** The copy marked for writing replaced by d. */
  function Replaced(m: Media, d: seq<byte>): Media
    requires |m.primary| >= 5 && |m.secondary| >= 5
  {
    if ReadOf(m).writePrimary then m.(primary := d) else m.(secondary := d)
  }

  /** After the copy `d` took the place of the one marked for writing, it is read if it decodes, else the other one. */
  lemma ReadAfter(m: Media, d: seq<byte>)
    requires |m.primary| >= 5 && |m.secondary| >= 5 && |d| >= 5 && Readable(m)
    requires Decodes(d) ==> d[4] == ReadOf(m).flags + 1
    ensures var r' := ReadOf(Replaced(m, d)); r'.ok && r'.vars == if Decodes(d) then Vars(d) else ReadOf(m).vars
    ensures Decodes(d) ==> ReadOf(Replaced(m, d)).writePrimary != ReadOf(m).writePrimary && ReadOf(Replaced(m, d)).flags == d[4]
  {
    hide Decodes, Vars, PrimaryFirst;
    ReadMarksOther(m);
    OneAhead(ReadOf(m).flags);
  }

  lemma ReplacedWellKept(m: Media, d: seq<byte>)
    requires |m.primary| >= 5 && |m.secondary| >= 5 && |d| >= 5 && WellKept(m)
    requires Decodes(d) ==> Distinct(Vars(d))
    ensures WellKept(Replaced(m, d))
  {
    hide Decodes, Vars, ReadOf, Distinct;
  }

  lemma UpdatedIs(m: Media, c: Change, size: nat, out: Outcome)
    requires Sized(m, size) && Readable(m) && Fits(SortByName(Applied(ReadOf(m).vars, c)), true, size)
    ensures Updated(m, c, size, out) == Replaced(m, if out.TornFirst? then out.left else NextImage(m, c, size))
  {
    hide Decodes, Vars, PrimaryFirst, Image, SortByName, Applied, Fits, ReadOf;
    ReadMarksOther(m);
  }

  /** The next read gives the changed variables once their block is in place. */
  lemma UpdateTakes(m: Media, c: Change, size: nat)
    requires Sized(m, size) && Readable(m) && WellKept(m) && GoodChange(c)
    requires Fits(SortByName(Applied(ReadOf(m).vars, c)), true, size)
    ensures var m' := Replaced(m, NextImage(m, c, size));
            Sized(m', size) && Readable(m') && WellKept(m') && Current(m') == SortByName(Applied(ReadOf(m).vars, c))
            && ReadOf(m').writePrimary != ReadOf(m).writePrimary && ReadOf(m').flags == ReadOf(m).flags + 1
  {
    hide Decodes, Vars, PrimaryFirst, Image, Distinct, SortByName, Applied, Fits, GoodPairs, ReadOf, WellKept;
    var r := ReadOf(m);
    ReadIsGood(m);
    AppliedGood(r.vars, c);
    ImageDecodes(SortByName(Applied(r.vars, c)), r.flags + 1, size);
    SortOfReversed(Applied(r.vars, c));
    ReadAfter(m, NextImage(m, c, size));
    ReplacedWellKept(m, NextImage(m, c, size));
  }

  /** A torn block that does not decode leaves everything as it was for the reader. */
  lemma TornIsIgnored(m: Media, left: seq<byte>, size: nat)
    requires Sized(m, size) && Readable(m) && WellKept(m) && |left| == size && !Decodes(left)
    ensures var m' := Replaced(m, left); Sized(m', size) && Readable(m') && WellKept(m') && Current(m') == Current(m)
  {
    hide Decodes, Vars, PrimaryFirst, Distinct, SortByName, ReadOf, WellKept;
    ReadAfter(m, left);
    ReplacedWellKept(m, left);
  }

  /**
   * An update is atomic: completed, the next read gives the changed variables; cut short, it gives the old
   * or the changed ones. This holds for every pair of copies that can be read, at every counter value.
   */
  lemma UpdateIsAtomic(m: Media, c: Change, size: nat, out: Outcome)
    requires Sized(m, size) && Readable(m) && WellKept(m) && GoodChange(c)
    requires Fits(SortByName(Applied(ReadOf(m).vars, c)), true, size) ==> TornOk(out, Target(m), NextImage(m, c, size))
    ensures var m' := Updated(m, c, size, out);
            && Sized(m', size) && Readable(m') && WellKept(m')
            && (Current(m') == Changed(Current(m), c, size) || (!out.Completed? && Current(m') == Current(m)))
  {
    hide Decodes, Distinct, SortByName, Applied, Fits, ReadOf, WellKept, Readable, NextImage, GoodChange;
    var vars := ReadOf(m).vars;
    ReadIsGood(m);
    ChangedSorted(vars, c);
    if Fits(SortByName(Applied(vars, c)), true, size) {
      UpdatedIs(m, c, size, out);
      if !out.TornFirst? || out.left == NextImage(m, c, size) {
        UpdateTakes(m, c, size);
      } else if out.left == Target(m) {
        assert Replaced(m, out.left) == m;
      } else {
        TornIsIgnored(m, out.left, size);
      }
    }
  }

  datatype Step = Step(change: Change, out: Outcome)

  function Run(m: Media, steps: seq<Step>, size: nat): Media
    requires Sized(m, size)
    decreases |steps|
  {
    if steps == [] then m else
      var m' := Updated(m, steps[0].change, size, steps[0].out);
      if Sized(m', size) then Run(m', steps[1..], size) else m'
  }

  /** Along a run every change is a good one and everything that was cut short left a block that is old, new or fails its checksum. */
  ghost predicate Fair(m: Media, steps: seq<Step>, size: nat)
    requires Sized(m, size)
    decreases |steps|
  {
    if steps == [] then true else
      var c, out := steps[0].change, steps[0].out;
      var m' := Updated(m, c, size, out);
      && GoodChange(c)
      && (Fits(SortByName(Applied(ReadOf(m).vars, c)), true, size) ==> TornOk(out, Target(m), NextImage(m, c, size)))
      && (Sized(m', size) ==> Fair(m', steps[1..], size))
  }

  /** Each completed change took effect and each one that was cut short did or did not, as a whole. */
  predicate Explains(env: seq<Pair>, steps: seq<Step>, size: nat, result: seq<Pair>)
    decreases |steps|
  {
    if steps == [] then result == env
    else
      || Explains(Changed(env, steps[0].change, size), steps[1..], size, result)
      || (!steps[0].out.Completed? && Explains(env, steps[1..], size, result))
  }

  /** Any run of updates, with any of them cut short, is a run of whole updates to the reader. */
  lemma {:induction false} RunIsAtomic(m: Media, steps: seq<Step>, size: nat)
    requires Sized(m, size) && Readable(m) && WellKept(m) && Fair(m, steps, size)
    ensures var m' := Run(m, steps, size);
            Sized(m', size) && Readable(m') && WellKept(m') && Explains(Current(m), steps, size, Current(m'))
    decreases |steps|
  {
    hide Updated, Current, Changed, WellKept, Readable, TornOk, Fits;
    if steps != [] {
      UpdateIsAtomic(m, steps[0].change, size, steps[0].out);
      RunIsAtomic(Updated(m, steps[0].change, size, steps[0].out), steps[1..], size);
    }
  }

  /** Clearing makes any two copies readable again, and empty. */
  lemma ClearCompletes(m: Media, size: nat)
    requires size >= BLOCK_SIZE
    ensures var m' := Cleared(m, size, Completed);
            Sized(m', size) && Readable(m') && WellKept(m') && Current(m') == []
  {
    hide Decodes, Vars, PrimaryFirst, Image;
    ImageDecodes([], 1, size);
    ReadMarksOther(Cleared(m, size, Completed));
  }

  /** What a task does to the environment: clears it, or changes one variable. */
  datatype Op = Clear | Edit(change: Change)

  predicate GoodOps(ops: seq<Op>) {
    forall k :: 0 <= k < |ops| ==> ops[k].Edit? ==> GoodChange(ops[k].change)
  }

  /** One of them, completed. */
  function Performed(m: Media, op: Op, size: nat): Media
    requires Sized(m, size)
  {
    match op
    case Clear => Cleared(m, size, Completed)
    case Edit(c) => Updated(m, c, size, Completed)
  }

  function Batch(m: Media, ops: seq<Op>, size: nat): Media
    requires Sized(m, size)
    decreases |ops|
  {
    if ops == [] then m else
      var m' := Performed(m, ops[0], size);
      if Sized(m', size) then Batch(m', ops[1..], size) else m'
  }

  /** The same seen on the sorted variables alone. */
  function EnvAfter(env: seq<Pair>, op: Op, size: nat): seq<Pair> {
    match op
    case Clear => []
    case Edit(c) => Changed(env, c, size)
  }

  function EnvAfterAll(env: seq<Pair>, ops: seq<Op>, size: nat): seq<Pair>
    decreases |ops|
  {
    if ops == [] then env else EnvAfterAll(EnvAfter(env, ops[0], size), ops[1..], size)
  }

  lemma PerformedIs(m: Media, op: Op, size: nat)
    requires Sized(m, size) && Readable(m) && WellKept(m) && (op.Edit? ==> GoodChange(op.change))
    ensures var m' := Performed(m, op, size);
            Sized(m', size) && Readable(m') && WellKept(m') && Current(m') == EnvAfter(Current(m), op, size)
  {
    hide Updated, Cleared, Current, Changed, WellKept, Readable, GoodChange;
    match op
    case Clear => ClearCompletes(m, size);
    case Edit(c) => UpdateIsAtomic(m, c, size, Completed);
  }

  /** However many updates and clears complete, also when the counter wraps, a read finds the latest of them. */
  lemma {:induction false} LatestIsRead(m: Media, ops: seq<Op>, size: nat)
    requires Sized(m, size) && Readable(m) && WellKept(m) && GoodOps(ops)
    ensures var m' := Batch(m, ops, size);
            Sized(m', size) && Readable(m') && WellKept(m') && Current(m') == EnvAfterAll(Current(m), ops, size)
    decreases |ops|
  {
    hide Performed, Current, EnvAfter, WellKept, Readable, GoodChange;
    if ops != [] {
      PerformedIs(m, ops[0], size);
      LatestIsRead(Performed(m, ops[0], size), ops[1..], size);
    }
  }

  /** A cut leaves the copy being written as it was, complete or failing its checksum. */
  ghost predicate FairClear(m: Media, size: nat, out: Outcome)
    requires size >= BLOCK_SIZE
  {
    TornOk(out, if out.TornFirst? then m.primary else m.secondary, Image([], true, 1, size))
  }

  /** The reader finds the environment from before the clear, or an empty one. */
  ghost predicate OldOrEmpty(m: Media, m': Media, size: nat) {
    Sized(m, size) && Sized(m', size) && Readable(m') && (Current(m') == Current(m) || Current(m') == [])
  }

  ghost predicate SecondIsOldOrEmpty(m: Media)
    requires |m.primary| >= 5 && |m.secondary| >= 5
  {
    Decodes(m.secondary) && (SortByName(Vars(m.secondary)) == Current(m) || SortByName(Vars(m.secondary)) == [])
  }

  lemma EmptyImage(size: nat)
    requires size >= BLOCK_SIZE
    ensures var e := Image([], true, 1, size); |e| == size && e[4] == 1 && Decodes(e) && SortByName(Vars(e)) == []
  {
    hide Decodes, Vars, Image;
    ImageDecodes([], 1, size);
  }

  /**
   * Cut between the two copies, a clear leaves the second copy to be read exactly when it decodes and its counter
   * is 2 to 128; otherwise the environment is empty.
   */
  lemma ClearBetweenCopies(m: Media, size: nat)
    requires Sized(m, size)
    ensures var m' := Media(Image([], true, 1, size), m.secondary);
            Sized(m', size) && Readable(m')
            && Current(m') == if Decodes(m.secondary) && 2 <= m.secondary[4] <= 128 then SortByName(Vars(m.secondary)) else []
  {
    hide Decodes, Vars, Image, SortByName;
    EmptyImage(size);
    var f := m.secondary[4];
    assert PrimaryFirst(1, f) <==> !(2 <= f <= 128);
  }

  lemma ClearInSecond(m: Media, d: seq<byte>, size: nat)
    requires Sized(m, size) && |d| == size && !Decodes(d)
    ensures var m' := Media(Image([], true, 1, size), d); Sized(m', size) && Readable(m') && Current(m') == []
  {
    ClearBetweenCopies(m.(secondary := d), size);
  }

  lemma ClearInFirst(m: Media, d: seq<byte>, size: nat)
    requires Sized(m, size) && |d| == size && !Decodes(d)
    ensures OldOrEmpty(m, m.(primary := d), size) <==> SecondIsOldOrEmpty(m)
  {
    hide Decodes, Vars, SortByName, PrimaryFirst;
    ReadMarksOther(m.(primary := d));
  }

  lemma ClearSafe(m: Media, size: nat, out: Outcome)
    requires Sized(m, size) && Readable(m) && SecondIsOldOrEmpty(m) && FairClear(m, size, out)
    ensures OldOrEmpty(m, Cleared(m, size, out), size)
  {
    hide Decodes, Vars, SortByName, Readable, Current, Image;
    ClearBetweenCopies(m, size);
    ClearCompletes(m, size);
    var e := Image([], true, 1, size);
    match out
    case Completed =>
    case TornFirst(left) =>
      if left == m.primary {
        assert m.(primary := left) == m;
      } else if left == e {
        assert m.(primary := left) == Media(e, m.secondary);
      } else {
        ClearInFirst(m, left, size);
      }
    case TornSecond(left) =>
      if left != m.secondary && left != e {
        ClearInSecond(m, left, size);
      } else if left == m.secondary {
        assert Cleared(m, size, out) == Media(e, m.secondary);
      } else {
        assert Cleared(m, size, out) == Cleared(m, size, Completed);
      }
  }

  /**
   * Clearing is atomic, at every point where it can be cut short, exactly when the second copy holds the old or the
   * empty environment: with the first copy torn, the second one is all there is.
   */
  lemma ClearIsAtomicIff(m: Media, size: nat)
    requires Sized(m, size) && Readable(m)
    ensures (forall out :: FairClear(m, size, out) ==> OldOrEmpty(m, Cleared(m, size, out), size)) <==> SecondIsOldOrEmpty(m)
  {
    hide Decodes, Cleared, Readable, Current, Image, OldOrEmpty, SecondIsOldOrEmpty;
    if SecondIsOldOrEmpty(m) {
      forall out | FairClear(m, size, out)
        ensures OldOrEmpty(m, Cleared(m, size, out), size)
      {
        ClearSafe(m, size, out);
      }
    } else {
      var d := TornBlock(size);
      ClearInFirst(m, d, size);
      ClearedTorn(m, d, size);
      assert FairClear(m, size, TornFirst(d));
    }
  }

  lemma TornBlock(size: nat) returns (d: seq<byte>)
    requires size >= BLOCK_SIZE
    ensures |d| == size && !Decodes(d)
  {
    d := Undecodable(size);
  }

  lemma ClearedTorn(m: Media, d: seq<byte>, size: nat)
    requires size >= BLOCK_SIZE
    ensures Cleared(m, size, TornFirst(d)) == m.(primary := d)
  {
  }

  /** An update that completed in the first copy is lost when clearing is cut short there: the one before it is back. */
  lemma ClearRollsBack(m: Media, c: Change, size: nat, left: seq<byte>)
    requires Sized(m, size) && Readable(m) && ReadOf(m).writePrimary && |left| == size && !Decodes(left)
    requires Fits(SortByName(Applied(ReadOf(m).vars, c)), true, size)
    ensures var m' := Cleared(Updated(m, c, size, Completed), size, TornFirst(left));
            Sized(m', size) && Readable(m') && Current(m') == Current(m)
  {
    hide Decodes, Vars, PrimaryFirst, Image, SortByName, Applied, Fits;
    ReadMarksOther(m);
    UpdatedIs(m, c, size, Completed);
    ReadMarksOther(m.(primary := left));
  }
}
