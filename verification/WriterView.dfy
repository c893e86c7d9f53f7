/**
 * The threaded cache compared with a flat array of segments: what the main thread sees in every interleaving in
 * which no miss takes the segment the writer holds and no transfer fails.
 */
module WriterView {
  import opened Bytes
  import opened WriterThread

  /** The content of every segment of the disk, by offset. */
  type Contents = nat -> seq<byte>

  datatype World = World(s: State, disk: Contents)

  function Put(c: Contents, offset: nat, content: seq<byte>): Contents {
    (o: nat) => if o == offset then content else c(o)
  }

  /** A step with its effect on the disk. A miss reads its segment in. */
  function Act(w: World, step: Step): World
    requires Enabled(w.s, step)
  {
    var s' := Do(w.s, step);
    match step
    case Claim(k, offset) => World(Loaded(s', k, w.disk(offset)), w.disk)
    case Write(ok) => World(s', if ok then Put(w.disk, w.s.writer.offset, w.s.segments[w.s.writer.index].content) else w.disk)
    case SyncDone(ok) =>
      var g := w.s.segments[w.s.main.index];
      World(s', if ok then Put(w.disk, g.offset, g.content) else w.disk)
    case _ => World(s', w.disk)
  }

  function Loaded(s: State, k: nat, content: seq<byte>): State
    requires k < |s.segments|
  {
    s.(segments := s.segments[k := s.segments[k].(content := content)])
  }

  /** The same on a flat array: only stores change it. */
  function FlatStep(s: State, step: Step, flat: Contents): Contents
    requires Enabled(s, step)
  {
    match step
    case Store(content) => Put(flat, s.segments[s.current.index].offset, content)
    case _ => flat
  }

  /** A step that fails nothing, drops nothing and does not take the segment in the slot. */
  predicate Smooth(s: State, step: Step) {
    Enabled(s, step) &&
    match step
    case Claim(k, _) => s.slot != Holds(k)
    case Write(ok) => ok
    case SyncDone(ok) => ok
    case GiveUp(_) => false
    case Drop(_) => false
    case ResetDone => false
    case _ => true
  }

  predicate SmoothRun(w: World, steps: seq<Step>)
    decreases |steps|
  {
    steps != [] ==> Smooth(w.s, steps[0]) && SmoothRun(Act(w, steps[0]), steps[1..])
  }

  function ActAll(w: World, steps: seq<Step>): World
    requires SmoothRun(w, steps)
    decreases |steps|
  {
    if steps == [] then w else ActAll(Act(w, steps[0]), steps[1..])
  }

  function FlatRun(w: World, steps: seq<Step>, flat: Contents): Contents
    requires SmoothRun(w, steps)
    decreases |steps|
  {
    if steps == [] then flat else FlatRun(Act(w, steps[0]), steps[1..], FlatStep(w.s, steps[0], flat))
  }

  predicate CachedAt(s: State, k: nat, offset: nat) {
    InUse(s, k) && s.segments[k].offset == offset
  }

  /** What the main thread finds, in the cache or else on the disk, is the array. */
  ghost predicate Sees(w: World, flat: Contents) {
    && (forall k: nat :: InUse(w.s, k) ==> w.s.segments[k].content == flat(w.s.segments[k].offset))
    && (forall o: nat :: (forall k: nat :: !CachedAt(w.s, k, o)) ==> w.disk(o) == flat(o))
  }

  /** An entry is on the disk, or dirty, or still to be written by the writer. */
  predicate BackedUp(w: World, k: nat)
    requires k < |w.s.segments|
  {
    var g := w.s.segments[k];
    g.content == w.disk(g.offset) || (g.dirty && w.s.main != Checking(k)) || (Pending(w.s) && w.s.slot == Holds(k))
  }

  ghost predicate Backed(w: World) {
    forall k: nat :: InUse(w.s, k) ==> BackedUp(w, k)
  }

  ghost predicate OneEach(s: State) {
    forall k: nat, m: nat :: InUse(s, k) && InUse(s, m) && k != m ==> s.segments[k].offset != s.segments[m].offset
  }

  ghost predicate Steady(w: World) {
    Good(w.s) && Untaken(w.s) && !w.s.bad && OneEach(w.s) && Backed(w)
  }

  lemma LoadedGood(s: State, k: nat, content: seq<byte>)
    requires Good(s) && Untaken(s) && k < |s.segments| && s.slot != Holds(k)
    ensures Good(Loaded(s, k, content)) && Untaken(Loaded(s, k, content))
  {
  }

  lemma GoodAct(w: World, step: Step)
    requires Steady(w) && Smooth(w.s, step)
    ensures var w' := Act(w, step); Good(w'.s) && Untaken(w'.s) && !w'.s.bad
  {
    hide Good, Untaken, Inv, Backed, OneEach, Enabled, Do;
    StillUntaken(w, step);
    if step.Claim? {
      ClaimedElsewhere(w.s, step.k, step.offset);
      LoadedGood(Do(w.s, step), step.k, w.disk(step.offset));
    }
  }

  lemma ClaimedElsewhere(s: State, k: nat, offset: nat)
    requires Enabled(s, Claim(k, offset)) && s.slot != Holds(k)
    ensures var s' := Do(s, Claim(k, offset)); k < |s'.segments| && s'.slot != Holds(k)
  {
  }

  lemma StillUntaken(w: World, step: Step)
    requires Steady(w) && Smooth(w.s, step)
    ensures var s' := Do(w.s, step); Good(s') && Untaken(s') && !s'.bad
  {
    GoodStep(w.s, step);
    UntakenStep(w.s, step);
    hide Good, Untaken, Inv, Backed, OneEach;
  }

  lemma OneEachAct(w: World, step: Step)
    requires Steady(w) && Smooth(w.s, step)
    ensures OneEach(Act(w, step).s)
  {
    hide Good, Untaken, Backed;
  }

  lemma WriterAtItsOffset(s: State)
    requires Good(s) && s.writer.Writing?
    ensures s.slot == Holds(s.writer.index) && InUse(s, s.writer.index) && s.segments[s.writer.index].offset == s.writer.offset
  {
  }

  /** The entry in use that a step does not claim keeps its place. */
  lemma SamePlace(w: World, step: Step, k: nat)
    requires Smooth(w.s, step) && !(step.Claim? && step.k == k)
    ensures var s' := Act(w, step).s;
            |s'.segments| == |w.s.segments| && (InUse(s', k) <==> InUse(w.s, k))
            && (k < |s'.segments| ==> s'.segments[k].offset == w.s.segments[k].offset)
            && (k < |s'.segments| && !step.Store? ==> s'.segments[k].content == w.s.segments[k].content)
  {
  }

  lemma {:induction false} BackedStep(w: World, step: Step, k: nat)
    requires Steady(w) && Smooth(w.s, step) && InUse(Act(w, step).s, k)
    ensures BackedUp(Act(w, step), k)
  {
    if step.Claim? && step.k == k {
      assert Act(w, step).s.segments[k].content == w.disk(step.offset);
    } else {
      SamePlace(w, step, k);
      assert BackedUp(w, k);
      if step.Write? {
        WriterAtItsOffset(w.s);
      }
    }
  }

  lemma BackedAct(w: World, step: Step)
    requires Steady(w) && Smooth(w.s, step)
    ensures Backed(Act(w, step))
  {
    hide Steady, Smooth, BackedUp;
    assert Enabled(w.s, step) by { SmoothEnabled(w.s, step); }
    forall k: nat | InUse(Act(w, step).s, k)
      ensures k < |Act(w, step).s.segments| && BackedUp(Act(w, step), k)
    {
      BackedStep(w, step, k);
    }
  }

  lemma SmoothEnabled(s: State, step: Step)
    requires Smooth(s, step)
    ensures Enabled(s, step)
  {
  }

  lemma EntrySees(w: World, step: Step, flat: Contents, k: nat)
    requires Steady(w) && Smooth(w.s, step) && Sees(w, flat) && InUse(Act(w, step).s, k)
    ensures var g := Act(w, step).s.segments[k]; g.content == FlatStep(w.s, step, flat)(g.offset)
  {
    if step.Claim? && step.k == k {
      assert forall m: nat :: !CachedAt(w.s, m, step.offset);
    } else {
      SamePlace(w, step, k);
    }
  }

  lemma DiskSees(w: World, step: Step, flat: Contents, o: nat)
    requires Steady(w) && Smooth(w.s, step) && Sees(w, flat) && forall k: nat :: !CachedAt(Act(w, step).s, k, o)
    ensures Act(w, step).disk(o) == FlatStep(w.s, step, flat)(o)
  {
    hide Good, Untaken, Inv, OneEach;
    if step.Claim? {
      ClaimedAway(w, step.k, step.offset, flat, o);
    } else {
      NoneMoved(w, step, o);
      if step.Write? {
        WriterAtItsOffset(w.s);
        assert CachedAt(w.s, w.s.writer.index, w.s.writer.offset);
      } else if step.SyncDone? {
        MainInUse(w.s);
        assert CachedAt(w.s, w.s.main.index, w.s.segments[w.s.main.index].offset);
      } else if step.Store? {
        assert CachedAt(w.s, w.s.current.index, w.s.segments[w.s.current.index].offset);
      }
    }
  }

  lemma MainInUse(s: State)
    requires Good(s) && s.main.SyncWriting?
    ensures InUse(s, s.main.index)
  {
  }

  lemma NoneMoved(w: World, step: Step, o: nat)
    requires Smooth(w.s, step) && !step.Claim? && forall k: nat :: !CachedAt(Act(w, step).s, k, o)
    ensures forall k: nat :: !CachedAt(w.s, k, o)
  {
    hide Act;
    forall k: nat
      ensures !CachedAt(w.s, k, o)
    {
      SamePlace(w, step, k);
      assert !CachedAt(Act(w, step).s, k, o);
    }
  }

  /** The entry given up was on the disk. */
  lemma ClaimedAway(w: World, k: nat, offset: nat, flat: Contents, o: nat)
    requires Steady(w) && Smooth(w.s, Claim(k, offset)) && Sees(w, flat)
    requires forall m: nat :: !CachedAt(Act(w, Claim(k, offset)).s, m, o)
    ensures w.disk(o) == flat(o)
  {
    if CachedAt(w.s, k, o) {
      assert BackedUp(w, k);
    } else {
      forall m: nat
        ensures !CachedAt(w.s, m, o)
      {
        if m != k {
          SamePlace(w, Claim(k, offset), m);
          assert !CachedAt(Act(w, Claim(k, offset)).s, m, o);
        }
      }
    }
  }

  lemma SeesAct(w: World, step: Step, flat: Contents)
    requires Steady(w) && Smooth(w.s, step) && Sees(w, flat)
    ensures Sees(Act(w, step), FlatStep(w.s, step, flat))
  {
    hide Steady, FlatStep, Act, Smooth;
    SmoothEnabled(w.s, step);
    var w', flat' := Act(w, step), FlatStep(w.s, step, flat);
    forall k: nat | InUse(w'.s, k)
      ensures w'.s.segments[k].content == flat'(w'.s.segments[k].offset)
    {
      EntrySees(w, step, flat, k);
    }
    forall o: nat | forall k: nat :: !CachedAt(w'.s, k, o)
      ensures w'.disk(o) == flat'(o)
    {
      DiskSees(w, step, flat, o);
    }
  }

  /**
   * In every interleaving without such a miss and without a failure, what the main thread sees is what the same stores
   * leave on a flat array; and whenever nothing is dirty and nothing in flight, the disk is that array.
   */
  lemma {:induction false} ThreadedRun(w: World, steps: seq<Step>, flat: Contents)
    requires Steady(w) && Sees(w, flat) && SmoothRun(w, steps)
    ensures var w' := ActAll(w, steps);
            Steady(w') && Sees(w', FlatRun(w, steps, flat)) && (Settled(w'.s) ==> forall o: nat :: w'.disk(o) == FlatRun(w, steps, flat)(o))
    decreases |steps|
  {
    hide Sees, Steady, Act, FlatStep, Smooth;
    if steps == [] {
      DiskIsArray(w, flat);
    } else {
      SmoothEnabled(w.s, steps[0]);
      SteadyAct(w, steps[0]);
      SeesAct(w, steps[0], flat);
      ThreadedRun(Act(w, steps[0]), steps[1..], FlatStep(w.s, steps[0], flat));
    }
  }

  ghost predicate Settled(s: State) {
    !Pending(s) && forall k: nat :: InUse(s, k) ==> !s.segments[k].dirty
  }

  lemma DiskIsArray(w: World, flat: Contents)
    requires Steady(w) && Sees(w, flat)
    ensures Settled(w.s) ==> forall o: nat :: w.disk(o) == flat(o)
  {
    hide Good, Untaken, Inv, OneEach;
    if Settled(w.s) {
      forall o: nat
        ensures w.disk(o) == flat(o)
      {
        if k: nat :| CachedAt(w.s, k, o) {
          assert BackedUp(w, k);
        }
      }
    }
  }

  lemma SteadyAct(w: World, step: Step)
    requires Steady(w) && Smooth(w.s, step)
    ensures Steady(Act(w, step))
  {
    GoodAct(w, step);
    OneEachAct(w, step);
    BackedAct(w, step);
    hide Good, Untaken, OneEach, Backed, Act;
  }

  /** A new cache over any disk. */
  lemma StartsSteady(n: nat, disk: Contents)
    ensures Steady(World(Init(n), disk)) && Sees(World(Init(n), disk), disk)
  {
    InitGood(n);
    assert forall k: nat :: !InUse(Init(n), k);
  }
}
