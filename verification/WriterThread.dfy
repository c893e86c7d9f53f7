/**
 * The hand-off between the main thread and the writer thread of the block cache, as a
 * system of atomic steps. A step of the main thread that has to wait is enabled only once
 * its wait is over; the writer's transfer itself runs without the lock, so it is split.
 */
module WriterThread {
  import opened Bytes

  datatype Segment = Segment(inUse: bool, dirty: bool, offset: nat, lastAccess: nat, content: seq<byte>)

  datatype Slot = Empty | Holds(index: nat)

  /** Where the main thread is: free, or inside one of the write calls on a segment. */
  datatype Main =
    | Free
    | Queueing(index: nat)      // waits for the slot
    | Checking(index: nat)      // has handed over and looks for an earlier error
    | SyncWriting(index: nat)
    | Draining(index: nat)
    | Stopped

  /** Where the writer thread is. While writing it has read the offset but not yet the data. */
  datatype Writer = Idle | Writing(index: nat, offset: nat) | Finished(index: nat) | Exited

  /** A write as it was handed over, and what became of it. */
  datatype Ticket = Ticket(index: nat, offset: nat, content: seq<byte>)
  datatype Outcome = Stored(offset: nat, content: seq<byte>) | Failed | Skipped

  datatype State = State(
    segments: seq<Segment>,
    timestamp: nat,
    current: Slot,          // the segment get_segment handed to the main thread
    slot: Slot,             // seg_to_write
    main: Main,
    writer: Writer,
    bad: bool,              // bad_offset >= 0
    running: bool,
    issued: seq<Ticket>,
    done: seq<Outcome>,
    resetAt: nat)           // how many writes were done at the last reset

  /**
   * Hit to Queue are a call on the cache up to its write, Issue and Checked do_async_write, Sync to Drained do_sync_write.
   * Abandon is a call that ends, with an error or not. GiveUp is a flush that marks a segment clean without writing it,
   * because an earlier write failed or its missing blocks could not be read. Drop and ResetDone are a reset.
   */
  datatype Step =
    | Hit(k: nat)
    | Claim(k: nat, offset: nat)
    | Store(content: seq<byte>)
    | Queue
    | Issue
    | Checked
    | Abandon
    | Sync(k: nat)
    | SyncDone(ok: bool)
    | Drained
    | GiveUp(k: nat)
    | Drop(k: nat)
    | ResetDone
    | Shutdown
    | Start
    | Write(ok: bool)
    | Release
    | Skip
    | Exit

  function Init(n: nat): State {
    State(seq(n, _ => Segment(false, false, 0, 0, [])), 0, Empty, Empty, Free, Idle, false, true, [], [], 0)
  }

  predicate InUse(s: State, k: nat) {
    k < |s.segments| && s.segments[k].inUse
  }

  /** The entry a cache miss takes: an unused one, or the least recently used when all are in use. */
  predicate Victim(s: State, k: nat) {
    && k < |s.segments|
    && (s.segments[k].inUse ==>
          forall m :: 0 <= m < |s.segments| ==> s.segments[m].inUse && s.segments[k].lastAccess <= s.segments[m].lastAccess)
  }

  predicate Enabled(s: State, step: Step) {
    match step
    case Hit(k) => s.main.Free? && InUse(s, k) && s.slot != Holds(k)
    case Claim(k, offset) => s.main.Free? && Victim(s, k) && !(s.segments[k].inUse && s.segments[k].dirty)
      && forall m :: 0 <= m < |s.segments| ==> !(s.segments[m].inUse && s.segments[m].offset == offset)
    case Store(_) => s.main.Free? && s.current.Holds? && InUse(s, s.current.index)
    case Queue => s.main.Free? && s.current.Holds? && InUse(s, s.current.index) && s.segments[s.current.index].dirty && !s.bad
    case Issue => s.main.Queueing? && s.main.index < |s.segments| && s.slot.Empty?
    case Checked => s.main.Checking? && s.main.index < |s.segments|
    case Abandon => s.main.Free?
    case Sync(k) => s.main.Free? && InUse(s, k) && s.segments[k].dirty && !s.bad
    case SyncDone(_) => s.main.SyncWriting? && s.main.index < |s.segments|
    case Drained => s.main.Draining? && s.main.index < |s.segments| && s.slot != Holds(s.main.index)
    case GiveUp(k) => s.main.Free? && InUse(s, k) && s.segments[k].dirty
    case Drop(k) => s.main.Free? && InUse(s, k) && s.slot != Holds(k)
    case ResetDone => s.main.Free? && forall m :: 0 <= m < |s.segments| ==> !s.segments[m].inUse
    case Shutdown => s.main.Free?
    case Start => s.writer.Idle? && s.slot.Holds? && s.slot.index < |s.segments| && !s.bad
    case Write(_) => s.writer.Writing? && s.writer.index < |s.segments|
    case Release => s.writer.Finished?
    case Skip => s.writer.Idle? && s.slot.Holds? && s.bad
    case Exit => s.writer.Idle? && s.slot.Empty? && !s.running
  }

  function Access(s: State, k: nat, g: Segment): State
    requires k < |s.segments|
  {
    s.(segments := s.segments[k := g.(lastAccess := s.timestamp)], timestamp := s.timestamp + 1, current := Holds(k))
  }

  function Do(s: State, step: Step): State
    requires Enabled(s, step)
  {
    match step
    case Hit(k) => Access(s, k, s.segments[k])
    case Claim(k, offset) => Access(s, k, Segment(true, false, offset, 0, s.segments[k].content))
    case Store(content) =>
      s.(segments := s.segments[s.current.index := s.segments[s.current.index].(content := content, dirty := true)])
    case Queue => s.(main := Queueing(s.current.index), current := Empty)
    case Issue =>
      var g := s.segments[s.main.index];
      s.(slot := Holds(s.main.index), main := Checking(s.main.index), issued := s.issued + [Ticket(s.main.index, g.offset, g.content)])
    case Checked =>
      if s.bad then s.(main := Free)
      else s.(main := Free, segments := s.segments[s.main.index := s.segments[s.main.index].(dirty := false)])
    case Abandon => s.(current := Empty)
    case Sync(k) => s.(main := if s.slot == Holds(k) then Draining(k) else SyncWriting(k))
    case SyncDone(ok) =>
      s.(main := Free, bad := s.bad || !ok, segments := s.segments[s.main.index := s.segments[s.main.index].(dirty := false)])
    case Drained =>
      s.(main := Free, segments := s.segments[s.main.index := s.segments[s.main.index].(dirty := false)])
    case GiveUp(k) => s.(segments := s.segments[k := s.segments[k].(dirty := false)])
    case Drop(k) => s.(segments := s.segments[k := s.segments[k].(inUse := false)], current := Empty)
    case ResetDone => s.(bad := false, resetAt := |s.done|, current := Empty)
    case Shutdown => s.(main := Stopped, running := false)
    case Start => s.(writer := Writing(s.slot.index, s.segments[s.slot.index].offset))
    case Write(ok) =>
      var outcome := if ok then Stored(s.writer.offset, s.segments[s.writer.index].content) else Failed;
      s.(writer := Finished(s.writer.index), bad := s.bad || !ok, done := s.done + [outcome])
    case Release => s.(writer := Idle, slot := Empty)
    case Skip => s.(slot := Empty, done := s.done + [Skipped])
    case Exit => s.(writer := Exited)
  }

  predicate Runs(s: State, steps: seq<Step>)
    decreases |steps|
  {
    steps != [] ==> Enabled(s, steps[0]) && Runs(Do(s, steps[0]), steps[1..])
  }

  function After(s: State, steps: seq<Step>): State
    requires Runs(s, steps)
    decreases |steps|
  {
    if steps == [] then s else After(Do(s, steps[0]), steps[1..])
  }

  // ----- What every interleaving keeps -----

  /** A write has been handed over and its outcome is not known yet. */
  predicate Pending(s: State) {
    s.slot.Holds? && !s.writer.Finished?
  }

  /** One segment at most is in flight; it is in use, and it is the one last handed over. */
  predicate SlotOk(s: State) {
    && |s.done| + (if Pending(s) then 1 else 0) == |s.issued|
    && (s.slot.Empty? ==> s.writer.Idle? || s.writer.Exited?)
    && (s.slot.Holds? ==> InUse(s, s.slot.index) && s.issued != [] && s.issued[|s.issued| - 1].index == s.slot.index)
    && (s.slot.Holds? ==> s.writer == Idle || s.writer == Finished(s.slot.index) || (s.writer.Writing? && s.writer.index == s.slot.index))
    && (s.writer.Exited? ==> s.slot.Empty? && !s.running)
    && (!s.running <==> s.main.Stopped?)
  }

  /** After a write of the writer failed, every later one was skipped, up to the next reset. */
  predicate FailureOk(s: State) {
    && s.resetAt <= |s.done|
    && (forall i :: s.resetAt <= i < |s.done| && s.done[i].Failed? ==> s.bad && !s.writer.Writing?)
    && (forall i, j :: s.resetAt <= i < j < |s.done| && s.done[i].Failed? ==> s.done[j].Skipped?)
  }

  predicate MainOk(s: State) {
    && (s.main.Queueing? || s.main.Checking? || s.main.SyncWriting? || s.main.Draining? ==> InUse(s, s.main.index))
    && (s.main.Queueing? || s.main.Checking? ==> s.current.Empty?)
    && (s.main.Checking? ==> s.issued != [] && s.issued[|s.issued| - 1].index == s.main.index && (s.bad ==> !s.writer.Writing?))
  }

  predicate Inv(s: State) {
    SlotOk(s) && FailureOk(s) && MainOk(s)
  }

  /** The steps of the writer thread. */
  predicate ByWriter(step: Step) {
    step.Start? || step.Write? || step.Release? || step.Skip? || step.Exit?
  }

  /** The steps that change an entry, or none. */
  predicate OnEntries(step: Step) {
    step.Hit? || step.Claim? || step.Store? || step.Checked? || step.SyncDone? || step.Drained? || step.GiveUp?
  }

  lemma WriterSlot(s: State, step: Step)
    requires SlotOk(s) && MainOk(s) && Enabled(s, step) && ByWriter(step)
    ensures SlotOk(Do(s, step))
  {
  }

  lemma EntrySlot(s: State, step: Step)
    requires SlotOk(s) && MainOk(s) && Enabled(s, step) && OnEntries(step)
    ensures SlotOk(Do(s, step))
  {
  }

  lemma IssueSlot(s: State)
    requires SlotOk(s) && MainOk(s) && Enabled(s, Issue)
    ensures SlotOk(Do(s, Issue))
  {
  }

  lemma OtherSlot(s: State, step: Step)
    requires SlotOk(s) && MainOk(s) && Enabled(s, step) && !ByWriter(step) && !OnEntries(step) && !step.Issue?
    ensures SlotOk(Do(s, step))
  {
  }

  lemma SlotStep(s: State, step: Step)
    requires SlotOk(s) && MainOk(s) && Enabled(s, step)
    ensures SlotOk(Do(s, step))
  {
    hide SlotOk, MainOk, Enabled, Do;
    if ByWriter(step) {
      WriterSlot(s, step);
    } else if OnEntries(step) {
      EntrySlot(s, step);
    } else if step.Issue? {
      IssueSlot(s);
    } else {
      OtherSlot(s, step);
    }
  }

  lemma FailureStep(s: State, step: Step)
    requires SlotOk(s) && FailureOk(s) && Enabled(s, step)
    ensures FailureOk(Do(s, step))
  {
  }

  lemma InvStep(s: State, step: Step)
    requires Inv(s) && Enabled(s, step)
    ensures Inv(Do(s, step))
  {
    SlotStep(s, step);
    FailureStep(s, step);
  }

  /**
   * In every interleaving at most one segment is in flight, it stays in use until the writer
   * is done with it, the writer writes nothing more after one of its writes failed until a reset,
   * and by the time it exits every write handed over has an outcome.
   */
  lemma {:induction false} InvRun(s: State, steps: seq<Step>)
    requires Inv(s) && Runs(s, steps)
    ensures Inv(After(s, steps))
    ensures After(s, steps).writer.Exited? ==> |After(s, steps).done| == |After(s, steps).issued|
    decreases |steps|
  {
    if steps != [] {
      InvStep(s, steps[0]);
      InvRun(Do(s, steps[0]), steps[1..]);
    }
  }

  predicate NoReset(steps: seq<Step>) {
    forall i :: 0 <= i < |steps| ==> !steps[i].ResetDone?
  }

  function WriterEnds(steps: seq<Step>): nat {
    if steps == [] then 0 else (if steps[0].Write? then 1 else 0) + WriterEnds(steps[1..])
  }

  function MainEnds(steps: seq<Step>): nat {
    if steps == [] then 0 else (if steps[0].SyncDone? then 1 else 0) + MainEnds(steps[1..])
  }

  /**
   * After a failure on either thread no transfer begins until a reset: what is still to come is at most the end of the
   * one transfer each thread had begun.
   */
  lemma {:induction false} NothingBegins(s: State, steps: seq<Step>)
    requires s.bad && Runs(s, steps) && NoReset(steps)
    ensures After(s, steps).bad
    ensures WriterEnds(steps) <= (if s.writer.Writing? then 1 else 0) && MainEnds(steps) <= (if s.main.SyncWriting? then 1 else 0)
    decreases |steps|
  {
    if steps != [] {
      assert !steps[0].ResetDone?;
      assert forall i :: 0 <= i < |steps| - 1 ==> steps[1..][i] == steps[i + 1];
      NothingBegins(Do(s, steps[0]), steps[1..]);
    }
  }

  /** A transfer that the device refused, on either thread. */
  predicate Fails(step: Step) {
    step == SyncDone(false) || step == Write(false)
  }

  /** A write enters the queue or a transfer starts. */
  predicate Begins(step: Step) {
    step.Queue? || step.Sync? || step.Start?
  }

  lemma NoneBegins(s: State, steps: seq<Step>)
    requires s.bad && Runs(s, steps) && NoReset(steps)
    ensures forall i :: 0 <= i < |steps| ==> !Begins(steps[i])
    decreases |steps|
  {
    hide Do;
    if steps != [] {
      assert forall i :: 0 <= i < |steps| - 1 ==> steps[1..][i] == steps[i + 1];
      StaysBad(s, steps[0]);
      NoneBegins(Do(s, steps[0]), steps[1..]);
    }
  }

  lemma StaysBad(s: State, step: Step)
    requires s.bad && Enabled(s, step) && !step.ResetDone?
    ensures Do(s, step).bad
  {
  }

  /**
   * Once a transfer has failed on either thread, nothing is queued and no transfer begins until a reset, and of what was
   * under way only the one transfer of the other thread still ends.
   */
  lemma FailureStops(s: State, failed: Step, rest: seq<Step>)
    requires Fails(failed) && Runs(s, [failed] + rest) && NoReset(rest)
    ensures forall i :: 0 <= i < |rest| ==> !rest[i].Queue? && !rest[i].Sync? && !rest[i].Start?
    ensures failed.SyncDone? ==> MainEnds(rest) == 0 && WriterEnds(rest) <= if s.writer.Writing? then 1 else 0
    ensures failed.Write? ==> WriterEnds(rest) == 0 && MainEnds(rest) <= if s.main.SyncWriting? then 1 else 0
  {
    assert ([failed] + rest)[1..] == rest;
    var s' := Do(s, failed);
    NothingBegins(s', rest);
    NoneBegins(s', rest);
    assert forall i :: 0 <= i < |rest| ==> !Begins(rest[i]);
  }

  /** The steps that take the dirty mark off a segment themselves: the end of a synchronous write, and giving up. */
  predicate Settles(step: Step) {
    step.SyncDone? || step.Drained? || step.GiveUp? || step.Drop?
  }

  lemma DirtyStep(s: State, step: Step, k: nat)
    requires s.bad && Enabled(s, step) && !step.ResetDone? && !Settles(step) && InUse(s, k) && s.segments[k].dirty
    ensures InUse(Do(s, step), k) && Do(s, step).segments[k].dirty
  {
  }

  /** Handing a segment over does not mark it clean once a transfer has failed: only a flush or a reset gives it up. */
  lemma {:induction false} DirtyKept(s: State, steps: seq<Step>, k: nat)
    requires s.bad && Runs(s, steps) && NoReset(steps) && (forall i :: 0 <= i < |steps| ==> !Settles(steps[i]))
    requires InUse(s, k) && s.segments[k].dirty
    ensures InUse(After(s, steps), k) && After(s, steps).segments[k].dirty
    decreases |steps|
  {
    hide Enabled, Do;
    if steps != [] {
      assert forall i :: 0 <= i < |steps| - 1 ==> steps[1..][i] == steps[i + 1];
      DirtyStep(s, steps[0], k);
      StaysBad(s, steps[0]);
      DirtyKept(Do(s, steps[0]), steps[1..], k);
    }
  }

  /** The same from the step that failed on. */
  lemma DirtyBehindFailure(s: State, rest: seq<Step>, k: nat)
    requires Runs(s, [Write(false)] + rest) && NoReset(rest) && (forall i :: 0 <= i < |rest| ==> !Settles(rest[i]))
    requires InUse(s, k) && s.segments[k].dirty
    ensures var s' := After(s, [Write(false)] + rest); InUse(s', k) && s'.segments[k].dirty
  {
    assert ([Write(false)] + rest)[1..] == rest;
    DirtyKept(Do(s, Write(false)), rest, k);
  }

  /** A reset opens the cache again: the next dirty segment can be queued or written. */
  lemma ResetReopens(s: State, k: nat, offset: nat, content: seq<byte>)
    requires Runs(s, [ResetDone, Claim(k, offset), Store(content)])
    ensures Runs(s, [ResetDone, Claim(k, offset), Store(content), Queue]) && Runs(s, [ResetDone, Claim(k, offset), Store(content), Sync(k)])
  {
    var s1 := Do(s, ResetDone);
    assert [ResetDone, Claim(k, offset), Store(content)][1..] == [Claim(k, offset), Store(content)];
    assert [Claim(k, offset), Store(content)][1..] == [Store(content)];
    var s2 := Do(s1, Claim(k, offset));
    var s3 := Do(s2, Store(content));
    AllSteps(s, s1, s2, s3, ResetDone, Claim(k, offset), Store(content), Queue);
    AllSteps(s, s1, s2, s3, ResetDone, Claim(k, offset), Store(content), Sync(k));
  }

  lemma AllSteps(s: State, s1: State, s2: State, s3: State, a: Step, b: Step, c: Step, d: Step)
    requires Enabled(s, a) && s1 == Do(s, a) && Enabled(s1, b) && s2 == Do(s1, b) && Enabled(s2, c) && s3 == Do(s2, c) && Enabled(s3, d)
    ensures Runs(s, [a, b, c, d])
  {
    hide Enabled, Do;
    NoStep(Do(s3, d));
    OneStep(s3, d, []);
    OneStep(s2, c, [d]);
    OneStep(s1, b, [c, d]);
    OneStep(s, a, [b, c, d]);
    assert [d] + [] == [d] && [c] + [d] == [c, d] && [b] + [c, d] == [b, c, d] && [a] + [b, c, d] == [a, b, c, d];
  }

  /** While the main thread writes a segment itself the writer thread does not hold that one. */
  predicate HandsOff(s: State) {
    s.main.SyncWriting? ==> s.slot != Holds(s.main.index)
  }

  lemma HandsOffKept(s: State, step: Step)
    requires HandsOff(s) && Enabled(s, step)
    ensures HandsOff(Do(s, step))
  {
  }

  /** In no interleaving do the two threads write the same segment at once. */
  lemma {:induction false} NeverBothWrite(s: State, steps: seq<Step>)
    requires HandsOff(s) && Inv(s) && Runs(s, steps)
    ensures var s' := After(s, steps);
            s'.main.SyncWriting? && s'.writer.Writing? ==> s'.main.index != s'.writer.index
    decreases |steps|
  {
    hide Enabled, Do;
    if steps != [] {
      HandsOffKept(s, steps[0]);
      InvStep(s, steps[0]);
      NeverBothWrite(Do(s, steps[0]), steps[1..]);
    }
  }

  /** A write call that ends without an error leaves its segment clean, and a flush that gives one up does as well. */
  lemma CleanBehind(s: State, step: Step, k: nat)
    requires Inv(s) && Enabled(s, step) && k < |s.segments|
    requires step.GiveUp? ==> step.k == k
    requires step.Checked? || step.SyncDone? || step.Drained? ==> s.main.index == k
    requires (step.Checked? && !s.bad) || step.SyncDone? || step.Drained? || step.GiveUp?
    ensures var s' := Do(s, step); k < |s'.segments| && InUse(s', k) && !s'.segments[k].dirty && s'.segments[k].content == s.segments[k].content
  {
  }

  /** Access stamps are all different and lie in the past. */
  predicate StampsOk(s: State) {
    && (forall k :: 0 <= k < |s.segments| && s.segments[k].inUse ==> s.segments[k].lastAccess < s.timestamp)
    && forall k, m :: 0 <= k < m < |s.segments| && s.segments[k].inUse && s.segments[m].inUse ==> s.segments[k].lastAccess != s.segments[m].lastAccess
  }

  lemma AccessStamps(s: State, k: nat, g: Segment)
    requires StampsOk(s) && k < |s.segments|
    ensures StampsOk(Access(s, k, g))
  {
  }

  /** Apart from accesses no step touches a stamp. */
  lemma OtherStamps(s: State, step: Step)
    requires StampsOk(s) && Enabled(s, step) && !step.Hit? && !step.Claim?
    ensures var s' := Do(s, step);
            && s'.timestamp == s.timestamp && |s'.segments| == |s.segments|
            && forall k :: 0 <= k < |s.segments| ==> s'.segments[k].lastAccess == s.segments[k].lastAccess && (s'.segments[k].inUse ==> s.segments[k].inUse)
  {
  }

  lemma StampsStep(s: State, step: Step)
    requires StampsOk(s) && Enabled(s, step)
    ensures StampsOk(Do(s, step))
  {
    if step.Hit? {
      AccessStamps(s, step.k, s.segments[step.k]);
    } else if step.Claim? {
      AccessStamps(s, step.k, Do(s, step).segments[step.k]);
    } else {
      OtherStamps(s, step);
      hide Do, Enabled;
    }
  }

  lemma {:induction false} StampsRun(s: State, steps: seq<Step>)
    requires StampsOk(s) && Runs(s, steps)
    ensures StampsOk(After(s, steps))
    decreases |steps|
  {
    hide Enabled, Do, StampsOk;
    if steps != [] {
      StampsStep(s, steps[0]);
      StampsRun(Do(s, steps[0]), steps[1..]);
    }
  }

  /** In every run of a cache of two or more entries a miss never takes the entry accessed last. */
  lemma RecentNotTaken(n: nat, steps: seq<Step>, access: Step, k: nat, offset: nat)
    requires n >= 2 && Runs(Init(n), steps)
    requires access == Hit(k) || (access.Claim? && access.k == k)
    requires Enabled(After(Init(n), steps), access)
    ensures !Enabled(Do(After(Init(n), steps), access), Claim(k, offset))
  {
    hide Enabled, Do, After, Runs;
    StampsRun(Init(n), steps);
    EntriesKept(Init(n), steps);
    NewestStays(After(Init(n), steps), access, k, offset);
  }

  lemma EntriesStep(s: State, step: Step)
    requires Enabled(s, step)
    ensures |Do(s, step).segments| == |s.segments|
  {
  }

  lemma {:induction false} EntriesKept(s: State, steps: seq<Step>)
    requires Runs(s, steps)
    ensures |After(s, steps).segments| == |s.segments|
    decreases |steps|
  {
    hide Enabled, Do;
    if steps != [] {
      EntriesStep(s, steps[0]);
      EntriesKept(Do(s, steps[0]), steps[1..]);
    }
  }

  lemma NewestStays(s: State, access: Step, k: nat, offset: nat)
    requires StampsOk(s) && |s.segments| >= 2 && Enabled(s, access) && (access == Hit(k) || (access.Claim? && access.k == k))
    ensures !Enabled(Do(s, access), Claim(k, offset))
  {
    var s' := Do(s, access);
    var other := if k == 0 then 1 else 0;
    assert s'.segments[k].inUse && s'.segments[k].lastAccess == s.timestamp;
    assert s'.segments[other] == s.segments[other];
  }

  /** Once every entry has been dropped nothing is in flight. */
  lemma NoneLeftAtReset(s: State)
    requires Inv(s) && Enabled(s, ResetDone)
    ensures s.slot.Empty? && |s.done| == |s.issued|
  {
  }

  /** The writer steps that are left before the slot is empty. */
  function WriterSteps(s: State, ok: bool): (steps: seq<Step>) {
    if s.slot.Empty? then []
    else if s.writer.Finished? then [Release]
    else if s.writer.Writing? then [Write(ok), Release]
    else if s.bad then [Skip]
    else [Start, Write(ok), Release]
  }

  lemma OneStep(s: State, step: Step, rest: seq<Step>)
    requires Enabled(s, step) && Runs(Do(s, step), rest)
    ensures Runs(s, [step] + rest) && After(s, [step] + rest) == After(Do(s, step), rest)
  {
    hide Enabled, Do;
    assert ([step] + rest)[1..] == rest;
  }

  lemma NoStep(s: State)
    ensures Runs(s, []) && After(s, []) == s
  {
  }

  /** What the writer makes of the state when it is left alone. */
  function Emptied(s: State, ok: bool): (r: State)
    requires Inv(s)
    ensures r.slot.Empty? && r.main == s.main && r.segments == s.segments
  {
    if s.slot.Empty? then s
    else if s.writer.Finished? then Do(s, Release)
    else if s.writer.Writing? then Do(Do(s, Write(ok)), Release)
    else if s.bad then Do(s, Skip)
    else Do(Do(Do(s, Start), Write(ok)), Release)
  }

  lemma WriterAlone(s: State, ok: bool)
    requires Inv(s)
    ensures Runs(s, WriterSteps(s, ok)) && After(s, WriterSteps(s, ok)) == Emptied(s, ok)
  {
    var e := Emptied(s, ok);
    hide Runs, After;
    NoStep(e);
    if s.slot.Holds? {
      if s.writer.Finished? {
        OneStep(s, Release, []);
      } else if s.writer.Writing? {
        OneStep(Do(s, Write(ok)), Release, []);
        OneStep(s, Write(ok), [Release]);
      } else if s.bad {
        OneStep(s, Skip, []);
      } else {
        OneStep(Do(Do(s, Start), Write(ok)), Release, []);
        OneStep(Do(s, Start), Write(ok), [Release]);
        OneStep(s, Start, [Write(ok), Release]);
      }
    }
  }

  lemma EmptiedIs(s: State, ok: bool)
    requires Inv(s)
    ensures var e := Emptied(s, ok);
            e.slot.Empty? && |e.segments| == |s.segments| && e.main == s.main && e.running == s.running && (!s.writer.Exited? ==> e.writer.Idle?)
  {
  }

  /** A main thread that waits for the slot, or for the writer to end, never waits in vain: the writer alone empties the slot. */
  lemma WaitsEnd(s: State, ok: bool)
    requires Inv(s)
    ensures Runs(s, WriterSteps(s, ok)) && After(s, WriterSteps(s, ok)).slot.Empty?
    ensures s.main.Queueing? ==> Enabled(After(s, WriterSteps(s, ok)), Issue)
    ensures s.main.Draining? ==> Enabled(After(s, WriterSteps(s, ok)), Drained)
    ensures s.main.Stopped? && !s.writer.Exited? ==> Enabled(After(s, WriterSteps(s, ok)), Exit)
  {
    hide Runs, After, WriterSteps, Emptied;
    WriterAlone(s, ok);
    EmptiedIs(s, ok);
  }

  // ----- The data in flight -----

  /** The write handed over last may still reach the disk. */
  predicate InFlight(s: State) {
    Pending(s) && (s.writer.Writing? || !s.bad)
  }

  /** The entry still is what was handed over. */
  predicate Unchanged(s: State, ticket: Ticket) {
    InUse(s, ticket.index) && s.segments[ticket.index].offset == ticket.offset && s.segments[ticket.index].content == ticket.content
  }

  /** The segment in flight still is what was handed over. */
  predicate Intact(s: State) {
    InFlight(s) && s.slot.index < |s.segments| && s.issued != [] ==>
      var ticket := s.issued[|s.issued| - 1];
      Unchanged(s, ticket) && (s.writer.Writing? ==> s.writer.offset == ticket.offset)
  }

  /** Every write that reached the disk put there what was handed over, in the order of handing over. */
  predicate Faithful(s: State) {
    && |s.done| <= |s.issued|
    && forall i :: 0 <= i < |s.done| && s.done[i].Stored? ==> s.done[i] == Stored(s.issued[i].offset, s.issued[i].content)
  }

  /** The main thread holds on to nothing that is in flight, and what is in flight is clean once it was handed over in full. */
  predicate Apart(s: State) {
    InFlight(s) ==>
      && s.current != s.slot
      && s.main != Queueing(s.slot.index) && s.main != SyncWriting(s.slot.index) && s.main != Draining(s.slot.index)
      && s.slot.index < |s.segments| && (s.segments[s.slot.index].dirty ==> s.main == Checking(s.slot.index))
  }

  predicate Good(s: State) {
    Inv(s) && Intact(s) && Faithful(s) && Apart(s)
  }

  /** A cache miss takes the segment in flight. The code does not wait for a clean victim. */
  predicate Clash(s: State, step: Step) {
    step.Claim? && InFlight(s) && s.slot == Holds(step.k)
  }

  lemma IntactStep(s: State, step: Step)
    requires SlotOk(s) && MainOk(s) && Intact(s) && Apart(s) && Enabled(s, step) && !Clash(s, step)
    ensures Intact(Do(s, step))
  {
  }

  lemma ApartStep(s: State, step: Step)
    requires SlotOk(s) && MainOk(s) && Apart(s) && Enabled(s, step) && !Clash(s, step)
    ensures Apart(Do(s, step))
  {
  }

  lemma WriterFaithful(s: State, step: Step)
    requires SlotOk(s) && Intact(s) && Faithful(s) && Enabled(s, step) && ByWriter(step)
    ensures Faithful(Do(s, step))
  {
  }

  lemma OtherFaithful(s: State, step: Step)
    requires SlotOk(s) && Intact(s) && Faithful(s) && Enabled(s, step) && !ByWriter(step)
    ensures Faithful(Do(s, step))
  {
  }

  lemma FaithfulStep(s: State, step: Step)
    requires SlotOk(s) && Intact(s) && Faithful(s) && Enabled(s, step)
    ensures Faithful(Do(s, step))
  {
    hide SlotOk, Intact, Faithful, Enabled, Do;
    if ByWriter(step) {
      WriterFaithful(s, step);
    } else {
      OtherFaithful(s, step);
    }
  }

  lemma GoodStep(s: State, step: Step)
    requires Good(s) && Enabled(s, step) && !Clash(s, step)
    ensures Good(Do(s, step))
  {
    InvStep(s, step);
    IntactStep(s, step);
    ApartStep(s, step);
    FaithfulStep(s, step);
  }

  /** A cache miss leaves the data in flight intact exactly when it takes another segment. */
  lemma ClaimIntactIff(s: State, k: nat, offset: nat)
    requires Good(s) && Enabled(s, Claim(k, offset)) && InFlight(s)
    ensures Intact(Do(s, Claim(k, offset))) <==> s.slot != Holds(k)
  {
    assert InUse(s, s.slot.index);
  }

  predicate NeverClashes(s: State, steps: seq<Step>)
    requires Runs(s, steps)
    decreases |steps|
  {
    steps != [] ==> !Clash(s, steps[0]) && NeverClashes(Do(s, steps[0]), steps[1..])
  }

  predicate AlwaysIntact(s: State, steps: seq<Step>)
    requires Runs(s, steps)
    decreases |steps|
  {
    Intact(s) && (steps != [] ==> AlwaysIntact(Do(s, steps[0]), steps[1..]))
  }

  /**
   * Over a whole run the data in flight is intact at every moment if and only if no miss ever
   * takes the segment in flight; and then the disk gets what was handed over, in that order.
   */
  lemma {:induction false} IntactIffNoClash(s: State, steps: seq<Step>)
    requires Good(s) && Runs(s, steps)
    ensures AlwaysIntact(s, steps) <==> NeverClashes(s, steps)
    ensures NeverClashes(s, steps) ==> Good(After(s, steps))
    decreases |steps|
  {
    if steps != [] {
      var next := Do(s, steps[0]);
      if Clash(s, steps[0]) {
        ClaimIntactIff(s, steps[0].k, steps[0].offset);
        assert !Intact(next);
      } else {
        GoodStep(s, steps[0]);
        IntactIffNoClash(next, steps[1..]);
      }
    }
  }

  lemma {:induction false} IssuedGrows(s: State, steps: seq<Step>)
    requires Runs(s, steps)
    ensures s.issued <= After(s, steps).issued
    decreases |steps|
  {
    if steps != [] {
      IssuedGrows(Do(s, steps[0]), steps[1..]);
    }
  }

  /**
   * From the hand-over to the outcome, through every interleaving without a clash, the entry stays in use and, as long
   * as its write may still happen, keeps the offset and the data it was handed over with.
   */
  lemma StaysUntilDone(s: State, steps: seq<Step>)
    requires Good(s) && Pending(s) && Runs(s, steps) && NeverClashes(s, steps)
    requires |After(s, steps).done| < |s.issued| == |After(s, steps).issued|
    ensures var s' := After(s, steps);
            var ticket := s.issued[|s.issued| - 1];
            InUse(s', ticket.index) && s'.slot == Holds(ticket.index) && (InFlight(s') ==> Unchanged(s', ticket))
  {
    hide Runs, After, NeverClashes, AlwaysIntact;
    IntactIffNoClash(s, steps);
    IssuedGrows(s, steps);
    assert After(s, steps).issued == s.issued;
  }

  lemma InitGood(n: nat)
    ensures Good(Init(n))
  {
  }

  // ----- Two runs in which a miss takes the segment in flight -----

  lemma {:induction false} OneMore(s: State, steps: seq<Step>, step: Step)
    requires Runs(s, steps) && Enabled(After(s, steps), step)
    ensures Runs(s, steps + [step]) && After(s, steps + [step]) == Do(After(s, steps), step)
    decreases |steps|
  {
    if steps == [] {
      assert [step][1..] == [];
      assert Runs(Do(s, step), []);
    } else {
      OneMore(Do(s, steps[0]), steps[1..], step);
      assert (steps + [step])[1..] == steps[1..] + [step];
    }
  }

  lemma Next(steps: seq<Step>, s: State, step: Step) returns (steps': seq<Step>, s': State)
    requires Runs(Init(8), steps) && s == After(Init(8), steps) && Enabled(s, step)
    ensures Runs(Init(8), steps') && s' == After(Init(8), steps') && s' == Do(s, step)
  {
    OneMore(Init(8), steps, step);
    steps', s' := steps + [step], Do(s, step);
  }

  lemma Queued(a: seq<byte>) returns (steps: seq<Step>, s: State)
    ensures Runs(Init(8), steps) && s == After(Init(8), steps)
    ensures s == Init(8).(segments := Init(8).segments[0 := Segment(true, true, 0, 0, a)], timestamp := 1, main := Queueing(0))
  {
    steps, s := [], Init(8);
    NoStep(s);
    hide Runs, After;
    steps, s := Next(steps, s, Claim(0, 0));
    steps, s := Next(steps, s, Store(a));
    steps, s := Next(steps, s, Queue);
  }

  lemma HandOver(a: seq<byte>) returns (steps: seq<Step>, s: State)
    ensures Runs(Init(8), steps) && s == After(Init(8), steps)
    ensures s == Init(8).(segments := Init(8).segments[0 := Segment(true, false, 0, 0, a)], timestamp := 1,
                          slot := Holds(0), writer := Writing(0, 0), issued := [Ticket(0, 0, a)])
  {
    hide Runs, After;
    steps, s := Queued(a);
    steps, s := Next(steps, s, Issue);
    steps, s := Next(steps, s, Checked);
    steps, s := Next(steps, s, Start);
  }

  /** Fills the whole cache of eight segments while the first one, holding `a`, is in flight. */
  lemma FillBehindTheWriter(a: seq<byte>) returns (steps: seq<Step>, s: State)
    ensures Runs(Init(8), steps) && s == After(Init(8), steps)
    ensures s.main.Free? && s.slot == Holds(0) && s.writer == Writing(0, 0) && !s.bad
    ensures s.issued == [Ticket(0, 0, a)] && s.done == [] && s.timestamp == 8
    ensures |s.segments| == 8 && s.segments[0] == Segment(true, false, 0, 0, a)
    ensures forall m :: 1 <= m < 8 ==> s.segments[m] == Segment(true, false, m * SEGMENT_SIZE, m, [])
  {
    steps, s := HandOver(a);
    var m := 1;
    while m < 8
      invariant 1 <= m <= 8 && Runs(Init(8), steps) && s == After(Init(8), steps) && s.timestamp == m
      invariant s.main.Free? && s.slot == Holds(0) && s.writer == Writing(0, 0) && !s.bad
      invariant s.issued == [Ticket(0, 0, a)] && s.done == []
      invariant |s.segments| == 8 && s.segments[0] == Segment(true, false, 0, 0, a)
      invariant forall k :: 1 <= k < m ==> s.segments[k] == Segment(true, false, k * SEGMENT_SIZE, k, [])
      invariant forall k :: m <= k < 8 ==> s.segments[k] == Segment(false, false, 0, 0, [])
    {
      steps, s := Next(steps, s, Claim(m, m * SEGMENT_SIZE));
      m := m + 1;
    }
  }

  /** A miss on a full cache takes the segment in flight and new data reaches the old offset. */
  lemma ClashWritesOtherData(a: seq<byte>, b: seq<byte>) returns (steps: seq<Step>)
    ensures Runs(Init(8), steps)
    ensures After(Init(8), steps).issued == [Ticket(0, 0, a)] && After(Init(8), steps).done == [Stored(0, b)]
  {
    var s;
    hide Runs, After;
    steps, s := FillBehindTheWriter(a);
    steps, s := Next(steps, s, Claim(0, 8 * SEGMENT_SIZE));
    steps, s := Next(steps, s, Store(b));
    steps, s := Next(steps, s, Write(true));
  }

  lemma RetakenBeforeRelease(a: seq<byte>, b: seq<byte>) returns (steps: seq<Step>, s: State)
    ensures Runs(Init(8), steps) && s == After(Init(8), steps)
    ensures s.main.Free? && s.slot == Holds(0) && s.writer == Finished(0) && !s.bad && s.done == [Stored(0, a)]
    ensures |s.segments| == 8 && s.segments[0] == Segment(true, true, 8 * SEGMENT_SIZE, 8, b)
  {
    hide Runs, After;
    steps, s := FillBehindTheWriter(a);
    steps, s := Next(steps, s, Write(true));
    steps, s := Next(steps, s, Claim(0, 8 * SEGMENT_SIZE));
    steps, s := Next(steps, s, Store(b));
  }

  /**
   * If the writer has written the segment but not yet let go of it, the flush of the new data
   * only waits for that: it succeeds, the segment is clean, and the new data was never written.
   */
  lemma ClashLosesWrite(a: seq<byte>, b: seq<byte>) returns (steps: seq<Step>)
    ensures Runs(Init(8), steps)
    ensures var s := After(Init(8), steps);
            s.main.Free? && !s.bad && s.done == [Stored(0, a)]
            && |s.segments| == 8 && s.segments[0] == Segment(true, false, 8 * SEGMENT_SIZE, 8, b)
  {
    var s;
    hide Runs, After;
    steps, s := RetakenBeforeRelease(a, b);
    steps, s := Next(steps, s, Sync(0));
    steps, s := Next(steps, s, Release);
    steps, s := Next(steps, s, Drained);
  }

  /** A synchronous write waits without writing only on a segment a miss took from the writer. */
  predicate NeverTaken(s: State, steps: seq<Step>)
    requires Runs(s, steps)
    decreases |steps|
  {
    steps != [] ==> !(steps[0].Claim? && s.slot == Holds(steps[0].k)) && NeverTaken(Do(s, steps[0]), steps[1..])
  }

  predicate Untaken(s: State) {
    && !s.main.Draining?
    && (s.slot.Holds? ==>
          && s.current != s.slot && s.main != Queueing(s.slot.index) && s.slot.index < |s.segments|
          && (s.segments[s.slot.index].dirty ==> s.bad || s.main == Checking(s.slot.index)))
  }

  lemma UntakenStep(s: State, step: Step)
    requires Inv(s) && Untaken(s) && Enabled(s, step)
    requires !(step.Claim? && s.slot == Holds(step.k))
    ensures Untaken(Do(s, step))
  {
  }

  lemma {:induction false} UntakenRun(s: State, steps: seq<Step>)
    requires Inv(s) && Untaken(s) && Runs(s, steps) && NeverTaken(s, steps)
    ensures Untaken(After(s, steps))
    decreases |steps|
  {
    if steps != [] {
      InvStep(s, steps[0]);
      UntakenStep(s, steps[0]);
      UntakenRun(Do(s, steps[0]), steps[1..]);
    }
  }
}
