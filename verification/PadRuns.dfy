/** Whole runs of the padding writer: the output depends on the bytes given, not on how they were cut. */
module PadRuns {
  import opened Bytes
  import opened CacheModel
  import opened BlockCaching
  import opened PadModel
  import opened PadWriter

  datatype Call = Call(at: nat, buf: seq<byte>)

  /** The bytes a list of calls gives, by destination offset. */
  function GivenBy(calls: seq<Call>): Given {
    if calls == [] then Nothing() else Give(GivenBy(calls[..|calls| - 1]), calls[|calls| - 1].at, calls[|calls| - 1].buf)
  }

  /** Non-empty writes, each starting where the one before ended or later. */
  predicate Forward(calls: seq<Call>) {
    && (forall k :: 0 <= k < |calls| ==> calls[k].buf != [])
    && forall k :: 0 < k < |calls| ==> calls[k - 1].at + |calls[k - 1].buf| <= calls[k].at
  }

  /** The output after a flush: every touched block padded and sealed, everything else as before. */
  ghost predicate Finished(p: Progress, base: Flat, given: Given, seal: Seal) {
    && (forall i: nat :: p.now(i) == Expect(base, given, seal, i))
    && Sorted(p.emitted)
    && (forall n: nat :: n in p.emitted <==> Touched(given, n))
  }

  lemma FlushedIsFinished(p: Progress, seal: Seal, buffer: seq<byte>, offset: nat, given: Given)
    requires PadOk(p, seal, buffer, 0, offset) && forall i: nat :: p.given(i) == given(i)
    ensures Finished(p, p.base, given, seal)
  {
    forall n: nat
      ensures Touched(p.given, n) <==> Touched(given, n)
      ensures PaddedBlock(p.given, n) == PaddedBlock(given, n)
    {
      SameTouched(p.given, given, n);
    }
  }

  lemma SameTouched(given: Given, given': Given, n: nat)
    requires forall i: nat :: given(i) == given'(i)
    ensures Touched(given, n) <==> Touched(given', n)
    ensures PaddedBlock(given, n) == PaddedBlock(given', n)
  {
    if Touched(given, n) {
      var i: nat :| given(i).Set? && i / BLOCK_SIZE == n;
      assert given'(i).Set?;
    }
    if Touched(given', n) {
      var i: nat :| given'(i).Set? && i / BLOCK_SIZE == n;
      assert given(i).Set?;
    }
  }

  /** ptbw_init, any forward-moving writes, ptbw_flush. */
  method WriteAll(output: BlockCache, dc: Crypto, calls: seq<Call>, ghost flat: Flat) returns (ok: bool, ghost p: Progress)
    requires output.Valid() && Agrees(output.State(), flat) && Forward(calls)
    requires dc.Sealed? ==> dc.session.baseOffset % BLOCK_SIZE == 0
    requires forall k :: 0 <= k < |calls| ==> Fits(output, dc, calls[k])
    modifies output
    ensures ok <==> output.faults == old(output.faults)
    ensures ok ==> output.Valid() && Agrees(output.State(), p.now) && Finished(p, flat, GivenBy(calls), SealOf(dc))
  {
    hide PadOk, Agrees, BlockCache.Valid, Finished;
    var w := new PadToBlockWriter(output, dc, flat);
    p := w.progress;
    ok := true;
    var k := 0;
    while k < |calls|
      invariant 0 <= k <= |calls| && ok && output.faults == old(output.faults) && fresh(w) && fresh(w.buffer)
      invariant w.output == output && w.dc == dc && w.Valid() && (w.index > 0 ==> w.Room(w.offset, w.offset + BLOCK_SIZE))
      invariant w.NextAllowed() == if k == 0 then 0 else calls[k - 1].at + |calls[k - 1].buf|
      invariant w.progress.base == flat && forall i: nat :: w.progress.given(i) == GivenBy(calls[..k])(i)
      invariant output.trimmedEndOffset == old(output.trimmedEndOffset) && output.MediaLimit() == old(output.MediaLimit())
    {
      assert Fits(output, dc, calls[k]);
      ok := w.Pwrite(calls[k].buf, calls[k].at);
      if !ok {
        return;
      }
      assert calls[..k + 1][..k] == calls[..k];
      k := k + 1;
    }
    assert calls[..k] == calls;
    ok := w.Flush();
    if ok {
      p := w.progress;
      FlushedIsFinished(p, SealOf(dc), w.buffer[..], w.offset, GivenBy(calls));
    }
  }

  /** There is room for the blocks of a call, and encryption knows their numbers. */
  ghost predicate Fits(output: BlockCache, dc: Crypto, c: Call)
    reads output`trimmedEndOffset, output`endOffset, output`isSoftEndOffset
  {
    && RoundUp(c.at + |c.buf|) <= output.trimmedEndOffset && Inside(output.MediaLimit(), RoundUp(c.at + |c.buf|))
    && (dc.Sealed? ==> dc.session.baseOffset <= c.at - c.at % BLOCK_SIZE)
  }

  /** Two ways of cutting the same stream leave the same output and write the same blocks in the same order. */
  lemma CuttingDoesNotMatter(p: Progress, p': Progress, base: Flat, calls: seq<Call>, calls': seq<Call>, seal: Seal)
    requires Finished(p, base, GivenBy(calls), seal) && Finished(p', base, GivenBy(calls'), seal)
    requires forall i: nat :: GivenBy(calls)(i) == GivenBy(calls')(i)
    ensures forall i: nat :: p.now(i) == p'.now(i)
    ensures p.emitted == p'.emitted
  {
    forall n: nat
      ensures Touched(GivenBy(calls), n) <==> Touched(GivenBy(calls'), n)
      ensures PaddedBlock(GivenBy(calls), n) == PaddedBlock(GivenBy(calls'), n)
    {
      SameTouched(GivenBy(calls), GivenBy(calls'), n);
    }
    Increasing(p.emitted, p'.emitted);
  }

  ghost predicate Sorted(s: seq<nat>) {
    forall a, b :: 0 <= a < b < |s| ==> s[a] < s[b]
  }

  lemma WithoutLast(s: seq<nat>, n: nat)
    requires Sorted(s) && s != []
    ensures Sorted(s[..|s| - 1]) && s == s[..|s| - 1] + [s[|s| - 1]]
    ensures n in s[..|s| - 1] <==> n in s && n != s[|s| - 1]
    ensures n in s ==> n <= s[|s| - 1]
  {
  }

  lemma {:induction false} Increasing(s: seq<nat>, t: seq<nat>)
    requires Sorted(s) && Sorted(t) && forall n: nat :: n in s <==> n in t
    ensures s == t
  {
    hide Sorted;
    assert t != [] ==> t[0] in s;
    assert s != [] ==> s[0] in t;
    if s != [] {
      var m, n := s[|s| - 1], t[|t| - 1];
      WithoutLast(s, n);
      WithoutLast(t, m);
      assert m in t && n in s;
      var s', t' := s[..|s| - 1], t[..|t| - 1];
      forall k: nat
        ensures k in s' <==> k in t'
      {
        WithoutLast(s, k);
        WithoutLast(t, k);
      }
      Increasing(s', t');
    }
  }
}
