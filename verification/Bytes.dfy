/** Byte strings, buffer copies and the positional read and write of a file or device. */
module Bytes {
  type byte = bv8

  const BLOCK_SIZE: nat := 512
  const SEGMENT_SIZE: nat := 131072

  /** A byte array without bounds: what a cache over a device is meant to look like. */
  type Flat = nat -> byte

  function Zeros(n: nat): (r: seq<byte>)
    ensures |r| == n
    ensures forall j :: 0 <= j < n ==> r[j] == 0
  {
    seq(n, _ => 0)
  }

  /** The buffer after copying `src` over it at index `at`. */
  function Splice(buf: seq<byte>, at: nat, src: seq<byte>): (r: seq<byte>)
    requires at + |src| <= |buf|
    ensures |r| == |buf|
    ensures forall j :: 0 <= j < |buf| ==> r[j] == if at <= j < at + |src| then src[j - at] else buf[j]
  {
    buf[..at] + src + buf[at + |src|..]
  }

  /** The byte a reader finds at offset i; past the end a cache fills in zeros. */
  function DiskAt(disk: seq<byte>, i: nat): byte {
    if i < |disk| then disk[i] else 0
  }

  /** pread: a read that reaches past the end comes back short. */
  function ReadAt(disk: seq<byte>, count: nat, offset: nat): (r: seq<byte>)
    ensures |r| <= count
    ensures offset + count <= |disk| ==> |r| == count
    ensures |r| < count ==> offset + |r| >= |disk|
    ensures forall j :: 0 <= j < |r| ==> r[j] == DiskAt(disk, offset + j)
  {
    if offset >= |disk| then []
    else if offset + count <= |disk| then disk[offset..offset + count]
    else disk[offset..]
  }

  /** pwrite: writing past the end extends the file, filling any gap with zeros. */
  function WriteAt(disk: seq<byte>, buf: seq<byte>, offset: nat): (r: seq<byte>)
    ensures forall i: nat :: DiskAt(r, i) == if offset <= i < offset + |buf| then buf[i - offset] else DiskAt(disk, i)
    ensures offset + |buf| <= |disk| ==> |r| == |disk|
    ensures buf != [] ==> offset + |buf| <= |r|
  {
    if buf == [] then disk
    else if offset + |buf| <= |disk| then Splice(disk, offset, buf)
    else if offset <= |disk| then disk[..offset] + buf
    else disk + Zeros(offset - |disk|) + buf
  }

  /** The only effect on the disk was to put `buf` at `offset`. */
  ghost predicate Wrote(disk: seq<byte>, disk': seq<byte>, buf: seq<byte>, offset: nat) {
    && (buf != [] ==> offset + |buf| <= |disk'|)
    && forall i: nat :: DiskAt(disk', i) == if offset <= i < offset + |buf| then buf[i - offset] else DiskAt(disk, i)
  }

  /** The only effect on the disk, if any, was inside offset..offset + count. */
  ghost predicate ChangedOnlyAt(disk: seq<byte>, disk': seq<byte>, offset: nat, count: nat) {
    forall i: nat :: !(offset <= i < offset + count) ==> DiskAt(disk', i) == DiskAt(disk, i)
  }

  lemma ChangedWithin(disk: seq<byte>, disk': seq<byte>, offset: nat, count: nat, more: nat)
    requires count <= more && (ChangedOnlyAt(disk, disk', offset, count) || disk' == disk)
    ensures ChangedOnlyAt(disk, disk', offset, more)
  {
  }

  /** Reading a write back and comparing finds out exactly whether it is there. */
  lemma ReadBackIff(disk: seq<byte>, disk': seq<byte>, buf: seq<byte>, offset: nat)
    requires ChangedOnlyAt(disk, disk', offset, |buf|)
    ensures ReadAt(disk', |buf|, offset) == buf <==> Wrote(disk, disk', buf, offset)
  {
    var read := ReadAt(disk', |buf|, offset);
    if read == buf {
      forall i: nat | offset <= i < offset + |buf|
        ensures DiskAt(disk', i) == buf[i - offset]
      {
        assert read[i - offset] == DiskAt(disk', i);
      }
    } else if Wrote(disk, disk', buf, offset) {
      ReadBack(disk, disk', buf, offset);
    }
  }

  lemma ReadBack(disk: seq<byte>, disk': seq<byte>, buf: seq<byte>, offset: nat)
    requires Wrote(disk, disk', buf, offset)
    ensures ReadAt(disk', |buf|, offset) == buf
  {
    if buf != [] {
      forall j | 0 <= j < |buf|
        ensures ReadAt(disk', |buf|, offset)[j] == buf[j]
      {
        assert DiskAt(disk', offset + j) == buf[j];
      }
    }
  }

  lemma AlreadyThere(disk: seq<byte>, buf: seq<byte>, offset: nat)
    requires ReadAt(disk, |buf|, offset) == buf
    ensures Wrote(disk, disk, buf, offset)
  {
    forall i: nat | offset <= i < offset + |buf|
      ensures DiskAt(disk, i) == buf[i - offset]
    {
      assert ReadAt(disk, |buf|, offset)[i - offset] == DiskAt(disk, i);
    }
  }

  /** memcpy into a buffer. */
  method CopyIn(buffer: array<byte>, at: nat, piece: seq<byte>)
    requires at + |piece| <= buffer.Length
    modifies buffer
    ensures buffer[..] == Splice(old(buffer[..]), at, piece)
  {
    forall q | 0 <= q < |piece| {
      buffer[at + q] := piece[q];
    }
  }

  /** Two byte strings agree up to some point; there the first one ends and the other goes on, or its byte is the smaller one. */
  ghost predicate ComesFirst(a: seq<byte>, b: seq<byte>) {
    exists k: nat :: SmallerAt(a, b, k)
  }

  ghost predicate SmallerAt(a: seq<byte>, b: seq<byte>, k: nat) {
    && k <= |a| && k <= |b| && a[..k] == b[..k]
    && (k == |a| < |b| || (k < |a| && k < |b| && a[k] < b[k]))
  }

  lemma SmallerBehind(a: seq<byte>, b: seq<byte>, k: nat)
    requires a != [] && b != [] && a[0] == b[0]
    ensures SmallerAt(a, b, k + 1) <==> SmallerAt(a[1..], b[1..], k)
  {
    if k + 1 <= |a| && k + 1 <= |b| {
      assert a[..k + 1] == [a[0]] + a[1..][..k] && b[..k + 1] == [b[0]] + b[1..][..k];
      assert a[1..][..k] == a[..k + 1][1..] && b[1..][..k] == b[..k + 1][1..];
    }
  }

  lemma NotAtFirst(a: seq<byte>, b: seq<byte>)
    requires a != [] && b != [] && a[0] == b[0]
    ensures !SmallerAt(a, b, 0)
  {
  }

  lemma NotLater(a: seq<byte>, b: seq<byte>, k: nat)
    requires (a == [] || b == [] || a[0] != b[0]) && k > 0
    ensures !SmallerAt(a, b, k)
  {
    if k <= |a| && k <= |b| {
      assert a[..k][0] == a[0] && b[..k][0] == b[0];
    }
  }

  lemma ComesBehind(a: seq<byte>, b: seq<byte>)
    requires a != [] && b != [] && a[0] == b[0]
    ensures ComesFirst(a, b) <==> ComesFirst(a[1..], b[1..])
  {
    hide SmallerAt;
    if ComesFirst(a[1..], b[1..]) {
      var k: nat :| SmallerAt(a[1..], b[1..], k);
      SmallerBehind(a, b, k);
    }
    if ComesFirst(a, b) {
      var k: nat :| SmallerAt(a, b, k);
      NotAtFirst(a, b);
      SmallerBehind(a, b, k - 1);
    }
  }

  lemma ComesAtOnce(a: seq<byte>, b: seq<byte>)
    requires a == [] || b == [] || a[0] != b[0]
    ensures ComesFirst(a, b) <==> b != [] && (a == [] || a[0] < b[0])
  {
    assert a[..0] == b[..0];
    forall k: nat | k > 0
      ensures !SmallerAt(a, b, k)
    {
      NotLater(a, b, k);
    }
    assert SmallerAt(a, b, 0) <==> b != [] && (a == [] || a[0] < b[0]);
  }
}
