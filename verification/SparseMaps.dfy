/** Maps of files with holes: the lengths of data and hole segments in turn, data first. */
module SparseMaps {
  import opened Bytes

  type SparseMap = seq<nat>

  predicate InHole(ix: nat) {
    ix % 2 == 1
  }

  /** The file offset at which segment `ix` starts. */
  function Start(sm: SparseMap, ix: nat): nat
    requires ix <= |sm|
  {
    if ix == 0 then 0 else Start(sm, ix - 1) + sm[ix - 1]
  }

  /** The data bytes in the segments before `ix`. */
  function Packed(sm: SparseMap, ix: nat): nat
    requires ix <= |sm|
  {
    if ix == 0 then 0 else Packed(sm, ix - 1) + if InHole(ix - 1) then 0 else sm[ix - 1]
  }

  /** Offset f of the file lies in segment ix. */
  predicate In(sm: SparseMap, ix: nat, f: nat) {
    ix < |sm| && Start(sm, ix) <= f < Start(sm, ix + 1)
  }

  /** Offset f of the file lies in some data segment. */
  ghost predicate InData(sm: SparseMap, f: nat) {
    exists ix: nat :: !InHole(ix) && In(sm, ix, f)
  }

  /** How many data bytes the file has before offset f. */
  ghost function Rank(sm: SparseMap, f: nat): (r: nat)
    ensures r <= f
  {
    if f == 0 then 0 else Rank(sm, f - 1) + if InData(sm, f - 1) then 1 else 0
  }

  /** The bytes of `s` before offset n that the map calls data, in order. */
  ghost function Select(sm: SparseMap, s: seq<byte>, n: nat): (r: seq<byte>)
    requires n <= |s|
  {
    if n == 0 then [] else Select(sm, s, n - 1) + if InData(sm, n - 1) then [s[n - 1]] else []
  }

  lemma {:induction false} StartMonotone(sm: SparseMap, ix: nat, jx: nat)
    requires ix <= jx <= |sm|
    ensures Start(sm, ix) <= Start(sm, jx) && Packed(sm, ix) <= Packed(sm, jx)
  {
    if ix < jx {
      StartMonotone(sm, ix, jx - 1);
    }
  }

  lemma OneSegment(sm: SparseMap, ix: nat, jx: nat, f: nat)
    requires In(sm, ix, f) && In(sm, jx, f)
    ensures ix == jx
  {
    if ix < jx {
      StartMonotone(sm, ix + 1, jx);
    } else if jx < ix {
      StartMonotone(sm, jx + 1, ix);
    }
  }

  lemma InDataAt(sm: SparseMap, ix: nat, f: nat)
    requires In(sm, ix, f)
    ensures InData(sm, f) <==> !InHole(ix)
  {
    if InData(sm, f) {
      var jx: nat :| !InHole(jx) && In(sm, jx, f);
      OneSegment(sm, ix, jx, f);
    }
  }

  lemma NoDataPastEnd(sm: SparseMap, f: nat)
    requires f >= Start(sm, |sm|)
    ensures !InData(sm, f)
  {
    if InData(sm, f) {
      var ix: nat :| !InHole(ix) && In(sm, ix, f);
      StartMonotone(sm, ix + 1, |sm|);
    }
  }

  /** Inside a segment the rank grows with the offset in data and stands still in a hole. */
  lemma {:induction false} RankAt(sm: SparseMap, ix: nat, d: nat)
    requires ix < |sm| && d <= sm[ix]
    ensures Rank(sm, Start(sm, ix) + d) == Packed(sm, ix) + if InHole(ix) then 0 else d
    decreases ix, d
  {
    if d > 0 {
      RankAt(sm, ix, d - 1);
      InDataAt(sm, ix, Start(sm, ix) + d - 1);
    } else if ix > 0 {
      RankAt(sm, ix - 1, sm[ix - 1]);
    }
  }

  lemma {:induction false} RankAtStart(sm: SparseMap, ix: nat)
    requires ix <= |sm|
    ensures Rank(sm, Start(sm, ix)) == Packed(sm, ix)
  {
    if ix > 0 {
      RankAt(sm, ix - 1, sm[ix - 1]);
    }
  }

  lemma {:induction false} RankMonotone(sm: SparseMap, f: nat, g: nat)
    requires f <= g
    ensures Rank(sm, f) <= Rank(sm, g)
    ensures f < g && InData(sm, f) ==> Rank(sm, f) < Rank(sm, g)
  {
    if f < g {
      RankMonotone(sm, f, g - 1);
    }
  }

  /** Every data byte has its own place among the packed bytes: ranks of data offsets fill 0..DataSize. */
  lemma {:induction false} RankFills(sm: SparseMap, k: nat, f: nat) returns (g: nat)
    requires k < Rank(sm, f)
    ensures g < f && InData(sm, g) && Rank(sm, g) == k
  {
    if InData(sm, f - 1) && Rank(sm, f - 1) == k {
      g := f - 1;
    } else {
      g := RankFills(sm, k, f - 1);
    }
  }

  lemma {:induction false} SelectByRank(sm: SparseMap, s: seq<byte>, n: nat, f: nat)
    requires f <= n <= |s|
    ensures |Select(sm, s, n)| == Rank(sm, n) && Rank(sm, f) <= Rank(sm, n)
    ensures f < n && InData(sm, f) ==> Rank(sm, f) < Rank(sm, n) && Select(sm, s, n)[Rank(sm, f)] == s[f]
  {
    if n > 0 {
      SelectByRank(sm, s, n - 1, if f < n then f else n - 1);
    }
  }

  lemma {:induction false} SelectNone(sm: SparseMap, s: seq<byte>, from: nat, to: nat)
    requires from <= to <= |s| && forall f: nat :: from <= f < to ==> !InData(sm, f)
    ensures Select(sm, s, to) == Select(sm, s, from)
  {
    if from < to {
      SelectNone(sm, s, from, to - 1);
    }
  }

  lemma {:induction false} SelectAll(sm: SparseMap, s: seq<byte>, from: nat, to: nat)
    requires from <= to <= |s| && forall f: nat :: from <= f < to ==> InData(sm, f)
    ensures Select(sm, s, to) == Select(sm, s, from) + s[from..to]
  {
    if from < to {
      SelectAll(sm, s, from, to - 1);
      assert s[from..to] == s[from..to - 1] + [s[to - 1]];
    } else {
      assert s[from..to] == [];
    }
  }

  /** sparse_file_size: where the file ends. */
  method FileSize(sm: SparseMap) returns (size: nat)
    ensures size == Start(sm, |sm|)
    ensures forall f: nat :: InData(sm, f) ==> f < size
  {
    size := 0;
    var i := 0;
    while i < |sm|
      invariant 0 <= i <= |sm| && size == Start(sm, i)
    {
      size := size + sm[i];
      i := i + 1;
    }
    forall f: nat | InData(sm, f)
      ensures f < size
    {
      if f >= size {
        NoDataPastEnd(sm, f);
      }
    }
  }

  /** sparse_file_data_size: how many data bytes there are in the whole file. */
  method DataSize(sm: SparseMap) returns (size: nat)
    ensures size == Packed(sm, |sm|) == Rank(sm, Start(sm, |sm|))
  {
    size := 0;
    var i := 0;
    while i < |sm|
      invariant 0 <= i <= |sm| + 1 && !InHole(i)
      invariant size == Packed(sm, if i <= |sm| then i else |sm|)
    {
      size := size + sm[i];
      i := i + 2;
    }
    RankAtStart(sm, |sm|);
  }

  /** sparse_ending_hole_size: the bytes after the last data segment. */
  method EndingHole(sm: SparseMap) returns (size: nat)
    requires sm != []
    ensures size <= Start(sm, |sm|)
    ensures forall f: nat :: Start(sm, |sm|) - size <= f ==> !InData(sm, f)
    ensures |sm| % 2 == 1 ==> size == 0
    ensures |sm| % 2 == 0 ==> Start(sm, |sm|) - size == Start(sm, |sm| - 1)
  {
    size := if |sm| % 2 == 0 then sm[|sm| - 1] else 0;
    forall f: nat | Start(sm, |sm|) - size <= f
      ensures !InData(sm, f)
    {
      if f >= Start(sm, |sm|) {
        NoDataPastEnd(sm, f);
      } else {
        InDataAt(sm, |sm| - 1, f);
      }
    }
  }
}
