/** Per-block dirty and valid bits of a cache segment, packed four blocks to a byte. */
module SegmentFlags {
  const BLOCKS_PER_SEGMENT: nat := 256
  const FLAG_BYTES: nat := 64

  /** The dirty bit of a block inside its flag byte: 1 << (2 * (block & 3)). */
  function DirtyMask(block: nat): bv8 {
    match block % 4
    case 0 => 0x01
    case 1 => 0x04
    case 2 => 0x10
    case _ => 0x40
  }

  /** The valid bit of a block inside its flag byte: 2 << (2 * (block & 3)). */
  function ValidMask(block: nat): bv8 {
    match block % 4
    case 0 => 0x02
    case 1 => 0x08
    case 2 => 0x20
    case _ => 0x80
  }

  predicate IsDirty(flags: seq<bv8>, block: nat)
    requires |flags| == FLAG_BYTES && block < BLOCKS_PER_SEGMENT
  {
    flags[block / 4] & DirtyMask(block) != 0
  }

  predicate IsValid(flags: seq<bv8>, block: nat)
    requires |flags| == FLAG_BYTES && block < BLOCKS_PER_SEGMENT
  {
    flags[block / 4] & ValidMask(block) != 0
  }

  function SetValid(flags: seq<bv8>, block: nat): (r: seq<bv8>)
    requires |flags| == FLAG_BYTES && block < BLOCKS_PER_SEGMENT
    ensures |r| == FLAG_BYTES
    ensures forall b :: 0 <= b < BLOCKS_PER_SEGMENT ==> (IsValid(r, b) <==> b == block || IsValid(flags, b))
    ensures forall b :: 0 <= b < BLOCKS_PER_SEGMENT ==> (IsDirty(r, b) <==> IsDirty(flags, b))
  {
    flags[block / 4 := flags[block / 4] | ValidMask(block)]
  }

  /** A dirty block is valid too, so both bits are set at once. */
  function SetDirty(flags: seq<bv8>, block: nat): (r: seq<bv8>)
    requires |flags| == FLAG_BYTES && block < BLOCKS_PER_SEGMENT
    ensures |r| == FLAG_BYTES
    ensures forall b :: 0 <= b < BLOCKS_PER_SEGMENT ==> (IsValid(r, b) <==> b == block || IsValid(flags, b))
    ensures forall b :: 0 <= b < BLOCKS_PER_SEGMENT ==> (IsDirty(r, b) <==> b == block || IsDirty(flags, b))
  {
    flags[block / 4 := flags[block / 4] | DirtyMask(block) | ValidMask(block)]
  }

  /** The 64 bytes 0xaa that stand for "every block valid, none dirty". */
  function AllValid(): (r: seq<bv8>)
    ensures |r| == FLAG_BYTES
    ensures forall b :: 0 <= b < BLOCKS_PER_SEGMENT ==> IsValid(r, b) && !IsDirty(r, b)
  {
    seq(FLAG_BYTES, _ => 0xaa)
  }

  /** The zeroed flags of a segment that has just been claimed. */
  function NoneValid(): (r: seq<bv8>)
    ensures |r| == FLAG_BYTES
    ensures forall b :: 0 <= b < BLOCKS_PER_SEGMENT ==> !IsValid(r, b) && !IsDirty(r, b)
  {
    seq(FLAG_BYTES, _ => 0)
  }

  method ClearAllDirty(flags: seq<bv8>) returns (r: seq<bv8>)
    requires |flags| == FLAG_BYTES
    ensures |r| == FLAG_BYTES
    ensures forall b :: 0 <= b < BLOCKS_PER_SEGMENT ==> !IsDirty(r, b)
    ensures forall b :: 0 <= b < BLOCKS_PER_SEGMENT ==> (IsValid(r, b) <==> IsValid(flags, b))
  {
    r := flags;
    var i := 0;
    while i < FLAG_BYTES
      invariant 0 <= i <= FLAG_BYTES && |r| == FLAG_BYTES
      invariant forall k :: 0 <= k < i ==> r[k] == flags[k] & 0xaa
      invariant forall k :: i <= k < FLAG_BYTES ==> r[k] == flags[k]
    {
      r := r[i := r[i] & 0xaa];
      i := i + 1;
    }
    forall b | 0 <= b < BLOCKS_PER_SEGMENT
      ensures !IsDirty(r, b) && (IsValid(r, b) <==> IsValid(flags, b))
    {
      MaskedByte(flags[b / 4], b);
    }
  }

  lemma MaskedByte(x: bv8, b: nat)
    ensures (x & 0xaa) & DirtyMask(b) == 0
    ensures (x & 0xaa) & ValidMask(b) == x & ValidMask(b)
  {
  }

  method IsSegmentDirty(flags: seq<bv8>) returns (dirty: bool)
    requires |flags| == FLAG_BYTES
    ensures dirty <==> exists b :: 0 <= b < BLOCKS_PER_SEGMENT && IsDirty(flags, b)
  {
    var orflags: bv8 := 0;
    var i := 0;
    while i < FLAG_BYTES
      invariant 0 <= i <= FLAG_BYTES
      invariant orflags & 0x55 != 0 <==> exists k :: 0 <= k < i && flags[k] & 0x55 != 0
    {
      OrNonzero(orflags, flags[i], 0x55);
      orflags := orflags | flags[i];
      i := i + 1;
    }
    dirty := orflags & 0x55 != 0;
    if dirty {
      var k :| 0 <= k < FLAG_BYTES && flags[k] & 0x55 != 0;
      var j := DirtyBitOf(flags[k]);
      assert IsDirty(flags, 4 * k + j);
    } else {
      forall b | 0 <= b < BLOCKS_PER_SEGMENT
        ensures !IsDirty(flags, b)
      {
        assert flags[b / 4] & 0x55 == 0;
        NoDirtyBit(flags[b / 4], b);
      }
    }
  }

  lemma OrNonzero(x: bv8, y: bv8, m: bv8)
    ensures (x | y) & m != 0 <==> x & m != 0 || y & m != 0
  {
    assert (x | y) & m == (x & m) | (y & m);
  }

  lemma NoDirtyBit(x: bv8, b: nat)
    requires x & 0x55 == 0
    ensures x & DirtyMask(b) == 0
  {
  }

  lemma DirtyBitOf(x: bv8) returns (j: nat)
    requires x & 0x55 != 0
    ensures j < 4 && x & DirtyMask(j) != 0
  {
    j := if x & 0x01 != 0 then 0 else if x & 0x04 != 0 then 1 else if x & 0x10 != 0 then 2 else 3;
  }

  method IsSegmentCompletelyDirty(flags: seq<bv8>) returns (all: bool)
    requires |flags| == FLAG_BYTES
    ensures all <==> forall b :: 0 <= b < BLOCKS_PER_SEGMENT ==> IsDirty(flags, b)
  {
    var andflags: bv8 := 0x55;
    var i := 0;
    while i < FLAG_BYTES
      invariant 0 <= i <= FLAG_BYTES
      invariant andflags & 0x55 == andflags
      invariant andflags == 0x55 <==> forall k :: 0 <= k < i ==> flags[k] & 0x55 == 0x55
    {
      AndFull(andflags, flags[i], 0x55);
      andflags := andflags & flags[i];
      i := i + 1;
    }
    all := andflags == 0x55;
    if all {
      forall b | 0 <= b < BLOCKS_PER_SEGMENT
        ensures IsDirty(flags, b)
      {
        assert flags[b / 4] & 0x55 == 0x55;
        FullDirtyBit(flags[b / 4], b);
      }
    } else {
      var k :| 0 <= k < FLAG_BYTES && flags[k] & 0x55 != 0x55;
      var j := CleanBitOf(flags[k]);
      assert !IsDirty(flags, 4 * k + j);
    }
  }

  lemma AndFull(x: bv8, y: bv8, m: bv8)
    requires x & m == x
    ensures (x & y) & m == x & y
    ensures x & y == m <==> x == m && y & m == m
  {
    assert (x & y) & m == (x & m) & y;
  }

  lemma FullDirtyBit(x: bv8, b: nat)
    requires x & 0x55 == 0x55
    ensures x & DirtyMask(b) != 0
  {
  }

  lemma CleanBitOf(x: bv8) returns (j: nat)
    requires x & 0x55 != 0x55
    ensures j < 4 && x & DirtyMask(j) == 0
  {
    j := if x & 0x01 == 0 then 0 else if x & 0x04 == 0 then 1 else if x & 0x10 == 0 then 2 else 3;
  }

  method CheckSegmentValidity(flags: seq<bv8>) returns (allValid: bool, allInvalid: bool)
    requires |flags| == FLAG_BYTES
    ensures allValid <==> forall b :: 0 <= b < BLOCKS_PER_SEGMENT ==> IsValid(flags, b)
    ensures allInvalid <==> forall b :: 0 <= b < BLOCKS_PER_SEGMENT ==> !IsValid(flags, b)
  {
    var andflags: bv8 := 0xaa;
    var orflags: bv8 := 0;
    var i := 0;
    while i < FLAG_BYTES
      invariant 0 <= i <= FLAG_BYTES
      invariant andflags & 0xaa == andflags
      invariant andflags == 0xaa <==> forall k :: 0 <= k < i ==> flags[k] & 0xaa == 0xaa
      invariant orflags & 0xaa == 0 <==> forall k :: 0 <= k < i ==> flags[k] & 0xaa == 0
    {
      AndFull(andflags, flags[i], 0xaa);
      OrNonzero(orflags, flags[i], 0xaa);
      andflags := andflags & flags[i];
      orflags := orflags | flags[i];
      i := i + 1;
    }
    allValid := andflags == 0xaa;
    allInvalid := orflags & 0xaa == 0;
    AllBytesValid(flags);
    NoByteValid(flags);
  }

  lemma AllBytesValid(flags: seq<bv8>)
    requires |flags| == FLAG_BYTES
    ensures (forall k :: 0 <= k < FLAG_BYTES ==> flags[k] & 0xaa == 0xaa) <==> (forall b :: 0 <= b < BLOCKS_PER_SEGMENT ==> IsValid(flags, b))
  {
    if forall k :: 0 <= k < FLAG_BYTES ==> flags[k] & 0xaa == 0xaa {
      forall b | 0 <= b < BLOCKS_PER_SEGMENT
        ensures IsValid(flags, b)
      {
        assert flags[b / 4] & 0xaa == 0xaa;
        ValidBits(flags[b / 4], b);
      }
    } else {
      var k :| 0 <= k < FLAG_BYTES && flags[k] & 0xaa != 0xaa;
      var j := InvalidBitOf(flags[k]);
      assert !IsValid(flags, 4 * k + j);
    }
  }

  lemma NoByteValid(flags: seq<bv8>)
    requires |flags| == FLAG_BYTES
    ensures (forall k :: 0 <= k < FLAG_BYTES ==> flags[k] & 0xaa == 0) <==> (forall b :: 0 <= b < BLOCKS_PER_SEGMENT ==> !IsValid(flags, b))
  {
    if forall k :: 0 <= k < FLAG_BYTES ==> flags[k] & 0xaa == 0 {
      forall b | 0 <= b < BLOCKS_PER_SEGMENT
        ensures !IsValid(flags, b)
      {
        assert flags[b / 4] & 0xaa == 0;
        ValidBits(flags[b / 4], b);
      }
    } else {
      var k :| 0 <= k < FLAG_BYTES && flags[k] & 0xaa != 0;
      var j := ValidBitOf(flags[k]);
      assert IsValid(flags, 4 * k + j);
    }
  }

  lemma ValidBits(x: bv8, b: nat)
    ensures x & 0xaa == 0xaa ==> x & ValidMask(b) != 0
    ensures x & 0xaa == 0 ==> x & ValidMask(b) == 0
  {
  }

  lemma InvalidBitOf(x: bv8) returns (j: nat)
    requires x & 0xaa != 0xaa
    ensures j < 4 && x & ValidMask(j) == 0
  {
    j := if x & 0x02 == 0 then 0 else if x & 0x08 == 0 then 1 else if x & 0x20 == 0 then 2 else 3;
  }

  lemma ValidBitOf(x: bv8) returns (j: nat)
    requires x & 0xaa != 0
    ensures j < 4 && x & ValidMask(j) != 0
  {
    j := if x & 0x02 != 0 then 0 else if x & 0x08 != 0 then 1 else if x & 0x20 != 0 then 2 else 3;
  }
}
