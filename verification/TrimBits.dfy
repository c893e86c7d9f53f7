/** The bit vector that records which 128 KiB segments are trimmed, one bit per segment. */
module TrimBits {
  function BitMask(n: nat): bv8 {
    match n % 8
    case 0 => 0x01
    case 1 => 0x02
    case 2 => 0x04
    case 3 => 0x08
    case 4 => 0x10
    case 5 => 0x20
    case 6 => 0x40
    case _ => 0x80
  }

  predicate Bit(bits: seq<bv8>, n: nat)
    requires n < 8 * |bits|
  {
    bits[n / 8] & BitMask(n) != 0
  }

  function ClearBit(bits: seq<bv8>, n: nat): (r: seq<bv8>)
    requires n < 8 * |bits|
    ensures |r| == |bits|
    ensures forall m :: 0 <= m < 8 * |bits| ==> (Bit(r, m) <==> m != n && Bit(bits, m))
  {
    bits[n / 8 := bits[n / 8] & !BitMask(n)]
  }

  function SetBit(bits: seq<bv8>, n: nat): (r: seq<bv8>)
    requires n < 8 * |bits|
    ensures |r| == |bits|
    ensures forall m :: 0 <= m < 8 * |bits| ==> (Bit(r, m) <==> m == n || Bit(bits, m))
  {
    bits[n / 8 := bits[n / 8] | BitMask(n)]
  }

  lemma FullByte(n: nat)
    ensures 0xff & BitMask(n) != 0
  {
  }

  /**
   * Sets the bits of the segments begin..end: the tail of the first byte, whole bytes in
   * bulk, then the head of the last byte.
   */
  method SetRange(bits: seq<bv8>, begin: nat, end: nat) returns (r: seq<bv8>)
    requires begin <= end <= 8 * |bits|
    ensures |r| == |bits|
    ensures forall m :: 0 <= m < 8 * |bits| ==> (Bit(r, m) <==> begin <= m < end || Bit(bits, m))
  {
    r := bits;
    var beginByte, endByte := begin / 8, end / 8;
    if beginByte == endByte {
      var bit := begin % 8;
      while bit < end % 8
        invariant begin % 8 <= bit <= end % 8 && |r| == |bits|
        invariant forall m :: 0 <= m < 8 * |bits| ==> (Bit(r, m) <==> begin <= m < 8 * beginByte + bit || Bit(bits, m))
      {
        r := SetBit(r, 8 * beginByte + bit);
        bit := bit + 1;
      }
      assert 8 * beginByte + bit == end;
    } else {
      var bit := begin % 8;
      while bit < 8
        invariant begin % 8 <= bit <= 8 && |r| == |bits|
        invariant forall m :: 0 <= m < 8 * |bits| ==> (Bit(r, m) <==> begin <= m < 8 * beginByte + bit || Bit(bits, m))
      {
        r := SetBit(r, 8 * beginByte + bit);
        bit := bit + 1;
      }
      beginByte := beginByte + 1;
      ghost var before := r;
      if beginByte < endByte {
        r := r[..beginByte] + seq(endByte - beginByte, _ => 0xff) + r[endByte..];
      }
      forall m | 0 <= m < 8 * |bits|
        ensures Bit(r, m) <==> begin <= m < 8 * endByte || Bit(bits, m)
      {
        FullByte(m);
        assert Bit(before, m) <==> begin <= m < 8 * beginByte || Bit(bits, m);
      }
      bit := 0;
      while bit < end % 8
        invariant 0 <= bit <= end % 8 && |r| == |bits|
        invariant forall m :: 0 <= m < 8 * |bits| ==> (Bit(r, m) <==> begin <= m < 8 * endByte + bit || Bit(bits, m))
      {
        r := SetBit(r, 8 * endByte + bit);
        bit := bit + 1;
      }
    }
  }
}
