/** The variable-length integers of VCDIFF: base 128, most significant digit first, the high bit set on all but the last byte. */
module VcdiffInts {
  /** A byte as a number. */
  type octet = x: nat | x < 256

  const LIMIT32: nat := 0x1_0000_0000
  const LIMIT64: nat := 0x1_0000_0000_0000_0000

  predicate Width(limit: nat) {
    limit == LIMIT32 || limit == LIMIT64
  }

  /** The overflow mask covers exactly the seven bits that the next digit would push out. */
  lemma Mask32(part: bv32, next: bv32)
    ensures part & 0xFE00_0000 != 0 <==> part >= 0x0200_0000
    ensures part & 0xFE00_0000 == 0 ==> (part << 7) | (next & 127) == part * 128 + (next & 127)
  {
  }

  lemma Mask64(part: bv64, next: bv64)
    ensures part & 0xFE00_0000_0000_0000 != 0 <==> part >= 0x0200_0000_0000_0000
    ensures part & 0xFE00_0000_0000_0000 == 0 ==> (part << 7) | (next & 127) == part * 128 + (next & 127)
  {
  }

  predicate Last(b: octet) {
    b < 128
  }

  /** The number that digits denote. */
  function Digits(s: seq<octet>): nat {
    if s == [] then 0 else Digits(s[..|s| - 1]) * 128 + s[|s| - 1] % 128
  }

  /** The length of the integer at the front: up to its last byte, or everything if that is still to come. */
  function Extent(s: seq<octet>): (n: nat)
    ensures n <= |s| && (forall k :: 0 <= k < n - 1 ==> !Last(s[k]))
    ensures n < |s| ==> n > 0 && Last(s[n - 1])
  {
    if s == [] then 0 else if Last(s[0]) then 1 else 1 + Extent(s[1..])
  }

  datatype Outcome = Done(value: nat, consumed: nat) | More | Invalid

  /** What reading an integer at the front of s means: its value if it fits, or more input is needed. */
  function Meaning(s: seq<octet>, limit: nat): Outcome {
    var n := Extent(s);
    if Digits(s[..n]) >= limit then Invalid
    else if n > 0 && Last(s[n - 1]) then Done(Digits(s[..n]), n)
    else More
  }

  lemma {:induction false} ExtentIs(s: seq<octet>, n: nat)
    requires n <= |s| && (forall k :: 0 <= k < n - 1 ==> !Last(s[k]))
    requires n == |s| || (n > 0 && Last(s[n - 1]))
    ensures Extent(s) == n
  {
    if n > 1 {
      ExtentIs(s[1..], n - 1);
    }
  }

  lemma {:induction false} DigitsGrow(s: seq<octet>, k: nat)
    requires k <= |s|
    ensures Digits(s[..k]) <= Digits(s)
    ensures k < |s| ==> Digits(s[..k]) * 128 <= Digits(s)
  {
    if k < |s| {
      DigitsGrow(s[..|s| - 1], k);
      assert s[..|s| - 1][..k] == s[..k];
    } else {
      assert s[..k] == s;
    }
  }

  /** A prefix that is already too large for one more digit makes the whole integer too large. */
  lemma TooLarge(s: seq<octet>, k: nat, limit: nat)
    requires k < |s| && (forall j :: 0 <= j < k ==> !Last(s[j])) && Digits(s[..k]) * 128 >= limit
    ensures Meaning(s, limit) == Invalid
  {
    var n := Extent(s);
    assert n > k;
    DigitsGrow(s[..n], k);
    assert s[..n][..k] == s[..k];
  }

  /** The mask test is exact: one more digit fits if and only if the top seven bits are clear. */
  lemma OneMoreFits(part: nat, digit: nat, limit: nat)
    requires Width(limit) && digit < 128
    ensures part < limit / 128 <==> part * 128 + digit < limit
    ensures part >= limit / 128 <==> part * 128 >= limit
  {
  }

  lemma NextDigit(s: seq<octet>, k: nat)
    requires k < |s|
    ensures Digits(s[..k + 1]) == Digits(s[..k]) * 128 + s[k] % 128
  {
    assert s[..k + 1][..k] == s[..k];
  }

  lemma Complete(s: seq<octet>, n: nat, limit: nat)
    requires 0 < n <= |s| && (forall k :: 0 <= k < n - 1 ==> !Last(s[k])) && Last(s[n - 1]) && Digits(s[..n]) < limit
    ensures Meaning(s, limit) == Done(Digits(s[..n]), n)
  {
    hide Digits;
    ExtentIs(s, n);
  }

  lemma RanOut(s: seq<octet>, limit: nat)
    requires (forall k :: 0 <= k < |s| ==> !Last(s[k])) && Digits(s) < limit
    ensures Meaning(s, limit) == More
  {
    hide Digits;
    ExtentIs(s, |s|);
    assert s[..|s|] == s;
  }

  /** READ_INTEGER_TYPE: the whole integer must be there and fit. */
  method ReadInteger(input: seq<octet>, limit: nat) returns (ok: bool, value: nat, consumed: nat)
    requires Width(limit)
    ensures Meaning(input, limit) == Done(value, consumed) <==> ok
    ensures ok <==> Meaning(input, limit).Done?
  {
    hide Digits;
    value, consumed := 0, 0;
    DigitsNone(input);
    while true
      invariant consumed <= |input| && value == Digits(input[..consumed]) < limit
      invariant forall k :: 0 <= k < consumed ==> !Last(input[k])
      decreases |input| - consumed
    {
      if consumed == |input| {
        ExtentIs(input, consumed);
        return false, 0, 0;
      }
      if value >= limit / 128 {
        TooLarge(input, consumed, limit);
        return false, 0, 0;
      }
      NextDigit(input, consumed);
      value := value * 128 + input[consumed] % 128;
      consumed := consumed + 1;
      if Last(input[consumed - 1]) {
        break;
      }
    }
    ExtentIs(input, consumed);
    ok := true;
  }

  lemma DigitsNone(s: seq<octet>)
    ensures Digits(s[..0]) == 0
  {
  }

  datatype Decoded = Value(value: nat) | NeedInput | BadInput

  function AsDecoded(m: Outcome): Decoded {
    match m
    case Done(v, _) => Value(v)
    case More => NeedInput
    case Invalid => BadInput
  }

  /** The decoder's stream: what is left of the input, and the part of an integer seen so far. */
  class Stream {
    var nextIn: seq<octet>
    var totalIn: nat
    var decPart: nat
    ghost var seen: seq<octet>

    ghost predicate Between(limit: nat)
      reads this
    {
      decPart == Digits(seen) < limit && forall k :: 0 <= k < |seen| ==> !Last(seen[k])
    }

    constructor ()
      ensures nextIn == [] && totalIn == 0 && decPart == 0 && seen == []
    {
      nextIn := [];
      totalIn := 0;
      decPart := 0;
      seen := [];
    }

    /** DECODE_INTEGER_TYPE: goes on where the last call ran out of input. */
    method DecodeInteger(limit: nat) returns (r: Decoded)
      requires Width(limit) && Between(limit)
      modifies this
      ensures r == AsDecoded(Meaning(old(seen + nextIn), limit))
      ensures r.Value? ==> |old(seen)| + totalIn - old(totalIn) == Meaning(old(seen + nextIn), limit).consumed
      ensures totalIn >= old(totalIn) && totalIn - old(totalIn) <= |old(nextIn)| && nextIn == old(nextIn)[totalIn - old(totalIn)..]
      ensures r.Value? ==> Between(limit) && seen == []
      ensures r.NeedInput? ==> Between(limit) && nextIn == [] && seen == old(seen + nextIn)
    {
      hide Digits, Meaning, Last, Width;
      ghost var first, input := seen, nextIn;
      while nextIn != []
        invariant Between(limit) && |first| <= |seen| && totalIn == old(totalIn) + |seen| - |first|
        invariant first + input == seen + nextIn
        decreases |nextIn|
      {
        var next := nextIn[0];
        Onward(seen, nextIn);
        Behind(first, input, seen + [next], nextIn[1..]);
        OneMoreFits(decPart, next % 128, limit);
        totalIn := totalIn + 1;
        nextIn := nextIn[1..];
        if decPart >= limit / 128 {
          Overflown(seen, next, nextIn, limit);
          return BadInput;
        }
        decPart := decPart * 128 + next % 128;
        seen := seen + [next];
        if Last(next) {
          Whole(seen, nextIn, limit);
          r := Value(decPart);
          decPart := 0;
          seen := [];
          NoDigits();
          return;
        }
      }
      Behind(first, input, seen, nextIn);
      assert seen + nextIn == seen;
      RanOut(seen, limit);
      r := NeedInput;
    }

    static lemma Onward(s: seq<octet>, t: seq<octet>)
      requires t != []
      ensures s + t == (s + [t[0]]) + t[1..] && Digits(s + [t[0]]) == Digits(s) * 128 + t[0] % 128
    {
    }

    /** The same whole cut later. */
    static lemma Behind(s: seq<octet>, t: seq<octet>, u: seq<octet>, v: seq<octet>)
      requires s + t == u + v && |s| <= |u|
      ensures |u| - |s| <= |t| && v == t[|u| - |s|..]
    {
      assert (s + t)[|u|..] == t[|u| - |s|..] && (u + v)[|u|..] == v;
    }

    static lemma Overflown(s: seq<octet>, b: octet, rest: seq<octet>, limit: nat)
      requires (forall k :: 0 <= k < |s| ==> !Last(s[k])) && Digits(s) * 128 >= limit
      ensures Meaning(s + [b] + rest, limit) == Invalid
    {
      hide Meaning, Digits;
      assert (s + [b] + rest)[..|s|] == s;
      TooLarge(s + [b] + rest, |s|, limit);
    }

    static lemma Whole(s: seq<octet>, rest: seq<octet>, limit: nat)
      requires s != [] && (forall k :: 0 <= k < |s| - 1 ==> !Last(s[k])) && Last(s[|s| - 1]) && Digits(s) < limit
      ensures Meaning(s + rest, limit) == Done(Digits(s), |s|)
    {
      hide Meaning, Digits;
      assert (s + rest)[..|s|] == s;
      Complete(s + rest, |s|, limit);
    }

    lemma NoDigits()
      ensures Digits([]) == 0
    {
    }
  }

  function Concat(chunks: seq<seq<octet>>): seq<octet> {
    if chunks == [] then [] else Concat(chunks[..|chunks| - 1]) + chunks[|chunks| - 1]
  }

  lemma {:induction false} ExtentPast(s: seq<octet>, t: seq<octet>)
    requires forall k :: 0 <= k < |s| ==> !Last(s[k])
    ensures Extent(s + t) >= |s|
  {
    if s != [] {
      ExtentPast(s[1..], t);
      assert (s + t)[1..] == s[1..] + t;
    }
  }

  /** Once an outcome is reached, more input behind it does not change it. */
  lemma {:induction false} Settled(s: seq<octet>, t: seq<octet>, limit: nat)
    ensures !Meaning(s, limit).More? ==> Meaning(s + t, limit) == Meaning(s, limit)
  {
    hide Digits;
    var n := Extent(s);
    if n > 0 && Last(s[n - 1]) {
      assert (s + t)[..n] == s[..n];
      ExtentIs(s + t, n);
    } else if !Meaning(s, limit).More? {
      assert s[..n] == s by { assert n == |s|; }
      var m := Extent(s + t);
      ExtentPast(s, t);
      assert (s + t)[..m][..n] == s;
      DigitsGrow((s + t)[..m], n);
    }
  }

  /** Input that arrives in pieces, cut anywhere, gives what it would have given at once. */
  method DecodeChunks(chunks: seq<seq<octet>>, limit: nat) returns (r: Decoded)
    requires Width(limit)
    ensures r == AsDecoded(Meaning(Concat(chunks), limit))
  {
    hide Digits, Meaning;
    var stream := new Stream();
    stream.NoDigits();
    RanOut([], limit);
    r := NeedInput;
    var k := 0;
    while k < |chunks| && r.NeedInput?
      invariant 0 <= k <= |chunks| && r == AsDecoded(Meaning(Concat(chunks[..k]), limit))
      invariant r.NeedInput? ==> stream.Between(limit) && stream.nextIn == [] && stream.seen == Concat(chunks[..k])
    {
      assert chunks[..k + 1][..k] == chunks[..k];
      stream.nextIn := chunks[k];
      r := stream.DecodeInteger(limit);
      k := k + 1;
    }
    Later(chunks, k, limit);
  }

  lemma {:induction false} Later(chunks: seq<seq<octet>>, k: nat, limit: nat)
    requires k <= |chunks| && (k == |chunks| || !Meaning(Concat(chunks[..k]), limit).More?)
    ensures Meaning(Concat(chunks), limit) == Meaning(Concat(chunks[..k]), limit)
    decreases |chunks|
  {
    hide Meaning;
    if k == |chunks| {
      assert chunks[..k] == chunks;
    } else {
      var front := chunks[..|chunks| - 1];
      assert front[..k] == chunks[..k];
      Later(front, k, limit);
      Settled(Concat(front), chunks[|chunks| - 1], limit);
    }
  }

  /** The shortest form of a number. */
  function Encoded(num: nat): (s: seq<octet>)
    ensures s != [] && Last(s[|s| - 1]) && forall k :: 0 <= k < |s| - 1 ==> !Last(s[k])
  {
    Leading(num / 128) + [num % 128]
  }

  /** The digits of a number, each marked as not the last; none for zero. */
  function Leading(num: nat): (s: seq<octet>)
    ensures forall k :: 0 <= k < |s| ==> !Last(s[k])
  {
    if num == 0 then [] else Leading(num / 128) + [num % 128 + 128]
  }

  lemma {:induction false} LeadingDigits(num: nat)
    ensures Digits(Leading(num)) == num
  {
    if num > 0 {
      LeadingDigits(num / 128);
      var s := Leading(num);
      assert s[..|s| - 1] == Leading(num / 128);
    }
  }

  /** What was written is read back, in full and no further, whatever follows. */
  lemma RoundTrip(num: nat, rest: seq<octet>, limit: nat)
    requires num < limit
    ensures Meaning(Encoded(num) + rest, limit) == Done(num, |Encoded(num)|)
  {
    hide Meaning, Leading, Last;
    var s := Encoded(num);
    LeadingDigits(num / 128);
    assert s[..|s| - 1] == Leading(num / 128);
    assert Digits(s) == num;
    assert (s + rest)[..|s|] == s;
    Complete(s + rest, |s|, limit);
  }

  /** The example of section 2 of RFC 3284. */
  lemma Example()
    ensures Encoded(123456789) == [186, 239, 154, 21]
  {
    assert Leading(123456789 / 128) == Leading(7535) + [154];
    assert Leading(7535) == Leading(58) + [239];
    assert Leading(58) == Leading(0) + [186];
  }

  /** xd3_sizeof_uint32_t */
  function SizeOf32(num: nat): nat {
    if num < 0x80 then 1 else if num < 0x4000 then 2 else if num < 0x20_0000 then 3 else if num < 0x1000_0000 then 4 else 5
  }

  /** xd3_sizeof_uint64_t */
  function SizeOf64(num: nat): nat {
    if num < 0x80 then 1 else if num < 0x4000 then 2 else if num < 0x20_0000 then 3 else if num < 0x1000_0000 then 4
    else if num < 0x8_0000_0000 then 5 else if num < 0x400_0000_0000 then 6 else if num < 0x2_0000_0000_0000 then 7
    else if num < 0x100_0000_0000_0000 then 8 else if num < 0x8000_0000_0000_0000 then 9 else 10
  }

  lemma {:induction false} Length(num: nat)
    requires num < LIMIT64
    ensures |Encoded(num)| == SizeOf64(num) && (num < LIMIT32 ==> SizeOf32(num) == SizeOf64(num))
  {
    if num >= 128 {
      Length(num / 128);
    }
  }

  /** EMIT_INTEGER_TYPE: digits from the end of a ten-byte buffer, then the mark of the last one is cleared. */
  method EmitInteger(n: nat) returns (out: seq<octet>)
    requires n < LIMIT64
    ensures out == Encoded(n) && |out| == SizeOf64(n)
  {
    hide Leading, SizeOf64, Last, Encoded;
    var buf := new octet[10](_ => 0);
    var bufi: nat, num: nat := 9, n / 128;
    buf[9] := n % 128 + 128;
    ghost var marked := Leading(n / 128) + [n % 128 + 128];
    Length(n);
    AtMostTen(n);
    while num != 0
      invariant bufi <= 9 && |marked| <= 10 && marked == Leading(num) + buf[bufi..10]
      decreases num
    {
      MoreDigits(num);
      PutInFront(buf, bufi, num % 128 + 128);
      bufi := bufi - 1;
      num := num / 128;
    }
    NoLeading();
    ghost var digits := buf[bufi..10];
    buf[9] := buf[9] % 128;
    out := buf[bufi..10];
    assert digits == marked && out == digits[..|digits| - 1] + [digits[|digits| - 1] % 128];
    LastUnmarked(n);
  }

  method PutInFront(buf: array<octet>, bufi: nat, b: octet)
    requires 0 < bufi <= buf.Length == 10
    modifies buf
    ensures buf[bufi - 1..10] == [b] + old(buf[bufi..10])
  {
    buf[bufi - 1] := b;
  }

  lemma AtMostTen(n: nat)
    requires n < LIMIT64
    ensures |Leading(n / 128)| < 10
  {
    hide Leading;
    Length(n);
  }

  lemma LastUnmarked(n: nat)
    ensures var s := Leading(n / 128) + [n % 128 + 128]; s[..|s| - 1] + [s[|s| - 1] % 128] == Encoded(n)
  {
    hide Leading;
    var s := Leading(n / 128) + [n % 128 + 128];
    assert s[..|s| - 1] == Leading(n / 128);
  }

  lemma NoLeading()
    ensures Leading(0) == []
  {
  }

  lemma MoreDigits(num: nat)
    ensures num > 0 ==> Leading(num) == Leading(num / 128) + [num % 128 + 128] && num / 128 < num
  {
  }
}
