/** The Base64 encoder and decoder as loops over a buffer. */
module Base64Loops {
  import opened Bytes
  import opened Base64

  /** Six bits of the accumulator, n bits above its low end. */
  function SixAt(acc: bv32, n: nat): bv32
    requires n <= 32
  {
    (acc >> n) & 0x3F
  }

  /** The accumulator takes eight more bits; what it held above runs off its top end. */
  function Take8(acc: bv32, b: bv32): bv32 {
    (acc << 8) + b
  }

  function LowByte(acc: bv32): bv32 {
    acc & 0xFF
  }

  lemma Take8Bits(acc: bv32, b: bv32)
    requires b < 256
    ensures LowByte(Take8(acc, b)) == b
    ensures SixAt(Take8(acc, b), 2) == First(b) && SixAt(Take8(acc, b), 0) == Fourth(b)
    ensures SixAt(Take8(acc, b), 4) == Second(LowByte(acc), b)
    ensures SixAt(Take8(acc, b), 6) == Third(LowByte(acc), b)
  {
  }

  function RestOf(acc: bv32, n: nat): bv32
    requires n <= 6
  {
    (acc << (6 - n)) & 0x3F
  }

  lemma RestBits(acc: bv32)
    ensures RestOf(acc, 2) == Second(LowByte(acc), 0) && RestOf(acc, 4) == Third(LowByte(acc), 0)
  {
  }

  /** The low eight bits of the accumulator are the last byte taken. */
  predicate LastByte(acc: bv32, src: seq<byte>, i: nat) {
    i > 0 ==> LowByte(acc) == Octet(src, i - 1)
  }

  /** The e-th group of six bits that is complete once byte 3 * g + r was taken. */
  lemma Extracted(src: seq<byte>, g: nat, r: nat, acc: bv32, e: nat)
    requires r < 3 && LastByte(acc, src, 3 * g + r) && e <= (if r == 2 then 1 else 0)
    ensures SixAt(Take8(acc, Octet(src, 3 * g + r)), 2 * r + 2 - 6 * e) == SixBits(src, 4 * g + r + e)
    ensures LastByte(Take8(acc, Octet(src, 3 * g + r)), src, 3 * g + r + 1)
  {
    hide SixAt, Take8, First, Second, Third, Fourth, SixBits, LowByte, Octet;
    OctetSmall(src, 3 * g + r);
    Take8Bits(acc, Octet(src, 3 * g + r));
    Group(src, g);
  }

  /** The group that is left incomplete at the end. */
  lemma LeftIncomplete(src: seq<byte>, g: nat, r: nat, acc: bv32)
    requires 0 < r < 3 && LastByte(acc, src, 3 * g + r) && 3 * g + r == |src|
    ensures RestOf(acc, 2 * r) == SixBits(src, 4 * g + r)
  {
    hide First, Second, Third, Fourth, SixBits, LowByte, RestOf;
    RestBits(acc);
    Group(src, g);
  }

  /** The first `count` characters of the text are in the buffer. */
  ghost predicate Begun(dst: seq<byte>, src: seq<byte>, count: nat) {
    count <= |dst| && forall j :: 0 <= j < count ==> dst[j] == Low8(Symbol(SixBits(src, j)))
  }

  lemma BegunIsEncoded(dst: seq<byte>, src: seq<byte>)
    requires Begun(dst, src, Length(|src|))
    ensures dst[..Length(|src|)] == Encode(src)
  {
    hide SixBits, Low8, Symbol;
  }

  method PutChar(dst: array<byte>, at: nat, x: bv32, ghost src: seq<byte>)
    requires at < dst.Length && Begun(dst[..], src, at) && x == SixBits(src, at)
    modifies dst
    ensures Begun(dst[..], src, at + 1) && dst[at + 1..] == old(dst[at + 1..])
  {
    hide SixBits, Symbol, Low8;
    SixBitsSmall(src, at);
    ByteToCharRight(x);
    dst[at] := Low8(ByteToChar(x));
  }

  /** The complete groups of the accumulator are written out, highest first. */
  method PutGroups(dst: array<byte>, at: nat, acc: bv32, accLen: nat, ghost src: seq<byte>, ghost g: nat, ghost r: nat, ghost before: bv32)
    returns (at': nat, accLen': nat)
    requires r < 3 && at == 4 * g + r && accLen == 2 * r + 8 && at + (if r == 2 then 2 else 1) <= dst.Length
    requires LastByte(before, src, 3 * g + r) && acc == Take8(before, Octet(src, 3 * g + r)) && Begun(dst[..], src, at)
    modifies dst
    ensures at' == at + (if r == 2 then 2 else 1) && accLen' == (if r == 2 then 0 else 2 * r + 2)
    ensures Begun(dst[..], src, at')
  {
    hide SixBits, SixAt, Take8, Begun, LastByte;
    at', accLen' := at, accLen;
    ghost var e := 0;
    while accLen' >= 6
      invariant e <= (if r == 2 then 2 else 1) && at' == at + e && accLen' == 2 * r + 8 - 6 * e && Begun(dst[..], src, at')
    {
      accLen' := accLen' - 6;
      Extracted(src, g, r, before, e);
      PutChar(dst, at', SixAt(acc, accLen'), src);
      at' := at' + 1;
      e := e + 1;
    }
  }

  /** to_base64: needs room for the terminating NUL too. */
  method ToBase64(dst: array<byte>, src: seq<byte>) returns (ok: bool, length: nat)
    modifies dst
    ensures ok <==> Length(|src|) < dst.Length
    ensures ok ==> length == Length(|src|) && dst[..length] == Encode(src) && dst[length] == 0
    ensures !ok ==> dst[..] == old(dst[..])
  {
    hide Encode;
    length := TextLength(|src|);
    if dst.Length <= length {
      return false, 0;
    }
    PutText(dst, src);
    dst[length] := 0;
    ok := true;
  }

  method TextLength(n: nat) returns (length: nat)
    ensures length == Length(n)
  {
    Lengths(n);
    length := n / 3 * 4;
    if n % 3 == 2 {
      length := length + 3;
    } else if n % 3 == 1 {
      length := length + 2;
    }
  }

  method PutText(dst: array<byte>, src: seq<byte>)
    requires Length(|src|) < dst.Length
    modifies dst
    ensures dst[..Length(|src|)] == Encode(src)
  {
    hide SixBits, SixAt, Take8, Begun, LastByte, Octet, Encode;
    Lengths(|src|);
    var acc: bv32, accLen, at := 0, 0, 0;
    Nothing(dst[..], src);
    var i := 0;
    while i < |src|
      invariant 0 <= i <= |src| && accLen == 2 * (i % 3) && at == 4 * (i / 3) + i % 3
      invariant LastByte(acc, src, i) && Begun(dst[..], src, at)
    {
      ghost var before := acc;
      Progress(i, |src|);
      Extracted(src, i / 3, i % 3, acc, 0);
      acc := Take8(acc, Octet(src, i));
      at, accLen := PutGroups(dst, at, acc, accLen + 8, src, i / 3, i % 3, before);
      i := i + 1;
    }
    if accLen > 0 {
      LeftIncomplete(src, i / 3, i % 3, acc);
      PutChar(dst, at, RestOf(acc, accLen), src);
    }
    BegunIsEncoded(dst[..], src);
    assert dst[..][..Length(|src|)] == dst[..Length(|src|)];
  }

  lemma Nothing(dst: seq<byte>, src: seq<byte>)
    ensures Begun(dst, src, 0) && LastByte(0, src, 0)
  {
  }

  lemma Progress(i: nat, n: nat)
    requires i < n
    ensures 4 * (i / 3) + i % 3 + (if i % 3 == 2 then 2 else 1) <= Length(n)
    ensures 4 * ((i + 1) / 3) + (i + 1) % 3 == 4 * (i / 3) + i % 3 + (if i % 3 == 2 then 2 else 1)
    ensures 3 * (i / 3) + i % 3 == i
  {
  }

  /** Eight bits of the accumulator, n bits above its low end. */
  function EightAt(acc: bv32, n: nat): bv32
    requires n <= 32
  {
    (acc >> n) & 0xFF
  }

  function Take6(acc: bv32, d: bv32): bv32 {
    (acc << 6) + d
  }

  function LowSix(acc: bv32): bv32 {
    acc & 0x3F
  }

  predicate RestClear(acc: bv32, n: nat)
    requires n <= 8
  {
    acc & ((1 << n) - 1) == 0
  }

  lemma Take6Bits(acc: bv32, d: bv32)
    requires d < 64
    ensures LowSix(Take6(acc, d)) == d
    ensures EightAt(Take6(acc, d), 4) == Join1(LowSix(acc), d)
    ensures EightAt(Take6(acc, d), 2) == Join2(LowSix(acc), d)
    ensures EightAt(Take6(acc, d), 0) == Join3(LowSix(acc), d)
  {
  }

  lemma RestBitsClear(acc: bv32)
    ensures RestClear(acc, 0) && (RestClear(acc, 2) <==> Left2(LowSix(acc))) && (RestClear(acc, 4) <==> Left4(LowSix(acc)))
  {
  }

  /** Reading stops at position n. */
  predicate StopsAt(src: seq<byte>, signed: bool, n: nat) {
    n < |src| && Sextet(src[n], signed) == 0xFF && forall j :: 0 <= j < n ==> Sextet(src[j], signed) != 0xFF
  }

  /** The low six bits of the accumulator are the last value taken. */
  predicate LastValue(acc: bv32, src: seq<byte>, signed: bool, j: nat)
    requires j <= |src|
  {
    j > 0 ==> LowSix(acc) == Sextet(src[j - 1], signed)
  }

  /** The byte that is complete once character 4 * g + r was taken, for r > 0. */
  lemma Completed(src: seq<byte>, signed: bool, g: nat, r: nat, acc: bv32)
    requires 0 < r < 4 && 4 * g + r < |src| && LastValue(acc, src, signed, 4 * g + r) && Sextet(src[4 * g + r], signed) < 64
    ensures EightAt(Take6(acc, Sextet(src[4 * g + r], signed)), 6 - 2 * r) == EightBits(Values(src, signed), 3 * g + r - 1)
  {
    hide EightAt, Take6, LowSix, Join1, Join2, Join3, Sextet, EightBits;
    Take6Bits(acc, Sextet(src[4 * g + r], signed));
    GroupBack(Values(src, signed), g);
  }

  lemma Kept(src: seq<byte>, signed: bool, j: nat, acc: bv32)
    requires j < |src| && Sextet(src[j], signed) < 64
    ensures LastValue(Take6(acc, Sextet(src[j], signed)), src, signed, j + 1)
  {
    hide Sextet;
    Take6Bits(acc, Sextet(src[j], signed));
  }

  /** The first `count` decoded bytes are in the buffer. */
  ghost predicate Decoded(dst: seq<byte>, src: seq<byte>, signed: bool, count: nat)
  {
    count <= |dst| && 8 * count <= 6 * |src| && forall i :: 0 <= i < count ==> dst[i] == Low8(EightBits(Values(src, signed), i))
  }

  lemma DecodedIs(dst: seq<byte>, src: seq<byte>, signed: bool, n: nat)
    requires n <= |src| && Decoded(dst, src, signed, 6 * n / 8)
    ensures dst[..6 * n / 8] == Decode(src[..n], signed)
  {
    hide Sextet, Low8, Join1, Join2, Join3;
    var t := src[..n];
    forall i | 0 <= i < 6 * n / 8
      ensures dst[i] == Decode(t, signed)[i]
    {
      SameEight(src, signed, n, i / 3, i % 3);
    }
  }

  lemma SameEight(src: seq<byte>, signed: bool, n: nat, g: nat, r: nat)
    requires n <= |src| && r < 3 && 4 * g + r + 2 <= n
    ensures EightBits(Values(src, signed), 3 * g + r) == EightBits(Values(src[..n], signed), 3 * g + r)
  {
    hide Sextet, EightBits, Join1, Join2, Join3;
    GroupBack(Values(src, signed), g);
    GroupBack(Values(src[..n], signed), g);
  }

  /** How many bits are left over after n characters. */
  function LeftBits(n: nat): nat {
    match n % 4
    case 0 => 0
    case 1 => 6
    case 2 => 4
    case _ => 2
  }

  lemma BitsLeft(n: nat)
    ensures 6 * n - 8 * (6 * n / 8) == LeftBits(n)
    ensures 6 * (n + 1) / 8 == 6 * n / 8 + (if LeftBits(n) > 0 then 1 else 0)
    ensures LeftBits(n + 1) == if LeftBits(n) > 0 then LeftBits(n) - 2 else 6
    ensures LeftBits(n) > 0 ==> 3 * (n / 4) + n % 4 - 1 == 6 * n / 8 && 6 - 2 * (n % 4) == LeftBits(n) - 2
  {
    WholeBytes(n / 4, n % 4);
    if n % 4 < 3 {
      WholeBytes(n / 4, n % 4 + 1);
    } else {
      WholeBytes(n / 4 + 1, 0);
    }
  }

  lemma WholeBytes(g: nat, r: nat)
    requires r < 4
    ensures (4 * g + r) / 4 == g && (4 * g + r) % 4 == r && 6 * (4 * g + r) / 8 == 3 * g + if r == 0 then 0 else r - 1
  {
  }

  lemma CleanIff(src: seq<byte>, signed: bool, n: nat, acc: bv32)
    requires n <= |src| && LastValue(acc, src, signed, n)
    ensures CleanEnd(src[..n], signed) <==> LeftBits(n) <= 4 && RestClear(acc, LeftBits(n))
  {
    hide RestClear, LowSix, Sextet, Left2, Left4;
    RestBitsClear(acc);
    assert n > 0 ==> src[..n][n - 1] == src[n - 1];
  }

  lemma OneStop(src: seq<byte>, signed: bool, m: nat)
    requires StopsAt(src, signed, m)
    ensures forall n: nat :: StopsAt(src, signed, n) ==> n == m
  {
  }

  /** What the loop has done: characters before `end` were taken, the complete bytes are in the buffer. */
  ghost predicate Reading(dst: seq<byte>, src: seq<byte>, signed: bool, acc: bv32, accLen: nat, end: nat, length: nat) {
    && end <= |src| && accLen == LeftBits(end) && length == 6 * end / 8 <= |dst|
    && (forall j :: 0 <= j < end ==> Sextet(src[j], signed) != 0xFF)
    && LastValue(acc, src, signed, end) && Decoded(dst, src, signed, length)
  }

  /**
   * from_base64: stops at the first character that is not taken for one of the alphabet, and fails when the
   * buffer is too small or bits are left over that are too many or not zero.
   */
  method FromBase64(dst: array<byte>, src: seq<byte>, signed: bool) returns (ok: bool, end: nat, length: nat)
    requires src != [] && src[|src| - 1] == 0
    modifies dst
    ensures ok ==> StopsAt(src, signed, end) && CleanEnd(src[..end], signed)
    ensures ok ==> length == 6 * end / 8 <= dst.Length && dst[..length] == Decode(src[..end], signed)
    ensures !ok ==> forall n: nat :: StopsAt(src, signed, n) ==> !CleanEnd(src[..n], signed) || 6 * n / 8 > dst.Length
  {
    hide Decoded, LastValue, RestClear, Decode, Sextet, CleanEnd;
    var acc: bv32, accLen := 0, 0;
    end, length := 0, 0;
    NothingYet(dst[..], src, signed);
    while true
      invariant end < |src| && Reading(dst[..], src, signed, acc, accLen, end, length)
      decreases |src| - end
    {
      CharToByteIs(src[end], signed);
      var d := CharToByte(Promoted(src[end], signed));
      if d == 0xFF {
        break;
      }
      LastIsNul(src, signed, end);
      ok, acc, accLen, length := TakeChar(dst, src, signed, acc, accLen, end, length, d);
      end := end + 1;
      if !ok {
        return;
      }
    }
    CleanIff(src, signed, end, acc);
    OneStop(src, signed, end);
    if accLen > 4 || !RestClear(acc, accLen) {
      return false, end, length;
    }
    DecodedIs(dst[..], src, signed, end);
    assert dst[..][..length] == dst[..length];
    ok := true;
  }

  /** One character: six more bits, and a byte once there are eight. */
  method TakeChar(dst: array<byte>, ghost src: seq<byte>, ghost signed: bool, acc: bv32, accLen: nat, ghost end: nat, length: nat, d: bv32)
    returns (ok: bool, acc': bv32, accLen': nat, length': nat)
    requires end < |src| && Reading(dst[..], src, signed, acc, accLen, end, length) && d == Sextet(src[end], signed) < 64
    modifies dst
    ensures ok ==> Reading(dst[..], src, signed, acc', accLen', end + 1, length')
    ensures !ok ==> forall n: nat :: StopsAt(src, signed, n) ==> 6 * n / 8 > dst.Length
  {
    hide EightBits, EightAt, Take6, Decoded, LastValue, Sextet, Values, LowSix;
    BitsLeft(end);
    if accLen > 0 {
      Completed(src, signed, end / 4, end % 4, acc);
    }
    Kept(src, signed, end, acc);
    ok, acc', accLen', length' := true, Take6(acc, d), accLen + 6, length;
    if accLen' >= 8 {
      accLen' := accLen' - 8;
      if length >= dst.Length {
        TooSmall(src, signed, end + 1, dst.Length);
        ok := false;
      } else {
        PutByte(dst, src, signed, length, EightAt(acc', accLen'));
        length' := length + 1;
      }
    }
  }

  method PutByte(dst: array<byte>, ghost src: seq<byte>, ghost signed: bool, at: nat, x: bv32)
    requires at < dst.Length && Decoded(dst[..], src, signed, at) && 8 * at + 8 <= 6 * |src| && x == EightBits(Values(src, signed), at)
    modifies dst
    ensures Decoded(dst[..], src, signed, at + 1)
  {
    hide EightBits, Values, Low8;
    dst[at] := Low8(x);
  }

  lemma NothingYet(dst: seq<byte>, src: seq<byte>, signed: bool)
    ensures Decoded(dst, src, signed, 0) && LastValue(0, src, signed, 0)
  {
  }

  lemma LastIsNul(src: seq<byte>, signed: bool, j: nat)
    requires src != [] && src[|src| - 1] == 0 && j < |src| && Sextet(src[j], signed) != 0xFF
    ensures j + 1 < |src|
  {
  }

  lemma TooSmall(src: seq<byte>, signed: bool, end: nat, room: nat)
    requires end <= |src| && 6 * end / 8 > room && forall j :: 0 <= j < end ==> Sextet(src[j], signed) != 0xFF
    ensures forall n: nat :: StopsAt(src, signed, n) ==> 6 * n / 8 > room
  {
    forall n: nat | StopsAt(src, signed, n)
      ensures 6 * n / 8 > room
    {
      assert n >= end;
    }
  }
}
