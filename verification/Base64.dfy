/** Base64 without padding: a 32-bit accumulator that wraps, against the groups of six bits it stands for. */
module Base64 {
  import opened Bytes

  /** The character for a six-bit value. */
  function Symbol(x: bv32): bv32 {
    if x < 26 then 65 + x
    else if x < 52 then 97 + (x - 26)
    else if x < 62 then 48 + (x - 52)
    else if x == 62 then 43
    else 47
  }

  /** The six-bit value of a character, 255 if it is not of the alphabet. */
  function Value(c: bv32): bv32 {
    if 65 <= c <= 90 then c - 65
    else if 97 <= c <= 122 then c - 97 + 26
    else if 48 <= c <= 57 then c - 48 + 52
    else if c == 43 then 62
    else if c == 47 then 63
    else 0xFF
  }

  lemma SymbolOfValue(c: bv32)
    requires Value(c) != 0xFF
    ensures Value(c) < 64 && Symbol(Value(c)) == c && c < 128
  {
  }

  /** Comparisons without branches: 0xFF for true, 0 for false. */
  function Eq(x: bv32, y: bv32): bv32 {
    (((0 - (x ^ y)) >> 8) & 0xFF) ^ 0xFF
  }

  function Gt(x: bv32, y: bv32): bv32 {
    ((y - x) >> 8) & 0xFF
  }

  function Ge(x: bv32, y: bv32): bv32 {
    Gt(y, x) ^ 0xFF
  }

  function Lt(x: bv32, y: bv32): bv32 {
    Gt(y, x)
  }

  function Le(x: bv32, y: bv32): bv32 {
    Ge(y, x)
  }

  /** b64_byte_to_char */
  function ByteToChar(x: bv32): bv32 {
    (Lt(x, 26) & (x + 65)) | (Ge(x, 26) & Lt(x, 52) & (x + (97 - 26))) |
    (Ge(x, 52) & Lt(x, 62) & (x + (48 - 52))) | (Eq(x, 62) & 43) | (Eq(x, 63) & 47)
  }

  /** b64_char_to_byte */
  function CharToByte(c: bv32): bv32 {
    var x := (Ge(c, 65) & Le(c, 90) & (c - 65)) | (Ge(c, 97) & Le(c, 122) & (c - (97 - 26))) |
             (Ge(c, 48) & Le(c, 57) & (c - (48 - 52))) | (Eq(c, 43) & 62) | (Eq(c, 47) & 63);
    x | (Eq(x, 0) & (Eq(c, 65) ^ 0xFF))
  }

  lemma ByteToCharRight(x: bv32)
    requires x < 64
    ensures ByteToChar(x) == Symbol(x)
  {
  }

  /** A character as an integer: where the type is signed, those above 127 become negative. */
  function Promoted(b: byte, signed: bool): bv32 {
    if signed && b >= 128 then 0xFFFF_FF00 | (b as bv32) else b as bv32
  }

  /** What reading a character gives: its value, except that negative characters are taken for the last one. */
  function Sextet(b: byte, signed: bool): bv32 {
    if signed && b >= 128 then 63 else Value(b as bv32)
  }

  lemma CharToByteIs(b: byte, signed: bool)
    ensures CharToByte(Promoted(b, signed)) == Sextet(b, signed)
    ensures Sextet(b, signed) < 64 || Sextet(b, signed) == 0xFF
  {
    hide CharToByte, Value;
    ValueSmall(b as bv32);
    if signed && b >= 128 {
      NegativeChar(b);
    } else {
      PlainChar(b as bv32);
    }
  }

  lemma ValueSmall(c: bv32)
    ensures Value(c) < 64 || Value(c) == 0xFF
  {
  }

  lemma AtLeast(x: bv32, y: bv32)
    requires x < 256 && y < 256
    ensures Ge(x, y) == if x >= y then 0xFF else 0
  {
  }

  lemma Same(x: bv32, y: bv32)
    requires x < 256 && y < 256
    ensures Eq(x, y) == if x == y then 0xFF else 0
  {
  }

  lemma Compared(x: bv32, y: bv32)
    requires x < 256 && y < 256
    ensures Ge(x, y) == (if x >= y then 0xFF else 0) && Le(x, y) == (if x <= y then 0xFF else 0) && Eq(x, y) == (if x == y then 0xFF else 0)
  {
    hide Ge, Eq;
    AtLeast(x, y);
    AtLeast(y, x);
    Same(x, y);
  }

  lemma PlainChar(c: bv32)
    requires c < 256
    ensures CharToByte(c) == Value(c)
  {
    hide Ge, Le;
    Compared(c, 65);
    Compared(c, 90);
    Compared(c, 97);
    Compared(c, 122);
    Compared(c, 48);
    Compared(c, 57);
    Compared(c, 43);
    Compared(c, 47);
  }

  lemma NegativeChar(b: byte)
    requires b >= 128
    ensures CharToByte(0xFFFF_FF00 | (b as bv32)) == 63
  {
  }

  /** Characters outside the alphabet are recognised exactly where they are not negative. */
  lemma StopsIff(b: byte, signed: bool)
    requires Value(b as bv32) == 0xFF
    ensures CharToByte(Promoted(b, signed)) == 0xFF <==> !(signed && b >= 128)
  {
    CharToByteIs(b, signed);
  }

  /** The byte at index q, or zeros behind the end. */
  function Octet(s: seq<byte>, q: nat): bv32 {
    if q < |s| then s[q] as bv32 else 0
  }

  /** Three bytes cut into four groups of six bits. */
  function First(a: bv32): bv32 {
    a >> 2
  }

  function Second(a: bv32, b: bv32): bv32 {
    ((a & 3) << 4) | (b >> 4)
  }

  function Third(b: bv32, c: bv32): bv32 {
    ((b & 15) << 2) | (c >> 6)
  }

  function Fourth(c: bv32): bv32 {
    c & 63
  }

  /** Four groups of six bits joined to three bytes. */
  function Join1(u: bv32, v: bv32): bv32 {
    ((u << 2) | (v >> 4)) & 0xFF
  }

  function Join2(v: bv32, w: bv32): bv32 {
    ((v << 4) | (w >> 2)) & 0xFF
  }

  function Join3(w: bv32, x: bv32): bv32 {
    ((w << 6) | x) & 0xFF
  }

  /** The six bits from bit 6 * j on, the first byte's highest bit being bit 0. */
  function SixBits(s: seq<byte>, j: nat): bv32 {
    var q := j / 4 * 3;
    match j % 4
    case 0 => First(Octet(s, q))
    case 1 => Second(Octet(s, q), Octet(s, q + 1))
    case 2 => Third(Octet(s, q + 1), Octet(s, q + 2))
    case _ => Fourth(Octet(s, q + 2))
  }

  /** Four groups of six bits, first one highest, are the 24 bits of three bytes, first one highest. */
  lemma GroupBits(a: bv32, b: bv32, c: bv32)
    requires a < 256 && b < 256 && c < 256
    ensures (First(a) << 18) | (Second(a, b) << 12) | (Third(b, c) << 6) | Fourth(c) == (a << 16) | (b << 8) | c
    ensures First(a) < 64 && Second(a, b) < 64 && Third(b, c) < 64 && Fourth(c) < 64
  {
  }

  function Low8(x: bv32): byte {
    (x & 0xFF) as byte
  }

  /** How many characters the bits of n bytes need. */
  function Length(n: nat): nat {
    (8 * n + 5) / 6
  }

  /** The text of a byte string: its bits in groups of six, the last one filled up with zeros. */
  function Encode(s: seq<byte>): (t: seq<byte>)
    ensures |t| == Length(|s|)
  {
    seq(Length(|s|), j requires 0 <= j < Length(|s|) => Low8(Symbol(SixBits(s, j))))
  }

  lemma SixBitsSmall(s: seq<byte>, j: nat)
    ensures SixBits(s, j) < 64
  {
  }

  /** The values of a text's characters. */
  function Values(t: seq<byte>, signed: bool): (v: seq<bv32>)
    ensures |v| == |t|
  {
    seq(|t|, j requires 0 <= j < |t| => Sextet(t[j], signed))
  }

  /** The eight bits from bit 8 * i on, six to a value. */
  function EightBits(v: seq<bv32>, i: nat): bv32
    requires 8 * i + 8 <= 6 * |v|
  {
    var q := i / 3 * 4;
    match i % 3
    case 0 => Join1(v[q], v[q + 1])
    case 1 => Join2(v[q + 1], v[q + 2])
    case _ => Join3(v[q + 2], v[q + 3])
  }

  /** The bytes a text stands for: as many as there are whole groups of eight bits. */
  function Decode(t: seq<byte>, signed: bool): (s: seq<byte>)
    ensures |s| == 6 * |t| / 8
  {
    var v := Values(t, signed);
    seq(6 * |t| / 8, i requires 0 <= i < 6 * |t| / 8 => Low8(EightBits(v, i)))
  }

  predicate Left4(x: bv32) {
    x & 15 == 0
  }

  predicate Left2(x: bv32) {
    x & 3 == 0
  }

  /** No text is one character longer than whole groups, and the bits left over are zero. */
  predicate CleanEnd(t: seq<byte>, signed: bool) {
    match |t| % 4
    case 0 => true
    case 1 => false
    case 2 => Left4(Sextet(t[|t| - 1], signed))
    case _ => Left2(Sextet(t[|t| - 1], signed))
  }

  predicate InAlphabet(t: seq<byte>) {
    forall j :: 0 <= j < |t| ==> Value(t[j] as bv32) != 0xFF
  }

  lemma EncodedValue(s: seq<byte>, j: nat, signed: bool)
    requires j < Length(|s|)
    ensures Sextet(Encode(s)[j], signed) == SixBits(s, j) && Value(Encode(s)[j] as bv32) != 0xFF
  {
    hide SixBits;
    SixBitsSmall(s, j);
    SymbolByte(SixBits(s, j), signed);
  }

  lemma SymbolByte(x: bv32, signed: bool)
    requires x < 64
    ensures var b := Low8(Symbol(x)); b < 128 && Value(b as bv32) == x && Sextet(b, signed) == x
  {
  }

  lemma Lengths(n: nat)
    ensures 6 * Length(n) / 8 == n && Length(n) % 4 != 1
    ensures Length(n) == n / 3 * 4 + (if n % 3 == 0 then 0 else n % 3 + 1)
  {
  }

  lemma ThreeFromFour(a: bv32, b: bv32, c: bv32)
    requires a < 256 && b < 256 && c < 256
    ensures Join1(First(a), Second(a, b)) == a && Join2(Second(a, b), Third(b, c)) == b && Join3(Third(b, c), Fourth(c)) == c
    ensures Left4(Second(a, 0)) && Left2(Third(b, 0))
  {
  }

  lemma OctetSmall(s: seq<byte>, q: nat)
    ensures Octet(s, q) < 256
  {
  }

  lemma Group(s: seq<byte>, g: nat)
    ensures SixBits(s, 4 * g) == First(Octet(s, 3 * g)) && SixBits(s, 4 * g + 1) == Second(Octet(s, 3 * g), Octet(s, 3 * g + 1))
    ensures SixBits(s, 4 * g + 2) == Third(Octet(s, 3 * g + 1), Octet(s, 3 * g + 2)) && SixBits(s, 4 * g + 3) == Fourth(Octet(s, 3 * g + 2))
  {
    hide First, Second, Third, Fourth, Octet;
    Quarter(g);
  }

  lemma Quarter(g: nat)
    ensures 4 * g / 4 == g && (4 * g + 1) / 4 == g && (4 * g + 2) / 4 == g && (4 * g + 3) / 4 == g
    ensures 4 * g % 4 == 0 && (4 * g + 1) % 4 == 1 && (4 * g + 2) % 4 == 2 && (4 * g + 3) % 4 == 3
  {
  }

  lemma ThirdOf(g: nat)
    ensures 3 * g / 3 == g && (3 * g + 1) / 3 == g && (3 * g + 2) / 3 == g
    ensures 3 * g % 3 == 0 && (3 * g + 1) % 3 == 1 && (3 * g + 2) % 3 == 2
  {
  }

  lemma GroupBack(v: seq<bv32>, g: nat)
    ensures 4 * g + 2 <= |v| ==> EightBits(v, 3 * g) == Join1(v[4 * g], v[4 * g + 1])
    ensures 4 * g + 3 <= |v| ==> EightBits(v, 3 * g + 1) == Join2(v[4 * g + 1], v[4 * g + 2])
    ensures 4 * g + 4 <= |v| ==> EightBits(v, 3 * g + 2) == Join3(v[4 * g + 2], v[4 * g + 3])
  {
    hide Join1, Join2, Join3;
    ThirdOf(g);
  }

  lemma GroupEncoded(s: seq<byte>, g: nat, r: nat, signed: bool)
    requires 4 * g + r < Length(|s|)
    ensures Values(Encode(s), signed)[4 * g + r] == SixBits(s, 4 * g + r)
  {
    hide SixBits, Encode, Sextet;
    EncodedValue(s, 4 * g + r, signed);
  }

  lemma EnoughText(g: nat, r: nat, n: nat)
    requires 3 * g + r < n && r < 3
    ensures 4 * g + r + 2 <= Length(n) && 8 * (3 * g + r) + 8 <= 6 * Length(n)
  {
    Lengths(n);
  }

  lemma ByteBack(s: seq<byte>, g: nat, r: nat, signed: bool)
    requires 3 * g + r < |s| && r < 3
    ensures 8 * (3 * g + r) + 8 <= 6 * Length(|s|)
    ensures EightBits(Values(Encode(s), signed), 3 * g + r) == s[3 * g + r] as bv32
  {
    hide Encode, Sextet, Join1, Join2, Join3, First, Second, Third, Fourth, SixBits, EightBits, Values, Octet, Length;
    EnoughText(g, r, |s|);
    OctetIn(s, 3 * g + r);
    OctetSmall(s, 3 * g);
    OctetSmall(s, 3 * g + 1);
    OctetSmall(s, 3 * g + 2);
    ThreeFromFour(Octet(s, 3 * g), Octet(s, 3 * g + 1), Octet(s, 3 * g + 2));
    Group(s, g);
    GroupBack(Values(Encode(s), signed), g);
    if r == 0 {
      GroupEncoded(s, g, 0, signed);
      GroupEncoded(s, g, 1, signed);
    } else if r == 1 {
      GroupEncoded(s, g, 1, signed);
      GroupEncoded(s, g, 2, signed);
    } else {
      GroupEncoded(s, g, 2, signed);
      GroupEncoded(s, g, 3, signed);
    }
  }

  lemma OctetIn(s: seq<byte>, i: nat)
    requires i < |s|
    ensures Octet(s, i) == s[i] as bv32
  {
  }

  lemma LastClean(s: seq<byte>, signed: bool)
    ensures CleanEnd(Encode(s), signed)
  {
    hide Encode, Sextet, First, Second, Third, Fourth, Left4, Left2;
    Lengths(|s|);
    if |s| % 3 != 0 {
      var p := |s| / 3 * 3;
      EncodedValue(s, Length(|s|) - 1, signed);
      OctetSmall(s, p);
      OctetSmall(s, p + 1);
      ThreeFromFour(Octet(s, p), Octet(s, p + 1), 0);
    }
  }

  /** Decoding an encoded byte string gives it back, and accepts it. */
  lemma RoundTrip(s: seq<byte>, signed: bool)
    ensures InAlphabet(Encode(s)) && CleanEnd(Encode(s), signed) && Decode(Encode(s), signed) == s
  {
    hide EightBits, SixBits, Sextet;
    Lengths(|s|);
    LastClean(s, signed);
    forall j | 0 <= j < Length(|s|)
      ensures Value(Encode(s)[j] as bv32) != 0xFF
    {
      EncodedValue(s, j, signed);
    }
    forall i | 0 <= i < |s|
      ensures Decode(Encode(s), signed)[i] == s[i]
    {
      ByteBack(s, i / 3, i % 3, signed);
      Narrow(s[i]);
    }
  }

  lemma Narrow(b: byte)
    ensures Low8(b as bv32) == b
  {
  }

  lemma FourFromThree(u: bv32, v: bv32, w: bv32, x: bv32)
    requires u < 64 && v < 64 && w < 64 && x < 64
    ensures Join1(u, v) < 256 && Join2(v, w) < 256 && Join3(w, x) < 256
    ensures First(Join1(u, v)) == u && Second(Join1(u, v), Join2(v, w)) == v
    ensures Third(Join2(v, w), Join3(w, x)) == w && Fourth(Join3(w, x)) == x
    ensures Left4(v) ==> Second(Join1(u, v), 0) == v
    ensures Left2(w) ==> Third(Join2(v, w), 0) == w
  {
  }

  lemma Widened(x: bv32)
    requires x < 256
    ensures Low8(x) as bv32 == x
  {
  }

  lemma InRange(b: byte, signed: bool)
    requires Value(b as bv32) != 0xFF
    ensures Sextet(b, signed) == Value(b as bv32) < 64
  {
    SymbolOfValue(b as bv32);
  }

  /** A decoded byte, or zero behind the end. */
  lemma DecodedOctet(t: seq<byte>, i: nat, signed: bool)
    ensures i < 6 * |t| / 8 ==> Octet(Decode(t, signed), i) == Low8(EightBits(Values(t, signed), i)) as bv32
    ensures i >= 6 * |t| / 8 ==> Octet(Decode(t, signed), i) == 0
  {
    hide EightBits, Values, Low8;
  }

  lemma {:induction false} GroupDecoded(t: seq<byte>, g: nat, signed: bool)
    requires InAlphabet(t)
    ensures var v, s := Values(t, signed), Decode(t, signed);
            && (4 * g + 2 <= |t| ==> Octet(s, 3 * g) == Join1(v[4 * g], v[4 * g + 1]))
            && (4 * g + 3 <= |t| ==> Octet(s, 3 * g + 1) == Join2(v[4 * g + 1], v[4 * g + 2]))
            && (4 * g + 4 <= |t| ==> Octet(s, 3 * g + 2) == Join3(v[4 * g + 2], v[4 * g + 3]))
            && (4 * g + 2 == |t| ==> Octet(s, 3 * g + 1) == 0) && (4 * g + 3 == |t| ==> Octet(s, 3 * g + 2) == 0)
  {
    hide EightBits, Decode, Octet, Values, Join1, Join2, Join3, Low8;
    DecodedOctet(t, 3 * g, signed);
    DecodedOctet(t, 3 * g + 1, signed);
    DecodedOctet(t, 3 * g + 2, signed);
    var v := Values(t, signed);
    GroupBack(v, g);
    if 4 * g + 2 <= |t| {
      JoinSmall(v[4 * g], v[4 * g + 1]);
      Widened(Join1(v[4 * g], v[4 * g + 1]));
      if 4 * g + 3 <= |t| {
        JoinSmall(v[4 * g + 1], v[4 * g + 2]);
        Widened(Join2(v[4 * g + 1], v[4 * g + 2]));
        if 4 * g + 4 <= |t| {
          JoinSmall(v[4 * g + 2], v[4 * g + 3]);
          Widened(Join3(v[4 * g + 2], v[4 * g + 3]));
        }
      }
    }
  }

  lemma JoinSmall(u: bv32, v: bv32)
    ensures Join1(u, v) < 256 && Join2(u, v) < 256 && Join3(u, v) < 256
  {
  }

  /** The value of a character of the text, or zero behind its end. */
  function ValueAt(t: seq<byte>, j: nat): bv32 {
    if j < |t| then Value(t[j] as bv32) else 0
  }

  lemma ValuesOf(t: seq<byte>, signed: bool, j: nat)
    requires InAlphabet(t)
    ensures ValueAt(t, j) < 64 && (j < |t| ==> Values(t, signed)[j] == ValueAt(t, j))
  {
    if j < |t| {
      InRange(t[j], signed);
    }
  }

  lemma LeftOver(t: seq<byte>, signed: bool)
    requires InAlphabet(t) && t != []
    ensures CleanEnd(t, signed) && |t| % 4 == 2 ==> Left4(ValueAt(t, |t| - 1))
    ensures CleanEnd(t, signed) && |t| % 4 == 3 ==> Left2(ValueAt(t, |t| - 1))
  {
    hide Left4, Left2, Sextet, Value;
    InRange(t[|t| - 1], signed);
  }

  /** Where the bits of the group beginning at character 4 * g end, when the text ends inside it. */
  lemma GroupEnds(t: seq<byte>, g: nat, signed: bool)
    requires InAlphabet(t) && CleanEnd(t, signed) && 4 * g < |t|
    ensures 4 * g + 2 <= |t|
    ensures 4 * g + 2 == |t| ==> Left4(ValueAt(t, 4 * g + 1))
    ensures 4 * g + 3 == |t| ==> Left2(ValueAt(t, 4 * g + 2))
  {
    hide Left2, Left4, Sextet, ValueAt, InAlphabet;
    Quarter(g);
    LeftOver(t, signed);
  }

  lemma {:induction false} CharBack(t: seq<byte>, g: nat, r: nat, signed: bool)
    requires InAlphabet(t) && CleanEnd(t, signed) && 4 * g + r < |t| && r < 4
    ensures SixBits(Decode(t, signed), 4 * g + r) == ValueAt(t, 4 * g + r)
  {
    hide EightBits, Decode, Octet, Values, Join1, Join2, Join3, First, Second, Third, Fourth, SixBits, ValueAt;
    hide Left2, Left4, CleanEnd, InAlphabet;
    var s := Decode(t, signed);
    ValuesOf(t, signed, 4 * g);
    ValuesOf(t, signed, 4 * g + 1);
    ValuesOf(t, signed, 4 * g + 2);
    ValuesOf(t, signed, 4 * g + 3);
    GroupEnds(t, g, signed);
    GroupDecoded(t, g, signed);
    Group(s, g);
    FourFromThree(ValueAt(t, 4 * g), ValueAt(t, 4 * g + 1), ValueAt(t, 4 * g + 2), ValueAt(t, 4 * g + 3));
    assert r == 0 || r == 1 || r == 2 || r == 3;
  }

  lemma NotOneMore(t: seq<byte>, signed: bool)
    requires CleanEnd(t, signed)
    ensures |t| % 4 != 1 && Length(6 * |t| / 8) == |t|
  {
    hide Sextet, Left2, Left4;
    LengthBack(|t| / 4, |t| % 4);
  }

  lemma LengthBack(g: nat, r: nat)
    requires r < 4 && r != 1
    ensures Length(6 * (4 * g + r) / 8) == 4 * g + r
  {
    var b := if r == 0 then 0 else r - 1;
    assert 6 * (4 * g + r) / 8 == 3 * g + b;
    Lengths(3 * g + b);
    ThirdOf(g);
  }

  /** A text with a clean end is the encoding of what it decodes to. */
  lemma EncodesBack(t: seq<byte>, signed: bool)
    requires InAlphabet(t) && CleanEnd(t, signed)
    ensures Encode(Decode(t, signed)) == t
  {
    hide SixBits, Decode, CleanEnd;
    NotOneMore(t, signed);
    var s := Decode(t, signed);
    forall j | 0 <= j < |t|
      ensures Encode(s)[j] == t[j]
    {
      CharBack(t, j / 4, j % 4, signed);
      SymbolOfValue(t[j] as bv32);
      Narrow(t[j]);
    }
  }

  /** A text of the alphabet is accepted exactly when it is the encoding of some byte string. */
  lemma AcceptedIff(t: seq<byte>, signed: bool)
    requires InAlphabet(t)
    ensures CleanEnd(t, signed) <==> exists s :: Encode(s) == t
  {
    hide Encode, Decode, CleanEnd;
    if CleanEnd(t, signed) {
      EncodesBack(t, signed);
      assert Encode(Decode(t, signed)) == t;
    }
    if s :| Encode(s) == t {
      LastClean(s, signed);
    }
  }
}
