/** Precedence of versions: numbers first, then prerelease identifiers one by one. */
module Semver {
  import opened Bytes
  import opened Options

  const DOT: byte := 46

  /** The numbers as stored, and the prerelease text if there is any. */
  datatype Version = Version(major: int, minor: int, patch: int, prerelease: Option<seq<byte>>)

  predicate IsDigit(b: byte) {
    48 <= b <= 57
  }

  predicate IsSpace(b: byte) {
    b == 32 || 9 <= b <= 13
  }

  /** strtol skips white space, then takes a sign, then digits. */
  function SkipSpaces(s: seq<byte>, i: nat): (j: nat)
    requires i <= |s|
    ensures i <= j <= |s|
    decreases |s| - i
  {
    if i < |s| && IsSpace(s[i]) then SkipSpaces(s, i + 1) else i
  }

  function SkipSign(s: seq<byte>, i: nat): (j: nat)
    requires i <= |s|
    ensures i <= j <= |s|
  {
    if i < |s| && (s[i] == 43 || s[i] == 45) then i + 1 else i
  }

  function SkipDigits(s: seq<byte>, i: nat): (j: nat)
    requires i <= |s|
    ensures i <= j <= |s| && forall k :: i <= k < j ==> IsDigit(s[k])
    decreases |s| - i
  {
    if i < |s| && IsDigit(s[i]) then SkipDigits(s, i + 1) else i
  }

  function Decimal(s: seq<byte>, i: nat, j: nat): nat
    requires i <= j <= |s| && forall k :: i <= k < j ==> IsDigit(s[k])
  {
    if i == j then 0 else 10 * Decimal(s, i, j - 1) + (s[j - 1] - 48) as nat
  }

  const LONG_MAX: int := 0x7FFF_FFFF_FFFF_FFFF
  const INT_SPAN: int := 0x1_0000_0000

  /** strtol saturates. */
  function Saturated(v: int): int {
    if v > LONG_MAX then LONG_MAX else if v < -LONG_MAX - 1 then -LONG_MAX - 1 else v
  }

  /** A long stored in an int keeps its low 32 bits. */
  function Truncated(v: int): int {
    (v + INT_SPAN / 2) % INT_SPAN - INT_SPAN / 2
  }

  datatype Number = Number(value: int, end: nat)

  /** strtol at position i, stored in an int; without any digit nothing is consumed. */
  function Strtol(s: seq<byte>, i: nat): (n: Number)
    requires i <= |s|
    ensures i <= n.end <= |s|
  {
    var sign := SkipSpaces(s, i);
    var first := SkipSign(s, sign);
    var end := SkipDigits(s, first);
    if end == first then Number(0, i)
    else
      var v: int := Decimal(s, first, end);
      Number(Truncated(Saturated(if s[sign] == 45 then -v else v)), end)
  }

  /** What an identifier counts for. */
  datatype Key = Num(value: int) | Text(text: seq<byte>)

  /** An identifier is numeric when strtol consumes all of it; so is the empty one. */
  function KeyOf(id: seq<byte>): Key {
    var n := Strtol(id, 0);
    if n.end == |id| then Num(n.value) else Text(id)
  }

  function NextDot(s: seq<byte>, i: nat): (j: nat)
    requires i <= |s|
    ensures i <= j <= |s| && (j < |s| ==> s[j] == DOT) && forall k :: i <= k < j ==> s[k] != DOT
    decreases |s| - i
  {
    if i == |s| || s[i] == DOT then i else NextDot(s, i + 1)
  }

  /** The keys of the identifiers from position i on. */
  function Keys(s: seq<byte>, i: nat): (ks: seq<Key>)
    requires i <= |s|
    ensures ks != []
    decreases |s| - i
  {
    var j := NextDot(s, i);
    [KeyOf(s[i..j])] + if j == |s| then [] else Keys(s, j + 1)
  }

  function Sign(x: int, y: int): int {
    if x == y then 0 else if x < y then -1 else 1
  }

  /** Byte by byte; a string comes before its extensions. */
  function CompareText(a: seq<byte>, b: seq<byte>): int {
    if a == [] then (if b == [] then 0 else -1)
    else if b == [] then 1
    else if a[0] != b[0] then (if a[0] < b[0] then -1 else 1)
    else CompareText(a[1..], b[1..])
  }

  function CompareKey(a: Key, b: Key): int {
    match (a, b)
    case (Num(x), Num(y)) => Sign(x, y)
    case (Num(_), Text(_)) => -1
    case (Text(_), Num(_)) => 1
    case (Text(s), Text(t)) => CompareText(s, t)
  }

  function CompareKeys(a: seq<Key>, b: seq<Key>): int {
    if a == [] then (if b == [] then 0 else -1)
    else if b == [] then 1
    else if CompareKey(a[0], b[0]) != 0 then CompareKey(a[0], b[0])
    else CompareKeys(a[1..], b[1..])
  }

  function ComparePrerelease(x: Option<seq<byte>>, y: Option<seq<byte>>): int {
    match (x, y)
    case (None, None) => 0
    case (Some(_), None) => -1
    case (None, Some(_)) => 1
    case (Some(s), Some(t)) => CompareKeys(Keys(s, 0), Keys(t, 0))
  }

  /** semver_compare */
  function Compare(x: Version, y: Version): int {
    if Sign(x.major, y.major) != 0 then Sign(x.major, y.major)
    else if Sign(x.minor, y.minor) != 0 then Sign(x.minor, y.minor)
    else if Sign(x.patch, y.patch) != 0 then Sign(x.patch, y.patch)
    else ComparePrerelease(x.prerelease, y.prerelease)
  }

  lemma {:induction false} TextOrder(a: seq<byte>, b: seq<byte>, c: seq<byte>)
    ensures CompareText(a, b) == -CompareText(b, a) && (CompareText(a, b) == 0 <==> a == b)
    ensures CompareText(a, b) <= 0 && CompareText(b, c) <= 0 ==> CompareText(a, c) <= 0
  {
    if a != [] && b != [] {
      TextOrder(a[1..], b[1..], if c == [] then [] else c[1..]);
      assert a == [a[0]] + a[1..] && b == [b[0]] + b[1..];
      if c != [] {
        assert c == [c[0]] + c[1..];
      }
    }
  }

  /** A text is the smaller one exactly when it comes first byte by byte. */
  lemma {:induction false} TextIff(a: seq<byte>, b: seq<byte>)
    ensures CompareText(a, b) == -1 <==> ComesFirst(a, b)
    ensures CompareText(a, b) == 1 <==> ComesFirst(b, a)
  {
    hide SmallerAt;
    if a == [] || b == [] || a[0] != b[0] {
      ComesAtOnce(a, b);
      ComesAtOnce(b, a);
    } else {
      TextIff(a[1..], b[1..]);
      ComesBehind(a, b);
      ComesBehind(b, a);
    }
  }

  lemma KeyOrder(a: Key, b: Key, c: Key)
    ensures CompareKey(a, b) == -CompareKey(b, a) && (CompareKey(a, b) == 0 <==> a == b)
    ensures CompareKey(a, b) <= 0 && CompareKey(b, c) <= 0 ==> CompareKey(a, c) <= 0
  {
    hide CompareText;
    if a.Text? && b.Text? {
      TextOrder(a.text, b.text, if c.Text? then c.text else []);
    }
  }

  lemma {:induction false} KeysOrder(a: seq<Key>, b: seq<Key>, c: seq<Key>)
    ensures CompareKeys(a, b) == -CompareKeys(b, a) && (CompareKeys(a, b) == 0 <==> a == b)
    ensures CompareKeys(a, b) <= 0 && CompareKeys(b, c) <= 0 ==> CompareKeys(a, c) <= 0
  {
    hide CompareKey;
    if a != [] && b != [] {
      KeysOrder(a[1..], b[1..], if c == [] then [] else c[1..]);
      assert a == [a[0]] + a[1..] && b == [b[0]] + b[1..];
      KeyOrder(a[0], b[0], if c == [] then a[0] else c[0]);
      if c != [] {
        KeyOrder(b[0], c[0], a[0]);
        KeyOrder(a[0], c[0], b[0]);
        KeyOrder(c[0], a[0], b[0]);
        KeyOrder(b[0], a[0], c[0]);
      }
    }
  }

  /** semver_compare is a total preorder on all versions: reflexive, of opposite sign the other way round, transitive. */
  lemma TotalPreorder(x: Version, y: Version, z: Version)
    ensures Compare(x, x) == 0 && Compare(x, y) == -Compare(y, x)
    ensures Compare(x, y) <= 0 && Compare(y, z) <= 0 ==> Compare(x, z) <= 0
  {
    hide CompareKeys, Keys;
    PrereleaseOrder(x.prerelease, y.prerelease, z.prerelease);
    PrereleaseOrder(x.prerelease, x.prerelease, x.prerelease);
  }

  lemma PrereleaseOrder(x: Option<seq<byte>>, y: Option<seq<byte>>, z: Option<seq<byte>>)
    ensures ComparePrerelease(x, y) == -ComparePrerelease(y, x)
    ensures ComparePrerelease(x, y) <= 0 && ComparePrerelease(y, z) <= 0 ==> ComparePrerelease(x, z) <= 0
  {
    hide CompareKeys, Keys;
    if x.Some? && y.Some? {
      KeysOrder(Keys(x.value, 0), Keys(y.value, 0), if z.Some? then Keys(z.value, 0) else []);
    }
  }

  /** The first of major, minor and patch that differs decides, whatever the prereleases are. */
  lemma NumbersDecide(x: Version, y: Version)
    ensures x.major < y.major ==> Compare(x, y) == -1 && Compare(y, x) == 1
    ensures x.major == y.major && x.minor < y.minor ==> Compare(x, y) == -1 && Compare(y, x) == 1
    ensures x.major == y.major && x.minor == y.minor && x.patch < y.patch ==> Compare(x, y) == -1 && Compare(y, x) == 1
  {
    hide ComparePrerelease;
  }

  /** A prerelease is below its release, and between prereleases of one release their identifiers decide. */
  lemma PrereleaseBelow(major: int, minor: int, patch: int, s: seq<byte>, t: seq<byte>)
    ensures var p, q := Version(major, minor, patch, Some(s)), Version(major, minor, patch, Some(t));
            var release := Version(major, minor, patch, None);
            && Compare(p, release) == -1 && Compare(release, p) == 1 && Compare(p, q) == CompareKeys(Keys(s, 0), Keys(t, 0))
  {
    hide CompareKeys, Keys;
  }

  /** Of two lists of identifiers the first one that differs decides: numbers by value, texts byte by byte. */
  lemma {:induction false} FirstKeyDecides(same: seq<Key>, a: Key, b: Key, rest: seq<Key>, rest': seq<Key>)
    requires a != b
    ensures CompareKeys(same + [a] + rest, same + [b] + rest') == CompareKey(a, b)
    ensures a.Num? && b.Num? ==> (CompareKey(a, b) == -1 <==> a.value < b.value)
    ensures a.Text? && b.Text? ==> (CompareKey(a, b) == -1 <==> ComesFirst(a.text, b.text))
    decreases |same|
  {
    hide ComesFirst, CompareText;
    if a.Text? && b.Text? {
      TextIff(a.text, b.text);
    }
    KeyOrder(a, b, a);
    hide CompareKey;
    var x, y := same + [a] + rest, same + [b] + rest';
    if same == [] {
      assert x[0] == a && y[0] == b;
    } else {
      FirstKeyDecides(same[1..], a, b, rest, rest');
      assert x[1..] == same[1..] + [a] + rest && y[1..] == same[1..] + [b] + rest';
      KeyOrder(same[0], same[0], same[0]);
    }
  }

  /** The part of s from a to b, which no number reaches beyond. */
  ghost predicate Fenced(s: seq<byte>, a: nat, b: nat) {
    a <= b <= |s| && (b < |s| ==> s[b] == DOT)
  }

  lemma {:induction false} SpacesInside(s: seq<byte>, a: nat, b: nat, i: nat)
    requires Fenced(s, a, b) && a + i <= b
    ensures SkipSpaces(s, a + i) == a + SkipSpaces(s[a..b], i)
    decreases b - i
  {
    if a + i < b && IsSpace(s[a + i]) {
      SpacesInside(s, a, b, i + 1);
    }
  }

  lemma {:induction false} DigitsInside(s: seq<byte>, a: nat, b: nat, i: nat)
    requires Fenced(s, a, b) && a + i <= b
    ensures SkipDigits(s, a + i) == a + SkipDigits(s[a..b], i)
    decreases b - i
  {
    if a + i < b && IsDigit(s[a + i]) {
      DigitsInside(s, a, b, i + 1);
    }
  }

  lemma {:induction false} DecimalInside(s: seq<byte>, a: nat, b: nat, i: nat, j: nat)
    requires a <= b <= |s| && i <= j && a + j <= b && forall k :: i <= k < j ==> IsDigit(s[a..b][k])
    requires forall k :: a + i <= k < a + j ==> IsDigit(s[k])
    ensures Decimal(s, a + i, a + j) == Decimal(s[a..b], i, j)
  {
    if i < j {
      DecimalInside(s, a, b, i, j - 1);
    }
  }

  /** A number is read from an identifier as if the identifier stood alone. */
  lemma NumberInside(s: seq<byte>, a: nat, b: nat)
    requires Fenced(s, a, b)
    ensures Strtol(s, a) == var n := Strtol(s[a..b], 0); Number(n.value, a + n.end)
  {
    hide SkipSpaces, SkipDigits, Decimal;
    var id := s[a..b];
    SpacesInside(s, a, b, 0);
    var sign := SkipSpaces(id, 0);
    var first := SkipSign(id, sign);
    DigitsInside(s, a, b, first);
    var end := SkipDigits(id, first);
    if end > first {
      DigitInside(s, a, b, first, end);
      DecimalInside(s, a, b, first, end);
    }
  }

  lemma DigitInside(s: seq<byte>, a: nat, b: nat, first: nat, end: nat)
    requires a <= b <= |s| && first <= end && a + end <= b && forall k :: first <= k < end ==> IsDigit(s[a..b][k])
    ensures forall k :: a + first <= k < a + end ==> IsDigit(s[k])
  {
    forall k | a + first <= k < a + end
      ensures IsDigit(s[k])
    {
      assert s[a..b][k - a] == s[k];
    }
  }

  /** strncmp on stretches of two strings. */
  function StrNCmp(a: seq<byte>, b: seq<byte>, n: nat): (r: int)
    requires n <= |a| && n <= |b|
    ensures -1 <= r <= 1
  {
    if n == 0 then 0 else if a[0] != b[0] then (if a[0] < b[0] then -1 else 1) else StrNCmp(a[1..], b[1..], n - 1)
  }

  lemma {:induction false} TextByPrefix(a: seq<byte>, b: seq<byte>)
    ensures var r := StrNCmp(a, b, if |a| < |b| then |a| else |b|);
            CompareText(a, b) == if r != 0 then r else Sign(|a|, |b|)
  {
    if a != [] && b != [] {
      TextByPrefix(a[1..], b[1..]);
    }
  }

  /** One step of the comparison, between two identifiers. */
  method CompareIdentifiers(x: seq<byte>, lastx: nat, xptr: nat, y: seq<byte>, lasty: nat, yptr: nat) returns (res: int)
    requires lastx <= |x| && xptr == NextDot(x, lastx) && lasty <= |y| && yptr == NextDot(y, lasty)
    ensures res == CompareKey(KeyOf(x[lastx..xptr]), KeyOf(y[lasty..yptr]))
  {
    hide Strtol, NextDot;
    NumberInside(x, lastx, xptr);
    NumberInside(y, lasty, yptr);
    var xnum, ynum := Strtol(x, lastx), Strtol(y, lasty);
    var xisnum, yisnum := xnum.end == xptr, ynum.end == yptr;
    if xisnum && !yisnum {
      return -1;
    }
    if !xisnum && yisnum {
      return 1;
    }
    if xisnum && yisnum {
      if xnum.value != ynum.value {
        return if xnum.value < ynum.value then -1 else 1;
      }
    } else {
      var xn, yn := xptr - lastx, yptr - lasty;
      var least := if xn < yn then xn else yn;
      TextByPrefix(x[lastx..xptr], y[lasty..yptr]);
      var r := StrNCmp(x[lastx..xptr], y[lasty..yptr], least);
      if r != 0 {
        return if r < 0 then -1 else 1;
      }
      if xn != yn {
        return if xn < yn then -1 else 1;
      }
    }
    return 0;
  }

  /** compare_prerelease: both texts are walked identifier by identifier. */
  method ComparePrereleases(x: Option<seq<byte>>, y: Option<seq<byte>>) returns (res: int)
    ensures res == ComparePrerelease(x, y)
  {
    hide KeyOf, CompareKey, NextDot, Keys, CompareKeys;
    if x.None? && y.None? {
      return 0;
    }
    if y.None? {
      return -1;
    }
    if x.None? {
      return 1;
    }
    var s, t := x.value, y.value;
    var lastx, lasty := 0, 0;
    while true
      invariant 0 <= lastx <= |s| && 0 <= lasty <= |t|
      invariant CompareKeys(Keys(s, lastx), Keys(t, lasty)) == CompareKeys(Keys(s, 0), Keys(t, 0))
      decreases |s| - lastx
    {
      var xptr, yptr := NextDot(s, lastx), NextDot(t, lasty);
      res := CompareIdentifiers(s, lastx, xptr, t, lasty, yptr);
      Walked(s, lastx, t, lasty);
      if res != 0 {
        return;
      }
      lastx, lasty := xptr + 1, yptr + 1;
      if lastx == |s| + 1 && lasty == |t| + 1 {
        return 0;
      }
      if lastx == |s| + 1 {
        return -1;
      }
      if lasty == |t| + 1 {
        return 1;
      }
    }
  }

  lemma Walked(s: seq<byte>, i: nat, t: seq<byte>, j: nat)
    requires i <= |s| && j <= |t|
    ensures var p, q := NextDot(s, i), NextDot(t, j); var r := CompareKey(KeyOf(s[i..p]), KeyOf(t[j..q]));
            CompareKeys(Keys(s, i), Keys(t, j)) ==
            if r != 0 then r else if p == |s| then (if q == |t| then 0 else -1) else if q == |t| then 1
            else CompareKeys(Keys(s, p + 1), Keys(t, q + 1))
  {
    hide KeyOf, CompareKey, NextDot;
    var p, q := NextDot(s, i), NextDot(t, j);
    if p < |s| {
      assert Keys(s, i)[1..] == Keys(s, p + 1);
    }
    if q < |t| {
      assert Keys(t, j)[1..] == Keys(t, q + 1);
    }
  }

  /** Texts without a dot are one identifier. */
  lemma {:induction false} OneIdentifier(s: seq<byte>, i: nat)
    requires i <= |s| && forall k :: i <= k < |s| ==> s[k] != DOT
    ensures NextDot(s, i) == |s| && Keys(s, i) == [KeyOf(s[i..])]
    decreases |s| - i
  {
    hide KeyOf;
    assert s[i..|s|] == s[i..];
  }

  /** Numeric identifiers are below all others, whatever their size. */
  lemma NumericBelowText(a: seq<byte>, b: seq<byte>)
    requires DOT !in a && DOT !in b && KeyOf(a).Num? && KeyOf(b).Text?
    ensures ComparePrerelease(Some(a), Some(b)) == -1
  {
    hide KeyOf;
    OneIdentifier(a, 0);
    OneIdentifier(b, 0);
    assert a[0..] == a && b[0..] == b;
  }

  lemma KeysStep(s: seq<byte>, i: nat)
    requires i <= |s|
    ensures var j := NextDot(s, i); Keys(s, i) == [KeyOf(s[i..j])] + if j == |s| then [] else Keys(s, j + 1)
  {
    hide KeyOf, NextDot;
  }

  lemma {:induction false} KeysOfExtension(s: seq<byte>, more: seq<byte>, i: nat)
    requires i <= |s|
    ensures Keys(s + [DOT] + more, i) == Keys(s, i) + Keys(s + [DOT] + more, |s| + 1)
    decreases |s| - i
  {
    hide KeyOf, Keys, NextDot;
    var t := s + [DOT] + more;
    SameDot(s, more, i);
    KeysStep(s, i);
    KeysStep(t, i);
    var j := NextDot(s, i);
    assert t[i..j] == s[i..j];
    if j < |s| {
      KeysOfExtension(s, more, j + 1);
    }
  }

  lemma {:induction false} SameDot(s: seq<byte>, more: seq<byte>, i: nat)
    requires i <= |s|
    ensures NextDot(s + [DOT] + more, i) == NextDot(s, i)
    decreases |s| - i
  {
    if i < |s| && s[i] != DOT {
      SameDot(s, more, i + 1);
    }
  }

  lemma {:induction false} PrefixOfKeys(a: seq<Key>, b: seq<Key>)
    requires b != []
    ensures CompareKeys(a, a + b) == -1
  {
    if a != [] {
      KeyOrder(a[0], a[0], a[0]);
      PrefixOfKeys(a[1..], b);
      assert (a + b)[1..] == a[1..] + b;
    }
  }

  /** A list of identifiers is below every longer list that starts with it. */
  lemma BelowExtension(s: seq<byte>, more: seq<byte>)
    ensures ComparePrerelease(Some(s), Some(s + [DOT] + more)) == -1
  {
    KeysOfExtension(s, more, 0);
    PrefixOfKeys(Keys(s, 0), Keys(s + [DOT] + more, |s| + 1));
  }

  /** The decimal text of a number, without leading zeros. */
  function Text10(n: nat): (s: seq<byte>)
    ensures s != [] && forall k :: 0 <= k < |s| ==> IsDigit(s[k])
  {
    if n < 10 then [Digit(n)] else Text10(n / 10) + [Digit(n % 10)]
  }

  function Digit(d: nat): (b: byte)
    requires d < 10
    ensures IsDigit(b) && (b - 48) as nat == d
  {
    (d as byte) + 48
  }

  lemma {:induction false} AllDigits(s: seq<byte>, i: nat)
    requires i <= |s| && forall k :: i <= k < |s| ==> IsDigit(s[k])
    ensures SkipDigits(s, i) == |s|
    decreases |s| - i
  {
    if i < |s| {
      AllDigits(s, i + 1);
    }
  }

  lemma {:induction false} SameDecimal(s: seq<byte>, t: seq<byte>, j: nat)
    requires j <= |s| && (forall k :: 0 <= k < |s| ==> IsDigit(s[k])) && (forall k :: 0 <= k < |t| ==> IsDigit(t[k]))
    ensures j <= |s + t| && (forall k :: 0 <= k < j ==> IsDigit((s + t)[k])) && Decimal(s + t, 0, j) == Decimal(s, 0, j)
  {
    if j > 0 {
      SameDecimal(s, t, j - 1);
    }
  }

  /** One more digit. */
  lemma DecimalMore(front: seq<byte>, d: nat)
    requires d < 10 && forall k :: 0 <= k < |front| ==> IsDigit(front[k])
    ensures var s := front + [Digit(d)];
            (forall k :: 0 <= k < |s| ==> IsDigit(s[k])) && Decimal(s, 0, |s|) == 10 * Decimal(front, 0, |front|) + d
  {
    hide IsDigit;
    SameDecimal(front, [Digit(d)], |front|);
    assert (front + [Digit(d)])[|front|] == Digit(d);
  }

  lemma {:induction false} DecimalOf(n: nat)
    ensures Decimal(Text10(n), 0, |Text10(n)|) == n
  {
    hide IsDigit;
    if n >= 10 {
      var front := Text10(n / 10);
      DecimalOf(n / 10);
      DecimalMore(front, n % 10);
    } else {
      assert Decimal(Text10(n), 0, 0) == 0;
    }
  }

  /** A number counts for what is left of it in an int. */
  lemma KeyOfNumber(n: nat)
    ensures KeyOf(Text10(n)) == Num(Truncated(Saturated(n))) && DOT !in Text10(n)
  {
    hide Text10, Decimal, Truncated, Saturated;
    var s := Text10(n);
    AllDigits(s, 0);
    DecimalOf(n);
    assert IsDigit(s[0]);
  }

  /** Behind a hyphen the same digits count for the negative number. */
  lemma KeyOfNegative(n: nat)
    ensures KeyOf([45] + Text10(n)) == Num(Truncated(Saturated(0 - n)))
  {
    hide Text10, Decimal, Truncated, Saturated;
    var t := Text10(n);
    var s := [45] + t;
    assert s[1..|s|] == t && s[0] == 45;
    assert forall k :: 1 <= k < |s| ==> s[k] == t[k - 1];
    AllDigits(s, 1);
    DecimalOf(n);
    DecimalInside(s, 1, |s|, 0, |t|);
  }

  lemma SingleKeys(a: Key, b: Key)
    ensures CompareKeys([a], [b]) == CompareKey(a, b)
  {
    assert [a][1..] == [] && [b][1..] == [];
  }

  lemma NumbersCompared(m: nat, n: nat)
    ensures ComparePrerelease(Some(Text10(m)), Some(Text10(n))) == Sign(Truncated(Saturated(m)), Truncated(Saturated(n)))
  {
    hide Text10, KeyOf, Truncated, Saturated;
    KeyOfNumber(m);
    KeyOfNumber(n);
    var s, t := Text10(m), Text10(n);
    OneIdentifier(s, 0);
    OneIdentifier(t, 0);
    assert s[0..] == s && t[0..] == t;
    SingleKeys(KeyOf(s), KeyOf(t));
  }

  const INT_MAX: nat := 0x7FFF_FFFF

  /** A numeric identifier is ordered by its value against all that fit an int exactly when it fits an int itself. */
  lemma NumericOrderIff(n: nat)
    ensures (forall m: nat :: m <= INT_MAX ==> ComparePrerelease(Some(Text10(n)), Some(Text10(m))) == Sign(n, m)) <==> n <= INT_MAX
  {
    hide Text10, ComparePrerelease;
    forall m: nat | m <= INT_MAX
      ensures ComparePrerelease(Some(Text10(n)), Some(Text10(m))) == Sign(Truncated(Saturated(n)), m)
    {
      NumbersCompared(n, m);
    }
    if n > INT_MAX {
      var v := Truncated(Saturated(n));
      var m: nat := if v < 0 then 0 else v;
      assert ComparePrerelease(Some(Text10(n)), Some(Text10(m))) != Sign(n, m);
    }
  }

  predicate DigitsFrom(s: seq<byte>, i: nat)
    requires i <= |s|
  {
    forall k :: i <= k < |s| ==> IsDigit(s[k])
  }

  /** White space up to i, a sign if any, and from j on nothing but digits, at least one. */
  predicate NumberAt(id: seq<byte>, i: nat, j: nat) {
    && i <= j < |id| && (forall k :: 0 <= k < i ==> IsSpace(id[k]))
    && (j == i || (j == i + 1 && (id[i] == 43 || id[i] == 45))) && DigitsFrom(id, j)
  }

  lemma {:induction false} SpacesSkipped(s: seq<byte>, i: nat)
    requires i <= |s|
    ensures var j := SkipSpaces(s, i); (forall k :: i <= k < j ==> IsSpace(s[k])) && (j < |s| ==> !IsSpace(s[j]))
    decreases |s| - i
  {
    if i < |s| && IsSpace(s[i]) {
      SpacesSkipped(s, i + 1);
    }
  }

  lemma {:induction false} DigitsSkipped(s: seq<byte>, i: nat)
    requires i <= |s|
    ensures var j := SkipDigits(s, i); j < |s| ==> !IsDigit(s[j])
    decreases |s| - i
  {
    if i < |s| && IsDigit(s[i]) {
      DigitsSkipped(s, i + 1);
    }
  }

  /** An identifier counts as a number exactly when it is empty or white space, a sign and digits; the first two may be missing. */
  lemma NumericIff(id: seq<byte>)
    ensures KeyOf(id).Num? <==> id == [] || exists i: nat, j: nat :: NumberAt(id, i, j)
  {
    var sign := SkipSpaces(id, 0);
    var first := SkipSign(id, sign);
    var end := SkipDigits(id, first);
    SpacesSkipped(id, 0);
    DigitsSkipped(id, first);
    if first < end == |id| {
      assert NumberAt(id, sign, first);
    }
    forall i: nat, j: nat | NumberAt(id, i, j)
      ensures i == sign && j == first && end == |id|
    {
      NumberFound(id, i, j);
    }
  }

  lemma NumberFound(id: seq<byte>, i: nat, j: nat)
    requires NumberAt(id, i, j)
    ensures SkipSpaces(id, 0) == i && SkipSign(id, i) == j && SkipDigits(id, j) == |id|
  {
    SpacesSkipped(id, 0);
    DigitsSkipped(id, j);
    assert !IsSpace(id[i]);
  }

  /** The characters an identifier may be made of. */
  predicate InAlphabet(id: seq<byte>) {
    forall k :: 0 <= k < |id| ==> IsDigit(id[k]) || 65 <= id[k] <= 90 || 97 <= id[k] <= 122 || id[k] == 45
  }

  /** Section 11 of Semantic Versioning 2.0.0: the identifiers of digits only are the numeric ones. */
  predicate NumericByStandard(id: seq<byte>) {
    id != [] && DigitsFrom(id, 0)
  }

  /** The standard's classification is met except for the empty identifier and for a hyphen with only digits behind it. */
  lemma StandardIff(id: seq<byte>)
    requires InAlphabet(id)
    ensures (KeyOf(id).Num? <==> NumericByStandard(id)) <==> !(id == [] || (id[0] == 45 && |id| >= 2 && DigitsFrom(id, 1)))
  {
    hide KeyOf;
    NumericIff(id);
    if id == [] {
      EmptyIsZero();
    } else if DigitsFrom(id, 0) {
      assert NumberAt(id, 0, 0);
    } else if id[0] == 45 && |id| >= 2 && DigitsFrom(id, 1) {
      assert NumberAt(id, 0, 1);
    } else {
      assert !IsSpace(id[0]);
    }
  }

  lemma EmptyIsZero()
    ensures KeyOf([]) == Num(0)
  {
  }
}
