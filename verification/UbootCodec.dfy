/** The text of a U-Boot environment: name=value pairs, each ended by a NUL, behind a checksum. */
module UbootCodec {
  import opened Bytes
  import opened Crc32
  import opened UbootPairs

  const EQUALS: byte := 61

  /** A C string. */
  predicate NulFree(s: seq<byte>) {
    forall k :: 0 <= k < |s| ==> s[k] != 0
  }

  /** Names that survive being read back. The first character is never taken for the end of the name. */
  predicate GoodName(name: seq<byte>) {
    name != [] && NulFree(name) && forall k :: 1 <= k < |name| ==> name[k] != EQUALS
  }

  predicate GoodPairs(ps: seq<Pair>) {
    forall k :: 0 <= k < |ps| ==> GoodName(ps[k].name) && NulFree(ps[k].value)
  }

  function Entry(p: Pair): seq<byte> {
    p.name + [EQUALS] + p.value + [0]
  }

  function Body(ps: seq<Pair>): seq<byte> {
    if ps == [] then [] else Entry(ps[0]) + Body(ps[1..])
  }

  /** The position of the first '=' or NUL from i on, or the end. */
  function SkipName(d: seq<byte>, i: nat): (r: nat)
    requires i <= |d|
    ensures i <= r <= |d| && (r < |d| ==> d[r] == EQUALS || d[r] == 0)
    ensures forall k :: i <= k < r ==> d[k] != EQUALS && d[k] != 0
    decreases |d| - i
  {
    if i == |d| || d[i] == 0 || d[i] == EQUALS then i else SkipName(d, i + 1)
  }

  /** The position of the first NUL from i on, or the end. */
  function SkipValue(d: seq<byte>, i: nat): (r: nat)
    requires i <= |d|
    ensures i <= r <= |d| && (r < |d| ==> d[r] == 0)
    ensures forall k :: i <= k < r ==> d[k] != 0
    decreases |d| - i
  {
    if i == |d| || d[i] == 0 then i else SkipValue(d, i + 1)
  }

  /** What was read, in the order of the text, and whether reading came to a proper end. */
  datatype Parsed = Parsed(pairs: seq<Pair>, ok: bool)

  datatype Step = Bad | Got(pair: Pair, next: nat)

  /** Reads one pair: up to '=', but not before the second character, then up to the NUL. */
  function ReadPair(d: seq<byte>, i: nat): (r: Step)
    requires i < |d|
    ensures r.Got? ==> i < r.next <= |d| && NulFree(r.pair.value) && (d[i] != 0 ==> GoodName(r.pair.name))
  {
    var j := SkipName(d, i + 1);
    if j == |d| || d[j] == 0 then Bad
    else
      var k := SkipValue(d, j + 1);
      if k == |d| then Bad else Got(Pair(d[i..j], d[j + 1..k]), k + 1)
  }

  /** Reads pairs from position i on; an empty name or the end of the data ends the list. */
  function Parse(d: seq<byte>, i: nat): Parsed
    requires i <= |d|
    decreases |d| - i
  {
    if i == |d| || d[i] == 0 then Parsed([], true)
    else
      match ReadPair(d, i)
      case Bad => Parsed([], false)
      case Got(p, next) => var rest := Parse(d, next); Parsed([p] + rest.pairs, rest.ok)
  }

  /** Everything that is ever read has a good name and a value without a NUL. */
  lemma {:induction false} ParsedAreGood(d: seq<byte>, i: nat)
    requires i <= |d|
    ensures GoodPairs(Parse(d, i).pairs)
    decreases |d| - i
  {
    hide ReadPair;
    if i < |d| && d[i] != 0 && ReadPair(d, i).Got? {
      ParsedAreGood(d, ReadPair(d, i).next);
    }
  }

  /** The string s stands at position i of d. */
  ghost predicate StandsAt(d: seq<byte>, i: nat, s: seq<byte>) {
    i + |s| <= |d| && forall k :: 0 <= k < |s| ==> d[i + k] == s[k]
  }

  lemma StandsFirst(d: seq<byte>, i: nat, s: seq<byte>, t: seq<byte>)
    requires StandsAt(d, i, s + t)
    ensures StandsAt(d, i, s) && StandsAt(d, i + |s|, t)
  {
    forall k | 0 <= k < |s|
      ensures d[i + k] == s[k]
    {
      assert d[i + k] == (s + t)[k];
    }
    forall k | 0 <= k < |t|
      ensures d[i + |s| + k] == t[k]
    {
      assert d[i + (|s| + k)] == (s + t)[|s| + k];
    }
  }

  lemma StandsOne(d: seq<byte>, i: nat, b: byte)
    requires StandsAt(d, i, [b])
    ensures i < |d| && d[i] == b
  {
    assert d[i + 0] == [b][0];
  }

  lemma NameStop(d: seq<byte>, i: nat, name: seq<byte>)
    requires StandsAt(d, i, name) && StandsAt(d, i + |name|, [EQUALS]) && GoodName(name)
    ensures SkipName(d, i + 1) == i + |name| && d[i] != 0 && d[i..i + |name|] == name
  {
    hide SkipName;
    StandsOne(d, i + |name|, EQUALS);
    assert d[i + 0] == name[0];
    assert forall k :: i <= k < i + |name| ==> d[k] == name[k - i];
  }

  lemma ValueStop(d: seq<byte>, i: nat, value: seq<byte>)
    requires StandsAt(d, i, value) && StandsAt(d, i + |value|, [0]) && NulFree(value)
    ensures SkipValue(d, i) == i + |value| && d[i..i + |value|] == value
  {
    hide SkipValue;
    StandsOne(d, i + |value|, 0);
    assert forall k :: i <= k < i + |value| ==> d[k] == value[k - i];
  }

  /** A good pair that was printed reads back as it was. */
  lemma PairRead(d: seq<byte>, i: nat, p: Pair)
    requires StandsAt(d, i, Entry(p)) && GoodName(p.name) && NulFree(p.value)
    ensures d[i] != 0 && ReadPair(d, i) == Got(p, i + |Entry(p)|)
  {
    hide SkipName, SkipValue, StandsAt, GoodName, NulFree;
    StandsFirst(d, i, p.name + [EQUALS] + p.value, [0]);
    StandsFirst(d, i, p.name + [EQUALS], p.value);
    StandsFirst(d, i, p.name, [EQUALS]);
    NameStop(d, i, p.name);
    ValueStop(d, i + |p.name| + 1, p.value);
    StandsOne(d, i + |p.name|, EQUALS);
    StandsOne(d, i + |Entry(p)| - 1, 0);
  }

  lemma ParseOne(d: seq<byte>, i: nat)
    requires i < |d| && d[i] != 0 && ReadPair(d, i).Got?
    ensures var r := ReadPair(d, i); var rest := Parse(d, r.next); Parse(d, i) == Parsed([r.pair] + rest.pairs, rest.ok)
  {
    hide ReadPair;
  }

  lemma ParseNothing(d: seq<byte>, i: nat)
    requires i <= |d| && (i < |d| ==> d[i] == 0)
    ensures Parse(d, i) == Parsed([], true)
  {
  }

  lemma BodyOf(ps: seq<Pair>)
    ensures Body(ps) == if ps == [] then [] else Entry(ps[0]) + Body(ps[1..])
  {
  }

  lemma GoodTail(ps: seq<Pair>)
    requires GoodPairs(ps) && ps != []
    ensures GoodName(ps[0].name) && NulFree(ps[0].value) && GoodPairs(ps[1..])
  {
  }

  /** Good pairs that were printed, followed by a NUL or the end of the data, read back as they were. */
  lemma {:induction false} ParseText(d: seq<byte>, i: nat, ps: seq<Pair>)
    requires StandsAt(d, i, Body(ps)) && GoodPairs(ps)
    requires i + |Body(ps)| <= |d| && (i + |Body(ps)| < |d| ==> d[i + |Body(ps)|] == 0)
    ensures Parse(d, i) == Parsed(ps, true)
    decreases |ps|
  {
    hide ReadPair, Entry, StandsAt, GoodPairs, Parse, Body, GoodName, NulFree;
    BodyOf(ps);
    if ps == [] {
      ParseNothing(d, i);
    } else {
      GoodTail(ps);
      StandsFirst(d, i, Entry(ps[0]), Body(ps[1..]));
      PairRead(d, i, ps[0]);
      ParseText(d, i + |Entry(ps[0])|, ps[1..]);
      ParseOne(d, i);
      assert ps == [ps[0]] + ps[1..];
    }
  }

  /** What was read is what stands there, followed by a NUL or the end of the data. */
  lemma {:induction false} ParsedStands(d: seq<byte>, i: nat)
    requires i <= |d| && Parse(d, i).ok
    ensures var ps := Parse(d, i).pairs;
            StandsAt(d, i, Body(ps)) && (i + |Body(ps)| < |d| ==> d[i + |Body(ps)|] == 0)
    decreases |d| - i
  {
    hide ReadPair, Entry;
    if i < |d| && d[i] != 0 {
      var r := ReadPair(d, i);
      PairStands(d, i);
      ParsedStands(d, r.next);
      var rest := Parse(d, r.next).pairs;
      assert ([r.pair] + rest)[1..] == rest;
      Joined(d, i, Entry(r.pair), Body(rest));
    }
  }

  lemma Joined(d: seq<byte>, i: nat, s: seq<byte>, t: seq<byte>)
    requires StandsAt(d, i, s) && StandsAt(d, i + |s|, t)
    ensures StandsAt(d, i, s + t)
  {
    forall k | 0 <= k < |s| + |t|
      ensures d[i + k] == (s + t)[k]
    {
      if k >= |s| {
        assert d[i + |s| + (k - |s|)] == t[k - |s|];
      }
    }
  }

  lemma PairStands(d: seq<byte>, i: nat)
    requires i < |d| && ReadPair(d, i).Got?
    ensures var r := ReadPair(d, i); StandsAt(d, i, Entry(r.pair)) && r.next == i + |Entry(r.pair)|
  {
  }

  lemma {:induction false} BodyAppend(ps: seq<Pair>, p: Pair)
    ensures Body(ps + [p]) == Body(ps) + Entry(p)
  {
    hide Entry;
    if ps == [] {
      assert (ps + [p])[1..] == [];
    } else {
      BodyAppend(ps[1..], p);
      assert (ps + [p])[1..] == ps[1..] + [p];
    }
  }

  lemma {:induction false} PrefixShorter(ps: seq<Pair>, k: nat)
    requires k <= |ps|
    ensures |Body(ps[..k])| <= |Body(ps)|
  {
    hide Entry;
    if k > 0 {
      assert ps[..k][1..] == ps[1..][..k - 1];
      PrefixShorter(ps[1..], k - 1);
    }
  }

  /** The space the pairs need does not depend on their order. */
  lemma {:induction false} SortedLength(ps: seq<Pair>)
    ensures |Body(SortByName(ps))| == |Body(ps)|
  {
    hide Entry;
    if ps != [] {
      SortedLength(ps[1..]);
      InsertedLength(ps[0], SortByName(ps[1..]));
    }
  }

  lemma {:induction false} InsertedLength(p: Pair, ps: seq<Pair>)
    ensures |Body(Insert(p, ps))| == |Entry(p)| + |Body(ps)|
  {
    hide Entry;
    var r := Insert(p, ps);
    if ps == [] || !Less(ps[0].name, p.name) {
      assert r[1..] == ps;
    } else {
      InsertedLength(p, ps[1..]);
      assert r[1..] == Insert(p, ps[1..]);
    }
  }

  /** Where the text starts: behind the checksum and, with two copies, the counter. */
  function DataOffset(redundant: bool): nat {
    if redundant then 5 else 4
  }

  /** The pairs fit with a NUL behind them; the last byte is never used. */
  predicate Fits(ps: seq<Pair>, redundant: bool, size: nat) {
    ps == [] || DataOffset(redundant) + |Body(ps)| + 2 <= size
  }

  function Payload(ps: seq<Pair>, n: nat): (r: seq<byte>)
    requires |Body(ps)| < n
    ensures |r| == n
  {
    Body(ps) + [0] + seq(n - |Body(ps)| - 1, _ => 0xFF)
  }

  function LittleEndian(c: bv32): (r: seq<byte>)
    ensures |r| == 4
  {
    [(c & 0xFF) as byte, ((c >> 8) & 0xFF) as byte, ((c >> 16) & 0xFF) as byte, (c >> 24) as byte]
  }

  function FromLittleEndian(a: byte, b: byte, c: byte, d: byte): bv32 {
    (a as bv32) | ((b as bv32) << 8) | ((c as bv32) << 16) | ((d as bv32) << 24)
  }

  lemma LittleEndianBack(c: bv32)
    ensures var b := LittleEndian(c); FromLittleEndian(b[0], b[1], b[2], b[3]) == c
  {
  }

  /** A whole environment block. */
  function Image(ps: seq<Pair>, redundant: bool, flag: byte, size: nat): (r: seq<byte>)
    requires size >= BLOCK_SIZE && Fits(ps, redundant, size)
    ensures |r| == size
  {
    var payload := Payload(ps, size - DataOffset(redundant));
    LittleEndian(Crc(payload)) + (if redundant then [flag] else []) + payload
  }

  function StoredCrc(d: seq<byte>): bv32
    requires |d| >= 4
  {
    FromLittleEndian(d[0], d[1], d[2], d[3])
  }

  predicate CrcOk(d: seq<byte>, redundant: bool)
    requires |d| >= 5
  {
    Crc(d[DataOffset(redundant)..]) == StoredCrc(d)
  }

  /** What decoding a block gives. */
  function DecodeImage(d: seq<byte>, redundant: bool): Parsed
    requires |d| >= 5
  {
    if CrcOk(d, redundant) then Parse(d, DataOffset(redundant)) else Parsed([], false)
  }

  lemma ImageParts(ps: seq<Pair>, redundant: bool, flag: byte, size: nat)
    requires size >= BLOCK_SIZE && Fits(ps, redundant, size)
    ensures var d := Image(ps, redundant, flag, size); var off := DataOffset(redundant);
            d[off..] == Payload(ps, size - off) && StoredCrc(d) == Crc(Payload(ps, size - off)) && (redundant ==> d[4] == flag)
  {
    hide Payload, Crc, LittleEndian, FromLittleEndian;
    var off := DataOffset(redundant);
    LittleEndianBack(Crc(Payload(ps, size - off)));
  }

  lemma TextInImage(ps: seq<Pair>, redundant: bool, flag: byte, size: nat)
    requires size >= BLOCK_SIZE && Fits(ps, redundant, size)
    ensures var d := Image(ps, redundant, flag, size); var e := DataOffset(redundant) + |Body(ps)|;
            StandsAt(d, DataOffset(redundant), Body(ps)) && e < |d| && d[e] == 0
  {
    hide Image, Crc;
    var off := DataOffset(redundant);
    var d := Image(ps, redundant, flag, size);
    var payload := Payload(ps, size - off);
    ImageParts(ps, redundant, flag, size);
    assert forall k :: 0 <= k < |payload| ==> d[off + k] == d[off..][k] == payload[k];
    assert payload[|Body(ps)|] == 0;
  }

  /** The length of the text of these pairs: name, '=', value and NUL of each. */
  function TextLength(ps: seq<Pair>): nat {
    if ps == [] then 0 else TextLength(ps[..|ps| - 1]) + |ps[|ps| - 1].name| + |ps[|ps| - 1].value| + 2
  }

  /** The pair stands at index i, byte for byte. */
  ghost predicate PairAt(d: seq<byte>, i: nat, p: Pair) {
    && i + |p.name| + |p.value| + 2 <= |d|
    && d[i..i + |p.name|] == p.name && d[i + |p.name|] == 61
    && d[i + |p.name| + 1..i + |p.name| + 1 + |p.value|] == p.value && d[i + |p.name| + 1 + |p.value|] == 0
  }

  ghost predicate PairsFrom(d: seq<byte>, i: nat, ps: seq<Pair>) {
    forall k :: 0 <= k < |ps| ==> PairAt(d, i + TextLength(ps[..k]), ps[k])
  }

  /** A block as U-Boot defines it: the checksum of what follows, lowest byte first, the counter, the pairs, a NUL, and 0xFF. */
  ghost predicate Laid(d: seq<byte>, ps: seq<Pair>, redundant: bool, flag: byte) {
    var text := if redundant then 5 else 4;
    var end := text + TextLength(ps);
    && end < |d| && PairsFrom(d, text, ps) && d[end] == 0 && (forall k :: end < k < |d| ==> d[k] == 0xFF) && (redundant ==> d[4] == flag)
    && Crc(d[text..]) == (d[0] as bv32) | ((d[1] as bv32) << 8) | ((d[2] as bv32) << 16) | ((d[3] as bv32) << 24)
  }

  lemma {:induction false} BodyLength(ps: seq<Pair>)
    ensures |Body(ps)| == TextLength(ps)
  {
    if ps != [] {
      var n := |ps| - 1;
      BodyLength(ps[..n]);
      BodyAppend(ps[..n], ps[n]);
      assert ps == ps[..n] + [ps[n]];
    }
  }

  /** Where their text stands the pairs stand one behind the other. */
  lemma {:induction false} PairsStand(d: seq<byte>, i: nat, ps: seq<Pair>)
    requires StandsAt(d, i, Body(ps))
    ensures PairsFrom(d, i, ps)
  {
    hide Body, Entry, PairAt, TextLength, StandsAt;
    if ps != [] {
      var n := |ps| - 1;
      BodyLength(ps[..n]);
      BodyAppend(ps[..n], ps[n]);
      assert ps == ps[..n] + [ps[n]];
      StandsFirst(d, i, Body(ps[..n]), Entry(ps[n]));
      PairsStand(d, i, ps[..n]);
      EntryStands(d, i + TextLength(ps[..n]), ps[n]);
      OneMorePair(d, i, ps);
    }
  }

  lemma OneMorePair(d: seq<byte>, i: nat, ps: seq<Pair>)
    requires ps != [] && PairsFrom(d, i, ps[..|ps| - 1]) && PairAt(d, i + TextLength(ps[..|ps| - 1]), ps[|ps| - 1])
    ensures PairsFrom(d, i, ps)
  {
    hide PairAt, TextLength;
    forall k | 0 <= k < |ps|
      ensures PairAt(d, i + TextLength(ps[..k]), ps[k])
    {
      if k < |ps| - 1 {
        assert ps[..|ps| - 1][..k] == ps[..k];
      }
    }
  }

  lemma EntryStands(d: seq<byte>, i: nat, p: Pair)
    requires StandsAt(d, i, Entry(p))
    ensures PairAt(d, i, p)
  {
    var e := Entry(p);
    assert e[|p.name|] == 61 && e[|p.name| + 1 + |p.value|] == 0;
    assert d[i + |p.name|] == e[|p.name|] && d[i + (|p.name| + 1 + |p.value|)] == e[|p.name| + 1 + |p.value|];
    assert d[i..i + |p.name|] == e[..|p.name|] == p.name;
    assert d[i + |p.name| + 1..i + |p.name| + 1 + |p.value|] == e[|p.name| + 1..|p.name| + 1 + |p.value|] == p.value;
  }

  /** Whether the pairs fit is a matter of their lengths: a NUL behind them, and one byte more. */
  lemma FitsIff(ps: seq<Pair>, redundant: bool, size: nat)
    ensures Fits(ps, redundant, size) <==> ps == [] || (if redundant then 5 else 4) + TextLength(ps) + 2 <= size
  {
    BodyLength(ps);
    hide Body, TextLength;
  }

  /** What is written is laid out like that. */
  lemma ImageLaid(ps: seq<Pair>, redundant: bool, flag: byte, size: nat)
    requires size >= BLOCK_SIZE && Fits(ps, redundant, size)
    ensures Laid(Image(ps, redundant, flag, size), ps, redundant, flag)
  {
    hide Crc, Body, TextLength, PairsFrom, StandsAt, LittleEndian, Image, Payload, Fits;
    var d := Image(ps, redundant, flag, size);
    var text := DataOffset(redundant);
    BodyLength(ps);
    ImageParts(ps, redundant, flag, size);
    TextInImage(ps, redundant, flag, size);
    PairsStand(d, text, ps);
    FilledUp(ps, size - text);
    forall k | text + TextLength(ps) < k < |d|
      ensures d[k] == 0xFF
    {
      assert d[k] == d[text..][k - text];
    }
  }

  lemma FilledUp(ps: seq<Pair>, n: nat)
    requires |Body(ps)| < n
    ensures forall k :: |Body(ps)| < k < n ==> Payload(ps, n)[k] == 0xFF
  {
    hide Body;
  }

  /** An encoded block decodes to the pairs it was made of exactly when all names are good and all values free of NULs. */
  lemma DecodesBackIff(ps: seq<Pair>, redundant: bool, flag: byte, size: nat)
    requires size >= BLOCK_SIZE && Fits(ps, redundant, size)
    ensures DecodeImage(Image(ps, redundant, flag, size), redundant) == Parsed(ps, true) <==> GoodPairs(ps)
  {
    hide Image, Crc, Parse, GoodPairs, Payload;
    var d := Image(ps, redundant, flag, size);
    ImageParts(ps, redundant, flag, size);
    if GoodPairs(ps) {
      TextInImage(ps, redundant, flag, size);
      ParseText(d, DataOffset(redundant), ps);
    }
    ParsedAreGood(d, DataOffset(redundant));
  }

  /** The counter is outside the checksum: changing it alone changes nothing that is decoded. */
  lemma CounterNotCovered(d: seq<byte>, flag: byte)
    requires |d| >= BLOCK_SIZE
    ensures DecodeImage(d[4 := flag], true) == DecodeImage(d, true)
  {
    hide Crc;
    var r := d[4 := flag];
    assert r[5..] == d[5..];
    if CrcOk(d, true) {
      assert forall k :: 5 <= k < |d| ==> d[k] == r[k];
      SameText(d, r, 5);
    }
  }

  /** Parsing looks at nothing before its start. */
  lemma {:induction false} SameText(d: seq<byte>, r: seq<byte>, i: nat)
    requires i <= |d| == |r| && forall k :: i <= k < |d| ==> d[k] == r[k]
    ensures Parse(d, i) == Parse(r, i)
    decreases |d| - i
  {
    hide ReadPair;
    if i < |d| && d[i] != 0 {
      SamePair(d, r, i);
      if ReadPair(d, i).Got? {
        SameText(d, r, ReadPair(d, i).next);
      }
    }
  }

  ghost predicate SameFrom(d: seq<byte>, r: seq<byte>, i: nat) {
    |d| == |r| && forall k :: i <= k < |d| ==> d[k] == r[k]
  }

  lemma PairIs(d: seq<byte>, i: nat)
    requires i < |d|
    ensures ReadPair(d, i) ==
            var j := SkipName(d, i + 1);
            if j == |d| || d[j] == 0 then Bad else
            var k := SkipValue(d, j + 1);
            if k == |d| then Bad else Got(Pair(d[i..j], d[j + 1..k]), k + 1)
  {
  }

  lemma SamePair(d: seq<byte>, r: seq<byte>, i: nat)
    requires i < |d| && SameFrom(d, r, i)
    ensures ReadPair(d, i) == ReadPair(r, i)
  {
    hide SkipName, SkipValue, NulFree, GoodName, SameFrom, ReadPair;
    var j := SkipName(d, i + 1);
    SameInside(d, r, i, i + 1, j);
    if j < |d| {
      SameInside(d, r, i, j + 1, SkipValue(d, j + 1));
    }
    PairIs(d, i);
    PairIs(r, i);
  }

  lemma SameInside(d: seq<byte>, r: seq<byte>, i: nat, from: nat, to: nat)
    requires i < from <= |d| && SameFrom(d, r, i)
    ensures SkipName(d, from) == SkipName(r, from) && SkipValue(d, from) == SkipValue(r, from)
    ensures from <= to <= |d| ==> |d| == |r| && d[i..to] == r[i..to] && d[from..to] == r[from..to]
    ensures from <= to < |d| ==> d[to] == r[to]
  {
    SameSkips(d, r, from);
  }

  lemma {:induction false} SameSkips(d: seq<byte>, r: seq<byte>, i: nat)
    requires i <= |d| == |r| && forall k :: i <= k < |d| ==> d[k] == r[k]
    ensures SkipName(d, i) == SkipName(r, i) && SkipValue(d, i) == SkipValue(r, i)
    decreases |d| - i
  {
    if i < |d| {
      SameSkips(d, r, i + 1);
    }
  }

  lemma SplicedTail(d: seq<byte>, k: nat, w: seq<byte>, off: nat)
    requires off <= k && k + |w| <= |d|
    ensures Splice(d, k, w)[off..] == d[off..k] + w + d[k + |w|..]
  {
    var r := Splice(d, k, w);
    forall j | 0 <= j < |d| - off
      ensures r[off..][j] == (d[off..k] + w + d[k + |w|..])[j]
    {
      assert r[off..][j] == r[off + j];
    }
  }

  /** Damage of up to four bytes in a row anywhere in the text is always noticed. */
  lemma DamageNoticed(d: seq<byte>, redundant: bool, k: nat, w: seq<byte>)
    requires |d| >= BLOCK_SIZE && CrcOk(d, redundant)
    requires DataOffset(redundant) <= k && k + |w| <= |d| && |w| <= 4 && w != d[k..k + |w|]
    ensures DecodeImage(Splice(d, k, w), redundant) == Parsed([], false)
  {
    hide Crc;
    var off := DataOffset(redundant);
    var r := Splice(d, k, w);
    assert d[off..] == d[off..k] + d[k..k + |w|] + d[k + |w|..];
    SplicedTail(d, k, w, off);
    BurstDetected(d[off..k], d[k..k + |w|], w, d[k + |w|..]);
  }

  lemma LittleEndianDiffers(a: byte, b: byte, c: byte, d: byte, k: nat, v: byte)
    requires k < 4 && v != [a, b, c, d][k]
    ensures var r := [a, b, c, d][k := v]; FromLittleEndian(r[0], r[1], r[2], r[3]) != FromLittleEndian(a, b, c, d)
  {
    if k == 0 {
      FirstByte(a, b, c, d, v);
    } else if k == 1 {
      SecondByte(a, b, c, d, v);
    } else if k == 2 {
      ThirdByte(a, b, c, d, v);
    } else {
      FourthByte(a, b, c, d, v);
    }
  }

  lemma FirstByte(a: byte, b: byte, c: byte, d: byte, v: byte)
    ensures FromLittleEndian(v, b, c, d) == FromLittleEndian(a, b, c, d) <==> v == a
  {
  }

  lemma SecondByte(a: byte, b: byte, c: byte, d: byte, v: byte)
    ensures FromLittleEndian(a, v, c, d) == FromLittleEndian(a, b, c, d) <==> v == b
  {
  }

  lemma ThirdByte(a: byte, b: byte, c: byte, d: byte, v: byte)
    ensures FromLittleEndian(a, b, v, d) == FromLittleEndian(a, b, c, d) <==> v == c
  {
  }

  lemma FourthByte(a: byte, b: byte, c: byte, d: byte, v: byte)
    ensures FromLittleEndian(a, b, c, v) == FromLittleEndian(a, b, c, d) <==> v == d
  {
  }

  /** A block that decodes no longer does when one byte of its checksum is another one. */
  lemma ChecksumTorn(d: seq<byte>, k: nat, v: byte)
    requires |d| >= 5 && DecodeImage(d, true).ok && k < 4 && v != d[k]
    ensures !DecodeImage(d[k := v], true).ok
  {
    hide Crc, Parse, FromLittleEndian;
    var r := d[k := v];
    assert r[5..] == d[5..];
    LittleEndianDiffers(d[0], d[1], d[2], d[3], k, v);
    assert [d[0], d[1], d[2], d[3]][k := v] == [r[0], r[1], r[2], r[3]];
  }

  /** A block that does not decode can be had in every size. */
  lemma Undecodable(size: nat) returns (d: seq<byte>)
    requires size >= BLOCK_SIZE
    ensures |d| == size && !DecodeImage(d, true).ok
  {
    hide Crc, Payload, Image, Parse;
    var e := Image([], true, 0, size);
    ImageParts([], true, 0, size);
    d := Splice(e, 5, [e[5] ^ 1]);
    assert e[5..6] == [e[5]];
    DamageNoticed(e, true, 5, [e[5] ^ 1]);
  }
}
