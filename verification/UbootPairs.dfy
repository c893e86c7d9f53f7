/** Lists of environment variables: lookup, update, removal, and the order they are written in. */
module UbootPairs {
  import opened Bytes

  datatype Pair = Pair(name: seq<byte>, value: seq<byte>)

  type Env = map<seq<byte>, seq<byte>>

  predicate Distinct(ps: seq<Pair>) {
    forall a, b :: 0 <= a < b < |ps| ==> ps[a].name != ps[b].name
  }

  /** What looking names up finds: the first pair of that name. */
  function AsMap(ps: seq<Pair>): Env {
    if ps == [] then map[] else AsMap(ps[1..])[ps[0].name := ps[0].value]
  }

  lemma {:induction false} Lookup(ps: seq<Pair>, name: seq<byte>)
    requires Distinct(ps)
    ensures name in AsMap(ps) <==> exists k :: 0 <= k < |ps| && ps[k].name == name
    ensures forall k :: 0 <= k < |ps| && ps[k].name == name ==> name in AsMap(ps) && AsMap(ps)[name] == ps[k].value
  {
    if ps != [] {
      Lookup(ps[1..], name);
      assert forall k :: 0 <= k < |ps| - 1 ==> ps[1..][k] == ps[k + 1];
      if name in AsMap(ps[1..]) {
        var k :| 0 <= k < |ps[1..]| && ps[1..][k].name == name;
        assert ps[k + 1].name == name;
      }
      forall k | 0 <= k < |ps| && ps[k].name == name
        ensures name in AsMap(ps) && AsMap(ps)[name] == ps[k].value
      {
        if k > 0 {
          assert ps[1..][k - 1].name == name;
        }
      }
    }
  }

  lemma Member(ps: seq<Pair>, p: Pair)
    requires Distinct(ps)
    ensures p in ps <==> p.name in AsMap(ps) && AsMap(ps)[p.name] == p.value
  {
    hide AsMap, Distinct;
    Lookup(ps, p.name);
    if p.name in AsMap(ps) {
      var k :| 0 <= k < |ps| && ps[k].name == p.name;
      assert ps[k] in ps;
    }
  }

  /** Lists without repeated names hold the same pairs exactly when looking names up finds the same. */
  lemma SameMap(ps: seq<Pair>, qs: seq<Pair>)
    requires Distinct(ps) && Distinct(qs)
    ensures AsMap(ps) == AsMap(qs) <==> forall p :: p in ps <==> p in qs
  {
    hide AsMap, Distinct;
    forall p
      ensures p in ps <==> p.name in AsMap(ps) && AsMap(ps)[p.name] == p.value
      ensures p in qs <==> p.name in AsMap(qs) && AsMap(qs)[p.name] == p.value
    {
      Member(ps, p);
      Member(qs, p);
    }
    if forall p :: p in ps <==> p in qs {
      forall name
        ensures name in AsMap(ps) <==> name in AsMap(qs)
        ensures name in AsMap(ps) ==> AsMap(ps)[name] == AsMap(qs)[name]
      {
        if name in AsMap(ps) {
          assert Pair(name, AsMap(ps)[name]) in qs;
        }
        if name in AsMap(qs) {
          assert Pair(name, AsMap(qs)[name]) in ps;
        }
      }
    }
  }

  /** strcmp is negative: unsigned bytes, and a string comes before its extensions. */
  predicate Less(a: seq<byte>, b: seq<byte>) {
    if b == [] then false
    else if a == [] then true
    else if a[0] != b[0] then a[0] < b[0]
    else Less(a[1..], b[1..])
  }

  lemma {:induction false} LessTotal(a: seq<byte>, b: seq<byte>)
    ensures Less(a, b) || Less(b, a) || a == b
    ensures !(Less(a, b) && Less(b, a)) && !Less(a, a)
  {
    if a != [] {
      LessTotal(a[1..], a[1..]);
      if b != [] && a[0] == b[0] {
        LessTotal(a[1..], b[1..]);
        assert a == [a[0]] + a[1..] && b == [b[0]] + b[1..];
      }
    }
  }

  lemma {:induction false} LessTransitive(a: seq<byte>, b: seq<byte>, c: seq<byte>)
    requires Less(a, b) && Less(b, c)
    ensures Less(a, c)
  {
    if a != [] && a[0] == b[0] == c[0] {
      LessTransitive(a[1..], b[1..], c[1..]);
    }
  }

  /** The order of the names is the one of strcmp. */
  lemma {:induction false} LessIff(a: seq<byte>, b: seq<byte>)
    ensures Less(a, b) <==> ComesFirst(a, b)
  {
    hide ComesFirst;
    if a == [] || b == [] || a[0] != b[0] {
      ComesAtOnce(a, b);
    } else {
      LessIff(a[1..], b[1..]);
      ComesBehind(a, b);
    }
  }

  /** The pair put in front of the first one whose name is not smaller. */
  function Insert(p: Pair, ps: seq<Pair>): (r: seq<Pair>)
    ensures multiset(r) == multiset{p} + multiset(ps)
  {
    if ps == [] || !Less(ps[0].name, p.name) then [p] + ps
    else
      assert ps == [ps[0]] + ps[1..];
      [ps[0]] + Insert(p, ps[1..])
  }

  /** The order the pairs are written in. */
  function SortByName(ps: seq<Pair>): (r: seq<Pair>)
    ensures multiset(r) == multiset(ps)
  {
    if ps == [] then []
    else
      assert ps == [ps[0]] + ps[1..];
      Insert(ps[0], SortByName(ps[1..]))
  }

  /** Every name is smaller than those behind it. */
  ghost predicate Ordered(ps: seq<Pair>) {
    forall a, b :: 0 <= a < b < |ps| ==> Less(ps[a].name, ps[b].name)
  }

  lemma {:induction false} InsertOrdered(p: Pair, ps: seq<Pair>)
    requires Ordered(ps) && forall k :: 0 <= k < |ps| ==> ps[k].name != p.name
    ensures Ordered(Insert(p, ps))
  {
    if ps == [] {
    } else if !Less(ps[0].name, p.name) {
      LessTotal(ps[0].name, p.name);
      forall k | 0 < k < |ps|
        ensures Less(p.name, ps[k].name)
      {
        LessTransitive(p.name, ps[0].name, ps[k].name);
      }
    } else {
      InsertOrdered(p, ps[1..]);
      var r := Insert(p, ps[1..]);
      forall k | 0 <= k < |r|
        ensures Less(ps[0].name, r[k].name)
      {
        assert r[k] in multiset(r);
        assert r[k] == p || r[k] in ps[1..];
      }
    }
  }

  lemma {:induction false} SortOrdered(ps: seq<Pair>)
    requires Distinct(ps)
    ensures Ordered(SortByName(ps))
  {
    if ps != [] {
      var rest := SortByName(ps[1..]);
      SortOrdered(ps[1..]);
      forall k | 0 <= k < |rest|
        ensures rest[k].name != ps[0].name
      {
        assert rest[k] in multiset(rest);
        assert rest[k] in ps[1..];
      }
      InsertOrdered(ps[0], rest);
    }
  }

  /** Of any two pairs the name of the earlier one comes first. */
  ghost predicate NamesRise(ps: seq<Pair>) {
    forall a, b :: 0 <= a < b < |ps| ==> ComesFirst(ps[a].name, ps[b].name)
  }

  lemma SortedRises(ps: seq<Pair>)
    requires Distinct(ps)
    ensures NamesRise(SortByName(ps))
  {
    hide SortByName, Less, ComesFirst;
    SortOrdered(ps);
    var r := SortByName(ps);
    forall a, b | 0 <= a < b < |r|
      ensures ComesFirst(r[a].name, r[b].name)
    {
      LessIff(r[a].name, r[b].name);
    }
  }

  lemma SortMembers(ps: seq<Pair>)
    ensures forall p :: p in SortByName(ps) <==> p in ps
  {
    forall p
      ensures p in SortByName(ps) <==> p in ps
    {
      assert p in multiset(SortByName(ps)) <==> p in multiset(ps);
    }
  }

  lemma OrderedDistinct(ps: seq<Pair>)
    requires Ordered(ps)
    ensures Distinct(ps)
  {
    forall a, b | 0 <= a < b < |ps|
      ensures ps[a].name != ps[b].name
    {
      LessTotal(ps[a].name, ps[b].name);
    }
  }

  lemma FirstIsLeast(ps: seq<Pair>, p: Pair)
    requires Ordered(ps) && p in ps
    ensures p == ps[0] || Less(ps[0].name, p.name)
    ensures p in ps[1..] <==> p != ps[0]
  {
    OrderedDistinct(ps);
  }

  /** There is only one way to put a set of pairs in order, whatever the sorting method. */
  lemma {:induction false} OrderedUnique(ps: seq<Pair>, qs: seq<Pair>)
    requires Ordered(ps) && Ordered(qs) && forall p :: p in ps <==> p in qs
    ensures ps == qs
  {
    assert ps != [] ==> ps[0] in qs;
    assert qs != [] ==> qs[0] in ps;
    if ps != [] {
      FirstIsLeast(ps, qs[0]);
      FirstIsLeast(qs, ps[0]);
      LessTotal(ps[0].name, qs[0].name);
      forall p
        ensures p in ps[1..] <==> p in qs[1..]
      {
        assert p in ps[1..] ==> p in ps;
        assert p in qs[1..] ==> p in qs;
        if p in ps {
          FirstIsLeast(ps, p);
          FirstIsLeast(qs, p);
        }
      }
      OrderedUnique(ps[1..], qs[1..]);
      assert ps == [ps[0]] + ps[1..] && qs == [qs[0]] + qs[1..];
    }
  }

  /** The order written depends only on what the names stand for. */
  lemma SortDependsOnMap(ps: seq<Pair>, qs: seq<Pair>)
    requires Distinct(ps) && Distinct(qs) && AsMap(ps) == AsMap(qs)
    ensures SortByName(ps) == SortByName(qs)
  {
    hide AsMap, SortByName, Ordered, Distinct;
    SameMap(ps, qs);
    SortOrdered(ps);
    SortOrdered(qs);
    SortMembers(ps);
    SortMembers(qs);
    OrderedUnique(SortByName(ps), SortByName(qs));
  }

  function Reversed(ps: seq<Pair>): (r: seq<Pair>)
    ensures |r| == |ps| && forall k :: 0 <= k < |ps| ==> r[k] == ps[|ps| - 1 - k]
  {
    seq(|ps|, k requires 0 <= k < |ps| => ps[|ps| - 1 - k])
  }

  /** Sorting and reading back in the opposite order changes nothing that can be looked up. */
  lemma SortedBack(ps: seq<Pair>)
    requires Distinct(ps)
    ensures Distinct(Reversed(SortByName(ps))) && AsMap(Reversed(SortByName(ps))) == AsMap(ps)
  {
    hide AsMap, SortByName, Ordered;
    var s := SortByName(ps);
    var r := Reversed(s);
    SortOrdered(ps);
    OrderedDistinct(s);
    SortMembers(ps);
    forall p
      ensures p in r <==> p in ps
    {
      if p in s {
        var k :| 0 <= k < |s| && s[k] == p;
        assert r[|s| - 1 - k] == p;
      }
    }
    SameMap(r, ps);
  }

  /** The list after a variable is set: its first pair gets the value, or a new pair goes in front. */
  function WithPair(ps: seq<Pair>, name: seq<byte>, value: seq<byte>): seq<Pair> {
    var k := IndexOf(ps, name);
    if k < |ps| then ps[k := Pair(ps[k].name, value)] else [Pair(name, value)] + ps
  }

  function WithoutPair(ps: seq<Pair>, name: seq<byte>): seq<Pair> {
    var k := IndexOf(ps, name);
    if k < |ps| then ps[..k] + ps[k + 1..] else ps
  }

  /** Where the first pair of a name is. */
  function IndexOf(ps: seq<Pair>, name: seq<byte>): (k: nat)
    ensures k <= |ps| && (k < |ps| ==> ps[k].name == name)
    ensures forall j :: 0 <= j < k ==> ps[j].name != name
  {
    if ps == [] || ps[0].name == name then 0 else 1 + IndexOf(ps[1..], name)
  }

  lemma IndexBehind(ps: seq<Pair>, name: seq<byte>)
    requires ps != [] && ps[0].name != name
    ensures IndexOf(ps, name) == 1 + IndexOf(ps[1..], name)
  {
  }

  lemma Behind(ps: seq<Pair>, name: seq<byte>, value: seq<byte>)
    requires ps != [] && ps[0].name != name
    ensures WithoutPair(ps, name) == [ps[0]] + WithoutPair(ps[1..], name)
    ensures IndexOf(ps, name) < |ps| ==> WithPair(ps, name, value) == [ps[0]] + WithPair(ps[1..], name, value)
    ensures IndexOf(ps, name) == 1 + IndexOf(ps[1..], name)
  {
    hide IndexOf;
    IndexBehind(ps, name);
    var k := IndexOf(ps[1..], name);
    if k < |ps[1..]| {
      RemovedBehind(ps, k);
      assert ps[k + 1 := Pair(name, value)] == [ps[0]] + ps[1..][k := Pair(name, value)];
    } else {
      assert ps == [ps[0]] + ps[1..];
    }
  }

  lemma RemovedBehind(ps: seq<Pair>, k: nat)
    requires k + 1 < |ps|
    ensures ps[..k + 1] + ps[k + 2..] == [ps[0]] + (ps[1..][..k] + ps[1..][k + 1..])
  {
  }

  lemma {:induction false} SetsTheName(ps: seq<Pair>, name: seq<byte>, value: seq<byte>)
    ensures AsMap(WithPair(ps, name, value)) == AsMap(ps)[name := value]
  {
    var r := WithPair(ps, name, value);
    var k := IndexOf(ps, name);
    if k == |ps| {
      assert r[1..] == ps;
    } else if k == 0 {
      assert r[1..] == ps[1..];
    } else {
      hide WithPair, IndexOf;
      Behind(ps, name, value);
      SetsTheName(ps[1..], name, value);
      assert r[1..] == WithPair(ps[1..], name, value);
    }
  }

  lemma StaysDistinct(ps: seq<Pair>, name: seq<byte>, value: seq<byte>)
    requires Distinct(ps)
    ensures Distinct(WithPair(ps, name, value)) && Distinct(WithoutPair(ps, name))
  {
    hide IndexOf;
  }

  lemma {:induction false} RemovesTheName(ps: seq<Pair>, name: seq<byte>)
    requires Distinct(ps)
    ensures AsMap(WithoutPair(ps, name)) == AsMap(ps) - {name}
  {
    if ps != [] {
      hide Distinct;
      var r := WithoutPair(ps, name);
      NotAgain(ps);
      WithoutName(AsMap(ps[1..]), ps[0].name, ps[0].value, name);
      if ps[0].name == name {
        assert r == ps[1..];
      } else {
        hide WithoutPair;
        Behind(ps, name, []);
        RemovesTheName(ps[1..], name);
        assert r[1..] == WithoutPair(ps[1..], name);
      }
    }
  }

  lemma WithoutName(m: Env, k: seq<byte>, v: seq<byte>, name: seq<byte>)
    requires k !in m
    ensures m[k := v] - {name} == if k == name then m else (m - {name})[k := v]
  {
  }

  lemma NotAgain(ps: seq<Pair>)
    requires Distinct(ps) && ps != []
    ensures Distinct(ps[1..]) && ps[0].name !in AsMap(ps[1..])
  {
    Lookup(ps[1..], ps[0].name);
  }
}
