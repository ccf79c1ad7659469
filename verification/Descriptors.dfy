/** describePlan: one rendering of a descriptor map, whatever order the map is walked in. */
module Descriptors {

  /** The order of Go strings: byte by byte, a proper prefix first. */
  predicate Le(a: string, b: string) {
    a == "" || (b != "" && (a[0] < b[0] || (a[0] == b[0] && Le(a[1..], b[1..]))))
  }

  lemma {:induction false} LeTotal(a: string, b: string)
    ensures Le(a, b) || Le(b, a)
  {
    if a != "" && b != "" && a[0] == b[0] {
      LeTotal(a[1..], b[1..]);
    }
  }

  lemma {:induction false} LeAntisymmetric(a: string, b: string)
    requires Le(a, b) && Le(b, a)
    ensures a == b
  {
    if a != "" && b != "" {
      LeAntisymmetric(a[1..], b[1..]);
      assert a == [a[0]] + a[1..] && b == [b[0]] + b[1..];
    }
  }

  lemma {:induction false} LeTransitive(a: string, b: string, c: string)
    requires Le(a, b) && Le(b, c)
    ensures Le(a, c)
  {
    if a != "" && a[0] == b[0] == c[0] {
      LeTransitive(a[1..], b[1..], c[1..]);
    }
  }

  /** Byte order: a prefix comes first, otherwise the first byte that differs decides. */
  lemma {:induction false} LeExact(a: string, b: string)
    ensures Le(a, b) <==> a <= b || exists i :: DiffersAt(a, b, i) && a[i] < b[i]
  {
    if a != "" && b != "" && a[0] == b[0] {
      var a', b' := a[1..], b[1..];
      LeExact(a', b');
      assert a == [a[0]] + a' && b == [b[0]] + b';
      forall i | DiffersAt(a', b', i) ensures DiffersAt(a, b, i + 1) {
        assert a[..i + 1] == [a[0]] + a'[..i] && b[..i + 1] == [b[0]] + b'[..i];
      }
      forall i | DiffersAt(a, b, i) ensures i > 0 && DiffersAt(a', b', i - 1) {
        assert a'[..i - 1] == a[..i][1..] && b'[..i - 1] == b[..i][1..];
      }
    } else if a != "" && b != "" {
      assert DiffersAt(a, b, 0);
      assert forall i :: DiffersAt(a, b, i) && i > 0 ==> a[..i][0] == a[0] && b[..i][0] == b[0];
    }
  }

  /** The first byte that differs is at i. */
  predicate DiffersAt(a: string, b: string, i: int) {
    0 <= i < |a| && i < |b| && a[..i] == b[..i] && a[i] != b[i]
  }

  ghost predicate Sorted(keys: seq<string>) {
    forall i, j :: 0 <= i < j < |keys| ==> Le(keys[i], keys[j])
  }

  /** keys lists s, each element once. */
  ghost predicate Enumerates(keys: seq<string>, s: set<string>) {
    && (forall i, j :: 0 <= i < j < |keys| ==> keys[i] != keys[j])
    && (forall k :: k in keys <==> k in s)
  }

  function Insert(x: string, keys: seq<string>): seq<string> {
    if keys == [] || Le(x, keys[0]) then [x] + keys else [keys[0]] + Insert(x, keys[1..])
  }

  /** Go's sort.Strings. */
  function SortStrings(keys: seq<string>): seq<string> {
    if keys == [] then [] else Insert(keys[0], SortStrings(keys[1..]))
  }

  lemma {:induction false} InsertMembers(x: string, keys: seq<string>)
    ensures |Insert(x, keys)| == |keys| + 1
    ensures forall k :: k in Insert(x, keys) <==> k == x || k in keys
  {
    if keys != [] && !Le(x, keys[0]) {
      InsertMembers(x, keys[1..]);
      assert keys == [keys[0]] + keys[1..];
    }
  }

  lemma {:induction false} InsertSorted(x: string, keys: seq<string>)
    requires Sorted(keys) && x !in keys && forall i, j :: 0 <= i < j < |keys| ==> keys[i] != keys[j]
    ensures var r := Insert(x, keys); Sorted(r) && forall i, j :: 0 <= i < j < |r| ==> r[i] != r[j]
  {
    var r := Insert(x, keys);
    if keys != [] {
      var tail := Insert(x, keys[1..]);
      if Le(x, keys[0]) {
        forall j | 0 <= j < |keys| ensures Le(x, keys[j]) {
          if j > 0 {
            LeTransitive(x, keys[0], keys[j]);
          }
        }
      } else {
        LeTotal(x, keys[0]);
        InsertSorted(x, keys[1..]);
        InsertMembers(x, keys[1..]);
        forall j | 0 <= j < |tail| ensures Le(keys[0], tail[j]) && keys[0] != tail[j] {
          assert tail[j] in tail;
          if tail[j] != x {
            var i :| 0 <= i < |keys[1..]| && keys[1..][i] == tail[j];
            assert keys[i + 1] == tail[j];
          }
        }
      }
    }
  }

  lemma {:induction false} SortEnumerates(keys: seq<string>, s: set<string>)
    requires Enumerates(keys, s)
    ensures Enumerates(SortStrings(keys), s) && Sorted(SortStrings(keys))
  {
    if keys != [] {
      var x, tail := keys[0], keys[1..];
      assert keys == [x] + tail;
      assert forall i :: 0 <= i < |tail| ==> tail[i] == keys[i + 1];
      SortEnumerates(tail, s - {x});
      assert x !in SortStrings(tail);
      InsertMembers(x, SortStrings(tail));
      InsertSorted(x, SortStrings(tail));
    }
  }

  /** There is one sorted enumeration of a set. */
  lemma {:induction false} SortedUnique(a: seq<string>, b: seq<string>, s: set<string>)
    requires Enumerates(a, s) && Sorted(a) && Enumerates(b, s) && Sorted(b)
    ensures a == b
  {
    assert a != [] ==> a[0] in a;
    assert b != [] ==> b[0] in b;
    if a != [] && b != [] {
      var i :| 0 <= i < |a| && a[i] == b[0];
      var j :| 0 <= j < |b| && b[j] == a[0];
      LeTotal(a[0], a[0]);
      LeAntisymmetric(a[0], b[0]);
      TailEnumerates(a, s);
      TailEnumerates(b, s);
      SortedUnique(a[1..], b[1..], s - {a[0]});
      assert a == [a[0]] + a[1..] && b == [b[0]] + b[1..];
    }
  }

  lemma TailEnumerates(keys: seq<string>, s: set<string>)
    requires Enumerates(keys, s) && Sorted(keys) && keys != []
    ensures Enumerates(keys[1..], s - {keys[0]}) && Sorted(keys[1..])
  {
    assert keys == [keys[0]] + keys[1..];
    assert forall i :: 0 <= i < |keys[1..]| ==> keys[1..][i] == keys[i + 1];
  }

  /** The first n pairs, as "k=v, k=v". */
  function Rendered(keys: seq<string>, desc: map<string, string>, n: nat): string
    requires n <= |keys| && forall k :: k in keys ==> k in desc
  {
    if n == 0 then ""
    else Rendered(keys, desc, n - 1) + (if n > 1 then ", " else "") + keys[n - 1] + "=" + desc[keys[n - 1]]
  }

  lemma {:induction false} EnumerationExists(s: set<string>) returns (keys: seq<string>)
    ensures Enumerates(keys, s)
    decreases |s|
  {
    if s == {} {
      keys := [];
    } else {
      var x :| x in s;
      var tail := EnumerationExists(s - {x});
      keys := [x] + tail;
    }
  }

  lemma SortedKeysExist(s: set<string>)
    ensures exists keys :: Enumerates(keys, s) && Sorted(keys)
  {
    var walk := EnumerationExists(s);
    SortEnumerates(walk, s);
  }

  ghost function SortedKeys(s: set<string>): (keys: seq<string>)
    ensures Enumerates(keys, s) && Sorted(keys)
  {
    SortedKeysExist(s);
    var keys :| Enumerates(keys, s) && Sorted(keys);
    keys
  }

  /** The description of a descriptor map: its pairs in the order of the keys. */
  ghost function Describe(desc: map<string, string>): string {
    Rendered(SortedKeys(desc.Keys), desc, |SortedKeys(desc.Keys)|)
  }

  /** Two walks over the same map in any orders, sorted, render the same string: the description. */
  lemma OrderIrrelevant(walk1: seq<string>, walk2: seq<string>, desc: map<string, string>)
    requires Enumerates(walk1, desc.Keys) && Enumerates(walk2, desc.Keys)
    ensures SortStrings(walk1) == SortStrings(walk2)
    ensures var keys := SortStrings(walk1);
      Enumerates(keys, desc.Keys) && Rendered(keys, desc, |keys|) == Describe(desc)
  {
    SortEnumerates(walk1, desc.Keys);
    SortEnumerates(walk2, desc.Keys);
    SortedUnique(SortStrings(walk1), SortStrings(walk2), desc.Keys);
    SortedUnique(SortStrings(walk1), SortedKeys(desc.Keys), desc.Keys);
  }

  // ---- when the description determines the map ----

  function Pair(k: string, v: string): string {
    k + "=" + v
  }

  /** No "=" in a key, and no ", " in a pair. */
  predicate Separable(desc: map<string, string>) {
    forall k <- desc.Keys :: '=' !in k && NoBreak(Pair(k, desc[k]))
  }

  predicate NoBreak(x: string) {
    forall i :: 0 <= i < |x| - 1 ==> !BreakAt(x, i)
  }

  predicate BreakAt(x: string, i: nat)
    requires i + 1 < |x|
  {
    x[i] == ',' && x[i + 1] == ' '
  }

  /** The pairs of the keys, each with a separator in front. */
  function Tail(keys: seq<string>, desc: map<string, string>): string
    requires forall k :: k in keys ==> k in desc
  {
    if keys == [] then "" else ", " + Pair(keys[0], desc[keys[0]]) + Tail(keys[1..], desc)
  }

  lemma {:induction false} TailSnoc(keys: seq<string>, k: string, desc: map<string, string>)
    requires forall x :: x in keys + [k] ==> x in desc
    ensures (forall x :: x in keys ==> x in desc)
    ensures Tail(keys + [k], desc) == Tail(keys, desc) + (", " + Pair(k, desc[k]))
  {
    assert forall x :: x in keys ==> x in keys + [k];
    assert k in keys + [k];
    if keys == [] {
      assert (keys + [k])[1..] == [];
      assert Tail([], desc) == "";
    } else {
      assert (keys + [k])[1..] == keys[1..] + [k] && (keys + [k])[0] == keys[0];
      TailSnoc(keys[1..], k, desc);
    }
  }

  lemma PairBehind(p: string, t: string, k: string, v: string)
    ensures p + t + ", " + k + "=" + v == p + (t + (", " + Pair(k, v)))
  {
  }

  lemma {:induction false} RenderedFromFront(keys: seq<string>, desc: map<string, string>, n: nat)
    requires 0 < n <= |keys| && forall k :: k in keys ==> k in desc
    ensures forall k :: k in keys[1..n] ==> k in desc
    ensures Rendered(keys, desc, n) == Pair(keys[0], desc[keys[0]]) + Tail(keys[1..n], desc)
  {
    if n == 1 {
      assert Rendered(keys, desc, 0) == "";
      assert keys[1..1] == [] && Tail([], desc) == "";
    } else {
      var k, front := keys[n - 1], keys[1..n - 1];
      RenderedFromFront(keys, desc, n - 1);
      assert keys[1..n] == front + [k];
      TailSnoc(front, k, desc);
      PairBehind(Pair(keys[0], desc[keys[0]]), Tail(front, desc), k, desc[k]);
    }
  }

  /** A pair ends at the first separator. */
  lemma PairEnds(x: string, s: string, y: string, t: string)
    requires NoBreak(x) && NoBreak(y) && (s == "" || ", " <= s) && (t == "" || ", " <= t)
    requires x + s == y + t
    ensures |x| >= |y|
  {
    if |x| < |y| {
      var n := |x|;
      assert (x + s)[n] == s[0] == ',' && (x + s)[n + 1] == s[1] == ' ';
      if n + 1 < |y| {
        assert BreakAt(y, n);
      }
    }
  }

  lemma PairParts(k1: string, v1: string, k2: string, v2: string)
    requires '=' !in k1 && '=' !in k2 && Pair(k1, v1) == Pair(k2, v2)
    ensures k1 == k2 && v1 == v2
  {
    var p := Pair(k1, v1);
    assert p[|k1|] == '=' && p[|k2|] == '=';
    assert forall i :: 0 <= i < |k1| ==> p[i] == k1[i];
    assert forall i :: 0 <= i < |k2| ==> p[i] == k2[i];
    assert k1 == p[..|k1|] && k2 == p[..|k2|];
    assert v1 == p[|k1| + 1..] && v2 == p[|k2| + 1..];
  }

  predicate SamePairs(keys1: seq<string>, d1: map<string, string>, keys2: seq<string>, d2: map<string, string>) {
    keys1 == keys2 && forall k <- keys1 :: k in d1 && k in d2 && d1[k] == d2[k]
  }

  /** The same pairs come from the same texts. */
  lemma {:induction false} TailsInjective(keys1: seq<string>, d1: map<string, string>,
                                          keys2: seq<string>, d2: map<string, string>)
    requires (forall k :: k in keys1 ==> k in d1) && (forall k :: k in keys2 ==> k in d2)
    requires Separable(d1) && Separable(d2)
    requires Tail(keys1, d1) == Tail(keys2, d2)
    ensures SamePairs(keys1, d1, keys2, d2)
    decreases |keys1|, 1
  {
    if keys1 != [] && keys2 != [] {
      var p1, p2 := Pair(keys1[0], d1[keys1[0]]), Pair(keys2[0], d2[keys2[0]]);
      assert p1 + Tail(keys1[1..], d1) == Tail(keys1, d1)[2..] == p2 + Tail(keys2[1..], d2);
      FrontsInjective(keys1, d1, keys2, d2);
    }
  }

  lemma {:induction false} FrontsInjective(keys1: seq<string>, d1: map<string, string>,
                                           keys2: seq<string>, d2: map<string, string>)
    requires (forall k :: k in keys1 ==> k in d1) && (forall k :: k in keys2 ==> k in d2)
    requires Separable(d1) && Separable(d2)
    requires keys1 != [] && keys2 != []
    requires Pair(keys1[0], d1[keys1[0]]) + Tail(keys1[1..], d1) == Pair(keys2[0], d2[keys2[0]]) + Tail(keys2[1..], d2)
    ensures SamePairs(keys1, d1, keys2, d2)
    decreases |keys1|, 0
  {
    var p1, p2 := Pair(keys1[0], d1[keys1[0]]), Pair(keys2[0], d2[keys2[0]]);
    var t1, t2 := Tail(keys1[1..], d1), Tail(keys2[1..], d2);
    PairEnds(p1, t1, p2, t2);
    PairEnds(p2, t2, p1, t1);
    assert p1 == (p1 + t1)[..|p1|] && p2 == (p2 + t2)[..|p2|];
    assert t1 == (p1 + t1)[|p1|..] && t2 == (p2 + t2)[|p2|..];
    PairParts(keys1[0], d1[keys1[0]], keys2[0], d2[keys2[0]]);
    TailsInjective(keys1[1..], d1, keys2[1..], d2);
    assert keys1 == [keys1[0]] + keys1[1..] && keys2 == [keys2[0]] + keys2[1..];
  }

  lemma RenderedInjective(keys1: seq<string>, d1: map<string, string>, keys2: seq<string>, d2: map<string, string>)
    requires (forall k :: k in keys1 ==> k in d1) && (forall k :: k in keys2 ==> k in d2)
    requires Separable(d1) && Separable(d2) && Rendered(keys1, d1, |keys1|) == Rendered(keys2, d2, |keys2|)
    ensures SamePairs(keys1, d1, keys2, d2)
  {
    if keys1 != [] {
      RenderedFromFront(keys1, d1, |keys1|);
      assert keys1[1..|keys1|] == keys1[1..];
    }
    if keys2 != [] {
      RenderedFromFront(keys2, d2, |keys2|);
      assert keys2[1..|keys2|] == keys2[1..];
    }
    if keys1 != [] && keys2 != [] {
      FrontsInjective(keys1, d1, keys2, d2);
    }
  }

  /** Without "=" in keys and ", " in pairs, maps with the same description are the same map. */
  lemma DescribeInjective(d1: map<string, string>, d2: map<string, string>)
    requires Separable(d1) && Separable(d2) && Describe(d1) == Describe(d2)
    ensures d1 == d2
  {
    var keys1, keys2 := SortedKeys(d1.Keys), SortedKeys(d2.Keys);
    RenderedInjective(keys1, d1, keys2, d2);
    assert forall k :: k in d1.Keys <==> k in keys1;
    assert forall k :: k in d2.Keys <==> k in keys2;
    assert d1.Keys == d2.Keys;
  }

  lemma DescribeSorted(keys: seq<string>, desc: map<string, string>)
    requires Enumerates(keys, desc.Keys) && Sorted(keys)
    ensures Describe(desc) == Rendered(keys, desc, |keys|)
  {
    SortedUnique(keys, SortedKeys(desc.Keys), desc.Keys);
  }

  lemma DescribeOne(k: string, v: string)
    ensures Describe(map[k := v]) == Pair(k, v)
  {
    var desc := map[k := v];
    DescribeSorted([k], desc);
    RenderedFromFront([k], desc, 1);
    assert Tail([], desc) == "";
  }

  lemma DescribeTwo(k1: string, v1: string, k2: string, v2: string)
    requires Le(k1, k2) && k1 != k2
    ensures Describe(map[k1 := v1, k2 := v2]) == Pair(k1, v1) + (", " + Pair(k2, v2))
  {
    var desc := map[k1 := v1, k2 := v2];
    DescribeSorted([k1, k2], desc);
    RenderedFromFront([k1, k2], desc, 2);
    assert [k1, k2][1..2] == [k2];
    assert Tail([k2], desc) == ", " + Pair(k2, v2) + Tail([], desc);
  }

  /** The condition is needed: these two maps render alike. */
  lemma DescribeLosesPairs()
    ensures var d1, d2 := map["a" := "1, b=2"], map["a" := "1", "b" := "2"];
      d1 != d2 && Describe(d1) == Describe(d2) == "a=1, b=2"
  {
    assert "a"[0] < "b"[0];
    DescribeOne("a", "1, b=2");
    DescribeTwo("a", "1", "b", "2");
    assert "b" !in map["a" := "1, b=2"];
  }

  lemma WalkOn(keys: seq<string>, s: set<string>, k: string)
    requires Enumerates(keys, s) && k !in s
    ensures Enumerates(keys + [k], s + {k})
  {
    assert forall i :: 0 <= i < |keys| ==> keys[i] in keys;
  }

  /** The keys in whatever order the map is walked. */
  method WalkKeys(desc: map<string, string>) returns (keys: seq<string>)
    ensures Enumerates(keys, desc.Keys)
  {
    keys := [];
    var pending := desc.Keys;
    while pending != {}
      invariant pending <= desc.Keys && Enumerates(keys, desc.Keys - pending)
      decreases |pending|
    {
      var k :| k in pending;  // the iteration order of a map is unspecified
      WalkOn(keys, desc.Keys - pending, k);
      assert desc.Keys - pending + {k} == desc.Keys - (pending - {k});
      keys, pending := keys + [k], pending - {k};
    }
    assert desc.Keys - pending == desc.Keys;
  }

  method DescribePlan(desc: map<string, string>) returns (r: string)
    ensures r == Describe(desc)
  {
    if |desc| == 0 {
      OrderIrrelevant([], [], desc);
      return "";
    }
    var keys := WalkKeys(desc);
    OrderIrrelevant(keys, keys, desc);
    keys := SortStrings(keys);
    r := "";
    for i := 0 to |keys|
      invariant r == Rendered(keys, desc, i)
    {
      if i > 0 {
        r := r + ", ";
      }
      r := r + keys[i] + "=" + desc[keys[i]];
    }
  }
}
