/**
  The stable descending sort the aggregations rely on: sorting an array with
  the comparator `(a, b) => key(b) - key(a)`. The language's sort is stable, so
  elements with equal keys keep their relative order. It is modelled as an
  insertion sort over values; what the callers use is stated as lemmas:
  the result is sorted, is a permutation of the input, and is stable.
 */
module Sorting {
  import opened Counting

  /** Keys never increase from left to right. */
  predicate SortedDesc<T>(s: seq<T>, key: T -> real)
  {
    forall i, j :: 0 <= i < j < |s| ==> key(s[i]) >= key(s[j])
  }

  /** How many leading elements have a key of at least `k`: the place where a
      stable descending sort puts an element with key `k` that comes after them. */
  function InsertionPoint<T>(s: seq<T>, k: real, key: T -> real): (j: nat)
    ensures j <= |s|
    ensures forall i :: 0 <= i < j ==> key(s[i]) >= k
    ensures j < |s| ==> key(s[j]) < k
  {
    if s == [] || key(s[0]) < k then 0 else 1 + InsertionPoint(s[1..], k, key)
  }

  /** `x` placed after every leading element whose key is at least its own. */
  function Insert<T>(x: T, s: seq<T>, key: T -> real): seq<T>
  {
    var j := InsertionPoint(s, key(x), key);
    s[..j] + [x] + s[j..]
  }

  /** Stable descending sort: each element, taken in input order, is inserted
      behind the already sorted elements whose keys are not smaller. */
  function SortDesc<T>(s: seq<T>, key: T -> real): (r: seq<T>)
    ensures |r| == |s|
  {
    if s == [] then [] else Insert(s[|s| - 1], SortDesc(s[..|s| - 1], key), key)
  }

  /** The shape of an insertion: the prefix, then `x`, then the rest. */
  lemma InsertShape<T>(x: T, s: seq<T>, key: T -> real)
    ensures |Insert(x, s, key)| == |s| + 1
    ensures Insert(x, s, key)[InsertionPoint(s, key(x), key)] == x
    ensures forall i :: 0 <= i < InsertionPoint(s, key(x), key) ==> Insert(x, s, key)[i] == s[i]
    ensures forall i :: InsertionPoint(s, key(x), key) < i <= |s| ==> Insert(x, s, key)[i] == s[i - 1]
    ensures multiset(Insert(x, s, key)) == multiset(s) + multiset{x}
  {
    var j := InsertionPoint(s, key(x), key);
    SpliceShape(x, s, j);
  }

  /** `s[..j] + [x] + s[j..]`, for any split point `j`. */
  lemma SpliceShape<T>(x: T, s: seq<T>, j: nat)
    requires j <= |s|
    ensures |s[..j] + [x] + s[j..]| == |s| + 1
    ensures (s[..j] + [x] + s[j..])[j] == x
    ensures forall i :: 0 <= i < j ==> (s[..j] + [x] + s[j..])[i] == s[i]
    ensures forall i :: j < i <= |s| ==> (s[..j] + [x] + s[j..])[i] == s[i - 1]
    ensures multiset(s[..j] + [x] + s[j..]) == multiset(s) + multiset{x}
  {
    assert s == s[..j] + s[j..];
  }

  lemma InsertSorted<T>(x: T, s: seq<T>, key: T -> real)
    requires SortedDesc(s, key)
    ensures SortedDesc(Insert(x, s, key), key)
  {
    var j := InsertionPoint(s, key(x), key);
    var r := Insert(x, s, key);
    InsertShape(x, s, key);
    forall a, b | 0 <= a < b < |r| ensures key(r[a]) >= key(r[b]) {
      if b == j {
        assert key(s[a]) >= key(x);
      } else if a == j {
        assert key(s[j]) < key(x) && key(s[j]) >= key(s[b - 1]);
      }
    }
  }

  lemma InsertDistinct<T>(x: T, s: seq<T>, key: T -> real)
    requires Distinct(s) && x !in s
    ensures Distinct(Insert(x, s, key))
  {
    var j := InsertionPoint(s, key(x), key);
    var r := Insert(x, s, key);
    InsertShape(x, s, key);
    forall a, b | 0 <= a < b < |r| ensures r[a] != r[b] {
      if a == j {
        assert r[b] == s[b - 1];
      } else if b == j {
        assert r[a] == s[a];
      } else {
        var a' := if a < j then a else a - 1;
        var b' := if b < j then b else b - 1;
        assert r[a] == s[a'] && r[b] == s[b'] && a' < b';
      }
    }
  }

  /** Where an old element of `s` ends up once `x` is inserted. */
  lemma InsertIndex<T>(x: T, s: seq<T>, key: T -> real, w: T)
    requires SortedDesc(s, key) && Distinct(s) && x !in s
    ensures IndexOf(Insert(x, s, key), x) == InsertionPoint(s, key(x), key)
    ensures w in s ==>
      IndexOf(Insert(x, s, key), w) == IndexOf(s, w) + (if IndexOf(s, w) >= InsertionPoint(s, key(x), key) then 1 else 0)
  {
    var j := InsertionPoint(s, key(x), key);
    var r := Insert(x, s, key);
    InsertShape(x, s, key);
    InsertDistinct(x, s, key);
    IndexOfDistinct(r, j);
    if w in s {
      var i := IndexOf(s, w);
      var p := if i >= j then i + 1 else i;
      assert r[p] == w;
      IndexOfDistinct(r, p);
    }
  }

  /** The sort returns the input's elements, sorted; it keeps distinct inputs distinct. */
  lemma {:induction false} SortDescFacts<T>(s: seq<T>, key: T -> real)
    ensures SortedDesc(SortDesc(s, key), key)
    ensures multiset(SortDesc(s, key)) == multiset(s)
    ensures Distinct(s) ==> Distinct(SortDesc(s, key))
  {
    if s != [] {
      var p := s[..|s| - 1];
      assert s == p + [s[|s| - 1]];
      SortDescFacts(p, key);
      if Distinct(s) {
        assert Distinct(p);
        assert s[|s| - 1] !in multiset(p);
      }
      InsertShape(s[|s| - 1], SortDesc(p, key), key);
      InsertSorted(s[|s| - 1], SortDesc(p, key), key);
      if Distinct(s) {
        InsertDistinct(s[|s| - 1], SortDesc(p, key), key);
      }
    }
  }

  /** Elements with equal keys keep their input order. */
  lemma {:induction false} SortDescStable<T>(s: seq<T>, key: T -> real, i: nat, j: nat)
    requires Distinct(s) && i < j < |s| && key(s[i]) == key(s[j])
    ensures s[i] in SortDesc(s, key) && s[j] in SortDesc(s, key)
    ensures IndexOf(SortDesc(s, key), s[i]) < IndexOf(SortDesc(s, key), s[j])
  {
    var n := |s|;
    var p := s[..n - 1];
    assert s == p + [s[n - 1]];
    assert Distinct(p);
    SortDescFacts(p, key);
    var q := SortDesc(p, key);
    var y := s[n - 1];
    assert y !in multiset(q);
    assert s[i] in multiset(q);
    var jj := InsertionPoint(q, key(y), key);
    InsertIndex(y, q, key, s[i]);
    if j < n - 1 {
      assert p[i] == s[i] && p[j] == s[j];
      SortDescStable(p, key, i, j);
      assert s[j] in multiset(q);
      InsertIndex(y, q, key, s[j]);
    }
    SortDescFacts(s, key);
  }

  /** In a sorted sequence an element with a strictly higher key stands further left. */
  lemma HigherKeyFirst<T>(r: seq<T>, key: T -> real, a: T, b: T)
    requires SortedDesc(r, key) && a in r && b in r && key(a) > key(b)
    ensures IndexOf(r, a) < IndexOf(r, b)
  {
  }
}
