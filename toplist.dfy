/**
  The counting pipeline shared by the transfer getters: a dictionary of
  counts filled key by key (`counts[k] += 1`), turned into `{ name, count }`
  entries in key order, sorted by descending count (stably) and cut to its
  first five entries.
 */
module TopList {
  import opened Counting
  import opened Sorting

  /** One `{ name, count }` element of a getter's result. */
  datatype Entry = Entry(name: string, count: nat)

  function CountKey(e: Entry): real
  {
    e.count as real
  }

  /** How many entries a top list keeps. */
  const TopSize: nat := 5

  /** The entries of `ks`, each with its number of occurrences in `keys`. */
  function EntriesOver(ks: seq<string>, keys: seq<string>): (r: seq<Entry>)
    ensures |r| == |ks|
    ensures forall i :: 0 <= i < |ks| ==> r[i] == Entry(ks[i], Occurrences(keys, ks[i]))
  {
    seq(|ks|, i requires 0 <= i < |ks| => Entry(ks[i], Occurrences(keys, ks[i])))
  }

  /** The entries made from a counts dictionary filled by walking `keys`. */
  function Tallied(keys: seq<string>): seq<Entry>
  {
    EntriesOver(FirstSeen(keys), keys)
  }

  /** `Object.keys(counts).map(key => ({ name: key, count: counts[key] }))`. */
  function EntriesFrom(order: seq<string>, counts: map<string, nat>): (r: seq<Entry>)
    requires forall i :: 0 <= i < |order| ==> order[i] in counts
    ensures |r| == |order|
    ensures forall i :: 0 <= i < |order| ==> r[i] == Entry(order[i], counts[order[i]])
  {
    seq(|order|, i requires 0 <= i < |order| => Entry(order[i], counts[order[i]]))
  }

  /** `slice(0, n)`. */
  function Take<T>(s: seq<T>, n: nat): (r: seq<T>)
    ensures |r| <= n && |r| <= |s|
    ensures |r| == if |s| <= n then |s| else n
    ensures r == s[..|r|]
    ensures |s| <= n ==> r == s
  {
    if |s| <= n then s else s[..n]
  }

  /** `slice(n)`. */
  function Drop<T>(s: seq<T>, n: nat): (r: seq<T>)
    ensures Take(s, n) + r == s
  {
    if |s| <= n then [] else s[n..]
  }

  /** `reduce((sum, item) => sum + item.count, 0)`. */
  function SumCounts(s: seq<Entry>): nat
  {
    if s == [] then 0 else s[0].count + SumCounts(s[1..])
  }

  /** The first five entries by descending count, ties in key order. */
  function TopFive(keys: seq<string>): (r: seq<Entry>)
    ensures |r| == if |FirstSeen(keys)| <= TopSize then |FirstSeen(keys)| else TopSize
  {
    Take(SortDesc(Tallied(keys), CountKey), TopSize)
  }

  /** `order` and `counts` are the dictionary after walking `walked`. */
  ghost predicate Counted(walked: seq<string>, order: seq<string>, counts: map<string, nat>)
  {
    && order == FirstSeen(walked)
    && (forall k :: k in counts <==> k in walked)
    && (forall k :: k in counts ==> counts[k] == Occurrences(walked, k))
  }

  /** Walking `keys` with `counts[k] = (counts[k] || 0) + 1`. */
  method CountKeys(keys: seq<string>) returns (order: seq<string>, counts: map<string, nat>)
    ensures order == FirstSeen(keys)
    ensures forall k :: k in counts <==> k in keys
    ensures forall k :: k in counts ==> counts[k] == Occurrences(keys, k)
  {
    order, counts := [], map[];
    var i := 0;
    while i < |keys|
      invariant 0 <= i <= |keys|
      invariant Counted(keys[..i], order, counts)
    {
      assert keys[..i + 1] == keys[..i] + [keys[i]];
      order, counts := CountOne(keys[..i], keys[i], order, counts);
      i := i + 1;
    }
    assert keys[..i] == keys;
  }

  /** One key of the walk: create its counter at zero on first sight, then add one. */
  method CountOne(ghost walked: seq<string>, k: string, order0: seq<string>, counts0: map<string, nat>)
    returns (order: seq<string>, counts: map<string, nat>)
    requires Counted(walked, order0, counts0)
    ensures Counted(walked + [k], order, counts)
  {
    FirstSeenSnoc(walked, k);
    FirstSeenMember(walked, k);
    order, counts := order0, counts0;
    if k !in counts {
      order := order + [k];
      counts := counts[k := 0];
    }
    counts := counts[k := counts[k] + 1];
    forall x ensures Occurrences(walked + [k], x) == Occurrences(walked, x) + (if k == x then 1 else 0) {
      OccurrencesSnoc(walked, k, x);
    }
  }

  /** The entries built from `CountKeys`'s dictionary are `Tallied(keys)`. */
  lemma EntriesFromCounts(keys: seq<string>, order: seq<string>, counts: map<string, nat>)
    requires order == FirstSeen(keys)
    requires forall k :: k in counts <==> k in keys
    requires forall k :: k in counts ==> counts[k] == Occurrences(keys, k)
    ensures forall i :: 0 <= i < |order| ==> order[i] in counts
    ensures EntriesFrom(order, counts) == Tallied(keys)
  {
    forall i | 0 <= i < |order| ensures order[i] in counts {
      FirstSeenMember(keys, order[i]);
    }
  }

  // Properties of the tallies.

  /** An entry of the tally is a walked key with its number of occurrences. */
  lemma TalliedMember(keys: seq<string>, e: Entry)
    ensures e in Tallied(keys) <==> e.name in keys && e.count == Occurrences(keys, e.name)
  {
    var ks := FirstSeen(keys);
    FirstSeenMember(keys, e.name);
    if e.name in keys && e.count == Occurrences(keys, e.name) {
      var i := IndexOf(ks, e.name);
      assert Tallied(keys)[i] == e;
    }
  }

  lemma {:induction false} SumCountsOver(ks: seq<string>, keys: seq<string>)
    ensures SumCounts(EntriesOver(ks, keys)) == SumOccurrences(ks, keys)
  {
    if ks != [] {
      assert EntriesOver(ks, keys)[1..] == EntriesOver(ks[1..], keys);
      SumCountsOver(ks[1..], keys);
    }
  }

  /** The counts of the tally add up to the number of keys walked. */
  lemma TalliedSum(keys: seq<string>)
    ensures SumCounts(Tallied(keys)) == |keys|
  {
    SumCountsOver(FirstSeen(keys), keys);
    forall i | 0 <= i < |keys| ensures keys[i] in FirstSeen(keys) {
      FirstSeenMember(keys, keys[i]);
    }
    SumOccurrencesIsLength(FirstSeen(keys), keys);
  }

  lemma {:induction false} SumCountsAppend(a: seq<Entry>, b: seq<Entry>)
    ensures SumCounts(a + b) == SumCounts(a) + SumCounts(b)
  {
    if a != [] {
      assert (a + b)[1..] == a[1..] + b;
      SumCountsAppend(a[1..], b);
    } else {
      assert a + b == b;
    }
  }

  /** Sorting does not change the total. */
  lemma {:induction false} SortKeepsSum(s: seq<Entry>)
    ensures SumCounts(SortDesc(s, CountKey)) == SumCounts(s)
  {
    if s != [] {
      var p := s[..|s| - 1];
      var x := s[|s| - 1];
      assert s == p + [x];
      SortKeepsSum(p);
      var r := SortDesc(p, CountKey);
      var j := InsertionPoint(r, CountKey(x), CountKey);
      assert r == r[..j] + r[j..];
      SumCountsAppend(r[..j], r[j..]);
      SumCountsAppend(r[..j] + [x], r[j..]);
      SumCountsAppend(r[..j], [x]);
      SumCountsAppend(p, [x]);
    }
  }

  /** The facts about the sorted tally the getters' lemmas use. */
  lemma SortedTally(keys: seq<string>)
    ensures SortedDesc(SortDesc(Tallied(keys), CountKey), CountKey)
    ensures |SortDesc(Tallied(keys), CountKey)| == |FirstSeen(keys)|
    ensures SumCounts(SortDesc(Tallied(keys), CountKey)) == |keys|
    ensures forall e :: e in SortDesc(Tallied(keys), CountKey) <==> e in Tallied(keys)
    ensures forall i, j :: 0 <= i < j < |SortDesc(Tallied(keys), CountKey)| ==>
      SortDesc(Tallied(keys), CountKey)[i].name != SortDesc(Tallied(keys), CountKey)[j].name
  {
    var sorted := SortDesc(Tallied(keys), CountKey);
    SortDescFacts(Tallied(keys), CountKey);
    SortKeepsSum(Tallied(keys));
    TalliedSum(keys);
    TalliedDistinct(keys);
    forall e ensures e in sorted <==> e in Tallied(keys) {
      assert e in sorted <==> e in multiset(sorted);
    }
    forall i, j | 0 <= i < j < |sorted| ensures sorted[i].name != sorted[j].name {
      assert sorted[i] in sorted && sorted[j] in sorted;
      TalliedMember(keys, sorted[i]);
      TalliedMember(keys, sorted[j]);
    }
  }

  /** The tally has one entry per key: no two entries share a name. */
  lemma TalliedDistinct(keys: seq<string>)
    ensures Distinct(Tallied(keys))
    ensures forall i, j :: 0 <= i < j < |Tallied(keys)| ==> Tallied(keys)[i].name != Tallied(keys)[j].name
  {
    var ks := FirstSeen(keys);
    forall i, j | 0 <= i < j < |Tallied(keys)| ensures Tallied(keys)[i].name != Tallied(keys)[j].name {
      assert Tallied(keys)[i].name == ks[i] && Tallied(keys)[j].name == ks[j];
    }
  }

  /**
    Keys with equal counts keep the order in which they were first seen:
    the earlier one stands first in the sorted tally, and the top list never
    keeps the later one while leaving the earlier one out.
   */
  lemma TiesInFirstSeenOrder(keys: seq<string>, a: string, b: string)
    requires a in FirstSeen(keys) && b in FirstSeen(keys)
    requires Occurrences(keys, a) == Occurrences(keys, b)
    requires IndexOf(FirstSeen(keys), a) < IndexOf(FirstSeen(keys), b)
    ensures Entry(a, Occurrences(keys, a)) in SortDesc(Tallied(keys), CountKey)
    ensures Entry(b, Occurrences(keys, b)) in SortDesc(Tallied(keys), CountKey)
    ensures IndexOf(SortDesc(Tallied(keys), CountKey), Entry(a, Occurrences(keys, a)))
          < IndexOf(SortDesc(Tallied(keys), CountKey), Entry(b, Occurrences(keys, b)))
    ensures Entry(b, Occurrences(keys, b)) in TopFive(keys) ==> Entry(a, Occurrences(keys, a)) in TopFive(keys)
  {
    var ks := FirstSeen(keys);
    var t := Tallied(keys);
    var sorted := SortDesc(t, CountKey);
    var ea, eb := Entry(a, Occurrences(keys, a)), Entry(b, Occurrences(keys, b));
    var i, j := IndexOf(ks, a), IndexOf(ks, b);
    assert t[i] == ea && t[j] == eb;
    TalliedDistinct(keys);
    SortDescStable(t, CountKey, i, j);
    if eb in TopFive(keys) {
      var top := TopFive(keys);
      var jb := IndexOf(top, eb);
      assert sorted[jb] == eb;
      assert IndexOf(sorted, eb) <= jb;
      var ia := IndexOf(sorted, ea);
      assert top[ia] == ea;
    }
  }

  /**
    The top list: at most five entries, by non-increasing count; each is a
    walked key with its exact count; and no key left out has a higher
    count than a key kept.
   */
  lemma TopFiveFacts(keys: seq<string>)
    ensures |TopFive(keys)| <= TopSize
    ensures |TopFive(keys)| == if |FirstSeen(keys)| <= TopSize then |FirstSeen(keys)| else TopSize
    ensures SortedDesc(TopFive(keys), CountKey)
    ensures forall e :: e in TopFive(keys) ==> e.name in keys && e.count == Occurrences(keys, e.name)
    ensures forall e, k :: e in TopFive(keys) && k in keys && Entry(k, Occurrences(keys, k)) !in TopFive(keys) ==>
      Occurrences(keys, k) <= e.count
  {
    var sorted := SortDesc(Tallied(keys), CountKey);
    SortedTally(keys);
    PrefixSorted(sorted, TopSize);
    forall e | e in TopFive(keys) ensures e.name in keys && e.count == Occurrences(keys, e.name) {
      TalliedMember(keys, e);
    }
    forall e, k | e in TopFive(keys) && k in keys && Entry(k, Occurrences(keys, k)) !in TopFive(keys)
      ensures Occurrences(keys, k) <= e.count
    {
      TalliedMember(keys, Entry(k, Occurrences(keys, k)));
      LeftOutIsSmaller(sorted, TopSize, e, Entry(k, Occurrences(keys, k)));
    }
  }

  /** A prefix of a sorted list is sorted. */
  lemma PrefixSorted(s: seq<Entry>, n: nat)
    requires SortedDesc(s, CountKey)
    ensures SortedDesc(Take(s, n), CountKey)
  {
    var t := Take(s, n);
    forall i, j | 0 <= i < j < |t| ensures CountKey(t[i]) >= CountKey(t[j]) {
      assert t[i] == s[i] && t[j] == s[j];
    }
  }

  /** In a sorted list, an element outside the first `n` has no higher count than one inside. */
  lemma LeftOutIsSmaller(s: seq<Entry>, n: nat, e: Entry, x: Entry)
    requires SortedDesc(s, CountKey)
    requires e in Take(s, n) && x in s && x !in Take(s, n)
    ensures x.count <= e.count
  {
    var t := Take(s, n);
    var i :| 0 <= i < |s| && s[i] == x;
    var j :| 0 <= j < |t| && t[j] == e;
    assert forall k :: 0 <= k < |t| ==> t[k] == s[k];
    assert i >= |t|;
    assert s[j] == e;
    assert CountKey(s[j]) >= CountKey(s[i]);
  }
}
