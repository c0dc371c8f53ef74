/**
  Sequence helpers shared by every aggregation: the keys of a dictionary in
  the order they were first inserted, how often a value occurs, and the
  fact that such counts, summed over all distinct keys, give back the
  length of the counted sequence.
 */
module Counting {

  /** No value occurs twice in `s`. */
  predicate Distinct<T(==)>(s: seq<T>)
  {
    forall i, j :: 0 <= i < j < |s| ==> s[i] != s[j]
  }

  /** The distinct values of `s` in the order of their first occurrence:
      the key order of a dictionary filled by walking `s` from the front. */
  function FirstSeen<T(==)>(s: seq<T>): (r: seq<T>)
    ensures Distinct(r)
    ensures |r| <= |s|
  {
    if s == [] then []
    else
      var p := FirstSeen(s[..|s| - 1]);
      if s[|s| - 1] in p then p else p + [s[|s| - 1]]
  }

  /** The key order holds exactly the values walked. */
  lemma {:induction false} FirstSeenMember<T>(s: seq<T>, x: T)
    ensures x in FirstSeen(s) <==> x in s
  {
    if s != [] {
      var p := s[..|s| - 1];
      assert s == p + [s[|s| - 1]];
      FirstSeenMember(p, x);
    }
  }

  /** Walking one more value: the key order grows by that value exactly when it is new. */
  lemma FirstSeenSnoc<T>(s: seq<T>, x: T)
    ensures FirstSeen(s + [x]) == if x in FirstSeen(s) then FirstSeen(s) else FirstSeen(s) + [x]
  {
    assert (s + [x])[..|s + [x]| - 1] == s;
  }

  /** Walking more values never reorders the keys already seen. */
  lemma {:induction false} FirstSeenPrefix<T>(a: seq<T>, s: seq<T>)
    requires |a| <= |s| && a == s[..|a|]
    ensures |FirstSeen(a)| <= |FirstSeen(s)| && FirstSeen(a) == FirstSeen(s)[..|FirstSeen(a)|]
  {
    if |a| < |s| {
      var p := s[..|s| - 1];
      assert a == p[..|a|];
      FirstSeenPrefix(a, p);
      assert s == p + [s[|s| - 1]];
      FirstSeenSnoc(p, s[|s| - 1]);
    } else {
      assert a == s;
    }
  }

  /** Number of occurrences of `x` in `s`. */
  function Occurrences<T(==)>(s: seq<T>, x: T): (n: nat)
    ensures n > 0 <==> x in s
    ensures n <= |s|
  {
    if s == [] then 0
    else Occurrences(s[..|s| - 1], x) + (if s[|s| - 1] == x then 1 else 0)
  }

  lemma OccurrencesSnoc<T>(s: seq<T>, y: T, x: T)
    ensures Occurrences(s + [y], x) == Occurrences(s, x) + (if y == x then 1 else 0)
  {
    assert (s + [y])[..|s + [y]| - 1] == s;
  }

  /** The occurrence counts of the keys `ks`, added up. */
  function SumOccurrences<T(==)>(ks: seq<T>, s: seq<T>): nat
  {
    if ks == [] then 0 else Occurrences(s, ks[0]) + SumOccurrences(ks[1..], s)
  }

  /** A value outside the key list does not change the sum. */
  lemma {:induction false} SumOccurrencesIgnores<T>(ks: seq<T>, s: seq<T>, y: T)
    requires y !in ks
    ensures SumOccurrences(ks, s + [y]) == SumOccurrences(ks, s)
  {
    if ks != [] {
      OccurrencesSnoc(s, y, ks[0]);
      SumOccurrencesIgnores(ks[1..], s, y);
    }
  }

  /** A value that is one of the (distinct) keys adds exactly one to the sum. */
  lemma {:induction false} SumOccurrencesSnoc<T>(ks: seq<T>, s: seq<T>, y: T)
    requires Distinct(ks) && y in ks
    ensures SumOccurrences(ks, s + [y]) == SumOccurrences(ks, s) + 1
  {
    OccurrencesSnoc(s, y, ks[0]);
    if ks[0] == y {
      assert y !in ks[1..] by {
        forall j | 0 <= j < |ks[1..]| ensures ks[1..][j] != y {
          assert ks[1..][j] == ks[j + 1];
        }
      }
      SumOccurrencesIgnores(ks[1..], s, y);
    } else {
      SumOccurrencesSnoc(ks[1..], s, y);
    }
  }

  /** Counting every value of `s` once under its own key, over keys that are
      distinct and cover `s`, accounts for every element exactly once. */
  lemma {:induction false} SumOccurrencesIsLength<T>(ks: seq<T>, s: seq<T>)
    requires Distinct(ks)
    requires forall i :: 0 <= i < |s| ==> s[i] in ks
    ensures SumOccurrences(ks, s) == |s|
  {
    if s == [] {
      SumOccurrencesOfEmpty(ks, s);
    } else {
      var p := s[..|s| - 1];
      assert s == p + [s[|s| - 1]];
      SumOccurrencesIsLength(ks, p);
      SumOccurrencesSnoc(ks, p, s[|s| - 1]);
    }
  }

  lemma {:induction false} SumOccurrencesOfEmpty<T>(ks: seq<T>, s: seq<T>)
    requires s == []
    ensures SumOccurrences(ks, s) == 0
  {
    if ks != [] {
      SumOccurrencesOfEmpty(ks[1..], s);
    }
  }

  /** Position of the first occurrence of `x` in `s`. */
  function IndexOf<T(==)>(s: seq<T>, x: T): (i: nat)
    requires x in s
    ensures i < |s| && s[i] == x
    ensures x !in s[..i]
  {
    if s[0] == x then 0 else 1 + IndexOf(s[1..], x)
  }

  /** In a sequence without repetitions, the only position holding `s[i]` is `i`. */
  lemma IndexOfDistinct<T>(s: seq<T>, i: nat)
    requires Distinct(s) && i < |s|
    ensures IndexOf(s, s[i]) == i
  {
  }

  /** Appending a value does not move the first occurrence of one already present. */
  lemma {:induction false} IndexOfSnoc<T>(s: seq<T>, z: T, x: T)
    requires x in s
    ensures IndexOf(s + [z], x) == IndexOf(s, x)
  {
    if s[0] != x {
      assert (s + [z])[1..] == s[1..] + [z];
      IndexOfSnoc(s[1..], z, x);
    }
  }
}
