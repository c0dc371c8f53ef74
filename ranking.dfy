/**
  `calculateRankings`: for every province and every year it has statistics
  for, the provinces whose average score that year is truthy are listed in
  the key order of the statistics, sorted by descending average (stably),
  and the province's rank is its 1-based position in that list. A province
  whose average is missing, zero or NaN that year gets no rank.
 */
module Ranking {
  import opened Counting
  import opened Sorting
  import opened ProvinceStats

  /** One element of the `scores` array: `{ province, score }`. */
  datatype Scored = Scored(province: string, score: real)

  function ScoreKey(e: Scored): real
  {
    e.score
  }

  /** The truthiness of a number: NaN and zero are falsy. */
  predicate Truthy(r: Ratio)
  {
    r.Defined? && r.value != 0.0
  }

  /** Province `p` has a cell in year `y` whose average is truthy. */
  predicate Qualifies(t: Table<YearStat>, p: string, y: Year)
  {
    p in t.cells && y in t.cells[p] && Truthy(t.cells[p][y].averageScore)
  }

  /** The average of a qualifying province. */
  function AverageOf(t: Table<YearStat>, p: string, y: Year): real
    requires Qualifies(t, p, y)
  {
    t.cells[p][y].averageScore.value
  }

  /** The `map` over the entries of `provinceStats` followed by the `filter`
      that drops the `null` scores, over the provinces `ps` in key order. */
  function Qualifying(t: Table<YearStat>, ps: seq<string>, y: Year): seq<Scored>
  {
    if ps == [] then []
    else
      var q := Qualifying(t, ps[..|ps| - 1], y);
      var p := ps[|ps| - 1];
      if Qualifies(t, p, y) then q + [Scored(p, AverageOf(t, p, y))] else q
  }

  /** The sorted `scores` array of year `y`. */
  function Ranked(t: Table<YearStat>, y: Year): seq<Scored>
  {
    SortDesc(Qualifying(t, t.provinces, y), ScoreKey)
  }

  /** `findIndex(item => item.province === p)`: the first position naming `p`, or -1. */
  function FindIndex(s: seq<Scored>, p: string): (r: int)
    ensures -1 <= r < |s|
    ensures r >= 0 ==> s[r].province == p
    ensures r >= 0 ==> forall i :: 0 <= i < r ==> s[i].province != p
    ensures r == -1 ==> forall i :: 0 <= i < |s| ==> s[i].province != p
  {
    if s == [] then -1
    else if s[0].province == p then 0
    else
      var k := FindIndex(s[1..], p);
      if k < 0 then -1 else k + 1
  }

  /** `findIndex(...) + 1`: the rank, or 0 when `p` is not ranked. */
  function RankOf(t: Table<YearStat>, p: string, y: Year): (r: int)
    ensures 0 <= r <= |Ranked(t, y)|
    ensures r > 0 ==> Ranked(t, y)[r - 1].province == p && forall i :: 0 <= i < r - 1 ==> Ranked(t, y)[i].province != p
    ensures r == 0 ==> forall i :: 0 <= i < |Ranked(t, y)| ==> Ranked(t, y)[i].province != p
  {
    FindIndex(Ranked(t, y), p) + 1
  }

  // The computation.

  method CalculateRankings(stats: Table<YearStat>) returns (rankings: map<string, map<Year, nat>>)
    requires WellFormed(stats)
    ensures forall p :: p in rankings <==> p in stats.cells && stats.cells[p] != map[]
    ensures forall p, y :: p in rankings ==> (y in rankings[p] <==> Qualifies(stats, p, y))
    ensures forall p, y :: p in rankings && y in rankings[p] ==> rankings[p][y] == RankOf(stats, p, y)
  {
    rankings := map[];
    var i := 0;
    while i < |stats.provinces|
      invariant 0 <= i <= |stats.provinces|
      invariant forall p :: p in rankings <==> p in stats.provinces[..i] && stats.cells[p] != map[]
      invariant forall p, y :: p in rankings ==> (y in rankings[p] <==> Qualifies(stats, p, y))
      invariant forall p, y :: p in rankings && y in rankings[p] ==> rankings[p][y] == RankOf(stats, p, y)
    {
      var p := stats.provinces[i];
      assert stats.provinces[..i + 1] == stats.provinces[..i] + [p];
      assert p !in rankings by {
        assert p !in stats.provinces[..i];
      }
      rankings := RankProvince(stats, p, rankings);
      i := i + 1;
    }
    assert stats.provinces[..i] == stats.provinces;
  }

  /** The inner `forEach` over the years of province `p`. */
  method RankProvince(stats: Table<YearStat>, p: string, rankings0: map<string, map<Year, nat>>)
    returns (rankings: map<string, map<Year, nat>>)
    requires WellFormed(stats) && p in stats.cells && p !in rankings0
    ensures forall q :: q in rankings <==> q in rankings0 || (q == p && stats.cells[p] != map[])
    ensures forall q :: q in rankings0 ==> rankings[q] == rankings0[q]
    ensures p in rankings ==> forall y :: y in rankings[p] <==> Qualifies(stats, p, y)
    ensures p in rankings ==> forall y :: y in rankings[p] ==> rankings[p][y] == RankOf(stats, p, y)
  {
    rankings := rankings0;
    var years := stats.years[p];
    YearsOfProvince(stats, p);
    var j := 0;
    while j < |years|
      invariant 0 <= j <= |years|
      invariant rankings.Keys == rankings0.Keys + (if j > 0 then {p} else {})
      invariant forall q :: q in rankings0 ==> rankings[q] == rankings0[q]
      invariant p in rankings ==> RowOk(stats, p, years[..j], rankings[p])
    {
      assert years[..j + 1] == years[..j] + [years[j]];
      assert years[j] !in years[..j];
      rankings := RankYear(stats, p, years[j], years[..j], rankings);
      j := j + 1;
    }
    assert years[..j] == years;
    if p in rankings {
      forall y ensures y in rankings[p] <==> Qualifies(stats, p, y) {
        assert y in rankings[p] <==> y in years && Qualifies(stats, p, y);
      }
    }
  }

  /** `row` holds the rank of `p` for exactly the qualifying years among `ys`. */
  ghost predicate RowOk(stats: Table<YearStat>, p: string, ys: seq<Year>, row: map<Year, nat>)
  {
    && (forall y :: y in row <==> y in ys && Qualifies(stats, p, y))
    && (forall y :: y in row ==> row[y] == RankOf(stats, p, y))
  }

  /**
    One year of the inner loop: build the sorted `scores` of year `y`, create
    `rankings[p]` if needed, and record the rank when it is positive.
   */
  method RankYear(stats: Table<YearStat>, p: string, y: Year, ghost done: seq<Year>, rankings0: map<string, map<Year, nat>>)
    returns (rankings: map<string, map<Year, nat>>)
    requires WellFormed(stats) && y !in done
    requires p !in rankings0 ==> done == []
    requires p in rankings0 ==> RowOk(stats, p, done, rankings0[p])
    ensures rankings.Keys == rankings0.Keys + {p}
    ensures forall q :: q in rankings0 && q != p ==> rankings[q] == rankings0[q]
    ensures RowOk(stats, p, done + [y], rankings[p])
  {
    var scores := Qualifying(stats, stats.provinces, y);
    var sorted := SortDesc(scores, ScoreKey);
    var rank := FindIndex(sorted, p) + 1;
    var inner: map<Year, nat> := if p in rankings0 then rankings0[p] else map[];
    RankPositiveIff(stats, p, y);
    if rank > 0 {
      inner := inner[y := rank];
    }
    rankings := rankings0[p := inner];
  }

  /** The years of a province list exactly its cells; there is one when its cells are not empty. */
  lemma YearsOfProvince<V>(t: Table<V>, p: string)
    requires WellFormed(t) && p in t.cells
    ensures forall y :: y in t.cells[p] <==> y in t.years[p]
    ensures t.cells[p] == map[] <==> |t.years[p]| == 0
  {
    forall y ensures y in t.cells[p] <==> y in t.years[p] {
      assert y in t.cells[p] <==> y in t.years[p];
    }
    if |t.years[p]| > 0 {
      assert t.years[p][0] in t.cells[p];
    }
  }

  // Properties of the ranks.

  /** The qualifying entries are exactly the qualifying provinces of `ps`, with their averages. */
  lemma {:induction false} QualifyingMember(t: Table<YearStat>, ps: seq<string>, y: Year, e: Scored)
    ensures e in Qualifying(t, ps, y) <==>
      e.province in ps && Qualifies(t, e.province, y) && e.score == AverageOf(t, e.province, y)
  {
    if ps != [] {
      var qs := ps[..|ps| - 1];
      assert ps == qs + [ps[|ps| - 1]];
      QualifyingMember(t, qs, y, e);
    }
  }

  lemma {:induction false} QualifyingDistinct(t: Table<YearStat>, ps: seq<string>, y: Year)
    requires Distinct(ps)
    ensures Distinct(Qualifying(t, ps, y))
  {
    if ps != [] {
      var qs := ps[..|ps| - 1];
      var p := ps[|ps| - 1];
      assert ps == qs + [p];
      assert Distinct(qs);
      QualifyingDistinct(t, qs, y);
      if Qualifies(t, p, y) {
        QualifyingMember(t, qs, y, Scored(p, AverageOf(t, p, y)));
        assert p !in qs by {
          assert forall k :: 0 <= k < |qs| ==> qs[k] == ps[k];
        }
      }
    }
  }

  /** Qualifying keeps the relative order of the provinces. */
  lemma {:induction false} QualifyingOrder(t: Table<YearStat>, ps: seq<string>, y: Year, p: string, q: string)
    requires Distinct(ps) && p in ps && q in ps && IndexOf(ps, p) < IndexOf(ps, q)
    requires Qualifies(t, p, y) && Qualifies(t, q, y)
    ensures Scored(p, AverageOf(t, p, y)) in Qualifying(t, ps, y)
    ensures Scored(q, AverageOf(t, q, y)) in Qualifying(t, ps, y)
    ensures IndexOf(Qualifying(t, ps, y), Scored(p, AverageOf(t, p, y)))
          < IndexOf(Qualifying(t, ps, y), Scored(q, AverageOf(t, q, y)))
  {
    var xp, xq := Scored(p, AverageOf(t, p, y)), Scored(q, AverageOf(t, q, y));
    QualifyingMember(t, ps, y, xp);
    QualifyingMember(t, ps, y, xq);
    var qs := ps[..|ps| - 1];
    var z := ps[|ps| - 1];
    assert ps == qs + [z];
    assert Distinct(qs);
    var Q := Qualifying(t, qs, y);
    QualifyingDistinct(t, ps, y);
    if q == z {
      assert p in qs by {
        assert ps[IndexOf(ps, p)] == p && IndexOf(ps, p) < |qs|;
        assert qs[IndexOf(ps, p)] == p;
      }
      QualifyingMember(t, qs, y, xp);
      var R := Qualifying(t, ps, y);
      assert R == Q + [xq];
      IndexOfDistinct(R, |Q|);
      IndexOfSnoc(Q, xq, xp);
    } else {
      assert q in qs by {
        assert ps[IndexOf(ps, q)] == q && IndexOf(ps, q) < |qs|;
        assert qs[IndexOf(ps, q)] == q;
      }
      assert p in qs by {
        assert ps[IndexOf(ps, p)] == p && IndexOf(ps, p) < |qs|;
        assert qs[IndexOf(ps, p)] == p;
      }
      IndexOfSnoc(qs, z, p);
      IndexOfSnoc(qs, z, q);
      QualifyingOrder(t, qs, y, p, q);
      if Qualifies(t, z, y) {
        IndexOfSnoc(Q, Scored(z, AverageOf(t, z, y)), xp);
        IndexOfSnoc(Q, Scored(z, AverageOf(t, z, y)), xq);
      }
    }
  }

  /** The facts about the sorted list every rank lemma needs. */
  lemma RankedFacts(t: Table<YearStat>, y: Year)
    requires WellFormed(t)
    ensures SortedDesc(Ranked(t, y), ScoreKey)
    ensures Distinct(Ranked(t, y))
    ensures |Ranked(t, y)| == |Qualifying(t, t.provinces, y)|
    ensures forall e :: e in Ranked(t, y) <==> e in Qualifying(t, t.provinces, y)
  {
    var Q := Qualifying(t, t.provinces, y);
    QualifyingDistinct(t, t.provinces, y);
    SortDescFacts(Q, ScoreKey);
    forall e ensures e in Ranked(t, y) <==> e in Q {
      assert e in Ranked(t, y) <==> e in multiset(Ranked(t, y));
      assert e in Q <==> e in multiset(Q);
    }
  }

  /** A qualifying province's rank is one more than its entry's position in the sorted list. */
  lemma RankIsIndex(t: Table<YearStat>, p: string, y: Year)
    requires WellFormed(t) && Qualifies(t, p, y)
    ensures Scored(p, AverageOf(t, p, y)) in Ranked(t, y)
    ensures RankOf(t, p, y) == IndexOf(Ranked(t, y), Scored(p, AverageOf(t, p, y))) + 1
  {
    var x := Scored(p, AverageOf(t, p, y));
    var R := Ranked(t, y);
    RankedFacts(t, y);
    QualifyingMember(t, t.provinces, y, x);
    var i := IndexOf(R, x);
    var k := FindIndex(R, p);
    assert R[i].province == p;
    assert 0 <= k <= i;
    QualifyingMember(t, t.provinces, y, R[k]);
    assert R[k] == x;
  }

  /** The `rank > 0` guard: a province is ranked exactly when its average is truthy. */
  lemma RankPositiveIff(t: Table<YearStat>, p: string, y: Year)
    requires WellFormed(t)
    ensures RankOf(t, p, y) > 0 <==> Qualifies(t, p, y)
  {
    if Qualifies(t, p, y) {
      RankIsIndex(t, p, y);
    } else {
      var R := Ranked(t, y);
      var k := FindIndex(R, p);
      if k >= 0 {
        RankedFacts(t, y);
        QualifyingMember(t, t.provinces, y, R[k]);
      }
    }
  }

  /** Ranks run from 1 to the number of ranked provinces. */
  lemma RankBounds(t: Table<YearStat>, p: string, y: Year)
    requires WellFormed(t) && Qualifies(t, p, y)
    ensures 1 <= RankOf(t, p, y) <= |Qualifying(t, t.provinces, y)|
  {
    RankIsIndex(t, p, y);
    RankedFacts(t, y);
  }

  /** No two provinces share a rank in the same year. */
  lemma RankInjective(t: Table<YearStat>, p: string, q: string, y: Year)
    requires WellFormed(t) && Qualifies(t, p, y) && Qualifies(t, q, y) && p != q
    ensures RankOf(t, p, y) != RankOf(t, q, y)
  {
    RankIsIndex(t, p, y);
    RankIsIndex(t, q, y);
  }

  /** Every rank from 1 to the number of ranked provinces is taken. */
  lemma RankSurjective(t: Table<YearStat>, y: Year, k: int)
    requires WellFormed(t) && 1 <= k <= |Qualifying(t, t.provinces, y)|
    ensures exists p :: Qualifies(t, p, y) && RankOf(t, p, y) == k
  {
    var R := Ranked(t, y);
    RankedFacts(t, y);
    var e := R[k - 1];
    QualifyingMember(t, t.provinces, y, e);
    IndexOfDistinct(R, k - 1);
    RankIsIndex(t, e.province, y);
    assert Qualifies(t, e.province, y) && RankOf(t, e.province, y) == k;
  }

  /** A strictly higher average gives a strictly better (smaller) rank. */
  lemma HigherAverageRanksFirst(t: Table<YearStat>, p: string, q: string, y: Year)
    requires WellFormed(t) && Qualifies(t, p, y) && Qualifies(t, q, y)
    requires AverageOf(t, p, y) > AverageOf(t, q, y)
    ensures RankOf(t, p, y) < RankOf(t, q, y)
  {
    RankIsIndex(t, p, y);
    RankIsIndex(t, q, y);
    RankedFacts(t, y);
    HigherKeyFirst(Ranked(t, y), ScoreKey, Scored(p, AverageOf(t, p, y)), Scored(q, AverageOf(t, q, y)));
  }

  /** Equal averages are ranked in the key order of the statistics (the sort is stable). */
  lemma TiesKeepKeyOrder(t: Table<YearStat>, p: string, q: string, y: Year)
    requires WellFormed(t) && Qualifies(t, p, y) && Qualifies(t, q, y)
    requires AverageOf(t, p, y) == AverageOf(t, q, y)
    requires IndexOf(t.provinces, p) < IndexOf(t.provinces, q)
    ensures RankOf(t, p, y) < RankOf(t, q, y)
  {
    var Q := Qualifying(t, t.provinces, y);
    var xp, xq := Scored(p, AverageOf(t, p, y)), Scored(q, AverageOf(t, q, y));
    QualifyingOrder(t, t.provinces, y, p, q);
    QualifyingDistinct(t, t.provinces, y);
    var i, j := IndexOf(Q, xp), IndexOf(Q, xq);
    SortDescStable(Q, ScoreKey, i, j);
    RankIsIndex(t, p, y);
    RankIsIndex(t, q, y);
  }
}
