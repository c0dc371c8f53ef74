/**
  Per-province, per-year cohort statistics (the body of the
  `processProvinceData` action in src/store/store.js). One pass over the
  admission records counts students, male students and the sum of composite
  scores per (province, year), and the cohort size per year; a second pass
  derives the average score and the male percentage of every cell.
 */
module ProvinceStats {
  import opened Counting

  type Year = int

  /** One admission record: `年级` (year), `省份` (province), `性别` (gender), `综合成绩` (composite score). */
  datatype Record = Record(year: Year, province: string, gender: string, score: real)

  /** The gender value counted as male. */
  const Male: string := "男"

  /** The counters kept per (province, year) during the pass. */
  datatype Tally = Tally(count: nat, maleCount: nat, totalScore: real)

  /** A quotient that the source computes with floating-point division: `Undefined`
      is the NaN of dividing by a zero count, which is a falsy value. */
  datatype Ratio = Undefined | Defined(value: real)

  /** A finished cell: the counters and the derived average and male percentage. */
  datatype YearStat = YearStat(count: nat, maleCount: nat, totalScore: real, averageScore: Ratio, malePercent: Ratio)

  /**
    A two-level dictionary province -> year -> V together with its key order:
    `provinces` is the order of the outer keys and `years[p]` the order of the
    inner keys of province `p`.
   */
  datatype Table<V> = Table(provinces: seq<string>, years: map<string, seq<Year>>, cells: map<string, map<Year, V>>)

  /** The key orders list exactly the keys, each once. */
  ghost predicate WellFormed<V>(t: Table<V>)
  {
    && Distinct(t.provinces)
    && (forall p :: p in t.cells <==> p in t.provinces)
    && (forall p :: p in t.cells ==> p in t.years && Distinct(t.years[p]))
    && (forall p, y :: p in t.cells ==> (y in t.cells[p] <==> y in t.years[p]))
  }

  // The specification: what each counter counts.

  /** The records of province `p` and year `y`, in input order. */
  function Cohort(data: seq<Record>, p: string, y: Year): seq<Record>
  {
    if data == [] then []
    else
      var r := data[|data| - 1];
      if r.province == p && r.year == y then Cohort(data[..|data| - 1], p, y) + [r] else Cohort(data[..|data| - 1], p, y)
  }

  /** The records of year `y`, in input order. */
  function YearCohort(data: seq<Record>, y: Year): seq<Record>
  {
    if data == [] then []
    else
      var r := data[|data| - 1];
      if r.year == y then YearCohort(data[..|data| - 1], y) + [r] else YearCohort(data[..|data| - 1], y)
  }

  /** The province of every record, in input order. */
  function Provinces(data: seq<Record>): seq<string>
  {
    if data == [] then [] else Provinces(data[..|data| - 1]) + [data[|data| - 1].province]
  }

  /** The year of every record of province `p`, in input order. */
  function YearsOf(data: seq<Record>, p: string): seq<Year>
  {
    if data == [] then []
    else
      var r := data[|data| - 1];
      if r.province == p then YearsOf(data[..|data| - 1], p) + [r.year] else YearsOf(data[..|data| - 1], p)
  }

  function MaleCount(rs: seq<Record>): nat
  {
    if rs == [] then 0 else MaleCount(rs[..|rs| - 1]) + (if rs[|rs| - 1].gender == Male then 1 else 0)
  }

  function ScoreSum(rs: seq<Record>): real
  {
    if rs == [] then 0.0 else ScoreSum(rs[..|rs| - 1]) + rs[|rs| - 1].score
  }

  function TallyOf(rs: seq<Record>): Tally
  {
    Tally(|rs|, MaleCount(rs), ScoreSum(rs))
  }

  /** `x / n`, NaN when `n` is zero. */
  function Quotient(x: real, n: nat): Ratio
  {
    if n == 0 then Undefined else Defined(x / (n as real))
  }

  /** The derivation step: `averageScore = totalScore / count`, and the male share in percent. */
  function Finish(t: Tally): YearStat
  {
    YearStat(t.count, t.maleCount, t.totalScore, Quotient(t.totalScore, t.count), Quotient((t.maleCount as real) * 100.0, t.count))
  }

  lemma CohortSnoc(d: seq<Record>, r: Record, p: string, y: Year)
    ensures Cohort(d + [r], p, y) == if r.province == p && r.year == y then Cohort(d, p, y) + [r] else Cohort(d, p, y)
  {
    assert (d + [r])[..|d|] == d;
  }

  lemma YearCohortSnoc(d: seq<Record>, r: Record, y: Year)
    ensures YearCohort(d + [r], y) == if r.year == y then YearCohort(d, y) + [r] else YearCohort(d, y)
  {
    assert (d + [r])[..|d|] == d;
  }

  lemma ProvincesSnoc(d: seq<Record>, r: Record)
    ensures Provinces(d + [r]) == Provinces(d) + [r.province]
  {
    assert (d + [r])[..|d|] == d;
  }

  lemma YearsOfSnoc(d: seq<Record>, r: Record, p: string)
    ensures YearsOf(d + [r], p) == if r.province == p then YearsOf(d, p) + [r.year] else YearsOf(d, p)
  {
    assert (d + [r])[..|d|] == d;
  }

  lemma RecordsSnoc(rs: seq<Record>, r: Record)
    ensures MaleCount(rs + [r]) == MaleCount(rs) + (if r.gender == Male then 1 else 0)
    ensures ScoreSum(rs + [r]) == ScoreSum(rs) + r.score
  {
    assert (rs + [r])[..|rs|] == rs;
  }

  /** A province has a year among its years exactly when that cell has a record. */
  lemma {:induction false} YearsOfIff(data: seq<Record>, p: string, y: Year)
    ensures y in YearsOf(data, p) <==> Cohort(data, p, y) != []
  {
    if data != [] {
      YearsOfIff(data[..|data| - 1], p, y);
    }
  }

  lemma {:induction false} ProvincesIff(data: seq<Record>, p: string)
    ensures p in Provinces(data) <==> exists i :: 0 <= i < |data| && data[i].province == p
  {
    if data != [] {
      var q := data[..|data| - 1];
      ProvincesIff(q, p);
      assert forall i :: 0 <= i < |q| ==> q[i] == data[i];
    }
  }

  // The accumulation pass.

  ghost predicate TalliesOf(d: seq<Record>, p: string, inner: map<Year, Tally>)
  {
    && (forall y :: y in inner <==> Cohort(d, p, y) != [])
    && (forall y :: y in inner ==> inner[y] == TallyOf(Cohort(d, p, y)))
  }

  /** `stats` after the records `d`: one counter set per (province, year) seen. */
  ghost predicate CellsOk(d: seq<Record>, cells: map<string, map<Year, Tally>>)
  {
    && (forall p :: p in cells <==> p in Provinces(d))
    && (forall p :: p in cells ==> TalliesOf(d, p, cells[p]))
  }

  /** The key order of `stats` and of each `stats[p]` after the records `d`. */
  ghost predicate OrdersOk(d: seq<Record>, provinces: seq<string>, years: map<string, seq<Year>>)
  {
    && provinces == FirstSeen(Provinces(d))
    && (forall p :: p in years <==> p in Provinces(d))
    && (forall p :: p in years ==> years[p] == FirstSeen(YearsOf(d, p)))
  }

  /** `totalStudentsByYear` after the records `d`. */
  ghost predicate TotalsOk(d: seq<Record>, totals: map<Year, nat>)
  {
    && (forall y :: y in totals <==> YearCohort(d, y) != [])
    && (forall y :: y in totals ==> totals[y] == |YearCohort(d, y)|)
  }

  /**
    The `forEach` loop of `processProvinceData` (and of `calculateHeatData`,
    which repeats it): per record, create the (province, year) counters on
    first use, increment the count, add the composite score, increment the
    year's cohort size, and increment the male count for a male student.
   */
  method Accumulate(data: seq<Record>) returns (t: Table<Tally>, totals: map<Year, nat>)
    ensures WellFormed(t)
    ensures t.provinces == FirstSeen(Provinces(data))
    ensures forall p :: p in t.cells ==> t.years[p] == FirstSeen(YearsOf(data, p))
    ensures forall p, y :: (p in t.cells && y in t.cells[p]) <==> Cohort(data, p, y) != []
    ensures forall p, y :: p in t.cells && y in t.cells[p] ==> t.cells[p][y] == TallyOf(Cohort(data, p, y))
    ensures forall y :: y in totals <==> YearCohort(data, y) != []
    ensures forall y :: y in totals ==> totals[y] == |YearCohort(data, y)|
  {
    var provinces, years, cells := [], map[], map[];
    totals := map[];
    var i := 0;
    while i < |data|
      invariant 0 <= i <= |data|
      invariant CellsOk(data[..i], cells)
      invariant OrdersOk(data[..i], provinces, years)
      invariant TotalsOk(data[..i], totals)
    {
      var r := data[i];
      assert data[..i + 1] == data[..i] + [r];
      cells := AddToCell(data[..i], r, cells);
      provinces, years := AddToOrders(data[..i], r, provinces, years);
      totals := AddToTotal(data[..i], r, totals);
      i := i + 1;
    }
    assert data[..i] == data;
    t := Table(provinces, years, cells);
    AccumulatedFacts(data, t);
  }

  /** One record's update of its (province, year) counters. */
  method AddToCell(ghost d: seq<Record>, r: Record, cells0: map<string, map<Year, Tally>>)
    returns (cells: map<string, map<Year, Tally>>)
    requires CellsOk(d, cells0)
    ensures CellsOk(d + [r], cells)
  {
    var p, y := r.province, r.year;
    var inner := if p in cells0 then cells0[p] else map[];
    ProvinceTallies(d, p, cells0);
    var tally := if y in inner then inner[y] else Tally(0, 0, 0.0);
    assert tally == TallyOf(Cohort(d, p, y));
    tally := tally.(count := tally.count + 1, totalScore := tally.totalScore + r.score);
    if r.gender == Male {
      tally := tally.(maleCount := tally.maleCount + 1);
    }
    RecordsSnoc(Cohort(d, p, y), r);
    OwnProvinceStep(d, r, inner);
    cells := cells0[p := inner[y := tally]];
    CellsStep(d, r, cells0, inner[y := tally]);
  }

  /** Replacing the record's province's counters by correct ones keeps every other province correct. */
  lemma CellsStep(d: seq<Record>, r: Record, cells0: map<string, map<Year, Tally>>, inner: map<Year, Tally>)
    requires CellsOk(d, cells0)
    requires TalliesOf(d + [r], r.province, inner)
    ensures CellsOk(d + [r], cells0[r.province := inner])
  {
    ProvincesSnoc(d, r);
    var cells := cells0[r.province := inner];
    forall q | q in cells ensures TalliesOf(d + [r], q, cells[q]) {
      if q != r.province {
        OtherProvinceStep(d, r, q, cells0[q]);
      }
    }
  }

  /** The counters a record finds for its province: those of the earlier records there. */
  lemma ProvinceTallies(d: seq<Record>, p: string, cells: map<string, map<Year, Tally>>)
    requires CellsOk(d, cells)
    ensures TalliesOf(d, p, if p in cells then cells[p] else map[])
  {
    if p !in cells {
      forall y ensures Cohort(d, p, y) == [] {
        NoProvinceNoCohort(d, p, y);
      }
    }
  }

  /** The record's own cell gains the record; the province's other cells are unchanged. */
  lemma OwnProvinceStep(d: seq<Record>, r: Record, inner: map<Year, Tally>)
    requires TalliesOf(d, r.province, inner)
    ensures TalliesOf(d + [r], r.province, inner[r.year := TallyOf(Cohort(d, r.province, r.year) + [r])])
  {
    forall y ensures Cohort(d + [r], r.province, y) == if r.year == y then Cohort(d, r.province, y) + [r] else Cohort(d, r.province, y) {
      CohortSnoc(d, r, r.province, y);
    }
  }

  /** Another province's counters are unchanged by the record. */
  lemma OtherProvinceStep(d: seq<Record>, r: Record, p: string, inner: map<Year, Tally>)
    requires p != r.province && TalliesOf(d, p, inner)
    ensures TalliesOf(d + [r], p, inner)
  {
    forall y ensures Cohort(d + [r], p, y) == Cohort(d, p, y) {
      CohortSnoc(d, r, p, y);
    }
  }

  /** One record's update of the key orders: a new province, or a new year of its province, is appended. */
  method AddToOrders(ghost d: seq<Record>, r: Record, provinces0: seq<string>, years0: map<string, seq<Year>>)
    returns (provinces: seq<string>, years: map<string, seq<Year>>)
    requires OrdersOk(d, provinces0, years0)
    ensures OrdersOk(d + [r], provinces, years)
  {
    provinces := AddProvince(d, r, provinces0, r.province in years0);
    years := AddYear(d, r, years0);
  }

  method AddProvince(ghost d: seq<Record>, r: Record, provinces0: seq<string>, known: bool) returns (provinces: seq<string>)
    requires provinces0 == FirstSeen(Provinces(d))
    requires known <==> r.province in Provinces(d)
    ensures provinces == FirstSeen(Provinces(d + [r]))
  {
    ProvincesSnoc(d, r);
    FirstSeenSnoc(Provinces(d), r.province);
    FirstSeenMember(Provinces(d), r.province);
    provinces := if known then provinces0 else provinces0 + [r.province];
  }

  method AddYear(ghost d: seq<Record>, r: Record, years0: map<string, seq<Year>>) returns (years: map<string, seq<Year>>)
    requires forall p :: p in years0 <==> p in Provinces(d)
    requires forall p :: p in years0 ==> years0[p] == FirstSeen(YearsOf(d, p))
    ensures forall p :: p in years <==> p in Provinces(d + [r])
    ensures forall p :: p in years ==> years[p] == FirstSeen(YearsOf(d + [r], p))
  {
    ProvincesSnoc(d, r);
    var own := if r.province in years0 then years0[r.province] else [];
    if r.province !in years0 {
      NoProvinceNoCohort(d, r.province, r.year);
    }
    assert own == FirstSeen(YearsOf(d, r.province));
    FirstSeenSnoc(YearsOf(d, r.province), r.year);
    FirstSeenMember(YearsOf(d, r.province), r.year);
    YearsOfSnoc(d, r, r.province);
    if r.year !in own {
      own := own + [r.year];
    }
    years := years0[r.province := own];
    forall p | p in years ensures years[p] == FirstSeen(YearsOf(d + [r], p)) {
      YearsOfSnoc(d, r, p);
    }
  }

  /** One record's update of `totalStudentsByYear`. */
  method AddToTotal(ghost d: seq<Record>, r: Record, totals0: map<Year, nat>) returns (totals: map<Year, nat>)
    requires TotalsOk(d, totals0)
    ensures TotalsOk(d + [r], totals)
  {
    totals := totals0;
    if r.year !in totals {
      totals := totals[r.year := 0];
    }
    totals := totals[r.year := totals[r.year] + 1];
    forall y ensures YearCohort(d + [r], y) == if r.year == y then YearCohort(d, y) + [r] else YearCohort(d, y) {
      YearCohortSnoc(d, r, y);
    }
  }

  lemma {:induction false} NoProvinceNoCohort(d: seq<Record>, p: string, y: Year)
    requires p !in Provinces(d)
    ensures Cohort(d, p, y) == [] && YearsOf(d, p) == []
  {
    if d != [] {
      var q := d[..|d| - 1];
      assert d == q + [d[|d| - 1]];
      ProvincesSnoc(q, d[|d| - 1]);
      CohortSnoc(q, d[|d| - 1], p, y);
      YearsOfSnoc(q, d[|d| - 1], p);
      NoProvinceNoCohort(q, p, y);
    }
  }

  lemma AccumulatedFacts(data: seq<Record>, t: Table<Tally>)
    requires CellsOk(data, t.cells) && OrdersOk(data, t.provinces, t.years)
    ensures WellFormed(t)
    ensures forall p, y :: (p in t.cells && y in t.cells[p]) <==> Cohort(data, p, y) != []
  {
    forall p ensures p in t.cells <==> p in t.provinces {
      FirstSeenMember(Provinces(data), p);
    }
    forall p, y | p in t.cells ensures y in t.cells[p] <==> y in t.years[p] {
      assert TalliesOf(data, p, t.cells[p]);
      FirstSeenMember(YearsOf(data, p), y);
      YearsOfIff(data, p, y);
    }
    forall p, y | Cohort(data, p, y) != [] ensures p in t.cells {
      if p !in t.cells {
        NoProvinceNoCohort(data, p, y);
      }
    }
  }

  // The derivation pass and the whole callback body.

  /** The inner `forEach` of the derivation: finish every cell of one province. */
  method FinishProvince(years: seq<Year>, inner: map<Year, Tally>) returns (out: map<Year, YearStat>)
    requires forall y :: y in inner ==> y in years
    requires forall k :: 0 <= k < |years| ==> years[k] in inner
    ensures out.Keys == inner.Keys
    ensures forall y :: y in out ==> out[y] == Finish(inner[y])
  {
    out := map[];
    var j := 0;
    while j < |years|
      invariant 0 <= j <= |years|
      invariant forall y :: y in out <==> y in years[..j]
      invariant forall y :: y in out ==> out[y] == Finish(inner[y])
    {
      assert years[..j + 1] == years[..j] + [years[j]];
      assert years[j] in years;
      out := out[years[j] := Finish(inner[years[j]])];
      j := j + 1;
    }
    assert years[..j] == years;
    forall y ensures y in out <==> y in inner {
    }
  }

  lemma YearsInCells<V>(t: Table<V>, p: string)
    requires WellFormed(t) && p in t.cells
    ensures forall k :: 0 <= k < |t.years[p]| ==> t.years[p][k] in t.cells[p]
  {
    forall k | 0 <= k < |t.years[p]| ensures t.years[p][k] in t.cells[p] {
      var y := t.years[p][k];
      assert y in t.years[p];
      assert y in t.cells[p] <==> y in t.years[p];
    }
  }

  /** Add `averageScore` and the gender ratio to every cell, keeping all key orders. */
  method Derive(t: Table<Tally>) returns (stats: Table<YearStat>)
    requires WellFormed(t)
    ensures stats.provinces == t.provinces && stats.years == t.years
    ensures stats.cells.Keys == t.cells.Keys
    ensures forall p :: p in stats.cells ==> stats.cells[p].Keys == t.cells[p].Keys
    ensures forall p, y :: p in t.cells && y in t.cells[p] ==> stats.cells[p][y] == Finish(t.cells[p][y])
  {
    var cells: map<string, map<Year, YearStat>> := map[];
    var i := 0;
    while i < |t.provinces|
      invariant 0 <= i <= |t.provinces|
      invariant forall p :: p in cells <==> p in t.provinces[..i]
      invariant forall p :: p in cells ==> p in t.cells && cells[p].Keys == t.cells[p].Keys
      invariant forall p, y :: p in cells && y in cells[p] ==> cells[p][y] == Finish(t.cells[p][y])
    {
      var p := t.provinces[i];
      assert t.provinces[..i + 1] == t.provinces[..i] + [p];
      YearsInCells(t, p);
      var out := FinishProvince(t.years[p], t.cells[p]);
      cells := cells[p := out];
      i := i + 1;
    }
    assert t.provinces[..i] == t.provinces;
    stats := Table(t.provinces, t.years, cells);
  }

  /**
    The body of `processProvinceData` up to its commits: `stats` with every
    cell finished, and `totalStudentsByYear`. Every cell that exists has at
    least one record, so its average and male percentage are defined: they
    are the exact mean composite score and the exact male share in percent.
   */
  method ProcessProvinceData(data: seq<Record>) returns (stats: Table<YearStat>, totals: map<Year, nat>)
    ensures WellFormed(stats)
    ensures stats.provinces == FirstSeen(Provinces(data))
    ensures forall p :: p in stats.cells ==> stats.years[p] == FirstSeen(YearsOf(data, p))
    ensures forall p, y :: (p in stats.cells && y in stats.cells[p]) <==> Cohort(data, p, y) != []
    ensures forall p :: p in stats.cells ==> stats.cells[p] != map[]
    ensures forall p, y :: p in stats.cells && y in stats.cells[p] ==> FinishedCell(stats.cells[p][y], Cohort(data, p, y))
    ensures forall y :: y in totals <==> YearCohort(data, y) != []
    ensures forall y :: y in totals ==> totals[y] == |YearCohort(data, y)|
  {
    var t;
    t, totals := Accumulate(data);
    stats := Derive(t);
    forall p, y | p in stats.cells && y in stats.cells[p]
      ensures FinishedCell(stats.cells[p][y], Cohort(data, p, y))
    {
      FinishFacts(Cohort(data, p, y));
    }
    forall p | p in stats.cells ensures stats.cells[p] != map[] {
      FirstSeenMember(Provinces(data), p);
      var y := ProvinceHasCohort(data, p);
      assert y in stats.cells[p];
    }
  }

  /** A province with records has a year with records. */
  lemma {:induction false} ProvinceHasCohort(data: seq<Record>, p: string) returns (y: Year)
    requires p in Provinces(data)
    ensures Cohort(data, p, y) != []
  {
    var q := data[..|data| - 1];
    var r := data[|data| - 1];
    if r.province == p {
      y := r.year;
    } else {
      y := ProvinceHasCohort(q, p);
    }
  }

  /** What a finished cell holds about its (non-empty) cohort. */
  ghost predicate FinishedCell(s: YearStat, c: seq<Record>)
  {
    && s.count == |c| >= 1
    && s.maleCount == MaleCount(c) <= s.count
    && s.totalScore == ScoreSum(c)
    && s.averageScore == Defined(ScoreSum(c) / (|c| as real))
    && s.malePercent == Defined((MaleCount(c) as real) * 100.0 / (|c| as real))
  }

  lemma FinishFacts(c: seq<Record>)
    requires c != []
    ensures FinishedCell(Finish(TallyOf(c)), c)
  {
    MaleCountBound(c);
  }

  /** `provinceYearlyAverage`: the average score of every cell, by province and year. */
  method YearlyAverages(stats: Table<YearStat>) returns (averages: map<string, map<Year, Ratio>>)
    requires WellFormed(stats)
    ensures averages.Keys == stats.cells.Keys
    ensures forall p :: p in averages ==> averages[p].Keys == stats.cells[p].Keys
    ensures forall p, y :: p in averages && y in averages[p] ==> averages[p][y] == stats.cells[p][y].averageScore
  {
    averages := map[];
    var i := 0;
    while i < |stats.provinces|
      invariant 0 <= i <= |stats.provinces|
      invariant forall p :: p in averages <==> p in stats.provinces[..i]
      invariant forall p :: p in averages ==> p in stats.cells && averages[p].Keys == stats.cells[p].Keys
      invariant forall p, y :: p in averages && y in averages[p] ==> averages[p][y] == stats.cells[p][y].averageScore
    {
      var p := stats.provinces[i];
      assert stats.provinces[..i + 1] == stats.provinces[..i] + [p];
      var inner: map<Year, Ratio> := map[];
      var years := stats.years[p];
      YearsInCells(stats, p);
      var j := 0;
      while j < |years|
        invariant 0 <= j <= |years|
        invariant forall y :: y in inner <==> y in years[..j]
        invariant forall y :: y in inner ==> y in stats.cells[p] && inner[y] == stats.cells[p][y].averageScore
      {
        assert years[..j + 1] == years[..j] + [years[j]];
        assert years[j] in years;
        inner := inner[years[j] := stats.cells[p][years[j]].averageScore];
        j := j + 1;
      }
      assert years[..j] == years;
      assert inner.Keys == stats.cells[p].Keys by {
        forall y ensures y in inner <==> y in stats.cells[p] {
        }
      }
      averages := averages[p := inner];
      i := i + 1;
    }
    assert stats.provinces[..i] == stats.provinces;
  }

  // Properties of the counters.

  /** The male count never exceeds the count. */
  lemma {:induction false} MaleCountBound(rs: seq<Record>)
    ensures MaleCount(rs) <= |rs|
  {
    if rs != [] {
      MaleCountBound(rs[..|rs| - 1]);
    }
  }

  /** The sum of one year's cell counts over a list of provinces. */
  function SumCohortSizes(ps: seq<string>, data: seq<Record>, y: Year): nat
  {
    if ps == [] then 0 else |Cohort(data, ps[0], y)| + SumCohortSizes(ps[1..], data, y)
  }

  lemma {:induction false} CohortSizeIsOccurrences(data: seq<Record>, p: string, y: Year)
    ensures |Cohort(data, p, y)| == Occurrences(Provinces(YearCohort(data, y)), p)
  {
    if data != [] {
      var q := data[..|data| - 1];
      var r := data[|data| - 1];
      assert data == q + [r];
      CohortSnoc(q, r, p, y);
      YearCohortSnoc(q, r, y);
      CohortSizeIsOccurrences(q, p, y);
      if r.year == y {
        ProvincesSnoc(YearCohort(q, y), r);
        OccurrencesSnoc(Provinces(YearCohort(q, y)), r.province, p);
      }
    }
  }

  lemma {:induction false} SumCohortSizesIsSumOccurrences(ps: seq<string>, data: seq<Record>, y: Year)
    ensures SumCohortSizes(ps, data, y) == SumOccurrences(ps, Provinces(YearCohort(data, y)))
  {
    if ps != [] {
      CohortSizeIsOccurrences(data, ps[0], y);
      SumCohortSizesIsSumOccurrences(ps[1..], data, y);
    }
  }

  lemma {:induction false} YearProvincesCovered(data: seq<Record>, y: Year)
    ensures |Provinces(YearCohort(data, y))| == |YearCohort(data, y)|
    ensures forall p :: p in Provinces(YearCohort(data, y)) ==> p in Provinces(data)
  {
    if data != [] {
      var q := data[..|data| - 1];
      var r := data[|data| - 1];
      assert data == q + [r];
      ProvincesSnoc(q, r);
      YearCohortSnoc(q, r, y);
      YearProvincesCovered(q, y);
      if r.year == y {
        ProvincesSnoc(YearCohort(q, y), r);
      }
    }
  }

  /**
    A year's cohort size is the sum, over all provinces in key order, of that
    year's cell counts: every record of the year is counted in exactly one cell.
   */
  lemma YearTotalIsSumOfCounts(data: seq<Record>, y: Year)
    ensures |YearCohort(data, y)| == SumCohortSizes(FirstSeen(Provinces(data)), data, y)
  {
    var ps := FirstSeen(Provinces(data));
    SumCohortSizesIsSumOccurrences(ps, data, y);
    YearProvincesCovered(data, y);
    var s := Provinces(YearCohort(data, y));
    forall i | 0 <= i < |s| ensures s[i] in ps {
      FirstSeenMember(Provinces(data), s[i]);
    }
    SumOccurrencesIsLength(ps, s);
  }

  /** A cell's cohort is part of its year's cohort. */
  lemma {:induction false} CohortWithinYear(data: seq<Record>, p: string, y: Year)
    ensures |Cohort(data, p, y)| <= |YearCohort(data, y)|
  {
    if data != [] {
      CohortWithinYear(data[..|data| - 1], p, y);
    }
  }

  /** A year with records has a province with records that year. */
  lemma {:induction false} YearHasProvince(data: seq<Record>, y: Year) returns (p: string)
    requires YearCohort(data, y) != []
    ensures Cohort(data, p, y) != []
  {
    var q := data[..|data| - 1];
    var r := data[|data| - 1];
    if r.year == y {
      p := r.province;
    } else {
      p := YearHasProvince(q, y);
    }
  }
}
