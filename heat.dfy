/**
  `calculateHeatData`: every (year, province) pair with records gets a
  colour from the province's share of that year's records. The share is
  `count / total * 100` and the colour is chosen by the first threshold it
  exceeds, from 6 down to 1. The comparisons are made exactly, as
  `count * 100 > threshold * total`.
 */
module Heat {
  import opened Counting
  import opened ProvinceStats

  /** The seven heat colours, hottest first. */
  datatype Colour = DeepRed | LightRed | Orange | DarkYellow | Yellow | Green | LightBlue

  /** The colour's band: its percentage is above `Level` and, below the top band, at most `Level + 1`. */
  function Level(c: Colour): nat
  {
    match c
    case DeepRed => 6
    case LightRed => 5
    case Orange => 4
    case DarkYellow => 3
    case Yellow => 2
    case Green => 1
    case LightBlue => 0
  }

  /** `percentage > t` for `percentage = count / total * 100`, exact in rationals.
      With `total == 0` a positive count is Infinity (above every threshold)
      and a zero count is NaN (above none), as the division gives. */
  predicate Above(count: nat, total: nat, t: nat)
  {
    count * 100 > t * total
  }

  /** The `if`/`else if` cascade of the colour choice. */
  function Classify(count: nat, total: nat): (c: Colour)
    ensures Level(c) > 0 ==> Above(count, total, Level(c))
    ensures Level(c) < 6 ==> !Above(count, total, Level(c) + 1)
  {
    if Above(count, total, 6) then DeepRed
    else if Above(count, total, 5) then LightRed
    else if Above(count, total, 4) then Orange
    else if Above(count, total, 3) then DarkYellow
    else if Above(count, total, 2) then Yellow
    else if Above(count, total, 1) then Green
    else LightBlue
  }

  /** The percentage as a real number. */
  function Percent(count: nat, total: nat): real
    requires total > 0
  {
    (count as real) * 100.0 / (total as real)
  }

  /** The integer comparison is the comparison of the percentage with the threshold. */
  lemma AboveIsPercent(count: nat, total: nat, t: nat)
    requires total > 0
    ensures Above(count, total, t) <==> Percent(count, total) > t as real
  {
    var c, n := count as real, total as real;
    assert Percent(count, total) * n == c * 100.0;
    if Percent(count, total) > t as real {
      assert Percent(count, total) * n > (t as real) * n;
    } else {
      assert Percent(count, total) * n <= (t as real) * n;
    }
  }

  /** The colour is determined by its band: the bands partition the percentages. */
  lemma ClassifyIsBand(count: nat, total: nat, c: Colour)
    requires total > 0
    ensures Classify(count, total) == c <==>
      (Level(c) == 0 || Percent(count, total) > Level(c) as real) &&
      (Level(c) == 6 || Percent(count, total) <= (Level(c) + 1) as real)
  {
    AboveIsPercent(count, total, Level(c));
    AboveIsPercent(count, total, Level(c) + 1);
    var k := Level(Classify(count, total));
    AboveIsPercent(count, total, k);
    AboveIsPercent(count, total, k + 1);
  }

  /** Exactly five percent is not above five: it is Orange. */
  lemma FivePercentIsOrange(count: nat, total: nat)
    requires total > 0 && count * 20 == total
    ensures Classify(count, total) == Orange
  {
  }

  /** A share of at most one percent, and only that, is LightBlue. */
  lemma LightBlueIffAtMostOnePercent(count: nat, total: nat)
    requires total > 0
    ensures Classify(count, total) == LightBlue <==> Percent(count, total) <= 1.0
  {
    AboveIsPercent(count, total, 1);
  }

  /** More records in the same year never give a cooler colour. */
  lemma ClassifyMonotone(count1: nat, count2: nat, total: nat)
    requires count1 <= count2
    ensures Level(Classify(count1, total)) <= Level(Classify(count2, total))
  {
  }

  /** A larger share never gives a cooler colour, whatever the two year totals:
      the colour is monotone in the percentage. */
  lemma ClassifyMonotoneInShare(count1: nat, total1: nat, count2: nat, total2: nat)
    requires total1 > 0 && total2 > 0
    requires count1 * total2 <= count2 * total1
    ensures Level(Classify(count1, total1)) <= Level(Classify(count2, total2))
  {
    AboveInShare(count1, total1, count2, total2, 1);
    AboveInShare(count1, total1, count2, total2, 2);
    AboveInShare(count1, total1, count2, total2, 3);
    AboveInShare(count1, total1, count2, total2, 4);
    AboveInShare(count1, total1, count2, total2, 5);
    AboveInShare(count1, total1, count2, total2, 6);
  }

  /** Passing a threshold carries over to any share at least as large. */
  lemma AboveInShare(count1: nat, total1: nat, count2: nat, total2: nat, t: nat)
    requires total1 > 0 && total2 > 0
    requires count1 * total2 <= count2 * total1
    ensures Above(count1, total1, t) ==> Above(count2, total2, t)
  {
    if Above(count1, total1, t) {
      assert (count1 * 100) * total2 > (t * total1) * total2 by {
        MulStrict(t * total1, count1 * 100, total2);
      }
      assert (count2 * total1) * 100 >= (count1 * total2) * 100;
      if !Above(count2, total2, t) {
        MulMono(count2 * 100, t * total2, total1);
        assert false;
      }
    }
  }

  lemma MulStrict(a: int, b: int, c: int)
    requires a < b && c > 0
    ensures a * c < b * c
  {
    assert b * c - a * c == (b - a) * c;
  }

  lemma MulMono(a: int, b: int, c: int)
    requires a <= b && c >= 0
    ensures a * c <= b * c
  {
    assert b * c - a * c == (b - a) * c;
  }

  /** A whole year's records in one province is DeepRed. */
  lemma WholeYearIsDeepRed(total: nat)
    requires total > 0
    ensures Classify(total, total) == DeepRed
  {
  }

  // The computation.

  /** `provinceHeatData[year][province]` for every pair with records. */
  method CalculateHeatData(data: seq<Record>) returns (heat: map<Year, map<string, Colour>>)
    ensures forall y :: y in heat <==> YearCohort(data, y) != []
    ensures forall y, p :: y in heat ==> (p in heat[y] <==> Cohort(data, p, y) != [])
    ensures forall y, p :: y in heat && p in heat[y] ==>
      heat[y][p] == Classify(|Cohort(data, p, y)|, |YearCohort(data, y)|)
  {
    var t, totals := Accumulate(data);
    forall p, y | p in t.cells && y in t.cells[p] ensures y in totals {
      CohortWithinYear(data, p, y);
    }
    heat := HeatOf(t, totals);
    forall y ensures y in heat <==> YearCohort(data, y) != [] {
      if YearCohort(data, y) != [] {
        var p := YearHasProvince(data, y);
        assert p in t.cells && y in t.cells[p];
        assert y in heat && p in heat[y];
      }
    }
    forall y, p | y in heat ensures p in heat[y] <==> Cohort(data, p, y) != [] {
      assert (p in t.cells && y in t.cells[p]) <==> Cohort(data, p, y) != [];
    }
    forall y, p | y in heat && p in heat[y]
      ensures heat[y][p] == Classify(|Cohort(data, p, y)|, |YearCohort(data, y)|)
    {
      assert t.cells[p][y] == TallyOf(Cohort(data, p, y));
    }
  }

  /** The two nested `forEach` loops over the statistics. */
  method HeatOf(t: Table<Tally>, totals: map<Year, nat>) returns (heat: map<Year, map<string, Colour>>)
    requires WellFormed(t)
    requires forall p, y :: p in t.cells && y in t.cells[p] ==> y in totals
    ensures forall y :: y in heat ==> y in totals
    ensures forall y, p :: (y in heat && p in heat[y]) <==> p in t.cells && y in t.cells[p]
    ensures forall y, p :: y in heat && p in heat[y] ==> heat[y][p] == Classify(t.cells[p][y].count, totals[y])
  {
    heat := map[];
    var i := 0;
    while i < |t.provinces|
      invariant 0 <= i <= |t.provinces|
      invariant HeatFiled(t, totals, t.provinces[..i], heat)
    {
      var p := t.provinces[i];
      assert t.provinces[..i + 1] == t.provinces[..i] + [p];
      assert p !in t.provinces[..i];
      heat := HeatProvince(t, totals, t.provinces[..i], p, heat);
      i := i + 1;
    }
    assert t.provinces[..i] == t.provinces;
    forall y, p ensures (y in heat && p in heat[y]) <==> p in t.cells && y in t.cells[p] {
      assert p in t.cells <==> p in t.provinces;
    }
  }

  /** Every cell of `heat` is one of `t`, with the colour of its count over its year's total. */
  ghost predicate HeatColours(t: Table<Tally>, totals: map<Year, nat>, heat: map<Year, map<string, Colour>>)
  {
    && (forall y :: y in heat ==> y in totals)
    && (forall y, q :: y in heat && q in heat[y] ==> q in t.cells && y in t.cells[q])
    && (forall y, q :: y in heat && q in heat[y] && q in t.cells && y in t.cells[q] ==>
         heat[y][q] == Classify(t.cells[q][y].count, totals[y]))
  }

  /** `heat` holds exactly the cells of the provinces `done`. */
  ghost predicate HeatFiled(t: Table<Tally>, totals: map<Year, nat>, done: seq<string>, heat: map<Year, map<string, Colour>>)
  {
    && HeatColours(t, totals, heat)
    && (forall y, q :: (y in heat && q in heat[y]) <==> q in done && q in t.cells && y in t.cells[q])
  }

  /** `heat` holds exactly the cells of the provinces `done` and those of province `p` in the years `ys`. */
  ghost predicate HeatPartly(t: Table<Tally>, totals: map<Year, nat>, done: seq<string>, p: string, ys: seq<Year>,
                             heat: map<Year, map<string, Colour>>)
  {
    && HeatColours(t, totals, heat)
    && (forall y, q :: (y in heat && q in heat[y]) <==> (q in done && q in t.cells && y in t.cells[q]) || (q == p && y in ys))
  }

  /** The inner `forEach` over the years of province `p`, which is not among `done`. */
  method HeatProvince(t: Table<Tally>, totals: map<Year, nat>, ghost done: seq<string>, p: string,
                      heat0: map<Year, map<string, Colour>>)
    returns (heat: map<Year, map<string, Colour>>)
    requires WellFormed(t) && p in t.cells && p !in done
    requires forall y :: y in t.cells[p] ==> y in totals
    requires HeatFiled(t, totals, done, heat0)
    ensures HeatFiled(t, totals, done + [p], heat)
  {
    heat := heat0;
    var years := t.years[p];
    YearsInCells(t, p);
    var j := 0;
    while j < |years|
      invariant 0 <= j <= |years|
      invariant HeatPartly(t, totals, done, p, years[..j], heat)
    {
      var y := years[j];
      assert years[..j + 1] == years[..j] + [y];
      var row: map<string, Colour> := if y in heat then heat[y] else map[];
      ghost var before := heat;
      heat := heat[y := row[p := Classify(t.cells[p][y].count, totals[y])]];
      HeatStep(t, totals, done, p, years[..j], y, before, heat);
      j := j + 1;
    }
    assert years[..j] == years;
    HeatProvinceDone(t, totals, done, p, heat);
  }

  /** Filing province `p`'s colour for year `y`. */
  lemma HeatStep(t: Table<Tally>, totals: map<Year, nat>, done: seq<string>, p: string, ys: seq<Year>, y: Year,
                 heat0: map<Year, map<string, Colour>>, heat: map<Year, map<string, Colour>>)
    requires p in t.cells && y in t.cells[p] && y in totals
    requires HeatPartly(t, totals, done, p, ys, heat0)
    requires var row := if y in heat0 then heat0[y] else map[];
      heat == heat0[y := row[p := Classify(t.cells[p][y].count, totals[y])]]
    ensures HeatPartly(t, totals, done, p, ys + [y], heat)
  {
    var c := Classify(t.cells[p][y].count, totals[y]);
    PutFacts(heat0, y, p, c, heat);
    forall y', q | y' in heat && q in heat[y'] ensures q in t.cells && y' in t.cells[q] {
      if y' != y || q != p {
        assert y' in heat0 && q in heat0[y'];
      }
    }
    forall y', q | y' in heat && q in heat[y'] && q in t.cells && y' in t.cells[q]
      ensures heat[y'][q] == Classify(t.cells[q][y'].count, totals[y'])
    {
      if y' != y || q != p {
        assert heat[y'][q] == heat0[y'][q];
      }
    }
  }

  /** Setting `heat[y][p] := c` adds exactly that cell and keeps every other one. */
  lemma PutFacts(heat0: map<Year, map<string, Colour>>, y: Year, p: string, c: Colour, heat: map<Year, map<string, Colour>>)
    requires var row := if y in heat0 then heat0[y] else map[]; heat == heat0[y := row[p := c]]
    ensures forall y', q :: (y' in heat && q in heat[y']) <==> (y' in heat0 && q in heat0[y']) || (y' == y && q == p)
    ensures forall y', q :: y' in heat0 && q in heat0[y'] && (y' != y || q != p) ==> heat[y'][q] == heat0[y'][q]
    ensures heat[y][p] == c
  {
  }

  /** Once all of `p`'s years are filed, `p` joins the finished provinces. */
  lemma HeatProvinceDone(t: Table<Tally>, totals: map<Year, nat>, done: seq<string>, p: string, heat: map<Year, map<string, Colour>>)
    requires WellFormed(t) && p in t.cells
    requires HeatPartly(t, totals, done, p, t.years[p], heat)
    ensures HeatFiled(t, totals, done + [p], heat)
  {
    forall y, q ensures (y in heat && q in heat[y]) <==> (q in done + [p] && q in t.cells && y in t.cells[q]) {
      assert y in t.cells[p] <==> y in t.years[p];
    }
  }

  /** Every colour of the heat map is computed from a share between 0 and 100 percent. */
  lemma ShareIsPercentage(data: seq<Record>, p: string, y: Year)
    requires Cohort(data, p, y) != []
    ensures YearCohort(data, y) != []
    ensures 0.0 < Percent(|Cohort(data, p, y)|, |YearCohort(data, y)|) <= 100.0
  {
    CohortWithinYear(data, p, y);
    ShareBound(|Cohort(data, p, y)| as real, |YearCohort(data, y)| as real);
  }

  lemma ShareBound(c: real, n: real)
    requires 0.0 < c <= n
    ensures 0.0 < c * 100.0 / n <= 100.0
  {
    var x := c * 100.0 / n;
    assert x * n == c * 100.0;
    assert c * 100.0 <= n * 100.0;
  }
}
