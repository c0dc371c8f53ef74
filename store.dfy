/**
  The root store: its state, the mutations that assign it, and the bodies of
  the actions that compute state from loaded records and commit it. Every
  mutation changes its own field and nothing else; every action changes
  exactly the fields its commits name.
 */
module Store {
  import opened Counting
  import opened ScoreAggregator
  import opened ProvinceStats
  import opened Ranking
  import opened Heat

  datatype Option<T> = None | Some(value: T)

  /** The payload of `setSelectedStudent`. */
  datatype Selection = Selection(
    studentId: string, studentMajor: string, studentGender: string,
    maxTerm: string, maxScore: real, minTerm: string, minScore: real, avgScore: real)

  /** Some element of a non-empty set. */
  method Pick<T>(s: set<T>) returns (x: T)
    requires s != {}
    ensures x in s
  {
    x :| x in s;
  }

  /** The year shown before the user picks one. */
  const DefaultYear: Year := 2008

  class StoreState {
    var students: seq<Student>
    var selectedStudentScores: map<string, real>
    var averageScores: map<string, real>
    var majorScores: map<string, map<string, real>>
    var selectedMajor: Option<string>
    var selectedStudent: Option<Selection>
    var selectedYear: Year
    var totalStudentsByYear: map<Year, nat>
    var provinceStats: Table<YearStat>
    var provinceData: seq<Record>
    var provinceHeatData: map<Year, map<string, Colour>>
    var provinceYearlyAverage: map<string, map<Year, Ratio>>
    var dataLoaded: bool
    /** Not part of the initial state: absent until `SET_RANKINGS` runs. */
    var rankings: Option<map<string, map<Year, nat>>>

    constructor ()
      ensures students == [] && selectedStudentScores == map[]
      ensures averageScores == map[] && majorScores == map[]
      ensures selectedMajor == None && selectedStudent == None
      ensures selectedYear == DefaultYear && totalStudentsByYear == map[]
      ensures provinceStats == Table([], map[], map[]) && provinceData == []
      ensures provinceHeatData == map[] && provinceYearlyAverage == map[]
      ensures !dataLoaded && rankings == None
    {
      students := [];
      selectedStudentScores := map[];
      averageScores := map[];
      majorScores := map[];
      selectedMajor := None;
      selectedStudent := None;
      selectedYear := DefaultYear;
      totalStudentsByYear := map[];
      provinceStats := Table([], map[], map[]);
      provinceData := [];
      provinceHeatData := map[];
      provinceYearlyAverage := map[];
      dataLoaded := false;
      rankings := None;
    }

    // The mutations.

    method SetSelectedYear(year: Year)
      modifies this`selectedYear
      ensures selectedYear == year
    {
      selectedYear := year;
    }

    method SetStudents(payload: seq<Student>)
      modifies this`students
      ensures students == payload
    {
      students := payload;
    }

    method SetAverageScores(payload: map<string, real>)
      modifies this`averageScores
      ensures averageScores == payload
    {
      averageScores := payload;
    }

    method SetSelectedStudent(payload: Selection)
      modifies this`selectedStudent
      ensures selectedStudent == Some(payload)
    {
      selectedStudent := Some(payload);
    }

    method SetSelectedStudentScores(scores: map<string, real>)
      modifies this`selectedStudentScores
      ensures selectedStudentScores == scores
    {
      selectedStudentScores := scores;
    }

    method SetMajorScores(payload: map<string, map<string, real>>)
      modifies this`majorScores
      ensures majorScores == payload
    {
      majorScores := payload;
    }

    method SetSelectedMajor(major: Option<string>)
      modifies this`selectedMajor
      ensures selectedMajor == major
    {
      selectedMajor := major;
    }

    method SetProvinceStats(payload: Table<YearStat>)
      modifies this`provinceStats
      ensures provinceStats == payload
    {
      provinceStats := payload;
    }

    method SetProvinceData(payload: seq<Record>)
      modifies this`provinceData
      ensures provinceData == payload
    {
      provinceData := payload;
    }

    method SetProvinceHeatData(data: map<Year, map<string, Colour>>)
      modifies this`provinceHeatData
      ensures provinceHeatData == data
    {
      provinceHeatData := data;
    }

    method SetRankings(payload: map<string, map<Year, nat>>)
      modifies this`rankings
      ensures rankings == Some(payload)
    {
      rankings := Some(payload);
    }

    method SetDataLoaded(payload: bool)
      modifies this`dataLoaded
      ensures dataLoaded == payload
    {
      dataLoaded := payload;
    }

    /** Writes one year's entry; every other year keeps its count. */
    method SetTotalStudentsByYear(year: Year, count: nat)
      modifies this`totalStudentsByYear
      ensures totalStudentsByYear == old(totalStudentsByYear)[year := count]
      ensures forall y :: y != year ==> (y in totalStudentsByYear <==> y in old(totalStudentsByYear))
      ensures forall y :: y != year && y in totalStudentsByYear ==> totalStudentsByYear[y] == old(totalStudentsByYear)[y]
    {
      totalStudentsByYear := totalStudentsByYear[year := count];
    }

    method SetProvinceYearlyAverage(payload: map<string, map<Year, Ratio>>)
      modifies this`provinceYearlyAverage
      ensures provinceYearlyAverage == payload
    {
      provinceYearlyAverage := payload;
    }

    // The actions.

    method UpdateSelectedYear(year: Year)
      modifies this`selectedYear
      ensures selectedYear == year
    {
      SetSelectedYear(year);
    }

    /** The callback of `fetchProvinceData`, given the loaded records. */
    method FetchProvinceData(data: seq<Record>)
      modifies this`provinceData
      ensures provinceData == data
    {
      SetProvinceData(data);
    }

    /** The callback of `fetchStudents`, given the loaded students. */
    method FetchStudentsLoaded(data: seq<Student>)
      modifies this`students, this`averageScores, this`majorScores
      ensures students == data
      ensures forall t :: t in averageScores <==> TermScores(data, t) != []
      ensures forall t :: t in averageScores ==> averageScores[t] == Mean(TermScores(data, t))
      ensures forall m :: m in majorScores <==> MajorSeen(data, m)
      ensures forall m, t :: m in majorScores ==> (t in majorScores[m] <==> MajorTermScores(data, m, t) != [])
      ensures forall m, t :: m in majorScores && t in majorScores[m] ==>
        majorScores[m][t] == Mean(MajorTermScores(data, m, t))
    {
      SetStudents(data);
      var averages, majors := FetchStudents(data);
      SetAverageScores(averages);
      SetMajorScores(majors);
    }

    /** The `Object.entries(totalStudentsByYear).forEach` loop of commits. */
    method CommitTotals(totals: map<Year, nat>)
      modifies this`totalStudentsByYear
      ensures forall y :: y in totalStudentsByYear <==> y in old(totalStudentsByYear) || y in totals
      ensures forall y :: y in totalStudentsByYear ==>
        totalStudentsByYear[y] == if y in totals then totals[y] else old(totalStudentsByYear)[y]
    {
      var todo := totals.Keys;
      while todo != {}
        invariant todo <= totals.Keys
        invariant forall y :: y in totalStudentsByYear <==> y in old(totalStudentsByYear) || (y in totals && y !in todo)
        invariant forall y :: y in totalStudentsByYear ==>
          totalStudentsByYear[y] == if y in totals && y !in todo then totals[y] else old(totalStudentsByYear)[y]
        decreases todo
      {
        var y := Pick(todo);
        SetTotalStudentsByYear(y, totals[y]);
        todo := todo - {y};
      }
    }

    /**
      The callback of `processProvinceData`, given the loaded records: commit
      the statistics, merge the year totals, rank the committed statistics and
      commit their averages.
     */
    method ProcessProvinceDataLoaded(data: seq<Record>)
      modifies this`provinceStats, this`totalStudentsByYear, this`rankings, this`provinceYearlyAverage
      ensures WellFormed(provinceStats)
      ensures provinceStats.provinces == FirstSeen(Provinces(data))
      ensures forall p, y :: (p in provinceStats.cells && y in provinceStats.cells[p]) <==> Cohort(data, p, y) != []
      ensures forall p, y :: p in provinceStats.cells && y in provinceStats.cells[p] ==>
        FinishedCell(provinceStats.cells[p][y], Cohort(data, p, y))
      ensures forall y :: y in totalStudentsByYear <==> y in old(totalStudentsByYear) || YearCohort(data, y) != []
      ensures forall y :: y in totalStudentsByYear ==>
        totalStudentsByYear[y] == if YearCohort(data, y) != [] then |YearCohort(data, y)| else old(totalStudentsByYear)[y]
      ensures rankings.Some?
      ensures rankings.value.Keys == provinceStats.cells.Keys
      ensures forall p, y :: p in rankings.value ==> (y in rankings.value[p] <==> Qualifies(provinceStats, p, y))
      ensures forall p, y :: p in rankings.value && y in rankings.value[p] ==>
        rankings.value[p][y] == RankOf(provinceStats, p, y)
      ensures provinceYearlyAverage.Keys == provinceStats.cells.Keys
      ensures forall p :: p in provinceYearlyAverage ==> provinceYearlyAverage[p].Keys == provinceStats.cells[p].Keys
      ensures forall p, y :: p in provinceYearlyAverage && y in provinceYearlyAverage[p] ==>
        provinceYearlyAverage[p][y] == provinceStats.cells[p][y].averageScore
    {
      CommitProvinceStats(data);
      CalculateRankingsAction();
      assert rankings.value.Keys == provinceStats.cells.Keys;
      var averages := YearlyAverages(provinceStats);
      SetProvinceYearlyAverage(averages);
    }

    /** The first commits of `processProvinceData`: the statistics, then the year totals. */
    method CommitProvinceStats(data: seq<Record>)
      modifies this`provinceStats, this`totalStudentsByYear
      ensures WellFormed(provinceStats)
      ensures provinceStats.provinces == FirstSeen(Provinces(data))
      ensures forall p, y :: (p in provinceStats.cells && y in provinceStats.cells[p]) <==> Cohort(data, p, y) != []
      ensures forall p :: p in provinceStats.cells ==> provinceStats.cells[p] != map[]
      ensures forall p, y :: p in provinceStats.cells && y in provinceStats.cells[p] ==>
        FinishedCell(provinceStats.cells[p][y], Cohort(data, p, y))
      ensures forall y :: y in totalStudentsByYear <==> y in old(totalStudentsByYear) || YearCohort(data, y) != []
      ensures forall y :: y in totalStudentsByYear ==>
        totalStudentsByYear[y] == if YearCohort(data, y) != [] then |YearCohort(data, y)| else old(totalStudentsByYear)[y]
    {
      var stats, totals := ProcessProvinceData(data);
      SetProvinceStats(stats);
      CommitTotals(totals);
    }

    /** The action `calculateRankings` on the current statistics. */
    method CalculateRankingsAction()
      requires WellFormed(provinceStats)
      modifies this`rankings
      ensures rankings.Some?
      ensures forall p :: p in rankings.value <==> p in provinceStats.cells && provinceStats.cells[p] != map[]
      ensures forall p, y :: p in rankings.value ==> (y in rankings.value[p] <==> Qualifies(provinceStats, p, y))
      ensures forall p, y :: p in rankings.value && y in rankings.value[p] ==>
        rankings.value[p][y] == RankOf(provinceStats, p, y)
    {
      var ranks := CalculateRankings(provinceStats);
      SetRankings(ranks);
    }

    /** The callback of `calculateHeatData`, given the loaded records. */
    method CalculateHeatDataLoaded(data: seq<Record>)
      modifies this`provinceHeatData, this`dataLoaded
      ensures dataLoaded
      ensures forall y :: y in provinceHeatData <==> YearCohort(data, y) != []
      ensures forall y, p :: y in provinceHeatData ==> (p in provinceHeatData[y] <==> Cohort(data, p, y) != [])
      ensures forall y, p :: y in provinceHeatData && p in provinceHeatData[y] ==>
        provinceHeatData[y][p] == Classify(|Cohort(data, p, y)|, |YearCohort(data, y)|)
    {
      var heat := CalculateHeatData(data);
      SetProvinceHeatData(heat);
      SetDataLoaded(true);
    }
  }
}
