# Province and transfer statistics store, in Dafny

This project models the data core of a Vue dashboard about a university's
students. The dashboard shows admission records by province and cohort year,
per-term exam scores, and transfers between majors.

The core is the application's Vuex store. It has two parts.

The root store is `src/store/store.js`. Its mutations assign state fields.
Its actions compute state from loaded JSON records:
- `fetchStudents` collects every student's five-digit term keys. It averages
  the scores per term and per (major, term).
- `processProvinceData` counts records, male students and score sums per
  (province, cohort year). It counts cohort sizes per year. It derives each
  cell's average score and male percentage. It commits the results and then
  ranks the provinces.
- `calculateRankings` ranks, for each year, the provinces whose average is
  truthy. It sorts them by descending average, stably, and gives each its
  1-based position.
- `calculateHeatData` gives each (year, province) pair a colour. The colour
  comes from the province's share of that year's records, on thresholds
  from 6 % down to 1 %.

The `transfer` module is `src/store/transfer.js`. Its getters take a year's
transfer events and build:
- a top-five outflow list with an "other majors" entry;
- a chord diagram: nodes, links and per-major in/out counts;
- the top five majors by inflow;
- the top five majors sharing courses with a given major;
- a five-year in/out series.

Its mutations assign its four state fields.

The files:
- `counting.dfy` (`Counting`) defines the key order of a dictionary filled
  by a walk (`FirstSeen`) and occurrence counts. It proves that the counts
  sum to the length of the walk.
- `sorting.dfy` (`Sorting`) gives the stable descending sort as a function.
  It is proved sorted, a permutation, distinctness-preserving and stable.
- `scores.dfy` (`ScoreAggregator`) models `fetchStudents`.
- `province_stats.dfy` (`ProvinceStats`) models the counting and
  derivation passes of `processProvinceData`.
- `ranking.dfy` (`Ranking`) models `calculateRankings`.
- `heat.dfy` (`Heat`) models `calculateHeatData`.
- `store.dfy` (`Store`) models the root store's state as the class
  `StoreState`, with one method per mutation and per action body.
- `toplist.dfy` (`TopList`) models the count, sort and slice pipeline shared
  by the transfer getters.
- `transfer.dfy` (`Transfer`) models the getters and the module state
  `TransferState`.

Every modelled `forEach` loop of the source is a `while` loop with
invariants. The `results.forEach` of `fetchCourseData` is not modelled,
because it only stores loaded files. Each loop except one is proved against
a specification function, which is defined by recursion over the input
records. The exception is the loop of `CommitTotals`, which commits the
year totals one by one. It is proved against the old totals merged with
the new ones. The `filter`, `map`, `reduce`, `sort` and `findIndex` chains
are those recursive functions themselves. The `courseData.forEach` of the
overlap getter is split in two: the recursive `SharingMajors` picks the
keys it counts, and the `CountKeys` loop counts them.
The properties the dashboard relies on are lemmas about
those functions. Examples:
- ranks are a bijection onto 1..n, and a higher average ranks first;
- the heat colours partition the percentages;
- the outflow list accounts for every transfer;
- the chord in-counts and out-counts both sum to the number of events.

Modelling conventions:
- JavaScript numbers are exact reals or naturals. A division by a zero
  count, whose result is NaN in the source, is `Ratio.Undefined`. NaN and
  0 are falsy.
- The heat comparison `count / total * 100 > t` is evaluated exactly as
  `count * 100 > t * total`. This also matches the source at `total == 0`,
  where a positive count gives Infinity and a zero count gives NaN.
- A dictionary with significant key order is a `Table`: a map together
  with the sequence of its keys in insertion order.
- The chord diagram's `in` and `out` fields are named `inCount` and
  `outCount`, because `in` is a Dafny keyword.
- The payload of `setSelectedStudent` is one `Selection` value. The
  source spreads it over eight state fields.

## Model

| member | source | states |
|---|---|---|
| Counting.FirstSeen | src/store/transfer.js:27 | The key order of a dictionary filled by walking a sequence has no repeated key and is no longer than the walk. |
| Counting.FirstSeenMember | src/store/transfer.js:21-24 | A key is in the dictionary exactly when it occurs in the walked sequence. |
| Counting.FirstSeenPrefix | src/store/transfer.js:48-56 | Walking further never reorders the keys already inserted. |
| Counting.SumOccurrencesIsLength | src/store/store.js:178-181 | Over distinct keys that cover a sequence, the per-key counts add up to the sequence's length. |
| Counting.IndexOf | src/store/store.js:241 | The first position of a present value holds that value, and no earlier position does. |
| Sorting.SortDesc | src/store/store.js:238 | The sort returns as many elements as it is given. |
| Sorting.SortDescFacts | src/store/store.js:238 | `sort((a, b) => key(b) - key(a))` returns a permutation of its input with non-increasing keys, and keeps distinct inputs distinct. |
| Sorting.SortDescStable | src/store/store.js:238 | Elements with equal keys keep their input order. |
| Sorting.HigherKeyFirst | src/store/store.js:238 | In the sorted result an element with a strictly higher key comes first. |
| ScoreAggregator.GroupScores | src/store/store.js:110-129 | Every five-digit key's score is filed under its term and under its (major, term). A group exists exactly when it has scores, and it holds those scores in input order. |
| ScoreAggregator.AverageGroups | src/store/store.js:133-137 | One entry per group, holding the group's exact mean. |
| ScoreAggregator.AverageMajorGroups | src/store/store.js:141-149 | One entry per major, with one entry per term of that major holding the exact mean of its group. |
| ScoreAggregator.FetchStudents | src/store/store.js:106-150 | `averageScores` has a term exactly when some score was filed under it, with their mean. `majorScores` has exactly the majors of students with a term score, and under each exactly that major's terms, with their means. |
| ScoreAggregator.NonTermKeyIgnored | src/store/store.js:111-112 | A key that is not exactly five digits, such as the major field, never collects a score. |
| ScoreAggregator.TermPresent | src/store/store.js:112-116 | A term has an average exactly when it is five digits and some student's record has that key. |
| ScoreAggregator.TermIsUnionOfMajors | src/store/store.js:116-126 | Over distinct majors covering the students, the (major, term) groups together hold exactly the term's scores. In particular their sizes add up to the term's group. |
| ProvinceStats.Accumulate | src/store/store.js:164-186 | Provinces and their years are in first-seen order. A (province, year) cell exists exactly when it has records. It counts them, their male students and their score sum. Each year's total is that year's number of records. |
| ProvinceStats.FinishProvince | src/store/store.js:190-194 | Every cell of one province is finished, and no cell is added. |
| ProvinceStats.Derive | src/store/store.js:189-195 | Every cell gains its average and male percentage. Keys and key orders are unchanged. |
| ProvinceStats.ProcessProvinceData | src/store/store.js:161-195 | Each cell's count is at least 1 and its male count at most its count. Its average is the exact mean of its records' scores, and its male percentage is the exact male share times 100. The cells and year totals are those of `Accumulate`. A province never has an empty year map. |
| ProvinceStats.ProvinceHasCohort | src/store/store.js:168-173 | A province in the records has some year with records. |
| ProvinceStats.FinishFacts | src/store/store.js:192-193 | Finishing the tally of a non-empty cohort gives defined, exact average and male percentage. |
| ProvinceStats.YearlyAverages | src/store/store.js:207-213 | `provinceYearlyAverage` has the same provinces and years as the statistics, and holds each cell's average. |
| ProvinceStats.MaleCountBound | src/store/store.js:183-185 | The male count never exceeds the count. |
| ProvinceStats.YearTotalIsSumOfCounts | src/store/store.js:175-181 | A year's total equals the sum of that year's cell counts over all provinces. |
| ProvinceStats.CohortWithinYear | src/store/store.js:175-181 | A cell's count never exceeds its year's total. |
| ProvinceStats.YearHasProvince | src/store/store.js:164-181 | A year with records has a province with records in that year. |
| Ranking.FindIndex | src/store/store.js:241 | `findIndex`: the first position naming the province, or -1 when none does. |
| Ranking.CalculateRankings | src/store/store.js:223-251 | Every province with a year gets an entry. A year is recorded exactly when the province's average that year is truthy. The value is its 1-based position in the sorted list. |
| Ranking.QualifyingMember | src/store/store.js:228-235 | After the `map` and `filter`, the list holds exactly the provinces with a truthy average that year, each with its average. |
| Ranking.RankedFacts | src/store/store.js:228-238 | The sorted list is sorted, has no repeats, and has the same elements as the filtered list. |
| Ranking.RankOf | src/store/store.js:241 | `findIndex(...) + 1` lies between 0 and the list's length. A positive rank names the first entry of that province, and 0 means the province is not in the list. |
| Ranking.RankIsIndex | src/store/store.js:241 | A qualifying province's rank is one more than its entry's position in the sorted list. |
| Ranking.RankPositiveIff | src/store/store.js:241-247 | `rank > 0` holds exactly when the province's average that year is truthy. |
| Ranking.RankBounds | src/store/store.js:241 | A rank lies between 1 and the number of ranked provinces. |
| Ranking.RankInjective | src/store/store.js:238-241 | Two provinces never share a rank in the same year. |
| Ranking.RankSurjective | src/store/store.js:238-241 | Every rank from 1 to the number of ranked provinces is held by some province. |
| Ranking.HigherAverageRanksFirst | src/store/store.js:238 | A strictly higher average gives a strictly smaller rank. |
| Ranking.TiesKeepKeyOrder | src/store/store.js:228-238 | Equal averages are ranked in the key order of the statistics, because the sort is stable. |
| Heat.Classify | src/store/store.js:289-304 | The chosen colour's threshold is exceeded, and the next threshold up is not. |
| Heat.AboveIsPercent | src/store/store.js:287-290 | The integer comparison agrees with comparing the real percentage against the threshold. |
| Heat.ClassifyIsBand | src/store/store.js:287-304 | A colour is chosen exactly when the percentage lies in its band: above its level, and at most the next level except for the top band. |
| Heat.FivePercentIsOrange | src/store/store.js:292-295 | Exactly 5 % is not above 5, so it is Orange. |
| Heat.LightBlueIffAtMostOnePercent | src/store/store.js:300-304 | The fallback colour is chosen exactly for shares of at most 1 %. |
| Heat.ClassifyMonotone | src/store/store.js:289-304 | In the same year, more records never give a cooler colour. |
| Heat.ClassifyMonotoneInShare | src/store/store.js:287-304 | Across any two positive year totals, a share at least as large never gives a cooler colour. |
| Heat.WholeYearIsDeepRed | src/store/store.js:290-291 | A province holding a whole year's records is DeepRed. |
| Heat.PutFacts | src/store/store.js:306 | Setting one (year, province) colour adds exactly that cell and keeps every other cell. |
| Heat.HeatOf | src/store/store.js:278-308 | Every cell with statistics has an entry under its year, with the colour of its count over that year's total, and only those cells do. |
| Heat.CalculateHeatData | src/store/store.js:255-308 | A year is in `provinceHeatData` exactly when it has records. A province is under it exactly when it has records that year, and its colour classifies its count against the year's total. |
| Heat.ShareIsPercentage | src/store/store.js:285-287 | Every classified share is above 0 % and at most 100 %, because the total is never zero there. |
| Store.StoreState.constructor | src/store/store.js:10-31 | The initial state: empty collections, no selection, year 2008, not loaded, no rankings. |
| Store.StoreState.SetSelectedYear | src/store/store.js:34-37 | Assigns `selectedYear` and nothing else. |
| Store.StoreState.SetStudents | src/store/store.js:38-40 | Assigns `students` and nothing else. |
| Store.StoreState.SetAverageScores | src/store/store.js:41-43 | Assigns `averageScores` and nothing else. |
| Store.StoreState.SetSelectedStudent | src/store/store.js:44-53 | Records the selected student's eight fields and nothing else. |
| Store.StoreState.SetSelectedStudentScores | src/store/store.js:54-56 | Assigns `selectedStudentScores` and nothing else. |
| Store.StoreState.SetMajorScores | src/store/store.js:57-59 | Assigns `majorScores` and nothing else. |
| Store.StoreState.SetSelectedMajor | src/store/store.js:60-62 | Assigns `selectedMajor` and nothing else. |
| Store.StoreState.SetProvinceStats | src/store/store.js:64-66 | Assigns `provinceStats` and nothing else. |
| Store.StoreState.SetProvinceData | src/store/store.js:67-69 | Assigns `provinceData` and nothing else. |
| Store.StoreState.SetProvinceHeatData | src/store/store.js:70-72 | Assigns `provinceHeatData` and nothing else. |
| Store.StoreState.SetRankings | src/store/store.js:74-76 | Assigns `rankings` and nothing else. |
| Store.StoreState.SetDataLoaded | src/store/store.js:77-79 | Assigns `dataLoaded` and nothing else. |
| Store.StoreState.SetTotalStudentsByYear | src/store/store.js:80-82 | Writes one year's count. Every other year keeps its presence and its count. |
| Store.StoreState.SetProvinceYearlyAverage | src/store/store.js:83-85 | Assigns `provinceYearlyAverage` and nothing else. |
| Store.StoreState.UpdateSelectedYear | src/store/store.js:89-91 | The action commits the year. |
| Store.StoreState.FetchProvinceData | src/store/store.js:153-157 | The loaded records become `provinceData`. |
| Store.StoreState.FetchStudentsLoaded | src/store/store.js:104-150 | The students, the per-term averages and the per-major averages are committed, with the meaning stated for `FetchStudents`. |
| Store.StoreState.CommitTotals | src/store/store.js:199-201 | After the commit loop, every computed year holds its new total. Years not computed keep their earlier total. |
| Store.StoreState.CommitProvinceStats | src/store/store.js:197-201 | The committed statistics are those of `ProcessProvinceData`. Each computed year's total replaces the old one, and other years keep theirs. |
| Store.StoreState.ProcessProvinceDataLoaded | src/store/store.js:160-215 | The committed statistics are those of `ProcessProvinceData`, and the year totals are merged. The rankings and the yearly averages describe the committed statistics. |
| Store.StoreState.CalculateRankingsAction | src/store/store.js:223-251 | The committed rankings are those of the current statistics. |
| Store.StoreState.CalculateHeatDataLoaded | src/store/store.js:254-312 | The heat map of the records is committed, and `dataLoaded` becomes true. |
| TopList.Take | src/store/transfer.js:31 | `slice(0, n)` is the prefix of length exactly n, or the whole list when it is no longer than n. |
| TopList.Drop | src/store/transfer.js:32 | `slice(n)` is what follows `slice(0, n)`. |
| TopList.CountKeys | src/store/transfer.js:18-25 | The counting loop inserts keys in first-seen order. A key has a count exactly when it was walked, and the count is its number of occurrences. |
| TopList.EntriesFromCounts | src/store/transfer.js:27-28 | The entries built from the counting loop's dictionary are the tally of the walked keys. |
| TopList.TalliedMember | src/store/transfer.js:18-28 | An entry of the tally is a walked key with its exact count. |
| TopList.TalliedSum | src/store/transfer.js:18-28 | The tally's counts add up to the number of keys walked. |
| TopList.SumCountsOver | src/store/transfer.js:27-32 | The counts of the entries built over a list of keys add up to those keys' occurrences in the walk. |
| TopList.SortKeepsSum | src/store/transfer.js:29 | Sorting does not change the total count. |
| TopList.SortedTally | src/store/transfer.js:27-29 | The sorted tally is sorted by count, has distinct names, and holds exactly the tally's entries. |
| TopList.TalliedDistinct | src/store/transfer.js:18-28 | The tally has one entry per key: no two entries are equal or share a name. |
| TopList.TiesInFirstSeenOrder | src/store/transfer.js:29-31 | Keys with equal counts stay in first-seen order after the stable sort. The top list never keeps the later of two tied keys while cutting the earlier one. |
| TopList.TopFive | src/store/transfer.js:87-90 | The top list has exactly min(number of distinct keys, 5) entries. |
| TopList.LeftOutIsSmaller | src/store/transfer.js:88-89 | After sorting, an entry cut off by `slice(0, n)` has no higher count than any kept entry. |
| TopList.TopFiveFacts | src/store/transfer.js:87-90 | At most five entries, exactly min(number of distinct keys, 5), in descending count order. Each entry is a walked key with its exact count, and no key left out has a higher count than a key kept. |
| Transfer.EventsOfYear | src/store/transfer.js:11-13 | `getTransferDataByYear` returns no more events than it is given, each of that year. |
| Transfer.YearSnoc | src/store/transfer.js:11-12 | Appending an event extends the filtered list exactly when the event has that year. |
| Transfer.EventsOfYearMember | src/store/transfer.js:11-13 | `getTransferDataByYear` keeps exactly the events whose `NJ` is the year. |
| Transfer.EventsOfYearAppend | src/store/transfer.js:11-13 | The filter distributes over concatenation, so it keeps the original order. |
| Transfer.EventsOfYearIdempotent | src/store/transfer.js:11-13 | Filtering twice by the same year is filtering once. |
| Transfer.Outflow | src/store/transfer.js:27-38 | The outflow list has at most six entries, and its first five are the top five targets. |
| Transfer.GetOutflowData | src/store/transfer.js:14-39 | An empty major gives `[]`. Otherwise the result is the outflow list of the new majors of the year's events leaving that major. |
| Transfer.SortedTallyPositive | src/store/transfer.js:20-29 | Every entry of a tally has a count of at least 1. |
| Transfer.OutflowFacts | src/store/transfer.js:27-38 | At most six entries, the first five being the top five. The "other majors" entry is present exactly when there are more than five targets. Its count is the rest of the total, and all counts add up to the number of transfers. |
| Transfer.UnseenNoFlow | src/store/transfer.js:49-52 | A major seen for the first time has no flows yet. |
| Transfer.NewNodeFlows | src/store/transfer.js:49-56 | Counters created at zero for majors not seen before keep every counter right. |
| Transfer.EndpointsMember | src/store/transfer.js:48-56 | Both majors of every event are named by the walk. |
| Transfer.GetChordData | src/store/transfer.js:40-72 | Node i is the i-th major named (old before new) with index i. Link i joins the node indices of event i's majors. `majorCount` has exactly the node majors, with their out- and in-occurrences. |
| Transfer.WalkEvents | src/store/transfer.js:48-59 | After the walk, node i is the i-th major named (old before new) with index i. Every named major has counters, holding its numbers of outgoing and incoming events. |
| Transfer.ChordFacts | src/store/transfer.js:48-71 | After the walk, every event's majors have nodes, each at the index of its first mention. `majorCount` has exactly the node names. |
| Transfer.ChordNodesAreMajors | src/store/transfer.js:48-61 | The nodes are distinct. A major is a node exactly when some event of the year leaves or enters it. |
| Transfer.EndpointsWitness | src/store/transfer.js:48-56 | A major named by the walk is the old or new major of some event. |
| Transfer.FirstEventNodes | src/store/transfer.js:49-56 | The first event's old major gets index 0. Its new major gets index 1 unless it is the same major. |
| Transfer.EndpointsPrefix | src/store/transfer.js:48-56 | The majors named by a concatenation are those of each part, in order. |
| Transfer.TotalFlows | src/store/transfer.js:57-58 | The out-counts and the in-counts both sum to the number of events. |
| Transfer.FlowMajorsNamed | src/store/transfer.js:48-58 | Every counted major is a node. |
| Transfer.GetTop5MajorsByInCount | src/store/transfer.js:76-91 | The result is the top five of the year's new majors by count. Its ordering, including ties in first-seen order, is stated by `TopList.TopFiveFacts` and `TopList.TiesInFirstSeenOrder`. |
| Transfer.NewMajorsCount | src/store/transfer.js:80-85 | A major's in-count is the number of events entering it, and its out-count the number leaving it. |
| Transfer.GetCourseOverlapData | src/store/transfer.js:92-112 | A year without course data gives `[]`. Otherwise the result is the top five of the other majors' records on the given major's courses. |
| Transfer.OverlapCount | src/store/transfer.js:98-105 | Each other major is counted once per record of it on a shared course, and the given major never. |
| Transfer.OverlapExcludesMajor | src/store/transfer.js:95-111 | The given major never appears in its own overlap list. Each entry counts that major's records on the shared courses. |
| Transfer.DecimalString | src/store/transfer.js:118 | `toString()` of a natural is a non-empty string of digits. |
| Transfer.DecimalStringValue | src/store/transfer.js:118 | The digits denote n, and the string starts with '0' only for zero, so it has no leading zeros. |
| Transfer.SeriesYearStrings | src/store/transfer.js:115-118 | The series years print as "2011" to "2015". |
| Transfer.GetYearlyTransferData | src/store/transfer.js:113-129 | Five entries, one per year 2011–2015, in order. Each holds the year and the number of that cohort's events entering and leaving the major. |
| Transfer.SeriesMatchesChord | src/store/transfer.js:113-129 | The series' in- and out-counts equal the chord diagram's counts for the same major and year. |
| Transfer.TransferState.constructor | src/store/transfer.js:3-8 | The initial state: no transfer data, chord year "2011", no selected major, no course data. |
| Transfer.TransferState.SetTransferData | src/store/transfer.js:159-161 | Assigns `transferData` and nothing else. |
| Transfer.TransferState.SetCourseData | src/store/transfer.js:162-164 | Assigns `courseData` and nothing else. |
| Transfer.TransferState.SetSelectedYearForChord | src/store/transfer.js:165-167 | Assigns `selectedYearForChord` and nothing else. |
| Transfer.TransferState.SetSelectedMajor | src/store/transfer.js:168-170 | Assigns `selectedMajor` and nothing else. |

## Left out

- Loading the files: `d3.json`, `csv`, `Promise.all`, `fetchTransferData` and `fetchCourseData` are I/O. Each action is modelled as its callback applied to the loaded records. The `.catch` handlers and all console output are left out.
- `fetchAndProcessData`: left out as concurrency. Its chain does not wait for the loads, because the actions it dispatches do not return their promises, so the order in which the callbacks commit is not determined. The three callbacks are modelled one by one.
- `this.dispatch('calculateRankings')` in `processProvinceData` is modelled as a direct call on the just-committed statistics.
- `toFixed(2)` and `parseFloat` in the averages: scores are exact reals, and no rounding is modelled.
- The `genderRatio` string of each province cell is not formatted. The cell holds the exact male percentage, `malePercent`, from which the string is printed.
- The colour strings `rgba(...)` are the enumeration `Heat.Colour`.
- Dictionary key order where no result depends on it: the key order of `averageScores`, `majorScores`, `provinceHeatData`, `rankings` and the inner year maps. Key order is kept where it matters: the province order that breaks ranking ties, and the key order of the transfer getters' counts.
- JavaScript's ascending order for integer-like keys: cohort years are kept in first-seen order. Years only order iterations whose results do not depend on it.
- Non-numeric score fields and the string/number coercion of years: record values are typed.
- `getSelectedYearForChord` is a plain field read, and the `setSelectedYearForChord` and `setSelectedMajor` actions only commit. They are covered by the mutations.
- The accumulation loop that `calculateHeatData` repeats is modelled once, by `ProvinceStats.Accumulate`, whose extra male count the heat map does not read.
- `Sorting.SortDesc`: the in-place sort of the source is modelled on values. Its results are exactly those of a stable sort, but their sharing of the original array is not modelled.
- Store.StoreState.CalculateRankingsAction: requires the statistics to be well formed (key orders listing the keys, each once). The initial state and every `ProcessProvinceDataLoaded` commit are well formed.
