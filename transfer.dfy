/**
  The transfer module: getters over the list of major-transfer events
  (`NJ` the cohort year as text, `OLD_ZYMC`/`NEW_ZYMC` the majors left and
  entered, `KSH` the student's exam number) and over the per-year course
  enrolments, and the state those getters read.
 */
module Transfer {
  import opened Counting
  import opened Sorting
  import opened TopList

  /** One row of the transfer CSV. */
  datatype TransferEvent = TransferEvent(nj: string, oldMajor: string, newMajor: string, ksh: string)

  /** One row of a course CSV: the major (`ZYMC`) and the course code (`YHDM`). */
  datatype Enrollment = Enrollment(major: string, course: string)

  /** A chord-diagram node: `{ name, index }`. */
  datatype Node = Node(name: string, index: nat)

  /** A chord-diagram link: `{ source, target, value, ksh }`. */
  datatype Link = Link(source: nat, target: nat, value: nat, ksh: string)

  /** `majorCount[m]`: `{ out, in }`. */
  datatype Flow = Flow(outCount: nat, inCount: nat)

  /** One element of the five-year series: `{ year, inCount, outCount }`. */
  datatype YearFlow = YearFlow(year: int, inCount: nat, outCount: nat)

  /** The name of the overflow entry of the outflow list ("other majors"). */
  const OtherMajors: string := "其他专业"

  // Filters and projections.

  /** `getTransferDataByYear`: the events of cohort `year`, in their original order. */
  function EventsOfYear(events: seq<TransferEvent>, year: string): (r: seq<TransferEvent>)
    ensures |r| <= |events|
    ensures forall i :: 0 <= i < |r| ==> r[i].nj == year
  {
    if events == [] then []
    else
      var e := events[|events| - 1];
      if e.nj == year then EventsOfYear(events[..|events| - 1], year) + [e] else EventsOfYear(events[..|events| - 1], year)
  }

  /** The events of cohort `year` leaving `major`. */
  function EventsFrom(events: seq<TransferEvent>, year: string, major: string): seq<TransferEvent>
  {
    if events == [] then []
    else
      var e := events[|events| - 1];
      if e.nj == year && e.oldMajor == major then EventsFrom(events[..|events| - 1], year, major) + [e]
      else EventsFrom(events[..|events| - 1], year, major)
  }

  /** The events entering `major`. */
  function Into(events: seq<TransferEvent>, major: string): seq<TransferEvent>
  {
    if events == [] then []
    else
      var e := events[|events| - 1];
      if e.newMajor == major then Into(events[..|events| - 1], major) + [e] else Into(events[..|events| - 1], major)
  }

  /** The events leaving `major`. */
  function OutOf(events: seq<TransferEvent>, major: string): seq<TransferEvent>
  {
    if events == [] then []
    else
      var e := events[|events| - 1];
      if e.oldMajor == major then OutOf(events[..|events| - 1], major) + [e] else OutOf(events[..|events| - 1], major)
  }

  function OldMajors(events: seq<TransferEvent>): (r: seq<string>)
    ensures |r| == |events|
  {
    if events == [] then [] else OldMajors(events[..|events| - 1]) + [events[|events| - 1].oldMajor]
  }

  function NewMajors(events: seq<TransferEvent>): (r: seq<string>)
    ensures |r| == |events|
  {
    if events == [] then [] else NewMajors(events[..|events| - 1]) + [events[|events| - 1].newMajor]
  }

  /** The majors of every event, the old one before the new one. */
  function Endpoints(events: seq<TransferEvent>): seq<string>
  {
    if events == [] then []
    else
      var e := events[|events| - 1];
      Endpoints(events[..|events| - 1]) + [e.oldMajor, e.newMajor]
  }

  lemma YearSnoc(d: seq<TransferEvent>, e: TransferEvent, y: string)
    ensures EventsOfYear(d + [e], y) == if e.nj == y then EventsOfYear(d, y) + [e] else EventsOfYear(d, y)
  {
    assert (d + [e])[..|d|] == d;
  }

  lemma MajorsSnoc(d: seq<TransferEvent>, e: TransferEvent)
    ensures OldMajors(d + [e]) == OldMajors(d) + [e.oldMajor]
    ensures NewMajors(d + [e]) == NewMajors(d) + [e.newMajor]
    ensures Endpoints(d + [e]) == Endpoints(d) + [e.oldMajor, e.newMajor]
  {
    assert (d + [e])[..|d|] == d;
  }

  // getTransferDataByYear.

  /** Exactly the events of that year are kept. */
  lemma {:induction false} EventsOfYearMember(events: seq<TransferEvent>, year: string, e: TransferEvent)
    ensures e in EventsOfYear(events, year) <==> e in events && e.nj == year
  {
    if events != [] {
      var d := events[..|events| - 1];
      assert events == d + [events[|events| - 1]];
      EventsOfYearMember(d, year, e);
    }
  }

  /** The filter distributes over concatenation, so it keeps the original order. */
  lemma {:induction false} EventsOfYearAppend(a: seq<TransferEvent>, b: seq<TransferEvent>, year: string)
    ensures EventsOfYear(a + b, year) == EventsOfYear(a, year) + EventsOfYear(b, year)
  {
    if b == [] {
      assert a + b == a;
    } else {
      var c := b[..|b| - 1];
      var e := b[|b| - 1];
      assert b == c + [e];
      assert a + b == (a + c) + [e];
      YearSnoc(a + c, e, year);
      YearSnoc(c, e, year);
      EventsOfYearAppend(a, c, year);
      var fa, fc := EventsOfYear(a, year), EventsOfYear(c, year);
      if e.nj == year {
        assert EventsOfYear(a + b, year) == (fa + fc) + [e];
        assert EventsOfYear(b, year) == fc + [e];
        assert (fa + fc) + [e] == fa + (fc + [e]);
      } else {
        assert EventsOfYear(a + b, year) == fa + fc;
        assert EventsOfYear(b, year) == fc;
      }
    }
  }

  /** Filtering twice by the same year is filtering once. */
  lemma {:induction false} EventsOfYearIdempotent(events: seq<TransferEvent>, year: string)
    ensures EventsOfYear(EventsOfYear(events, year), year) == EventsOfYear(events, year)
  {
    if events != [] {
      var d := events[..|events| - 1];
      var e := events[|events| - 1];
      assert events == d + [e];
      EventsOfYearIdempotent(d, year);
      if e.nj == year {
        YearSnoc(EventsOfYear(d, year), e, year);
      }
    }
  }

  // getOutflowData.

  /** The pipeline after the counting loop: top five by count, plus one
      entry holding the rest when anything is left over. */
  function Outflow(keys: seq<string>): (r: seq<Entry>)
    ensures |r| <= TopSize + 1
    ensures Take(r, TopSize) == TopFive(keys)
  {
    var sorted := SortDesc(Tallied(keys), CountKey);
    var others := SumCounts(Drop(sorted, TopSize));
    if others > 0 then Take(sorted, TopSize) + [Entry(OtherMajors, others)] else Take(sorted, TopSize)
  }

  method GetOutflowData(events: seq<TransferEvent>, year: string, major: string) returns (r: seq<Entry>)
    ensures major == "" ==> r == []
    ensures major != "" ==> r == Outflow(NewMajors(EventsFrom(events, year, major)))
  {
    if major == "" {
      return [];
    }
    var yearData := EventsFrom(events, year, major);
    var targets := NewMajors(yearData);
    var order, counts := CountKeys(targets);
    EntriesFromCounts(targets, order, counts);
    var sortedTargets := SortDesc(EntriesFrom(order, counts), CountKey);
    var top5 := Take(sortedTargets, TopSize);
    var othersCount := SumCounts(Drop(sortedTargets, TopSize));
    if othersCount > 0 {
      top5 := top5 + [Entry(OtherMajors, othersCount)];
    }
    r := top5;
  }

  /** Every entry of a tally counts at least once. */
  lemma SortedTallyPositive(keys: seq<string>, i: nat)
    requires i < |SortDesc(Tallied(keys), CountKey)|
    ensures SortDesc(Tallied(keys), CountKey)[i].count >= 1
  {
    var e := SortDesc(Tallied(keys), CountKey)[i];
    SortedTally(keys);
    TalliedMember(keys, e);
  }

  /**
    The outflow list: its first entries are the top five targets; the
    overflow entry is there exactly when there are more than five distinct
    targets, and then it holds the count of all the others; the counts add
    up to the number of events counted.
   */
  lemma OutflowFacts(keys: seq<string>)
    ensures |Outflow(keys)| <= TopSize + 1
    ensures Take(Outflow(keys), TopSize) == TopFive(keys)
    ensures |Outflow(keys)| == TopSize + 1 <==> |FirstSeen(keys)| > TopSize
    ensures |Outflow(keys)| == TopSize + 1 ==>
      Outflow(keys)[TopSize].name == OtherMajors && Outflow(keys)[TopSize].count + SumCounts(TopFive(keys)) == |keys|
    ensures SumCounts(Outflow(keys)) == |keys|
  {
    var sorted := SortDesc(Tallied(keys), CountKey);
    SortedTally(keys);
    var rest := Drop(sorted, TopSize);
    SumCountsAppend(Take(sorted, TopSize), rest);
    if |sorted| > TopSize {
      SortedTallyPositive(keys, TopSize);
      assert rest[0] == sorted[TopSize];
      SumCountsAppend(Take(sorted, TopSize), [Entry(OtherMajors, SumCounts(rest))]);
    } else {
      assert rest == [];
    }
  }

  // getChordData.

  /** The node names of a year's chord diagram, in index order. */
  function ChordNames(events: seq<TransferEvent>, year: string): seq<string>
  {
    FirstSeen(Endpoints(EventsOfYear(events, year)))
  }

  /** `majorMap` and `majorCount` describe the majors named by `walked`. */
  ghost predicate NodesOk(walked: seq<string>, names: seq<string>, majorMap: map<string, Node>, majorCount: map<string, Flow>)
  {
    && names == FirstSeen(walked)
    && (forall m :: m in majorMap <==> m in walked)
    && (forall m :: m in majorCount <==> m in walked)
    && (forall k :: 0 <= k < |names| ==> names[k] in majorMap && majorMap[names[k]] == Node(names[k], k))
  }

  /** `if (!majorMap[m]) { majorMap[m] = { name: m, index: index++ }; majorCount[m] = { out: 0, in: 0 }; }` */
  method AddNode(ghost walked: seq<string>, m: string, names0: seq<string>, majorMap0: map<string, Node>,
                 majorCount0: map<string, Flow>, index0: nat)
    returns (names: seq<string>, majorMap: map<string, Node>, majorCount: map<string, Flow>, index: nat)
    requires NodesOk(walked, names0, majorMap0, majorCount0) && index0 == |names0|
    ensures NodesOk(walked + [m], names, majorMap, majorCount) && index == |names|
    ensures forall x :: x in majorCount0 ==> x in majorCount && majorCount[x] == majorCount0[x]
    ensures forall x :: x in majorCount && x !in majorCount0 ==> x == m && majorCount[x] == Flow(0, 0) && x !in walked
  {
    names, majorMap, majorCount, index := names0, majorMap0, majorCount0, index0;
    FirstSeenSnoc(walked, m);
    FirstSeenMember(walked, m);
    if m !in majorMap {
      majorMap := majorMap[m := Node(m, index)];
      index := index + 1;
      majorCount := majorCount[m := Flow(0, 0)];
      names := names + [m];
      assert forall k :: 0 <= k < |names0| ==> names0[k] != m;
    }
  }

  /** The counts of the events walked so far. */
  ghost predicate FlowsOk(d: seq<TransferEvent>, majorCount: map<string, Flow>)
  {
    forall m :: m in majorCount ==> majorCount[m] == Flow(Occurrences(OldMajors(d), m), Occurrences(NewMajors(d), m))
  }

  /** A major seen for the first time has no counts yet. */
  lemma {:induction false} UnseenNoFlow(d: seq<TransferEvent>, m: string)
    requires m !in Endpoints(d)
    ensures Occurrences(OldMajors(d), m) == 0 && Occurrences(NewMajors(d), m) == 0
  {
    if d != [] {
      var c := d[..|d| - 1];
      var e := d[|d| - 1];
      assert d == c + [e];
      MajorsSnoc(c, e);
      UnseenNoFlow(c, m);
      OccurrencesSnoc(OldMajors(c), e.oldMajor, m);
      OccurrencesSnoc(NewMajors(c), e.newMajor, m);
    }
  }

  /** One event of the `forEach`: both nodes, then `out += 1` and `in += 1`. */
  method ChordStep(ghost d: seq<TransferEvent>, e: TransferEvent, names0: seq<string>, majorMap0: map<string, Node>,
                   majorCount0: map<string, Flow>, index0: nat)
    returns (names: seq<string>, majorMap: map<string, Node>, majorCount: map<string, Flow>, index: nat)
    requires NodesOk(Endpoints(d), names0, majorMap0, majorCount0) && index0 == |names0|
    requires FlowsOk(d, majorCount0)
    ensures NodesOk(Endpoints(d + [e]), names, majorMap, majorCount) && index == |names|
    ensures FlowsOk(d + [e], majorCount)
  {
    MajorsSnoc(d, e);
    assert Endpoints(d) + [e.oldMajor] + [e.newMajor] == Endpoints(d + [e]);
    var n1, mm1, mc1, i1 := AddNode(Endpoints(d), e.oldMajor, names0, majorMap0, majorCount0, index0);
    NewNodeFlows(d, majorCount0, mc1);
    var mc2;
    names, majorMap, mc2, index := AddNode(Endpoints(d) + [e.oldMajor], e.newMajor, n1, mm1, mc1, i1);
    NewNodeFlows(d, mc1, mc2);
    majorCount := CountEvent(d, e, mc2);
  }

  /** Entries added with `{ out: 0, in: 0 }` agree with the events walked, none of which names them. */
  lemma NewNodeFlows(d: seq<TransferEvent>, mc0: map<string, Flow>, mc: map<string, Flow>)
    requires FlowsOk(d, mc0)
    requires forall x :: x in mc0 ==> x in mc && mc[x] == mc0[x]
    requires forall x :: x in mc && x !in mc0 ==> mc[x] == Flow(0, 0) && x !in Endpoints(d)
    ensures FlowsOk(d, mc)
  {
    forall x | x in mc && x !in mc0
      ensures mc[x] == Flow(Occurrences(OldMajors(d), x), Occurrences(NewMajors(d), x))
    {
      UnseenNoFlow(d, x);
    }
  }

  /** `majorCount[old].out += 1; majorCount[new].in += 1`. */
  method CountEvent(ghost d: seq<TransferEvent>, e: TransferEvent, majorCount0: map<string, Flow>)
    returns (majorCount: map<string, Flow>)
    requires FlowsOk(d, majorCount0) && e.oldMajor in majorCount0 && e.newMajor in majorCount0
    ensures majorCount.Keys == majorCount0.Keys
    ensures FlowsOk(d + [e], majorCount)
  {
    MajorsSnoc(d, e);
    var f := majorCount0[e.oldMajor];
    majorCount := majorCount0[e.oldMajor := Flow(f.outCount + 1, f.inCount)];
    var g := majorCount[e.newMajor];
    majorCount := majorCount[e.newMajor := Flow(g.outCount, g.inCount + 1)];
    forall m | m in majorCount
      ensures majorCount[m] == Flow(Occurrences(OldMajors(d + [e]), m), Occurrences(NewMajors(d + [e]), m))
    {
      OccurrencesSnoc(OldMajors(d), e.oldMajor, m);
      OccurrencesSnoc(NewMajors(d), e.newMajor, m);
    }
  }

  /** `yearData.map(d => ({ source: ..., target: ..., value: 1, ksh: d.KSH }))`. */
  function LinksOf(yearData: seq<TransferEvent>, majorMap: map<string, Node>): (r: seq<Link>)
    requires forall i :: 0 <= i < |yearData| ==> yearData[i].oldMajor in majorMap && yearData[i].newMajor in majorMap
    ensures |r| == |yearData|
    ensures forall i :: 0 <= i < |yearData| ==>
      r[i] == Link(majorMap[yearData[i].oldMajor].index, majorMap[yearData[i].newMajor].index, 1, yearData[i].ksh)
  {
    seq(|yearData|, i requires 0 <= i < |yearData| =>
      Link(majorMap[yearData[i].oldMajor].index, majorMap[yearData[i].newMajor].index, 1, yearData[i].ksh))
  }

  lemma {:induction false} EndpointsMember(d: seq<TransferEvent>, i: nat)
    requires i < |d|
    ensures d[i].oldMajor in Endpoints(d) && d[i].newMajor in Endpoints(d)
  {
    var c := d[..|d| - 1];
    assert d == c + [d[|d| - 1]];
    MajorsSnoc(c, d[|d| - 1]);
    if i < |c| {
      assert c[i] == d[i];
      EndpointsMember(c, i);
    }
  }

  /**
    The chord diagram of one year: node `i` is the `i`-th major in first-seen
    order (old major before new major within an event); one link per event,
    in event order, of value 1 between the indices of its two majors; and
    for every major its numbers of outgoing and incoming events.
   */
  method GetChordData(events: seq<TransferEvent>, year: string)
    returns (nodes: seq<Node>, links: seq<Link>, majorCount: map<string, Flow>)
    ensures |nodes| == |ChordNames(events, year)|
    ensures forall i :: 0 <= i < |nodes| ==> nodes[i] == Node(ChordNames(events, year)[i], i)
    ensures |links| == |EventsOfYear(events, year)|
    ensures forall i :: 0 <= i < |links| ==>
      var e := EventsOfYear(events, year)[i];
      && e.oldMajor in ChordNames(events, year) && e.newMajor in ChordNames(events, year)
      && links[i] == Link(IndexOf(ChordNames(events, year), e.oldMajor), IndexOf(ChordNames(events, year), e.newMajor), 1, e.ksh)
    ensures forall m :: m in majorCount <==> m in ChordNames(events, year)
    ensures forall m :: m in majorCount ==>
      majorCount[m] == Flow(Occurrences(OldMajors(EventsOfYear(events, year)), m), Occurrences(NewMajors(EventsOfYear(events, year)), m))
  {
    var yearData := EventsOfYear(events, year);
    var names, majorMap;
    names, majorMap, majorCount := WalkEvents(yearData);
    ChordFacts(yearData, names, majorMap, majorCount);
    nodes := seq(|names|, k requires 0 <= k < |names| => majorMap[names[k]]);
    links := LinksOf(yearData, majorMap);
  }

  /** The `yearData.forEach` loop that numbers the majors and counts their flows. */
  method WalkEvents(yearData: seq<TransferEvent>)
    returns (names: seq<string>, majorMap: map<string, Node>, majorCount: map<string, Flow>)
    ensures NodesOk(Endpoints(yearData), names, majorMap, majorCount)
    ensures FlowsOk(yearData, majorCount)
  {
    var index: nat;
    names, majorMap, majorCount, index := [], map[], map[], 0;
    var i := 0;
    while i < |yearData|
      invariant 0 <= i <= |yearData|
      invariant NodesOk(Endpoints(yearData[..i]), names, majorMap, majorCount) && index == |names|
      invariant FlowsOk(yearData[..i], majorCount)
    {
      assert yearData[..i + 1] == yearData[..i] + [yearData[i]];
      names, majorMap, majorCount, index := ChordStep(yearData[..i], yearData[i], names, majorMap, majorCount, index);
      i := i + 1;
    }
    assert yearData[..i] == yearData;
  }

  lemma ChordFacts(yearData: seq<TransferEvent>, names: seq<string>, majorMap: map<string, Node>, majorCount: map<string, Flow>)
    requires NodesOk(Endpoints(yearData), names, majorMap, majorCount)
    ensures forall i :: 0 <= i < |yearData| ==>
      && yearData[i].oldMajor in majorMap && yearData[i].newMajor in majorMap
      && yearData[i].oldMajor in names && yearData[i].newMajor in names
      && majorMap[yearData[i].oldMajor].index == IndexOf(names, yearData[i].oldMajor)
      && majorMap[yearData[i].newMajor].index == IndexOf(names, yearData[i].newMajor)
    ensures forall m :: m in majorCount <==> m in names
  {
    forall m ensures m in names <==> m in Endpoints(yearData) {
      FirstSeenMember(Endpoints(yearData), m);
    }
    forall i | 0 <= i < |yearData|
      ensures && yearData[i].oldMajor in majorMap && yearData[i].newMajor in majorMap
              && yearData[i].oldMajor in names && yearData[i].newMajor in names
              && majorMap[yearData[i].oldMajor].index == IndexOf(names, yearData[i].oldMajor)
              && majorMap[yearData[i].newMajor].index == IndexOf(names, yearData[i].newMajor)
    {
      EndpointsMember(yearData, i);
      var a := IndexOf(names, yearData[i].oldMajor);
      var b := IndexOf(names, yearData[i].newMajor);
      IndexOfDistinct(names, a);
      IndexOfDistinct(names, b);
    }
  }

  /** The nodes are the distinct majors of the year's events. */
  lemma ChordNodesAreMajors(events: seq<TransferEvent>, year: string, m: string)
    ensures Distinct(ChordNames(events, year))
    ensures m in ChordNames(events, year) <==>
      exists i :: 0 <= i < |EventsOfYear(events, year)| &&
        (EventsOfYear(events, year)[i].oldMajor == m || EventsOfYear(events, year)[i].newMajor == m)
  {
    var yd := EventsOfYear(events, year);
    FirstSeenMember(Endpoints(yd), m);
    if m in Endpoints(yd) {
      var i := EndpointsWitness(yd, m);
    } else {
      forall i | 0 <= i < |yd| ensures yd[i].oldMajor != m && yd[i].newMajor != m {
        EndpointsMember(yd, i);
      }
    }
  }

  lemma {:induction false} EndpointsWitness(d: seq<TransferEvent>, m: string) returns (i: nat)
    requires m in Endpoints(d)
    ensures i < |d| && (d[i].oldMajor == m || d[i].newMajor == m)
  {
    var c := d[..|d| - 1];
    var e := d[|d| - 1];
    assert d == c + [e];
    MajorsSnoc(c, e);
    if e.oldMajor == m || e.newMajor == m {
      i := |d| - 1;
    } else {
      i := EndpointsWitness(c, m);
      assert c[i] == d[i];
    }
  }

  /** The first event of the year gets index 0 for its old major and, unless
      it is a self-transfer, index 1 for its new major. The last clause is
      about a one-event year: a single self-transfer makes a single node. */
  lemma FirstEventNodes(e: TransferEvent, rest: seq<TransferEvent>)
    ensures |FirstSeen(Endpoints([e] + rest))| >= 1 && FirstSeen(Endpoints([e] + rest))[0] == e.oldMajor
    ensures e.newMajor != e.oldMajor ==>
      |FirstSeen(Endpoints([e] + rest))| >= 2 && FirstSeen(Endpoints([e] + rest))[1] == e.newMajor
    ensures e.newMajor == e.oldMajor ==> |FirstSeen(Endpoints([e]))| == 1
  {
    EndpointsPrefix([e], rest);
    FirstSeenPrefix(Endpoints([e]), Endpoints([e] + rest));
    MajorsSnoc([], e);
    assert Endpoints([e]) == [e.oldMajor, e.newMajor];
    assert [e.oldMajor, e.newMajor][..1] == [e.oldMajor];
    FirstSeenSnoc([e.oldMajor], e.newMajor);
    assert FirstSeen([e.oldMajor]) == [e.oldMajor] by {
      FirstSeenSnoc([], e.oldMajor);
    }
  }

  lemma {:induction false} EndpointsPrefix(a: seq<TransferEvent>, b: seq<TransferEvent>)
    ensures Endpoints(a + b) == Endpoints(a) + Endpoints(b)
  {
    if b == [] {
      assert a + b == a;
    } else {
      var c := b[..|b| - 1];
      var e := b[|b| - 1];
      assert b == c + [e];
      assert a + b == (a + c) + [e];
      MajorsSnoc(a + c, e);
      MajorsSnoc(c, e);
      EndpointsPrefix(a, c);
    }
  }

  /** Every event leaves one major and enters one: both totals are the number of events. */
  lemma TotalFlows(events: seq<TransferEvent>, year: string)
    ensures SumOccurrences(ChordNames(events, year), OldMajors(EventsOfYear(events, year))) == |EventsOfYear(events, year)|
    ensures SumOccurrences(ChordNames(events, year), NewMajors(EventsOfYear(events, year))) == |EventsOfYear(events, year)|
  {
    var yd := EventsOfYear(events, year);
    var names := ChordNames(events, year);
    FlowMajorsNamed(yd);
    forall i | 0 <= i < |yd| ensures OldMajors(yd)[i] in names && NewMajors(yd)[i] in names {
      FirstSeenMember(Endpoints(yd), OldMajors(yd)[i]);
      FirstSeenMember(Endpoints(yd), NewMajors(yd)[i]);
    }
    SumOccurrencesIsLength(names, OldMajors(yd));
    SumOccurrencesIsLength(names, NewMajors(yd));
  }

  lemma {:induction false} FlowMajorsNamed(d: seq<TransferEvent>)
    ensures forall i :: 0 <= i < |d| ==> OldMajors(d)[i] in Endpoints(d) && NewMajors(d)[i] in Endpoints(d)
  {
    if d != [] {
      var c := d[..|d| - 1];
      var e := d[|d| - 1];
      assert d == c + [e];
      MajorsSnoc(c, e);
      FlowMajorsNamed(c);
      assert forall i :: 0 <= i < |c| ==> OldMajors(d)[i] == OldMajors(c)[i] && NewMajors(d)[i] == NewMajors(c)[i];
    }
  }

  // getTop5MajorsByInCount.

  /** The five majors entered most often that year, ties in first-seen order. */
  method GetTop5MajorsByInCount(events: seq<TransferEvent>, year: string) returns (r: seq<Entry>)
    ensures r == TopFive(NewMajors(EventsOfYear(events, year)))
  {
    var yearData := EventsOfYear(events, year);
    var targets := NewMajors(yearData);
    var order, majorInCount := CountKeys(targets);
    EntriesFromCounts(targets, order, majorInCount);
    r := Take(SortDesc(EntriesFrom(order, majorInCount), CountKey), TopSize);
  }

  /** An in-count of the top list is the chord diagram's in-count for that major. */
  lemma {:induction false} NewMajorsCount(d: seq<TransferEvent>, m: string)
    ensures Occurrences(NewMajors(d), m) == |Into(d, m)|
    ensures Occurrences(OldMajors(d), m) == |OutOf(d, m)|
  {
    if d != [] {
      var c := d[..|d| - 1];
      var e := d[|d| - 1];
      assert d == c + [e];
      MajorsSnoc(c, e);
      NewMajorsCount(c, m);
      OccurrencesSnoc(NewMajors(c), e.newMajor, m);
      OccurrencesSnoc(OldMajors(c), e.oldMajor, m);
    }
  }

  // getCourseOverlapData.

  /** `courseData.filter(d => d.ZYMC === major).map(d => d.YHDM)`. */
  function MajorCourses(records: seq<Enrollment>, major: string): seq<string>
  {
    if records == [] then []
    else
      var d := records[|records| - 1];
      if d.major == major then MajorCourses(records[..|records| - 1], major) + [d.course]
      else MajorCourses(records[..|records| - 1], major)
  }

  /** The major of every record of another major that takes one of `courses`. */
  function SharingMajors(records: seq<Enrollment>, major: string, courses: seq<string>): seq<string>
  {
    if records == [] then []
    else
      var d := records[|records| - 1];
      if d.major != major && d.course in courses then SharingMajors(records[..|records| - 1], major, courses) + [d.major]
      else SharingMajors(records[..|records| - 1], major, courses)
  }

  /** The records of major `m` that take one of `courses`. */
  function SharedRecords(records: seq<Enrollment>, m: string, courses: seq<string>): seq<Enrollment>
  {
    if records == [] then []
    else
      var d := records[|records| - 1];
      if d.major == m && d.course in courses then SharedRecords(records[..|records| - 1], m, courses) + [d]
      else SharedRecords(records[..|records| - 1], m, courses)
  }

  /** The keys the overlap loop counts, over one year's records. */
  function OverlapKeys(records: seq<Enrollment>, major: string): seq<string>
  {
    SharingMajors(records, major, MajorCourses(records, major))
  }

  method GetCourseOverlapData(courseData: map<string, seq<Enrollment>>, year: string, major: string) returns (r: seq<Entry>)
    ensures year !in courseData ==> r == []
    ensures year in courseData ==> r == TopFive(OverlapKeys(courseData[year], major))
  {
    if year !in courseData {
      return [];
    }
    var records := courseData[year];
    var keys := SharingMajors(records, major, MajorCourses(records, major));
    var order, targetCounts := CountKeys(keys);
    EntriesFromCounts(keys, order, targetCounts);
    r := Take(SortDesc(EntriesFrom(order, targetCounts), CountKey), TopSize);
  }

  /** Each other major is counted once per record it has on a shared course
      (no deduplication); the major itself is never counted. */
  lemma {:induction false} OverlapCount(records: seq<Enrollment>, major: string, courses: seq<string>, m: string)
    ensures Occurrences(SharingMajors(records, major, courses), m) == if m == major then 0 else |SharedRecords(records, m, courses)|
  {
    if records != [] {
      var c := records[..|records| - 1];
      var d := records[|records| - 1];
      assert records == c + [d];
      assert (c + [d])[..|c|] == c;
      OverlapCount(c, major, courses, m);
      OccurrencesSnoc(SharingMajors(c, major, courses), d.major, m);
    }
  }

  /** The target major never appears in its own overlap list. */
  lemma OverlapExcludesMajor(records: seq<Enrollment>, major: string)
    ensures forall e :: e in TopFive(OverlapKeys(records, major)) ==> e.name != major
    ensures forall e :: e in TopFive(OverlapKeys(records, major)) ==>
      e.count == |SharedRecords(records, e.name, MajorCourses(records, major))|
  {
    var keys := OverlapKeys(records, major);
    TopFiveFacts(keys);
    forall e | e in TopFive(keys)
      ensures e.name != major && e.count == |SharedRecords(records, e.name, MajorCourses(records, major))|
    {
      OverlapCount(records, major, MajorCourses(records, major), e.name);
    }
  }

  // getYearlyTransferData.

  /** The cohort years of the series. */
  const SeriesYears: seq<int> := [2011, 2012, 2013, 2014, 2015]

  /** The number a string of decimal digits denotes, most significant digit first. */
  function DigitsValue(s: string): int
  {
    if s == [] then 0 else DigitsValue(s[..|s| - 1]) * 10 + (s[|s| - 1] as int - 48)
  }

  /** `n.toString()` for a natural number. */
  function DecimalString(n: nat): (s: string)
    ensures |s| >= 1
    ensures forall i :: 0 <= i < |s| ==> '0' <= s[i] <= '9'
  {
    if n < 10 then [((48 + n) as char)] else DecimalString(n / 10) + [((48 + n % 10) as char)]
  }

  /** The string is the decimal notation of `n`: its digits denote `n`, and it
      has no leading zero (it starts with '0' only for zero itself). */
  lemma {:induction false} DecimalStringValue(n: nat)
    ensures DigitsValue(DecimalString(n)) == n
    ensures DecimalString(n)[0] == '0' <==> n == 0
  {
    if n >= 10 {
      var s, p := DecimalString(n), DecimalString(n / 10);
      assert s == p + [((48 + n % 10) as char)];
      assert s[..|s| - 1] == p;
      DecimalStringValue(n / 10);
      assert DigitsValue(s) == DigitsValue(p) * 10 + n % 10;
      assert s[0] == p[0];
    }
  }

  /** The series' years written as the `NJ` column writes them. */
  lemma SeriesYearStrings()
    ensures DecimalString(2011) == "2011" && DecimalString(2012) == "2012" && DecimalString(2013) == "2013"
    ensures DecimalString(2014) == "2014" && DecimalString(2015) == "2015"
  {
    assert DecimalString(20) == "20" by {
      assert DecimalString(2) == "2";
    }
    assert DecimalString(201) == "201";
  }

  method GetYearlyTransferData(events: seq<TransferEvent>, major: string) returns (result: seq<YearFlow>)
    ensures |result| == |SeriesYears|
    ensures forall i :: 0 <= i < |result| ==>
      var yearData := EventsOfYear(events, DecimalString(SeriesYears[i]));
      result[i] == YearFlow(SeriesYears[i], |Into(yearData, major)|, |OutOf(yearData, major)|)
  {
    result := [];
    var i := 0;
    while i < |SeriesYears|
      invariant 0 <= i <= |SeriesYears|
      invariant |result| == i
      invariant forall k :: 0 <= k < i ==>
        var yearData := EventsOfYear(events, DecimalString(SeriesYears[k]));
        result[k] == YearFlow(SeriesYears[k], |Into(yearData, major)|, |OutOf(yearData, major)|)
    {
      var year := SeriesYears[i];
      var yearStr := DecimalString(year);
      var yearData := EventsOfYear(events, yearStr);
      var inCount := |Into(yearData, major)|;
      var outCount := |OutOf(yearData, major)|;
      result := result + [YearFlow(year, inCount, outCount)];
      i := i + 1;
    }
  }

  /** The series agrees with the chord diagram's counts for the same year. */
  lemma SeriesMatchesChord(events: seq<TransferEvent>, major: string, i: nat)
    requires i < |SeriesYears|
    ensures |Into(EventsOfYear(events, DecimalString(SeriesYears[i])), major)|
         == Occurrences(NewMajors(EventsOfYear(events, DecimalString(SeriesYears[i]))), major)
    ensures |OutOf(EventsOfYear(events, DecimalString(SeriesYears[i])), major)|
         == Occurrences(OldMajors(EventsOfYear(events, DecimalString(SeriesYears[i]))), major)
  {
    NewMajorsCount(EventsOfYear(events, DecimalString(SeriesYears[i])), major);
  }

  // The module's state and its setters.

  class TransferState {
    var transferData: seq<TransferEvent>
    var selectedYearForChord: string
    var selectedMajor: string
    var courseData: map<string, seq<Enrollment>>

    constructor ()
      ensures transferData == [] && selectedYearForChord == "2011"
      ensures selectedMajor == "" && courseData == map[]
    {
      transferData := [];
      selectedYearForChord := "2011";
      selectedMajor := "";
      courseData := map[];
    }

    method SetTransferData(data: seq<TransferEvent>)
      modifies this`transferData
      ensures transferData == data
    {
      transferData := data;
    }

    method SetCourseData(data: map<string, seq<Enrollment>>)
      modifies this`courseData
      ensures courseData == data
    {
      courseData := data;
    }

    method SetSelectedYearForChord(year: string)
      modifies this`selectedYearForChord
      ensures selectedYearForChord == year
    {
      selectedYearForChord := year;
    }

    method SetSelectedMajor(major: string)
      modifies this`selectedMajor
      ensures selectedMajor == major
    {
      selectedMajor := major;
    }
  }
}
