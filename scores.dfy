/**
  Term and major averages over a cohort's score sheet (the body of the
  `fetchStudents` action in src/store/store.js). Every key of a student's
  record that is exactly five ASCII digits names a term; its value is that
  term's score. Scores are grouped per term and per (major, term) in one pass,
  then each group is averaged.
 */
module ScoreAggregator {
  import opened Counting

  /** One key of a student's record with its numeric value. */
  datatype Field = Field(key: string, score: real)

  /** A student's record: the value under the major key, and the other keys in order. */
  datatype Student = Student(major: string, fields: seq<Field>)

  predicate IsDigit(c: char)
  {
    '0' <= c <= '9'
  }

  /** The term-key test `/^\d{5}$/`: five ASCII digits and nothing else. */
  predicate IsTermKey(k: string)
  {
    |k| == 5 && forall i :: 0 <= i < 5 ==> IsDigit(k[i])
  }

  function Sum(xs: seq<real>): real
  {
    if xs == [] then 0.0 else Sum(xs[..|xs| - 1]) + xs[|xs| - 1]
  }

  /** Arithmetic mean of a non-empty group. */
  function Mean(xs: seq<real>): real
    requires xs != []
  {
    Sum(xs) / (|xs| as real)
  }

  /** The scores one record files under `term`, in key order. */
  function FieldScores(fields: seq<Field>, term: string): seq<real>
  {
    if fields == [] then []
    else
      var f := fields[|fields| - 1];
      FieldScores(fields[..|fields| - 1], term) + (if f.key == term && IsTermKey(f.key) then [f.score] else [])
  }

  /** Whether a record has any term key at all. */
  predicate HasTermField(fields: seq<Field>)
  {
    exists i :: 0 <= i < |fields| && IsTermKey(fields[i].key)
  }

  /** `termScores[term]`: the scores under `term` across the cohort, in record order. */
  function TermScores(data: seq<Student>, term: string): seq<real>
  {
    if data == [] then []
    else TermScores(data[..|data| - 1], term) + FieldScores(data[|data| - 1].fields, term)
  }

  /** `majorTermScores[major][term]`: the same, restricted to students of `major`. */
  function MajorTermScores(data: seq<Student>, major: string, term: string): seq<real>
  {
    if data == [] then []
    else
      var s := data[|data| - 1];
      MajorTermScores(data[..|data| - 1], major, term) + (if s.major == major then FieldScores(s.fields, term) else [])
  }

  /** Whether `majorTermScores` has an entry for `major`: some student of that major has a term key. */
  predicate MajorSeen(data: seq<Student>, major: string)
  {
    exists i :: 0 <= i < |data| && data[i].major == major && HasTermField(data[i].fields)
  }

  /** Whether a record carries the key `key`. */
  predicate HasKey(fields: seq<Field>, key: string)
  {
    exists j :: 0 <= j < |fields| && fields[j].key == key
  }

  lemma FieldScoresSnoc(fields: seq<Field>, f: Field, term: string)
    ensures FieldScores(fields + [f], term) ==
      FieldScores(fields, term) + (if f.key == term && IsTermKey(f.key) then [f.score] else [])
  {
    assert (fields + [f])[..|fields|] == fields;
  }

  lemma {:induction false} FieldScoresNonEmpty(fields: seq<Field>, term: string)
    ensures FieldScores(fields, term) != [] <==> HasKey(fields, term) && IsTermKey(term)
  {
    if fields != [] {
      var p := fields[..|fields| - 1];
      FieldScoresNonEmpty(p, term);
      assert forall i :: 0 <= i < |p| ==> p[i] == fields[i];
      if HasKey(fields, term) && !HasKey(p, term) {
        assert fields[|fields| - 1].key == term;
      }
    }
  }

  lemma HasTermFieldSnoc(fields: seq<Field>, f: Field)
    ensures HasTermField(fields + [f]) <==> HasTermField(fields) || IsTermKey(f.key)
  {
    var g := fields + [f];
    if HasTermField(fields) {
      var i :| 0 <= i < |fields| && IsTermKey(fields[i].key);
      assert g[i] == fields[i];
    }
    if IsTermKey(f.key) {
      assert g[|fields|] == f;
    }
  }

  lemma MajorSeenSnoc(data: seq<Student>, s: Student, major: string)
    ensures MajorSeen(data + [s], major) <==> MajorSeen(data, major) || (s.major == major && HasTermField(s.fields))
  {
    var d := data + [s];
    if MajorSeen(data, major) {
      var i :| 0 <= i < |data| && data[i].major == major && HasTermField(data[i].fields);
      assert d[i] == data[i];
    }
    if s.major == major && HasTermField(s.fields) {
      assert d[|data|] == s;
    }
  }

  /** `termScores` after the students `done` and the first keys `fs` of the next one. */
  ghost predicate TermGroups(done: seq<Student>, fs: seq<Field>, ts: map<string, seq<real>>)
  {
    && (forall t :: t in ts <==> TermScores(done, t) + FieldScores(fs, t) != [])
    && (forall t :: t in ts ==> ts[t] == TermScores(done, t) + FieldScores(fs, t))
  }

  /** `majorTermScores[m][t]` after the students `done` and the first keys `fs` of
      the next one, whose major is `major`. */
  function PartialMajorScores(done: seq<Student>, major: string, fs: seq<Field>, m: string, t: string): seq<real>
  {
    MajorTermScores(done, m, t) + (if m == major then FieldScores(fs, t) else [])
  }

  /** `majorTermScores[m]` at that point, for one major `m`. */
  ghost predicate MajorEntry(done: seq<Student>, major: string, fs: seq<Field>, m: string, inner: map<string, seq<real>>)
  {
    && (forall t :: t in inner <==> PartialMajorScores(done, major, fs, m, t) != [])
    && (forall t :: t in inner ==> inner[t] == PartialMajorScores(done, major, fs, m, t))
  }

  ghost predicate MajorGroups(done: seq<Student>, major: string, fs: seq<Field>, ms: map<string, map<string, seq<real>>>)
  {
    && (forall m :: m in ms <==> MajorSeen(done, m) || (m == major && HasTermField(fs)))
    && (forall m :: m in ms ==> MajorEntry(done, major, fs, m, ms[m]))
  }

  /** Both dictionaries once the students `done` are fully walked. */
  ghost predicate Grouped(done: seq<Student>, ts: map<string, seq<real>>, ms: map<string, map<string, seq<real>>>)
  {
    && (forall t :: t in ts <==> TermScores(done, t) != [])
    && (forall t :: t in ts ==> ts[t] == TermScores(done, t))
    && (forall m :: m in ms <==> MajorSeen(done, m))
    && (forall m, t :: m in ms ==> (t in ms[m] <==> MajorTermScores(done, m, t) != []))
    && (forall m, t :: m in ms && t in ms[m] ==> ms[m][t] == MajorTermScores(done, m, t))
  }

  /**
    The grouping loop of `fetchStudents`: for every student, for every key,
    a five-digit key appends its score to the term's group and to the
    (major, term) group, creating either on first use.
   */
  method GroupScores(data: seq<Student>)
    returns (termScores: map<string, seq<real>>, majorTermScores: map<string, map<string, seq<real>>>)
    ensures forall t :: t in termScores <==> TermScores(data, t) != []
    ensures forall t :: t in termScores ==> termScores[t] == TermScores(data, t)
    ensures forall m :: m in majorTermScores <==> MajorSeen(data, m)
    ensures forall m, t :: m in majorTermScores ==>
      (t in majorTermScores[m] <==> MajorTermScores(data, m, t) != [])
    ensures forall m, t :: m in majorTermScores && t in majorTermScores[m] ==>
      majorTermScores[m][t] == MajorTermScores(data, m, t)
  {
    termScores, majorTermScores := map[], map[];
    var i := 0;
    while i < |data|
      invariant 0 <= i <= |data|
      invariant Grouped(data[..i], termScores, majorTermScores)
    {
      var s := data[i];
      assert data[..i + 1] == data[..i] + [s];
      termScores, majorTermScores := GroupStudent(data[..i], s, termScores, majorTermScores);
      i := i + 1;
    }
    assert data[..i] == data;
    assert Grouped(data, termScores, majorTermScores);
  }

  /** One student's keys, walked in order (the inner `forEach`). */
  method GroupStudent(ghost done: seq<Student>, s: Student,
                      ts0: map<string, seq<real>>, ms0: map<string, map<string, seq<real>>>)
    returns (termScores: map<string, seq<real>>, majorTermScores: map<string, map<string, seq<real>>>)
    requires Grouped(done, ts0, ms0)
    ensures Grouped(done + [s], termScores, majorTermScores)
  {
    termScores, majorTermScores := ts0, ms0;
    var fs := s.fields;
    assert fs[..0] == [];
    StudentStart(done, s.major, ts0, ms0);
    var j := 0;
    while j < |fs|
      invariant 0 <= j <= |fs|
      invariant TermGroups(done, fs[..j], termScores)
      invariant MajorGroups(done, s.major, fs[..j], majorTermScores)
    {
      assert fs[..j + 1] == fs[..j] + [fs[j]];
      termScores := FileTermScore(done, fs[..j], fs[j], termScores);
      majorTermScores := FileMajorScore(done, s.major, fs[..j], fs[j], majorTermScores);
      j := j + 1;
    }
    assert fs[..j] == fs;
    StudentDone(done, s, termScores, majorTermScores);
  }

  /** One key of the inner loop, for `termScores`. */
  method FileTermScore(ghost done: seq<Student>, ghost fs: seq<Field>, f: Field, ts0: map<string, seq<real>>)
    returns (ts: map<string, seq<real>>)
    requires TermGroups(done, fs, ts0)
    ensures TermGroups(done, fs + [f], ts)
  {
    ts := ts0;
    if IsTermKey(f.key) {
      var group := if f.key in ts then ts[f.key] else [];
      ts := ts[f.key := group + [f.score]];
    }
    forall t
      ensures t in ts <==> TermScores(done, t) + FieldScores(fs + [f], t) != []
      ensures t in ts ==> ts[t] == TermScores(done, t) + FieldScores(fs + [f], t)
    {
      TermGroupStep(done, fs, f, t);
    }
  }

  /** Filing one key extends the term's partial group by its score exactly when it is that term's key. */
  lemma TermGroupStep(done: seq<Student>, fs: seq<Field>, f: Field, t: string)
    ensures TermScores(done, t) + FieldScores(fs + [f], t) ==
      TermScores(done, t) + FieldScores(fs, t) + (if f.key == t && IsTermKey(f.key) then [f.score] else [])
  {
    FieldScoresSnoc(fs, f, t);
  }

  /** One key of the inner loop, for `majorTermScores`. */
  method FileMajorScore(ghost done: seq<Student>, major: string, ghost fs: seq<Field>, f: Field,
                        ms0: map<string, map<string, seq<real>>>)
    returns (ms: map<string, map<string, seq<real>>>)
    requires MajorGroups(done, major, fs, ms0)
    ensures MajorGroups(done, major, fs + [f], ms)
  {
    HasTermFieldSnoc(fs, f);
    forall m | m in ms0 && m != major ensures MajorEntry(done, major, fs + [f], m, ms0[m]) {
      MajorEntryOther(done, major, fs, f, m, ms0[m]);
    }
    if IsTermKey(f.key) {
      var inner := if major in ms0 then ms0[major] else map[];
      if major !in ms0 {
        forall t ensures PartialMajorScores(done, major, fs, major, t) == [] {
          UnseenMajorEmpty(done, major, t);
          NoTermFieldEmpty(fs, t);
        }
      }
      var group := if f.key in inner then inner[f.key] else [];
      ms := ms0[major := inner[f.key := group + [f.score]]];
      MajorEntryStep(done, major, fs, f, inner);
    } else {
      ms := ms0;
      if major in ms0 {
        MajorEntryUnchanged(done, major, fs, f, ms0[major]);
      }
    }
  }

  /** Another major's groups do not depend on the current student's keys. */
  lemma MajorEntryOther(done: seq<Student>, major: string, fs: seq<Field>, f: Field, m: string, inner: map<string, seq<real>>)
    requires m != major && MajorEntry(done, major, fs, m, inner)
    ensures MajorEntry(done, major, fs + [f], m, inner)
  {
    forall t ensures PartialMajorScores(done, major, fs + [f], m, t) == PartialMajorScores(done, major, fs, m, t) {
    }
  }

  /** A key that is not a term key changes no group. */
  lemma MajorEntryUnchanged(done: seq<Student>, major: string, fs: seq<Field>, f: Field, inner: map<string, seq<real>>)
    requires !IsTermKey(f.key) && MajorEntry(done, major, fs, major, inner)
    ensures MajorEntry(done, major, fs + [f], major, inner)
  {
    forall t ensures PartialMajorScores(done, major, fs + [f], major, t) == PartialMajorScores(done, major, fs, major, t) {
      FieldScoresSnoc(fs, f, t);
    }
  }

  lemma MajorEntryStep(done: seq<Student>, major: string, fs: seq<Field>, f: Field, inner: map<string, seq<real>>)
    requires IsTermKey(f.key)
    requires MajorEntry(done, major, fs, major, inner)
    ensures MajorEntry(done, major, fs + [f], major,
      inner[f.key := (if f.key in inner then inner[f.key] else []) + [f.score]])
  {
    var group := if f.key in inner then inner[f.key] else [];
    var after := inner[f.key := group + [f.score]];
    forall t
      ensures t in after <==> PartialMajorScores(done, major, fs + [f], major, t) != []
      ensures t in after ==> after[t] == PartialMajorScores(done, major, fs + [f], major, t)
    {
      MajorGroupStep(done, major, fs, f, t);
      if t == f.key {
        assert group == PartialMajorScores(done, major, fs, major, t);
      }
    }
  }

  /** Filing a term key of the current student extends that term's group of its major by the score. */
  lemma MajorGroupStep(done: seq<Student>, major: string, fs: seq<Field>, f: Field, t: string)
    requires IsTermKey(f.key)
    ensures PartialMajorScores(done, major, fs + [f], major, t) ==
      PartialMajorScores(done, major, fs, major, t) + (if f.key == t then [f.score] else [])
  {
    FieldScoresSnoc(fs, f, t);
  }

  /** Before a student's first key, the partial state is the completed one. */
  lemma StudentStart(done: seq<Student>, major: string, ts: map<string, seq<real>>, ms: map<string, map<string, seq<real>>>)
    requires Grouped(done, ts, ms)
    ensures TermGroups(done, [], ts) && MajorGroups(done, major, [], ms)
  {
    forall t ensures TermScores(done, t) + FieldScores([], t) == TermScores(done, t) {
      assert FieldScores([], t) == [];
    }
    assert !HasTermField([]);
    forall m | m in ms ensures MajorEntry(done, major, [], m, ms[m]) {
      forall t ensures PartialMajorScores(done, major, [], m, t) == MajorTermScores(done, m, t) {
        assert FieldScores([], t) == [];
      }
    }
  }

  /** A finished student's keys become part of the completed prefix. */
  lemma StudentDone(done: seq<Student>, s: Student, ts: map<string, seq<real>>, ms: map<string, map<string, seq<real>>>)
    requires TermGroups(done, s.fields, ts) && MajorGroups(done, s.major, s.fields, ms)
    ensures Grouped(done + [s], ts, ms)
  {
    var d := done + [s];
    assert d[..|d| - 1] == done;
    forall t ensures TermScores(d, t) == TermScores(done, t) + FieldScores(s.fields, t) {
    }
    forall m, t ensures MajorTermScores(d, m, t) == PartialMajorScores(done, s.major, s.fields, m, t) {
    }
    forall m ensures MajorSeen(d, m) <==> MajorSeen(done, m) || (m == s.major && HasTermField(s.fields)) {
      MajorSeenSnoc(done, s, m);
    }
  }

  /** A major no student with a term key belongs to has no scores. */
  lemma {:induction false} UnseenMajorEmpty(data: seq<Student>, major: string, term: string)
    requires !MajorSeen(data, major)
    ensures MajorTermScores(data, major, term) == []
  {
    if data != [] {
      var p := data[..|data| - 1];
      var s := data[|data| - 1];
      assert data == p + [s];
      MajorSeenSnoc(p, s, major);
      UnseenMajorEmpty(p, major, term);
      if s.major == major {
        NoTermFieldEmpty(s.fields, term);
      }
    }
  }

  lemma {:induction false} NoTermFieldEmpty(fields: seq<Field>, term: string)
    requires !HasTermField(fields)
    ensures FieldScores(fields, term) == []
  {
    if fields != [] {
      var p := fields[..|fields| - 1];
      assert fields == p + [fields[|fields| - 1]];
      HasTermFieldSnoc(p, fields[|fields| - 1]);
      NoTermFieldEmpty(p, term);
    }
  }

  /** The averaging loops: each group's `reduce` sum divided by its length. */
  method AverageGroups(groups: map<string, seq<real>>) returns (averages: map<string, real>)
    requires forall k :: k in groups ==> groups[k] != []
    ensures averages.Keys == groups.Keys
    ensures forall k :: k in averages ==> averages[k] == Mean(groups[k])
  {
    averages := map[];
    var todo := groups.Keys;
    while todo != {}
      invariant todo <= groups.Keys
      invariant averages.Keys == groups.Keys - todo
      invariant forall k :: k in averages ==> averages[k] == Mean(groups[k])
      decreases todo
    {
      var k :| k in todo;
      averages := averages[k := Sum(groups[k]) / (|groups[k]| as real)];
      todo := todo - {k};
    }
  }

  /**
    The whole callback body: `averageScores` per term and `majorScores` per
    major and term. A term appears exactly when some score was filed under
    it, and its value is the exact mean of those scores.
   */
  method FetchStudents(data: seq<Student>)
    returns (averageScores: map<string, real>, majorScores: map<string, map<string, real>>)
    ensures forall t :: t in averageScores <==> TermScores(data, t) != []
    ensures forall t :: t in averageScores ==> averageScores[t] == Mean(TermScores(data, t))
    ensures forall m :: m in majorScores <==> MajorSeen(data, m)
    ensures forall m, t :: m in majorScores ==> (t in majorScores[m] <==> MajorTermScores(data, m, t) != [])
    ensures forall m, t :: m in majorScores && t in majorScores[m] ==>
      majorScores[m][t] == Mean(MajorTermScores(data, m, t))
  {
    var termScores, majorTermScores := GroupScores(data);
    averageScores := AverageGroups(termScores);
    majorScores := AverageMajorGroups(majorTermScores);
    forall m, t | m in majorScores && t in majorScores[m]
      ensures majorScores[m][t] == Mean(MajorTermScores(data, m, t))
    {
      assert majorTermScores[m][t] == MajorTermScores(data, m, t);
    }
  }

  /** The outer `forEach` over the majors: average every (major, term) group. */
  method AverageMajorGroups(groups: map<string, map<string, seq<real>>>) returns (averages: map<string, map<string, real>>)
    requires forall m, t :: m in groups && t in groups[m] ==> groups[m][t] != []
    ensures averages.Keys == groups.Keys
    ensures forall m :: m in averages ==> averages[m].Keys == groups[m].Keys
    ensures forall m, t :: m in averages && t in averages[m] ==> averages[m][t] == Mean(groups[m][t])
  {
    averages := map[];
    var todo := groups.Keys;
    while todo != {}
      invariant todo <= groups.Keys
      invariant averages.Keys == groups.Keys - todo
      invariant forall m :: m in averages ==> averages[m].Keys == groups[m].Keys
      invariant forall m, t :: m in averages && t in averages[m] ==> averages[m][t] == Mean(groups[m][t])
      decreases todo
    {
      var m :| m in todo;
      var inner := AverageGroups(groups[m]);
      averages := averages[m := inner];
      todo := todo - {m};
    }
  }

  // Properties of the specification.

  /** A key that is not five digits (the major key among them) never collects a score. */
  lemma {:induction false} NonTermKeyIgnored(data: seq<Student>, key: string)
    requires !IsTermKey(key)
    ensures TermScores(data, key) == []
    ensures forall m :: MajorTermScores(data, m, key) == []
  {
    if data != [] {
      NonTermKeyIgnored(data[..|data| - 1], key);
      FieldScoresNonEmpty(data[|data| - 1].fields, key);
    }
  }

  /** A term has an average exactly when it is five digits and some student's record carries that key. */
  lemma {:induction false} TermPresent(data: seq<Student>, term: string)
    ensures TermScores(data, term) != [] <==> IsTermKey(term) && exists i :: 0 <= i < |data| && HasKey(data[i].fields, term)
  {
    if data != [] {
      var p := data[..|data| - 1];
      var s := data[|data| - 1];
      TermPresent(p, term);
      FieldScoresNonEmpty(s.fields, term);
      assert forall i :: 0 <= i < |p| ==> p[i] == data[i];
    }
  }

  /** The scores filed under `term` for the students of one major. */
  function MajorsUnion(majors: seq<string>, data: seq<Student>, term: string): multiset<real>
  {
    if majors == [] then multiset{}
    else multiset(MajorTermScores(data, majors[0], term)) + MajorsUnion(majors[1..], data, term)
  }

  lemma {:induction false} MajorsUnionIgnores(majors: seq<string>, data: seq<Student>, s: Student, term: string)
    requires s.major !in majors
    ensures MajorsUnion(majors, data + [s], term) == MajorsUnion(majors, data, term)
  {
    if majors != [] {
      assert (data + [s])[..|data|] == data;
      MajorsUnionIgnores(majors[1..], data, s, term);
    }
  }

  lemma {:induction false} MajorsUnionSnoc(majors: seq<string>, data: seq<Student>, s: Student, term: string)
    requires Distinct(majors) && s.major in majors
    ensures MajorsUnion(majors, data + [s], term) == MajorsUnion(majors, data, term) + multiset(FieldScores(s.fields, term))
  {
    assert (data + [s])[..|data|] == data;
    if majors[0] == s.major {
      assert s.major !in majors[1..] by {
        forall j | 0 <= j < |majors[1..]| ensures majors[1..][j] != s.major {
          assert majors[1..][j] == majors[j + 1];
        }
      }
      MajorsUnionIgnores(majors[1..], data, s, term);
    } else {
      MajorsUnionSnoc(majors[1..], data, s, term);
    }
  }

  lemma {:induction false} MajorsUnionOfEmpty(majors: seq<string>, term: string)
    ensures MajorsUnion(majors, [], term) == multiset{}
  {
    if majors != [] {
      MajorsUnionOfEmpty(majors[1..], term);
    }
  }

  /**
    Over any list of distinct majors covering the cohort, the (major, term)
    groups together hold exactly the term's group: the per-term list is the
    union of the per-major lists, so in particular their sizes add up.
   */
  lemma {:induction false} TermIsUnionOfMajors(majors: seq<string>, data: seq<Student>, term: string)
    requires Distinct(majors)
    requires forall i :: 0 <= i < |data| ==> data[i].major in majors
    ensures MajorsUnion(majors, data, term) == multiset(TermScores(data, term))
    ensures |MajorsUnion(majors, data, term)| == |TermScores(data, term)|
  {
    if data == [] {
      MajorsUnionOfEmpty(majors, term);
    } else {
      var p := data[..|data| - 1];
      var s := data[|data| - 1];
      assert data == p + [s];
      TermIsUnionOfMajors(majors, p, term);
      MajorsUnionSnoc(majors, p, s, term);
    }
  }
}
