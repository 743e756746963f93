/** The counts an import reports.  Applying counts created and updated rows; a snapshot
    taken before counts the rows that will not change.  The report combines both. */
module ImportReport {
  import opened Options
  import opened MetricCatalog
  import opened PreparedWorkbook
  import opened ImportTables
  import opened ImportProperties

  // ---------------------------------------------------------------- counting while applying

  datatype Tally = Tally(created: nat, updated: nat)

  function Counted(t: Tally, existed: bool): Tally {
    if existed then t.(updated := t.updated + 1) else t.(created := t.created + 1)
  }

  function ClassTally(start: Classes, job: Job, year: Year, items: seq<ClassItem>): Tally {
    if items == [] then Tally(0, 0)
    else
      var n := |items| - 1;
      Counted(ClassTally(start, job, year, items[..n]), ClassKeyOf(job, year, items[n]) in start)
  }

  function StudentTally(start: Students, job: Job, items: seq<StudentItem>): Tally {
    if items == [] then Tally(0, 0)
    else
      var n := |items| - 1;
      Counted(StudentTally(start, job, items[..n]), StudentKeyOf(job, items[n]) in start)
  }

  ghost function EnrollmentTally(start: Enrollments, job: Job, year: Year, items: seq<StudentItem>): Tally {
    if items == [] then Tally(0, 0)
    else
      var n := |items| - 1;
      Counted(EnrollmentTally(start, job, year, items[..n]), Latest(start, StudentKeyOf(job, items[n]), year.id).Some?)
  }

  function EvaluationTally(start: Evaluations, job: Job, ids: seq<nat>, students: seq<StudentItem>, items: seq<EvaluationItem>): Tally
    requires |ids| == |students| && Known(students, items)
  {
    if items == [] then Tally(0, 0)
    else
      var n := |items| - 1;
      Counted(EvaluationTally(start, job, ids, students, items[..n]),
              EvaluationKeyOf(ids, students, items[n]) in PutEvaluations(start, job, ids, students, items[..n]))
  }

  /** All scores of the workbook. */
  function Scores(items: seq<EvaluationItem>): nat {
    if items == [] then 0 else Scores(items[..|items| - 1]) + |items[|items| - 1].metrics.Keys|
  }

  predicate Complete(item: EvaluationItem) {
    |item.metrics.Keys| == CatalogSize(item.framework)
  }

  function CompleteCount(items: seq<EvaluationItem>): nat {
    if items == [] then 0 else CompleteCount(items[..|items| - 1]) + if Complete(items[|items| - 1]) then 1 else 0
  }

  datatype Summary = Summary(
    classes: Tally, students: Tally, enrollments: Tally, evaluations: Tally,
    metricsUpserted: nat, finalEvaluations: nat, provisionalEvaluations: nat)

  ghost function SummaryOf(t: Tables, job: Job, p: Prepared): Summary
    requires WellPrepared(p) && Apply(t, job, p).Some?
  {
    var year := p.year.value;
    var ids := PutEnrollments(t, job, year, p.classes, p.students).value.ids;
    OneIdEach(t, job, year, p.classes, p.students);
    var finals := CompleteCount(p.evaluations);
    CompleteAreSome(p.evaluations);
    Summary(ClassTally(t.classes, job, year, p.classes), StudentTally(t.students, job, p.students),
            EnrollmentTally(t.enrollments, job, year, p.students), EvaluationTally(t.evaluations, job, ids, p.students, p.evaluations),
            Scores(p.evaluations), finals, |p.evaluations| - finals)
  }

  lemma {:induction false} CompleteAreSome(items: seq<EvaluationItem>)
    ensures CompleteCount(items) <= |items|
  {
    if items != [] {
      CompleteAreSome(items[..|items| - 1]);
    }
  }

  // ---------------------------------------------------------------- the snapshot before

  predicate ClassUnchanged(classes: Classes, key: ClassKey, item: ClassItem) {
    && key in classes && !classes[key].deleted && classes[key].active && classes[key].title == item.title
    && classes[key].grade == item.grade.id && classes[key].capacity == item.capacity
  }

  predicate StudentUnchanged(students: Students, key: StudentKey, item: StudentItem) {
    && key in students && !students[key].deleted && students[key].status == Enrolled
    && students[key].firstName == item.firstName && students[key].lastName == item.lastName
    && students[key].birthDate == item.birthDate && students[key].gender == item.gender
  }

  predicate RowUnchanged(classes: Classes, job: Job, year: Year, items: seq<ClassItem>, item: StudentItem, e: Enrollment) {
    var key := ClassKey(job.school, year.id, item.classCode);
    && key in classes && !e.deleted && e.status == Active && e.school == job.school
    && e.grade == GradeOf(items, item.classCode) && e.classSection == key && e.studentNumber == item.studentNumber
    && e.enrolledOn == year.startsOn && e.leftOn == None
  }

  ghost predicate EnrollmentUnchanged(t: Tables, job: Job, year: Year, items: seq<ClassItem>, item: StudentItem) {
    var existing := Latest(t.enrollments, StudentKeyOf(job, item), year.id);
    && existing.Some? && existing.value in t.enrollments
    && RowUnchanged(t.classes, job, year, items, item, t.enrollments[existing.value])
  }

  /** The evaluation that is already stored for an item. */
  ghost function StoredEvaluation(t: Tables, job: Job, year: Year, students: seq<StudentItem>, item: EvaluationItem): Option<Evaluation>
    requires item.localCode in LocalCodes(students)
  {
    var id := Latest(t.enrollments, StudentKeyOf(job, students[IndexOf(students, item.localCode)]), year.id);
    if id.None? then None
    else
      var key := EvaluationKey(id.value, item.monthNo, item.framework);
      if key in t.evaluations then Some(t.evaluations[key]) else None
  }

  function NewCodes(stored: map<string, nat>, metrics: map<string, nat>): set<string> {
    set code | code in metrics && code !in stored
  }

  function ChangedCodes(stored: map<string, nat>, metrics: map<string, nat>): set<string> {
    set code | code in metrics && code in stored && stored[code] != metrics[code]
  }

  function SameCodes(stored: map<string, nat>, metrics: map<string, nat>): set<string> {
    set code | code in metrics && code in stored && stored[code] == metrics[code]
  }

  datatype EvaluationCounts = EvaluationCounts(untouched: nat, metricsCreated: nat, metricsUpdated: nat, metricsUnchanged: nat)

  function CountEvaluation(c: EvaluationCounts, stored: Option<Evaluation>, item: EvaluationItem): EvaluationCounts {
    if stored.None? then c.(metricsCreated := c.metricsCreated + |item.metrics.Keys|)
    else
      var held := stored.value.metrics;
      EvaluationCounts(
        if stored.value.note == item.note && NewCodes(held, item.metrics) == {} && ChangedCodes(held, item.metrics) == {}
        then c.untouched + 1 else c.untouched,
        c.metricsCreated + |NewCodes(held, item.metrics)|, c.metricsUpdated + |ChangedCodes(held, item.metrics)|,
        c.metricsUnchanged + |SameCodes(held, item.metrics)|)
  }

  ghost function EvaluationCountsOf(t: Tables, job: Job, year: Year, students: seq<StudentItem>, items: seq<EvaluationItem>): EvaluationCounts
    requires Known(students, items)
  {
    if items == [] then EvaluationCounts(0, 0, 0, 0)
    else
      var n := |items| - 1;
      CountEvaluation(EvaluationCountsOf(t, job, year, students, items[..n]), StoredEvaluation(t, job, year, students, items[n]), items[n])
  }

  function ClassesUnchanged(start: Classes, job: Job, year: Year, items: seq<ClassItem>): nat {
    if items == [] then 0
    else
      var n := |items| - 1;
      ClassesUnchanged(start, job, year, items[..n]) + if ClassUnchanged(start, ClassKeyOf(job, year, items[n]), items[n]) then 1 else 0
  }

  function StudentsUnchanged(start: Students, job: Job, items: seq<StudentItem>): nat {
    if items == [] then 0
    else
      var n := |items| - 1;
      StudentsUnchanged(start, job, items[..n]) + if StudentUnchanged(start, StudentKeyOf(job, items[n]), items[n]) then 1 else 0
  }

  ghost function EnrollmentsUnchanged(t: Tables, job: Job, year: Year, classes: seq<ClassItem>, items: seq<StudentItem>): nat {
    if items == [] then 0
    else
      var n := |items| - 1;
      EnrollmentsUnchanged(t, job, year, classes, items[..n]) + if EnrollmentUnchanged(t, job, year, classes, items[n]) then 1 else 0
  }

  datatype Snapshot = Snapshot(classes: nat, students: nat, enrollments: nat, evaluations: EvaluationCounts)

  ghost function SnapshotOf(t: Tables, job: Job, p: Prepared): Snapshot
    requires WellPrepared(p)
  {
    var year := p.year.value;
    Snapshot(ClassesUnchanged(t.classes, job, year, p.classes), StudentsUnchanged(t.students, job, p.students),
             EnrollmentsUnchanged(t, job, year, p.classes, p.students),
             EvaluationCountsOf(t, job, year, p.students, p.evaluations))
  }

  // ---------------------------------------------------------------- the report

  datatype Line = Line(created: nat, updated: nat, untouched: nat)

  datatype Report = Report(
    classes: Line, students: Line, enrollments: Line, evaluations: Line, metrics: Line,
    metricsUpserted: nat, finalEvaluations: nat, provisionalEvaluations: nat)

  /** Rows that will not change are taken from the updated ones, down to zero at most. */
  function LineOf(t: Tally, untouched: nat): Line {
    Line(t.created, if t.updated >= untouched then t.updated - untouched else 0, untouched)
  }

  function ReportOf(summary: Summary, before: Snapshot): Report {
    Report(LineOf(summary.classes, before.classes), LineOf(summary.students, before.students),
           LineOf(summary.enrollments, before.enrollments), LineOf(summary.evaluations, before.evaluations.untouched),
           Line(before.evaluations.metricsCreated, before.evaluations.metricsUpdated, before.evaluations.metricsUnchanged),
           summary.metricsUpserted, summary.finalEvaluations, summary.provisionalEvaluations)
  }

  function Total(line: Line): nat {
    line.created + line.updated + line.untouched
  }

  // ---------------------------------------------------------------- the snapshot agrees with applying

  /** A class or student counts as unchanged exactly when applying leaves its row as it is. */
  lemma UnchangedMeansUntouched(classes: Classes, students: Students, ckey: ClassKey, citem: ClassItem, skey: StudentKey, sitem: StudentItem)
    ensures ClassUnchanged(classes, ckey, citem) <==> ckey in classes && ClassRow(classes, ckey, citem) == classes[ckey]
    ensures StudentUnchanged(students, skey, sitem) <==> skey in students && StudentRow(students, skey, sitem) == students[skey]
  {
  }

  /** An enrollment counts as unchanged exactly when applying changes no more than its save time. */
  lemma EnrollmentUnchangedMeansUntouched(t: Tables, job: Job, year: Year, classes: seq<ClassItem>, item: StudentItem)
    requires ValidTables(t)
    ensures EnrollmentUnchanged(t, job, year, classes, item) <==> EnrollmentInPlace(t.enrollments, job, year, classes, item)
  {
    var key := StudentKeyOf(job, item);
    var existing := Latest(t.enrollments, key, year.id);
    if existing.Some? {
      assert IsLatest(t.enrollments, key, year.id, existing.value);
    }
  }

  /** An evaluation counts as unchanged exactly when applying leaves its note and scores. */
  lemma EvaluationUnchangedMeansUntouched(row: Evaluation, item: EvaluationItem)
    ensures row.note == item.note && NewCodes(row.metrics, item.metrics) == {} && ChangedCodes(row.metrics, item.metrics) == {}
            <==> row.note == item.note && row.metrics + item.metrics == row.metrics
  {
    if NewCodes(row.metrics, item.metrics) == {} && ChangedCodes(row.metrics, item.metrics) == {} {
      forall code | code in item.metrics ensures code in row.metrics && row.metrics[code] == item.metrics[code] {
        assert code !in NewCodes(row.metrics, item.metrics) && code !in ChangedCodes(row.metrics, item.metrics);
      }
      assert row.metrics + item.metrics == row.metrics;
    }
    if row.metrics + item.metrics == row.metrics {
      forall code | code in item.metrics ensures code in row.metrics && row.metrics[code] == item.metrics[code] {
        assert (row.metrics + item.metrics)[code] == item.metrics[code];
      }
    }
  }

  lemma CodesAreDivided(stored: map<string, nat>, metrics: map<string, nat>)
    ensures |NewCodes(stored, metrics)| + |ChangedCodes(stored, metrics)| + |SameCodes(stored, metrics)| == |metrics.Keys|
  {
    var a, b, c := NewCodes(stored, metrics), ChangedCodes(stored, metrics), SameCodes(stored, metrics);
    assert a + b + c == metrics.Keys;
    assert a !! b && |a + b| == |a| + |b|;
    assert (a + b) !! c && |a + b + c| == |a + b| + |c|;
  }

  lemma {:induction false} ClassCountsAgree(start: Classes, job: Job, year: Year, items: seq<ClassItem>)
    ensures var t := ClassTally(start, job, year, items);
            t.created + t.updated == |items| && ClassesUnchanged(start, job, year, items) <= t.updated
  {
    if items != [] {
      ClassCountsAgree(start, job, year, items[..|items| - 1]);
    }
  }

  lemma {:induction false} StudentCountsAgree(start: Students, job: Job, items: seq<StudentItem>)
    ensures var t := StudentTally(start, job, items);
            t.created + t.updated == |items| && StudentsUnchanged(start, job, items) <= t.updated
  {
    if items != [] {
      StudentCountsAgree(start, job, items[..|items| - 1]);
    }
  }

  lemma {:induction false} EnrollmentCountsAgree(t: Tables, job: Job, year: Year, classes: seq<ClassItem>, items: seq<StudentItem>)
    ensures var tally := EnrollmentTally(t.enrollments, job, year, items);
            tally.created + tally.updated == |items| && EnrollmentsUnchanged(t, job, year, classes, items) <= tally.updated
  {
    if items != [] {
      EnrollmentCountsAgree(t, job, year, classes, items[..|items| - 1]);
    }
  }

  lemma {:induction false} MetricCountsAgree(t: Tables, job: Job, year: Year, students: seq<StudentItem>, items: seq<EvaluationItem>)
    requires Known(students, items)
    ensures var c := EvaluationCountsOf(t, job, year, students, items);
            c.metricsCreated + c.metricsUpdated + c.metricsUnchanged == Scores(items)
  {
    if items != [] {
      var n := |items| - 1;
      MetricCountsAgree(t, job, year, students, items[..n]);
      var stored := StoredEvaluation(t, job, year, students, items[n]);
      if stored.Some? {
        CodesAreDivided(stored.value.metrics, items[n].metrics);
      }
    }
  }

  /** An evaluation the snapshot finds is the one that applying addresses. */
  lemma StoredIsAddressed(t: Tables, st: EnrollState, job: Job, year: Year, classes: seq<ClassItem>, students: seq<StudentItem>,
                          item: EvaluationItem)
    requires EnrollSound(t, st, job, year, classes, students) && item.localCode in LocalCodes(students)
    requires StoredEvaluation(t, job, year, students, item).Some?
    ensures EvaluationKeyOf(st.ids, students, item) in t.evaluations
    ensures StoredEvaluation(t, job, year, students, item).value == t.evaluations[EvaluationKeyOf(st.ids, students, item)]
  {
    var k := IndexOf(students, item.localCode);
    assert EnrolledAs(t, st, job, year, classes, students[k], st.ids[k]);
  }

  lemma {:induction false} EvaluationCountsAgree(t: Tables, job: Job, year: Year, ids: seq<nat>, students: seq<StudentItem>,
                                                 items: seq<EvaluationItem>)
    requires |ids| == |students| && Known(students, items)
    requires forall i :: 0 <= i < |items| && StoredEvaluation(t, job, year, students, items[i]).Some?
                         ==> EvaluationKeyOf(ids, students, items[i]) in t.evaluations
    ensures var tally := EvaluationTally(t.evaluations, job, ids, students, items);
            && tally.created + tally.updated == |items|
            && EvaluationCountsOf(t, job, year, students, items).untouched <= tally.updated
  {
    if items != [] {
      var n := |items| - 1;
      EvaluationCountsAgree(t, job, year, ids, students, items[..n]);
      EvaluationKeysAfter(t.evaluations, job, ids, students, items[..n], EvaluationKeyOf(ids, students, items[n]));
    }
  }

  lemma EvaluationLineAddsUp(t: Tables, job: Job, p: Prepared)
    requires WellPrepared(p) && ValidTables(t) && Apply(t, job, p).Some?
    ensures var tally, before := SummaryOf(t, job, p).evaluations, SnapshotOf(t, job, p).evaluations;
            tally.created + tally.updated == |p.evaluations| && before.untouched <= tally.updated
  {
    var year := p.year.value;
    var st := PutEnrollments(t, job, year, p.classes, p.students).value;
    EnrollmentsPut(t, job, year, p.classes, p.students);
    forall i | 0 <= i < |p.evaluations| && StoredEvaluation(t, job, year, p.students, p.evaluations[i]).Some?
      ensures EvaluationKeyOf(st.ids, p.students, p.evaluations[i]) in t.evaluations
    {
      StoredIsAddressed(t, st, job, year, p.classes, p.students, p.evaluations[i]);
    }
    EvaluationCountsAgree(t, job, year, st.ids, p.students, p.evaluations);
  }

  lemma OtherLinesAddUp(t: Tables, job: Job, p: Prepared)
    requires WellPrepared(p) && Apply(t, job, p).Some?
    ensures var s, before := SummaryOf(t, job, p), SnapshotOf(t, job, p);
            && s.classes.created + s.classes.updated == |p.classes| && before.classes <= s.classes.updated
            && s.students.created + s.students.updated == |p.students| && before.students <= s.students.updated
            && s.enrollments.created + s.enrollments.updated == |p.students| && before.enrollments <= s.enrollments.updated
  {
    ClassCountsAgree(t.classes, job, p.year.value, p.classes);
    StudentCountsAgree(t.students, job, p.students);
    EnrollmentCountsAgree(t, job, p.year.value, p.classes, p.students);
  }

  predicate NeverClipped(s: Summary, before: Snapshot) {
    && before.classes <= s.classes.updated && before.students <= s.students.updated
    && before.enrollments <= s.enrollments.updated && before.evaluations.untouched <= s.evaluations.updated
  }

  predicate AddsUp(r: Report, p: Prepared) {
    && Total(r.classes) == |p.classes| && Total(r.students) == |p.students|
    && Total(r.enrollments) == |p.students| && Total(r.evaluations) == |p.evaluations|
    && Total(r.metrics) == r.metricsUpserted == Scores(p.evaluations)
    && r.finalEvaluations + r.provisionalEvaluations == |p.evaluations|
  }

  lemma ScoresAreUpserted(t: Tables, job: Job, p: Prepared)
    requires WellPrepared(p) && Apply(t, job, p).Some?
    ensures var s, c := SummaryOf(t, job, p), SnapshotOf(t, job, p).evaluations;
            && s.metricsUpserted == Scores(p.evaluations) == c.metricsCreated + c.metricsUpdated + c.metricsUnchanged
            && s.finalEvaluations + s.provisionalEvaluations == |p.evaluations|
  {
    MetricCountsAgree(t, job, p.year.value, p.students, p.evaluations);
    CompleteAreSome(p.evaluations);
  }

  /** The arithmetic of the report. */
  lemma LinesAddUp(s: Summary, before: Snapshot, p: Prepared)
    requires NeverClipped(s, before)
    requires s.classes.created + s.classes.updated == |p.classes|
    requires s.students.created + s.students.updated == |p.students|
    requires s.enrollments.created + s.enrollments.updated == |p.students|
    requires s.evaluations.created + s.evaluations.updated == |p.evaluations|
    requires var c := before.evaluations;
             s.metricsUpserted == Scores(p.evaluations) == c.metricsCreated + c.metricsUpdated + c.metricsUnchanged
    requires s.finalEvaluations + s.provisionalEvaluations == |p.evaluations|
    ensures AddsUp(ReportOf(s, before), p)
  {
  }

  /** Every line of the report adds up to the rows of the workbook, and the subtraction of
      the unchanged rows is never cut off at zero. */
  lemma ReportAddsUp(t: Tables, job: Job, p: Prepared)
    requires WellPrepared(p) && ValidTables(t) && Apply(t, job, p).Some?
    ensures NeverClipped(SummaryOf(t, job, p), SnapshotOf(t, job, p))
    ensures AddsUp(ReportOf(SummaryOf(t, job, p), SnapshotOf(t, job, p)), p)
  {
    var s, before := SummaryOf(t, job, p), SnapshotOf(t, job, p);
    OtherLinesAddUp(t, job, p);
    EvaluationLineAddsUp(t, job, p);
    ScoresAreUpserted(t, job, p);
    LinesAddUp(s, before, p);
  }

  // ---------------------------------------------------------------- the second report

  lemma {:induction false} ClassesCountAsUnchanged(start: Classes, job: Job, year: Year, items: seq<ClassItem>)
    requires forall i :: 0 <= i < |items| ==> ClassInPlace(start, job, year, items[i])
    ensures ClassesUnchanged(start, job, year, items) == |items|
  {
    if items != [] {
      assert ClassInPlace(start, job, year, items[|items| - 1]);
      ClassesCountAsUnchanged(start, job, year, items[..|items| - 1]);
    }
  }

  lemma {:induction false} StudentsCountAsUnchanged(start: Students, job: Job, items: seq<StudentItem>)
    requires forall i :: 0 <= i < |items| ==> StudentInPlace(start, job, items[i])
    ensures StudentsUnchanged(start, job, items) == |items|
  {
    if items != [] {
      assert StudentInPlace(start, job, items[|items| - 1]);
      StudentsCountAsUnchanged(start, job, items[..|items| - 1]);
    }
  }

  lemma {:induction false} EnrollmentsCountAsUnchanged(t: Tables, job: Job, year: Year, classes: seq<ClassItem>, items: seq<StudentItem>)
    requires ValidTables(t)
    requires forall i :: 0 <= i < |items| ==> EnrollmentInPlace(t.enrollments, job, year, classes, items[i])
    ensures EnrollmentsUnchanged(t, job, year, classes, items) == |items|
  {
    if items != [] {
      var n := |items| - 1;
      assert EnrollmentInPlace(t.enrollments, job, year, classes, items[n]);
      EnrollmentUnchangedMeansUntouched(t, job, year, classes, items[n]);
      EnrollmentsCountAsUnchanged(t, job, year, classes, items[..n]);
    }
  }

  lemma HeldMeansUnchanged(row: Evaluation, item: EvaluationItem)
    requires Holds(row, item)
    ensures NewCodes(row.metrics, item.metrics) == {} && ChangedCodes(row.metrics, item.metrics) == {}
    ensures |SameCodes(row.metrics, item.metrics)| == |item.metrics.Keys|
  {
    assert SameCodes(row.metrics, item.metrics) == item.metrics.Keys;
  }

  lemma {:induction false} EvaluationsCountAsUnchanged(t: Tables, job: Job, year: Year, students: seq<StudentItem>, items: seq<EvaluationItem>)
    requires Known(students, items)
    requires forall i :: 0 <= i < |items| ==>
               var stored := StoredEvaluation(t, job, year, students, items[i]);
               stored.Some? && Holds(stored.value, items[i])
    ensures EvaluationCountsOf(t, job, year, students, items) == EvaluationCounts(|items|, 0, 0, Scores(items))
  {
    if items != [] {
      var n := |items| - 1;
      var stored := StoredEvaluation(t, job, year, students, items[n]);
      assert stored.Some? && Holds(stored.value, items[n]);
      HeldMeansUnchanged(stored.value, items[n]);
      EvaluationsCountAsUnchanged(t, job, year, students, items[..n]);
    }
  }

  lemma InPlaceIsStored(t: Tables, job: Job, p: Prepared, ids: seq<nat>, i: nat)
    requires WellPrepared(p) && InPlace(t, job, p, ids) && i < |p.evaluations|
    ensures var stored := StoredEvaluation(t, job, p.year.value, p.students, p.evaluations[i]);
            stored.Some? && Holds(stored.value, p.evaluations[i])
  {
    var item := p.evaluations[i];
    var k := IndexOf(p.students, item.localCode);
    assert Latest(t.enrollments, StudentKeyOf(job, p.students[k]), p.year.value.id) == Some(ids[k]);
    var key := EvaluationKeyOf(ids, p.students, item);
    assert key in t.evaluations && Holds(t.evaluations[key], item);
  }

  lemma SnapshotInPlace(t: Tables, job: Job, p: Prepared, ids: seq<nat>)
    requires WellPrepared(p) && ValidTables(t) && InPlace(t, job, p, ids)
    ensures SnapshotOf(t, job, p) == Snapshot(|p.classes|, |p.students|, |p.students|,
                                              EvaluationCounts(|p.evaluations|, 0, 0, Scores(p.evaluations)))
  {
    ClassesCountAsUnchanged(t.classes, job, p.year.value, p.classes);
    StudentsCountAsUnchanged(t.students, job, p.students);
    EnrollmentsCountAsUnchanged(t, job, p.year.value, p.classes, p.students);
    forall i | 0 <= i < |p.evaluations|
      ensures var stored := StoredEvaluation(t, job, p.year.value, p.students, p.evaluations[i]);
              stored.Some? && Holds(stored.value, p.evaluations[i])
    {
      InPlaceIsStored(t, job, p, ids, i);
    }
    EvaluationsCountAsUnchanged(t, job, p.year.value, p.students, p.evaluations);
  }

  /** Nothing was created or updated. */
  predicate AllUnchanged(r: Report, p: Prepared) {
    && r.classes == Line(0, 0, |p.classes|) && r.students == Line(0, 0, |p.students|)
    && r.enrollments == Line(0, 0, |p.students|) && r.evaluations == Line(0, 0, |p.evaluations|)
    && r.metrics == Line(0, 0, Scores(p.evaluations))
  }

  lemma NoneLeft(s: Summary, before: Snapshot, p: Prepared)
    requires AddsUp(ReportOf(s, before), p)
    requires before == Snapshot(|p.classes|, |p.students|, |p.students|, EvaluationCounts(|p.evaluations|, 0, 0, Scores(p.evaluations)))
    ensures AllUnchanged(ReportOf(s, before), p)
  {
  }

  /** A workbook whose rows are in place is reported as entirely unchanged. */
  lemma EverythingUnchanged(t: Tables, job: Job, p: Prepared, ids: seq<nat>)
    requires WellPrepared(p) && ValidTables(t) && InPlace(t, job, p, ids) && Apply(t, job, p).Some?
    ensures AllUnchanged(ReportOf(SummaryOf(t, job, p), SnapshotOf(t, job, p)), p)
  {
    SnapshotInPlace(t, job, p, ids);
    ReportAddsUp(t, job, p);
    NoneLeft(SummaryOf(t, job, p), SnapshotOf(t, job, p), p);
  }

  /** The second import of a workbook reports every row and every score as unchanged. */
  lemma SecondImportReportsUnchanged(t: Tables, job: Job, again: Job, p: Prepared)
    requires WellPrepared(p) && ValidTables(t) && Apply(t, job, p).Some?
    requires again.organization == job.organization && again.school == job.school
    ensures var u := Apply(t, job, p).value;
            Apply(u, again, p).Some? && AllUnchanged(ReportOf(SummaryOf(u, again, p), SnapshotOf(u, again, p)), p)
  {
    var u := Apply(t, job, p).value;
    var ids := AppliedIsInPlace(t, job, p);
    ApplyKeepsTablesValid(t, job, p);
    InPlaceForOtherJob(u, job, again, p, ids);
    InPlaceIsFixed(u, again, p, ids);
    EverythingUnchanged(u, again, p, ids);
  }
}
