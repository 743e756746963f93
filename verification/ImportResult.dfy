/** What an import leaves in the tables, field by field, how much it adds to them, and
    exactly which imports are refused. */
module ImportResult {
  import opened Counting
  import opened ImportProperties
  import opened ImportTables
  import opened Options
  import opened PreparedWorkbook
  import opened MetricCatalog
  import ImportReport

  // ---------------------------------------------------------------- every field

  lemma {:induction false} OwnGrade(classes: seq<ClassItem>, c: nat)
    requires ClassesAreDistinct(classes) && c < |classes|
    ensures GradeOf(classes, classes[c].code) == classes[c].grade.id
  {
    var n := |classes| - 1;
    if c < n {
      OwnGrade(classes[..n], c);
    }
  }

  predicate ClassIsStored(classes: Classes, school: nat, year: nat, item: ClassItem) {
    var key := ClassKey(school, year, item.code);
    && key in classes
    && classes[key].title == item.title && classes[key].grade == item.grade.id && classes[key].capacity == item.capacity
    && classes[key].active && !classes[key].deleted
  }

  predicate StudentIsStored(students: Students, organization: nat, item: StudentItem) {
    var key := StudentKey(organization, item.nationalId);
    && key in students
    && students[key].firstName == item.firstName && students[key].lastName == item.lastName
    && students[key].birthDate == item.birthDate && students[key].gender == item.gender
    && students[key].status == Enrolled && !students[key].deleted
  }

  /** The student is enrolled in the class, with the grade of the class, from the first day
      of the year. */
  predicate IsEnrolledIn(e: Enrollment, job: Job, year: Year, item: StudentItem, c: ClassItem) {
    && e.student == StudentKey(job.organization, item.nationalId) && e.studentNumber == item.studentNumber
    && e.school == job.school && e.year == year.id
    && e.classSection == ClassKey(job.school, year.id, c.code) && e.grade == c.grade.id
    && e.status == Active && !e.deleted && e.enrolledOn == year.startsOn && e.leftOn == None
  }

  /** The note and the scores, under the person and the job of the import. */
  predicate AnswersAreStored(evaluations: Evaluations, job: Job, enrollment: nat, item: EvaluationItem) {
    var key := EvaluationKey(enrollment, item.monthNo, item.framework);
    && key in evaluations
    && evaluations[key].note == item.note
    && evaluations[key].recordedBy == job.requestedBy && evaluations[key].sourceJob == job.id
    && forall code :: code in item.metrics ==> code in evaluations[key].metrics && evaluations[key].metrics[code] == item.metrics[code]
  }

  /** After an import every class and student of the workbook is stored with all its fields. */
  lemma ClassesAndStudentsAreStored(t: Tables, job: Job, p: Prepared)
    requires WellPrepared(p) && ValidTables(t) && Apply(t, job, p).Some?
    ensures var u := Apply(t, job, p).value;
            && (forall c :: 0 <= c < |p.classes| ==> ClassIsStored(u.classes, job.school, p.year.value.id, p.classes[c]))
            && (forall k :: 0 <= k < |p.students| ==> StudentIsStored(u.students, job.organization, p.students[k]))
  {
    var ids := AppliedIsInPlace(t, job, p);
    var u := Apply(t, job, p).value;
    forall c | 0 <= c < |p.classes| ensures ClassIsStored(u.classes, job.school, p.year.value.id, p.classes[c]) {
      assert ClassInPlace(u.classes, job, p.year.value, p.classes[c]);
    }
    forall k | 0 <= k < |p.students| ensures StudentIsStored(u.students, job.organization, p.students[k]) {
      assert StudentInPlace(u.students, job, p.students[k]);
    }
  }

  /** And every student has a latest enrollment in the class of the workbook. */
  lemma StudentsAreEnrolled(t: Tables, job: Job, p: Prepared, k: nat, c: nat) returns (id: nat)
    requires WellPrepared(p) && ValidTables(t) && Apply(t, job, p).Some?
    requires k < |p.students| && c < |p.classes| && p.students[k].classCode == p.classes[c].code
    ensures var u := Apply(t, job, p).value;
            && IsLatest(u.enrollments, StudentKey(job.organization, p.students[k].nationalId), p.year.value.id, id)
            && IsEnrolledIn(u.enrollments[id], job, p.year.value, p.students[k], p.classes[c])
  {
    var ids := AppliedIsInPlace(t, job, p);
    var u := Apply(t, job, p).value;
    OwnGrade(p.classes, c);
    assert EnrollmentInPlace(u.enrollments, job, p.year.value, p.classes, p.students[k]);
    id := Latest(u.enrollments, StudentKeyOf(job, p.students[k]), p.year.value.id).value;
  }

  /** And every evaluation is stored with that enrollment. */
  lemma AnswersBelongToTheStudent(t: Tables, job: Job, p: Prepared, i: nat, k: nat) returns (id: nat)
    requires WellPrepared(p) && ValidTables(t) && Apply(t, job, p).Some?
    requires i < |p.evaluations| && k < |p.students| && p.students[k].localCode == p.evaluations[i].localCode
    ensures var u := Apply(t, job, p).value;
            && IsLatest(u.enrollments, StudentKey(job.organization, p.students[k].nationalId), p.year.value.id, id)
            && AnswersAreStored(u.evaluations, job, id, p.evaluations[i])
  {
    var year := p.year.value;
    var st := PutEnrollments(t, job, year, p.classes, p.students).value;
    EnrollmentsPut(t, job, year, p.classes, p.students);
    EnrolledIdsDiffer(t, st, job, year, p.classes, p.students);
    assert IndexOf(p.students, p.evaluations[i].localCode) == k;
    id := st.ids[k];
    WrittenIsLatest(t, st, job, year, p.classes, p.students, k);
    EvaluationPutAt(t.evaluations, job, st.ids, p.students, p.evaluations, i);
  }

  // ---------------------------------------------------------------- how the tables grow

  lemma {:induction false} ClassesGrow(start: Classes, job: Job, year: Year, items: seq<ClassItem>)
    requires ClassesAreDistinct(items)
    ensures |PutClasses(start, job, year, items)| == |start| + ImportReport.ClassTally(start, job, year, items).created
  {
    if items != [] {
      var n := |items| - 1;
      ClassesGrow(start, job, year, items[..n]);
      forall i | 0 <= i < n ensures ClassKeyOf(job, year, items[..n][i]) != ClassKeyOf(job, year, items[n]) {
        assert items[..n][i] == items[i];
      }
      OtherClassesStay(start, job, year, items[..n], ClassKeyOf(job, year, items[n]));
    }
  }

  lemma {:induction false} StudentsGrow(start: Students, job: Job, items: seq<StudentItem>)
    requires StudentsAreDistinct(items)
    ensures |PutStudents(start, job, items)| == |start| + ImportReport.StudentTally(start, job, items).created
  {
    if items != [] {
      var n := |items| - 1;
      StudentsGrow(start, job, items[..n]);
      forall i | 0 <= i < n ensures StudentKeyOf(job, items[..n][i]) != StudentKeyOf(job, items[n]) {
        assert items[..n][i] == items[i];
      }
      OtherStudentsStay(start, job, items[..n], StudentKeyOf(job, items[n]));
    }
  }

  lemma {:induction false} EnrollmentsGrow(t: Tables, job: Job, year: Year, classes: seq<ClassItem>, items: seq<StudentItem>)
    requires ValidTables(t) && StudentsAreDistinct(items) && PutEnrollments(t, job, year, classes, items).Some?
    ensures |PutEnrollments(t, job, year, classes, items).value.enrollments|
         == |t.enrollments| + ImportReport.EnrollmentTally(t.enrollments, job, year, items).created
  {
    if items != [] {
      var n := |items| - 1;
      LastIsEnrolled(t, job, year, classes, items);
      EnrollmentsGrow(t, job, year, classes, items[..n]);
      EnrollmentsPut(t, job, year, classes, items[..n]);
      var st := PutEnrollments(t, job, year, classes, items[..n]).value;
      var existing := Latest(t.enrollments, StudentKeyOf(job, items[n]), year.id);
      if existing.Some? {
        FreshForOthers(t, st, job, year, classes, items[..n], items[n]);
        assert existing.value in t.enrollments;
        assert existing.value in st.enrollments;
      } else {
        assert st.nextId !in st.enrollments;
      }
    }
  }

  lemma {:induction false} EvaluationsGrow(start: Evaluations, job: Job, ids: seq<nat>, students: seq<StudentItem>, items: seq<EvaluationItem>)
    requires |ids| == |students| && Known(students, items)
    ensures |PutEvaluations(start, job, ids, students, items)|
         == |start| + ImportReport.EvaluationTally(start, job, ids, students, items).created
  {
    if items != [] {
      EvaluationsGrow(start, job, ids, students, items[..|items| - 1]);
    }
  }

  /** Each table grows by the number of rows that the summary reports as created. */
  lemma CreatedRowsAreNew(t: Tables, job: Job, p: Prepared)
    requires WellPrepared(p) && ValidTables(t) && Apply(t, job, p).Some?
    ensures var u, s := Apply(t, job, p).value, ImportReport.SummaryOf(t, job, p);
            && |u.classes| == |t.classes| + s.classes.created
            && |u.students| == |t.students| + s.students.created
            && |u.enrollments| == |t.enrollments| + s.enrollments.created
            && |u.evaluations| == |t.evaluations| + s.evaluations.created
  {
    var year := p.year.value;
    ClassesGrow(t.classes, job, year, p.classes);
    StudentsGrow(t.students, job, p.students);
    EnrollmentsGrow(t, job, year, p.classes, p.students);
    OneIdEach(t, job, year, p.classes, p.students);
    EvaluationsGrow(t.evaluations, job, PutEnrollments(t, job, year, p.classes, p.students).value.ids, p.students, p.evaluations);
  }

  /** All stored scores, by evaluation and indicator. */
  function StoredScores(evaluations: Evaluations): set<(EvaluationKey, string)> {
    set key, code | key in evaluations && code in evaluations[key].metrics :: (key, code)
  }

  function Pairs(key: EvaluationKey, codes: set<string>): set<(EvaluationKey, string)> {
    set code | code in codes :: (key, code)
  }

  lemma {:induction false} PairsAreCounted(key: EvaluationKey, codes: set<string>)
    ensures |Pairs(key, codes)| == |codes|
    decreases |codes|
  {
    if code :| code in codes {
      PairsAreCounted(key, codes - {code});
      assert Pairs(key, codes) == Pairs(key, codes - {code}) + {(key, code)};
    } else {
      assert Pairs(key, codes) == {};
      assert codes == {};
    }
  }

  lemma ScoreIsStored(evaluations: Evaluations, p: (EvaluationKey, string))
    ensures p in StoredScores(evaluations) <==> p.0 in evaluations && p.1 in evaluations[p.0].metrics
  {
  }

  lemma GrowsBy(before: set<(EvaluationKey, string)>, after: set<(EvaluationKey, string)>, key: EvaluationKey, added: set<string>)
    requires forall p :: p in after <==> p in before || (p.0 == key && p.1 in added)
    requires forall code :: code in added ==> (key, code) !in before
    ensures |after| == |before| + |added|
  {
    PairsAreCounted(key, added);
    assert after == before + Pairs(key, added);
    assert before !! Pairs(key, added);
  }

  /** Replacing the scores of one evaluation by more scores. */
  lemma MoreScores(front: Evaluations, saved: Evaluations, key: EvaluationKey, held: set<string>, added: set<string>)
    requires held == if key in front then front[key].metrics.Keys else {}
    requires saved.Keys == front.Keys + {key} && forall k :: k in front && k != key ==> saved[k] == front[k]
    requires saved[key].metrics.Keys == held + added && held !! added
    ensures |StoredScores(saved)| == |StoredScores(front)| + |added|
  {
    forall p: (EvaluationKey, string)
      ensures p in StoredScores(saved) <==> p in StoredScores(front) || (p.0 == key && p.1 in added)
    {
      ScoreIsStored(front, p);
      ScoreIsStored(saved, p);
    }
    forall code | code in added ensures (key, code) !in StoredScores(front) {
      ScoreIsStored(front, (key, code));
    }
    GrowsBy(StoredScores(front), StoredScores(saved), key, added);
  }

  /** The scores under a key, none when it is not there. */
  function Held(evaluations: Evaluations, key: EvaluationKey): map<string, nat> {
    if key in evaluations then evaluations[key].metrics else map[]
  }

  lemma KeysOfRow(front: Evaluations, key: EvaluationKey, item: EvaluationItem, job: Job)
    ensures var added := ImportReport.NewCodes(Held(front, key), item.metrics);
            && EvaluationRow(front, key, item, job).metrics.Keys == Held(front, key).Keys + added
            && Held(front, key).Keys !! added
  {
  }

  lemma OneEvaluationAdds(front: Evaluations, key: EvaluationKey, row: Evaluation, held: set<string>, added: set<string>)
    requires held == Held(front, key).Keys && row.metrics.Keys == held + added && held !! added
    ensures |StoredScores(front[key := row])| == |StoredScores(front)| + |added|
  {
    var saved := front[key := row];
    assert saved.Keys == front.Keys + {key};
    MoreScores(front, saved, key, held, added);
  }

  lemma NewOfNothing(metrics: map<string, nat>)
    ensures ImportReport.NewCodes(map[], metrics) == metrics.Keys
  {
  }

  /** What the snapshot finds for an item is what the tables hold under the key it will get. */
  lemma StoredExactly(t: Tables, st: EnrollState, job: Job, year: Year, classes: seq<ClassItem>, students: seq<StudentItem>,
                      item: EvaluationItem)
    requires ValidTables(t) && EnrollSound(t, st, job, year, classes, students) && item.localCode in LocalCodes(students)
    ensures var key := EvaluationKeyOf(st.ids, students, item);
            ImportReport.StoredEvaluation(t, job, year, students, item)
            == if key in t.evaluations then Some(t.evaluations[key]) else None
  {
    var k := IndexOf(students, item.localCode);
    assert EnrolledAs(t, st, job, year, classes, students[k], st.ids[k]);
  }

  lemma {:induction false} ScoresGrow(t: Tables, st: EnrollState, job: Job, year: Year, classes: seq<ClassItem>,
                                      students: seq<StudentItem>, items: seq<EvaluationItem>)
    requires ValidTables(t) && EnrollSound(t, st, job, year, classes, students) && DistinctIds(st.ids)
    requires Known(students, items) && EvaluationsAreDistinct(items)
    ensures |StoredScores(PutEvaluations(t.evaluations, job, st.ids, students, items))|
         == |StoredScores(t.evaluations)| + ImportReport.EvaluationCountsOf(t, job, year, students, items).metricsCreated
  {
    if items != [] {
      var n := |items| - 1;
      ScoresGrow(t, st, job, year, classes, students, items[..n]);
      var front := PutEvaluations(t.evaluations, job, st.ids, students, items[..n]);
      var key := EvaluationKeyOf(st.ids, students, items[n]);
      forall j | 0 <= j < n ensures EvaluationKeyOf(st.ids, students, items[..n][j]) != key {
        EvaluationKeysDiffer(st.ids, students, items, j, n);
      }
      OtherEvaluationsStay(t.evaluations, job, st.ids, students, items[..n], key);
      StoredExactly(t, st, job, year, classes, students, items[n]);
      KeysOfRow(front, key, items[n], job);
      OneEvaluationAdds(front, key, EvaluationRow(front, key, items[n], job), Held(front, key).Keys,
                        ImportReport.NewCodes(Held(front, key), items[n].metrics));
      NewOfNothing(items[n].metrics);
    }
  }

  /** The stored scores grow by the number that the report gives as created. */
  lemma CreatedScoresAreNew(t: Tables, job: Job, p: Prepared)
    requires WellPrepared(p) && ValidTables(t) && Apply(t, job, p).Some?
    ensures |StoredScores(Apply(t, job, p).value.evaluations)|
         == |StoredScores(t.evaluations)| + ImportReport.SnapshotOf(t, job, p).evaluations.metricsCreated
  {
    var year := p.year.value;
    var st := PutEnrollments(t, job, year, p.classes, p.students).value;
    EnrollmentsPut(t, job, year, p.classes, p.students);
    EnrolledIdsDiffer(t, st, job, year, p.classes, p.students);
    ScoresGrow(t, st, job, year, p.classes, p.students, p.evaluations);
  }

  // ---------------------------------------------------------------- which imports succeed

  /** The student of row `n` is not active in another school, and no other active row of the
      year is in the way: none of the student, and none with the number in this school,
      unless an earlier row of the workbook has rewritten it by then. */
  ghost predicate Unhindered(t: Tables, job: Job, year: Year, items: seq<StudentItem>, n: nat)
    requires n < |items|
  {
    var latest := Latest(t.enrollments, StudentKeyOf(job, items[n]), year.id);
    && (forall id :: latest == Some(id) && id in t.enrollments && Live(t.enrollments[id]) ==> t.enrollments[id].school == job.school)
    && forall j :: j in t.enrollments && latest != Some(j) && Live(t.enrollments[j]) && t.enrollments[j].year == year.id ==>
         && t.enrollments[j].student != StudentKeyOf(job, items[n])
         && (t.enrollments[j].school == job.school && t.enrollments[j].studentNumber == items[n].studentNumber
             ==> RewrittenBefore(t, job, year, items, n, j))
  }

  ghost predicate RewrittenBefore(t: Tables, job: Job, year: Year, items: seq<StudentItem>, n: nat, j: nat)
    requires n <= |items|
  {
    exists m :: 0 <= m < n && Latest(t.enrollments, StudentKeyOf(job, items[m]), year.id) == Some(j)
  }

  predicate NumberIsNew(items: seq<StudentItem>, n: nat)
    requires n < |items|
  {
    forall m :: 0 <= m < n ==> items[m].studentNumber != items[n].studentNumber
  }

  /** No row that conflicts with the new one when row `n` is free to be saved. */
  lemma FreeMeansNoClash(t: Tables, st: EnrollState, job: Job, year: Year, classes: seq<ClassItem>, items: seq<StudentItem>, n: nat,
                         id: nat, j: nat)
    requires ValidTables(t) && StudentsAreDistinct(items) && n < |items|
    requires EnrollSound(t, st, job, year, classes, items[..n])
    requires Unhindered(t, job, year, items, n) && NumberIsNew(items, n)
    requires var latest := Latest(t.enrollments, StudentKeyOf(job, items[n]), year.id);
             id == if latest.Some? then latest.value else st.nextId
    requires j in st.enrollments && j != id
    ensures !Conflict(EnrollmentRow(job, year, classes, items[n], st.clock), st.enrollments[j])
  {
    if j in st.ids {
      var m :| 0 <= m < |st.ids| && st.ids[m] == j;
      assert EnrolledAs(t, st, job, year, classes, items[..n][m], j);
      assert items[..n][m] == items[m];
    } else {
      assert st.enrollments[j] == t.enrollments[j];
      RewrittenIsWritten(t, st, job, year, classes, items, n, j);
    }
  }

  lemma RewrittenIsWritten(t: Tables, st: EnrollState, job: Job, year: Year, classes: seq<ClassItem>, items: seq<StudentItem>, n: nat, j: nat)
    requires n <= |items| && EnrollSound(t, st, job, year, classes, items[..n])
    ensures RewrittenBefore(t, job, year, items, n, j) ==> j in st.ids
  {
    if RewrittenBefore(t, job, year, items, n, j) {
      var m :| 0 <= m < n && Latest(t.enrollments, StudentKeyOf(job, items[m]), year.id) == Some(j);
      assert EnrolledAs(t, st, job, year, classes, items[..n][m], st.ids[m]);
      assert items[..n][m] == items[m];
    }
  }

  lemma DistinctByRow(items: seq<StudentItem>)
    ensures NumbersAreDistinct(items) <==> forall k :: 0 <= k < |items| ==> NumberIsNew(items, k)
  {
    if forall k :: 0 <= k < |items| ==> NumberIsNew(items, k) {
      forall i, j | 0 <= i < j < |items| ensures items[i].studentNumber != items[j].studentNumber {
        assert NumberIsNew(items, j);
      }
    }
  }

  /** A row that is saved was free. */
  lemma SavedMeansFree(t: Tables, st: EnrollState, job: Job, year: Year, classes: seq<ClassItem>, items: seq<StudentItem>, n: nat)
    requires ValidTables(t) && StudentsAreDistinct(items) && n < |items|
    requires EnrollSound(t, st, job, year, classes, items[..n])
    requires EnrollOne(t.enrollments, st, job, year, classes, items[n]).Some?
    ensures Unhindered(t, job, year, items, n) && NumberIsNew(items, n)
  {
    var key := StudentKeyOf(job, items[n]);
    var latest := Latest(t.enrollments, key, year.id);
    var id := if latest.Some? then latest.value else st.nextId;
    var row := EnrollmentRow(job, year, classes, items[n], st.clock);
    forall k | 0 <= k < n ensures items[..n][k].nationalId != items[n].nationalId {
      assert items[..n][k] == items[k];
    }
    FreshForOthers(t, st, job, year, classes, items[..n], items[n]);
    forall m | 0 <= m < n ensures items[m].studentNumber != items[n].studentNumber {
      assert EnrolledAs(t, st, job, year, classes, items[..n][m], st.ids[m]);
      assert items[..n][m] == items[m];
      assert !Conflict(row, st.enrollments[st.ids[m]]);
    }
    forall j | j in t.enrollments && latest != Some(j) && Live(t.enrollments[j]) && t.enrollments[j].year == year.id
      ensures t.enrollments[j].student != key
      ensures t.enrollments[j].school == job.school && t.enrollments[j].studentNumber == items[n].studentNumber
              ==> RewrittenBefore(t, job, year, items, n, j)
    {
      if j in st.ids {
        var m :| 0 <= m < |st.ids| && st.ids[m] == j;
        assert EnrolledAs(t, st, job, year, classes, items[..n][m], j);
        assert items[..n][m] == items[m];
        assert Latest(t.enrollments, StudentKeyOf(job, items[m]), year.id) == Some(j);
        assert IsLatest(t.enrollments, StudentKeyOf(job, items[m]), year.id, j);
      } else {
        assert st.enrollments[j] == t.enrollments[j];
        assert !Conflict(row, st.enrollments[j]);
      }
    }
  }

  /** One more row is saved exactly when it is free. */
  lemma OneMoreIsSaved(t: Tables, job: Job, year: Year, classes: seq<ClassItem>, items: seq<StudentItem>, n: nat)
    requires ValidTables(t) && StudentsAreDistinct(items) && n < |items|
    ensures PutEnrollments(t, job, year, classes, items[..n + 1]).Some?
       <==> PutEnrollments(t, job, year, classes, items[..n]).Some? && Unhindered(t, job, year, items, n) && NumberIsNew(items, n)
  {
    assert items[..n + 1][..n] == items[..n];
    var front := PutEnrollments(t, job, year, classes, items[..n]);
    if front.Some? {
      EnrollmentsPut(t, job, year, classes, items[..n]);
      if EnrollOne(t.enrollments, front.value, job, year, classes, items[n]).Some? {
        SavedMeansFree(t, front.value, job, year, classes, items, n);
      }
      if Unhindered(t, job, year, items, n) && NumberIsNew(items, n) {
        FreeIsSaved(t, front.value, job, year, classes, items, n);
      }
    }
  }

  /** When one more step succeeds exactly under its own condition, all do under all. */
  lemma {:induction false} AllSucceed(succeeds: seq<bool>, free: seq<bool>, n: nat)
    requires n <= |free| && |succeeds| == |free| + 1 && succeeds[0]
    requires forall k :: 0 <= k < |free| ==> (succeeds[k + 1] <==> succeeds[k] && free[k])
    ensures succeeds[n] <==> forall k :: 0 <= k < n ==> free[k]
  {
    if n > 0 {
      AllSucceed(succeeds, free, n - 1);
      assert succeeds[n - 1 + 1] == succeeds[n];
    }
  }

  lemma EnrollingSucceedsExactly(t: Tables, job: Job, year: Year, classes: seq<ClassItem>, items: seq<StudentItem>)
    requires ValidTables(t) && StudentsAreDistinct(items)
    ensures PutEnrollments(t, job, year, classes, items).Some?
       <==> forall k :: 0 <= k < |items| ==> Unhindered(t, job, year, items, k) && NumberIsNew(items, k)
  {
    var succeeds := seq(|items| + 1, n requires 0 <= n <= |items| => PutEnrollments(t, job, year, classes, items[..n]).Some?);
    var free := seq(|items|, k requires 0 <= k < |items| => Unhindered(t, job, year, items, k) && NumberIsNew(items, k));
    forall k | 0 <= k < |items| ensures succeeds[k + 1] <==> succeeds[k] && free[k] {
      OneMoreIsSaved(t, job, year, classes, items, k);
    }
    AllSucceed(succeeds, free, |items|);
    assert items[..|items|] == items && succeeds[|items|] == PutEnrollments(t, job, year, classes, items).Some?;
    assert forall k :: 0 <= k < |items| ==> (free[k] <==> Unhindered(t, job, year, items, k) && NumberIsNew(items, k));
  }

  lemma FreeIsSaved(t: Tables, st: EnrollState, job: Job, year: Year, classes: seq<ClassItem>, items: seq<StudentItem>, n: nat)
    requires ValidTables(t) && StudentsAreDistinct(items) && n < |items|
    requires EnrollSound(t, st, job, year, classes, items[..n])
    requires Unhindered(t, job, year, items, n) && NumberIsNew(items, n)
    ensures EnrollOne(t.enrollments, st, job, year, classes, items[n]).Some?
  {
    var latest := Latest(t.enrollments, StudentKeyOf(job, items[n]), year.id);
    var id := if latest.Some? then latest.value else st.nextId;
    forall j | j in st.enrollments && j != id
      ensures !Conflict(EnrollmentRow(job, year, classes, items[n], st.clock), st.enrollments[j])
    {
      FreeMeansNoClash(t, st, job, year, classes, items, n, id, j);
    }
  }

  /** No more active enrollments in the class than it has places. */
  predicate HasRoom(es: Enrollments, key: ClassKey, capacity: nat) {
    |set id | id in es && es[id].classSection == key && es[id].year == key.year && es[id].status.Active? && !es[id].deleted| <= capacity
  }

  lemma RoomIsForTheActive(es: Enrollments, key: ClassKey, capacity: nat)
    ensures HasRoom(es, key, capacity) <==> |ActiveIn(es, key)| <= capacity
  {
    assert (set id | id in es && es[id].classSection == key && es[id].year == key.year && es[id].status.Active? && !es[id].deleted)
        == ActiveIn(es, key);
  }

  /** An import succeeds exactly when the student numbers of the workbook differ, no student
      is hindered, and no class of the workbook is overfull afterwards. */
  lemma ImportSucceedsExactly(t: Tables, job: Job, p: Prepared)
    requires WellPrepared(p) && ValidTables(t)
    ensures var st := PutEnrollments(t, job, p.year.value, p.classes, p.students);
            Apply(t, job, p).Some?
            <==> && NumbersAreDistinct(p.students)
                 && (forall k :: 0 <= k < |p.students| ==> Unhindered(t, job, p.year.value, p.students, k))
                 && (st.Some? ==> forall c :: 0 <= c < |p.classes| ==>
                       HasRoom(st.value.enrollments, ClassKey(job.school, p.year.value.id, p.classes[c].code), p.classes[c].capacity))
  {
    EnrollingSucceedsExactly(t, job, p.year.value, p.classes, p.students);
    DistinctByRow(p.students);
    var st := PutEnrollments(t, job, p.year.value, p.classes, p.students);
    if st.Some? {
      forall c | 0 <= c < |p.classes|
        ensures var key := ClassKey(job.school, p.year.value.id, p.classes[c].code);
                HasRoom(st.value.enrollments, key, p.classes[c].capacity)
                <==> |ActiveIn(st.value.enrollments, key)| <= p.classes[c].capacity
      {
        RoomIsForTheActive(st.value.enrollments, ClassKey(job.school, p.year.value.id, p.classes[c].code), p.classes[c].capacity);
      }
    }
  }

  // ---------------------------------------------------------------- what is counted

  /** The students of a class are counted one by one. */
  lemma {:induction false} EnrolledAreCounted(students: seq<StudentItem>, code: string, those: set<nat>)
    requires forall k: nat :: k in those <==> k < |students| && students[k].classCode == code
    ensures PreparedWorkbook.Enrolled(students, code) == |those|
  {
    if students == [] {
      assert those == {};
    } else {
      var n := |students| - 1;
      EnrolledAreCounted(students[..n], code, those - {n});
    }
  }

  lemma SizeDecides(scored: set<string>, list: seq<string>)
    requires forall i, j :: 0 <= i < j < |list| ==> list[i] != list[j]
    requires forall code :: code in scored ==> code in list
    ensures |scored| == |list| <==> forall code :: code in list ==> code in scored
  {
    var codes := set code | code in list;
    DistinctCodesAreCounted(list, codes);
    SubsetSize(scored, codes);
    if |scored| == |codes| {
      assert codes == scored + (codes - scored);
    }
    if forall code :: code in list ==> code in scored {
      assert codes == scored;
    }
  }

  lemma {:induction false} DistinctCodesAreCounted(list: seq<string>, codes: set<string>)
    requires forall i, j :: 0 <= i < j < |list| ==> list[i] != list[j]
    requires forall code :: code in codes <==> code in list
    ensures |codes| == |list|
  {
    if list == [] {
      assert codes == {};
    } else {
      var n := |list| - 1;
      DistinctCodesAreCounted(list[..n], codes - {list[n]});
    }
  }

  predicate HasEveryCode(item: EvaluationItem) {
    forall code :: code in Codes(item.framework) ==> code in item.metrics
  }

  lemma {:induction false} CompleteAreCounted(items: seq<EvaluationItem>, those: set<nat>)
    requires forall k: nat :: k in those <==> k < |items| && ImportReport.Complete(items[k])
    ensures ImportReport.CompleteCount(items) == |those|
  {
    if items == [] {
      assert those == {};
    } else {
      var n := |items| - 1;
      CompleteAreCounted(items[..n], those - {n});
    }
  }

  lemma CompleteExactly(item: EvaluationItem)
    requires forall code :: code in item.metrics ==> code in Codes(item.framework)
    ensures ImportReport.Complete(item) <==> HasEveryCode(item)
  {
    CatalogFacts(item.framework);
    SizeDecides(item.metrics.Keys, Codes(item.framework));
  }

  predicate KnowsItsCodes(item: EvaluationItem) {
    forall code :: code in item.metrics ==> code in Codes(item.framework)
  }

  lemma FinalsAreCounted(items: seq<EvaluationItem>, finals: set<nat>)
    requires forall k :: 0 <= k < |items| ==> KnowsItsCodes(items[k])
    requires forall k: nat :: k in finals <==> k < |items| && HasEveryCode(items[k])
    ensures ImportReport.CompleteCount(items) == |finals|
  {
    forall k: nat | k < |items| ensures ImportReport.Complete(items[k]) <==> HasEveryCode(items[k]) {
      assert KnowsItsCodes(items[k]);
      CompleteExactly(items[k]);
    }
    CompleteAreCounted(items, finals);
  }

  /** Reported as final are the evaluations that score every indicator of their version, as
      provisional all others. */
  lemma FinalsScoreEveryIndicator(t: Tables, job: Job, p: Prepared, finals: set<nat>)
    requires WellPrepared(p) && Apply(t, job, p).Some?
    requires forall k: nat :: k in finals <==> k < |p.evaluations| && HasEveryCode(p.evaluations[k])
    ensures ImportReport.SummaryOf(t, job, p).finalEvaluations == |finals|
    ensures ImportReport.SummaryOf(t, job, p).provisionalEvaluations == |p.evaluations| - |finals|
  {
    assert ValuesAreInRange(p);
    FinalsAreCounted(p.evaluations, finals);
  }
}
