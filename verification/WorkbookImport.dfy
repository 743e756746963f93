/** The importer: bulk upserts over the tables in one transaction, and the report made from
    a snapshot taken before. */
module WorkbookImport {
  import opened Options
  import opened MetricCatalog
  import opened PreparedWorkbook
  import opened ImportTables
  import opened ImportProperties
  import opened ImportReport

  lemma OneMoreEvaluation(start: Evaluations, job: Job, ids: seq<nat>, students: seq<StudentItem>, items: seq<EvaluationItem>, i: nat)
    requires |ids| == |students| && Known(students, items) && i < |items|
    ensures var key, front := EvaluationKeyOf(ids, students, items[i]), PutEvaluations(start, job, ids, students, items[..i]);
            && PutEvaluations(start, job, ids, students, items[..i + 1]) == front[key := EvaluationRow(front, key, items[i], job)]
            && EvaluationTally(start, job, ids, students, items[..i + 1])
               == Counted(EvaluationTally(start, job, ids, students, items[..i]), key in front)
  {
    assert items[..i + 1][..i] == items[..i];
  }

  lemma OneMoreCount(items: seq<EvaluationItem>, i: nat)
    requires i < |items|
    ensures Scores(items[..i + 1]) == Scores(items[..i]) + |items[i].metrics.Keys|
    ensures CompleteCount(items[..i + 1]) == CompleteCount(items[..i]) + if Complete(items[i]) then 1 else 0
  {
    assert items[..i + 1][..i] == items[..i];
  }

  /** The scores of one evaluation, written one by one. */
  method UpsertScores(stored: map<string, nat>, metrics: map<string, nat>) returns (scores: map<string, nat>)
    ensures scores == stored + metrics
  {
    scores := stored;
    var codes := metrics.Keys;
    var todo := codes;
    while todo != {}
      invariant todo <= codes
      invariant scores.Keys == stored.Keys + (codes - todo)
      invariant forall c :: c in codes && c !in todo ==> scores[c] == metrics[c]
      invariant forall c :: c in stored && (c in todo || c !in codes) ==> scores[c] == stored[c]
      decreases |todo|
    {
      var code :| code in todo;
      scores := scores[code := metrics[code]];
      todo := todo - {code};
    }
  }

  predicate BelongsTo(e: Enrollment, student: StudentKey, year: nat) {
    e.student == student && e.year == year
  }

  lemma {:induction false} RefusedStudentRefusesAll(t: Tables, job: Job, year: Year, classes: seq<ClassItem>, items: seq<StudentItem>, i: nat)
    requires i < |items| && PutEnrollments(t, job, year, classes, items[..i + 1]) == None
    ensures PutEnrollments(t, job, year, classes, items) == None
    decreases |items|
  {
    var n := |items| - 1;
    if i < n {
      assert items[..n][..i + 1] == items[..i + 1];
      RefusedStudentRefusesAll(t, job, year, classes, items[..n], i);
    } else {
      assert items[..i + 1] == items;
    }
  }

  /** Enrolling looks at nothing but the enrollments. */
  lemma {:induction false} SameEnrollmentsStart(t: Tables, u: Tables, job: Job, year: Year, classes: seq<ClassItem>, items: seq<StudentItem>)
    requires t.enrollments == u.enrollments && t.clock == u.clock && t.nextId == u.nextId
    ensures PutEnrollments(t, job, year, classes, items) == PutEnrollments(u, job, year, classes, items)
  {
    if items != [] {
      SameEnrollmentsStart(t, u, job, year, classes, items[..|items| - 1]);
    }
  }

  class Importer {
    var classes: Classes
    var students: Students
    var enrollments: Enrollments
    var evaluations: Evaluations
    var clock: nat
    var nextId: nat

    function Stored(): Tables
      reads this
    {
      Tables(classes, students, enrollments, evaluations, clock, nextId)
    }

    // -------------------------------------------------------------- upserts

    method UpsertClasses(job: Job, year: Year, items: seq<ClassItem>) returns (tally: Tally)
      modifies this`classes
      ensures classes == PutClasses(old(classes), job, year, items)
      ensures tally == ClassTally(old(classes), job, year, items)
    {
      var existing := classes;
      tally := Tally(0, 0);
      for i := 0 to |items|
        invariant classes == PutClasses(existing, job, year, items[..i])
        invariant tally == ClassTally(existing, job, year, items[..i])
      {
        assert items[..i + 1][..i] == items[..i];
        var item, key := items[i], ClassKeyOf(job, year, items[i]);
        var instance: ClassSection;
        if key !in existing {
          instance := ClassSection(item.title, item.grade.id, item.capacity, true, false);
          tally := tally.(created := tally.created + 1);
        } else {
          instance := existing[key].(deleted := false);
          tally := tally.(updated := tally.updated + 1);
        }
        instance := instance.(title := item.title, grade := item.grade.id, capacity := item.capacity, active := true);
        classes := classes[key := instance];
      }
      assert items[..|items|] == items;
    }

    method UpsertStudents(job: Job, items: seq<StudentItem>) returns (tally: Tally)
      modifies this`students
      ensures students == PutStudents(old(students), job, items)
      ensures tally == StudentTally(old(students), job, items)
    {
      var existing := students;
      tally := Tally(0, 0);
      for i := 0 to |items|
        invariant students == PutStudents(existing, job, items[..i])
        invariant tally == StudentTally(existing, job, items[..i])
      {
        assert items[..i + 1][..i] == items[..i];
        var item, key := items[i], StudentKeyOf(job, items[i]);
        var instance: Student;
        if key !in existing {
          instance := Student(item.firstName, item.lastName, item.birthDate, item.gender, Enrolled, false);
          tally := tally.(created := tally.created + 1);
        } else {
          instance := existing[key].(deleted := false);
          tally := tally.(updated := tally.updated + 1);
        }
        instance := instance.(firstName := item.firstName, lastName := item.lastName, birthDate := item.birthDate,
                              gender := item.gender, status := Enrolled);
        students := students[key := instance];
      }
      assert items[..|items|] == items;
    }

    /** The enrollment saved last, by a scan over the table. */
    method FindLatest(student: StudentKey, year: nat) returns (latest: Option<nat>)
      requires Stamped(enrollments, clock)
      ensures latest == Latest(enrollments, student, year)
    {
      latest := None;
      var todo := enrollments.Keys;
      while todo != {}
        invariant todo <= enrollments.Keys
        invariant latest.None? ==> forall j :: j in enrollments && j !in todo ==> !BelongsTo(enrollments[j], student, year)
        invariant latest.Some? ==> latest.value in enrollments && BelongsTo(enrollments[latest.value], student, year)
        invariant latest.Some? ==> forall j :: j in enrollments && j !in todo && BelongsTo(enrollments[j], student, year)
                                     ==> enrollments[j].updatedAt <= enrollments[latest.value].updatedAt
        decreases |todo|
      {
        var i :| i in todo;
        todo := todo - {i};
        if BelongsTo(enrollments[i], student, year)
           && (latest.None? || enrollments[latest.value].updatedAt < enrollments[i].updatedAt) {
          latest := Some(i);
        }
      }
      if latest.Some? {
        LatestIsUnique(enrollments, clock, student, year, latest.value);
      }
    }

    /** The existing enrollments of the students of a workbook. */
    method FindExisting(job: Job, year: Year, items: seq<StudentItem>) returns (existing: seq<Option<nat>>)
      requires Stamped(enrollments, clock)
      ensures |existing| == |items|
      ensures forall i :: 0 <= i < |items| ==> existing[i] == Latest(enrollments, StudentKeyOf(job, items[i]), year.id)
    {
      existing := [];
      for i := 0 to |items|
        invariant |existing| == i
        invariant forall j :: 0 <= j < i ==> existing[j] == Latest(enrollments, StudentKeyOf(job, items[j]), year.id)
      {
        var latest := FindLatest(StudentKeyOf(job, items[i]), year.id);
        existing := existing + [latest];
      }
    }

    /** Enrolls one student on top of what was enrolled before. */
    method EnrollStudent(job: Job, year: Year, classItems: seq<ClassItem>, item: StudentItem, ghost start: Enrollments,
                         ghost ids: seq<nat>, existing: Option<nat>, instance: Option<Enrollment>) returns (id: Option<nat>)
      requires existing == Latest(start, StudentKeyOf(job, item), year.id)
      requires instance == if existing.Some? && existing.value in start then Some(start[existing.value]) else None
      requires existing.Some? ==> existing.value in start
      modifies this`enrollments, this`clock, this`nextId
      ensures var st := EnrollState(old(enrollments), ids, old(clock), old(nextId));
              var after := EnrollOne(start, st, job, year, classItems, item);
              && (id.Some? <==> after.Some?)
              && (id.Some? ==> after.value == EnrollState(enrollments, ids + [id.value], clock, nextId))
    {
      var target: nat;
      if existing.None? {
        target := nextId;
      } else {
        if OtherSchool(instance.value, job) {
          return None;
        }
        target := existing.value;
      }
      var row := EnrollmentRow(job, year, classItems, item, clock);
      if Clashes(enrollments, target, row) {
        return None;
      }
      enrollments := enrollments[target := row];
      clock := clock + 1;
      if existing.None? {
        nextId := nextId + 1;
      }
      return Some(target);
    }

    method UpsertEnrollments(job: Job, year: Year, classItems: seq<ClassItem>, items: seq<StudentItem>)
      returns (ok: bool, ids: seq<nat>, tally: Tally)
      requires Stamped(enrollments, clock)
      modifies this`enrollments, this`clock, this`nextId
      ensures var st := PutEnrollments(old(Stored()), job, year, classItems, items);
              && (ok <==> st.Some?)
              && (ok ==> st.value == EnrollState(enrollments, ids, clock, nextId)
                         && tally == EnrollmentTally(old(enrollments), job, year, items))
    {
      ghost var t := Stored();
      var start := enrollments;
      var existing := FindExisting(job, year, items);
      ok, ids, tally := true, [], Tally(0, 0);
      for i := 0 to |items|
        invariant ok
        invariant PutEnrollments(t, job, year, classItems, items[..i]) == Some(EnrollState(enrollments, ids, clock, nextId))
        invariant tally == EnrollmentTally(start, job, year, items[..i])
      {
        assert items[..i + 1][..i] == items[..i];
        var instance := if existing[i].Some? && existing[i].value in start then Some(start[existing[i].value]) else None;
        var id := EnrollStudent(job, year, classItems, items[i], start, ids, existing[i], instance);
        if id.None? {
          RefusedStudentRefusesAll(t, job, year, classItems, items, i);
          return false, ids, tally;
        }
        ids := ids + [id.value];
        if existing[i].None? {
          tally := tally.(created := tally.created + 1);
        } else {
          tally := tally.(updated := tally.updated + 1);
        }
      }
      assert items[..|items|] == items;
    }

    method CheckCapacity(job: Job, year: Year, items: seq<ClassItem>) returns (ok: bool)
      ensures ok <==> WithinCapacity(enrollments, job, year, items)
    {
      for i := 0 to |items|
        invariant forall j :: 0 <= j < i ==> |ActiveIn(enrollments, ClassKeyOf(job, year, items[j]))| <= items[j].capacity
      {
        if |ActiveIn(enrollments, ClassKeyOf(job, year, items[i]))| > items[i].capacity {
          return false;
        }
      }
      return true;
    }

    /** One evaluation: created or updated, with its scores. */
    method UpsertEvaluation(job: Job, key: EvaluationKey, item: EvaluationItem) returns (existed: bool, upserted: nat)
      modifies this`evaluations
      ensures existed <==> key in old(evaluations)
      ensures evaluations == old(evaluations)[key := EvaluationRow(old(evaluations), key, item, job)]
      ensures upserted == |item.metrics.Keys|
    {
      existed := key in evaluations;
      var evaluation: Evaluation;
      if !existed {
        evaluation := Evaluation(item.note, job.requestedBy, job.id, map[]);
        assert map[] + item.metrics == item.metrics;
      } else {
        evaluation := evaluations[key].(note := item.note, recordedBy := job.requestedBy, sourceJob := job.id);
      }
      var scores := UpsertScores(evaluation.metrics, item.metrics);
      upserted := |item.metrics.Keys|;
      evaluations := evaluations[key := evaluation.(metrics := scores)];
    }

    /** The next evaluation, with the counters. */
    method UpsertNext(job: Job, ids: seq<nat>, studentItems: seq<StudentItem>, items: seq<EvaluationItem>, i: nat,
                      ghost start: Evaluations, tally: Tally)
      returns (tallied: Tally, more: nat, complete: bool)
      requires |ids| == |studentItems| && Known(studentItems, items) && i < |items|
      requires evaluations == PutEvaluations(start, job, ids, studentItems, items[..i])
      requires tally == EvaluationTally(start, job, ids, studentItems, items[..i])
      modifies this`evaluations
      ensures evaluations == PutEvaluations(start, job, ids, studentItems, items[..i + 1])
      ensures tallied == EvaluationTally(start, job, ids, studentItems, items[..i + 1])
      ensures more == |items[i].metrics.Keys| && complete == Complete(items[i])
    {
      OneMoreEvaluation(start, job, ids, studentItems, items, i);
      var existed;
      existed, more := UpsertEvaluation(job, EvaluationKeyOf(ids, studentItems, items[i]), items[i]);
      if existed {
        tallied := tally.(updated := tally.updated + 1);
      } else {
        tallied := tally.(created := tally.created + 1);
      }
      complete := Complete(items[i]);
    }

    method UpsertEvaluations(job: Job, ids: seq<nat>, studentItems: seq<StudentItem>, items: seq<EvaluationItem>)
      returns (tally: Tally, upserted: nat, finals: nat, provisionals: nat)
      requires |ids| == |studentItems| && Known(studentItems, items)
      modifies this`evaluations
      ensures evaluations == PutEvaluations(old(evaluations), job, ids, studentItems, items)
      ensures tally == EvaluationTally(old(evaluations), job, ids, studentItems, items)
      ensures upserted == Scores(items) && finals == CompleteCount(items) && finals + provisionals == |items|
    {
      ghost var start := evaluations;
      tally, upserted, finals, provisionals := Tally(0, 0), 0, 0, 0;
      for i := 0 to |items|
        invariant evaluations == PutEvaluations(start, job, ids, studentItems, items[..i])
        invariant tally == EvaluationTally(start, job, ids, studentItems, items[..i])
        invariant upserted == Scores(items[..i]) && finals == CompleteCount(items[..i]) && finals + provisionals == i
      {
        OneMoreCount(items, i);
        var more, complete;
        tally, more, complete := UpsertNext(job, ids, studentItems, items, i, start, tally);
        upserted := upserted + more;
        if complete {
          finals := finals + 1;
        } else {
          provisionals := provisionals + 1;
        }
      }
      assert items[..|items|] == items;
    }

    // -------------------------------------------------------------- the snapshot before

    method CountUnchangedClasses(job: Job, year: Year, items: seq<ClassItem>) returns (count: nat)
      ensures count == ClassesUnchanged(classes, job, year, items)
    {
      count := 0;
      for i := 0 to |items|
        invariant count == ClassesUnchanged(classes, job, year, items[..i])
      {
        assert items[..i + 1][..i] == items[..i];
        var item, key := items[i], ClassKeyOf(job, year, items[i]);
        if key in classes && !classes[key].deleted && classes[key].active && classes[key].title == item.title
           && classes[key].grade == item.grade.id && classes[key].capacity == item.capacity {
          count := count + 1;
        }
      }
      assert items[..|items|] == items;
    }

    method CountUnchangedStudents(job: Job, items: seq<StudentItem>) returns (count: nat)
      ensures count == StudentsUnchanged(students, job, items)
    {
      count := 0;
      for i := 0 to |items|
        invariant count == StudentsUnchanged(students, job, items[..i])
      {
        assert items[..i + 1][..i] == items[..i];
        if StudentUnchanged(students, StudentKeyOf(job, items[i]), items[i]) {
          count := count + 1;
        }
      }
      assert items[..|items|] == items;
    }

    method CountUnchangedEnrollments(job: Job, year: Year, classItems: seq<ClassItem>, items: seq<StudentItem>, existing: seq<Option<nat>>)
      returns (count: nat)
      requires |existing| == |items|
      requires forall i :: 0 <= i < |items| ==> existing[i] == Latest(enrollments, StudentKeyOf(job, items[i]), year.id)
      ensures count == EnrollmentsUnchanged(Stored(), job, year, classItems, items)
    {
      ghost var t := Stored();
      count := 0;
      for i := 0 to |items|
        invariant count == EnrollmentsUnchanged(t, job, year, classItems, items[..i])
      {
        assert items[..i + 1][..i] == items[..i];
        if existing[i].Some? && existing[i].value in enrollments
           && RowUnchanged(classes, job, year, classItems, items[i], enrollments[existing[i].value]) {
          count := count + 1;
        }
      }
      assert items[..|items|] == items;
    }

    /** The stored evaluation of an item, if its student has an enrollment. */
    method FindEvaluation(job: Job, year: Year, studentItems: seq<StudentItem>, existing: seq<Option<nat>>, item: EvaluationItem)
      returns (found: Option<Evaluation>)
      requires item.localCode in LocalCodes(studentItems) && |existing| == |studentItems|
      requires forall i :: 0 <= i < |studentItems| ==> existing[i] == Latest(enrollments, StudentKeyOf(job, studentItems[i]), year.id)
      ensures found == StoredEvaluation(Stored(), job, year, studentItems, item)
    {
      var id := existing[IndexOf(studentItems, item.localCode)];
      if id.None? {
        return None;
      }
      var key := EvaluationKey(id.value, item.monthNo, item.framework);
      return if key in evaluations then Some(evaluations[key]) else None;
    }

    method CountEvaluations(job: Job, year: Year, studentItems: seq<StudentItem>, existing: seq<Option<nat>>, items: seq<EvaluationItem>)
      returns (counts: EvaluationCounts)
      requires Known(studentItems, items) && |existing| == |studentItems|
      requires forall i :: 0 <= i < |studentItems| ==> existing[i] == Latest(enrollments, StudentKeyOf(job, studentItems[i]), year.id)
      ensures counts == EvaluationCountsOf(Stored(), job, year, studentItems, items)
    {
      ghost var t := Stored();
      counts := EvaluationCounts(0, 0, 0, 0);
      for i := 0 to |items|
        invariant counts == EvaluationCountsOf(t, job, year, studentItems, items[..i])
      {
        assert items[..i + 1][..i] == items[..i];
        var found := FindEvaluation(job, year, studentItems, existing, items[i]);
        counts := CountEvaluation(counts, found, items[i]);
      }
      assert items[..|items|] == items;
    }

    method SnapshotChangeCounts(job: Job, p: Prepared) returns (before: Snapshot)
      requires WellPrepared(p) && ValidTables(Stored())
      ensures before == SnapshotOf(Stored(), job, p)
    {
      var year := p.year.value;
      var classCount := CountUnchangedClasses(job, year, p.classes);
      var studentCount := CountUnchangedStudents(job, p.students);
      var existing := FindExisting(job, year, p.students);
      var enrollmentCount := CountUnchangedEnrollments(job, year, p.classes, p.students, existing);
      var counts := CountEvaluations(job, year, p.students, existing, p.evaluations);
      before := Snapshot(classCount, studentCount, enrollmentCount, counts);
    }

    // -------------------------------------------------------------- the transaction

    /** Rolls the transaction back. */
    method Restore(saved: Tables)
      modifies this
      ensures Stored() == saved
    {
      classes, students, enrollments, evaluations := saved.classes, saved.students, saved.enrollments, saved.evaluations;
      clock, nextId := saved.clock, saved.nextId;
    }

    /** Applies a validated workbook; a refusal rolls everything back. */
    method ApplyWorkbook(job: Job, p: Prepared) returns (summary: Option<Summary>)
      requires WellPrepared(p) && ValidTables(Stored())
      modifies this
      ensures summary.Some? <==> Apply(old(Stored()), job, p).Some?
      ensures summary.Some? ==> Stored() == Apply(old(Stored()), job, p).value && summary.value == SummaryOf(old(Stored()), job, p)
      ensures summary.None? ==> Stored() == old(Stored())
    {
      var year := p.year.value;
      var saved := Stored();
      var classTally := UpsertClasses(job, year, p.classes);
      var studentTally := UpsertStudents(job, p.students);
      label enrolling:
      var ok, ids, enrollmentTally := UpsertEnrollments(job, year, p.classes, p.students);
      SameEnrollmentsStart(saved, old@enrolling(Stored()), job, year, p.classes, p.students);
      if ok {
        ok := CheckCapacity(job, year, p.classes);
      }
      if !ok {
        Restore(saved);
        return None;
      }
      OneIdEach(saved, job, year, p.classes, p.students);
      var evaluationTally, upserted, finals, provisionals := UpsertEvaluations(job, ids, p.students, p.evaluations);
      return Some(Summary(classTally, studentTally, enrollmentTally, evaluationTally, upserted, finals, provisionals));
    }

    /** Snapshot, apply, and correct the counts of the summary by those of the snapshot. */
    method ApplyHardened(job: Job, p: Prepared) returns (report: Option<Report>)
      requires WellPrepared(p) && ValidTables(Stored())
      modifies this
      ensures report.Some? <==> Apply(old(Stored()), job, p).Some?
      ensures report.None? ==> Stored() == old(Stored())
      ensures report.Some? ==>
                && Stored() == Apply(old(Stored()), job, p).value && ValidTables(Stored())
                && report.value == ReportOf(SummaryOf(old(Stored()), job, p), SnapshotOf(old(Stored()), job, p))
                && AddsUp(report.value, p)
    {
      ghost var t := Stored();
      var before := SnapshotChangeCounts(job, p);
      var summary := ApplyWorkbook(job, p);
      if summary.None? {
        return None;
      }
      ReportAddsUp(t, job, p);
      ApplyKeepsTablesValid(t, job, p);
      return Some(ReportOf(summary.value, before));
    }
  }
}
