/** What an import keeps and achieves: it removes nothing, puts every row of the workbook
    in place within the capacities, and changes nothing when all rows are in place. */
module ImportProperties {
  import opened Options
  import opened MetricCatalog
  import opened PreparedWorkbook
  import opened ImportTables

  // ---------------------------------------------------------------- classes and students

  predicate ClassNamed(job: Job, year: Year, items: seq<ClassItem>, key: ClassKey) {
    exists i :: 0 <= i < |items| && ClassKeyOf(job, year, items[i]) == key
  }

  lemma {:induction false} ClassPutAt(start: Classes, job: Job, year: Year, items: seq<ClassItem>, i: nat)
    requires ClassesAreDistinct(items) && i < |items|
    ensures var key := ClassKeyOf(job, year, items[i]);
            var r := PutClasses(start, job, year, items);
            key in r && r[key] == ClassRow(start, key, items[i])
  {
    var n := |items| - 1;
    if i < n {
      ClassPutAt(start, job, year, items[..n], i);
      assert ClassKeyOf(job, year, items[i]) != ClassKeyOf(job, year, items[n]);
    }
  }

  lemma {:induction false} OtherClassesStay(start: Classes, job: Job, year: Year, items: seq<ClassItem>, key: ClassKey)
    requires !ClassNamed(job, year, items, key)
    ensures var r := PutClasses(start, job, year, items);
            (key in r <==> key in start) && (key in r ==> r[key] == start[key])
  {
    if items != [] {
      var n := |items| - 1;
      assert ClassKeyOf(job, year, items[n]) != key;
      assert forall i :: 0 <= i < n ==> items[..n][i] == items[i];
      OtherClassesStay(start, job, year, items[..n], key);
    }
  }

  predicate StudentNamed(job: Job, items: seq<StudentItem>, key: StudentKey) {
    exists i :: 0 <= i < |items| && StudentKeyOf(job, items[i]) == key
  }

  lemma {:induction false} StudentPutAt(start: Students, job: Job, items: seq<StudentItem>, i: nat)
    requires StudentsAreDistinct(items) && i < |items|
    ensures var key := StudentKeyOf(job, items[i]);
            var r := PutStudents(start, job, items);
            key in r && r[key] == StudentRow(start, key, items[i])
  {
    var n := |items| - 1;
    if i < n {
      StudentPutAt(start, job, items[..n], i);
      assert StudentKeyOf(job, items[i]) != StudentKeyOf(job, items[n]);
    }
  }

  lemma {:induction false} OtherStudentsStay(start: Students, job: Job, items: seq<StudentItem>, key: StudentKey)
    requires !StudentNamed(job, items, key)
    ensures var r := PutStudents(start, job, items);
            (key in r <==> key in start) && (key in r ==> r[key] == start[key])
  {
    if items != [] {
      var n := |items| - 1;
      assert StudentKeyOf(job, items[n]) != key;
      assert forall i :: 0 <= i < n ==> items[..n][i] == items[i];
      OtherStudentsStay(start, job, items[..n], key);
    }
  }

  // ---------------------------------------------------------------- enrollments

  /** The row under an id is the one an import writes for a student. */
  ghost predicate EnrolledAs(t: Tables, st: EnrollState, job: Job, year: Year, classes: seq<ClassItem>, item: StudentItem, id: nat) {
    && id in st.enrollments && st.enrollments[id].updatedAt >= t.clock
    && st.enrollments[id] == EnrollmentRow(job, year, classes, item, st.enrollments[id].updatedAt)
    && var existing := Latest(t.enrollments, StudentKeyOf(job, item), year.id);
       if existing.Some? then id == existing.value else t.nextId <= id < st.nextId
  }

  ghost predicate EnrollSound(t: Tables, st: EnrollState, job: Job, year: Year, classes: seq<ClassItem>, items: seq<StudentItem>) {
    && |st.ids| == |items| && t.clock <= st.clock && t.nextId <= st.nextId
    && Stamped(st.enrollments, st.clock) && UniqueActive(st.enrollments)
    && (forall i :: i in st.enrollments ==> i < st.nextId)
    && (forall k :: 0 <= k < |items| ==> EnrolledAs(t, st, job, year, classes, items[k], st.ids[k]))
    && (forall i :: i !in st.ids ==> (i in st.enrollments <==> i in t.enrollments))
    && (forall i :: i in st.enrollments && i !in st.ids ==> st.enrollments[i] == t.enrollments[i])
  }

  lemma FreshForOthers(t: Tables, st: EnrollState, job: Job, year: Year, classes: seq<ClassItem>, items: seq<StudentItem>, item: StudentItem)
    requires ValidTables(t) && EnrollSound(t, st, job, year, classes, items)
    requires forall k :: 0 <= k < |items| ==> items[k].nationalId != item.nationalId
    ensures var existing := Latest(t.enrollments, StudentKeyOf(job, item), year.id);
            (if existing.Some? then existing.value else st.nextId) !in st.ids
  {
    var existing := Latest(t.enrollments, StudentKeyOf(job, item), year.id);
    var id := if existing.Some? then existing.value else st.nextId;
    forall k | 0 <= k < |items| ensures st.ids[k] != id {
      assert EnrolledAs(t, st, job, year, classes, items[k], st.ids[k]);
      if existing.Some? {
        assert IsLatest(t.enrollments, StudentKeyOf(job, item), year.id, id);
      }
    }
  }

  lemma StampedSave(es: Enrollments, clock: nat, id: nat, row: Enrollment)
    requires Stamped(es, clock) && row.updatedAt == clock
    ensures Stamped(es[id := row], clock + 1)
  {
  }

  lemma UniqueSave(es: Enrollments, id: nat, row: Enrollment)
    requires UniqueActive(es) && !Clashes(es, id, row)
    ensures UniqueActive(es[id := row])
  {
    var saved := es[id := row];
    forall i, j | i in saved && j in saved && i != j ensures !Conflict(saved[i], saved[j]) {
      if i == id {
        assert !Conflict(row, es[j]);
      } else if j == id {
        assert !Conflict(row, es[i]);
      }
    }
  }

  lemma EnrollOneKeeps(t: Tables, st: EnrollState, job: Job, year: Year, classes: seq<ClassItem>, items: seq<StudentItem>, item: StudentItem)
    requires ValidTables(t) && EnrollSound(t, st, job, year, classes, items)
    requires forall k :: 0 <= k < |items| ==> items[k].nationalId != item.nationalId
    requires EnrollOne(t.enrollments, st, job, year, classes, item).Some?
    ensures EnrollSound(t, EnrollOne(t.enrollments, st, job, year, classes, item).value, job, year, classes, items + [item])
  {
    var after := EnrollOne(t.enrollments, st, job, year, classes, item).value;
    var id := after.ids[|items|];
    var row := EnrollmentRow(job, year, classes, item, st.clock);
    FreshForOthers(t, st, job, year, classes, items, item);
    StampedSave(st.enrollments, st.clock, id, row);
    UniqueSave(st.enrollments, id, row);
    forall k | 0 <= k < |items| + 1 ensures EnrolledAs(t, after, job, year, classes, (items + [item])[k], after.ids[k]) {
      if k < |items| {
        assert EnrolledAs(t, st, job, year, classes, items[k], st.ids[k]);
        assert after.ids[k] == st.ids[k] != id;
      }
    }
  }

  lemma NothingEnrolledYet(t: Tables, job: Job, year: Year, classes: seq<ClassItem>)
    requires ValidTables(t)
    ensures EnrollSound(t, EnrollState(t.enrollments, [], t.clock, t.nextId), job, year, classes, [])
  {
  }

  lemma LastIsEnrolled(t: Tables, job: Job, year: Year, classes: seq<ClassItem>, items: seq<StudentItem>)
    requires items != [] && PutEnrollments(t, job, year, classes, items).Some?
    ensures var n := |items| - 1;
            var st := PutEnrollments(t, job, year, classes, items[..n]);
            st.Some? && PutEnrollments(t, job, year, classes, items) == EnrollOne(t.enrollments, st.value, job, year, classes, items[n])
  {
  }

  lemma LastKeeps(t: Tables, job: Job, year: Year, classes: seq<ClassItem>, items: seq<StudentItem>)
    requires ValidTables(t) && StudentsAreDistinct(items) && items != []
    requires PutEnrollments(t, job, year, classes, items).Some?
    requires var st := PutEnrollments(t, job, year, classes, items[..|items| - 1]);
             st.Some? ==> EnrollSound(t, st.value, job, year, classes, items[..|items| - 1])
    ensures EnrollSound(t, PutEnrollments(t, job, year, classes, items).value, job, year, classes, items)
  {
    var n := |items| - 1;
    LastIsEnrolled(t, job, year, classes, items);
    EnrollOneKeeps(t, PutEnrollments(t, job, year, classes, items[..n]).value, job, year, classes, items[..n], items[n]);
    assert items[..n] + [items[n]] == items;
  }

  lemma {:induction false} EnrollmentsPut(t: Tables, job: Job, year: Year, classes: seq<ClassItem>, items: seq<StudentItem>)
    requires ValidTables(t) && StudentsAreDistinct(items)
    ensures var st := PutEnrollments(t, job, year, classes, items);
            st.Some? ==> EnrollSound(t, st.value, job, year, classes, items)
  {
    if items == [] {
      NothingEnrolledYet(t, job, year, classes);
    } else {
      var n := |items| - 1;
      EnrollmentsPut(t, job, year, classes, items[..n]);
      if PutEnrollments(t, job, year, classes, items).Some? {
        LastKeeps(t, job, year, classes, items);
      }
    }
  }

  /** After the import the row it wrote is the latest one of its student. */
  lemma WrittenIsLatest(t: Tables, st: EnrollState, job: Job, year: Year, classes: seq<ClassItem>, items: seq<StudentItem>, k: nat)
    requires ValidTables(t) && StudentsAreDistinct(items) && EnrollSound(t, st, job, year, classes, items) && k < |items|
    ensures Latest(st.enrollments, StudentKeyOf(job, items[k]), year.id) == Some(st.ids[k])
  {
    var id, key := st.ids[k], StudentKeyOf(job, items[k]);
    assert EnrolledAs(t, st, job, year, classes, items[k], id);
    forall j | j in st.enrollments && st.enrollments[j].student == key && st.enrollments[j].year == year.id
      ensures st.enrollments[j].updatedAt <= st.enrollments[id].updatedAt
    {
      if j in st.ids {
        var m :| 0 <= m < |st.ids| && st.ids[m] == j;
        assert EnrolledAs(t, st, job, year, classes, items[m], j);
        assert m == k;
      } else {
        assert st.enrollments[j] == t.enrollments[j];
      }
    }
    LatestIsUnique(st.enrollments, st.clock, key, year.id, id);
  }

  // ---------------------------------------------------------------- evaluations

  predicate EvaluationNamed(ids: seq<nat>, students: seq<StudentItem>, items: seq<EvaluationItem>, key: EvaluationKey)
    requires |ids| == |students| && Known(students, items)
  {
    exists i :: 0 <= i < |items| && EvaluationKeyOf(ids, students, items[i]) == key
  }

  predicate DistinctIds(ids: seq<nat>) {
    forall i, j :: 0 <= i < j < |ids| ==> ids[i] != ids[j]
  }

  lemma EvaluationKeysDiffer(ids: seq<nat>, students: seq<StudentItem>, items: seq<EvaluationItem>, i: nat, j: nat)
    requires |ids| == |students| && Known(students, items) && DistinctIds(ids)
    requires EvaluationsAreDistinct(items) && i < j < |items|
    ensures EvaluationKeyOf(ids, students, items[i]) != EvaluationKeyOf(ids, students, items[j])
  {
    var a, b := IndexOf(students, items[i].localCode), IndexOf(students, items[j].localCode);
    if items[i].localCode != items[j].localCode {
      assert a != b;
      assert ids[a] != ids[b];
    }
  }

  lemma {:induction false} EvaluationPutAt(start: Evaluations, job: Job, ids: seq<nat>, students: seq<StudentItem>,
                                           items: seq<EvaluationItem>, i: nat)
    requires |ids| == |students| && Known(students, items) && DistinctIds(ids)
    requires EvaluationsAreDistinct(items) && i < |items|
    ensures var key := EvaluationKeyOf(ids, students, items[i]);
            var r := PutEvaluations(start, job, ids, students, items);
            key in r && r[key] == EvaluationRow(start, key, items[i], job)
  {
    var n := |items| - 1;
    if i < n {
      EvaluationPutAt(start, job, ids, students, items[..n], i);
      EvaluationKeysDiffer(ids, students, items, i, n);
    } else {
      var key := EvaluationKeyOf(ids, students, items[n]);
      forall j | 0 <= j < n ensures EvaluationKeyOf(ids, students, items[..n][j]) != key {
        EvaluationKeysDiffer(ids, students, items, j, n);
      }
      OtherEvaluationsStay(start, job, ids, students, items[..n], key);
    }
  }

  lemma {:induction false} OtherEvaluationsStay(start: Evaluations, job: Job, ids: seq<nat>, students: seq<StudentItem>,
                                                items: seq<EvaluationItem>, key: EvaluationKey)
    requires |ids| == |students| && Known(students, items) && !EvaluationNamed(ids, students, items, key)
    ensures var r := PutEvaluations(start, job, ids, students, items);
            (key in r <==> key in start) && (key in r ==> r[key] == start[key])
  {
    if items != [] {
      var n := |items| - 1;
      assert EvaluationKeyOf(ids, students, items[n]) != key;
      assert forall i :: 0 <= i < n ==> items[..n][i] == items[i];
      OtherEvaluationsStay(start, job, ids, students, items[..n], key);
    }
  }

  lemma EnrolledIdsDiffer(t: Tables, st: EnrollState, job: Job, year: Year, classes: seq<ClassItem>, items: seq<StudentItem>)
    requires StudentsAreDistinct(items) && EnrollSound(t, st, job, year, classes, items)
    ensures DistinctIds(st.ids)
  {
    forall i, j | 0 <= i < j < |st.ids| ensures st.ids[i] != st.ids[j] {
      assert EnrolledAs(t, st, job, year, classes, items[i], st.ids[i]);
      assert EnrolledAs(t, st, job, year, classes, items[j], st.ids[j]);
      assert StudentKeyOf(job, items[i]) != StudentKeyOf(job, items[j]);
    }
  }

  // ---------------------------------------------------------------- rows in place

  predicate ClassInPlace(classes: Classes, job: Job, year: Year, item: ClassItem) {
    var key := ClassKeyOf(job, year, item);
    key in classes && classes[key] == ClassSection(item.title, item.grade.id, item.capacity, true, false)
  }

  predicate StudentInPlace(students: Students, job: Job, item: StudentItem) {
    var key := StudentKeyOf(job, item);
    key in students && students[key] == Student(item.firstName, item.lastName, item.birthDate, item.gender, Enrolled, false)
  }

  /** The latest enrollment of the student is the one of the workbook. */
  ghost predicate EnrollmentInPlace(es: Enrollments, job: Job, year: Year, classes: seq<ClassItem>, item: StudentItem) {
    var id := Latest(es, StudentKeyOf(job, item), year.id);
    id.Some? && id.value in es && es[id.value] == EnrollmentRow(job, year, classes, item, es[id.value].updatedAt)
  }

  /** The note is the one of the workbook and its scores are among the stored ones. */
  predicate Holds(row: Evaluation, item: EvaluationItem) {
    row.note == item.note && forall code :: code in item.metrics ==> code in row.metrics && row.metrics[code] == item.metrics[code]
  }

  ghost predicate IdsOf(es: Enrollments, job: Job, year: Year, students: seq<StudentItem>, ids: seq<nat>) {
    |ids| == |students| && forall k :: 0 <= k < |ids| ==> Latest(es, StudentKeyOf(job, students[k]), year.id) == Some(ids[k])
  }

  predicate EvaluationsInPlace(evaluations: Evaluations, ids: seq<nat>, students: seq<StudentItem>, items: seq<EvaluationItem>)
    requires |ids| == |students| && Known(students, items)
  {
    forall i :: 0 <= i < |items| ==>
      var key := EvaluationKeyOf(ids, students, items[i]);
      key in evaluations && Holds(evaluations[key], items[i])
  }

  /** Every row of the workbook is stored as the workbook says; `ids` are the enrollments. */
  ghost predicate InPlace(t: Tables, job: Job, p: Prepared, ids: seq<nat>)
    requires WellPrepared(p)
  {
    var year := p.year.value;
    && (forall i :: 0 <= i < |p.classes| ==> ClassInPlace(t.classes, job, year, p.classes[i]))
    && (forall i :: 0 <= i < |p.students| ==> StudentInPlace(t.students, job, p.students[i]))
    && (forall i :: 0 <= i < |p.students| ==> EnrollmentInPlace(t.enrollments, job, year, p.classes, p.students[i]))
    && IdsOf(t.enrollments, job, year, p.students, ids)
    && EvaluationsInPlace(t.evaluations, ids, p.students, p.evaluations)
    && WithinCapacity(t.enrollments, job, year, p.classes)
  }

  lemma EnrollmentsAreInPlace(t: Tables, st: EnrollState, job: Job, year: Year, classes: seq<ClassItem>, items: seq<StudentItem>)
    requires ValidTables(t) && StudentsAreDistinct(items) && EnrollSound(t, st, job, year, classes, items)
    ensures forall i :: 0 <= i < |items| ==> EnrollmentInPlace(st.enrollments, job, year, classes, items[i])
    ensures IdsOf(st.enrollments, job, year, items, st.ids)
  {
    forall k | 0 <= k < |items|
      ensures EnrollmentInPlace(st.enrollments, job, year, classes, items[k])
      ensures Latest(st.enrollments, StudentKeyOf(job, items[k]), year.id) == Some(st.ids[k])
    {
      assert EnrolledAs(t, st, job, year, classes, items[k], st.ids[k]);
      WrittenIsLatest(t, st, job, year, classes, items, k);
    }
  }

  /** After a successful import all rows of the workbook are in place, and every class of
      the workbook is within its capacity. */
  lemma AppliedIsInPlace(t: Tables, job: Job, p: Prepared) returns (ids: seq<nat>)
    requires WellPrepared(p) && ValidTables(t) && Apply(t, job, p).Some?
    ensures InPlace(Apply(t, job, p).value, job, p, ids)
  {
    var year := p.year.value;
    var st := PutEnrollments(t, job, year, p.classes, p.students).value;
    EnrollmentsPut(t, job, year, p.classes, p.students);
    EnrollmentsAreInPlace(t, st, job, year, p.classes, p.students);
    EnrolledIdsDiffer(t, st, job, year, p.classes, p.students);
    ids := st.ids;
    forall i | 0 <= i < |p.classes| ensures ClassInPlace(PutClasses(t.classes, job, year, p.classes), job, year, p.classes[i]) {
      ClassPutAt(t.classes, job, year, p.classes, i);
    }
    forall i | 0 <= i < |p.students| ensures StudentInPlace(PutStudents(t.students, job, p.students), job, p.students[i]) {
      StudentPutAt(t.students, job, p.students, i);
    }
    EvaluationsArePut(t.evaluations, job, ids, p.students, p.evaluations);
  }

  lemma EvaluationsArePut(start: Evaluations, job: Job, ids: seq<nat>, students: seq<StudentItem>, items: seq<EvaluationItem>)
    requires |ids| == |students| && Known(students, items) && DistinctIds(ids) && EvaluationsAreDistinct(items)
    ensures EvaluationsInPlace(PutEvaluations(start, job, ids, students, items), ids, students, items)
  {
    forall i | 0 <= i < |items|
      ensures var key := EvaluationKeyOf(ids, students, items[i]);
              var r := PutEvaluations(start, job, ids, students, items);
              key in r && Holds(r[key], items[i])
    {
      EvaluationPutAt(start, job, ids, students, items, i);
    }
  }

  // ---------------------------------------------------------------- importing again

  predicate SameEnrollments(a: Enrollments, b: Enrollments) {
    a.Keys == b.Keys && forall i :: i in a ==> a[i].(updatedAt := 0) == b[i].(updatedAt := 0)
  }

  predicate SameEvaluations(a: Evaluations, b: Evaluations) {
    a.Keys == b.Keys && forall k :: k in a ==> a[k].note == b[k].note && a[k].metrics == b[k].metrics
  }

  /** Equal tables, save times and the origin of evaluations aside. */
  predicate SameTables(a: Tables, b: Tables) {
    && a.classes == b.classes && a.students == b.students
    && SameEnrollments(a.enrollments, b.enrollments) && SameEvaluations(a.evaluations, b.evaluations)
  }

  lemma {:induction false} ClassesAreFixed(start: Classes, job: Job, year: Year, items: seq<ClassItem>)
    requires forall i :: 0 <= i < |items| ==> ClassInPlace(start, job, year, items[i])
    ensures PutClasses(start, job, year, items) == start
  {
    if items != [] {
      assert ClassInPlace(start, job, year, items[|items| - 1]);
      ClassesAreFixed(start, job, year, items[..|items| - 1]);
    }
  }

  lemma {:induction false} StudentsAreFixed(start: Students, job: Job, items: seq<StudentItem>)
    requires forall i :: 0 <= i < |items| ==> StudentInPlace(start, job, items[i])
    ensures PutStudents(start, job, items) == start
  {
    if items != [] {
      assert StudentInPlace(start, job, items[|items| - 1]);
      StudentsAreFixed(start, job, items[..|items| - 1]);
    }
  }

  lemma NoClashInPlace(start: Enrollments, now: Enrollments, id: nat, row: Enrollment)
    requires UniqueActive(start) && SameEnrollments(now, start) && id in start
    requires row.(updatedAt := 0) == start[id].(updatedAt := 0)
    ensures !Clashes(now, id, row) && SameEnrollments(now[id := row], start)
  {
    forall j | j in now && j != id ensures !Conflict(row, now[j]) {
      assert !Conflict(start[id], start[j]);
      assert now[j].(updatedAt := 0) == start[j].(updatedAt := 0);
    }
  }

  lemma EnrollOneIsFixed(t: Tables, st: EnrollState, job: Job, year: Year, classes: seq<ClassItem>, item: StudentItem)
    requires ValidTables(t) && SameEnrollments(st.enrollments, t.enrollments)
    requires EnrollmentInPlace(t.enrollments, job, year, classes, item)
    ensures var after := EnrollOne(t.enrollments, st, job, year, classes, item);
            && after.Some? && SameEnrollments(after.value.enrollments, t.enrollments)
            && after.value.ids == st.ids + [Latest(t.enrollments, StudentKeyOf(job, item), year.id).value]
  {
    var id := Latest(t.enrollments, StudentKeyOf(job, item), year.id).value;
    NoClashInPlace(t.enrollments, st.enrollments, id, EnrollmentRow(job, year, classes, item, st.clock));
  }

  lemma OneMoreId(es: Enrollments, job: Job, year: Year, items: seq<StudentItem>, ids: seq<nat>, id: nat)
    requires items != [] && IdsOf(es, job, year, items[..|items| - 1], ids)
    requires Latest(es, StudentKeyOf(job, items[|items| - 1]), year.id) == Some(id)
    ensures IdsOf(es, job, year, items, ids + [id])
  {
    forall k | 0 <= k < |items| - 1
      ensures Latest(es, StudentKeyOf(job, items[k]), year.id) == Some((ids + [id])[k])
    {
      assert items[..|items| - 1][k] == items[k];
    }
  }

  lemma {:induction false} EnrollmentsAreFixed(t: Tables, job: Job, year: Year, classes: seq<ClassItem>, items: seq<StudentItem>)
    requires ValidTables(t)
    requires forall i :: 0 <= i < |items| ==> EnrollmentInPlace(t.enrollments, job, year, classes, items[i])
    ensures var st := PutEnrollments(t, job, year, classes, items);
            st.Some? && SameEnrollments(st.value.enrollments, t.enrollments) && IdsOf(t.enrollments, job, year, items, st.value.ids)
  {
    if items != [] {
      var n := |items| - 1;
      assert EnrollmentInPlace(t.enrollments, job, year, classes, items[n]);
      EnrollmentsAreFixed(t, job, year, classes, items[..n]);
      var st := PutEnrollments(t, job, year, classes, items[..n]).value;
      EnrollOneIsFixed(t, st, job, year, classes, items[n]);
      OneMoreId(t.enrollments, job, year, items, st.ids, Latest(t.enrollments, StudentKeyOf(job, items[n]), year.id).value);
    }
  }

  lemma SameOccupancy(a: Enrollments, b: Enrollments, key: ClassKey)
    requires SameEnrollments(a, b)
    ensures ActiveIn(a, key) == ActiveIn(b, key)
  {
    forall i | i in a ensures Live(a[i]) == Live(b[i]) && a[i].classSection == b[i].classSection && a[i].year == b[i].year {
      assert a[i].(updatedAt := 0) == b[i].(updatedAt := 0);
    }
  }

  lemma {:induction false} EvaluationsAreFixed(start: Evaluations, job: Job, ids: seq<nat>, students: seq<StudentItem>, items: seq<EvaluationItem>)
    requires |ids| == |students| && Known(students, items) && EvaluationsInPlace(start, ids, students, items)
    ensures SameEvaluations(PutEvaluations(start, job, ids, students, items), start)
  {
    if items != [] {
      var n := |items| - 1;
      forall i | 0 <= i < n
        ensures var key := EvaluationKeyOf(ids, students, items[..n][i]); key in start && Holds(start[key], items[..n][i])
      {
        assert items[..n][i] == items[i];
      }
      EvaluationsAreFixed(start, job, ids, students, items[..n]);
      var front, key := PutEvaluations(start, job, ids, students, items[..n]), EvaluationKeyOf(ids, students, items[n]);
      assert key in start && Holds(start[key], items[n]);
      assert front[key].metrics + items[n].metrics == front[key].metrics;
    }
  }

  /** Importing a workbook whose rows are in place succeeds and changes nothing but save
      times and the origin of evaluations. */
  lemma InPlaceIsFixed(t: Tables, job: Job, p: Prepared, ids: seq<nat>)
    requires WellPrepared(p) && ValidTables(t) && InPlace(t, job, p, ids)
    ensures Apply(t, job, p).Some? && SameTables(Apply(t, job, p).value, t)
  {
    var year := p.year.value;
    ClassesAreFixed(t.classes, job, year, p.classes);
    StudentsAreFixed(t.students, job, p.students);
    EnrollmentsAreFixed(t, job, year, p.classes, p.students);
    var st := PutEnrollments(t, job, year, p.classes, p.students).value;
    assert st.ids == ids;
    forall i | 0 <= i < |p.classes|
      ensures |ActiveIn(st.enrollments, ClassKeyOf(job, year, p.classes[i]))| <= p.classes[i].capacity
    {
      SameOccupancy(st.enrollments, t.enrollments, ClassKeyOf(job, year, p.classes[i]));
    }
    EvaluationsAreFixed(t.evaluations, job, ids, p.students, p.evaluations);
  }

  // ---------------------------------------------------------------- the tables stay sound

  lemma AppliedEnrollmentsHaveParents(t: Tables, job: Job, p: Prepared)
    requires WellPrepared(p) && ValidTables(t) && Apply(t, job, p).Some?
    ensures var u := Apply(t, job, p).value;
            forall i :: i in u.enrollments ==> u.enrollments[i].student in u.students && u.enrollments[i].classSection in u.classes
  {
    var year := p.year.value;
    var u := Apply(t, job, p).value;
    var st := PutEnrollments(t, job, year, p.classes, p.students).value;
    EnrollmentsPut(t, job, year, p.classes, p.students);
    forall i | i in u.enrollments ensures u.enrollments[i].student in u.students && u.enrollments[i].classSection in u.classes {
      if i in st.ids {
        var k :| 0 <= k < |st.ids| && st.ids[k] == i;
        assert EnrolledAs(t, st, job, year, p.classes, p.students[k], i);
        StudentPutAt(t.students, job, p.students, k);
        var c :| 0 <= c < |p.classes| && p.classes[c].code == p.students[k].classCode;
        ClassPutAt(t.classes, job, year, p.classes, c);
      } else {
        StudentsRemain(t.students, job, p.students, t.enrollments[i].student);
        ClassesRemain(t.classes, job, year, p.classes, t.enrollments[i].classSection);
      }
    }
  }

  lemma ClassesRemain(start: Classes, job: Job, year: Year, items: seq<ClassItem>, key: ClassKey)
    requires ClassesAreDistinct(items) && key in start
    ensures key in PutClasses(start, job, year, items)
  {
    if i :| 0 <= i < |items| && ClassKeyOf(job, year, items[i]) == key {
      ClassPutAt(start, job, year, items, i);
    } else {
      OtherClassesStay(start, job, year, items, key);
    }
  }

  lemma StudentsRemain(start: Students, job: Job, items: seq<StudentItem>, key: StudentKey)
    requires StudentsAreDistinct(items) && key in start
    ensures key in PutStudents(start, job, items)
  {
    if i :| 0 <= i < |items| && StudentKeyOf(job, items[i]) == key {
      StudentPutAt(start, job, items, i);
    } else {
      OtherStudentsStay(start, job, items, key);
    }
  }

  lemma {:induction false} EvaluationKeysAfter(start: Evaluations, job: Job, ids: seq<nat>, students: seq<StudentItem>,
                                               items: seq<EvaluationItem>, key: EvaluationKey)
    requires |ids| == |students| && Known(students, items)
    ensures key in PutEvaluations(start, job, ids, students, items) ==> key in start || key.enrollment in ids
    ensures key in start ==> key in PutEvaluations(start, job, ids, students, items)
  {
    if items != [] {
      EvaluationKeysAfter(start, job, ids, students, items[..|items| - 1], key);
    }
  }

  /** A successful import keeps the unique constraints, the references and the order of
      the save times. */
  lemma ApplyKeepsTablesValid(t: Tables, job: Job, p: Prepared)
    requires WellPrepared(p) && ValidTables(t) && Apply(t, job, p).Some?
    ensures ValidTables(Apply(t, job, p).value)
  {
    var year := p.year.value;
    var u := Apply(t, job, p).value;
    var st := PutEnrollments(t, job, year, p.classes, p.students).value;
    EnrollmentsPut(t, job, year, p.classes, p.students);
    AppliedEnrollmentsHaveParents(t, job, p);
    forall key | key in u.evaluations ensures key.enrollment in u.enrollments {
      EvaluationKeysAfter(t.evaluations, job, st.ids, p.students, p.evaluations, key);
      if key.enrollment in st.ids {
        var k :| 0 <= k < |st.ids| && st.ids[k] == key.enrollment;
        assert EnrolledAs(t, st, job, year, p.classes, p.students[k], st.ids[k]);
      } else {
        assert key in t.evaluations;
      }
    }
  }

  lemma EnrolledNumbersDiffer(t: Tables, st: EnrollState, job: Job, year: Year, classes: seq<ClassItem>, items: seq<StudentItem>, i: nat, j: nat)
    requires EnrollSound(t, st, job, year, classes, items) && DistinctIds(st.ids) && i < j < |items|
    ensures items[i].studentNumber != items[j].studentNumber
  {
    assert EnrolledAs(t, st, job, year, classes, items[i], st.ids[i]);
    assert EnrolledAs(t, st, job, year, classes, items[j], st.ids[j]);
    assert st.ids[i] != st.ids[j];
    assert !Conflict(st.enrollments[st.ids[i]], st.enrollments[st.ids[j]]);
  }

  /** The unique constraint on numbers refuses a workbook in which a student number repeats. */
  lemma RepeatedNumberIsRefused(t: Tables, job: Job, p: Prepared)
    requires WellPrepared(p) && ValidTables(t)
    ensures Apply(t, job, p).Some? ==> NumbersAreDistinct(p.students)
  {
    var st := PutEnrollments(t, job, p.year.value, p.classes, p.students);
    if st.Some? {
      EnrollmentsPut(t, job, p.year.value, p.classes, p.students);
      EnrolledIdsDiffer(t, st.value, job, p.year.value, p.classes, p.students);
      forall i, j | 0 <= i < j < |p.students| ensures p.students[i].studentNumber != p.students[j].studentNumber {
        EnrolledNumbersDiffer(t, st.value, job, p.year.value, p.classes, p.students, i, j);
      }
    }
  }

  /** Applying the same workbook again, by the same or another job of the school, succeeds
      and leaves the same tables. */
  lemma ImportingTwice(t: Tables, job: Job, again: Job, p: Prepared)
    requires WellPrepared(p) && ValidTables(t) && Apply(t, job, p).Some?
    requires again.organization == job.organization && again.school == job.school
    ensures var u := Apply(t, job, p).value;
            Apply(u, again, p).Some? && SameTables(Apply(u, again, p).value, u)
  {
    var u := Apply(t, job, p).value;
    var ids := AppliedIsInPlace(t, job, p);
    ApplyKeepsTablesValid(t, job, p);
    InPlaceForOtherJob(u, job, again, p, ids);
    InPlaceIsFixed(u, again, p, ids);
  }

  lemma InPlaceForOtherJob(u: Tables, job: Job, again: Job, p: Prepared, ids: seq<nat>)
    requires WellPrepared(p) && InPlace(u, job, p, ids)
    requires again.organization == job.organization && again.school == job.school
    ensures InPlace(u, again, p, ids)
  {
    var year := p.year.value;
    forall i | 0 <= i < |p.classes|
      ensures ClassInPlace(u.classes, again, year, p.classes[i])
      ensures |ActiveIn(u.enrollments, ClassKeyOf(again, year, p.classes[i]))| <= p.classes[i].capacity
    {
      assert ClassInPlace(u.classes, job, year, p.classes[i]);
      assert ClassKeyOf(again, year, p.classes[i]) == ClassKeyOf(job, year, p.classes[i]);
    }
    forall i | 0 <= i < |p.students|
      ensures StudentInPlace(u.students, again, p.students[i])
      ensures EnrollmentInPlace(u.enrollments, again, year, p.classes, p.students[i])
    {
      assert StudentKeyOf(again, p.students[i]) == StudentKeyOf(job, p.students[i]);
      assert StudentInPlace(u.students, job, p.students[i]) && EnrollmentInPlace(u.enrollments, job, year, p.classes, p.students[i]);
    }
    assert forall k :: 0 <= k < |p.students| ==> StudentKeyOf(again, p.students[k]) == StudentKeyOf(job, p.students[k]);
  }

  // ---------------------------------------------------------------- nothing is removed

  /** The enrollment an import addresses for one of the students of the workbook. */
  ghost predicate Addressed(es: Enrollments, job: Job, year: Year, students: seq<StudentItem>, id: nat) {
    exists k :: 0 <= k < |students| && Latest(es, StudentKeyOf(job, students[k]), year.id) == Some(id)
  }

  /** The workbook has a score for this indicator of this enrollment and month. */
  ghost predicate Mentioned(t: Tables, job: Job, p: Prepared, key: EvaluationKey, code: string)
    requires WellPrepared(p)
  {
    exists i :: 0 <= i < |p.evaluations| && Mentions(t, job, p, p.evaluations[i], key, code)
  }

  ghost predicate Mentions(t: Tables, job: Job, p: Prepared, item: EvaluationItem, key: EvaluationKey, code: string)
    requires WellPrepared(p) && item.localCode in LocalCodes(p.students)
  {
    && code in item.metrics && item.monthNo == key.monthNo && item.framework == key.framework
    && Latest(t.enrollments, StudentKeyOf(job, p.students[IndexOf(p.students, item.localCode)]), p.year.value.id) == Some(key.enrollment)
  }

  /** Classes and students remain, untouched unless the workbook names them. */
  lemma NoClassOrStudentIsRemoved(t: Tables, job: Job, p: Prepared)
    requires WellPrepared(p) && Apply(t, job, p).Some?
    ensures var u := Apply(t, job, p).value;
            && (forall key :: key in t.classes ==> key in u.classes)
            && (forall key :: key in t.students ==> key in u.students)
            && (forall key :: key in t.classes && !ClassNamed(job, p.year.value, p.classes, key) ==> u.classes[key] == t.classes[key])
            && (forall key :: key in t.students && !StudentNamed(job, p.students, key) ==> u.students[key] == t.students[key])
  {
    forall key | key in t.classes
      ensures key in PutClasses(t.classes, job, p.year.value, p.classes)
      ensures !ClassNamed(job, p.year.value, p.classes, key) ==> PutClasses(t.classes, job, p.year.value, p.classes)[key] == t.classes[key]
    {
      ClassesRemain(t.classes, job, p.year.value, p.classes, key);
      if !ClassNamed(job, p.year.value, p.classes, key) {
        OtherClassesStay(t.classes, job, p.year.value, p.classes, key);
      }
    }
    forall key | key in t.students
      ensures key in PutStudents(t.students, job, p.students)
      ensures !StudentNamed(job, p.students, key) ==> PutStudents(t.students, job, p.students)[key] == t.students[key]
    {
      StudentsRemain(t.students, job, p.students, key);
      if !StudentNamed(job, p.students, key) {
        OtherStudentsStay(t.students, job, p.students, key);
      }
    }
  }

  /** Enrollments remain; only the latest one of a student of the workbook is written. */
  lemma NoEnrollmentIsRemoved(t: Tables, job: Job, p: Prepared, id: nat)
    requires WellPrepared(p) && ValidTables(t) && Apply(t, job, p).Some? && id in t.enrollments
    ensures var u := Apply(t, job, p).value;
            id in u.enrollments
            && (!Addressed(t.enrollments, job, p.year.value, p.students, id) ==> u.enrollments[id] == t.enrollments[id])
  {
    var year := p.year.value;
    var st := PutEnrollments(t, job, year, p.classes, p.students).value;
    EnrollmentsPut(t, job, year, p.classes, p.students);
    if id in st.ids {
      var k :| 0 <= k < |st.ids| && st.ids[k] == id;
      assert EnrolledAs(t, st, job, year, p.classes, p.students[k], id);
      assert Latest(t.enrollments, StudentKeyOf(job, p.students[k]), year.id) == Some(id);
    }
  }

  /** Evaluations and scores remain; a score the workbook does not mention keeps its value. */
  lemma NoScoreIsRemoved(t: Tables, job: Job, p: Prepared, key: EvaluationKey, code: string)
    requires WellPrepared(p) && ValidTables(t) && Apply(t, job, p).Some?
    requires key in t.evaluations && code in t.evaluations[key].metrics
    ensures var u := Apply(t, job, p).value;
            && key in u.evaluations && code in u.evaluations[key].metrics
            && (!Mentioned(t, job, p, key, code) ==> u.evaluations[key].metrics[code] == t.evaluations[key].metrics[code])
  {
    var year := p.year.value;
    var st := PutEnrollments(t, job, year, p.classes, p.students).value;
    EnrollmentsPut(t, job, year, p.classes, p.students);
    EnrolledIdsDiffer(t, st, job, year, p.classes, p.students);
    if i :| 0 <= i < |p.evaluations| && EvaluationKeyOf(st.ids, p.students, p.evaluations[i]) == key {
      var item := p.evaluations[i];
      EvaluationPutAt(t.evaluations, job, st.ids, p.students, p.evaluations, i);
      if code in item.metrics {
        var k := IndexOf(p.students, item.localCode);
        assert EnrolledAs(t, st, job, year, p.classes, p.students[k], st.ids[k]);
        assert Mentions(t, job, p, item, key, code);
      }
    } else {
      OtherEvaluationsStay(t.evaluations, job, st.ids, p.students, p.evaluations, key);
    }
  }
}
