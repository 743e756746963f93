/** The tables an import writes and what one import makes of them.  Rows are identified by
    their unique keys; an enrollment, of which a student may have several in a year, by a
    row id. */
module ImportTables {
  import opened Options
  import opened MetricCatalog
  import opened PreparedWorkbook
  import Calendar

  datatype Job = Job(id: nat, organization: nat, school: nat, requestedBy: nat)

  datatype ClassKey = ClassKey(school: nat, year: nat, code: string)

  datatype StudentKey = StudentKey(organization: nat, nationalId: string)

  datatype EvaluationKey = EvaluationKey(enrollment: nat, monthNo: nat, framework: Framework)

  datatype ClassSection = ClassSection(title: string, grade: nat, capacity: nat, active: bool, deleted: bool)

  datatype StudentStatus = Enrolled | Inactive

  datatype Student = Student(
    firstName: string, lastName: string, birthDate: Calendar.CivilDate, gender: Gender, status: StudentStatus, deleted: bool)

  datatype EnrollmentStatus = Active | Transferred | Withdrawn | Graduated

  datatype Enrollment = Enrollment(
    student: StudentKey, year: nat, school: nat, grade: nat, classSection: ClassKey, studentNumber: string,
    status: EnrollmentStatus, enrolledOn: Calendar.CivilDate, leftOn: Option<Calendar.CivilDate>, deleted: bool, updatedAt: nat)

  /** A live evaluation with its metric scores. */
  datatype Evaluation = Evaluation(note: string, recordedBy: nat, sourceJob: nat, metrics: map<string, nat>)

  type Classes = map<ClassKey, ClassSection>

  type Students = map<StudentKey, Student>

  type Enrollments = map<nat, Enrollment>

  type Evaluations = map<EvaluationKey, Evaluation>

  /** `clock` is later than every save so far; ids from `nextId` on are unused. */
  datatype Tables = Tables(
    classes: Classes, students: Students, enrollments: Enrollments, evaluations: Evaluations, clock: nat, nextId: nat)

  // ---------------------------------------------------------------- table invariants

  predicate Live(e: Enrollment) { !e.deleted && e.status == Active }

  /** Two live enrollments that the unique constraints forbid together. */
  predicate Conflict(a: Enrollment, b: Enrollment) {
    && Live(a) && Live(b) && a.year == b.year
    && (a.student == b.student || (a.school == b.school && a.studentNumber == b.studentNumber))
  }

  predicate UniqueActive(es: Enrollments) {
    forall i, j :: i in es && j in es && i != j ==> !Conflict(es[i], es[j])
  }

  /** Saving a row under an id would break a unique constraint. */
  predicate Clashes(es: Enrollments, id: nat, row: Enrollment) {
    exists j :: j in es && j != id && Conflict(row, es[j])
  }

  /** No two rows were saved at the same time, and none after now. */
  predicate Stamped(es: Enrollments, clock: nat) {
    && (forall i :: i in es ==> es[i].updatedAt < clock)
    && (forall i, j :: i in es && j in es && i != j ==> es[i].updatedAt != es[j].updatedAt)
  }

  predicate ValidTables(t: Tables) {
    && UniqueActive(t.enrollments) && Stamped(t.enrollments, t.clock)
    && (forall i :: i in t.enrollments ==> i < t.nextId && t.enrollments[i].student in t.students)
    && (forall i :: i in t.enrollments ==> t.enrollments[i].classSection in t.classes)
    && (forall k :: k in t.evaluations ==> k.enrollment in t.enrollments)
  }

  // ---------------------------------------------------------------- classes and students

  function ClassKeyOf(job: Job, year: Year, item: ClassItem): ClassKey {
    ClassKey(job.school, year.id, item.code)
  }

  function ClassRow(classes: Classes, key: ClassKey, item: ClassItem): ClassSection {
    if key in classes
    then classes[key].(title := item.title, grade := item.grade.id, capacity := item.capacity, active := true, deleted := false)
    else ClassSection(item.title, item.grade.id, item.capacity, true, false)
  }

  function PutClasses(start: Classes, job: Job, year: Year, items: seq<ClassItem>): Classes {
    if items == [] then start
    else
      var n := |items| - 1;
      var key := ClassKeyOf(job, year, items[n]);
      PutClasses(start, job, year, items[..n])[key := ClassRow(start, key, items[n])]
  }

  function StudentKeyOf(job: Job, item: StudentItem): StudentKey {
    StudentKey(job.organization, item.nationalId)
  }

  function StudentRow(students: Students, key: StudentKey, item: StudentItem): Student {
    if key in students
    then students[key].(firstName := item.firstName, lastName := item.lastName, birthDate := item.birthDate,
                        gender := item.gender, status := Enrolled, deleted := false)
    else Student(item.firstName, item.lastName, item.birthDate, item.gender, Enrolled, false)
  }

  function PutStudents(start: Students, job: Job, items: seq<StudentItem>): Students {
    if items == [] then start
    else
      var n := |items| - 1;
      var key := StudentKeyOf(job, items[n]);
      PutStudents(start, job, items[..n])[key := StudentRow(start, key, items[n])]
  }

  // ---------------------------------------------------------------- enrollments

  predicate IsLatest(es: Enrollments, student: StudentKey, year: nat, id: nat) {
    && id in es && es[id].student == student && es[id].year == year
    && forall j :: j in es && es[j].student == student && es[j].year == year ==> es[j].updatedAt <= es[id].updatedAt
  }

  /** The enrollment of a student in a year that was saved last, deleted or not. */
  ghost function Latest(es: Enrollments, student: StudentKey, year: nat): Option<nat> {
    if exists id :: IsLatest(es, student, year, id)
    then var id :| IsLatest(es, student, year, id); Some(id)
    else None
  }

  predicate OtherSchool(e: Enrollment, job: Job) {
    Live(e) && e.school != job.school
  }

  function GradeOf(classes: seq<ClassItem>, code: string): nat {
    if classes == [] then 0
    else if classes[|classes| - 1].code == code then classes[|classes| - 1].grade.id
    else GradeOf(classes[..|classes| - 1], code)
  }

  function EnrollmentRow(job: Job, year: Year, classes: seq<ClassItem>, item: StudentItem, now: nat): Enrollment {
    Enrollment(StudentKeyOf(job, item), year.id, job.school, GradeOf(classes, item.classCode),
               ClassKey(job.school, year.id, item.classCode), item.studentNumber, Active, year.startsOn, None, false, now)
  }

  datatype EnrollState = EnrollState(enrollments: Enrollments, ids: seq<nat>, clock: nat, nextId: nat)

  /** Enrolls one student; refused when the student is active in another school or a unique
      constraint would break.  All fields but the id are overwritten. */
  ghost function EnrollOne(start: Enrollments, st: EnrollState, job: Job, year: Year, classes: seq<ClassItem>, item: StudentItem):
    Option<EnrollState>
  {
    var existing := Latest(start, StudentKeyOf(job, item), year.id);
    var id := if existing.Some? then existing.value else st.nextId;
    var row := EnrollmentRow(job, year, classes, item, st.clock);
    if (existing.Some? && id in start && OtherSchool(start[id], job)) || Clashes(st.enrollments, id, row) then None
    else Some(EnrollState(st.enrollments[id := row], st.ids + [id], st.clock + 1,
                          if existing.Some? then st.nextId else st.nextId + 1))
  }

  ghost function PutEnrollments(t: Tables, job: Job, year: Year, classes: seq<ClassItem>, items: seq<StudentItem>): Option<EnrollState> {
    if items == [] then Some(EnrollState(t.enrollments, [], t.clock, t.nextId))
    else
      var n := |items| - 1;
      var st := PutEnrollments(t, job, year, classes, items[..n]);
      if st.None? then None else EnrollOne(t.enrollments, st.value, job, year, classes, items[n])
  }

  /** The live enrollments of a class. */
  function ActiveIn(es: Enrollments, key: ClassKey): set<nat> {
    set i | i in es && Live(es[i]) && es[i].classSection == key && es[i].year == key.year
  }

  predicate WithinCapacity(es: Enrollments, job: Job, year: Year, classes: seq<ClassItem>) {
    forall i :: 0 <= i < |classes| ==> |ActiveIn(es, ClassKeyOf(job, year, classes[i]))| <= classes[i].capacity
  }

  // ---------------------------------------------------------------- evaluations

  function IndexOf(students: seq<StudentItem>, localCode: string): (i: nat)
    requires localCode in LocalCodes(students)
    ensures i < |students| && students[i].localCode == localCode
  {
    var n := |students| - 1;
    if students[n].localCode == localCode then n
    else
      assert forall i :: 0 <= i < |students| && students[i].localCode == localCode ==> i < n && students[..n][i] == students[i];
      IndexOf(students[..n], localCode)
  }

  function EvaluationKeyOf(ids: seq<nat>, students: seq<StudentItem>, item: EvaluationItem): EvaluationKey
    requires |ids| == |students| && item.localCode in LocalCodes(students)
  {
    EvaluationKey(ids[IndexOf(students, item.localCode)], item.monthNo, item.framework)
  }

  function EvaluationRow(evaluations: Evaluations, key: EvaluationKey, item: EvaluationItem, job: Job): Evaluation {
    if key in evaluations
    then evaluations[key].(note := item.note, recordedBy := job.requestedBy, sourceJob := job.id,
                           metrics := evaluations[key].metrics + item.metrics)
    else Evaluation(item.note, job.requestedBy, job.id, item.metrics)
  }

  predicate Known(students: seq<StudentItem>, items: seq<EvaluationItem>) {
    forall i :: 0 <= i < |items| ==> items[i].localCode in LocalCodes(students)
  }

  function PutEvaluations(start: Evaluations, job: Job, ids: seq<nat>, students: seq<StudentItem>, items: seq<EvaluationItem>): Evaluations
    requires |ids| == |students| && Known(students, items)
  {
    if items == [] then start
    else
      var n := |items| - 1;
      var front := PutEvaluations(start, job, ids, students, items[..n]);
      var key := EvaluationKeyOf(ids, students, items[n]);
      front[key := EvaluationRow(front, key, items[n], job)]
  }

  // ---------------------------------------------------------------- one import

  lemma {:induction false} OneIdEach(t: Tables, job: Job, year: Year, classes: seq<ClassItem>, items: seq<StudentItem>)
    ensures var st := PutEnrollments(t, job, year, classes, items); st.Some? ==> |st.value.ids| == |items|
  {
    if items != [] {
      OneIdEach(t, job, year, classes, items[..|items| - 1]);
    }
  }

  /** The tables after an import; nothing when it is refused. */
  ghost function Apply(t: Tables, job: Job, p: Prepared): Option<Tables>
    requires WellPrepared(p)
  {
    var year := p.year.value;
    var st := PutEnrollments(t, job, year, p.classes, p.students);
    if st.None? || !WithinCapacity(st.value.enrollments, job, year, p.classes) then None
    else
      OneIdEach(t, job, year, p.classes, p.students);
      Some(Tables(PutClasses(t.classes, job, year, p.classes), PutStudents(t.students, job, p.students), st.value.enrollments,
                  PutEvaluations(t.evaluations, job, st.value.ids, p.students, p.evaluations), st.value.clock, st.value.nextId))
  }

  // ---------------------------------------------------------------- lookups

  lemma LatestIsUnique(es: Enrollments, clock: nat, student: StudentKey, year: nat, id: nat)
    requires Stamped(es, clock) && IsLatest(es, student, year, id)
    ensures Latest(es, student, year) == Some(id)
  {
  }
}
