/** The school workbook after validation: what the importer applies. */
module PreparedWorkbook {
  import opened Options
  import Calendar
  import opened MetricCatalog

  datatype Year = Year(id: nat, code: string, title: string, isCurrent: bool, isActive: bool, startsOn: Calendar.CivilDate)

  datatype Grade = Grade(id: nat, code: string, title: string, order: int)

  datatype Gender = Female | Male

  datatype ClassItem = ClassItem(code: string, title: string, grade: Grade, capacity: nat, sourceRow: nat)

  datatype StudentItem = StudentItem(
    localCode: string, nationalId: string, studentNumber: string, firstName: string, lastName: string,
    gender: Gender, birthDate: Calendar.CivilDate, classCode: string, sourceRow: nat)

  datatype EvaluationItem = EvaluationItem(
    localCode: string, monthNo: nat, metrics: map<string, nat>, note: string, framework: Framework, sourceRow: nat)

  datatype Prepared = Prepared(
    year: Option<Year>, classes: seq<ClassItem>, students: seq<StudentItem>, evaluations: seq<EvaluationItem>,
    frameworkVersion: string)

  // ---------------------------------------------------------------- guarantees

  function ClassCodes(classes: seq<ClassItem>): set<string> {
    set i | 0 <= i < |classes| :: classes[i].code
  }

  function LocalCodes(students: seq<StudentItem>): set<string> {
    set i | 0 <= i < |students| :: students[i].localCode
  }

  function NationalIds(students: seq<StudentItem>): set<string> {
    set i | 0 <= i < |students| :: students[i].nationalId
  }

  function StudentNumbers(students: seq<StudentItem>): set<string> {
    set i | 0 <= i < |students| :: students[i].studentNumber
  }

  function Keys(evaluations: seq<EvaluationItem>): set<(string, nat)> {
    set i | 0 <= i < |evaluations| :: (evaluations[i].localCode, evaluations[i].monthNo)
  }

  /** How many students go to a class. */
  function Enrolled(students: seq<StudentItem>, code: string): nat {
    if students == [] then 0
    else Enrolled(students[..|students| - 1], code) + if students[|students| - 1].classCode == code then 1 else 0
  }

  predicate ClassesAreDistinct(classes: seq<ClassItem>) {
    forall i, j :: 0 <= i < j < |classes| ==> classes[i].code != classes[j].code
  }

  predicate StudentsAreDistinct(students: seq<StudentItem>) {
    forall i, j :: 0 <= i < j < |students| ==>
      students[i].localCode != students[j].localCode && students[i].nationalId != students[j].nationalId
  }

  /** Not a promise of the validator. */
  predicate NumbersAreDistinct(students: seq<StudentItem>) {
    forall i, j :: 0 <= i < j < |students| ==> students[i].studentNumber != students[j].studentNumber
  }

  predicate EvaluationsAreDistinct(evaluations: seq<EvaluationItem>) {
    forall i, j :: 0 <= i < j < |evaluations| ==>
      evaluations[i].localCode != evaluations[j].localCode || evaluations[i].monthNo != evaluations[j].monthNo
  }

  /** Every student has a class of the file and every evaluation a student of the file. */
  predicate ReferencesResolve(p: Prepared) {
    && (forall i :: 0 <= i < |p.students| ==> p.students[i].classCode in ClassCodes(p.classes))
    && (forall i :: 0 <= i < |p.evaluations| ==> p.evaluations[i].localCode in LocalCodes(p.students))
  }

  predicate ValuesAreInRange(p: Prepared) {
    && (forall i :: 0 <= i < |p.classes| ==> p.classes[i].code != "" && p.classes[i].capacity >= 1)
    && (forall i :: 0 <= i < |p.students| ==> |p.students[i].nationalId| == 10)
    && (forall i :: 0 <= i < |p.evaluations| ==> 1 <= p.evaluations[i].monthNo <= 12)
    && (forall i, code | 0 <= i < |p.evaluations| && code in p.evaluations[i].metrics ::
          p.evaluations[i].metrics[code] <= 5 && code in Codes(p.evaluations[i].framework))
  }

  predicate OneFramework(p: Prepared) {
    forall i :: 0 <= i < |p.evaluations| ==> Version(p.evaluations[i].framework) == p.frameworkVersion
  }

  predicate WithinFileCapacity(p: Prepared) {
    forall i :: 0 <= i < |p.classes| ==> Enrolled(p.students, p.classes[i].code) <= p.classes[i].capacity
  }

  /** What the importer may rely on. */
  predicate WellPrepared(p: Prepared) {
    && p.year.Some?
    && ClassesAreDistinct(p.classes) && StudentsAreDistinct(p.students) && EvaluationsAreDistinct(p.evaluations)
    && ReferencesResolve(p) && ValuesAreInRange(p) && OneFramework(p) && WithinFileCapacity(p)
  }
}
