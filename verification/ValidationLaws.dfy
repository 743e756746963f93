/** What the validator reports and keeps, said row by row: which problem is reported for which
    row, and that the kept rows carry the cells of the file. */
module ValidationLaws {
  import opened ClassValidation
  import opened EvaluationValidation
  import opened MetricCatalog
  import opened Options
  import opened PreparedWorkbook
  import opened StudentValidation
  import opened ValidationIssues
  import opened WorkbookValidation
  import Text
  import Values = WorkbookValues

  // ---------------------------------------------------------------- classes

  /** Row `i` of the class sheet has the problem. */
  predicate ClassProblem(fields: seq<ClassFields>, i: nat, p: Problem)
    requires i < |fields|
  {
    match p
    case MissingClassCode => fields[i].code == ""
    case DuplicateClassCode => fields[i].code != "" && exists j :: 0 <= j < i && fields[j].code == fields[i].code
    case UnknownGrade => fields[i].grade.None?
    case BadCapacity => fields[i].capacity.None?
    case _ => false
  }

  ghost predicate HasClassProblem(fields: seq<ClassFields>, row: nat, p: Problem) {
    exists i :: 0 <= i < |fields| && fields[i].sourceRow == row && ClassProblem(fields, i, p)
  }

  lemma EarlierCode(fields: seq<ClassFields>, i: nat)
    requires i < |fields|
    ensures fields[i].code in ReadClasses(fields[..i]).seen
       <==> fields[i].code != "" && exists j :: 0 <= j < i && fields[j].code == fields[i].code
  {
    SeenClasses(fields[..i], fields[i].code);
    assert forall j :: 0 <= j < i ==> fields[..i][j] == fields[j];
  }

  lemma ClassRowReports(fields: seq<ClassFields>, i: nat, row: nat, p: Problem)
    requires i < |fields|
    ensures Issue(Classes, Some(row), p) in ClassIssues(ReadClasses(fields[..i]).seen, fields[i])
       <==> fields[i].sourceRow == row && ClassProblem(fields, i, p)
  {
    EarlierCode(fields, i);
  }

  lemma SameClassProblems(fields: seq<ClassFields>, i: nat, p: Problem)
    requires fields != [] && i < |fields| - 1
    ensures ClassProblem(fields[..|fields| - 1], i, p) <==> ClassProblem(fields, i, p)
  {
    var front := fields[..|fields| - 1];
    assert forall j :: 0 <= j < |front| ==> front[j] == fields[j];
  }

  lemma ClassProblemsOfMore(fields: seq<ClassFields>, row: nat, p: Problem)
    requires fields != []
    ensures var n := |fields| - 1;
            HasClassProblem(fields, row, p)
            <==> HasClassProblem(fields[..n], row, p) || (fields[n].sourceRow == row && ClassProblem(fields, n, p))
  {
    var n := |fields| - 1;
    forall i | 0 <= i < n ensures ClassProblem(fields[..n], i, p) <==> ClassProblem(fields, i, p) {
      SameClassProblems(fields, i, p);
    }
  }

  /** Reported for a row are exactly its problems. */
  lemma {:induction false} ClassErrorsAreTheProblems(fields: seq<ClassFields>, row: nat, p: Problem)
    ensures Issue(Classes, Some(row), p) in ReadClasses(fields).errors <==> HasClassProblem(fields, row, p)
  {
    if fields != [] {
      var n := |fields| - 1;
      ClassErrorsAreTheProblems(fields[..n], row, p);
      ClassRowReports(fields, n, row, p);
      ClassProblemsOfMore(fields, row, p);
    }
  }

  /** The class is that of the row. */
  predicate IsClassOf(item: ClassItem, f: ClassFields) {
    && item.code == f.code && item.title == f.title && item.sourceRow == f.sourceRow
    && f.grade == Some(item.grade) && f.capacity == Some(item.capacity)
  }

  predicate ClassRowIsUsable(fields: seq<ClassFields>, i: nat)
    requires i < |fields|
  {
    && fields[i].code != "" && fields[i].grade.Some? && fields[i].capacity.Some?
    && forall j :: 0 <= j < i ==> fields[j].code != fields[i].code
  }

  /** Kept are exactly the rows without a problem. */
  lemma {:induction false} KeptClassesAreTheUsableRows(fields: seq<ClassFields>, item: ClassItem)
    ensures item in ReadClasses(fields).items
       <==> exists i :: 0 <= i < |fields| && ClassRowIsUsable(fields, i) && IsClassOf(item, fields[i])
  {
    if fields != [] {
      var n := |fields| - 1;
      var front := fields[..n];
      KeptClassesAreTheUsableRows(front, item);
      EarlierCode(fields, n);
      ClassIssuesAreReported(ReadClasses(front).seen, fields[n]);
      assert forall j :: 0 <= j < n ==> front[j] == fields[j];
      forall i | 0 <= i < n ensures ClassRowIsUsable(front, i) <==> ClassRowIsUsable(fields, i) {
      }
    }
  }

  // ---------------------------------------------------------------- students

  /** The local code of row `i`: the written one, or the number of the row, or, without one,
      one more than the students kept so far. */
  function GivenCode(f: StudentFields, kept: nat): string {
    if f.localCode == "" then Text.Decimal(if f.sourceRow == 0 then kept + 1 else f.sourceRow) else f.localCode
  }

  predicate StudentProblem(codes: set<string>, kept: seq<StudentItem>, f: StudentFields, p: Problem) {
    match p
    case DuplicateLocalCode => exists k :: 0 <= k < |kept| && kept[k].localCode == GivenCode(f, |kept|)
    case BadNationalId => f.nationalId.None?
    case DuplicateNationalId => f.nationalId.Some? && exists k :: 0 <= k < |kept| && kept[k].nationalId == f.nationalId.value
    case MissingName => f.firstName == "" || f.lastName == ""
    case UnknownGender => f.gender.None?
    case UnknownClass => f.classCode !in codes
    case BadBirthDate => f.birthDate.None?
    case _ => false
  }

  /** Row `i` has the problem, given the students kept from the rows before. */
  predicate StudentProblemAt(codes: set<string>, fields: seq<StudentFields>, i: nat, p: Problem)
    requires i < |fields|
  {
    StudentProblem(codes, ReadStudents(codes, fields[..i]).items, fields[i], p)
  }

  ghost predicate HasStudentProblem(codes: set<string>, fields: seq<StudentFields>, row: nat, p: Problem) {
    exists i :: 0 <= i < |fields| && fields[i].sourceRow == row && StudentProblemAt(codes, fields, i, p)
  }

  /** The issues of a student row, by what is wrong with it. */
  function IssuesOfStudent(at: nat, local: bool, number: Option<Problem>, name: bool, gender: bool, group: bool, birth: bool): set<Issue> {
    (if local then {StudentIssue(at, DuplicateLocalCode)} else {})
    + (if number.Some? then {StudentIssue(at, number.value)} else {})
    + (if name then {StudentIssue(at, MissingName)} else {})
    + (if gender then {StudentIssue(at, UnknownGender)} else {})
    + (if group then {StudentIssue(at, UnknownClass)} else {})
    + (if birth then {StudentIssue(at, BadBirthDate)} else {})
  }

  lemma StudentIssuesReport(at: nat, local: bool, number: Option<Problem>, name: bool, gender: bool, group: bool, birth: bool,
                            row: nat, p: Problem)
    ensures Issue(Students, Some(row), p) in IssuesOfStudent(at, local, number, name, gender, group, birth)
       <==> row == at
            && ((local && p.DuplicateLocalCode?) || number == Some(p) || (name && p.MissingName?)
                || (gender && p.UnknownGender?) || (group && p.UnknownClass?) || (birth && p.BadBirthDate?))
  {
  }

  function IdProblem(st: StudentState, f: StudentFields): Option<Problem> {
    if f.nationalId.None? then Some(BadNationalId)
    else if f.nationalId.value in st.ids then Some(DuplicateNationalId) else None
  }

  lemma StudentIssuesAre(codes: set<string>, st: StudentState, f: StudentFields, local: bool)
    requires local == (LocalCodeOf(f, |st.items|) in st.locals)
    ensures StudentIssues(codes, st, f)
         == IssuesOfStudent(f.sourceRow, local, IdProblem(st, f), f.firstName == "" || f.lastName == "", f.gender.None?,
                            f.classCode !in codes, f.birthDate.None?)
  {
  }

  lemma TakenCodes(kept: seq<StudentItem>, local: string, id: string)
    ensures local in LocalCodes(kept) <==> exists k :: 0 <= k < |kept| && kept[k].localCode == local
    ensures id in NationalIds(kept) <==> exists k :: 0 <= k < |kept| && kept[k].nationalId == id
  {
  }

  lemma StudentStateReports(codes: set<string>, st: StudentState, f: StudentFields, row: nat, p: Problem)
    requires st.locals == LocalCodes(st.items) && st.ids == NationalIds(st.items)
    ensures Issue(Students, Some(row), p) in StudentIssues(codes, st, f)
       <==> f.sourceRow == row && StudentProblem(codes, st.items, f, p)
  {
    var code := GivenCode(f, |st.items|);
    assert LocalCodeOf(f, |st.items|) == code;
    var local := code in st.locals;
    StudentIssuesAre(codes, st, f, local);
    StudentIssuesReport(f.sourceRow, local, IdProblem(st, f), f.firstName == "" || f.lastName == "", f.gender.None?,
                        f.classCode !in codes, f.birthDate.None?, row, p);
    StudentProblemsAre(codes, st.items, f, p, local, IdProblem(st, f));
  }

  lemma StudentProblemsAre(codes: set<string>, kept: seq<StudentItem>, f: StudentFields, p: Problem, local: bool, number: Option<Problem>)
    requires local == (GivenCode(f, |kept|) in LocalCodes(kept))
    requires number == if f.nationalId.None? then Some(BadNationalId)
                       else if f.nationalId.value in NationalIds(kept) then Some(DuplicateNationalId) else None
    ensures StudentProblem(codes, kept, f, p)
       <==> (local && p.DuplicateLocalCode?) || number == Some(p) || ((f.firstName == "" || f.lastName == "") && p.MissingName?)
            || (f.gender.None? && p.UnknownGender?) || (f.classCode !in codes && p.UnknownClass?)
            || (f.birthDate.None? && p.BadBirthDate?)
  {
    TakenCodes(kept, GivenCode(f, |kept|), if f.nationalId.Some? then f.nationalId.value else "");
  }

  lemma StudentRowReports(codes: set<string>, fields: seq<StudentFields>, i: nat, row: nat, p: Problem)
    requires i < |fields|
    ensures Issue(Students, Some(row), p) in StudentIssues(codes, ReadStudents(codes, fields[..i]), fields[i])
       <==> fields[i].sourceRow == row && StudentProblemAt(codes, fields, i, p)
  {
    KeptStudentsAreSound(codes, fields[..i]);
    StudentStateReports(codes, ReadStudents(codes, fields[..i]), fields[i], row, p);
  }

  lemma StudentProblemsOfMore(codes: set<string>, fields: seq<StudentFields>, row: nat, p: Problem)
    requires fields != []
    ensures var n := |fields| - 1;
            HasStudentProblem(codes, fields, row, p)
            <==> HasStudentProblem(codes, fields[..n], row, p)
                 || (fields[n].sourceRow == row && StudentProblemAt(codes, fields, n, p))
  {
    var n := |fields| - 1;
    forall i | 0 <= i < n ensures StudentProblemAt(codes, fields[..n], i, p) <==> StudentProblemAt(codes, fields, i, p) {
      assert fields[..n][..i] == fields[..i];
    }
  }

  lemma {:induction false} StudentErrorsAreTheProblems(codes: set<string>, fields: seq<StudentFields>, row: nat, p: Problem)
    ensures Issue(Students, Some(row), p) in ReadStudents(codes, fields).errors <==> HasStudentProblem(codes, fields, row, p)
  {
    if fields != [] {
      var n := |fields| - 1;
      StudentErrorsAreTheProblems(codes, fields[..n], row, p);
      StudentRowReports(codes, fields, n, row, p);
      StudentProblemsOfMore(codes, fields, row, p);
    }
  }

  // ---------------------------------------------------------------- evaluations

  /** The answers do not fit the indicators of a version. */
  predicate MisfitOf(codes: seq<string>, f: EvaluationFields, p: Problem) {
    match p
    case UnknownMetric(code) => code in f.metrics && code !in codes
    case BadScore(code) => code in f.metrics && code in codes && f.metrics[code].None?
    case LongNote => |f.note| > 5000 && forall code :: code in f.metrics ==> code in codes && f.metrics[code].Some?
    case _ => false
  }

  /** The row has the problem of its answers, under the version of the row or the workbook. */
  predicate AnswerProblem(version: string, f: EvaluationFields, p: Problem) {
    var framework := FrameworkOf(if f.version == "" then version else f.version);
    if framework.None? then p.UnknownFramework? else MisfitOf(Codes(framework.value), f, p)
  }

  /** A version is known by its name. */
  lemma FrameworkIsNamed(version: string, f: Framework)
    ensures FrameworkOf(version) == Some(f) <==> version == Version(f)
  {
    assert f.Current? || f.Legacy?;
    assert Version(Current) != Version(Legacy);
  }

  predicate WritesOtherName(lib: Values.Library, s: StudentItem, f: EvaluationFields) {
    f.name != "" && Values.FlexLabel(lib, f.name) != Values.FlexLabel(lib, Text.Strip(s.firstName + " " + s.lastName))
  }

  predicate IdentityProblem(lib: Values.Library, s: StudentItem, f: EvaluationFields, p: Problem) {
    match p
    case BadIdentityNumber => f.idText != "" && f.id.None?
    case OtherIdentityNumber => f.idText != "" && f.id.Some? && f.id.value != s.nationalId
    case OtherClass => f.classCode != "" && f.classCode != s.classCode
    case OtherName => WritesOtherName(lib, s, f)
    case _ => false
  }

  /** An earlier row of the student and month was kept. */
  predicate MonthIsTaken(kept: seq<EvaluationItem>, f: EvaluationFields)
    requires f.month.Some?
  {
    exists k :: 0 <= k < |kept| && kept[k].localCode == f.localCode && kept[k].monthNo == f.month.value
  }

  predicate EvaluationProblem(lib: Values.Library, students: seq<StudentItem>, version: string, kept: seq<EvaluationItem>,
                              f: EvaluationFields, p: Problem) {
    var s := FindStudent(students, f.localCode);
    if s.None? then p.UnknownStudent?
    else
      || IdentityProblem(lib, s.value, f, p)
      || if f.month.None? then p.BadMonth?
         else if MonthIsTaken(kept, f) then p.DuplicateMonth?
         else AnswerProblem(version, f, p)
  }

  predicate EvaluationProblemAt(lib: Values.Library, students: seq<StudentItem>, version: string, fields: seq<EvaluationFields>,
                                i: nat, p: Problem)
    requires i < |fields|
  {
    EvaluationProblem(lib, students, version, ReadEvaluations(JudgeAll(lib, students, version, fields)[..i]).items, fields[i], p)
  }

  ghost predicate HasEvaluationProblem(lib: Values.Library, students: seq<StudentItem>, version: string,
                                       fields: seq<EvaluationFields>, row: nat, p: Problem) {
    exists i :: 0 <= i < |fields| && fields[i].sourceRow == row && EvaluationProblemAt(lib, students, version, fields, i, p)
  }

  lemma MisfitsReport(codes: seq<string>, f: EvaluationFields, row: nat, p: Problem)
    ensures var metrics := MetricIssues(f.sourceRow, codes, f.metrics);
            Issue(Evaluations, Some(row), p)
              in (if metrics != {} then metrics else if |f.note| > 5000 then {EvaluationIssue(f.sourceRow, LongNote)} else {})
            <==> f.sourceRow == row && MisfitOf(codes, f, p)
  {
    MetricIssuesAreReported(f.sourceRow, codes, f.metrics);
    MetricsReport(f.sourceRow, codes, f.metrics, row, p);
  }

  lemma ContentReports(version: string, f: EvaluationFields, row: nat, p: Problem)
    ensures Issue(Evaluations, Some(row), p) in ContentIssues(version, f) <==> f.sourceRow == row && AnswerProblem(version, f, p)
  {
    var framework := FrameworkOf(VersionOf(f, version));
    if framework.Some? {
      MisfitsReport(Codes(framework.value), f, row, p);
    }
  }

  predicate InEvaluationRows(issues: set<Issue>) {
    forall e :: e in issues ==> e.sheet == Evaluations && e.row.Some?
  }

  lemma MetricsReport(at: nat, codes: seq<string>, metrics: map<string, Option<nat>>, row: nat, p: Problem)
    ensures Issue(Evaluations, Some(row), p) in MetricIssues(at, codes, metrics)
       <==> at == row && ((p.UnknownMetric? && p.code in metrics && p.code !in codes)
                          || (p.BadScore? && p.code in metrics && p.code in codes && metrics[p.code].None?))
  {
  }

  /** The issues of the identity cells, by what is wrong with them. */
  function IssuesOfIdentity(at: nat, number: Option<Problem>, group: bool, name: bool): set<Issue> {
    (if number.Some? then {EvaluationIssue(at, number.value)} else {})
    + (if group then {EvaluationIssue(at, OtherClass)} else {})
    + (if name then {EvaluationIssue(at, OtherName)} else {})
  }

  lemma IdentityIssuesReport(at: nat, number: Option<Problem>, group: bool, name: bool, row: nat, p: Problem)
    ensures InEvaluationRows(IssuesOfIdentity(at, number, group, name))
    ensures Issue(Evaluations, Some(row), p) in IssuesOfIdentity(at, number, group, name)
       <==> row == at && (number == Some(p) || (group && p.OtherClass?) || (name && p.OtherName?))
  {
  }

  function NumberProblem(s: StudentItem, f: EvaluationFields): Option<Problem> {
    if f.idText == "" then None
    else if f.id.None? then Some(BadIdentityNumber)
    else if f.id.value != s.nationalId then Some(OtherIdentityNumber) else None
  }

  lemma IdentityIssuesAre(lib: Values.Library, s: StudentItem, f: EvaluationFields)
    ensures IdentityIssues(lib, s, f)
         == IssuesOfIdentity(f.sourceRow, NumberProblem(s, f), f.classCode != "" && f.classCode != s.classCode, WritesOtherName(lib, s, f))
  {
    var number: set<Issue> :=
      if f.idText == "" then {}
      else if f.id.None? then {EvaluationIssue(f.sourceRow, BadIdentityNumber)}
      else if f.id.value != s.nationalId then {EvaluationIssue(f.sourceRow, OtherIdentityNumber)} else {};
    assert number == if NumberProblem(s, f).Some? then {EvaluationIssue(f.sourceRow, NumberProblem(s, f).value)} else {};
    assert WritesOtherName(lib, s, f) <==> f.name != "" && Values.FlexLabel(lib, f.name) != NameLabel(lib, s);
  }

  lemma IdentityProblemsAre(lib: Values.Library, s: StudentItem, f: EvaluationFields, name: bool, p: Problem)
    requires name == WritesOtherName(lib, s, f)
    ensures IdentityProblem(lib, s, f, p)
       <==> NumberProblem(s, f) == Some(p) || (f.classCode != "" && f.classCode != s.classCode && p.OtherClass?)
            || (name && p.OtherName?)
  {
  }

  lemma IdentityReports(lib: Values.Library, s: StudentItem, f: EvaluationFields, row: nat, p: Problem)
    ensures Issue(Evaluations, Some(row), p) in IdentityIssues(lib, s, f) <==> f.sourceRow == row && IdentityProblem(lib, s, f, p)
    ensures InEvaluationRows(IdentityIssues(lib, s, f))
  {
    var name := WritesOtherName(lib, s, f);
    IdentityProblemsAre(lib, s, f, name, p);
    IdentityIssuesAre(lib, s, f);
    IdentityIssuesReport(f.sourceRow, NumberProblem(s, f), f.classCode != "" && f.classCode != s.classCode, name, row, p);
  }

  /** What a judged row adds to the errors. */
  function RowIssues(keys: set<(string, nat)>, j: Judgement): set<Issue> {
    if j.key.Some? && j.key.value in keys then j.whenRepeated else j.whenNew
  }

  lemma TakenMeansKey(items: seq<EvaluationItem>, keys: set<(string, nat)>, f: EvaluationFields)
    requires f.month.Some? && keys == Keys(items)
    ensures (f.localCode, f.month.value) in keys <==> MonthIsTaken(items, f)
  {
  }

  /** The issues that a row adds, by what is wrong with it. */
  lemma RowIssuesAre(lib: Values.Library, students: seq<StudentItem>, version: string, keys: set<(string, nat)>, f: EvaluationFields)
    ensures var s := FindStudent(students, f.localCode);
            RowIssues(keys, Judge(lib, students, version, f))
            == if s.None? then {EvaluationIssue(f.sourceRow, UnknownStudent)}
               else IdentityIssues(lib, s.value, f)
                    + if f.month.None? then {EvaluationIssue(f.sourceRow, BadMonth)}
                      else if (f.localCode, f.month.value) in keys then {EvaluationIssue(f.sourceRow, DuplicateMonth)}
                      else ContentIssues(version, f)
  {
  }

  lemma InEither(issue: Issue, a: set<Issue>, b: set<Issue>, inA: bool, inB: bool)
    requires (issue in a <==> inA) && (issue in b <==> inB)
    ensures issue in a + b <==> inA || inB
  {
  }

  lemma EvaluationRowReports(lib: Values.Library, students: seq<StudentItem>, version: string, kept: seq<EvaluationItem>,
                             keys: set<(string, nat)>, f: EvaluationFields, row: nat, p: Problem)
    requires keys == Keys(kept)
    ensures Issue(Evaluations, Some(row), p) in RowIssues(keys, Judge(lib, students, version, f))
       <==> f.sourceRow == row && EvaluationProblem(lib, students, version, kept, f, p)
  {
    var s := FindStudent(students, f.localCode);
    RowIssuesAre(lib, students, version, keys, f);
    if s.Some? {
      var issue, identity := Issue(Evaluations, Some(row), p), IdentityIssues(lib, s.value, f);
      var found := f.sourceRow == row && IdentityProblem(lib, s.value, f, p);
      IdentityReports(lib, s.value, f, row, p);
      if f.month.None? {
        InEither(issue, identity, {EvaluationIssue(f.sourceRow, BadMonth)}, found, f.sourceRow == row && p.BadMonth?);
      } else {
        TakenMeansKey(kept, keys, f);
        if MonthIsTaken(kept, f) {
          InEither(issue, identity, {EvaluationIssue(f.sourceRow, DuplicateMonth)}, found, f.sourceRow == row && p.DuplicateMonth?);
        } else {
          ContentReports(version, f, row, p);
          InEither(issue, identity, ContentIssues(version, f), found, f.sourceRow == row && AnswerProblem(version, f, p));
        }
      }
    }
  }

  lemma EvaluationErrorsGrow(js: seq<Judgement>, i: nat)
    requires i < |js|
    ensures var front := ReadEvaluations(js[..i]);
            ReadEvaluations(js[..i + 1]).errors == front.errors + RowIssues(front.keys, js[i])
  {
    OneMoreEvaluation(js, i);
  }

  lemma KeysAreThoseKept(lib: Values.Library, students: seq<StudentItem>, version: string, fields: seq<EvaluationFields>, i: nat)
    requires i <= |fields|
    ensures var st := ReadEvaluations(JudgeAll(lib, students, version, fields)[..i]); st.keys == Keys(st.items)
  {
    JudgedProperly(lib, students, version, fields);
    KeptEvaluationsAreDistinct(JudgeAll(lib, students, version, fields)[..i]);
  }

  lemma RowReportsAt(lib: Values.Library, students: seq<StudentItem>, version: string, fields: seq<EvaluationFields>, i: nat,
                     row: nat, p: Problem)
    requires i < |fields|
    ensures var js := JudgeAll(lib, students, version, fields);
            Issue(Evaluations, Some(row), p) in RowIssues(ReadEvaluations(js[..i]).keys, js[i])
            <==> fields[i].sourceRow == row && EvaluationProblemAt(lib, students, version, fields, i, p)
  {
    var st := ReadEvaluations(JudgeAll(lib, students, version, fields)[..i]);
    KeysAreThoseKept(lib, students, version, fields, i);
    EvaluationRowReports(lib, students, version, st.items, st.keys, fields[i], row, p);
  }

  /** What a growing set holds comes from one of its parts. */
  lemma {:induction false} UnionOfParts(sums: seq<set<Issue>>, parts: seq<set<Issue>>, n: nat, issue: Issue)
    requires n <= |parts| && |sums| == |parts| + 1 && sums[0] == {}
    requires forall i :: 0 <= i < |parts| ==> sums[i + 1] == sums[i] + parts[i]
    ensures issue in sums[n] <==> exists i :: 0 <= i < n && issue in parts[i]
  {
    if n > 0 {
      UnionOfParts(sums, parts, n - 1, issue);
      assert sums[n - 1 + 1] == sums[n];
    }
  }

  lemma IssueComesFromRow(js: seq<Judgement>, adds: seq<bool>, issue: Issue)
    requires |js| == |adds|
    requires forall i :: 0 <= i < |js| ==> (adds[i] <==> issue in RowIssues(ReadEvaluations(js[..i]).keys, js[i]))
    ensures issue in ReadEvaluations(js).errors <==> exists i :: 0 <= i < |js| && adds[i]
  {
    var sums := seq(|js| + 1, i requires 0 <= i <= |js| => ReadEvaluations(js[..i]).errors);
    var parts := seq(|js|, i requires 0 <= i < |js| => RowIssues(ReadEvaluations(js[..i]).keys, js[i]));
    forall i | 0 <= i < |js| ensures sums[i + 1] == sums[i] + parts[i] {
      EvaluationErrorsGrow(js, i);
    }
    UnionOfParts(sums, parts, |js|, issue);
    assert js[..|js|] == js;
  }

  lemma RowsAdd(lib: Values.Library, students: seq<StudentItem>, version: string, fields: seq<EvaluationFields>,
                row: nat, p: Problem, adds: seq<bool>)
    requires |adds| == |fields|
    requires forall i :: 0 <= i < |fields| ==>
               (adds[i] <==> fields[i].sourceRow == row && EvaluationProblemAt(lib, students, version, fields, i, p))
    ensures Issue(Evaluations, Some(row), p) in ReadEvaluations(JudgeAll(lib, students, version, fields)).errors
       <==> exists i :: 0 <= i < |adds| && adds[i]
  {
    var js := JudgeAll(lib, students, version, fields);
    forall i | 0 <= i < |js|
      ensures adds[i] <==> Issue(Evaluations, Some(row), p) in RowIssues(ReadEvaluations(js[..i]).keys, js[i])
    {
      RowReportsAt(lib, students, version, fields, i, row, p);
    }
    IssueComesFromRow(js, adds, Issue(Evaluations, Some(row), p));
  }

  /** Reported for an evaluation row are exactly its problems: an unknown student, or whatever
      is wrong with its identity cells, and the first of a bad month, a month that is taken,
      an unknown version, wrong indicators and a long note. */
  lemma EvaluationErrorsAreTheProblems(lib: Values.Library, students: seq<StudentItem>, version: string,
                                       fields: seq<EvaluationFields>, row: nat, p: Problem)
    ensures Issue(Evaluations, Some(row), p) in ReadEvaluations(JudgeAll(lib, students, version, fields)).errors
       <==> HasEvaluationProblem(lib, students, version, fields, row, p)
  {
    var adds := seq(|fields|, i requires 0 <= i < |fields| =>
      fields[i].sourceRow == row && EvaluationProblemAt(lib, students, version, fields, i, p));
    RowsAdd(lib, students, version, fields, row, p, adds);
  }

  // ---------------------------------------------------------------- the whole workbook

  /** More students kept for the class of the row than it has places. */
  predicate IsOverfull(p: Prepared, c: nat, row: nat)
    requires c < |p.classes|
  {
    p.classes[c].sourceRow == row && p.classes[c].capacity < Enrolled(p.students, p.classes[c].code)
  }

  ghost predicate SomeOverfull(p: Prepared, row: nat) {
    exists c :: 0 <= c < |p.classes| && IsOverfull(p, c, row)
  }

  predicate DifferentVersions(fields: seq<EvaluationFields>) {
    exists i, j :: 0 <= i < |fields| && 0 <= j < |fields| && DeclareDifferently(fields[i], fields[j])
  }

  predicate DeclareDifferently(a: EvaluationFields, b: EvaluationFields) {
    a.declaresVersion && b.declaresVersion && a.version != b.version
  }

  /** The problem exists where the issue says. */
  ghost predicate IsJustified(lib: Values.Library, w: Sheets, p: Prepared, issue: Issue) {
    match issue
    case Issue(Classes, None, problem) =>
      w.year.None? && problem == if w.severalYears then AmbiguousYear else UnknownYear
    case Issue(Classes, Some(row), problem) =>
      HasClassProblem(w.classes, row, problem) || (problem.OverCapacity? && w.year.Some? && SomeOverfull(p, row))
    case Issue(Students, None, _) => false
    case Issue(Students, Some(row), problem) => HasStudentProblem(ClassCodes(p.classes), w.students, row, problem)
    case Issue(Evaluations, None, problem) => problem.MixedFrameworks? && DifferentVersions(w.evaluations)
    case Issue(Evaluations, Some(row), problem) =>
      HasEvaluationProblem(lib, p.students, p.frameworkVersion, w.evaluations, row, problem)
  }

  lemma {:induction false} ClassErrorsAreOfRows(fields: seq<ClassFields>)
    ensures forall e :: e in ReadClasses(fields).errors ==> e.sheet == Classes && e.row.Some?
  {
    if fields != [] {
      ClassErrorsAreOfRows(fields[..|fields| - 1]);
    }
  }

  lemma StudentIssuesAreOfRows(codes: set<string>, st: StudentState, f: StudentFields)
    ensures forall e :: e in StudentIssues(codes, st, f) ==> e.sheet == Students && e.row.Some?
  {
  }

  lemma StudentErrorsGrow(codes: set<string>, st: StudentState, f: StudentFields)
    ensures StudentStep(codes, st, f).errors == st.errors + StudentIssues(codes, st, f)
  {
    StudentIssuesAreReported(codes, st, f);
  }

  lemma {:induction false} StudentErrorsAreOfRows(codes: set<string>, fields: seq<StudentFields>)
    ensures forall e :: e in ReadStudents(codes, fields).errors ==> e.sheet == Students && e.row.Some?
  {
    if fields != [] {
      var n := |fields| - 1;
      StudentErrorsAreOfRows(codes, fields[..n]);
      StudentIssuesAreOfRows(codes, ReadStudents(codes, fields[..n]), fields[n]);
      StudentErrorsGrow(codes, ReadStudents(codes, fields[..n]), fields[n]);
    }
  }

  predicate OfEvaluationRows(j: Judgement) {
    && (forall e :: e in j.whenNew ==> e.sheet == Evaluations && e.row.Some?)
    && (forall e :: e in j.whenRepeated ==> e.sheet == Evaluations && e.row.Some?)
  }

  lemma {:induction false} EvaluationErrorsAreOfRows(js: seq<Judgement>)
    requires forall i :: 0 <= i < |js| ==> OfEvaluationRows(js[i])
    ensures forall e :: e in ReadEvaluations(js).errors ==> e.sheet == Evaluations && e.row.Some?
  {
    if js != [] {
      var n := |js| - 1;
      EvaluationErrorsAreOfRows(js[..n]);
      assert OfEvaluationRows(js[n]);
    }
  }

  lemma MetricIssuesAreOfRows(row: nat, codes: seq<string>, metrics: map<string, Option<nat>>)
    ensures InEvaluationRows(MetricIssues(row, codes, metrics))
  {
  }

  lemma ContentIssuesAreOfRows(version: string, f: EvaluationFields)
    ensures InEvaluationRows(ContentIssues(version, f))
  {
    var framework := FrameworkOf(VersionOf(f, version));
    if framework.Some? {
      MetricIssuesAreOfRows(f.sourceRow, Codes(framework.value), f.metrics);
    }
  }

  lemma JudgedOfRows(lib: Values.Library, students: seq<StudentItem>, version: string, f: EvaluationFields)
    ensures OfEvaluationRows(Judge(lib, students, version, f))
  {
    var s := FindStudent(students, f.localCode);
    if s.Some? {
      IdentityReports(lib, s.value, f, 0, UnknownStudent);
      ContentIssuesAreOfRows(version, f);
    }
  }

  lemma SeveralVersions(fields: seq<EvaluationFields>)
    ensures |VersionsIn(fields)| > 1 <==> DifferentVersions(fields)
  {
    var versions := VersionsIn(fields);
    if DifferentVersions(fields) {
      var i, j :| 0 <= i < |fields| && 0 <= j < |fields| && DeclareDifferently(fields[i], fields[j]);
      assert fields[i].version in versions && fields[j].version in versions;
      if |versions| <= 1 {
        OneVersion(versions, fields[i].version, fields[j].version);
      }
    } else if versions != {} {
      var v :| v in versions;
      forall other | other in versions ensures other == v {
        var i :| 0 <= i < |fields| && fields[i].declaresVersion && fields[i].version == v;
        var j :| 0 <= j < |fields| && fields[j].declaresVersion && fields[j].version == other;
        assert !DeclareDifferently(fields[i], fields[j]);
      }
      assert versions == {v};
    }
  }

  lemma OverfullIsReported(p: Prepared, issue: Issue)
    ensures issue in CapacityIssues(p.classes, p.students)
       <==> issue.sheet.Classes? && issue.row.Some? && issue.problem.OverCapacity? && SomeOverfull(p, issue.row.value)
  {
    if issue in CapacityIssues(p.classes, p.students) {
      var c :| 0 <= c < |p.classes| && Enrolled(p.students, p.classes[c].code) > p.classes[c].capacity
               && issue == ClassIssue(p.classes[c].sourceRow, OverCapacity);
      assert IsOverfull(p, c, issue.row.value);
    }
    if issue.sheet.Classes? && issue.row.Some? && issue.problem.OverCapacity? && SomeOverfull(p, issue.row.value) {
      var c :| 0 <= c < |p.classes| && IsOverfull(p, c, issue.row.value);
      assert issue == ClassIssue(p.classes[c].sourceRow, OverCapacity);
    }
  }

  /** The report, when it is known of each part whether it holds the issue. */
  lemma PartsAreExact(lib: Values.Library, w: Sheets, p: Prepared, f: Findings, issue: Issue)
    requires f.year == YearIssues(w) && f.version == VersionIssues(VersionsIn(w.evaluations))
    requires |VersionsIn(w.evaluations)| > 1 <==> DifferentVersions(w.evaluations)
    requires issue in f.classes
        <==> issue.sheet.Classes? && issue.row.Some? && HasClassProblem(w.classes, issue.row.value, issue.problem)
    requires issue in f.students
        <==> issue.sheet.Students? && issue.row.Some?
             && HasStudentProblem(ClassCodes(p.classes), w.students, issue.row.value, issue.problem)
    requires issue in f.evaluations
        <==> issue.sheet.Evaluations? && issue.row.Some?
             && HasEvaluationProblem(lib, p.students, p.frameworkVersion, w.evaluations, issue.row.value, issue.problem)
    requires issue in f.capacity
        <==> w.year.Some? && issue.sheet.Classes? && issue.row.Some? && issue.problem.OverCapacity? && SomeOverfull(p, issue.row.value)
    ensures issue in AllOf(f) <==> IsJustified(lib, w, p, issue)
  {
  }

  lemma EvaluationFindingsAreOfRows(lib: Values.Library, students: seq<StudentItem>, version: string, fields: seq<EvaluationFields>)
    ensures InEvaluationRows(ReadEvaluations(JudgeAll(lib, students, version, fields)).errors)
  {
    var js := JudgeAll(lib, students, version, fields);
    forall i | 0 <= i < |js| ensures OfEvaluationRows(js[i]) {
      JudgedOfRows(lib, students, version, fields[i]);
    }
    EvaluationErrorsAreOfRows(js);
  }

  /** The report of a workbook holds exactly the problems that exist. */
  lemma ReportIsExact(lib: Values.Library, w: Sheets, p: Prepared, errors: set<Issue>, issue: Issue)
    requires IsOutcome(lib, w, p, errors)
    ensures issue in errors <==> IsJustified(lib, w, p, issue)
  {
    FindingsAreJustified(lib, w, p, issue);
  }

  lemma FindingsAreJustified(lib: Values.Library, w: Sheets, p: Prepared, issue: Issue)
    requires p.year == w.year
    ensures issue in AllOf(FindingsOf(lib, w, p)) <==> IsJustified(lib, w, p, issue)
  {
    ClassFindings(w.classes, issue);
    StudentFindings(ClassCodes(p.classes), w.students, issue);
    EvaluationFindings(lib, p.students, p.frameworkVersion, w.evaluations, issue);
    SeveralVersions(w.evaluations);
    OverfullIsReported(p, issue);
    PartsAreExact(lib, w, p, FindingsOf(lib, w, p), issue);
  }

  lemma ClassFindings(fields: seq<ClassFields>, issue: Issue)
    ensures issue in ReadClasses(fields).errors
       <==> issue.sheet.Classes? && issue.row.Some? && HasClassProblem(fields, issue.row.value, issue.problem)
  {
    ClassErrorsAreOfRows(fields);
    if issue.sheet.Classes? && issue.row.Some? {
      assert issue == Issue(Classes, Some(issue.row.value), issue.problem);
      ClassErrorsAreTheProblems(fields, issue.row.value, issue.problem);
    }
  }

  lemma StudentFindings(codes: set<string>, fields: seq<StudentFields>, issue: Issue)
    ensures issue in ReadStudents(codes, fields).errors
       <==> issue.sheet.Students? && issue.row.Some? && HasStudentProblem(codes, fields, issue.row.value, issue.problem)
  {
    StudentErrorsAreOfRows(codes, fields);
    if issue.sheet.Students? && issue.row.Some? {
      assert issue == Issue(Students, Some(issue.row.value), issue.problem);
      StudentErrorsAreTheProblems(codes, fields, issue.row.value, issue.problem);
    }
  }

  lemma EvaluationFindings(lib: Values.Library, students: seq<StudentItem>, version: string, fields: seq<EvaluationFields>, issue: Issue)
    ensures issue in ReadEvaluations(JudgeAll(lib, students, version, fields)).errors
       <==> issue.sheet.Evaluations? && issue.row.Some?
            && HasEvaluationProblem(lib, students, version, fields, issue.row.value, issue.problem)
  {
    EvaluationFindingsAreOfRows(lib, students, version, fields);
    if issue.sheet.Evaluations? && issue.row.Some? {
      assert issue == Issue(Evaluations, Some(issue.row.value), issue.problem);
      EvaluationErrorsAreTheProblems(lib, students, version, fields, issue.row.value, issue.problem);
    }
  }

  // ---------------------------------------------------------------- the year of the file

  /** The cell of row `i` names the year by its code or its title, up to the form of the label. */
  predicate RowNames(ctx: Context, rows: seq<ClassRow>, i: nat, y: Year)
    requires i < |rows|
  {
    var written := TextOf(rows[i].yearCode);
    && written != ""
    && (Values.FlexLabel(ctx.lib, written) == Values.FlexLabel(ctx.lib, y.code)
        || Values.FlexLabel(ctx.lib, written) == Values.FlexLabel(ctx.lib, y.title))
  }

  lemma WrittenCodes(rows: seq<ClassRow>, code: string)
    ensures code in YearCodes(rows) <==> code != "" && exists i :: 0 <= i < |rows| && TextOf(rows[i].yearCode) == code
  {
  }

  /** A year answers exactly when some row of the class sheet names it. */
  lemma AnsweringYearIsNamed(ctx: Context, rows: seq<ClassRow>, y: Year)
    ensures Answers(ctx.lib, y, KeysOf(ctx.lib, YearCodes(rows))) <==> exists i :: 0 <= i < |rows| && RowNames(ctx, rows, i, y)
  {
    var codes := YearCodes(rows);
    var keys := KeysOf(ctx.lib, codes);
    forall code ensures code in codes <==> code != "" && exists i :: 0 <= i < |rows| && TextOf(rows[i].yearCode) == code {
      WrittenCodes(rows, code);
    }
    if Answers(ctx.lib, y, keys) {
      var code :| code in codes && (Values.FlexLabel(ctx.lib, code) == Values.FlexLabel(ctx.lib, y.code)
                                    || Values.FlexLabel(ctx.lib, code) == Values.FlexLabel(ctx.lib, y.title));
      var i :| 0 <= i < |rows| && TextOf(rows[i].yearCode) == code;
      assert RowNames(ctx, rows, i, y);
    }
    if i :| 0 <= i < |rows| && RowNames(ctx, rows, i, y) {
      assert TextOf(rows[i].yearCode) in codes;
      assert Values.FlexLabel(ctx.lib, TextOf(rows[i].yearCode)) in keys;
    }
  }

  predicate WriteDifferently(a: ClassRow, b: ClassRow) {
    TextOf(a.yearCode) != "" && TextOf(b.yearCode) != "" && TextOf(a.yearCode) != TextOf(b.yearCode)
  }

  /** The file has several years exactly when two of its rows write different ones. */
  lemma SeveralYearsAreWritten(rows: seq<ClassRow>)
    ensures |YearCodes(rows)| > 1 <==> exists i, j :: 0 <= i < |rows| && 0 <= j < |rows| && WriteDifferently(rows[i], rows[j])
  {
    var codes := YearCodes(rows);
    if i, j :| 0 <= i < |rows| && 0 <= j < |rows| && WriteDifferently(rows[i], rows[j]) {
      var a, b := TextOf(rows[i].yearCode), TextOf(rows[j].yearCode);
      assert a in codes && b in codes;
      if |codes| <= 1 {
        OneVersion(codes, a, b);
      }
    } else if codes != {} {
      var code :| code in codes;
      forall other | other in codes ensures other == code {
        WrittenCodes(rows, code);
        WrittenCodes(rows, other);
        var i :| 0 <= i < |rows| && TextOf(rows[i].yearCode) == code;
        var j :| 0 <= j < |rows| && TextOf(rows[j].yearCode) == other;
        assert !WriteDifferently(rows[i], rows[j]);
      }
      assert codes == {code};
    }
  }

  // ---------------------------------------------------------------- what is kept carries the cells

  /** The class carries the cells of its row. */
  predicate CarriesClassCells(ctx: Context, row: ClassRow, item: ClassItem) {
    && item.code == TextOf(row.code) && item.sourceRow == row.sourceRow
    && item.title == (if TextOf(row.title) == "" then TextOf(row.code) else TextOf(row.title))
    && ctx.lib.decimal(TextOf(row.capacity)) == Values.Finite(item.capacity as real) && 1 <= item.capacity <= 1000
    && Some(item.grade) == ResolveGrade(ctx, row.grade)
  }

  predicate MeansFemale(word: string) { word in ["دختر", "female", "زن"] }

  predicate MeansMale(word: string) { word in ["پسر", "male", "مرد"] }

  /** The student carries the cells of the row. */
  predicate CarriesStudentCells(ctx: Context, row: StudentRow, item: StudentItem) {
    && item.firstName == TextOf(row.firstName) && item.lastName == TextOf(row.lastName)
    && item.classCode == TextOf(row.classCode) && item.sourceRow == row.sourceRow
    && (TextOf(row.localCode) != "" ==> item.localCode == TextOf(row.localCode))
    && Values.NationalId(ctx.lib, TextOf(row.nationalId)) == Some(item.nationalId)
    && Values.BirthDate(ctx.lib, row.birthDate) == Some(item.birthDate)
    && (if item.gender.Female? then MeansFemale(ctx.lib.lower(TextOf(row.gender))) else MeansMale(ctx.lib.lower(TextOf(row.gender))))
    && (var written := Values.BaseNumber(TextOf(row.studentNumber), item.nationalId, item.localCode);
        item.studentNumber == written || item.studentNumber == Values.SuffixedNumber(written, item.localCode))
  }

  /** The evaluation carries the cells of the row: a score for every indicator with a value. */
  predicate CarriesAnswers(ctx: Context, e: EvaluationInput, item: EvaluationItem, version: string) {
    && item.localCode == Text.Clean(e.row.localCode) && item.note == TextOf(e.row.note) && item.sourceRow == e.row.sourceRow
    && Values.MonthNo(ctx.lib, TextOf(e.row.month)) == Some(item.monthNo)
    && Version(item.framework) == (if Text.Clean(e.row.frameworkVersion) == "" then version else Text.Clean(e.row.frameworkVersion))
    && item.metrics.Keys == e.row.metrics.Keys
    && forall code :: code in item.metrics ==> Values.MetricScore(ctx.lib, TextOf(e.row.metrics[code])) == Some(item.metrics[code])
  }

  lemma GenderIsRead(word: string)
    ensures GenderOf(word) == if MeansFemale(word) then Some(Female) else if MeansMale(word) then Some(Male) else None
  {
    assert MeansFemale(word) <==> word == "دختر" || word == "female" || word == "زن";
    assert MeansMale(word) <==> word == "پسر" || word == "male" || word == "مرد";
  }

  /** In an accepted workbook every class, student and evaluation carries the cells of its row. */
  lemma AcceptedRowsCarryTheirCells(ctx: Context, classRows: seq<ClassRow>, studentRows: seq<StudentRow>,
                                    evaluationRows: seq<EvaluationInput>, p: Prepared)
    requires AllRowsKept(ctx.lib, Read(ctx, classRows, studentRows, evaluationRows), p)
    ensures |p.classes| == |classRows| && |p.students| == |studentRows| && |p.evaluations| == |evaluationRows|
    ensures forall i :: 0 <= i < |classRows| ==> CarriesClassCells(ctx, classRows[i], p.classes[i])
    ensures forall i :: 0 <= i < |studentRows| ==> CarriesStudentCells(ctx, studentRows[i], p.students[i])
    ensures forall i :: 0 <= i < |evaluationRows| ==> CarriesAnswers(ctx, evaluationRows[i], p.evaluations[i], p.frameworkVersion)
  {
    var w := Read(ctx, classRows, studentRows, evaluationRows);
    forall i | 0 <= i < |classRows| ensures CarriesClassCells(ctx, classRows[i], p.classes[i]) {
      assert ClassSound(w.classes[i]) && p.classes[i] == ClassOf(w.classes[i]);
      var d := ctx.lib.decimal(TextOf(classRows[i].capacity));
      assert d.value == d.value.Floor as real;
    }
    forall i | 0 <= i < |studentRows| ensures CarriesStudentCells(ctx, studentRows[i], p.students[i]) {
      assert IsStudentOf(p.students[i], w.students[i]);
      GenderIsRead(ctx.lib.lower(TextOf(studentRows[i].gender)));
    }
    forall i | 0 <= i < |evaluationRows| ensures CarriesAnswers(ctx, evaluationRows[i], p.evaluations[i], p.frameworkVersion) {
      JudgedItemCarries(ctx, p.students, p.frameworkVersion, evaluationRows[i], p.evaluations[i]);
    }
  }

  /** The evaluation of a judged row. */
  predicate CarriesFields(f: EvaluationFields, item: EvaluationItem, version: string) {
    && item.localCode == f.localCode && f.month == Some(item.monthNo) && item.note == f.note && item.sourceRow == f.sourceRow
    && Version(item.framework) == (if f.version == "" then version else f.version)
    && item.metrics.Keys == f.metrics.Keys
    && forall code :: code in item.metrics ==> f.metrics[code] == Some(item.metrics[code])
  }

  lemma EvaluationCarriesFields(version: string, f: EvaluationFields)
    requires f.month.Some? && ContentSound(version, f)
    ensures CarriesFields(f, EvaluationOf(version, f), version)
  {
    var framework := FrameworkOf(VersionOf(f, version)).value;
    FrameworkIsNamed(VersionOf(f, version), framework);
  }

  lemma JudgedCarriesFields(lib: Values.Library, students: seq<StudentItem>, version: string, f: EvaluationFields)
    ensures var item := Judge(lib, students, version, f).item;
            item.Some? ==> CarriesFields(f, item.value, version)
  {
    if f.month.Some? && ContentSound(version, f) {
      EvaluationCarriesFields(version, f);
    }
  }

  lemma JudgedItemCarries(ctx: Context, students: seq<StudentItem>, version: string, e: EvaluationInput, item: EvaluationItem)
    requires Judge(ctx.lib, students, version, EvaluationFieldsOf(ctx, e)).item == Some(item)
    ensures CarriesAnswers(ctx, e, item, version)
  {
    JudgedCarriesFields(ctx.lib, students, version, EvaluationFieldsOf(ctx, e));
    FieldsCarryCells(ctx, e, item, version);
  }

  lemma FieldsCarryCells(ctx: Context, e: EvaluationInput, item: EvaluationItem, version: string)
    requires CarriesFields(EvaluationFieldsOf(ctx, e), item, version)
    ensures CarriesAnswers(ctx, e, item, version)
  {
  }
}
