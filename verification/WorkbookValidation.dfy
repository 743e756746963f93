/** Validation of a loaded school workbook: the academic year, the passes over classes,
    students and evaluations, and the capacities of the file. */
module WorkbookValidation {
  import opened ClassValidation
  import opened EvaluationValidation
  import opened MetricCatalog
  import opened Options
  import opened PreparedWorkbook
  import opened StudentValidation
  import opened ValidationIssues
  import Text
  import WorkbookSheet
  import Values = WorkbookValues

  // ---------------------------------------------------------------- the academic year

  predicate Answers(lib: Values.Library, y: Year, keys: set<string>) {
    Values.FlexLabel(lib, y.code) in keys || Values.FlexLabel(lib, y.title) in keys
  }

  function Answering(lib: Values.Library, years: seq<Year>, keys: set<string>): (found: seq<Year>)
    ensures forall i :: 0 <= i < |found| ==> found[i] in years && Answers(lib, found[i], keys)
  {
    if years == [] then []
    else (if Answers(lib, years[0], keys) then [years[0]] else []) + Answering(lib, years[1..], keys)
  }

  function Filtered(years: seq<Year>, keep: Year -> bool): (found: seq<Year>)
    ensures forall i :: 0 <= i < |found| ==> found[i] in years
  {
    if years == [] then []
    else (if keep(years[0]) then [years[0]] else []) + Filtered(years[1..], keep)
  }

  /** The current year when there is one, else the active one, else the only one. */
  function FallbackYear(years: seq<Year>): Option<Year> {
    var current := Filtered(years, (y: Year) => y.isCurrent);
    var active := Filtered(years, (y: Year) => y.isActive);
    if |current| == 1 then Some(current[0])
    else if |active| == 1 then Some(active[0])
    else if |years| == 1 then Some(years[0])
    else None
  }

  function YearCodes(rows: seq<ClassRow>): set<string> {
    (set i | 0 <= i < |rows| :: TextOf(rows[i].yearCode)) - {""}
  }

  function KeysOf(lib: Values.Library, codes: set<string>): set<string> {
    set c | c in codes :: Values.FlexLabel(lib, c)
  }

  function ResolveAmong(years: seq<Year>, codes: nat, answering: seq<Year>): Option<Year> {
    if codes > 1 then
      if answering != [] && forall i :: 0 <= i < |answering| ==> answering[i].id == answering[0].id
      then Some(answering[0]) else None
    else if codes == 1 && answering != [] then Some(answering[0])
    else FallbackYear(years)
  }

  function ResolveYear(ctx: Context, rows: seq<ClassRow>): Option<Year> {
    var codes := YearCodes(rows);
    ResolveAmong(ctx.years, |codes|, Answering(ctx.lib, ctx.years, KeysOf(ctx.lib, codes)))
  }

  /** Exactly one position of the list holds such a year. */
  ghost predicate OnlyOne(years: seq<Year>, keep: Year -> bool) {
    exists i :: IsOnly(years, keep, i)
  }

  ghost predicate IsOnly(years: seq<Year>, keep: Year -> bool, i: int) {
    0 <= i < |years| && keep(years[i]) && forall j :: 0 <= j < |years| && keep(years[j]) ==> j == i
  }

  lemma {:induction false} FilteredIsEmpty(years: seq<Year>, keep: Year -> bool)
    ensures Filtered(years, keep) == [] <==> forall i :: 0 <= i < |years| ==> !keep(years[i])
  {
    if years != [] {
      FilteredIsEmpty(years[1..], keep);
      assert forall i :: 1 <= i < |years| ==> years[i] == years[1..][i - 1];
      assert forall i :: 0 <= i < |years| - 1 ==> years[1..][i] == years[i + 1];
    }
  }

  lemma {:induction false} FilteredIsOne(years: seq<Year>, keep: Year -> bool)
    ensures |Filtered(years, keep)| == 1 <==> OnlyOne(years, keep)
    ensures Filtered(years, keep) != [] ==> keep(Filtered(years, keep)[0])
  {
    if years != [] {
      var rest := years[1..];
      FilteredIsOne(rest, keep);
      FilteredIsEmpty(rest, keep);
      if |Filtered(years, keep)| == 1 {
        if keep(years[0]) {
          assert forall j :: 1 <= j < |years| ==> years[j] == rest[j - 1] && !keep(rest[j - 1]);
          assert IsOnly(years, keep, 0);
        } else {
          var i :| IsOnly(rest, keep, i);
          forall j | 0 <= j < |years| && keep(years[j]) ensures j == i + 1 {
            assert keep(rest[j - 1]);
          }
          assert IsOnly(years, keep, i + 1);
        }
      }
      if OnlyOne(years, keep) {
        var i :| IsOnly(years, keep, i);
        if i == 0 {
          forall j | 0 <= j < |rest| ensures !keep(rest[j]) {
            assert rest[j] == years[j + 1];
          }
        } else {
          assert !keep(years[0]);
          forall j | 0 <= j < |rest| && keep(rest[j]) ensures j == i - 1 {
            assert keep(years[j + 1]);
          }
          assert IsOnly(rest, keep, i - 1);
        }
      }
    }
  }

  lemma {:induction false} AnsweringHoldsAll(lib: Values.Library, years: seq<Year>, keys: set<string>)
    ensures forall y :: y in years && Answers(lib, y, keys) ==> y in Answering(lib, years, keys)
  {
    if years != [] {
      AnsweringHoldsAll(lib, years[1..], keys);
    }
  }

  /** Without a written code that answers, the only current year is taken, else the only
      active one, else the only one. */
  lemma FallbackYearExactly(years: seq<Year>)
    ensures var r := FallbackYear(years);
            && (r.Some? ==> r.value in years)
            && (r.Some? <==> OnlyOne(years, (y: Year) => y.isCurrent) || OnlyOne(years, (y: Year) => y.isActive) || |years| == 1)
            && (OnlyOne(years, (y: Year) => y.isCurrent) ==> r.Some? && r.value.isCurrent)
            && (!OnlyOne(years, (y: Year) => y.isCurrent) && OnlyOne(years, (y: Year) => y.isActive) ==> r.Some? && r.value.isActive)
  {
    FilteredIsOne(years, (y: Year) => y.isCurrent);
    FilteredIsOne(years, (y: Year) => y.isActive);
  }

  ghost predicate SomeAnswer(lib: Values.Library, years: seq<Year>, keys: set<string>) {
    exists y :: y in years && Answers(lib, y, keys)
  }

  ghost predicate AnswersAgree(lib: Values.Library, years: seq<Year>, keys: set<string>) {
    forall y, z | y in years && z in years && Answers(lib, y, keys) && Answers(lib, z, keys) :: y.id == z.id
  }

  /** What the list of answering years says. */
  lemma AnsweringExactly(lib: Values.Library, years: seq<Year>, keys: set<string>)
    ensures var answering := Answering(lib, years, keys);
            && (answering != [] <==> SomeAnswer(lib, years, keys))
            && ((forall i :: 0 <= i < |answering| ==> answering[i].id == answering[0].id) <==> AnswersAgree(lib, years, keys))
  {
    var answering := Answering(lib, years, keys);
    AnsweringHoldsAll(lib, years, keys);
    if answering != [] {
      assert answering[0] in years && Answers(lib, answering[0], keys);
    }
    if AnswersAgree(lib, years, keys) {
      forall i | 0 <= i < |answering| ensures answering[i].id == answering[0].id {
        assert answering[i] in years && Answers(lib, answering[i], keys);
      }
    }
  }

  /** Which year is resolved.  Several written codes must all name one year; a single code
      names a year when it can; otherwise the fallback decides. */
  lemma ResolvedYearExactly(ctx: Context, rows: seq<ClassRow>)
    ensures var codes, r := |YearCodes(rows)|, ResolveYear(ctx, rows);
            var keys := KeysOf(ctx.lib, YearCodes(rows));
            && (r.Some? ==> r.value in ctx.years)
            && (codes > 1 ==> (r.Some? <==> SomeAnswer(ctx.lib, ctx.years, keys) && AnswersAgree(ctx.lib, ctx.years, keys)))
            && (codes == 1 && SomeAnswer(ctx.lib, ctx.years, keys) ==> r.Some?)
            && (codes >= 1 && r.Some? && SomeAnswer(ctx.lib, ctx.years, keys) ==> Answers(ctx.lib, r.value, keys))
            && (codes == 0 || (codes == 1 && !SomeAnswer(ctx.lib, ctx.years, keys)) ==> r == FallbackYear(ctx.years))
  {
    ResolvedExactly(ctx.lib, ctx.years, |YearCodes(rows)|, KeysOf(ctx.lib, YearCodes(rows)));
  }

  lemma ResolvedExactly(lib: Values.Library, years: seq<Year>, codes: nat, keys: set<string>)
    ensures var r := ResolveAmong(years, codes, Answering(lib, years, keys));
            && (r.Some? ==> r.value in years)
            && (codes > 1 ==> (r.Some? <==> SomeAnswer(lib, years, keys) && AnswersAgree(lib, years, keys)))
            && (codes == 1 && SomeAnswer(lib, years, keys) ==> r.Some?)
            && (codes >= 1 && r.Some? && SomeAnswer(lib, years, keys) ==> Answers(lib, r.value, keys))
            && (codes == 0 || (codes == 1 && !SomeAnswer(lib, years, keys)) ==> r == FallbackYear(years))
  {
    var answering := Answering(lib, years, keys);
    AnsweringExactly(lib, years, keys);
    FallbackYearExactly(years);
    if answering != [] {
      assert answering[0] in years && Answers(lib, answering[0], keys);
    }
  }

  // ---------------------------------------------------------------- the whole workbook

  /** The position of a class in the file. */
  function FindClass(classes: seq<ClassItem>, code: string): (at: Option<nat>)
    ensures at.Some? ==> at.value < |classes| && classes[at.value].code == code
    ensures at.None? ==> forall i :: 0 <= i < |classes| ==> classes[i].code != code
  {
    if classes == [] then None
    else if classes[|classes| - 1].code == code then Some(|classes| - 1)
    else FindClass(classes[..|classes| - 1], code)
  }

  function CapacityIssues(classes: seq<ClassItem>, students: seq<StudentItem>): set<Issue> {
    set i | 0 <= i < |classes| && Enrolled(students, classes[i].code) > classes[i].capacity
      :: ClassIssue(classes[i].sourceRow, OverCapacity)
  }

  method CountStudents(students: seq<StudentItem>) returns (counts: map<string, nat>)
    ensures forall code :: code !in counts ==> Enrolled(students, code) == 0
    ensures forall code :: code in counts ==> counts[code] == Enrolled(students, code)
  {
    counts := map[];
    for i := 0 to |students|
      invariant forall code :: code !in counts ==> Enrolled(students[..i], code) == 0
      invariant forall code :: code in counts ==> counts[code] == Enrolled(students[..i], code)
    {
      assert students[..i + 1][..i] == students[..i];
      var code := students[i].classCode;
      counts := counts[code := if code in counts then counts[code] + 1 else 1];
    }
    assert students[..|students|] == students;
  }

  method CheckCapacities(classes: seq<ClassItem>, students: seq<StudentItem>) returns (errors: set<Issue>)
    requires ClassesAreDistinct(classes)
    ensures errors == CapacityIssues(classes, students)
  {
    var counts := CountStudents(students);
    errors := {};
    var todo := counts.Keys;
    while todo != {}
      invariant todo <= counts.Keys
      invariant errors == set i | 0 <= i < |classes| && classes[i].code !in todo
                                  && Enrolled(students, classes[i].code) > classes[i].capacity
                            :: ClassIssue(classes[i].sourceRow, OverCapacity)
      decreases |todo|
    {
      var code :| code in todo;
      todo := todo - {code};
      var at := FindClass(classes, code);
      if at.Some? && counts[code] > classes[at.value].capacity {
        errors := errors + {ClassIssue(classes[at.value].sourceRow, OverCapacity)};
      }
    }
  }

  // ---------------------------------------------------------------- the outcome

  /** The workbook after reading its cells. */
  datatype Sheets = Sheets(
    year: Option<Year>, severalYears: bool,
    classes: seq<ClassFields>, students: seq<StudentFields>, evaluations: seq<EvaluationFields>)

  function Read(ctx: Context, classRows: seq<ClassRow>, studentRows: seq<StudentRow>, evaluationRows: seq<EvaluationInput>): Sheets {
    Sheets(ResolveYear(ctx, classRows), |YearCodes(classRows)| > 1, ClassFieldsOfAll(ctx, classRows),
           StudentFieldsOfAll(ctx, studentRows), EvaluationFieldsOfAll(ctx, evaluationRows))
  }

  /** What reading guarantees of the values it could read. */
  predicate ReadInRange(w: Sheets) {
    && (forall i :: 0 <= i < |w.classes| && w.classes[i].capacity.Some? ==> w.classes[i].capacity.value >= 1)
    && (forall i :: 0 <= i < |w.classes| && w.classes[i].raises ==> w.classes[i].capacity.None?)
    && (forall i :: 0 <= i < |w.students| && w.students[i].raises ==> w.students[i].birthDate.None?)
    && (forall i :: 0 <= i < |w.students| && w.students[i].nationalId.Some? ==> |w.students[i].nationalId.value| == 10)
    && (forall i :: 0 <= i < |w.evaluations| ==> EvaluationInRange(w.evaluations[i]))
  }

  predicate EvaluationInRange(f: EvaluationFields) {
    && (f.month.Some? ==> 1 <= f.month.value <= 12 && !f.monthRaises)
    && (forall code :: code in f.metrics && code in f.raising ==> f.metrics[code].None?)
    && (forall code :: code in f.metrics && f.metrics[code].Some? ==> f.metrics[code].value <= 5)
    && (f.version != "" ==> f.declaresVersion)
  }

  lemma ReadingIsInRange(ctx: Context, classRows: seq<ClassRow>, studentRows: seq<StudentRow>, evaluationRows: seq<EvaluationInput>)
    ensures ReadInRange(Read(ctx, classRows, studentRows, evaluationRows))
  {
    var w := Read(ctx, classRows, studentRows, evaluationRows);
    forall i | 0 <= i < |w.students| && w.students[i].nationalId.Some? ensures |w.students[i].nationalId.value| == 10 {
      Values.NationalIdHasTenDigits(ctx.lib, TextOf(studentRows[i].nationalId));
    }
    forall i | 0 <= i < |w.evaluations| ensures EvaluationInRange(w.evaluations[i]) {
      EvaluationReadInRange(ctx, evaluationRows[i]);
    }
    forall i | 0 <= i < |w.classes| && w.classes[i].raises ensures w.classes[i].capacity.None? {
      Values.RaisingCellsHaveNoValue(ctx.lib, TextOf(classRows[i].capacity), 1000);
    }
    forall i | 0 <= i < |w.students| && w.students[i].raises ensures w.students[i].birthDate.None? {
      Values.RaisingDatesHaveNoValue(ctx.lib, studentRows[i].birthDate);
    }
  }

  lemma EvaluationReadInRange(ctx: Context, e: EvaluationInput)
    ensures EvaluationInRange(EvaluationFieldsOf(ctx, e))
  {
    Values.RaisingCellsHaveNoValue(ctx.lib, TextOf(e.row.month), 12);
  }

  function YearIssues(w: Sheets): set<Issue> {
    if w.year.Some? then {} else {Issue(Classes, None, if w.severalYears then AmbiguousYear else UnknownYear)}
  }

  /** The errors of the parts. */
  datatype Findings = Findings(
    year: set<Issue>, classes: set<Issue>, students: set<Issue>, version: set<Issue>, evaluations: set<Issue>, capacity: set<Issue>)

  function FindingsOf(lib: Values.Library, w: Sheets, p: Prepared): Findings {
    Findings(YearIssues(w), ReadClasses(w.classes).errors, ReadStudents(ClassCodes(p.classes), w.students).errors,
             VersionIssues(VersionsIn(w.evaluations)),
             ReadEvaluations(JudgeAll(lib, p.students, p.frameworkVersion, w.evaluations)).errors,
             if p.year.Some? then CapacityIssues(p.classes, p.students) else {})
  }

  function AllOf(f: Findings): set<Issue> {
    f.year + f.classes + f.students + (f.version + f.evaluations) + f.capacity
  }

  /** The rows that the three passes keep. */
  predicate KeptByPasses(lib: Values.Library, w: Sheets, p: Prepared) {
    && p.classes == ReadClasses(w.classes).items
    && p.students == ReadStudents(ClassCodes(p.classes), w.students).items
    && p.evaluations == ReadEvaluations(JudgeAll(lib, p.students, p.frameworkVersion, w.evaluations)).items
  }

  /** The result of the three passes and the capacity check. */
  predicate IsOutcome(lib: Values.Library, w: Sheets, p: Prepared, errors: set<Issue>) {
    && p.year == w.year && KeptByPasses(lib, w, p)
    && WorkbookVersion(VersionsIn(w.evaluations), p.frameworkVersion)
    && errors == AllOf(FindingsOf(lib, w, p))
  }

  /** What a call of the validator comes to: an exception that is not caught, or the kept
      rows with the errors. */
  datatype Outcome = Raised | Returned(prepared: Prepared, errors: set<Issue>)

  function KeptStudents(w: Sheets): seq<StudentItem> {
    ReadStudents(ClassCodes(ReadClasses(w.classes).items), w.students).items
  }

  /** A capacity, a birth date or a cell of an evaluation that is looked at raises. */
  predicate SomeCellRaises(lib: Values.Library, w: Sheets, version: string) {
    ClassesRaise(w.classes) || StudentsRaise(w.students) || EvaluationsRaise(lib, KeptStudents(w), version, w.evaluations)
  }

  /** The validator raises when a cell does, under the version it settled on, and returns
      the result of the passes otherwise. */
  ghost predicate Follows(lib: Values.Library, w: Sheets, outcome: Outcome) {
    match outcome
    case Raised => exists version :: WorkbookVersion(VersionsIn(w.evaluations), version) && SomeCellRaises(lib, w, version)
    case Returned(p, errors) => IsOutcome(lib, w, p, errors) && !SomeCellRaises(lib, w, p.frameworkVersion)
  }

  /** The validator.  When it returns, every row is kept or reported, nothing is reported
      exactly when the workbook is sound, and an empty report is all the importer needs; a
      sound workbook always returns. */
  method Validate(ctx: Context, classRows: seq<ClassRow>, studentRows: seq<StudentRow>, evaluationRows: seq<EvaluationInput>)
    returns (outcome: Outcome)
    ensures var w := Read(ctx, classRows, studentRows, evaluationRows);
            && Follows(ctx.lib, w, outcome)
            && (WorkbookSound(ctx.lib, w) ==> outcome.Returned?)
            && (outcome.Returned? ==>
                  var prepared, errors := outcome.prepared, outcome.errors;
                  && NothingIsLost(ctx.lib, w, prepared, errors)
                  && (errors == {} <==> WorkbookSound(ctx.lib, w))
                  && (errors == {} ==> WellPrepared(prepared) && AllRowsKept(ctx.lib, w, prepared)))
  {
    var w := Read(ctx, classRows, studentRows, evaluationRows);
    outcome := RunPasses(ctx.lib, w);
    ReadingIsInRange(ctx, classRows, studentRows, evaluationRows);
    if outcome.Returned? {
      EveryRowIsKeptOrReported(ctx.lib, w, outcome.prepared, outcome.errors);
      AcceptedExactlyWhenSound(ctx.lib, w, outcome.prepared, outcome.errors);
      AcceptedWorkbookIsWellPrepared(ctx.lib, w, outcome.prepared, outcome.errors);
    } else {
      SoundWorkbookReturns(ctx.lib, w);
    }
  }

  lemma SomeVersion(versions: set<string>) returns (version: string)
    ensures WorkbookVersion(versions, version)
  {
    if versions == {} {
      version := Version(Current);
    } else {
      version :| version in versions;
    }
  }

  lemma EarlierPassRaises(lib: Values.Library, w: Sheets)
    requires ClassesRaise(w.classes) || StudentsRaise(w.students)
    ensures Follows(lib, w, Raised)
  {
    var version := SomeVersion(VersionsIn(w.evaluations));
    assert SomeCellRaises(lib, w, version);
  }

  method RunPasses(lib: Values.Library, w: Sheets) returns (outcome: Outcome)
    ensures Follows(lib, w, outcome)
  {
    var errors: set<Issue> := if w.year.Some? then {} else {Issue(Classes, None, if w.severalYears then AmbiguousYear else UnknownYear)};
    var classes, classErrors, stopped := ValidateClasses(w.classes);
    if stopped {
      EarlierPassRaises(lib, w);
      return Raised;
    }
    KeptClassesAreDistinct(w.classes);
    var students, studentErrors;
    students, studentErrors, stopped := ValidateStudents(ClassCodes(classes), w.students);
    if stopped {
      EarlierPassRaises(lib, w);
      return Raised;
    }
    var evaluations, evaluationErrors, version;
    evaluations, evaluationErrors, version, stopped := ValidateEvaluations(lib, students, w.evaluations);
    if stopped {
      assert SomeCellRaises(lib, w, version);
      return Raised;
    }
    errors := errors + classErrors + studentErrors + evaluationErrors;
    if w.year.Some? {
      var capacityErrors := CheckCapacities(classes, students);
      errors := errors + capacityErrors;
    }
    var prepared := Prepared(w.year, classes, students, evaluations, version);
    Assembled(lib, w, prepared, classErrors, studentErrors, evaluationErrors, errors);
    return Returned(prepared, errors);
  }

  lemma Assembled(lib: Values.Library, w: Sheets, p: Prepared,
                  classErrors: set<Issue>, studentErrors: set<Issue>, evaluationErrors: set<Issue>, errors: set<Issue>)
    requires p.year == w.year
    requires var st := ReadClasses(w.classes); p.classes == st.items && classErrors == st.errors
    requires var st := ReadStudents(ClassCodes(p.classes), w.students); p.students == st.items && studentErrors == st.errors
    requires var st := ReadEvaluations(JudgeAll(lib, p.students, p.frameworkVersion, w.evaluations));
             && WorkbookVersion(VersionsIn(w.evaluations), p.frameworkVersion)
             && p.evaluations == st.items && evaluationErrors == VersionIssues(VersionsIn(w.evaluations)) + st.errors
    requires errors == YearIssues(w) + classErrors + studentErrors + evaluationErrors
                       + if p.year.Some? then CapacityIssues(p.classes, p.students) else {}
    ensures IsOutcome(lib, w, p, errors)
  {
  }

  // ---------------------------------------------------------------- nothing is lost

  /** Every row of the workbook is in the result, with its normalised cells, or has an error. */
  ghost predicate NothingIsLost(lib: Values.Library, w: Sheets, p: Prepared, errors: set<Issue>) {
    && (forall i :: 0 <= i < |w.classes| ==>
          ClassKept(p.classes, w.classes[i]) || Reported(errors, Classes, w.classes[i].sourceRow))
    && (forall i :: 0 <= i < |w.students| ==>
          StudentKept(p.students, w.students[i]) || Reported(errors, Students, w.students[i].sourceRow))
    && (forall i :: 0 <= i < |w.evaluations| ==>
          EvaluationKept(p.evaluations, Judge(lib, p.students, p.frameworkVersion, w.evaluations[i]))
          || Reported(errors, Evaluations, w.evaluations[i].sourceRow))
  }

  lemma EveryRowIsKeptOrReported(lib: Values.Library, w: Sheets, p: Prepared, errors: set<Issue>)
    requires IsOutcome(lib, w, p, errors)
    ensures NothingIsLost(lib, w, p, errors)
  {
    forall i | 0 <= i < |w.classes|
      ensures ClassKept(p.classes, w.classes[i]) || Reported(errors, Classes, w.classes[i].sourceRow)
    {
      ClassesKeptOrReported(w.classes, i);
      StillReported(ReadClasses(w.classes).errors, errors, Classes, w.classes[i].sourceRow);
    }
    forall i | 0 <= i < |w.students|
      ensures StudentKept(p.students, w.students[i]) || Reported(errors, Students, w.students[i].sourceRow)
    {
      StudentsKeptOrReported(ClassCodes(p.classes), w.students, i);
      StillReported(ReadStudents(ClassCodes(p.classes), w.students).errors, errors, Students, w.students[i].sourceRow);
    }
    forall i | 0 <= i < |w.evaluations|
      ensures EvaluationKept(p.evaluations, Judge(lib, p.students, p.frameworkVersion, w.evaluations[i]))
              || Reported(errors, Evaluations, w.evaluations[i].sourceRow)
    {
      EvaluationRowKeptOrReported(lib, p.students, p.frameworkVersion, w.evaluations, i);
      StillReported(ReadEvaluations(JudgeAll(lib, p.students, p.frameworkVersion, w.evaluations)).errors, errors,
                    Evaluations, w.evaluations[i].sourceRow);
    }
  }

  lemma StillReported(some: set<Issue>, all: set<Issue>, sheet: Sheet, row: nat)
    requires some <= all
    ensures Reported(some, sheet, row) ==> Reported(all, sheet, row)
  {
    if Reported(some, sheet, row) {
      ReportsGrow(some, all, sheet, row);
    }
  }

  lemma EvaluationRowKeptOrReported(lib: Values.Library, students: seq<StudentItem>, version: string, fields: seq<EvaluationFields>, i: nat)
    requires i < |fields|
    ensures var st := ReadEvaluations(JudgeAll(lib, students, version, fields));
            EvaluationKept(st.items, Judge(lib, students, version, fields[i]))
            || Reported(st.errors, Evaluations, fields[i].sourceRow)
  {
    JudgementsAreProper(lib, students, version, fields[i]);
    EvaluationsKeptOrReported(JudgeAll(lib, students, version, fields), i);
    JudgedRow(lib, students, version, fields[i]);
  }

  lemma JudgedRow(lib: Values.Library, students: seq<StudentItem>, version: string, f: EvaluationFields)
    ensures Judge(lib, students, version, f).row == f.sourceRow
  {
  }

  // ---------------------------------------------------------------- accepted workbooks

  /** No row is missing and the order is that of the file. */
  predicate AllRowsKept(lib: Values.Library, w: Sheets, p: Prepared) {
    && AllClassesKept(w.classes, p.classes) && AllStudentsKept(w.students, p.students)
    && AllEvaluationsKept(JudgeAll(lib, p.students, p.frameworkVersion, w.evaluations), p.evaluations)
  }

  lemma JudgedProperly(lib: Values.Library, students: seq<StudentItem>, version: string, fields: seq<EvaluationFields>)
    ensures forall i :: 0 <= i < |fields| ==> Proper(JudgeAll(lib, students, version, fields)[i])
  {
    forall i | 0 <= i < |fields| ensures Proper(JudgeAll(lib, students, version, fields)[i]) {
      JudgementsAreProper(lib, students, version, fields[i]);
    }
  }

  lemma NoErrorsKeepAll(lib: Values.Library, w: Sheets, p: Prepared)
    requires KeptByPasses(lib, w, p)
    ensures AllOf(FindingsOf(lib, w, p)) == {} ==> AllRowsKept(lib, w, p)
  {
    NothingFound(FindingsOf(lib, w, p));
    if AllOf(FindingsOf(lib, w, p)) == {} {
      ClassesAcceptedWhenSound(w.classes);
      StudentsAcceptedWhenSound(ClassCodes(p.classes), w.students);
      JudgedProperly(lib, p.students, p.frameworkVersion, w.evaluations);
      EvaluationsAcceptedWhenSound(JudgeAll(lib, p.students, p.frameworkVersion, w.evaluations));
    }
  }

  lemma KeptRowsAreDistinct(lib: Values.Library, w: Sheets, p: Prepared)
    requires KeptByPasses(lib, w, p)
    ensures ClassesAreDistinct(p.classes) && StudentsAreDistinct(p.students) && EvaluationsAreDistinct(p.evaluations)
    ensures forall i :: 0 <= i < |p.students| ==> p.students[i].classCode in ClassCodes(p.classes)
  {
    KeptClassesAreDistinct(w.classes);
    KeptStudentsAreSound(ClassCodes(p.classes), w.students);
    JudgedProperly(lib, p.students, p.frameworkVersion, w.evaluations);
    KeptEvaluationsAreDistinct(JudgeAll(lib, p.students, p.frameworkVersion, w.evaluations));
  }

  lemma NoneAbove(classes: seq<ClassItem>, students: seq<StudentItem>, i: nat)
    requires i < |classes|
    ensures Enrolled(students, classes[i].code) > classes[i].capacity
            ==> ClassIssue(classes[i].sourceRow, OverCapacity) in CapacityIssues(classes, students)
  {
  }

  /** The scores, the month, the student and the version of an evaluation that was kept. */
  predicate EvaluationValuesFit(students: seq<StudentItem>, version: string, item: EvaluationItem) {
    && item.localCode in LocalCodes(students) && 1 <= item.monthNo <= 12
    && Version(item.framework) == version
    && forall code :: code in item.metrics ==> item.metrics[code] <= 5 && code in Codes(item.framework)
  }

  lemma OneVersion(versions: set<string>, a: string, b: string)
    requires |versions| <= 1 && a in versions && b in versions
    ensures a == b
  {
    assert |versions - {a}| == |versions| - 1;
    assert versions - {a} == {};
  }

  lemma VersionIsTheWorkbooks(fields: seq<EvaluationFields>, version: string, f: EvaluationFields)
    requires WorkbookVersion(VersionsIn(fields), version) && VersionIssues(VersionsIn(fields)) == {}
    requires f in fields && (f.version != "" ==> f.declaresVersion)
    ensures VersionOf(f, version) == version
  {
    if f.version != "" {
      assert f.version in VersionsIn(fields);
      OneVersion(VersionsIn(fields), f.version, version);
    }
  }

  lemma JudgedItem(lib: Values.Library, students: seq<StudentItem>, version: string, f: EvaluationFields)
    requires VersionOf(f, version) == version && EvaluationInRange(f)
    ensures var item := Judge(lib, students, version, f).item;
            item.Some? ==> EvaluationValuesFit(students, version, item.value)
  {
    if Judge(lib, students, version, f).item.Some? {
      ItemIsRead(version, f);
    }
  }

  lemma ItemIsRead(version: string, f: EvaluationFields)
    requires f.month.Some? && ContentSound(version, f) && VersionOf(f, version) == version && EvaluationInRange(f)
    ensures var item := EvaluationOf(version, f);
            && Version(item.framework) == version
            && forall code :: code in item.metrics ==> item.metrics[code] <= 5 && code in Codes(item.framework)
  {
  }

  lemma AcceptedEvaluations(lib: Values.Library, fields: seq<EvaluationFields>, p: Prepared)
    requires WorkbookVersion(VersionsIn(fields), p.frameworkVersion)
    requires forall i :: 0 <= i < |fields| ==> EvaluationInRange(fields[i])
    ensures AllEvaluationsKept(JudgeAll(lib, p.students, p.frameworkVersion, fields), p.evaluations)
            && VersionIssues(VersionsIn(fields)) == {}
            ==> forall i :: 0 <= i < |p.evaluations| ==> EvaluationValuesFit(p.students, p.frameworkVersion, p.evaluations[i])
  {
    forall i | AllEvaluationsKept(JudgeAll(lib, p.students, p.frameworkVersion, fields), p.evaluations)
               && VersionIssues(VersionsIn(fields)) == {} && 0 <= i < |p.evaluations|
      ensures EvaluationValuesFit(p.students, p.frameworkVersion, p.evaluations[i]) {
      VersionIsTheWorkbooks(fields, p.frameworkVersion, fields[i]);
      assert JudgeAll(lib, p.students, p.frameworkVersion, fields)[i].item == Some(p.evaluations[i]);
      JudgedItem(lib, p.students, p.frameworkVersion, fields[i]);
    }
  }

  lemma AcceptedValues(w: Sheets, p: Prepared)
    requires ReadInRange(w) && AllClassesKept(w.classes, p.classes) && AllStudentsKept(w.students, p.students)
    requires forall i :: 0 <= i < |p.evaluations| ==> EvaluationValuesFit(p.students, p.frameworkVersion, p.evaluations[i])
    ensures ValuesAreInRange(p) && OneFramework(p)
  {
    forall i | 0 <= i < |p.students| ensures |p.students[i].nationalId| == 10 {
      assert IsStudentOf(p.students[i], w.students[i]);
    }
  }

  /** A workbook without errors gives the importer all it relies on. */
  lemma AcceptedWorkbookIsWellPrepared(lib: Values.Library, w: Sheets, p: Prepared, errors: set<Issue>)
    requires IsOutcome(lib, w, p, errors) && ReadInRange(w)
    ensures errors == {} ==> WellPrepared(p) && AllRowsKept(lib, w, p)
  {
    if errors == {} {
      NoErrorsKeepAll(lib, w, p);
      KeptRowsAreDistinct(lib, w, p);
      NothingFound(FindingsOf(lib, w, p));
      YearErrorsExactly(w);
      AcceptedEvaluations(lib, w.evaluations, p);
      AcceptedValues(w, p);
      NoCapacityIssues(p);
    }
  }

  // ---------------------------------------------------------------- acceptance, exactly

  /** Every row is usable and no student and month occur twice. */
  predicate EvaluationsSound(lib: Values.Library, students: seq<StudentItem>, version: string, fields: seq<EvaluationFields>) {
    && (forall i :: 0 <= i < |fields| ==> EvaluationSound(lib, students, version, fields[i]))
    && (forall i, j :: 0 <= i < j < |fields| ==> fields[i].localCode != fields[j].localCode || fields[i].month != fields[j].month)
  }

  /** A known year, sound sheets, one version and enough places, in terms of what was kept. */
  predicate PassesAreSound(lib: Values.Library, w: Sheets, p: Prepared) {
    && w.year.Some? && ClassesSound(w.classes) && StudentsSound(ClassCodes(p.classes), w.students)
    && |VersionsIn(w.evaluations)| <= 1
    && EvaluationsSound(lib, p.students, p.frameworkVersion, w.evaluations)
    && WithinFileCapacity(p)
  }

  lemma SoundRowsAreSoundJudgements(lib: Values.Library, students: seq<StudentItem>, version: string, fields: seq<EvaluationFields>)
    ensures JudgementsSound(JudgeAll(lib, students, version, fields)) <==> EvaluationsSound(lib, students, version, fields)
  {
    var js := JudgeAll(lib, students, version, fields);
    forall i | 0 <= i < |fields|
      ensures js[i].whenNew == {} <==> EvaluationSound(lib, students, version, fields[i])
      ensures js[i].whenNew == {} ==> fields[i].month.Some? && js[i].key == Some((fields[i].localCode, fields[i].month.value))
    {
      JudgementsAreProper(lib, students, version, fields[i]);
      KeyOfSound(lib, students, version, fields[i]);
    }
  }

  lemma KeyOfSound(lib: Values.Library, students: seq<StudentItem>, version: string, f: EvaluationFields)
    ensures EvaluationSound(lib, students, version, f)
            ==> Judge(lib, students, version, f).key == Some((f.localCode, f.month.value))
  {
  }

  lemma NoCapacityIssues(p: Prepared)
    ensures CapacityIssues(p.classes, p.students) == {} <==> WithinFileCapacity(p)
  {
    forall i | 0 <= i < |p.classes| && Enrolled(p.students, p.classes[i].code) > p.classes[i].capacity
      ensures CapacityIssues(p.classes, p.students) != {}
    {
      NoneAbove(p.classes, p.students, i);
    }
  }

  lemma EvaluationErrorsExactly(lib: Values.Library, students: seq<StudentItem>, version: string, fields: seq<EvaluationFields>)
    ensures ReadEvaluations(JudgeAll(lib, students, version, fields)).errors == {} <==> EvaluationsSound(lib, students, version, fields)
  {
    JudgedProperly(lib, students, version, fields);
    EvaluationsAcceptedWhenSound(JudgeAll(lib, students, version, fields));
    SoundRowsAreSoundJudgements(lib, students, version, fields);
  }

  lemma VersionErrorsExactly(versions: set<string>)
    ensures VersionIssues(versions) == {} <==> |versions| <= 1
  {
    assert Issue(Evaluations, None, MixedFrameworks) in {Issue(Evaluations, None, MixedFrameworks)};
  }

  lemma ClassErrorsExactly(fields: seq<ClassFields>)
    ensures ReadClasses(fields).errors == {} <==> ClassesSound(fields)
  {
    ClassesAcceptedWhenSound(fields);
  }

  lemma StudentErrorsExactly(codes: set<string>, fields: seq<StudentFields>)
    ensures ReadStudents(codes, fields).errors == {} <==> StudentsSound(codes, fields)
  {
    StudentsAcceptedWhenSound(codes, fields);
  }

  lemma YearErrorsExactly(w: Sheets)
    ensures YearIssues(w) == {} <==> w.year.Some?
  {
    var p := if w.severalYears then AmbiguousYear else UnknownYear;
    assert Issue(Classes, None, p) in {Issue(Classes, None, p)};
  }

  lemma NothingFound(f: Findings)
    ensures AllOf(f) == {} <==> f == Findings({}, {}, {}, {}, {}, {})
  {
    var all := AllOf(f);
    assert f.year <= all && f.classes <= all && f.students <= all;
    assert f.version <= all && f.evaluations <= all && f.capacity <= all;
  }

  lemma FindingsExactly(lib: Values.Library, w: Sheets, p: Prepared)
    requires p.year == w.year
    ensures FindingsOf(lib, w, p) == Findings({}, {}, {}, {}, {}, {}) <==> PassesAreSound(lib, w, p)
  {
    YearErrorsExactly(w);
    ClassErrorsExactly(w.classes);
    StudentErrorsExactly(ClassCodes(p.classes), w.students);
    VersionErrorsExactly(VersionsIn(w.evaluations));
    EvaluationErrorsExactly(lib, p.students, p.frameworkVersion, w.evaluations);
    NoCapacityIssues(p);
  }

  // ---------------------------------------------------------------- acceptance by the input alone

  function WrittenClassCodes(classes: seq<ClassFields>): set<string> {
    set i | 0 <= i < |classes| :: classes[i].code
  }

  /** How many student rows name a class. */
  function Placed(students: seq<StudentFields>, code: string): nat {
    if students == [] then 0
    else Placed(students[..|students| - 1], code) + if students[|students| - 1].classCode == code then 1 else 0
  }

  /** The identity cells of an evaluation row agree with a student row. */
  predicate IdentityFitsRow(lib: Values.Library, s: StudentFields, f: EvaluationFields) {
    && (f.idText == "" || (f.id.Some? && f.id == s.nationalId))
    && (f.classCode == "" || f.classCode == s.classCode)
    && (f.name == "" || Values.FlexLabel(lib, f.name) == Values.FlexLabel(lib, Text.Strip(s.firstName + " " + s.lastName)))
  }

  /** The evaluation row belongs to a student row of the file and its own cells are usable. */
  predicate EvaluationRowSound(lib: Values.Library, students: seq<StudentFields>, version: string, f: EvaluationFields) {
    && (exists i :: 0 <= i < |students| && LocalCodeOf(students[i], i) == f.localCode && IdentityFitsRow(lib, students[i], f))
    && f.month.Some? && ContentSound(version, f)
  }

  /** What a workbook must fulfil, in terms of its rows. */
  ghost predicate WorkbookSound(lib: Values.Library, w: Sheets) {
    SheetsSound(w) && AnswersSound(lib, w.students, w.evaluations) && PlacesSuffice(w.classes, w.students)
  }

  /** The evaluation rows are sound under the version of the workbook. */
  ghost predicate AnswersSound(lib: Values.Library, students: seq<StudentFields>, fields: seq<EvaluationFields>) {
    forall version | WorkbookVersion(VersionsIn(fields), version) :: EvaluationRowsSound(lib, students, version, fields)
  }

  predicate PlacesSuffice(classes: seq<ClassFields>, students: seq<StudentFields>) {
    forall i :: 0 <= i < |classes| && classes[i].capacity.Some? ==> Placed(students, classes[i].code) <= classes[i].capacity.value
  }

  predicate EvaluationRowsSound(lib: Values.Library, students: seq<StudentFields>, version: string, fields: seq<EvaluationFields>) {
    && (forall i :: 0 <= i < |fields| ==> EvaluationRowSound(lib, students, version, fields[i]))
    && (forall i, j :: 0 <= i < j < |fields| ==> fields[i].localCode != fields[j].localCode || fields[i].month != fields[j].month)
  }

  lemma KeptCodesAreWritten(classes: seq<ClassFields>, items: seq<ClassItem>)
    requires AllClassesKept(classes, items)
    ensures ClassCodes(items) == WrittenClassCodes(classes)
  {
    forall code ensures code in ClassCodes(items) <==> code in WrittenClassCodes(classes) {
      if code in ClassCodes(items) {
        var i :| 0 <= i < |items| && items[i].code == code;
        assert classes[i].code == code;
      }
      if code in WrittenClassCodes(classes) {
        var i :| 0 <= i < |classes| && classes[i].code == code;
        assert items[i].code == code;
      }
    }
  }

  lemma {:induction false} PlacedAreEnrolled(fields: seq<StudentFields>, items: seq<StudentItem>, code: string)
    requires AllStudentsKept(fields, items)
    ensures Enrolled(items, code) == Placed(fields, code)
  {
    if fields != [] {
      var n := |fields| - 1;
      assert IsStudentOf(items[n], fields[n]);
      forall i | 0 <= i < n ensures fields[..n][i] == fields[i] && items[..n][i] == items[i] { }
      PlacedAreEnrolled(fields[..n], items[..n], code);
    }
  }

  lemma StudentOfCode(items: seq<StudentItem>, i: nat)
    requires StudentsAreDistinct(items) && i < |items|
    ensures FindStudent(items, items[i].localCode) == Some(items[i])
  {
    if i < |items| - 1 {
      StudentOfCode(items[..|items| - 1], i);
    }
  }

  lemma SameIdentity(lib: Values.Library, s: StudentFields, item: StudentItem, f: EvaluationFields)
    requires IsStudentOf(item, s)
    ensures IdentityFits(lib, item, f) <==> IdentityFitsRow(lib, s, f)
  {
  }

  lemma SameEvaluationRow(lib: Values.Library, students: seq<StudentFields>, items: seq<StudentItem>, version: string, f: EvaluationFields)
    requires AllStudentsKept(students, items) && StudentsAreDistinct(items)
    ensures EvaluationSound(lib, items, version, f) <==> EvaluationRowSound(lib, students, version, f)
  {
    forall i | 0 <= i < |students| && LocalCodeOf(students[i], i) == f.localCode
      ensures FindStudent(items, f.localCode) == Some(items[i])
      ensures IdentityFits(lib, items[i], f) <==> IdentityFitsRow(lib, students[i], f)
    {
      StudentOfCode(items, i);
      SameIdentity(lib, students[i], items[i], f);
    }
    if FindStudent(items, f.localCode).Some? {
      var k :| 0 <= k < |items| && items[k].localCode == f.localCode;
      assert LocalCodeOf(students[k], k) == f.localCode;
    }
  }

  lemma SameCapacity(w: Sheets, p: Prepared)
    requires AllClassesKept(w.classes, p.classes) && AllStudentsKept(w.students, p.students)
    ensures WithinFileCapacity(p) <==> PlacesSuffice(w.classes, w.students)
  {
    forall i | 0 <= i < |w.classes|
      ensures w.classes[i].capacity == Some(p.classes[i].capacity)
      ensures Placed(w.students, w.classes[i].code) == Enrolled(p.students, p.classes[i].code)
    {
      PlacedAreEnrolled(w.students, p.students, w.classes[i].code);
    }
  }

  lemma SameVersion(fields: seq<EvaluationFields>, version: string, other: string)
    requires |VersionsIn(fields)| <= 1 && WorkbookVersion(VersionsIn(fields), version) && WorkbookVersion(VersionsIn(fields), other)
    ensures other == version
  {
    if VersionsIn(fields) != {} {
      OneVersion(VersionsIn(fields), version, other);
    }
  }

  lemma SoundByRows(lib: Values.Library, students: seq<StudentFields>, items: seq<StudentItem>, version: string, fields: seq<EvaluationFields>)
    requires AllStudentsKept(students, items) && StudentsAreDistinct(items)
    ensures EvaluationsSound(lib, items, version, fields) <==> EvaluationRowsSound(lib, students, version, fields)
  {
    forall i | 0 <= i < |fields|
      ensures EvaluationSound(lib, items, version, fields[i]) <==> EvaluationRowSound(lib, students, version, fields[i])
    {
      SameEvaluationRow(lib, students, items, version, fields[i]);
    }
  }

  lemma SoundUnderItsVersion(lib: Values.Library, students: seq<StudentFields>, version: string, fields: seq<EvaluationFields>)
    requires WorkbookVersion(VersionsIn(fields), version) && |VersionsIn(fields)| <= 1
    ensures AnswersSound(lib, students, fields) <==> EvaluationRowsSound(lib, students, version, fields)
  {
    forall other | WorkbookVersion(VersionsIn(fields), other) ensures other == version {
      SameVersion(fields, version, other);
    }
  }

  lemma SoundSheetsAreKept(lib: Values.Library, w: Sheets, p: Prepared)
    requires KeptByPasses(lib, w, p) && ClassesSound(w.classes)
    ensures AllClassesKept(w.classes, p.classes) && ClassCodes(p.classes) == WrittenClassCodes(w.classes)
    ensures StudentsSound(ClassCodes(p.classes), w.students) ==> AllStudentsKept(w.students, p.students)
  {
    ClassesAcceptedWhenSound(w.classes);
    KeptCodesAreWritten(w.classes, p.classes);
    StudentsAcceptedWhenSound(ClassCodes(p.classes), w.students);
  }

  /** The parts of `WorkbookSound` that come before the evaluations. */
  predicate SheetsSound(w: Sheets) {
    && w.year.Some? && ClassesSound(w.classes) && StudentsSound(WrittenClassCodes(w.classes), w.students)
    && |VersionsIn(w.evaluations)| <= 1
  }

  lemma SameSheets(w: Sheets, codes: set<string>)
    requires ClassesSound(w.classes) ==> codes == WrittenClassCodes(w.classes)
    ensures SheetsSound(w)
       <==> w.year.Some? && ClassesSound(w.classes) && StudentsSound(codes, w.students) && |VersionsIn(w.evaluations)| <= 1
  {
  }

  lemma SameSoundness(lib: Values.Library, w: Sheets, p: Prepared)
    requires WorkbookVersion(VersionsIn(w.evaluations), p.frameworkVersion) && |VersionsIn(w.evaluations)| <= 1
    requires AllClassesKept(w.classes, p.classes) && AllStudentsKept(w.students, p.students) && StudentsAreDistinct(p.students)
    ensures EvaluationsSound(lib, p.students, p.frameworkVersion, w.evaluations) <==> AnswersSound(lib, w.students, w.evaluations)
    ensures WithinFileCapacity(p) <==> PlacesSuffice(w.classes, w.students)
  {
    SoundByRows(lib, w.students, p.students, p.frameworkVersion, w.evaluations);
    SoundUnderItsVersion(lib, w.students, p.frameworkVersion, w.evaluations);
    SameCapacity(w, p);
  }

  lemma SoundnessIsOfTheInput(lib: Values.Library, w: Sheets, p: Prepared)
    requires KeptByPasses(lib, w, p) && WorkbookVersion(VersionsIn(w.evaluations), p.frameworkVersion)
    ensures PassesAreSound(lib, w, p) <==> WorkbookSound(lib, w)
  {
    KeptStudentsAreSound(ClassCodes(p.classes), w.students);
    if ClassesSound(w.classes) {
      SoundSheetsAreKept(lib, w, p);
    }
    SameSheets(w, ClassCodes(p.classes));
    if SheetsSound(w) {
      SameSoundness(lib, w, p);
    }
  }

  /** The validator reports nothing exactly when the workbook is sound. */
  lemma AcceptedExactlyWhenSound(lib: Values.Library, w: Sheets, p: Prepared, errors: set<Issue>)
    requires IsOutcome(lib, w, p, errors)
    ensures errors == {} <==> WorkbookSound(lib, w)
  {
    SoundnessIsOfTheInput(lib, w, p);
    NothingFound(FindingsOf(lib, w, p));
    FindingsExactly(lib, w, p);
  }

  // ---------------------------------------------------------------- exceptions

  lemma SoundSheetsDoNotRaise(w: Sheets)
    requires ReadInRange(w) && SheetsSound(w)
    ensures !ClassesRaise(w.classes) && !StudentsRaise(w.students)
  {
    forall i | 0 <= i < |w.classes| ensures !w.classes[i].raises {
      assert ClassSound(w.classes[i]);
    }
    forall i | 0 <= i < |w.students| ensures !w.students[i].raises {
      assert StudentSound(WrittenClassCodes(w.classes), w.students[i]);
    }
  }

  lemma SoundRowDoesNotRaise(lib: Values.Library, fields: seq<StudentFields>, students: seq<StudentItem>, version: string,
                             keys: set<(string, nat)>, f: EvaluationFields)
    requires EvaluationInRange(f) && EvaluationRowSound(lib, fields, version, f)
    ensures !RowRaises(students, version, keys, f)
  {
  }

  lemma SoundAnswersDoNotRaise(lib: Values.Library, w: Sheets, students: seq<StudentItem>, version: string)
    requires ReadInRange(w) && EvaluationRowsSound(lib, w.students, version, w.evaluations)
    ensures !EvaluationsRaise(lib, students, version, w.evaluations)
  {
    if EvaluationsRaise(lib, students, version, w.evaluations) {
      var js := JudgeAll(lib, students, version, w.evaluations);
      var i := RaisingRow(lib, students, version, w.evaluations, |w.evaluations|);
      SoundRowDoesNotRaise(lib, w.students, students, version, ReadEvaluations(js[..i]).keys, w.evaluations[i]);
    }
  }

  /** A sound workbook is never ended by an exception. */
  lemma SoundWorkbookReturns(lib: Values.Library, w: Sheets)
    requires ReadInRange(w)
    ensures WorkbookSound(lib, w) ==> !Follows(lib, w, Raised)
  {
    if WorkbookSound(lib, w) {
      SoundSheetsDoNotRaise(w);
      forall version | WorkbookVersion(VersionsIn(w.evaluations), version) ensures !SomeCellRaises(lib, w, version) {
        SoundAnswersDoNotRaise(lib, w, KeptStudents(w), version);
      }
    }
  }

  /** For a workbook with at most one version the validator returns if and only if no cell
      raises. */
  lemma ReturnsExactly(lib: Values.Library, w: Sheets, version: string, outcome: Outcome)
    requires Follows(lib, w, outcome)
    requires |VersionsIn(w.evaluations)| <= 1 && WorkbookVersion(VersionsIn(w.evaluations), version)
    ensures outcome.Returned? <==> !SomeCellRaises(lib, w, version)
  {
    match outcome {
      case Raised =>
        var other :| WorkbookVersion(VersionsIn(w.evaluations), other) && SomeCellRaises(lib, w, other);
        SameVersion(w.evaluations, version, other);
      case Returned(p, errors) =>
        SameVersion(w.evaluations, version, p.frameworkVersion);
    }
  }

  /** The cells of a row of evaluations that are looked at raise: an infinite month, or an
      infinite score of a catalogued indicator in the first row of a student and month. */
  predicate CheckedCellRaises(ctx: Context, students: seq<StudentItem>, version: string, keys: set<(string, nat)>, e: EvaluationInput) {
    var f := EvaluationFieldsOf(ctx, e);
    && f.localCode in LocalCodes(students)
    && if f.month.None? then Values.MonthRaises(ctx.lib, TextOf(e.row.month))
       else
         && (f.localCode, f.month.value) !in keys
         && var framework := FrameworkOf(VersionOf(f, version));
            framework.Some?
            && exists code :: code in e.row.metrics && code in Codes(framework.value)
                              && Values.NumberRaises(ctx.lib, TextOf(e.row.metrics[code]))
  }

  lemma RowRaisesByCells(ctx: Context, students: seq<StudentItem>, version: string, keys: set<(string, nat)>, e: EvaluationInput)
    ensures RowRaises(students, version, keys, EvaluationFieldsOf(ctx, e)) <==> CheckedCellRaises(ctx, students, version, keys, e)
  {
    var f := EvaluationFieldsOf(ctx, e);
    var framework := FrameworkOf(VersionOf(f, version));
    if framework.Some? {
      forall code ensures code in f.metrics && code in f.raising
                     <==> code in e.row.metrics && Values.NumberRaises(ctx.lib, TextOf(e.row.metrics[code])) { }
    }
  }

  predicate SomeCapacityRaises(ctx: Context, rows: seq<ClassRow>) {
    exists i :: 0 <= i < |rows| && Values.NumberRaises(ctx.lib, TextOf(rows[i].capacity))
  }

  predicate SomeBirthDateRaises(ctx: Context, rows: seq<StudentRow>) {
    exists i :: 0 <= i < |rows| && Values.DateRaises(ctx.lib, rows[i].birthDate)
  }

  predicate SomeAnswerRaises(ctx: Context, students: seq<StudentItem>, version: string, rows: seq<EvaluationInput>) {
    var js := JudgeAll(ctx.lib, students, version, EvaluationFieldsOfAll(ctx, rows));
    exists i :: 0 <= i < |rows| && CheckedCellRaises(ctx, students, version, ReadEvaluations(js[..i]).keys, rows[i])
  }

  lemma RaisingCapacities(ctx: Context, rows: seq<ClassRow>)
    ensures ClassesRaise(ClassFieldsOfAll(ctx, rows)) <==> SomeCapacityRaises(ctx, rows)
  {
    var fields := ClassFieldsOfAll(ctx, rows);
    forall i | 0 <= i < |rows| ensures fields[i].raises <==> Values.NumberRaises(ctx.lib, TextOf(rows[i].capacity)) { }
  }

  lemma RaisingBirthDates(ctx: Context, rows: seq<StudentRow>)
    ensures StudentsRaise(StudentFieldsOfAll(ctx, rows)) <==> SomeBirthDateRaises(ctx, rows)
  {
    var fields := StudentFieldsOfAll(ctx, rows);
    forall i | 0 <= i < |rows| ensures fields[i].raises <==> Values.DateRaises(ctx.lib, rows[i].birthDate) { }
  }

  lemma RaisingAnswers(ctx: Context, students: seq<StudentItem>, version: string, rows: seq<EvaluationInput>)
    ensures EvaluationsRaise(ctx.lib, students, version, EvaluationFieldsOfAll(ctx, rows)) <==> SomeAnswerRaises(ctx, students, version, rows)
  {
    var fields := EvaluationFieldsOfAll(ctx, rows);
    var js := JudgeAll(ctx.lib, students, version, fields);
    if EvaluationsRaise(ctx.lib, students, version, fields) {
      var i := RaisingRow(ctx.lib, students, version, fields, |fields|);
      RowRaisesByCells(ctx, students, version, ReadEvaluations(js[..i]).keys, rows[i]);
    }
    if i :| 0 <= i < |rows| && CheckedCellRaises(ctx, students, version, ReadEvaluations(js[..i]).keys, rows[i]) {
      RowRaisesByCells(ctx, students, version, ReadEvaluations(js[..i]).keys, rows[i]);
      RowThatRaises(ctx.lib, students, version, fields, i);
    }
  }

  /** Which cells end the validator: an infinite capacity, a birth date outside the Jalali
      range with a number too large for a date, or an infinite month or score that is
      looked at. */
  lemma RaisingCells(ctx: Context, classRows: seq<ClassRow>, studentRows: seq<StudentRow>, evaluationRows: seq<EvaluationInput>, version: string)
    ensures var w := Read(ctx, classRows, studentRows, evaluationRows);
            SomeCellRaises(ctx.lib, w, version)
            <==> SomeCapacityRaises(ctx, classRows) || SomeBirthDateRaises(ctx, studentRows)
                 || SomeAnswerRaises(ctx, KeptStudents(w), version, evaluationRows)
  {
    RaisingCapacities(ctx, classRows);
    RaisingBirthDates(ctx, studentRows);
    RaisingAnswers(ctx, KeptStudents(Read(ctx, classRows, studentRows, evaluationRows)), version, evaluationRows);
  }

  /** One birth date in the year 99999999999 ends the validator, so no row of the workbook
      is kept or reported. */
  lemma HugeBirthYearRaises(ctx: Context, classRows: seq<ClassRow>, studentRows: seq<StudentRow>, evaluationRows: seq<EvaluationInput>,
                            i: nat, outcome: Outcome)
    requires Values.ReadsAscii(ctx.lib) && i < |studentRows|
    requires studentRows[i].birthDate == Values.Value(WorkbookSheet.Words(Values.PrintedDate(99999999999, 1, 1, '/')))
    requires Follows(ctx.lib, Read(ctx, classRows, studentRows, evaluationRows), outcome)
    ensures outcome == Raised
  {
    var w := Read(ctx, classRows, studentRows, evaluationRows);
    Values.PrintedDateRaises(ctx.lib, 99999999999, 1, 1, '/');
    assert w.students[i].raises;
  }

  /** So does a capacity that reads as infinite. */
  lemma InfiniteCapacityRaises(ctx: Context, classRows: seq<ClassRow>, studentRows: seq<StudentRow>, evaluationRows: seq<EvaluationInput>,
                               i: nat, outcome: Outcome)
    requires i < |classRows| && ctx.lib.decimal(TextOf(classRows[i].capacity)) == Values.Infinite
    requires Follows(ctx.lib, Read(ctx, classRows, studentRows, evaluationRows), outcome)
    ensures outcome == Raised
  {
    assert Read(ctx, classRows, studentRows, evaluationRows).classes[i].raises;
  }
}
