/** The pass over the student sheet: identities, birth dates and classes. */
module StudentValidation {
  import opened Options
  import opened PreparedWorkbook
  import opened ValidationIssues
  import Calendar
  import Text
  import Values = WorkbookValues

  datatype StudentRow = StudentRow(
    localCode: Cell, nationalId: Cell, studentNumber: Cell, firstName: Cell, lastName: Cell,
    gender: Cell, birthDate: Values.BirthCell, classCode: Cell, sourceRow: nat)

  /** The cells of a student row, read.  `raises` marks a birth date that makes the reader
      raise. */
  datatype StudentFields = StudentFields(
    localCode: string, nationalId: Option<string>, studentNumber: string, firstName: string, lastName: string,
    gender: Option<Gender>, birthDate: Option<Calendar.CivilDate>, raises: bool, classCode: string, sourceRow: nat)

  function GenderOf(text: string): Option<Gender> {
    if text == "دختر" || text == "female" || text == "زن" then Some(Female)
    else if text == "پسر" || text == "male" || text == "مرد" then Some(Male)
    else None
  }

  function StudentFieldsOf(ctx: Context, row: StudentRow): StudentFields {
    var id := Values.NationalId(ctx.lib, TextOf(row.nationalId));
    var birth := Values.BirthDate(ctx.lib, row.birthDate);
    StudentFields(TextOf(row.localCode), id, TextOf(row.studentNumber),
                  TextOf(row.firstName), TextOf(row.lastName), GenderOf(ctx.lib.lower(TextOf(row.gender))),
                  birth, Values.DateRaises(ctx.lib, row.birthDate), TextOf(row.classCode), row.sourceRow)
  }

  function StudentFieldsOfAll(ctx: Context, rows: seq<StudentRow>): (all: seq<StudentFields>)
    ensures |all| == |rows| && forall i :: 0 <= i < |rows| ==> all[i] == StudentFieldsOf(ctx, rows[i])
  {
    seq(|rows|, i requires 0 <= i < |rows| => StudentFieldsOf(ctx, rows[i]))
  }

  datatype StudentState = StudentState(
    items: seq<StudentItem>, locals: set<string>, ids: set<string>, numbers: set<string>, errors: set<Issue>)

  function StudentIssue(row: nat, p: Problem): Issue { Issue(Students, Some(row), p) }

  /** An empty local code is replaced by the number of the row. */
  function LocalCodeOf(f: StudentFields, kept: nat): string {
    if f.localCode != "" then f.localCode
    else Text.Decimal(if f.sourceRow != 0 then f.sourceRow else kept + 1)
  }

  function StudentIssues(codes: set<string>, st: StudentState, f: StudentFields): set<Issue> {
    (if LocalCodeOf(f, |st.items|) in st.locals then {StudentIssue(f.sourceRow, DuplicateLocalCode)} else {})
    + (if f.nationalId.None? then {StudentIssue(f.sourceRow, BadNationalId)}
       else if f.nationalId.value in st.ids then {StudentIssue(f.sourceRow, DuplicateNationalId)} else {})
    + (if f.firstName == "" || f.lastName == "" then {StudentIssue(f.sourceRow, MissingName)} else {})
    + (if f.gender.None? then {StudentIssue(f.sourceRow, UnknownGender)} else {})
    + (if f.classCode !in codes then {StudentIssue(f.sourceRow, UnknownClass)} else {})
    + (if f.birthDate.None? then {StudentIssue(f.sourceRow, BadBirthDate)} else {})
  }

  /** A student row by itself is usable. */
  predicate StudentSound(codes: set<string>, f: StudentFields) {
    && f.nationalId.Some? && f.firstName != "" && f.lastName != "" && f.gender.Some?
    && f.classCode in codes && f.birthDate.Some?
  }

  function StudentOf(f: StudentFields, kept: nat, used: set<string>): StudentItem
    requires f.nationalId.Some? && f.gender.Some? && f.birthDate.Some?
  {
    var local := LocalCodeOf(f, kept);
    StudentItem(local, f.nationalId.value, Values.StudentNumber(f.studentNumber, f.nationalId.value, local, used),
                f.firstName, f.lastName, f.gender.value, f.birthDate.value, f.classCode, f.sourceRow)
  }

  function StudentStep(codes: set<string>, st: StudentState, f: StudentFields): StudentState {
    var issues := StudentIssues(codes, st, f);
    if issues != {} then st.(errors := st.errors + issues)
    else
      var item := StudentOf(f, |st.items|, st.numbers);
      StudentState(st.items + [item], st.locals + {item.localCode}, st.ids + {item.nationalId},
                   st.numbers + {item.studentNumber}, st.errors)
  }

  function ReadStudents(codes: set<string>, fields: seq<StudentFields>): StudentState {
    if fields == [] then StudentState([], {}, {}, {}, {})
    else StudentStep(codes, ReadStudents(codes, fields[..|fields| - 1]), fields[|fields| - 1])
  }

  lemma OneMoreStudent(codes: set<string>, fields: seq<StudentFields>, i: nat)
    requires i < |fields|
    ensures ReadStudents(codes, fields[..i + 1]) == StudentStep(codes, ReadStudents(codes, fields[..i]), fields[i])
  {
    assert fields[..i + 1][..i] == fields[..i];
  }

  method CheckStudent(codes: set<string>, f: StudentFields, localCode: string, ghost st: StudentState,
                      locals: set<string>, ids: set<string>) returns (rowErrors: set<Issue>)
    requires locals == st.locals && ids == st.ids && localCode == LocalCodeOf(f, |st.items|)
    ensures rowErrors == StudentIssues(codes, st, f)
  {
    rowErrors := {};
    if localCode in locals {
      rowErrors := rowErrors + {StudentIssue(f.sourceRow, DuplicateLocalCode)};
    }
    if f.nationalId.None? {
      rowErrors := rowErrors + {StudentIssue(f.sourceRow, BadNationalId)};
    } else if f.nationalId.value in ids {
      rowErrors := rowErrors + {StudentIssue(f.sourceRow, DuplicateNationalId)};
    }
    if f.firstName == "" || f.lastName == "" {
      rowErrors := rowErrors + {StudentIssue(f.sourceRow, MissingName)};
    }
    if f.gender.None? {
      rowErrors := rowErrors + {StudentIssue(f.sourceRow, UnknownGender)};
    }
    if f.classCode !in codes {
      rowErrors := rowErrors + {StudentIssue(f.sourceRow, UnknownClass)};
    }
    if f.birthDate.None? {
      rowErrors := rowErrors + {StudentIssue(f.sourceRow, BadBirthDate)};
    }
  }

  predicate StudentsRaise(fields: seq<StudentFields>) {
    exists i :: 0 <= i < |fields| && fields[i].raises
  }

  /** The loop body: the issues of a row, or the student it adds. */
  method CheckNext(codes: set<string>, f: StudentFields, kept: nat, ghost st: StudentState,
                   locals: set<string>, ids: set<string>, numbers: set<string>)
    returns (item: Option<StudentItem>, errors: set<Issue>)
    requires kept == |st.items| && locals == st.locals && ids == st.ids && numbers == st.numbers
    ensures StudentStep(codes, st, f)
         == if item.None? then st.(errors := st.errors + errors)
            else StudentState(st.items + [item.value], st.locals + {item.value.localCode}, st.ids + {item.value.nationalId},
                              st.numbers + {item.value.studentNumber}, st.errors)
  {
    var local := f.localCode;
    if local == "" {
      local := Text.Decimal(if f.sourceRow != 0 then f.sourceRow else kept + 1);
    }
    StudentIssuesAreReported(codes, st, f);
    errors := CheckStudent(codes, f, local, st, locals, ids);
    if errors != {} {
      return None, errors;
    }
    var number := Values.StudentNumber(f.studentNumber, f.nationalId.value, local, numbers);
    return Some(StudentItem(local, f.nationalId.value, number, f.firstName, f.lastName,
                            f.gender.value, f.birthDate.value, f.classCode, f.sourceRow)), {};
  }

  lemma FirstRaises(fields: seq<StudentFields>, i: nat)
    requires i < |fields| && !StudentsRaise(fields[..i])
    ensures StudentsRaise(fields[..i + 1]) <==> fields[i].raises
    ensures fields[i].raises ==> StudentsRaise(fields)
  {
    assert fields[..i + 1][i] == fields[i];
    assert forall k :: 0 <= k < i ==> fields[..i + 1][k] == fields[..i][k];
  }

  /** The pass over the students; an exception ends it. */
  method ValidateStudents(codes: set<string>, fields: seq<StudentFields>)
    returns (items: seq<StudentItem>, errors: set<Issue>, raised: bool)
    ensures raised <==> StudentsRaise(fields)
    ensures !raised ==> items == ReadStudents(codes, fields).items && errors == ReadStudents(codes, fields).errors
  {
    var locals: set<string>, ids: set<string>, numbers: set<string> := {}, {}, {};
    items, errors := [], {};
    for i := 0 to |fields|
      invariant StudentState(items, locals, ids, numbers, errors) == ReadStudents(codes, fields[..i])
      invariant !StudentsRaise(fields[..i])
    {
      FirstRaises(fields, i);
      if fields[i].raises {
        return items, errors, true;
      }
      OneMoreStudent(codes, fields, i);
      ghost var st := StudentState(items, locals, ids, numbers, errors);
      var item, rowErrors := CheckNext(codes, fields[i], |items|, st, locals, ids, numbers);
      if item.None? {
        errors := errors + rowErrors;
      } else {
        var student := item.value;
        locals, ids, numbers := locals + {student.localCode}, ids + {student.nationalId}, numbers + {student.studentNumber};
        items := items + [student];
      }
    }
    assert fields[..|fields|] == fields;
    raised := false;
  }

  lemma StudentIssuesAreReported(codes: set<string>, st: StudentState, f: StudentFields)
    ensures StudentIssues(codes, st, f) == {}
            <==> StudentSound(codes, f) && LocalCodeOf(f, |st.items|) !in st.locals && f.nationalId.value !in st.ids
    ensures StudentIssues(codes, st, f) != {} ==> Reported(StudentIssues(codes, st, f), Students, f.sourceRow)
  {
    var issues := StudentIssues(codes, st, f);
    assert LocalCodeOf(f, |st.items|) in st.locals ==> StudentIssue(f.sourceRow, DuplicateLocalCode) in issues;
    assert f.nationalId.None? ==> StudentIssue(f.sourceRow, BadNationalId) in issues;
    assert f.nationalId.Some? && f.nationalId.value in st.ids ==> StudentIssue(f.sourceRow, DuplicateNationalId) in issues;
    assert f.firstName == "" || f.lastName == "" ==> StudentIssue(f.sourceRow, MissingName) in issues;
    assert f.gender.None? ==> StudentIssue(f.sourceRow, UnknownGender) in issues;
    assert f.classCode !in codes ==> StudentIssue(f.sourceRow, UnknownClass) in issues;
    assert f.birthDate.None? ==> StudentIssue(f.sourceRow, BadBirthDate) in issues;
  }

  /** The item carries the cells of the row; only an empty local code is made up, and only
      the student number may get a suffix. */
  predicate IsStudentOf(item: StudentItem, f: StudentFields) {
    && f.nationalId == Some(item.nationalId) && f.gender == Some(item.gender) && f.birthDate == Some(item.birthDate)
    && item.firstName == f.firstName && item.lastName == f.lastName && item.classCode == f.classCode
    && item.sourceRow == f.sourceRow
    && (f.localCode != "" ==> item.localCode == f.localCode)
    && (var base := Values.BaseNumber(f.studentNumber, item.nationalId, item.localCode);
        item.studentNumber == base || item.studentNumber == Values.SuffixedNumber(base, item.localCode))
  }

  predicate StudentKept(items: seq<StudentItem>, f: StudentFields) {
    exists k :: 0 <= k < |items| && IsStudentOf(items[k], f)
  }

  lemma KeptStaysKept(items: seq<StudentItem>, more: seq<StudentItem>, f: StudentFields)
    requires StudentKept(items, f)
    ensures StudentKept(items + more, f)
  {
    var k :| 0 <= k < |items| && IsStudentOf(items[k], f);
    assert (items + more)[k] == items[k];
  }

  /** A student row is kept or reported. */
  lemma {:induction false} StudentsKeptOrReported(codes: set<string>, fields: seq<StudentFields>, i: nat)
    requires i < |fields|
    ensures var st := ReadStudents(codes, fields);
            StudentKept(st.items, fields[i]) || Reported(st.errors, Students, fields[i].sourceRow)
    decreases |fields|
  {
    var n := |fields| - 1;
    var front, st, f := ReadStudents(codes, fields[..n]), ReadStudents(codes, fields), fields[n];
    var issues := StudentIssues(codes, front, f);
    StudentIssuesAreReported(codes, front, f);
    if i < n {
      StudentsKeptOrReported(codes, fields[..n], i);
      if Reported(front.errors, Students, fields[i].sourceRow) {
        ReportsGrow(front.errors, st.errors, Students, fields[i].sourceRow);
      } else if issues == {} {
        KeptStaysKept(front.items, [StudentOf(f, |front.items|, front.numbers)], fields[i]);
      }
    } else if issues == {} {
      assert IsStudentOf(st.items[|st.items| - 1], f);
    } else {
      ReportsGrow(issues, st.errors, Students, f.sourceRow);
    }
  }

  /** The sets hold what was kept, and nothing kept occurs twice. */
  predicate StudentStateSound(codes: set<string>, st: StudentState) {
    && st.locals == LocalCodes(st.items) && st.ids == NationalIds(st.items)
    && StudentsAreDistinct(st.items)
    && forall k :: 0 <= k < |st.items| ==> st.items[k].classCode in codes
  }

  lemma LocalCodesOfMore(items: seq<StudentItem>, item: StudentItem)
    ensures LocalCodes(items + [item]) == LocalCodes(items) + {item.localCode}
    ensures NationalIds(items + [item]) == NationalIds(items) + {item.nationalId}
  {
    var longer := items + [item];
    assert forall i :: 0 <= i < |items| ==> longer[i] == items[i];
    assert longer[|items|] == item;
  }

  lemma {:induction false} KeptStudentsAreSound(codes: set<string>, fields: seq<StudentFields>)
    ensures StudentStateSound(codes, ReadStudents(codes, fields))
  {
    if fields != [] {
      var n := |fields| - 1;
      var front := ReadStudents(codes, fields[..n]);
      KeptStudentsAreSound(codes, fields[..n]);
      StudentIssuesAreReported(codes, front, fields[n]);
      if StudentIssues(codes, front, fields[n]) == {} {
        LocalCodesOfMore(front.items, StudentOf(fields[n], |front.items|, front.numbers));
      }
    }
  }

  /** Every row is usable and neither a local code nor a national id occurs twice. */
  predicate StudentsSound(codes: set<string>, fields: seq<StudentFields>) {
    && (forall i :: 0 <= i < |fields| ==> StudentSound(codes, fields[i]))
    && (forall i, j :: 0 <= i < j < |fields| ==> LocalCodeOf(fields[i], i) != LocalCodeOf(fields[j], j))
    && (forall i, j :: 0 <= i < j < |fields| ==> fields[i].nationalId != fields[j].nationalId)
  }

  predicate AllStudentsKept(fields: seq<StudentFields>, items: seq<StudentItem>) {
    && |items| == |fields|
    && forall i :: 0 <= i < |fields| ==> IsStudentOf(items[i], fields[i]) && items[i].localCode == LocalCodeOf(fields[i], i)
  }

  lemma SoundNeedsNew(codes: set<string>, fields: seq<StudentFields>, items: seq<StudentItem>)
    requires fields != [] && AllStudentsKept(fields[..|fields| - 1], items) && StudentsSound(codes, fields)
    ensures var n := |fields| - 1;
            LocalCodeOf(fields[n], n) !in LocalCodes(items) && fields[n].nationalId.value !in NationalIds(items)
  {
    var n := |fields| - 1;
    forall i | 0 <= i < n
      ensures items[i].localCode != LocalCodeOf(fields[n], n) && Some(items[i].nationalId) != fields[n].nationalId
    {
      assert IsStudentOf(items[i], fields[..n][i]) && fields[..n][i] == fields[i];
    }
  }

  lemma NewMakesSound(codes: set<string>, fields: seq<StudentFields>, items: seq<StudentItem>)
    requires fields != [] && AllStudentsKept(fields[..|fields| - 1], items) && StudentsSound(codes, fields[..|fields| - 1])
    requires var n := |fields| - 1;
             && StudentSound(codes, fields[n])
             && LocalCodeOf(fields[n], n) !in LocalCodes(items) && fields[n].nationalId.value !in NationalIds(items)
    ensures StudentsSound(codes, fields)
  {
    var n := |fields| - 1;
    var front := fields[..n];
    forall i | 0 <= i < n
      ensures front[i] == fields[i]
      ensures LocalCodeOf(fields[i], i) != LocalCodeOf(fields[n], n) && fields[i].nationalId != fields[n].nationalId
    {
      assert IsStudentOf(items[i], front[i]) && front[i] == fields[i];
      assert items[i].localCode in LocalCodes(items) && items[i].nationalId in NationalIds(items);
    }
  }

  lemma LastStudentIsNew(codes: set<string>, fields: seq<StudentFields>, items: seq<StudentItem>)
    requires fields != [] && AllStudentsKept(fields[..|fields| - 1], items)
    ensures var n := |fields| - 1;
            StudentsSound(codes, fields)
            <==> StudentsSound(codes, fields[..n]) && StudentSound(codes, fields[n])
                 && LocalCodeOf(fields[n], n) !in LocalCodes(items) && fields[n].nationalId.value !in NationalIds(items)
  {
    if StudentsSound(codes, fields) {
      FrontOfSoundStudents(codes, fields);
      SoundNeedsNew(codes, fields, items);
    }
    var n := |fields| - 1;
    if StudentsSound(codes, fields[..n]) && StudentSound(codes, fields[n])
       && LocalCodeOf(fields[n], n) !in LocalCodes(items) && fields[n].nationalId.value !in NationalIds(items) {
      NewMakesSound(codes, fields, items);
    }
  }

  /** No student is reported exactly when the rows are sound; then all are kept in order. */
  lemma {:induction false} StudentsAcceptedWhenSound(codes: set<string>, fields: seq<StudentFields>)
    ensures var st := ReadStudents(codes, fields);
            && (st.errors == {} <==> StudentsSound(codes, fields))
            && (st.errors == {} ==> AllStudentsKept(fields, st.items))
  {
    if fields != [] {
      var n := |fields| - 1;
      var front := ReadStudents(codes, fields[..n]);
      StudentsAcceptedWhenSound(codes, fields[..n]);
      KeptStudentsAreSound(codes, fields[..n]);
      StudentIssuesAreReported(codes, front, fields[n]);
      if front.errors == {} {
        LastStudentIsNew(codes, fields, front.items);
      } else {
        FrontOfSoundStudents(codes, fields);
      }
    }
  }

  lemma FrontOfSoundStudents(codes: set<string>, fields: seq<StudentFields>)
    requires fields != []
    ensures StudentsSound(codes, fields) ==> StudentsSound(codes, fields[..|fields| - 1])
  {
    assert forall i :: 0 <= i < |fields| - 1 ==> fields[..|fields| - 1][i] == fields[i];
  }

  // ---------------------------------------------------------------- student numbers

  /** The number as written, or what stands for it, before any suffix. */
  function WrittenNumber(f: StudentFields, kept: nat): string
    requires f.nationalId.Some?
  {
    Values.BaseNumber(f.studentNumber, f.nationalId.value, LocalCodeOf(f, kept))
  }

  function NumberWithSuffix(f: StudentFields, kept: nat): string
    requires f.nationalId.Some?
  {
    Values.SuffixedNumber(WrittenNumber(f, kept), LocalCodeOf(f, kept))
  }

  /** Row `i`, when it is kept, finds its written number or the suffixed one unused. */
  predicate FindsNumber(codes: set<string>, fields: seq<StudentFields>, i: nat)
    requires i < |fields|
  {
    var st := ReadStudents(codes, fields[..i]);
    StudentIssues(codes, st, fields[i]) == {} && fields[i].nationalId.Some?
    ==> WrittenNumber(fields[i], |st.items|) !in st.numbers || NumberWithSuffix(fields[i], |st.items|) !in st.numbers
  }

  lemma NumbersOfMore(items: seq<StudentItem>, item: StudentItem)
    ensures StudentNumbers(items + [item]) == StudentNumbers(items) + {item.studentNumber}
    ensures NumbersAreDistinct(items + [item]) <==> NumbersAreDistinct(items) && item.studentNumber !in StudentNumbers(items)
  {
    var longer := items + [item];
    assert forall i :: 0 <= i < |items| ==> longer[i] == items[i];
    assert longer[|items|] == item;
    if NumbersAreDistinct(longer) {
      forall i, j | 0 <= i < j < |items| ensures items[i].studentNumber != items[j].studentNumber {
        assert longer[i].studentNumber != longer[j].studentNumber;
      }
    }
  }

  lemma FrontFindsNumbers(codes: set<string>, fields: seq<StudentFields>)
    requires fields != []
    ensures var n := |fields| - 1;
            (forall i :: 0 <= i < |fields| ==> FindsNumber(codes, fields, i))
            <==> (forall i :: 0 <= i < n ==> FindsNumber(codes, fields[..n], i)) && FindsNumber(codes, fields, n)
  {
    var n := |fields| - 1;
    forall i | 0 <= i < n ensures FindsNumber(codes, fields[..n], i) <==> FindsNumber(codes, fields, i) {
      assert fields[..n][..i] == fields[..i];
    }
  }

  /** The stored student numbers are pairwise different exactly when every kept row finds a
      free number: the suffix is added once and not checked again. */
  lemma {:induction false} NumbersAreDistinctExactly(codes: set<string>, fields: seq<StudentFields>)
    ensures var st := ReadStudents(codes, fields);
            && st.numbers == StudentNumbers(st.items)
            && (NumbersAreDistinct(st.items) <==> forall i :: 0 <= i < |fields| ==> FindsNumber(codes, fields, i))
  {
    if fields != [] {
      var n := |fields| - 1;
      var front, f := ReadStudents(codes, fields[..n]), fields[n];
      NumbersAreDistinctExactly(codes, fields[..n]);
      FrontFindsNumbers(codes, fields);
      StudentIssuesAreReported(codes, front, f);
      if StudentIssues(codes, front, f) == {} {
        NumbersOfMore(front.items, StudentOf(f, |front.items|, front.numbers));
      }
    }
  }

  /** Every student keeps the written number. */
  predicate KeepsNumbers(fields: seq<StudentFields>, items: seq<StudentItem>) {
    && |items| == |fields|
    && forall i :: 0 <= i < |fields| ==>
         fields[i].nationalId.Some? && items[i].studentNumber == WrittenNumber(fields[i], i)
  }

  predicate DifferentNumbers(fields: seq<StudentFields>) {
    && (forall i :: 0 <= i < |fields| ==> fields[i].nationalId.Some?)
    && (forall i, j :: 0 <= i < j < |fields| ==> WrittenNumber(fields[i], i) != WrittenNumber(fields[j], j))
  }

  lemma NextNumberIsNew(fields: seq<StudentFields>, items: seq<StudentItem>)
    requires fields != [] && DifferentNumbers(fields) && KeepsNumbers(fields[..|fields| - 1], items)
    ensures WrittenNumber(fields[|fields| - 1], |items|) !in StudentNumbers(items)
  {
    var n := |fields| - 1;
    forall i | 0 <= i < n ensures items[i].studentNumber != WrittenNumber(fields[n], n) {
      assert fields[..n][i] == fields[i];
    }
  }

  lemma OneMoreNumberIsKept(fields: seq<StudentFields>, items: seq<StudentItem>, item: StudentItem)
    requires fields != [] && DifferentNumbers(fields) && KeepsNumbers(fields[..|fields| - 1], items) && NumbersAreDistinct(items)
    requires item.studentNumber == WrittenNumber(fields[|fields| - 1], |items|)
    ensures KeepsNumbers(fields, items + [item]) && NumbersAreDistinct(items + [item])
  {
    var n := |fields| - 1;
    NextNumberIsNew(fields, items);
    NumbersOfMore(items, item);
    forall i | 0 <= i < n ensures (items + [item])[i].studentNumber == WrittenNumber(fields[i], i) {
      assert fields[..n][i] == fields[i];
    }
  }

  /** In a sound sheet with different written numbers every student keeps the written one. */
  lemma {:induction false} DifferentNumbersAreKept(codes: set<string>, fields: seq<StudentFields>)
    requires StudentsSound(codes, fields) && DifferentNumbers(fields)
    ensures KeepsNumbers(fields, ReadStudents(codes, fields).items) && NumbersAreDistinct(ReadStudents(codes, fields).items)
  {
    if fields != [] {
      var n := |fields| - 1;
      var front := ReadStudents(codes, fields[..n]);
      FrontOfSoundStudents(codes, fields);
      FrontIsDifferent(fields);
      DifferentNumbersAreKept(codes, fields[..n]);
      NumbersAreDistinctExactly(codes, fields[..n]);
      NextNumberIsNew(fields, front.items);
      LastIsStored(codes, fields);
      OneMoreNumberIsKept(fields, front.items, StudentOf(fields[n], n, front.numbers));
    }
  }

  lemma FrontIsDifferent(fields: seq<StudentFields>)
    requires fields != [] && DifferentNumbers(fields)
    ensures DifferentNumbers(fields[..|fields| - 1])
  {
    assert forall i :: 0 <= i < |fields| - 1 ==> fields[..|fields| - 1][i] == fields[i];
  }

  /** The last row of a sound sheet is stored after the others. */
  lemma LastIsStored(codes: set<string>, fields: seq<StudentFields>)
    requires fields != [] && StudentsSound(codes, fields)
    ensures var n := |fields| - 1;
            var front := ReadStudents(codes, fields[..n]);
            |front.items| == n && ReadStudents(codes, fields).items == front.items + [StudentOf(fields[n], n, front.numbers)]
  {
    StudentsAcceptedWhenSound(codes, fields);
    FrontOfSoundStudents(codes, fields);
    StudentsAcceptedWhenSound(codes, fields[..|fields| - 1]);
  }

  const SOMEDAY := Calendar.CivilDate(2010, 1, 1)

  function Example(localCode: string, nationalId: string, number: string): StudentFields {
    StudentFields(localCode, Some(nationalId), number, "a", "b", Some(Female), Some(SOMEDAY), false, "A", 1)
  }

  lemma FirstTwoNumbers(e1: StudentFields, e2: StudentFields)
    requires e1 == Example("1", "0000000001", "7") && e2 == Example("2", "0000000002", "7-3")
    ensures var st := ReadStudents({"A"}, [e1, e2]);
            |st.items| == 2 && "7" in st.numbers && "7-3" in st.numbers
  {
    assert StudentsSound({"A"}, [e1, e2]);
    DifferentNumbersAreKept({"A"}, [e1, e2]);
    NumbersAreDistinctExactly({"A"}, [e1, e2]);
    var items := ReadStudents({"A"}, [e1, e2]).items;
    assert items[0].studentNumber == "7" && items[1].studentNumber == "7-3";
  }

  lemma SuffixOfThird(e3: StudentFields)
    requires e3 == Example("3", "0000000003", "7")
    ensures WrittenNumber(e3, 2) == "7" && NumberWithSuffix(e3, 2) == "7-3"
  {
    assert Values.TakeUpTo("7", 48) == "7" && "7" + ("-" + "3") == "7-3";
  }

  /** Three students of a sound sheet, of whom two get the same number: the suffix of the
      third makes the number that the second has. */
  lemma NumbersMayCollide()
    ensures var fields := [Example("1", "0000000001", "7"), Example("2", "0000000002", "7-3"), Example("3", "0000000003", "7")];
            && StudentsSound({"A"}, fields) && ReadStudents({"A"}, fields).errors == {}
            && !NumbersAreDistinct(ReadStudents({"A"}, fields).items)
  {
    var e1, e2, e3 := Example("1", "0000000001", "7"), Example("2", "0000000002", "7-3"), Example("3", "0000000003", "7");
    var fields := [e1, e2, e3];
    assert StudentsSound({"A"}, fields);
    StudentsAcceptedWhenSound({"A"}, fields);
    NumbersAreDistinctExactly({"A"}, fields);
    assert fields[..2] == [e1, e2];
    FirstTwoNumbers(e1, e2);
    SuffixOfThird(e3);
    assert !FindsNumber({"A"}, fields, 2);
  }
}
