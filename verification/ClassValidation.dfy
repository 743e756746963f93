/** The pass over the class sheet: codes, grades and capacities. */
module ClassValidation {
  import opened Options
  import opened PreparedWorkbook
  import opened ValidationIssues
  import WorkbookSheet
  import Values = WorkbookValues

  datatype ClassRow = ClassRow(yearCode: Cell, code: Cell, title: Cell, grade: Cell, capacity: Cell, sourceRow: nat)

  function Ordinal(n: int): string {
    match n
    case 1 => "اول"
    case 2 => "دوم"
    case 3 => "سوم"
    case 4 => "چهارم"
    case 5 => "پنجم"
    case 6 => "ششم"
    case 7 => "هفتم"
    case 8 => "هشتم"
    case 9 => "نهم"
    case 10 => "دهم"
    case 11 => "یازدهم"
    case 12 => "دوازدهم"
    case _ => ""
  }

  /** The labels under which a grade may be written. */
  function Aliases(lib: Values.Library, g: Grade): set<string> {
    var order := TextOf(WorkbookSheet.Whole(g.order));
    var ordinal := Ordinal(g.order);
    (set a | a in {g.code, g.title, order, "پایه " + order, "پایه" + order} :: Values.FlexLabel(lib, a))
    + (if ordinal == "" then {} else set a | a in {ordinal, "پایه " + ordinal, "پایه" + ordinal} :: Values.FlexLabel(lib, a))
  }

  function FirstGrade(lib: Values.Library, grades: seq<Grade>, key: string): (grade: Option<Grade>)
    ensures grade.Some? ==> grade.value in grades && key in Aliases(lib, grade.value)
    ensures grade.None? ==> forall g :: g in grades ==> key !in Aliases(lib, g)
  {
    if grades == [] then None
    else if key in Aliases(lib, grades[0]) then Some(grades[0])
    else FirstGrade(lib, grades[1..], key)
  }

  function ResolveGrade(ctx: Context, cell: Cell): Option<Grade> {
    var key := Values.FlexLabel(ctx.lib, TextOf(cell));
    if key == "" then None else FirstGrade(ctx.lib, ctx.grades, key)
  }

  /** The cells of a class row, read; what cannot be read is missing.  `raises` marks a
      capacity that makes the reader raise. */
  datatype ClassFields = ClassFields(
    code: string, title: string, grade: Option<Grade>, capacity: Option<nat>, raises: bool, sourceRow: nat)

  function ClassFieldsOf(ctx: Context, row: ClassRow): ClassFields {
    var code, title := TextOf(row.code), TextOf(row.title);
    var capacity := Values.PositiveInt(ctx.lib, TextOf(row.capacity), 1000);
    ClassFields(code, if title != "" then title else code, ResolveGrade(ctx, row.grade),
                capacity, Values.NumberRaises(ctx.lib, TextOf(row.capacity)), row.sourceRow)
  }

  function ClassFieldsOfAll(ctx: Context, rows: seq<ClassRow>): (all: seq<ClassFields>)
    ensures |all| == |rows| && forall i :: 0 <= i < |rows| ==> all[i] == ClassFieldsOf(ctx, rows[i])
  {
    seq(|rows|, i requires 0 <= i < |rows| => ClassFieldsOf(ctx, rows[i]))
  }

  datatype ClassState = ClassState(items: seq<ClassItem>, seen: set<string>, errors: set<Issue>)

  function ClassIssue(row: nat, p: Problem): Issue { Issue(Classes, Some(row), p) }

  function ClassIssues(seen: set<string>, f: ClassFields): set<Issue> {
    (if f.code == "" then {ClassIssue(f.sourceRow, MissingClassCode)}
     else if f.code in seen then {ClassIssue(f.sourceRow, DuplicateClassCode)} else {})
    + (if f.grade.None? then {ClassIssue(f.sourceRow, UnknownGrade)} else {})
    + (if f.capacity.None? then {ClassIssue(f.sourceRow, BadCapacity)} else {})
  }

  /** A class row by itself is usable. */
  predicate ClassSound(f: ClassFields) {
    f.code != "" && f.grade.Some? && f.capacity.Some?
  }

  function ClassOf(f: ClassFields): ClassItem
    requires ClassSound(f)
  {
    ClassItem(f.code, f.title, f.grade.value, f.capacity.value, f.sourceRow)
  }

  function ClassStep(st: ClassState, f: ClassFields): ClassState {
    var issues := ClassIssues(st.seen, f);
    ClassState(if issues == {} then st.items + [ClassOf(f)] else st.items,
               if f.code == "" then st.seen else st.seen + {f.code}, st.errors + issues)
  }

  function ReadClasses(fields: seq<ClassFields>): ClassState {
    if fields == [] then ClassState([], {}, {})
    else ClassStep(ReadClasses(fields[..|fields| - 1]), fields[|fields| - 1])
  }

  lemma OneMoreClass(fields: seq<ClassFields>, i: nat)
    requires i < |fields|
    ensures ReadClasses(fields[..i + 1]) == ClassStep(ReadClasses(fields[..i]), fields[i])
  {
    assert fields[..i + 1][..i] == fields[..i];
  }

  method CheckClass(f: ClassFields, seen: set<string>) returns (rowErrors: set<Issue>, seenNow: set<string>)
    ensures rowErrors == ClassIssues(seen, f)
    ensures seenNow == if f.code == "" then seen else seen + {f.code}
  {
    rowErrors, seenNow := {}, seen;
    if f.code == "" {
      rowErrors := rowErrors + {ClassIssue(f.sourceRow, MissingClassCode)};
    } else if f.code in seen {
      rowErrors := rowErrors + {ClassIssue(f.sourceRow, DuplicateClassCode)};
    } else {
      seenNow := seen + {f.code};
    }
    if f.grade.None? {
      rowErrors := rowErrors + {ClassIssue(f.sourceRow, UnknownGrade)};
    }
    if f.capacity.None? {
      rowErrors := rowErrors + {ClassIssue(f.sourceRow, BadCapacity)};
    }
  }

  predicate ClassesRaise(fields: seq<ClassFields>) {
    exists i :: 0 <= i < |fields| && fields[i].raises
  }

  /** The pass over the classes; an exception ends it. */
  method ValidateClasses(fields: seq<ClassFields>) returns (items: seq<ClassItem>, errors: set<Issue>, raised: bool)
    ensures raised <==> ClassesRaise(fields)
    ensures !raised ==> items == ReadClasses(fields).items && errors == ReadClasses(fields).errors
  {
    var seen: set<string> := {};
    items, errors := [], {};
    for i := 0 to |fields|
      invariant ClassState(items, seen, errors) == ReadClasses(fields[..i])
      invariant forall k :: 0 <= k < i ==> !fields[k].raises
    {
      OneMoreClass(fields, i);
      var f := fields[i];
      if f.raises {
        return items, errors, true;
      }
      ClassIssuesAreReported(seen, f);
      var rowErrors, seenNow := CheckClass(f, seen);
      if rowErrors == {} {
        items := items + [ClassItem(f.code, f.title, f.grade.value, f.capacity.value, f.sourceRow)];
      }
      seen := seenNow;
      errors := errors + rowErrors;
    }
    assert fields[..|fields|] == fields;
    raised := false;
  }

  predicate ClassesSound(fields: seq<ClassFields>) {
    && (forall i :: 0 <= i < |fields| ==> ClassSound(fields[i]))
    && (forall i, j :: 0 <= i < j < |fields| ==> fields[i].code != fields[j].code)
  }

  lemma ClassIssuesAreReported(seen: set<string>, f: ClassFields)
    ensures ClassIssues(seen, f) == {} <==> ClassSound(f) && f.code !in seen
    ensures ClassIssues(seen, f) != {} ==> Reported(ClassIssues(seen, f), Classes, f.sourceRow)
  {
    var issues := ClassIssues(seen, f);
    assert f.code == "" ==> ClassIssue(f.sourceRow, MissingClassCode) in issues;
    assert f.code != "" && f.code in seen ==> ClassIssue(f.sourceRow, DuplicateClassCode) in issues;
    assert f.grade.None? ==> ClassIssue(f.sourceRow, UnknownGrade) in issues;
    assert f.capacity.None? ==> ClassIssue(f.sourceRow, BadCapacity) in issues;
  }

  predicate ClassKept(items: seq<ClassItem>, f: ClassFields) {
    ClassSound(f) && ClassOf(f) in items
  }

  /** A class row is kept or reported. */
  lemma {:induction false} ClassesKeptOrReported(fields: seq<ClassFields>, i: nat)
    requires i < |fields|
    ensures ClassKept(ReadClasses(fields).items, fields[i]) || Reported(ReadClasses(fields).errors, Classes, fields[i].sourceRow)
    decreases |fields|
  {
    var n := |fields| - 1;
    var front, st := ReadClasses(fields[..n]), ReadClasses(fields);
    if i < n {
      ClassesKeptOrReported(fields[..n], i);
      if Reported(front.errors, Classes, fields[i].sourceRow) {
        ReportsGrow(front.errors, st.errors, Classes, fields[i].sourceRow);
      }
    } else {
      ClassIssuesAreReported(front.seen, fields[n]);
      if ClassIssues(front.seen, fields[n]) != {} {
        ReportsGrow(ClassIssues(front.seen, fields[n]), st.errors, Classes, fields[n].sourceRow);
      }
    }
  }

  /** The kept classes have distinct codes, all of them seen. */
  lemma {:induction false} KeptClassesAreDistinct(fields: seq<ClassFields>)
    ensures var st := ReadClasses(fields);
            ClassesAreDistinct(st.items) && forall k :: 0 <= k < |st.items| ==> st.items[k].code in st.seen
  {
    if fields != [] {
      var n := |fields| - 1;
      KeptClassesAreDistinct(fields[..n]);
      ClassIssuesAreReported(ReadClasses(fields[..n]).seen, fields[n]);
    }
  }

  lemma {:induction false} SeenClasses(fields: seq<ClassFields>, code: string)
    ensures code in ReadClasses(fields).seen <==> code != "" && exists i :: 0 <= i < |fields| && fields[i].code == code
  {
    if fields != [] {
      var n := |fields| - 1;
      SeenClasses(fields[..n], code);
      if i :| 0 <= i < n && fields[..n][i].code == code {
        assert fields[i].code == code;
      }
    }
  }

  predicate AllClassesKept(fields: seq<ClassFields>, items: seq<ClassItem>) {
    |items| == |fields| && forall i :: 0 <= i < |fields| ==> ClassSound(fields[i]) && items[i] == ClassOf(fields[i])
  }

  lemma LastClassIsNew(fields: seq<ClassFields>)
    requires fields != []
    ensures var n := |fields| - 1;
            ClassesSound(fields)
            <==> ClassesSound(fields[..n]) && ClassSound(fields[n]) && fields[n].code !in ReadClasses(fields[..n]).seen
  {
    var n := |fields| - 1;
    SeenClasses(fields[..n], fields[n].code);
    if ClassesSound(fields[..n]) && ClassSound(fields[n]) && fields[n].code !in ReadClasses(fields[..n]).seen {
      forall i, j | 0 <= i < j < |fields| ensures fields[i].code != fields[j].code {
        assert fields[..n][i].code == fields[i].code;
        assert j < n ==> fields[..n][j].code == fields[j].code;
      }
    }
  }

  /** No class is reported exactly when every row is usable and no code occurs twice; then
      all rows are kept in order. */
  lemma {:induction false} ClassesAcceptedWhenSound(fields: seq<ClassFields>)
    ensures var st := ReadClasses(fields);
            && (st.errors == {} <==> ClassesSound(fields))
            && (st.errors == {} ==> AllClassesKept(fields, st.items))
  {
    if fields != [] {
      var n := |fields| - 1;
      ClassesAcceptedWhenSound(fields[..n]);
      ClassIssuesAreReported(ReadClasses(fields[..n]).seen, fields[n]);
      LastClassIsNew(fields);
    }
  }
}
