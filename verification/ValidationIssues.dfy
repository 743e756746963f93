/** What the validation of a workbook refers to and what it reports. */
module ValidationIssues {
  import opened Options
  import opened PreparedWorkbook
  import WorkbookSheet
  import Values = WorkbookValues

  type Cell = WorkbookSheet.Cell

  /** The reference data of the organisation. */
  datatype Context = Context(lib: Values.Library, years: seq<Year>, grades: seq<Grade>)

  datatype Sheet = Classes | Students | Evaluations

  datatype Problem =
    | AmbiguousYear | UnknownYear
    | MissingClassCode | DuplicateClassCode | UnknownGrade | BadCapacity | OverCapacity
    | DuplicateLocalCode | BadNationalId | DuplicateNationalId | MissingName | UnknownGender | UnknownClass | BadBirthDate
    | MixedFrameworks | UnknownStudent | BadIdentityNumber | OtherIdentityNumber | OtherClass | OtherName
    | BadMonth | DuplicateMonth | UnknownFramework | UnknownMetric(code: string) | BadScore(code: string) | LongNote

  /** An issue of a row, or of the whole sheet. */
  datatype Issue = Issue(sheet: Sheet, row: Option<nat>, problem: Problem)

  function TextOf(c: Cell): string { WorkbookSheet.CellText(c) }

  ghost predicate Reported(errors: set<Issue>, sheet: Sheet, row: nat) {
    exists p :: Issue(sheet, Some(row), p) in errors
  }

  lemma ReportsGrow(a: set<Issue>, b: set<Issue>, sheet: Sheet, row: nat)
    requires a <= b && Reported(a, sheet, row)
    ensures Reported(b, sheet, row)
  {
    var p :| Issue(sheet, Some(row), p) in a;
    assert Issue(sheet, Some(row), p) in b;
  }
}
