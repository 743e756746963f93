/** From the printed template to the tables: what is entered in the evaluation sheet is what
    an accepted import stores. */
module TemplateImport {
  import opened EvaluationValidation
  import opened ImportTables
  import opened MetricCatalog
  import opened Options
  import opened PreparedWorkbook
  import opened ValidationIssues
  import opened WorkbookSheet
  import ClassValidation
  import ImportProperties
  import StudentValidation
  import Text
  import Values = WorkbookValues
  import V = WorkbookValidation

  /** A form row is read back as its student, month and version. */
  lemma FormRowIsRead(ctx: Context, form: Form, s: nat, m: nat, e: EvaluationInput)
    requires 1 <= s <= STUDENTS && 1 <= m <= MONTHS && FormRow(form, s, m) == Some(e.row)
    ensures var f := EvaluationFieldsOf(ctx, e); f.localCode == Text.Decimal(s) && f.month == Some(m) && f.version == Version(Current)
  {
    Text.CleanIsStable(Text.Decimal(s));
    Text.CleanIsStable("2.0");
    MonthsAgree(m);
  }

  lemma FormScoreIsInRow(form: Form, s: nat, m: nat, row: EvaluationRow, code: string)
    requires 1 <= s <= STUDENTS && 1 <= m <= MONTHS && FormRow(form, s, m) == Some(row)
    requires Present(ScoreAt(form, s, m, code))
    ensures code in row.metrics && row.metrics[code] == ScoreAt(form, s, m, code)
  {
    assert (s, m, code) in form.scores;
    assert code in FormMetrics(form, s, m);
  }

  lemma ItemOfFields(students: seq<StudentItem>, lib: Values.Library, version: string, f: EvaluationFields, item: EvaluationItem, m: nat)
    requires Judge(lib, students, version, f).item == Some(item) && f.month == Some(m) && f.version == Version(Current)
    ensures item.localCode == f.localCode && item.monthNo == m && item.framework == Current
    ensures forall code :: code in f.metrics ==> code in item.metrics && f.metrics[code] == Some(item.metrics[code])
  {
  }

  /** The item that an accepted row becomes. */
  lemma AcceptedRow(ctx: Context, students: seq<StudentItem>, version: string, form: Form, s: nat, m: nat, code: string,
                    e: EvaluationInput, item: EvaluationItem)
    requires 1 <= s <= STUDENTS && 1 <= m <= MONTHS && FormRow(form, s, m) == Some(e.row)
    requires Judge(ctx.lib, students, version, EvaluationFieldsOf(ctx, e)).item == Some(item)
    requires Present(ScoreAt(form, s, m, code))
    ensures item.localCode == Text.Decimal(s) && item.monthNo == m && item.framework == Current
    ensures code in item.metrics
            && Values.MetricScore(ctx.lib, TextOf(ScoreAt(form, s, m, code))) == Some(item.metrics[code])
  {
    FormRowIsRead(ctx, form, s, m, e);
    FormScoreIsInRow(form, s, m, e.row, code);
    ItemOfFields(students, ctx.lib, version, EvaluationFieldsOf(ctx, e), item, m);
  }

  /** The item of an accepted workbook that comes from a student and month of the form. */
  lemma AcceptedItem(ctx: Context, classRows: seq<ClassValidation.ClassRow>, studentRows: seq<StudentValidation.StudentRow>,
                     inputs: seq<EvaluationInput>, p: Prepared, i: nat)
    requires V.Follows(ctx.lib, V.Read(ctx, classRows, studentRows, inputs), V.Returned(p, {}))
    requires i < |inputs|
    ensures WellPrepared(p) && i < |p.evaluations|
    ensures Judge(ctx.lib, p.students, p.frameworkVersion, EvaluationFieldsOf(ctx, inputs[i])).item == Some(p.evaluations[i])
  {
    var w := V.Read(ctx, classRows, studentRows, inputs);
    V.ReadingIsInRange(ctx, classRows, studentRows, inputs);
    V.AcceptedWorkbookIsWellPrepared(ctx.lib, w, p, {});
  }

  /** An answered student and month has its row among those loaded. */
  lemma LoadedRowOf(form: Form, rows: seq<EvaluationRow>, s: nat, m: nat, code: string) returns (i: nat)
    requires ExactlyTheForm(rows, form) && 1 <= s <= STUDENTS && 1 <= m <= MONTHS && Present(ScoreAt(form, s, m, code))
    ensures i < |rows| && FormRow(form, s, m) == Some(rows[i])
  {
    assert (s, m, code) in form.scores;
    assert code in FormMetrics(form, s, m);
    assert FormRow(form, s, m).value in rows;
    i :| 0 <= i < |rows| && rows[i] == FormRow(form, s, m).value;
  }

  /** After an import an item of the workbook is stored with the student's latest enrollment. */
  lemma ItemIsStored(t: Tables, job: Job, p: Prepared, i: nat) returns (k: nat, id: nat)
    requires WellPrepared(p) && ValidTables(t) && Apply(t, job, p).Some? && i < |p.evaluations|
    ensures k < |p.students| && p.students[k].localCode == p.evaluations[i].localCode
    ensures var u := Apply(t, job, p).value;
            var item := p.evaluations[i];
            var key := EvaluationKey(id, item.monthNo, item.framework);
            && Latest(u.enrollments, StudentKeyOf(job, p.students[k]), p.year.value.id) == Some(id)
            && key in u.evaluations && ImportProperties.Holds(u.evaluations[key], item)
  {
    var ids := ImportProperties.AppliedIsInPlace(t, job, p);
    k := IndexOf(p.students, p.evaluations[i].localCode);
    id := ids[k];
    assert EvaluationKeyOf(ids, p.students, p.evaluations[i]) == EvaluationKey(id, p.evaluations[i].monthNo, p.evaluations[i].framework);
  }

  /** A sheet that was printed, filled in, loaded, accepted and applied: every score entered
      for a student and month is stored, as it reads, with the student's latest enrollment. */
  lemma EnteredScoresAreStored(cells: Cells, titles: Titles, form: Form, rows: seq<EvaluationRow>,
                               ctx: Context, classRows: seq<ClassValidation.ClassRow>, studentRows: seq<StudentValidation.StudentRow>,
                               inputs: seq<EvaluationInput>, p: Prepared, t: Tables, job: Job, s: nat, m: nat, code: string)
    returns (k: nat, id: nat)
    requires FilledIn(cells, titles, form) && Answerable(form) && Load(cells, titles) == Loaded(Current, rows)
    requires |inputs| == |rows| && forall i :: 0 <= i < |rows| ==> inputs[i].row == rows[i]
    requires V.Follows(ctx.lib, V.Read(ctx, classRows, studentRows, inputs), V.Returned(p, {}))
    requires WellPrepared(p) && ValidTables(t) && Apply(t, job, p).Some?
    requires 1 <= s <= STUDENTS && 1 <= m <= MONTHS && Present(ScoreAt(form, s, m, code))
    ensures k < |p.students| && p.students[k].localCode == Text.Decimal(s)
    ensures var u := Apply(t, job, p).value;
            var key := EvaluationKey(id, m, Current);
            && Latest(u.enrollments, StudentKeyOf(job, p.students[k]), p.year.value.id) == Some(id)
            && key in u.evaluations && code in u.evaluations[key].metrics
            && Values.MetricScore(ctx.lib, TextOf(ScoreAt(form, s, m, code))) == Some(u.evaluations[key].metrics[code])
  {
    RoundTrip(cells, titles, form);
    var i := LoadedRowOf(form, rows, s, m, code);
    AcceptedItem(ctx, classRows, studentRows, inputs, p, i);
    AcceptedRow(ctx, p.students, p.frameworkVersion, form, s, m, code, inputs[i], p.evaluations[i]);
    k, id := ItemIsStored(t, job, p, i);
  }
}
