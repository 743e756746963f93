/** The pass over the evaluation rows: students, identity cells, months, versions and scores. */
module EvaluationValidation {
  import opened MetricCatalog
  import opened Options
  import opened PreparedWorkbook
  import opened StudentValidation
  import opened ValidationIssues
  import Text
  import WorkbookSheet
  import Values = WorkbookValues

  /** A loaded evaluation row with the identity cells beside it. */
  datatype EvaluationInput = EvaluationInput(row: WorkbookSheet.EvaluationRow, nationalId: Cell, fullName: Cell, classCode: Cell)

  /** The cells of an evaluation row, read.  Identity cells may be empty.  `monthRaises` and
      `raising` mark the month and the indicators whose readers raise. */
  datatype EvaluationFields = EvaluationFields(
    localCode: string, idText: string, id: Option<string>, classCode: string, name: string,
    month: Option<nat>, monthRaises: bool, declaresVersion: bool, version: string,
    metrics: map<string, Option<nat>>, raising: set<string>, note: string, sourceRow: nat)

  function EvaluationFieldsOf(ctx: Context, e: EvaluationInput): EvaluationFields {
    var r := e.row;
    EvaluationFields(
      Text.Clean(r.localCode), TextOf(e.nationalId), Values.NationalId(ctx.lib, TextOf(e.nationalId)),
      TextOf(e.classCode), TextOf(e.fullName), Values.MonthNo(ctx.lib, TextOf(r.month)),
      Values.MonthRaises(ctx.lib, TextOf(r.month)), r.frameworkVersion != "", Text.Clean(r.frameworkVersion),
      map code | code in r.metrics :: Values.MetricScore(ctx.lib, TextOf(r.metrics[code])),
      (set code | code in r.metrics && Values.NumberRaises(ctx.lib, TextOf(r.metrics[code]))), TextOf(r.note), r.sourceRow)
  }

  function EvaluationFieldsOfAll(ctx: Context, rows: seq<EvaluationInput>): (all: seq<EvaluationFields>)
    ensures |all| == |rows| && forall i :: 0 <= i < |rows| ==> all[i] == EvaluationFieldsOf(ctx, rows[i])
  {
    seq(|rows|, i requires 0 <= i < |rows| => EvaluationFieldsOf(ctx, rows[i]))
  }

  function FrameworkOf(version: string): Option<Framework> {
    if version == Version(Current) then Some(Current)
    else if version == Version(Legacy) then Some(Legacy)
    else None
  }

  function VersionsIn(fields: seq<EvaluationFields>): set<string> {
    set i | 0 <= i < |fields| && fields[i].declaresVersion :: fields[i].version
  }

  /** One of the versions of the rows, or the current one. */
  predicate WorkbookVersion(versions: set<string>, version: string) {
    if versions == {} then version == Version(Current) else version in versions
  }

  function VersionIssues(versions: set<string>): set<Issue> {
    if |versions| > 1 then {Issue(Evaluations, None, MixedFrameworks)} else {}
  }

  function EvaluationIssue(row: nat, p: Problem): Issue { Issue(Evaluations, Some(row), p) }

  function FindStudent(students: seq<StudentItem>, localCode: string): (found: Option<StudentItem>)
    ensures found.Some? ==> found.value.localCode == localCode
    ensures found.Some? <==> localCode in LocalCodes(students)
  {
    if students == [] then None
    else
      var n := |students| - 1;
      assert students == students[..n] + [students[n]];
      LocalCodesOfMore(students[..n], students[n]);
      if students[n].localCode == localCode then Some(students[n]) else FindStudent(students[..n], localCode)
  }

  function NameLabel(lib: Values.Library, s: StudentItem): string {
    Values.FlexLabel(lib, Text.Strip(s.firstName + " " + s.lastName))
  }

  /** The identity cells agree with the student; empty cells say nothing. */
  predicate IdentityFits(lib: Values.Library, s: StudentItem, f: EvaluationFields) {
    && (f.idText == "" || f.id == Some(s.nationalId))
    && (f.classCode == "" || f.classCode == s.classCode)
    && (f.name == "" || Values.FlexLabel(lib, f.name) == NameLabel(lib, s))
  }

  function IdentityIssues(lib: Values.Library, s: StudentItem, f: EvaluationFields): set<Issue> {
    (if f.idText == "" then {}
     else if f.id.None? then {EvaluationIssue(f.sourceRow, BadIdentityNumber)}
     else if f.id.value != s.nationalId then {EvaluationIssue(f.sourceRow, OtherIdentityNumber)} else {})
    + (if f.classCode != "" && f.classCode != s.classCode then {EvaluationIssue(f.sourceRow, OtherClass)} else {})
    + (if f.name != "" && Values.FlexLabel(lib, f.name) != NameLabel(lib, s) then {EvaluationIssue(f.sourceRow, OtherName)} else {})
  }

  predicate MetricsFit(codes: seq<string>, metrics: map<string, Option<nat>>) {
    forall code :: code in metrics ==> code in codes && metrics[code].Some?
  }

  function MetricIssues(row: nat, codes: seq<string>, metrics: map<string, Option<nat>>): set<Issue> {
    (set code | code in metrics && code !in codes :: EvaluationIssue(row, UnknownMetric(code)))
    + (set code | code in metrics && code in codes && metrics[code].None? :: EvaluationIssue(row, BadScore(code)))
  }

  function VersionOf(f: EvaluationFields, workbookVersion: string): string {
    if f.version != "" then f.version else workbookVersion
  }

  /** What stops the scores of a row from being used: the first of these that applies. */
  function ContentIssues(workbookVersion: string, f: EvaluationFields): set<Issue> {
    var framework := FrameworkOf(VersionOf(f, workbookVersion));
    if framework.None? then {EvaluationIssue(f.sourceRow, UnknownFramework)}
    else
      var metrics := MetricIssues(f.sourceRow, Codes(framework.value), f.metrics);
      if metrics != {} then metrics
      else if |f.note| > 5000 then {EvaluationIssue(f.sourceRow, LongNote)}
      else {}
  }

  predicate ContentSound(workbookVersion: string, f: EvaluationFields) {
    var framework := FrameworkOf(VersionOf(f, workbookVersion));
    framework.Some? && MetricsFit(Codes(framework.value), f.metrics) && |f.note| <= 5000
  }

  function EvaluationOf(workbookVersion: string, f: EvaluationFields): EvaluationItem
    requires f.month.Some? && ContentSound(workbookVersion, f)
  {
    EvaluationItem(f.localCode, f.month.value, map code | code in f.metrics :: f.metrics[code].value, f.note,
                   FrameworkOf(VersionOf(f, workbookVersion)).value, f.sourceRow)
  }

  lemma ContentIssuesAreReported(workbookVersion: string, f: EvaluationFields)
    ensures var issues := ContentIssues(workbookVersion, f);
            && (issues == {} <==> ContentSound(workbookVersion, f))
            && (issues != {} ==> Reported(issues, Evaluations, f.sourceRow))
  {
    var framework := FrameworkOf(VersionOf(f, workbookVersion));
    if framework.None? {
      assert EvaluationIssue(f.sourceRow, UnknownFramework) in ContentIssues(workbookVersion, f);
    } else {
      MetricIssuesAreReported(f.sourceRow, Codes(framework.value), f.metrics);
      assert EvaluationIssue(f.sourceRow, LongNote) in {EvaluationIssue(f.sourceRow, LongNote)};
    }
  }

  lemma MetricIssuesAreReported(row: nat, codes: seq<string>, metrics: map<string, Option<nat>>)
    ensures MetricIssues(row, codes, metrics) == {} <==> MetricsFit(codes, metrics)
    ensures MetricIssues(row, codes, metrics) != {} ==> Reported(MetricIssues(row, codes, metrics), Evaluations, row)
  {
    var issues := MetricIssues(row, codes, metrics);
    forall code | code in metrics && !(code in codes && metrics[code].Some?)
      ensures Reported(issues, Evaluations, row)
    {
      assert EvaluationIssue(row, if code in codes then BadScore(code) else UnknownMetric(code)) in issues;
    }
  }

  lemma IdentityIssuesAreReported(lib: Values.Library, s: StudentItem, f: EvaluationFields)
    ensures IdentityIssues(lib, s, f) == {} <==> IdentityFits(lib, s, f)
  {
    var issues := IdentityIssues(lib, s, f);
    assert f.idText != "" && f.id.None? ==> EvaluationIssue(f.sourceRow, BadIdentityNumber) in issues;
    assert f.idText != "" && f.id.Some? && f.id.value != s.nationalId ==> EvaluationIssue(f.sourceRow, OtherIdentityNumber) in issues;
    assert f.classCode != "" && f.classCode != s.classCode ==> EvaluationIssue(f.sourceRow, OtherClass) in issues;
    assert f.name != "" && Values.FlexLabel(lib, f.name) != NameLabel(lib, s) ==> EvaluationIssue(f.sourceRow, OtherName) in issues;
  }

  /** What a row contributes by itself: its key, its item, and its issues when the key is
      new or has occurred before. */
  datatype Judgement = Judgement(
    row: nat, key: Option<(string, nat)>, item: Option<EvaluationItem>, whenNew: set<Issue>, whenRepeated: set<Issue>)

  /** An identity mismatch is reported but does not drop the row. */
  function Judge(lib: Values.Library, students: seq<StudentItem>, version: string, f: EvaluationFields): Judgement {
    var student := FindStudent(students, f.localCode);
    if student.None? then Judgement(f.sourceRow, None, None, {EvaluationIssue(f.sourceRow, UnknownStudent)}, {})
    else
      var identity := IdentityIssues(lib, student.value, f);
      if f.month.None? then Judgement(f.sourceRow, None, None, identity + {EvaluationIssue(f.sourceRow, BadMonth)}, {})
      else
        Judgement(f.sourceRow, Some((f.localCode, f.month.value)),
                  if ContentSound(version, f) then Some(EvaluationOf(version, f)) else None,
                  identity + ContentIssues(version, f), identity + {EvaluationIssue(f.sourceRow, DuplicateMonth)})
  }

  function JudgeAll(lib: Values.Library, students: seq<StudentItem>, version: string, fields: seq<EvaluationFields>): (js: seq<Judgement>)
    ensures |js| == |fields| && forall i :: 0 <= i < |fields| ==> js[i] == Judge(lib, students, version, fields[i])
  {
    seq(|fields|, i requires 0 <= i < |fields| => Judge(lib, students, version, fields[i]))
  }

  datatype EvaluationState = EvaluationState(items: seq<EvaluationItem>, keys: set<(string, nat)>, errors: set<Issue>)

  function EvaluationStep(st: EvaluationState, j: Judgement): EvaluationState {
    if j.key.Some? && j.key.value in st.keys then st.(errors := st.errors + j.whenRepeated)
    else if j.item.None? || j.key.None? then st.(errors := st.errors + j.whenNew)
    else EvaluationState(st.items + [j.item.value], st.keys + {j.key.value}, st.errors + j.whenNew)
  }

  function ReadEvaluations(js: seq<Judgement>): EvaluationState {
    if js == [] then EvaluationState([], {}, {})
    else EvaluationStep(ReadEvaluations(js[..|js| - 1]), js[|js| - 1])
  }

  lemma OneMoreEvaluation(js: seq<Judgement>, i: nat)
    requires i < |js|
    ensures ReadEvaluations(js[..i + 1]) == EvaluationStep(ReadEvaluations(js[..i]), js[i])
  {
    assert js[..i + 1][..i] == js[..i];
  }

  method CheckIdentity(lib: Values.Library, s: StudentItem, f: EvaluationFields) returns (errors: set<Issue>)
    ensures errors == IdentityIssues(lib, s, f)
  {
    errors := {};
    if f.idText != "" {
      if f.id.None? {
        errors := errors + {EvaluationIssue(f.sourceRow, BadIdentityNumber)};
      } else if f.id.value != s.nationalId {
        errors := errors + {EvaluationIssue(f.sourceRow, OtherIdentityNumber)};
      }
    }
    if f.classCode != "" && f.classCode != s.classCode {
      errors := errors + {EvaluationIssue(f.sourceRow, OtherClass)};
    }
    if f.name != "" && Values.FlexLabel(lib, f.name) != NameLabel(lib, s) {
      errors := errors + {EvaluationIssue(f.sourceRow, OtherName)};
    }
  }

  predicate MetricFits(codes: seq<string>, metrics: map<string, Option<nat>>, code: string) {
    code in metrics && code in codes && metrics[code].Some?
  }

  function MetricIssue(row: nat, codes: seq<string>, code: string): Issue {
    EvaluationIssue(row, if code in codes then BadScore(code) else UnknownMetric(code))
  }

  lemma OneMoreMetric(row: nat, codes: seq<string>, metrics: map<string, Option<nat>>, todo: set<string>, code: string)
    requires code in todo && code in metrics
    ensures MetricIssues(row, codes, metrics - (todo - {code}))
         == MetricIssues(row, codes, metrics - todo) + if MetricFits(codes, metrics, code) then {} else {MetricIssue(row, codes, code)}
  {
    var before, after := metrics - todo, metrics - (todo - {code});
    var more := if MetricFits(codes, metrics, code) then {} else {MetricIssue(row, codes, code)};
    forall e ensures e in MetricIssues(row, codes, after) <==> e in MetricIssues(row, codes, before) + more {
      if e in MetricIssues(row, codes, after) {
        var c :| c in after && e == MetricIssue(row, codes, c) && !MetricFits(codes, after, c);
        assert c != code ==> c in before;
      }
    }
  }

  /** A catalogued indicator raises. */
  predicate MetricsRaise(codes: seq<string>, metrics: map<string, Option<nat>>, raising: set<string>) {
    exists code :: code in metrics && code in codes && code in raising
  }

  lemma OneMoreQuiet(codes: seq<string>, metrics: map<string, Option<nat>>, raising: set<string>, todo: set<string>, code: string)
    requires !MetricsRaise(codes, metrics - todo, raising) && !(code in codes && code in raising)
    ensures !MetricsRaise(codes, metrics - (todo - {code}), raising)
  {
  }

  method CheckMetrics(row: nat, codes: seq<string>, metrics: map<string, Option<nat>>, raising: set<string>)
    returns (scores: map<string, nat>, errors: set<Issue>, raised: bool)
    ensures raised <==> MetricsRaise(codes, metrics, raising)
    ensures !raised ==> errors == MetricIssues(row, codes, metrics)
    ensures !raised && MetricsFit(codes, metrics) ==> scores == map code | code in metrics :: metrics[code].value
  {
    scores, errors := map[], {};
    var todo := metrics.Keys;
    while todo != {}
      invariant todo <= metrics.Keys
      invariant !MetricsRaise(codes, metrics - todo, raising)
      invariant errors == MetricIssues(row, codes, metrics - todo)
      invariant forall code :: code in scores <==> code !in todo && MetricFits(codes, metrics, code)
      invariant forall code :: code in scores ==> scores[code] == metrics[code].value
      decreases |todo|
    {
      var code :| code in todo;
      if code in codes && code in raising {
        assert MetricsRaise(codes, metrics, raising);
        return scores, errors, true;
      }
      OneMoreQuiet(codes, metrics, raising, todo, code);
      OneMoreMetric(row, codes, metrics, todo, code);
      todo := todo - {code};
      if code !in codes || metrics[code].None? {
        errors := errors + {MetricIssue(row, codes, code)};
      } else {
        scores := scores[code := metrics[code].value];
      }
    }
    assert metrics - {} == metrics;
    raised := false;
  }

  predicate ContentRaises(version: string, f: EvaluationFields) {
    var framework := FrameworkOf(VersionOf(f, version));
    framework.Some? && MetricsRaise(Codes(framework.value), f.metrics, f.raising)
  }

  method CheckContent(version: string, f: EvaluationFields)
    returns (item: Option<EvaluationItem>, errors: set<Issue>, raised: bool)
    requires f.month.Some?
    ensures raised <==> ContentRaises(version, f)
    ensures !raised ==> errors == ContentIssues(version, f)
    ensures !raised ==> item == if ContentSound(version, f) then Some(EvaluationOf(version, f)) else None
  {
    var framework := FrameworkOf(VersionOf(f, version));
    if framework.None? {
      return None, {EvaluationIssue(f.sourceRow, UnknownFramework)}, false;
    }
    MetricIssuesAreReported(f.sourceRow, Codes(framework.value), f.metrics);
    var scores, metricErrors, stopped := CheckMetrics(f.sourceRow, Codes(framework.value), f.metrics, f.raising);
    if stopped {
      return None, {}, true;
    }
    if metricErrors != {} {
      return None, metricErrors, false;
    }
    if |f.note| > 5000 {
      return None, {EvaluationIssue(f.sourceRow, LongNote)}, false;
    }
    return Some(EvaluationItem(f.localCode, f.month.value, scores, f.note, framework.value, f.sourceRow)), {}, false;
  }

  /** A row raises when its student is known and its month raises, or the row is the first
      of its student and month and a catalogued indicator raises. */
  predicate RowRaises(students: seq<StudentItem>, version: string, keys: set<(string, nat)>, f: EvaluationFields) {
    && FindStudent(students, f.localCode).Some?
    && if f.month.None? then f.monthRaises else (f.localCode, f.month.value) !in keys && ContentRaises(version, f)
  }

  /** Row `i` raises after the rows before it. */
  predicate RaisesAt(lib: Values.Library, students: seq<StudentItem>, version: string, fields: seq<EvaluationFields>, i: nat)
    requires i < |fields|
  {
    RowRaises(students, version, ReadEvaluations(JudgeAll(lib, students, version, fields)[..i]).keys, fields[i])
  }

  /** One of the first rows raises. */
  predicate RaisesWithin(lib: Values.Library, students: seq<StudentItem>, version: string, fields: seq<EvaluationFields>, n: nat)
    requires n <= |fields|
  {
    n > 0 && (RaisesWithin(lib, students, version, fields, n - 1) || RaisesAt(lib, students, version, fields, n - 1))
  }

  predicate EvaluationsRaise(lib: Values.Library, students: seq<StudentItem>, version: string, fields: seq<EvaluationFields>) {
    RaisesWithin(lib, students, version, fields, |fields|)
  }

  lemma {:induction false} RaisingRow(lib: Values.Library, students: seq<StudentItem>, version: string,
                                      fields: seq<EvaluationFields>, n: nat) returns (i: nat)
    requires n <= |fields| && RaisesWithin(lib, students, version, fields, n)
    ensures i < n && RaisesAt(lib, students, version, fields, i)
  {
    if RaisesAt(lib, students, version, fields, n - 1) {
      i := n - 1;
    } else {
      i := RaisingRow(lib, students, version, fields, n - 1);
    }
  }

  lemma RowThatRaises(lib: Values.Library, students: seq<StudentItem>, version: string, fields: seq<EvaluationFields>, i: nat)
    requires i < |fields| && RaisesAt(lib, students, version, fields, i)
    ensures EvaluationsRaise(lib, students, version, fields)
  {
    RaisesWithinMore(lib, students, version, fields, i + 1, |fields|);
  }

  lemma {:induction false} RaisesWithinMore(lib: Values.Library, students: seq<StudentItem>, version: string,
                                            fields: seq<EvaluationFields>, n: nat, m: nat)
    requires n <= m <= |fields| && RaisesWithin(lib, students, version, fields, n)
    ensures RaisesWithin(lib, students, version, fields, m)
    decreases m
  {
    if n < m {
      RaisesWithinMore(lib, students, version, fields, n, m - 1);
    }
  }

  /** One pass of the loop body: the issues of a row and the item it adds. */
  method CheckEvaluation(lib: Values.Library, students: seq<StudentItem>, version: string, keys: set<(string, nat)>,
                         f: EvaluationFields) returns (item: Option<EvaluationItem>, errors: set<Issue>, raised: bool)
    ensures raised <==> RowRaises(students, version, keys, f)
    ensures var j := Judge(lib, students, version, f);
            !raised ==>
            if j.key.Some? && j.key.value in keys then item == None && errors == j.whenRepeated
            else item == j.item && errors == j.whenNew
  {
    var student := FindStudent(students, f.localCode);
    if student.None? {
      return None, {EvaluationIssue(f.sourceRow, UnknownStudent)}, false;
    }
    errors := CheckIdentity(lib, student.value, f);
    if f.month.None? {
      return None, errors + {EvaluationIssue(f.sourceRow, BadMonth)}, f.monthRaises;
    }
    if (f.localCode, f.month.value) in keys {
      return None, errors + {EvaluationIssue(f.sourceRow, DuplicateMonth)}, false;
    }
    var content;
    item, content, raised := CheckContent(version, f);
    errors := errors + content;
  }

  /** The next row of the loop, which knows the keys of the rows before. */
  method CheckNext(lib: Values.Library, students: seq<StudentItem>, version: string, fields: seq<EvaluationFields>, i: nat,
                   keys: set<(string, nat)>) returns (item: Option<EvaluationItem>, errors: set<Issue>, raised: bool)
    requires i < |fields| && keys == ReadEvaluations(JudgeAll(lib, students, version, fields)[..i]).keys
    requires !RaisesWithin(lib, students, version, fields, i)
    ensures raised <==> RaisesWithin(lib, students, version, fields, i + 1)
    ensures !raised ==>
              var js := JudgeAll(lib, students, version, fields);
              var st := ReadEvaluations(js[..i]);
              ReadEvaluations(js[..i + 1]) == WithRow(st, item, errors)
  {
    OneMoreEvaluation(JudgeAll(lib, students, version, fields), i);
    JudgementsAreProper(lib, students, version, fields[i]);
    item, errors, raised := CheckEvaluation(lib, students, version, keys, fields[i]);
  }

  function WithRow(st: EvaluationState, item: Option<EvaluationItem>, errors: set<Issue>): EvaluationState {
    if item.None? then st.(errors := st.errors + errors)
    else EvaluationState(st.items + [item.value], st.keys + {(item.value.localCode, item.value.monthNo)}, st.errors + errors)
  }

  /** The pass over the rows; an exception ends it. */
  method CheckEvaluations(lib: Values.Library, students: seq<StudentItem>, version: string, fields: seq<EvaluationFields>)
    returns (items: seq<EvaluationItem>, errors: set<Issue>, raised: bool)
    ensures raised <==> EvaluationsRaise(lib, students, version, fields)
    ensures var st := ReadEvaluations(JudgeAll(lib, students, version, fields));
            !raised ==> items == st.items && errors == st.errors
  {
    ghost var js := JudgeAll(lib, students, version, fields);
    var keys: set<(string, nat)> := {};
    items, errors := [], {};
    for i := 0 to |fields|
      invariant EvaluationState(items, keys, errors) == ReadEvaluations(js[..i])
      invariant !RaisesWithin(lib, students, version, fields, i)
    {
      var item, rowErrors, stopped := CheckNext(lib, students, version, fields, i, keys);
      if stopped {
        RaisesWithinMore(lib, students, version, fields, i + 1, |fields|);
        return items, errors, true;
      }
      errors := errors + rowErrors;
      if item.Some? {
        keys := keys + {(item.value.localCode, item.value.monthNo)};
        items := items + [item.value];
      }
    }
    assert js[..|fields|] == js;
    raised := false;
  }

  method ValidateEvaluations(lib: Values.Library, students: seq<StudentItem>, fields: seq<EvaluationFields>)
    returns (items: seq<EvaluationItem>, errors: set<Issue>, version: string, raised: bool)
    ensures WorkbookVersion(VersionsIn(fields), version)
    ensures raised <==> EvaluationsRaise(lib, students, version, fields)
    ensures var st := ReadEvaluations(JudgeAll(lib, students, version, fields));
            !raised ==> items == st.items && errors == VersionIssues(VersionsIn(fields)) + st.errors
  {
    var versions := VersionsIn(fields);
    errors := if |versions| > 1 then {Issue(Evaluations, None, MixedFrameworks)} else {};
    if versions == {} {
      version := Version(Current);
    } else {
      version :| version in versions;
    }
    var rowErrors;
    items, rowErrors, raised := CheckEvaluations(lib, students, version, fields);
    errors := errors + rowErrors;
  }

  /** What a judgement always satisfies. */
  ghost predicate Proper(j: Judgement) {
    && (j.item.Some? ==> j.key == Some((j.item.value.localCode, j.item.value.monthNo)) && j.item.value.sourceRow == j.row)
    && (j.whenNew == {} ==> j.item.Some?)
    && (j.item.None? ==> Reported(j.whenNew, Evaluations, j.row))
    && (j.key.Some? ==> Reported(j.whenRepeated, Evaluations, j.row))
  }

  predicate EvaluationSound(lib: Values.Library, students: seq<StudentItem>, version: string, f: EvaluationFields) {
    && FindStudent(students, f.localCode).Some?
    && IdentityFits(lib, FindStudent(students, f.localCode).value, f)
    && f.month.Some? && ContentSound(version, f)
  }

  lemma JudgementsAreProper(lib: Values.Library, students: seq<StudentItem>, version: string, f: EvaluationFields)
    ensures var j := Judge(lib, students, version, f);
            Proper(j) && (j.whenNew == {} <==> EvaluationSound(lib, students, version, f))
  {
    var student, j := FindStudent(students, f.localCode), Judge(lib, students, version, f);
    if student.None? {
      assert EvaluationIssue(f.sourceRow, UnknownStudent) in j.whenNew;
    } else {
      IdentityIssuesAreReported(lib, student.value, f);
      if f.month.None? {
        assert EvaluationIssue(f.sourceRow, BadMonth) in j.whenNew;
      } else {
        ContentIssuesAreReported(version, f);
        assert EvaluationIssue(f.sourceRow, DuplicateMonth) in j.whenRepeated;
        if j.item.None? {
          ReportsGrow(ContentIssues(version, f), j.whenNew, Evaluations, f.sourceRow);
        }
      }
    }
  }

  predicate EvaluationKept(items: seq<EvaluationItem>, j: Judgement) {
    j.item.Some? && j.item.value in items
  }

  /** An evaluation row is kept or reported. */
  lemma {:induction false} EvaluationsKeptOrReported(js: seq<Judgement>, i: nat)
    requires i < |js| && Proper(js[i])
    ensures var st := ReadEvaluations(js);
            EvaluationKept(st.items, js[i]) || Reported(st.errors, Evaluations, js[i].row)
    decreases |js|
  {
    var n := |js| - 1;
    var front, st, j := ReadEvaluations(js[..n]), ReadEvaluations(js), js[n];
    if i < n {
      EvaluationsKeptOrReported(js[..n], i);
      if Reported(front.errors, Evaluations, js[i].row) {
        ReportsGrow(front.errors, st.errors, Evaluations, js[i].row);
      }
    } else if j.key.Some? && j.key.value in front.keys {
      ReportsGrow(j.whenRepeated, st.errors, Evaluations, j.row);
    } else if j.item.None? {
      ReportsGrow(j.whenNew, st.errors, Evaluations, j.row);
    }
  }

  predicate EvaluationStateSound(st: EvaluationState) {
    st.keys == Keys(st.items) && EvaluationsAreDistinct(st.items)
  }

  lemma KeysOfMore(items: seq<EvaluationItem>, item: EvaluationItem)
    ensures Keys(items + [item]) == Keys(items) + {(item.localCode, item.monthNo)}
    ensures EvaluationsAreDistinct(items) && (item.localCode, item.monthNo) !in Keys(items)
            ==> EvaluationsAreDistinct(items + [item])
  {
    var longer := items + [item];
    assert forall i :: 0 <= i < |items| ==> longer[i] == items[i];
    assert longer[|items|] == item;
  }

  lemma {:induction false} KeptEvaluationsAreDistinct(js: seq<Judgement>)
    requires forall i :: 0 <= i < |js| ==> Proper(js[i])
    ensures EvaluationStateSound(ReadEvaluations(js))
  {
    if js != [] {
      var n := |js| - 1;
      KeptEvaluationsAreDistinct(js[..n]);
      if js[n].item.Some? {
        KeysOfMore(ReadEvaluations(js[..n]).items, js[n].item.value);
      }
    }
  }

  /** Every row is usable and no student and month occur twice. */
  predicate JudgementsSound(js: seq<Judgement>) {
    && (forall i :: 0 <= i < |js| ==> js[i].whenNew == {})
    && (forall i, j :: 0 <= i < j < |js| ==> js[i].key != js[j].key)
  }

  predicate AllEvaluationsKept(js: seq<Judgement>, items: seq<EvaluationItem>) {
    |items| == |js| && forall i :: 0 <= i < |js| ==> js[i].item == Some(items[i])
  }

  lemma LastEvaluationIsNew(js: seq<Judgement>, items: seq<EvaluationItem>)
    requires js != [] && AllEvaluationsKept(js[..|js| - 1], items)
    requires forall i :: 0 <= i < |js| ==> Proper(js[i])
    ensures var n := |js| - 1;
            && (JudgementsSound(js) ==> JudgementsSound(js[..n]) && js[n].whenNew == {})
            && (js[n].whenNew == {} ==> js[n].key.Some?)
            && (JudgementsSound(js[..n]) && js[n].whenNew == {} ==>
                  (JudgementsSound(js) <==> js[n].key.value !in Keys(items)))
  {
    var n := |js| - 1;
    forall i | 0 <= i < n
      ensures js[..n][i] == js[i] && js[i].key.Some? && js[i].key.value in Keys(items)
      ensures js[i].key == Some((items[i].localCode, items[i].monthNo))
    {
      assert Proper(js[i]) && js[..n][i].item == Some(items[i]);
    }
    assert Proper(js[n]);
  }

  /** No evaluation is reported exactly when the rows are sound; then all are kept in order. */
  lemma {:induction false} EvaluationsAcceptedWhenSound(js: seq<Judgement>)
    requires forall i :: 0 <= i < |js| ==> Proper(js[i])
    ensures var st := ReadEvaluations(js);
            && (st.errors == {} <==> JudgementsSound(js))
            && (st.errors == {} ==> AllEvaluationsKept(js, st.items))
  {
    if js != [] {
      var n := |js| - 1;
      var front, j := ReadEvaluations(js[..n]), js[n];
      EvaluationsAcceptedWhenSound(js[..n]);
      KeptEvaluationsAreDistinct(js[..n]);
      assert Proper(j);
      if front.errors == {} {
        LastEvaluationIsNew(js, front.items);
      } else if JudgementsSound(js) {
        assert forall i :: 0 <= i < n ==> js[..n][i] == js[i];
        assert JudgementsSound(js[..n]);
      }
    }
  }
}
