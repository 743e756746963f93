/** What the loader makes of any evaluation sheet, said of its cells: which sheets are refused,
    which rows are returned, and what a row holds. */
module SheetLaws {
  import opened MetricCatalog
  import opened Options
  import opened WorkbookSheet
  import Text

  // ---------------------------------------------------------------- headers

  /** The text up to the first bar, trimmed and in upper case, and what follows it, trimmed;
      without a bar the whole text is the code. */
  predicate SplitsInto(text: string, code: string, title: string) {
    if '|' !in text then code == Text.Upper(Text.Strip(text)) && title == ""
    else exists k :: 0 <= k < |text| && IsFirstBar(text, k)
                     && code == Text.Upper(Text.Strip(text[..k])) && title == Text.Strip(text[k + 1..])
  }

  predicate IsFirstBar(text: string, k: nat)
    requires k < |text|
  {
    text[k] == '|' && forall i :: 0 <= i < k ==> text[i] != '|'
  }

  lemma HeaderIsSplitSo(cell: Cell)
    ensures var h := SplitHeader(cell); SplitsInto(CellText(cell), h.code, h.title)
  {
    var text := CellText(cell);
    var bar := Text.FirstIndex(text, '|');
    if bar < |text| {
      assert IsFirstBar(text, bar);
    }
  }

  lemma SplitIsUnique(text: string, code: string, title: string, otherCode: string, otherTitle: string)
    requires SplitsInto(text, code, title) && SplitsInto(text, otherCode, otherTitle)
    ensures code == otherCode && title == otherTitle
  {
    if '|' in text {
      var j :| 0 <= j < |text| && IsFirstBar(text, j)
               && code == Text.Upper(Text.Strip(text[..j])) && title == Text.Strip(text[j + 1..]);
      var k :| 0 <= k < |text| && IsFirstBar(text, k)
               && otherCode == Text.Upper(Text.Strip(text[..k])) && otherTitle == Text.Strip(text[k + 1..]);
      assert j == k;
    }
  }

  /** The header is that of an indicator: its code, and its title unless it has none. */
  ghost predicate IsHeaderOf(cell: Cell, code: string, title: string) {
    exists written :: SplitsInto(CellText(cell), code, written) && (written == "" || Text.Label(written) == Text.Label(title))
  }

  ghost predicate HasCode(cell: Cell) {
    exists code, title :: SplitsInto(CellText(cell), code, title) && code != ""
  }

  lemma HeaderOfExactly(cell: Cell, titles: Titles, f: Framework, code: string)
    ensures HeaderFits(SplitHeader(cell), titles, f, code) <==> IsHeaderOf(cell, code, Title(titles, f, code))
  {
    var h, title := SplitHeader(cell), Title(titles, f, code);
    HeaderIsSplitSo(cell);
    if IsHeaderOf(cell, code, title) {
      var written :| SplitsInto(CellText(cell), code, written) && (written == "" || Text.Label(written) == Text.Label(title));
      SplitIsUnique(CellText(cell), h.code, h.title, code, written);
    }
  }

  lemma CodeExactly(cell: Cell)
    ensures SplitHeader(cell).code != "" <==> HasCode(cell)
  {
    var h := SplitHeader(cell);
    HeaderIsSplitSo(cell);
    if HasCode(cell) {
      var c, t :| SplitsInto(CellText(cell), c, t) && c != "";
      SplitIsUnique(CellText(cell), h.code, h.title, c, t);
    }
  }

  /** The metric columns of row 4 are those of the version, in its order; of the current
      version nothing follows. */
  ghost predicate HasColumnsOf(cells: Cells, titles: Titles, f: Framework, codes: seq<string>) {
    && (forall i :: 0 <= i < |codes| ==> IsHeaderOf(CellAt(cells, 4, 7 + i), codes[i], Title(titles, f, codes[i])))
    && (f.Current? ==> forall column: nat :: 7 + |codes| <= column <= 80 ==> !HasCode(CellAt(cells, 4, column)))
  }

  lemma FitsExactly(cells: Cells, titles: Titles, f: Framework, codes: seq<string>)
    requires |codes| <= 74
    ensures Fits(MetricHeaders(cells), titles, f, codes) <==> HasColumnsOf(cells, titles, f, codes)
  {
    if Fits(MetricHeaders(cells), titles, f, codes) {
      FitsMeansColumns(cells, titles, f, codes);
    }
    if HasColumnsOf(cells, titles, f, codes) {
      ColumnsMeanFits(cells, titles, f, codes);
    }
  }

  lemma ColumnsMeanFits(cells: Cells, titles: Titles, f: Framework, codes: seq<string>)
    requires |codes| <= 74 && HasColumnsOf(cells, titles, f, codes)
    ensures Fits(MetricHeaders(cells), titles, f, codes)
  {
    var headers := MetricHeaders(cells);
    forall i | 0 <= i < |codes| ensures headers[i].code == codes[i] && TitleFits(headers[i], titles, f, codes[i]) {
      HeaderOfExactly(CellAt(cells, 4, 7 + i), titles, f, codes[i]);
    }
    forall i | f.Current? && |codes| <= i < 74 ensures headers[i].code == "" {
      assert !HasCode(CellAt(cells, 4, 7 + i));
      CodeExactly(CellAt(cells, 4, 7 + i));
    }
  }

  lemma FitsMeansColumns(cells: Cells, titles: Titles, f: Framework, codes: seq<string>)
    requires |codes| <= 74 && Fits(MetricHeaders(cells), titles, f, codes)
    ensures HasColumnsOf(cells, titles, f, codes)
  {
    forall i | 0 <= i < |codes| ensures IsHeaderOf(CellAt(cells, 4, 7 + i), codes[i], Title(titles, f, codes[i])) {
      FitsMeansHeader(cells, titles, f, codes, i);
    }
    forall column: nat | f.Current? && 7 + |codes| <= column <= 80 ensures !HasCode(CellAt(cells, 4, column)) {
      FitsMeansNothingFollows(cells, titles, f, codes, column);
    }
  }

  lemma FitsMeansHeader(cells: Cells, titles: Titles, f: Framework, codes: seq<string>, i: nat)
    requires i < |codes| <= 74 && Fits(MetricHeaders(cells), titles, f, codes)
    ensures IsHeaderOf(CellAt(cells, 4, 7 + i), codes[i], Title(titles, f, codes[i]))
  {
    var headers := MetricHeaders(cells);
    assert headers[i].code == codes[i] && TitleFits(headers[i], titles, f, codes[i]);
    HeaderOfExactly(CellAt(cells, 4, 7 + i), titles, f, codes[i]);
  }

  lemma FitsMeansNothingFollows(cells: Cells, titles: Titles, f: Framework, codes: seq<string>, column: nat)
    requires f.Current? && 7 + |codes| <= column <= 80 && Fits(MetricHeaders(cells), titles, f, codes)
    ensures !HasCode(CellAt(cells, 4, column))
  {
    assert MetricHeaders(cells)[column - 7].code == "";
    CodeExactly(CellAt(cells, 4, column));
  }

  // ---------------------------------------------------------------- refusal

  /** The first six columns carry the headers of the template, up to spacing. */
  predicate HasIdentityColumns(cells: Cells) {
    forall column: nat :: 1 <= column <= 6 ==>
      Text.Label(CellText(CellAt(cells, 4, column)))
        == Text.Label(["ردیف", "ماه", "کد محلی", "کد ملی", "نام و نام خانوادگی", "کد کلاس"][column - 1])
  }

  /** Nothing stands in the 94 columns below the last row of the template. */
  ghost predicate EndsInTime(cells: Cells) {
    forall row: nat, column: nat :: row >= 1205 && 1 <= column <= 94 ==>
      CellAt(cells, row, column) == Blank || CellAt(cells, row, column) == Words("")
  }

  lemma OverflowExactly(cells: Cells)
    ensures Overflows(cells) <==> !EndsInTime(cells)
  {
    if Overflows(cells) {
      var p :| p in cells && p.0 > LAST_ROW && 1 <= p.1 <= 94 && Present(cells[p]);
      assert CellAt(cells, p.0, p.1) == cells[p];
    }
    if !EndsInTime(cells) {
      var row: nat, column: nat :| row >= 1205 && 1 <= column <= 94
                                   && CellAt(cells, row, column) != Blank && CellAt(cells, row, column) != Words("");
      assert (row, column) in cells;
    }
  }

  /** A sheet is loaded exactly when its identity headers are right, its metric columns are
      those of a version, and nothing stands below the template; the version is the one of
      its columns. */
  lemma LoadedExactly(cells: Cells, titles: Titles)
    ensures var loaded := Load(cells, titles);
            && (loaded.Loaded? <==>
                  && HasIdentityColumns(cells) && EndsInTime(cells)
                  && (HasColumnsOf(cells, titles, Current, Codes(Current)) || HasColumnsOf(cells, titles, Legacy, Codes(Legacy))))
            && (loaded.Loaded? ==> HasColumnsOf(cells, titles, loaded.framework, Codes(loaded.framework)))
  {
    CatalogFacts(Current);
    CatalogFacts(Legacy);
    FitsExactly(cells, titles, Current, Codes(Current));
    FitsExactly(cells, titles, Legacy, Codes(Legacy));
    OverflowExactly(cells);
  }

  // ---------------------------------------------------------------- rows

  predicate IsEmptyCell(c: Cell) {
    c == Blank || c == Words("")
  }

  /** The cell of the row for the indicator in column `7 + i`. */
  function AnswerCell(cells: Cells, row: nat, i: nat): Cell {
    CellAt(cells, row, 7 + i)
  }

  /** Nothing was entered in the row. */
  predicate IsUnanswered(cells: Cells, row: nat, codes: seq<string>) {
    && IsEmptyCell(CellAt(cells, row, 94))
    && forall i :: 0 <= i < |codes| ==> IsEmptyCell(AnswerCell(cells, row, i))
  }

  /** What a loaded row holds: the month and note cells, the cell of every indicator that has
      one, and the written local code. */
  predicate HoldsRow(cells: Cells, row: nat, codes: seq<string>, r: EvaluationRow) {
    && r.sourceRow == row && r.month == CellAt(cells, row, 2) && r.note == CellAt(cells, row, 94)
    && (forall i :: 0 <= i < |codes| ==>
          && (codes[i] in r.metrics <==> !IsEmptyCell(AnswerCell(cells, row, i)))
          && (codes[i] in r.metrics ==> r.metrics[codes[i]] == AnswerCell(cells, row, i)))
    && (forall code :: code in r.metrics ==> code in codes)
    && (CellText(CellAt(cells, row, 3)) != "" ==> r.localCode == CellText(CellAt(cells, row, 3)))
  }

  /** Without a written local code the running number gives one: of every twelve rows one
      student, counted from 1. */
  ghost predicate HoldsDerivedCode(cells: Cells, row: nat, r: EvaluationRow) {
    CellText(CellAt(cells, row, 3)) == "" ==>
      var running := CellText(CellAt(cells, row, 1));
      if running == "" || !Text.AllAsciiDigits(running) || Text.Number(running) == 0 then r.localCode == ""
      else exists student: nat :: 12 * (student - 1) < Text.Number(running) <= 12 * student && r.localCode == Text.Decimal(student)
  }

  lemma DerivedExactly(cells: Cells, row: nat, r: EvaluationRow)
    requires CellText(CellAt(cells, row, 3)) == "" && r.localCode == DerivedLocalCode(CellText(CellAt(cells, row, 1)))
    ensures HoldsDerivedCode(cells, row, r)
  {
    var running := CellText(CellAt(cells, row, 1));
    if running != "" && Text.AllAsciiDigits(running) && Text.Number(running) > 0 {
      var student := (Text.Number(running) - 1) / 12 + 1;
      assert 12 * (student - 1) < Text.Number(running) <= 12 * student && r.localCode == Text.Decimal(student);
    }
  }

  lemma NoMetricsExactly(cells: Cells, row: nat, codes: seq<string>)
    requires DistinctCodes(codes)
    ensures RowMetrics(cells, row, codes, |codes|) == map[] <==> forall i :: 0 <= i < |codes| ==> IsEmptyCell(AnswerCell(cells, row, i))
  {
    var metrics := RowMetrics(cells, row, codes, |codes|);
    RowHoldsMetrics(cells, row, codes, metrics);
    if metrics != map[] {
      var code :| code in metrics;
      var i :| 0 <= i < |codes| && codes[i] == code;
      assert !IsEmptyCell(AnswerCell(cells, row, i));
    } else {
      forall i | 0 <= i < |codes| ensures IsEmptyCell(AnswerCell(cells, row, i)) {
        assert codes[i] !in metrics;
      }
    }
  }

  /** A row is returned exactly when something was entered in it, with all its cells. */
  lemma RowIsLoadedExactly(cells: Cells, row: nat, f: Framework, codes: seq<string>)
    requires DistinctCodes(codes)
    ensures var r := LoadedRow(cells, row, f, codes);
            && (r.None? <==> IsUnanswered(cells, row, codes))
            && (r.Some? ==> HoldsRow(cells, row, codes, r.value) && HoldsDerivedCode(cells, row, r.value)
                            && r.value.frameworkVersion == Version(f))
  {
    var r := LoadedRow(cells, row, f, codes);
    RowMetricsByCode(cells, row, codes, |codes|);
    NoMetricsExactly(cells, row, codes);
    assert codes[..|codes|] == codes;
    if r.Some? {
      RowHoldsMetrics(cells, row, codes, r.value.metrics);
      if CellText(CellAt(cells, row, 3)) == "" {
        DerivedExactly(cells, row, r.value);
      }
    }
  }

  lemma RowHoldsMetrics(cells: Cells, row: nat, codes: seq<string>, metrics: map<string, Cell>)
    requires DistinctCodes(codes) && metrics == RowMetrics(cells, row, codes, |codes|)
    ensures forall i :: 0 <= i < |codes| ==>
              && (codes[i] in metrics <==> !IsEmptyCell(AnswerCell(cells, row, i)))
              && (codes[i] in metrics ==> metrics[codes[i]] == AnswerCell(cells, row, i))
    ensures forall code :: code in metrics ==> code in codes
  {
    RowMetricsByCode(cells, row, codes, |codes|);
    assert codes[..|codes|] == codes;
    forall i | 0 <= i < |codes|
      ensures codes[i] in metrics <==> !IsEmptyCell(AnswerCell(cells, row, i))
      ensures codes[i] in metrics ==> metrics[codes[i]] == AnswerCell(cells, row, i)
    {
      assert codes[i] in metrics <==> Present(CellAt(cells, row, FIRST_METRIC_COLUMN + i));
    }
  }

  /** The rows of a loaded sheet: in the order of the sheet, each of an answered row between
      the first and the last one, and every such row among them. */
  lemma AnsweredRowsAreLoaded(cells: Cells, titles: Titles, row: nat)
    requires Load(cells, titles).Loaded? && 5 <= row <= 1204
    ensures var loaded := Load(cells, titles);
            var codes := Codes(loaded.framework);
            && (forall i, j :: 0 <= i < j < |loaded.rows| ==> loaded.rows[i].sourceRow < loaded.rows[j].sourceRow)
            && (forall i :: 0 <= i < |loaded.rows| ==>
                  5 <= loaded.rows[i].sourceRow <= 1204 && HoldsRow(cells, loaded.rows[i].sourceRow, codes, loaded.rows[i]))
            && (!IsUnanswered(cells, row, codes)
                <==> exists i :: 0 <= i < |loaded.rows| && loaded.rows[i].sourceRow == row)
  {
    var loaded := Load(cells, titles);
    var codes := Codes(loaded.framework);
    CatalogFacts(loaded.framework);
    LoadedRowsInOrder(cells, loaded.framework, codes, LAST_ROW + 1);
    LoadedAreAnswered(cells, loaded.framework, codes, loaded.rows, row);
  }

  lemma LoadedAreAnswered(cells: Cells, f: Framework, codes: seq<string>, rows: seq<EvaluationRow>, row: nat)
    requires DistinctCodes(codes) && 5 <= row <= 1204 && rows == LoadedRows(cells, f, codes, LAST_ROW + 1)
    requires LoadedInOrder(rows, cells, f, codes, LAST_ROW + 1)
    ensures forall i :: 0 <= i < |rows| ==> HoldsRow(cells, rows[i].sourceRow, codes, rows[i])
    ensures !IsUnanswered(cells, row, codes) <==> exists i :: 0 <= i < |rows| && rows[i].sourceRow == row
  {
    forall i | 0 <= i < |rows| ensures HoldsRow(cells, rows[i].sourceRow, codes, rows[i]) {
      RowIsLoadedExactly(cells, rows[i].sourceRow, f, codes);
    }
    RowIsLoadedExactly(cells, row, f, codes);
    LoadedIsAmong(cells, f, codes, rows, row);
  }

  lemma LoadedIsAmong(cells: Cells, f: Framework, codes: seq<string>, rows: seq<EvaluationRow>, row: nat)
    requires 5 <= row <= 1204 && rows == LoadedRows(cells, f, codes, LAST_ROW + 1)
    requires LoadedInOrder(rows, cells, f, codes, LAST_ROW + 1)
    ensures LoadedRow(cells, row, f, codes).Some? <==> exists i :: 0 <= i < |rows| && rows[i].sourceRow == row
  {
    if LoadedRow(cells, row, f, codes).Some? {
      LoadedRowsComplete(cells, f, codes, LAST_ROW + 1, row);
      LoadedRowKeepsItsPlace(cells, row, f, codes);
      var i :| 0 <= i < |rows| && rows[i] == LoadedRow(cells, row, f, codes).value;
      assert rows[i].sourceRow == row;
    }
    if i :| 0 <= i < |rows| && rows[i].sourceRow == row {
      assert LoadedRow(cells, row, f, codes) == Some(rows[i]);
    }
  }
}
