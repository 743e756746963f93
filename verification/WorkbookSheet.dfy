/** The evaluation sheet of the school workbook: how the template prints it and how the
    loader reads it back. */
module WorkbookSheet {
  import opened Options
  import Text
  import opened MetricCatalog

  /** A cell value; `Other` is any value that is neither text nor a whole number, with its
      printed form. */
  datatype Cell = Blank | Words(text: string) | Whole(value: int) | Other(printed: string)

  type Position = (nat, nat)

  type Cells = map<Position, Cell>

  function CellAt(cells: Cells, row: nat, column: nat): Cell {
    if (row, column) in cells then cells[(row, column)] else Blank
  }

  predicate Present(c: Cell) {
    c != Blank && c != Words("")
  }

  /** The text of a value as the importers see it. */
  function CellText(c: Cell): string {
    match c
    case Blank => ""
    case Words(text) => Text.Clean(text)
    case Whole(n) => if n < 0 then "-" + Text.Decimal(0 - n) else Text.Decimal(n)
    case Other(printed) => Text.Clean(printed)
  }

  // ---------------------------------------------------------------- months

  /** The list of the template. */
  function MonthName(m: nat): string
    requires 1 <= m <= 12
  {
    match m
    case 1 => "تیر"
    case 2 => "مرداد"
    case 3 => "شهریور"
    case 4 => "مهر"
    case 5 => "آبان"
    case 6 => "آذر"
    case 7 => "دی"
    case 8 => "بهمن"
    case 9 => "اسفند"
    case 10 => "فروردین"
    case 11 => "اردیبهشت"
    case _ => "خرداد"
  }

  /** The table of the loader, which numbers the months from summer on. */
  function MonthNumber(text: string): Option<nat> {
    if text == "تیر" then Some(1)
    else if text == "مرداد" then Some(2)
    else if text == "شهریور" then Some(3)
    else if text == "مهر" then Some(4)
    else if text == "آبان" then Some(5)
    else if text == "آذر" then Some(6)
    else if text == "دی" then Some(7)
    else if text == "بهمن" then Some(8)
    else if text == "اسفند" then Some(9)
    else if text == "فروردین" then Some(10)
    else if text == "اردیبهشت" then Some(11)
    else if text == "خرداد" then Some(12)
    else None
  }

  lemma MonthNamesAreClean(m: nat)
    requires 1 <= m <= 12
    ensures Text.Clean(MonthName(m)) == MonthName(m)
  {
    var name := MonthName(m);
    assert forall i :: 0 <= i < |name| ==> 0x0620 <= name[i] as int <= 0x065F || 0x066A <= name[i] as int <= 0x06EF;
    Text.CleanIsStable(name);
  }

  /** The loader reads the printed month names as 1 to 12. */
  lemma MonthsAgree(m: nat)
    requires 1 <= m <= 12
    ensures MonthNumber(Text.Clean(MonthName(m))) == Some(m)
  {
    MonthNamesAreClean(m);
  }

  // ---------------------------------------------------------------- the printed sheet

  const STUDENTS := 100
  const MONTHS := 12
  const FIRST_ROW := 5
  const LAST_ROW := 1204
  const FIRST_METRIC_COLUMN := 7
  const NOTE_COLUMN := 94

  type Titles = map<(Framework, string), string>

  function Title(titles: Titles, f: Framework, code: string): string {
    if (f, code) in titles then titles[(f, code)] else ""
  }

  predicate DataRow(row: nat) { FIRST_ROW <= row <= LAST_ROW }

  function RowOf(student: nat, month: nat): nat
    requires 1 <= student && 1 <= month
  {
    4 + (student - 1) * 12 + month
  }

  function StudentOf(row: nat): nat
    requires DataRow(row)
  {
    (row - FIRST_ROW) / 12 + 1
  }

  function MonthOf(row: nat): (m: nat)
    requires DataRow(row)
    ensures 1 <= m <= 12
  {
    (row - FIRST_ROW) % 12 + 1
  }

  lemma RowsAndStudents(student: nat, month: nat)
    requires 1 <= student <= STUDENTS && 1 <= month <= MONTHS
    ensures DataRow(RowOf(student, month))
    ensures StudentOf(RowOf(student, month)) == student && MonthOf(RowOf(student, month)) == month
  {
  }

  const IDENTITY_HEADERS: seq<string> := ["ردیف", "ماه", "کد محلی", "کد ملی", "نام و نام خانوادگی", "کد کلاس"]

  const CALCULATED_HEADERS: seq<string> := [
    "امتیاز آموزشی (۰ تا ۲۰)", "امتیاز پرورشی (۰ تا ۲۰)", "امتیاز تربیتی (۰ تا ۲۰)",
    "امتیاز انضباطی (۰ تا ۲۰)", "امتیاز فرهنگی (۰ تا ۲۰)", "امتیاز پژوهشی (۰ تا ۲۰)",
    "امتیاز ورزشی (۰ تا ۲۰)", "امتیاز هنری (۰ تا ۲۰)", "امتیاز مهارت‌های فردی (۰ تا ۲۰)",
    "میانگین وزنی نهایی", "سطح عملکرد", "شماره ماه", "درصد تکمیل", "توضیحات"]

  function MetricHeader(titles: Titles, f: Framework, code: string): Cell {
    Words(code + " | " + Title(titles, f, code))
  }

  /** Row 4 of a sheet for a version of the catalogue. */
  function HeaderCell(titles: Titles, f: Framework, column: nat): Cell {
    HeaderOf(titles, f, Codes(f), column)
  }

  function HeaderOf(titles: Titles, f: Framework, codes: seq<string>, column: nat): Cell {
    if 1 <= column <= 6 then Words(IDENTITY_HEADERS[column - 1])
    else if 7 <= column < 7 + |codes| then MetricHeader(titles, f, codes[column - 7])
    else if 81 <= column <= 94 then Words(CALCULATED_HEADERS[column - 81])
    else Blank
  }

  /** A cell that holds a formula. */
  const CALCULATED := Other("=")

  function RowCell(row: nat, column: nat): Cell
    requires DataRow(row)
  {
    if column == 1 then Whole(row - 4)
    else if column == 2 then Words(MonthName(MonthOf(row)))
    else if column == 3 then Whole(StudentOf(row))
    else if column == 92 then Whole(MonthOf(row))
    else if 81 <= column <= 91 || column == 93 then CALCULATED
    else Blank
  }

  function SubtitleText(): string {
    "چارچوب " + Version(Current) + " — " + Text.Decimal(|Codes(Current)|) + " شاخص"
  }

  /** The template, cell by cell. */
  function TemplateCell(titles: Titles, row: nat, column: nat): Cell {
    if DataRow(row) then RowCell(row, column)
    else if row == 4 then HeaderCell(titles, Current, column)
    else if row == 1 && column == 1 then Words("ثبت اطلاعات ماهانه")
    else if row == 2 && column == 1 then Words(SubtitleText())
    else Blank
  }

  /** The rows before `end` are those of the template, the others are empty. */
  ghost predicate Printed(cells: Cells, titles: Titles, end: nat) {
    forall r: nat, c: nat :: CellAt(cells, r, c) == if r < end then TemplateCell(titles, r, c) else Blank
  }

  /** What teachers enter: scores by student, month and indicator, and notes. */
  datatype Form = Form(scores: map<(nat, nat, string), Cell>, notes: map<(nat, nat), Cell>)

  predicate Answerable(form: Form) {
    && (forall k: (nat, nat, string) :: k in form.scores ==> k.2 in Codes(Current))
  }

  function ScoreAt(form: Form, student: nat, month: nat, code: string): Cell {
    if (student, month, code) in form.scores then form.scores[(student, month, code)] else Blank
  }

  function NoteAt(form: Form, student: nat, month: nat): Cell {
    if (student, month) in form.notes then form.notes[(student, month)] else Blank
  }

  function FormCell(titles: Titles, form: Form, row: nat, column: nat): Cell {
    AnswerOr(TemplateCell(titles, row, column), Codes(Current), form, row, column)
  }

  /** What was entered in an open cell, or what is printed there. */
  function AnswerOr(printed: Cell, codes: seq<string>, form: Form, row: nat, column: nat): Cell {
    if DataRow(row) && 7 <= column < 7 + |codes| then ScoreAt(form, StudentOf(row), MonthOf(row), codes[column - 7])
    else if DataRow(row) && column == NOTE_COLUMN then NoteAt(form, StudentOf(row), MonthOf(row))
    else printed
  }

  /** The printed sheet with a form entered in its open cells. */
  ghost predicate FilledIn(cells: Cells, titles: Titles, form: Form) {
    forall r: nat, c: nat :: CellAt(cells, r, c) == FormCell(titles, form, r, c)
  }

  class Worksheet {
    var cells: Cells
    var lastRow: nat

    constructor ()
      ensures cells == map[] && lastRow == 0
    {
      cells := map[];
      lastRow := 0;
    }

    method Write(row: nat, column: nat, value: Cell)
      modifies this`cells
      ensures forall r: nat, c: nat :: CellAt(cells, r, c)
                == if r == row && c == column then value else CellAt(old(cells), r, c)
    {
      cells := cells[(row, column) := value];
    }

    /** Adds a row below the last one. */
    method Append(values: seq<Cell>)
      modifies this
      ensures lastRow == old(lastRow) + 1
      ensures forall r: nat, c: nat :: CellAt(cells, r, c)
                == if r == lastRow && 1 <= c <= |values| then values[c - 1] else CellAt(old(cells), r, c)
    {
      lastRow := lastRow + 1;
      for i := 0 to |values|
        invariant lastRow == old(lastRow) + 1
        invariant forall r: nat, c: nat :: CellAt(cells, r, c)
                    == if r == lastRow && 1 <= c <= i then values[c - 1] else CellAt(old(cells), r, c)
      {
        Write(lastRow, i + 1, values[i]);
      }
    }

    /** One line for a student and a month. */
    method PrintRow(row: nat, student: nat, month: nat)
      requires DataRow(row) && student == StudentOf(row) && month == MonthOf(row)
      requires forall c: nat :: CellAt(cells, row, c) == Blank
      modifies this`cells
      ensures forall r: nat, c: nat :: CellAt(cells, r, c)
                == if r == row then RowCell(row, c) else CellAt(old(cells), r, c)
    {
      Write(row, 1, Whole(row - 4));
      Write(row, 2, Words(MonthName(month)));
      Write(row, 3, Whole(student));
      Write(row, 92, Whole(month));
      for offset := 0 to 9
        invariant forall r: nat, c: nat :: CellAt(cells, r, c) ==
                    if r != row then CellAt(old(cells), r, c)
                    else if 81 + offset <= c <= 91 || c == 93 then Blank else RowCell(row, c)
      {
        Write(row, 81 + offset, CALCULATED);
      }
      Write(row, 90, CALCULATED);
      Write(row, 91, CALCULATED);
      Write(row, 93, CALCULATED);
    }

    /** Prints the evaluation sheet of the template. */
    method BuildEvaluationSheet(titles: Titles)
      requires cells == map[] && lastRow == 0
      modifies this
      ensures Printed(cells, titles, LAST_ROW + 1)
    {
      Append([Words("ثبت اطلاعات ماهانه")]);
      Append([Words(SubtitleText())]);
      Append([]);
      Append(HeaderRow(titles));
      HeaderRowCells(titles);
      assert Printed(cells, titles, 5);
      var row := 5;
      for student := 1 to STUDENTS + 1
        invariant row == RowOf(student, 1)
        invariant Printed(cells, titles, row)
      {
        for month := 1 to MONTHS + 1
          invariant row == RowOf(student, month)
          invariant Printed(cells, titles, row)
        {
          RowsAndStudents(student, month);
          PrintRow(row, student, month);
          row := row + 1;
        }
      }
    }

    /** A teacher enters a score. */
    method EnterScore(titles: Titles, ghost form: Form, student: nat, month: nat, index: nat, value: Cell)
      requires 1 <= student <= STUDENTS && 1 <= month <= MONTHS && index < |Codes(Current)|
      requires FilledIn(cells, titles, form)
      modifies this`cells
      ensures FilledIn(cells, titles, form.(scores := form.scores[(student, month, Codes(Current)[index]) := value]))
    {
      Write(RowOf(student, month), 7 + index, value);
      ScoreEntered(titles, form, student, month, index, value);
    }

    method EnterNote(titles: Titles, ghost form: Form, student: nat, month: nat, value: Cell)
      requires 1 <= student <= STUDENTS && 1 <= month <= MONTHS
      requires FilledIn(cells, titles, form)
      modifies this`cells
      ensures FilledIn(cells, titles, form.(notes := form.notes[(student, month) := value]))
    {
      Write(RowOf(student, month), NOTE_COLUMN, value);
      NoteEntered(titles, form, student, month, value);
    }
  }

  /** The header list as the template concatenates it. */
  function HeaderRow(titles: Titles): seq<Cell> {
    CatalogFacts(Current);
    HeaderList(titles, Codes(Current))
  }

  function HeaderList(titles: Titles, codes: seq<string>): (list: seq<Cell>)
    requires |codes| <= 74
  {
    seq(6, i requires 0 <= i < 6 => Words(IDENTITY_HEADERS[i]))
    + seq(|codes|, i requires 0 <= i < |codes| => MetricHeader(titles, Current, codes[i]))
    + seq(80 - (6 + |codes|), i => Blank)
    + seq(14, i requires 0 <= i < 14 => Words(CALCULATED_HEADERS[i]))
  }

  lemma HeaderListCells(titles: Titles, codes: seq<string>)
    requires |codes| <= 74
    ensures |HeaderList(titles, codes)| == 94
    ensures forall c: nat :: HeaderOf(titles, Current, codes, c)
              == if 1 <= c <= 94 then HeaderList(titles, codes)[c - 1] else Blank
  {
  }

  lemma HeaderRowCells(titles: Titles)
    ensures |HeaderRow(titles)| == 94
    ensures forall c: nat :: HeaderCell(titles, Current, c)
              == if 1 <= c <= 94 then HeaderRow(titles)[c - 1] else Blank
  {
    CatalogFacts(Current);
    HeaderListCells(titles, Codes(Current));
  }

  lemma ScoreEntered(titles: Titles, form: Form, student: nat, month: nat, index: nat, value: Cell)
    requires 1 <= student <= STUDENTS && 1 <= month <= MONTHS && index < |Codes(Current)|
    ensures var entered := form.(scores := form.scores[(student, month, Codes(Current)[index]) := value]);
            forall r: nat, c: nat :: FormCell(titles, entered, r, c)
              == if r == RowOf(student, month) && c == 7 + index then value else FormCell(titles, form, r, c)
  {
    forall r: nat, c: nat
      ensures var entered := form.(scores := form.scores[(student, month, Codes(Current)[index]) := value]);
              FormCell(titles, entered, r, c)
              == if r == RowOf(student, month) && c == 7 + index then value else FormCell(titles, form, r, c)
    {
      ScoreEnteredAt(titles, form, student, month, index, value, r, c);
    }
  }

  lemma ScoreEnteredAt(titles: Titles, form: Form, student: nat, month: nat, index: nat, value: Cell, r: nat, c: nat)
    requires 1 <= student <= STUDENTS && 1 <= month <= MONTHS && index < |Codes(Current)|
    ensures var entered := form.(scores := form.scores[(student, month, Codes(Current)[index]) := value]);
            FormCell(titles, entered, r, c)
            == if r == RowOf(student, month) && c == 7 + index then value else FormCell(titles, form, r, c)
  {
    CatalogFacts(Current);
    AnswerEntered(TemplateCell(titles, r, c), Codes(Current), form, student, month, index, value, r, c);
  }

  lemma AnswerEntered(printed: Cell, codes: seq<string>, form: Form, student: nat, month: nat, index: nat, value: Cell, r: nat, c: nat)
    requires 1 <= student <= STUDENTS && 1 <= month <= MONTHS && index < |codes| && DistinctCodes(codes)
    ensures var entered := form.(scores := form.scores[(student, month, codes[index]) := value]);
            AnswerOr(printed, codes, entered, r, c)
            == if r == RowOf(student, month) && c == 7 + index then value else AnswerOr(printed, codes, form, r, c)
  {
    RowsAndStudents(student, month);
    if DataRow(r) && 7 <= c < 7 + |codes| {
      assert c != 7 + index ==> codes[c - 7] != codes[index];
      assert r == RowOf(StudentOf(r), MonthOf(r));
    }
  }

  lemma NoteEntered(titles: Titles, form: Form, student: nat, month: nat, value: Cell)
    requires 1 <= student <= STUDENTS && 1 <= month <= MONTHS
    ensures var entered := form.(notes := form.notes[(student, month) := value]);
            forall r: nat, c: nat :: FormCell(titles, entered, r, c)
              == if r == RowOf(student, month) && c == NOTE_COLUMN then value else FormCell(titles, form, r, c)
  {
    CatalogFacts(Current);
    RowsAndStudents(student, month);
    var entered := form.(notes := form.notes[(student, month) := value]);
    forall r: nat, c: nat
      ensures FormCell(titles, entered, r, c)
           == if r == RowOf(student, month) && c == NOTE_COLUMN then value else FormCell(titles, form, r, c)
    {
      if DataRow(r) && c == NOTE_COLUMN {
        assert r == RowOf(StudentOf(r), MonthOf(r));
      }
    }
  }

  /** The template is the sheet with nothing entered. */
  lemma TemplateIsEmptyForm(cells: Cells, titles: Titles)
    requires Printed(cells, titles, LAST_ROW + 1)
    ensures FilledIn(cells, titles, Form(map[], map[]))
  {
    forall r: nat, c: nat ensures CellAt(cells, r, c) == FormCell(titles, Form(map[], map[]), r, c) {
      EmptyFormCell(titles, r, c);
    }
  }

  lemma EmptyFormCell(titles: Titles, r: nat, c: nat)
    ensures FormCell(titles, Form(map[], map[]), r, c) == if r < LAST_ROW + 1 then TemplateCell(titles, r, c) else Blank
  {
    CatalogFacts(Current);
    NothingAnswered(TemplateCell(titles, r, c), Codes(Current), r, c);
  }

  lemma NothingAnswered(printed: Cell, codes: seq<string>, r: nat, c: nat)
    requires |codes| <= 74
    requires DataRow(r) ==> printed == RowCell(r, c)
    ensures AnswerOr(printed, codes, Form(map[], map[]), r, c) == printed
  {
  }

  // ---------------------------------------------------------------- recognising the version

  datatype Header = Header(code: string, title: string)

  /** Code and title of a metric header, split at the first bar. */
  function SplitHeader(value: Cell): Header {
    var header := CellText(value);
    var bar := Text.FirstIndex(header, '|');
    if bar == |header| then Header(Text.Upper(Text.Strip(header)), "")
    else Header(Text.Upper(Text.Strip(header[..bar])), Text.Strip(header[bar + 1..]))
  }

  predicate TitleFits(h: Header, titles: Titles, f: Framework, code: string) {
    h.title == "" || Text.Label(h.title) == Text.Label(Title(titles, f, code))
  }

  predicate HeaderFits(h: Header, titles: Titles, f: Framework, code: string) {
    h.code == code && TitleFits(h, titles, f, code)
  }

  /** The header row carries the codes of a version in order; nothing may follow those of
      the current version. */
  predicate Fits(headers: seq<Header>, titles: Titles, f: Framework, codes: seq<string>) {
    && |codes| <= |headers|
    && (forall i :: 0 <= i < |codes| ==> headers[i].code == codes[i])
    && (forall i :: 0 <= i < |codes| ==> TitleFits(headers[i], titles, f, codes[i]))
    && (f.Current? ==> forall i :: |codes| <= i < |headers| ==> headers[i].code == "")
  }

  predicate Matches(headers: seq<Header>, titles: Titles, f: Framework) {
    Fits(headers, titles, f, Codes(f))
  }

  function Detected(headers: seq<Header>, titles: Titles): Option<Framework> {
    if Matches(headers, titles, Current) then Some(Current)
    else if Matches(headers, titles, Legacy) then Some(Legacy)
    else None
  }

  /** Row 4 from the first to the last metric column. */
  function MetricHeaders(cells: Cells): (headers: seq<Header>)
    ensures |headers| == 74
  {
    seq(74, i requires 0 <= i < 74 => SplitHeader(CellAt(cells, 4, 7 + i)))
  }

  method CodesFit(headers: seq<Header>, codes: seq<string>) returns (fits: bool)
    requires |codes| <= |headers|
    ensures fits <==> forall i :: 0 <= i < |codes| ==> headers[i].code == codes[i]
  {
    for i := 0 to |codes|
      invariant forall j :: 0 <= j < i ==> headers[j].code == codes[j]
    {
      if headers[i].code != codes[i] {
        return false;
      }
    }
    return true;
  }

  method TitlesFit(headers: seq<Header>, titles: Titles, f: Framework, codes: seq<string>) returns (fits: bool)
    requires |codes| <= |headers|
    ensures fits <==> forall i :: 0 <= i < |codes| ==> TitleFits(headers[i], titles, f, codes[i])
  {
    for i := 0 to |codes|
      invariant forall j :: 0 <= j < i ==> TitleFits(headers[j], titles, f, codes[j])
    {
      if !TitleFits(headers[i], titles, f, codes[i]) {
        return false;
      }
    }
    return true;
  }

  method NothingFollows(headers: seq<Header>, from: nat) returns (nothing: bool)
    requires from <= |headers|
    ensures nothing <==> forall i :: from <= i < |headers| ==> headers[i].code == ""
  {
    for i := from to |headers|
      invariant forall j :: from <= j < i ==> headers[j].code == ""
    {
      if headers[i].code != "" {
        return false;
      }
    }
    return true;
  }

  /** The codes first, then the titles, then what follows. */
  method FrameworkFits(headers: seq<Header>, titles: Titles, f: Framework, codes: seq<string>) returns (fits: bool)
    ensures fits <==> Fits(headers, titles, f, codes)
  {
    if |codes| > |headers| {
      return false;
    }
    fits := CodesFit(headers, codes);
    if fits {
      fits := TitlesFit(headers, titles, f, codes);
    }
    if fits && f.Current? {
      fits := NothingFollows(headers, |codes|);
    }
  }

  method FrameworkMatches(headers: seq<Header>, titles: Titles, f: Framework) returns (matches: bool)
    ensures matches <==> Matches(headers, titles, f)
  {
    matches := FrameworkFits(headers, titles, f, Codes(f));
  }

  method DetectFramework(headers: seq<Header>, titles: Titles) returns (r: Option<Framework>)
    ensures r == Detected(headers, titles)
  {
    var candidates := [Current, Legacy];
    for i := 0 to |candidates|
      invariant i >= 1 ==> !Matches(headers, titles, Current)
      invariant i >= 2 ==> !Matches(headers, titles, Legacy)
    {
      var f := candidates[i];
      var matches := FrameworkMatches(headers, titles, f);
      if matches {
        return Some(f);
      }
    }
    return None;
  }

  lemma PlainCharacters(code: string)
    requires Plain(code)
    ensures forall i :: 0 <= i < |code| ==>
              !Text.IsSpace(code[i]) && Text.AsciiDigit(code[i]) == code[i] && Text.UpperChar(code[i]) == code[i] && code[i] != '|'
  {
  }

  lemma PlainCodesAreKept(code: string)
    requires Plain(code)
    ensures Text.Upper(Text.Strip(code + " ")) == code
  {
    PlainCharacters(code);
    assert Text.StripLeft(code + " ") == code + " ";
    Text.StripRightStopsAt(code, " ");
    assert Text.StripRight(" ") == "";
    assert code + "" == code;
    assert Text.Upper(code) == code;
  }

  lemma CleanHeader(code: string, title: string)
    requires Plain(code)
    ensures Text.Clean(code + " | " + title) == code + " |" + Text.Translate(Text.StripRight(" " + title))
  {
    PlainCharacters(code);
    var front := code + " |";
    var tail := " " + title;
    assert code + " | " + title == front + tail;
    assert (front + tail)[0] == code[0];
    assert Text.StripLeft(front + tail) == front + tail;
    assert front[|front| - 1] == '|';
    Text.StripRightStopsAt(front, tail);
    Text.TranslateConcat(front, Text.StripRight(tail));
    TranslatedFront(code);
  }

  lemma TranslatedFront(code: string)
    requires Plain(code)
    ensures Text.Translate(code + " |") == code + " |"
  {
    PlainCharacters(code);
    var front := code + " |";
    assert forall i :: 0 <= i < |front| ==> Text.AsciiDigit(front[i]) == front[i];
  }

  lemma LabelOfTail(title: string)
    ensures Text.Label(Text.Strip(Text.Translate(Text.StripRight(" " + title)))) == Text.Label(title)
  {
    var s := " " + title;
    Text.LabelOfStripped(Text.Translate(Text.StripRight(s)));
    Text.TranslateIsStable(Text.StripRight(s));
    Text.SqueezeIgnoresRight(s);
    SpaceInFront(title);
    Text.LabelOfStrip(title);
  }

  lemma SpaceInFront(title: string)
    ensures Text.Squeeze(Text.Translate(" " + title)) == Text.Squeeze(Text.Translate(title))
  {
    Text.TranslateConcat(" ", title);
    Text.SqueezeConcat(Text.Translate(" "), Text.Translate(title));
  }

  /** A printed header is read back as its own code, with a title that fits. */
  lemma PrintedHeaderFits(titles: Titles, f: Framework, code: string)
    requires Plain(code)
    ensures HeaderFits(SplitHeader(MetricHeader(titles, f, code)), titles, f, code)
  {
    var title := Title(titles, f, code);
    var tail := Text.Translate(Text.StripRight(" " + title));
    CleanHeader(code, title);
    PlainCodesAreKept(code);
    HeaderIsSplit(MetricHeader(titles, f, code), code, tail);
    LabelOfTail(title);
  }

  lemma HeaderIsSplit(value: Cell, code: string, tail: string)
    requires Plain(code) && CellText(value) == code + " |" + tail
    ensures SplitHeader(value) == Header(Text.Upper(Text.Strip(code + " ")), Text.Strip(tail))
  {
    PlainCharacters(code);
    BarComesAfter(code, tail);
  }

  lemma BarComesAfter(code: string, tail: string)
    requires forall i :: 0 <= i < |code| ==> code[i] != '|'
    ensures var header := code + " |" + tail;
            var bar := Text.FirstIndex(header, '|');
            bar == |code| + 1 < |header| && header[..bar] == code + " " && header[bar + 1..] == tail
  {
    var header := code + " |" + tail;
    assert header[|code| + 1] == '|' && header[|code|] == ' ';
    assert forall i :: 0 <= i < |code| ==> header[i] == code[i];
    Text.FirstIndexIs(header, '|', |code| + 1);
  }

  lemma PrintedRowFits(cells: Cells, titles: Titles, f: Framework, codes: seq<string>)
    requires |codes| <= 74 && forall i :: 0 <= i < |codes| ==> Plain(codes[i])
    requires forall c: nat :: 7 <= c <= 80 ==>
               CellAt(cells, 4, c) == if c < 7 + |codes| then MetricHeader(titles, f, codes[c - 7]) else Blank
    ensures Fits(MetricHeaders(cells), titles, f, codes)
  {
    var headers := MetricHeaders(cells);
    forall i | 0 <= i < |codes| ensures HeaderFits(headers[i], titles, f, codes[i]) {
      assert headers[i] == SplitHeader(CellAt(cells, 4, 7 + i));
      PrintedHeaderFits(titles, f, codes[i]);
    }
    forall i | |codes| <= i < |headers| ensures headers[i].code == "" {
      assert headers[i] == SplitHeader(CellAt(cells, 4, 7 + i));
      assert SplitHeader(Blank).code == "";
    }
  }

  lemma OneCodeListFits(headers: seq<Header>, titles: Titles, f: Framework, codes: seq<string>, g: Framework, others: seq<string>, i: nat)
    requires i < |codes| && i < |others| && codes[i] != others[i] && Fits(headers, titles, f, codes)
    ensures !Fits(headers, titles, g, others)
  {
    assert headers[i].code == codes[i];
  }

  /** No header row fits both versions, so no code changes its meaning silently. */
  lemma VersionsAreNotConfused(headers: seq<Header>, titles: Titles)
    ensures !(Matches(headers, titles, Current) && Matches(headers, titles, Legacy))
  {
    NinthCode();
    if Matches(headers, titles, Legacy) {
      OneCodeListFits(headers, titles, Legacy, Codes(Legacy), Current, Codes(Current), 8);
    }
  }

  /** A header row printed for either version is recognised as that version. */
  lemma PrintedVersionIsRecognised(cells: Cells, titles: Titles, f: Framework)
    requires forall c: nat :: 7 <= c <= 80 ==> CellAt(cells, 4, c) == HeaderCell(titles, f, c)
    ensures Detected(MetricHeaders(cells), titles) == Some(f)
  {
    CatalogFacts(f);
    PrintedRowFits(cells, titles, f, Codes(f));
    VersionsAreNotConfused(MetricHeaders(cells), titles);
  }

  // ---------------------------------------------------------------- loading the rows

  datatype EvaluationRow = EvaluationRow(
    localCode: string, month: Cell, metrics: map<string, Cell>, note: Cell, frameworkVersion: string, sourceRow: nat)

  datatype Loaded = Refused | Loaded(framework: Framework, rows: seq<EvaluationRow>)

  /** The non-empty cells among the first `n` metric columns, by code. */
  function RowMetrics(cells: Cells, row: nat, codes: seq<string>, n: nat): map<string, Cell>
    requires n <= |codes|
  {
    if n == 0 then map[]
    else
      var front := RowMetrics(cells, row, codes, n - 1);
      var value := CellAt(cells, row, FIRST_METRIC_COLUMN + n - 1);
      if Present(value) then front[codes[n - 1] := value] else front
  }

  /** The local code that follows from the running number of a row. */
  function DerivedLocalCode(sequence: string): string {
    if sequence != "" && Text.AllAsciiDigits(sequence) && Text.Number(sequence) > 0
    then Text.Decimal((Text.Number(sequence) - 1) / 12 + 1) else ""
  }

  function LoadedRow(cells: Cells, row: nat, f: Framework, codes: seq<string>): Option<EvaluationRow> {
    var metrics := RowMetrics(cells, row, codes, |codes|);
    var note := CellAt(cells, row, NOTE_COLUMN);
    if metrics == map[] && !Present(note) then None
    else
      var derived := DerivedLocalCode(CellText(CellAt(cells, row, 1)));
      var written := CellText(CellAt(cells, row, 3));
      Some(EvaluationRow(if written != "" then written else derived, CellAt(cells, row, 2), metrics, note, Version(f), row))
  }

  /** The rows before `end`. */
  function LoadedRows(cells: Cells, f: Framework, codes: seq<string>, end: nat): seq<EvaluationRow> {
    if end <= FIRST_ROW then []
    else
      var last := LoadedRow(cells, end - 1, f, codes);
      LoadedRows(cells, f, codes, end - 1) + if last.Some? then [last.value] else []
  }

  predicate IdentityHeadersFit(cells: Cells) {
    forall c: nat :: 1 <= c <= 6 ==> Text.Label(CellText(CellAt(cells, 4, c))) == Text.Label(IDENTITY_HEADERS[c - 1])
  }

  /** Something stands below the last supported row. */
  predicate Overflows(cells: Cells) {
    exists p :: p in cells && p.0 > LAST_ROW && 1 <= p.1 <= 94 && Present(cells[p])
  }

  function Load(cells: Cells, titles: Titles): Loaded {
    var detected := Detected(MetricHeaders(cells), titles);
    if !IdentityHeadersFit(cells) || detected.None? || Overflows(cells) then Refused
    else Loaded(detected.value, LoadedRows(cells, detected.value, Codes(detected.value), LAST_ROW + 1))
  }

  method LoadRow(cells: Cells, row: nat, f: Framework, codes: seq<string>) returns (r: Option<EvaluationRow>)
    ensures r == LoadedRow(cells, row, f, codes)
  {
    var metrics: map<string, Cell> := map[];
    for i := 0 to |codes|
      invariant metrics == RowMetrics(cells, row, codes, i)
    {
      var value := CellAt(cells, row, FIRST_METRIC_COLUMN + i);
      if Present(value) {
        metrics := metrics[codes[i] := value];
      }
    }
    var note := CellAt(cells, row, NOTE_COLUMN);
    if metrics == map[] && !Present(note) {
      return None;
    }
    var sequence := CellText(CellAt(cells, row, 1));
    var derived := "";
    if sequence != "" && Text.AllAsciiDigits(sequence) && Text.Number(sequence) > 0 {
      derived := Text.Decimal((Text.Number(sequence) - 1) / 12 + 1);
    }
    var localCode := CellText(CellAt(cells, row, 3));
    if localCode == "" {
      localCode := derived;
    }
    return Some(EvaluationRow(localCode, CellAt(cells, row, 2), metrics, note, Version(f), row));
  }

  method LoadEvaluationSheet(cells: Cells, titles: Titles) returns (loaded: Loaded)
    ensures loaded == Load(cells, titles)
  {
    if !IdentityHeadersFit(cells) {
      return Refused;
    }
    var detected := DetectFramework(MetricHeaders(cells), titles);
    if detected.None? || Overflows(cells) {
      return Refused;
    }
    var f := detected.value;
    var codes := Codes(f);
    var rows: seq<EvaluationRow> := [];
    for row := FIRST_ROW to LAST_ROW + 1
      invariant rows == LoadedRows(cells, f, codes, row)
    {
      var r := LoadRow(cells, row, f, codes);
      if r.Some? {
        rows := rows + [r.value];
      }
    }
    return Loaded(f, rows);
  }

  // ---------------------------------------------------------------- round trip

  /** The scores of one student and month, without the empty ones. */
  function FormMetrics(form: Form, student: nat, month: nat): map<string, Cell> {
    map k: (nat, nat, string) | k in form.scores && k.0 == student && k.1 == month && Present(form.scores[k])
      :: k.2 := form.scores[k]
  }

  /** What the loader should make of one student and month. */
  function FormRow(form: Form, student: nat, month: nat): Option<EvaluationRow>
    requires 1 <= student && 1 <= month <= 12
  {
    var metrics := FormMetrics(form, student, month);
    var note := NoteAt(form, student, month);
    if metrics == map[] && !Present(note) then None
    else Some(EvaluationRow(Text.Decimal(student), Words(MonthName(month)), metrics, note, "2.0", RowOf(student, month)))
  }

  predicate DistinctCodes(codes: seq<string>) {
    forall i, j :: 0 <= i < j < |codes| ==> codes[i] != codes[j]
  }

  lemma {:induction false} RowMetricsByCode(cells: Cells, row: nat, codes: seq<string>, n: nat)
    requires n <= |codes| && DistinctCodes(codes)
    ensures forall code :: code in RowMetrics(cells, row, codes, n) ==> code in codes[..n]
    ensures forall i :: 0 <= i < n ==>
              var value := CellAt(cells, row, FIRST_METRIC_COLUMN + i);
              && (codes[i] in RowMetrics(cells, row, codes, n) <==> Present(value))
              && (Present(value) ==> RowMetrics(cells, row, codes, n)[codes[i]] == value)
  {
    if n > 0 {
      RowMetricsByCode(cells, row, codes, n - 1);
      assert codes[..n] == codes[..n - 1] + [codes[n - 1]];
    }
  }

  lemma RowMetricsOfForm(cells: Cells, form: Form, student: nat, month: nat, row: nat, codes: seq<string>)
    requires DistinctCodes(codes) && forall k :: k in form.scores ==> k.2 in codes
    requires forall i :: 0 <= i < |codes| ==>
               CellAt(cells, row, FIRST_METRIC_COLUMN + i) == ScoreAt(form, student, month, codes[i])
    ensures RowMetrics(cells, row, codes, |codes|) == FormMetrics(form, student, month)
  {
    var read, entered := RowMetrics(cells, row, codes, |codes|), FormMetrics(form, student, month);
    RowMetricsByCode(cells, row, codes, |codes|);
    assert codes[..|codes|] == codes;
    forall code | code in codes
      ensures code in read <==> code in entered
      ensures code in read ==> read[code] == entered[code]
    {
      var i :| 0 <= i < |codes| && codes[i] == code;
      assert CellAt(cells, row, FIRST_METRIC_COLUMN + i) == ScoreAt(form, student, month, code);
      if code in read {
        assert (student, month, code) in form.scores;
      }
    }
  }

  lemma TextOfWhole(n: nat)
    ensures CellText(Whole(n)) == Text.Decimal(n)
  {
  }

  lemma CodeOfSequence(n: nat)
    requires n > 0
    ensures DerivedLocalCode(Text.Decimal(n)) == Text.Decimal((n - 1) / 12 + 1)
  {
    Text.NumberOfDecimal(n);
  }

  /** The running number of a printed row leads to the same local code as the one written. */
  lemma DerivedCodeIsTheWrittenOne(row: nat)
    requires DataRow(row)
    ensures DerivedLocalCode(CellText(RowCell(row, 1))) == CellText(RowCell(row, 3)) == Text.Decimal(StudentOf(row))
  {
    var running, written := RowCell(row, 1), RowCell(row, 3);
    assert running == Whole(row - 4) && written == Whole(StudentOf(row));
    TextOfWhole(row - 4);
    TextOfWhole(StudentOf(row));
    CodeOfSequence(row - 4);
  }

  lemma FilledCells(cells: Cells, titles: Titles, form: Form, row: nat)
    requires FilledIn(cells, titles, form) && DataRow(row)
    ensures CellAt(cells, row, 1) == RowCell(row, 1) && CellAt(cells, row, 3) == RowCell(row, 3)
    ensures CellAt(cells, row, 2) == Words(MonthName(MonthOf(row)))
    ensures CellAt(cells, row, NOTE_COLUMN) == NoteAt(form, StudentOf(row), MonthOf(row))
    ensures forall i :: 0 <= i < |Codes(Current)| ==>
              CellAt(cells, row, FIRST_METRIC_COLUMN + i) == ScoreAt(form, StudentOf(row), MonthOf(row), Codes(Current)[i])
  {
    CatalogFacts(Current);
  }

  lemma RowIsLoaded(cells: Cells, row: nat, metrics: map<string, Cell>, codes: seq<string>)
    requires DataRow(row)
    requires CellAt(cells, row, 1) == RowCell(row, 1) && CellAt(cells, row, 3) == RowCell(row, 3)
    requires metrics == RowMetrics(cells, row, codes, |codes|)
    ensures var note := CellAt(cells, row, NOTE_COLUMN);
            LoadedRow(cells, row, Current, codes)
            == if metrics == map[] && !Present(note) then None
               else Some(EvaluationRow(Text.Decimal(StudentOf(row)), CellAt(cells, row, 2), metrics, note, "2.0", row))
  {
    DerivedCodeIsTheWrittenOne(row);
  }

  lemma FormRowIsLoaded(cells: Cells, titles: Titles, form: Form, student: nat, month: nat)
    requires FilledIn(cells, titles, form) && Answerable(form)
    requires 1 <= student <= STUDENTS && 1 <= month <= MONTHS
    ensures LoadedRow(cells, RowOf(student, month), Current, Codes(Current)) == FormRow(form, student, month)
  {
    var row, codes := RowOf(student, month), Codes(Current);
    CatalogFacts(Current);
    RowsAndStudents(student, month);
    FilledCells(cells, titles, form, row);
    RowMetricsOfForm(cells, form, student, month, row, codes);
    RowIsLoaded(cells, row, FormMetrics(form, student, month), codes);
  }

  lemma LoadedRowKeepsItsPlace(cells: Cells, row: nat, f: Framework, codes: seq<string>)
    ensures var r := LoadedRow(cells, row, f, codes); r.Some? ==> r.value.sourceRow == row
  {
  }

  ghost predicate LoadedInOrder(rows: seq<EvaluationRow>, cells: Cells, f: Framework, codes: seq<string>, end: nat) {
    && (forall i :: 0 <= i < |rows| ==> FIRST_ROW <= rows[i].sourceRow < end)
    && (forall i :: 0 <= i < |rows| ==> LoadedRow(cells, rows[i].sourceRow, f, codes) == Some(rows[i]))
    && (forall i, j :: 0 <= i < j < |rows| ==> rows[i].sourceRow < rows[j].sourceRow)
  }

  lemma {:induction false} LoadedRowsInOrder(cells: Cells, f: Framework, codes: seq<string>, end: nat)
    requires end >= FIRST_ROW
    ensures LoadedInOrder(LoadedRows(cells, f, codes, end), cells, f, codes, end)
  {
    if end > FIRST_ROW {
      LoadedRowsInOrder(cells, f, codes, end - 1);
      OneMoreInOrder(LoadedRows(cells, f, codes, end - 1), cells, f, codes, end - 1, LoadedRow(cells, end - 1, f, codes));
    }
  }

  lemma OneMoreInOrder(rows: seq<EvaluationRow>, cells: Cells, f: Framework, codes: seq<string>, row: nat, last: Option<EvaluationRow>)
    requires row >= FIRST_ROW && LoadedInOrder(rows, cells, f, codes, row) && last == LoadedRow(cells, row, f, codes)
    ensures LoadedInOrder(rows + if last.Some? then [last.value] else [], cells, f, codes, row + 1)
  {
    LoadedRowKeepsItsPlace(cells, row, f, codes);
    if last.Some? {
      var longer := rows + [last.value];
      forall i | 0 <= i < |longer|
        ensures FIRST_ROW <= longer[i].sourceRow < row + 1 && LoadedRow(cells, longer[i].sourceRow, f, codes) == Some(longer[i])
      {
        if i < |rows| {
          assert longer[i] == rows[i];
        }
      }
    } else {
      assert rows + [] == rows;
    }
  }

  lemma {:induction false} LoadedRowsComplete(cells: Cells, f: Framework, codes: seq<string>, end: nat, row: nat)
    requires FIRST_ROW <= row < end && LoadedRow(cells, row, f, codes).Some?
    ensures LoadedRow(cells, row, f, codes).value in LoadedRows(cells, f, codes, end)
  {
    LoadedRowsGrow(cells, f, codes, end);
    if row < end - 1 {
      LoadedRowsComplete(cells, f, codes, end - 1, row);
    }
  }

  lemma LoadedRowsGrow(cells: Cells, f: Framework, codes: seq<string>, end: nat)
    requires end > FIRST_ROW
    ensures forall r :: r in LoadedRows(cells, f, codes, end - 1) ==> r in LoadedRows(cells, f, codes, end)
    ensures LoadedRow(cells, end - 1, f, codes).Some?
            ==> LoadedRow(cells, end - 1, f, codes).value in LoadedRows(cells, f, codes, end)
  {
  }

  lemma FilledSheetIsAccepted(cells: Cells, titles: Titles, form: Form)
    requires FilledIn(cells, titles, form)
    ensures IdentityHeadersFit(cells) && !Overflows(cells)
    ensures Detected(MetricHeaders(cells), titles) == Some(Current)
  {
    CatalogFacts(Current);
    forall c: nat | 1 <= c <= 6
      ensures Text.Label(CellText(CellAt(cells, 4, c))) == Text.Label(IDENTITY_HEADERS[c - 1])
    {
      assert CellAt(cells, 4, c) == Words(IDENTITY_HEADERS[c - 1]);
      Text.LabelOfClean(IDENTITY_HEADERS[c - 1]);
    }
    forall p | p in cells && p.0 > LAST_ROW ensures cells[p] == Blank {
      assert cells[p] == CellAt(cells, p.0, p.1);
    }
    PrintedVersionIsRecognised(cells, titles, Current);
  }

  /** Rows in the order of the sheet, one for each student and month with a score or a note
      and none for the others. */
  ghost predicate ExactlyTheForm(rows: seq<EvaluationRow>, form: Form) {
    && (forall i, j :: 0 <= i < j < |rows| ==> rows[i].sourceRow < rows[j].sourceRow)
    && (forall i :: 0 <= i < |rows| ==>
          && DataRow(rows[i].sourceRow)
          && FormRow(form, StudentOf(rows[i].sourceRow), MonthOf(rows[i].sourceRow)) == Some(rows[i]))
    && (forall s: nat, m: nat | 1 <= s <= STUDENTS && 1 <= m <= MONTHS ::
          FormRow(form, s, m).Some? ==> FormRow(form, s, m).value in rows)
  }

  lemma FormRowIsAmongLoaded(cells: Cells, titles: Titles, form: Form, s: nat, m: nat)
    requires FilledIn(cells, titles, form) && Answerable(form)
    requires 1 <= s <= STUDENTS && 1 <= m <= MONTHS
    ensures FormRow(form, s, m).Some?
            ==> FormRow(form, s, m).value in LoadedRows(cells, Current, Codes(Current), LAST_ROW + 1)
  {
    if FormRow(form, s, m).Some? {
      FormRowIsLoaded(cells, titles, form, s, m);
      RowsAndStudents(s, m);
      LoadedRowsComplete(cells, Current, Codes(Current), LAST_ROW + 1, RowOf(s, m));
    }
  }

  lemma LoadedRowsAreTheForm(cells: Cells, titles: Titles, form: Form, rows: seq<EvaluationRow>)
    requires FilledIn(cells, titles, form) && Answerable(form)
    requires rows == LoadedRows(cells, Current, Codes(Current), LAST_ROW + 1)
    requires LoadedInOrder(rows, cells, Current, Codes(Current), LAST_ROW + 1)
    ensures ExactlyTheForm(rows, form)
  {
    forall i | 0 <= i < |rows|
      ensures DataRow(rows[i].sourceRow)
      ensures FormRow(form, StudentOf(rows[i].sourceRow), MonthOf(rows[i].sourceRow)) == Some(rows[i])
    {
      var s, m := StudentOf(rows[i].sourceRow), MonthOf(rows[i].sourceRow);
      assert RowOf(s, m) == rows[i].sourceRow;
      FormRowIsLoaded(cells, titles, form, s, m);
    }
    forall s: nat, m: nat | 1 <= s <= STUDENTS && 1 <= m <= MONTHS
      ensures FormRow(form, s, m).Some? ==> FormRow(form, s, m).value in rows
    {
      if FormRow(form, s, m).Some? {
        FormRowIsAmongLoaded(cells, titles, form, s, m);
      }
    }
  }

  /** What is written into the generated sheet loads back unchanged. */
  lemma RoundTrip(cells: Cells, titles: Titles, form: Form)
    requires FilledIn(cells, titles, form) && Answerable(form)
    ensures var loaded := Load(cells, titles);
            loaded.Loaded? && loaded.framework == Current && ExactlyTheForm(loaded.rows, form)
  {
    FilledSheetIsAccepted(cells, titles, form);
    LoadedRowsInOrder(cells, Current, Codes(Current), LAST_ROW + 1);
    LoadedRowsAreTheForm(cells, titles, form, LoadedRows(cells, Current, Codes(Current), LAST_ROW + 1));
  }

  // ---------------------------------------------------------------- from the template to the rows

  /** One open cell that a teacher fills in. */
  datatype Entry =
    | ScoreEntry(student: nat, month: nat, index: nat, value: Cell)
    | NoteEntry(student: nat, month: nat, value: Cell)

  predicate EntryFits(e: Entry) {
    && 1 <= e.student <= STUDENTS && 1 <= e.month <= MONTHS
    && (e.ScoreEntry? ==> e.index < |Codes(Current)|)
  }

  function WithEntry(form: Form, e: Entry): Form
    requires EntryFits(e)
  {
    match e
    case ScoreEntry(student, month, index, value) =>
      form.(scores := form.scores[(student, month, Codes(Current)[index]) := value])
    case NoteEntry(student, month, value) => form.(notes := form.notes[(student, month) := value])
  }

  /** The answers after some entries; a later entry of a cell replaces an earlier one. */
  function FormOf(entries: seq<Entry>): (form: Form)
    requires forall i :: 0 <= i < |entries| ==> EntryFits(entries[i])
    ensures Answerable(form)
  {
    if entries == [] then Form(map[], map[])
    else WithEntry(FormOf(entries[..|entries| - 1]), entries[|entries| - 1])
  }

  lemma OneMoreEntry(entries: seq<Entry>, i: nat)
    requires i < |entries| && forall k :: 0 <= k < |entries| ==> EntryFits(entries[k])
    ensures FormOf(entries[..i + 1]) == WithEntry(FormOf(entries[..i]), entries[i])
  {
    assert entries[..i + 1][..i] == entries[..i];
  }

  method Enter(sheet: Worksheet, titles: Titles, ghost form: Form, e: Entry)
    requires EntryFits(e) && FilledIn(sheet.cells, titles, form)
    modifies sheet`cells
    ensures FilledIn(sheet.cells, titles, WithEntry(form, e))
  {
    match e {
      case ScoreEntry(student, month, index, value) => sheet.EnterScore(titles, form, student, month, index, value);
      case NoteEntry(student, month, value) => sheet.EnterNote(titles, form, student, month, value);
    }
  }

  /** Prints the template, fills in the entries and loads the sheet: the rows are exactly
      those of the answers. */
  method PrintFillAndLoad(titles: Titles, entries: seq<Entry>) returns (loaded: Loaded)
    requires forall i :: 0 <= i < |entries| ==> EntryFits(entries[i])
    ensures loaded.Loaded? && loaded.framework == Current && ExactlyTheForm(loaded.rows, FormOf(entries))
  {
    var sheet := new Worksheet();
    sheet.BuildEvaluationSheet(titles);
    TemplateIsEmptyForm(sheet.cells, titles);
    for i := 0 to |entries|
      invariant FilledIn(sheet.cells, titles, FormOf(entries[..i]))
    {
      OneMoreEntry(entries, i);
      Enter(sheet, titles, FormOf(entries[..i]), entries[i]);
    }
    assert entries[..|entries|] == entries;
    RoundTrip(sheet.cells, titles, FormOf(entries));
    loaded := LoadEvaluationSheet(sheet.cells, titles);
  }
}
