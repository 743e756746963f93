/** How single cells are read, said of the cells: trimming and digits, counts, months,
    identity and student numbers, written dates, and the words for a grade. */
module ValueLaws {
  import opened ClassValidation
  import opened Options
  import opened PreparedWorkbook
  import opened ValidationIssues
  import Calendar
  import Text
  import Values = WorkbookValues
  import WorkbookSheet

  // ---------------------------------------------------------------- text

  predicate OnlySpaces(s: string) {
    forall i :: 0 <= i < |s| ==> Text.IsSpace(s[i])
  }

  lemma {:induction false} StripLeftDropsSpaces(s: string) returns (left: string)
    ensures s == left + Text.StripLeft(s) && OnlySpaces(left)
  {
    if s != [] && Text.IsSpace(s[0]) {
      var more := StripLeftDropsSpaces(s[1..]);
      left := [s[0]] + more;
    } else {
      left := [];
    }
  }

  lemma {:induction false} StripRightDropsSpaces(s: string) returns (right: string)
    ensures s == Text.StripRight(s) + right && OnlySpaces(right)
  {
    if s != [] && Text.IsSpace(s[|s| - 1]) {
      var more := StripRightDropsSpaces(s[..|s| - 1]);
      right := more + [s[|s| - 1]];
      assert s == s[..|s| - 1] + [s[|s| - 1]];
      assert s[..|s| - 1] + [s[|s| - 1]] == Text.StripRight(s) + right;
    } else {
      right := [];
    }
  }

  /** Trimming drops spaces at both ends and nothing else, and leaves none there. */
  lemma StripDropsOuterSpaces(s: string) returns (left: string, right: string)
    ensures s == left + Text.Strip(s) + right && OnlySpaces(left) && OnlySpaces(right)
    ensures Text.Strip(s) != "" ==> !Text.IsSpace(Text.Strip(s)[0]) && !Text.IsSpace(Text.Strip(s)[|Text.Strip(s)| - 1])
  {
    left := StripLeftDropsSpaces(s);
    right := StripRightDropsSpaces(Text.StripLeft(s));
  }

  /** Persian and Arabic-Indic digits are read as the digits they are, every other character
      as itself. */
  lemma DigitsAreTranslated(c: char, d: nat)
    requires d < 10
    ensures c as int == 0x06F0 + d || c as int == 0x0660 + d ==> Text.AsciiDigit(c) == "0123456789"[d]
    ensures !(0x06F0 <= c as int <= 0x06F9) && !(0x0660 <= c as int <= 0x0669) ==> Text.AsciiDigit(c) == c
  {
    assert "0123456789"[d] == (48 + d) as char;
  }

  /** The small letters become the capital ones, every other character stays. */
  lemma CapitalsExactly(c: char, i: nat)
    requires i < 26
    ensures c == "abcdefghijklmnopqrstuvwxyz"[i] ==> Text.UpperChar(c) == "ABCDEFGHIJKLMNOPQRSTUVWXYZ"[i]
    ensures !('a' <= c <= 'z') ==> Text.UpperChar(c) == c
  {
    assert "abcdefghijklmnopqrstuvwxyz"[i] == (97 + i) as char;
    assert "ABCDEFGHIJKLMNOPQRSTUVWXYZ"[i] == (65 + i) as char;
  }

  /** In a label spaces and joiners do not count, nor does the form of the letters ye and kaf. */
  lemma {:induction false} LabelsIgnoreSpacing(a: string, c: char, b: string)
    ensures Text.IsSpace(c) || c == '\U{200C}' ==> Text.Squeeze(a + [c] + b) == Text.Squeeze(a + b)
    ensures !Text.IsSpace(c) && c != '\U{200C}' ==>
              var letter := if c == '\U{064A}' then '\U{06CC}' else if c == '\U{0643}' then '\U{06A9}' else c;
              Text.Squeeze(a + [c] + b) == Text.Squeeze(a) + [letter] + Text.Squeeze(b)
  {
    Text.SqueezeConcat(a + [c], b);
    Text.SqueezeConcat(a, [c]);
    Text.SqueezeConcat(a, b);
    assert [c][1..] == [];
    assert Text.Squeeze([c]) == if Text.Invisible(c) then [] else [Text.PersianLetter(c)];
  }

  lemma {:induction false} TatweelIsDropped(a: string, c: char, b: string)
    ensures Values.WithoutTatweel(a + [c] + b)
         == if c == '\U{0640}' then Values.WithoutTatweel(a + b)
            else Values.WithoutTatweel(a) + [c] + Values.WithoutTatweel(b)
  {
    if a == [] {
      assert ([] + [c] + b)[1..] == b && [] + b == b;
    } else {
      assert (a + [c] + b)[1..] == a[1..] + [c] + b && (a + b)[1..] == a[1..] + b;
      TatweelIsDropped(a[1..], c, b);
    }
  }

  // ---------------------------------------------------------------- numbers

  /** A count is a whole number from 1 to the maximum. */
  lemma PositiveIntExactly(lib: Values.Library, text: string, maximum: nat, n: nat)
    ensures Values.PositiveInt(lib, text, maximum) == Some(n)
       <==> lib.decimal(text) == Values.Finite(n as real) && 1 <= n <= maximum
  {
    var d := lib.decimal(text);
    if d == Values.Finite(n as real) {
      assert d.value.Floor == n;
    }
    if Values.PositiveInt(lib, text, maximum) == Some(n) {
      assert d.value == d.value.Floor as real;
    }
  }

  /** The months of the school year, from summer on. */
  const MONTHS: seq<string> :=
    ["تیر", "مرداد", "شهریور", "مهر", "آبان", "آذر", "دی", "بهمن", "اسفند", "فروردین", "اردیبهشت", "خرداد"]

  /** A month is written by its name or as a number from 1 to 12. */
  lemma MonthExactly(lib: Values.Library, text: string, month: nat)
    ensures Values.MonthNo(lib, text) == Some(month)
       <==> 1 <= month <= 12 && (text == MONTHS[month - 1] || (text !in MONTHS && lib.decimal(text) == Values.Finite(month as real)))
  {
    PositiveIntExactly(lib, text, 12, month);
    MonthIsNamed(text, if 1 <= month <= 12 then month else 1);
  }

  lemma MonthIsNamed(text: string, month: nat)
    requires 1 <= month <= 12
    ensures WorkbookSheet.MonthNumber(text) == Some(month) <==> text == MONTHS[month - 1]
    ensures WorkbookSheet.MonthNumber(text).Some? <==> text in MONTHS
  {
    var m := WorkbookSheet.MonthNumber(text);
    if m.Some? {
      assert text == MONTHS[m.value - 1];
    }
  }

  /** Reading a count, a score or a month raises exactly for an infinite number; a month that
      is named is not read as a number. */
  lemma RaisingExactly(lib: Values.Library, text: string)
    ensures Values.NumberRaises(lib, text) <==> lib.decimal(text) == Values.Infinite
    ensures Values.MonthRaises(lib, text) <==> text !in MONTHS && lib.decimal(text) == Values.Infinite
  {
    MonthIsNamed(text, 1);
  }

  // ---------------------------------------------------------------- identity numbers

  lemma {:induction false} DigitsOfParts(lib: Values.Library, a: string, b: string)
    ensures Values.DigitsOf(lib, a + b) == Values.DigitsOf(lib, a) + Values.DigitsOf(lib, b)
  {
    if a == [] {
      assert a + b == b;
    } else {
      assert (a + b)[1..] == a[1..] + b;
      DigitsOfParts(lib, a[1..], b);
    }
  }

  /** Whatever is not a digit may stand anywhere in a national id. */
  lemma SeparatorsAreDropped(lib: Values.Library, a: string, c: char, b: string)
    requires !lib.isDigit(c)
    ensures Values.NationalId(lib, a + [c] + b) == Values.NationalId(lib, a + b)
  {
    DigitsOfParts(lib, a + [c], b);
    DigitsOfParts(lib, a, [c]);
    DigitsOfParts(lib, a, b);
    assert [c][1..] == [];
    assert Values.DigitsOf(lib, [c]) == [];
    assert Values.DigitsOf(lib, a + [c] + b) == Values.DigitsOf(lib, a + b);
  }

  lemma {:induction false} OnlyDigitsRemain(lib: Values.Library, s: string)
    requires forall i :: 0 <= i < |s| ==> !lib.isDigit(s[i])
    ensures Values.DigitsOf(lib, s) == ""
  {
    if s != [] {
      OnlyDigitsRemain(lib, s[1..]);
    }
  }

  /** Without a digit, or with more than ten, it is refused. */
  lemma NationalIdIsRefused(lib: Values.Library, s: string)
    ensures (forall i :: 0 <= i < |s| ==> !lib.isDigit(s[i])) ==> Values.NationalId(lib, s).None?
    ensures Values.AllDigits(lib, s) && |s| > 10 ==> Values.NationalId(lib, s).None?
  {
    Values.DigitsOfAre(lib, s);
    if forall i :: 0 <= i < |s| ==> !lib.isDigit(s[i]) {
      OnlyDigitsRemain(lib, s);
    }
  }

  /** A student number is the written one, or else the national id, or else the local code,
      cut to fifty characters; when it is used already, the local code follows it after a dash,
      within fifty as well.  A local code of fifty or more shortens it from the end instead. */
  lemma StudentNumberExactly(raw: string, nationalId: string, localCode: string, used: set<string>)
    ensures var written := if raw != "" then raw else if nationalId != "" then nationalId else localCode;
            var kept := if |written| <= 50 then written else written[..50];
            var room := 49 - |localCode|;
            var shortened := if room >= |kept| then kept
                             else if room >= 0 then kept[..room]
                             else if |kept| + room > 0 then kept[..|kept| + room] else "";
            Values.StudentNumber(raw, nationalId, localCode, used)
            == if kept in used then shortened + "-" + localCode else kept
  {
    var kept := Values.BaseNumber(raw, nationalId, localCode);
    var room := 49 - |localCode|;
    assert 50 - |"-" + localCode| == room;
    assert Values.SuffixedNumber(kept, localCode) == Values.TakeUpTo(kept, room) + ("-" + localCode);
    assert Values.TakeUpTo(kept, room) + "-" + localCode == Values.TakeUpTo(kept, room) + ("-" + localCode);
  }

  // ---------------------------------------------------------------- dates

  /** A written date is stored exactly when it is a date of its calendar: of the Jalali one
      for the years 1200 to 1600, of the Gregorian one for the other years up to 9999; a
      Gregorian date is stored as it is. */
  lemma WrittenDateExactly(lib: Values.Library, year: nat, month: nat, day: nat, separator: char)
    requires Values.ReadsAscii(lib) && Values.IsSeparator(separator)
    ensures var r := Values.BirthDate(lib, Values.Value(WorkbookSheet.Words(Values.PrintedDate(year, month, day, separator))));
            var d := Calendar.CivilDate(year, month, day);
            && (1200 <= year <= 1600 ==> (r.Some? <==> Calendar.ValidJalali(d)))
            && (!(1200 <= year <= 1600) ==> r == if Calendar.ValidGregorian(d) && 1 <= year <= 9999 then Some(d) else None)
  {
    Values.PrintedDateIsRead(lib, year, month, day, separator);
  }

  /** A cell that holds a date keeps it, and separators may be repeated. */
  lemma DateCellsAreKept(lib: Values.Library, d: Calendar.CivilDate, s: string, separator: char)
    requires Values.IsSeparator(separator)
    ensures Values.BirthDate(lib, Values.NativeDate(d)) == Some(d)
    ensures Values.Parts([separator] + s) == Values.Parts(s)
    ensures separator == '-' || separator == '/' || separator == '.'
  {
    assert ([separator] + s)[1..] == s;
    assert Values.FirstSeparator([separator] + s) == 0;
  }

  // ---------------------------------------------------------------- grades

  const ORDINALS: seq<string> :=
    ["اول", "دوم", "سوم", "چهارم", "پنجم", "ششم", "هفتم", "هشتم", "نهم", "دهم", "یازدهم", "دوازدهم"]

  /** The words by which a grade may be written. */
  predicate Names(word: string, g: Grade) {
    || word == g.code || word == g.title
    || (g.order >= 0 && (word == Text.Decimal(g.order) || word == "پایه " + Text.Decimal(g.order) || word == "پایه" + Text.Decimal(g.order)))
    || (1 <= g.order <= 12
        && (word == ORDINALS[g.order - 1] || word == "پایه " + ORDINALS[g.order - 1] || word == "پایه" + ORDINALS[g.order - 1]))
  }

  lemma OrdinalIsListed(order: int)
    ensures Ordinal(order) == if 1 <= order <= 12 then ORDINALS[order - 1] else ""
  {
  }

  lemma NamesAreAliases(lib: Values.Library, word: string, g: Grade)
    requires Names(word, g)
    ensures Values.FlexLabel(lib, word) in Aliases(lib, g)
  {
    OrdinalIsListed(g.order);
  }

  ghost predicate IsNameOf(lib: Values.Library, key: string, g: Grade, word: string) {
    Names(word, g) && Values.FlexLabel(lib, word) == key
  }

  lemma AliasesAreNames(lib: Values.Library, key: string, g: Grade) returns (word: string)
    requires g.order >= 0 && key in Aliases(lib, g)
    ensures IsNameOf(lib, key, g, word)
  {
    OrdinalIsListed(g.order);
    var order, ordinal := Text.Decimal(g.order), Ordinal(g.order);
    assert TextOf(WorkbookSheet.Whole(g.order)) == order;
    if key == Values.FlexLabel(lib, g.code) {
      word := g.code;
    } else if key == Values.FlexLabel(lib, g.title) {
      word := g.title;
    } else if key == Values.FlexLabel(lib, order) {
      word := order;
    } else if key == Values.FlexLabel(lib, "پایه " + order) {
      word := "پایه " + order;
    } else if key == Values.FlexLabel(lib, "پایه" + order) {
      word := "پایه" + order;
    } else if key == Values.FlexLabel(lib, ordinal) {
      word := ordinal;
    } else if key == Values.FlexLabel(lib, "پایه " + ordinal) {
      word := "پایه " + ordinal;
    } else {
      word := "پایه" + ordinal;
    }
  }

  ghost predicate IsCalled(lib: Values.Library, key: string, g: Grade) {
    exists word :: IsNameOf(lib, key, g, word)
  }

  lemma CalledByAliases(lib: Values.Library, key: string, g: Grade)
    requires g.order >= 0
    ensures key in Aliases(lib, g) <==> IsCalled(lib, key, g)
  {
    if key in Aliases(lib, g) {
      var word := AliasesAreNames(lib, key, g);
    }
    if word :| IsNameOf(lib, key, g, word) {
      NamesAreAliases(lib, word, g);
    }
  }

  lemma {:induction false} FirstWithAlias(lib: Values.Library, grades: seq<Grade>, key: string) returns (i: nat)
    ensures i <= |grades| && forall j :: 0 <= j < i ==> key !in Aliases(lib, grades[j])
    ensures i < |grades| ==> key in Aliases(lib, grades[i])
    ensures FirstGrade(lib, grades, key) == if i < |grades| then Some(grades[i]) else None
  {
    if grades == [] || key in Aliases(lib, grades[0]) {
      i := 0;
    } else {
      var k := FirstWithAlias(lib, grades[1..], key);
      i := k + 1;
    }
  }

  lemma FirstCalled(lib: Values.Library, grades: seq<Grade>, key: string) returns (i: nat)
    requires forall g :: g in grades ==> g.order >= 0
    ensures i <= |grades| && forall j :: 0 <= j < i ==> !IsCalled(lib, key, grades[j])
    ensures i < |grades| ==> IsCalled(lib, key, grades[i])
    ensures FirstGrade(lib, grades, key) == if i < |grades| then Some(grades[i]) else None
  {
    i := FirstWithAlias(lib, grades, key);
    forall j | 0 <= j < |grades| ensures key in Aliases(lib, grades[j]) <==> IsCalled(lib, key, grades[j]) {
      CalledByAliases(lib, key, grades[j]);
    }
  }

  /** The grade of a class is the first that the cell names, up to the form of the label, and
      there is none when the cell has no label. */
  lemma GradeIsFoundByName(ctx: Context, cell: Cell) returns (i: nat)
    requires forall g :: g in ctx.grades ==> g.order >= 0
    ensures i <= |ctx.grades|
    ensures var key := Values.FlexLabel(ctx.lib, TextOf(cell));
            && (forall j :: 0 <= j < i ==> !IsCalled(ctx.lib, key, ctx.grades[j]))
            && (i < |ctx.grades| ==> IsCalled(ctx.lib, key, ctx.grades[i]))
            && ResolveGrade(ctx, cell) == if key != "" && i < |ctx.grades| then Some(ctx.grades[i]) else None
  {
    i := FirstCalled(ctx.lib, ctx.grades, Values.FlexLabel(ctx.lib, TextOf(cell)));
  }
}
