/** Normalisation of single cells of the school workbook: dates, identity numbers, counts,
    scores and labels. */
module WorkbookValues {
  import opened Options
  import Text
  import Calendar
  import opened WorkbookSheet

  /** A text read as a decimal number. */
  datatype Number = Unreadable | Infinite | Finite(value: real)

  /** What the language library decides: reading a decimal number, which characters are
      digits, the value of a string of digits, and lower case. */
  datatype Library = Library(
    decimal: string -> Number,
    isDigit: char -> bool,
    integer: string -> Option<nat>,
    lower: string -> string)

  /** Agreement with ASCII notation, needed only to read back printed numbers. */
  ghost predicate ReadsAscii(lib: Library) {
    && (forall c: char :: Text.IsAsciiDigit(c) ==> lib.isDigit(c))
    && (forall s: string :: s != "" && Text.AllAsciiDigits(s) ==> lib.integer(s) == Some(Text.Number(s)))
  }

  predicate AllDigits(lib: Library, s: string) {
    s != "" && forall i :: 0 <= i < |s| ==> lib.isDigit(s[i])
  }

  function WithoutTatweel(s: string): string {
    if s == [] then [] else (if s[0] == '\U{0640}' then [] else [s[0]]) + WithoutTatweel(s[1..])
  }

  /** The form in which names and titles are compared. */
  function FlexLabel(lib: Library, s: string): string {
    lib.lower(WithoutTatweel(Text.Label(s)))
  }

  // ---------------------------------------------------------------- counts and scores

  predicate IsWhole(r: real) { r.Floor as real == r }

  function PositiveInt(lib: Library, text: string, maximum: nat): (n: Option<nat>)
    ensures n.Some? ==> 1 <= n.value <= maximum
  {
    var d := lib.decimal(text);
    if d.Finite? && IsWhole(d.value) && 1 <= d.value.Floor <= maximum then Some(d.value.Floor) else None
  }

  /** Converting the number to an integer raises an exception that no reader catches. */
  predicate NumberRaises(lib: Library, text: string) {
    lib.decimal(text).Infinite?
  }

  /** A score of 0 to 5; 8, 12, 16 and 20 are scores on the scale of 20. */
  function MetricScore(lib: Library, text: string): (score: Option<nat>)
    ensures score.Some? ==> score.value <= 5
  {
    var d := lib.decimal(text);
    if !d.Finite? || !IsWhole(d.value) then None
    else if 0 <= d.value.Floor <= 5 then Some(d.value.Floor)
    else if 5 < d.value.Floor <= 20 && d.value.Floor % 4 == 0 then Some(d.value.Floor / 4)
    else None
  }

  /** A text is a score exactly when it is a number from 0 to 5, or four times a score from
      2 to 5 on the scale of 20. */
  lemma MetricScoreExactly(lib: Library, text: string, score: nat)
    ensures MetricScore(lib, text) == Some(score)
       <==> score <= 5 && lib.decimal(text).Finite?
            && (lib.decimal(text).value == score as real || (score >= 2 && lib.decimal(text).value == (4 * score) as real))
  {
    var d := lib.decimal(text);
    if d.Finite? {
      if score <= 5 && (d.value == score as real || (score >= 2 && d.value == (4 * score) as real)) {
        assert d.value.Floor == score || d.value.Floor == 4 * score;
      }
      if MetricScore(lib, text) == Some(score) {
        assert d.value == d.value.Floor as real;
      }
    }
  }

  function MonthNo(lib: Library, text: string): (month: Option<nat>)
    ensures month.Some? ==> 1 <= month.value <= 12
  {
    if MonthNumber(text).Some? then MonthNumber(text) else PositiveInt(lib, text, 12)
  }

  predicate MonthRaises(lib: Library, text: string) {
    MonthNumber(text).None? && NumberRaises(lib, text)
  }

  /** A cell that raises is not a value. */
  lemma RaisingCellsHaveNoValue(lib: Library, text: string, maximum: nat)
    ensures NumberRaises(lib, text) ==> PositiveInt(lib, text, maximum) == None && MetricScore(lib, text) == None
    ensures MonthRaises(lib, text) ==> MonthNo(lib, text) == None
  {
  }

  // ---------------------------------------------------------------- national ids

  function DigitsOf(lib: Library, s: string): string {
    if s == [] then [] else (if lib.isDigit(s[0]) then [s[0]] else []) + DigitsOf(lib, s[1..])
  }

  function Zeros(n: nat): string {
    if n == 0 then "" else Zeros(n - 1) + "0"
  }

  /** Drops separators and restores lost leading zeros. */
  function NationalId(lib: Library, text: string): Option<string> {
    var digits := DigitsOf(lib, text);
    if digits == "" || |digits| > 10 then None else Some(Zeros(10 - |digits|) + digits)
  }

  lemma NationalIdHasTenDigits(lib: Library, text: string)
    requires NationalId(lib, text).Some?
    ensures |NationalId(lib, text).value| == 10
  {
    ZerosAre(10 - |DigitsOf(lib, text)|);
  }

  lemma {:induction false} ZerosAre(n: nat)
    ensures |Zeros(n)| == n && forall i :: 0 <= i < n ==> Zeros(n)[i] == '0'
  {
    if n > 0 {
      ZerosAre(n - 1);
    }
  }

  lemma {:induction false} DigitsOfAre(lib: Library, s: string)
    ensures forall i :: 0 <= i < |DigitsOf(lib, s)| ==> lib.isDigit(DigitsOf(lib, s)[i])
    ensures AllDigits(lib, s) ==> DigitsOf(lib, s) == s
  {
    if s != [] {
      DigitsOfAre(lib, s[1..]);
      if AllDigits(lib, s) && |s| > 1 {
        assert AllDigits(lib, s[1..]);
      }
    }
  }

  /** An accepted national id has ten characters, all digits, and is kept when it is
      normalised again. */
  lemma NationalIdIsCanonical(lib: Library, text: string)
    requires NationalId(lib, text).Some? && lib.isDigit('0')
    ensures var id := NationalId(lib, text).value;
            |id| == 10 && AllDigits(lib, id) && NationalId(lib, id) == Some(id)
  {
    var id, digits := NationalId(lib, text).value, DigitsOf(lib, text);
    ZerosAre(10 - |digits|);
    DigitsOfAre(lib, text);
    assert AllDigits(lib, id);
    DigitsOfAre(lib, id);
    assert Zeros(0) + id == id;
  }

  /** A number that lost its leading zeros in the sheet gets them back. */
  lemma {:induction false} LostZerosReturn(lib: Library, zeros: nat, rest: string)
    requires lib.isDigit('0') && AllDigits(lib, rest) && zeros + |rest| == 10
    ensures NationalId(lib, rest) == Some(Zeros(zeros) + rest)
    ensures NationalId(lib, Zeros(zeros) + rest) == Some(Zeros(zeros) + rest)
  {
    DigitsOfAre(lib, rest);
    NationalIdIsCanonical(lib, rest);
  }

  // ---------------------------------------------------------------- student numbers

  /** `s[:n]`, where a negative bound counts from the end. */
  function TakeUpTo(s: string, n: int): (r: string)
    ensures n >= 0 ==> |r| <= n
  {
    if n >= 0 then (if n < |s| then s[..n] else s) else if |s| + n > 0 then s[..|s| + n] else ""
  }

  /** The number as written, or the national id, cut to 50 characters. */
  function BaseNumber(raw: string, nationalId: string, localCode: string): string {
    var candidate := if raw != "" then raw else if nationalId != "" then nationalId else localCode;
    if |candidate| > 50 then candidate[..50] else candidate
  }

  function SuffixedNumber(candidate: string, localCode: string): string {
    var suffix := "-" + localCode;
    TakeUpTo(candidate, 50 - |suffix|) + suffix
  }

  function StudentNumber(raw: string, nationalId: string, localCode: string, used: set<string>): string {
    var candidate := BaseNumber(raw, nationalId, localCode);
    if candidate in used then SuffixedNumber(candidate, localCode) else candidate
  }

  // ---------------------------------------------------------------- birth dates

  datatype BirthCell = NativeDate(date: Calendar.CivilDate) | Value(cell: Cell)

  predicate IsSeparator(c: char) { c == '-' || c == '/' || c == '.' }

  /** The non-empty parts between separators. */
  function Parts(s: string): seq<string> {
    var n := FirstSeparator(s);
    if n == |s| then (if s == "" then [] else [s])
    else (if n == 0 then [] else [s[..n]]) + Parts(s[n + 1..])
  }

  function FirstSeparator(s: string): (n: nat)
    ensures n <= |s| && (n < |s| ==> IsSeparator(s[n]))
    ensures forall i :: 0 <= i < n ==> !IsSeparator(s[i])
  {
    if s == "" || IsSeparator(s[0]) then 0 else 1 + FirstSeparator(s[1..])
  }

  /** The largest number that the constructor of dates takes; beyond it raises an exception
      that is not caught. */
  const MAX_DATE_NUMBER := 2147483647

  /** The numbers of a date outside the Jalali range make the constructor raise. */
  predicate NumbersRaise(year: nat, month: nat, day: nat) {
    && !(1200 <= year <= 1600)
    && (year > MAX_DATE_NUMBER || month > MAX_DATE_NUMBER || day > MAX_DATE_NUMBER)
  }

  predicate DateRaises(lib: Library, value: BirthCell) {
    && value.Value?
    && var parts := Parts(CellText(value.cell));
       PartsRaise(lib, parts)
  }

  predicate PartsRaise(lib: Library, parts: seq<string>) {
    && |parts| == 3 && (forall i :: 0 <= i < 3 ==> AllDigits(lib, parts[i]))
    && var year, month, day := lib.integer(parts[0]), lib.integer(parts[1]), lib.integer(parts[2]);
       year.Some? && month.Some? && day.Some? && NumbersRaise(year.value, month.value, day.value)
  }

  lemma RaisingDatesHaveNoValue(lib: Library, value: BirthCell)
    ensures DateRaises(lib, value) ==> BirthDate(lib, value) == None
  {
  }

  /** The range of Python's dates. */
  predicate Representable(d: Calendar.CivilDate) {
    Calendar.ValidGregorian(d) && 1 <= d.year <= 9999
  }

  function DateOfNumbers(year: nat, month: nat, day: nat): Option<Calendar.CivilDate> {
    if 1200 <= year <= 1600 then
      if 1 <= month <= 12 && 1 <= day <= Calendar.JalaliMonthLength(year, month)
      then Some(Calendar.ToGregorian(Calendar.CivilDate(year, month, day))) else None
    else if Representable(Calendar.CivilDate(year, month, day)) then Some(Calendar.CivilDate(year, month, day))
    else None
  }

  function BirthDate(lib: Library, value: BirthCell): Option<Calendar.CivilDate> {
    match value
    case NativeDate(date) => Some(date)
    case Value(cell) => DateOfParts(lib, Parts(CellText(cell)))
  }

  function DateOfParts(lib: Library, parts: seq<string>): Option<Calendar.CivilDate> {
    if |parts| != 3 || !(forall i :: 0 <= i < 3 ==> AllDigits(lib, parts[i])) then None
    else
      var year, month, day := lib.integer(parts[0]), lib.integer(parts[1]), lib.integer(parts[2]);
      if year.None? || month.None? || day.None? then None
      else DateOfNumbers(year.value, month.value, day.value)
  }

  /** The first of three parts is a year of the Jalali range. */
  predicate WrittenInJalali(lib: Library, value: BirthCell) {
    && value.Value?
    && var parts := Parts(CellText(value.cell));
       |parts| == 3 && lib.integer(parts[0]).Some? && 1200 <= lib.integer(parts[0]).value <= 1600
  }

  /** The date, whether it was converted from the Jalali calendar, and whether an exception
      left the reader instead. */
  method NormalizeBirthDate(lib: Library, value: BirthCell)
    returns (result: Option<Calendar.CivilDate>, converted: bool, raised: bool)
    ensures raised <==> DateRaises(lib, value)
    ensures result == BirthDate(lib, value)
    ensures converted <==> result.Some? && WrittenInJalali(lib, value)
  {
    if value.NativeDate? {
      return Some(value.date), false, false;
    }
    var parts := Parts(CellText(value.cell));
    if |parts| != 3 || !(forall i :: 0 <= i < 3 ==> AllDigits(lib, parts[i])) {
      return None, false, false;
    }
    var year, month, day := lib.integer(parts[0]), lib.integer(parts[1]), lib.integer(parts[2]);
    if year.None? || month.None? || day.None? {
      return None, false, false;
    }
    if 1200 <= year.value <= 1600 {
      if !(1 <= month.value <= 12) {
        return None, false, false;
      }
      var length := Calendar.MeasureJalaliMonthLength(year.value, month.value);
      if !(1 <= day.value <= length) {
        return None, false, false;
      }
      var gregorian := Calendar.JalaliToGregorian(year.value, month.value, day.value);
      return Some(gregorian), true, false;
    }
    if year.value > MAX_DATE_NUMBER || month.value > MAX_DATE_NUMBER || day.value > MAX_DATE_NUMBER {
      return None, false, true;
    }
    var date := Calendar.CivilDate(year.value, month.value, day.value);
    return if Representable(date) then Some(date) else None, false, false;
  }

  lemma PartsOfThree(s: string, a: string, b: string, c: string, separator: char)
    requires a != "" && b != "" && c != "" && IsSeparator(separator)
    requires Text.AllAsciiDigits(a) && Text.AllAsciiDigits(b) && Text.AllAsciiDigits(c)
    requires s == a + [separator] + (b + [separator] + c)
    ensures Parts(s) == [a, b, c]
  {
    PartsOfTwo(b, c, separator);
    FirstPart(a, separator, b + [separator] + c);
  }

  lemma PartsOfTwo(b: string, c: string, separator: char)
    requires b != "" && c != "" && IsSeparator(separator)
    requires Text.AllAsciiDigits(b) && Text.AllAsciiDigits(c)
    ensures Parts(b + [separator] + c) == [b, c]
  {
    PartsOfOne(c);
    FirstPart(b, separator, c);
  }

  lemma {:induction false} FirstPart(a: string, separator: char, rest: string)
    requires a != "" && Text.AllAsciiDigits(a) && IsSeparator(separator)
    ensures Parts(a + [separator] + rest) == [a] + Parts(rest)
  {
    var s := a + [separator] + rest;
    assert forall i :: 0 <= i < |a| ==> s[i] == a[i] && !IsSeparator(s[i]);
    assert s[|a|] == separator;
    assert FirstSeparator(s) == |a|;
    assert s[..|a|] == a && s[|a| + 1..] == rest;
  }

  lemma PartsOfOne(c: string)
    requires c != "" && Text.AllAsciiDigits(c)
    ensures Parts(c) == [c]
  {
    assert forall i :: 0 <= i < |c| ==> !IsSeparator(c[i]);
  }

  /** A date printed as year, month and day, with any of the three separators. */
  function PrintedDate(year: nat, month: nat, day: nat, separator: char): string {
    Text.Decimal(year) + [separator] + Text.Decimal(month) + [separator] + Text.Decimal(day)
  }

  lemma PrintedDateIsClean(year: nat, month: nat, day: nat, separator: char)
    requires IsSeparator(separator)
    ensures Text.Clean(PrintedDate(year, month, day, separator)) == PrintedDate(year, month, day, separator)
  {
    var s := PrintedDate(year, month, day, separator);
    assert forall i :: 0 <= i < |s| ==> Text.IsAsciiDigit(s[i]) || IsSeparator(s[i]);
    Text.CleanIsStable(s);
  }

  lemma DecimalIsRead(lib: Library, n: nat)
    requires ReadsAscii(lib)
    ensures AllDigits(lib, Text.Decimal(n)) && lib.integer(Text.Decimal(n)) == Some(n)
  {
    Text.NumberOfDecimal(n);
  }

  lemma PrintedDateInParts(year: nat, month: nat, day: nat, separator: char)
    ensures PrintedDate(year, month, day, separator)
         == Text.Decimal(year) + [separator] + (Text.Decimal(month) + [separator] + Text.Decimal(day))
  {
  }

  predicate PartsRead(lib: Library, parts: seq<string>, year: nat, month: nat, day: nat) {
    && |parts| == 3 && AllDigits(lib, parts[0]) && AllDigits(lib, parts[1]) && AllDigits(lib, parts[2])
    && lib.integer(parts[0]) == Some(year) && lib.integer(parts[1]) == Some(month) && lib.integer(parts[2]) == Some(day)
  }

  lemma PrintedDateParts(lib: Library, year: nat, month: nat, day: nat, separator: char)
    requires ReadsAscii(lib) && IsSeparator(separator)
    ensures PartsRead(lib, Parts(CellText(Words(PrintedDate(year, month, day, separator)))), year, month, day)
  {
    PrintedDateIsClean(year, month, day, separator);
    PrintedDateInParts(year, month, day, separator);
    PartsOfThree(PrintedDate(year, month, day, separator), Text.Decimal(year), Text.Decimal(month), Text.Decimal(day), separator);
    DecimalIsRead(lib, year);
    DecimalIsRead(lib, month);
    DecimalIsRead(lib, day);
    assert Parts(PrintedDate(year, month, day, separator)) == [Text.Decimal(year), Text.Decimal(month), Text.Decimal(day)];
  }

  lemma PartsAreRead(lib: Library, parts: seq<string>, year: nat, month: nat, day: nat)
    requires PartsRead(lib, parts, year, month, day)
    ensures DateOfParts(lib, parts) == DateOfNumbers(year, month, day)
    ensures PartsRaise(lib, parts) <==> NumbersRaise(year, month, day)
  {
    assert forall i :: 0 <= i < 3 ==> AllDigits(lib, parts[i]);
  }

  lemma PrintedDateIsRead(lib: Library, year: nat, month: nat, day: nat, separator: char)
    requires ReadsAscii(lib) && IsSeparator(separator)
    ensures BirthDate(lib, Value(Words(PrintedDate(year, month, day, separator)))) == DateOfNumbers(year, month, day)
  {
    PrintedDateParts(lib, year, month, day, separator);
    PartsAreRead(lib, Parts(CellText(Words(PrintedDate(year, month, day, separator)))), year, month, day);
  }

  /** Written in Jalali, a birth date of the accepted years is stored as its Gregorian
      date, on which the same number of days has passed. */
  lemma JalaliBirthDateIsConverted(lib: Library, j: Calendar.CivilDate, separator: char)
    requires ReadsAscii(lib) && IsSeparator(separator)
    requires Calendar.ValidJalali(j) && 1200 <= j.year <= 1600
    ensures var r := BirthDate(lib, Value(Words(PrintedDate(j.year, j.month, j.day, separator))));
            && r.Some? && Calendar.ValidGregorian(r.value)
            && Calendar.GregorianDayNumber(r.value) == Calendar.JalaliDayNumber(j)
  {
    PrintedDateIsRead(lib, j.year, j.month, j.day, separator);
  }

  /** Two Jalali birth dates are stored as the same date only when they are the same. */
  lemma BirthDatesAreNotConfused(a: Calendar.CivilDate, b: Calendar.CivilDate)
    requires Calendar.ValidJalali(a) && Calendar.ValidJalali(b) && 1200 <= a.year <= 1600 && 1200 <= b.year <= 1600
    ensures DateOfNumbers(a.year, a.month, a.day) == DateOfNumbers(b.year, b.month, b.day) <==> a == b
  {
    if Calendar.Before(a, b) {
      Calendar.ConversionKeepsOrder(a, b);
    } else if Calendar.Before(b, a) {
      Calendar.ConversionKeepsOrder(b, a);
    }
  }

  /** A printed date raises exactly when its year is outside the Jalali range and one of its
      numbers is too large for the constructor. */
  lemma PrintedDateRaises(lib: Library, year: nat, month: nat, day: nat, separator: char)
    requires ReadsAscii(lib) && IsSeparator(separator)
    ensures DateRaises(lib, Value(Words(PrintedDate(year, month, day, separator)))) <==> NumbersRaise(year, month, day)
  {
    PrintedDateParts(lib, year, month, day, separator);
    PartsAreRead(lib, Parts(CellText(Words(PrintedDate(year, month, day, separator)))), year, month, day);
  }
}
