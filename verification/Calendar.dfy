/** The Jalali calendar of the workbook importer: birth dates written in the Iranian
    calendar are converted to Gregorian dates by a cascade of divisions.  The reference
    is day counting: year by year, month by month, with no division at all. */
module Calendar {
  import opened Counting

  /** A year-month-day triple, without the year bound of Python's `date`. */
  datatype CivilDate = CivilDate(year: int, month: int, day: int)

  /** Chronological order of two triples of the same calendar. */
  predicate Before(a: CivilDate, b: CivilDate) {
    a.year < b.year
    || (a.year == b.year && a.month < b.month)
    || (a.year == b.year && a.month == b.month && a.day < b.day)
  }

  // ---------------------------------------------------------------- Gregorian reference

  predicate GregorianLeap(year: int) {
    year % 4 == 0 && (year % 100 != 0 || year % 400 == 0)
  }

  function GregorianMonthLength(leap: bool, month: int): (days: int)
    requires 1 <= month <= 12
    ensures 28 <= days <= 31
  {
    if month == 2 then (if leap then 29 else 28)
    else if month == 4 || month == 6 || month == 9 || month == 11 then 30
    else 31
  }

  function GregorianYearLength(year: int): int {
    if GregorianLeap(year) then 366 else 365
  }

  predicate ValidGregorian(d: CivilDate) {
    0 <= d.year && 1 <= d.month <= 12
    && 1 <= d.day <= GregorianMonthLength(GregorianLeap(d.year), d.month)
  }

  /** Days in the years 0, 1, ..., year - 1. */
  function DaysBeforeYear(year: nat): nat {
    if year == 0 then 0 else DaysBeforeYear(year - 1) + GregorianYearLength(year - 1)
  }

  /** Days in the months 1, ..., month - 1 of one year. */
  function DaysBeforeMonth(leap: bool, month: int): int
    requires 1 <= month <= 13
    decreases month
  {
    if month == 1 then 0
    else DaysBeforeMonth(leap, month - 1) + GregorianMonthLength(leap, month - 1)
  }

  /** Day 0 is the first of January of year 0. */
  function GregorianDayNumber(d: CivilDate): int
    requires ValidGregorian(d)
  {
    DaysBeforeYear(d.year) + DaysBeforeMonth(GregorianLeap(d.year), d.month) + d.day - 1
  }

  function NextGregorian(d: CivilDate): CivilDate
    requires ValidGregorian(d)
  {
    if d.day < GregorianMonthLength(GregorianLeap(d.year), d.month) then d.(day := d.day + 1)
    else if d.month < 12 then CivilDate(d.year, d.month + 1, 1)
    else CivilDate(d.year + 1, 1, 1)
  }

  /** The month that holds the day with the given zero-based index, counting from `month`. */
  function WalkMonths(year: nat, month: int, rest: nat): CivilDate
    requires 1 <= month <= 12
    decreases 12 - month
  {
    var length := GregorianMonthLength(GregorianLeap(year), month);
    if rest < length || month == 12 then CivilDate(year, month, rest + 1)
    else WalkMonths(year, month + 1, rest - length)
  }

  function WalkYears(year: nat, rest: nat): CivilDate
    decreases rest
  {
    if rest < GregorianYearLength(year) then WalkMonths(year, 1, rest)
    else WalkYears(year + 1, rest - GregorianYearLength(year))
  }

  /** The date of a day number, found by counting. */
  function GregorianOfDay(days: nat): CivilDate {
    WalkYears(0, days)
  }

  lemma {:induction false} WalkMonthsCounts(year: nat, month: int, rest: nat)
    requires 1 <= month <= 12
    requires DaysBeforeMonth(GregorianLeap(year), month) + rest < GregorianYearLength(year)
    ensures ValidGregorian(WalkMonths(year, month, rest))
    ensures WalkMonths(year, month, rest).year == year
    ensures GregorianDayNumber(WalkMonths(year, month, rest))
         == DaysBeforeYear(year) + DaysBeforeMonth(GregorianLeap(year), month) + rest
    decreases 12 - month
  {
    var leap := GregorianLeap(year);
    var length := GregorianMonthLength(leap, month);
    if month == 12 {
      MonthsFillTheYear(leap);
    } else if rest >= length {
      assert DaysBeforeMonth(leap, month + 1) == DaysBeforeMonth(leap, month) + length;
      WalkMonthsCounts(year, month + 1, rest - length);
    }
  }

  lemma MonthsFillTheYear(leap: bool)
    ensures DaysBeforeMonth(leap, 13) == if leap then 366 else 365
    ensures DaysBeforeMonth(leap, 12) == if leap then 335 else 334
  {
    assert DaysBeforeMonth(leap, 4) == if leap then 91 else 90;
    assert DaysBeforeMonth(leap, 7) == if leap then 182 else 181;
    assert DaysBeforeMonth(leap, 10) == if leap then 274 else 273;
  }

  lemma {:induction false} WalkYearsCounts(year: nat, rest: nat)
    ensures ValidGregorian(WalkYears(year, rest))
    ensures GregorianDayNumber(WalkYears(year, rest)) == DaysBeforeYear(year) + rest
    decreases rest
  {
    if rest < GregorianYearLength(year) {
      WalkMonthsCounts(year, 1, rest);
    } else {
      WalkYearsCounts(year + 1, rest - GregorianYearLength(year));
    }
  }

  /** Counting days up to the date found for a day number gives the day number back. */
  lemma GregorianOfDayCounts(days: nat)
    ensures ValidGregorian(GregorianOfDay(days))
    ensures GregorianDayNumber(GregorianOfDay(days)) == days
  {
    WalkYearsCounts(0, days);
  }

  lemma {:induction false} DaysBeforeYearGrows(a: nat, b: nat)
    requires a < b
    ensures DaysBeforeYear(a) + GregorianYearLength(a) <= DaysBeforeYear(b)
    decreases b
  {
    if a + 1 < b {
      DaysBeforeYearGrows(a, b - 1);
    }
  }

  lemma {:induction false} DaysBeforeMonthGrows(leap: bool, a: int, b: int)
    requires 1 <= a < b <= 13
    ensures DaysBeforeMonth(leap, a) + GregorianMonthLength(leap, a) <= DaysBeforeMonth(leap, b)
    decreases b
  {
    if a + 1 < b {
      DaysBeforeMonthGrows(leap, a, b - 1);
    }
  }

  /** The day number orders dates as the calendar does, so it is injective. */
  lemma GregorianDayNumberOrders(a: CivilDate, b: CivilDate)
    requires ValidGregorian(a) && ValidGregorian(b)
    ensures Before(a, b) <==> GregorianDayNumber(a) < GregorianDayNumber(b)
    ensures a == b <==> GregorianDayNumber(a) == GregorianDayNumber(b)
  {
    if Before(a, b) {
      GregorianBeforeIsLess(a, b);
    } else if a != b {
      GregorianBeforeIsLess(b, a);
    }
  }

  lemma GregorianBeforeIsLess(a: CivilDate, b: CivilDate)
    requires ValidGregorian(a) && ValidGregorian(b) && Before(a, b)
    ensures GregorianDayNumber(a) < GregorianDayNumber(b)
  {
    var leap := GregorianLeap(a.year);
    if a.year < b.year {
      DaysBeforeYearGrows(a.year, b.year);
      MonthsFillTheYear(leap);
      if a.month < 12 {
        DaysBeforeMonthGrows(leap, a.month, 13);
      }
      if 1 < b.month {
        DaysBeforeMonthGrows(GregorianLeap(b.year), 1, b.month);
      }
    } else if a.month < b.month {
      DaysBeforeMonthGrows(leap, a.month, b.month);
    }
  }

  lemma NextGregorianIsNextDay(d: CivilDate)
    requires ValidGregorian(d)
    ensures ValidGregorian(NextGregorian(d))
    ensures GregorianDayNumber(NextGregorian(d)) == GregorianDayNumber(d) + 1
  {
    MonthsFillTheYear(GregorianLeap(d.year));
  }

  // ---------------------------------------------------------------- the division cascade

  /** Leap years among 0, ..., year - 1, by inclusion and exclusion. */
  function LeapsBefore(year: nat): int {
    (year + 3) / 4 - (year + 99) / 100 + (year + 399) / 400
  }

  lemma {:induction false} DaysBeforeYearClosed(year: nat)
    ensures DaysBeforeYear(year) == 365 * year + LeapsBefore(year)
  {
    if year > 0 {
      var y := year - 1;
      DaysBeforeYearClosed(y);
      LeapsBeforeStep(y);
    }
  }

  lemma LeapsBeforeStep(year: nat)
    ensures LeapsBefore(year + 1) == LeapsBefore(year) + (if GregorianLeap(year) then 1 else 0)
  {
    assert (year + 4) / 4 - (year + 3) / 4 == if year % 4 == 0 then 1 else 0;
    assert (year + 100) / 100 - (year + 99) / 100 == if year % 100 == 0 then 1 else 0;
    assert (year + 400) / 400 - (year + 399) / 400 == if year % 400 == 0 then 1 else 0;
    MultiplesNest(year);
  }

  lemma MultiplesNest(year: nat)
    ensures year % 100 == 0 ==> year % 4 == 0
    ensures year % 400 == 0 ==> year % 100 == 0
  {
    assert year == 100 * (year / 100) + year % 100;
    assert year == 400 * (year / 400) + year % 400;
    assert year % 400 == 0 ==> year == 100 * (4 * (year / 400));
    assert year % 100 == 0 ==> year == 4 * (25 * (year / 100));
  }

  /** One when `b` holds, so that corrections can be added up. */

  /** The start of a year, split as the cascade splits it: `cycle` of 400 years, `century`
      of 100, `block` of 4 and `offset` of single years. */
  lemma YearStart(cycle: nat, century: nat, block: nat, offset: nat)
    requires century <= 3 && block <= 24 && offset <= 3
    ensures DaysBeforeYear(400 * cycle + 100 * century + 4 * block + offset)
         == 146097 * cycle + 36524 * century + 1461 * block + 365 * offset
            + Bit(offset > 0) - Bit(block > 0 || offset > 0)
            + Bit(century > 0 || block > 0 || offset > 0)
  {
    DaysBeforeYearClosed(400 * cycle + 100 * century + 4 * block + offset);
    LeapsSplit(cycle, century, block, offset);
  }

  lemma LeapsSplit(cycle: nat, century: nat, block: nat, offset: nat)
    requires century <= 3 && block <= 24 && offset <= 3
    ensures LeapsBefore(400 * cycle + 100 * century + 4 * block + offset)
         == (100 * cycle + 25 * century + block + Bit(offset > 0)) - (4 * cycle + century + Bit(block > 0 || offset > 0))
            + (cycle + Bit(century > 0 || block > 0 || offset > 0))
  {
    var year := 400 * cycle + 100 * century + 4 * block + offset;
    RoundedUp(year + 3, 4, 100 * cycle + 25 * century + block + Bit(offset > 0));
    RoundedUp(year + 99, 100, 4 * cycle + century + Bit(block > 0 || offset > 0));
    RoundedUp(year + 399, 400, cycle + Bit(century > 0 || block > 0 || offset > 0));
  }

  lemma RoundedUp(n: nat, d: nat, q: nat)
    requires d > 0 && q * d <= n < (q + 1) * d
    ensures n / d == q
  {
    assert n == n / d * d + n % d;
    MultiplesSpread(n / d, q, d);
    MultiplesSpread(q, n / d, d);
  }

  lemma {:induction false} MultiplesSpread(a: nat, b: nat, d: nat)
    ensures a < b ==> a * d + d <= b * d
    decreases b
  {
    if a < b {
      assert b * d == (b - 1) * d + d;
      MultiplesSpread(a, b - 1, d);
    }
  }

  lemma YearIsLeap(cycle: nat, century: nat, block: nat, offset: nat)
    requires century <= 3 && block <= 24 && offset <= 3
    ensures GregorianLeap(400 * cycle + 100 * century + 4 * block + offset)
       <==> offset == 0 && (block > 0 || century == 0)
  {
    var year := 400 * cycle + 100 * century + 4 * block + offset;
    LeftOver(year, 4, 100 * cycle + 25 * century + block, offset);
    LeftOver(year, 100, 4 * cycle + century, 4 * block + offset);
    LeftOver(year, 400, cycle, 100 * century + 4 * block + offset);
  }

  lemma LeftOver(n: nat, d: nat, q: nat, r: nat)
    requires d > 0 && n == q * d + r && r < d
    ensures n % d == r
  {
    RoundedUp(n, d, q);
    assert n == d * (n / d) + n % d;
  }

  // ---------------------------------------------------------------- the Jalali side

  /** Days from the first of January of year 0 to the eve of a Jalali year. */
  function JalaliYearStart(year: int): int {
    var y := year + 1595;
    -355668 + 365 * y + (y / 33) * 8 + ((y % 33) + 3) / 4
  }

  /** Days before a month: six months of 31 days, then months of 30. */
  function JalaliDaysBeforeMonth(month: int): int
    requires 1 <= month <= 12
    decreases month
  {
    if month == 1 then 0
    else JalaliDaysBeforeMonth(month - 1) + (if month - 1 <= 6 then 31 else 30)
  }

  function JalaliDayNumber(j: CivilDate): int
    requires 1 <= j.month <= 12
  {
    JalaliYearStart(j.year) + JalaliDaysBeforeMonth(j.month) + j.day
  }

  /** Leap years of the 33-year cycle: every fourth year of the shifted cycle except the
      last one. */
  predicate JalaliLeap(year: int) {
    var r := (year + 1595) % 33;
    r % 4 == 0 && r != 32
  }

  function JalaliMonthLength(year: int, month: int): (days: int)
    requires 1 <= month <= 12
    ensures 29 <= days <= 31
  {
    if month <= 6 then 31
    else if month <= 11 then 30
    else if JalaliLeap(year) then 30
    else 29
  }

  predicate ValidJalali(j: CivilDate) {
    1 <= j.year && 1 <= j.month <= 12 && 1 <= j.day <= JalaliMonthLength(j.year, j.month)
  }

  function NextJalali(j: CivilDate): CivilDate
    requires ValidJalali(j)
  {
    if j.day < JalaliMonthLength(j.year, j.month) then j.(day := j.day + 1)
    else if j.month < 12 then CivilDate(j.year, j.month + 1, 1)
    else CivilDate(j.year + 1, 1, 1)
  }

  /** The Gregorian date of a Jalali date. */
  function ToGregorian(j: CivilDate): (g: CivilDate)
    requires 1 <= j.year && 1 <= j.month <= 12 && 1 <= j.day
    ensures ValidGregorian(g)
    ensures GregorianDayNumber(g) == JalaliDayNumber(j)
  {
    JalaliDayNumberPositive(j);
    GregorianOfDayCounts(JalaliDayNumber(j));
    GregorianOfDay(JalaliDayNumber(j))
  }

  lemma JalaliDayNumberPositive(j: CivilDate)
    requires 1 <= j.year && 1 <= j.month <= 12 && 1 <= j.day
    ensures JalaliDayNumber(j) > 0
  {
    JalaliDaysBeforeMonthClosed(j.month);
  }

  lemma {:induction false} JalaliDaysBeforeMonthClosed(month: int)
    requires 1 <= month <= 12
    ensures JalaliDaysBeforeMonth(month)
         == if month < 7 then (month - 1) * 31 else (month - 7) * 30 + 186
    decreases month
  {
    if month > 1 {
      JalaliDaysBeforeMonthClosed(month - 1);
    }
  }

  /** The conversion itself: a cascade of divisions and a walk over the months. */
  method JalaliToGregorian(jy: int, jm: int, jd: int) returns (result: CivilDate)
    requires 1 <= jy && 1 <= jm <= 12 && 1 <= jd
    ensures result == ToGregorian(CivilDate(jy, jm, jd))
    ensures ValidGregorian(result)
  {
    var y := jy + 1595;
    var days := -355668 + (365 * y) + ((y / 33) * 8) + (((y % 33) + 3) / 4) + jd;
    if jm < 7 {
      days := days + (jm - 1) * 31;
    } else {
      days := days + ((jm - 7) * 30) + 186;
    }
    JalaliDaysBeforeMonthClosed(jm);
    JalaliDayNumberPositive(CivilDate(jy, jm, jd));
    assert days == JalaliDayNumber(CivilDate(jy, jm, jd));
    result := CascadeToGregorian(days);
  }

  lemma CycleStage(total: nat)
    ensures total == 146097 * (total / 146097) + total % 146097
  {
  }

  lemma CenturyStage(days: int)
    requires 36524 < days < 146097
    ensures 1 <= (days - 1) / 36524 <= 3 && 0 <= (days - 1) % 36524 < 36524
    ensures days == 36524 * ((days - 1) / 36524) + (days - 1) % 36524 + 1
  {
  }

  lemma BlockStage(days: int)
    requires 0 <= days <= 36524
    ensures 0 <= days / 1461 <= 24 && days == 1461 * (days / 1461) + days % 1461
  {
  }

  lemma YearStage(days: int)
    requires 365 < days < 1461
    ensures 1 <= (days - 1) / 365 <= 3 && 0 <= (days - 1) % 365 < 365
    ensures days == 365 * ((days - 1) / 365) + (days - 1) % 365 + 1
  {
  }

  /** The divisions: the year of a day number, and the days left over. */
  method CascadeToYear(total: nat) returns (gy: nat, days: int)
    ensures 0 <= days < GregorianYearLength(gy) && DaysBeforeYear(gy) + days == total
  {
    days := total;
    CycleStage(days);
    gy := 400 * (days / 146097);
    ghost var cycle, century, rest := days / 146097, 0, 0;
    days := days % 146097;
    ghost var ofCycle := days;
    if days > 36524 {
      CenturyStage(days);
      century := (days - 1) / 36524;
      gy := gy + 100 * ((days - 1) / 36524);
      days := (days - 1) % 36524;
      rest := days;
      if days >= 365 {
        days := days + 1;
      }
    }
    BlockStage(days);
    ghost var ofCentury, block := days, days / 1461;
    gy := gy + 4 * (days / 1461);
    days := days % 1461;
    ghost var ofBlock, offset := days, 0;
    if days > 365 {
      YearStage(days);
      offset := (days - 1) / 365;
      gy := gy + (days - 1) / 365;
      days := (days - 1) % 365;
    }
    CascadeAddsUp(cycle, century, block, offset, ofCycle, rest, ofCentury, ofBlock, days);
  }

  /** The quotients and remainders of the cascade name a year and a day of it. */
  lemma CascadeAddsUp(cycle: nat, century: nat, block: nat, offset: nat,
                      ofCycle: nat, rest: nat, ofCentury: nat, ofBlock: nat, days: nat)
    requires century <= 3 && block <= 24 && offset <= 3
    requires if ofCycle <= 36524 then century == 0 && ofCentury == ofCycle
             else century >= 1 && rest < 36524 && ofCycle == 36524 * century + rest + 1
                  && ofCentury == if rest >= 365 then rest + 1 else rest
    requires ofCentury == 1461 * block + ofBlock && ofBlock < 1461
    requires if ofBlock <= 365 then offset == 0 && days == ofBlock
             else offset >= 1 && days < 365 && ofBlock == 365 * offset + days + 1
    ensures var gy := 400 * cycle + 100 * century + 4 * block + offset;
            DaysBeforeYear(gy) + days == 146097 * cycle + ofCycle && days < GregorianYearLength(gy)
  {
    YearStart(cycle, century, block, offset);
    YearIsLeap(cycle, century, block, offset);
  }

  /** The part of the conversion after the day number is known. */
  method CascadeToGregorian(total: nat) returns (result: CivilDate)
    ensures result == GregorianOfDay(total)
    ensures ValidGregorian(result) && GregorianDayNumber(result) == total
  {
    var gy, days := CascadeToYear(total);
    result := MonthScan(gy, days);
    GregorianOfDayCounts(total);
    GregorianDayNumberOrders(result, GregorianOfDay(total));
  }

  function MonthDays(leap: bool): (days: seq<int>)
    ensures |days| == 13 && forall m :: 1 <= m <= 12 ==> days[m] == GregorianMonthLength(leap, m)
  {
    [0, 31, if leap then 29 else 28, 31, 30, 31, 30, 31, 31, 30, 31, 30, 31]
  }

  /** The final loop: take whole months off the day of the year. */
  method MonthScan(gy: nat, days: nat) returns (result: CivilDate)
    requires days < GregorianYearLength(gy)
    ensures ValidGregorian(result) && result.year == gy
    ensures GregorianDayNumber(result) == DaysBeforeYear(gy) + days
  {
    var gd := days + 1;
    var leap := gy % 4 == 0 && (gy % 100 != 0 || gy % 400 == 0);
    var monthDays := MonthDays(leap);
    var gm := 1;
    MonthsFillTheYear(leap);
    while gm <= 12 && gd > monthDays[gm]
      invariant 1 <= gm <= 12
      invariant 1 <= gd && DaysBeforeMonth(leap, gm) + gd == days + 1
    {
      gd := gd - monthDays[gm];
      gm := gm + 1;
    }
    result := CivilDate(gy, gm, gd);
  }

  // ---------------------------------------------------------------- properties

  /** One Jalali year is as long as its leap rule says. */
  lemma JalaliYearLength(year: int)
    ensures JalaliYearStart(year + 1) - JalaliYearStart(year) == if JalaliLeap(year) then 366 else 365
  {
    var y := year + 1595;
    var q, r := y / 33, y % 33;
    assert y == 33 * q + r;
    if r == 32 {
      assert (y + 1) / 33 == q + 1 && (y + 1) % 33 == 0;
    } else {
      assert (y + 1) / 33 == q && (y + 1) % 33 == r + 1;
    }
  }

  /** The month length as measured by the importer: the twelfth month is long exactly when
      two consecutive new years are 366 days apart. */
  method MeasureJalaliMonthLength(year: int, month: int) returns (days: int)
    requires 1 <= year && 1 <= month <= 12
    ensures days == JalaliMonthLength(year, month)
  {
    if month <= 6 {
      return 31;
    }
    if month <= 11 {
      return 30;
    }
    var currentNewYear := JalaliToGregorian(year, 1, 1);
    var nextNewYear := JalaliToGregorian(year + 1, 1, 1);
    JalaliYearLength(year);
    days := if GregorianDayNumber(nextNewYear) - GregorianDayNumber(currentNewYear) == 366
            then 30 else 29;
  }

  lemma NextJalaliIsNextDay(j: CivilDate)
    requires ValidJalali(j)
    ensures ValidJalali(NextJalali(j))
    ensures JalaliDayNumber(NextJalali(j)) == JalaliDayNumber(j) + 1
  {
    JalaliDaysBeforeMonthClosed(j.month);
    if j.month == 12 {
      JalaliYearLength(j.year);
    }
  }

  /** The day after a Jalali date converts to the day after its Gregorian date. */
  lemma NextDayAgrees(j: CivilDate)
    requires ValidJalali(j)
    ensures ValidJalali(NextJalali(j))
    ensures ToGregorian(NextJalali(j)) == NextGregorian(ToGregorian(j))
  {
    NextJalaliIsNextDay(j);
    NextGregorianIsNextDay(ToGregorian(j));
    GregorianDayNumberOrders(ToGregorian(NextJalali(j)), NextGregorian(ToGregorian(j)));
  }

  lemma {:induction false} JalaliYearStartGrows(a: int, b: int)
    requires a < b
    ensures JalaliYearStart(a) + (if JalaliLeap(a) then 366 else 365) <= JalaliYearStart(b)
    decreases b - a
  {
    JalaliYearLength(b - 1);
    if a + 1 < b {
      JalaliYearStartGrows(a, b - 1);
    }
  }

  lemma {:induction false} JalaliDaysBeforeMonthGrows(year: int, a: int, b: int)
    requires 1 <= a < b <= 12
    ensures JalaliDaysBeforeMonth(a) + JalaliMonthLength(year, a) <= JalaliDaysBeforeMonth(b)
    decreases b
  {
    if a + 1 < b {
      JalaliDaysBeforeMonthGrows(year, a, b - 1);
    }
  }

  lemma JalaliBeforeIsLess(a: CivilDate, b: CivilDate)
    requires ValidJalali(a) && ValidJalali(b) && Before(a, b)
    ensures JalaliDayNumber(a) < JalaliDayNumber(b)
  {
    if a.year < b.year {
      JalaliYearStartGrows(a.year, b.year);
      JalaliDaysBeforeMonthClosed(a.month);
      JalaliDaysBeforeMonthClosed(b.month);
    } else if a.month < b.month {
      JalaliDaysBeforeMonthGrows(a.year, a.month, b.month);
    }
  }

  /** Conversion keeps the order of dates in both directions, so it is injective. */
  lemma ConversionKeepsOrder(a: CivilDate, b: CivilDate)
    requires ValidJalali(a) && ValidJalali(b)
    ensures Before(a, b) <==> Before(ToGregorian(a), ToGregorian(b))
    ensures a == b <==> ToGregorian(a) == ToGregorian(b)
  {
    GregorianDayNumberOrders(ToGregorian(a), ToGregorian(b));
    if Before(a, b) {
      JalaliBeforeIsLess(a, b);
    } else if a != b {
      JalaliBeforeIsLess(b, a);
    }
  }

  /** The Jalali date `steps` days after the first day of year 1. */
  function JalaliAfter(steps: nat): (j: CivilDate)
    ensures ValidJalali(j)
    ensures JalaliDayNumber(j) == JalaliDayNumber(CivilDate(1, 1, 1)) + steps
  {
    if steps == 0 then CivilDate(1, 1, 1)
    else
      var eve := JalaliAfter(steps - 1);
      NextJalaliIsNextDay(eve);
      NextJalali(eve)
  }

  lemma FirstOfAll(start: CivilDate)
    requires ValidJalali(start)
    ensures JalaliDayNumber(start) >= JalaliDayNumber(CivilDate(1, 1, 1))
  {
    if Before(CivilDate(1, 1, 1), start) {
      JalaliBeforeIsLess(CivilDate(1, 1, 1), start);
    }
  }

  /** No gap: every Gregorian date on or after the conversion of a Jalali date is itself the
      conversion of exactly one valid Jalali date. */
  lemma EveryGregorianDayIsReached(start: CivilDate, g: CivilDate) returns (j: CivilDate)
    requires ValidJalali(start) && ValidGregorian(g) && GregorianDayNumber(g) >= JalaliDayNumber(start)
    ensures ValidJalali(j) && ToGregorian(j) == g
    ensures forall k :: ValidJalali(k) && ToGregorian(k) == g ==> k == j
  {
    FirstOfAll(start);
    j := JalaliAfter(GregorianDayNumber(g) - JalaliDayNumber(CivilDate(1, 1, 1)));
    GregorianDayNumberOrders(ToGregorian(j), g);
    forall k | ValidJalali(k) && ToGregorian(k) == g ensures k == j {
      ConversionKeepsOrder(k, j);
    }
  }

  /** Leap years among `count` consecutive years. */
  function LeapYearsFrom(year: int, count: nat): int {
    if count == 0 then 0
    else LeapYearsFrom(year, count - 1) + Bit(JalaliLeap(year + count - 1))
  }

  lemma {:induction false} LeapYearsMakeUpTheDays(year: int, count: nat)
    ensures JalaliYearStart(year + count) == JalaliYearStart(year) + 365 * count + LeapYearsFrom(year, count)
  {
    if count > 0 {
      LeapYearsMakeUpTheDays(year, count - 1);
      JalaliYearLength(year + count - 1);
    }
  }

  /** Exactly eight of any 33 consecutive years are leap. */
  lemma EightLeapYearsInThirtyThree(year: int)
    ensures LeapYearsFrom(year, 33) == 8
  {
    LeapYearsMakeUpTheDays(year, 33);
    var y := year + 1595;
    assert (y + 33) / 33 == y / 33 + 1 && (y + 33) % 33 == y % 33;
  }

  // ---------------------------------------------------------------- known dates

  /** The leap years of the 33-year cycle by their remainders. */
  lemma LeapYearsByRemainder(year: int)
    ensures JalaliLeap(year) <==> year % 33 in {1, 5, 9, 13, 17, 22, 26, 30}
  {
    assert (year + 1595) % 33 == (year % 33 + 11) % 33;
  }

  /** The days of an ordinary year before each month. */
  const MONTH_OFFSETS := [0, 31, 59, 90, 120, 151, 181, 212, 243, 273, 304, 334]

  lemma MonthOffsets(leap: bool, month: int)
    requires 1 <= month <= 12
    ensures DaysBeforeMonth(leap, month) == MONTH_OFFSETS[month - 1] + Bit(leap && month > 2)
  {
    MonthsFillTheYear(leap);
    assert DaysBeforeMonth(leap, 4) == if leap then 91 else 90;
    assert DaysBeforeMonth(leap, 7) == if leap then 182 else 181;
    assert DaysBeforeMonth(leap, 10) == if leap then 274 else 273;
  }

  /** Two dates name the same day when the closed forms of their day numbers agree. */
  lemma SameDay(j: CivilDate, g: CivilDate)
    requires ValidJalali(j) && ValidGregorian(g)
    requires JalaliYearStart(j.year) + (if j.month < 7 then (j.month - 1) * 31 else (j.month - 7) * 30 + 186) + j.day
          == 365 * g.year + LeapsBefore(g.year) + MONTH_OFFSETS[g.month - 1] + Bit(GregorianLeap(g.year) && g.month > 2) + g.day - 1
    ensures ToGregorian(j) == g
  {
    JalaliDaysBeforeMonthClosed(j.month);
    DaysBeforeYearClosed(g.year);
    MonthOffsets(GregorianLeap(g.year), g.month);
    GregorianDayNumberOrders(ToGregorian(j), g);
  }

  /** Three days whose dates in both calendars are known.  With `NextDayAgrees` any one of
      them fixes the conversion of every date. */
  lemma KnownDates(spring: CivilDate, autumn: CivilDate, winter: CivilDate)
    requires spring == CivilDate(1399, 1, 1) && autumn == CivilDate(1400, 7, 1) && winter == CivilDate(1357, 11, 22)
    ensures ToGregorian(spring) == CivilDate(2020, 3, 20)
    ensures ToGregorian(autumn) == CivilDate(2021, 9, 23)
    ensures ToGregorian(winter) == CivilDate(1979, 2, 11)
  {
    SameDay(spring, CivilDate(2020, 3, 20));
    SameDay(autumn, CivilDate(2021, 9, 23));
    SameDay(winter, CivilDate(1979, 2, 11));
  }
}
