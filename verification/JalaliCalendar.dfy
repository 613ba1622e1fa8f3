/**
 The conversion of Jalali dates to Gregorian dates, against calendars that are counted day by day
 (backend/app/core/family_rules.py).
 */
module JalaliCalendar {
  // Reference definitions: the Gregorian calendar counted year by year and month by month from 1 January of year 0, and
  // the Jalali calendar of the 33-year leap cycle stepped day by day. The conversion is proved against both.

  import opened Common

  datatype JalaliDate = JalaliDate(year: int, month: int, day: int)
  datatype GregorianDate = GregorianDate(year: int, month: int, day: int)

  // ---------- the Gregorian reference ----------

  predicate GregorianLeap(y: int) {
    (y % 4 == 0 && y % 100 != 0) || y % 400 == 0
  }

  function GregorianYearLength(y: int): int {
    if GregorianLeap(y) then 366 else 365
  }

  function GregorianMonthLength(y: int, m: int): int {
    if m == 2 then (if GregorianLeap(y) then 29 else 28)
    else if m == 4 || m == 6 || m == 9 || m == 11 then 30
    else 31
  }

  /** Days before 1 January of year `y`, counted from 1 January of year 0. */
  function YearStart(y: nat): int {
    if y == 0 then 0 else YearStart(y - 1) + GregorianYearLength(y - 1)
  }

  /** Days before the first of month `m` within its year. */
  function MonthStart(y: int, m: nat): int
  {
    if m <= 1 then 0 else MonthStart(y, m - 1) + GregorianMonthLength(y, m - 1)
  }

  predicate ValidGregorian(g: GregorianDate) {
    g.year >= 0 && 1 <= g.month <= 12 && 1 <= g.day <= GregorianMonthLength(g.year, g.month)
  }

  function GregorianDay(g: GregorianDate): int
    requires ValidGregorian(g)
  {
    YearStart(g.year) + MonthStart(g.year, g.month) + g.day - 1
  }

  // ---------- the linear day formula of the source ----------

  function DaysBeforeJalaliMonth(m: int): int {
    if m < 7 then (m - 1) * 31 else (m - 7) * 30 + 186
  }

  function LinearDay(t: JalaliDate): int {
    var jy := t.year + 1595;
    -355668 + 365 * jy + (jy / 33) * 8 + (jy % 33 + 3) / 4 + t.day + DaysBeforeJalaliMonth(t.month)
  }

  // ---------- from a day number to year and day of year ----------

  lemma {:induction false} YearStartClosed(y: nat)
    ensures YearStart(y) == 365 * y + (y + 3) / 4 - (y + 99) / 100 + (y + 399) / 400
  {
    if y > 0 {
      YearStartClosed(y - 1);
      LeapCount(y - 1);
    }
  }

  lemma LeapCount(y: nat)
    ensures (y + 4) / 4 - (y + 3) / 4 == if y % 4 == 0 then 1 else 0
    ensures (y + 100) / 100 - (y + 99) / 100 == if y % 100 == 0 then 1 else 0
    ensures (y + 400) / 400 - (y + 399) / 400 == if y % 400 == 0 then 1 else 0
    ensures y % 400 == 0 ==> y % 100 == 0
    ensures y % 100 == 0 ==> y % 4 == 0
  {
    CountFours(y);
    CountHundreds(y);
    CountFourHundreds(y);
  }

  lemma CountFours(y: nat)
    ensures (y + 4) / 4 - (y + 3) / 4 == if y % 4 == 0 then 1 else 0
  {
  }

  lemma CountHundreds(y: nat)
    ensures (y + 100) / 100 - (y + 99) / 100 == if y % 100 == 0 then 1 else 0
    ensures y % 100 == 0 ==> y % 4 == 0
  {
    CenturyParts(y / 100, y % 100);
    assert (y + 100) / 100 == y / 100 + 1;
  }

  lemma CountFourHundreds(y: nat)
    ensures (y + 400) / 400 - (y + 399) / 400 == if y % 400 == 0 then 1 else 0
    ensures y % 400 == 0 ==> y % 100 == 0
  {
    CycleParts(y / 400, y % 400);
    assert (y + 400) / 400 == y / 400 + 1;
  }

  function Ind(b: bool): int {
    if b then 1 else 0
  }

  /** A year by its 400-year, century, four-year and single-year parts. */
  lemma YearParts(q: nat, c: int, k: int, j: int)
    requires 0 <= c <= 3 && 0 <= k <= 24 && 0 <= j <= 3
    ensures var y := 400 * q + 100 * c + 4 * k + j;
            && YearStart(y) == 146097 * q + 36524 * c + 1461 * k + 365 * j
                               + Ind(j > 0) - Ind(k > 0 || j > 0) + Ind(c > 0 || k > 0 || j > 0)
            && (GregorianLeap(y) <==> j == 0 && (k > 0 || c == 0))
  {
    var y := 400 * q + 100 * c + 4 * k + j;
    hide YearStart;
    YearStartClosed(y);
    FourYearParts(100 * q + 25 * c + k, j);
    assert y == 4 * (100 * q + 25 * c + k) + j;
    CenturyParts(4 * q + c, 4 * k + j);
    assert y == 100 * (4 * q + c) + (4 * k + j);
    CycleParts(q, 100 * c + 4 * k + j);
  }

  lemma FourYearParts(n: nat, j: int)
    requires 0 <= j < 4
    ensures (4 * n + j + 3) / 4 == n + Ind(j > 0) && (4 * n + j) % 4 == j
  {
  }

  lemma CenturyParts(n: nat, j: int)
    requires 0 <= j < 100
    ensures (100 * n + j + 99) / 100 == n + Ind(j > 0) && (100 * n + j) % 100 == j
  {
  }

  lemma CycleParts(n: nat, j: int)
    requires 0 <= j < 400
    ensures (400 * n + j + 399) / 400 == n + Ind(j > 0) && (400 * n + j) % 400 == j
  {
  }

  /** The year and the day of the year of a day number, by whole 400-year, century, four-year and one-year periods. */
  method SplitYear(number: int) returns (gy: int, days: int)
    ensures number >= 0 ==> gy >= 0 && YearStart(gy) + days == number && 0 <= days < GregorianYearLength(gy)
    ensures number < 0 ==> gy < 0
  {
    hide YearStart, GregorianLeap;
    days := number;
    ghost var q, c, j := number / 146097, 0, 0;
    gy := 400 * (days / 146097);
    days := days % 146097;
    if days > 36524 {
      days := days - 1;
      c := days / 36524;
      gy := gy + 100 * (days / 36524);
      days := days % 36524;
      if days >= 365 {
        days := days + 1;
      }
    }
    ghost var k := days / 1461;
    gy := gy + 4 * (days / 1461);
    days := days % 1461;
    if days > 365 {
      j := (days - 1) / 365;
      gy := gy + (days - 1) / 365;
      days := (days - 1) % 365;
    }
    assert 0 <= c <= 3 && 0 <= k <= 24 && 0 <= j <= 3;
    if number >= 0 {
      YearParts(q, c, k, j);
    }
  }

  /** The month and the day of the month of a day of the year. */
  method SplitMonth(gy: nat, days: int) returns (gm: int, gd: int)
    requires 0 <= days < GregorianYearLength(gy)
    ensures ValidGregorian(GregorianDate(gy, gm, gd))
    ensures MonthStart(gy, gm) + gd - 1 == days
  {
    hide GregorianLeap;
    gd, gm := days + 1, 1;
    while gm < 12 && gd > GregorianMonthLength(gy, gm)
      invariant 1 <= gm <= 12 && 1 <= gd
      invariant MonthStart(gy, gm) + gd - 1 == days
    {
      gd := gd - GregorianMonthLength(gy, gm);
      gm := gm + 1;
    }
    DecemberStart(gy);
  }

  lemma {:induction false} DecemberStart(gy: int)
    ensures MonthStart(gy, 12) == GregorianYearLength(gy) - 31
  {
    hide GregorianLeap;
    var march := 31 + GregorianMonthLength(gy, 2);
    assert MonthStart(gy, 2) == 31;
    assert MonthStart(gy, 4) == march + 31;
    assert MonthStart(gy, 6) == march + 92;
    assert MonthStart(gy, 8) == march + 153;
    assert MonthStart(gy, 10) == march + 214;
  }

  datatype DateError = YearOutOfRange

  /** The last year that a date object can hold. */
  const LAST_YEAR := 9999

  /** For every triple of integers: the Gregorian date whose day number is the value of the linear formula, or the error
      of the date constructor when that day is outside the years 1 to 9999. */
  method JalaliToGregorian(t: JalaliDate) returns (r: Result<GregorianDate, DateError>)
    ensures r.Ok? <==> YearStart(1) <= LinearDay(t) < YearStart(LAST_YEAR + 1)
    ensures r.Ok? ==> ValidGregorian(r.value) && GregorianDay(r.value) == LinearDay(t)
  {
    hide GregorianLeap;
    var jy := t.year + 1595;
    var days := -355668 + 365 * jy + (jy / 33) * 8 + (jy % 33 + 3) / 4 + t.day;
    days := days + if t.month < 7 then (t.month - 1) * 31 else (t.month - 7) * 30 + 186;
    var gy, rest := SplitYear(days);
    if days < 0 {
      YearStartGrows(0, 1);
      return Err(YearOutOfRange);
    }
    var gm, gd := SplitMonth(gy, rest);
    if 1 <= gy <= LAST_YEAR {
      YearStartGrows(1, gy);
      YearStartGrows(gy + 1, LAST_YEAR + 1);
      r := Ok(GregorianDate(gy, gm, gd));
    } else {
      if gy < 1 {
        YearStartGrows(gy + 1, 1);
      } else {
        YearStartGrows(LAST_YEAR + 1, gy);
      }
      r := Err(YearOutOfRange);
    }
  }

  lemma {:induction false} YearStartGrows(a: nat, b: nat)
    requires a <= b
    ensures YearStart(a) + 365 * (b - a) <= YearStart(b)
    decreases b - a
  {
    hide GregorianLeap;
    if a < b {
      YearStartGrows(a, b - 1);
    }
  }

  // ---------- the Jalali reference ----------

  /** The leap years of the 33-year cycle. */
  predicate JalaliLeap(y: int) {
    var r := (y + 1595) % 33;
    r % 4 == 0 && r != 32
  }

  function JalaliMonthLength(y: int, m: int): int {
    if m <= 6 then 31 else if m <= 11 then 30 else if JalaliLeap(y) then 30 else 29
  }

  /** A day of the real calendar. */
  predicate RealDate(t: JalaliDate) {
    1 <= t.month <= 12 && 1 <= t.day <= JalaliMonthLength(t.year, t.month)
  }

  function NextJalali(t: JalaliDate): JalaliDate {
    if t.day < JalaliMonthLength(t.year, t.month) then t.(day := t.day + 1)
    else if t.month < 12 then JalaliDate(t.year, t.month + 1, 1)
    else JalaliDate(t.year + 1, 1, 1)
  }

  function NextGregorian(g: GregorianDate): GregorianDate {
    if g.day < GregorianMonthLength(g.year, g.month) then g.(day := g.day + 1)
    else if g.month < 12 then GregorianDate(g.year, g.month + 1, 1)
    else GregorianDate(g.year + 1, 1, 1)
  }

  /** The formula grows by one from each real day to the next: its leap terms are the 33-year cycle. */
  lemma LinearDayNext(t: JalaliDate)
    requires RealDate(t)
    ensures RealDate(NextJalali(t)) && LinearDay(NextJalali(t)) == LinearDay(t) + 1
  {
    if t.month == 12 && t.day == JalaliMonthLength(t.year, t.month) {
      LeapTerm(t.year + 1595);
    }
  }

  lemma LeapTerm(jy: int)
    ensures ((jy + 1) / 33) * 8 + ((jy + 1) % 33 + 3) / 4 - (jy / 33) * 8 - (jy % 33 + 3) / 4
         == if jy % 33 % 4 == 0 && jy % 33 != 32 then 1 else 0
  {
  }

  lemma NextGregorianDay(g: GregorianDate)
    requires ValidGregorian(g)
    ensures ValidGregorian(NextGregorian(g)) && GregorianDay(NextGregorian(g)) == GregorianDay(g) + 1
  {
    hide GregorianLeap;
    if g.month == 12 {
      DecemberStart(g.year);
    }
  }

  lemma {:induction false} MonthStartGrows(y: int, a: nat, b: nat)
    requires 1 <= a < b <= 13
    ensures MonthStart(y, a) + GregorianMonthLength(y, a) <= MonthStart(y, b)
    decreases b
  {
    hide GregorianLeap;
    if a < b - 1 {
      MonthStartGrows(y, a, b - 1);
    }
  }

  /** Different dates have different day numbers. */
  lemma GregorianDayInjective(a: GregorianDate, b: GregorianDate)
    requires ValidGregorian(a) && ValidGregorian(b)
    requires a.year < b.year || (a.year == b.year && a.month < b.month)
          || (a.year == b.year && a.month == b.month && a.day < b.day)
    ensures GregorianDay(a) < GregorianDay(b)
  {
    hide GregorianLeap;
    if a.year < b.year {
      YearStartGrows(a.year + 1, b.year);
      DecemberStart(a.year);
      if a.month < 12 {
        MonthStartGrows(a.year, a.month, 12);
      }
      MonthStartPositive(b.year, b.month);
    } else if a.month < b.month {
      MonthStartGrows(a.year, a.month, b.month);
    }
  }

  lemma {:induction false} MonthStartPositive(y: int, m: nat)
    ensures MonthStart(y, m) >= 0
  {
    if m > 1 {
      MonthStartPositive(y, m - 1);
    }
  }

  /** The two calendars meet where they should: 1 Farvardin 1400 was 21 March 2021. */
  lemma NewYear1400()
    ensures ValidGregorian(GregorianDate(2021, 3, 21))
    ensures LinearDay(JalaliDate(1400, 1, 1)) == GregorianDay(GregorianDate(2021, 3, 21))
  {
    hide YearStart;
    YearStartClosed(2021);
    MarchStart();
    hide MonthStart;
  }

  lemma MarchStart()
    ensures MonthStart(2021, 3) == 59
  {
  }

  /** Where the conversion succeeds on consecutive real days, its results are consecutive Gregorian days. */
  lemma ConsecutiveDays(t: JalaliDate, g: GregorianDate, h: GregorianDate)
    requires RealDate(t)
    requires ValidGregorian(g) && GregorianDay(g) == LinearDay(t)
    requires ValidGregorian(h) && GregorianDay(h) == LinearDay(NextJalali(t))
    ensures h == NextGregorian(g)
  {
    hide LinearDay, GregorianDay, ValidGregorian;
    LinearDayNext(t);
    NextGregorianDay(g);
    DayDeterminesDate(h, NextGregorian(g));
  }

  lemma DayDeterminesDate(a: GregorianDate, b: GregorianDate)
    requires ValidGregorian(a) && ValidGregorian(b) && GregorianDay(a) == GregorianDay(b)
    ensures a == b
  {
    hide GregorianDay, ValidGregorian;
    if a != b {
      if a.year < b.year || (a.year == b.year && a.month < b.month)
         || (a.year == b.year && a.month == b.month && a.day < b.day) {
        GregorianDayInjective(a, b);
      } else {
        GregorianDayInjective(b, a);
      }
    }
  }

  // ---------- counting days ----------

  /** `days_between` on dates whose conversion succeeds. */
  function DaysBetween(start: JalaliDate, end: JalaliDate): nat {
    if LinearDay(end) >= LinearDay(start) then LinearDay(end) - LinearDay(start) else 0
  }

  /** The difference of the converted dates, or zero when the end comes first. */
  method CountDays(start: JalaliDate, end: JalaliDate) returns (r: Result<nat, DateError>)
    ensures r.Ok? ==> r.value == DaysBetween(start, end)
    ensures r.Ok? <==> (&& YearStart(1) <= LinearDay(start) < YearStart(LAST_YEAR + 1)
                        && YearStart(1) <= LinearDay(end) < YearStart(LAST_YEAR + 1))
  {
    hide YearStart, LinearDay;
    var b := JalaliToGregorian(end);
    var a := JalaliToGregorian(start);
    if a.Err? || b.Err? {
      r := Err(YearOutOfRange);
    } else {
      var days := GregorianDay(b.value) - GregorianDay(a.value);
      r := Ok(if days > 0 then days else 0);
    }
  }

  function Advance(t: JalaliDate, n: nat): JalaliDate {
    if n == 0 then t else NextJalali(Advance(t, n - 1))
  }

  /** The count is exactly the number of calendar days to step from one date to the other. */
  lemma {:induction false} DaysBetweenCounts(t: JalaliDate, n: nat)
    requires RealDate(t)
    ensures RealDate(Advance(t, n))
    ensures LinearDay(Advance(t, n)) == LinearDay(t) + n && DaysBetween(t, Advance(t, n)) == n
  {
    hide LinearDay, NextJalali;
    if n > 0 {
      DaysBetweenCounts(t, n - 1);
      LinearDayNext(Advance(t, n - 1));
    }
  }

  predicate Before(a: JalaliDate, b: JalaliDate) {
    a.year < b.year || (a.year == b.year && a.month < b.month)
    || (a.year == b.year && a.month == b.month && a.day < b.day)
  }

  function NewYear(y: int): JalaliDate {
    JalaliDate(y, 1, 1)
  }

  lemma {:induction false} NewYearGrows(a: int, b: int)
    requires a <= b
    ensures LinearDay(NewYear(a)) <= LinearDay(NewYear(b))
    decreases b - a
  {
    if a < b {
      NewYearGrows(a, b - 1);
      LeapTerm(b - 1 + 1595);
    }
  }

  /** The end of a year is the day before the next New Year. */
  lemma BeforeNewYear(t: JalaliDate)
    requires RealDate(t)
    ensures LinearDay(t) < LinearDay(NewYear(t.year + 1))
  {
    LeapTerm(t.year + 1595);
  }

  lemma AfterNewYear(t: JalaliDate)
    requires RealDate(t)
    ensures LinearDay(NewYear(t.year)) <= LinearDay(t)
  {
  }

  /** The formula orders real dates as the calendar does. */
  lemma LinearDayOrdered(a: JalaliDate, b: JalaliDate)
    requires RealDate(a) && RealDate(b) && Before(a, b)
    ensures LinearDay(a) < LinearDay(b)
  {
    if a.year < b.year {
      hide LinearDay;
      BeforeNewYear(a);
      NewYearGrows(a.year + 1, b.year);
      AfterNewYear(b);
    }
  }

  /** Days add up along dates in order. */
  lemma DaysBetweenAdds(a: JalaliDate, b: JalaliDate, c: JalaliDate)
    requires RealDate(a) && RealDate(b) && RealDate(c)
    requires !Before(b, a) && !Before(c, b)
    ensures DaysBetween(a, c) == DaysBetween(a, b) + DaysBetween(b, c)
  {
    hide LinearDay, RealDate;
    if a != b {
      LinearDayOrdered(a, b);
    }
    if b != c {
      LinearDayOrdered(b, c);
    }
  }

  // ---------- the accepted dates that are no real days ----------

  /** What `parse_jalali` accepts of months and days: 30 Esfand in every year. */
  predicate Accepted(t: JalaliDate) {
    1 <= t.month <= 12 && 1 <= t.day <= (if t.month <= 6 then 31 else 30)
  }

  /** The real day of an accepted date: 30 Esfand of a common year counts as 1 Farvardin of the next. */
  function Canonical(t: JalaliDate): JalaliDate {
    if t.month == 12 && t.day == 30 && !JalaliLeap(t.year) then NewYear(t.year + 1) else t
  }

  /** Two accepted dates convert to the same day exactly when they are the same real day, that is, except for 30 Esfand
      of a common year, which collides with the New Year after it. */
  lemma ConversionCollides(a: JalaliDate, b: JalaliDate)
    requires Accepted(a) && Accepted(b)
    ensures LinearDay(a) == LinearDay(b) <==> Canonical(a) == Canonical(b)
  {
    hide LinearDay, Canonical;
    CanonicalDay(a);
    CanonicalDay(b);
    var x, y := Canonical(a), Canonical(b);
    if x != y {
      if Before(x, y) {
        LinearDayOrdered(x, y);
      } else {
        LinearDayOrdered(y, x);
      }
    }
  }

  lemma CanonicalDay(t: JalaliDate)
    requires Accepted(t)
    ensures RealDate(Canonical(t)) && LinearDay(Canonical(t)) == LinearDay(t)
  {
    LeapTerm(t.year + 1595);
  }

  /** 30 Esfand 1404, which is accepted though 1404 is a common year, is converted like 1 Farvardin 1405. */
  lemma ThirtiethOfEsfand1404()
    ensures var t := JalaliDate(1404, 12, 30);
            Accepted(t) && !RealDate(t) && LinearDay(t) == LinearDay(NewYear(1405))
  {
  }
}
