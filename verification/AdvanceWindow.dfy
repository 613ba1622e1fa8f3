/** The submission window of advance payments (backend/app/core/advance_rules.py). */
module AdvanceWindow {
  // A window is a range of days of the Jalali month, both ends included; when it starts after it ends it runs from the
  // end of one month into the next, and the days of the next month count for the month before.

  import opened JalaliCalendar
  import opened Months

  /** `validate_window` admits exactly such bounds. */
  predicate ValidWindow(from: int, to: int) {
    1 <= from <= 31 && 1 <= to <= 31
  }

  predicate InWindow(day: int, from: int, to: int) {
    if from <= to then from <= day <= to else day >= from || day <= to
  }

  /** The days of the window are those met when one counts from its first day to its last, with day 1 after day 31. */
  lemma WindowWalk(day: int, from: int, to: int)
    requires ValidWindow(from, to) && 1 <= day <= 31
    ensures InWindow(day, from, to) <==> (day - from) % 31 <= (to - from) % 31
  {
  }

  /** The key of `request_month`, as a year and a month. */
  function RequestMonth(t: JalaliDate, from: int, to: int): Month {
    if from > to && t.day <= to then
      if t.month == 1 then Month(t.year - 1, 12) else Month(t.year, t.month - 1)
    else
      Month(t.year, t.month)
  }

  /** A day of the window counts for the last month whose opening day has come. */
  lemma LatestOpening(t: JalaliDate, from: int, to: int)
    requires 1 <= t.month <= 12 && 1 <= t.day && ValidWindow(from, to) && InWindow(t.day, from, to)
    ensures var m := RequestMonth(t, from, to);
            && 1 <= m.month <= 12 && HasOpened(m, t, from)
            && forall n: Month :: HasOpened(n, t, from) ==> MonthNumber(n) <= MonthNumber(m)
  {
  }

  /** Day `from` of the month is not after the date. */
  predicate HasOpened(m: Month, t: JalaliDate, from: int) {
    MonthNumber(m) < MonthNumber(Month(t.year, t.month))
    || (MonthNumber(m) == MonthNumber(Month(t.year, t.month)) && from <= t.day)
  }

  function KeyIndex(t: JalaliDate, from: int, to: int): int {
    MonthNumber(RequestMonth(t, from, to))
  }

  lemma KeyIndexFaithful(a: JalaliDate, b: JalaliDate, from: int, to: int)
    requires RealDate(a) && RealDate(b)
    ensures KeyIndex(a, from, to) == 12 * a.year + a.month - 1 - (if from > to && a.day <= to then 1 else 0)
    ensures KeyIndex(a, from, to) == KeyIndex(b, from, to) <==> RequestMonth(a, from, to) == RequestMonth(b, from, to)
  {
  }

  /** Every real day from `a` to `b` is in the window. */
  ghost predicate Joined(a: JalaliDate, b: JalaliDate, from: int, to: int) {
    forall t :: RealDate(t) && !Before(t, a) && !Before(b, t) ==> InWindow(t.day, from, to)
  }

  /** Requests that count for the same month were submitted in one uninterrupted opening of the window. */
  lemma SameMonthJoined(a: JalaliDate, b: JalaliDate, from: int, to: int)
    requires RealDate(a) && RealDate(b) && !Before(b, a)
    requires InWindow(a.day, from, to) && InWindow(b.day, from, to)
    requires RequestMonth(a, from, to) == RequestMonth(b, from, to)
    ensures Joined(a, b, from, to)
  {
    hide JalaliLeap;
    KeyIndexFaithful(a, b, from, to);
    forall t | RealDate(t) && !Before(t, a) && !Before(b, t)
      ensures InWindow(t.day, from, to)
    {
      MonthsOrdered(a, t);
      MonthsOrdered(t, b);
    }
  }

  lemma MonthsOrdered(a: JalaliDate, b: JalaliDate)
    requires RealDate(a) && RealDate(b) && !Before(b, a)
    ensures 12 * a.year + a.month <= 12 * b.year + b.month
    ensures 12 * a.year + a.month == 12 * b.year + b.month ==> a.year == b.year && a.month == b.month && a.day <= b.day
  {
    hide JalaliLeap;
  }

  /** The day `x` of the month with this index. */
  function DayOfMonth(index: int, x: int): JalaliDate {
    JalaliDate((index - 1) / 12, (index - 1) % 12 + 1, x)
  }

  lemma DayOfMonthReal(index: int, x: int)
    requires 1 <= x <= 29
    ensures RealDate(DayOfMonth(index, x))
    ensures var t := DayOfMonth(index, x); 12 * t.year + t.month == index
  {
    hide JalaliLeap;
  }

  /** A day of the month `index` that comes strictly after `a` and strictly before `b`. */
  lemma DayBetween(a: JalaliDate, b: JalaliDate, index: int, x: int)
    requires RealDate(a) && RealDate(b) && 1 <= x <= 29
    requires 12 * a.year + a.month < index || (12 * a.year + a.month == index && a.day < x)
    requires index < 12 * b.year + b.month || (index == 12 * b.year + b.month && x < b.day)
    ensures var t := DayOfMonth(index, x); RealDate(t) && !Before(t, a) && !Before(b, t)
  {
    hide JalaliLeap;
    DayOfMonthReal(index, x);
    hide DayOfMonth;
  }

  /** If some day of 1..29 is outside the window, an uninterrupted opening counts for a single month. */
  lemma JoinedSameMonth(a: JalaliDate, b: JalaliDate, from: int, to: int, x: int)
    requires RealDate(a) && RealDate(b) && !Before(b, a)
    requires Joined(a, b, from, to)
    requires 1 <= x <= 29 && !InWindow(x, from, to)
    ensures RequestMonth(a, from, to) == RequestMonth(b, from, to)
  {
    hide RequestMonth, RealDate, DayOfMonth;
    KeyIndexFaithful(a, b, from, to);
    MonthsOrdered(a, b);
    if RequestMonth(a, from, to) != RequestMonth(b, from, to) {
      var index := ExcludedMonth(a, b, from, to, x);
      DayBetween(a, b, index, x);
      assert InWindow(DayOfMonth(index, x).day, from, to);
      assert DayOfMonth(index, x).day == x by {
        DayOfMonthDay(index, x);
      }
    }
  }

  lemma DayOfMonthDay(index: int, x: int)
    ensures DayOfMonth(index, x).day == x
  {
  }

  /** Between two days of the window with different months lies the excluded day of some month. */
  lemma ExcludedMonth(a: JalaliDate, b: JalaliDate, from: int, to: int, x: int) returns (index: int)
    requires RealDate(a) && RealDate(b) && !Before(b, a)
    requires InWindow(a.day, from, to) && InWindow(b.day, from, to)
    requires 1 <= x <= 29 && !InWindow(x, from, to)
    requires KeyIndex(a, from, to) != KeyIndex(b, from, to)
    ensures 12 * a.year + a.month < index || (12 * a.year + a.month == index && a.day < x)
    ensures index < 12 * b.year + b.month || (index == 12 * b.year + b.month && x < b.day)
  {
    hide JalaliLeap;
    KeyIndexFaithful(a, b, from, to);
    KeyIndexFaithful(b, a, from, to);
    MonthsOrdered(a, b);
    hide KeyIndex;
    var am, bm := 12 * a.year + a.month, 12 * b.year + b.month;
    index := if a.day < x then am else if x < b.day then bm else am + 1;
  }

  /** The exact condition: openings and months coincide on all dates if and only if some day of 1..29 is excluded. A
      window that holds all of 1..29 has two adjacent days that count for different months. */
  lemma FullWindowSplits(from: int, to: int) returns (a: JalaliDate, b: JalaliDate)
    requires ValidWindow(from, to)
    requires forall x :: 1 <= x <= 29 ==> InWindow(x, from, to)
    ensures RealDate(a) && b == NextJalali(a)
    ensures InWindow(a.day, from, to) && InWindow(b.day, from, to) && Joined(a, b, from, to)
    ensures RequestMonth(a, from, to) != RequestMonth(b, from, to)
  {
    if from == to + 1 {
      a, b := JalaliDate(1404, 1, to), JalaliDate(1404, 1, from);
    } else {
      assert InWindow(1, from, to) && InWindow(29, from, to);
      assert from > to ==> InWindow(to + 1, from, to) || to >= 29;
      a, b := JalaliDate(1404, 12, 29), JalaliDate(1405, 1, 1);
    }
    AdjacentJoined(a, from, to);
  }

  lemma AdjacentJoined(a: JalaliDate, from: int, to: int)
    requires RealDate(a) && InWindow(a.day, from, to) && InWindow(NextJalali(a).day, from, to)
    ensures Joined(a, NextJalali(a), from, to)
  {
    hide JalaliLeap;
    forall t | RealDate(t) && !Before(t, a) && !Before(NextJalali(a), t)
      ensures t == a || t == NextJalali(a)
    {
    }
  }
}
