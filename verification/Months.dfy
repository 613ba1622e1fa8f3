/** Months of the Jalali calendar as keys: numbered from month 1 of year 0, and as the text `YYYY/MM`. */
module Months {
  import opened Strings
  import Arithmetic

  datatype Month = Month(year: int, month: int)

  /** Consecutive months have consecutive numbers, across year ends too. */
  function MonthNumber(m: Month): int {
    m.year * 12 + m.month - 1
  }

  function MonthOf(number: int): (m: Month)
    ensures 1 <= m.month <= 12 && MonthNumber(m) == number
  {
    Month(number / 12, number % 12 + 1)
  }

  lemma MonthOfNumber(m: Month)
    requires 1 <= m.month <= 12
    ensures MonthOf(MonthNumber(m)) == m
  {
    Arithmetic.DivisionUnique(MonthNumber(m), 12, m.year, m.month - 1);
  }

  /** A month whose year has four digits. */
  predicate Printable(m: Month) {
    1000 <= m.year < 10000 && 1 <= m.month <= 12
  }

  /** `{y:04d}/{m:02d}`. */
  function MonthText(m: Month): string
    requires Printable(m)
  {
    Decimal(m.year) + ['/'] + TwoDigits(m.month)
  }

  /** Months compare as text exactly as they do in time, so that equal texts are equal months. */
  lemma {:induction false} MonthTextOrdered(a: Month, b: Month)
    requires Printable(a) && Printable(b)
    ensures |MonthText(a)| == |MonthText(b)|
    ensures TextBefore(MonthText(a), MonthText(b)) <==> MonthNumber(a) < MonthNumber(b)
    ensures MonthText(a) == MonthText(b) <==> a == b
  {
    hide Decimal, TwoDigits, TextBefore;
    FourDigitsOrdered(a.year, b.year);
    TwoDigitsOrdered(a.month, b.month);
    var x, y := ['/'] + TwoDigits(a.month), ['/'] + TwoDigits(b.month);
    TextBeforeSlash(TwoDigits(a.month), TwoDigits(b.month));
    TextBeforeAppend(Decimal(a.year), Decimal(b.year), x, y);
    assert MonthText(a) == Decimal(a.year) + x && MonthText(b) == Decimal(b.year) + y;
    if MonthText(a) == MonthText(b) {
      assert MonthText(a)[..4] == Decimal(a.year) && MonthText(b)[..4] == Decimal(b.year);
      assert MonthText(a)[5..] == TwoDigits(a.month) && MonthText(b)[5..] == TwoDigits(b.month);
    }
  }
}
