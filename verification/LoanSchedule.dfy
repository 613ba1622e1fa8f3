/** The instalment schedule of a loan (backend/app/core/loan_rules.py, `parse_month` and `build_installments`). */
module LoanSchedule {
  import opened Common
  import opened Characters
  import opened Strings
  import opened Months

  const MAX_INSTALLMENTS := 120

  datatype Installment = Installment(seqNo: int, dueMonth: string, amount: int)

  /** `UnreadableNumber` is the value error of `int` on a month whose digits are no number; the others are refusals. */
  datatype LoanError =
    | TotalNotPositive
    | UnreadableNumber
    | BadFirstMonth
    | NotExactlyOne
    | CountOutOfRange
    | CountAboveTotal
    | InstallmentNotPositive
    | TooManyInstallments

  // ---------- the first month ----------

  predicate LoanMonth(m: Month) {
    1300 <= m.year <= 1500 && 1 <= m.month <= 12
  }

  function MonthParts(value: string): seq<string> {
    Split(Replace(Strip(EnglishDigits(value)), '-', '/'), '/')
  }

  /** Two parts that `str.isdigit` accepts, at least one of which `int` does not. */
  predicate MonthUnreadable(value: string) {
    var parts := MonthParts(value);
    |parts| == 2 && IsNumeric(parts[0]) && IsNumeric(parts[1]) && !(IsInt(parts[0]) && IsInt(parts[1]))
  }

  /** The month, where reading it raises no error. */
  function ParseMonth(value: string): (r: Option<Month>)
    ensures r.Some? ==> LoanMonth(r.value)
  {
    var parts := MonthParts(value);
    if |parts| != 2 || !IsInt(parts[0]) || !IsInt(parts[1]) then None
    else
      var m := Month(ParseNat(parts[0]), ParseNat(parts[1]));
      if LoanMonth(m) then Some(m) else None
  }

  lemma PlainText(t: string)
    requires t != "" && IsDigit(t[0]) && IsDigit(t[|t| - 1])
    requires forall i :: 0 <= i < |t| ==> IsDigit(t[i]) || t[i] == '/'
    ensures Replace(Strip(EnglishDigits(t)), '-', '/') == t
  {
    hide Strip;
    assert EnglishDigits(t) == t by {
      hide EnglishDigit;
    }
    assert Trimmed(t);
    assert Strip(t) == t;
    assert Replace(t, '-', '/') == t;
  }

  lemma MonthTextParts(m: Month)
    requires Printable(m)
    ensures MonthParts(MonthText(m)) == [Decimal(m.year), TwoDigits(m.month)]
  {
    hide Decimal, TwoDigits, Split, Replace, EnglishDigits, Strip;
    var y, d := Decimal(m.year), TwoDigits(m.month);
    assert '/' !in y && '/' !in d;
    PlainText(y + ['/'] + d);
    SplitCons(y, '/', d);
    assert Split(d, '/') == [d];
  }

  /** A first month written in the documented form is read. */
  lemma {:induction false} FirstMonthReads(m: Month)
    requires LoanMonth(m)
    ensures ParseMonth(MonthText(m)) == Some(m)
  {
    hide Decimal, TwoDigits, MonthParts, ParseNat, MonthText, IsInt;
    MonthTextParts(m);
    PartsRead(m);
  }

  lemma {:induction false} PartsRead(m: Month)
    requires LoanMonth(m)
    ensures IsInt(Decimal(m.year)) && ParseNat(Decimal(m.year)) == m.year
    ensures IsInt(TwoDigits(m.month)) && ParseNat(TwoDigits(m.month)) == m.month
  {
    FourDigits(m.year);
    hide Decimal, TwoDigits, ParseNat;
    ParseDecimal(m.year);
    TwoDigitsRead(m.month);
  }

  /** `1405/` followed by a superscript two makes the conversion raise. */
  lemma {:induction false} SuperscriptMonth()
    ensures MonthUnreadable("1405/\U{B2}")
  {
    hide Split, Strip;
    var value := "1405/\U{B2}";
    assert EnglishDigits(value) == value;
    assert !IsSpace(value[0]) && !IsSpace(value[5]) by { assert !DigitOf('\U{B2}').NoDigit?; }
    assert Trimmed(value);
    assert Replace(value, '-', '/') == value;
    assert value == "1405" + ['/'] + "\U{B2}";
    SplitCons("1405", '/', "\U{B2}");
    assert Split("\U{B2}", '/') == ["\U{B2}"];
    SuperscriptUnreadable();
    assert AllDecimal("1405") && IsNumeric("1405");
  }

  // ---------- which texts are months ----------

  /** A year, a separator and a month, perhaps with white space around them. */
  predicate MonthForm(value: string, before: string, year: string, a: char, month: string, after: string) {
    value == before + year + [a] + month + after && AllSpace(before) && AllSpace(after) && (a == '/' || a == '-')
  }

  /** The text has that form, and these are its year and its month, in digits of any script. */
  ghost predicate WritesMonth(value: string, year: string, month: string) {
    exists before, y, a, m, after ::
      MonthForm(value, before, y, a, m, after) && EnglishDigits(y) == year && EnglishDigits(m) == month
  }

  lemma NumericApart(s: string)
    requires IsNumeric(s)
    ensures '/' !in s && '-' !in s && Trimmed(s)
  {
    assert DigitOf('/').NoDigit? && DigitOf('-').NoDigit?;
    assert !DigitOf(s[0]).NoDigit? && !DigitOf(s[|s| - 1]).NoDigit?;
  }

  lemma {:induction false} PartsExactly(value: string, year: string, month: string)
    requires IsNumeric(year) && IsNumeric(month)
    ensures MonthParts(value) == [year, month] <==> WritesMonth(value, year, month)
  {
    hide MonthParts, WritesMonth;
    if MonthParts(value) == [year, month] {
      PartsWritten(value, year, month);
    }
    if WritesMonth(value, year, month) {
      WrittenParts(value, year, month);
    }
  }

  lemma {:induction false} PartsWritten(value: string, year: string, month: string)
    requires IsNumeric(year) && IsNumeric(month) && MonthParts(value) == [year, month]
    ensures WritesMonth(value, year, month)
  {
    var x, inner, z := InnerParts(value, year, month);
    hide EnglishDigit, EnglishDigits, MonthParts, IsNumeric, AllSpace, WritesMonth;
    PlaceParts(value, x, inner, z, year, month);
  }

  lemma {:induction false} InnerParts(value: string, year: string, month: string)
    returns (x: string, inner: string, z: string)
    requires IsNumeric(year) && IsNumeric(month) && MonthParts(value) == [year, month]
    ensures EnglishDigits(value) == x + inner + z && AllSpace(x) && AllSpace(z)
    ensures |inner| == |year| + 1 + |month| && inner[..|year|] == year && inner[|year| + 1..] == month
    ensures inner[|year|] == '/' || inner[|year|] == '-'
  {
    NumericApart(year);
    NumericApart(month);
    hide Strip, EnglishDigits, IsNumeric, AllSpace, Split;
    x, z := StripCut(EnglishDigits(value));
    inner := Strip(EnglishDigits(value));
    TwoJoined(Replace(inner, '-', '/'), year, month);
    Unreplaced(inner, year, month);
  }

  lemma {:induction false} PlaceParts(value: string, x: string, inner: string, z: string, year: string, month: string)
    requires EnglishDigits(value) == x + inner + z && AllSpace(x) && AllSpace(z)
    requires |inner| == |year| + 1 + |month| && inner[..|year|] == year && inner[|year| + 1..] == month
    requires inner[|year|] == '/' || inner[|year|] == '-'
    ensures WritesMonth(value, year, month)
  {
    hide EnglishDigit, AllSpace;
    var k, i, j := |year|, |x|, |value| - |z|;
    DigitsOf(value, x, inner, z, year, month);
    hide EnglishDigits;
    var before, y, a, m, after := value[..i], value[i..i + k], value[i + k], value[i + k + 1..j], value[j..];
    CutUp(value, i, k, j);
    SpacesBack(before, x);
    SpacesBack(after, z);
    SeparatorBack(a);
    assert MonthForm(value, before, y, a, m, after);
  }

  lemma CutUp(value: string, i: nat, k: nat, j: nat)
    requires i + k < j <= |value|
    ensures value == value[..i] + value[i..i + k] + [value[i + k]] + value[i + k + 1..j] + value[j..]
  {
  }

  lemma EnglishParts(before: string, y: string, a: char, m: string, after: string)
    requires EnglishDigit(a) == a
    ensures EnglishDigits(before + y + [a] + m + after)
         == EnglishDigits(before) + (EnglishDigits(y) + [a] + EnglishDigits(m)) + EnglishDigits(after)
  {
    hide EnglishDigit;
    EnglishConcat(before + y + [a] + m, after);
    EnglishConcat(before + y + [a], m);
    EnglishConcat(before + y, [a]);
    EnglishConcat(before, y);
    assert EnglishDigits([a]) == [a];
    hide EnglishDigits;
    Regrouped(EnglishDigits(before), EnglishDigits(y), [a], EnglishDigits(m), EnglishDigits(after));
  }

  lemma Regrouped(b: string, y: string, a: string, m: string, c: string)
    ensures b + y + a + m + c == b + (y + a + m) + c
  {
  }

  lemma EnglishConcat(s: string, t: string)
    ensures EnglishDigits(s + t) == EnglishDigits(s) + EnglishDigits(t)
  {
    hide EnglishDigit;
  }

  lemma TwoJoined(text: string, year: string, month: string)
    requires Split(text, '/') == [year, month]
    ensures text == year + ['/'] + month
  {
    hide Split;
    SplitJoins(text, '/');
    var one := [month];
    assert [year, month][1..] == one && Join(one, '/') == month;
  }

  lemma {:induction false} Unreplaced(inner: string, year: string, month: string)
    requires Replace(inner, '-', '/') == year + ['/'] + month && '/' !in year && '/' !in month
    ensures var k := |year|;
            && |inner| == k + 1 + |month| && inner[..k] == year && inner[k + 1..] == month
            && (inner[k] == '/' || inner[k] == '-')
  {
    var r, k := Replace(inner, '-', '/'), |year|;
    assert r[..k] == year && r[k] == '/' && r[k + 1..] == month;
    assert Replace(inner[..k], '-', '/') == r[..k] && Replace(inner[k + 1..], '-', '/') == r[k + 1..];
    hide Replace;
    KeptText(inner[..k], year);
    KeptText(inner[k + 1..], month);
  }

  lemma KeptText(s: string, t: string)
    requires Replace(s, '-', '/') == t && '/' !in t
    ensures s == t
  {
    forall i | 0 <= i < |s|
      ensures s[i] == t[i]
    {
      assert t[i] in t;
    }
  }

  lemma {:induction false} DigitsOf(value: string, x: string, inner: string, z: string, year: string, month: string)
    requires EnglishDigits(value) == x + inner + z
    requires |inner| == |year| + 1 + |month| && inner[..|year|] == year && inner[|year| + 1..] == month
    ensures var k, i, j := |year|, |x|, |value| - |z|;
            && j == i + |inner| && EnglishDigits(value[..i]) == x && EnglishDigits(value[j..]) == z
            && EnglishDigits(value[i..i + k]) == year && EnglishDigits(value[i + k + 1..j]) == month
            && EnglishDigit(value[i + k]) == inner[k]
  {
    hide EnglishDigit;
    var e := EnglishDigits(value);
    var k, i := |year|, |x|;
    assert forall n :: 0 <= n < |inner| ==> e[i + n] == inner[n];
    assert forall n :: 0 <= n < |month| ==> inner[k + 1 + n] == month[n];
  }

  lemma SpacesBack(s: string, digits: string)
    requires EnglishDigits(s) == digits
    ensures AllSpace(digits) <==> AllSpace(s)
  {
    forall i | 0 <= i < |s|
      ensures IsSpace(digits[i]) <==> IsSpace(s[i])
    {
      assert digits[i] == EnglishDigit(s[i]);
    }
  }

  lemma SeparatorBack(c: char)
    ensures EnglishDigit(c) == '/' || EnglishDigit(c) == '-' <==> c == '/' || c == '-'
    ensures c == '/' || c == '-' ==> EnglishDigit(c) == c
  {
  }

  lemma {:induction false} WrittenParts(value: string, year: string, month: string)
    requires IsNumeric(year) && IsNumeric(month) && WritesMonth(value, year, month)
    ensures MonthParts(value) == [year, month]
  {
    NumericApart(year);
    NumericApart(month);
    var before, y, a, m, after :|
      MonthForm(value, before, y, a, m, after) && EnglishDigits(y) == year && EnglishDigits(m) == month;
    hide Strip, EnglishDigit, EnglishDigits, AllSpace, Split, Replace;
    SpacesBack(before, EnglishDigits(before));
    SpacesBack(after, EnglishDigits(after));
    SeparatorBack(a);
    EnglishParts(before, y, a, m, after);
    var inner := year + [a] + month;
    assert inner[0] == year[0] && inner[|inner| - 1] == month[|month| - 1];
    StripSpaces(EnglishDigits(before), inner, EnglishDigits(after));
    ReplacedText(year, a, month);
    SplitCons(year, '/', month);
  }

  lemma ReplacedText(year: string, a: char, month: string)
    requires '-' !in year && '-' !in month && (a == '/' || a == '-')
    ensures Replace(year + [a] + month, '-', '/') == year + ['/'] + month
  {
    var t := year + [a] + month;
    forall i | 0 <= i < |t|
      ensures Replace(t, '-', '/')[i] == (year + ['/'] + month)[i]
    {
      assert i < |year| ==> t[i] in year;
      assert i > |year| ==> t[i] in month;
    }
  }

  /** Exactly the texts that write a month of 1300 to 1500 are read, each as that month. */
  lemma {:induction false} MonthExactly(value: string, m: Month)
    ensures ParseMonth(value) == Some(m)
       <==> LoanMonth(m)
            && exists year, month :: WritesMonth(value, year, month) && IsInt(year) && IsInt(month)
                                     && ParseNat(year) == m.year && ParseNat(month) == m.month
  {
    hide MonthParts, WritesMonth, ParseNat, IsInt, IsNumeric;
    var parts := MonthParts(value);
    if ParseMonth(value) == Some(m) {
      assert parts == [parts[0], parts[1]];
      IntNumeric(parts[0]);
      IntNumeric(parts[1]);
      PartsExactly(value, parts[0], parts[1]);
    }
    forall year, month | WritesMonth(value, year, month) && IsInt(year) && IsInt(month)
      ensures parts == [year, month]
    {
      IntNumeric(year);
      IntNumeric(month);
      PartsExactly(value, year, month);
    }
  }

  /** Exactly the texts raise that write two numbers of which one only passes for digits. */
  lemma {:induction false} UnreadableExactly(value: string)
    ensures MonthUnreadable(value)
       <==> exists year, month :: WritesMonth(value, year, month) && IsNumeric(year) && IsNumeric(month)
                                  && (Unreadable(year) || Unreadable(month))
  {
    hide MonthParts, WritesMonth, IsInt, IsNumeric;
    var parts := MonthParts(value);
    if MonthUnreadable(value) {
      assert parts == [parts[0], parts[1]];
      PartsExactly(value, parts[0], parts[1]);
    }
    forall year, month | WritesMonth(value, year, month) && IsNumeric(year) && IsNumeric(month)
      ensures parts == [year, month]
    {
      PartsExactly(value, year, month);
    }
  }

  // ---------- the schedule ----------

  function Sum(amounts: seq<int>): int {
    if amounts == [] then 0 else Sum(amounts[..|amounts| - 1]) + amounts[|amounts| - 1]
  }

  function Amounts(plan: seq<Installment>): (a: seq<int>)
    ensures |a| == |plan| && forall i :: 0 <= i < |plan| ==> a[i] == plan[i].amount
  {
    seq(|plan|, i requires 0 <= i < |plan| => plan[i].amount)
  }

  lemma {:induction false} SumEqual(amounts: seq<int>, each: int)
    requires forall i :: 0 <= i < |amounts| ==> amounts[i] == each
    ensures Sum(amounts) == |amounts| * each
  {
    if amounts != [] {
      SumEqual(amounts[..|amounts| - 1], each);
      assert |amounts| * each == (|amounts| - 1) * each + each;
    }
  }

  lemma {:induction false} LevelSum(amounts: seq<int>, each: int)
    requires amounts != [] && forall i :: 0 <= i < |amounts| - 1 ==> amounts[i] == each
    ensures Sum(amounts) == (|amounts| - 1) * each + amounts[|amounts| - 1]
  {
    SumEqual(amounts[..|amounts| - 1], each);
  }

  /** All amounts are positive, they add up to the loan, and all but the last are `each`. */
  predicate Pays(amounts: seq<int>, total: int, each: int) {
    && amounts != []
    && Sum(amounts) == total
    && (forall i :: 0 <= i < |amounts| ==> amounts[i] > 0)
    && (forall i :: 0 <= i < |amounts| - 1 ==> amounts[i] == each)
  }

  /** Shares by number: the last one takes what the division leaves, less than one unit for each instalment. */
  predicate ByCount(amounts: seq<int>, total: int, count: int, each: int) {
    && |amounts| == count
    && Pays(amounts, total, each)
    && each <= amounts[count - 1] < each + count
  }

  /** Shares by amount: every instalment is full but the last, which is what remains. */
  predicate ByAmount(amounts: seq<int>, total: int, perAmount: int) {
    && Pays(amounts, total, perAmount)
    && amounts[|amounts| - 1] <= perAmount
  }

  /** Instalments are numbered from 1 and fall due in consecutive calendar months. */
  predicate Monthly(plan: seq<Installment>, first: Month) {
    forall i :: 0 <= i < |plan| ==>
      var due := MonthOf(MonthNumber(first) + i);
      plan[i].seqNo == i + 1 && Printable(due) && plan[i].dueMonth == MonthText(due)
  }

  /** There is only one way to share out a loan by number. */
  lemma OneWayByCount(a: seq<int>, b: seq<int>, total: int, count: int, each: int, other: int)
    requires ByCount(a, total, count, each) && ByCount(b, total, count, other)
    ensures a == b
  {
    LevelSum(a, each);
    LevelSum(b, other);
    assert total == count * each + (a[count - 1] - each) by { assert (count - 1) * each == count * each - each; }
    assert total == count * other + (b[count - 1] - other) by { assert (count - 1) * other == count * other - other; }
    Arithmetic.DivisionUnique(total, count, each, a[count - 1] - each);
    Arithmetic.DivisionUnique(total, count, other, b[count - 1] - other);
  }

  /** By amount there is only one way too, and its length is the loan divided by the amount, rounded up. */
  lemma OneWayByAmount(a: seq<int>, total: int, perAmount: int)
    requires perAmount > 0 && ByAmount(a, total, perAmount)
    ensures |a| == (total + perAmount - 1) / perAmount
    ensures a[|a| - 1] == total - perAmount * (|a| - 1)
  {
    var n := |a|;
    LevelSum(a, perAmount);
    assert n * perAmount == (n - 1) * perAmount + perAmount;
    Arithmetic.DivisionUnique(total + perAmount - 1, perAmount, n, a[n - 1] - 1);
  }

  /** Sharing by the amount that the division by a number gives, rounded up, never needs more instalments. */
  lemma RoundedShareSuffices(a: seq<int>, total: int, count: int)
    requires total > 0 && count > 0 && ByAmount(a, total, (total + count - 1) / count)
    ensures |a| <= count
  {
    var per := (total + count - 1) / count;
    assert total + count - 1 == per * count + (total + count - 1) % count;
    assert per * count >= total;
    LevelSum(a, per);
    if |a| > count {
      Arithmetic.ScaleMonotone(count, |a| - 1, per);
    }
  }

  function Ceiling(total: int, per: int): int
    requires per > 0
  {
    -((-total) / per)
  }

  lemma CeilingBounds(total: int, per: int)
    requires total > 0 && per > 0
    ensures var n := Ceiling(total, per);
            n >= 1 && 0 < total - per * (n - 1) <= per && n == (total + per - 1) / per
  {
    var n := Ceiling(total, per);
    assert -total == (-total) / per * per + (-total) % per;
    assert n * per == total + (-total) % per;
    assert (n - 1) * per == n * per - per;
    if n < 1 {
      Arithmetic.ScaleMonotone(n, 0, per);
    }
    Arithmetic.DivisionUnique(total + per - 1, per, n, total + per - 1 - n * per);
  }

  /** The error that a request for a schedule meets first, if any. */
  function Refusal(total: Option<int>, count: Option<int>, perAmount: Option<int>, firstMonth: string): Option<LoanError> {
    if total == None || total.value <= 0 then Some(TotalNotPositive)
    else if MonthUnreadable(firstMonth) then Some(UnreadableNumber)
    else if ParseMonth(firstMonth) == None then Some(BadFirstMonth)
    else if count.None? <==> perAmount.None? then Some(NotExactlyOne)
    else if count.Some? && !(1 <= count.value <= MAX_INSTALLMENTS) then Some(CountOutOfRange)
    else if count.Some? && count.value > total.value then Some(CountAboveTotal)
    else if perAmount.Some? && perAmount.value <= 0 then Some(InstallmentNotPositive)
    else if perAmount.Some? && total.value > MAX_INSTALLMENTS * perAmount.value then Some(TooManyInstallments)
    else None
  }

  /** What is wrong with a request for a schedule, each thing for itself. */
  predicate Wrong(error: LoanError, total: Option<int>, count: Option<int>, perAmount: Option<int>, firstMonth: string) {
    match error
    case TotalNotPositive => !(total.Some? && total.value > 0)
    case UnreadableNumber => MonthUnreadable(firstMonth)
    case BadFirstMonth => ParseMonth(firstMonth) == None
    case NotExactlyOne => (count.Some? && perAmount.Some?) || (count.None? && perAmount.None?)
    case CountOutOfRange => count.Some? && (count.value < 1 || count.value > 120)
    case CountAboveTotal => count.Some? && total.Some? && count.value > total.value
    case InstallmentNotPositive => perAmount.Some? && perAmount.value < 1
    case TooManyInstallments => perAmount.Some? && total.Some? && 120 * perAmount.value < total.value
  }

  function Turn(error: LoanError): nat {
    match error
    case TotalNotPositive => 0
    case UnreadableNumber => 1
    case BadFirstMonth => 2
    case NotExactlyOne => 3
    case CountOutOfRange => 4
    case CountAboveTotal => 5
    case InstallmentNotPositive => 6
    case TooManyInstallments => 7
  }

  /** A request is refused exactly when something is wrong with it, and the error is the first thing that is. */
  lemma {:induction false} RefusedExactly(
    total: Option<int>, count: Option<int>, perAmount: Option<int>, firstMonth: string, error: LoanError
  )
    ensures Refusal(total, count, perAmount, firstMonth) == None
       <==> forall e :: !Wrong(e, total, count, perAmount, firstMonth)
    ensures Refusal(total, count, perAmount, firstMonth) == Some(error)
       <==> && Wrong(error, total, count, perAmount, firstMonth)
            && forall e :: Turn(e) < Turn(error) ==> !Wrong(e, total, count, perAmount, firstMonth)
  {
    hide ParseMonth, MonthUnreadable;
    var given := Refusal(total, count, perAmount, firstMonth);
    forall e | given.None? || Turn(e) < Turn(given.value)
      ensures !Wrong(e, total, count, perAmount, firstMonth)
    {
    }
    assert given.Some? ==> Wrong(given.value, total, count, perAmount, firstMonth);
    assert given.Some? && given.value != error ==> Turn(given.value) != Turn(error);
    hide Wrong, Refusal, Turn;
  }

  lemma SharesByCount(total: int, count: int)
    requires 1 <= count <= total
    ensures var base := total / count;
            base >= 1 && base <= base + (total - base * count) < base + count
  {
    var base := total / count;
    assert total == base * count + total % count;
    Arithmetic.Quotients(1, count, total);
  }

  lemma LevelByCount(amounts: seq<int>, total: int, count: int)
    requires 1 <= count <= total
    requires |amounts| == count && forall i :: 0 <= i < count - 1 ==> amounts[i] == total / count
    requires amounts[count - 1] == total / count + (total - total / count * count)
    ensures ByCount(amounts, total, count, total / count)
  {
    SharesByCount(total, count);
    LevelSum(amounts, total / count);
    assert (count - 1) * (total / count) == total / count * count - total / count;
  }

  lemma LevelByAmount(amounts: seq<int>, total: int, per: int)
    requires total > 0 && per > 0
    requires |amounts| == Ceiling(total, per) && forall i :: 0 <= i < |amounts| - 1 ==> amounts[i] == per
    requires amounts != [] ==> amounts[|amounts| - 1] == total - per * (|amounts| - 1)
    ensures ByAmount(amounts, total, per)
  {
    CeilingBounds(total, per);
    LevelSum(amounts, per);
  }

  method BuildInstallments(total: Option<int>, count: Option<int>, perAmount: Option<int>, firstMonth: string)
    returns (r: Result<seq<Installment>, LoanError>)
    ensures
      match Refusal(total, count, perAmount, firstMonth)
      case Some(error) => r == Err(error)
      case None =>
        && r.Ok?
        && Monthly(r.value, ParseMonth(firstMonth).value)
        && |r.value| <= MAX_INSTALLMENTS
        && (count.Some? ==> exists each :: ByCount(Amounts(r.value), total.value, count.value, each))
        && (perAmount.Some? ==> ByAmount(Amounts(r.value), total.value, perAmount.value))
  {
    hide ParseMonth, MonthUnreadable, MonthText, ByCount, ByAmount, Ceiling, Monthly;
    if total == None || total.value <= 0 {
      return Err(TotalNotPositive);
    }
    if MonthUnreadable(firstMonth) {
      return Err(UnreadableNumber);
    }
    var start := ParseMonth(firstMonth);
    if start == None {
      return Err(BadFirstMonth);
    }
    if count.None? <==> perAmount.None? {
      return Err(NotExactlyOne);
    }
    var amounts: seq<int>;
    ghost var each: int;
    if count.Some? {
      var n := count.value;
      if !(1 <= n <= MAX_INSTALLMENTS) {
        return Err(CountOutOfRange);
      }
      if n > total.value {
        return Err(CountAboveTotal);
      }
      var base := total.value / n;
      amounts := seq(n, i => base);
      amounts := amounts[n - 1 := amounts[n - 1] + (total.value - base * n)];
      each := base;
      LevelByCount(amounts, total.value, n);
    } else {
      var per := perAmount.value;
      if per <= 0 {
        return Err(InstallmentNotPositive);
      }
      var n := Ceiling(total.value, per);
      CeilingBounds(total.value, per);
      TooMany(total.value, per);
      if n > MAX_INSTALLMENTS {
        return Err(TooManyInstallments);
      }
      amounts := seq(n, i => per);
      amounts := amounts[n - 1 := total.value - per * (n - 1)];
      each := per;
      LevelByAmount(amounts, total.value, per);
    }
    var plan := DueMonthly(amounts, start.value);
    assert Amounts(plan) == amounts;
    r := Ok(plan);
  }

  lemma TooMany(total: int, per: int)
    requires total > 0 && per > 0
    ensures Ceiling(total, per) > MAX_INSTALLMENTS <==> total > MAX_INSTALLMENTS * per
  {
    var n := Ceiling(total, per);
    CeilingBounds(total, per);
    if n > MAX_INSTALLMENTS {
      Arithmetic.ScaleMonotone(MAX_INSTALLMENTS, n - 1, per);
    } else {
      Arithmetic.ScaleMonotone(n, MAX_INSTALLMENTS, per);
      assert per * (n - 1) == n * per - per;
    }
  }

  /** Ten years on from a month that is read, the year still has four digits. */
  lemma YearWithin(first: Month, i: nat, y: int, m: int)
    requires LoanMonth(first) && i < 120 && 1 <= m <= 12 && MonthNumber(Month(y, m)) == MonthNumber(first) + i
    ensures Printable(Month(y, m))
  {
  }

  method DueMonthly(amounts: seq<int>, first: Month) returns (plan: seq<Installment>)
    requires LoanMonth(first) && |amounts| <= MAX_INSTALLMENTS
    ensures |plan| == |amounts| && Monthly(plan, first)
    ensures forall i :: 0 <= i < |plan| ==> plan[i].amount == amounts[i]
  {
    hide MonthText;
    var y, m := first.year, first.month;
    plan := [];
    for i := 0 to |amounts|
      invariant |plan| == i && Monthly(plan, first)
      invariant forall j :: 0 <= j < i ==> plan[j].amount == amounts[j]
      invariant y >= 1300 && 1 <= m <= 12 && MonthNumber(Month(y, m)) == MonthNumber(first) + i
    {
      MonthOfNumber(Month(y, m));
      assert MonthOf(MonthNumber(first) + i) == Month(y, m);
      YearWithin(first, i, y, m);
      plan := plan + [Installment(i + 1, MonthText(Month(y, m)), amounts[i])];
      if m == 12 {
        y, m := y + 1, 1;
      } else {
        m := m + 1;
      }
    }
  }

  /** The due months of a schedule increase as text too; and a payslip's month stands before the due month of an
      instalment, as the comparison of the two texts says, exactly when the instalment is not yet due. */
  lemma DueMonthsOrdered(plan: seq<Installment>, first: Month, i: nat, j: nat, payslip: Month)
    requires LoanMonth(first) && Monthly(plan, first) && i < j < |plan| && Printable(payslip)
    ensures |plan[i].dueMonth| == |plan[j].dueMonth| == |MonthText(payslip)|
    ensures TextBefore(plan[i].dueMonth, plan[j].dueMonth)
    ensures TextBefore(MonthText(payslip), plan[i].dueMonth) <==> MonthNumber(payslip) < MonthNumber(first) + i
  {
    hide MonthText, TextBefore;
    var a, b := MonthOf(MonthNumber(first) + i), MonthOf(MonthNumber(first) + j);
    assert plan[i].dueMonth == MonthText(a) && plan[j].dueMonth == MonthText(b);
    MonthTextOrdered(a, b);
    MonthTextOrdered(payslip, a);
  }
}
