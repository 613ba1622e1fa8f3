/**
 Jalali dates as the rules use them: as text, shifted by months, and as ages (backend/app/core/family_rules.py,
 `parse_jalali`, `format_jalali`, `add_months`, `age_on`).
 */
module JalaliDates {
  import opened Common
  import opened Characters
  import opened Strings
  import opened JalaliCalendar
  import opened Months

  // ---------- text ----------

  predicate IsDateSeparator(c: char) {
    c == '/' || c == '-' || c == '.'
  }

  /** One or two digits. */
  predicate ShortNumber(s: string) {
    1 <= |s| <= 2 && AllDecimal(s)
  }

  datatype Fields = Fields(year: string, month: string, day: string)

  predicate FieldsForm(f: Fields) {
    |f.year| == 4 && AllDecimal(f.year) && ShortNumber(f.month) && ShortNumber(f.day)
  }

  /** The month and the day after the year and its separator. */
  function SplitRest(year: string, rest: string): (f: Option<Fields>)
    requires |year| == 4 && AllDecimal(year)
    ensures f.Some? ==> FieldsForm(f.value)
  {
    var width := if |rest| > 1 && IsDateSeparator(rest[1]) then 1 else 2;
    if |rest| > width && IsDateSeparator(rest[width]) && ShortNumber(rest[..width]) && ShortNumber(rest[width + 1..])
    then Some(Fields(year, rest[..width], rest[width + 1..]))
    else None
  }

  /** Year, month and day with separators, or eight digits in a row. */
  function DateFields(text: string): (f: Option<Fields>)
    ensures f.Some? ==> FieldsForm(f.value)
  {
    if |text| == 8 && AllDecimal(text) then Some(Fields(text[..4], text[4..6], text[6..]))
    else if |text| > 4 && AllDecimal(text[..4]) && IsDateSeparator(text[4]) then SplitRest(text[..4], text[5..])
    else None
  }

  /** What is read from text: the years 1300 to 1500, and 30 Esfand in every year. */
  predicate Readable(t: JalaliDate) {
    1300 <= t.year <= 1500 && Accepted(t)
  }

  function ParseJalali(value: string): (r: Option<JalaliDate>)
    ensures r.Some? ==> Readable(r.value)
  {
    var f := DateFields(Strip(EnglishDigits(value)));
    if f.None? then None
    else
      var t := JalaliDate(ParseNat(f.value.year), ParseNat(f.value.month), ParseNat(f.value.day));
      if Readable(t) then Some(t) else None
  }

  /** `{y:04d}/{m:02d}/{d:02d}`, for years of four digits. */
  function FormatJalali(t: JalaliDate): string
    requires Readable(t)
  {
    Decimal(t.year) + ['/'] + TwoDigits(t.month) + ['/'] + TwoDigits(t.day)
  }

  /** Digits of any script that read as `n`. */
  predicate Reads(text: string, n: int) {
    var digits := EnglishDigits(text);
    digits != "" && AllDecimal(digits) && ParseNat(digits) == n
  }

  lemma {:induction false} PrintedReads(digits: string, n: nat)
    requires digits == Decimal(n) || (n < 100 && digits == TwoDigits(n))
    ensures Reads(digits, n)
  {
    ParseDecimal(n);
    if n < 100 {
      TwoDigitsRead(n);
    }
    assert IsDigits(digits);
    hide Decimal, TwoDigits;
    assert EnglishDigits(digits) == digits;
  }

  lemma DigitEnds(text: string)
    requires text != "" && IsDecimal(text[0]) && IsDecimal(text[|text| - 1])
    ensures Strip(text) == text
  {
    assert Trimmed(text);
  }

  lemma SeparatedFields(year: string, a: char, month: string, b: char, day: string)
    requires |year| == 4 && AllDecimal(year) && ShortNumber(month) && ShortNumber(day)
    requires IsDateSeparator(a) && IsDateSeparator(b)
    ensures DateFields(year + [a] + month + [b] + day) == Some(Fields(year, month, day))
  {
    var text, rest := year + [a] + month + [b] + day, month + [b] + day;
    assert text[..4] == year && text[4] == a && text[5..] == rest;
    assert rest[..|month|] == month && rest[|month|] == b && rest[|month| + 1..] == day;
    hide SplitRest;
    RestFields(year, month, b, day);
  }

  lemma RestFields(year: string, month: string, b: char, day: string)
    requires |year| == 4 && AllDecimal(year) && ShortNumber(month) && ShortNumber(day) && IsDateSeparator(b)
    ensures SplitRest(year, month + [b] + day) == Some(Fields(year, month, day))
  {
    var rest := month + [b] + day;
    assert rest[..|month|] == month && rest[|month|] == b && rest[|month| + 1..] == day;
  }

  lemma EnglishParts(year: string, a: char, month: string, b: char, day: string)
    requires IsDateSeparator(a) && IsDateSeparator(b)
    ensures EnglishDigits(year + [a] + month + [b] + day)
         == EnglishDigits(year) + [a] + EnglishDigits(month) + [b] + EnglishDigits(day)
    ensures EnglishDigits(year + month + day) == EnglishDigits(year) + EnglishDigits(month) + EnglishDigits(day)
  {
    assert EnglishDigit(a) == a && EnglishDigit(b) == b;
    hide EnglishDigit;
  }

  /** A date is read in every form that people enter it: in digits of any script, with any of the three separators, also
      mixed, and month and day with one or two digits. */
  lemma {:induction false} SeparatedReads(t: JalaliDate, year: string, a: char, month: string, b: char, day: string)
    requires Readable(t) && Reads(year, t.year) && Reads(month, t.month) && Reads(day, t.day)
    requires |year| == 4 && |month| <= 2 && |day| <= 2
    requires IsDateSeparator(a) && IsDateSeparator(b)
    ensures ParseJalali(year + [a] + month + [b] + day) == Some(t)
  {
    hide Strip, ParseNat, DateFields, EnglishDigit;
    var y, m, d := EnglishDigits(year), EnglishDigits(month), EnglishDigits(day);
    EnglishParts(year, a, month, b, day);
    DigitEnds(y + [a] + m + [b] + d);
    SeparatedFields(y, a, m, b, d);
  }

  /** Eight digits in a row are a date too. */
  lemma {:induction false} CompactReads(t: JalaliDate, year: string, month: string, day: string)
    requires Readable(t) && Reads(year, t.year) && Reads(month, t.month) && Reads(day, t.day)
    requires |year| == 4 && |month| == 2 && |day| == 2
    ensures ParseJalali(year + month + day) == Some(t)
  {
    hide Strip, ParseNat, EnglishDigit;
    var y, m, d := EnglishDigits(year), EnglishDigits(month), EnglishDigits(day);
    EnglishParts(year, '/', month, '/', day);
    var text := y + m + d;
    DigitEnds(text);
    assert text[..4] == y && text[4..6] == m && text[6..] == d;
  }

  // ---------- which texts are dates ----------

  /** The text is a year of four digits, a month and a day, with two separators between them; or all eight digits in a row. */
  predicate Written(text: string, year: string, a: char, month: string, b: char, day: string) {
    && |year| == 4 && 1 <= |month| <= 2 && 1 <= |day| <= 2
    && ((IsDateSeparator(a) && IsDateSeparator(b) && text == year + [a] + month + [b] + day)
        || (|month| == 2 && |day| == 2 && text == year + month + day))
  }

  /** The text is such a date, perhaps with white space around it, and its numbers are those of `t`. */
  ghost predicate IsDateText(value: string, t: JalaliDate) {
    exists before, text, after, year, a, month, b, day ::
      && Around(value, before, text, after) && Written(text, year, a, month, b, day)
      && Reads(year, t.year) && Reads(month, t.month) && Reads(day, t.day)
  }

  predicate Around(value: string, before: string, text: string, after: string) {
    value == before + text + after && AllSpace(before) && AllSpace(after)
  }

  /** Exactly these texts are read, each as the date that it is; and only dates of 1300 to 1500. Everything else is refused. */
  lemma {:induction false} ParseExactly(value: string, t: JalaliDate)
    ensures ParseJalali(value) == Some(t) <==> Readable(t) && IsDateText(value, t)
  {
    hide Readable, IsDateText;
    if ParseJalali(value) == Some(t) {
      ParsedText(value, t);
    }
    if Readable(t) && IsDateText(value, t) {
      TextParsed(value, t);
    }
  }

  lemma {:induction false} TextParsed(value: string, t: JalaliDate)
    requires Readable(t) && IsDateText(value, t)
    ensures ParseJalali(value) == Some(t)
  {
    hide Written, ParseJalali;
    var before, text, after, year, a, month, b, day :|
      && Around(value, before, text, after) && Written(text, year, a, month, b, day)
      && Reads(year, t.year) && Reads(month, t.month) && Reads(day, t.day);
    WrittenParsed(t, text, year, a, month, b, day);
    SpacesParsed(before, text, after, t);
  }

  lemma {:induction false} WrittenParsed(t: JalaliDate, text: string, year: string, a: char, month: string, b: char, day: string)
    requires Readable(t) && Written(text, year, a, month, b, day)
    requires Reads(year, t.year) && Reads(month, t.month) && Reads(day, t.day)
    ensures ParseJalali(text) == Some(t) && text != "" && Trimmed(EnglishDigits(text))
  {
    hide Readable, ParseJalali, ParseNat;
    if IsDateSeparator(a) && IsDateSeparator(b) && text == year + [a] + month + [b] + day {
      SeparatedReads(t, year, a, month, b, day);
      hide Reads;
      assert text[0] == year[0] && text[|text| - 1] == day[|day| - 1];
      DigitEdges(year, day, text, t);
    } else {
      CompactReads(t, year, month, day);
      assert text[0] == year[0] && text[|text| - 1] == day[|day| - 1];
      DigitEdges(year, day, text, t);
    }
  }

  lemma {:induction false} DigitEdges(year: string, day: string, text: string, t: JalaliDate)
    requires Reads(year, t.year) && Reads(day, t.day)
    requires text != "" && year != "" && day != "" && text[0] == year[0] && text[|text| - 1] == day[|day| - 1]
    ensures Trimmed(EnglishDigits(text))
  {
    hide EnglishDigit;
    var y, d := EnglishDigits(year), EnglishDigits(day);
    assert EnglishDigits(text)[0] == y[0] && EnglishDigits(text)[|text| - 1] == d[|day| - 1];
  }

  lemma SpaceKept(c: char)
    ensures IsSpace(EnglishDigit(c)) <==> IsSpace(c)
    ensures IsDateSeparator(EnglishDigit(c)) <==> IsDateSeparator(c)
    ensures IsSpace(c) || IsDateSeparator(c) ==> EnglishDigit(c) == c
  {
  }

  lemma SpacesKept(s: string)
    ensures AllSpace(EnglishDigits(s)) <==> AllSpace(s)
  {
    hide EnglishDigit;
    forall i | 0 <= i < |s|
      ensures IsSpace(EnglishDigits(s)[i]) <==> IsSpace(s[i])
    {
      SpaceKept(s[i]);
    }
  }

  lemma {:induction false} SpacesParsed(before: string, text: string, after: string, t: JalaliDate)
    requires AllSpace(before) && AllSpace(after) && text != "" && Trimmed(EnglishDigits(text))
    ensures ParseJalali(before + text + after) == ParseJalali(text)
  {
    hide Strip, EnglishDigit, DateFields;
    SpacesKept(before);
    SpacesKept(after);
    var x, y, z := EnglishDigits(before), EnglishDigits(text), EnglishDigits(after);
    assert EnglishDigits(before + text + after) == x + y + z;
    StripSpaces(x, y, z);
  }

  lemma {:induction false} ParsedText(value: string, t: JalaliDate)
    requires ParseJalali(value) == Some(t)
    ensures Readable(t) && IsDateText(value, t)
  {
    hide Strip, EnglishDigit, Readable, Written, ParseNat, DateFields;
    var digits := EnglishDigits(value);
    var f := DateFields(Strip(digits)).value;
    var x, z := StripCut(digits);
    var i, j := |x|, |value| - |z|;
    var before, text, after := value[..i], value[i..j], value[j..];
    assert value == before + text + after;
    assert EnglishDigits(before) == x && EnglishDigits(after) == z && EnglishDigits(text) == Strip(digits);
    SpacesKept(before);
    SpacesKept(after);
    var year, a, month, b, day := FieldsWritten(text, f);
    assert Around(value, before, text, after);
  }

  /** The fields that were found are the digits of parts of the text. */
  lemma {:induction false} FieldsWritten(text: string, f: Fields)
    returns (year: string, a: char, month: string, b: char, day: string)
    requires DateFields(EnglishDigits(text)) == Some(f)
    ensures Written(text, year, a, month, b, day)
    ensures EnglishDigits(year) == f.year && EnglishDigits(month) == f.month && EnglishDigits(day) == f.day
  {
    hide EnglishDigit;
    var e := EnglishDigits(text);
    year := text[..4];
    if |e| == 8 && AllDecimal(e) {
      a, month, b, day := '/', text[4..6], '/', text[6..];
      assert text == year + month + day;
    } else {
      a := text[4];
      SpaceKept(a);
      var rest := text[5..];
      assert EnglishDigits(rest) == e[5..] && EnglishDigits(year) == e[..4];
      month, b, day := RestWritten(e[..4], rest, f);
      assert text == year + [a] + rest;
      assert text == year + [a] + month + [b] + day;
    }
  }

  lemma {:induction false} RestWritten(digits: string, rest: string, f: Fields) returns (month: string, b: char, day: string)
    requires |digits| == 4 && AllDecimal(digits) && SplitRest(digits, EnglishDigits(rest)) == Some(f)
    ensures rest == month + [b] + day && IsDateSeparator(b) && 1 <= |month| <= 2 && 1 <= |day| <= 2
    ensures f.year == digits && EnglishDigits(month) == f.month && EnglishDigits(day) == f.day
  {
    hide EnglishDigit;
    var e := EnglishDigits(rest);
    var width := if |e| > 1 && IsDateSeparator(e[1]) then 1 else 2;
    month, b, day := rest[..width], rest[width], rest[width + 1..];
    SpaceKept(b);
  }

  lemma {:induction false} FourWide(n: nat)
    requires 1000 <= n < 10000
    ensures |Decimal(n)| == 4
  {
    FourDigits(n);
  }

  /** A date written out reads back as the same date. */
  lemma FormatReads(t: JalaliDate)
    requires Readable(t)
    ensures ParseJalali(FormatJalali(t)) == Some(t)
  {
    hide ParseJalali, Decimal, TwoDigits, Reads;
    FourWide(t.year);
    PrintedReads(Decimal(t.year), t.year);
    PrintedReads(TwoDigits(t.month), t.month);
    PrintedReads(TwoDigits(t.day), t.day);
    SeparatedReads(t, Decimal(t.year), '/', TwoDigits(t.month), '/', TwoDigits(t.day));
  }

  /** `normalize_date` of loan_rules.py: the date rewritten in the one form that is stored. */
  function NormalizeDate(value: string): Option<string> {
    var t := ParseJalali(value);
    if t.None? then None else Some(FormatJalali(t.value))
  }

  /** Normalising a normalised date changes nothing. */
  lemma NormalizeStable(value: string)
    requires NormalizeDate(value).Some?
    ensures NormalizeDate(NormalizeDate(value).value) == NormalizeDate(value)
  {
    hide ParseJalali, FormatJalali;
    FormatReads(ParseJalali(value).value);
  }

  /** Stored dates compare as text exactly as they do as dates, which is what the queries on `effective_from` rest on. */
  lemma FormatOrdered(a: JalaliDate, b: JalaliDate)
    requires Readable(a) && Readable(b)
    ensures |FormatJalali(a)| == |FormatJalali(b)|
    ensures TextBefore(FormatJalali(a), FormatJalali(b)) <==> Before(a, b)
    ensures FormatJalali(a) == FormatJalali(b) <==> a == b
  {
    hide Decimal, TwoDigits, TextBefore, ParseJalali;
    FourDigitsOrdered(a.year, b.year);
    TwoDigitsOrdered(a.month, b.month);
    TwoDigitsOrdered(a.day, b.day);
    var dayA, dayB := TwoDigits(a.day), TwoDigits(b.day);
    var monthA, monthB := TwoDigits(a.month) + (['/'] + dayA), TwoDigits(b.month) + (['/'] + dayB);
    assert FormatJalali(a) == Decimal(a.year) + (['/'] + monthA) && FormatJalali(b) == Decimal(b.year) + (['/'] + monthB);
    TextBeforeAppend(Decimal(a.year), Decimal(b.year), ['/'] + monthA, ['/'] + monthB);
    TextBeforeSlash(monthA, monthB);
    TextBeforeAppend(TwoDigits(a.month), TwoDigits(b.month), ['/'] + dayA, ['/'] + dayB);
    TextBeforeSlash(dayA, dayB);
    FormatReads(a);
    FormatReads(b);
  }

  // ---------- months ----------

  function MonthIndex(t: JalaliDate): int {
    MonthNumber(Month(t.year, t.month))
  }

  /** The last day that a shifted date may fall on: Esfand counts 29 days in every year. */
  function LastDay(month: int): int {
    if month == 12 then 29 else if month <= 6 then 31 else 30
  }

  function Min(a: int, b: int): int {
    if a <= b then a else b
  }

  function AddMonths(t: JalaliDate, months: int): JalaliDate {
    var m := MonthOf(MonthIndex(t) + months);
    JalaliDate(m.year, m.month, Min(t.day, LastDay(m.month)))
  }

  function MonthAfter(t: JalaliDate, months: int): int {
    MonthOf(MonthIndex(t) + months).month
  }

  /** The shifted date lies exactly that many months on, and is a real day even when the date it started from is not: the day
      is kept as far as the month has it, and never later than 29 Esfand. */
  lemma AddMonthsLands(t: JalaliDate, months: int)
    requires Accepted(t)
    ensures var r := AddMonths(t, months);
            && RealDate(r) && 12 * r.year + r.month == 12 * t.year + t.month + months
            && (r.month <= 6 ==> r.day == t.day)
            && (7 <= r.month <= 11 ==> r.day == if t.day == 31 then 30 else t.day)
            && (r.month == 12 ==> r.day == if t.day >= 30 then 29 else t.day)
  {
  }

  lemma SameMonth(t: JalaliDate, a: int, b: int)
    requires Accepted(t)
    ensures MonthIndex(AddMonths(t, a)) + b == MonthIndex(t) + (a + b)
  {
    AddMonthsLands(t, a);
  }

  /** Shifting twice is shifting once exactly when the first shift cuts off no day that the second month still has. */
  lemma AddMonthsTwice(t: JalaliDate, a: int, b: int)
    requires Accepted(t)
    ensures AddMonths(AddMonths(t, a), b) == AddMonths(t, a + b)
       <==> Min(t.day, LastDay(MonthAfter(t, a + b))) <= LastDay(MonthAfter(t, a))
  {
    SameMonth(t, a, b);
    var first := AddMonths(t, a);
    assert MonthIndex(first) + b == MonthIndex(t) + (a + b);
    assert first.month == MonthAfter(t, a);
  }

  /** A shift can be taken back exactly when neither month is too short for the day. */
  lemma AddMonthsBack(t: JalaliDate, months: int)
    requires Accepted(t)
    ensures AddMonths(AddMonths(t, months), -months) == t
       <==> t.day <= LastDay(MonthAfter(t, months)) && t.day <= LastDay(t.month)
  {
    AddMonthsTwice(t, months, -months);
    SameMonth(t, months, -months);
    MonthOfNumber(Month(t.year, t.month));
  }

  /** More months mean a later date. */
  lemma AddMonthsGrows(t: JalaliDate, a: int, b: int)
    requires Accepted(t) && a < b
    ensures Before(AddMonths(t, a), AddMonths(t, b))
  {
    AddMonthsLands(t, a);
    AddMonthsLands(t, b);
  }

  // ---------- ages ----------

  function AgeOn(birth: JalaliDate, on: JalaliDate): int {
    on.year - birth.year - (if on.month < birth.month || (on.month == birth.month && on.day < birth.day) then 1 else 0)
  }

  /** The age is the greatest number of years whose anniversary has come. */
  lemma AgeGreatest(birth: JalaliDate, on: JalaliDate, years: int)
    ensures years <= AgeOn(birth, on) <==> !Before(on, birth.(year := birth.year + years))
  {
  }

  /** Nobody gets younger, and an older child is never the younger in years. */
  lemma AgeGrows(older: JalaliDate, younger: JalaliDate, earlier: JalaliDate, later: JalaliDate)
    requires !Before(younger, older) && !Before(later, earlier)
    ensures AgeOn(younger, earlier) <= AgeOn(older, later)
  {
    AgeGreatest(younger, earlier, AgeOn(younger, earlier));
    AgeGreatest(older, later, AgeOn(younger, earlier));
  }
}
