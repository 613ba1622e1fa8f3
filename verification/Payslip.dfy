/** Loans read from a payslip (backend/app/core/loan_rules.py). */
module Payslip {
  // A payslip is a list of labelled rows. The rows of the loan section come in one of two layouts: columns, where a
  // loan is a name row, an instalment row and perhaps a remainder row; or labels, where the label of the amount row is
  // the name.

  import opened Common
  import opened Characters
  import opened Strings
  import FileSearch

  datatype Row = Row(section: string, caption: string, value: string)

  datatype Loan = Loan(name: string, amount: nat, remaining: Option<nat>)

  /** A loan being read: each key is absent, or holds what its row said. */
  datatype Draft = Draft(name: Option<string>, amount: Option<Option<nat>>, remaining: Option<Option<nat>>)

  const BLANK := Draft(None, None, None)

  const LOAN := "وام"
  const NAME := "نام"
  const INSTALLMENT := "قسط"
  const REMAINING := "مانده"
  const TOTAL := "جمع"

  predicate Has(word: string, text: string) {
    FileSearch.Occurs(word, text)
  }

  // ---------- numbers ----------

  predicate IsSeparator(c: char) {
    c == ',' || c == '\U{66C}' || c == '\U{60C}'
  }

  function DropSeparators(s: string): string {
    if s == "" then ""
    else DropSeparators(s[..|s| - 1]) + (if IsSeparator(s[|s| - 1]) then "" else [s[|s| - 1]])
  }

  function NumberText(value: string): string {
    Strip(DropSeparators(EnglishDigits(value)))
  }

  /** What `_to_int` gives where it raises no error. */
  function ToInt(value: string): Option<nat> {
    var text := NumberText(value);
    if IsInt(text) then Some(ParseNat(text)) else None
  }

  /** `_to_int` raises a value error: the text passes `isdigit` but is no number. */
  predicate Raises(value: string) {
    Unreadable(NumberText(value))
  }

  lemma ReadableOrNot(value: string)
    ensures ToInt(value).Some? ==> !Raises(value)
  {
  }

  /** A number that is not too long to be read. */
  predicate Short(n: nat) {
    |Decimal(n)| <= MAX_INT_DIGITS
  }

  lemma {:induction false} ReadShort(value: string)
    ensures ToInt(value).Some? ==> Short(ToInt(value).value)
  {
    var text := NumberText(value);
    if IsInt(text) {
      PrintedShorter(text);
    }
  }

  function ThreeDigits(n: nat): string
    requires n < 1000
  {
    [(n / 100 + '0' as int) as char, (n / 10 % 10 + '0' as int) as char, (n % 10 + '0' as int) as char]
  }

  /** A number with thousands separators, as payslips print it. */
  function Grouped(n: nat): string {
    if n < 1000 then Decimal(n) else Grouped(n / 1000) + [','] + ThreeDigits(n % 1000)
  }

  lemma {:induction false} DropAppend(s: string, t: string)
    ensures DropSeparators(s + t) == DropSeparators(s) + DropSeparators(t)
  {
    if t == "" {
      assert s + t == s;
    } else {
      DropAppend(s, t[..|t| - 1]);
      assert (s + t)[..|s + t| - 1] == s + t[..|t| - 1];
    }
  }

  lemma {:induction false} DropNothing(s: string)
    requires forall i :: 0 <= i < |s| ==> !IsSeparator(s[i])
    ensures DropSeparators(s) == s
  {
    if s != "" {
      DropNothing(s[..|s| - 1]);
    }
  }

  lemma {:induction false} LastDigit(n: nat)
    requires n >= 10
    ensures Decimal(n) == Decimal(n / 10) + [(n % 10 + '0' as int) as char]
  {
  }

  lemma ThousandsSplit(n: nat)
    ensures n / 1000 == n / 10 / 10 / 10
    ensures n % 1000 / 100 == n / 10 / 10 % 10 && n % 1000 / 10 % 10 == n / 10 % 10 && n % 1000 % 10 == n % 10
  {
  }

  lemma {:induction false} DecimalByThousands(n: nat)
    requires n >= 1000
    ensures Decimal(n) == Decimal(n / 1000) + ThreeDigits(n % 1000)
  {
    hide Decimal;
    ThousandsSplit(n);
    LastDigit(n);
    LastDigit(n / 10);
    LastDigit(n / 10 / 10);
  }

  lemma {:induction false} GroupedDrops(n: nat)
    ensures DropSeparators(Grouped(n)) == Decimal(n)
    ensures forall i :: 0 <= i < |Grouped(n)| ==> IsDigit(Grouped(n)[i]) || Grouped(n)[i] == ','
  {
    hide Decimal, DropSeparators, ThreeDigits;
    if n < 1000 {
      DropNothing(Decimal(n));
    } else {
      GroupedDrops(n / 1000);
      var high, low := Grouped(n / 1000), ThreeDigits(n % 1000);
      ThreePlain(n % 1000);
      DropAppend(high + [','], low);
      DropAppend(high, [',']);
      DropNothing(low);
      CommaDrops();
      DecimalByThousands(n);
      assert Decimal(n / 1000) + "" == Decimal(n / 1000);
    }
  }

  /** Of a number only commas go, the Latin, the Arabic and the Persian one: everything else stays in its place. */
  lemma {:induction false} SeparatorsDropped(a: string, c: char, b: string)
    ensures DropSeparators(a + [c] + b)
         == if c == ',' || c == '\U{66C}' || c == '\U{60C}' then DropSeparators(a + b)
            else DropSeparators(a) + [c] + DropSeparators(b)
    ensures DropSeparators("") == ""
  {
    DropAppend(a + [c], b);
    DropAppend(a, [c]);
    DropAppend(a, b);
    assert [c][..0] == "";
  }

  lemma ThreePlain(n: nat)
    requires n < 1000
    ensures forall i :: 0 <= i < |ThreeDigits(n)| ==> IsDigit(ThreeDigits(n)[i])
  {
  }

  lemma CommaDrops()
    ensures DropSeparators([',']) == ""
  {
    assert [','][..0] == "";
  }

  /** A printed amount reads as the amount, thousands separators and all, exactly when it is not too long; a longer one
      makes the reading raise. */
  lemma {:induction false} GroupedReads(n: nat)
    ensures Short(n) ==> ToInt(Grouped(n)) == Some(n)
    ensures Raises(Grouped(n)) <==> !Short(n)
  {
    hide DropSeparators, Grouped, Decimal, ParseNat, Strip;
    GroupedDrops(n);
    assert EnglishDigits(Grouped(n)) == Grouped(n);
    DigitsTrimmed(Decimal(n));
    assert NumberText(Grouped(n)) == Decimal(n);
    ParseDecimal(n);
    assert IsNumeric(Decimal(n)) by {
      DigitsNumeric(Decimal(n));
    }
  }

  lemma DigitsNumeric(s: string)
    requires IsDigits(s)
    ensures IsNumeric(s)
  {
  }

  /** A superscript two in an amount makes the reading raise. */
  lemma {:induction false} SuperscriptRaises()
    ensures Raises("\U{B2}")
  {
    hide Strip;
    var value := "\U{B2}";
    assert EnglishDigits(value) == value;
    DropNothing(value);
    assert !IsSpace(value[0]) by { assert !DigitOf('\U{B2}').NoDigit?; }
    assert Trimmed(value);
    SuperscriptUnreadable();
  }

  // ---------- reading ----------

  predicate InLoanSection(r: Row) {
    Has(LOAN, r.section) && !("__" <= r.section)
  }

  /** The word stands somewhere in the text. */
  ghost predicate Holds(text: string, word: string) {
    exists before, after :: text == before + word + after
  }

  lemma HoldsExactly(text: string, word: string)
    ensures Has(word, text) <==> Holds(text, word)
  {
    if Has(word, text) {
      var i :| 0 <= i <= |text| && FileSearch.OccursAt(word, text, i);
      assert text == text[..i] + word + text[i + |word|..];
    }
    if Holds(text, word) {
      var before, after :| text == before + word + after;
      assert FileSearch.OccursAt(word, text, |before|);
    }
  }

  /** The rows of the loan section are those whose section holds the word for a loan and does not begin with two underscores. */
  lemma SectionExactly(r: Row)
    ensures InLoanSection(r) <==>
              Holds(r.section, "وام") && !(|r.section| >= 2 && r.section[0] == '_' && r.section[1] == '_')
  {
    hide Holds, Has;
    HoldsExactly(r.section, "وام");
  }

  /** A caption that holds the word for a name is a name, else one with the word for an instalment an amount, else one with the
      word for a remainder a remainder. */
  lemma KindExactly(r: Row)
    ensures KindOf(r) == NameCell <==> Holds(r.caption, "نام")
    ensures KindOf(r) == AmountCell <==> !Holds(r.caption, "نام") && Holds(r.caption, "قسط")
    ensures KindOf(r) == RemainingCell
       <==> !Holds(r.caption, "نام") && !Holds(r.caption, "قسط") && Holds(r.caption, "مانده")
  {
    hide Holds, Has;
    HoldsExactly(r.caption, "نام");
    HoldsExactly(r.caption, "قسط");
    HoldsExactly(r.caption, "مانده");
  }

  function LoanRows(fields: seq<Row>): (rows: seq<Row>)
    ensures forall r :: r in rows <==> r in fields && InLoanSection(r)
  {
    if fields == [] then []
    else
      var last := fields[|fields| - 1];
      LoanRows(fields[..|fields| - 1]) + (if InLoanSection(last) then [last] else [])
  }

  datatype Kind = NameCell | AmountCell | RemainingCell | NoCell

  function KindOf(r: Row): Kind {
    if Has(NAME, r.caption) then NameCell
    else if Has(INSTALLMENT, r.caption) then AmountCell
    else if Has(REMAINING, r.caption) then RemainingCell
    else NoCell
  }

  predicate HasColumns(rows: seq<Row>) {
    exists r :: r in rows && Has(INSTALLMENT, r.caption)
  }

  /** What has been read: the finished loans and the one being read. */
  datatype Reading = Reading(out: seq<Draft>, current: Draft)

  function Flushed(st: Reading): seq<Draft> {
    if st.current == BLANK then st.out else st.out + [st.current]
  }

  function ReadCell(st: Reading, r: Row): Reading {
    match KindOf(r)
    case NameCell =>
      if st.current.name.Some? then Reading(Flushed(st), BLANK.(name := Some(Strip(r.value))))
      else st.(current := st.current.(name := Some(Strip(r.value))))
    case AmountCell =>
      if st.current.amount.Some? then Reading(Flushed(st), BLANK.(amount := Some(ToInt(r.value))))
      else st.(current := st.current.(amount := Some(ToInt(r.value))))
    case RemainingCell =>
      if st.current.remaining.Some? then Reading(Flushed(st), BLANK.(remaining := Some(ToInt(r.value))))
      else st.(current := st.current.(remaining := Some(ToInt(r.value))))
    case NoCell => st
  }

  function ReadCells(rows: seq<Row>): Reading {
    if rows == [] then Reading([], BLANK) else ReadCell(ReadCells(rows[..|rows| - 1]), rows[|rows| - 1])
  }

  /** Some amount or remainder row makes the reading raise. */
  predicate CellsRaise(rows: seq<Row>) {
    exists r :: r in rows && RaisingCell(r)
  }

  predicate RaisingCell(r: Row) {
    (KindOf(r) == AmountCell || KindOf(r) == RemainingCell) && Raises(r.value)
  }

  method ReadColumns(rows: seq<Row>) returns (result: Result<seq<Draft>, ValueError>)
    ensures result == if CellsRaise(rows) then Err(ValueError) else Ok(Flushed(ReadCells(rows)))
  {
    hide ToInt, Strip, Has, Raises;
    var out: seq<Draft> := [];
    var current := BLANK;
    for i := 0 to |rows|
      invariant Reading(out, current) == ReadCells(rows[..i])
      invariant forall j :: 0 <= j < i ==> !RaisingCell(rows[j])
    {
      var r := rows[i];
      assert r in rows;
      assert rows[..i + 1][..i] == rows[..i];
      if Has(NAME, r.caption) {
        if current.name.Some? {
          out, current := out + [current], BLANK;
        }
        current := current.(name := Some(Strip(r.value)));
      } else if Has(INSTALLMENT, r.caption) {
        if current.amount.Some? {
          out, current := out + [current], BLANK;
        }
        if Raises(r.value) {
          return Err(ValueError);
        }
        current := current.(amount := Some(ToInt(r.value)));
      } else if Has(REMAINING, r.caption) {
        if current.remaining.Some? {
          out, current := out + [current], BLANK;
        }
        if Raises(r.value) {
          return Err(ValueError);
        }
        current := current.(remaining := Some(ToInt(r.value)));
      }
    }
    assert rows[..|rows|] == rows;
    if current != BLANK {
      out := out + [current];
    }
    result := Ok(out);
  }

  predicate RemainingUnknown(d: Draft) {
    d.remaining.None? || d.remaining.value.None?
  }

  function ReadLabel(out: seq<Draft>, r: Row): seq<Draft> {
    var caption := Strip(r.caption);
    if caption == "" || TOTAL <= caption then out
    else if Has(REMAINING, caption) then
      if out != [] && RemainingUnknown(out[|out| - 1])
      then out[|out| - 1 := out[|out| - 1].(remaining := Some(ToInt(r.value)))]
      else out
    else out + [Draft(Some(caption), Some(ToInt(r.value)), Some(None))]
  }

  function ReadLabels(rows: seq<Row>): seq<Draft> {
    if rows == [] then [] else ReadLabel(ReadLabels(rows[..|rows| - 1]), rows[|rows| - 1])
  }

  /** The value of the row is read: not when it is blank or a total, nor when it is a remainder that nothing waits for. */
  predicate Converts(out: seq<Draft>, r: Row) {
    Meant(r) && (IsRemainder(r) ==> out != [] && RemainingUnknown(out[|out| - 1]))
  }

  predicate Meant(r: Row) {
    var caption := Strip(r.caption);
    caption != "" && !(TOTAL <= caption)
  }

  /** The caption is the word for a total, or begins with it, perhaps after white space. */
  ghost predicate BeginsTotal(caption: string) {
    exists before, rest :: AllSpace(before) && caption == before + "جمع" + rest
  }

  /** In the label layout exactly the rows without a caption and the totals are passed over. */
  lemma {:induction false} MeantExactly(r: Row)
    ensures Meant(r) <==> !AllSpace(r.caption) && !BeginsTotal(r.caption)
  {
    hide Strip, AllSpace;
    var before, after := StripCut(r.caption);
    var mid := Strip(r.caption);
    BlankAround(before, mid, after);
    if TOTAL <= mid {
      assert r.caption == before + "جمع" + (mid[3..] + after);
    }
    if BeginsTotal(r.caption) {
      var lead, rest :| AllSpace(lead) && r.caption == lead + "جمع" + rest;
      TotalKept(lead, rest);
    }
  }

  lemma BlankAround(before: string, mid: string, after: string)
    requires AllSpace(before) && AllSpace(after) && Trimmed(mid)
    ensures AllSpace(before + mid + after) <==> mid == ""
  {
    var s := before + mid + after;
    if mid != "" {
      assert s[|before|] == mid[0];
    }
  }

  lemma SpaceAt(kept: string, cut: string, k: nat)
    requires AllSpace(cut)
    ensures |kept| <= k < |kept + cut| ==> IsSpace((kept + cut)[k])
  {
  }

  lemma {:induction false} TotalKept(lead: string, rest: string)
    requires AllSpace(lead)
    ensures TOTAL <= Strip(lead + "جمع" + rest)
  {
    hide StripLeft, StripRight;
    var text := "جمع" + rest;
    assert lead + "جمع" + rest == lead + text && text[0] == "جمع"[0] && text[2] == "جمع"[2];
    StripLeftSpace(lead, text);
    var cut := StripRightCut(text);
    SpaceAt(StripRight(text), cut, 2);
    assert text[..3] == "جمع";
  }

  predicate IsRemainder(r: Row) {
    Has(REMAINING, Strip(r.caption))
  }

  /** Some row whose value is read makes the reading raise. */
  predicate LabelsRaise(rows: seq<Row>) {
    if rows == [] then false
    else
      var front, last := rows[..|rows| - 1], rows[|rows| - 1];
      LabelsRaise(front) || (Converts(ReadLabels(front), last) && Raises(last.value))
  }

  lemma {:induction false} RaisesAt(rows: seq<Row>, i: nat)
    requires i <= |rows| && LabelsRaise(rows[..i])
    ensures LabelsRaise(rows)
    decreases |rows|
  {
    hide Converts, Raises;
    if i == |rows| {
      assert rows[..i] == rows;
    } else {
      assert rows[..|rows| - 1][..i] == rows[..i];
      RaisesAt(rows[..|rows| - 1], i);
    }
  }

  method ReadLabelled(rows: seq<Row>) returns (result: Result<seq<Draft>, ValueError>)
    ensures result == if LabelsRaise(rows) then Err(ValueError) else Ok(ReadLabels(rows))
  {
    hide ToInt, Strip, Has, Raises;
    var out: seq<Draft> := [];
    for i := 0 to |rows|
      invariant out == ReadLabels(rows[..i])
      invariant !LabelsRaise(rows[..i])
    {
      var r := rows[i];
      assert rows[..i + 1][..i] == rows[..i];
      var caption := Strip(r.caption);
      if caption == "" || TOTAL <= caption {
        continue;
      }
      if Has(REMAINING, caption) {
        if out != [] && RemainingUnknown(out[|out| - 1]) {
          if Raises(r.value) {
            RaisesAt(rows, i + 1);
            return Err(ValueError);
          }
          out := out[|out| - 1 := out[|out| - 1].(remaining := Some(ToInt(r.value)))];
        }
        continue;
      }
      if Raises(r.value) {
        RaisesAt(rows, i + 1);
        return Err(ValueError);
      }
      out := out + [Draft(Some(caption), Some(ToInt(r.value)), Some(None))];
    }
    assert rows[..|rows|] == rows;
    result := Ok(out);
  }

  predicate HasAmount(d: Draft) {
    d.amount.Some? && d.amount.value.Some? && d.amount.value.value > 0
  }

  function Finished(d: Draft): Loan
    requires HasAmount(d)
  {
    Loan(if d.name.Some? then d.name.value else "", d.amount.value.value,
         if d.remaining.Some? then d.remaining.value else None)
  }

  /** The loans that have an amount. */
  function Loans(drafts: seq<Draft>): seq<Loan> {
    if drafts == [] then []
    else
      var last := drafts[|drafts| - 1];
      Loans(drafts[..|drafts| - 1]) + (if HasAmount(last) then [Finished(last)] else [])
  }

  /** A draft is a loan exactly when its amount could be read and is positive; a missing name is blank. */
  lemma {:induction false} AmountDecides(d: Draft)
    ensures Loans([d])
         == (match d.amount
             case Some(Some(n)) =>
               if n == 0 then []
               else [Loan(match d.name case Some(name) => name case None => "", n,
                          match d.remaining case Some(left) => left case None => None)]
             case _ => [])
  {
    var one := [d];
    assert one[..|one| - 1] == [];
    assert Loans([]) == [];
  }

  /** The loans read, where no row raises. */
  function Read(fields: seq<Row>): seq<Loan> {
    var rows := LoanRows(fields);
    Loans(if HasColumns(rows) then Flushed(ReadCells(rows)) else ReadLabels(rows))
  }

  predicate ReadingRaises(fields: seq<Row>) {
    var rows := LoanRows(fields);
    if HasColumns(rows) then CellsRaise(rows) else LabelsRaise(rows)
  }

  function ReadPayslip(fields: seq<Row>): Result<seq<Loan>, ValueError> {
    if ReadingRaises(fields) then Err(ValueError) else Ok(Read(fields))
  }

  method PayslipLoans(fields: seq<Row>) returns (loans: Result<seq<Loan>, ValueError>)
    ensures loans == ReadPayslip(fields)
  {
    var rows := LoanRows(fields);
    var out;
    if exists r <- rows :: Has(INSTALLMENT, r.caption) {
      out := ReadColumns(rows);
    } else {
      out := ReadLabelled(rows);
    }
    loans := if out.Ok? then Ok(Loans(out.value)) else Err(ValueError);
  }

  // ---------- what every reading gives ----------

  predicate ShortIfKnown(known: Option<Option<nat>>) {
    known.Some? && known.value.Some? ==> Short(known.value.value)
  }

  /** The name is trimmed, and the numbers are such as can be read. */
  predicate Sound(d: Draft) {
    (d.name.Some? ==> Trimmed(d.name.value)) && ShortIfKnown(d.amount) && ShortIfKnown(d.remaining)
  }

  lemma {:induction false} CellsSound(rows: seq<Row>)
    ensures forall d :: d in ReadCells(rows).out ==> Sound(d)
    ensures Sound(ReadCells(rows).current)
  {
    hide ToInt, Strip, Has, Trimmed, Short;
    if rows != [] {
      CellsSound(rows[..|rows| - 1]);
      ReadShort(rows[|rows| - 1].value);
    }
  }

  lemma {:induction false} LabelsSound(rows: seq<Row>)
    ensures forall d :: d in ReadLabels(rows) ==> Sound(d)
  {
    hide ToInt, Strip, Has, Trimmed, Short;
    if rows != [] {
      var init := ReadLabels(rows[..|rows| - 1]);
      LabelsSound(rows[..|rows| - 1]);
      ReadShort(rows[|rows| - 1].value);
      assert init != [] ==> init[|init| - 1] in init;
    }
  }

  predicate Proper(loan: Loan) {
    && Trimmed(loan.name)
    && loan.amount > 0 && Short(loan.amount)
    && (loan.remaining.Some? ==> Short(loan.remaining.value))
  }

  lemma {:induction false} LoansProper(drafts: seq<Draft>)
    requires forall d :: d in drafts ==> Sound(d)
    ensures forall l :: l in Loans(drafts) ==> Proper(l)
  {
    hide Short;
    if drafts != [] {
      var init, last := drafts[..|drafts| - 1], drafts[|drafts| - 1];
      assert last in drafts && forall d :: d in init ==> d in drafts;
      LoansProper(init);
    }
  }

  /** Whatever the payslip, the loans read have trimmed names, and amounts that are positive and can be read again. */
  lemma ReadProper(fields: seq<Row>)
    ensures ReadPayslip(fields).Ok? ==> forall l :: l in ReadPayslip(fields).value ==> Proper(l)
  {
    hide Trimmed;
    var rows := LoanRows(fields);
    CellsSound(rows);
    LabelsSound(rows);
    LoansProper(if HasColumns(rows) then Flushed(ReadCells(rows)) else ReadLabels(rows));
  }

  // ---------- the column layout ----------

  /** The rows that mean something in the column layout; all others may stand anywhere between them. */
  function Cells(rows: seq<Row>): (cells: seq<Row>)
    ensures forall r :: r in cells <==> r in rows && KindOf(r) != NoCell
  {
    if rows == [] then []
    else
      var last := rows[|rows| - 1];
      Cells(rows[..|rows| - 1]) + (if KindOf(last) != NoCell then [last] else [])
  }

  lemma {:induction false} ReadOne(before: seq<Row>, r: Row)
    ensures ReadCells(before + [r]) == ReadCell(ReadCells(before), r)
  {
    hide ReadCell;
    assert (before + [r])[..|before|] == before;
  }

  lemma {:induction false} OnlyCellsMatter(rows: seq<Row>)
    ensures ReadCells(Cells(rows)) == ReadCells(rows)
  {
    hide KindOf, ReadCells, ToInt, Strip;
    if rows != [] {
      var init, last := rows[..|rows| - 1], rows[|rows| - 1];
      OnlyCellsMatter(init);
      assert init + [last] == rows;
      ReadOne(init, last);
      ReadOne(Cells(init), last);
      assert Cells(rows) == if KindOf(last) != NoCell then Cells(init) + [last] else Cells(init);
    }
  }

  /** What one row says, and what a loan being read has been told. */
  datatype Fact = Named(name: string) | Deducted(amount: Option<nat>) | Left(remaining: Option<nat>)

  function FactOf(r: Row): multiset<Fact> {
    match KindOf(r)
    case NameCell => multiset{Named(Strip(r.value))}
    case AmountCell => multiset{Deducted(ToInt(r.value))}
    case RemainingCell => multiset{Left(ToInt(r.value))}
    case NoCell => multiset{}
  }

  function FactsOfRows(rows: seq<Row>): multiset<Fact> {
    if rows == [] then multiset{} else FactsOfRows(rows[..|rows| - 1]) + FactOf(rows[|rows| - 1])
  }

  function Told<T>(known: Option<T>, fact: T -> Fact): multiset<Fact> {
    if known.Some? then multiset{fact(known.value)} else multiset{}
  }

  function FactsOf(d: Draft): multiset<Fact> {
    Told(d.name, name => Named(name)) + Told(d.amount, a => Deducted(a)) + Told(d.remaining, a => Left(a))
  }

  function FactsOfDrafts(drafts: seq<Draft>): multiset<Fact> {
    if drafts == [] then multiset{} else FactsOfDrafts(drafts[..|drafts| - 1]) + FactsOf(drafts[|drafts| - 1])
  }

  lemma FlushedFacts(st: Reading)
    ensures FactsOfDrafts(Flushed(st)) == FactsOfDrafts(st.out) + FactsOf(st.current)
  {
  }

  lemma AddOne(a: multiset<Fact>, b: multiset<Fact>, c: multiset<Fact>, x: multiset<Fact>)
    ensures a == multiset{} ==> x + b + c == a + b + c + x
    ensures b == multiset{} ==> a + x + c == a + b + c + x
    ensures c == multiset{} ==> a + b + x == a + b + c + x
  {
  }

  /** Entering an absent key adds what its row says. */
  lemma Entered(d: Draft, name: string, amount: Option<nat>, remaining: Option<nat>)
    ensures d.name.None? ==> FactsOf(d.(name := Some(name))) == FactsOf(d) + multiset{Named(name)}
    ensures d.amount.None? ==> FactsOf(d.(amount := Some(amount))) == FactsOf(d) + multiset{Deducted(amount)}
    ensures d.remaining.None? ==> FactsOf(d.(remaining := Some(remaining))) == FactsOf(d) + multiset{Left(remaining)}
  {
    var a, b, c := Told(d.name, name => Named(name)), Told(d.amount, a => Deducted(a)), Told(d.remaining, a => Left(a));
    AddOne(a, b, c, multiset{Named(name)});
    AddOne(a, b, c, multiset{Deducted(amount)});
    AddOne(a, b, c, multiset{Left(remaining)});
  }

  lemma BlankFacts()
    ensures FactsOf(BLANK) == multiset{}
  {
  }

  lemma ReadCellFacts(st: Reading, r: Row)
    ensures FactsOfDrafts(Flushed(ReadCell(st, r))) == FactsOfDrafts(Flushed(st)) + FactOf(r)
  {
    hide FactsOfDrafts, Strip, ToInt, KindOf, FactsOf, Flushed;
    var n := ReadCell(st, r);
    FlushedFacts(st);
    FlushedFacts(n);
    BlankFacts();
    Entered(st.current, Strip(r.value), ToInt(r.value), ToInt(r.value));
    Entered(BLANK, Strip(r.value), ToInt(r.value), ToInt(r.value));
    assert n.out == st.out || n.out == Flushed(st);
  }

  /** In whatever order the columns come, nothing is overwritten, lost or read twice: the loans together hold exactly what
      the rows say. A repeated column starts the next loan. */
  lemma {:induction false} EverythingRead(rows: seq<Row>)
    ensures FactsOfDrafts(Flushed(ReadCells(rows))) == FactsOfRows(rows)
  {
    hide ReadCell, FactOf;
    if rows != [] {
      EverythingRead(rows[..|rows| - 1]);
      ReadCellFacts(ReadCells(rows[..|rows| - 1]), rows[|rows| - 1]);
    }
  }

  function Width(loan: Loan): nat {
    if loan.remaining.Some? then 3 else 2
  }

  /** The rows of one loan: its name, its instalment and, when known, what remains. Labels are free but for the words
      that tell the columns apart; numbers are free in how they are printed. */
  predicate WritesLoan(cells: seq<Row>, loan: Loan) {
    && |cells| == Width(loan)
    && KindOf(cells[0]) == NameCell && Strip(cells[0].value) == loan.name
    && KindOf(cells[1]) == AmountCell && ToInt(cells[1].value) == Some(loan.amount)
    && (loan.remaining.Some? ==> KindOf(cells[2]) == RemainingCell && ToInt(cells[2].value) == loan.remaining)
  }

  predicate WritesColumns(cells: seq<Row>, loans: seq<Loan>) {
    if loans == [] then cells == []
    else
      var last := loans[|loans| - 1];
      var cut := |cells| - Width(last);
      cut >= 0 && WritesLoan(cells[cut..], last) && WritesColumns(cells[..cut], loans[..|loans| - 1])
  }

  function DraftOf(loan: Loan): Draft {
    Draft(Some(loan.name), Some(Some(loan.amount)), if loan.remaining.Some? then Some(loan.remaining) else None)
  }

  function Drafts(loans: seq<Loan>): (d: seq<Draft>)
    ensures |d| == |loans| && forall i :: 0 <= i < |loans| ==> d[i] == DraftOf(loans[i])
  {
    seq(|loans|, i requires 0 <= i < |loans| => DraftOf(loans[i]))
  }

  lemma {:induction false} DraftsFinish(loans: seq<Loan>)
    requires forall l :: l in loans ==> l.amount > 0
    ensures Loans(Drafts(loans)) == loans
  {
    if loans != [] {
      var init := loans[..|loans| - 1];
      DraftsFinish(init);
      assert Drafts(loans)[..|loans| - 1] == Drafts(init);
    }
  }

  lemma {:induction false} ReadTwo(before: seq<Row>, a: Row, b: Row)
    ensures ReadCells(before + [a, b]) == ReadCell(ReadCell(ReadCells(before), a), b)
  {
    hide ReadCell;
    assert (before + [a, b])[..|before| + 1] == before + [a];
    assert (before + [a])[..|before|] == before;
  }

  /** Reading the rows of one more loan finishes the one before it. */
  lemma {:induction false} ReadLoan(before: seq<Row>, cells: seq<Row>, loan: Loan)
    requires WritesLoan(cells, loan)
    requires var st := ReadCells(before); st.current == BLANK || st.current.name.Some?
    ensures ReadCells(before + cells) == Reading(Flushed(ReadCells(before)), DraftOf(loan))
  {
    hide ToInt, Strip, KindOf, ReadCells;
    ReadTwo(before, cells[0], cells[1]);
    assert BLANK.name.None?;
    if loan.remaining.None? {
      assert cells == [cells[0], cells[1]];
    } else {
      var two := before + [cells[0], cells[1]];
      assert before + cells == two + [cells[2]];
      ReadOne(two, cells[2]);
    }
  }

  lemma {:induction false} ColumnsRead(cells: seq<Row>, loans: seq<Loan>)
    requires WritesColumns(cells, loans)
    ensures Flushed(ReadCells(cells)) == Drafts(loans)
    ensures loans == [] ==> ReadCells(cells).current == BLANK
    ensures loans != [] ==> ReadCells(cells).current == DraftOf(loans[|loans| - 1])
    decreases |loans|
  {
    hide WritesLoan, ReadCells;
    if loans == [] {
      assert ReadCells([]) == Reading([], BLANK) by { NothingRead(); }
    } else {
      var last := loans[|loans| - 1];
      var cut := |cells| - Width(last);
      ColumnsRead(cells[..cut], loans[..|loans| - 1]);
      ReadLoan(cells[..cut], cells[cut..], last);
      assert cells[..cut] + cells[cut..] == cells;
      assert Drafts(loans) == Drafts(loans[..|loans| - 1]) + [DraftOf(last)];
    }
  }

  lemma NothingRead()
    ensures ReadCells([]) == Reading([], BLANK)
  {
  }

  lemma LoanCalm(cells: seq<Row>, loan: Loan)
    requires WritesLoan(cells, loan)
    ensures forall i :: 0 <= i < |cells| ==> !RaisingCell(cells[i])
  {
    hide ToInt, Strip, KindOf, Raises;
    ReadableOrNot(cells[1].value);
    if loan.remaining.Some? {
      ReadableOrNot(cells[2].value);
    }
  }

  lemma {:induction false} ColumnsCalm(cells: seq<Row>, loans: seq<Loan>)
    requires WritesColumns(cells, loans)
    ensures forall i :: 0 <= i < |cells| ==> !RaisingCell(cells[i])
    decreases |loans|
  {
    hide WritesLoan, RaisingCell;
    if loans != [] {
      var cut := |cells| - Width(loans[|loans| - 1]);
      ColumnsCalm(cells[..cut], loans[..|loans| - 1]);
      LoanCalm(cells[cut..], loans[|loans| - 1]);
      assert forall i :: 0 <= i < cut ==> cells[i] == cells[..cut][i];
      assert forall i :: cut <= i < |cells| ==> cells[i] == cells[cut..][i - cut];
    }
  }

  /** Round trip, column layout: loans written as columns, among any rows of other sections and any other rows of the
      loan section, are read back exactly. */
  lemma {:induction false} ColumnRoundTrip(fields: seq<Row>, loans: seq<Loan>)
    requires loans != [] && forall l :: l in loans ==> l.amount > 0
    ensures WritesColumns(Cells(LoanRows(fields)), loans) ==> ReadPayslip(fields) == Ok(loans)
  {
    hide ToInt, Strip, Has, ReadCells, Raises;
    var rows := LoanRows(fields);
    var cells := Cells(rows);
    if WritesColumns(cells, loans) {
      assert HasColumns(rows) by {
        var at := |cells| - Width(loans[|loans| - 1]) + 1;
        assert cells[at] in rows && Has(INSTALLMENT, cells[at].caption);
      }
      OnlyCellsMatter(rows);
      ColumnsRead(cells, loans);
      ColumnsCalm(cells, loans);
      assert !CellsRaise(rows) by {
        assert forall r :: r in rows && RaisingCell(r) ==> r in cells;
        assert forall r :: r in cells ==> !RaisingCell(r);
      }
      DraftsFinish(loans);
    }
  }

  // ---------- the label layout ----------

  /** The rows that mean something in the label layout: all but the blank and the total ones. */
  function Lines(rows: seq<Row>): (lines: seq<Row>)
    ensures forall r :: r in lines <==> r in rows && Meant(r)
  {
    if rows == [] then []
    else
      var last := rows[|rows| - 1];
      Lines(rows[..|rows| - 1]) + (if Meant(last) then [last] else [])
  }

  lemma {:induction false} ReadLine(before: seq<Row>, r: Row)
    ensures ReadLabels(before + [r]) == ReadLabel(ReadLabels(before), r)
  {
    hide ReadLabel;
    assert (before + [r])[..|before|] == before;
  }

  lemma RaiseLine(before: seq<Row>, r: Row)
    ensures LabelsRaise(before + [r]) == (LabelsRaise(before) || (Converts(ReadLabels(before), r) && Raises(r.value)))
  {
    hide Converts, Raises;
    assert (before + [r])[..|before|] == before;
  }

  lemma {:induction false} OnlyLinesMatter(rows: seq<Row>)
    ensures ReadLabels(Lines(rows)) == ReadLabels(rows)
    ensures LabelsRaise(Lines(rows)) == LabelsRaise(rows)
  {
    hide Strip, Has, ToInt, ReadLabels, Raises, LabelsRaise;
    if rows != [] {
      var init, last := rows[..|rows| - 1], rows[|rows| - 1];
      OnlyLinesMatter(init);
      assert init + [last] == rows;
      ReadLine(init, last);
      ReadLine(Lines(init), last);
      RaiseLine(init, last);
      RaiseLine(Lines(init), last);
      assert Lines(rows) == if Meant(last) then Lines(init) + [last] else Lines(init);
    }
  }

  /** The first number that can be read among the values of some rows. */
  function FirstReadable(rows: seq<Row>): Option<nat> {
    if rows == [] then None
    else
      var known := FirstReadable(rows[..|rows| - 1]);
      if known.Some? then known else ToInt(rows[|rows| - 1].value)
  }

  /** No row before the first that can be read makes the reading raise. */
  predicate Calm(rows: seq<Row>) {
    forall i :: 0 <= i < |rows| && Raises(rows[i].value) ==> FirstReadable(rows[..i]).Some?
  }

  /** The lines of one loan: its amount under its name, then any number of remainder lines, the first readable of which
      counts. */
  predicate WritesLines(lines: seq<Row>, loan: Loan) {
    && lines != []
    && !IsRemainder(lines[0]) && Strip(lines[0].caption) == loan.name && ToInt(lines[0].value) == Some(loan.amount)
    && (forall i :: 1 <= i < |lines| ==> IsRemainder(lines[i]))
    && loan.remaining == FirstReadable(lines[1..]) && Calm(lines[1..])
  }

  /** Lines of loans in order; remainder lines before the first loan mean nothing. */
  predicate WritesLabels(lines: seq<Row>, loans: seq<Loan>)
    decreases |loans|
  {
    if loans == [] then forall i :: 0 <= i < |lines| ==> IsRemainder(lines[i])
    else
      exists cut :: 0 <= cut <= |lines| && WritesLines(lines[cut..], loans[|loans| - 1])
                    && WritesLabels(lines[..cut], loans[..|loans| - 1])
  }

  function LabelDraft(loan: Loan): Draft {
    Draft(Some(loan.name), Some(Some(loan.amount)), Some(loan.remaining))
  }

  function LabelDrafts(loans: seq<Loan>): (d: seq<Draft>)
    ensures |d| == |loans| && forall i :: 0 <= i < |loans| ==> d[i] == LabelDraft(loans[i])
  {
    seq(|loans|, i requires 0 <= i < |loans| => LabelDraft(loans[i]))
  }

  lemma {:induction false} LabelDraftsFinish(loans: seq<Loan>)
    requires forall l :: l in loans ==> l.amount > 0
    ensures Loans(LabelDrafts(loans)) == loans
  {
    if loans != [] {
      var init := loans[..|loans| - 1];
      LabelDraftsFinish(init);
      assert LabelDrafts(loans)[..|loans| - 1] == LabelDrafts(init);
    }
  }

  /** One more remainder line: it counts when nothing has been read yet. */
  lemma ReadRemainder(before: seq<Row>, out: seq<Draft>, loan: Loan, known: Option<nat>, r: Row)
    requires ReadLabels(before) == out + [LabelDraft(loan.(remaining := known))]
    requires IsRemainder(r) && Meant(r) && (Raises(r.value) ==> known.Some?)
    ensures ReadLabels(before + [r])
         == out + [LabelDraft(loan.(remaining := if known.Some? then known else ToInt(r.value)))]
    ensures LabelsRaise(before + [r]) == LabelsRaise(before)
  {
    hide ToInt, Strip, Has, ReadLabels, Raises, LabelsRaise;
    ReadLine(before, r);
    RaiseLine(before, r);
  }

  /** Remainder lines after a loan fill in what remains of it, once. */
  lemma {:induction false} ReadRemainders(before: seq<Row>, out: seq<Draft>, loan: Loan, rest: seq<Row>)
    requires ReadLabels(before) == out + [LabelDraft(loan.(remaining := None))]
    requires forall i :: 0 <= i < |rest| ==> IsRemainder(rest[i]) && Meant(rest[i])
    requires Calm(rest)
    ensures ReadLabels(before + rest) == out + [LabelDraft(loan.(remaining := FirstReadable(rest)))]
    ensures LabelsRaise(before + rest) == LabelsRaise(before)
    decreases |rest|
  {
    hide ToInt, ReadLabels, Raises, LabelsRaise, IsRemainder, Meant, LabelDraft;
    if rest == [] {
      assert before + rest == before;
    } else {
      var n := |rest| - 1;
      CalmBefore(rest, n);
      ReadRemainders(before, out, loan, rest[..n]);
      ReadRemainder(before + rest[..n], out, loan, FirstReadable(rest[..n]), rest[n]);
      assert before + rest == before + rest[..n] + [rest[n]];
    }
  }

  lemma CalmBefore(rows: seq<Row>, n: nat)
    requires n <= |rows| && Calm(rows)
    ensures Calm(rows[..n])
  {
    hide Raises, FirstReadable;
    assert forall i :: 0 <= i < n ==> rows[..n][..i] == rows[..i];
  }

  lemma {:induction false} ReadLines(before: seq<Row>, lines: seq<Row>, loan: Loan)
    requires WritesLines(lines, loan)
    requires forall i :: 0 <= i < |lines| ==> Meant(lines[i])
    ensures ReadLabels(before + lines) == ReadLabels(before) + [LabelDraft(loan)]
    ensures LabelsRaise(before + lines) == LabelsRaise(before)
  {
    hide ToInt, Strip, Has, ReadLabels, FirstReadable, Raises, LabelsRaise, Calm;
    ReadLine(before, lines[0]);
    RaiseLine(before, lines[0]);
    ReadableOrNot(lines[0].value);
    ReadRemainders(before + [lines[0]], ReadLabels(before), loan, lines[1..]);
    assert before + lines == before + [lines[0]] + lines[1..];
  }

  lemma {:induction false} RemaindersAlone(lines: seq<Row>)
    requires forall i :: 0 <= i < |lines| ==> IsRemainder(lines[i])
    ensures ReadLabels(lines) == [] && !LabelsRaise(lines)
  {
    hide ToInt, Strip, Has, Raises;
    if lines != [] {
      RemaindersAlone(lines[..|lines| - 1]);
    }
  }

  lemma {:induction false} LabelsRead(lines: seq<Row>, loans: seq<Loan>)
    requires WritesLabels(lines, loans)
    requires forall i :: 0 <= i < |lines| ==> Meant(lines[i])
    ensures ReadLabels(lines) == LabelDrafts(loans) && !LabelsRaise(lines)
    decreases |loans|
  {
    hide WritesLines, Meant, ReadLabels, LabelDraft, LabelsRaise;
    if loans == [] {
      RemaindersAlone(lines);
    } else {
      var init, last := loans[..|loans| - 1], loans[|loans| - 1];
      var cut :| 0 <= cut <= |lines| && WritesLines(lines[cut..], last) && WritesLabels(lines[..cut], init);
      LabelsRead(lines[..cut], init);
      ReadLines(lines[..cut], lines[cut..], last);
      assert lines[..cut] + lines[cut..] == lines;
      assert LabelDrafts(loans) == LabelDrafts(init) + [LabelDraft(last)];
    }
  }

  lemma NoLabelsRead()
    ensures ReadLabels([]) == [] && !LabelsRaise([])
  {
  }

  /** Round trip, label layout: loans written under their names, among rows of other sections, blank rows and totals, are
      read back exactly. */
  lemma {:induction false} LabelRoundTrip(fields: seq<Row>, loans: seq<Loan>)
    requires forall l :: l in loans ==> l.amount > 0
    ensures !HasColumns(LoanRows(fields)) && WritesLabels(Lines(LoanRows(fields)), loans)
      ==> ReadPayslip(fields) == Ok(loans)
  {
    hide ReadLabels, Has, Meant, WritesLabels, LabelsRaise;
    var lines := Lines(LoanRows(fields));
    OnlyLinesMatter(LoanRows(fields));
    if WritesLabels(lines, loans) {
      assert forall i :: 0 <= i < |lines| ==> lines[i] in lines;
      LabelsRead(lines, loans);
    }
    LabelDraftsFinish(loans);
  }

  // ---------- no loans ----------

  /** Trimming adds no word. */
  lemma StripWithin(word: string, s: string)
    requires Has(word, Strip(s))
    ensures Has(word, s)
  {
    hide FileSearch.Occurs;
    hide Strip;
    var before, after := StripCut(s);
    assert s[|before|..|before| + |Strip(s)|] == Strip(s);
    FileSearch.PartOfWhole(word, Strip(s), s, |before|);
  }

  predicate NoAmount(value: string) {
    !Raises(value) && (ToInt(value).Some? ==> ToInt(value).value == 0)
  }

  lemma {:induction false} NoLoansLabelled(rows: seq<Row>)
    requires forall r :: r in rows ==> KindOf(r) == NoCell
    ensures Loans(ReadLabels(rows)) == [] && !LabelsRaise(rows) <==> forall r :: r in rows && Meant(r) ==> NoAmount(r.value)
  {
    hide ToInt, Strip, Has, ReadLabels, Raises, LabelsRaise;
    if rows == [] {
      NoLabelsRead();
    } else {
      var init, last := rows[..|rows| - 1], rows[|rows| - 1];
      assert last in rows && init + [last] == rows;
      assert forall r :: r in rows <==> r in init || r == last;
      NoLoansLabelled(init);
      ReadLine(init, last);
      RaiseLine(init, last);
      if Has(REMAINING, Strip(last.caption)) {
        StripWithin(REMAINING, last.caption);
      }
    }
  }

  /** The exception to the round trip of columns: a payslip with no loan column at all is read as labels, so it gives no
      loan exactly when none of its named rows holds an amount. */
  lemma NoColumns(fields: seq<Row>)
    requires WritesColumns(Cells(LoanRows(fields)), [])
    ensures ReadPayslip(fields) == Ok([]) <==> forall r :: r in LoanRows(fields) && Meant(r) ==> NoAmount(r.value)
  {
    hide ToInt, Strip, Has, ReadLabels, Loans, Meant, NoAmount, LabelsRaise;
    var rows := LoanRows(fields);
    assert forall r :: r in rows ==> KindOf(r) == NoCell by {
      assert Cells(rows) == [];
      assert forall r :: r in rows && KindOf(r) != NoCell ==> r in Cells(rows);
    }
    NoLoansLabelled(rows);
  }

  // ---------- writing ----------

  const NAME_LABEL := "نام وام"
  const AMOUNT_LABEL := "مبلغ قسط"
  const REMAINING_LABEL := "مانده"

  function LoanColumns(loan: Loan): (rows: seq<Row>)
    ensures |rows| == Width(loan)
  {
    [Row(LOAN, NAME_LABEL, loan.name), Row(LOAN, AMOUNT_LABEL, Grouped(loan.amount))]
    + if loan.remaining.Some? then [Row(LOAN, REMAINING_LABEL, Grouped(loan.remaining.value))] else []
  }

  function Columns(loans: seq<Loan>): seq<Row> {
    if loans == [] then [] else Columns(loans[..|loans| - 1]) + LoanColumns(loans[|loans| - 1])
  }

  lemma Stands(word: string, text: string, i: nat)
    requires FileSearch.OccursAt(word, text, i)
    ensures Has(word, text)
  {
  }

  lemma Missing(word: string, text: string)
    requires word != ""
    requires forall i :: 0 <= i < |text| && text[i] == word[0] ==> !FileSearch.OccursAt(word, text, i)
    ensures !Has(word, text)
  {
    forall i | 0 <= i <= |text|
      ensures !FileSearch.OccursAt(word, text, i)
    {
      if i < |text| && text[i] != word[0] {
        assert text[i + 0] != word[0];
      }
    }
  }

  lemma NameLabel()
    ensures Has(NAME, NAME_LABEL)
  {
    Stands(NAME, NAME_LABEL, 0);
  }

  lemma AmountLabel()
    ensures !Has(NAME, AMOUNT_LABEL) && Has(INSTALLMENT, AMOUNT_LABEL)
  {
    hide Has;
    assert |AMOUNT_LABEL| == 8 && forall i :: 0 <= i < 8 ==> AMOUNT_LABEL[i] != NAME[0];
    Missing(NAME, AMOUNT_LABEL);
    Stands(INSTALLMENT, AMOUNT_LABEL, 5);
  }

  lemma RemainingLabel()
    ensures !Has(NAME, REMAINING_LABEL) && !Has(INSTALLMENT, REMAINING_LABEL) && Has(REMAINING, REMAINING_LABEL)
  {
    hide Has;
    assert REMAINING_LABEL[2 + 1] != NAME[1];
    Missing(NAME, REMAINING_LABEL);
    Missing(INSTALLMENT, REMAINING_LABEL);
    Stands(REMAINING, REMAINING_LABEL, 0);
  }

  lemma ColumnLabels()
    ensures forall v :: KindOf(Row(LOAN, NAME_LABEL, v)) == NameCell
    ensures forall v :: KindOf(Row(LOAN, AMOUNT_LABEL, v)) == AmountCell
    ensures forall v :: KindOf(Row(LOAN, REMAINING_LABEL, v)) == RemainingCell
    ensures forall caption, v :: InLoanSection(Row(LOAN, caption, v))
  {
    Stands(LOAN, LOAN, 0);
    assert LOAN[0] != '_' && "__"[0] == '_';
    NameLabel();
    AmountLabel();
    RemainingLabel();
    hide Has;
  }

  lemma ColumnsWriteLoan(loan: Loan)
    requires Proper(loan)
    ensures WritesLoan(LoanColumns(loan), loan)
    ensures forall r :: r in LoanColumns(loan) ==> InLoanSection(r) && KindOf(r) != NoCell
  {
    hide KindOf, InLoanSection, ToInt, Strip, Grouped;
    ColumnLabels();
    GroupedReads(loan.amount);
    if loan.remaining.Some? {
      GroupedReads(loan.remaining.value);
    }
    assert Strip(loan.name) == loan.name;
  }

  lemma {:induction false} ColumnsWrite(loans: seq<Loan>)
    requires forall l :: l in loans ==> Proper(l)
    ensures WritesColumns(Columns(loans), loans)
    ensures forall r :: r in Columns(loans) ==> InLoanSection(r) && KindOf(r) != NoCell
  {
    hide Proper, WritesLoan, KindOf, InLoanSection, LoanColumns;
    if loans != [] {
      var init, last := loans[..|loans| - 1], loans[|loans| - 1];
      ColumnsWrite(init);
      ColumnsWriteLoan(last);
      var cut := |Columns(init)|;
      assert Columns(loans)[..cut] == Columns(init) && Columns(loans)[cut..] == LoanColumns(last);
    }
  }

  lemma {:induction false} AllKept(rows: seq<Row>)
    requires forall r :: r in rows ==> InLoanSection(r) && KindOf(r) != NoCell
    ensures LoanRows(rows) == rows && Cells(rows) == rows
  {
    hide InLoanSection, KindOf;
    if rows != [] {
      var init, last := rows[..|rows| - 1], rows[|rows| - 1];
      assert last in rows && init + [last] == rows;
      assert forall r :: r in init ==> r in rows;
      AllKept(init);
    }
  }

  lemma ProperAmounts(loans: seq<Loan>)
    requires forall l :: l in loans ==> Proper(l)
    ensures forall l :: l in loans ==> l.amount > 0
  {
  }

  /** Loans with trimmed names and positive amounts, written as columns, are read back, any number of them. */
  lemma {:induction false} ColumnsReadBack(loans: seq<Loan>)
    requires forall l :: l in loans ==> Proper(l)
    ensures ReadPayslip(Columns(loans)) == Ok(loans)
  {
    hide Proper, WritesColumns, InLoanSection, KindOf;
    ColumnsWrite(loans);
    AllKept(Columns(loans));
    if loans == [] {
      assert ReadPayslip([]) == Ok([]);
    } else {
      hide ReadPayslip;
      ProperAmounts(loans);
      ColumnRoundTrip(Columns(loans), loans);
    }
  }

  /** Writing the loans read from any payslip as columns and reading them again gives the same loans. */
  lemma ReadingIsStable(fields: seq<Row>)
    requires ReadPayslip(fields).Ok?
    ensures ReadPayslip(Columns(ReadPayslip(fields).value)) == ReadPayslip(fields)
  {
    hide Proper, ReadPayslip, Columns;
    ReadProper(fields);
    ColumnsReadBack(ReadPayslip(fields).value);
  }

  /** Loans whose names can stand as labels: not blank, no total, and without the words that mean something else. */
  predicate Nameable(loan: Loan) {
    && Proper(loan) && loan.name != "" && !(TOTAL <= loan.name)
    && !Has(REMAINING, loan.name) && !Has(INSTALLMENT, loan.name)
  }

  function LoanLines(loan: Loan): (rows: seq<Row>)
    ensures rows != []
  {
    [Row(LOAN, loan.name, Grouped(loan.amount))]
    + if loan.remaining.Some? then [Row(LOAN, REMAINING_LABEL, Grouped(loan.remaining.value))] else []
  }

  function Labels(loans: seq<Loan>): seq<Row> {
    if loans == [] then [] else Labels(loans[..|loans| - 1]) + LoanLines(loans[|loans| - 1])
  }

  /** A row of the loan section that the label layout reads. */
  predicate IsLine(r: Row) {
    InLoanSection(r) && !Has(INSTALLMENT, r.caption) && Meant(r)
  }

  lemma RemainderLabel(value: string)
    ensures IsLine(Row(LOAN, REMAINING_LABEL, value)) && IsRemainder(Row(LOAN, REMAINING_LABEL, value))
  {
    ColumnLabels();
    RemainingLabel();
    assert REMAINING_LABEL[0] != TOTAL[0];
    assert Trimmed(REMAINING_LABEL);
    hide Has, Strip, Trimmed;
    assert Strip(REMAINING_LABEL) == REMAINING_LABEL;
  }

  lemma LinesWriteLoan(loan: Loan)
    requires Nameable(loan)
    ensures WritesLines(LoanLines(loan), loan)
    ensures forall r :: r in LoanLines(loan) ==> IsLine(r)
  {
    ColumnLabels();
    hide ToInt, Has, Strip, Grouped, InLoanSection;
    GroupedReads(loan.amount);
    assert Strip(loan.name) == loan.name;
    var lines := LoanLines(loan);
    if loan.remaining.Some? {
      GroupedReads(loan.remaining.value);
      RemainderLabel(Grouped(loan.remaining.value));
      FirstOfOne(lines[1]);
      ReadableOrNot(lines[1].value);
      assert lines[1..] == [lines[1]];
    } else {
      assert lines[1..] == [];
    }
  }

  lemma FirstOfOne(r: Row)
    ensures FirstReadable([r]) == ToInt(r.value)
  {
    hide ToInt;
    assert [r][..0] == [];
  }

  lemma {:induction false} LinesWrite(loans: seq<Loan>)
    requires forall l :: l in loans ==> Nameable(l)
    ensures WritesLabels(Labels(loans), loans)
    ensures forall r :: r in Labels(loans) ==> IsLine(r)
  {
    hide Nameable, WritesLines, IsLine, LoanLines;
    if loans != [] {
      var init, last := loans[..|loans| - 1], loans[|loans| - 1];
      LinesWrite(init);
      LinesWriteLoan(last);
      var cut := |Labels(init)|;
      assert Labels(loans)[..cut] == Labels(init) && Labels(loans)[cut..] == LoanLines(last);
    }
  }

  lemma {:induction false} AllLinesKept(rows: seq<Row>)
    requires forall r :: r in rows ==> IsLine(r)
    ensures LoanRows(rows) == rows && Lines(rows) == rows && !HasColumns(rows)
  {
    hide InLoanSection, Meant, Has;
    if rows != [] {
      var init, last := rows[..|rows| - 1], rows[|rows| - 1];
      assert last in rows && init + [last] == rows;
      assert forall r :: r in init ==> r in rows;
      AllLinesKept(init);
    }
  }

  /** Loans with usable names, written under their names, are read back. */
  lemma {:induction false} LabelsReadBack(loans: seq<Loan>)
    requires forall l :: l in loans ==> Nameable(l)
    ensures ReadPayslip(Labels(loans)) == Ok(loans)
  {
    hide IsLine, Labels, WritesLabels, ReadPayslip;
    LinesWrite(loans);
    AllLinesKept(Labels(loans));
    ProperAmounts(loans);
    LabelRoundTrip(Labels(loans), loans);
  }

  lemma {:induction false} FiveNameable()
    ensures Nameable(Loan("x", 5, None)) && LoanLines(Loan("x", 5, None)) == [Row(LOAN, "x", "5")]
    ensures KindOf(Row(LOAN, "x", "5")) == NoCell
  {
    Missing(NAME, "x");
    Missing(INSTALLMENT, "x");
    Missing(REMAINING, "x");
    assert TOTAL[0] != "x"[0] && Trimmed("x");
    assert Grouped(5) == "5" && Short(5);
    hide Has;
  }

  lemma {:induction false} OnlyLabels(row: Row)
    requires KindOf(row) == NoCell
    ensures Cells(LoanRows([row])) == []
  {
    hide KindOf, InLoanSection;
    assert forall r :: r in LoanRows([row]) ==> r == row;
    assert forall r :: r in Cells(LoanRows([row])) ==> r in LoanRows([row]) && KindOf(r) != NoCell;
  }

  lemma {:induction false} OneLabel(row: Row, loan: Loan)
    requires LoanLines(loan) == [row] && Nameable(loan)
    ensures ReadPayslip([row]) == Ok([loan])
  {
    hide Nameable, KindOf, LoanLines, ReadPayslip;
    LabelsReadBack([loan]);
    assert [loan][..0] == [];
    assert Labels([loan]) == [] + LoanLines(loan);
    assert [] + [row] == [row];
  }

  /** A payslip with no loan columns but one other row of the loan section: the row is read as a loan. */
  lemma {:induction false} OtherRowRead()
    ensures WritesColumns(Cells(LoanRows([Row(LOAN, "x", "5")])), [])
    ensures ReadPayslip([Row(LOAN, "x", "5")]) == Ok([Loan("x", 5, None)])
  {
    hide Nameable, KindOf, LoanLines, ReadPayslip, Cells, LoanRows;
    FiveNameable();
    OnlyLabels(Row(LOAN, "x", "5"));
    OneLabel(Row(LOAN, "x", "5"), Loan("x", 5, None));
  }
}
