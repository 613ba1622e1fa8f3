/** What the two HTML cleaners share of attributes: directions, numbers in a range, and values that need no escaping. */
module HtmlAttributes {
  import opened Common
  import opened Strings
  import opened Transducer
  import MarkupText

  predicate IsDirection(s: string) {
    s == "rtl" || s == "ltr" || s == "auto"
  }

  function CleanDirection(value: string): Option<Attr> {
    if IsDirection(Lower(value)) then Some(Attr("dir", Lower(value))) else None
  }

  predicate IsSpanName(name: string) {
    name == "colspan" || name == "rowspan"
  }

  const MAX_SPAN := 50

  /** `value.isdigit() and 1 <= int(value) <= max`, where the conversion raises no error. */
  predicate InRange(value: string, max: int) {
    IsInt(value) && 1 <= ParseNat(value) <= max
  }

  function CleanNumber(name: string, value: string, max: int): Option<Attr> {
    if InRange(value, max) then Some(Attr(name, Decimal(ParseNat(value)))) else None
  }

  /** A number as it is written. */
  predicate Printed(value: string, max: int) {
    InRange(value, max) && value == Decimal(ParseNat(value))
  }

  lemma {:induction false} NumberPrinted(value: string, max: int)
    requires InRange(value, max)
    ensures Printed(Decimal(ParseNat(value)), max)
  {
    ParseDecimal(ParseNat(value));
    PrintedShorter(value);
    hide ParseNat, Decimal;
  }

  lemma {:induction false} PrintedAgain(name: string, value: string, max: int)
    requires Printed(value, max)
    ensures Trimmed(value) && PlainValue(value) && !Unreadable(value)
    ensures CleanNumber(name, value, max) == Some(Attr(name, value))
  {
    DigitsTrimmed(value);
    hide ParseNat, Decimal;
  }

  lemma DirectionPlain(value: string)
    requires IsDirection(value)
    ensures Lower(value) == value && Trimmed(value) && PlainValue(value)
  {
  }

  /** `html.escape` would leave the character as it is. */
  predicate PlainChar(c: char) {
    c != '&' && c != '<' && c != '>' && c != '"' && c != '\''
  }

  predicate PlainValue(s: string) {
    forall i :: 0 <= i < |s| ==> PlainChar(s[i])
  }

  lemma PlainUnescaped(value: string)
    requires PlainValue(value)
    ensures MarkupText.Escape(value, true) == value
  {
    MarkupText.NothingEscaped(value, true);
  }
}
