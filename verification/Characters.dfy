/** What the source's string tests know of characters beyond ASCII: digits of other scripts, and word characters. */
module Characters {
  // The tables of the interpreter's Unicode version are constants without a value, so that every result holds for all
  // of them. A table is only known to be plausible.

  /** A character that `\d` matches has a value; `str.isdigit` also accepts others, such as superscripts. */
  datatype DigitKind = NoDigit | DecimalDigit(value: int) | OtherDigit

  /** The characters that `str.strip` and the regular expression class `\s` treat as white space. */
  predicate IsSpace(c: char) {
    || '\U{9}' <= c <= '\U{d}'
    || '\U{1c}' <= c <= '\U{20}'
    || c == '\U{85}' || c == '\U{a0}' || c == '\U{1680}'
    || '\U{2000}' <= c <= '\U{200a}'
    || c == '\U{2028}' || c == '\U{2029}' || c == '\U{202f}' || c == '\U{205f}' || c == '\U{3000}'
  }

  /** Values are below ten, white space is no digit, U+096B is a five and U+00B2 a superscript. */
  predicate Plausible(kind: char -> DigitKind) {
    && (forall c :: kind(c).DecimalDigit? ==> 0 <= kind(c).value <= 9)
    && (forall c :: IsSpace(c) ==> kind(c) == NoDigit)
    && kind('\U{96B}') == DecimalDigit(5)
    && kind('\U{B2}') == OtherDigit
  }

  function TwoCharacters(c: char): DigitKind {
    if c == '\U{96B}' then DecimalDigit(5) else if c == '\U{B2}' then OtherDigit else NoDigit
  }

  type DigitTable = kind: char -> DigitKind | Plausible(kind) witness TwoCharacters

  const DIGITS_BEYOND_ASCII: DigitTable

  const WORDS_BEYOND_ASCII: set<char>

  function DigitOf(c: char): (kind: DigitKind)
    ensures kind.DecimalDigit? ==> 0 <= kind.value <= 9
    ensures IsSpace(c) ==> kind == NoDigit
  {
    if '0' <= c <= '9' then DecimalDigit(c as int - '0' as int)
    else if c < '\U{80}' then NoDigit
    else DIGITS_BEYOND_ASCII(c)
  }

  /** `\w`. */
  predicate IsWord(c: char) {
    || '0' <= c <= '9' || 'A' <= c <= 'Z' || 'a' <= c <= 'z' || c == '_'
    || (c >= '\U{80}' && c in WORDS_BEYOND_ASCII)
  }
}
