/** The tags and attributes of letters (backend/app/core/oa_html.py). */
module OaAttributes {
  import opened Common
  import opened Strings
  import opened Transducer
  import opened StyleDeclarations
  import opened HtmlAttributes

  datatype Tag =
    // allowed
    | P | H2 | H3 | Strong | Em | U | S | Ul | Ol | Li | Table | Thead | Tbody | Tr | Th | Td | Blockquote | Br | Span
    // rewritten to an allowed tag
    | B | I | Strike | Del | H1 | H4 | H5 | H6
    // dropped together with their content
    | Script | Style | Iframe | Object | Embed | Noscript | Template | Svg | Math | Head | Title | Xml | Select
    | Textarea | Button | Form | Canvas | Video | Audio
    // any other name
    | Other(name: string)

  predicate DropsContent(tag: Tag) {
    || tag.Script? || tag.Style? || tag.Iframe? || tag.Object? || tag.Embed? || tag.Noscript? || tag.Template?
    || tag.Svg? || tag.Math? || tag.Head? || tag.Title? || tag.Xml? || tag.Select? || tag.Textarea? || tag.Button?
    || tag.Form? || tag.Canvas? || tag.Video? || tag.Audio?
  }

  function Alias(tag: Tag): Tag {
    match tag
    case B => Strong
    case I => Em
    case Strike => S
    case Del => S
    case H1 => H2
    case H4 => H3
    case H5 => H3
    case H6 => H3
    case _ => tag
  }

  predicate Allowed(tag: Tag) {
    || tag.P? || tag.H2? || tag.H3? || tag.Strong? || tag.Em? || tag.U? || tag.S? || tag.Ul? || tag.Ol? || tag.Li?
    || tag.Table? || tag.Thead? || tag.Tbody? || tag.Tr? || tag.Th? || tag.Td? || tag.Blockquote? || tag.Br?
    || tag.Span?
  }

  predicate Alignable(tag: Tag) {
    tag.P? || tag.H2? || tag.H3? || tag.Li? || tag.Th? || tag.Td? || tag.Blockquote?
  }

  // ---------- one style declaration ----------

  predicate IsAlignment(s: string) {
    s == "right" || s == "center" || s == "left" || s == "justify"
  }

  const DOT := '\U{307}'
  const DOTTED := '\U{130}'

  /** `str.lower` on the characters that `Fold` takes for letters: U+0130 becomes an `i` and a combining dot. */
  function LowerText(c: char): string {
    if 'A' <= c <= 'Z' then [c - 'A' + 'a']
    else if c == '\U{130}' then ['i', DOT]
    else if c == '\U{212A}' then ['k']
    else [c]
  }

  function LowerAll(s: string): string {
    if s == "" then "" else LowerText(s[0]) + LowerAll(s[1..])
  }

  const ALIGN := "text-align"

  /** The alignment named by a declaration of the form `text-align: x`, as it is spelled. */
  function RawAlign(decl: string): Option<string> {
    var d := Strip(decl);
    if |d| < |ALIGN| || FoldAll(d[..|ALIGN|]) != ALIGN then None
    else
      var rest := StripLeft(d[|ALIGN|..]);
      if rest == "" || rest[0] != ':' then None
      else
        var value := StripLeft(rest[1..]);
        if IsAlignment(FoldAll(value)) then Some(value) else None
  }

  /** The alignment in lower case, as it is written. */
  function MatchAlign(decl: string): Option<string> {
    var raw := RawAlign(decl);
    if raw.Some? then Some(LowerAll(raw.value)) else None
  }

  function FirstAlign(decls: seq<string>): Option<string> {
    if decls == [] then None
    else
      var m := MatchAlign(decls[0]);
      if m.Some? then m else FirstAlign(decls[1..])
  }

  /** The display name of an offered font, looked up by its lower-case name. */
  function FontName(lower: string): (r: Option<string>)
    ensures r.Some? ==> IsFont(r.value)
  {
    if lower == "vazirmatn" then Some("Vazirmatn")
    else if lower == "noto naskh arabic" then Some("Noto Naskh Arabic")
    else if lower == "lalezar" then Some("Lalezar")
    else if lower == "tahoma" then Some("Tahoma")
    else if lower == "b nazanin" then Some("B Nazanin")
    else None
  }

  predicate IsFont(s: string) {
    s == "Vazirmatn" || s == "Noto Naskh Arabic" || s == "Lalezar" || s == "Tahoma" || s == "B Nazanin"
  }

  predicate IsQuote(c: char) {
    c == '\'' || c == '"'
  }

  function StripQuotes(s: string): (r: string)
    ensures s == "" || (!IsQuote(s[0]) && !IsQuote(s[|s| - 1])) ==> r == s
    decreases |s|
  {
    if s != "" && IsQuote(s[0]) then StripQuotes(s[1..])
    else if s != "" && IsQuote(s[|s| - 1]) then StripQuotes(s[..|s| - 1])
    else s
  }

  /** One or two digits, optionally a point and one more digit; digits of any script. */
  predicate IsSizeNumber(s: string) {
    if |s| <= 2 then s != "" && AllDecimal(s)
    else |s| <= 4 && s[|s| - 2] == '.' && AllDecimal(s[..|s| - 2]) && IsDecimal(s[|s| - 1])
  }

  /** The size in tenths of a point. */
  function SizeTenths(s: string): int
    requires IsSizeNumber(s)
  {
    if |s| <= 2 then ParseNat(s) * 10
    else ParseNat(s[..|s| - 2]) * 10 + DigitValue(s[|s| - 1])
  }

  const FONT_SIZE_MIN := 8
  const FONT_SIZE_MAX := 36

  predicate IsOfferedSize(s: string) {
    IsSizeNumber(s) && FONT_SIZE_MIN * 10 <= SizeTenths(s) <= FONT_SIZE_MAX * 10
  }

  /** The number of a `font-size` value in points, when the regular expression matches it and it is in range. */
  function MatchSize(value: string): (r: Option<string>)
    ensures r.Some? ==> IsOfferedSize(r.value)
  {
    var v := Strip(value);
    if |v| < 2 || Lower(v[|v| - 2..]) != "pt" then None
    else
      var number := StripRight(v[..|v| - 2]);
      if IsOfferedSize(number) then Some(number) else None
  }

  const FAMILY := "font-family"
  const SIZE := "font-size"

  /** The clean form of one declaration of a `span` style. */
  function CleanDecl(decl: string): Option<string> {
    if ':' !in decl then None else CleanProperty(Property(decl), Value(decl))
  }

  function CleanProperty(property: string, value: string): Option<string> {
    if property == FAMILY then
      var font := FontName(Lower(StripQuotes(Strip(Split(value, ',')[0]))));
      if font.Some? then Some(FAMILY + ": " + font.value) else None
    else if property == SIZE then
      var size := MatchSize(value);
      if size.Some? then Some(SIZE + ": " + (size.value + "pt")) else None
    else
      None
  }

  function SpanStyle(value: string): string {
    CleanedStyle(CleanDecl, value)
  }

  // ---------- one attribute ----------

  predicate IsCell(tag: Tag) {
    tag.Th? || tag.Td?
  }

  /** What an attribute becomes, where cleaning it raises no error. */
  function CleanAttr(tag: Tag, attr: Attr): Option<Attr> {
    CleanNamed(tag, Lower(attr.name), Strip(attr.value))
  }

  function CleanNamed(tag: Tag, name: string, value: string): Option<Attr> {
    if name == "dir" then CleanDirection(value)
    else if IsSpanName(name) then CleanCellSpan(tag, name, value)
    else if name == "style" then CleanTagStyle(tag, value)
    else None
  }

  function CleanCellSpan(tag: Tag, name: string, value: string): Option<Attr> {
    if IsCell(tag) then CleanNumber(name, value, MAX_SPAN) else None
  }

  function CleanTagStyle(tag: Tag, value: string): Option<Attr> {
    if tag.Span? then
      if SpanStyle(value) != "" then Some(Attr("style", SpanStyle(value))) else None
    else if Alignable(tag) then
      var align := FirstAlign(Split(value, ';'));
      if align.Some? then Some(Attr("style", ALIGN + ": " + align.value)) else None
    else
      None
  }

  function CleanAttrs(tag: Tag, attrs: seq<Attr>): seq<Attr> {
    if attrs == [] then []
    else
      CleanAttrs(tag, attrs[..|attrs| - 1]) +
      (var last := CleanAttr(tag, attrs[|attrs| - 1]); if last.Some? then [last.value] else [])
  }

  /** Cleaning raises a value error: a span of a cell that passes `isdigit` but is no number. */
  predicate AttrRaises(tag: Tag, attr: Attr) {
    IsCell(tag) && IsSpanName(Lower(attr.name)) && Unreadable(Strip(attr.value))
  }

  predicate AttrsRaise(tag: Tag, attrs: seq<Attr>) {
    exists i :: 0 <= i < |attrs| && AttrRaises(tag, attrs[i])
  }

  // ---------- span styles ----------

  lemma FontSettled(font: string)
    requires IsFont(font)
    ensures Settled(CleanDecl, FAMILY + ": " + font)
  {
    hide Property, Value, CleanProperty;
    FontCleaned(font);
    DeclParts(FAMILY, font);
  }

  lemma FontCleaned(font: string)
    requires IsFont(font)
    ensures Trimmed(font) && ';' !in font
    ensures CleanProperty(FAMILY, font) == Some(FAMILY + ": " + font)
  {
    hide FontName;
    FontPlain(font);
    hide IsFont, StripQuotes, IsQuote, Strip, Split;
    FontFound(font);
  }

  lemma {:induction false} FontPlain(font: string)
    requires IsFont(font)
    ensures Trimmed(font) && ';' !in font
    ensures Strip(font) == font && StripQuotes(font) == font && Split(font, ',') == [font]
  {
    FontUncut(font);
    FontEnds(font);
    hide IsFont, StripQuotes, Strip, Split;
  }

  lemma FontUncut(font: string)
    requires IsFont(font)
    ensures ',' !in font && ';' !in font
  {
  }

  lemma {:induction false} FontEnds(font: string)
    requires IsFont(font)
    ensures Trimmed(font) && StripQuotes(font) == font
  {
  }

  lemma FontFound(font: string)
    requires IsFont(font)
    ensures FontName(Lower(font)) == Some(font)
  {
    hide FontName, Lower;
    if font == "Vazirmatn" || font == "Lalezar" || font == "Tahoma" {
      ShortFontFound(font);
    } else {
      LongFontFound(font);
    }
  }

  lemma ShortFontFound(font: string)
    requires font == "Vazirmatn" || font == "Lalezar" || font == "Tahoma"
    ensures FontName(Lower(font)) == Some(font)
  {
    if font == "Vazirmatn" {
      assert Lower(font) == "vazirmatn";
    } else if font == "Lalezar" {
      assert Lower(font) == "lalezar";
    } else {
      assert Lower(font) == "tahoma";
    }
  }

  lemma LongFontFound(font: string)
    requires font == "Noto Naskh Arabic" || font == "B Nazanin"
    ensures FontName(Lower(font)) == Some(font)
  {
    if font == "B Nazanin" {
      assert Lower(font) == "b nazanin";
    } else {
      assert Lower(font) == "noto naskh arabic";
    }
  }

  lemma SizeSettled(number: string)
    requires IsOfferedSize(number)
    ensures Settled(CleanDecl, SIZE + ": " + (number + "pt"))
  {
    hide Property, Value, CleanProperty;
    SizeCleaned(number);
    DeclParts(SIZE, number + "pt");
  }

  lemma SizeCleaned(number: string)
    requires IsOfferedSize(number)
    ensures Trimmed(number + "pt") && ';' !in number
    ensures CleanProperty(SIZE, number + "pt") == Some(SIZE + ": " + (number + "pt"))
  {
    SizeMatched(number);
    assert |SIZE| != |FAMILY|;
    hide IsOfferedSize, MatchSize;
  }

  lemma SizeMatched(number: string)
    requires IsOfferedSize(number)
    ensures Trimmed(number + "pt") && ';' !in number
    ensures MatchSize(number + "pt") == Some(number)
  {
    hide SizeTenths;
    var value := number + "pt";
    assert IsDecimal(value[0]);
    assert value[|value| - 2..] == "pt" && value[..|value| - 2] == number;
    assert IsDecimal(number[|number| - 1]);
  }

  lemma CleanDeclSettled(decl: string)
    requires CleanDecl(decl).Some?
    ensures Settled(CleanDecl, CleanDecl(decl).value)
  {
    PropertySettled(Property(decl), Value(decl));
  }

  lemma PropertySettled(property: string, value: string)
    requires CleanProperty(property, value).Some?
    ensures Settled(CleanDecl, CleanProperty(property, value).value)
  {
    hide Settled, FontName, MatchSize, StripQuotes, Split;
    if property == FAMILY {
      FontSettled(FontName(Lower(StripQuotes(Strip(Split(value, ',')[0])))).value);
    } else {
      SizeSettled(MatchSize(value).value);
    }
  }

  /** Cleaning the style of a `span` twice is cleaning it once. */
  lemma {:induction false} SpanStyleIdempotent(value: string)
    ensures Trimmed(SpanStyle(value))
    ensures SpanStyle(SpanStyle(value)) == SpanStyle(value)
  {
    hide Settled, CleanedStyle;
    forall d | CleanDecl(d).Some?
      ensures Settled(CleanDecl, CleanDecl(d).value)
    {
      CleanDeclSettled(d);
    }
    StyleTwice(CleanDecl, value);
  }

  // ---------- alignments ----------

  /** Neither white space nor a character with a meaning in HTML or in a style. */
  predicate OrdinaryLetter(c: char) {
    'a' <= c <= 'z' || c == '\U{131}' || c == '\U{17F}'
  }

  function WithoutDots(s: string): string {
    if s == "" then "" else (if s[0] == DOT then "" else [s[0]]) + WithoutDots(s[1..])
  }

  predicate OrdinaryOrDots(s: string) {
    forall i :: 0 <= i < |s| ==> OrdinaryLetter(s[i]) || s[i] == DOT
  }

  /** The alignments that are written: what the regular expression matched, in lower case. */
  predicate IsAlignText(text: string) {
    OrdinaryOrDots(text) && IsAlignment(FoldAll(WithoutDots(text)))
  }

  lemma OrdinaryConcat(a: string, b: string)
    requires OrdinaryOrDots(a) && OrdinaryOrDots(b)
    ensures OrdinaryOrDots(a + b)
  {
    hide OrdinaryLetter;
  }

  /** Lower case keeps what is matched, but for the dot of a dotted capital I. */
  lemma {:induction false} LowerKeeps(raw: string)
    requires forall i :: 0 <= i < |raw| ==> 'a' <= Fold(raw[i]) <= 'z'
    ensures FoldAll(WithoutDots(LowerAll(raw))) == FoldAll(raw)
    ensures OrdinaryOrDots(LowerAll(raw))
  {
    hide LowerText, Fold, WithoutDots, OrdinaryOrDots, OrdinaryLetter;
    if raw == "" {
      LowerNothing();
    } else {
      var tail := LowerAll(raw[1..]);
      LowerKeeps(raw[1..]);
      LowerHead(raw[0], tail);
      OrdinaryConcat(LowerText(raw[0]), tail);
      FoldHead(raw);
    }
  }

  lemma FoldHead(raw: string)
    requires raw != ""
    ensures FoldAll(raw) == [Fold(raw[0])] + FoldAll(raw[1..])
  {
  }

  lemma {:induction false} LowerDots(raw: string)
    requires forall i :: 0 <= i < |raw| ==> 'a' <= Fold(raw[i]) <= 'z'
    ensures DOT in LowerAll(raw) <==> DOTTED in raw
  {
    hide LowerText, Fold;
    if raw != "" {
      LowerDots(raw[1..]);
      LowerDot(raw[0]);
      assert raw == [raw[0]] + raw[1..];
    }
  }

  lemma LowerDot(c: char)
    requires 'a' <= Fold(c) <= 'z'
    ensures DOT in LowerText(c) <==> c == DOTTED
    ensures OrdinaryOrDots(LowerText(c))
  {
  }

  lemma LowerNothing()
    ensures LowerAll("") == "" && FoldAll(WithoutDots("")) == FoldAll("") && OrdinaryOrDots("")
  {
  }

  lemma {:induction false} LowerHead(c: char, tail: string)
    requires 'a' <= Fold(c) <= 'z'
    ensures FoldAll(WithoutDots(LowerText(c) + tail)) == [Fold(c)] + FoldAll(WithoutDots(tail))
    ensures OrdinaryOrDots(LowerText(c))
  {
    LowerDot(c);
    var head := LowerText(c);
    if c == '\U{130}' {
      assert (head + tail)[1..] == [DOT] + tail && ([DOT] + tail)[1..] == tail;
    } else {
      assert (head + tail)[1..] == tail;
    }
    assert WithoutDots(head + tail) == [head[0]] + WithoutDots(tail);
    hide WithoutDots;
    assert FoldAll([head[0]] + WithoutDots(tail)) == [Fold(head[0])] + FoldAll(WithoutDots(tail));
  }

  lemma OrdinaryHead(text: string)
    requires text != "" && OrdinaryOrDots(text) && DOT !in text
    ensures text[0] != DOT && LowerText(text[0]) == [text[0]]
    ensures OrdinaryOrDots(text[1..]) && DOT !in text[1..]
  {
    assert text[0] in text && forall c :: c in text[1..] ==> c in text;
  }

  /** Ordinary letters without a dot stay as they are. */
  lemma {:induction false} OrdinaryStays(text: string)
    requires OrdinaryOrDots(text) && DOT !in text
    ensures WithoutDots(text) == text && LowerAll(text) == text
  {
    hide OrdinaryOrDots, LowerText, OrdinaryLetter;
    if text != "" {
      OrdinaryHead(text);
      OrdinaryStays(text[1..]);
      assert text == [text[0]] + text[1..];
    }
  }

  lemma AlignmentLetters(raw: string)
    requires IsAlignment(FoldAll(raw))
    ensures raw != "" && forall i :: 0 <= i < |raw| ==> 'a' <= Fold(raw[i]) <= 'z'
  {
    var f := FoldAll(raw);
    assert forall i :: 0 <= i < |f| ==> 'a' <= f[i] <= 'z';
  }

  lemma MatchedText(raw: string)
    requires IsAlignment(FoldAll(raw))
    ensures IsAlignText(LowerAll(raw)) && (DOT in LowerAll(raw) <==> '\U{130}' in raw)
  {
    AlignmentLetters(raw);
    LowerKeeps(raw);
    LowerDots(raw);
  }

  lemma DottedNoAlignment(text: string)
    requires DOT in text
    ensures !IsAlignment(FoldAll(text))
  {
    var f := FoldAll(text);
    var i :| 0 <= i < |text| && text[i] == DOT;
    assert f[i] == DOT;
  }

  lemma {:induction false} AlignTextShape(text: string)
    requires IsAlignText(text)
    ensures text != "" && Trimmed(text) && ';' !in text
  {
    assert FoldAll(WithoutDots("")) == "";
    hide IsAlignment;
    assert !IsAlignment("") by { NoAlignment(); }
  }

  lemma NoAlignment()
    ensures !IsAlignment("")
  {
  }

  /** A written alignment is read back as itself, or not at all when it holds a combining dot. */
  lemma {:induction false} AlignMatched(text: string)
    requires IsAlignText(text)
    ensures MatchAlign(ALIGN + ": " + text) == if DOT in text then None else Some(text)
  {
    AlignTextShape(text);
    MatchParts(text);
    if DOT in text {
      DottedNoAlignment(text);
    } else {
      OrdinaryStays(text);
    }
    hide MatchAlign, OrdinaryOrDots, WithoutDots, LowerAll;
  }

  lemma {:induction false} MatchParts(text: string)
    requires text != "" && Trimmed(text)
    ensures MatchAlign(ALIGN + ": " + text) == if IsAlignment(FoldAll(text)) then Some(LowerAll(text)) else None
  {
    AlignCut(text);
    hide Strip, StripLeft, IsAlignment, FoldAll, LowerAll, Trimmed;
  }

  /** The parts of a written alignment. */
  lemma {:induction false} AlignCut(text: string)
    requires text != "" && Trimmed(text)
    ensures var d := ALIGN + ": " + text;
            && Strip(d) == d && Trimmed(d) && d[..|ALIGN|] == ALIGN && FoldAll(ALIGN) == ALIGN
            && StripLeft(d[|ALIGN|..]) == ": " + text
            && StripLeft((": " + text)[1..]) == text
  {
    var d := ALIGN + ": " + text;
    assert d[0] == 't' && d[|d| - 1] == text[|text| - 1];
    assert d[|ALIGN|..] == ": " + text;
    assert (": " + text)[1..] == " " + text && (" " + text)[1..] == text;
    assert FoldAll(ALIGN) == ALIGN;
  }

  lemma {:induction false} AlignRead(text: string)
    requires IsAlignText(text)
    ensures FirstAlign(Split(ALIGN + ": " + text, ';')) == if DOT in text then None else Some(text)
  {
    hide MatchAlign;
    AlignTextShape(text);
    AlignMatched(text);
    SplitWhole(ALIGN + ": " + text);
    assert [ALIGN + ": " + text][1..] == [];
  }

  lemma {:induction false} FirstAlignText(decls: seq<string>)
    ensures FirstAlign(decls).Some? ==> IsAlignText(FirstAlign(decls).value)
  {
    hide IsAlignment, IsAlignText, LowerAll, FoldAll;
    if decls != [] {
      FirstAlignText(decls[1..]);
      MatchAlignText(decls[0]);
    }
  }

  lemma RawMatches(decl: string)
    ensures RawAlign(decl).Some? ==> IsAlignment(FoldAll(RawAlign(decl).value))
  {
    hide FoldAll, IsAlignment, Strip, StripLeft;
  }

  lemma MatchAlignText(decl: string)
    ensures MatchAlign(decl).Some? ==> IsAlignText(MatchAlign(decl).value)
    ensures MatchAlign(decl).Some? ==> (DOT in MatchAlign(decl).value <==> DOTTED in RawAlign(decl).value)
  {
    hide IsAlignText, LowerAll, FoldAll, IsAlignment, RawAlign;
    RawMatches(decl);
    if RawAlign(decl).Some? {
      MatchedText(RawAlign(decl).value);
    }
  }

  // ---------- cleaned once more ----------

  /** An attribute as the cleaner writes it. */
  predicate Kept(tag: Tag, c: Attr) {
    || (c.name == "dir" && IsDirection(c.value))
    || (IsSpanName(c.name) && IsCell(tag) && Printed(c.value, MAX_SPAN))
    || (c.name == "style" && tag.Span? && c.value != "" && SpanStyle(c.value) == c.value)
    || IsAlignAttr(tag, c)
  }

  predicate IsAlignAttr(tag: Tag, c: Attr) {
    && c.name == "style" && Alignable(tag)
    && |c.value| > |ALIGN| + 2 && c.value[..|ALIGN| + 2] == ALIGN + ": " && IsAlignText(c.value[|ALIGN| + 2..])
  }

  /** An alignment that was written with a dotted capital I: the next pass drops it. */
  predicate Unsteady(tag: Tag, c: Attr) {
    IsAlignAttr(tag, c) && DOT in c.value
  }

  lemma NameKept(name: string)
    requires name == "dir" || IsSpanName(name) || name == "style"
    ensures Lower(name) == name
  {
  }

  lemma DirectionKept(tag: Tag, value: string)
    requires CleanDirection(value).Some?
    ensures Kept(tag, CleanDirection(value).value)
  {
    hide CleanTagStyle, IsAlignAttr;
  }

  lemma {:induction false} CellSpanKept(tag: Tag, name: string, value: string)
    requires IsSpanName(name) && CleanCellSpan(tag, name, value).Some?
    ensures Kept(tag, CleanCellSpan(tag, name, value).value)
  {
    hide IsAlignAttr, SpanStyle, Printed;
    NumberPrinted(value, MAX_SPAN);
  }

  lemma {:induction false} StyleKept(tag: Tag, value: string)
    requires CleanTagStyle(tag, value).Some?
    ensures Kept(tag, CleanTagStyle(tag, value).value)
  {
    hide SpanStyle, FirstAlign, Split, IsAlignText, Printed, IsDirection;
    if tag.Span? {
      SpanStyleIdempotent(value);
    } else {
      FirstAlignText(Split(value, ';'));
      var text := FirstAlign(Split(value, ';')).value;
      AlignTextShape(text);
      var v := ALIGN + ": " + text;
      assert v[..|ALIGN| + 2] == ALIGN + ": " && v[|ALIGN| + 2..] == text;
    }
  }

  lemma {:induction false} CleanedKept(tag: Tag, attr: Attr)
    requires CleanAttr(tag, attr).Some?
    ensures Kept(tag, CleanAttr(tag, attr).value)
  {
    hide CleanDirection, CleanCellSpan, CleanTagStyle, Lower, Strip, Kept;
    var name, value := Lower(attr.name), Strip(attr.value);
    if name == "dir" {
      DirectionKept(tag, value);
    } else if name == "style" {
      StyleKept(tag, value);
    } else {
      CellSpanKept(tag, name, value);
    }
  }

  lemma {:induction false} DirectionAgain(tag: Tag, c: Attr)
    requires c.name == "dir" && IsDirection(c.value)
    ensures !AttrRaises(tag, c) && CleanAttr(tag, c) == Some(c)
  {
    NameKept("dir");
    assert Lower(c.value) == c.value && Trimmed(c.value) by { DirectionPlain(c.value); }
    hide Lower, Strip, CleanCellSpan, CleanTagStyle;
  }

  lemma {:induction false} CellSpanAgain(tag: Tag, c: Attr)
    requires IsSpanName(c.name) && IsCell(tag) && Printed(c.value, MAX_SPAN)
    ensures !AttrRaises(tag, c) && CleanAttr(tag, c) == Some(c) && PlainValue(c.value)
  {
    NameKept(c.name);
    PrintedAgain(c.name, c.value, MAX_SPAN);
    hide Lower, Strip, CleanTagStyle, CleanDirection, CleanNumber, Unreadable;
  }

  lemma {:induction false} StyleNamed(tag: Tag, c: Attr)
    requires c.name == "style" && Trimmed(c.value)
    ensures !AttrRaises(tag, c) && CleanAttr(tag, c) == CleanTagStyle(tag, c.value)
  {
    NameKept(c.name);
    assert Strip(c.value) == c.value;
    hide Lower, Strip, CleanDirection, CleanCellSpan, CleanTagStyle;
  }

  lemma {:induction false} SpanStyleAgain(tag: Tag, c: Attr)
    requires c.name == "style" && tag.Span? && c.value != "" && SpanStyle(c.value) == c.value
    ensures !AttrRaises(tag, c) && CleanAttr(tag, c) == Some(c)
  {
    SpanStyleIdempotent(c.value);
    StyleNamed(tag, c);
    hide CleanAttr, AttrRaises, SpanStyle;
  }

  lemma {:induction false} AlignParts(tag: Tag, c: Attr) returns (text: string)
    requires IsAlignAttr(tag, c)
    ensures c.name == "style" && c.value == ALIGN + ": " + text && IsAlignText(text) && Alignable(tag) && Trimmed(c.value)
    ensures DOT in c.value <==> DOT in text
  {
    text := c.value[|ALIGN| + 2..];
    assert c.value == ALIGN + ": " + text;
    AlignTextShape(text);
    AlignCut(text);
  }

  lemma {:induction false} AlignAgain(tag: Tag, c: Attr)
    requires IsAlignAttr(tag, c)
    ensures !AttrRaises(tag, c)
    ensures CleanAttr(tag, c) == if Unsteady(tag, c) then None else Some(c)
  {
    var text := AlignParts(tag, c);
    AlignRead(text);
    StyleNamed(tag, c);
    hide CleanAttr, AttrRaises, IsAlignAttr, FirstAlign, Split, IsAlignText, Trimmed;
  }

  lemma {:induction false} AlignPlain(tag: Tag, c: Attr)
    requires IsAlignAttr(tag, c)
    ensures c.name == "style" && PlainValue(c.value)
  {
    var text := AlignParts(tag, c);
    hide IsAlignment, FoldAll, WithoutDots, Trimmed;
    assert PlainValue(text) && PlainValue(ALIGN + ": ");
  }

  /** A written attribute is cleaned again without an error, and to itself exactly when it is no alignment with a dotted
      capital I; such an alignment is dropped. */
  lemma {:induction false} KeptAgain(tag: Tag, c: Attr)
    requires Kept(tag, c)
    ensures !AttrRaises(tag, c)
    ensures CleanAttr(tag, c) == if Unsteady(tag, c) then None else Some(c)
  {
    hide AttrRaises, CleanAttr, IsDirection, Printed, SpanStyle, IsAlignAttr, Decimal, ParseNat;
    if IsAlignAttr(tag, c) {
      AlignAgain(tag, c);
    } else if c.name == "dir" {
      DirectionAgain(tag, c);
    } else if c.name == "style" {
      SpanStyleAgain(tag, c);
    } else {
      CellSpanAgain(tag, c);
    }
  }

  /** The first declaration that names an alignment spells it with a dotted capital I. */
  predicate FirstDotted(decls: seq<string>) {
    decls != []
    && (if RawAlign(decls[0]).Some? then DOTTED in RawAlign(decls[0]).value else FirstDotted(decls[1..]))
  }

  lemma {:induction false} FirstAlignDotted(decls: seq<string>)
    ensures FirstDotted(decls) <==> FirstAlign(decls).Some? && DOT in FirstAlign(decls).value
  {
    hide RawAlign, LowerAll;
    if decls != [] {
      MatchAlignText(decls[0]);
      FirstAlignDotted(decls[1..]);
    }
  }

  /** The attribute is a style that aligns, with a dotted capital I in the first alignment it names. */
  predicate DottedAttr(tag: Tag, attr: Attr) {
    Lower(attr.name) == "style" && Alignable(tag) && FirstDotted(Split(Strip(attr.value), ';'))
  }

  /** What is written of an attribute is an alignment that the next pass drops exactly when the attribute spells it so. */
  lemma {:induction false} UnsteadyExactly(tag: Tag, attr: Attr)
    ensures DottedAttr(tag, attr) <==> CleanAttr(tag, attr).Some? && Unsteady(tag, CleanAttr(tag, attr).value)
  {
    var name, value := Lower(attr.name), Strip(attr.value);
    hide Lower, Strip, SpanStyle, CleanDirection, CleanCellSpan;
    if name == "style" && Alignable(tag) {
      FirstAlignDotted(Split(value, ';'));
      hide Split, FirstDotted, FirstAlign;
      if CleanTagStyle(tag, value).Some? {
        StyleKept(tag, value);
        AlignDot(tag, value);
      }
    } else if CleanAttr(tag, attr).Some? {
      hide IsAlignText, FirstAlign, Split, FirstDotted;
      CleanedName(tag, attr);
    }
  }

  /** The dot of a written alignment is that of the alignment itself. */
  lemma {:induction false} AlignDot(tag: Tag, value: string)
    requires Alignable(tag) && FirstAlign(Split(value, ';')).Some?
    ensures var text := FirstAlign(Split(value, ';')).value;
            CleanTagStyle(tag, value) == Some(Attr("style", ALIGN + ": " + text))
            && (Unsteady(tag, Attr("style", ALIGN + ": " + text)) <==> DOT in text)
  {
    FirstAlignText(Split(value, ';'));
    var text := FirstAlign(Split(value, ';')).value;
    hide FirstAlign, Split, IsAlignText;
    AlignTextShape(text);
    var v := ALIGN + ": " + text;
    assert v[..|ALIGN| + 2] == ALIGN + ": " && v[|ALIGN| + 2..] == text;
    assert DOT in v <==> DOT in text;
  }

  lemma CleanedName(tag: Tag, attr: Attr)
    requires CleanAttr(tag, attr).Some?
    ensures var c := CleanAttr(tag, attr).value;
            c.name == Lower(attr.name) && (Lower(attr.name) == "style" ==> tag.Span? || Alignable(tag))
  {
    hide Lower, Strip, SpanStyle, FirstAlign, Split, IsDirection, InRange, Decimal, ParseNat;
  }

  /** What cleaning writes of an attribute is cleaned again without an error, and to itself exactly when the attribute is no
      alignment spelled with a dotted capital I; such an alignment is dropped. */
  lemma {:induction false} CleanAttrIdempotent(tag: Tag, attr: Attr)
    requires CleanAttr(tag, attr).Some?
    ensures var c := CleanAttr(tag, attr).value;
            !AttrRaises(tag, c) && CleanAttr(tag, c) == if DottedAttr(tag, attr) then None else Some(c)
  {
    hide CleanAttr, AttrRaises, Unsteady, Kept, DottedAttr;
    CleanedKept(tag, attr);
    KeptAgain(tag, CleanAttr(tag, attr).value);
    UnsteadyExactly(tag, attr);
  }

  /** A written list changes when it is cleaned again exactly when one of the attributes it was written from spells its
      alignment with a dotted capital I. */
  lemma {:induction false} CleanAttrsDotted(tag: Tag, attrs: seq<Attr>)
    ensures CleanAttrs(tag, CleanAttrs(tag, attrs)) != CleanAttrs(tag, attrs)
       <==> exists i :: 0 <= i < |attrs| && DottedAttr(tag, attrs[i])
  {
    hide CleanAttr, Kept, Unsteady, DottedAttr;
    CleanAttrsKept(tag, attrs);
    CleanAttrsAgain(tag, CleanAttrs(tag, attrs));
    UnsteadyAmong(tag, attrs);
  }

  lemma {:induction false} UnsteadyAmong(tag: Tag, attrs: seq<Attr>)
    ensures (exists i :: 0 <= i < |CleanAttrs(tag, attrs)| && Unsteady(tag, CleanAttrs(tag, attrs)[i]))
       <==> exists i :: 0 <= i < |attrs| && DottedAttr(tag, attrs[i])
  {
    hide CleanAttr, Unsteady, DottedAttr;
    if attrs != [] {
      var m := |attrs| - 1;
      var front := attrs[..m];
      UnsteadyAmong(tag, front);
      UnsteadyExactly(tag, attrs[m]);
      var before, all := CleanAttrs(tag, front), CleanAttrs(tag, attrs);
      assert forall i :: 0 <= i < |before| ==> all[i] == before[i];
      assert forall i :: 0 <= i < m ==> front[i] == attrs[i];
      if i :| 0 <= i < |all| && Unsteady(tag, all[i]) {
        assert i < |before| ==> Unsteady(tag, before[i]);
      }
      if DottedAttr(tag, attrs[m]) {
        assert Unsteady(tag, all[|before|]);
      }
    }
  }

  /** `text-align` with the value `r\U{130}ght`. */
  function DottedStyle(): Attr {
    Attr("style", ALIGN + ": " + "r\U{130}ght")
  }

  /** An alignment that is written once, with a combining dot, and dropped by the next pass. */
  lemma {:induction false} DottedAlignment()
    ensures var first := CleanAttr(P, DottedStyle());
            && first == Some(Attr("style", ALIGN + ": " + LowerAll("r\U{130}ght")))
            && CleanAttr(P, first.value) == None
    ensures DottedAttr(P, DottedStyle())
  {
    hide CleanAttr, FoldAll, LowerAll, IsAlignText, IsAlignment, Trimmed, DottedAttr;
    var raw := "r\U{130}ght";
    DottedRaw();
    RawCleaned(raw);
    MatchedText(raw);
    DottedDropped(LowerAll(raw));
    CleanAttrIdempotent(P, DottedStyle());
  }

  lemma {:induction false} DottedDropped(text: string)
    requires IsAlignText(text) && DOT in text
    ensures CleanAttr(P, Attr("style", ALIGN + ": " + text)) == None
  {
    hide CleanAttr, IsAlignText, Trimmed;
    AlignTextShape(text);
    var c := Attr("style", ALIGN + ": " + text);
    assert c.value[..|ALIGN| + 2] == ALIGN + ": " && c.value[|ALIGN| + 2..] == text;
    AlignAgain(P, c);
  }

  lemma DottedRaw()
    ensures IsAlignment(FoldAll("r\U{130}ght")) && Trimmed("r\U{130}ght") && ';' !in "r\U{130}ght"
    ensures '\U{130}' in "r\U{130}ght"
  {
    assert FoldAll("r\U{130}ght") == "right";
  }

  /** An alignment in any spelling that the expression matches is written in lower case. */
  lemma {:induction false} RawCleaned(raw: string)
    requires IsAlignment(FoldAll(raw)) && Trimmed(raw) && ';' !in raw && raw != ""
    ensures CleanAttr(P, Attr("style", ALIGN + ": " + raw)) == Some(Attr("style", ALIGN + ": " + LowerAll(raw)))
  {
    AlignCut(raw);
    MatchParts(raw);
    SplitWhole(ALIGN + ": " + raw);
    StyleNamed(P, Attr("style", ALIGN + ": " + raw));
    hide CleanAttr, AttrRaises, MatchAlign, Strip, Split, LowerAll, FoldAll, IsAlignment, StripLeft, Trimmed;
  }

  predicate AllKept(tag: Tag, attrs: seq<Attr>) {
    forall i :: 0 <= i < |attrs| ==> Kept(tag, attrs[i])
  }

  lemma {:induction false} CleanAttrsKept(tag: Tag, attrs: seq<Attr>)
    ensures AllKept(tag, CleanAttrs(tag, attrs))
  {
    hide CleanAttr, Kept;
    if attrs != [] {
      CleanAttrsKept(tag, attrs[..|attrs| - 1]);
      if CleanAttr(tag, attrs[|attrs| - 1]).Some? {
        CleanedKept(tag, attrs[|attrs| - 1]);
      }
    }
  }

  lemma {:induction false} KeptDoNotRaise(tag: Tag, attrs: seq<Attr>)
    requires AllKept(tag, attrs)
    ensures !AttrsRaise(tag, attrs)
  {
    hide Kept, AttrRaises;
    forall i | 0 <= i < |attrs|
      ensures !AttrRaises(tag, attrs[i])
    {
      KeptAgain(tag, attrs[i]);
    }
  }

  /** Cleaning a written list once more only drops the unsteady alignments. */
  lemma {:induction false} CleanAttrsAgain(tag: Tag, attrs: seq<Attr>)
    requires AllKept(tag, attrs)
    ensures CleanAttrs(tag, attrs) == attrs <==> forall i :: 0 <= i < |attrs| ==> !Unsteady(tag, attrs[i])
    ensures |CleanAttrs(tag, attrs)| <= |attrs|
    ensures |MarkupText.RenderAttrs(CleanAttrs(tag, attrs))| <= |MarkupText.RenderAttrs(attrs)|
    ensures CleanAttrs(tag, attrs) != attrs ==>
              |MarkupText.RenderAttrs(CleanAttrs(tag, attrs))| < |MarkupText.RenderAttrs(attrs)|
  {
    hide CleanAttr, Kept, Unsteady;
    hide MarkupText.RenderAttrs;
    hide MarkupText.RenderAttr;
    if attrs != [] {
      var front, last := attrs[..|attrs| - 1], attrs[|attrs| - 1];
      assert attrs == front + [last];
      CleanAttrsAgain(tag, front);
      KeptAgain(tag, last);
      MarkupText.RenderAttrsSnoc(front, last);
      if !Unsteady(tag, last) {
        MarkupText.RenderAttrsSnoc(CleanAttrs(tag, front), last);
        assert CleanAttrs(tag, attrs) == CleanAttrs(tag, front) + [last];
        assert CleanAttrs(tag, front) != front ==> CleanAttrs(tag, attrs) != attrs by {
          if CleanAttrs(tag, attrs) == attrs {
            assert CleanAttrs(tag, front) == (CleanAttrs(tag, front) + [last])[..|CleanAttrs(tag, front)|];
          }
        }
      } else {
        assert CleanAttrs(tag, attrs) == CleanAttrs(tag, front);
      }
    }
  }

  // ---------- written attributes need no escaping ----------

  lemma FontPlainValue(font: string)
    requires IsFont(font)
    ensures PlainValue(FAMILY + ": " + font)
  {
    assert PlainValue(FAMILY + ": ") && PlainValue(font);
  }

  lemma SizePlainValue(number: string)
    requires IsOfferedSize(number)
    ensures PlainValue(SIZE + ": " + (number + "pt"))
  {
    hide SizeTenths;
    assert PlainValue(number);
    assert PlainValue(SIZE + ": ") && PlainValue("pt");
  }

  lemma DeclPlainValue(decl: string)
    requires CleanDecl(decl).Some?
    ensures PlainValue(CleanDecl(decl).value)
  {
    hide PlainValue, FontName, MatchSize, StripQuotes, Split;
    var property, value := Property(decl), Value(decl);
    if property == FAMILY {
      FontPlainValue(FontName(Lower(StripQuotes(Strip(Split(value, ',')[0])))).value);
    } else {
      SizePlainValue(MatchSize(value).value);
    }
  }

  lemma {:induction false} DeclsPlainValue(decls: seq<string>)
    ensures PlainValue(JoinDecls(CleanDecls(CleanDecl, decls)))
  {
    hide CleanDecl;
    if decls != [] {
      DeclsPlainValue(decls[1..]);
      if CleanDecl(decls[0]).Some? {
        DeclPlainValue(decls[0]);
        assert ([CleanDecl(decls[0]).value] + CleanDecls(CleanDecl, decls[1..]))[1..] == CleanDecls(CleanDecl, decls[1..]);
      } else {
        assert CleanDecls(CleanDecl, decls) == CleanDecls(CleanDecl, decls[1..]);
      }
    }
  }

  /** A written attribute holds no character that `html.escape` would change: writing it as it is, as the source does, is
      writing it escaped. */
  lemma {:induction false} WrittenPlain(tag: Tag, c: Attr)
    requires Kept(tag, c)
    ensures MarkupText.Escape(c.value, true) == c.value && MarkupText.PlainName(c.name)
  {
    hide PlainValue;
    hide MarkupText.Escape;
    KeptPlain(tag, c);
    PlainUnescaped(c.value);
  }

  lemma NamePlain(name: string)
    requires name == "dir" || IsSpanName(name) || name == "style"
    ensures MarkupText.PlainName(name)
  {
  }

  lemma KeptName(tag: Tag, c: Attr)
    requires Kept(tag, c)
    ensures c.name == "dir" || IsSpanName(c.name) || c.name == "style"
  {
    hide IsDirection, Printed, SpanStyle, IsAlignText, Decimal, ParseNat;
  }

  lemma {:induction false} KeptPlain(tag: Tag, c: Attr)
    requires Kept(tag, c)
    ensures PlainValue(c.value) && MarkupText.PlainName(c.name)
  {
    KeptName(tag, c);
    NamePlain(c.name);
    hide PlainValue, IsDirection, Printed, SpanStyle, IsAlignAttr, Decimal, ParseNat;
    hide MarkupText.PlainName;
    if IsAlignAttr(tag, c) {
      AlignPlain(tag, c);
    } else if c.name == "dir" {
      DirectionPlain(c.value);
    } else if c.name == "style" {
      StylePlain(c.value);
    } else {
      CellSpanAgain(tag, c);
    }
  }

  lemma {:induction false} StylePlain(value: string)
    requires SpanStyle(value) == value
    ensures PlainValue(value)
  {
    DeclsPlainValue(Split(value, ';'));
  }

  // ---------- the cleaning loops ----------

  method AlignOf(value: string) returns (align: Option<string>)
    ensures align == FirstAlign(Split(value, ';'))
  {
    hide MatchAlign, Split;
    var decls := Split(value, ';');
    for i := 0 to |decls|
      invariant FirstAlign(decls[i..]) == FirstAlign(decls)
    {
      var m := MatchAlign(decls[i]);
      if m.Some? {
        return m;
      }
    }
    return None;
  }

  /** The branches of one round of the attribute loop. */
  method CleanOne(tag: Tag, attr: Attr) returns (clean: Result<Option<Attr>, ValueError>)
    ensures clean == if AttrRaises(tag, attr) then Err(ValueError) else Ok(CleanAttr(tag, attr))
  {
    hide CleanedStyle, FirstAlign, Split, IsDirection, Lower, Strip, Decimal, ParseNat;
    var name, value := Lower(attr.name), Strip(attr.value);
    clean := Ok(None);
    if name == "dir" {
      if IsDirection(Lower(value)) {
        clean := Ok(Some(Attr("dir", Lower(value))));
      }
    } else if IsSpanName(name) {
      if IsCell(tag) && IsNumeric(value) {
        if !IsInt(value) {
          return Err(ValueError);
        }
        clean := Ok(CleanNumber(name, value, MAX_SPAN));
      }
      IntNumeric(value);
    } else if name == "style" && tag.Span? {
      var style := CleanStyle(CleanDecl, value);
      clean := Ok(if style != "" then Some(Attr("style", style)) else None);
    } else if name == "style" && Alignable(tag) {
      var align := AlignOf(value);
      clean := Ok(if align.Some? then Some(Attr("style", ALIGN + ": " + align.value)) else None);
    }
  }

  method CleanAttributes(tag: Tag, attrs: seq<Attr>) returns (out: Result<seq<Attr>, ValueError>)
    ensures out == if AttrsRaise(tag, attrs) then Err(ValueError) else Ok(CleanAttrs(tag, attrs))
  {
    hide CleanAttr, AttrRaises;
    var kept: seq<Attr> := [];
    for i := 0 to |attrs|
      invariant kept == CleanAttrs(tag, attrs[..i])
      invariant forall j :: 0 <= j < i ==> !AttrRaises(tag, attrs[j])
    {
      var clean := CleanOne(tag, attrs[i]);
      if clean.Err? {
        return Err(ValueError);
      }
      if clean.value.Some? {
        kept := kept + [clean.value.value];
      }
      assert attrs[..i + 1][..i] == attrs[..i];
    }
    assert attrs[..|attrs|] == attrs;
    out := Ok(kept);
  }

  /** A cell span that cannot be read makes the cleaner raise. */
  lemma {:induction false} SpanRaises(value: string)
    requires Unreadable(Strip(value))
    ensures AttrRaises(Td, Attr("colspan", value))
  {
    NameKept("colspan");
  }
}
