/** The tags and attributes of letter templates (backend/app/core/oa_template_html.py). */
module OaTemplateAttributes {
  import opened Common
  import opened Characters
  import opened Strings
  import opened Transducer
  import opened StyleDeclarations
  import opened HtmlAttributes
  import FileSearch

  datatype Tag =
    | Div | Span | P | H1 | H2 | H3 | Strong | B | Em | I | U | Small | Br | Hr
    | Table | Thead | Tbody | Tr | Th | Td | Img
    | Dropped(name: string) // a tag whose content is dropped: script, style, link, meta, ...
    | Other(name: string)   // any other name

  // ---------- styles ----------

  const CSS_PROPERTIES: seq<string> :=
    TEXT_PROPERTIES + BORDER_PROPERTIES + SPACING_PROPERTIES + SIZE_PROPERTIES + LAYOUT_PROPERTIES + OTHER_PROPERTIES

  const TEXT_PROPERTIES: seq<string> := [
    "text-align", "vertical-align", "font-size", "font-weight", "font-style", "color", "background-color"]

  const BORDER_PROPERTIES: seq<string> := [
    "border", "border-top", "border-right", "border-bottom", "border-left", "border-color", "border-width",
    "border-style", "border-radius", "border-collapse", "border-spacing"]

  const SPACING_PROPERTIES: seq<string> := [
    "padding", "padding-top", "padding-right", "padding-bottom", "padding-left",
    "margin", "margin-top", "margin-right", "margin-bottom", "margin-left"]

  const SIZE_PROPERTIES: seq<string> := ["width", "height", "max-width", "max-height", "min-width", "min-height"]

  const LAYOUT_PROPERTIES: seq<string> := [
    "display", "flex", "flex-direction", "flex-wrap", "justify-content", "align-items", "align-self", "gap"]

  const OTHER_PROPERTIES: seq<string> := [
    "line-height", "letter-spacing", "direction", "white-space", "object-fit", "text-decoration", "box-sizing",
    "table-layout", "overflow"]

  const DISPLAY_VALUES := [
    "block", "inline", "inline-block", "flex", "inline-flex", "table", "table-row", "table-cell", "none"]

  const BAD_WORDS := [
    "expression", "javascript", "vbscript", "@import", "\\", "<", ">", "/*", "*/", "behavior", "binding"]

  /** `url`, perhaps white space, and an opening bracket. */
  predicate NamesUrl(folded: string) {
    exists i :: 0 <= i && i + 3 <= |folded| && UrlAt(folded, i)
  }

  predicate UrlAt(folded: string, i: nat)
    requires i + 3 <= |folded|
  {
    && folded[i..i + 3] == "url"
    && var rest := StripLeft(folded[i + 3..]);
       rest != "" && rest[0] == '('
  }

  /** The value could load something from outside, or leave its declaration. */
  predicate BadValue(value: string) {
    NamesUrl(FoldAll(value)) || exists word <- BAD_WORDS :: FileSearch.Occurs(word, FoldAll(value))
  }

  predicate ValueChar(c: char) {
    || IsWord(c) || IsSpace(c) || '\U{600}' <= c <= '\U{6FF}'
    || c in "#%.,()-+'\"!"
  }

  predicate PlainStyleValue(value: string) {
    forall i :: 0 <= i < |value| ==> ValueChar(value[i])
  }

  const MAX_VALUE := 200

  function CleanDecl(decl: string): Option<string> {
    if ':' in decl && AcceptedDecl(Property(decl), Value(decl)) then Some(Property(decl) + ": " + Value(decl)) else None
  }

  predicate AcceptedDecl(property: string, value: string) {
    && property in CSS_PROPERTIES
    && value != "" && |value| <= MAX_VALUE
    && !BadValue(value) && PlainStyleValue(value)
    && (property == "display" ==> Lower(value) in DISPLAY_VALUES)
  }

  function TemplateStyle(value: string): string {
    CleanedStyle(CleanDecl, value)
  }

  lemma PropertyShape(decl: string)
    requires ':' in decl
    ensures ':' !in Property(decl) && Trimmed(Property(decl)) && Lower(Property(decl)) == Property(decl)
    ensures ';' !in decl ==> ';' !in Property(decl)
    ensures Trimmed(Value(decl))
  {
    var left := decl[..IndexOf(decl, ':')];
    assert ':' !in left && (';' !in decl ==> ';' !in left);
    StripKeepsOut(left, ':');
    if ';' !in decl {
      StripKeepsOut(left, ';');
    }
    hide Strip;
    LowerShape(Strip(left));
  }

  lemma LowerShape(p: string)
    requires Trimmed(p) && ':' !in p
    ensures ':' !in Lower(p) && Trimmed(Lower(p)) && Lower(Lower(p)) == Lower(p)
    ensures ';' !in p ==> ';' !in Lower(p)
  {
    LowerFacts();
    assert forall i :: 0 <= i < |p| ==> Lower(p)[i] == LowerChar(p[i]);
    hide LowerChar;
  }

  lemma LowerFacts()
    ensures forall c :: LowerChar(c) == ':' ==> c == ':'
    ensures forall c :: LowerChar(c) == ';' ==> c == ';'
    ensures forall c :: IsSpace(LowerChar(c)) ==> IsSpace(c)
  {
  }

  /** A kept declaration is kept as it is. */
  lemma {:induction false} DeclSettled(decl: string)
    requires ';' !in decl && CleanDecl(decl).Some?
    ensures Settled(CleanDecl, CleanDecl(decl).value)
  {
    hide BadValue, Property, Value;
    var property, value := Property(decl), Value(decl);
    PropertyShape(decl);
    DeclParts(property, value);
    assert ';' !in value by {
      if ';' in value {
        assert ValueChar(';');
        SemicolonExcluded();
      }
    }
    hide AcceptedDecl;
    assert Trimmed(property + ": " + value) by {
      DeclTrimmed(property, value);
    }
  }

  lemma SemicolonExcluded()
    ensures !ValueChar(';')
  {
  }

  lemma DeclTrimmed(property: string, value: string)
    requires Trimmed(property) && Trimmed(value) && value != ""
    ensures Trimmed(property + ": " + value)
  {
    var d := property + ": " + value;
    assert d[|d| - 1] == value[|value| - 1];
    assert d[0] == if property == "" then ':' else property[0];
  }

  /** Cleaning a style twice is cleaning it once. */
  lemma {:induction false} TemplateStyleIdempotent(value: string)
    ensures Trimmed(TemplateStyle(value))
    ensures TemplateStyle(TemplateStyle(value)) == TemplateStyle(value)
  {
    hide Settled, CleanedStyle;
    forall d | ';' !in d && CleanDecl(d).Some?
      ensures Settled(CleanDecl, CleanDecl(d).value)
    {
      DeclSettled(d);
    }
    StyleTwice(CleanDecl, value);
  }

  /** The declarations of a written style are clean. */
  lemma {:induction false} StyleClean(value: string)
    ensures forall d :: d in CleanDecls(CleanDecl, Split(value, ';')) ==> Settled(CleanDecl, d)
  {
    hide Settled, Split;
    var parts := Split(value, ';');
    SplitJoins(value, ';');
    forall d | d in parts && CleanDecl(d).Some?
      ensures Settled(CleanDecl, CleanDecl(d).value)
    {
      DeclSettled(d);
    }
    CleanDeclsSettled(CleanDecl, parts);
  }

  // ---------- one attribute ----------

  const MAX_ALT := 100
  const MAX_SIDE := 2000

  predicate IsCell(tag: Tag) {
    tag.Th? || tag.Td?
  }

  predicate IsSideName(name: string) {
    name == "width" || name == "height"
  }

  /** What an attribute becomes, where cleaning it raises no error. */
  function CleanAttr(tag: Tag, attr: Attr): Option<Attr> {
    CleanNamed(tag, Lower(attr.name), Strip(attr.value))
  }

  function CleanNamed(tag: Tag, name: string, value: string): Option<Attr> {
    if name == "style" then
      if TemplateStyle(value) != "" then Some(Attr("style", TemplateStyle(value))) else None
    else if name == "dir" then CleanDirection(value)
    else if IsSpanName(name) then if IsCell(tag) then CleanNumber(name, value, MAX_SPAN) else None
    else if !tag.Img? then None
    else if name == "alt" then Some(Attr("alt", Cut(value)))
    else if IsSideName(name) then CleanNumber(name, value, MAX_SIDE)
    else None
  }

  /** `value[:100]`. */
  function Cut(value: string): string {
    if |value| <= MAX_ALT then value else value[..MAX_ALT]
  }

  function CleanAttrs(tag: Tag, attrs: seq<Attr>): seq<Attr> {
    if attrs == [] then []
    else
      CleanAttrs(tag, attrs[..|attrs| - 1]) +
      (var last := CleanAttr(tag, attrs[|attrs| - 1]); if last.Some? then [last.value] else [])
  }

  /** Cleaning raises a value error: a number of a cell or an image that passes `isdigit` but is none. */
  predicate AttrRaises(tag: Tag, attr: Attr) {
    && ((IsCell(tag) && IsSpanName(Lower(attr.name))) || (tag.Img? && IsSideName(Lower(attr.name))))
    && Unreadable(Strip(attr.value))
  }

  predicate AttrsRaise(tag: Tag, attrs: seq<Attr>) {
    exists i :: 0 <= i < |attrs| && AttrRaises(tag, attrs[i])
  }

  // ---------- cleaned once more ----------

  /** An attribute as the cleaner writes it. */
  predicate Kept(tag: Tag, c: Attr) {
    || (c.name == "style" && c.value != "" && TemplateStyle(c.value) == c.value)
    || (c.name == "dir" && IsDirection(c.value))
    || (IsSpanName(c.name) && IsCell(tag) && Printed(c.value, MAX_SPAN))
    || (IsSideName(c.name) && tag.Img? && Printed(c.value, MAX_SIDE))
    || IsAlt(tag, c)
  }

  predicate IsAlt(tag: Tag, c: Attr) {
    c.name == "alt" && tag.Img? && |c.value| <= MAX_ALT && (c.value == "" || !IsSpace(c.value[0]))
  }

  /** A text of an image that was cut right after white space: the next pass trims it. */
  predicate Unsteady(tag: Tag, c: Attr) {
    IsAlt(tag, c) && c.value != "" && IsSpace(c.value[|c.value| - 1])
  }

  lemma NameKept(name: string)
    requires name == "style" || name == "dir" || IsSpanName(name) || IsSideName(name) || name == "alt"
    ensures Lower(name) == name && MarkupText.PlainName(name)
  {
  }

  lemma KeptName(tag: Tag, c: Attr)
    requires Kept(tag, c)
    ensures var n := c.name; n == "style" || n == "dir" || IsSpanName(n) || IsSideName(n) || n == "alt"
  {
    hide IsDirection, Printed, TemplateStyle;
  }

  lemma {:induction false} CleanedKept(tag: Tag, attr: Attr)
    requires CleanAttr(tag, attr).Some?
    ensures Kept(tag, CleanAttr(tag, attr).value)
  {
    hide TemplateStyle, Lower, Strip, Printed, InRange, Decimal, ParseNat;
    var name, value := Lower(attr.name), Strip(attr.value);
    if name == "style" {
      TemplateStyleIdempotent(value);
    } else if name == "dir" {
    } else if IsSpanName(name) {
      if InRange(value, MAX_SPAN) {
        NumberPrinted(value, MAX_SPAN);
      }
    } else if name == "alt" {
      AltKept(tag, attr.value);
    } else if InRange(value, MAX_SIDE) {
      NumberPrinted(value, MAX_SIDE);
    }
  }

  lemma AltKept(tag: Tag, value: string)
    requires tag.Img?
    ensures IsAlt(tag, Attr("alt", Cut(Strip(value))))
  {
    assert Trimmed(Strip(value));
    hide Strip;
  }

  lemma {:induction false} StyleAgain(tag: Tag, c: Attr)
    requires c.name == "style" && c.value != "" && TemplateStyle(c.value) == c.value
    ensures !AttrRaises(tag, c) && CleanAttr(tag, c) == Some(c)
  {
    NameKept("style");
    TemplateStyleIdempotent(c.value);
    assert Strip(c.value) == c.value;
    hide Lower, Strip, TemplateStyle;
  }

  lemma {:induction false} DirectionAgain(tag: Tag, c: Attr)
    requires c.name == "dir" && IsDirection(c.value)
    ensures !AttrRaises(tag, c) && CleanAttr(tag, c) == Some(c)
  {
    NameKept("dir");
    DirectionPlain(c.value);
    assert Strip(c.value) == c.value;
    hide Lower, Strip;
  }

  lemma {:induction false} NumberAgain(tag: Tag, c: Attr)
    requires (IsSpanName(c.name) && IsCell(tag) && Printed(c.value, MAX_SPAN))
          || (IsSideName(c.name) && tag.Img? && Printed(c.value, MAX_SIDE))
    ensures !AttrRaises(tag, c) && CleanAttr(tag, c) == Some(c)
  {
    NameKept(c.name);
    PrintedAgain(c.name, c.value, if IsSpanName(c.name) then MAX_SPAN else MAX_SIDE);
    assert Strip(c.value) == c.value;
    hide Lower, Strip, Unreadable, CleanNumber, Printed;
  }

  lemma AltTrimmed(value: string)
    requires value == "" || !IsSpace(value[0])
    ensures Strip(value) == StripRight(value) && |StripRight(value)| <= |value|
    ensures StripRight(value) == value <==> value == "" || !IsSpace(value[|value| - 1])
  {
    assert StripLeft(value) == value;
    var cut := StripRightCut(value);
  }

  lemma {:induction false} AltAgain(tag: Tag, c: Attr)
    requires IsAlt(tag, c)
    ensures !AttrRaises(tag, c) && CleanAttr(tag, c) == Some(Attr("alt", StripRight(c.value)))
    ensures StripRight(c.value) == c.value <==> !Unsteady(tag, c)
  {
    NameKept("alt");
    AltTrimmed(c.value);
    hide Lower, Strip, StripRight;
  }

  /** A written attribute is cleaned again without an error, and to itself exactly when it is no cut text of an image that
      ends in white space; such a text is trimmed. */
  lemma {:induction false} KeptAgain(tag: Tag, c: Attr)
    requires Kept(tag, c)
    ensures !AttrRaises(tag, c)
    ensures CleanAttr(tag, c) == Some(if Unsteady(tag, c) then Attr("alt", StripRight(c.value)) else c)
  {
    hide AttrRaises, CleanAttr, IsDirection, Printed, TemplateStyle, IsAlt, StripRight;
    if IsAlt(tag, c) {
      AltAgain(tag, c);
      AltName(tag, c);
    } else if c.name == "style" {
      StyleAgain(tag, c);
    } else if c.name == "dir" {
      DirectionAgain(tag, c);
    } else {
      NumberAgain(tag, c);
    }
  }

  lemma AltName(tag: Tag, c: Attr)
    requires IsAlt(tag, c)
    ensures c == Attr("alt", c.value)
  {
  }

  /** The text of an image is cut right after white space exactly when it has more than a hundred characters, of which the
      hundredth is white space. */
  lemma {:induction false} AltUnsteady(value: string)
    ensures var c := CleanAttr(Img, Attr("alt", value));
            && c.Some?
            && (Unsteady(Img, c.value) <==> |Strip(value)| > MAX_ALT && IsSpace(Strip(value)[MAX_ALT - 1]))
  {
    NameKept("alt");
    AltKept(Img, value);
    assert Trimmed(Strip(value));
    hide Lower, Strip;
  }

  predicate AllKept(tag: Tag, attrs: seq<Attr>) {
    forall i :: 0 <= i < |attrs| ==> Kept(tag, attrs[i])
  }

  lemma {:induction false} CleanAttrsKept(tag: Tag, attrs: seq<Attr>)
    ensures AllKept(tag, CleanAttrs(tag, attrs))
  {
    hide CleanAttr, Kept;
    if attrs != [] {
      CleanAttrsKept(tag, attrs[..|attrs| - 1]);
      if CleanAttr(tag, attrs[|attrs| - 1]).Some? {
        CleanedKept(tag, attrs[|attrs| - 1]);
      }
    }
  }

  lemma {:induction false} KeptDoNotRaise(tag: Tag, attrs: seq<Attr>)
    requires AllKept(tag, attrs)
    ensures !AttrsRaise(tag, attrs)
  {
    hide Kept, AttrRaises;
    forall i | 0 <= i < |attrs|
      ensures !AttrRaises(tag, attrs[i])
    {
      KeptAgain(tag, attrs[i]);
    }
  }

  lemma {:induction false} KeptPlainNames(tag: Tag, attrs: seq<Attr>)
    requires AllKept(tag, attrs)
    ensures MarkupText.PlainNames(attrs)
  {
    hide Kept;
    hide MarkupText.PlainName;
    forall i | 0 <= i < |attrs|
      ensures MarkupText.PlainName(attrs[i].name)
    {
      KeptName(tag, attrs[i]);
      NameKept(attrs[i].name);
    }
  }

  /** A trimmed text of an image is shorter when written. */
  lemma {:induction false} TrimmedAltShorter(c: Attr)
    requires c.name == "alt" && StripRight(c.value) != c.value
    ensures |MarkupText.RenderAttr(Attr("alt", StripRight(c.value)))| < |MarkupText.RenderAttr(c)|
  {
    hide MarkupText.Escape;
    hide StripRight;
    var short := StripRight(c.value);
    var rest := StripRightCut(c.value);
    MarkupText.EscapeConcat(short, rest, true);
    MarkupText.EscapePlain(rest, true);
  }

  /** Cleaning a written list once more only trims the texts that were cut after white space. */
  lemma {:induction false} CleanAttrsAgain(tag: Tag, attrs: seq<Attr>)
    requires AllKept(tag, attrs)
    ensures CleanAttrs(tag, attrs) == attrs <==> forall i :: 0 <= i < |attrs| ==> !Unsteady(tag, attrs[i])
    ensures |CleanAttrs(tag, attrs)| == |attrs|
    ensures |MarkupText.RenderAttrs(CleanAttrs(tag, attrs))| <= |MarkupText.RenderAttrs(attrs)|
    ensures CleanAttrs(tag, attrs) != attrs ==>
              |MarkupText.RenderAttrs(CleanAttrs(tag, attrs))| < |MarkupText.RenderAttrs(attrs)|
  {
    hide CleanAttr, Kept, StripRight, IsAlt;
    hide MarkupText.RenderAttrs;
    hide MarkupText.RenderAttr;
    if attrs != [] {
      var front, last := attrs[..|attrs| - 1], attrs[|attrs| - 1];
      assert attrs == front + [last];
      CleanAttrsAgain(tag, front);
      KeptAgain(tag, last);
      var again := CleanAttr(tag, last).value;
      MarkupText.RenderAttrsSnoc(front, last);
      MarkupText.RenderAttrsSnoc(CleanAttrs(tag, front), again);
      assert CleanAttrs(tag, attrs) == CleanAttrs(tag, front) + [again];
      assert CleanAttrs(tag, attrs)[..|front|] == CleanAttrs(tag, front);
      if Unsteady(tag, last) {
        AltChanged(tag, last);
        TrimmedAltShorter(last);
      }
    }
  }

  lemma {:induction false} AltChanged(tag: Tag, c: Attr)
    requires Unsteady(tag, c)
    ensures c.name == "alt" && StripRight(c.value) != c.value
  {
    AltAgain(tag, c);
  }

  /** The text of an image that has more than a hundred characters once trimmed, of which the hundredth is white space. */
  predicate CutAttr(tag: Tag, attr: Attr) {
    && tag.Img? && Lower(attr.name) == "alt"
    && |Strip(attr.value)| > MAX_ALT && IsSpace(Strip(attr.value)[MAX_ALT - 1])
  }

  /** What is written of an attribute is a text that the next pass trims exactly when the attribute is such a text. */
  lemma {:induction false} UnsteadyExactly(tag: Tag, attr: Attr)
    ensures CutAttr(tag, attr) <==> CleanAttr(tag, attr).Some? && Unsteady(tag, CleanAttr(tag, attr).value)
  {
    hide TemplateStyle, InRange, IsDirection, Decimal, ParseNat;
    var value := Strip(attr.value);
    assert Trimmed(value);
    hide Strip, Lower;
    if tag.Img? && Lower(attr.name) == "alt" {
      assert IsAlt(tag, Attr("alt", Cut(value)));
    }
  }

  lemma {:induction false} UnsteadyAmong(tag: Tag, attrs: seq<Attr>)
    ensures (exists i :: 0 <= i < |CleanAttrs(tag, attrs)| && Unsteady(tag, CleanAttrs(tag, attrs)[i]))
       <==> exists i :: 0 <= i < |attrs| && CutAttr(tag, attrs[i])
  {
    hide CleanAttr, Unsteady, CutAttr;
    if attrs != [] {
      var m := |attrs| - 1;
      var front := attrs[..m];
      UnsteadyAmong(tag, front);
      UnsteadyExactly(tag, attrs[m]);
      var before, all := CleanAttrs(tag, front), CleanAttrs(tag, attrs);
      assert forall i :: 0 <= i < |before| ==> all[i] == before[i];
      assert forall i :: 0 <= i < m ==> front[i] == attrs[i];
      if i :| 0 <= i < |all| && Unsteady(tag, all[i]) {
        assert i < |before| ==> Unsteady(tag, before[i]);
      }
      if CutAttr(tag, attrs[m]) {
        assert Unsteady(tag, all[|before|]);
      }
    }
  }

  /** A written list changes when it is cleaned again exactly when one of the attributes it was written from is cut right
      after white space. */
  lemma {:induction false} CleanAttrsCut(tag: Tag, attrs: seq<Attr>)
    ensures CleanAttrs(tag, CleanAttrs(tag, attrs)) != CleanAttrs(tag, attrs)
       <==> exists i :: 0 <= i < |attrs| && CutAttr(tag, attrs[i])
  {
    hide CleanAttr, Kept, Unsteady, CutAttr;
    CleanAttrsKept(tag, attrs);
    CleanAttrsAgain(tag, CleanAttrs(tag, attrs));
    UnsteadyAmong(tag, attrs);
  }

  // ---------- the cleaning loops ----------

  /** The branches of one round of the attribute loop. */
  method CleanOne(tag: Tag, attr: Attr) returns (clean: Result<Option<Attr>, ValueError>)
    ensures clean == if AttrRaises(tag, attr) then Err(ValueError) else Ok(CleanAttr(tag, attr))
  {
    hide CleanedStyle, IsDirection, Lower, Strip, Decimal, ParseNat;
    var name, value := Lower(attr.name), Strip(attr.value);
    IntNumeric(value);
    clean := Ok(None);
    if name == "style" {
      var style := CleanStyle(CleanDecl, value);
      clean := Ok(if style != "" then Some(Attr("style", style)) else None);
    } else if name == "dir" {
      clean := Ok(CleanDirection(value));
    } else if IsSpanName(name) {
      if IsCell(tag) && IsNumeric(value) {
        if !IsInt(value) {
          return Err(ValueError);
        }
        clean := Ok(CleanNumber(name, value, MAX_SPAN));
      }
    } else if name == "alt" && tag.Img? {
      clean := Ok(Some(Attr("alt", Cut(value))));
    } else if IsSideName(name) && tag.Img? && IsNumeric(value) {
      if !IsInt(value) {
        return Err(ValueError);
      }
      clean := Ok(CleanNumber(name, value, MAX_SIDE));
    }
  }

  method CleanAttributes(tag: Tag, attrs: seq<Attr>) returns (out: Result<seq<Attr>, ValueError>)
    ensures out == if AttrsRaise(tag, attrs) then Err(ValueError) else Ok(CleanAttrs(tag, attrs))
  {
    hide CleanAttr, AttrRaises;
    var kept: seq<Attr> := [];
    for i := 0 to |attrs|
      invariant kept == CleanAttrs(tag, attrs[..i])
      invariant forall j :: 0 <= j < i ==> !AttrRaises(tag, attrs[j])
    {
      var clean := CleanOne(tag, attrs[i]);
      if clean.Err? {
        return Err(ValueError);
      }
      if clean.value.Some? {
        kept := kept + [clean.value.value];
      }
      assert attrs[..i + 1][..i] == attrs[..i];
    }
    assert attrs[..|attrs|] == attrs;
    out := Ok(kept);
  }
}
