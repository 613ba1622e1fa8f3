/** The rules of the letter format, tag by tag and attribute by attribute (backend/app/core/oa_html.py). */
module OaLetterRules {
  // What a tag makes of a letter and what becomes of each attribute, with every list of the format written out, and on the
  // texts themselves.

  import opened Common
  import opened Characters
  import opened Strings
  import opened TagWord
  import opened Transducer
  import opened StyleDeclarations
  import opened OaAttributes
  import opened OaHtml

  // ---------- tags ----------

  predicate Dropped(tag: Tag) {
    match tag
    case Script | Style | Iframe | Object | Embed | Noscript | Template | Svg | Math | Head | Title | Xml | Select
       | Textarea | Button | Form | Canvas | Video | Audio => true
    case _ => false
  }

  /** The element of the letter that a tag stands for. */
  function ElementFor(tag: Tag): Option<Tag> {
    match tag
    case P => Some(P)
    case H1 | H2 => Some(H2)
    case H3 | H4 | H5 | H6 => Some(H3)
    case B | Strong => Some(Strong)
    case I | Em => Some(Em)
    case U => Some(U)
    case S | Strike | Del => Some(S)
    case Ul => Some(Ul)
    case Ol => Some(Ol)
    case Li => Some(Li)
    case Table => Some(Table)
    case Thead => Some(Thead)
    case Tbody => Some(Tbody)
    case Tr => Some(Tr)
    case Th => Some(Th)
    case Td => Some(Td)
    case Blockquote => Some(Blockquote)
    case Br => Some(Br)
    case Span => Some(Span)
    case _ => None
  }

  lemma SameElement(tag: Tag)
    ensures ElementFor(tag) == if Allowed(Alias(tag)) then Some(Alias(tag)) else None
    ensures Dropped(tag) <==> DropsContent(tag)
    ensures Dropped(tag) ==> ElementFor(tag) == None
    ensures ElementFor(tag) == Some(Br) <==> tag == Br
  {
    hide DropsContent;
    SameDropped(tag);
  }

  lemma SameDropped(tag: Tag)
    ensures Dropped(tag) <==> DropsContent(tag)
  {
  }

  /** Parts of a table stand in a table, and cells in a row. */
  predicate MayStand(element: Tag, stack: seq<Tag>) {
    match element
    case Tr => Table in stack || Thead in stack || Tbody in stack
    case Td | Th => Tr in stack
    case Thead | Tbody => Table in stack
    case _ => true
  }

  /** A list item outside a list is a paragraph. */
  function Standing(element: Tag, stack: seq<Tag>): Tag {
    if element == Li && Ul !in stack && Ol !in stack then P else element
  }

  /** What a start tag does. Inside a dropped element it does nothing unless it is to be dropped itself; a line break is
      written; any other element is opened when fewer than 64 are open and it may stand there, or the handler raises over a span
      that it cannot read. */
  lemma {:induction false} StartTagExactly(s: State<Tag>, tag: Tag, attrs: seq<Attr>)
    requires !s.failed
    ensures Step(LETTER, s, Start(tag, attrs))
         == if Dropped(tag) then s.(drop := s.drop + 1)
            else if s.drop > 0 || ElementFor(tag) == None then s
            else if ElementFor(tag) == Some(Br) then s.(out := s.out + [Void(Br, [])])
            else
              var element := ElementFor(tag).value;
              if |s.stack| >= 64 || !MayStand(element, s.stack) then s
              else
                var placed := Standing(element, s.stack);
                if exists attr :: attr in attrs && SpanUnreadable(placed, attr) then s.(failed := true)
                else s.(out := s.out + [Open(placed, CleanAttrs(placed, attrs))], stack := s.stack + [placed])
  {
    SameElement(tag);
    var element := Alias(tag);
    SamePlace(element, s.stack);
    RaisesExactly(Standing(element, s.stack), attrs);
    hide Dropped, DropsContent, ElementFor, Alias, Allowed, HasContext, MayStand, CleanAttrs, AttrsRaise, SpanUnreadable;
    hide Placed, Standing;
  }

  lemma SamePlace(element: Tag, stack: seq<Tag>)
    ensures MayStand(element, stack) <==> HasContext(element, stack)
    ensures Standing(element, stack) == Placed(element, stack)
  {
  }

  lemma OnlyBreak(tag: Tag)
    ensures Alias(tag) == Br <==> tag == Br
    ensures !DropsContent(Br)
  {
  }

  /** A self-closing tag writes a line break or nothing. */
  lemma {:induction false} StartEndTagExactly(s: State<Tag>, tag: Tag, attrs: seq<Attr>)
    requires !s.failed
    ensures Step(LETTER, s, StartEnd(tag, attrs))
         == if s.drop == 0 && tag == Br then s.(out := s.out + [Void(Br, [])]) else s
  {
    OnlyBreak(tag);
    hide DropsContent, Alias, Allowed;
  }

  /** An end tag ends a dropped element; or it closes the innermost open element that it stands for, together with everything
      inside it, if there is one. */
  lemma {:induction false} EndTagExactly(s: State<Tag>, tag: Tag)
    requires !s.failed
    ensures var n := Step(LETTER, s, End(tag));
            if Dropped(tag) then n == s.(drop := if s.drop == 0 then 0 else s.drop - 1)
            else if s.drop > 0 || tag == Br || ElementFor(tag) == None || ElementFor(tag).value !in s.stack then n == s
            else
              exists i :: IsInnermost(s.stack, ElementFor(tag).value, i)
                          && n == s.(out := s.out + Closing(s.stack[i..]), stack := s.stack[..i])
  {
    SameElement(tag);
    EndTagStep(s, tag);
    hide DropsContent, Dropped, ElementFor, Alias, Allowed, Step, IsInnermost, CloseStep;
    if !Dropped(tag) && s.drop == 0 && ElementFor(tag).Some? && ElementFor(tag).value in s.stack {
      CloseExactly(s, ElementFor(tag).value);
    }
  }

  // ---------- attributes ----------

  /** A span of a cell of digits, or characters that pass for digits, that do not make a number. */
  predicate SpanUnreadable(element: Tag, attr: Attr) {
    && (element == Td || element == Th)
    && (Lower(attr.name) == "colspan" || Lower(attr.name) == "rowspan")
    && Unreadable(Strip(attr.value))
  }

  lemma RaisesExactly(element: Tag, attrs: seq<Attr>)
    ensures AttrsRaise(element, attrs) <==> exists attr :: attr in attrs && SpanUnreadable(element, attr)
  {
    hide Lower, Strip, Unreadable;
    forall attr
      ensures AttrRaises(element, attr) <==> SpanUnreadable(element, attr)
    {
    }
    hide SpanUnreadable, AttrRaises;
  }

  /** The attributes of an element are cleaned one by one, in their order. */
  lemma {:induction false} OneByOne(element: Tag, attrs: seq<Attr>, attr: Attr)
    ensures CleanAttrs(element, []) == []
    ensures CleanAttrs(element, attrs + [attr])
         == CleanAttrs(element, attrs) + (match CleanAttr(element, attr) case None => [] case Some(w) => [w])
  {
    hide CleanAttr;
    assert (attrs + [attr])[..|attrs|] == attrs;
  }

  predicate Aligned(element: Tag) {
    match element
    case P | H2 | H3 | Li | Th | Td | Blockquote => true
    case _ => false
  }

  /** The attribute is written so: a direction; the span of a cell from 1 to 50; fonts and sizes of a span; the first alignment
      of a block. */
  ghost predicate Gives(element: Tag, attr: Attr, written: Attr) {
    var name, value := Lower(attr.name), Strip(attr.value);
    && written.name == name
    && (|| (name == "dir" && written.value == Lower(value)
            && (written.value == "rtl" || written.value == "ltr" || written.value == "auto"))
        || ((name == "colspan" || name == "rowspan") && (element == Td || element == Th)
            && IsInt(value) && 1 <= ParseNat(value) <= 50 && written.value == Decimal(ParseNat(value)))
        || (name == "style" && element == Span && written.value != "" && written.value == SpanStyle(value))
        || (name == "style" && Aligned(element) && FirstNamed(Split(value, ';'), written.value)))
  }

  /** Exactly so attributes are written, and all others are left out. */
  lemma {:induction false} AttrExactly(element: Tag, attr: Attr, written: Attr)
    ensures CleanAttr(element, attr) == Some(written) <==> Gives(element, attr, written)
  {
    var name, value := Lower(attr.name), Strip(attr.value);
    NamedExactly(element, name, value, written);
    hide CleanNamed, Lower, Strip, FirstNamed;
  }

  lemma {:induction false} NamedExactly(element: Tag, name: string, value: string, written: Attr)
    ensures CleanNamed(element, name, value) == Some(written) <==>
              && written.name == name
              && (|| (name == "dir" && written.value == Lower(value)
                      && (written.value == "rtl" || written.value == "ltr" || written.value == "auto"))
                  || ((name == "colspan" || name == "rowspan") && (element == Td || element == Th)
                      && IsInt(value) && 1 <= ParseNat(value) <= 50 && written.value == Decimal(ParseNat(value)))
                  || (name == "style" && element == Span && written.value != "" && written.value == SpanStyle(value))
                  || (name == "style" && Aligned(element) && FirstNamed(Split(value, ';'), written.value)))
  {
    hide Lower, FirstNamed, SpanStyle, ParseNat, Decimal, IsInt, Split, FirstAlign;
    NamesApart(name);
    if Aligned(element) {
      FirstExactly(Split(value, ';'), written.value);
    }
  }

  lemma NamesApart(name: string)
    ensures name == "dir" ==> name != "style" && name != "colspan" && name != "rowspan"
    ensures name == "style" ==> name != "colspan" && name != "rowspan"
  {
  }

  // ---------- alignments ----------

  predicate IsSide(s: string) {
    s == "right" || s == "center" || s == "left" || s == "justify"
  }

  /** The declaration names this alignment: the property, a colon and a side, in any case and with white space anywhere
      between. */
  ghost predicate Aligns(decl: string, side: string) {
    exists a, word, b, c, spelled, d ::
      && SixParts(decl, a, word, b, c, spelled, d)
      && AllSpace(a) && AllSpace(b) && AllSpace(c) && AllSpace(d)
      && FoldAll(word) == "text-align" && IsSide(FoldAll(spelled)) && side == LowerAll(spelled)
  }

  predicate SixParts(decl: string, a: string, word: string, b: string, c: string, spelled: string, d: string) {
    decl == a + word + b + ":" + c + spelled + d
  }

  /** The first declaration that names an alignment names this one. */
  ghost predicate FirstNamed(decls: seq<string>, style: string) {
    exists k :: 0 <= k < |decls| && NamedAt(decls, k, style)
  }

  ghost predicate NamedAt(decls: seq<string>, k: int, style: string)
    requires 0 <= k < |decls|
  {
    && (exists side :: Aligns(decls[k], side) && style == "text-align: " + side)
    && forall j, side :: 0 <= j < k ==> !Aligns(decls[j], side)
  }

  lemma {:induction false} AlignsExactly(decl: string, side: string)
    ensures MatchAlign(decl) == Some(side) <==> Aligns(decl, side)
  {
    hide MatchAlign, Aligns;
    if MatchAlign(decl) == Some(side) {
      MatchedParts(decl, side);
    }
    if Aligns(decl, side) {
      PartsMatched(decl, side);
    }
  }

  lemma {:induction false} MatchedParts(decl: string, side: string)
    requires MatchAlign(decl) == Some(side)
    ensures Aligns(decl, side)
  {
    hide Strip, RawAlign, AllSpace, LowerAll;
    var a, d := StripCut(decl);
    var inner := Strip(decl);
    SameRaw(decl);
    var word, b, c, spelled := RawParts(inner);
    assert decl == a + word + b + ":" + c + spelled + d;
    assert SixParts(decl, a, word, b, c, spelled, d);
  }

  lemma SameRaw(decl: string)
    ensures RawAlign(Strip(decl)) == RawAlign(decl)
  {
    hide Strip, StripLeft, IsAlignment, FoldAll;
  }

  lemma {:induction false} RawParts(inner: string) returns (word: string, b: string, c: string, spelled: string)
    requires Trimmed(inner) && RawAlign(inner).Some?
    ensures inner == word + b + ":" + c + spelled && AllSpace(b) && AllSpace(c)
    ensures FoldAll(word) == "text-align" && IsSide(FoldAll(spelled)) && RawAlign(inner) == Some(spelled)
  {
    hide Strip, StripLeft, IsAlignment, IsSide, FoldAll, AllSpace;
    word := inner[..|ALIGN|];
    b := StripLeftCut(inner[|ALIGN|..]);
    var rest := StripLeft(inner[|ALIGN|..]);
    c := StripLeftCut(rest[1..]);
    spelled := StripLeft(rest[1..]);
    SameSides(FoldAll(spelled));
    assert rest == ":" + rest[1..];
    Reassembled(inner, word, b, rest, c, spelled);
  }

  lemma Reassembled(inner: string, word: string, b: string, rest: string, c: string, spelled: string)
    requires inner == word + (b + rest) && rest == ":" + (c + spelled)
    ensures inner == word + b + ":" + c + spelled
  {
  }

  lemma SameSides(s: string)
    ensures IsSide(s) <==> IsAlignment(s)
  {
  }

  lemma {:induction false} PartsMatched(decl: string, side: string)
    requires Aligns(decl, side)
    ensures MatchAlign(decl) == Some(side)
  {
    var a, word, b, c, spelled, d :|
      && SixParts(decl, a, word, b, c, spelled, d)
      && AllSpace(a) && AllSpace(b) && AllSpace(c) && AllSpace(d)
      && FoldAll(word) == "text-align" && IsSide(FoldAll(spelled)) && side == LowerAll(spelled);
    hide Strip, RawAlign, IsSide, LowerAll, AllSpace;
    var inner := word + b + ":" + c + spelled;
    InnerRaw(word, b, c, spelled);
    Regrouped(a, word, b, c, spelled, d);
    StripSpaces(a, inner, d);
    SameRaw(decl);
  }

  lemma Regrouped(a: string, word: string, b: string, c: string, spelled: string, d: string)
    ensures a + word + b + ":" + c + spelled + d == a + (word + b + ":" + c + spelled) + d
  {
  }

  lemma {:induction false} InnerRaw(word: string, b: string, c: string, spelled: string)
    requires AllSpace(b) && AllSpace(c) && FoldAll(word) == "text-align" && IsSide(FoldAll(spelled))
    ensures var inner := word + b + ":" + c + spelled;
            inner != "" && Trimmed(inner) && RawAlign(inner) == Some(spelled)
  {
    SameSides(FoldAll(spelled));
    hide Strip, StripLeft, IsAlignment, IsSide, AllSpace;
    AlignmentTrimmed(spelled);
    WordTrimmed(word);
    var inner, rest := word + b + ":" + c + spelled, ":" + (c + spelled);
    assert inner[0] == word[0] && inner[|inner| - 1] == spelled[|spelled| - 1];
    assert inner[..|ALIGN|] == word && inner[|ALIGN|..] == b + rest;
    StripLeftSpace(b, rest);
    NotSpace(rest);
    assert rest[1..] == c + spelled;
    StripLeftSpace(c, spelled);
  }

  lemma NotSpace(rest: string)
    requires rest != "" && rest[0] == ':'
    ensures StripLeft(rest) == rest
  {
  }

  lemma {:induction false} AlignmentTrimmed(spelled: string)
    requires IsAlignment(FoldAll(spelled))
    ensures spelled != "" && Trimmed(spelled) && StripLeft(spelled) == spelled
  {
    AlignmentLetters(spelled);
    assert !IsSpace(spelled[0]) && !IsSpace(spelled[|spelled| - 1]) by {
      LetterNoSpace(spelled[0]);
      LetterNoSpace(spelled[|spelled| - 1]);
    }
  }

  lemma LetterNoSpace(c: char)
    requires 'a' <= Fold(c) <= 'z'
    ensures !IsSpace(c)
  {
  }

  lemma WordTrimmed(word: string)
    requires FoldAll(word) == "text-align"
    ensures |word| == 10 && !IsSpace(word[0])
  {
    assert |word| == |FoldAll(word)| && Fold(word[0]) == FoldAll(word)[0] == 't';
  }

  lemma {:induction false} FirstExactly(decls: seq<string>, style: string)
    ensures FirstAlign(decls).Some? && style == ALIGN + ": " + FirstAlign(decls).value <==> FirstNamed(decls, style)
  {
    hide MatchAlign, Aligns;
    forall decl, side
      ensures MatchAlign(decl) == Some(side) <==> Aligns(decl, side)
    {
      AlignsExactly(decl, side);
    }
    if decls == [] {
    } else if MatchAlign(decls[0]).Some? {
      assert Aligns(decls[0], MatchAlign(decls[0]).value);
      assert FirstNamed(decls, style) ==> NamedAt(decls, 0, style);
      assert style == ALIGN + ": " + MatchAlign(decls[0]).value ==> NamedAt(decls, 0, style);
    } else {
      FirstExactly(decls[1..], style);
      FirstLater(decls, style);
    }
  }

  lemma {:induction false} FirstLater(decls: seq<string>, style: string)
    requires decls != [] && forall side :: !Aligns(decls[0], side)
    ensures FirstNamed(decls, style) <==> FirstNamed(decls[1..], style)
  {
    hide Aligns;
    var rest := decls[1..];
    if k :| 0 <= k < |decls| && NamedAt(decls, k, style) {
      assert NamedAt(rest, k - 1, style);
    }
    if k :| 0 <= k < |rest| && NamedAt(rest, k, style) {
      assert NamedAt(decls, k + 1, style);
    }
  }

  // ---------- fonts and sizes ----------

  /** The offered fonts, by the name that is looked up and the name that is written. */
  predicate Font(lower: string, name: string) {
    || (lower == "vazirmatn" && name == "Vazirmatn")
    || (lower == "noto naskh arabic" && name == "Noto Naskh Arabic")
    || (lower == "lalezar" && name == "Lalezar")
    || (lower == "tahoma" && name == "Tahoma")
    || (lower == "b nazanin" && name == "B Nazanin")
  }

  /** One or two digits, perhaps a point and one more, for a size from 8 to 36. */
  ghost predicate SizeText(s: string) {
    exists whole, tenth: string ::
      && SizeParts(s, whole, tenth)
      && 1 <= |whole| <= 2 && AllDecimal(whole) && |tenth| <= 1 && AllDecimal(tenth)
      && 80 <= 10 * ParseNat(whole) + (if tenth == "" then 0 else DigitValue(tenth[0])) <= 360
  }

  predicate SizeParts(s: string, whole: string, tenth: string) {
    s == if tenth == "" then whole else whole + "." + tenth
  }

  /** The text between quotation marks, any number of them on either side. */
  ghost predicate Quoted(s: string, core: string) {
    && (core != "" ==> !IsQuote(core[0]) && !IsQuote(core[|core| - 1]))
    && exists before, after :: s == before + core + after && AllQuotes(before) && AllQuotes(after)
  }

  predicate AllQuotes(s: string) {
    forall i :: 0 <= i < |s| ==> s[i] == '\'' || s[i] == '"'
  }

  /** A declaration of a span is written so: an offered font, the first of those that are named, without its quotation marks;
      or a size in points. */
  ghost predicate Declares(property: string, value: string, written: string) {
    || (property == "font-family"
        && exists core, name :: Quoted(Strip(Split(value, ',')[0]), core) && Font(Lower(core), name)
                                && written == "font-family: " + name)
    || (property == "font-size"
        && exists number, space, unit :: value == number + space + unit && AllSpace(space) && Lower(unit) == "pt"
                                         && SizeText(number) && written == "font-size: " + (number + "pt"))
  }

  /** Exactly so, and every other declaration is left out. */
  lemma {:induction false} DeclarationExactly(left: string, right: string, written: string)
    requires ':' !in left
    ensures CleanDecl(left + [':'] + right) == Some(written) <==> Declares(Lower(Strip(left)), Strip(right), written)
  {
    CutAtColon(left, right);
    PropertyExactly(Lower(Strip(left)), Strip(right), written);
    hide Lower, Strip, CleanProperty, Declares, Property, Value;
  }

  lemma {:induction false} PropertyExactly(property: string, value: string, written: string)
    requires Trimmed(value)
    ensures CleanProperty(property, value) == Some(written) <==> Declares(property, value, written)
  {
    hide Lower, Strip, Split, StripQuotes, FontName, MatchSize, Quoted, Font, SizeText, AllSpace;
    var first := Strip(Split(value, ',')[0]);
    if property == FAMILY {
      FamilyExactly(first, written);
      FamilyWritten(FontName(Lower(StripQuotes(first))));
    } else if property == SIZE {
      SizeExactly(value, written);
      SizeWritten(MatchSize(value));
    } else {
      OnlyTwo(property);
    }
  }

  lemma SizeWritten(number: Option<string>)
    ensures SIZE != "font-family"
    ensures number.Some? ==> SIZE + ": " + (number.value + "pt") == "font-size: " + (number.value + "pt")
  {
  }

  lemma OnlyTwo(property: string)
    requires property != FAMILY && property != SIZE
    ensures property != "font-family" && property != "font-size"
  {
  }

  lemma {:induction false} FamilyExactly(first: string, written: string)
    ensures (exists core, name :: Quoted(first, core) && Font(Lower(core), name) && written == "font-family: " + name)
       <==> FontName(Lower(StripQuotes(first))).Some?
            && written == "font-family: " + FontName(Lower(StripQuotes(first))).value
  {
    hide Lower, StripQuotes, FontName, Font, Quoted;
    forall core
      ensures Quoted(first, core) ==> core == StripQuotes(first)
    {
      if Quoted(first, core) {
        QuotedUnique(first, core);
      }
    }
    var core := StripQuotes(first);
    QuotesStripped(first);
    forall name
      ensures Font(Lower(core), name) <==> FontName(Lower(core)) == Some(name)
    {
      FontExactly(Lower(core), name);
    }
  }

  lemma FamilyWritten(font: Option<string>)
    ensures FAMILY != "font-size"
    ensures font.Some? ==> FAMILY + ": " + font.value == "font-family: " + font.value
  {
  }

  lemma FontExactly(lower: string, name: string)
    ensures Font(lower, name) <==> FontName(lower) == Some(name)
  {
  }

  lemma {:induction false} QuotesStripped(s: string)
    ensures Quoted(s, StripQuotes(s))
  {
    var before, after := QuotesCut(s);
    CoreUnquoted(s);
    hide StripQuotes, IsQuote, AllQuotes;
  }

  lemma {:induction false} CoreUnquoted(s: string)
    ensures var core := StripQuotes(s); core != "" ==> !IsQuote(core[0]) && !IsQuote(core[|core| - 1])
    decreases |s|
  {
    if s != "" && IsQuote(s[0]) {
      CoreUnquoted(s[1..]);
    } else if s != "" && IsQuote(s[|s| - 1]) {
      CoreUnquoted(s[..|s| - 1]);
    }
  }

  lemma {:induction false} QuotesCut(s: string) returns (before: string, after: string)
    ensures s == before + StripQuotes(s) + after && AllQuotes(before) && AllQuotes(after)
    decreases |s|
  {
    before, after := "", "";
    if s != "" && IsQuote(s[0]) {
      before, after := QuotesCut(s[1..]);
      before := [s[0]] + before;
    } else if s != "" && IsQuote(s[|s| - 1]) {
      before, after := QuotesCut(s[..|s| - 1]);
      after := after + [s[|s| - 1]];
    }
  }

  lemma {:induction false} QuotedUnique(s: string, core: string)
    requires Quoted(s, core)
    ensures core == StripQuotes(s)
  {
    var before, after :| s == before + core + after && AllQuotes(before) && AllQuotes(after);
    QuotesBefore(before, core, after);
    QuotesAfter(core, after);
  }

  lemma {:induction false} QuotesBefore(before: string, core: string, after: string)
    requires AllQuotes(before)
    ensures StripQuotes(before + core + after) == StripQuotes(core + after)
  {
    if before == "" {
      assert before + core + after == core + after;
    } else {
      assert (before + core + after)[1..] == before[1..] + core + after;
      QuotesBefore(before[1..], core, after);
    }
  }

  lemma {:induction false} QuotesAfter(core: string, after: string)
    requires AllQuotes(after) && (core != "" ==> !IsQuote(core[0]) && !IsQuote(core[|core| - 1]))
    ensures StripQuotes(core + after) == core
    decreases |after|
  {
    var s := core + after;
    if after == "" {
      assert s == core;
    } else if core == "" {
      assert s[1..] == core + after[1..];
      QuotesAfter(core, after[1..]);
    } else {
      assert s[..|s| - 1] == core + after[..|after| - 1] && s[|s| - 1] == after[|after| - 1] && s[0] == core[0];
      QuotesAfter(core, after[..|after| - 1]);
    }
  }

  lemma {:induction false} SizeExactly(value: string, written: string)
    requires Trimmed(value)
    ensures (exists number, space, unit :: value == number + space + unit && AllSpace(space) && Lower(unit) == "pt"
                                           && SizeText(number) && written == "font-size: " + (number + "pt"))
       <==> MatchSize(value).Some? && written == "font-size: " + (MatchSize(value).value + "pt")
  {
    hide Lower, AllSpace, SizeText, MatchSize;
    if MatchSize(value).Some? {
      var space, unit := SizeCut(value);
    }
    forall number, space, unit | value == number + space + unit && AllSpace(space) && Lower(unit) == "pt" && SizeText(number)
      ensures MatchSize(value) == Some(number)
    {
      SizeRead(value, number, space, unit);
    }
  }

  lemma {:induction false} SizeCut(value: string) returns (space: string, unit: string)
    requires Trimmed(value) && MatchSize(value).Some?
    ensures var number := MatchSize(value).value;
            value == number + space + unit && AllSpace(space) && Lower(unit) == "pt" && SizeText(number)
  {
    hide Lower, AllSpace, SizeText, StripRight, IsOfferedSize;
    var n := |value| - 2;
    unit := value[n..];
    space := StripRightCut(value[..n]);
    OfferedExactly(StripRight(value[..n]));
  }

  lemma {:induction false} SizeRead(value: string, number: string, space: string, unit: string)
    requires Trimmed(value) && value == number + space + unit && AllSpace(space) && Lower(unit) == "pt" && SizeText(number)
    ensures MatchSize(value) == Some(number)
  {
    OfferedExactly(number);
    SizeEnds(number);
    hide Lower, AllSpace, SizeText, StripRight, IsOfferedSize;
    assert |unit| == 2;
    var n := |value| - 2;
    assert value[n..] == unit && value[..n] == number + space;
    StripRightSpace(number, space);
  }

  lemma {:induction false} SizeEnds(number: string)
    requires IsOfferedSize(number)
    ensures StripRight(number) == number
  {
    hide ParseNat;
    assert IsDecimal(number[|number| - 1]);
  }

  lemma {:induction false} OfferedExactly(s: string)
    ensures IsOfferedSize(s) <==> SizeText(s)
  {
    hide SizeText, IsOfferedSize;
    if IsOfferedSize(s) {
      OfferedText(s);
    }
    if SizeText(s) {
      TextOffered(s);
    }
  }

  lemma {:induction false} OfferedText(s: string)
    requires IsOfferedSize(s)
    ensures SizeText(s)
  {
    hide ParseNat, DigitOf;
    if |s| <= 2 {
      assert SizeParts(s, s, "");
    } else {
      var whole, tenth := s[..|s| - 2], [s[|s| - 1]];
      assert s == whole + "." + tenth;
      assert SizeParts(s, whole, tenth);
    }
  }

  lemma {:induction false} TextOffered(s: string)
    requires SizeText(s)
    ensures IsOfferedSize(s)
  {
    hide ParseNat, DigitOf;
    var whole, tenth: string :|
      && SizeParts(s, whole, tenth)
      && 1 <= |whole| <= 2 && AllDecimal(whole) && |tenth| <= 1 && AllDecimal(tenth)
      && 80 <= 10 * ParseNat(whole) + (if tenth == "" then 0 else DigitValue(tenth[0])) <= 360;
    if tenth == "" {
      assert s == whole;
    } else {
      assert |s| == |whole| + 2 && s[|s| - 2] == '.';
      assert s[..|s| - 2] == whole && s[|s| - 1] == tenth[0];
      PointNoDigit();
    }
  }

  lemma PointNoDigit()
    ensures !IsDecimal('.')
  {
  }
}
