/** The letter sanitizer on strings, and its second pass. */
module OaIdempotence {
  import opened Common
  import opened Strings
  import opened TagWord
  import opened Transducer
  import opened MarkupText
  import opened OaAttributes
  import opened OaHtml

  // ---------- the spelling of tags ----------

  function TagName(tag: Tag): string {
    match tag
    case P => "p"
    case H2 => "h2"
    case H3 => "h3"
    case Strong => "strong"
    case Em => "em"
    case U => "u"
    case S => "s"
    case Ul => "ul"
    case Ol => "ol"
    case Li => "li"
    case Table => "table"
    case Thead => "thead"
    case Tbody => "tbody"
    case Tr => "tr"
    case Th => "th"
    case Td => "td"
    case Blockquote => "blockquote"
    case Br => "br"
    case Span => "span"
    case Other(name) => name
    case _ => ""
  }

  /** Each element is spelled as it is named. */
  lemma ElementNames()
    ensures TagName(P) == "p" && TagName(H2) == "h2" && TagName(H3) == "h3" && TagName(Strong) == "strong"
    ensures TagName(Em) == "em" && TagName(U) == "u" && TagName(S) == "s" && TagName(Ul) == "ul"
    ensures TagName(Ol) == "ol" && TagName(Li) == "li"
  {
  }

  lemma OtherElementNames()
    ensures TagName(Table) == "table" && TagName(Thead) == "thead" && TagName(Tbody) == "tbody" && TagName(Tr) == "tr"
    ensures TagName(Th) == "th" && TagName(Td) == "td" && TagName(Blockquote) == "blockquote" && TagName(Br) == "br"
    ensures TagName(Span) == "span"
  {
  }

  function TagNamed(name: string): Option<Tag> {
    if |name| == 1 then
      if name == "p" then Some(P) else if name == "u" then Some(U) else if name == "s" then Some(S) else None
    else if |name| == 2 then ShortTagNamed(name)
    else if name == "table" then Some(Table)
    else if name == "thead" then Some(Thead)
    else if name == "tbody" then Some(Tbody)
    else if name == "strong" then Some(Strong)
    else if name == "blockquote" then Some(Blockquote)
    else if name == "span" then Some(Span)
    else None
  }

  function ShortTagNamed(name: string): Option<Tag> {
    if name == "h2" then Some(H2)
    else if name == "h3" then Some(H3)
    else if name == "em" then Some(Em)
    else if name == "ul" then Some(Ul)
    else if name == "ol" then Some(Ol)
    else if name == "li" then Some(Li)
    else if name == "tr" then Some(Tr)
    else if name == "th" then Some(Th)
    else if name == "td" then Some(Td)
    else if name == "br" then Some(Br)
    else None
  }

  const LETTER_SPELLING: Spelling<Tag> := Spelling(TagName, TagNamed)

  lemma TagNamedBack(tag: Tag)
    requires Allowed(tag)
    ensures TagNamed(TagName(tag)) == Some(tag)
  {
    if |TagName(tag)| == 2 {
      ShortTagNamedBack(tag);
    }
    hide ShortTagNamed;
  }

  lemma ShortTagNamedBack(tag: Tag)
    requires |TagName(tag)| == 2 && Allowed(tag)
    ensures ShortTagNamed(TagName(tag)) == Some(tag)
  {
  }

  lemma TagNamePlain(tag: Tag)
    requires Allowed(tag)
    ensures var name := TagName(tag);
            name != "" && name[0] != '/' && ' ' !in name && '>' !in name && '<' !in name
  {
  }

  lemma AllowedSpelled(tag: Tag)
    requires Allowed(tag)
    ensures Spelled(LETTER_SPELLING, tag)
  {
    hide TagName, TagNamed;
    TagNamePlain(tag);
    TagNamedBack(tag);
  }

  lemma KeptPlainNames(tag: Tag, attrs: seq<Attr>)
    requires AllKept(tag, attrs)
    ensures PlainNames(attrs)
  {
    hide Kept, PlainName;
    forall i | 0 <= i < |attrs|
      ensures PlainName(attrs[i].name)
    {
      WrittenPlain(tag, attrs[i]);
    }
  }

  lemma FittingReadable(open: seq<Tag>, tag: Tag, attrs: seq<Attr>)
    requires Fits(open, Open(tag, attrs))
    ensures Spelled(LETTER_SPELLING, tag) && PlainNames(attrs)
  {
    hide AllKept, Spelled, PlainNames;
    AllowedSpelled(tag);
    KeptPlainNames(tag, attrs);
  }

  lemma {:induction false} LetterReadsBack()
    ensures ReadsBack(LETTER, LETTER_SPELLING)
  {
    hide Fits, Nested, Spelled, PlainNames;
    AllowedSpelled(Br);
    NoNames();
    forall open, tag, attrs | Fits(open, Open(tag, attrs))
      ensures Spelled(LETTER_SPELLING, tag) && PlainNames(attrs)
    {
      FittingReadable(open, tag, attrs);
    }
    forall open, tag, attrs | Fits(open, Void(tag, attrs))
      ensures tag == Br && attrs == []
    {
      FittingBreak(open, tag, attrs);
    }
    forall open | Nested(open) && open != []
      ensures Spelled(LETTER_SPELLING, open[|open| - 1])
    {
      TopAllowed(open);
      AllowedSpelled(open[|open| - 1]);
    }
  }

  lemma NoNames()
    ensures PlainNames([])
  {
  }

  lemma TopAllowed(open: seq<Tag>)
    requires Nested(open) && open != []
    ensures Allowed(open[|open| - 1])
  {
  }

  lemma FittingShorter(open: seq<Tag>, tag: Tag, attrs: seq<Attr>)
    requires Fits(open, Open(tag, attrs))
    ensures Shorter(CleanAttrs(tag, attrs), attrs)
  {
    hide AllKept, CleanAttrs, RenderAttrs;
    CleanAttrsAgain(tag, attrs);
  }

  lemma {:induction false} LetterShrinks()
    ensures Shrinks(LETTER)
  {
    hide Fits, CleanAttrs, Shorter;
    forall open, tag, attrs | Fits(open, Open(tag, attrs))
      ensures Shorter(CleanAttrs(tag, attrs), attrs)
    {
      FittingShorter(open, tag, attrs);
    }
    forall open, tag, attrs | Fits(open, Void(tag, attrs))
      ensures Shorter(CleanAttrs(tag, attrs), attrs)
    {
      FittingBreak(open, tag, attrs);
      NothingShorter();
    }
  }

  lemma NothingShorter()
    ensures Shorter(CleanAttrs(Br, []), [])
  {
    NothingCleaned();
  }

  lemma LetterLawful()
    ensures Lawful(LETTER, LETTER_SPELLING)
  {
    hide WritesFit, StaysNested, Rewrites, ReadsBack, Shrinks;
    LetterWrites();
    LetterNests();
    LetterRewrites();
    LetterReadsBack();
    LetterShrinks();
  }

  // ---------- the entry point ----------

  /** `NumberError` is the value error that a handler raises. */
  datatype InputError = HtmlTooLarge | NumberError

  /** The entry point: `events` are the tokens of `raw`. */
  function SanitizeHtml(raw: string, events: seq<Event<Tag>>): Result<string, InputError> {
    if raw == "" then Ok("")
    else if |raw| > MAX_INPUT then Err(HtmlTooLarge)
    else
      match Sanitize(LETTER, events)
      case None => Err(NumberError)
      case Some(word) => Ok(Strip(Render(LETTER_SPELLING, word)))
  }

  /** Which letters are refused: those of more than two million characters, and those with a cell whose span cannot be read.
      Nothing gives nothing. */
  lemma {:induction false} RefusedLetters(raw: string, events: seq<Event<Tag>>)
    ensures SanitizeHtml(raw, events) == Err(HtmlTooLarge) <==> |raw| > 2_000_000
    ensures SanitizeHtml(raw, events) == Err(NumberError)
       <==> 0 < |raw| <= 2_000_000
            && exists i :: 0 <= i < |events| && UnreadableCell(Run(LETTER, events[..i]), events[i])
    ensures raw == "" ==> SanitizeHtml(raw, events) == Ok("")
  {
    hide Sanitize, Run, UnreadableCell, Render, Strip;
    SanitizeRaises(events);
  }

  /** The entry point applied to its own output: beyond the input limit it refuses; otherwise it raises no error, and
      returns the text unchanged exactly when no tag of the input that was placed spelled its alignment with a dotted
      capital I. */
  lemma {:induction false} SecondPass(raw: string, events: seq<Event<Tag>>)
    requires raw != "" && SanitizeHtml(raw, events).Ok?
    ensures var text := SanitizeHtml(raw, events).value;
            && Tokenize(LETTER_SPELLING, text).Some?
            && var second := SanitizeHtml(text, Tokenize(LETTER_SPELLING, text).value);
               if |text| > MAX_INPUT then second == Err(HtmlTooLarge)
               else second.Ok?
                    && (second.value == text
                        <==> forall i :: 0 <= i < |events| ==> !DottedTag(Run(LETTER, events[..i]), events[i]))
  {
    hide Render, Sanitize, Tokenize, Strip, Stable, Clean, Lawful, DottedTag, Run;
    var word := Sanitize(LETTER, events).value;
    var text := SanitizeHtml(raw, events).value;
    LetterLawful();
    CleanedAgain(LETTER, LETTER_SPELLING, events);
    LetterStable(events);
    if text == "" {
      EmptyText(LETTER_SPELLING);
      EmptyAgain(word);
    }
  }

  lemma EmptyText(sp: Spelling<Tag>)
    ensures Tokenize(sp, "") == Some([])
  {
  }

  /** No tokens give the empty text. */
  lemma {:induction false} EmptyAgain(word: seq<HtmlPiece>)
    ensures Sanitize(LETTER, []) == Some([]) && Strip(Render(LETTER_SPELLING, [])) == ""
  {
    var none: seq<HtmlPiece>, stack: seq<Tag> := [], [];
    assert none + Closing(stack) == none;
  }

  // ---------- letters without a dotted capital I ----------

  predicate Dotless(attrs: seq<Attr>) {
    forall i :: 0 <= i < |attrs| ==> DOTTED !in attrs[i].value
  }

  predicate DotlessInput(events: seq<Event<Tag>>) {
    forall i :: 0 <= i < |events| && events[i].Start? ==> Dotless(events[i].attrs)
  }

  lemma {:induction false} SplitWithin(c: char, s: string, separator: char)
    ensures forall part :: part in Split(s, separator) && c in part ==> c in s
    decreases |s|
  {
    if separator in s {
      SplitWithin(c, s[IndexOf(s, separator) + 1..], separator);
    }
  }

  lemma {:induction false} RawDotted(decl: string)
    requires DOTTED !in decl
    ensures RawAlign(decl).Some? ==> DOTTED !in RawAlign(decl).value
  {
    hide FoldAll, IsAlignment, Strip, StripLeft;
    var d := Strip(decl);
    StripKeepsOut(decl, DOTTED);
    if |d| >= |ALIGN| {
      StripKeepsOut(d[|ALIGN|..], DOTTED);
      var rest := StripLeft(d[|ALIGN|..]);
      if rest != "" {
        StripKeepsOut(rest[1..], DOTTED);
      }
    }
  }

  lemma {:induction false} NoneDotted(decls: seq<string>)
    requires forall d :: d in decls ==> DOTTED !in d
    ensures !FirstDotted(decls)
  {
    hide RawAlign;
    if decls != [] {
      assert decls[0] in decls && forall d :: d in decls[1..] ==> d in decls;
      RawDotted(decls[0]);
      NoneDotted(decls[1..]);
    }
  }

  /** Only an attribute that holds a dotted capital I spells its alignment with one. */
  lemma {:induction false} DottedSource(tag: Tag, attr: Attr)
    requires DOTTED !in attr.value
    ensures !DottedAttr(tag, attr)
  {
    hide Strip, Split, FirstDotted, Lower;
    StripKeepsOut(attr.value, DOTTED);
    SplitWithin(DOTTED, Strip(attr.value), ';');
    NoneDotted(Split(Strip(attr.value), ';'));
  }

  lemma {:induction false} DotlessTag(s: State<Tag>, event: Event<Tag>)
    requires event.Start? ==> Dotless(event.attrs)
    ensures !DottedTag(s, event)
  {
    hide DottedAttr, Allowed, Alias, HasContext, Placed;
    if event.Start? {
      forall i | 0 <= i < |event.attrs|
        ensures !DottedAttr(Placed(Alias(event.tag), s.stack), event.attrs[i])
      {
        DottedSource(Placed(Alias(event.tag), s.stack), event.attrs[i]);
      }
    }
  }

  /** A letter whose tags hold no dotted capital I in an attribute is left alone by every further pass, as far as the input
      limit lets it through. */
  lemma {:induction false} DotlessFixed(raw: string, events: seq<Event<Tag>>)
    requires raw != "" && SanitizeHtml(raw, events).Ok? && DotlessInput(events)
    requires |SanitizeHtml(raw, events).value| <= MAX_INPUT
    ensures var text := SanitizeHtml(raw, events).value;
            Tokenize(LETTER_SPELLING, text).Some?
            && SanitizeHtml(text, Tokenize(LETTER_SPELLING, text).value) == Ok(text)
  {
    hide SanitizeHtml, Tokenize, Run, DottedAttr, Allowed, Alias, HasContext, Placed;
    SecondPass(raw, events);
    forall i | 0 <= i < |events|
      ensures !DottedTag(Run(LETTER, events[..i]), events[i])
    {
      DotlessTag(Run(LETTER, events[..i]), events[i]);
    }
  }

  // ---------- a letter that changes ----------

  /** A paragraph aligned with a dotted capital I. */
  function DottedEvents(): seq<Event<Tag>> {
    [Start(P, [DottedStyle()]), End(P)]
  }

  function DottedWord(): seq<HtmlPiece> {
    [Open(P, CleanAttrs(P, [DottedStyle()])), Close(P)]
  }

  lemma {:induction false} OneCleaned()
    ensures exists c :: CleanAttrs(P, [DottedStyle()]) == [c] && c.name == "style" && |c.value| < 1000
    ensures !AttrsRaise(P, [DottedStyle()])
  {
    DottedAlignment();
    hide CleanAttr, LowerAll;
    var one := [DottedStyle()];
    assert one[..0] == [];
    LowerDoubles("r\U{130}ght");
    assert CleanAttrs(P, one) == [CleanAttr(P, DottedStyle()).value];
  }

  lemma {:induction false} LowerDoubles(s: string)
    ensures |LowerAll(s)| <= 2 * |s|
  {
    if s != "" {
      LowerDoubles(s[1..]);
    }
  }

  lemma ParagraphOpens(attrs: seq<Attr>)
    requires !AttrsRaise(P, attrs)
    ensures Step(LETTER, Initial(), Start(P, attrs)) == State([Open(P, CleanAttrs(P, attrs))], [P], 0, false)
  {
    hide CleanAttrs, AttrsRaise;
    assert Initial<Tag>().out + [Open(P, CleanAttrs(P, attrs))] == [Open(P, CleanAttrs(P, attrs))];
  }

  lemma ParagraphCloses(piece: HtmlPiece)
    ensures Step(LETTER, State([piece], [P], 0, false), End(P)) == State([piece, Close(P)], [], 0, false)
  {
    var s: State<Tag> := State([piece], [P], 0, false);
    assert Innermost(s.stack, P) == 0;
    assert s.stack[0..] == [P] && s.stack[..0] == [];
    assert Closing<Tag, seq<Attr>>([P]) == [Close(P)] by {
      assert [P][..0] == [];
    }
    assert s.out + [Close(P)] == [piece, Close(P)];
  }

  lemma {:induction false} ParagraphRun(attrs: seq<Attr>)
    requires !AttrsRaise(P, attrs)
    ensures Run(LETTER, [Start(P, attrs), End(P)]) == State([Open(P, CleanAttrs(P, attrs)), Close(P)], [], 0, false)
  {
    var a: Event<Tag>, b: Event<Tag> := Start(P, attrs), End(P);
    assert [a][..0] == [] && [a, b][..1] == [a];
    assert Run(LETTER, []) == Initial();
    hide Run, Step, CleanAttrs, AttrsRaise;
    LastStep(LETTER, [a]);
    ParagraphOpens(attrs);
    LastStep(LETTER, [a, b]);
    ParagraphCloses(Open(P, CleanAttrs(P, attrs)));
  }

  lemma {:induction false} DottedSanitized()
    ensures Sanitize(LETTER, DottedEvents()) == Some(DottedWord())
    ensures DottedTag(Run(LETTER, DottedEvents()[..0]), DottedEvents()[0])
  {
    OneCleaned();
    DottedAlignment();
    hide CleanAttrs, AttrsRaise, DottedAttr, CleanAttr, DottedStyle;
    ParagraphRun([DottedStyle()]);
    var stack: seq<Tag> := [];
    assert DottedWord() + Closing(stack) == DottedWord();
    assert Run(LETTER, DottedEvents()[..0]) == Initial();
    hide Run;
    assert DottedEvents()[0].attrs[0] == DottedStyle();
  }

  lemma {:induction false} DottedLength()
    ensures |Render(LETTER_SPELLING, DottedWord())| < 2000
  {
    OneCleaned();
    hide CleanAttrs, AttrsRaise;
    var c :| CleanAttrs(P, [DottedStyle()]) == [c] && c.name == "style" && |c.value| < 1000;
    CleanAttrsKept(P, [DottedStyle()]);
    assert Kept(P, CleanAttrs(P, [DottedStyle()])[0]);
    hide Kept, DottedStyle, Escape;
    WrittenPlain(P, c);
    assert [c][1..] == [];
    var word := DottedWord();
    assert word[1..] == [Close(P)];
    RenderOne<Tag>(LETTER_SPELLING, Close(P));
  }

  /** A whole letter that the second pass changes: its only alignment is spelled with a dotted capital I. */
  lemma {:induction false} DottedLetter(raw: string)
    requires 0 < |raw| <= MAX_INPUT
    ensures var first := SanitizeHtml(raw, DottedEvents());
            && first.Ok? && Tokenize(LETTER_SPELLING, first.value).Some?
            && var second := SanitizeHtml(first.value, Tokenize(LETTER_SPELLING, first.value).value);
               second.Ok? && second.value != first.value
  {
    DottedSanitized();
    DottedLength();
    hide Run, Render, Sanitize, Strip, DottedTag, Tokenize, DottedEvents, DottedWord;
    StripShorter(Render(LETTER_SPELLING, DottedWord()));
    var events := DottedEvents();
    assert 0 < |events| by { SomeEvents(); }
    SecondPass(raw, events);
  }

  lemma SomeEvents()
    ensures |DottedEvents()| == 2
  {
  }

  // ---------- letters that grow ----------

  /** Escaping can push an accepted letter over the limit: half a million ampersands are accepted once, not twice. */
  lemma {:induction false} SecondPassCanFail()
    ensures var raw := seq(500_000, _ => '&');
            var first := SanitizeHtml(raw, [Data(raw)]);
            first.Ok? && |first.value| > MAX_INPUT
  {
    hide Escape;
    var raw := seq(500_000, _ => '&');
    AmpersandsGrow(raw);
    OneTextSanitized(raw);
    RenderOne(LETTER_SPELLING, Text(raw));
  }

  lemma {:induction false} OneTextSanitized(data: string)
    requires data != ""
    ensures Sanitize(LETTER, [Data(data)]) == Some([Text(data)])
  {
    var event: Event<Tag> := Data(data);
    assert [event][..0] == [];
    LastStep(LETTER, [event]);
    var stack: seq<Tag>, one: seq<HtmlPiece> := [], [Text(data)];
    assert one + Closing(stack) == one;
    assert Initial<Tag>().out + one == one;
  }
}
