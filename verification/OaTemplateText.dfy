/** The template sanitizer on strings, and its second pass. */
module OaTemplateText {
  import opened Common
  import opened Strings
  import opened TagWord
  import opened Transducer
  import opened MarkupText
  import opened OaTemplateAttributes
  import opened OaTemplateHtml

  // ---------- the spelling of tags ----------

  function TagName(tag: Tag): string {
    match tag
    case Div => "div"
    case Span => "span"
    case P => "p"
    case H1 => "h1"
    case H2 => "h2"
    case H3 => "h3"
    case Strong => "strong"
    case B => "b"
    case Em => "em"
    case I => "i"
    case U => "u"
    case Small => "small"
    case Br => "br"
    case Hr => "hr"
    case Table => "table"
    case Thead => "thead"
    case Tbody => "tbody"
    case Tr => "tr"
    case Th => "th"
    case Td => "td"
    case Img => "img"
    case Dropped(name) => name
    case Other(name) => name
  }

  /** Each element is spelled as it is named. */
  lemma ElementNames()
    ensures TagName(Div) == "div" && TagName(Span) == "span" && TagName(P) == "p" && TagName(H1) == "h1"
    ensures TagName(H2) == "h2" && TagName(H3) == "h3" && TagName(Strong) == "strong" && TagName(B) == "b"
    ensures TagName(Em) == "em" && TagName(I) == "i" && TagName(U) == "u" && TagName(Small) == "small"
    ensures TagName(Br) == "br" && TagName(Hr) == "hr" && TagName(Table) == "table" && TagName(Thead) == "thead"
    ensures TagName(Tbody) == "tbody" && TagName(Tr) == "tr" && TagName(Th) == "th" && TagName(Td) == "td"
    ensures TagName(Img) == "img"
  {
  }

  function TagNamed(name: string): Option<Tag> {
    if |name| == 1 then ShortTagNamed(name)
    else if |name| == 2 then TwoLetterTagNamed(name)
    else if name == "div" then Some(Div)
    else if name == "img" then Some(Img)
    else if name == "span" then Some(Span)
    else if name == "small" then Some(Small)
    else if name == "table" then Some(Table)
    else if name == "thead" then Some(Thead)
    else if name == "tbody" then Some(Tbody)
    else if name == "strong" then Some(Strong)
    else None
  }

  function ShortTagNamed(name: string): Option<Tag> {
    if name == "p" then Some(P)
    else if name == "b" then Some(B)
    else if name == "i" then Some(I)
    else if name == "u" then Some(U)
    else None
  }

  function TwoLetterTagNamed(name: string): Option<Tag> {
    if name == "h1" then Some(H1)
    else if name == "h2" then Some(H2)
    else if name == "h3" then Some(H3)
    else if name == "em" then Some(Em)
    else if name == "br" then Some(Br)
    else if name == "hr" then Some(Hr)
    else if name == "tr" then Some(Tr)
    else if name == "th" then Some(Th)
    else if name == "td" then Some(Td)
    else None
  }

  const TEMPLATE_SPELLING: Spelling<Tag> := Spelling(TagName, TagNamed)

  lemma TagNamedBack(tag: Tag)
    requires Allowed(tag)
    ensures TagNamed(TagName(tag)) == Some(tag)
  {
    if |TagName(tag)| == 2 {
      TwoLetterTagNamedBack(tag);
    } else if |TagName(tag)| == 1 {
      ShortTagNamedBack(tag);
    }
    hide ShortTagNamed, TwoLetterTagNamed;
  }

  lemma ShortTagNamedBack(tag: Tag)
    requires |TagName(tag)| == 1 && Allowed(tag)
    ensures ShortTagNamed(TagName(tag)) == Some(tag)
  {
  }

  lemma TwoLetterTagNamedBack(tag: Tag)
    requires |TagName(tag)| == 2 && Allowed(tag)
    ensures TwoLetterTagNamed(TagName(tag)) == Some(tag)
  {
  }

  lemma TagNamePlain(tag: Tag)
    requires Allowed(tag)
    ensures var name := TagName(tag);
            name != "" && name[0] != '/' && ' ' !in name && '>' !in name && '<' !in name
  {
  }

  lemma AllowedSpelled(tag: Tag)
    requires Allowed(tag)
    ensures Spelled(TEMPLATE_SPELLING, tag)
  {
    hide TagName, TagNamed;
    TagNamePlain(tag);
    TagNamedBack(tag);
  }

  // ---------- the laws of reading and shrinking ----------

  lemma {:induction false} FitPlainNames(tag: Tag, attrs: seq<Attr>)
    requires FitAttrs(tag, attrs)
    ensures PlainNames(attrs)
  {
    hide AllKept, PlainName;
    if tag.Img? {
      KeptPlainNames(tag, attrs[1..]);
      LogoName();
      assert forall i :: 1 <= i < |attrs| ==> attrs[i] == attrs[1..][i - 1];
    } else {
      KeptPlainNames(tag, attrs);
    }
  }

  lemma LogoName()
    ensures PlainName(LOGO.name)
  {
  }

  lemma {:induction false} TemplateReadsBack()
    ensures ReadsBack(TEMPLATE, TEMPLATE_SPELLING)
  {
    hide Nested, FitAttrs, Spelled, PlainNames;
    forall open, tag, attrs | Fits(open, Open(tag, attrs)) || Fits(open, Void(tag, attrs))
      ensures Spelled(TEMPLATE_SPELLING, tag) && PlainNames(attrs)
    {
      AllowedSpelled(tag);
      FitPlainNames(tag, attrs);
    }
    forall open | Nested(open) && open != []
      ensures Spelled(TEMPLATE_SPELLING, open[|open| - 1])
    {
      TopAllowed(open);
      AllowedSpelled(open[|open| - 1]);
    }
  }

  lemma {:induction false} FitShorter(tag: Tag, attrs: seq<Attr>)
    requires FitAttrs(tag, attrs)
    ensures Shorter(WrittenAttrs(tag, attrs), attrs)
  {
    hide AllKept, CleanAttrs, RenderAttrs;
    if tag.Img? {
      var rest := attrs[1..];
      assert attrs == [LOGO] + rest;
      LogoApart(rest);
      CleanAttrsAgain(tag, rest);
      RenderLogo(rest);
      RenderLogo(CleanAttrs(tag, rest));
    } else {
      CleanAttrsAgain(tag, attrs);
      NoLogo(tag, attrs);
    }
  }

  lemma RenderLogo(rest: seq<Attr>)
    ensures RenderAttrs([LOGO] + rest) == RenderAttr(LOGO) + RenderAttrs(rest)
  {
    hide RenderAttr;
    assert ([LOGO] + rest)[1..] == rest;
  }

  lemma {:induction false} TemplateShrinks()
    ensures Shrinks(TEMPLATE)
  {
    hide FitAttrs, WrittenAttrs, Shorter;
    forall open, tag, attrs | Fits(open, Open(tag, attrs)) || Fits(open, Void(tag, attrs))
      ensures Shorter(WrittenAttrs(tag, attrs), attrs)
    {
      FitShorter(tag, attrs);
    }
  }

  lemma TemplateLawful()
    ensures Lawful(TEMPLATE, TEMPLATE_SPELLING)
  {
    hide WritesFit, StaysNested, Rewrites, ReadsBack, Shrinks;
    TemplateWrites();
    TemplateNests();
    TemplateRewrites();
    TemplateReadsBack();
    TemplateShrinks();
  }

  // ---------- the entry point ----------

  const MAX_INPUT := 50_000

  /** `NumberError` is the value error that a handler raises. */
  datatype InputError = TemplateTooLarge | NumberError

  /** The entry point: `events` are the tokens of `raw`. */
  function SanitizeTemplate(raw: string, events: seq<Event<Tag>>): Result<string, InputError> {
    if Strip(raw) == "" then Ok("")
    else if |raw| > MAX_INPUT then Err(TemplateTooLarge)
    else
      match Sanitize(TEMPLATE, events)
      case None => Err(NumberError)
      case Some(word) => Ok(Strip(Render(TEMPLATE_SPELLING, word)))
  }

  /** Which headers and footers are refused: those of more than fifty thousand characters, and those with a span or an image
      size that cannot be read. A blank one gives nothing, however long. */
  lemma {:induction false} RefusedTemplates(raw: string, events: seq<Event<Tag>>)
    ensures AllSpace(raw) ==> SanitizeTemplate(raw, events) == Ok("")
    ensures SanitizeTemplate(raw, events) == Err(TemplateTooLarge) <==> !AllSpace(raw) && |raw| > 50_000
    ensures SanitizeTemplate(raw, events) == Err(NumberError)
       <==> !AllSpace(raw) && |raw| <= 50_000
            && exists i :: 0 <= i < |events| && UnreadableTag(Run(TEMPLATE, events[..i]), events[i])
  {
    hide Sanitize, Run, UnreadableTag, Render, Strip, AllSpace;
    BlankExactly(raw);
    TemplateRaises(events);
  }

  /** The entry point applied to its own output: beyond the size limit it refuses; otherwise it raises no error, and returns
      the text unchanged exactly when no image of the input that is shown had its text cut right after white space. */
  lemma {:induction false} SecondPass(raw: string, events: seq<Event<Tag>>)
    requires Strip(raw) != "" && SanitizeTemplate(raw, events).Ok?
    ensures var text := SanitizeTemplate(raw, events).value;
            && Tokenize(TEMPLATE_SPELLING, text).Some?
            && var second := SanitizeTemplate(text, Tokenize(TEMPLATE_SPELLING, text).value);
               if |text| > MAX_INPUT then second == Err(TemplateTooLarge)
               else second.Ok?
                    && (second.value == text
                        <==> forall i :: 0 <= i < |events| ==> !CutTag(Run(TEMPLATE, events[..i]), events[i]))
  {
    hide Render, Sanitize, Tokenize, Stable, Clean, Lawful, CutTag, Run;
    var word := Sanitize(TEMPLATE, events).value;
    var text := SanitizeTemplate(raw, events).value;
    TemplateLawful();
    CleanedAgain(TEMPLATE, TEMPLATE_SPELLING, events);
    TemplateStable(events);
    StripTwice(Render(TEMPLATE_SPELLING, word));
    hide Strip;
    if text == "" {
      EmptyText();
      EmptyAgain();
    }
  }

  lemma EmptyText()
    ensures Tokenize(TEMPLATE_SPELLING, "") == Some([]) && Strip("") == ""
  {
  }

  lemma {:induction false} EmptyAgain()
    ensures Sanitize(TEMPLATE, []) == Some([]) && Strip(Render(TEMPLATE_SPELLING, [])) == ""
  {
    var none: seq<TemplatePiece>, stack: seq<Tag> := [], [];
    assert none + Closing(stack) == none;
  }

  // ---------- where a second pass differs ----------

  /** A text of an image of 101 characters with a space in the hundredth place: cleaned once it ends in the space, cleaned
      twice it does not. */
  lemma {:induction false} CutAlt()
    ensures var value := seq(99, _ => 'a') + " b";
            var first := CleanAttr(Img, Attr("alt", value));
            first.Some? && CleanAttr(Img, first.value).Some? && CleanAttr(Img, first.value) != first
  {
    var value := seq(99, _ => 'a') + " b";
    assert value[0] == 'a' && value[|value| - 1] == 'b' && value[99] == ' ';
    assert Trimmed(value);
    assert Strip(value) == value;
    AltUnsteady(value);
    hide Strip, CleanAttr;
    var first := CleanAttr(Img, Attr("alt", value)).value;
    CleanedKept(Img, Attr("alt", value));
    KeptAgain(Img, first);
    AltChanged(Img, first);
  }

  /** The logo with such a text. */
  function CutText(): string {
    seq(99, _ => 'a') + " b"
  }

  function CutImage(): seq<Attr> {
    [LOGO] + [Attr("alt", CutText())]
  }

  lemma {:induction false} CutCleaned()
    ensures exists c :: CleanAttrs(Img, [Attr("alt", CutText())]) == [c] && c.name == "alt" && |c.value| <= 100
    ensures !AttrsRaise(Img, [Attr("alt", CutText())]) && CutAttr(Img, Attr("alt", CutText()))
  {
    var value := CutText();
    assert value[0] == 'a' && value[|value| - 1] == 'b' && value[99] == ' ' && |value| == 101;
    assert Trimmed(value);
    assert Strip(value) == value;
    hide CutText, Strip, Lower;
    NameKept("alt");
    var one := [Attr("alt", value)];
    assert one[..0] == [];
    assert CleanAttr(Img, one[0]) == Some(Attr("alt", Cut(value)));
    assert CleanAttrs(Img, one) == [Attr("alt", Cut(value))];
  }

  lemma {:induction false} CutSanitized()
    ensures Sanitize(TEMPLATE, [Start(Img, CutImage())]) == Some([Void(Img, [LOGO] + CleanAttrs(Img, [Attr("alt", CutText())]))])
    ensures CutTag(Run(TEMPLATE, [Start(Img, CutImage())][..0]), Start(Img, CutImage()))
  {
    CutCleaned();
    hide CutText, CleanAttrs, AttrsRaise, CutAttr, ShowsLogo, RemoveSpaces;
    var rest := [Attr("alt", CutText())];
    LogoApart(rest);
    assert CutImage()[1] == rest[0];
    var event: Event<Tag> := Start(Img, CutImage());
    NoEvents();
    assert [event][..0] == [];
    var word := [Void(Img, [LOGO] + CleanAttrs(Img, rest))];
    assert Initial<Tag>().out + word == word;
    assert Step(TEMPLATE, Initial(), event) == Initial<Tag>().(out := word);
    hide Run, Step;
    LastStep(TEMPLATE, [event]);
    var stack: seq<Tag> := [];
    assert word + Closing(stack) == word;
  }

  lemma {:induction false} EscapeBound(s: string)
    ensures |Escape(s, true)| <= 6 * |s|
  {
    if s != "" {
      EscapeBound(s[1..]);
    }
  }

  lemma {:induction false} CutLength()
    ensures |Render(TEMPLATE_SPELLING, [Void(Img, [LOGO] + CleanAttrs(Img, [Attr("alt", CutText())]))])| < 2000
  {
    CutCleaned();
    hide CutText, CleanAttrs, Escape;
    var c :| CleanAttrs(Img, [Attr("alt", CutText())]) == [c] && c.name == "alt" && |c.value| <= 100;
    var attrs := [LOGO] + [c];
    assert attrs[1..] == [c] && [c][1..] == [];
    EscapeBound(c.value);
    EscapeBound(LOGO.value);
    assert |RenderAttr(c)| < 620 && |RenderAttr(LOGO)| < 100;
    assert RenderAttrs([c]) == RenderAttr(c);
    assert RenderAttrs(attrs) == RenderAttr(LOGO) + RenderAttrs([c]);
    hide RenderAttr, RenderAttrs;
    RenderOne(TEMPLATE_SPELLING, Void(Img, attrs));
  }

  /** A whole header that the second pass changes: the text of its logo is cut right after a space. */
  lemma {:induction false} CutHeader(raw: string)
    requires Strip(raw) != "" && |raw| <= MAX_INPUT
    ensures var first := SanitizeTemplate(raw, [Start(Img, CutImage())]);
            && first.Ok? && Tokenize(TEMPLATE_SPELLING, first.value).Some?
            && var second := SanitizeTemplate(first.value, Tokenize(TEMPLATE_SPELLING, first.value).value);
               second.Ok? && second.value != first.value
  {
    CutSanitized();
    CutLength();
    hide Run, Render, Sanitize, CutTag, Tokenize, CutImage, CutText, CleanAttrs;
    StripShorter(Render(TEMPLATE_SPELLING, [Void(Img, [LOGO] + CleanAttrs(Img, [Attr("alt", CutText())]))]));
    hide Strip;
    SecondPass(raw, [Start(Img, CutImage())]);
  }

  /** Escaping can push an accepted header over the limit. */
  lemma {:induction false} SecondPassCanFail()
    ensures var raw := seq(50_000, _ => '&');
            var first := SanitizeTemplate(raw, [Data(raw)]);
            first.Ok? && |first.value| > MAX_INPUT
  {
    hide Escape;
    var raw := seq(50_000, _ => '&');
    AmpersandsTrimmed(raw);
    AmpersandsGrow(raw);
    OneTextSanitized(raw);
    RenderOne(TEMPLATE_SPELLING, Text(raw));
  }

  lemma AmpersandsTrimmed(s: string)
    requires s != "" && forall i :: 0 <= i < |s| ==> s[i] == '&'
    ensures Strip(s) == s
  {
    assert Trimmed(s);
  }

  lemma {:induction false} OneTextSanitized(data: string)
    requires data != ""
    ensures Sanitize(TEMPLATE, [Data(data)]) == Some([Text(data)])
  {
    var event: Event<Tag> := Data(data);
    assert [event][..0] == [];
    LastStep(TEMPLATE, [event]);
    var stack: seq<Tag>, one: seq<TemplatePiece> := [], [Text(data)];
    assert one + Closing(stack) == one;
    assert Initial<Tag>().out + one == one;
  }
}
