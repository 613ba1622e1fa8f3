/** The template sanitizer (backend/app/core/oa_template_html.py) as a stack transducer. */
module OaTemplateHtml {
  // It cleans the headers and footers of letters. It has no aliases and no table rules; `hr` and `img` are void, and an
  // image is kept only when it shows the template's own logo.

  import opened Common
  import opened Strings
  import opened TagWord
  import opened Transducer
  import opened OaTemplateAttributes

  const MAX_DEPTH := 40

  type TemplatePiece = Piece<Tag, seq<Attr>>

  predicate Drops(tag: Tag) {
    tag.Dropped?
  }

  predicate IsVoid(tag: Tag) {
    tag.Br? || tag.Hr? || tag.Img?
  }

  predicate Allowed(tag: Tag) {
    !tag.Dropped? && !tag.Other?
  }

  function RemoveSpaces(s: string): string {
    if s == "" then "" else (if s[0] == ' ' then "" else [s[0]]) + RemoveSpaces(s[1..])
  }

  /** The trimmed value of the first `src` attribute. */
  function Source(attrs: seq<Attr>): string {
    if attrs == [] then "" else if Lower(attrs[0].name) == "src" then Strip(attrs[0].value) else Source(attrs[1..])
  }

  const LOGO := Attr("src", "{{logo}}")

  predicate ShowsLogo(attrs: seq<Attr>) {
    RemoveSpaces(Source(attrs)) == LOGO.value
  }

  // ---------- what the handlers write ----------

  /** The attributes that are written: an image shows the logo. */
  function WrittenAttrs(tag: Tag, attrs: seq<Attr>): seq<Attr> {
    (if tag.Img? then [LOGO] else []) + CleanAttrs(tag, attrs)
  }

  function WriteTag(stack: seq<Tag>, event: Event<Tag>): Outcome<Tag> {
    match event
    case Start(tag, attrs) => Place(stack, tag, attrs, false)
    case StartEnd(tag, attrs) => Place(stack, tag, attrs, true)
    case _ => Nothing
  }

  function Place(stack: seq<Tag>, tag: Tag, attrs: seq<Attr>, selfClosing: bool): Outcome<Tag> {
    if !Allowed(tag) || (tag.Img? && !ShowsLogo(attrs)) then Nothing
    else if !IsVoid(tag) && (selfClosing || |stack| >= MAX_DEPTH) then Nothing
    else if AttrsRaise(tag, attrs) then Fails
    else if IsVoid(tag) then Alone(tag, WrittenAttrs(tag, attrs))
    else Opens(tag, WrittenAttrs(tag, attrs))
  }

  function Closes(tag: Tag): Option<Tag> {
    if IsVoid(tag) then None else Some(tag)
  }

  // ---------- what a clean header or footer is ----------

  predicate FitAttrs(tag: Tag, attrs: seq<Attr>) {
    if tag.Img? then attrs != [] && attrs[0] == LOGO && AllKept(tag, attrs[1..]) else AllKept(tag, attrs)
  }

  /** The allowlist, the depth bound, written attributes, and the logo in every image. */
  predicate Fits(open: seq<Tag>, piece: TemplatePiece) {
    match piece
    case Open(tag, attrs) => Allowed(tag) && !IsVoid(tag) && |open| < MAX_DEPTH && FitAttrs(tag, attrs)
    case Close(_) => true
    case Void(tag, attrs) => IsVoid(tag) && FitAttrs(tag, attrs)
    case Text(data) => data != ""
  }

  /** At most `MAX_DEPTH` elements are open, all of them allowed. */
  predicate Nested(open: seq<Tag>) {
    |open| <= MAX_DEPTH && forall i :: 0 <= i < |open| ==> Allowed(open[i]) && !IsVoid(open[i])
  }

  const TEMPLATE: Language<Tag> := Language(Drops, WriteTag, Closes, Fits, Nested, WrittenAttrs)

  // ---------- the laws ----------

  lemma {:induction false} WrittenFit(tag: Tag, attrs: seq<Attr>)
    ensures FitAttrs(tag, WrittenAttrs(tag, attrs))
  {
    hide AllKept, CleanAttrs;
    CleanAttrsKept(tag, attrs);
    assert ([LOGO] + CleanAttrs(tag, attrs))[1..] == CleanAttrs(tag, attrs);
    assert [] + CleanAttrs(tag, attrs) == CleanAttrs(tag, attrs);
  }

  lemma {:induction false} PlaceFits(stack: seq<Tag>, tag: Tag, attrs: seq<Attr>, selfClosing: bool)
    ensures var w := Place(stack, tag, attrs, selfClosing);
            && (w.Opens? ==> Fits(stack, Open(w.tag, w.attrs)))
            && (w.Alone? ==> Fits(stack, Void(w.tag, w.attrs)))
  {
    hide FitAttrs, WrittenAttrs, AttrsRaise, ShowsLogo;
    WrittenFit(tag, attrs);
  }

  lemma TextFits(open: seq<Tag>, data: string)
    ensures Fits(open, Text(data)) <==> data != ""
  {
  }

  lemma {:induction false} TemplateWrites()
    ensures WritesFit(TEMPLATE)
  {
    hide Fits, Place;
    forall open, event
      ensures var w := WriteTag(open, event);
              && (w.Opens? ==> Fits(open, Open(w.tag, w.attrs)))
              && (w.Alone? ==> Fits(open, Void(w.tag, w.attrs)))
    {
      if event.Start? || event.StartEnd? {
        PlaceFits(open, event.tag, event.attrs, event.StartEnd?);
      }
    }
    forall open: seq<Tag>, data
      ensures Fits(open, Text(data)) <==> data != ""
    {
      TextFits(open, data);
    }
  }

  lemma ReadNested(open: seq<Tag>, piece: TemplatePiece)
    requires Nested(open) && ReadPiece(Fits, open, piece).Some?
    ensures Nested(ReadPiece(Fits, open, piece).value)
  {
    hide FitAttrs;
  }

  lemma {:induction false} TemplateNests()
    ensures StaysNested(TEMPLATE)
  {
    hide ReadPiece;
    assert Nested([]);
    hide Nested;
    forall open, piece | Nested(open) && ReadPiece(Fits, open, piece).Some?
      ensures Nested(ReadPiece(Fits, open, piece).value)
    {
      ReadNested(open, piece);
    }
  }

  lemma {:induction false} LogoRaises(rest: seq<Attr>)
    requires !AttrRaises(Img, LOGO)
    ensures AttrsRaise(Img, [LOGO] + rest) <==> AttrsRaise(Img, rest)
  {
    hide AttrRaises;
    var all := [LOGO] + rest;
    if i :| 0 <= i < |rest| && AttrRaises(Img, rest[i]) {
      assert AttrRaises(Img, all[i + 1]);
    }
    if i :| 0 <= i < |all| && AttrRaises(Img, all[i]) {
      assert AttrRaises(Img, rest[i - 1]);
    }
  }

  lemma {:induction false} LogoApart(rest: seq<Attr>)
    ensures CleanAttrs(Img, [LOGO] + rest) == CleanAttrs(Img, rest)
    ensures AttrsRaise(Img, [LOGO] + rest) <==> AttrsRaise(Img, rest)
    ensures ShowsLogo([LOGO] + rest)
  {
    LogoIgnored();
    LogoShown();
    hide CleanAttr, AttrRaises, Source, CleanAttrs, AttrsRaise;
    LogoRaises(rest);
    SourceFirst(rest);
    LogoFirst(rest);
  }

  lemma {:induction false} SourceFirst(rest: seq<Attr>)
    requires Lower("src") == "src" && Strip("{{logo}}") == "{{logo}}"
    ensures Source([LOGO] + rest) == "{{logo}}"
  {
    hide Lower, Strip;
  }

  lemma {:induction false} LogoFirst(rest: seq<Attr>)
    requires CleanAttr(Img, LOGO) == None
    ensures CleanAttrs(Img, [LOGO] + rest) == CleanAttrs(Img, rest)
  {
    hide CleanAttr;
    if rest == [] {
      assert [LOGO] + rest == [LOGO] && [LOGO][..0] == [];
    } else {
      LogoFirst(rest[..|rest| - 1]);
      assert ([LOGO] + rest)[..|rest|] == [LOGO] + rest[..|rest| - 1];
    }
  }

  lemma {:induction false} LogoIgnored()
    ensures CleanAttr(Img, LOGO) == None && !AttrRaises(Img, LOGO)
  {
    assert Lower("src") == "src";
    hide Lower, Strip;
  }

  lemma {:induction false} LogoShown()
    ensures Lower("src") == "src" && Strip("{{logo}}") == "{{logo}}" && RemoveSpaces("{{logo}}") == "{{logo}}"
  {
    assert Lower("src") == "src";
    assert Trimmed("{{logo}}");
    NoSpaces("{{logo}}");
    hide Lower, Strip, RemoveSpaces;
  }

  lemma {:induction false} NoSpaces(s: string)
    requires ' ' !in s
    ensures RemoveSpaces(s) == s
  {
    if s != "" {
      NoSpaces(s[1..]);
    }
  }

  /** What fits is written again: nothing raises, and the attributes are cleaned once more. */
  lemma {:induction false} FittingPlaced(open: seq<Tag>, tag: Tag, attrs: seq<Attr>)
    requires FitAttrs(tag, attrs)
    ensures !AttrsRaise(tag, attrs) && (tag.Img? ==> ShowsLogo(attrs))
  {
    hide AllKept, AttrsRaise, ShowsLogo;
    if tag.Img? {
      assert attrs == [LOGO] + attrs[1..];
      KeptDoNotRaise(tag, attrs[1..]);
      LogoApart(attrs[1..]);
    } else {
      KeptDoNotRaise(tag, attrs);
    }
  }

  lemma {:induction false} TemplateRewrites()
    ensures Rewrites(TEMPLATE)
  {
    hide Nested, FitAttrs, WrittenAttrs, ShowsLogo, AttrsRaise;
    forall open, tag, attrs | Fits(open, Open(tag, attrs))
      ensures !Drops(tag) && WriteTag(open, Start(tag, attrs)) == Opens(tag, WrittenAttrs(tag, attrs))
    {
      FittingPlaced(open, tag, attrs);
    }
    forall open, tag, attrs | Fits(open, Void(tag, attrs))
      ensures !Drops(tag) && WriteTag(open, Start(tag, attrs)) == Alone(tag, WrittenAttrs(tag, attrs))
    {
      FittingPlaced(open, tag, attrs);
    }
    forall open | Nested(open) && open != []
      ensures !Drops(open[|open| - 1]) && Closes(open[|open| - 1]) == Some(open[|open| - 1])
    {
      TopAllowed(open);
    }
  }

  lemma TopAllowed(open: seq<Tag>)
    requires Nested(open) && open != []
    ensures Allowed(open[|open| - 1]) && !IsVoid(open[|open| - 1])
  {
  }

  // ---------- what holds of every header and footer ----------

  /** Whatever the input, what is written is balanced, within the allowlist and the depth bound, shows no image but the
      logo, and its attributes are such as the cleaner writes. */
  lemma TemplateClean(events: seq<Event<Tag>>)
    ensures Sanitize(TEMPLATE, events).Some? ==> Clean(TEMPLATE, Sanitize(TEMPLATE, events).value)
  {
    TemplateWrites();
    SanitizedClean(TEMPLATE, events);
  }

  /** At every point of a clean word at most `MAX_DEPTH` elements are open, all of them allowed. */
  lemma {:induction false} DepthBounded(word: seq<TemplatePiece>)
    requires OpenTags(Fits, word).Some?
    ensures Nested(OpenTags(Fits, word).value)
  {
    TemplateNests();
    OpenNested(TEMPLATE, word);
  }

  /** The text outside dropped elements is kept, once and in order. */
  lemma TemplateText(events: seq<Event<Tag>>)
    ensures Sanitize(TEMPLATE, events).Some? ==>
              TextOf(Sanitize(TEMPLATE, events).value) == KeptText(Drops, events)
  {
    TextConserved(TEMPLATE, events);
  }

  predicate IsLine(tag: Tag) {
    tag.Br? || tag.Hr?
  }

  lemma {:induction false} TemplateLines()
    ensures WritesLines(TEMPLATE, IsLine)
  {
    hide WrittenAttrs, AttrsRaise, ShowsLogo;
  }

  /** The line breaks and rules of what is written, among its texts, are exactly the `br` and `hr` tags of the input outside
      dropped elements, self-closing or not, in order. */
  lemma {:induction false} TemplateItems(events: seq<Event<Tag>>)
    ensures Sanitize(TEMPLATE, events).Some? ==>
              ItemsOf(IsLine, Sanitize(TEMPLATE, events).value) == InputItems(Drops, IsLine, events)
  {
    hide WritesLines, Sanitize;
    TemplateLines();
    ItemsConserved(TEMPLATE, IsLine, events);
  }

  /** An element that would be written, outside dropped elements, one of whose numbers is none although it passes
      `isdigit`. */
  predicate UnreadableTag(s: State<Tag>, event: Event<Tag>) {
    && (event.Start? || event.StartEnd?) && s.drop == 0
    && Allowed(event.tag) && AttrsRaise(event.tag, event.attrs)
    && (event.tag.Img? ==> ShowsLogo(event.attrs))
    && (!IsVoid(event.tag) ==> event.Start? && |s.stack| < MAX_DEPTH)
  }

  lemma FailingTag(s: State<Tag>, event: Event<Tag>)
    ensures FailsAt(TEMPLATE, s, event) <==> UnreadableTag(s, event)
  {
    hide AttrsRaise, ShowsLogo, WrittenAttrs;
  }

  /** Nothing is written exactly when the handlers meet such an element: then they raise. */
  lemma {:induction false} TemplateRaises(events: seq<Event<Tag>>)
    ensures Sanitize(TEMPLATE, events) == None
       <==> exists i :: 0 <= i < |events| && UnreadableTag(Run(TEMPLATE, events[..i]), events[i])
  {
    hide Run, UnreadableTag, FailsAt;
    RunFails(TEMPLATE, events);
    forall i | 0 <= i < |events|
      ensures FailsAt(TEMPLATE, Run(TEMPLATE, events[..i]), events[i])
         <==> UnreadableTag(Run(TEMPLATE, events[..i]), events[i])
    {
      FailingTag(Run(TEMPLATE, events[..i]), events[i]);
    }
  }

  lemma {:induction false} RaisingImage(rest: seq<Attr>)
    requires AttrsRaise(Img, rest)
    ensures Sanitize(TEMPLATE, [Start(Img, [LOGO] + rest)]) == None
  {
    hide Run, Step, AttrsRaise, ShowsLogo, WrittenAttrs, FailsAt;
    var event: Event<Tag> := Start(Img, [LOGO] + rest);
    NoEvents();
    assert [event][..0] == [];
    LogoApart(rest);
    assert UnreadableTag(Initial(), event);
    FailingTag(Initial(), event);
    LastStep(TEMPLATE, [event]);
    StepFails(TEMPLATE, Initial(), event);
  }

  /** A logo whose width cannot be read: nothing is written. */
  lemma {:induction false} UnreadableWidth(value: string)
    requires Unreadable(Strip(value))
    ensures Sanitize(TEMPLATE, [Start(Img, [LOGO] + [Attr("width", value)])]) == None
  {
    WidthRaises(value);
    hide Unreadable, Strip, AttrRaises, Sanitize;
    var rest := [Attr("width", value)];
    assert AttrRaises(Img, rest[0]);
    RaisingImage(rest);
  }

  lemma WidthRaises(value: string)
    requires Unreadable(Strip(value))
    ensures AttrRaises(Img, Attr("width", value))
  {
    NameKept("width");
    hide Unreadable, Strip;
  }

  lemma NoEvents()
    ensures Run(TEMPLATE, []) == Initial()
  {
  }

  lemma {:induction false} SuperscriptWidth()
    ensures Sanitize(TEMPLATE, [Start(Img, [LOGO] + [Attr("width", "\U{B2}")])]) == None
  {
    SuperscriptUnreadable();
    assert Strip("\U{B2}") == "\U{B2}";
    hide Unreadable, Strip, Sanitize;
    UnreadableWidth("\U{B2}");
  }

  /** `link` and `meta` have no end tag: their start tag loses all the text after it up to an end tag of another dropped
      element. */
  lemma {:induction false} MetaLosesText(events: seq<Event<Tag>>, name: string, attrs: seq<Attr>, more: seq<Event<Tag>>)
    requires forall i :: 0 <= i < |more| ==> !(more[i].End? && Drops(more[i].tag))
    ensures KeptText(Drops, events + [Start(Dropped(name), attrs)] + more) == KeptText(Drops, events)
  {
    var all := events + [Start(Dropped(name), attrs)];
    assert all[..|all| - 1] == events && all[|all| - 1] == Start(Dropped(name), attrs);
    assert DropDepth(Drops, all) > 0 && KeptText(Drops, all) == KeptText(Drops, events);
    TextLost(Drops, all, more);
  }

  lemma Dropping(s: State<Tag>, event: Event<Tag>)
    requires s.drop > 0 && !s.failed && (event.Start? || event.End? ==> !Drops(event.tag))
    ensures Step(TEMPLATE, s, event) == s
  {
  }

  /** A header that begins with `<meta>`: nothing of it is left. */
  lemma {:induction false} MetaHeader()
    ensures Sanitize(TEMPLATE, [Start(Dropped("meta"), []), Start(P, []), Data("x"), End(P)]) == Some([])
  {
    var a: Event<Tag>, b: Event<Tag>, c: Event<Tag>, d: Event<Tag>
      := Start(Dropped("meta"), []), Start(P, []), Data("x"), End(P);
    NoEvents();
    var s: State<Tag> := Initial().(drop := 1);
    assert Step(TEMPLATE, Initial(), a) == s;
    Dropping(s, b);
    Dropping(s, c);
    Dropping(s, d);
    hide Run, Step;
    LastStep(TEMPLATE, [a]);
    LastStep(TEMPLATE, [a, b]);
    LastStep(TEMPLATE, [a, b, c]);
    LastStep(TEMPLATE, [a, b, c, d]);
    assert [a][..0] == [] && [a, b][..1] == [a] && [a, b, c][..2] == [a, b] && [a, b, c, d][..3] == [a, b, c];
    var stack: seq<Tag>, none: seq<TemplatePiece> := [], [];
    assert none + Closing(stack) == none;
  }

  // ---------- headers and footers that stay as they are ----------

  /** No text of an image was cut right after white space. */
  predicate Steady(word: seq<TemplatePiece>) {
    forall i, j :: 0 <= i < |word| && word[i].Void? && 0 <= j < |word[i].attrs| ==> !Unsteady(word[i].tag, word[i].attrs[j])
  }

  lemma {:induction false} OnlyImages(tag: Tag, attrs: seq<Attr>)
    requires !tag.Img?
    ensures forall j :: 0 <= j < |attrs| ==> !Unsteady(tag, attrs[j])
  {
  }

  lemma {:induction false} ImageSteady(rest: seq<Attr>)
    requires AllKept(Img, rest)
    ensures WrittenAttrs(Img, [LOGO] + rest) == [LOGO] + rest
       <==> forall j :: 0 <= j < |rest| + 1 ==> !Unsteady(Img, ([LOGO] + rest)[j])
  {
    LogoApart(rest);
    CleanAttrsAgain(Img, rest);
    assert !Unsteady(Img, LOGO);
    hide Unsteady, CleanAttrs, AllKept;
    var all := [LOGO] + rest;
    assert WrittenAttrs(Img, all)[1..] == CleanAttrs(Img, rest) && all[1..] == rest;
    if j :| 0 <= j < |rest| && Unsteady(Img, rest[j]) {
      assert Unsteady(Img, all[j + 1]);
    }
    if j :| 0 <= j < |all| && Unsteady(Img, all[j]) {
      assert Unsteady(Img, rest[j - 1]);
    }
  }

  lemma {:induction false} AttrsSteady(tag: Tag, attrs: seq<Attr>)
    requires FitAttrs(tag, attrs)
    ensures WrittenAttrs(tag, attrs) == attrs <==> forall j :: 0 <= j < |attrs| ==> !Unsteady(tag, attrs[j])
  {
    hide AllKept, CleanAttrs, Unsteady;
    if tag.Img? {
      assert attrs == [LOGO] + attrs[1..];
      ImageSteady(attrs[1..]);
    } else {
      CleanAttrsAgain(tag, attrs);
      assert [] + CleanAttrs(tag, attrs) == CleanAttrs(tag, attrs);
    }
  }

  lemma {:induction false} PieceSteady(open: seq<Tag>, piece: TemplatePiece)
    requires ReadPiece(Fits, open, piece).Some?
    ensures Recleaned(TEMPLATE, piece) == piece
       <==> (piece.Void? ==> forall j :: 0 <= j < |piece.attrs| ==> !Unsteady(piece.tag, piece.attrs[j]))
  {
    hide FitAttrs, Unsteady, WrittenAttrs;
    if piece.Open? {
      AttrsSteady(piece.tag, piece.attrs);
      OnlyImages(piece.tag, piece.attrs);
    } else if piece.Void? {
      AttrsSteady(piece.tag, piece.attrs);
    }
  }

  lemma {:induction false} SteadyStable(word: seq<TemplatePiece>)
    requires OpenTags(Fits, word).Some?
    ensures Stable(TEMPLATE, word) <==> Steady(word)
  {
    hide Unsteady, ReadPiece, Recleaned;
    forall i | 0 <= i < |word|
      ensures Recleaned(TEMPLATE, word[i]) == word[i]
         <==> (word[i].Void? ==> forall j :: 0 <= j < |word[i].attrs| ==> !Unsteady(word[i].tag, word[i].attrs[j]))
    {
      OpenTagsPrefix(Fits, word, i + 1);
      assert word[..i + 1][..i] == word[..i];
      PieceSteady(OpenTags(Fits, word[..i]).value, word[i]);
    }
  }

  /** An image that is shown, outside dropped elements, with a text that is cut right after white space. */
  predicate CutTag(s: State<Tag>, event: Event<Tag>) {
    && (event.Start? || event.StartEnd?) && s.drop == 0
    && event.tag.Img? && ShowsLogo(event.attrs)
    && exists i :: 0 <= i < |event.attrs| && CutAttr(Img, event.attrs[i])
  }

  lemma {:induction false} CutWritten(tag: Tag, attrs: seq<Attr>)
    ensures WrittenAttrs(tag, WrittenAttrs(tag, attrs)) != WrittenAttrs(tag, attrs)
       <==> tag.Img? && exists i :: 0 <= i < |attrs| && CutAttr(Img, attrs[i])
  {
    hide CleanAttrs, AttrsRaise, ShowsLogo;
    CleanAttrsCut(tag, attrs);
    if tag.Img? {
      var cleaned := CleanAttrs(Img, attrs);
      LogoApart(cleaned);
      hide CutAttr;
      assert ([LOGO] + cleaned)[1..] == cleaned;
      assert ([LOGO] + CleanAttrs(Img, cleaned))[1..] == CleanAttrs(Img, cleaned);
    } else {
      NoLogo(tag, attrs);
      NoLogo(tag, CleanAttrs(tag, attrs));
    }
  }

  lemma {:induction false} UnstableImage(s: State<Tag>, event: Event<Tag>)
    requires !FailsAt(TEMPLATE, s, event)
    ensures UnstableAt(TEMPLATE, s, event) <==> CutTag(s, event)
  {
    hide WrittenAttrs, AttrsRaise, CutAttr, ShowsLogo;
    if event.Start? || event.StartEnd? {
      CutWritten(event.tag, event.attrs);
    }
  }

  /** What is written is stable exactly when no image of the input that is shown has its text cut right after white space. */
  lemma {:induction false} TemplateStable(events: seq<Event<Tag>>)
    requires Sanitize(TEMPLATE, events).Some?
    ensures Stable(TEMPLATE, Sanitize(TEMPLATE, events).value)
       <==> forall i :: 0 <= i < |events| ==> !CutTag(Run(TEMPLATE, events[..i]), events[i])
  {
    hide Run, CutTag, UnstableAt, FailsAt, Stable, Closing;
    StableExactly(TEMPLATE, events);
    RunFails(TEMPLATE, events);
    forall i | 0 <= i < |events|
      ensures UnstableAt(TEMPLATE, Run(TEMPLATE, events[..i]), events[i]) <==> CutTag(Run(TEMPLATE, events[..i]), events[i])
    {
      UnstableImage(Run(TEMPLATE, events[..i]), events[i]);
    }
  }

  /** The words that the sanitizer leaves alone are exactly the clean and steady ones. */
  lemma {:induction false} TemplateFixedPoints(word: seq<TemplatePiece>)
    ensures Sanitize(TEMPLATE, Events(word)) == Some(word) <==> Clean(TEMPLATE, word) && Steady(word)
  {
    hide WritesFit, StaysNested, Rewrites, Steady, Stable, Sanitize;
    TemplateWrites();
    TemplateNests();
    TemplateRewrites();
    FixedPoints(TEMPLATE, word);
    if Clean(TEMPLATE, word) {
      SteadyStable(word);
    }
  }

  // ---------- the parser object ----------

  lemma EndTagStep(s: State<Tag>, tag: Tag)
    requires !s.failed
    ensures Step(TEMPLATE, s, End(tag)) ==
            if Drops(tag) then s.(drop := if s.drop > 0 then s.drop - 1 else 0)
            else if s.drop > 0 || IsVoid(tag) || tag !in s.stack then s
            else CloseStep(s, tag)
  {
    hide CloseStep;
  }

  lemma NotPlaced(stack: seq<Tag>, tag: Tag, attrs: seq<Attr>, selfClosing: bool)
    ensures !Allowed(tag) ==> Place(stack, tag, attrs, selfClosing) == Nothing
  {
  }

  lemma NoLogo(tag: Tag, attrs: seq<Attr>)
    requires !tag.Img?
    ensures WrittenAttrs(tag, attrs) == CleanAttrs(tag, attrs)
  {
    hide CleanAttrs;
    assert [] + CleanAttrs(tag, attrs) == CleanAttrs(tag, attrs);
  }

  class Parser {
    var out: seq<TemplatePiece>
    var stack: seq<Tag>
    var drop: nat

    ghost function Value(): State<Tag>
      reads this
    {
      State(out, stack, drop, false)
    }

    constructor ()
      ensures Value() == Initial()
    {
      out, stack, drop := [], [], 0;
    }

    /** `_open`, for both kinds of opening tag; a value error of the cleaner is passed on. */
    method OpenTag(tag: Tag, attrs: seq<Attr>, closingVoid: bool) returns (raised: bool)
      modifies this
      ensures var event := if closingVoid then StartEnd(tag, attrs) else Start(tag, attrs);
              && (raised <==> FailsAt(TEMPLATE, old(Value()), event))
              && (!raised ==> Value() == Step(TEMPLATE, old(Value()), event))
    {
      hide Place, Allowed;
      raised := false;
      if Drops(tag) {
        if !closingVoid {
          drop := drop + 1;
        }
        return;
      }
      if drop > 0 || !Allowed(tag) {
        NotPlaced(stack, tag, attrs, closingVoid);
        return;
      }
      raised := PlaceTag(tag, attrs, closingVoid);
    }

    /** An allowed tag outside dropped elements. */
    method PlaceTag(tag: Tag, attrs: seq<Attr>, closingVoid: bool) returns (raised: bool)
      requires Allowed(tag)
      modifies this
      ensures raised <==> Place(old(stack), tag, attrs, closingVoid).Fails?
      ensures !raised ==> Value() == Written(old(Value()), Place(old(stack), tag, attrs, closingVoid))
    {
      hide CleanAttrs, AttrsRaise, ShowsLogo, Allowed;
      var clean;
      raised := false;
      if tag.Img? {
        if !ShowsLogo(attrs) {
          return;
        }
        clean := CleanAttributes(tag, attrs);
        if clean.Err? {
          return true;
        }
        out := out + [Void(tag, [LOGO] + clean.value)];
        return;
      }
      NoLogo(tag, attrs);
      if IsVoid(tag) {
        clean := CleanAttributes(tag, attrs);
        if clean.Err? {
          return true;
        }
        out := out + [Void(tag, clean.value)];
        return;
      }
      if closingVoid || |stack| >= MAX_DEPTH {
        return;
      }
      stack := stack + [tag];
      clean := CleanAttributes(tag, attrs);
      if clean.Err? {
        return true;
      }
      out := out + [Open(tag, clean.value)];
    }

    method HandleEndTag(tag: Tag)
      modifies this
      ensures Value() == Step(TEMPLATE, old(Value()), End(tag))
    {
      hide CloseStep, Step;
      EndTagStep(Value(), tag);
      if Drops(tag) {
        drop := if drop > 0 then drop - 1 else 0;
        return;
      }
      if drop > 0 || IsVoid(tag) || tag !in stack {
        return;
      }
      CloseThrough(tag);
    }

    /** Closes elements from the innermost outwards until one with this tag has been closed. */
    method CloseThrough(tag: Tag)
      requires tag in stack
      modifies this
      ensures Value() == CloseStep(old(Value()), tag)
    {
      hide Closing, Innermost;
      ghost var i := Innermost(stack, tag);
      ghost var closed := out + Closing(stack[i..]);
      while stack != []
        invariant i < |stack| <= |old(stack)| && stack == old(stack)[..|stack|]
        invariant out + Closing(stack[i..]) == closed
        invariant drop == old(drop)
        decreases |stack|
      {
        var top := stack[|stack| - 1];
        CloseTop(out, stack, i);
        stack := stack[..|stack| - 1];
        out := out + [Close(top)];
        if top == tag {
          NothingToClose(out, stack, i);
          break;
        }
      }
    }

    method HandleData(data: string)
      modifies this
      ensures Value() == Step(TEMPLATE, old(Value()), Data(data))
    {
      if drop == 0 && data != "" {
        out := out + [Text(data)];
      }
    }

    /** Closing what is left; joining and trimming the pieces is `Strip(Render(...))`. */
    method Result() returns (word: seq<TemplatePiece>)
      modifies this
      ensures word == out == old(out) + Closing(old(stack)) && stack == []
    {
      while stack != []
        invariant out + Closing(stack) == old(out) + Closing(old(stack))
        decreases |stack|
      {
        out := out + [Close(stack[|stack| - 1])];
        stack := stack[..|stack| - 1];
      }
      assert out + Closing(stack) == out;
      word := out;
    }

    static method Feed(events: seq<Event<Tag>>) returns (word: Option<seq<TemplatePiece>>)
      ensures word == Sanitize(TEMPLATE, events)
    {
      hide Step, FailsAt;
      var parser := new Parser();
      for i := 0 to |events|
        invariant fresh(parser)
        invariant parser.Value() == Run(TEMPLATE, events[..i])
      {
        assert events[..i + 1][..i] == events[..i];
        LastStep(TEMPLATE, events[..i + 1]);
        StepFails(TEMPLATE, parser.Value(), events[i]);
        var raised := false;
        match events[i] {
          case Start(tag, attrs) => raised := parser.OpenTag(tag, attrs, false);
          case StartEnd(tag, attrs) => raised := parser.OpenTag(tag, attrs, true);
          case End(tag) => parser.HandleEndTag(tag);
          case Data(text) => parser.HandleData(text);
          case Ignored => IgnoredStep(TEMPLATE, parser.Value());
        }
        if raised {
          StaysFailed(TEMPLATE, events, i + 1);
          return None;
        }
      }
      assert events[..|events|] == events;
      var all := parser.Result();
      word := Some(all);
    }
  }
}
