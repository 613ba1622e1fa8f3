/** The letter sanitizer (backend/app/core/oa_html.py) as a stack transducer. */
module OaHtml {
  // `LETTER` says what its handlers write and what a clean letter is; the class `Sanitizer` is the object whose methods
  // carry the handlers out.

  import opened Common
  import opened Strings
  import opened TagWord
  import opened Transducer
  import opened OaAttributes

  const MAX_DEPTH := 64
  const MAX_INPUT := 2_000_000

  type HtmlPiece = Piece<Tag, seq<Attr>>

  // ---------- what the handlers write ----------

  predicate HasContext(tag: Tag, stack: seq<Tag>) {
    && (tag.Tr? ==> Table in stack || Thead in stack || Tbody in stack)
    && (tag.Td? || tag.Th? ==> Tr in stack)
    && (tag.Thead? || tag.Tbody? ==> Table in stack)
  }

  /** A list item outside every list becomes a paragraph. */
  function Placed(tag: Tag, stack: seq<Tag>): Tag {
    if tag.Li? && Ul !in stack && Ol !in stack then P else tag
  }

  function WriteTag(stack: seq<Tag>, event: Event<Tag>): Outcome<Tag> {
    match event
    case Start(tag, attrs) => if Allowed(Alias(tag)) then Place(stack, Alias(tag), attrs) else Nothing
    case StartEnd(tag, _) => if Alias(tag).Br? then Alone(Br, []) else Nothing
    case _ => Nothing
  }

  /** An allowed tag. */
  function Place(stack: seq<Tag>, name: Tag, attrs: seq<Attr>): Outcome<Tag> {
    if name.Br? then Alone(Br, [])
    else if |stack| >= MAX_DEPTH || !HasContext(name, stack) then Nothing
    else
      var placed := Placed(name, stack);
      if AttrsRaise(placed, attrs) then Fails else Opens(placed, CleanAttrs(placed, attrs))
  }

  function Closes(tag: Tag): Option<Tag> {
    if Allowed(Alias(tag)) && !Alias(tag).Br? then Some(Alias(tag)) else None
  }

  // ---------- what a clean letter is ----------

  /** Which pieces may stand where: the allowlist, the depth bound, the table and list structure, and written attributes.
      `open` is the stack of enclosing elements. */
  predicate Fits(open: seq<Tag>, piece: HtmlPiece) {
    match piece
    case Open(tag, attrs) =>
      && Allowed(tag) && !tag.Br?
      && |open| < MAX_DEPTH
      && HasContext(tag, open)
      && (tag.Li? ==> Ul in open || Ol in open)
      && AllKept(tag, attrs)
    case Close(_) => true
    case Void(tag, attrs) => tag.Br? && attrs == []
    case Text(data) => data != ""
  }

  /** Only allowed elements are open, at most `MAX_DEPTH` of them, and each table part has a table outside it. */
  predicate Nested(open: seq<Tag>) {
    && |open| <= MAX_DEPTH
    && (forall i :: 0 <= i < |open| ==> Allowed(open[i]) && !open[i].Br?)
    && (forall i :: 0 <= i < |open| && (open[i].Thead? || open[i].Tbody? || open[i].Tr?) ==> Table in open[..i])
  }

  const LETTER: Language<Tag> := Language(DropsContent, WriteTag, Closes, Fits, Nested, CleanAttrs)

  // ---------- the laws ----------

  lemma PlaceFits(stack: seq<Tag>, name: Tag, attrs: seq<Attr>)
    requires Allowed(name)
    ensures var w := Place(stack, name, attrs);
            && (w.Opens? ==> Fits(stack, Open(w.tag, w.attrs)))
            && (w.Alone? ==> Fits(stack, Void(w.tag, w.attrs)))
  {
    hide AllKept, CleanAttrs, AttrsRaise;
    CleanAttrsKept(Placed(name, stack), attrs);
  }

  lemma {:induction false} LetterWrites()
    ensures WritesFit(LETTER)
  {
    hide Fits, Place, Allowed, Alias;
    forall open, event
      ensures var w := WriteTag(open, event);
              && (w.Opens? ==> Fits(open, Open(w.tag, w.attrs)))
              && (w.Alone? ==> Fits(open, Void(w.tag, w.attrs)))
    {
      if event.Start? && Allowed(Alias(event.tag)) {
        PlaceFits(open, Alias(event.tag), event.attrs);
      }
      BreakFits(open);
    }
    forall open: seq<Tag>, data
      ensures Fits(open, Text(data)) <==> data != ""
    {
      TextFits(open, data);
    }
  }

  lemma BreakFits(open: seq<Tag>)
    ensures Fits(open, Void(Br, []))
  {
  }

  lemma TextFits(open: seq<Tag>, data: string)
    ensures Fits(open, Text(data)) <==> data != ""
  {
  }

  lemma PartsHaveTable(open: seq<Tag>)
    requires Nested(open)
    ensures Thead in open || Tbody in open || Tr in open ==> Table in open
  {
    if part :| part in open && (part.Thead? || part.Tbody? || part.Tr?) {
      var i :| 0 <= i < |open| && open[i] == part;
      assert Table in open[..i];
    }
  }

  lemma ReadNested(open: seq<Tag>, piece: HtmlPiece)
    requires Nested(open) && ReadPiece(Fits, open, piece).Some?
    ensures Nested(ReadPiece(Fits, open, piece).value)
  {
    hide AllKept;
    var next := ReadPiece(Fits, open, piece).value;
    if piece.Open? {
      assert forall i :: 0 <= i < |open| ==> next[i] == open[i] && next[..i] == open[..i];
      assert next[..|open|] == open;
      if piece.tag.Tr? {
        PartsHaveTable(open);
      }
    } else if piece.Close? {
      assert forall i :: 0 <= i < |next| ==> next[i] == open[i] && next[..i] == open[..i];
    }
  }

  lemma EmptyNested()
    ensures Nested([])
  {
  }

  lemma {:induction false} LetterNests()
    ensures StaysNested(LETTER)
  {
    hide Nested, ReadPiece;
    EmptyNested();
    forall open, piece | Nested(open) && ReadPiece(Fits, open, piece).Some?
      ensures Nested(ReadPiece(Fits, open, piece).value)
    {
      ReadNested(open, piece);
    }
  }

  lemma FittingRewritten(open: seq<Tag>, tag: Tag, attrs: seq<Attr>)
    requires Fits(open, Open(tag, attrs))
    ensures !DropsContent(tag) && WriteTag(open, Start(tag, attrs)) == Opens(tag, CleanAttrs(tag, attrs))
  {
    KeptDoNotRaise(tag, attrs);
    hide AllKept, CleanAttrs, AttrsRaise;
  }

  lemma TopCloses(open: seq<Tag>)
    requires Nested(open) && open != []
    ensures var top := open[|open| - 1]; !DropsContent(top) && Closes(top) == Some(top)
  {
    assert Allowed(open[|open| - 1]);
  }

  lemma {:induction false} LetterRewrites()
    ensures Rewrites(LETTER)
  {
    hide Nested, Closes, CleanAttrs, DropsContent, WriteTag, Fits;
    forall open, tag, attrs | Nested(open) && Fits(open, Open(tag, attrs))
      ensures !DropsContent(tag) && WriteTag(open, Start(tag, attrs)) == Opens(tag, CleanAttrs(tag, attrs))
    {
      FittingRewritten(open, tag, attrs);
    }
    forall open, tag, attrs | Nested(open) && Fits(open, Void(tag, attrs))
      ensures !DropsContent(tag) && WriteTag(open, Start(tag, attrs)) == Alone(tag, CleanAttrs(tag, attrs))
    {
      FittingBreakRewritten(open, tag, attrs);
    }
    forall open | Nested(open) && open != []
      ensures !DropsContent(open[|open| - 1]) && Closes(open[|open| - 1]) == Some(open[|open| - 1])
    {
      TopCloses(open);
    }
  }

  lemma FittingBreakRewritten(open: seq<Tag>, tag: Tag, attrs: seq<Attr>)
    requires Fits(open, Void(tag, attrs))
    ensures !DropsContent(tag) && WriteTag(open, Start(tag, attrs)) == Alone(tag, CleanAttrs(tag, attrs))
  {
    FittingBreak(open, tag, attrs);
    hide Fits, WriteTag, CleanAttrs, DropsContent;
    BreakRewritten(open);
  }

  lemma FittingBreak(open: seq<Tag>, tag: Tag, attrs: seq<Attr>)
    requires Fits(open, Void(tag, attrs))
    ensures tag == Br && attrs == []
  {
  }

  lemma BreakRewritten(open: seq<Tag>)
    ensures !DropsContent(Br) && WriteTag(open, Start(Br, [])) == Alone(Br, CleanAttrs(Br, []))
  {
  }

  // ---------- what holds of every letter ----------

  /** Whatever the input, a letter that is written is balanced, keeps to the allowlist, the depth bound and the table and
      list structure, and its attributes are such as the cleaner writes. */
  lemma SanitizeClean(events: seq<Event<Tag>>)
    ensures Sanitize(LETTER, events).Some? ==> Clean(LETTER, Sanitize(LETTER, events).value)
  {
    LetterWrites();
    SanitizedClean(LETTER, events);
  }

  /** The cell of a table row, below the depth bound and outside dropped elements, a span of which is no number although it
      passes `isdigit`. */
  predicate UnreadableCell(s: State<Tag>, event: Event<Tag>) {
    && event.Start? && s.drop == 0
    && IsCell(event.tag) && |s.stack| < MAX_DEPTH && Tr in s.stack
    && AttrsRaise(event.tag, event.attrs)
  }

  lemma FailingCell(s: State<Tag>, event: Event<Tag>)
    ensures FailsAt(LETTER, s, event) <==> UnreadableCell(s, event)
  {
    hide AttrRaises, CleanAttrs;
    if event.Start? && AttrsRaise(Placed(Alias(event.tag), s.stack), event.attrs) {
      RaisingCell(Placed(Alias(event.tag), s.stack), event.attrs);
    }
  }

  lemma RaisingCell(tag: Tag, attrs: seq<Attr>)
    requires AttrsRaise(tag, attrs)
    ensures IsCell(tag)
  {
  }

  /** No letter is written exactly when the handlers meet such a cell: then they raise. */
  lemma {:induction false} SanitizeRaises(events: seq<Event<Tag>>)
    ensures Sanitize(LETTER, events) == None
       <==> exists i :: 0 <= i < |events| && UnreadableCell(Run(LETTER, events[..i]), events[i])
  {
    hide Run, UnreadableCell, FailsAt;
    RunFails(LETTER, events);
    forall i | 0 <= i < |events|
      ensures FailsAt(LETTER, Run(LETTER, events[..i]), events[i])
         <==> UnreadableCell(Run(LETTER, events[..i]), events[i])
    {
      FailingCell(Run(LETTER, events[..i]), events[i]);
    }
  }

  lemma {:induction false} PlainTag(s: State<Tag>, tag: Tag)
    requires !s.failed && s.drop == 0 && |s.stack| < MAX_DEPTH
    requires tag == Table || (tag == Tr && Table in s.stack)
    ensures Step(LETTER, s, Start(tag, [])) == s.(out := s.out + [Open(tag, [])], stack := s.stack + [tag])
  {
    assert CleanAttrs(tag, []) == [];
    hide CleanAttrs, AttrRaises;
  }

  lemma {:induction false} OneTable()
    ensures var s := Run(LETTER, [Start(Table, [])]); s.stack == [Table] && s.drop == 0 && !s.failed
  {
    assert Run(LETTER, []) == Initial();
    hide Step, Run;
    var a: Event<Tag> := Start(Table, []);
    assert [a][..0] == [];
    PlainTag(Initial(), Table);
    LastStep(LETTER, [a]);
  }

  lemma {:induction false} OneRow()
    ensures Run(LETTER, [Start(Table, []), Start(Tr, [])]).stack == [Table, Tr]
    ensures Run(LETTER, [Start(Table, []), Start(Tr, [])]).drop == 0
  {
    hide Step, Run;
    var a: Event<Tag>, b: Event<Tag> := Start(Table, []), Start(Tr, []);
    OneTable();
    assert [a, b][..1] == [a];
    PlainTag(Run(LETTER, [a]), Tr);
    LastStep(LETTER, [a, b]);
  }

  function CellOf(value: string): seq<Event<Tag>> {
    [Start(Table, []), Start(Tr, []), Start(Td, [Attr("colspan", value)])]
  }

  /** A table with a cell whose span cannot be read: no letter is written. */
  lemma {:induction false} UnreadableSpan(value: string)
    requires Unreadable(Strip(value))
    ensures Sanitize(LETTER, CellOf(value)) == None
  {
    hide Step, Run, FailsAt, Unreadable, Strip;
    var a: Event<Tag>, b: Event<Tag>, c := Start(Table, []), Start(Tr, []), Start(Td, [Attr("colspan", value)]);
    OneRow();
    assert [a, b, c][..2] == [a, b];
    SpanRaises(value);
    hide AttrRaises;
    assert AttrRaises(Td, c.attrs[0]);
    assert UnreadableCell(Run(LETTER, [a, b]), c);
    FailingCell(Run(LETTER, [a, b]), c);
    LastStep(LETTER, [a, b, c]);
    StepFails(LETTER, Run(LETTER, [a, b]), c);
  }

  /** A superscript two, and a number of more digits than are converted. */
  lemma {:induction false} SuperscriptCell()
    ensures Sanitize(LETTER, CellOf("\U{B2}")) == None
    ensures Sanitize(LETTER, CellOf(seq(4301, _ => '0'))) == None
  {
    hide Sanitize, CellOf;
    var zeros := seq(4301, _ => '0');
    SuperscriptUnreadable();
    TooLongUnreadable(zeros);
    assert Trimmed("\U{B2}") && Trimmed(zeros);
    hide Unreadable, Strip;
    assert Strip(zeros) == zeros && Strip("\U{B2}") == "\U{B2}";
    UnreadableSpan("\U{B2}");
    UnreadableSpan(zeros);
  }

  /** A start tag of `embed` has no end tag, so it loses all the text after it up to an end tag of another dropped
      element. */
  lemma {:induction false} EmbedLosesText(events: seq<Event<Tag>>, attrs: seq<Attr>, more: seq<Event<Tag>>)
    requires forall i :: 0 <= i < |more| ==> !(more[i].End? && DropsContent(more[i].tag))
    ensures KeptText(DropsContent, events + [Start(Embed, attrs)] + more) == KeptText(DropsContent, events)
  {
    var all := events + [Start(Embed, attrs)];
    assert all[..|all| - 1] == events && all[|all| - 1] == Start(Embed, attrs);
    assert DropDepth(DropsContent, all) > 0 && KeptText(DropsContent, all) == KeptText(DropsContent, events);
    TextLost(DropsContent, all, more);
  }

  /** Every element of a letter stands where the format allows it: below the depth bound, cells in a row of a table, rows
      and row groups in a table, list items in a list. The enclosing elements are those that the reference reading finds
      open at that point. */
  lemma {:induction false} OutputNesting(events: seq<Event<Tag>>, i: nat)
    requires Sanitize(LETTER, events).Some?
    requires i < |Sanitize(LETTER, events).value| && Sanitize(LETTER, events).value[i].Open?
    ensures var word := Sanitize(LETTER, events).value;
            var tag := word[i].tag;
            OpenTags(Fits, word[..i]).Some? &&
            var enclosing := OpenTags(Fits, word[..i]).value;
            && Allowed(tag) && |enclosing| < MAX_DEPTH
            && (tag.Td? || tag.Th? ==> Tr in enclosing && Table in enclosing)
            && (tag.Tr? || tag.Thead? || tag.Tbody? ==> Table in enclosing)
            && (tag.Li? ==> Ul in enclosing || Ol in enclosing)
  {
    hide AllKept, Run;
    var word := Sanitize(LETTER, events).value;
    SanitizeClean(events);
    LetterNests();
    OpenTagsPrefix(Fits, word, i);
    OpenTagsPrefix(Fits, word, i + 1);
    assert word[..i + 1][..i] == word[..i];
    OpenNested(LETTER, word[..i]);
    PartsHaveTable(OpenTags(Fits, word[..i]).value);
  }

  /** The letter holds exactly the text outside dropped elements, once and in order. */
  lemma LetterText(events: seq<Event<Tag>>)
    ensures Sanitize(LETTER, events).Some? ==>
              TextOf(Sanitize(LETTER, events).value) == KeptText(DropsContent, events)
  {
    TextConserved(LETTER, events);
  }

  predicate IsBreak(tag: Tag) {
    tag.Br?
  }

  lemma {:induction false} LetterLines()
    ensures WritesLines(LETTER, IsBreak)
  {
    hide CleanAttrs, AttrsRaise;
  }

  /** The line breaks of a letter, among its texts, are exactly the `br` tags of the input outside dropped elements,
      self-closing or not, in order. */
  lemma {:induction false} LetterItems(events: seq<Event<Tag>>)
    ensures Sanitize(LETTER, events).Some? ==>
              ItemsOf(IsBreak, Sanitize(LETTER, events).value) == InputItems(DropsContent, IsBreak, events)
  {
    hide WritesLines, Sanitize;
    LetterLines();
    ItemsConserved(LETTER, IsBreak, events);
  }

  // ---------- letters that stay as they are ----------

  /** No alignment of the word was spelled with a dotted capital I. */
  predicate Steady(word: seq<HtmlPiece>) {
    forall i, j :: 0 <= i < |word| && word[i].Open? && 0 <= j < |word[i].attrs| ==> !Unsteady(word[i].tag, word[i].attrs[j])
  }

  lemma {:induction false} PieceSteady(open: seq<Tag>, piece: HtmlPiece)
    requires ReadPiece(Fits, open, piece).Some?
    ensures Recleaned(LETTER, piece) == piece
       <==> (piece.Open? ==> forall j :: 0 <= j < |piece.attrs| ==> !Unsteady(piece.tag, piece.attrs[j]))
  {
    hide AllKept, Unsteady, CleanAttrs;
    if piece.Open? {
      CleanAttrsAgain(piece.tag, piece.attrs);
    } else if piece.Void? {
      NothingCleaned();
    }
  }

  lemma NothingCleaned()
    ensures CleanAttrs(Br, []) == []
  {
  }

  lemma {:induction false} SteadyStable(word: seq<HtmlPiece>)
    requires OpenTags(Fits, word).Some?
    ensures Stable(LETTER, word) <==> Steady(word)
  {
    hide Unsteady, ReadPiece, Recleaned;
    forall i | 0 <= i < |word|
      ensures Recleaned(LETTER, word[i]) == word[i]
         <==> (word[i].Open? ==> forall j :: 0 <= j < |word[i].attrs| ==> !Unsteady(word[i].tag, word[i].attrs[j]))
    {
      OpenTagsPrefix(Fits, word, i + 1);
      assert word[..i + 1][..i] == word[..i];
      PieceSteady(OpenTags(Fits, word[..i]).value, word[i]);
    }
  }

  /** A tag that is placed, outside dropped elements, with an alignment spelled with a dotted capital I. */
  predicate DottedTag(s: State<Tag>, event: Event<Tag>) {
    && event.Start? && s.drop == 0
    && Allowed(Alias(event.tag)) && !Alias(event.tag).Br?
    && |s.stack| < MAX_DEPTH && HasContext(Alias(event.tag), s.stack)
    && exists i :: 0 <= i < |event.attrs| && DottedAttr(Placed(Alias(event.tag), s.stack), event.attrs[i])
  }

  lemma {:induction false} UnstableTag(s: State<Tag>, event: Event<Tag>)
    requires !FailsAt(LETTER, s, event)
    ensures UnstableAt(LETTER, s, event) <==> DottedTag(s, event)
  {
    hide CleanAttrs, AttrsRaise, DottedAttr, HasContext, Placed;
    NothingCleaned();
    if event.Start? {
      if Allowed(Alias(event.tag)) {
        AllowedKept(event.tag);
      }
      CleanAttrsDotted(Placed(Alias(event.tag), s.stack), event.attrs);
    }
    hide DropsContent, Alias, Allowed;
  }

  lemma AllowedKept(tag: Tag)
    requires Allowed(Alias(tag))
    ensures !DropsContent(tag)
  {
  }

  /** A letter is stable exactly when no tag of the input that is placed spells its alignment with a dotted capital I. */
  lemma {:induction false} LetterStable(events: seq<Event<Tag>>)
    requires Sanitize(LETTER, events).Some?
    ensures Stable(LETTER, Sanitize(LETTER, events).value)
       <==> forall i :: 0 <= i < |events| ==> !DottedTag(Run(LETTER, events[..i]), events[i])
  {
    hide Run, DottedTag, UnstableAt, FailsAt, Stable, Closing;
    StableExactly(LETTER, events);
    RunFails(LETTER, events);
    forall i | 0 <= i < |events|
      ensures UnstableAt(LETTER, Run(LETTER, events[..i]), events[i]) <==> DottedTag(Run(LETTER, events[..i]), events[i])
    {
      UnstableTag(Run(LETTER, events[..i]), events[i]);
    }
  }

  /** The words that the sanitizer leaves alone are exactly the clean and steady ones. */
  lemma {:induction false} LetterFixedPoints(word: seq<HtmlPiece>)
    ensures Sanitize(LETTER, Events(word)) == Some(word) <==> Clean(LETTER, word) && Steady(word)
  {
    hide WritesFit, StaysNested, Rewrites, Steady, Stable, Sanitize;
    LetterWrites();
    LetterNests();
    LetterRewrites();
    FixedPoints(LETTER, word);
    if Clean(LETTER, word) {
      SteadyStable(word);
    }
  }

  // ---------- the parser object ----------

  lemma EndTagStep(s: State<Tag>, tag: Tag)
    requires !s.failed
    ensures var name := Alias(tag);
            Step(LETTER, s, End(tag)) ==
            if DropsContent(tag) then s.(drop := if s.drop > 0 then s.drop - 1 else 0)
            else if s.drop > 0 || !Allowed(name) || name.Br? || name !in s.stack then s
            else CloseStep(s, name)
  {
    hide DropsContent, Allowed, Alias, CloseStep;
  }

  /** The parser: each handler changes the object as `Step` changes the value, or raises where `Step` fails. */
  class Sanitizer {
    var out: seq<HtmlPiece>
    var stack: seq<Tag>
    var dropDepth: nat

    ghost function Value(): State<Tag>
      reads this
    {
      State(out, stack, dropDepth, false)
    }

    constructor ()
      ensures Value() == Initial()
    {
      out, stack, dropDepth := [], [], 0;
    }

    method HandleStartTag(tag: Tag, attrs: seq<Attr>) returns (raised: bool)
      modifies this
      ensures raised <==> FailsAt(LETTER, old(Value()), Start(tag, attrs))
      ensures !raised ==> Value() == Step(LETTER, old(Value()), Start(tag, attrs))
    {
      hide Place, DropsContent, Allowed, Alias;
      raised := false;
      if DropsContent(tag) {
        dropDepth := dropDepth + 1;
        return;
      }
      if dropDepth > 0 {
        return;
      }
      var name := Alias(tag);
      if Allowed(name) {
        raised := PlaceTag(name, attrs);
      }
    }

    /** An allowed tag outside dropped elements. */
    method PlaceTag(tag: Tag, attrs: seq<Attr>) returns (raised: bool)
      modifies this
      ensures raised <==> Place(old(stack), tag, attrs).Fails?
      ensures !raised ==> Value() == Written(old(Value()), Place(old(stack), tag, attrs))
    {
      hide CleanAttrs, AttrsRaise;
      raised := false;
      if tag.Br? {
        out := out + [Void(Br, [])];
        return;
      }
      if |stack| >= MAX_DEPTH {
        return;
      }
      if tag.Tr? && Table !in stack && Thead !in stack && Tbody !in stack {
        return;
      }
      if (tag.Td? || tag.Th?) && Tr !in stack {
        return;
      }
      if (tag.Thead? || tag.Tbody?) && Table !in stack {
        return;
      }
      var name := tag;
      if tag.Li? && Ul !in stack && Ol !in stack {
        name := P;
      }
      stack := stack + [name];
      var clean := CleanAttributes(name, attrs);
      if clean.Err? {
        return true;
      }
      out := out + [Open(name, clean.value)];
    }

    method HandleStartEndTag(tag: Tag, attrs: seq<Attr>)
      modifies this
      ensures Value() == Step(LETTER, old(Value()), StartEnd(tag, attrs))
    {
      hide DropsContent, Alias;
      if dropDepth > 0 || DropsContent(tag) {
        return;
      }
      if Alias(tag).Br? {
        out := out + [Void(Br, [])];
      }
    }

    method HandleEndTag(tag: Tag)
      modifies this
      ensures Value() == Step(LETTER, old(Value()), End(tag))
    {
      hide DropsContent, Allowed, Alias, CloseStep, Step, Closes;
      EndTagStep(Value(), tag);
      if DropsContent(tag) {
        if dropDepth > 0 {
          dropDepth := dropDepth - 1;
        }
        return;
      }
      if dropDepth > 0 {
        return;
      }
      var name := Alias(tag);
      if !Allowed(name) || name.Br? || name !in stack {
        return;
      }
      CloseThrough(name);
    }

    /** Closes elements from the innermost outwards until one with this tag has been closed. */
    method CloseThrough(tag: Tag)
      requires tag in stack
      modifies this
      ensures Value() == CloseStep(old(Value()), tag)
    {
      hide Closing, Innermost;
      ghost var i := Innermost(stack, tag);
      ghost var closed := out + Closing(stack[i..]);
      while stack != []
        invariant i < |stack| <= |old(stack)| && stack == old(stack)[..|stack|]
        invariant out + Closing(stack[i..]) == closed
        invariant dropDepth == old(dropDepth)
        decreases |stack|
      {
        var top := stack[|stack| - 1];
        CloseTop(out, stack, i);
        stack := stack[..|stack| - 1];
        out := out + [Close(top)];
        if top == tag {
          NothingToClose(out, stack, i);
          break;
        }
      }
    }

    method HandleData(data: string)
      modifies this
      ensures Value() == Step(LETTER, old(Value()), Data(data))
    {
      if dropDepth == 0 && data != "" {
        out := out + [Text(data)];
      }
    }

    method Result() returns (word: seq<HtmlPiece>)
      modifies this
      ensures word == out == old(out) + Closing(old(stack)) && stack == []
    {
      while stack != []
        invariant out + Closing(stack) == old(out) + Closing(old(stack))
        decreases |stack|
      {
        out := out + [Close(stack[|stack| - 1])];
        stack := stack[..|stack| - 1];
      }
      assert out + Closing(stack) == out;
      word := out;
    }

    /** Feeding a tokenized document and taking the result; an error of a handler ends it. */
    static method Feed(events: seq<Event<Tag>>) returns (word: Option<seq<HtmlPiece>>)
      ensures word == Sanitize(LETTER, events)
    {
      hide Step, FailsAt;
      var parser := new Sanitizer();
      for i := 0 to |events|
        invariant fresh(parser)
        invariant parser.Value() == Run(LETTER, events[..i])
      {
        assert events[..i + 1][..i] == events[..i];
        LastStep(LETTER, events[..i + 1]);
        StepFails(LETTER, parser.Value(), events[i]);
        match events[i] {
          case Start(tag, attrs) =>
            var raised := parser.HandleStartTag(tag, attrs);
            if raised {
              StaysFailed(LETTER, events, i + 1);
              return None;
            }
          case StartEnd(tag, attrs) => parser.HandleStartEndTag(tag, attrs);
          case End(tag) => parser.HandleEndTag(tag);
          case Data(text) => parser.HandleData(text);
          case Ignored => IgnoredStep(LETTER, parser.Value());
        }
      }
      assert events[..|events|] == events;
      var all := parser.Result();
      word := Some(all);
    }
  }
}
