/** A stack transducer from parser events to words of tags and text. */
module Transducer {
  // Both HTML cleaners of the portal are one. The parser delivers tags, text and comments as events; the handlers keep
  // a stack of open elements and a count of enclosing dropped elements, and append to the output. What a tag writes
  // where is the cleaner's own; it is given as a `Language`. A handler may raise an error, which ends the whole run.

  import opened Common
  import opened TagWord

  /** An attribute as the parser delivers it; a missing value is the empty string. */
  datatype Attr = Attr(name: string, value: string)

  datatype Event<T> =
    | Start(tag: T, attrs: seq<Attr>)
    | StartEnd(tag: T, attrs: seq<Attr>)
    | End(tag: T)
    | Data(text: string)
    | Ignored // a comment, a declaration or a processing instruction

  /** What a start tag or a self-closing tag writes. */
  datatype Outcome<T> = Nothing | Opens(tag: T, attrs: seq<Attr>) | Alone(tag: T, attrs: seq<Attr>) | Fails

  datatype State<T> = State(out: seq<Piece<T, seq<Attr>>>, stack: seq<T>, drop: nat, failed: bool)

  /** `write` and `closes` are the handlers outside dropped elements. The rest describes what they write: the pieces that
      `fits` allows, the stacks that `nested` holds of, and what `clean` makes of the attributes of a written piece. */
  datatype Language<!T(==)> = Language(
    drops: T -> bool,
    write: (seq<T>, Event<T>) -> Outcome<T>,
    closes: T -> Option<T>,
    fits: (seq<T>, Piece<T, seq<Attr>>) -> bool,
    nested: seq<T> -> bool,
    clean: (T, seq<Attr>) -> seq<Attr>)

  function Initial<T>(): State<T> {
    State([], [], 0, false)
  }

  // ---------- the handlers ----------

  function Written<T>(s: State<T>, outcome: Outcome<T>): State<T> {
    match outcome
    case Nothing => s
    case Opens(tag, attrs) => s.(out := s.out + [Open(tag, attrs)], stack := s.stack + [tag])
    case Alone(tag, attrs) => s.(out := s.out + [Void(tag, attrs)])
    case Fails => s.(failed := true)
  }

  /** The position of the innermost element with this tag. */
  function Innermost<T(==)>(stack: seq<T>, tag: T): (i: nat)
    requires tag in stack
    ensures i < |stack| && stack[i] == tag && forall j :: i < j < |stack| ==> stack[j] != tag
  {
    if stack[|stack| - 1] == tag then |stack| - 1 else Innermost(stack[..|stack| - 1], tag)
  }

  /** Closes the innermost element with this tag and everything inside it. */
  function CloseStep<T(==)>(s: State<T>, tag: T): State<T>
    requires tag in s.stack
  {
    var i := Innermost(s.stack, tag);
    s.(out := s.out + Closing(s.stack[i..]), stack := s.stack[..i])
  }

  predicate IsInnermost<T(==)>(stack: seq<T>, tag: T, i: int) {
    0 <= i < |stack| && stack[i] == tag && tag !in stack[i + 1..]
  }

  lemma CloseExactly<T>(s: State<T>, tag: T)
    requires tag in s.stack
    ensures exists i :: IsInnermost(s.stack, tag, i)
                        && CloseStep(s, tag) == s.(out := s.out + Closing(s.stack[i..]), stack := s.stack[..i])
  {
    assert IsInnermost(s.stack, tag, Innermost(s.stack, tag));
  }

  function EndStep<T(==)>(l: Language<T>, s: State<T>, tag: T): State<T> {
    if l.drops(tag) then s.(drop := if s.drop > 0 then s.drop - 1 else 0)
    else if s.drop > 0 then s
    else
      match l.closes(tag)
      case None => s
      case Some(name) => if name in s.stack then CloseStep(s, name) else s
  }

  function Step<T(==)>(l: Language<T>, s: State<T>, event: Event<T>): State<T> {
    if s.failed then s
    else
      match event
      case Start(tag, _) =>
        if l.drops(tag) then s.(drop := s.drop + 1) else if s.drop > 0 then s else Written(s, l.write(s.stack, event))
      case StartEnd(tag, _) =>
        if l.drops(tag) || s.drop > 0 then s else Written(s, l.write(s.stack, event))
      case End(tag) => EndStep(l, s, tag)
      case Data(text) => if s.drop == 0 && text != "" then s.(out := s.out + [Text(text)]) else s
      case Ignored => s
  }

  function Run<T(==)>(l: Language<T>, events: seq<Event<T>>): State<T> {
    if events == [] then Initial() else Step(l, Run(l, events[..|events| - 1]), events[|events| - 1])
  }

  /** The word written for a whole event sequence, all open elements closed; none when a handler has raised. */
  function Sanitize<T(==)>(l: Language<T>, events: seq<Event<T>>): Option<seq<Piece<T, seq<Attr>>>> {
    var s := Run(l, events);
    if s.failed then None else Some(s.out + Closing(s.stack))
  }

  /** A clean word: balanced, and every piece fits where it stands. */
  predicate Clean<T(==)>(l: Language<T>, word: seq<Piece<T, seq<Attr>>>) {
    OpenTags(l.fits, word) == Some([])
  }

  // ---------- the laws of a language ----------

  /** What is written fits. */
  ghost predicate WritesFit<T(!new)>(l: Language<T>) {
    && (forall open, event :: l.write(open, event).Opens? ==>
          l.fits(open, Open(l.write(open, event).tag, l.write(open, event).attrs)))
    && (forall open, event :: l.write(open, event).Alone? ==>
          l.fits(open, Void(l.write(open, event).tag, l.write(open, event).attrs)))
    && (forall open, data :: l.fits(open, Text(data)) <==> data != "")
  }

  ghost predicate StaysNested<T(!new)>(l: Language<T>) {
    && l.nested([])
    && forall open, piece :: l.nested(open) && ReadPiece(l.fits, open, piece).Some? ==>
         l.nested(ReadPiece(l.fits, open, piece).value)
  }

  /** What fits is written again, its attributes cleaned once more. */
  ghost predicate Rewrites<T(!new)>(l: Language<T>) {
    && (forall open, tag, attrs :: l.nested(open) && l.fits(open, Open(tag, attrs)) ==>
          !l.drops(tag) && l.write(open, Start(tag, attrs)) == Opens(tag, l.clean(tag, attrs)))
    && (forall open, tag, attrs :: l.nested(open) && l.fits(open, Void(tag, attrs)) ==>
          !l.drops(tag) && l.write(open, Start(tag, attrs)) == Alone(tag, l.clean(tag, attrs)))
    && (forall open :: l.nested(open) && open != [] ==>
          !l.drops(open[|open| - 1]) && l.closes(open[|open| - 1]) == Some(open[|open| - 1]))
  }

  // ---------- every output is a clean word ----------

  ghost predicate Good<T(!new)>(l: Language<T>, s: State<T>) {
    OpenTags(l.fits, s.out) == Some(s.stack)
  }

  lemma {:induction false} WrittenGood<T(!new)>(l: Language<T>, s: State<T>, event: Event<T>)
    requires WritesFit(l) && Good(l, s)
    ensures Good(l, Written(s, l.write(s.stack, event)))
  {
    hide OpenTags;
    match l.write(s.stack, event)
    case Opens(tag, attrs) => OpenTagsSnoc(l.fits, s.out, Open(tag, attrs));
    case Alone(tag, attrs) => OpenTagsSnoc(l.fits, s.out, Void(tag, attrs));
    case _ =>
  }

  lemma {:induction false} CloseGood<T(!new)>(l: Language<T>, s: State<T>, tag: T)
    requires Good(l, s) && tag in s.stack
    ensures Good(l, CloseStep(s, tag))
  {
    hide OpenTags, Closing;
    var i := Innermost(s.stack, tag);
    assert s.stack == s.stack[..i] + s.stack[i..];
    CloseInner(l.fits, s.out, s.stack[..i], s.stack[i..]);
  }

  /** Every handler keeps the agreement of the output, as the reference reads it, and the stack. */
  lemma {:induction false} StepGood<T(!new)>(l: Language<T>, s: State<T>, event: Event<T>)
    requires WritesFit(l) && Good(l, s)
    ensures Good(l, Step(l, s, event))
  {
    hide OpenTags, CloseStep, Written, WritesFit;
    match event
    case Start(_, _) => WrittenGood(l, s, event);
    case StartEnd(_, _) => WrittenGood(l, s, event);
    case End(tag) =>
      if l.closes(tag).Some? && l.closes(tag).value in s.stack {
        CloseGood(l, s, l.closes(tag).value);
      }
    case Data(text) =>
      if text != "" {
        TextGood(l, s, text);
      }
    case Ignored =>
  }

  lemma {:induction false} TextGood<T(!new)>(l: Language<T>, s: State<T>, text: string)
    requires WritesFit(l) && Good(l, s) && text != ""
    ensures Good(l, s.(out := s.out + [Text(text)]))
  {
    OpenTagsSnoc(l.fits, s.out, Text(text));
  }

  lemma {:induction false} RunGood<T(!new)>(l: Language<T>, events: seq<Event<T>>)
    requires WritesFit(l)
    ensures Good(l, Run(l, events))
  {
    hide WritesFit, Step;
    if events != [] {
      RunGood(l, events[..|events| - 1]);
      StepGood(l, Run(l, events[..|events| - 1]), events[|events| - 1]);
    }
  }

  /** Whatever the input, a word that is written is clean. */
  lemma {:induction false} SanitizedClean<T(!new)>(l: Language<T>, events: seq<Event<T>>)
    requires WritesFit(l)
    ensures Sanitize(l, events).Some? ==> Clean(l, Sanitize(l, events).value)
  {
    hide OpenTags, Run, WritesFit;
    RunGood(l, events);
    var s := Run(l, events);
    assert [] + s.stack == s.stack;
    CloseInner(l.fits, s.out, [], s.stack);
  }

  lemma {:induction false} OpenNested<T(!new)>(l: Language<T>, word: seq<Piece<T, seq<Attr>>>)
    requires StaysNested(l) && OpenTags(l.fits, word).Some?
    ensures l.nested(OpenTags(l.fits, word).value)
  {
    if word != [] {
      OpenNested(l, word[..|word| - 1]);
    }
  }

  // ---------- when a handler raises ----------

  /** The event is a tag outside dropped elements whose handler raises. */
  predicate FailsAt<T(==)>(l: Language<T>, s: State<T>, event: Event<T>) {
    && (event.Start? || event.StartEnd?)
    && !l.drops(event.tag) && s.drop == 0 && l.write(s.stack, event) == Fails
  }

  lemma {:induction false} LastStep<T(!new)>(l: Language<T>, events: seq<Event<T>>)
    requires events != []
    ensures Run(l, events) == Step(l, Run(l, events[..|events| - 1]), events[|events| - 1])
  {
  }

  lemma {:induction false} StaysFailed<T(!new)>(l: Language<T>, events: seq<Event<T>>, i: nat)
    requires i <= |events| && Run(l, events[..i]).failed
    ensures Run(l, events).failed
    decreases |events|
  {
    if i == |events| {
      assert events[..i] == events;
    } else {
      var front := events[..|events| - 1];
      assert front[..i] == events[..i];
      StaysFailed(l, front, i);
      LastStep(l, events);
    }
  }

  lemma {:induction false} FirstFailure<T(!new)>(l: Language<T>, events: seq<Event<T>>) returns (i: nat)
    requires Run(l, events).failed
    ensures i < |events| && FailsAt(l, Run(l, events[..i]), events[i])
  {
    assert events != [];
    var front := events[..|events| - 1];
    LastStep(l, events);
    StepFails(l, Run(l, front), events[|events| - 1]);
    if Run(l, front).failed {
      i := FirstFailure(l, front);
      assert front[..i] == events[..i];
    } else {
      i := |events| - 1;
    }
  }

  /** A run fails exactly when some event does at which it arrives. */
  lemma {:induction false} RunFails<T(!new)>(l: Language<T>, events: seq<Event<T>>)
    ensures Run(l, events).failed <==> exists i :: 0 <= i < |events| && FailsAt(l, Run(l, events[..i]), events[i])
  {
    hide Run, FailsAt;
    if Run(l, events).failed {
      var i := FirstFailure(l, events);
    }
    if i :| 0 <= i < |events| && FailsAt(l, Run(l, events[..i]), events[i]) {
      assert events[..i + 1][..i] == events[..i];
      LastStep(l, events[..i + 1]);
      StepFails(l, Run(l, events[..i]), events[i]);
      StaysFailed(l, events, i + 1);
    }
  }

  lemma IgnoredStep<T(!new)>(l: Language<T>, s: State<T>)
    ensures Step(l, s, Ignored) == s
  {
  }

  lemma {:induction false} StepFails<T(!new)>(l: Language<T>, s: State<T>, event: Event<T>)
    ensures Step(l, s, event).failed <==> s.failed || FailsAt(l, s, event)
  {
  }

  // ---------- no text is lost, repeated or moved ----------

  /** How many dropped elements enclose the point after these events, counted from the events alone. */
  function DropDepth<T>(drops: T -> bool, events: seq<Event<T>>): nat {
    if events == [] then 0
    else
      var d := DropDepth(drops, events[..|events| - 1]);
      match events[|events| - 1]
      case Start(tag, _) => if drops(tag) then d + 1 else d
      case End(tag) => if drops(tag) && d > 0 then d - 1 else d
      case _ => d
  }

  /** The text that stands outside all dropped elements, in order. */
  function KeptText<T>(drops: T -> bool, events: seq<Event<T>>): string {
    if events == [] then ""
    else
      var front := events[..|events| - 1];
      KeptText(drops, front) +
      (if events[|events| - 1].Data? && DropDepth(drops, front) == 0 then events[|events| - 1].text else "")
  }

  lemma {:induction false} WrittenText<T>(s: State<T>, outcome: Outcome<T>)
    ensures TextOf(Written(s, outcome).out) == TextOf(s.out)
  {
    hide TextOf;
    match outcome
    case Opens(tag, attrs) => TextOfSnoc(s.out, Open(tag, attrs));
    case Alone(tag, attrs) => TextOfSnoc(s.out, Void(tag, attrs));
    case _ =>
  }

  lemma {:induction false} CloseText<T>(s: State<T>, tag: T)
    requires tag in s.stack
    ensures TextOf(CloseStep(s, tag).out) == TextOf(s.out)
  {
    hide TextOf, Closing;
    var closed := s.stack[Innermost(s.stack, tag)..];
    ClosingHasNoText<T, seq<Attr>>(closed);
    TextOfConcat<T, seq<Attr>>(s.out, Closing(closed));
  }

  lemma {:induction false} StepText<T(!new)>(l: Language<T>, s: State<T>, event: Event<T>)
    requires !s.failed
    ensures TextOf(Step(l, s, event).out) == TextOf(s.out) + if event.Data? && s.drop == 0 then event.text else ""
  {
    hide TextOf, Written, CloseStep;
    match event
    case Start(_, _) => WrittenText(s, l.write(s.stack, event));
    case StartEnd(_, _) => WrittenText(s, l.write(s.stack, event));
    case End(tag) =>
      if l.closes(tag).Some? && l.closes(tag).value in s.stack {
        CloseText(s, l.closes(tag).value);
      }
    case Data(text) =>
      TextOfSnoc(s.out, Text(text));
    case Ignored =>
  }

  lemma {:induction false} StepDrop<T(!new)>(l: Language<T>, s: State<T>, event: Event<T>)
    requires !s.failed
    ensures Step(l, s, event).drop ==
            match event
            case Start(tag, _) => if l.drops(tag) then s.drop + 1 else s.drop
            case End(tag) => if l.drops(tag) && s.drop > 0 then s.drop - 1 else s.drop
            case _ => s.drop
  {
  }

  /** As long as no handler raises, drop count and written text are those that the events alone determine. */
  lemma {:induction false} RunText<T(!new)>(l: Language<T>, events: seq<Event<T>>)
    requires !Run(l, events).failed
    ensures Run(l, events).drop == DropDepth(l.drops, events)
    ensures TextOf(Run(l, events).out) == KeptText(l.drops, events)
  {
    if events != [] {
      var front, last := events[..|events| - 1], events[|events| - 1];
      StepFails(l, Run(l, front), last);
      assert Run(l, events) == Step(l, Run(l, front), last);
      hide TextOf, Step, Run;
      RunText(l, front);
      StepText(l, Run(l, front), last);
      StepDrop(l, Run(l, front), last);
    }
  }

  /** The output holds exactly the text outside dropped elements, once and in order. */
  lemma {:induction false} TextConserved<T(!new)>(l: Language<T>, events: seq<Event<T>>)
    ensures Sanitize(l, events).Some? ==> TextOf(Sanitize(l, events).value) == KeptText(l.drops, events)
  {
    hide TextOf, Run, Closing;
    var s := Run(l, events);
    if !s.failed {
      RunText(l, events);
      TextOfConcat(s.out, Closing(s.stack));
      ClosingHasNoText<T, seq<Attr>>(s.stack);
    }
  }

  /** Inside a dropped element no text is kept before an end tag of some dropped element. So a start tag of a dropped
      element that has no end tag loses all the text that follows. */
  lemma {:induction false} TextLost<T(!new)>(drops: T -> bool, events: seq<Event<T>>, more: seq<Event<T>>)
    requires DropDepth(drops, events) > 0
    requires forall i :: 0 <= i < |more| ==> !(more[i].End? && drops(more[i].tag))
    ensures DropDepth(drops, events + more) > 0 && KeptText(drops, events + more) == KeptText(drops, events)
    decreases |more|
  {
    if more == [] {
      assert events + more == events;
    } else {
      var m := |more| - 1;
      TextLost(drops, events, more[..m]);
      assert (events + more)[..|events + more| - 1] == events + more[..m];
      assert (events + more)[|events + more| - 1] == more[m];
    }
  }

  // ---------- lines ----------

  /** What a reader sees of a word from left to right: its texts and its line breaks. */
  datatype Item<T> = Words(text: string) | Line(tag: T)

  /** The items of a word. `lines` are the void tags that break a line. */
  function ItemsOf<T>(lines: T -> bool, word: seq<Piece<T, seq<Attr>>>): seq<Item<T>> {
    if word == [] then []
    else
      ItemsOf(lines, word[..|word| - 1]) +
      (match word[|word| - 1]
       case Text(data) => [Words(data)]
       case Void(tag, _) => if lines(tag) then [Line(tag)] else []
       case _ => [])
  }

  /** The items of the input outside dropped elements, read off the events alone: texts, and tags that break a line,
      self-closing or not. */
  function InputItems<T>(drops: T -> bool, lines: T -> bool, events: seq<Event<T>>): seq<Item<T>> {
    if events == [] then []
    else
      var front := events[..|events| - 1];
      InputItems(drops, lines, front) +
      (if DropDepth(drops, front) > 0 then []
       else
         match events[|events| - 1]
         case Data(text) => if text != "" then [Words(text)] else []
         case Start(tag, _) => if lines(tag) then [Line(tag)] else []
         case StartEnd(tag, _) => if lines(tag) then [Line(tag)] else []
         case _ => [])
  }

  /** A tag that breaks a line is not dropped and writes itself, unless its handler raises; no other tag writes one. */
  ghost predicate WritesLines<T(!new)>(l: Language<T>, lines: T -> bool) {
    && (forall tag :: lines(tag) ==> !l.drops(tag))
    && (forall open: seq<T>, event: Event<T> :: event.Start? || event.StartEnd? ==>
          var w := l.write(open, event);
          if lines(event.tag) then w.Fails? || (w.Alone? && w.tag == event.tag) else w.Alone? ==> !lines(w.tag))
  }

  lemma {:induction false} ItemsConcat<T>(lines: T -> bool, a: seq<Piece<T, seq<Attr>>>, b: seq<Piece<T, seq<Attr>>>)
    ensures ItemsOf(lines, a + b) == ItemsOf(lines, a) + ItemsOf(lines, b)
  {
    if b == [] {
      assert a + b == a;
    } else {
      ItemsConcat(lines, a, b[..|b| - 1]);
      assert (a + b)[..|a + b| - 1] == a + b[..|b| - 1];
    }
  }

  lemma {:induction false} ClosingItems<T>(lines: T -> bool, stack: seq<T>)
    ensures ItemsOf(lines, Closing<T, seq<Attr>>(stack)) == []
  {
    if stack != [] {
      var rest := stack[..|stack| - 1];
      ClosingItems(lines, rest);
      OneItem<T>(lines, Close(stack[|stack| - 1]));
      ItemsConcat<T>(lines, [Close(stack[|stack| - 1])], Closing(rest));
    }
  }

  lemma {:induction false} OneItem<T>(lines: T -> bool, piece: Piece<T, seq<Attr>>)
    ensures ItemsOf(lines, [piece])
         == (match piece
             case Text(data) => [Words(data)]
             case Void(tag, _) => if lines(tag) then [Line(tag)] else []
             case _ => [])
  {
    assert [piece][..0] == [];
  }

  lemma {:induction false} WrittenItems<T>(lines: T -> bool, s: State<T>, outcome: Outcome<T>)
    ensures ItemsOf(lines, Written(s, outcome).out)
         == ItemsOf(lines, s.out) + if outcome.Alone? && lines(outcome.tag) then [Line(outcome.tag)] else []
  {
    hide ItemsOf;
    match outcome
    case Opens(tag, attrs) =>
      OneItem(lines, Open(tag, attrs));
      ItemsConcat(lines, s.out, [Open(tag, attrs)]);
    case Alone(tag, attrs) =>
      OneItem(lines, Void(tag, attrs));
      ItemsConcat(lines, s.out, [Void(tag, attrs)]);
    case _ =>
  }

  lemma {:induction false} StepItems<T(!new)>(l: Language<T>, lines: T -> bool, s: State<T>, event: Event<T>)
    requires WritesLines(l, lines) && !s.failed && !Step(l, s, event).failed
    ensures ItemsOf(lines, Step(l, s, event).out)
         == ItemsOf(lines, s.out) +
            (if s.drop > 0 then []
             else
               match event
               case Data(text) => if text != "" then [Words(text)] else []
               case Start(tag, _) => if lines(tag) then [Line(tag)] else []
               case StartEnd(tag, _) => if lines(tag) then [Line(tag)] else []
               case _ => [])
  {
    hide ItemsOf, CloseStep;
    match event
    case Start(_, _) => WrittenItems(lines, s, l.write(s.stack, event));
    case StartEnd(_, _) => WrittenItems(lines, s, l.write(s.stack, event));
    case End(tag) =>
      if l.closes(tag).Some? && l.closes(tag).value in s.stack {
        CloseItems(lines, s, l.closes(tag).value);
      }
    case Data(text) =>
      OneItem<T>(lines, Text(text));
      ItemsConcat(lines, s.out, [Text(text)]);
    case Ignored =>
  }

  lemma {:induction false} CloseItems<T>(lines: T -> bool, s: State<T>, tag: T)
    requires tag in s.stack
    ensures ItemsOf(lines, CloseStep(s, tag).out) == ItemsOf(lines, s.out)
  {
    hide ItemsOf, Closing;
    var closed := s.stack[Innermost(s.stack, tag)..];
    ClosingItems(lines, closed);
    ItemsConcat(lines, s.out, Closing(closed));
  }

  lemma {:induction false} RunItems<T(!new)>(l: Language<T>, lines: T -> bool, events: seq<Event<T>>)
    requires WritesLines(l, lines) && !Run(l, events).failed
    ensures ItemsOf(lines, Run(l, events).out) == InputItems(l.drops, lines, events)
  {
    if events != [] {
      var front, last := events[..|events| - 1], events[|events| - 1];
      LastStep(l, events);
      StepFails(l, Run(l, front), last);
      hide ItemsOf, Step, Run, WritesLines;
      RunItems(l, lines, front);
      RunText(l, front);
      StepItems(l, lines, Run(l, front), last);
    }
  }

  /** Texts and line breaks of the output are exactly those of the input outside dropped elements, in order. */
  lemma {:induction false} ItemsConserved<T(!new)>(l: Language<T>, lines: T -> bool, events: seq<Event<T>>)
    requires WritesLines(l, lines)
    ensures Sanitize(l, events).Some? ==>
              ItemsOf(lines, Sanitize(l, events).value) == InputItems(l.drops, lines, events)
  {
    hide ItemsOf, Run, Closing, WritesLines;
    var s := Run(l, events);
    if !s.failed {
      RunItems(l, lines, events);
      ItemsConcat(lines, s.out, Closing(s.stack));
      ClosingItems(lines, s.stack);
    }
  }

  // ---------- a clean word fed back ----------

  /** The event that the parser delivers for a written piece. */
  function ToEvent<T>(piece: Piece<T, seq<Attr>>): Event<T> {
    match piece
    case Open(tag, attrs) => Start(tag, attrs)
    case Close(tag) => End(tag)
    case Void(tag, attrs) => Start(tag, attrs)
    case Text(data) => Data(data)
  }

  function Events<T>(word: seq<Piece<T, seq<Attr>>>): (events: seq<Event<T>>)
    ensures |events| == |word| && forall i :: 0 <= i < |word| ==> events[i] == ToEvent(word[i])
  {
    seq(|word|, i requires 0 <= i < |word| => ToEvent(word[i]))
  }

  /** The piece with its attributes cleaned once more. */
  function Recleaned<T(==)>(l: Language<T>, piece: Piece<T, seq<Attr>>): Piece<T, seq<Attr>> {
    match piece
    case Open(tag, attrs) => Open(tag, l.clean(tag, attrs))
    case Void(tag, attrs) => Void(tag, l.clean(tag, attrs))
    case _ => piece
  }

  function AllRecleaned<T(==)>(l: Language<T>, word: seq<Piece<T, seq<Attr>>>): (r: seq<Piece<T, seq<Attr>>>)
    ensures |r| == |word| && forall i :: 0 <= i < |word| ==> r[i] == Recleaned(l, word[i])
  {
    seq(|word|, i requires 0 <= i < |word| => Recleaned(l, word[i]))
  }

  /** Cleaning once more changes nothing. */
  predicate Stable<T(==)>(l: Language<T>, word: seq<Piece<T, seq<Attr>>>) {
    forall i :: 0 <= i < |word| ==> Recleaned(l, word[i]) == word[i]
  }

  lemma {:induction false} ReplayClose<T(!new)>(l: Language<T>, s: State<T>)
    requires Rewrites(l) && l.nested(s.stack) && s.stack != [] && s.drop == 0 && !s.failed
    ensures var top := s.stack[|s.stack| - 1];
            Step(l, s, End(top)) == s.(out := s.out + [Close(top)], stack := s.stack[..|s.stack| - 1])
  {
    var last := |s.stack| - 1;
    var top := s.stack[last];
    assert Innermost(s.stack, top) == last;
    assert s.stack[last..] == [top];
    assert Closing<T, seq<Attr>>([top]) == [Close(top)];
  }

  lemma {:induction false} ReplayPiece<T(!new)>(l: Language<T>, s: State<T>, piece: Piece<T, seq<Attr>>)
    requires WritesFit(l) && Rewrites(l) && l.nested(s.stack) && s.drop == 0 && !s.failed
    requires ReadPiece(l.fits, s.stack, piece).Some?
    ensures Step(l, s, ToEvent(piece))
         == State(s.out + [Recleaned(l, piece)], ReadPiece(l.fits, s.stack, piece).value, 0, false)
  {
    match piece
    case Open(tag, attrs) => assert l.write(s.stack, Start(tag, attrs)) == Opens(tag, l.clean(tag, attrs));
    case Void(tag, attrs) => assert l.write(s.stack, Start(tag, attrs)) == Alone(tag, l.clean(tag, attrs));
    case Close(tag) => ReplayClose(l, s);
    case Text(data) => assert l.fits(s.stack, Text(data)) ==> data != "";
  }

  lemma {:induction false} ReplayWord<T(!new)>(l: Language<T>, word: seq<Piece<T, seq<Attr>>>)
    requires WritesFit(l) && StaysNested(l) && Rewrites(l) && OpenTags(l.fits, word).Some?
    ensures Run(l, Events(word)) == State(AllRecleaned(l, word), OpenTags(l.fits, word).value, 0, false)
  {
    hide WritesFit, Rewrites, Step, ReadPiece, StaysNested;
    if word != [] {
      var front := word[..|word| - 1];
      ReplayWord(l, front);
      OpenNested(l, front);
      ReplayPiece(l, Run(l, Events(front)), word[|word| - 1]);
      assert Events(word)[..|word| - 1] == Events(front);
      assert AllRecleaned(l, word) == AllRecleaned(l, front) + [Recleaned(l, word[|word| - 1])];
    }
  }

  /** A clean word fed back comes out with its attributes cleaned once more, and nothing raises. */
  lemma {:induction false} CleanFedBack<T(!new)>(l: Language<T>, word: seq<Piece<T, seq<Attr>>>)
    requires WritesFit(l) && StaysNested(l) && Rewrites(l) && Clean(l, word)
    ensures Sanitize(l, Events(word)) == Some(AllRecleaned(l, word))
  {
    hide WritesFit, StaysNested, Rewrites;
    ReplayWord(l, word);
    assert AllRecleaned(l, word) + Closing([]) == AllRecleaned(l, word);
  }

  /** The words that come out as they went in are exactly the clean and stable ones. */
  lemma {:induction false} FixedPoints<T(!new)>(l: Language<T>, word: seq<Piece<T, seq<Attr>>>)
    requires WritesFit(l) && StaysNested(l) && Rewrites(l)
    ensures Sanitize(l, Events(word)) == Some(word) <==> Clean(l, word) && Stable(l, word)
  {
    hide WritesFit, StaysNested, Rewrites, Clean, Sanitize;
    SanitizedClean(l, Events(word));
    if Clean(l, word) {
      CleanFedBack(l, word);
      if Stable(l, word) {
        assert AllRecleaned(l, word) == word;
      } else {
        var i :| 0 <= i < |word| && Recleaned(l, word[i]) != word[i];
        assert AllRecleaned(l, word)[i] != word[i];
      }
    }
  }

  // ---------- which input gives a word that stays as it is ----------

  /** The event is a tag outside dropped elements that writes attributes which cleaning once more would change. */
  predicate UnstableAt<T(==)>(l: Language<T>, s: State<T>, event: Event<T>) {
    && (event.Start? || event.StartEnd?)
    && !l.drops(event.tag) && s.drop == 0
    && var w := l.write(s.stack, event);
       (w.Opens? || w.Alone?) && l.clean(w.tag, w.attrs) != w.attrs
  }

  lemma {:induction false} StableConcat<T(!new)>(
    l: Language<T>, a: seq<Piece<T, seq<Attr>>>, b: seq<Piece<T, seq<Attr>>>
  )
    ensures Stable(l, a + b) <==> Stable(l, a) && Stable(l, b)
  {
    hide Recleaned;
    var all := a + b;
    assert forall i :: 0 <= i < |a| ==> all[i] == a[i];
    assert forall i :: 0 <= i < |b| ==> all[|a| + i] == b[i];
  }

  lemma {:induction false} ClosingStable<T(!new)>(l: Language<T>, stack: seq<T>)
    ensures Stable(l, Closing<T, seq<Attr>>(stack))
  {
    if stack != [] {
      ClosingStable(l, stack[..|stack| - 1]);
    }
  }

  lemma {:induction false} StepStable<T(!new)>(l: Language<T>, s: State<T>, event: Event<T>)
    requires !s.failed
    ensures Stable(l, Step(l, s, event).out) <==> Stable(l, s.out) && !UnstableAt(l, s, event)
  {
    hide Stable, Closing;
    match event
    case Start(_, _) => WrittenStable(l, s, l.write(s.stack, event));
    case StartEnd(_, _) => WrittenStable(l, s, l.write(s.stack, event));
    case End(tag) =>
      if l.closes(tag).Some? && l.closes(tag).value in s.stack {
        var closed := s.stack[Innermost(s.stack, l.closes(tag).value)..];
        ClosingStable(l, closed);
        StableConcat(l, s.out, Closing(closed));
      }
    case Data(text) =>
      OneStable(l, Text(text));
      StableConcat(l, s.out, [Text(text)]);
    case Ignored =>
  }

  lemma {:induction false} OneStable<T(!new)>(l: Language<T>, piece: Piece<T, seq<Attr>>)
    ensures Stable(l, [piece]) <==> Recleaned(l, piece) == piece
  {
    var one := [piece];
    assert one[0] == piece;
  }

  lemma {:induction false} WrittenStable<T(!new)>(l: Language<T>, s: State<T>, outcome: Outcome<T>)
    ensures Stable(l, Written(s, outcome).out)
       <==> Stable(l, s.out) && !((outcome.Opens? || outcome.Alone?) && l.clean(outcome.tag, outcome.attrs) != outcome.attrs)
  {
    hide Stable;
    match outcome
    case Opens(tag, attrs) =>
      OneStable(l, Open(tag, attrs));
      StableConcat(l, s.out, [Open(tag, attrs)]);
    case Alone(tag, attrs) =>
      OneStable(l, Void(tag, attrs));
      StableConcat(l, s.out, [Void(tag, attrs)]);
    case _ =>
  }

  lemma {:induction false} StableRun<T(!new)>(l: Language<T>, events: seq<Event<T>>)
    requires !Run(l, events).failed
    ensures Stable(l, Run(l, events).out)
       <==> forall i :: 0 <= i < |events| ==> !UnstableAt(l, Run(l, events[..i]), events[i])
  {
    hide Stable, UnstableAt, Run, Step;
    if events == [] {
      EmptyRun(l);
    } else {
      var m := |events| - 1;
      var front := events[..m];
      LastStep(l, events);
      StepFails(l, Run(l, front), events[m]);
      StableRun(l, front);
      StepStable(l, Run(l, front), events[m]);
      forall i | 0 <= i < m
        ensures UnstableAt(l, Run(l, front[..i]), front[i]) == UnstableAt(l, Run(l, events[..i]), events[i])
      {
        assert front[..i] == events[..i];
      }
    }
  }

  lemma EmptyRun<T(!new)>(l: Language<T>)
    ensures Run(l, []) == Initial() && Stable(l, Run(l, []).out)
  {
  }

  /** The word is stable exactly when no event of the input writes attributes that cleaning once more would change. */
  lemma {:induction false} StableExactly<T(!new)>(l: Language<T>, events: seq<Event<T>>)
    requires Sanitize(l, events).Some?
    ensures Stable(l, Sanitize(l, events).value)
       <==> forall i :: 0 <= i < |events| ==> !UnstableAt(l, Run(l, events[..i]), events[i])
  {
    hide Run, Closing, Stable, UnstableAt;
    var s := Run(l, events);
    StableRun(l, events);
    ClosingStable(l, s.stack);
    StableConcat(l, s.out, Closing(s.stack));
  }

  // ---------- the closing loops of the parser objects ----------

  /** Closing the innermost element first leaves the rest to be closed. */
  lemma {:induction false} CloseTop<T>(out: seq<Piece<T, seq<Attr>>>, stack: seq<T>, i: nat)
    requires i < |stack|
    ensures out + Closing(stack[i..]) == out + [Close(stack[|stack| - 1])] + Closing(stack[..|stack| - 1][i..])
  {
    assert stack[i..][..|stack[i..]| - 1] == stack[..|stack| - 1][i..];
  }

  lemma {:induction false} NothingToClose<T>(out: seq<Piece<T, seq<Attr>>>, stack: seq<T>, i: nat)
    requires i == |stack|
    ensures out + Closing(stack[i..]) == out
  {
  }
}
