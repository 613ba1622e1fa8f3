# Business rules of the personnel portal, modelled and proved in Dafny

The portal keeps its business rules in rule modules and a few stateful services. This project models the ones whose
correctness does not show in a single function body, and proves what they promise over all inputs, all event sequences
and all interleavings. `dafny verify dfyconfig.toml` checks everything.

## The parts

**Letters and letter templates.** The two HTML cleaners are stack transducers over the parser's events. `Transducer`
is what they share, for any language of tags; `OaHtml` and `OaTemplateHtml` are the two languages, each with the
parser object as a class whose handlers are proved against the shared step function. `TagWord.OpenTags` is the
reference: a pushdown reading of the output that knows nothing of the cleaners. Every output is accepted by it.
`OaAttributes`, `OaTemplateAttributes`, `StyleDeclarations` and `HtmlAttributes` are the attribute and style cleaners.
`OaLetterRules` and `OaTemplateRules` state the two formats tag by tag and attribute by attribute, with every list
written out a second time, and `OaTemplateStyles` what a written style can hold, over its characters. `MarkupText`,
`OaIdempotence` and `OaTemplateText` carry the results over to strings, through escaping, merging of adjacent text and
trimming, up to the question whether the entry point leaves its own output alone.

**Advance payments** (`AdvanceWindow`, `AdvanceRules`, `AdvanceRequests`, `AdvanceProtocol`, `AdvanceDeciders`,
`AdvanceRouting`, `AdvanceOutcomes`, `AdvanceService`). A request is a row with an event log. `AdvanceRequests` gives
every operation on one row and the invariant it keeps. `AdvanceProtocol` is the whole table under any interleaving of
sessions, with the four database steps of a submission separate and the employee row locked between them, and with the
reading and the writing of the two calls that take no row locks separate. `AdvanceRouting` says exactly what their
late writes do to rows that have moved on, and `AdvanceDeciders` when the two managers of a request are two persons.
`AdvanceOutcomes` says on the columns of the table before and after what each operation makes of every row, and reads
the cap off the logs. `AdvanceService` is the service object with its bulk loops, each proved to be one transaction of
the protocol with that outcome.

**Background jobs and connections** (`SchedulerLocks`, `KaraPool`, `KaraKeys`, `BackupSchedule`). The advisory locks
of many workers, which belong to pooled database sessions, and the shared connection pool are state machines of atomic
steps; their theorems speak of every run. `KaraKeys` follows the key that a connection was made for through every run.
The pool's functions are also given as a class, for a single thread. The backup schedule is arithmetic on instants,
with the scheduled instants as the reference.

**Organisation tree** (`SiteRoots`, `OrgTree`). The memoised assignment of units to sites is proved equal to the naive
climb along parent links, and dual to the descent, on any parent table, cycles included.

**Dates and hours** (`JalaliCalendar`, `JalaliDates`, `ShiftHours`). The conversion to Gregorian dates is proved
against a Gregorian calendar counted year by year and a Jalali calendar stepped day by day; dates as text, shifted
months and ages, and hourly leave on the axis of a shift follow.

**Files, cards, loans, families** (`FileSearch`, `BankChecks`, `LoanSchedule`, `Payslip`, `ChildAllowance`). The
streaming search, the check digits (Luhn of Annex B of ISO/IEC 7812-1, MOD 97-10 of ISO/IEC 7064), the instalment
schedule, the payslip reader and the choice of children for the allowance.

`Common`, `Characters`, `Strings`, `Months` and `Arithmetic` hold shared definitions. Characters matter: Python's
`isdigit` accepts superscripts at which `int` raises, and `\d` and `int` accept the digits of every script. `Characters`
says what is a digit, a space and a word character; beyond ASCII the tables are constants that are only known to be
plausible, so that the theorems hold for every plausible table.

## Where the code does not do what one might expect

Each of these is a lemma with a concrete input, an exact condition, or both.

- A digit character that is no decimal digit makes the code raise a bare `ValueError` where a value is dropped or
  refused otherwise: a cell span in a letter (`OaHtml.SanitizeRaises`, `SuperscriptCell`), a span or an image size in a
  template (`OaTemplateHtml.TemplateRaises`, `SuperscriptWidth`), an amount of a payslip (`Payslip.SuperscriptRaises`),
  the first month of a loan (`LoanSchedule.SuperscriptMonth`). So does a number of more than 4300 digits
  (`OaHtml.SuperscriptCell`).
- `embed`, `link` and `meta` are dropped together with their content, but have no end tag: one of them loses all the text
  that follows (`OaTemplateHtml.MetaLosesText`, `MetaHeader`, `OaHtml.EmbedLosesText`).
- A digit of a card number or an IBAN can be replaced by the same digit of another script
  (`BankChecks.CardChangeCaught`, `ShebaChangeCaught`, `OtherScriptAccepted`).
- Sanitizing a letter twice can differ from sanitizing it once. An alignment spelled with a dotted capital I matches
  regardless of case, is written with a combining dot, and is dropped by the next pass: exactly when a tag that is placed
  names its first alignment so (`OaIdempotence.SecondPass`, `DottedLetter`).
- The same for templates: the text of an image is cut to 100 characters after trimming, so a cut right after white space
  is trimmed by the next pass (`OaTemplateText.SecondPass`, `CutHeader`, `OaTemplateAttributes.AltUnsteady`).
- A sanitized text can be too long to be sanitized again, because escaping makes it longer
  (`OaIdempotence.SecondPassCanFail`, `OaTemplateText.SecondPassCanFail`).
- The cancellation of leavers' requests and the reassignment of approvers select their rows without locking them, and
  write later. A payment that commits in between is overwritten by the cancellation (`AdvanceDeciders.PaymentOverwritten`;
  when exactly: `AdvanceProtocol.FinalStays`, `AdvanceRouting.ClosedExactly`). An approval in between can leave the next
  step with the new manager of the step before, who then decides it (`AdvanceRouting.Misrouted`; when exactly:
  `RoutedWrite`, `RoutedExactly`).
- The route of a request asks one manager in both roles once, but a changed setting or a reassignment can still make one
  person decide both steps (`AdvanceDeciders.AskedTwice`; when exactly: `PersonsStayDistinct`, `DistinctExactly`).
- `close` of a pooled connection tests and sets its flag without a lock. Two threads that close one wrapper at once put
  its connection into the pool twice (`KaraPool.OverlappingCloses`; when exactly: `ConservedExactly`).
- Closing the connection of an advisory lock does not give the lock back, although `_advisory_unlock` says so of a failed
  unlock: the session goes back to the pool with it. Until that session ends, all other workers are refused
  (`SchedulerLocks.UnlockFails`; when exactly: `NothingLeaked`, `LockedOut`).
- A sync round that ends by an error before its time is stored leaves no trace (`SchedulerLocks.GapExactly`).
- 30 Esfand is accepted in every year, though `_month_days` speaks of leap years, and in a common year it converts to
  the same day as the next New Year (`JalaliCalendar.ConversionCollides`, `ThirtiethOfEsfand1404`).
- A submission window that holds all of the days 1 to 29 has adjacent days that count for different months
  (`AdvanceWindow.FullWindowSplits`).
- Backups every N hours are N hours apart only when N divides 24 (`BackupSchedule.EvenlySpaced`).
- A unit on a parent cycle counts as its own descendant (`OrgTree.CountAndSubtree`).
- The IBAN check accepts 00, 01 and 99 as check digits where the standard writes 97, 98 and 02
  (`BankChecks.ShebaCheckDigits`, `AliasesAccepted`).
- A payslip with no loan column in its loan section is read in the other layout (`Payslip.NoColumns`, `OtherRowRead`).
- Shifting a date by months twice can differ from shifting once (`JalaliDates.AddMonthsTwice`).
- An empty file holds no pattern, not even an empty one (`FileSearch.Contains`).

## Model

| member | source | states |
|---|---|---|
| `Transducer.SanitizedClean` | backend/app/core/oa_html.py:90-167 | shared by both cleaners: for every event sequence a word that is written is balanced and each piece fits where it stands, by a pushdown reading that knows nothing of the cleaners |
| `Transducer.RunFails` | backend/app/core/oa_html.py:97-150 | a run raises if and only if some event does at which it arrives |
| `Transducer.TextConserved` | backend/app/core/oa_html.py:97-150 | the text of the output is exactly the input text outside dropped elements, once and in order; the drop count is read off the events alone |
| `Transducer.TextLost` | backend/app/core/oa_html.py:98-102 | inside a dropped element nothing more is kept until the end tag of some dropped element, so a dropped tag without an end tag loses all the text after it |
| `Transducer.ItemsConserved` | backend/app/core/oa_html.py:97-150 | for any tags that stand for lines: the texts and lines of the output are, in order, exactly the texts and the start or self-closing tags of such lines in the input outside dropped elements |
| `Transducer.RunText` | backend/app/core/oa_html.py:97-150 | after every prefix the handlers' drop count and written text agree with those defined on the events |
| `Transducer.CleanFedBack` | backend/app/core/oa_html.py:97-167 | a clean word fed back through the handlers comes out with its attributes cleaned once more, and nothing raises |
| `Transducer.FixedPoints` | backend/app/core/oa_html.py:97-167 | feeding a word back reproduces it if and only if it is clean and no attribute of it changes when cleaned again |
| `Transducer.StableExactly` | backend/app/core/oa_html.py:97-167 | on the input: the word stays as it is on the next pass if and only if no tag outside dropped elements writes attributes that cleaning again would change |
| `Transducer.StepGood` | backend/app/core/oa_html.py:97-150 | every handler keeps the invariant that reading the output leaves exactly the stack open |
| `TagWord.OpenTagsPrefix` | backend/app/core/oa_html.py:90-167 | every prefix of a word accepted by the reference reading is accepted |
| `TagWord.CloseInner` | backend/app/core/oa_html.py:142-146 | writing the closing tags of the inner elements leaves exactly the outer ones open |
| `OaHtml.SanitizeClean` | backend/app/core/oa_html.py:90-167 | whatever the events, a letter that is written is balanced and within allowlist, depth bound and table and list structure, and its attributes are such as the cleaner writes |
| `OaHtml.SanitizeRaises` | backend/app/core/oa_html.py:74-75 | the handlers raise a value error if and only if they meet, outside dropped elements and where it is placed, a cell with a span value of digit characters that are not all decimal, or more of them than the conversion accepts |
| `OaHtml.SuperscriptCell` | backend/app/core/oa_html.py:74-75 | a table whose cell has colspan U+00B2, or a number of 4301 digits, gives no letter but the error |
| `OaHtml.OutputNesting` | backend/app/core/oa_html.py:108-120 | every element written has fewer than 64 elements around it; a cell lies inside a row and a table, a row or row group inside a table, a list item inside a list |
| `OaHtml.LetterText` | backend/app/core/oa_html.py:97-150 | a letter holds exactly the text outside dropped elements, once and in order |
| `OaHtml.LetterItems` | backend/app/core/oa_html.py:97-150 | the line breaks of a letter, among its texts, are exactly the br tags of the input outside dropped elements, self-closing or not, in order |
| `OaHtml.EmbedLosesText` | backend/app/core/oa_html.py:98-102 | a start tag of embed, which has no end tag, loses all the text after it up to an end tag of another dropped element |
| `OaHtml.LetterStable` | backend/app/core/oa_html.py:97-122 | a letter is stable if and only if no tag of the input that is placed outside dropped elements names its first alignment with U+0130 |
| `OaHtml.LetterFixedPoints` | backend/app/core/oa_html.py:97-167 | the words the cleaner reproduces are exactly the clean ones without an alignment that holds a combining dot |
| `OaHtml.Sanitizer.constructor` | backend/app/core/oa_html.py:91-95 | a new parser has no output, no open element and no dropped region |
| `OaHtml.Sanitizer.HandleStartTag` | backend/app/core/oa_html.py:97-122 | the object changes as the start-tag step, or raises exactly when that step fails: dropped regions are counted, aliases renamed, misplaced table parts ignored, list items outside lists become paragraphs |
| `OaHtml.Sanitizer.PlaceTag` | backend/app/core/oa_html.py:105-122 | the placing branches on an already renamed tag |
| `OaHtml.Sanitizer.HandleStartEndTag` | backend/app/core/oa_html.py:124-129 | the object changes as the step for a self-closing tag, which `OaLetterRules.StartEndTagExactly` describes |
| `OaHtml.Sanitizer.HandleEndTag` | backend/app/core/oa_html.py:131-146 | an end tag of an open element closes everything inside it first; any other changes nothing but a drop count |
| `OaHtml.Sanitizer.CloseThrough` | backend/app/core/oa_html.py:142-146 | the closing loop pops exactly down to the innermost element of that tag and writes the closing tags in order |
| `OaHtml.Sanitizer.HandleData` | backend/app/core/oa_html.py:148-150 | text is appended only outside dropped regions and only when there is some |
| `OaHtml.Sanitizer.Result` | backend/app/core/oa_html.py:164-167 | closing what is left writes exactly the closing tags of the stack, innermost first, and empties the stack |
| `OaHtml.Sanitizer.Feed` | backend/app/core/oa_html.py:170-181 | feeding all events to the object gives the word of the transducer, or nothing when a handler raises |
| `OaLetterRules.StartTagExactly` | backend/app/core/oa_html.py:97-122 | what a start tag does, with every list of the format written out: it begins a dropped element, writes a line break, opens the element that the tag stands for when fewer than 64 are open and its table part or list allows it, raises over a span that cannot be read, or does nothing |
| `OaLetterRules.StartEndTagExactly` | backend/app/core/oa_html.py:124-129 | a self-closing tag writes a line break if it is br and outside dropped elements, and nothing otherwise |
| `OaLetterRules.EndTagExactly` | backend/app/core/oa_html.py:131-146 | an end tag ends a dropped element, or closes the innermost open element that it stands for with everything inside it; otherwise nothing happens |
| `OaLetterRules.AttrExactly` | backend/app/core/oa_html.py:67-87 | exactly how an attribute is written: a direction, the span of a cell from 1 to 50, fonts and sizes of a span, the first alignment of a block; every other attribute is left out |
| `OaLetterRules.OneByOne` | backend/app/core/oa_html.py:67-87 | the attributes of an element are cleaned one by one, in their order |
| `OaLetterRules.AlignsExactly` | backend/app/core/oa_html.py:30 | a declaration names an alignment exactly when it is the property, a colon and a side, in any case and with white space anywhere between |
| `OaLetterRules.DeclarationExactly` | backend/app/core/oa_html.py:43-58 | a declaration of a span is written exactly when its first font is an offered one, in its quotation marks or not, or its size is from 8 to 36 points with at most one decimal |
| `StyleDeclarations.JoinedDeclsCleaned` | backend/app/core/oa_html.py:43-58 | a list of clean declarations joined with semicolons is taken apart again into the same list |
| `StyleDeclarations.StyleTwice` | backend/app/core/oa_html.py:43-58 | for any declaration cleaner that leaves its own output alone, cleaning a style twice is cleaning it once |
| `StyleDeclarations.CleanStyle` | backend/app/core/oa_html.py:43-58 | the declaration loop, shared by both style cleaners, computes the joined clean declarations |
| `OaAttributes.SpanStyleIdempotent` | backend/app/core/oa_html.py:43-58 | cleaning a span style twice is cleaning it once, for every string |
| `OaAttributes.KeptAgain` | backend/app/core/oa_html.py:67-87 | a written attribute cleaned again raises nothing and stays the same, unless it is an alignment with a combining dot, which is dropped: exactly then |
| `OaAttributes.CleanAttrIdempotent` | backend/app/core/oa_html.py:67-87 | what is written for an attribute is written again, unless the first alignment that the attribute names is spelled with U+0130: exactly then it is dropped |
| `OaAttributes.CleanAttrsDotted` | backend/app/core/oa_html.py:67-87 | the attributes written for a list change on the next pass if and only if some attribute of the list names its first alignment so |
| `OaAttributes.DottedAlignment` | backend/app/core/oa_html.py:81-86 | a concrete alignment that is written once, with a combining dot, and dropped by the next pass |
| `OaAttributes.CleanAttrsAgain` | backend/app/core/oa_html.py:67-87 | a written attribute list is left alone if and only if it holds no such alignment |
| `OaAttributes.WrittenPlain` | backend/app/core/oa_html.py:67-87 | a written attribute holds no quote, angle bracket or ampersand, so that it can stand between quotes as it is |
| `OaAttributes.SpanRaises` | backend/app/core/oa_html.py:74-75 | a cell span of digit characters that cannot be read makes the attribute cleaner raise |
| `OaAttributes.AlignOf` | backend/app/core/oa_html.py:81-86 | the loop with its early exit finds the first alignment declaration |
| `OaAttributes.CleanOne` | backend/app/core/oa_html.py:69-86 | one round of the attribute loop keeps, drops or raises as specified |
| `OaAttributes.CleanAttributes` | backend/app/core/oa_html.py:67-87 | the attribute loop keeps exactly the cleaned attributes in their order, or raises exactly when one of them does |
| `MarkupText.UnescapeEscape` | backend/app/core/oa_html.py:148-150 | escaped text read back is the text, with quotes escaped or not |
| `MarkupText.EscapePlain` | backend/app/core/oa_html.py:148-150 | escaped text holds no angle bracket, and no quote where quotes are escaped, so it cannot open or close a tag or end its attribute |
| `MarkupText.EscapedCharacters` | backend/app/core/oa_html.py:148-150 | the five characters with a meaning in HTML become their references, quotes only in attributes; any other character stays |
| `MarkupText.TokenizeRender` | backend/app/core/oa_html.py:97-167 | the tokens of a written document are its pieces, attributes and character references included |
| `MarkupText.FinalWord` | backend/app/core/oa_html.py:164-181 | trimming the rendered string is rendering a word that is still clean, and stable exactly when the untrimmed word was |
| `MarkupText.CleanedAgain` | backend/app/core/oa_html.py:164-181 | on strings: the tokens of any cleaned text are cleaned without an error, and to the same text if and only if no attribute of the first pass changes when cleaned again |
| `OaIdempotence.SecondPass` | backend/app/core/oa_html.py:170-181 | the entry point applied to its own output rejects it exactly when it exceeds the input limit; otherwise it returns it unchanged if and only if no tag of the input that was placed outside dropped elements named its first alignment with U+0130 |
| `OaIdempotence.RefusedLetters` | backend/app/core/oa_html.py:170-181 | exactly the letters of more than two million characters and those with a placed cell whose span cannot be read are refused, each with its own error |
| `OaIdempotence.ElementNames` | backend/app/core/oa_html.py:18-21 | the spelling of text and list elements |
| `OaIdempotence.OtherElementNames` | backend/app/core/oa_html.py:18-21 | the spelling of the other elements |
| `OaIdempotence.DotlessFixed` | backend/app/core/oa_html.py:170-181 | a condition on the input: a letter whose tags have no U+0130 in an attribute is returned unchanged by every further pass within the limit |
| `OaIdempotence.DottedLetter` | backend/app/core/oa_html.py:81-86 | a concrete letter, one paragraph, that the second pass changes |
| `OaIdempotence.SecondPassCanFail` | backend/app/core/oa_html.py:59-60 | a concrete accepted letter, 500000 ampersands, whose sanitized form is over the limit |
| `OaTemplateHtml.TemplateClean` | backend/app/core/oa_template_html.py:86-141 | whatever the events, a header or footer that is written is balanced, within its allowlist and depth bound, shows no image but the logo, and its attributes are such as the cleaner writes |
| `OaTemplateHtml.TemplateRaises` | backend/app/core/oa_template_html.py:77-82 | the handlers raise a value error if and only if they write an element with a span or an image size of digit characters that cannot be read |
| `OaTemplateHtml.UnreadableWidth` | backend/app/core/oa_template_html.py:77-82 | a logo whose width cannot be read gives no header but the error |
| `OaTemplateHtml.SuperscriptWidth` | backend/app/core/oa_template_html.py:77-82 | so does the concrete width U+00B2 |
| `OaTemplateHtml.DepthBounded` | backend/app/core/oa_template_html.py:110-113 | at every point at most 40 elements are open, all of them allowed |
| `OaTemplateHtml.TemplateText` | backend/app/core/oa_template_html.py:93-136 | the text outside dropped elements is kept exactly, once and in order |
| `OaTemplateHtml.TemplateItems` | backend/app/core/oa_template_html.py:93-136 | the line breaks and rules of a header or footer, among its texts, are exactly the br and hr tags of the input outside dropped elements, self-closing or not, in order |
| `OaTemplateHtml.MetaLosesText` | backend/app/core/oa_template_html.py:95-98 | a start tag of link or meta, which has no end tag, loses all the text after it up to an end tag of another dropped element |
| `OaTemplateHtml.MetaHeader` | backend/app/core/oa_template_html.py:95-98 | a concrete header that begins with a meta tag and of which nothing is left |
| `OaTemplateHtml.TemplateStable` | backend/app/core/oa_template_html.py:93-113 | what is written is stable if and only if no logo of the input that is shown has a text of more than 100 characters of which the hundredth is white space |
| `OaTemplateHtml.TemplateFixedPoints` | backend/app/core/oa_template_html.py:93-141 | the words the cleaner reproduces are exactly the clean ones in which no text of an image was cut right after white space |
| `OaTemplateHtml.Parser.constructor` | backend/app/core/oa_template_html.py:86-91 | a new parser has no output, no open element and no dropped region |
| `OaTemplateHtml.Parser.OpenTag` | backend/app/core/oa_template_html.py:93-119 | the shared opening handler changes the object as the specified step, self-closing or not, or raises exactly when that step fails |
| `OaTemplateHtml.Parser.PlaceTag` | backend/app/core/oa_template_html.py:98-113 | its branches for an allowed tag: the logo image, void elements, the depth bound |
| `OaTemplateHtml.Parser.HandleEndTag` | backend/app/core/oa_template_html.py:121-132 | an end tag closes through its element, or lowers the drop count but never below zero |
| `OaTemplateHtml.Parser.CloseThrough` | backend/app/core/oa_template_html.py:128-132 | the closing loop pops exactly down to the innermost element of that tag |
| `OaTemplateHtml.Parser.HandleData` | backend/app/core/oa_template_html.py:134-136 | text is appended only outside dropped regions |
| `OaTemplateHtml.Parser.Result` | backend/app/core/oa_template_html.py:138-141 | what is left open is closed, innermost first |
| `OaTemplateHtml.Parser.Feed` | backend/app/core/oa_template_html.py:144-153 | feeding all events to the object gives the word of the transducer, or nothing when a handler raises |
| `OaTemplateRules.TagExactly` | backend/app/core/oa_template_html.py:93-113 | what a start tag or a self-closing tag does, with every list of the format written out: the logo is written when the first source names it, a container is opened when fewer than 40 are open and the tag is not self-closing |
| `OaTemplateRules.EndTagExactly` | backend/app/core/oa_template_html.py:121-132 | an end tag ends a dropped element, or closes the innermost open element of its name with everything inside it; otherwise nothing happens |
| `OaTemplateRules.AttrExactly` | backend/app/core/oa_template_html.py:66-83 | exactly how an attribute is written: a style, a direction, the span of a cell from 1 to 50, the text of the logo cut to 100 characters, its width and height from 1 to 2000; every other attribute is left out |
| `OaTemplateRules.OneByOne` | backend/app/core/oa_template_html.py:66-83 | the attributes of an element are cleaned one by one, in their order |
| `OaTemplateRules.SpacesRemoved` | backend/app/core/oa_template_html.py:102-104 | from the source of an image every space is taken before it is compared, and nothing else |
| `OaTemplateAttributes.TemplateStyleIdempotent` | backend/app/core/oa_template_html.py:49-63 | cleaning a style twice is cleaning it once, for every string |
| `OaTemplateStyles.StyleSafe` | backend/app/core/oa_template_html.py:39-63 | over the characters of the whole written style: nowhere do letters that fold to url, perhaps white space, and an opening bracket follow one another, nowhere does one of the forbidden words stand in any case, and every character is an allowed one |
| `OaTemplateStyles.StyleParts` | backend/app/core/oa_template_html.py:49-63 | taken apart at its semicolons, each part of a written style sets an offered property to a value of at most 200 characters that is safe in this sense and, for display, an offered one |
| `OaTemplateStyles.DeclarationWritten` | backend/app/core/oa_template_html.py:52-62 | the converse: a declaration is written if and only if its property is offered and its value meets these conditions |
| `OaTemplateStyles.BadExactly` | backend/app/core/oa_template_html.py:39 | a value is dropped for what it could load exactly when such letters or such a word stand in it |
| `OaTemplateAttributes.KeptAgain` | backend/app/core/oa_template_html.py:66-83 | a written attribute cleaned again raises nothing and stays the same, unless it is a text of an image that ends in white space, which is trimmed: exactly then |
| `OaTemplateAttributes.AltUnsteady` | backend/app/core/oa_template_html.py:79-80 | the written text of an image changes on the next pass if and only if the trimmed text has more than 100 characters of which the hundredth is white space |
| `OaTemplateAttributes.CleanAttrsAgain` | backend/app/core/oa_template_html.py:66-83 | a written attribute list is left alone if and only if it holds no such text; otherwise it gets shorter |
| `OaTemplateAttributes.CleanAttrsCut` | backend/app/core/oa_template_html.py:66-83 | the attributes written for a list change on the next pass if and only if some attribute of the list is such a text |
| `OaTemplateAttributes.CleanOne` | backend/app/core/oa_template_html.py:68-82 | one round of the attribute loop keeps, drops or raises as specified |
| `OaTemplateAttributes.CleanAttributes` | backend/app/core/oa_template_html.py:66-83 | the attribute loop keeps exactly the cleaned attributes in their order, or raises exactly when one of them does |
| `OaTemplateText.SecondPass` | backend/app/core/oa_template_html.py:144-153 | the entry point applied to its own output rejects it exactly when it exceeds the input limit; otherwise it returns it unchanged if and only if no logo of the input that is shown has a text of more than 100 characters of which the hundredth is white space |
| `OaTemplateText.RefusedTemplates` | backend/app/core/oa_template_html.py:144-153 | exactly the texts of more than fifty thousand characters and those with a number that cannot be read are refused, each with its own error; a blank text gives nothing, however long |
| `OaTemplateText.ElementNames` | backend/app/core/oa_template_html.py:19-22 | the spelling of the elements of a template |
| `OaTemplateText.CutAlt` | backend/app/core/oa_template_html.py:79-80 | a concrete image text of 101 characters that changes on the second pass |
| `OaTemplateText.CutHeader` | backend/app/core/oa_template_html.py:79-80 | a concrete header, one logo, that the second pass changes |
| `OaTemplateText.SecondPassCanFail` | backend/app/core/oa_template_html.py:41 | a concrete accepted header whose sanitized form is over the limit |
| `AdvanceProtocol.EveryRequest` | backend/app/services/advance_service.py:142-157 | at every moment of every run, unlocked calls and late writes included, for every request: as many approvals in the log as steps behind it, the status is told by the log alone, a request under review has an approver who is not the requester, no decision is the requester's own, and there are at most four decisions and payments |
| `AdvanceProtocol.EveryCount` | backend/app/services/advance_service.py:251-305 | at every moment of every run, unlocked calls included, an employee has at most one open request and at most the cap of counted requests per month, also with submissions running at once; which those are is read off the logs by `AdvanceOutcomes.CapOnLogs` |
| `AdvanceOutcomes.CapOnLogs` | backend/app/services/advance_service.py:251-305 | at every moment of every run, read off the logs alone: an employee's requests for a month whose log holds no refusal and no cancellation are at most the cap, paid ones included, and at most one request holds neither of them nor a payment |
| `AdvanceOutcomes.CountingExactly` | backend/app/core/advance_rules.py:34 | the requests that count are those of the employee and month in any status but rejected and cancelled |
| `AdvanceProtocol.CapPerOpening` | backend/app/services/advance_service.py:251-260 | counted requests submitted within one uninterrupted opening of the window are at most the cap, also across the end of a month, when some day of 1 to 29 is outside the window |
| `AdvanceProtocol.History` | backend/app/services/advance_service.py:335-470 | from any moment to any later one of every run, late writes included, a request stays, its log only grows, its rank never rises, it is never reopened, and a final status changes at most into a cancellation |
| `AdvanceProtocol.FinalStays` | backend/app/services/advance_service.py:509-525 | step by step a final status changes if and only if it is paid or rejected and an unlocked cancellation that read the row open now writes; no step but the write of an unlocked call touches a final row |
| `AdvanceProtocol.FinalKept` | backend/app/services/advance_service.py:509-525 | over a run a paid or rejected request is still so at the end if and only if no unlocked cancellation was written over it since |
| `AdvanceProtocol.ReadThenWrite` | backend/app/services/advance_service.py:509-596 | an unlocked call with nothing between its reading and its writing is one transaction |
| `AdvanceRouting.RoutedWrite` | backend/app/services/approver_reassign.py:87-115 | a late write leaves the current approver the stored person of the current step if and only if it cancels, or the row is still at the step at which it was read, or neither is written or both agree, or the row is out of review and no approver is written |
| `AdvanceRouting.RoutedExactly` | backend/app/services/approver_reassign.py:87-115 | over every run: at every moment each request under review is with the stored person of its current step, and with nobody otherwise, if and only if every late write is safe in that sense |
| `AdvanceRouting.Misrouted` | backend/app/services/approver_reassign.py:87-115 | a concrete run in which a person who was never the site manager decides that step, after a late write |
| `AdvanceRouting.ClosedExactly` | backend/app/services/advance_service.py:509-525 | over every run: at every moment each request has been rejected, paid or cancelled at most once if and only if no late cancellation is written over a closed request |
| `AdvanceRouting.TimelyEnough` | backend/app/services/advance_service.py:509-596 | a run in which no unlocked call writes over a row that changed since it was read meets both conditions |
| `AdvanceRouting.TimelyHistory` | backend/app/services/advance_service.py:335-470 | in such a run a paid, rejected or cancelled request moreover stays exactly what it is |
| `AdvanceDeciders.PaymentOverwritten` | backend/app/services/advance_service.py:513-525 | a concrete run in which a paid request becomes cancelled: a leaver's cancellation read it approved and wrote after the payment |
| `AdvanceDeciders.PersonsStayDistinct` | backend/app/services/advance_service.py:455-466 | an operation on a request that asks two different managers leaves two different ones if and only if its answers do not clash: no approval of the first step while the setting names the approver for the second, no reassignment whose answers bring both steps to one person |
| `AdvanceDeciders.DistinctExactly` | backend/app/services/advance_service.py:142-157 | over every run, late writes included: every request that asks two managers asks two different persons at every moment if and only if no answer and no late write clashes |
| `AdvanceDeciders.AskedTwice` | backend/app/services/advance_service.py:527-534 | a concrete run in which one person approves both steps of a request that was routed to two managers |
| `AdvanceProtocol.DecisionsLowerRank` | backend/app/services/advance_service.py:424-470 | every deciding or closing operation that succeeds lowers the rank, so a request is decided at most four times |
| `AdvanceProtocol.RunOk` | backend/app/services/advance_service.py:335-379 | over every interleaving, late writes included, the whole invariant of rows, locks, caps, pending findings and pending writes holds |
| `AdvanceProtocol.RunCounts` | backend/app/services/advance_service.py:251-379 | over every interleaving whatever, unlocked calls included, locks, caps and pending findings agree |
| `AdvanceProtocol.SubmissionOk` | backend/app/services/advance_service.py:338-379 | each database step of a submission keeps it: what was counted under the employee lock still holds at the insert |
| `AdvanceProtocol.CountsStep` | backend/app/services/advance_service.py:335-596 | so does every other step, the reading and the writing of unlocked calls included |
| `AdvanceProtocol.RowsStep` | backend/app/services/advance_service.py:335-596 | every step, late writes included, keeps each row's invariant and moves each row onward |
| `AdvanceRequests.WhoDecides` | backend/app/services/advance_service.py:439-451 | on every reachable row a person step is decided by the current approver, or by that person's substitute unless that is the requester, and by nobody else; on a routed row the current approver is the stored person of the step |
| `AdvanceRequests.ReassignChanges` | backend/app/services/approver_reassign.py:87-117 | a reassignment touches only persons of steps still to come, never names the requester, and logs itself exactly when something changed |
| `AdvanceRequests.ReassignFollows` | backend/app/services/approver_reassign.py:109-115 | the current approver moves along with its step |
| `AdvanceRequests.ReassignedDistinct` | backend/app/services/approver_reassign.py:85-117 | a reassignment, at either step, leaves two different managers if and only if the answers for the steps ahead do not bring both to one person |
| `AdvanceRequests.EnteredDistinct` | backend/app/services/advance_service.py:527-551 | entering the second step leaves two different managers if and only if the setting has not become the first manager, still able to approve |
| `AdvanceRequests.SubmittedDistinct` | backend/app/services/advance_service.py:527-551 | entering the first step leaves two different managers if and only if the unit manager may approve, or the answers do not bring both steps to one person |
| `AdvanceRequests.ReassignKeepsInvariant` | backend/app/services/approver_reassign.py:85-117 | a reassignment keeps the row invariant and the rank, and leaves a routed row routed |
| `AdvanceRequests.EnterStepInvariant` | backend/app/services/advance_service.py:142-157 | entering a step, with its possible change of approver, establishes the invariant in the right status, with the stored person as approver |
| `AdvanceRequests.SubmittedInvariant` | backend/app/services/advance_service.py:356-378 | a new request satisfies the invariant, whatever the two managers are |
| `AdvanceRequests.DecideInvariant` | backend/app/services/advance_service.py:455-466 | a decision keeps the invariant, lowers the rank and leaves the row routed, whether it was or not |
| `AdvanceRequests.FinanceInvariant` | backend/app/services/advance_service.py:800-812 | a finance decision keeps the invariant and lowers the rank |
| `AdvanceRequests.PayInvariant` | backend/app/services/advance_service.py:830-836 | a payment keeps the invariant and lowers the rank |
| `AdvanceRequests.CancelInvariant` | backend/app/services/advance_service.py:381-394 | a cancellation keeps the invariant and lowers the rank |
| `AdvanceRequests.LeftInvariant` | backend/app/services/advance_service.py:509-525 | the cancellation of a leaver's request keeps the invariant and lowers the rank |
| `AdvanceService.Service.constructor` | backend/app/services/advance_service.py:48-54 | the service starts without requests |
| `AdvanceService.Service.BlockReasons` | backend/app/services/advance_service.py:282-314 | the overview lists a reason if and only if it stands against a submission, each once and in its order |
| `AdvanceService.Service.Submit` | backend/app/services/advance_service.py:335-379 | a row is added if and only if nothing stands against it; the first thing that is wrong decides the error; the cap is reported exactly when as many requests of the month are neither rejected nor cancelled; the new row holds what was asked for, the managers to ask in order, and has entered its first step; no other row changes |
| `AdvanceService.Service.TryRow` | backend/app/services/advance_service.py:437-469 | one round of a bulk loop changes the row when its operation succeeds, and nothing otherwise |
| `AdvanceService.Service.Bulk` | backend/app/services/advance_service.py:435-472 | a bulk loop over a list with repetitions has the effect of the one transaction on the set of its ids and reports each id |
| `AdvanceService.Service.ApproverDecide` | backend/app/services/advance_service.py:424-472 | after its two up-front refusals: exactly the listed rows that wait for the employee move on with one more approval, or are rejected with one more refusal, and are reported as done; no other row changes |
| `AdvanceService.Service.FinanceDecide` | backend/app/services/advance_service.py:788-815 | on the rows themselves: the listed ones of the site that wait for finance are approved, with every step behind them, if and only if the answer is yes, and rejected otherwise; no other row changes; exactly those are reported as done, each once and in order |
| `AdvanceService.Service.FinancePay` | backend/app/services/advance_service.py:817-842 | an entered date that cannot be read is refused before anything changes; otherwise exactly the listed approved rows of the site become paid on that date, or on today, and are reported as done |
| `AdvanceService.Service.Cancel` | backend/app/services/advance_service.py:381-394 | exactly that row, if it is the employee's own and still to be decided, becomes cancelled; each refusal has its own error |
| `AdvanceService.Service.OnEmployeesLeft` | backend/app/services/advance_service.py:509-525 | exactly the rows of the leavers that are not paid, rejected or cancelled become cancelled, and the result is their number |
| `AdvanceService.Service.EachRow` | backend/app/services/advance_service.py:513-525 | a walk over all rows in any order has the effect of the one transaction |
| `AdvanceService.Service.ReassignRow` | backend/app/services/approver_reassign.py:85-120 | one round of the reassignment loop: the row as reassigned, whether it changed, and whether its approver cannot approve all the same |
| `AdvanceService.Service.ReassignApprovers` | backend/app/services/advance_service.py:558-596 | exactly the rows under review that the call selects get their new managers and approver; the results are the number that changed and the number left unresolved |
| `AdvanceOutcomes.FinanceOutcome` | backend/app/services/advance_service.py:800-812 | column by column: what the finance unit's answer makes of every row, and for which it succeeds |
| `AdvanceOutcomes.PayOutcome` | backend/app/services/advance_service.py:830-836 | the same for its payments |
| `AdvanceOutcomes.CancelOutcome` | backend/app/services/advance_service.py:381-394 | the same for the cancellation by the requester |
| `AdvanceOutcomes.LeftOutcome` | backend/app/services/advance_service.py:509-525 | the same for the cancellation of leavers' requests |
| `AdvanceOutcomes.AnswerOutcome` | backend/app/services/advance_service.py:437-469 | the same for both answers of an approver or a substitute |
| `AdvanceOutcomes.ReassignExactly` | backend/app/services/approver_reassign.py:85-117 | a reassignment writes the two managers, the approver of the current step and the log, and nothing else: a manager changes exactly when its step is to come and today's answer is somebody other than the requester who, for the site manager, may approve |
| `AdvanceOutcomes.ReassignOutcome` | backend/app/services/advance_service.py:558-596 | on the whole table: only rows under review that the call takes up change, and so |
| `AdvanceOutcomes.EnterExactly` | backend/app/services/advance_service.py:142-157 | entering a step: finance has no person; a manager step goes to the stored manager, or to a new one when the setting names another or the stored one can no longer approve |
| `AdvanceOutcomes.NewRequest` | backend/app/services/advance_service.py:356-378 | a new row holds what was asked for, when and for which month, its managers and the steps that ask each of them once and never the requester, and has entered its first step |
| `AdvanceService.OutcomeReports` | backend/app/services/advance_service.py:435-472 | what a bulk call reports: the listed rows that were ready as done, the others as failed, each once and in the order of the list |
| `AdvanceService.ReasonsRead` | backend/app/services/advance_service.py:292-305 | the cap and the open request among the reasons, counted on the rows by their statuses |
| `AdvanceService.HiredExactly` | backend/app/core/advance_rules.py:135-146 | hired in a month that is not over, by comparing the numbers of the months |
| `AdvanceService.StuckExactly` | backend/app/services/approver_reassign.py:118-119 | a reachable request is left unresolved if and only if the approver it ends up with cannot approve: on a routed row, the person of the current step |
| `AdvanceService.ReportedOnce` | backend/app/services/advance_service.py:435-472 | each listed id is reported exactly once, as done or as failed |
| `AdvanceService.SubmissionFollowsProtocol` | backend/app/services/advance_service.py:335-379 | an uninterrupted submission is what the four database steps of the protocol do |
| `AdvanceRules.EffectiveSteps` | backend/app/core/advance_rules.py:237-248 | the route ends with finance, never asks the requester, asks one manager in both roles once, and leaves out no manager who is somebody else |
| `AdvanceRules.PlanReassignment` | backend/app/core/loan_rules.py:357-375 | the loop finds exactly the steps still to come whose person today is known, new and not the requester |
| `AdvanceRules.BestTierGreatest` | backend/app/core/advance_rules.py:62-78 | the tier is the first with the greatest bound that the length of service reaches, and there is none only when no bound is reached |
| `AdvanceRules.TierFor` | backend/app/core/advance_rules.py:62-78 | the loop computes that tier |
| `AdvanceRules.AcceptableAmounts` | backend/app/core/advance_rules.py:87-116 | an amount is accepted if and only if it is positive, at least the tier's own least amount, at most its cap and a multiple of the step; the offered range is missing when there is none, and its ends are such amounts |
| `AdvanceRules.RefusedAmounts` | backend/app/core/advance_rules.py:102-116 | which error a refused amount gets: none can be accepted, it is below or above all that can, or it lies between two that can |
| `AdvanceWindow.SameMonthJoined` | backend/app/core/advance_rules.py:202-234 | two window days that count for the same month are joined by window days only, also for windows that run over the end of the month |
| `AdvanceWindow.JoinedSameMonth` | backend/app/core/advance_rules.py:202-234 | the converse, when some day of 1 to 29 is outside the window |
| `AdvanceWindow.FullWindowSplits` | backend/app/core/advance_rules.py:202-234 | without such a day the converse fails: there are two adjacent days of the window that count for different months |
| `AdvanceWindow.WindowWalk` | backend/app/core/advance_rules.py:202-206 | a day is in the window if and only if it is met when counting from the first day to the last with day 1 after day 31 |
| `AdvanceWindow.LatestOpening` | backend/app/core/advance_rules.py:226-234 | a day of the window counts for the last month whose opening day has come |
| `SchedulerLocks.OneBodyPerKey` | backend/app/core/scheduler.py:91-120 | in every run at most one body of a key runs in all workers together, its key is locked by the session it checked out, and a job pops exactly the session it stored |
| `SchedulerLocks.MutualExclusion` | backend/app/core/scheduler.py:91-120 | between grant and release of a key there is at most one job |
| `SchedulerLocks.RunLocking` | backend/app/core/scheduler.py:88-120 | every interleaving keeps the invariant: a living session holds a lock once for the job that uses it and once more for each unlock that failed on it |
| `SchedulerLocks.StepLocking` | backend/app/core/scheduler.py:88-120 | so does every single step: pooled and new sessions, repeated grants, unlocks that fail or lose their session, sessions put back or ended |
| `SchedulerLocks.NothingLeaked` | backend/app/db/session.py:16-24 | when all jobs sleep no session is checked out, and a key is locked if and only if an unlock of it has failed on a session that still lives, as many times over as unlocks have failed there |
| `SchedulerLocks.LockedOut` | backend/app/core/scheduler.py:82-120 | after an unlock has failed on a session, as long as that session lives, the key is locked by it, granted only on it, and run under only on it |
| `SchedulerLocks.UnlockFails` | backend/app/core/scheduler.py:110-120 | a concrete run: one failed unlock leaves the key locked when all jobs sleep, refuses another worker, and is granted a second time to the same session |
| `SchedulerLocks.TryExactly` | backend/app/core/scheduler.py:88-108 | a lock is granted if and only if no other session holds it, once more than before |
| `SchedulerLocks.SessionsAtHome` | backend/app/db/session.py:16-24 | sessions are not passed between worker processes: whoever uses or pools one at any later moment is the worker that did before |
| `SchedulerLocks.RoundsApart` | backend/app/core/scheduler.py:123-166 | in every run every started sync round starts no earlier than those before it, and at least its interval after those of them whose time was stored |
| `SchedulerLocks.StartsExactly` | backend/app/core/scheduler.py:134-144 | after every run a job that holds the sync lock and checks starts a round if and only if every stored round of all workers started at least the interval ago |
| `SchedulerLocks.GapExactly` | backend/app/core/scheduler.py:140-166 | a run whose two rounds are a given gap apart exists if and only if the first was not stored or the gap is at least the interval: a failed round leaves no trace |
| `SchedulerLocks.RunRounds` | backend/app/core/scheduler.py:123-166 | at every moment the stored last run is that of the last stored round, and a round in progress is the last one started and not stored |
| `KaraPool.ConservedExactly` | backend/app/core/kara_pool.py:52-136 | over every run every connection created is in exactly one place at every moment (an idle bucket, an unreturned wrapper, the hands of a thread, what a thread in close_all has yet to close, closed) if and only if no thread sets the flag of a wrapper that another has set since it was read |
| `KaraPool.ExclusiveCloses` | backend/app/core/kara_pool.py:52-57 | that condition holds when at no moment two threads are inside close of one wrapper |
| `KaraPool.OverlappingCloses` | backend/app/core/kara_pool.py:52-57 | a concrete run in which two threads close one wrapper at once and its connection stands twice in the bucket |
| `KaraPool.RunOrderly` | backend/app/core/kara_pool.py:91-102 | in every run, overlaps or not, a bucket holds at most four connections in order of return |
| `KaraPool.NoSharing` | backend/app/core/kara_pool.py:91-136 | without an overlap no connection is with two callers or twice idle |
| `KaraPool.RunPool` | backend/app/core/kara_pool.py:91-136 | in every run in which no closes overlap, ledger and actual state agree in both directions and no bucket holds a connection twice; which key a connection is for is said by `KaraKeys.KeysKept` |
| `KaraPool.StepPool` | backend/app/core/kara_pool.py:91-136 | so does every single step |
| `KaraPool.ClosedForever` | backend/app/core/kara_pool.py:84-88 | without an overlap a closed connection is never idle or handed out again |
| `KaraPool.SecondCloseIdle` | backend/app/core/kara_pool.py:52-57 | a close that reads the flag after it was set, however much later and on whichever thread, changes nothing |
| `KaraPool.Pool.TakeOldest` | backend/app/core/kara_pool.py:112-114 | the step under the lock takes the oldest idle connection of the key and touches no other key |
| `KaraPool.Pool.PooledConnect` | backend/app/core/kara_pool.py:105-122 | run alone: the first usable idle connection is handed out, those before it are closed in order, a new one is made only when none is usable, and after a pooled hand-out none that has expired is left |
| `KaraPool.Pool.Release` | backend/app/core/kara_pool.py:91-102 | run alone: a connection is put back last, unless its rollback failed or the bucket is full |
| `KaraPool.FirstUsable` | backend/app/core/kara_pool.py:111-121 | the first idle connection that is neither expired nor dead |
| `KaraKeys.KeysKept` | backend/app/core/kara_pool.py:52-122 | in every run, overlapping closes or not: every wrapper, every bucket and every thread that has a connection in hand carries the key for which the connection was made, read off the operations |
| `KaraKeys.GivenAsAsked` | backend/app/core/kara_pool.py:105-122 | from a request for a key to the operation with which the thread gets its wrapper: the wrapper is new, carries that key, and its connection was made for that key |
| `KaraKeys.TestExactly` | backend/app/core/kara_pool.py:115-121 | a connection taken out is handed out if and only if it lives and has waited at most 300 seconds; otherwise it is closed and the thread looks on |
| `KaraKeys.TakeExactly` | backend/app/core/kara_pool.py:112-117 | the oldest idle connection of the key is taken; without one a new one is made |
| `KaraKeys.PutBackExactly` | backend/app/core/kara_pool.py:91-102 | a rolled-back connection goes to the end of its bucket unless four wait there already, and is closed then |
| `BackupSchedule.MostRecentGreatest` | backend/app/core/backup_schedule_logic.py:22-58 | for each kind of schedule the computed instant is scheduled, not after now, and the greatest such |
| `BackupSchedule.ScheduledExactly` | backend/app/core/backup_schedule_logic.py:61-101 | an instant is scheduled by its local clock time: each day, on the one weekday, or at whole multiples of the interval from midnight |
| `BackupSchedule.SettingsExactly` | backend/app/core/backup_schedule_logic.py:77-99 | for which settings there is a schedule at all |
| `BackupSchedule.DueExactly` | backend/app/core/backup_schedule_logic.py:61-101 | after a first run a backup is due if and only if a scheduled instant lies after the last run and not after now |
| `BackupSchedule.CaughtUp` | backend/app/core/backup_schedule_logic.py:61-101 | after any tick nothing scheduled up to it is still to be run |
| `BackupSchedule.RunsExactly` | backend/app/core/backup_schedule_logic.py:61-101 | over increasing ticks each tick, the first included, runs a backup if and only if a scheduled instant has come since the tick before it, for the first since the last run, or there has never been a run |
| `BackupSchedule.AtMostOneRun` | backend/app/core/backup_schedule_logic.py:61-101 | from one scheduled instant to the next at most one tick runs a backup |
| `BackupSchedule.FirstTickRuns` | backend/app/core/backup_schedule_logic.py:61-101 | and the first tick in between does run it, if an earlier run is known to lie before the instant |
| `BackupSchedule.EvenlySpaced` | backend/app/core/backup_schedule_logic.py:49-58 | interval backups are everywhere at least N hours apart if and only if N divides 24 |
| `SiteRoots.CollectRoots` | backend/app/core/org_tree.py:49-62 | one pass over the sites finds an owner of each root and exactly the codes that two sites share |
| `OrgTree.AssignUnitsToSites` | backend/app/core/org_tree.py:65-104 | for every parent table and every order of traversal: an error with exactly the shared roots, or for each code the site of the first root met when climbing from it |
| `OrgTree.AssignFromOwners` | backend/app/core/org_tree.py:75-104 | the memoised walk agrees with the naive climb on every code it answers, and answers exactly the stated codes |
| `OrgTree.ClimbPath` | backend/app/core/org_tree.py:79-98 | the inner loop stops at a root, a known code, the top or a cycle, and what it found is right for its whole path |
| `OrgTree.ResolveFrom` | backend/app/core/org_tree.py:75-104 | filling in a path keeps the memo right |
| `OrgTree.ChainOwner` | backend/app/core/org_tree.py:99-101 | all codes of a climbed path share the owner found behind its end |
| `OrgTree.CycleUnowned` | backend/app/core/org_tree.py:90-92 | the codes of a path that runs into itself without a root have no site |
| `OrgTree.LastRowDecides` | backend/app/core/org_tree.py:33-46 | the last row of a code decides its parent, rows without a code are skipped, and no unit is its own parent |
| `OrgTree.ParentsExactly` | backend/app/core/org_tree.py:23-46 | on the texts of the rows: a unit is in the table if and only if some row names it, white space around it or not, and the last such row tells its parent unless that is blank or the unit itself |
| `OrgTree.RootsExactly` | backend/app/core/org_tree.py:126-144 | the roots of a subtree are the texts that name a unit, trimmed |
| `OrgTree.BuildParentMap` | backend/app/core/org_tree.py:33-46 | the row loop computes the parent table |
| `OrgTree.BuildChildren` | backend/app/core/org_tree.py:109-112 | the inverted table lists each child under its parent |
| `OrgTree.SubtreeCodes` | backend/app/core/org_tree.py:126-144 | the depth-first descent finds exactly the normalised roots and what climbs to one of them, cycles or not |
| `OrgTree.Descend` | backend/app/core/org_tree.py:116-123 | the work-stack loop finds exactly the closure of what it starts from |
| `OrgTree.DescendantsCount` | backend/app/core/org_tree.py:107-123 | the count is the number of units that climb to the unit in one step or more |
| `OrgTree.CountAndSubtree` | backend/app/core/org_tree.py:107-144 | it is the size of the subtree without the unit, except on a parent cycle, where the unit counts itself |
| `OrgTree.UpDownDuality` | backend/app/core/org_tree.py:65-144 | a code gets a site if and only if it lies in the subtree of all roots together |
| `OrgTree.AssignedLiesBelow` | backend/app/core/org_tree.py:65-144 | a code assigned to a site lies in the subtree of that site's own roots |
| `OrgTree.SingleSiteCoincides` | backend/app/core/org_tree.py:65-144 | with one site assignment and subtree coincide |
| `JalaliCalendar.JalaliToGregorian` | backend/app/core/family_rules.py:235-263 | for every triple of integers: a valid Gregorian date whose day number, counted year by year and month by month, is the linear formula, or an error if and only if that day is outside the years 1 to 9999 |
| `JalaliCalendar.SplitYear` | backend/app/core/family_rules.py:243-255 | the successive divisions give the year and the day within it |
| `JalaliCalendar.SplitMonth` | backend/app/core/family_rules.py:256-263 | the month loop gives the month and the day within it |
| `JalaliCalendar.LinearDayNext` | backend/app/core/family_rules.py:239-242 | the formula grows by exactly one from each day of the Jalali calendar to the next, leap years of the 33-year cycle included |
| `JalaliCalendar.ConsecutiveDays` | backend/app/core/family_rules.py:235-263 | consecutive Jalali days convert to consecutive Gregorian days |
| `JalaliCalendar.NewYear1400` | backend/app/core/family_rules.py:235-263 | the two calendars are aligned: 1 Farvardin 1400 is 21 March 2021 |
| `JalaliCalendar.CountDays` | backend/app/core/family_rules.py:266-268 | the count of days, with the error of either conversion |
| `JalaliCalendar.DaysBetweenCounts` | backend/app/core/family_rules.py:266-268 | the count is the number of calendar days to step from one date to the other |
| `JalaliCalendar.DaysBetweenAdds` | backend/app/core/family_rules.py:266-268 | counts add up along dates in order |
| `JalaliCalendar.LinearDayOrdered` | backend/app/core/family_rules.py:239-242 | the formula orders real dates as the calendar does |
| `JalaliCalendar.ConversionCollides` | backend/app/core/family_rules.py:213-215 | two accepted dates convert to one day if and only if they are the same real day once 30 Esfand of a common year is read as the next New Year |
| `JalaliCalendar.ThirtiethOfEsfand1404` | backend/app/core/family_rules.py:213-215 | a concrete accepted date that is no real day and converts like the day after it |
| `JalaliDates.SeparatedReads` | backend/app/core/family_rules.py:195-206 | a date is read in every separated form: digits of any script, three separators, also mixed, month and day with or without a leading zero |
| `JalaliDates.CompactReads` | backend/app/core/family_rules.py:195-206 | eight digits in a row, of any script, are read as a date |
| `JalaliDates.ParseExactly` | backend/app/core/family_rules.py:195-206 | exactly which texts are read: a year of four digits, a month and a day with separators between them, or eight digits in a row, with white space around them or not, of the years 1300 to 1500; everything else is refused |
| `JalaliDates.FormatReads` | backend/app/core/family_rules.py:195-210 | a date written out reads back as the same date |
| `JalaliDates.NormalizeStable` | backend/app/core/loan_rules.py:219-221 | normalising a normalised date changes nothing |
| `JalaliDates.FormatOrdered` | backend/app/core/loan_rules.py:219-221 | stored dates compare as text if and only if they compare as dates |
| `JalaliDates.AddMonthsLands` | backend/app/core/family_rules.py:218-224 | a shifted date lies exactly that many months on, and its day is the old one as far as the month has it, never later than 29 Esfand |
| `JalaliDates.AddMonthsTwice` | backend/app/core/family_rules.py:218-224 | shifting twice is shifting once if and only if the first shift cuts off no day that the second month has |
| `JalaliDates.AddMonthsBack` | backend/app/core/family_rules.py:218-224 | a shift can be taken back if and only if neither month is too short for the day |
| `JalaliDates.AddMonthsGrows` | backend/app/core/family_rules.py:218-224 | more months mean a later date |
| `JalaliDates.AgeGreatest` | backend/app/core/family_rules.py:227-232 | the age is the greatest number of years whose anniversary has come |
| `JalaliDates.AgeGrows` | backend/app/core/family_rules.py:227-232 | ages never fall with time and an elder child is never the younger in years |
| `ShiftHours.AcceptedExactlyInsideShift` | backend/app/core/leave_request_rules.py:175-193 | a leave is accepted if and only if on the shift axis it is a non-empty part of the shift but not the whole |
| `ShiftHours.AcceptedLeave` | backend/app/core/leave_request_rules.py:38-193 | for every window built from clock times and every accepted leave: the stored duration is the minute distance on the axis, positive and below the shift, and the axis start is the clock start plus 24 hours times the day offset |
| `ShiftHours.ExitExactlyAfterShift` | backend/app/core/leave_request_rules.py:196-211 | an exit is permitted if and only if on the axis it is not before the end of the shift; without a shift it is always permitted |
| `ShiftHours.DurationOnAxis` | backend/app/core/leave_request_rules.py:38-51 | the duration across midnight is the distance on the axis in compact form |
| `ShiftHours.CompactRoundTrip` | backend/app/core/leave_request_rules.py:26-35 | minutes to compact time and back |
| `ShiftHours.MinutesRoundTrip` | backend/app/core/leave_request_rules.py:26-35 | compact time to minutes and back |
| `ShiftHours.MinutesOrdered` | backend/app/core/leave_request_rules.py:26-35 | both notations order times alike |
| `ShiftHours.WindowTimes` | backend/app/core/leave_request_rules.py:72-88 | the bounds of every window built from clock times |
| `ShiftHours.WindowExactly` | backend/app/core/leave_request_rules.py:72-88 | which days are days off, which have no known shift, and what the shift is otherwise, in minutes |
| `ShiftHours.RefusedLeave` | backend/app/core/leave_request_rules.py:175-193 | which error a leave gets: a day off, an end not after the start, a part outside the shift, or the whole shift |
| `FileSearch.Contains` | backend/app/core/oa_file_rules.py:187-199 | for any file, chunk size from one, blocks the reads deliver and patterns: true if and only if the file is not empty and some pattern is a contiguous part of it |
| `FileSearch.FoundInWindow` | backend/app/core/oa_file_rules.py:194-199 | keeping one byte less than the longest pattern is enough: an occurrence is old, or lies in the kept tail and the new block |
| `FileSearch.TailExtends` | backend/app/core/oa_file_rules.py:199 | the tail of tail and block is the tail of everything read |
| `BankChecks.IsValidCard` | backend/app/core/bank_rules.py:64-76 | the loop accepts exactly sixteen decimal digits, of whatever script, with a Luhn sum divisible by ten |
| `BankChecks.LuhnPairs` | backend/app/core/bank_rules.py:68-76 | the Luhn sum read from the left in pairs, for an even number of digits |
| `BankChecks.LuhnDetectsChange` | backend/app/core/bank_rules.py:68-76 | a changed digit changes the check if and only if its value changes, in digit strings of any length |
| `BankChecks.LuhnDetectsSwap` | backend/app/core/bank_rules.py:68-76 | exchanging neighbours changes the check if and only if they differ in value and are not 0 and 9 |
| `BankChecks.LuhnCheckDigitUnique` | backend/app/core/bank_rules.py:68-76 | every prefix has exactly one check digit |
| `BankChecks.CardChangeCaught` | backend/app/core/bank_rules.py:64-76 | one changed character of a valid card number passes if and only if it is a digit of the same value, in the same or another script |
| `BankChecks.OtherScriptAccepted` | backend/app/core/bank_rules.py:64-76 | a concrete valid card number that stays accepted with a Devanagari five for its last digit |
| `BankChecks.CardSwapCaught` | backend/app/core/bank_rules.py:64-76 | exchanged neighbours of a valid card number pass if and only if they are equal in value or 0 and 9 |
| `BankChecks.CheckedNumber` | backend/app/core/bank_rules.py:55-57 | the rearranged and expanded text is the account part, 1827 and the check digits |
| `BankChecks.Mod97DetectsChange` | backend/app/core/bank_rules.py:55-57 | a changed digit changes the residue if and only if its value changes, in digit strings of any length |
| `BankChecks.Mod97DetectsSwap` | backend/app/core/bank_rules.py:55-57 | exchanging neighbours changes the residue if and only if they differ in value |
| `BankChecks.ShebaChangeCaught` | backend/app/core/bank_rules.py:51-57 | one changed character of a valid IBAN passes if and only if it is a digit of the same value, at any of the 26 places |
| `BankChecks.ShebaSwapCaught` | backend/app/core/bank_rules.py:51-57 | exchanged neighbours of a valid IBAN pass if and only if they are the same digit, at any place: account part, check digits, the border of the two, and the letters |
| `BankChecks.ShebaCheckDigits` | backend/app/core/bank_rules.py:51-57 | exactly which check digits an account part is accepted with: those of the standard, and 00, 01, 99 in place of 97, 98, 02 |
| `BankChecks.AliasesAccepted` | backend/app/core/bank_rules.py:51-57 | three concrete accepted IBANs with the check digits 00, 01 and 99 |
| `LoanSchedule.BuildInstallments` | backend/app/core/loan_rules.py:177-216 | the first error in order, a first month whose digits cannot be read among them, or a schedule in which positive amounts add up to the loan, all but the last are equal, the last is within its bounds, and the due months are consecutive |
| `LoanSchedule.RefusedExactly` | backend/app/core/loan_rules.py:177-210 | a request for a schedule is refused if and only if something is wrong with it, each condition on the inputs, and the error is the first thing that is |
| `LoanSchedule.DueMonthly` | backend/app/core/loan_rules.py:211-216 | the month loop agrees with the numbering of months, across year ends |
| `LoanSchedule.OneWayByCount` | backend/app/core/loan_rules.py:193-201 | there is only one schedule by number with these properties |
| `LoanSchedule.OneWayByAmount` | backend/app/core/loan_rules.py:202-210 | there is only one by amount, and its length is the quotient rounded up |
| `LoanSchedule.RoundedShareSuffices` | backend/app/core/loan_rules.py:193-210 | sharing by the rounded-up share of a number never needs more instalments than that number |
| `LoanSchedule.DueMonthsOrdered` | backend/app/services/loan_service.py:1573 | due months compare as text as they follow each other, and the text of a payslip month is before a due month if and only if that month is later |
| `LoanSchedule.FirstMonthReads` | backend/app/core/loan_rules.py:163-174 | a month in the documented form is read as itself |
| `LoanSchedule.MonthExactly` | backend/app/core/loan_rules.py:163-174 | exactly which texts are read as a first month, and as which |
| `LoanSchedule.UnreadableExactly` | backend/app/core/loan_rules.py:163-174 | exactly which raise the value error |
| `LoanSchedule.SuperscriptMonth` | backend/app/core/loan_rules.py:163-174 | a concrete first month, a superscript two after the slash, that raises a value error instead of the rule error |
| `Months.MonthTextOrdered` | backend/app/core/loan_rules.py:163-216 | months compare as text exactly as in time, and equal texts are equal months |
| `LoanSchedule.TooMany` | backend/app/core/loan_rules.py:206-208 | the limit on the number of instalments as a condition on loan and amount |
| `Payslip.PayslipLoans` | backend/app/core/loan_rules.py:278-332 | the whole reading: loan rows selected, layout chosen, loans without an amount left out, or the value error exactly when an amount of digit characters cannot be read |
| `Payslip.ReadColumns` | backend/app/core/loan_rules.py:296-318 | the loop with its flushes reads the column layout, or raises, as specified |
| `Payslip.ReadLabelled` | backend/app/core/loan_rules.py:320-327 | the loop reads the label layout, or raises, as specified |
| `Payslip.ColumnRoundTrip` | backend/app/core/loan_rules.py:278-332 | any list of loans written as columns, among rows of other sections and other rows of the loan section, is read back exactly |
| `Payslip.LabelRoundTrip` | backend/app/core/loan_rules.py:278-332 | the same for the label layout, among blank and total rows, with any number of remainder rows after a loan, of which the first readable one counts |
| `Payslip.ColumnsReadBack` | backend/app/core/loan_rules.py:278-332 | the written columns of any list of loans with trimmed names and positive amounts are read back |
| `Payslip.LabelsReadBack` | backend/app/core/loan_rules.py:319-332 | the written label rows of any list of loans whose names can stand as labels are read back |
| `Payslip.NoColumns` | backend/app/core/loan_rules.py:294-327 | a payslip without any loan column gives no loan if and only if no named row of the loan section holds an amount |
| `Payslip.EverythingRead` | backend/app/core/loan_rules.py:302-318 | in whatever order columns come, nothing a row says is overwritten, lost or read twice |
| `Payslip.ReadProper` | backend/app/core/loan_rules.py:328-332 | whatever the payslip, if it is read at all: names are trimmed, amounts positive and short enough to be read again |
| `Payslip.SectionExactly` | backend/app/core/loan_rules.py:288-292 | which rows are read: those whose section holds the word for a loan and does not begin with two underscores |
| `Payslip.KindExactly` | backend/app/core/loan_rules.py:302-317 | what a caption makes of a row in the column layout |
| `Payslip.MeantExactly` | backend/app/core/loan_rules.py:320-323 | which rows the label layout passes over: those without a caption and the totals |
| `Payslip.AmountDecides` | backend/app/core/loan_rules.py:328-332 | a draft is a loan if and only if its amount could be read and is positive |
| `Payslip.SeparatorsDropped` | backend/app/core/loan_rules.py:247-252 | of a number only the Latin, the Arabic and the Persian comma go |
| `Payslip.ReadingIsStable` | backend/app/core/loan_rules.py:278-332 | writing what was read from any payslip and reading it again gives the same loans |
| `Payslip.GroupedReads` | backend/app/core/loan_rules.py:247-252 | a number printed with thousands separators reads as the number if and only if it is within the length the conversion accepts; a longer one raises |
| `Payslip.SuperscriptRaises` | backend/app/core/loan_rules.py:247-252 | a concrete amount at which the reading raises |
| `Payslip.OtherRowRead` | backend/app/core/loan_rules.py:294-327 | a concrete payslip without loan columns of which another row is read as a loan |
| `ChildAllowance.EvaluateChildren` | backend/app/core/family_rules.py:843-907 | every child with its age, verdict and reason in birth order; a child receives if and only if it passes and fewer passing children than the limit are elder; the count is the limit or the number of passing ones |
| `ChildAllowance.BlockedExactly` | backend/app/core/family_rules.py:849-873 | an employee is blocked if and only if something stands against the employee, each condition on the data, and the first such thing is reported |
| `ChildAllowance.PrecedesExactly` | backend/app/core/family_rules.py:875-876 | the elder comes first, children without a birth date last, and otherwise the order of entry decides |
| `ChildAllowance.ByBirthOrdered` | backend/app/core/family_rules.py:875-876 | the sort is by birth date, equal dates in the order of entry, children without a date last |
| `ChildAllowance.ElderIsPrefix` | backend/app/core/family_rules.py:876-895 | the counter of the loop is the number of elder passing children |
| `ChildAllowance.RaisedLimitKeeps` | backend/app/core/family_rules.py:892-895 | raising or lifting the limit takes the allowance from no child |
| `ChildAllowance.EldestFirst` | backend/app/core/family_rules.py:892-895 | a passing child that goes without is younger than every child that receives |
| `ChildAllowance.QualifiesExactly` | backend/app/core/family_rules.py:910-948 | a child qualifies if and only if nothing speaks against it, each condition on the data and the rule for sons or daughters; otherwise the first reason is given that does |
| `ChildAllowance.QualifiesEarlier` | backend/app/core/family_rules.py:910-958 | with unchanged data a child once born only ever loses the allowance as time passes |
| `Strings.ParseDecimal` | backend/app/core/loan_rules.py:247-252 | a printed number reads back as the number |
| `Strings.SplitJoins` | backend/app/core/oa_html.py:45 | the parts of a split text hold no separator and joined by it are the text |
| `Strings.ThreeScripts` | backend/app/core/loan_rules.py:247-250 | Persian and Arabic digits become the ASCII digit of the same number, and nothing else changes |
| `Strings.LetterCase` | backend/app/core/oa_html.py:49 | capitals become the letter at the same place of the alphabet, and other ASCII characters stay |

## Left out

- Tokenisation of raw HTML by the standard parser: the cleaners start from its events. `MarkupText.Tokenize` reads only the HTML that the cleaners write.
- Lower case beyond what is compared with ASCII words, and the full tables of digits and word characters beyond ASCII, which are arbitrary constants here. The limit of 4300 digits is Python's default.
- OaHtml.SanitizeRaises: says that the run of handlers raises, not how the callers of the entry point answer it.
- Object identity of database rows: a table is a map from ids to values, so two references to one row object, the session's identity map and lazy loading are not captured.
- Bulk calls hold their row locks until one commit. In the protocol a bulk call is one operation for all its rows, or one for each.
- Notifications, labels, notes and the texts of log entries.
- Changes of the window and the cap while requests exist, and `ON DELETE SET NULL` on a stored approver. Both are assumed not to happen.
- The choice of the employee's group and its tiers is an input, and so is the hire date once read.
- Who may approve, the approver of the leave chain and the substitute are arbitrary answers of the outside world, fixed during one call.
- SchedulerLocks.OneBodyPerKey: a session that breaks while its job's body runs is not modelled; it may be lost at the unlock or while idle. The clocks of the workers are one clock that never goes back.
- Other users of the connection pool, its size and its waiting: a job gets any idle session of its worker or a new one.
- The class form of the scheduler: the worker dictionary and the database locks are one state machine, because what matters are the interleavings.
- KaraPool.Pool.PooledConnect: describes one thread running alone; interleaved runs are covered by the state machine.
- Daylight saving time in Tehran: local time is a fixed distance from UTC. Hours since midnight are exact, not floating point.
- Unit codes as numbers: a code is text, so a decimal 12.0 is not brought to 12.
- OrgTree.AssignUnitsToSites: a parent that no row describes gets an answer only when a unit that is no root names it, as in the source.
- The marriage allowance, warnings, document periods and the validation of family data.
- Which of several portal loans a payslip row belongs to, and the month of a payslip.
- Labels, remaining rules and Excel export of loans and advances; file formats, archives and images of attachments.
- Access control, accounts, captcha, encryption and request signing.
