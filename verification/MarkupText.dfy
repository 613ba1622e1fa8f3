/** Words of tags and text as strings. */
module MarkupText {
  // `Tokenize` reads the HTML that the cleaners write, as the standard parser does with character references converted:
  // it is defined on that fragment only and yields None elsewhere. With it idempotence is a statement about strings.

  import opened Common
  import opened Characters
  import opened Strings
  import opened TagWord
  import opened Transducer

  type Markup<T> = seq<Piece<T, seq<Attr>>>

  /** How tags are spelled. */
  datatype Spelling<!T(==)> = Spelling(name: T -> string, named: string -> Option<T>)

  // ---------- writing ----------

  /** `html.escape`; quotes are escaped in attribute values only. */
  function EscapeChar(c: char, quotes: bool): string {
    if c == '&' then "&amp;"
    else if c == '<' then "&lt;"
    else if c == '>' then "&gt;"
    else if quotes && c == '"' then "&quot;"
    else if quotes && c == '\'' then "&#x27;"
    else [c]
  }

  function Escape(s: string, quotes: bool): string {
    if s == "" then "" else EscapeChar(s[0], quotes) + Escape(s[1..], quotes)
  }

  /** The five characters with a meaning in HTML become their references, quotes only where they are to be escaped; any other
      character stays. */
  lemma {:induction false} EscapedCharacters(c: char)
    requires c != '&' && c != '<' && c != '>' && c != '"' && c != '\''
    ensures forall quotes ::
              && Escape("&", quotes) == "&amp;" && Escape("<", quotes) == "&lt;" && Escape(">", quotes) == "&gt;"
              && Escape("\"", quotes) == (if quotes then "&quot;" else "\"")
              && Escape("'", quotes) == (if quotes then "&#x27;" else "'")
              && Escape([c], quotes) == [c]
  {
    forall d: char, quotes
      ensures Escape([d], quotes) == EscapeChar(d, quotes)
    {
      assert [d][1..] == "";
      assert Escape("", quotes) == "";
    }
  }

  function RenderAttr(attr: Attr): string {
    " " + attr.name + "=\"" + Escape(attr.value, true) + "\""
  }

  function RenderAttrs(attrs: seq<Attr>): string {
    if attrs == [] then "" else RenderAttr(attrs[0]) + RenderAttrs(attrs[1..])
  }

  function RenderTag<T(==)>(sp: Spelling<T>, tag: T, attrs: seq<Attr>): string {
    "<" + (sp.name(tag) + RenderAttrs(attrs)) + ">"
  }

  function RenderPiece<T(==)>(sp: Spelling<T>, piece: Piece<T, seq<Attr>>): string {
    match piece
    case Open(tag, attrs) => RenderTag(sp, tag, attrs)
    case Close(tag) => "<" + ("/" + sp.name(tag)) + ">"
    case Void(tag, attrs) => RenderTag(sp, tag, attrs)
    case Text(data) => Escape(data, false)
  }

  function Render<T(==)>(sp: Spelling<T>, word: Markup<T>): string {
    if word == [] then "" else RenderPiece(sp, word[0]) + Render(sp, word[1..])
  }

  // ---------- reading ----------

  /** Character references of escaped text, converted back. */
  function Unescape(s: string): string {
    if s == "" then ""
    else if |s| >= 5 && s[..5] == "&amp;" then "&" + Unescape(s[5..])
    else if |s| >= 4 && s[..4] == "&lt;" then "<" + Unescape(s[4..])
    else if |s| >= 4 && s[..4] == "&gt;" then ">" + Unescape(s[4..])
    else if |s| >= 6 && s[..6] == "&quot;" then "\"" + Unescape(s[6..])
    else if |s| >= 6 && s[..6] == "&#x27;" then "'" + Unescape(s[6..])
    else [s[0]] + Unescape(s[1..])
  }

  /** A quoted value and what follows it. */
  function ReadQuoted(s: string): (r: Option<(string, string)>)
    ensures r.Some? ==> |r.value.1| < |s|
  {
    if s == "" || s[0] != '"' || '"' !in s[1..] then None
    else
      var quote := IndexOf(s[1..], '"');
      Some((Unescape(s[1..][..quote]), s[1..][quote + 1..]))
  }

  /** ` name="value"` repeated. */
  function ReadAttrs(s: string): Option<seq<Attr>>
    decreases |s|
  {
    if s == "" then Some([])
    else if s[0] != ' ' || '=' !in s then None
    else
      var eq := IndexOf(s, '=');
      match ReadQuoted(s[eq + 1..])
      case None => None
      case Some((value, rest)) =>
        match ReadAttrs(rest)
        case None => None
        case Some(more) => Some([Attr(s[1..eq], value)] + more)
  }

  /** The text between `<` and `>`. */
  function ReadTag<T(==)>(sp: Spelling<T>, inner: string): Option<Event<T>> {
    if inner != "" && inner[0] == '/' then
      match sp.named(inner[1..])
      case None => None
      case Some(tag) => Some(End(tag))
    else
      var n := if ' ' in inner then IndexOf(inner, ' ') else |inner|;
      match (sp.named(inner[..n]), ReadAttrs(inner[n..]))
      case (Some(tag), Some(attrs)) => Some(Start(tag, attrs))
      case _ => None
  }

  function Tokenize<T(==)>(sp: Spelling<T>, s: string): Option<seq<Event<T>>>
    decreases |s|
  {
    if s == "" then Some([])
    else if s[0] == '<' then
      if '>' !in s then None
      else
        var close := IndexOf(s, '>');
        match (ReadTag(sp, s[1..close]), Tokenize(sp, s[close + 1..]))
        case (Some(event), Some(more)) => Some([event] + more)
        case _ => None
    else
      var n := if '<' in s then IndexOf(s, '<') else |s|;
      match Tokenize(sp, s[n..])
      case None => None
      case Some(more) => Some([Data(Unescape(s[..n]))] + more)
  }

  lemma {:induction false} RenderAttrsSnoc(attrs: seq<Attr>, last: Attr)
    ensures RenderAttrs(attrs + [last]) == RenderAttrs(attrs) + RenderAttr(last)
    ensures RenderAttr(last) != ""
  {
    if attrs == [] {
      assert attrs + [last] == [last] && [last][1..] == [];
      assert RenderAttr(last)[0] == ' ';
    } else {
      RenderAttrsSnoc(attrs[1..], last);
      hide RenderAttr;
      assert (attrs + [last])[1..] == attrs[1..] + [last];
    }
  }

  // ---------- escaping ----------

  /** A reference differs from every other within its first three characters. */
  lemma UnescapeReference(e: string, c: char, rest: string)
    requires (e, c) == ("&amp;", '&') || (e, c) == ("&lt;", '<') || (e, c) == ("&gt;", '>')
          || (e, c) == ("&quot;", '"') || (e, c) == ("&#x27;", '\'')
    ensures Unescape(e + rest) == [c] + Unescape(rest)
  {
    var s := e + rest;
    assert s[..|e|] == e && s[|e|..] == rest && s[1] == e[1];
    if |s| >= 6 {
      assert s[..6][1] == s[1] && s[..5][1] == s[1] && s[..4][1] == s[1];
    } else if |s| >= 5 {
      assert s[..5][1] == s[1] && s[..4][1] == s[1];
    }
  }

  lemma UnescapeOrdinary(c: char, rest: string)
    requires c != '&'
    ensures Unescape([c] + rest) == [c] + Unescape(rest)
  {
    var s := [c] + rest;
    assert s[0] == c && s[1..] == rest;
    assert |s| >= 4 ==> s[..4][0] == c;
    assert |s| >= 5 ==> s[..5][0] == c;
    assert |s| >= 6 ==> s[..6][0] == c;
  }

  lemma UnescapeChar(c: char, quotes: bool, rest: string)
    ensures Unescape(EscapeChar(c, quotes) + rest) == [c] + Unescape(rest)
  {
    hide Unescape;
    if EscapeChar(c, quotes) == [c] {
      UnescapeOrdinary(c, rest);
    } else {
      UnescapeReference(EscapeChar(c, quotes), c, rest);
    }
  }

  /** Escaped text reads back as the text. */
  lemma {:induction false} UnescapeEscape(s: string, quotes: bool)
    ensures Unescape(Escape(s, quotes)) == s
  {
    hide Unescape, EscapeChar;
    if s == "" {
      assert Unescape("") == "" by { UnescapeNothing(); }
    } else {
      UnescapeEscape(s[1..], quotes);
      UnescapeChar(s[0], quotes, Escape(s[1..], quotes));
    }
  }

  lemma UnescapeNothing()
    ensures Unescape("") == ""
  {
  }

  lemma EscapeCharPlain(c: char, quotes: bool)
    ensures var e := EscapeChar(c, quotes); '<' !in e && '>' !in e && (quotes ==> '"' !in e) && e != ""
  {
  }

  /** Escaped text can neither open nor close a tag, and an escaped value cannot end before its quote. */
  lemma {:induction false} EscapePlain(s: string, quotes: bool)
    ensures '<' !in Escape(s, quotes) && '>' !in Escape(s, quotes)
    ensures quotes ==> '"' !in Escape(s, quotes)
    ensures |Escape(s, quotes)| >= |s|
  {
    hide EscapeChar;
    if s != "" {
      EscapePlain(s[1..], quotes);
      EscapeCharPlain(s[0], quotes);
    }
  }

  lemma {:induction false} EscapeConcat(a: string, b: string, quotes: bool)
    ensures Escape(a + b, quotes) == Escape(a, quotes) + Escape(b, quotes)
  {
    hide EscapeChar;
    if a == "" {
      assert a + b == b;
    } else {
      EscapeConcat(a[1..], b, quotes);
      assert (a + b)[1..] == a[1..] + b;
      assert Escape(a + b, quotes) == EscapeChar(a[0], quotes) + Escape(a[1..] + b, quotes);
    }
  }

  /** A value without special characters is written as it is. */
  lemma {:induction false} NothingEscaped(s: string, quotes: bool)
    requires forall i :: 0 <= i < |s| ==> s[i] != '&' && s[i] != '<' && s[i] != '>' && s[i] != '"' && s[i] != '\''
    ensures Escape(s, quotes) == s
  {
    if s != "" {
      NothingEscaped(s[1..], quotes);
    }
  }

  lemma {:induction false} AmpersandsGrow(s: string)
    requires forall i :: 0 <= i < |s| ==> s[i] == '&'
    ensures |Escape(s, false)| == 5 * |s| && Trimmed(Escape(s, false))
    ensures s != "" ==> Escape(s, false)[0] == '&' && Escape(s, false)[|Escape(s, false)| - 1] == ';'
  {
    if s != "" {
      AmpersandsGrow(s[1..]);
    }
  }

  lemma {:induction false} RenderConcat<T>(sp: Spelling<T>, a: Markup<T>, b: Markup<T>)
    ensures Render(sp, a + b) == Render(sp, a) + Render(sp, b)
  {
    hide RenderPiece;
    if a == [] {
      assert a + b == b;
    } else {
      RenderConcat(sp, a[1..], b);
      assert (a + b)[1..] == a[1..] + b;
      assert Render(sp, a + b) == RenderPiece(sp, a[0]) + Render(sp, a[1..] + b);
    }
  }

  // ---------- reading back what was written ----------

  /** The name is its own and nobody else's, and can stand in a tag. */
  predicate Spelled<T(==)>(sp: Spelling<T>, tag: T) {
    var name := sp.name(tag);
    && sp.named(name) == Some(tag)
    && name != "" && name[0] != '/' && ' ' !in name && '>' !in name && '<' !in name
  }

  predicate PlainName(name: string) {
    '=' !in name && '>' !in name && '<' !in name
  }

  predicate PlainNames(attrs: seq<Attr>) {
    forall i :: 0 <= i < |attrs| ==> PlainName(attrs[i].name)
  }

  /** A piece as the cleaners write it. */
  predicate Readable<T(==)>(sp: Spelling<T>, piece: Piece<T, seq<Attr>>) {
    match piece
    case Open(tag, attrs) => Spelled(sp, tag) && PlainNames(attrs)
    case Close(tag) => Spelled(sp, tag)
    case Void(tag, attrs) => Spelled(sp, tag) && PlainNames(attrs)
    case Text(data) => data != ""
  }

  /** No text piece directly follows another. */
  predicate Merged<T(==)>(word: Markup<T>) {
    forall i :: 0 <= i < |word| - 1 ==> !(word[i].Text? && word[i + 1].Text?)
  }

  lemma ReadQuotedBack(value: string, rest: string)
    ensures ReadQuoted("\"" + Escape(value, true) + "\"" + rest) == Some((value, rest))
  {
    hide Unescape, Escape;
    var quoted := Escape(value, true);
    var s := "\"" + quoted + "\"" + rest;
    EscapePlain(value, true);
    UnescapeEscape(value, true);
    IndexAfter(quoted, '"', rest);
    assert s[1..] == quoted + ['"'] + rest;
    assert s[1..][..|quoted|] == quoted && s[1..][|quoted| + 1..] == rest;
  }

  lemma AttrParts(attr: Attr, rest: string)
    requires PlainName(attr.name)
    ensures var s := RenderAttr(attr) + rest;
            && s != "" && s[0] == ' ' && '=' in s && IndexOf(s, '=') == |attr.name| + 1
            && s[1..|attr.name| + 1] == attr.name
            && s[|attr.name| + 2..] == "\"" + Escape(attr.value, true) + "\"" + rest
  {
    hide Escape;
    var name, quoted := attr.name, "\"" + Escape(attr.value, true) + "\"" + rest;
    var s := (" " + name) + ['='] + quoted;
    IndexAfter(" " + name, '=', quoted);
    CutAfter(" " + name, '=', quoted);
    assert RenderAttr(attr) + rest == s;
    assert s[..|name| + 1] == " " + name;
    assert s[1..|name| + 1] == s[..|name| + 1][1..];
  }

  lemma {:induction false} ReadAttrsCons(attr: Attr, rest: string, more: seq<Attr>)
    requires PlainName(attr.name)
    requires ReadAttrs(rest) == Some(more)
    ensures ReadAttrs(RenderAttr(attr) + rest) == Some([attr] + more)
  {
    hide ReadQuoted, Escape, RenderAttr, IndexOf;
    ReadQuotedBack(attr.value, rest);
    AttrParts(attr, rest);
  }

  lemma {:induction false} ReadAttrsBack(attrs: seq<Attr>)
    requires PlainNames(attrs)
    ensures ReadAttrs(RenderAttrs(attrs)) == Some(attrs)
  {
    hide RenderAttr, ReadQuoted, PlainName;
    if attrs != [] {
      ReadAttrsBack(attrs[1..]);
      ReadAttrsCons(attrs[0], RenderAttrs(attrs[1..]), attrs[1..]);
      assert attrs == [attrs[0]] + attrs[1..];
    }
  }

  lemma RenderAttrPlain(attr: Attr)
    requires PlainName(attr.name)
    ensures '>' !in RenderAttr(attr) && '<' !in RenderAttr(attr)
    ensures RenderAttr(attr) != "" && RenderAttr(attr)[0] == ' '
  {
    hide Escape;
    EscapePlain(attr.value, true);
  }

  lemma {:induction false} RenderAttrsPlain(attrs: seq<Attr>)
    requires PlainNames(attrs)
    ensures '>' !in RenderAttrs(attrs) && '<' !in RenderAttrs(attrs)
    ensures attrs != [] ==> RenderAttrs(attrs) != "" && RenderAttrs(attrs)[0] == ' '
  {
    hide RenderAttr, PlainName;
    if attrs != [] {
      RenderAttrsPlain(attrs[1..]);
      RenderAttrPlain(attrs[0]);
    }
  }

  lemma EmptyAttrs()
    ensures RenderAttrs([]) == ""
  {
  }

  lemma {:induction false} ReadStartTag<T>(sp: Spelling<T>, tag: T, attrs: seq<Attr>)
    requires Spelled(sp, tag) && PlainNames(attrs)
    ensures '>' !in sp.name(tag) + RenderAttrs(attrs)
    ensures ReadTag(sp, sp.name(tag) + RenderAttrs(attrs)) == Some(Start(tag, attrs))
  {
    hide ReadAttrs, RenderAttrs, PlainNames;
    var name, tail := sp.name(tag), RenderAttrs(attrs);
    var inner := name + tail;
    RenderAttrsPlain(attrs);
    ReadAttrsBack(attrs);
    if attrs == [] {
      EmptyAttrs();
      assert inner == name && inner[|name|..] == "";
    } else {
      assert tail == [' '] + tail[1..];
      assert inner == name + [' '] + tail[1..];
      IndexAfter(name, ' ', tail[1..]);
    }
    assert inner[..|name|] == name && inner[|name|..] == tail;
  }

  lemma {:induction false} ReadEndTag<T>(sp: Spelling<T>, tag: T)
    requires Spelled(sp, tag)
    ensures '>' !in "/" + sp.name(tag)
    ensures ReadTag(sp, "/" + sp.name(tag)) == Some(End(tag))
  {
    assert ("/" + sp.name(tag))[1..] == sp.name(tag);
  }

  /** A tag at the front is one token. */
  lemma {:induction false} TokenizeTag<T>(
    sp: Spelling<T>, inner: string, event: Event<T>, rest: string, more: seq<Event<T>>
  )
    requires '>' !in inner && ReadTag(sp, inner) == Some(event)
    requires Tokenize(sp, rest) == Some(more)
    ensures Tokenize(sp, "<" + inner + ">" + rest) == Some([event] + more)
  {
    hide ReadTag;
    var s := "<" + inner + ">" + rest;
    IndexAfter("<" + inner, '>', rest);
    assert s == ("<" + inner) + ['>'] + rest;
    assert s[1..|inner| + 1] == inner;
    assert s[|inner| + 2..] == rest;
  }

  /** Text up to the next tag is one token. */
  lemma {:induction false} TokenizeText<T>(sp: Spelling<T>, data: string, rest: string, more: seq<Event<T>>)
    requires data != ""
    requires rest == "" || rest[0] == '<'
    requires Tokenize(sp, rest) == Some(more)
    ensures Tokenize(sp, Escape(data, false) + rest) == Some([Data(data)] + more)
  {
    hide Escape, Unescape, ReadTag;
    var text := Escape(data, false);
    var s := text + rest;
    EscapePlain(data, false);
    UnescapeEscape(data, false);
    assert text[0] in text;
    if rest != "" {
      assert s == text + ['<'] + rest[1..];
      IndexAfter(text, '<', rest[1..]);
    } else {
      assert s == text;
    }
    assert s[..|text|] == text && s[|text|..] == rest;
  }

  lemma {:induction false} RenderHead<T>(sp: Spelling<T>, word: Markup<T>)
    ensures word == [] || !word[0].Text? ==> Render(sp, word) == "" || Render(sp, word)[0] == '<'
  {
    hide RenderAttrs, Escape;
  }

  lemma {:induction false} TokenizePiece<T>(
    sp: Spelling<T>, piece: Piece<T, seq<Attr>>, rest: string, more: seq<Event<T>>
  )
    requires Readable(sp, piece)
    requires piece.Text? ==> rest == "" || rest[0] == '<'
    requires Tokenize(sp, rest) == Some(more)
    ensures Tokenize(sp, RenderPiece(sp, piece) + rest) == Some([ToEvent(piece)] + more)
  {
    hide Tokenize, ReadTag, RenderAttrs, Escape, PlainNames, Spelled;
    match piece
    case Open(tag, attrs) =>
      ReadStartTag(sp, tag, attrs);
      TokenizeTag(sp, sp.name(tag) + RenderAttrs(attrs), Start(tag, attrs), rest, more);
    case Close(tag) =>
      ReadEndTag(sp, tag);
      TokenizeTag(sp, "/" + sp.name(tag), End(tag), rest, more);
    case Void(tag, attrs) =>
      ReadStartTag(sp, tag, attrs);
      TokenizeTag(sp, sp.name(tag) + RenderAttrs(attrs), Start(tag, attrs), rest, more);
    case Text(data) =>
      TokenizeText(sp, data, rest, more);
  }

  /** The tokens of a rendered word are its pieces. */
  lemma {:induction false} TokenizeRender<T>(sp: Spelling<T>, word: Markup<T>)
    requires Merged(word) && forall i :: 0 <= i < |word| ==> Readable(sp, word[i])
    ensures Tokenize(sp, Render(sp, word)) == Some(Events(word))
  {
    hide Readable, RenderPiece;
    if word != [] {
      var rest := word[1..];
      TokenizeRender(sp, rest);
      RenderHead(sp, rest);
      assert Readable(sp, word[0]);
      TokenizePiece(sp, word[0], Render(sp, rest), Events(rest));
      assert Events(word) == [ToEvent(word[0])] + Events(rest);
    }
  }

  // ---------- adjacent texts are one text ----------

  function Merge<T(==)>(word: Markup<T>): Markup<T> {
    if word == [] then []
    else
      var rest := Merge(word[1..]);
      if word[0].Text? && rest != [] && rest[0].Text? then [Text(word[0].data + rest[0].data)] + rest[1..]
      else [word[0]] + rest
  }

  lemma {:induction false} MergeMerged<T>(word: Markup<T>)
    ensures Merged(Merge(word))
  {
    if word != [] {
      var rest := Merge(word[1..]);
      MergeMerged(word[1..]);
      if word[0].Text? && rest != [] && rest[0].Text? {
        assert Merge(word)[1..] == rest[1..];
        assert forall i :: 1 <= i < |rest| ==> Merge(word)[i] == rest[i];
      } else {
        assert forall i :: 0 <= i < |rest| ==> Merge(word)[i + 1] == rest[i];
      }
    }
  }

  lemma {:induction false} MergeRender<T>(sp: Spelling<T>, word: Markup<T>)
    ensures Render(sp, Merge(word)) == Render(sp, word)
  {
    hide Escape, RenderTag;
    if word != [] {
      var rest := Merge(word[1..]);
      MergeRender(sp, word[1..]);
      if word[0].Text? && rest != [] && rest[0].Text? {
        EscapeConcat(word[0].data, rest[0].data, false);
        assert Merge(word)[1..] == rest[1..];
      } else {
        assert Merge(word)[1..] == rest;
      }
    }
  }

  lemma {:induction false} MergeStable<T(!new)>(l: Language<T>, word: Markup<T>)
    ensures Stable(l, Merge(word)) <==> Stable(l, word)
  {
    if word != [] {
      var head, tail, rest := word[0], word[1..], Merge(word[1..]);
      MergeStable(l, tail);
      assert word == [head] + tail;
      StableCons(l, head, tail);
      if head.Text? && rest != [] && rest[0].Text? {
        StableCons(l, rest[0], rest[1..]);
        assert rest == [rest[0]] + rest[1..];
        StableCons(l, Text(head.data + rest[0].data), rest[1..]);
      } else {
        StableCons(l, head, rest);
      }
    }
  }

  lemma {:induction false} StableCons<T(!new)>(l: Language<T>, head: Piece<T, seq<Attr>>, tail: Markup<T>)
    ensures Stable(l, [head] + tail) <==> Recleaned(l, head) == head && Stable(l, tail)
  {
    var word := [head] + tail;
    assert word[0] == head && forall i :: 0 <= i < |tail| ==> word[i + 1] == tail[i];
    if Stable(l, word) {
      assert forall i :: 0 <= i < |tail| ==> Recleaned(l, tail[i]) == tail[i] by {
        forall i | 0 <= i < |tail|
          ensures Recleaned(l, tail[i]) == tail[i]
        {
          assert Recleaned(l, word[i + 1]) == word[i + 1];
        }
      }
    }
  }

  /** Two texts in a row, or one text of both, leave the same elements open. */
  lemma {:induction false} TextsOpen<T(!new)>(l: Language<T>, front: Markup<T>, a: string, b: string)
    requires WritesFit(l)
    requires OpenTags(l.fits, front + [Text(a)] + [Text(b)]).Some?
    ensures OpenTags(l.fits, front + [Text(a)] + [Text(b)]) == OpenTags(l.fits, front + [Text(a + b)])
  {
    OpenTagsPrefix(l.fits, front + [Text(a)] + [Text(b)], |front|);
    OpenTagsPrefix(l.fits, front + [Text(a)] + [Text(b)], |front| + 1);
    assert (front + [Text(a)] + [Text(b)])[..|front|] == front;
    assert (front + [Text(a)] + [Text(b)])[..|front| + 1] == front + [Text(a)];
    OpenTagsSnoc(l.fits, front, Text(a));
    OpenTagsSnoc(l.fits, front + [Text(a)], Text(b));
    OpenTagsSnoc(l.fits, front, Text(a + b));
  }

  lemma {:induction false} MergeOpen<T(!new)>(l: Language<T>, front: Markup<T>, word: Markup<T>)
    requires WritesFit(l) && OpenTags(l.fits, front + word).Some?
    ensures OpenTags(l.fits, front + Merge(word)) == OpenTags(l.fits, front + word)
    decreases |word|
  {
    hide OpenTags, WritesFit;
    if word != [] {
      var rest := Merge(word[1..]);
      assert front + word == front + [word[0]] + word[1..];
      MergeOpen(l, front + [word[0]], word[1..]);
      if word[0].Text? && rest != [] && rest[0].Text? {
        MergeTexts(l, front, word[0].data, rest);
      } else {
        assert front + Merge(word) == front + [word[0]] + rest;
      }
    }
  }

  lemma {:induction false} MergeTexts<T(!new)>(l: Language<T>, front: Markup<T>, a: string, rest: Markup<T>)
    requires WritesFit(l) && rest != [] && rest[0].Text?
    requires OpenTags(l.fits, front + [Text(a)] + rest).Some?
    ensures OpenTags(l.fits, front + ([Text(a + rest[0].data)] + rest[1..])) == OpenTags(l.fits, front + [Text(a)] + rest)
  {
    hide OpenTags, WritesFit;
    var b := rest[0].data;
    var two := front + [Text(a)] + [Text(b)];
    assert front + [Text(a)] + rest == two + rest[1..];
    OpenTagsPrefix(l.fits, two + rest[1..], |two|);
    assert (two + rest[1..])[..|two|] == two;
    TextsOpen(l, front, a, b);
    OpenTagsCongruent(l.fits, two, front + [Text(a + b)], rest[1..]);
    assert front + ([Text(a + b)] + rest[1..]) == front + [Text(a + b)] + rest[1..];
  }

  // ---------- trimming the rendered text trims the first and the last piece ----------

  function TrimFirst<T(==)>(word: Markup<T>): Markup<T> {
    if word == [] || !word[0].Text? then word
    else
      var data := StripLeft(word[0].data);
      (if data == "" then [] else [Text(data)]) + word[1..]
  }

  function TrimLast<T(==)>(word: Markup<T>): Markup<T> {
    if word == [] || !word[|word| - 1].Text? then word
    else
      var data := StripRight(word[|word| - 1].data);
      word[..|word| - 1] + (if data == "" then [] else [Text(data)])
  }

  lemma {:induction false} StripLeftOne(c: char, s: string)
    ensures StripLeft([c] + s) == if IsSpace(c) then StripLeft(s) else [c] + s
    ensures StripLeft(EscapeChar(c, false) + s) == if IsSpace(c) then StripLeft(s) else EscapeChar(c, false) + s
  {
    assert ([c] + s)[1..] == s;
  }

  lemma {:induction false} StripLeftEscape(data: string, rest: string)
    requires rest == "" || !IsSpace(rest[0])
    ensures StripLeft(Escape(data, false) + rest) == Escape(StripLeft(data), false) + rest
  {
    hide StripLeft, EscapeChar;
    if data == "" {
      assert Escape(data, false) + rest == rest;
    } else {
      var first, tail := data[0], data[1..];
      assert data == [first] + tail;
      StripLeftOne(first, tail);
      StripLeftOne(first, Escape(tail, false) + rest);
      assert Escape(data, false) + rest == EscapeChar(first, false) + (Escape(tail, false) + rest);
      if IsSpace(first) {
        StripLeftEscape(tail, rest);
      }
    }
  }

  lemma {:induction false} StripRightOne(s: string, c: char)
    ensures StripRight(s + [c]) == if IsSpace(c) then StripRight(s) else s + [c]
    ensures StripRight(s + EscapeChar(c, false)) == if IsSpace(c) then StripRight(s) else s + EscapeChar(c, false)
  {
    assert (s + [c])[..|s|] == s;
  }

  lemma {:induction false} StripRightEscape(rest: string, data: string)
    requires rest == "" || !IsSpace(rest[|rest| - 1])
    ensures StripRight(rest + Escape(data, false)) == rest + Escape(StripRight(data), false)
  {
    hide StripRight, EscapeChar;
    if data == "" {
      assert rest + Escape(data, false) == rest;
    } else {
      var front, last := data[..|data| - 1], data[|data| - 1];
      assert data == front + [last];
      EscapeSnoc(front, last);
      assert rest + Escape(data, false) == (rest + Escape(front, false)) + EscapeChar(last, false);
      StripRightOne(rest + Escape(front, false), last);
      StripRightOne(front, last);
      if IsSpace(last) {
        StripRightEscape(rest, front);
      }
    }
  }

  lemma {:induction false} EscapeSnoc(s: string, c: char)
    ensures Escape(s + [c], false) == Escape(s, false) + EscapeChar(c, false)
  {
    EscapeConcat(s, [c], false);
    EscapeOne(c);
  }

  lemma EscapeOne(c: char)
    ensures Escape([c], false) == EscapeChar(c, false)
  {
    assert [c][1..] == "";
  }

  lemma EscapeEmpty()
    ensures Escape("", false) == ""
  {
  }

  lemma {:induction false} TrimFirstRender<T>(sp: Spelling<T>, word: Markup<T>)
    requires Merged(word)
    ensures Render(sp, TrimFirst(word)) == StripLeft(Render(sp, word))
  {
    hide Escape, StripLeft, RenderTag;
    RenderHead(sp, word);
    if word != [] && word[0].Text? {
      RenderHead(sp, word[1..]);
      StripLeftEscape(word[0].data, Render(sp, word[1..]));
      var data := StripLeft(word[0].data);
      if data == "" {
        EscapeEmpty();
        assert TrimFirst(word) == word[1..];
      } else {
        assert ([Text(data)] + word[1..])[1..] == word[1..];
      }
    }
  }

  lemma RenderOne<T>(sp: Spelling<T>, piece: Piece<T, seq<Attr>>)
    ensures Render(sp, [piece]) == RenderPiece(sp, piece)
  {
    assert [piece][1..] == [];
  }

  lemma {:induction false} RenderSnoc<T>(sp: Spelling<T>, word: Markup<T>)
    requires word != []
    ensures Render(sp, word) == Render(sp, word[..|word| - 1]) + RenderPiece(sp, word[|word| - 1])
  {
    hide Render, RenderPiece;
    RenderConcat(sp, word[..|word| - 1], [word[|word| - 1]]);
    RenderOne(sp, word[|word| - 1]);
    assert word == word[..|word| - 1] + [word[|word| - 1]];
  }

  lemma {:induction false} RenderEnd<T>(sp: Spelling<T>, word: Markup<T>)
    ensures word == [] || !word[|word| - 1].Text? ==>
              Render(sp, word) == "" || !IsSpace(Render(sp, word)[|Render(sp, word)| - 1])
  {
    hide Render, RenderAttrs, Escape;
    if word == [] {
      RenderNothing(sp);
    } else {
      RenderSnoc(sp, word);
    }
  }

  lemma RenderNothing<T>(sp: Spelling<T>)
    ensures Render(sp, []) == ""
  {
  }

  lemma {:induction false} TrimLastRender<T>(sp: Spelling<T>, word: Markup<T>)
    requires Merged(word)
    ensures Render(sp, TrimLast(word)) == StripRight(Render(sp, word))
  {
    hide Escape, Render, RenderTag;
    RenderEnd(sp, word);
    if word != [] && word[|word| - 1].Text? {
      var front, data := word[..|word| - 1], StripRight(word[|word| - 1].data);
      RenderEnd(sp, front);
      RenderSnoc(sp, word);
      StripRightEscape(Render(sp, front), word[|word| - 1].data);
      if data == "" {
        EscapeEmpty();
        assert TrimLast(word) == front;
      } else {
        RenderSnoc(sp, TrimLast(word));
        assert TrimLast(word)[..|front|] == front;
      }
    }
  }

  lemma {:induction false} OneText<T(!new)>(l: Language<T>, data: string)
    requires WritesFit(l)
    ensures OpenTags(l.fits, [Text(data)]) == if data == "" then None else Some([])
  {
    var none: Markup<T> := [];
    OpenTagsSnoc(l.fits, none, Text(data));
    assert none + [Text(data)] == [Text(data)];
  }

  lemma {:induction false} OtherFirstText<T(!new)>(l: Language<T>, a: string, b: string, rest: Markup<T>)
    requires WritesFit(l) && Clean(l, [Text(a)] + rest)
    ensures b == "" ==> Clean(l, rest)
    ensures b != "" ==> Clean(l, [Text(b)] + rest)
  {
    var none: Markup<T> := [];
    assert OpenTags(l.fits, none) == Some([]);
    hide OpenTags, WritesFit;
    OneText(l, a);
    OneText(l, b);
    OpenTagsPrefix(l.fits, [Text(a)] + rest, 1);
    assert ([Text(a)] + rest)[..1] == [Text(a)];
    if b == "" {
      OpenTagsCongruent(l.fits, [Text(a)], none, rest);
      assert none + rest == rest;
    } else {
      OpenTagsCongruent(l.fits, [Text(a)], [Text(b)], rest);
    }
  }

  lemma {:induction false} OtherFirstMerged<T>(a: string, b: string, rest: Markup<T>)
    requires Merged([Text(a)] + rest)
    ensures Merged(rest) && Merged([Text(b)] + rest)
  {
    var word, other := [Text(a)] + rest, [Text(b)] + rest;
    forall i | 0 <= i < |rest|
      ensures !(other[i].Text? && other[i + 1].Text?)
    {
      assert !(word[i].Text? && word[i + 1].Text?);
    }
    forall i | 0 <= i < |rest| - 1
      ensures !(rest[i].Text? && rest[i + 1].Text?)
    {
      assert !(word[i + 1].Text? && word[i + 1 + 1].Text?);
    }
  }

  lemma {:induction false} TrimFirstClean<T(!new)>(l: Language<T>, word: Markup<T>)
    requires WritesFit(l) && Clean(l, word) && Merged(word)
    ensures Clean(l, TrimFirst(word)) && Merged(TrimFirst(word))
    ensures Stable(l, TrimFirst(word)) <==> Stable(l, word)
  {
    hide WritesFit, Clean, Merged, Stable, StripLeft;
    if word != [] && word[0].Text? {
      var a, rest := word[0].data, word[1..];
      var b := StripLeft(a);
      assert word == [Text(a)] + rest;
      OtherFirstText(l, a, b, rest);
      OtherFirstMerged(a, b, rest);
      TextStable(l, a, rest);
      TextStable(l, b, rest);
      assert TrimFirst(word) == if b == "" then rest else [Text(b)] + rest;
    }
  }

  lemma {:induction false} TextStable<T(!new)>(l: Language<T>, data: string, rest: Markup<T>)
    ensures Stable(l, [Text(data)] + rest) <==> Stable(l, rest)
  {
    StableCons(l, Text(data), rest);
  }

  lemma {:induction false} StableText<T(!new)>(l: Language<T>, front: Markup<T>, data: string)
    ensures Stable(l, front + [Text(data)]) <==> Stable(l, front)
  {
    var word := front + [Text(data)];
    assert forall i :: 0 <= i < |front| ==> word[i] == front[i];
    if Stable(l, word) {
      forall i | 0 <= i < |front|
        ensures Recleaned(l, front[i]) == front[i]
      {
        assert Recleaned(l, word[i]) == word[i];
      }
    }
  }

  lemma {:induction false} TrimLastClean<T(!new)>(l: Language<T>, word: Markup<T>)
    requires WritesFit(l) && Clean(l, word) && Merged(word)
    ensures Clean(l, TrimLast(word)) && Merged(TrimLast(word))
    ensures Stable(l, TrimLast(word)) <==> Stable(l, word)
  {
    hide OpenTags, Stable;
    if word != [] && word[|word| - 1].Text? {
      var front, last := word[..|word| - 1], word[|word| - 1];
      var data := StripRight(last.data);
      OpenTagsPrefix(l.fits, word, |front|);
      OpenTagsSnoc(l.fits, front, last);
      assert word == front + [last];
      StableText(l, front, last.data);
      assert Clean(l, front);
      if data != "" {
        OpenTagsSnoc(l.fits, front, Text(data));
        StableText(l, front, data);
      } else {
        assert TrimLast(word) == front;
      }
    }
  }

  lemma {:induction false} MergeClean<T(!new)>(l: Language<T>, word: Markup<T>)
    requires WritesFit(l) && Clean(l, word)
    ensures Clean(l, Merge(word))
  {
    assert [] + word == word && [] + Merge(word) == Merge(word);
    MergeOpen(l, [], word);
  }

  /** Trimming the rendered string is rendering a word that is still clean, with the same tags. */
  lemma {:induction false} FinalWord<T(!new)>(l: Language<T>, sp: Spelling<T>, word: Markup<T>)
    requires WritesFit(l) && Clean(l, word)
    ensures var final := TrimLast(TrimFirst(Merge(word)));
            && Clean(l, final) && Merged(final) && Render(sp, final) == Strip(Render(sp, word))
            && (Stable(l, final) <==> Stable(l, word))
  {
    hide Clean, Merged, Render, Stable, WritesFit;
    var merged := Merge(word);
    MergeMerged(word);
    MergeRender(sp, word);
    MergeClean(l, word);
    MergeStable(l, word);
    TrimFirstClean(l, merged);
    TrimFirstRender(sp, merged);
    TrimLastClean(l, TrimFirst(merged));
    TrimLastRender(sp, TrimFirst(merged));
  }

  // ---------- the second pass ----------

  /** What is written can be read back: tags are spelled and attribute names plain. */
  ghost predicate ReadsBack<T(!new)>(l: Language<T>, sp: Spelling<T>) {
    && (forall open, tag, attrs :: l.nested(open) && l.fits(open, Open(tag, attrs)) ==> Readable(sp, Open(tag, attrs)))
    && (forall open, tag, attrs :: l.nested(open) && l.fits(open, Void(tag, attrs)) ==> Readable(sp, Void(tag, attrs)))
    && (forall open :: l.nested(open) && open != [] ==> Spelled(sp, open[|open| - 1]))
  }

  /** Cleaning the attributes of a written piece once more shortens them, or leaves them alone. */
  ghost predicate Shrinks<T(!new)>(l: Language<T>) {
    && (forall open, tag, attrs :: l.fits(open, Open(tag, attrs)) ==> Shorter(l.clean(tag, attrs), attrs))
    && (forall open, tag, attrs :: l.fits(open, Void(tag, attrs)) ==> Shorter(l.clean(tag, attrs), attrs))
  }

  predicate Shorter(a: seq<Attr>, b: seq<Attr>) {
    a == b || |RenderAttrs(a)| < |RenderAttrs(b)|
  }

  ghost predicate Lawful<T(!new)>(l: Language<T>, sp: Spelling<T>) {
    WritesFit(l) && StaysNested(l) && Rewrites(l) && ReadsBack(l, sp) && Shrinks(l)
  }

  lemma {:induction false} PieceReadable<T(!new)>(
    l: Language<T>, sp: Spelling<T>, open: seq<T>, piece: Piece<T, seq<Attr>>
  )
    requires WritesFit(l) && ReadsBack(l, sp) && l.nested(open) && ReadPiece(l.fits, open, piece).Some?
    ensures Readable(sp, piece)
  {
    hide Spelled;
    match piece
    case Text(data) => assert l.fits(open, Text(data)) ==> data != "";
    case _ =>
  }

  lemma {:induction false} CleanReadable<T(!new)>(l: Language<T>, sp: Spelling<T>, word: Markup<T>)
    requires Lawful(l, sp) && OpenTags(l.fits, word).Some?
    ensures forall i :: 0 <= i < |word| ==> Readable(sp, word[i])
  {
    hide Readable, WritesFit, StaysNested, Rewrites, ReadsBack, Shrinks, ReadPiece;
    if word != [] {
      var front := word[..|word| - 1];
      CleanReadable(l, sp, front);
      OpenNested(l, front);
      PieceReadable(l, sp, OpenTags(l.fits, front).value, word[|word| - 1]);
      assert forall i :: 0 <= i < |front| ==> word[i] == front[i];
    }
  }

  lemma {:induction false} PieceShorter<T(!new)>(
    l: Language<T>, sp: Spelling<T>, open: seq<T>, piece: Piece<T, seq<Attr>>
  )
    requires Shrinks(l) && ReadPiece(l.fits, open, piece).Some?
    ensures Recleaned(l, piece) == piece || |RenderPiece(sp, Recleaned(l, piece))| < |RenderPiece(sp, piece)|
  {
    hide RenderAttrs, Escape;
  }

  /** Cleaning a clean word once more leaves it alone or makes it shorter. */
  lemma {:induction false} WordShorter<T(!new)>(l: Language<T>, sp: Spelling<T>, word: Markup<T>)
    requires Shrinks(l) && OpenTags(l.fits, word).Some?
    ensures |Render(sp, AllRecleaned(l, word))| <= |Render(sp, word)|
    ensures |Render(sp, AllRecleaned(l, word))| == |Render(sp, word)| ==> Stable(l, word)
  {
    hide Shrinks, RenderPiece, Recleaned, Render, ReadPiece;
    if word != [] {
      var front, last := word[..|word| - 1], word[|word| - 1];
      WordShorter(l, sp, front);
      PieceShorter(l, sp, OpenTags(l.fits, front).value, last);
      RenderSnoc(sp, word);
      RenderSnoc(sp, AllRecleaned(l, word));
      assert AllRecleaned(l, word)[..|word| - 1] == AllRecleaned(l, front);
      assert forall i :: 0 <= i < |front| ==> word[i] == front[i];
    }
  }

  lemma StripShorter(s: string)
    ensures |Strip(s)| <= |s|
  {
    hide Strip;
    var before, after := StripCut(s);
  }

  /** On strings: the tokens of a cleaned text are cleaned without an error, and to the same text exactly when no
      attribute of the first pass changes when it is cleaned once more. */
  lemma {:induction false} CleanedAgain<T(!new)>(l: Language<T>, sp: Spelling<T>, events: seq<Event<T>>)
    requires Lawful(l, sp) && Sanitize(l, events).Some?
    ensures var word := Sanitize(l, events).value;
            var text := Strip(Render(sp, word));
            && Tokenize(sp, text).Some?
            && Sanitize(l, Tokenize(sp, text).value).Some?
            && (Strip(Render(sp, Sanitize(l, Tokenize(sp, text).value).value)) == text <==> Stable(l, word))
  {
    hide Clean, Sanitize, Render, Merged, Readable, Stable, WritesFit, StaysNested, Rewrites, ReadsBack, Shrinks, Strip;
    var word := Sanitize(l, events).value;
    SanitizedClean(l, events);
    FinalWord(l, sp, word);
    var final := TrimLast(TrimFirst(Merge(word)));
    FinalAgain(l, sp, final, Render(sp, word));
    CleanFedBack(l, final);
  }

  lemma {:induction false} FinalAgain<T(!new)>(l: Language<T>, sp: Spelling<T>, final: Markup<T>, raw: string)
    requires Lawful(l, sp) && Clean(l, final) && Merged(final) && Render(sp, final) == Strip(raw)
    ensures Tokenize(sp, Render(sp, final)) == Some(Events(final))
    ensures Strip(Render(sp, AllRecleaned(l, final))) == Render(sp, final) <==> Stable(l, final)
  {
    hide Render, Merged, Readable, WritesFit, StaysNested, Rewrites, ReadsBack, Shrinks, Strip;
    CleanReadable(l, sp, final);
    TokenizeRender(sp, final);
    WordShorter(l, sp, final);
    StripShorter(Render(sp, AllRecleaned(l, final)));
    if Stable(l, final) {
      assert AllRecleaned(l, final) == final;
      StripTwice(raw);
    }
  }

  lemma StripTwice(s: string)
    ensures Strip(Strip(s)) == Strip(s)
  {
  }
}
