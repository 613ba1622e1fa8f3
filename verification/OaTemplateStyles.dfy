/** What a template style can hold. */
module OaTemplateStyles {
  // The promise of the style cleaner (`clean_style` of backend/app/core/oa_template_html.py), over the characters of
  // what it writes: nothing is loaded from outside, and nothing leaves its declaration. The properties, words and
  // characters are written out here a second time.

  import opened Common
  import opened Characters
  import opened Strings
  import opened StyleDeclarations
  import opened OaTemplateAttributes
  import FileSearch

  const FORBIDDEN := [
    "expression", "javascript", "vbscript", "@import", "\\", "<", ">", "/*", "*/", "behavior", "binding"]

  /** The word stands at the position, in any case. */
  predicate Spells(s: string, i: nat, word: string) {
    i + |word| <= |s| && forall k :: 0 <= k < |word| ==> Fold(s[i + k]) == word[k]
  }

  /** Nowhere do `url`, perhaps white space, and an opening bracket stand one after the other; nowhere does a forbidden word
      stand. */
  ghost predicate Harmless(s: string) {
    && (forall i: nat, j: nat :: Spells(s, i, "url") && i + 3 <= j < |s| && AllSpace(s[i + 3..j]) ==> s[j] != '(')
    && (forall word, i: nat :: word in FORBIDDEN ==> !Spells(s, i, word))
  }

  /** Word characters, white space, the Arabic block, and some marks. */
  predicate StyleChar(c: char) {
    || IsWord(c) || IsSpace(c) || '\U{600}' <= c <= '\U{6FF}'
    || c == '#' || c == '%' || c == '.' || c == ',' || c == '(' || c == ')' || c == '-' || c == '+'
    || c == '\'' || c == '"' || c == '!'
  }

  predicate Offered(p: string) {
    Text(p) || Border(p) || Spacing(p) || Size(p) || Flex(p) || Layout(p)
  }

  predicate Text(p: string) {
    || p == "text-align" || p == "vertical-align" || p == "font-size" || p == "font-weight" || p == "font-style"
    || p == "color" || p == "background-color"
  }

  predicate Border(p: string) {
    || p == "border" || p == "border-top" || p == "border-right" || p == "border-bottom" || p == "border-left"
    || p == "border-color" || p == "border-width" || p == "border-style" || p == "border-radius"
    || p == "border-collapse" || p == "border-spacing"
  }

  predicate Spacing(p: string) {
    || p == "padding" || p == "padding-top" || p == "padding-right" || p == "padding-bottom" || p == "padding-left"
    || p == "margin" || p == "margin-top" || p == "margin-right" || p == "margin-bottom" || p == "margin-left"
  }

  predicate Size(p: string) {
    || p == "width" || p == "height" || p == "max-width" || p == "max-height" || p == "min-width"
    || p == "min-height"
  }

  predicate Flex(p: string) {
    || p == "display" || p == "flex" || p == "flex-direction" || p == "flex-wrap" || p == "justify-content"
    || p == "align-items" || p == "align-self" || p == "gap"
  }

  predicate Layout(p: string) {
    || p == "line-height" || p == "letter-spacing" || p == "direction" || p == "white-space" || p == "object-fit"
    || p == "text-decoration" || p == "box-sizing" || p == "table-layout" || p == "overflow"
  }

  predicate Displays(value: string) {
    var v := Lower(value);
    || v == "block" || v == "inline" || v == "inline-block" || v == "flex" || v == "inline-flex" || v == "table"
    || v == "table-row" || v == "table-cell" || v == "none"
  }

  /** What a declaration has to meet to be written. */
  ghost predicate Meets(property: string, value: string) {
    && Offered(property)
    && value != "" && |value| <= 200
    && Harmless(value)
    && (forall i :: 0 <= i < |value| ==> StyleChar(value[i]))
    && (property == "display" ==> Displays(value))
  }

  // ---------- the two readings of a forbidden value ----------

  lemma FoldKeeps(c: char)
    ensures IsSpace(Fold(c)) == IsSpace(c) && (Fold(c) == '(' <==> c == '(')
  {
  }

  lemma {:induction false} SpellsOccurs(s: string, word: string)
    ensures FileSearch.Occurs(word, FoldAll(s)) <==> exists i: nat :: Spells(s, i, word)
  {
    var f := FoldAll(s);
    if i :| 0 <= i <= |f| && FileSearch.OccursAt(word, f, i) {
      assert Spells(s, i, word);
    }
    if i: nat :| Spells(s, i, word) {
      assert FileSearch.OccursAt(word, f, i);
    }
  }

  lemma {:induction false} FoldedSpace(s: string)
    ensures AllSpace(FoldAll(s)) == AllSpace(s)
  {
    hide Fold;
    forall i | 0 <= i < |s|
      ensures IsSpace(FoldAll(s)[i]) == IsSpace(s[i])
    {
      FoldKeeps(s[i]);
    }
  }

  /** The bracket after white space, read from the left. */
  lemma {:induction false} AfterSpace(s: string)
    ensures StripLeft(s) != "" && StripLeft(s)[0] == '(' <==> exists j :: 0 <= j < |s| && AllSpace(s[..j]) && s[j] == '('
  {
    var cut := StripLeftCut(s);
    var k := |cut|;
    assert s[..k] == cut && s[k..] == StripLeft(s);
    if StripLeft(s) != "" {
      assert s[k] == StripLeft(s)[0];
    }
    if j :| 0 <= j < |s| && AllSpace(s[..j]) && s[j] == '(' {
      if j < k {
        assert IsSpace(cut[j]);
      } else if j > k {
        assert IsSpace(s[..j][k]);
      }
    }
  }

  lemma {:induction false} UrlSpelled(s: string, i: nat)
    requires i + 3 <= |s|
    ensures UrlAt(FoldAll(s), i)
       <==> Spells(s, i, "url") && exists j: nat :: i + 3 <= j < |s| && AllSpace(s[i + 3..j]) && s[j] == '('
  {
    var f := FoldAll(s);
    hide StripLeft, AllSpace;
    AfterSpace(f[i + 3..]);
    assert f[i..i + 3] == "url" <==> Spells(s, i, "url");
    forall j: nat | i + 3 <= j < |s|
      ensures AllSpace(f[i + 3..][..j - (i + 3)]) == AllSpace(s[i + 3..j]) && (f[j] == '(' <==> s[j] == '(')
    {
      assert f[i + 3..][..j - (i + 3)] == FoldAll(s[i + 3..j]);
      FoldedSpace(s[i + 3..j]);
      FoldKeeps(s[j]);
    }
    var rest := f[i + 3..];
    if k :| 0 <= k < |rest| && AllSpace(rest[..k]) && rest[k] == '(' {
      assert AllSpace(s[i + 3..i + 3 + k]) && s[i + 3 + k] == '(';
    }
    if j: nat :| i + 3 <= j < |s| && AllSpace(s[i + 3..j]) && s[j] == '(' {
      assert AllSpace(f[i + 3..][..j - (i + 3)]) && f[i + 3..][j - (i + 3)] == '(';
    }
  }

  lemma SameWords()
    ensures BAD_WORDS == FORBIDDEN
  {
  }

  lemma SameProperties(property: string)
    ensures property in CSS_PROPERTIES <==> Offered(property)
  {
    hide Text, Border, Spacing, Size, Flex, Layout, TEXT_PROPERTIES, BORDER_PROPERTIES, SPACING_PROPERTIES, SIZE_PROPERTIES, LAYOUT_PROPERTIES, OTHER_PROPERTIES;
    SameText(property);
    SameBorder(property);
    SameSpacing(property);
    SameSize(property);
    SameFlex(property);
    SameLayout(property);
  }

  lemma SameText(p: string)
    ensures p in TEXT_PROPERTIES <==> Text(p)
  {
  }

  lemma SameBorder(p: string)
    ensures p in BORDER_PROPERTIES <==> Border(p)
  {
  }

  lemma SameSpacing(p: string)
    ensures p in SPACING_PROPERTIES <==> Spacing(p)
  {
  }

  lemma SameSize(p: string)
    ensures p in SIZE_PROPERTIES <==> Size(p)
  {
  }

  lemma SameFlex(p: string)
    ensures p in LAYOUT_PROPERTIES <==> Flex(p)
  {
  }

  lemma SameLayout(p: string)
    ensures p in OTHER_PROPERTIES <==> Layout(p)
  {
  }

  lemma {:induction false} BadExactly(value: string)
    ensures BadValue(value) <==> !Harmless(value)
  {
    SameWords();
    hide UrlAt, Spells, AllSpace;
    var f := FoldAll(value);
    forall i: nat | i + 3 <= |value|
      ensures UrlAt(f, i)
         <==> Spells(value, i, "url") && exists j: nat :: i + 3 <= j < |value| && AllSpace(value[i + 3..j]) && value[j] == '('
    {
      UrlSpelled(value, i);
    }
    forall word | word in FORBIDDEN
      ensures FileSearch.Occurs(word, f) <==> exists i: nat :: Spells(value, i, word)
    {
      SpellsOccurs(value, word);
    }
    hide FORBIDDEN;
    hide FileSearch.Occurs;
    if !Harmless(value) {
      if i: nat, j: nat :| Spells(value, i, "url") && i + 3 <= j < |value| && AllSpace(value[i + 3..j]) && value[j] == '(' {
        assert UrlAt(f, i);
      }
    }
  }

  lemma SameChars(value: string)
    ensures PlainStyleValue(value) <==> forall i :: 0 <= i < |value| ==> StyleChar(value[i])
  {
    forall c
      ensures ValueChar(c) <==> StyleChar(c)
    {
      Marks(c);
    }
    hide ValueChar, StyleChar;
  }

  lemma Marks(c: char)
    ensures c in "#%.,()-+'\"!" <==> c == '#' || c == '%' || c == '.' || c == ',' || c == '(' || c == ')' || c == '-' || c == '+'
                                      || c == '\'' || c == '"' || c == '!'
  {
  }

  lemma {:induction false} AcceptedExactly(property: string, value: string)
    ensures AcceptedDecl(property, value) <==> Meets(property, value)
  {
    SameProperties(property);
    BadExactly(value);
    SameChars(value);
    SameDisplays(value);
    hide BadValue, Harmless, PlainStyleValue, StyleChar, Displays, CSS_PROPERTIES, Offered, DISPLAY_VALUES;
  }

  lemma SameDisplays(value: string)
    ensures Lower(value) in DISPLAY_VALUES <==> Displays(value)
  {
    hide Lower;
  }

  /** A declaration is written, with its property in lower case, exactly when it meets the conditions. */
  lemma {:induction false} DeclarationWritten(left: string, right: string)
    requires ':' !in left
    ensures var property, value := Lower(Strip(left)), Strip(right);
            && (Meets(property, value) ==> CleanDecl(left + [':'] + right) == Some(property + ": " + value))
            && (!Meets(property, value) ==> CleanDecl(left + [':'] + right) == None)
  {
    hide Property, Value, AcceptedDecl, Meets, Lower, Strip;
    CutAtColon(left, right);
    AcceptedExactly(Lower(Strip(left)), Strip(right));
  }

  // ---------- the whole style ----------

  /** Neither a colon nor a semicolon stands in a forbidden word, in `url` or in white space, so each part can be read on its
      own. */
  lemma {:induction false} HarmlessJoined(a: string, c: char, b: string)
    requires Harmless(a) && Harmless(b) && (c == ':' || c == ';')
    ensures Harmless(a + [c] + b)
  {
    var s := a + [c] + b;
    forall word, i: nat | word in FORBIDDEN
      ensures !Spells(s, i, word)
    {
      NoSeparator(word);
      SpelledIn(a, c, b, i, word);
    }
    forall i: nat, j: nat | Spells(s, i, "url") && i + 3 <= j < |s| && AllSpace(s[i + 3..j])
      ensures s[j] != '('
    {
      UrlIn(a, c, b, i, j);
    }
  }

  lemma NoSeparator(word: string)
    requires word in FORBIDDEN || word == "url"
    ensures word != "" && ':' !in word && ';' !in word && ' ' !in word
  {
  }

  lemma {:induction false} SpelledIn(a: string, c: char, b: string, i: nat, word: string)
    requires word != "" && c !in word && (c == ':' || c == ';')
    ensures Spells(a + [c] + b, i, word) ==> Spells(a, i, word) || (i > |a| && Spells(b, i - |a| - 1, word))
  {
    var s := a + [c] + b;
    SpelledChar(s, i, word, |a|);
    if Spells(s, i, word) && i + |word| <= |a| {
      forall k | 0 <= k < |word|
        ensures Fold(a[i + k]) == word[k]
      {
        assert Fold(s[i + k]) == word[k];
      }
    }
    if Spells(s, i, word) && i > |a| {
      forall k | 0 <= k < |word|
        ensures Fold(b[i - |a| - 1 + k]) == word[k]
      {
        assert Fold(s[i + k]) == word[k];
      }
    }
  }

  lemma {:induction false} SpelledChar(s: string, i: nat, word: string, m: nat)
    ensures Spells(s, i, word) ==> i + |word| <= |s|
    ensures Spells(s, i, word) && i <= m < i + |word| ==> Fold(s[m]) == word[m - i] && word[m - i] in word
  {
    if Spells(s, i, word) && i <= m < i + |word| {
      assert Fold(s[i + (m - i)]) == word[m - i];
    }
  }

  lemma {:induction false} UrlIn(a: string, c: char, b: string, i: nat, j: nat)
    requires Harmless(a) && Harmless(b) && (c == ':' || c == ';')
    requires var s := a + [c] + b; Spells(s, i, "url") && i + 3 <= j < |s| && AllSpace(s[i + 3..j])
    ensures (a + [c] + b)[j] != '('
  {
    var s := a + [c] + b;
    NoSeparator("url");
    SpelledIn(a, c, b, i, "url");
    if j < |a| {
      assert a[i + 3..j] == s[i + 3..j];
    } else if i > |a| {
      assert b[i - |a| - 1 + 3..j - |a| - 1] == s[i + 3..j];
    } else {
      SpaceEnds(s, i + 3, j, |a|);
    }
  }

  lemma {:induction false} SpaceEnds(s: string, i: nat, j: nat, m: nat)
    requires i <= j <= |s| && AllSpace(s[i..j])
    ensures i <= m < j ==> IsSpace(s[m])
  {
    assert i <= m < j ==> s[i..j][m - i] == s[m];
  }

  lemma {:induction false} SpaceBefore(v: string)
    requires Harmless(v)
    ensures Harmless(" " + v)
  {
    hide FORBIDDEN, Fold;
    var s := " " + v;
    forall word, i: nat | word in FORBIDDEN
      ensures !Spells(s, i, word)
    {
      NoSeparator(word);
      SpelledLater(v, i, word);
    }
    forall i: nat, j: nat | Spells(s, i, "url") && i + 3 <= j < |s| && AllSpace(s[i + 3..j])
      ensures s[j] != '('
    {
      NoSeparator("url");
      SpelledLater(v, i, "url");
      assert v[i - 1 + 3..j - 1] == s[i + 3..j];
    }
  }

  lemma {:induction false} SpelledLater(v: string, i: nat, word: string)
    requires word != "" && ' ' !in word
    ensures Spells(" " + v, i, word) ==> i > 0 && Spells(v, i - 1, word)
  {
    var s := " " + v;
    if Spells(s, i, word) {
      assert Fold(s[i + 0]) == word[0];
      forall k | 0 <= k < |word|
        ensures Fold(v[i - 1 + k]) == word[k]
      {
        assert Fold(s[i + k]) == word[k];
      }
    }
  }

  // ---------- properties are harmless ----------

  predicate Letters(p: string) {
    forall i :: 0 <= i < |p| ==> 'a' <= p[i] <= 'z' || p[i] == '-'
  }

  /** In a property `x` is not followed by `p`, `v` only by `e`, and `b` not by `i`: each forbidden word of letters has one of
      them otherwise. */
  predicate Pairs(p: string) {
    forall i :: 0 <= i < |p| - 1 ==> Pair(p[i], p[i + 1])
  }

  predicate Pair(a: char, b: char) {
    (a == 'x' ==> b != 'p') && (a == 'v' ==> b == 'e') && (a == 'b' ==> b != 'i')
  }

  lemma TextLetters(p: string, i: nat)
    requires Text(p) && i < |p|
    ensures 'a' <= p[i] <= 'z' || p[i] == '-'
  {
  }

  lemma TextPairs(p: string, i: nat)
    requires Text(p) && i < |p| - 1
    ensures Pair(p[i], p[i + 1])
  {
  }

  lemma BorderLetters(p: string, i: nat)
    requires Border(p) && i < |p|
    ensures 'a' <= p[i] <= 'z' || p[i] == '-'
  {
  }

  lemma BorderPairs(p: string, i: nat)
    requires Border(p) && i < |p| - 1
    ensures Pair(p[i], p[i + 1])
  {
  }

  lemma SpacingLetters(p: string, i: nat)
    requires Spacing(p) && i < |p|
    ensures 'a' <= p[i] <= 'z' || p[i] == '-'
  {
  }

  lemma SpacingPairs(p: string, i: nat)
    requires Spacing(p) && i < |p| - 1
    ensures Pair(p[i], p[i + 1])
  {
  }

  lemma SizeLetters(p: string, i: nat)
    requires Size(p) && i < |p|
    ensures 'a' <= p[i] <= 'z' || p[i] == '-'
  {
  }

  lemma SizePairs(p: string, i: nat)
    requires Size(p) && i < |p| - 1
    ensures Pair(p[i], p[i + 1])
  {
  }

  lemma FlexLetters(p: string, i: nat)
    requires Flex(p) && i < |p|
    ensures 'a' <= p[i] <= 'z' || p[i] == '-'
  {
  }

  lemma FlexPairs(p: string, i: nat)
    requires Flex(p) && i < |p| - 1
    ensures Pair(p[i], p[i + 1])
  {
  }

  lemma LayoutLetters(p: string, i: nat)
    requires Layout(p) && i < |p|
    ensures 'a' <= p[i] <= 'z' || p[i] == '-'
  {
  }

  lemma LayoutPairs(p: string, i: nat)
    requires Layout(p) && i < |p| - 1
    ensures Pair(p[i], p[i + 1])
  {
  }

  lemma OfferedLetter(p: string, i: nat)
    requires Offered(p) && i < |p|
    ensures 'a' <= p[i] <= 'z' || p[i] == '-'
  {
    hide Text, Border, Spacing, Size, Flex, Layout, Pair;
    if Text(p) {
      TextLetters(p, i);
    } else if Border(p) {
      BorderLetters(p, i);
    } else if Spacing(p) {
      SpacingLetters(p, i);
    } else if Size(p) {
      SizeLetters(p, i);
    } else if Flex(p) {
      FlexLetters(p, i);
    } else {
      LayoutLetters(p, i);
    }
  }

  lemma OfferedPair(p: string, i: nat)
    requires Offered(p) && i < |p| - 1
    ensures Pair(p[i], p[i + 1])
  {
    hide Text, Border, Spacing, Size, Flex, Layout, Pair;
    if Text(p) {
      TextPairs(p, i);
    } else if Border(p) {
      BorderPairs(p, i);
    } else if Spacing(p) {
      SpacingPairs(p, i);
    } else if Size(p) {
      SizePairs(p, i);
    } else if Flex(p) {
      FlexPairs(p, i);
    } else {
      LayoutPairs(p, i);
    }
  }

  lemma OfferedPlain(p: string)
    requires Offered(p)
    ensures Letters(p) && Pairs(p)
  {
    hide Offered, Pair;
    forall i | 0 <= i < |p|
      ensures 'a' <= p[i] <= 'z' || p[i] == '-'
    {
      OfferedLetter(p, i);
    }
    forall i | 0 <= i < |p| - 1
      ensures Pair(p[i], p[i + 1])
    {
      OfferedPair(p, i);
    }
  }

  /** Where such a pair, or a character of no property, stands in a word. */
  lemma WordTells(word: string) returns (k: nat)
    requires word in FORBIDDEN
    ensures k < |word|
    ensures !('a' <= word[k] <= 'z' || word[k] == '-') || (k + 1 < |word| && !Pair(word[k], word[k + 1]))
  {
    if word == "expression" {
      k := 1;
    } else if word == "javascript" {
      k := 2;
    } else if word == "behavior" {
      k := 4;
    } else {
      k := 0;
    }
  }

  lemma FoldLower(c: char)
    requires 'a' <= c <= 'z' || c == '-'
    ensures Fold(c) == c
  {
  }

  lemma {:induction false} PropertyHarmless(p: string)
    requires Letters(p) && Pairs(p)
    ensures Harmless(p)
  {
    hide Fold, Pair, FORBIDDEN;
    forall i | 0 <= i < |p|
      ensures Fold(p[i]) == p[i]
    {
      FoldLower(p[i]);
    }
    forall word, i: nat | word in FORBIDDEN
      ensures !Spells(p, i, word)
    {
      var k := WordTells(word);
      SpelledChar(p, i, word, i + k);
      SpelledChar(p, i, word, i + k + 1);
    }
  }

  lemma {:induction false} OfferedHarmless(p: string)
    requires Offered(p)
    ensures Harmless(p) && forall i :: 0 <= i < |p| ==> StyleChar(p[i])
  {
    hide Harmless, Letters, Pairs, Offered;
    OfferedPlain(p);
    PropertyHarmless(p);
    PropertyChars(p);
  }

  lemma PropertyChars(p: string)
    requires Letters(p)
    ensures forall i :: 0 <= i < |p| ==> StyleChar(p[i])
  {
  }

  // ---------- what is written ----------

  predicate StyleText(s: string) {
    forall i :: 0 <= i < |s| ==> StyleChar(s[i]) || s[i] == ':' || s[i] == ';'
  }

  lemma {:induction false} DeclHarmless(property: string, value: string)
    requires Meets(property, value)
    ensures Harmless(property + ": " + value) && StyleText(property + ": " + value)
  {
    hide Harmless, Offered, StyleChar;
    OfferedHarmless(property);
    SpaceBefore(value);
    HarmlessJoined(property, ':', " " + value);
    assert property + ": " + value == property + [':'] + (" " + value);
    SpaceAllowed();
  }

  lemma SpaceAllowed()
    ensures StyleChar(' ')
  {
  }

  lemma {:induction false} JoinedHarmless(decls: seq<string>)
    requires forall d :: d in decls ==> Harmless(d) && StyleText(d)
    ensures Harmless(JoinDecls(decls)) && StyleText(JoinDecls(decls))
  {
    hide Harmless, StyleText;
    if decls == [] {
      NothingHarmful();
    } else if |decls| > 1 {
      assert decls[0] in decls && forall d :: d in decls[1..] ==> d in decls;
      JoinedHarmless(decls[1..]);
      TwoHarmless(decls[0], JoinDecls(decls[1..]));
    } else {
      assert decls[0] in decls;
    }
  }

  lemma {:induction false} TwoHarmless(d: string, rest: string)
    requires Harmless(d) && StyleText(d) && Harmless(rest) && StyleText(rest)
    ensures Harmless(d + "; " + rest) && StyleText(d + "; " + rest)
  {
    hide Harmless, StyleChar;
    SpaceBefore(rest);
    HarmlessJoined(d, ';', " " + rest);
    assert d + "; " + rest == d + [';'] + (" " + rest);
    SpaceAllowed();
  }

  lemma NothingHarmful()
    ensures Harmless("") && StyleText("")
  {
    forall word, i: nat | word in FORBIDDEN
      ensures !Spells("", i, word)
    {
      NoSeparator(word);
    }
  }

  /** A clean declaration is a property, a colon, a space and a value that meet the conditions. */
  lemma {:induction false} CleanMeets(d: string) returns (property: string, value: string)
    requires CleanDecl(d).Some?
    ensures CleanDecl(d).value == property + ": " + value && Meets(property, value)
  {
    hide AcceptedDecl, Meets, Property, Value;
    property, value := Property(d), Value(d);
    AcceptedExactly(property, value);
  }

  /** Whatever the value of a style attribute: in the whole text that is written there is no `url(` and no forbidden word, in
      any case and with white space before the bracket or not; and every character is an allowed one. */
  lemma {:induction false} StyleSafe(value: string)
    ensures Harmless(TemplateStyle(value)) && StyleText(TemplateStyle(value))
  {
    hide Harmless, StyleText, Settled, CleanDecl, JoinDecls, CleanDecls, Split;
    StyleClean(value);
    var decls := CleanDecls(CleanDecl, Split(value, ';'));
    forall d | d in decls
      ensures Harmless(d) && StyleText(d)
    {
      CleanItself(d);
      var property, v := CleanMeets(d);
      DeclHarmless(property, v);
    }
    JoinedHarmless(decls);
  }

  lemma CleanItself(d: string)
    requires Settled(CleanDecl, d)
    ensures CleanDecl(d) == Some(d)
  {
  }

  /** Taken apart at its semicolons, each part of a written style sets an offered property to a value that meets the
      conditions. */
  lemma {:induction false} StyleParts(value: string, part: string) returns (property: string, v: string)
    requires TemplateStyle(value) != "" && part in Split(TemplateStyle(value), ';')
    ensures Strip(part) == property + ": " + v && Meets(property, v)
  {
    hide Settled, CleanDecl, Split, Meets, Strip, CleanDecls;
    StyleClean(value);
    var decls := CleanDecls(CleanDecl, Split(value, ';'));
    JoinedPartsClean(CleanDecl, decls);
    JoinedPartsTrimmed(CleanDecl, decls, part);
    property, v := CleanMeets(part);
  }
}
