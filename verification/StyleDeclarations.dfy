/** The value of a `style` attribute as a list of declarations, each cleaned or dropped and the rest joined again. */
module StyleDeclarations {
  // Both HTML cleaners treat styles so; what a declaration becomes is the cleaner's own.

  import opened Common
  import opened Strings

  function CleanDecls(clean: string -> Option<string>, decls: seq<string>): seq<string> {
    if decls == [] then []
    else (if clean(decls[0]).Some? then [clean(decls[0]).value] else []) + CleanDecls(clean, decls[1..])
  }

  /** `"; ".join(decls)`. */
  function JoinDecls(decls: seq<string>): string {
    if decls == [] then ""
    else if |decls| == 1 then decls[0]
    else decls[0] + "; " + JoinDecls(decls[1..])
  }

  function CleanedStyle(clean: string -> Option<string>, value: string): string {
    JoinDecls(CleanDecls(clean, Split(value, ';')))
  }

  /** A clean declaration: it keeps its value when cleaned again, with or without a space before it, and can stand in a
      semicolon-separated list. */
  predicate Settled(clean: string -> Option<string>, decl: string) {
    && decl != "" && Trimmed(decl) && ';' !in decl
    && clean(decl) == Some(decl)
    && clean(" " + decl) == Some(decl)
  }

  lemma StripLeadingSpace(s: string)
    requires Trimmed(s)
    ensures Strip(" " + s) == s
  {
    assert (" " + s)[1..] == s;
  }

  lemma {:induction false} SplitWhole(s: string)
    requires ';' !in s
    ensures Split(s, ';') == [s]
  {
  }

  lemma {:induction false} CleanDeclsSettled(clean: string -> Option<string>, decls: seq<string>)
    requires forall d :: d in decls && clean(d).Some? ==> Settled(clean, clean(d).value)
    ensures forall d :: d in CleanDecls(clean, decls) ==> Settled(clean, d)
  {
    hide Settled;
    if decls != [] {
      assert decls[0] in decls && forall d :: d in decls[1..] ==> d in decls;
      CleanDeclsSettled(clean, decls[1..]);
    }
  }

  lemma {:induction false} JoinTrimmed(clean: string -> Option<string>, decls: seq<string>)
    requires decls != [] && forall d :: d in decls ==> Settled(clean, d)
    ensures JoinDecls(decls) != "" && Trimmed(JoinDecls(decls))
  {
    assert Settled(clean, decls[0]);
    if |decls| > 1 {
      JoinTrimmed(clean, decls[1..]);
    }
  }

  /** Joined clean declarations are taken apart again, whether or not a space stands before them. */
  lemma {:induction false} JoinedDeclsCleaned(clean: string -> Option<string>, decls: seq<string>)
    requires decls != [] && forall d :: d in decls ==> Settled(clean, d)
    ensures CleanDecls(clean, Split(JoinDecls(decls), ';')) == decls
    ensures CleanDecls(clean, Split(" " + JoinDecls(decls), ';')) == decls
  {
    hide Split;
    var d := decls[0];
    assert Settled(clean, d);
    if |decls| == 1 {
      SplitWhole(d);
      SplitWhole(" " + d);
    } else {
      var rest := JoinDecls(decls[1..]);
      JoinedDeclsCleaned(clean, decls[1..]);
      assert JoinDecls(decls) == d + [';'] + (" " + rest);
      assert " " + JoinDecls(decls) == (" " + d) + [';'] + (" " + rest);
      SplitCons(d, ';', " " + rest);
      SplitCons(" " + d, ';', " " + rest);
    }
  }

  /** Each part of joined clean declarations is clean. */
  lemma {:induction false} JoinedPartsClean(clean: string -> Option<string>, decls: seq<string>)
    requires decls != [] && forall d :: d in decls ==> Settled(clean, d)
    ensures forall part :: part in Split(JoinDecls(decls), ';') ==> clean(part).Some?
    ensures forall part :: part in Split(" " + JoinDecls(decls), ';') ==> clean(part).Some?
  {
    hide Split;
    var d := decls[0];
    assert Settled(clean, d);
    if |decls| == 1 {
      SplitWhole(d);
      SplitWhole(" " + d);
    } else {
      var rest := JoinDecls(decls[1..]);
      JoinedPartsClean(clean, decls[1..]);
      assert JoinDecls(decls) == d + [';'] + (" " + rest);
      assert " " + JoinDecls(decls) == (" " + d) + [';'] + (" " + rest);
      SplitCons(d, ';', " " + rest);
      SplitCons(" " + d, ';', " " + rest);
    }
  }

  /** And trimmed it is what it is cleaned to. */
  lemma {:induction false} JoinedPartsTrimmed(clean: string -> Option<string>, decls: seq<string>, part: string)
    requires decls != [] && forall d :: d in decls ==> Settled(clean, d)
    requires part in Split(JoinDecls(decls), ';') || part in Split(" " + JoinDecls(decls), ';')
    ensures clean(part) == Some(Strip(part))
  {
    hide Split;
    var d := decls[0];
    assert Settled(clean, d);
    StripLeadingSpace(d);
    hide Strip;
    if |decls| == 1 {
      SplitWhole(d);
      SplitWhole(" " + d);
    } else {
      var rest := JoinDecls(decls[1..]);
      assert JoinDecls(decls) == d + [';'] + (" " + rest);
      assert " " + JoinDecls(decls) == (" " + d) + [';'] + (" " + rest);
      SplitCons(d, ';', " " + rest);
      SplitCons(" " + d, ';', " " + rest);
      if part in Split(" " + rest, ';') {
        JoinedPartsTrimmed(clean, decls[1..], part);
      }
    }
  }

  /** When clean declarations are settled, cleaning a style twice is cleaning it once. */
  lemma {:induction false} StyleTwice(clean: string -> Option<string>, value: string)
    requires clean("") == None
    requires forall d :: ';' !in d && clean(d).Some? ==> Settled(clean, clean(d).value)
    ensures Trimmed(CleanedStyle(clean, value))
    ensures CleanedStyle(clean, CleanedStyle(clean, value)) == CleanedStyle(clean, value)
  {
    hide Settled, Split;
    var decls := CleanDecls(clean, Split(value, ';'));
    SplitJoins(value, ';');
    CleanDeclsSettled(clean, Split(value, ';'));
    if decls == [] {
      SplitWhole("");
      assert [""][1..] == [];
    } else {
      JoinTrimmed(clean, decls);
      JoinedDeclsCleaned(clean, decls);
    }
  }

  lemma {:induction false} NextDecl(clean: string -> Option<string>, decls: seq<string>, i: nat)
    requires i < |decls|
    ensures CleanDecls(clean, decls[i..])
         == (if clean(decls[i]).Some? then [clean(decls[i]).value] else []) + CleanDecls(clean, decls[i + 1..])
  {
    assert decls[i..][0] == decls[i] && decls[i..][1..] == decls[i + 1..];
  }

  method CleanStyle(clean: string -> Option<string>, value: string) returns (style: string)
    ensures style == CleanedStyle(clean, value)
  {
    hide Split, JoinDecls, CleanDecls;
    var decls := Split(value, ';');
    var out: seq<string> := [];
    assert decls[0..] == decls;
    for i := 0 to |decls|
      invariant out + CleanDecls(clean, decls[i..]) == CleanDecls(clean, decls)
    {
      NextDecl(clean, decls, i);
      var kept := clean(decls[i]);
      ghost var rest := CleanDecls(clean, decls[i + 1..]);
      if kept.Some? {
        assert out + ([kept.value] + rest) == out + [kept.value] + rest;
        out := out + [kept.value];
      } else {
        assert [] + rest == rest;
      }
    }
    NoDecls(clean);
    assert decls[|decls|..] == [];
    assert out + [] == out;
    style := JoinDecls(out);
  }

  lemma NoDecls(clean: string -> Option<string>)
    ensures CleanDecls(clean, []) == []
  {
  }

  /** A declaration is cut at its first colon and both sides are trimmed. */
  function Property(decl: string): string
    requires ':' in decl
  {
    Lower(Strip(decl[..IndexOf(decl, ':')]))
  }

  function Value(decl: string): string
    requires ':' in decl
  {
    Strip(decl[IndexOf(decl, ':') + 1..])
  }

  lemma CutAtColon(left: string, right: string)
    requires ':' !in left
    ensures var d := left + [':'] + right; ':' in d && Property(d) == Lower(Strip(left)) && Value(d) == Strip(right)
  {
    hide Strip, Lower;
    IndexAfter(left, ':', right);
    CutAfter(left, ':', right);
  }

  lemma DeclParts(property: string, value: string)
    requires ':' !in property && Trimmed(property) && Lower(property) == property && Trimmed(value)
    ensures var d := property + ": " + value; ':' in d && Property(d) == property && Value(d) == value
    ensures var d := " " + (property + ": " + value); ':' in d && Property(d) == property && Value(d) == value
  {
    hide Lower, Property, Value;
    StripLeadingSpace(value);
    StripLeadingSpace(property);
    assert Strip(property) == property;
    hide Strip, Trimmed;
    CutAtColon(property, " " + value);
    CutAtColon(" " + property, " " + value);
    assert property + ": " + value == property + [':'] + (" " + value);
    assert " " + (property + ": " + value) == (" " + property) + [':'] + (" " + value);
  }
}
