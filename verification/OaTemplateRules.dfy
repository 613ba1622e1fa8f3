/** The rules of letter templates, tag by tag and attribute by attribute (backend/app/core/oa_template_html.py). */
module OaTemplateRules {
  // What a tag makes of a header or footer and what becomes of each attribute, with every list of the format written out.
  // Styles have a module of their own.

  import opened Common
  import opened Strings
  import opened TagWord
  import opened Transducer
  import opened HtmlAttributes
  import opened OaTemplateAttributes
  import opened OaTemplateHtml

  // ---------- tags ----------

  datatype Role = Container | Alone | Logo | Unknown | Swallowed

  /** What the format makes of a tag. */
  function RoleOf(tag: Tag): Role {
    match tag
    case Div | Span | P | H1 | H2 | H3 | Strong | B | Em | I | U | Small => Container
    case Table | Thead | Tbody | Tr | Th | Td => Container
    case Br | Hr => Role.Alone
    case Img => Logo
    case Dropped(_) => Swallowed
    case Other(_) => Unknown
  }

  /** The image is the template's own logo: the first `src` attribute says so, perhaps with spaces. */
  ghost predicate NamesLogo(attrs: seq<Attr>) {
    exists i :: FirstSource(attrs, i) && LogoText(Strip(attrs[i].value))
  }

  predicate FirstSource(attrs: seq<Attr>, i: int) {
    0 <= i < |attrs| && Lower(attrs[i].name) == "src" && forall j :: 0 <= j < i ==> Lower(attrs[j].name) != "src"
  }

  predicate LogoText(s: string) {
    RemoveSpaces(s) == "{{logo}}"
  }

  /** What a start tag or a self-closing tag does. An image is written when it names the logo, and shows it whatever else it
      says; a container is opened when fewer than 40 are open and the tag is not self-closing. A number that cannot be read
      makes the handler raise. */
  lemma {:induction false} TagExactly(s: State<Tag>, tag: Tag, attrs: seq<Attr>, selfClosing: bool)
    requires !s.failed
    ensures Step(TEMPLATE, s, if selfClosing then StartEnd(tag, attrs) else Start(tag, attrs))
         == if RoleOf(tag) == Swallowed then if selfClosing then s else s.(drop := s.drop + 1)
            else if s.drop > 0 || RoleOf(tag) == Unknown || (RoleOf(tag) == Logo && !NamesLogo(attrs)) then s
            else if RoleOf(tag) == Container && (selfClosing || |s.stack| >= 40) then s
            else if exists attr :: attr in attrs && NumberUnreadable(tag, attr) then s.(failed := true)
            else
              match RoleOf(tag)
              case Logo => s.(out := s.out + [Void(tag, [Attr("src", "{{logo}}")] + CleanAttrs(tag, attrs))])
              case Alone => s.(out := s.out + [Void(tag, CleanAttrs(tag, attrs))])
              case _ => s.(out := s.out + [Open(tag, CleanAttrs(tag, attrs))], stack := s.stack + [tag])
  {
    PlaceExactly(s.stack, tag, attrs, selfClosing);
    Swallowing(tag);
    hide CleanAttrs, NumberUnreadable, NamesLogo, Place, RoleOf, Drops;
  }

  lemma Swallowing(tag: Tag)
    ensures Drops(tag) <==> RoleOf(tag) == Swallowed
  {
  }

  lemma {:induction false} PlaceExactly(stack: seq<Tag>, tag: Tag, attrs: seq<Attr>, selfClosing: bool)
    ensures Place(stack, tag, attrs, selfClosing)
         == if RoleOf(tag) == Swallowed || RoleOf(tag) == Unknown || (RoleOf(tag) == Logo && !NamesLogo(attrs)) then Nothing
            else if RoleOf(tag) == Container && (selfClosing || |stack| >= 40) then Nothing
            else if exists attr :: attr in attrs && NumberUnreadable(tag, attr) then Fails
            else
              match RoleOf(tag)
              case Logo => Outcome.Alone(tag, [Attr("src", "{{logo}}")] + CleanAttrs(tag, attrs))
              case Alone => Outcome.Alone(tag, CleanAttrs(tag, attrs))
              case _ => Opens(tag, CleanAttrs(tag, attrs))
  {
    RaisesExactly(tag, attrs);
    LogoExactly(attrs);
    hide CleanAttrs, AttrsRaise, NumberUnreadable, NamesLogo, ShowsLogo;
    assert [] + CleanAttrs(tag, attrs) == CleanAttrs(tag, attrs);
  }

  lemma {:induction false} LogoExactly(attrs: seq<Attr>)
    ensures ShowsLogo(attrs) <==> NamesLogo(attrs)
  {
    hide Lower, Strip, RemoveSpaces;
    SourceExactly(attrs);
    if forall i :: !FirstSource(attrs, i) {
      NoLogo();
    }
  }

  lemma NoLogo()
    ensures RemoveSpaces("") == ""
  {
  }

  lemma {:induction false} SourceExactly(attrs: seq<Attr>)
    ensures forall i :: FirstSource(attrs, i) ==> Source(attrs) == Strip(attrs[i].value)
    ensures (forall i :: !FirstSource(attrs, i)) ==> Source(attrs) == ""
  {
    hide Lower, Strip;
    if attrs != [] {
      if Lower(attrs[0].name) == "src" {
        assert FirstSource(attrs, 0);
      } else {
        var rest := attrs[1..];
        SourceExactly(rest);
        forall i
          ensures FirstSource(attrs, i) <==> i > 0 && FirstSource(rest, i - 1)
        {
        }
        forall i
          ensures FirstSource(rest, i) ==> FirstSource(attrs, i + 1)
        {
        }
      }
    }
  }

  /** Every space goes, and nothing else. */
  lemma {:induction false} SpacesRemoved(a: string, c: char, b: string)
    ensures RemoveSpaces(a + [c] + b) == RemoveSpaces(a) + (if c == ' ' then "" else [c]) + RemoveSpaces(b)
    ensures RemoveSpaces("") == ""
  {
    if a == "" {
      assert a + [c] + b == [c] + b && ([c] + b)[1..] == b;
    } else {
      assert (a + [c] + b)[1..] == a[1..] + [c] + b;
      SpacesRemoved(a[1..], c, b);
    }
  }

  /** An end tag ends a dropped element, or closes the innermost open element of its name with everything inside it. */
  lemma {:induction false} EndTagExactly(s: State<Tag>, tag: Tag)
    requires !s.failed
    ensures var n := Step(TEMPLATE, s, End(tag));
            if RoleOf(tag) == Swallowed then n == s.(drop := if s.drop == 0 then 0 else s.drop - 1)
            else if s.drop > 0 || tag == Br || tag == Hr || tag == Img || tag !in s.stack then n == s
            else
              exists i :: IsInnermost(s.stack, tag, i)
                          && n == s.(out := s.out + Closing(s.stack[i..]), stack := s.stack[..i])
  {
    if tag in s.stack {
      CloseExactly(s, tag);
    }
    Swallowing(tag);
    hide CloseStep, IsInnermost, Drops, RoleOf;
  }

  // ---------- attributes ----------

  /** A number of a cell or of the logo that passes for digits but cannot be read. */
  predicate NumberUnreadable(tag: Tag, attr: Attr) {
    && (|| ((tag == Td || tag == Th) && (Lower(attr.name) == "colspan" || Lower(attr.name) == "rowspan"))
        || (tag == Img && (Lower(attr.name) == "width" || Lower(attr.name) == "height")))
    && Unreadable(Strip(attr.value))
  }

  lemma RaisesExactly(tag: Tag, attrs: seq<Attr>)
    ensures AttrsRaise(tag, attrs) <==> exists attr :: attr in attrs && NumberUnreadable(tag, attr)
  {
    hide Lower, Strip, Unreadable;
    forall attr
      ensures AttrRaises(tag, attr) <==> NumberUnreadable(tag, attr)
    {
    }
    hide NumberUnreadable, AttrRaises;
  }

  lemma {:induction false} OneByOne(tag: Tag, attrs: seq<Attr>, attr: Attr)
    ensures CleanAttrs(tag, []) == []
    ensures CleanAttrs(tag, attrs + [attr])
         == CleanAttrs(tag, attrs) + (match CleanAttr(tag, attr) case None => [] case Some(w) => [w])
  {
    hide CleanAttr;
    assert (attrs + [attr])[..|attrs|] == attrs;
  }

  /** The attribute is written so: a style that is left of what was given; a direction; the span of a cell from 1 to 50; the
      text of the logo, of at most 100 characters, and its width and height from 1 to 2000. */
  predicate Gives(tag: Tag, name: string, value: string, written: Attr) {
    && written.name == name
    && (|| (name == "style" && written.value != "" && written.value == TemplateStyle(value))
        || (name == "dir" && written.value == Lower(value)
            && (written.value == "rtl" || written.value == "ltr" || written.value == "auto"))
        || ((name == "colspan" || name == "rowspan") && (tag == Td || tag == Th)
            && IsInt(value) && 1 <= ParseNat(value) <= 50 && written.value == Decimal(ParseNat(value)))
        || (name == "alt" && tag == Img && written.value <= value
            && (|value| <= 100 ==> written.value == value) && (|value| > 100 ==> |written.value| == 100))
        || ((name == "width" || name == "height") && tag == Img
            && IsInt(value) && 1 <= ParseNat(value) <= 2000 && written.value == Decimal(ParseNat(value))))
  }

  /** Exactly so attributes are written, and all others are left out. */
  lemma {:induction false} AttrExactly(tag: Tag, attr: Attr, written: Attr)
    ensures CleanAttr(tag, attr) == Some(written) <==> Gives(tag, Lower(attr.name), Strip(attr.value), written)
  {
    var name, value := Lower(attr.name), Strip(attr.value);
    NamedExactly(tag, name, value, written);
    hide CleanNamed, Gives, Lower, Strip;
  }

  lemma {:induction false} NamedExactly(tag: Tag, name: string, value: string, written: Attr)
    ensures CleanNamed(tag, name, value) == Some(written) <==> Gives(tag, name, value, written)
  {
    NamesApart(name);
    CutExactly(value, written.value);
    hide Lower, TemplateStyle, ParseNat, Decimal, IsInt, Cut;
  }

  lemma CutExactly(value: string, cut: string)
    ensures cut == Cut(value)
       <==> cut <= value && (|value| <= 100 ==> cut == value) && (|value| > 100 ==> |cut| == 100)
  {
  }

  lemma NamesApart(name: string)
    ensures name == "dir" ==> name != "style" && !IsSpanName(name) && name != "alt" && !IsSideName(name)
    ensures name == "style" ==> !IsSpanName(name) && name != "alt" && !IsSideName(name)
    ensures IsSpanName(name) ==> name != "alt" && !IsSideName(name)
    ensures name == "alt" ==> !IsSideName(name)
  {
  }
}
