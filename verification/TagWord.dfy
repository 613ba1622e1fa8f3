/** Words of opening tags, closing tags, void tags and text, read by a pushdown automaton. */
module TagWord {
  // Both HTML cleaners of the portal write such words. `OpenTags` is the reference reading: it knows nothing of how a
  // word was produced, accepts a closing tag only for the innermost open element, and yields the stack of elements that
  // are still open. A word is balanced when that stack is empty.

  import opened Common

  datatype Piece<T, A> =
    | Open(tag: T, attrs: A)
    | Close(tag: T)
    | Void(tag: T, attrs: A)
    | Text(data: string)

  /** The elements still open after `word`, innermost last; None when `word` is not a prefix of a balanced word all of
      whose opening tags, void tags and texts are allowed by `ok` where they stand. */
  function OpenTags<T(==), A>(ok: (seq<T>, Piece<T, A>) -> bool, word: seq<Piece<T, A>>): Option<seq<T>> {
    if word == [] then
      Some([])
    else
      match OpenTags(ok, word[..|word| - 1])
      case None => None
      case Some(open) => ReadPiece(ok, open, word[|word| - 1])
  }

  function ReadPiece<T(==), A>(ok: (seq<T>, Piece<T, A>) -> bool, open: seq<T>, piece: Piece<T, A>): Option<seq<T>> {
    match piece
    case Open(tag, _) => if ok(open, piece) then Some(open + [tag]) else None
    case Close(tag) => if open != [] && open[|open| - 1] == tag then Some(open[..|open| - 1]) else None
    case Void(_, _) => if ok(open, piece) then Some(open) else None
    case Text(_) => if ok(open, piece) then Some(open) else None
  }

  /** The closing tags of `open`, innermost first. */
  function Closing<T, A>(open: seq<T>): seq<Piece<T, A>> {
    if open == [] then [] else [Close(open[|open| - 1])] + Closing(open[..|open| - 1])
  }

  /** One closing tag for each of the elements, the innermost first. */
  lemma {:induction false} ClosingExactly<T, A>(open: seq<T>)
    ensures var word: seq<Piece<T, A>> := Closing(open);
            |word| == |open| && forall i :: 0 <= i < |open| ==> word[i] == Close(open[|open| - 1 - i])
  {
    if open != [] {
      ClosingExactly<T, A>(open[..|open| - 1]);
    }
  }

  /** The text of a word, in order. */
  function TextOf<T, A>(word: seq<Piece<T, A>>): string {
    if word == [] then ""
    else
      TextOf(word[..|word| - 1]) + (if word[|word| - 1].Text? then word[|word| - 1].data else "")
  }

  lemma {:induction false} OpenTagsSnoc<T, A>(ok: (seq<T>, Piece<T, A>) -> bool, word: seq<Piece<T, A>>, piece: Piece<T, A>)
    requires OpenTags(ok, word).Some?
    ensures OpenTags(ok, word + [piece]) == ReadPiece(ok, OpenTags(ok, word).value, piece)
  {
    assert (word + [piece])[..|word|] == word;
  }

  /** Every prefix of an accepted word is accepted. */
  lemma {:induction false} OpenTagsPrefix<T, A>(ok: (seq<T>, Piece<T, A>) -> bool, word: seq<Piece<T, A>>, i: nat)
    requires OpenTags(ok, word).Some? && i <= |word|
    ensures OpenTags(ok, word[..i]).Some?
    decreases |word|
  {
    if i == |word| {
      assert word[..i] == word;
    } else {
      OpenTagsPrefix(ok, word[..|word| - 1], i);
      assert word[..|word| - 1][..i] == word[..i];
    }
  }

  /** What may follow a prefix depends only on the elements that the prefix leaves open. */
  lemma {:induction false} OpenTagsCongruent<T, A>(
    ok: (seq<T>, Piece<T, A>) -> bool, a: seq<Piece<T, A>>, b: seq<Piece<T, A>>, rest: seq<Piece<T, A>>
  )
    requires OpenTags(ok, a) == OpenTags(ok, b)
    ensures OpenTags(ok, a + rest) == OpenTags(ok, b + rest)
  {
    if rest == [] {
      assert a + rest == a && b + rest == b;
    } else {
      var front := rest[..|rest| - 1];
      OpenTagsCongruent(ok, a, b, front);
      assert (a + rest)[..|a + rest| - 1] == a + front;
      assert (b + rest)[..|b + rest| - 1] == b + front;
    }
  }

  /** Writing the closing tags of the innermost elements leaves exactly the outer ones open. */
  lemma {:induction false} CloseInner<T, A>(
    ok: (seq<T>, Piece<T, A>) -> bool, word: seq<Piece<T, A>>, outer: seq<T>, inner: seq<T>
  )
    requires OpenTags(ok, word) == Some(outer + inner)
    ensures OpenTags(ok, word + Closing(inner)) == Some(outer)
    decreases |inner|
  {
    if inner == [] {
      assert word + Closing(inner) == word;
      assert outer + inner == outer;
    } else {
      var rest := inner[..|inner| - 1];
      var close: Piece<T, A> := Close(inner[|inner| - 1]);
      var closed := word + [close];
      assert OpenTags(ok, closed) == Some(outer + rest) by {
        OpenTagsSnoc(ok, word, close);
        assert (outer + inner)[..|outer + inner| - 1] == outer + rest;
      }
      CloseInner(ok, closed, outer, rest);
      assert closed + Closing(rest) == word + ([close] + Closing(rest));
    }
  }

  lemma {:induction false} TextOfConcat<T, A>(a: seq<Piece<T, A>>, b: seq<Piece<T, A>>)
    ensures TextOf(a + b) == TextOf(a) + TextOf(b)
  {
    if b == [] {
      assert a + b == a;
    } else {
      assert (a + b)[..|a + b| - 1] == a + b[..|b| - 1];
      TextOfConcat(a, b[..|b| - 1]);
    }
  }

  lemma {:induction false} TextOfSnoc<T, A>(word: seq<Piece<T, A>>, piece: Piece<T, A>)
    ensures TextOf(word + [piece]) == TextOf(word) + if piece.Text? then piece.data else ""
  {
    assert (word + [piece])[..|word|] == word;
  }

  lemma {:induction false} ClosingHasNoText<T, A>(open: seq<T>)
    ensures TextOf<T, A>(Closing(open)) == ""
  {
    if open != [] {
      ClosingHasNoText<T, A>(open[..|open| - 1]);
      TextOfConcat<T, A>([Close(open[|open| - 1])], Closing(open[..|open| - 1]));
    }
  }
}
