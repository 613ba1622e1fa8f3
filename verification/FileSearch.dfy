/** The streaming search for byte patterns in a file (backend/app/core/oa_file_rules.py, `_contains`). */
module FileSearch {
  // The file is read in blocks; the end of what has been read is kept so that a pattern across blocks is found.

  /** The pattern stands at position `i`. */
  predicate OccursAt<T(==)>(pattern: seq<T>, data: seq<T>, i: nat) {
    i + |pattern| <= |data| && forall j :: 0 <= j < |pattern| ==> data[i + j] == pattern[j]
  }

  predicate Occurs<T(==)>(pattern: seq<T>, data: seq<T>) {
    exists i :: 0 <= i <= |data| && OccursAt(pattern, data, i)
  }

  predicate AnyOccurs<T(==)>(needles: seq<seq<T>>, data: seq<T>) {
    exists k :: 0 <= k < |needles| && Occurs(needles[k], data)
  }

  /** `max(len(n) for n in needles)`. */
  function Longest<T>(needles: seq<seq<T>>): (n: nat)
    ensures forall k :: 0 <= k < |needles| ==> |needles[k]| <= n
  {
    if needles == [] then 0
    else
      var rest := Longest(needles[..|needles| - 1]);
      if |needles[|needles| - 1]| > rest then |needles[|needles| - 1]| else rest
  }

  /** `data[-keep:]`, or nothing when `keep` is zero. */
  function Tail<T>(data: seq<T>, keep: nat): (t: seq<T>)
    ensures |t| == (if keep <= |data| then keep else |data|) && t == data[|data| - |t|..]
  {
    if keep >= |data| then data else data[|data| - keep..]
  }

  /** `part` stands in `whole` at position `at`. An occurrence in the part is one in the whole, and one in the whole that
      lies within the part is one in the part. */
  lemma PartOfWhole<T>(needle: seq<T>, part: seq<T>, whole: seq<T>, at: nat)
    requires OccursAt(part, whole, at)
    ensures Occurs(needle, part) ==> Occurs(needle, whole)
    ensures forall i :: at <= i && i + |needle| <= at + |part| && OccursAt(needle, whole, i) ==>
              OccursAt(needle, part, i - at)
  {
    if i :| 0 <= i <= |part| && OccursAt(needle, part, i) {
      assert forall j :: 0 <= j < |needle| ==> whole[at + (i + j)] == needle[j];
      assert OccursAt(needle, whole, at + i);
    }
    forall i | at <= i && i + |needle| <= at + |part| && OccursAt(needle, whole, i)
      ensures OccursAt(needle, part, i - at)
    {
      assert forall j :: 0 <= j < |needle| ==> part[i - at + j] == needle[j];
    }
  }

  /** An occurrence in what has been read so far is either old or lies in the kept tail and the new block. */
  lemma FoundInWindow<T>(needle: seq<T>, seen: seq<T>, block: seq<T>, keep: nat)
    requires |needle| <= keep + 1
    ensures Occurs(needle, seen + block) <==> Occurs(needle, seen) || Occurs(needle, Tail(seen, keep) + block)
  {
    var all, window := seen + block, Tail(seen, keep) + block;
    var cut := |all| - |window|;
    WindowStands(seen, block, keep);
    PartOfWhole(needle, seen, all, 0);
    PartOfWhole(needle, window, all, cut);
    hide OccursAt;
    if i :| 0 <= i <= |all| && OccursAt(needle, all, i) {
      Fits(needle, all, i);
      if i + |needle| <= |seen| {
        assert OccursAt(needle, seen, i - 0);
      } else {
        assert OccursAt(needle, window, i - cut);
      }
    }
  }

  lemma WindowStands<T>(seen: seq<T>, block: seq<T>, keep: nat)
    ensures OccursAt(seen, seen + block, 0)
    ensures var window := Tail(seen, keep) + block; OccursAt(window, seen + block, |seen + block| - |window|)
  {
  }

  lemma Fits<T>(needle: seq<T>, data: seq<T>, i: nat)
    requires OccursAt(needle, data, i)
    ensures i + |needle| <= |data|
  {
  }

  lemma {:induction false} AnyFoundInWindow<T>(needles: seq<seq<T>>, seen: seq<T>, block: seq<T>, keep: nat)
    requires Longest(needles) <= keep + 1
    ensures AnyOccurs(needles, seen + block)
        <==> AnyOccurs(needles, seen) || AnyOccurs(needles, Tail(seen, keep) + block)
  {
    hide Occurs;
    forall k | 0 <= k < |needles|
      ensures Occurs(needles[k], seen + block)
          <==> Occurs(needles[k], seen) || Occurs(needles[k], Tail(seen, keep) + block)
    {
      FoundInWindow(needles[k], seen, block, keep);
    }
  }

  /** The tail of the tail and the block is the tail of everything read. */
  lemma TailExtends<T>(seen: seq<T>, block: seq<T>, keep: nat)
    ensures Tail(Tail(seen, keep) + block, keep) == Tail(seen + block, keep)
  {
    var whole, part := seen + block, Tail(seen, keep) + block;
    if keep >= |seen| {
      assert part == whole;
    } else {
      var cut := |seen| - keep;
      assert part == whole[cut..];
      assert part[|part| - keep..] == whole[cut + (|part| - keep)..];
    }
  }

  /** What occurs in a part of the file from its start occurs in the file. */
  lemma OccursInWhole<T>(needles: seq<seq<T>>, content: seq<T>, position: nat)
    requires position <= |content| && AnyOccurs(needles, content[..position])
    ensures AnyOccurs(needles, content)
  {
    AnyFoundInWindow(needles, content[..position], content[position..], Longest(needles));
    assert content[..position] + content[position..] == content;
  }

  lemma NothingSeen<T>(keep: nat)
    ensures Tail<T>([], keep) == []
  {
  }

  /** For any file, any chunk size of at least one, and any blocks the reads deliver: true exactly when some pattern is a
      contiguous part of the file. An empty pattern is found in every file but the empty one. */
  method Contains<T(==)>(content: seq<T>, needles: seq<seq<T>>, chunk: nat) returns (found: bool)
    requires needles != [] && chunk >= 1
    ensures found <==> content != [] && AnyOccurs(needles, content)
  {
    hide AnyOccurs, Longest, Tail, Occurs;
    var longest := Longest(needles);
    var keep := if longest == 0 then 0 else longest - 1;
    var tail: seq<T> := [];
    var position := 0;
    ghost var seen: seq<T> := [];
    NothingSeen<T>(keep);
    while true
      invariant position <= |content| && seen == content[..position]
      invariant tail == Tail(seen, keep)
      invariant position > 0 ==> !AnyOccurs(needles, seen)
      decreases |content| - position
    {
      if position == |content| {
        assert seen == content;
        return false;
      }
      // a read delivers at least one byte and at most a chunk
      var n :| 1 <= n <= chunk && position + n <= |content|;
      var block := content[position..position + n];
      var data := tail + block;
      assert content[..position + n] == seen + block;
      AnyFoundInWindow(needles, seen, block, keep);
      if position == 0 {
        assert data == block == seen + block;
      }
      if AnyOccurs(needles, data) {
        OccursInWhole(needles, content, position + n);
        return true;
      }
      TailExtends(seen, block, keep);
      tail := Tail(data, keep);
      position := position + n;
      seen := content[..position];
    }
  }
}
