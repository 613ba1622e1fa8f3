/** Dividing the organisation tree (backend/app/core/org_tree.py). */
module OrgTree {
  // The reference is the naive walk: climb from a unit by its parent links and stop at the first unit that is a root of
  // some site. The parent table is arbitrary: it may hold cycles, parents that are no units, and roots on cycles.
  // Dictionaries and sets are traversed in an arbitrary order.

  import opened Common
  import opened Strings
  import opened SiteRoots

  type Parents = map<Code, Option<Code>>

  // ---------- the naive walk ----------

  function Up(parents: Parents, code: Code): Option<Code> {
    if code in parents then parents[code] else None
  }

  /** `n` parent links above `code`. */
  function Climb(parents: Parents, code: Code, n: nat): Option<Code>
    decreases n
  {
    if n == 0 then Some(code)
    else
      match Up(parents, code)
      case None => None
      case Some(parent) => Climb(parents, parent, n - 1)
  }

  ghost predicate AtRoot(parents: Parents, roots: set<Code>, code: Code, n: nat) {
    Climb(parents, code, n).Some? && Climb(parents, code, n).value in roots
  }

  /** Some root lies at or above the unit. */
  ghost predicate Below(parents: Parents, roots: set<Code>, code: Code) {
    exists n: nat :: AtRoot(parents, roots, code, n)
  }

  /** The number of links to the first root. */
  ghost function FirstRoot(parents: Parents, roots: set<Code>, code: Code, bound: nat): (n: nat)
    requires AtRoot(parents, roots, code, bound)
    ensures AtRoot(parents, roots, code, n)
    ensures forall m: nat :: m < n ==> !AtRoot(parents, roots, code, m)
    decreases bound
  {
    if m: nat :| m < bound && AtRoot(parents, roots, code, m) then FirstRoot(parents, roots, code, m) else bound
  }

  /** The owner of the first root met when climbing from the unit itself. */
  ghost function NearestOwner(parents: Parents, owner: map<Code, int>, code: Code): Option<int> {
    if Below(parents, owner.Keys, code) then
      var bound: nat :| AtRoot(parents, owner.Keys, code, bound);
      Some(owner[Climb(parents, code, FirstRoot(parents, owner.Keys, code, bound)).value])
    else
      None
  }

  // ---------- how the walk's result depends on the first step ----------

  lemma FirstRootUnique(parents: Parents, roots: set<Code>, code: Code, a: nat, b: nat)
    requires AtRoot(parents, roots, code, a) && forall m: nat :: m < a ==> !AtRoot(parents, roots, code, m)
    requires AtRoot(parents, roots, code, b) && forall m: nat :: m < b ==> !AtRoot(parents, roots, code, m)
    ensures a == b
  {
  }

  lemma {:induction false} NearestOwnerAt(parents: Parents, owner: map<Code, int>, code: Code, n: nat)
    requires AtRoot(parents, owner.Keys, code, n)
    requires forall m: nat :: m < n ==> !AtRoot(parents, owner.Keys, code, m)
    ensures NearestOwner(parents, owner, code) == Some(owner[Climb(parents, code, n).value])
  {
    var bound: nat :| AtRoot(parents, owner.Keys, code, bound)
                   && NearestOwner(parents, owner, code)
                      == Some(owner[Climb(parents, code, FirstRoot(parents, owner.Keys, code, bound)).value]);
    FirstRootUnique(parents, owner.Keys, code, n, FirstRoot(parents, owner.Keys, code, bound));
  }

  lemma RootOwnsItself(parents: Parents, owner: map<Code, int>, code: Code)
    requires code in owner
    ensures NearestOwner(parents, owner, code) == Some(owner[code])
  {
    assert AtRoot(parents, owner.Keys, code, 0);
    NearestOwnerAt(parents, owner, code, 0);
  }

  /** A unit that is no root has the owner of its parent. */
  lemma OwnerOfParent(parents: Parents, owner: map<Code, int>, code: Code, parent: Code)
    requires code !in owner && Up(parents, code) == Some(parent)
    ensures NearestOwner(parents, owner, code) == NearestOwner(parents, owner, parent)
  {
    var roots := owner.Keys;
    assert !AtRoot(parents, roots, code, 0);
    assert forall n: nat :: n > 0 ==> AtRoot(parents, roots, code, n) == AtRoot(parents, roots, parent, n - 1);
    if Below(parents, roots, parent) {
      var bound: nat :| AtRoot(parents, roots, parent, bound);
      var n := FirstRoot(parents, roots, parent, bound);
      NearestOwnerAt(parents, owner, parent, n);
      assert AtRoot(parents, roots, code, n + 1);
      assert forall m: nat :: m < n + 1 ==> !AtRoot(parents, roots, code, m);
      NearestOwnerAt(parents, owner, code, n + 1);
    } else {
      forall n: nat
        ensures !AtRoot(parents, roots, code, n)
      {
        assert n > 0 ==> !AtRoot(parents, roots, parent, n - 1);
      }
    }
  }

  /** Units that are no roots and whose parents, if any, are among them never reach a root. */
  lemma {:induction false} TrappedClimb(parents: Parents, roots: set<Code>, trap: set<Code>, code: Code, n: nat)
    requires code in trap && trap !! roots
    requires forall c :: c in trap && Up(parents, c).Some? ==> Up(parents, c).value in trap
    ensures !AtRoot(parents, roots, code, n)
    decreases n
  {
    if n > 0 && Up(parents, code).Some? {
      TrappedClimb(parents, roots, trap, Up(parents, code).value, n - 1);
    }
  }

  lemma TrappedUnowned(parents: Parents, owner: map<Code, int>, trap: set<Code>)
    requires trap !! owner.Keys
    requires forall c :: c in trap && Up(parents, c).Some? ==> Up(parents, c).value in trap
    ensures forall c :: c in trap ==> NearestOwner(parents, owner, c) == None
  {
    forall c, n: nat | c in trap
      ensures !AtRoot(parents, owner.Keys, c, n)
    {
      TrappedClimb(parents, owner.Keys, trap, c, n);
    }
  }

  // ---------- the walk with its memo ----------

  /** A chain of parent links through units that are no roots. */
  ghost predicate Chain(parents: Parents, owner: map<Code, int>, path: seq<Code>, next: Option<Code>) {
    && (forall i :: 0 <= i < |path| ==> path[i] !in owner)
    && (forall i :: 0 <= i < |path| - 1 ==> Up(parents, path[i]) == Some(path[i + 1]))
    && (path != [] ==> Up(parents, path[|path| - 1]) == next)
  }

  /** All units of a chain have the owner found behind its end. */
  lemma {:induction false} ChainOwner(
    parents: Parents, owner: map<Code, int>, path: seq<Code>, next: Option<Code>, found: Option<int>
  )
    requires Chain(parents, owner, path, next)
    requires next.Some? ==> NearestOwner(parents, owner, next.value) == found
    requires next.None? ==> found.None?
    ensures forall i :: 0 <= i < |path| ==> NearestOwner(parents, owner, path[i]) == found
    decreases |path|
  {
    hide NearestOwner;
    if path != [] {
      var last := path[|path| - 1];
      if next.None? {
        TrappedUnowned(parents, owner, {last});
      } else {
        OwnerOfParent(parents, owner, last, next.value);
      }
      ChainOwner(parents, owner, path[..|path| - 1], Some(last), found);
    }
  }

  /** A chain that closes into itself reaches no root. */
  lemma CycleUnowned(parents: Parents, owner: map<Code, int>, path: seq<Code>, next: Code)
    requires Chain(parents, owner, path, Some(next)) && next in path
    ensures forall i :: 0 <= i < |path| ==> NearestOwner(parents, owner, path[i]) == None
  {
    hide NearestOwner;
    var trap := set c | c in path;
    forall c | c in trap && Up(parents, c).Some?
      ensures Up(parents, c).value in trap
    {
      var i :| 0 <= i < |path| && path[i] == c;
      assert i < |path| - 1 ==> path[i + 1] in path;
    }
    assert trap !! owner.Keys;
    TrappedUnowned(parents, owner, trap);
  }

  lemma ChainParents(parents: Parents, owner: map<Code, int>, path: seq<Code>, next: Option<Code>)
    requires Chain(parents, owner, path, next)
    ensures forall i :: 0 <= i < |path| && Up(parents, path[i]).Some? ==>
              Up(parents, path[i]).value in path || Up(parents, path[i]) == next
  {
    forall i | 0 <= i < |path| && Up(parents, path[i]).Some?
      ensures Up(parents, path[i]).value in path || Up(parents, path[i]) == next
    {
      if i < |path| - 1 {
        assert path[i + 1] in path;
      }
    }
  }

  /** Parents named by units that are no roots. */
  function ParentsOfNonRoots(parents: Parents, owner: map<Code, int>): set<Code> {
    set c | c in parents && c !in owner && parents[c].Some? :: parents[c].value
  }

  /** The codes that get a result: the units, the roots, and every parent named by a unit that is no root. */
  function Answered(parents: Parents, owner: map<Code, int>): set<Code> {
    parents.Keys + owner.Keys + ParentsOfNonRoots(parents, owner)
  }

  /** The memo so far: right for every code it holds, and holding the parents of the non-roots it holds. */
  ghost predicate MemoOk(parents: Parents, owner: map<Code, int>, memo: map<Code, Option<int>>) {
    && (forall c :: c in memo ==> memo[c] == NearestOwner(parents, owner, c))
    && (forall c :: c in memo && c !in owner && Up(parents, c).Some? ==>
          Up(parents, c).value in memo || Up(parents, c).value in owner)
  }

  /** Climbs from `start` to a root, a code already resolved, the top or a cycle. */
  method ClimbPath(parents: Parents, owner: map<Code, int>, memo: map<Code, Option<int>>, start: Code)
    returns (path: seq<Code>, found: Option<int>)
    requires MemoOk(parents, owner, memo) && start !in memo
    requires start in Answered(parents, owner)
    ensures forall i :: 0 <= i < |path| ==> NearestOwner(parents, owner, path[i]) == found
    ensures forall i :: 0 <= i < |path| ==>
              path[i] !in owner && path[i] in Answered(parents, owner)
              && (Up(parents, path[i]).Some? ==>
                    Up(parents, path[i]).value in path || Up(parents, path[i]).value in memo
                    || Up(parents, path[i]).value in owner)
    ensures start in path || start in owner
  {
    hide NearestOwner;
    path := [];
    found := None;
    var visited: set<Code> := {};
    var current := Some(start);
    ghost var all := Answered(parents, owner);
    while current.Some?
      invariant visited == (set c | c in path) && visited <= all
      invariant current.Some? ==> current.value in all
      invariant Chain(parents, owner, path, current)
      invariant path == [] ==> current == Some(start)
      invariant path != [] ==> path[0] == start
      invariant found == None
      decreases all - visited, if current.Some? then 1 else 0
    {
      var code := current.value;
      if code in owner {
        found := Some(owner[code]);
        RootOwnsItself(parents, owner, code);
        ChainOwner(parents, owner, path, current, found);
        break;
      }
      if code in memo {
        found := memo[code];
        ChainOwner(parents, owner, path, current, found);
        break;
      }
      if code in visited {
        CycleUnowned(parents, owner, path, code);
        break;
      }
      assert Up(parents, code).Some? ==> Up(parents, code).value in ParentsOfNonRoots(parents, owner);
      visited := visited + {code};
      path := path + [code];
      current := Up(parents, code);
    }
    ChainParents(parents, owner, path, current);
    if current.None? {
      ChainOwner(parents, owner, path, current, found);
    }
  }

  // ---------- assigning every unit ----------

  lemma AllAnswered(parents: Parents, owner: map<Code, int>, memo: map<Code, Option<int>>)
    requires MemoOk(parents, owner, memo)
    requires parents.Keys + owner.Keys <= memo.Keys
    ensures Answered(parents, owner) <= memo.Keys
  {
    forall p | p in ParentsOfNonRoots(parents, owner)
      ensures p in memo
    {
      var c :| c in parents && c !in owner && parents[c] == Some(p);
      assert Up(parents, c) == Some(p);
    }
  }

  /** Walks up from every unit and root, in any order, filling in all units on the way. */
  method AssignFromOwners(parents: Parents, owner: map<Code, int>) returns (result: map<Code, Option<int>>)
    ensures result.Keys == Answered(parents, owner)
    ensures forall c :: c in result ==> result[c] == NearestOwner(parents, owner, c)
  {
    hide NearestOwner;
    result := map[];
    var todo := parents.Keys + owner.Keys;
    while todo != {}
      invariant todo <= parents.Keys + owner.Keys
      invariant MemoOk(parents, owner, result)
      invariant parents.Keys + owner.Keys - todo <= result.Keys <= Answered(parents, owner)
      decreases todo
    {
      var start :| start in todo;
      todo := todo - {start};
      if start !in result {
        result := ResolveFrom(parents, owner, result, start);
      }
    }
    AllAnswered(parents, owner, result);
  }

  method ResolveFrom(parents: Parents, owner: map<Code, int>, memo: map<Code, Option<int>>, start: Code)
    returns (result: map<Code, Option<int>>)
    requires MemoOk(parents, owner, memo) && start !in memo && start in Answered(parents, owner)
    requires memo.Keys <= Answered(parents, owner)
    ensures MemoOk(parents, owner, result)
    ensures memo.Keys + {start} <= result.Keys <= Answered(parents, owner)
  {
    hide NearestOwner, MemoOk, Answered, ParentsOfNonRoots;
    var path, found := ClimbPath(parents, owner, memo, start);
    result := memo;
    for i := 0 to |path|
      invariant result.Keys == memo.Keys + set c | c in path[..i]
      invariant forall c :: c in result ==> if c in path[..i] then result[c] == found else result[c] == memo[c]
    {
      result := result[path[i] := found];
      assert path[..i + 1] == path[..i] + [path[i]];
    }
    assert path[..|path|] == path;
    if start in owner {
      RootOwnsItself(parents, owner, start);
      result := result[start := Some(owner[start])];
    }
    MemoExtended(parents, owner, memo, path, found, start, result);
  }

  /** The memo stays right when a resolved path, and a root, are entered. */
  lemma MemoExtended(
    parents: Parents, owner: map<Code, int>, memo: map<Code, Option<int>>,
    path: seq<Code>, found: Option<int>, start: Code, result: map<Code, Option<int>>
  )
    requires MemoOk(parents, owner, memo)
    requires memo.Keys + (set c | c in path) <= result.Keys
    requires forall c :: c in result ==>
               if c == start && c in owner then result[c] == NearestOwner(parents, owner, c)
               else if c in path then result[c] == found
               else c in memo && result[c] == memo[c]
    requires forall i :: 0 <= i < |path| ==> NearestOwner(parents, owner, path[i]) == found
    requires forall i :: 0 <= i < |path| && Up(parents, path[i]).Some? ==>
               var up := Up(parents, path[i]).value; up in path || up in memo || up in owner
    ensures MemoOk(parents, owner, result)
  {
    hide NearestOwner;
    forall c | c in result
      ensures result[c] == NearestOwner(parents, owner, c)
      ensures c !in owner && Up(parents, c).Some? ==>
                Up(parents, c).value in result || Up(parents, c).value in owner
    {
      if c in path {
        var i :| 0 <= i < |path| && path[i] == c;
      }
    }
  }

  /** Every unit gets the site of the nearest root at or above it, whatever the order of traversal; a root of two sites
      is refused. */
  method AssignUnitsToSites(parents: Parents, rootsBySite: map<int, set<Code>>)
    returns (r: Result<map<Code, Option<int>>, OrgTreeError>, owner: map<Code, int>)
    ensures r.Err? <==> exists c :: Shared(rootsBySite, c)
    ensures r.Err? ==> forall c :: c in r.error.codes <==> Shared(rootsBySite, c)
    ensures OwnerMap(rootsBySite, owner)
    ensures r.Ok? ==> r.value.Keys == Answered(parents, owner)
    ensures r.Ok? ==> forall c :: c in r.value ==> r.value[c] == NearestOwner(parents, owner, c)
  {
    hide NearestOwner;
    var duplicates;
    owner, duplicates := CollectRoots(rootsBySite);
    if duplicates != {} {
      r := Err(RootOfTwoSites(duplicates));
    } else {
      var result := AssignFromOwners(parents, owner);
      r := Ok(result);
    }
  }

  // ---------- the parent table ----------

  /** `normalize_code` of a value's text: trimmed, and None when nothing is left. */
  function NormalizeCode(value: Option<string>): Option<Code> {
    if value.None? || Strip(value.value) == "" then None else Some(Strip(value.value))
  }

  /** A raw row: its code and its parent column. */
  datatype Row = Row(code: Option<string>, parent: Option<string>)

  function RowParent(row: Row): Option<Code> {
    if NormalizeCode(row.parent) == NormalizeCode(row.code) then None else NormalizeCode(row.parent)
  }

  /** The parent table of the rows, read in order. */
  function ParentTable(rows: seq<Row>): Parents {
    if rows == [] then map[]
    else
      var front := ParentTable(rows[..|rows| - 1]);
      var last := rows[|rows| - 1];
      if NormalizeCode(last.code).None? then front else front[NormalizeCode(last.code).value := RowParent(last)]
  }

  /** The row that comes last for a code decides its parent, rows without a code are skipped, and no unit is its own
      parent. */
  lemma {:induction false} LastRowDecides(rows: seq<Row>, code: Code)
    ensures code in ParentTable(rows) <==> exists i :: 0 <= i < |rows| && NormalizeCode(rows[i].code) == Some(code)
    ensures forall i :: 0 <= i < |rows| && NormalizeCode(rows[i].code) == Some(code)
                     && (forall j :: i < j < |rows| ==> NormalizeCode(rows[j].code) != Some(code))
              ==> ParentTable(rows)[code] == RowParent(rows[i])
    ensures code in ParentTable(rows) ==> ParentTable(rows)[code] != Some(code)
  {
    hide NormalizeCode;
    if rows != [] {
      var front := rows[..|rows| - 1];
      LastRowDecides(front, code);
      assert forall i :: 0 <= i < |front| ==> rows[i] == front[i];
      if NormalizeCode(rows[|rows| - 1].code) != Some(code) {
        assert code in ParentTable(rows) <==> code in ParentTable(front);
        forall i | 0 <= i < |rows| && NormalizeCode(rows[i].code) == Some(code)
                && (forall j :: i < j < |rows| ==> NormalizeCode(rows[j].code) != Some(code))
          ensures ParentTable(rows)[code] == RowParent(rows[i])
        {
          assert i < |front| && rows[i] == front[i];
        }
      }
    }
  }

  /** The text is the code, perhaps with white space around it; a missing or blank text is no code. */
  ghost predicate Names(value: Option<string>, code: Code) {
    && value.Some? && code != "" && Trimmed(code)
    && exists before, after :: AllSpace(before) && AllSpace(after) && Surrounded(value.value, before, code, after)
  }

  predicate Surrounded(value: string, before: string, code: Code, after: string) {
    value == before + code + after
  }

  lemma NamesExactly(value: Option<string>, code: Code)
    ensures NormalizeCode(value) == Some(code) <==> Names(value, code)
  {
    hide Strip;
    if NormalizeCode(value) == Some(code) {
      var before, after := StripCut(value.value);
      assert Surrounded(value.value, before, code, after);
    }
    if Names(value, code) {
      var before, after :| AllSpace(before) && AllSpace(after) && Surrounded(value.value, before, code, after);
      StripSpaces(before, code, after);
    }
  }

  /** The table on the rows' own texts: a unit is in it exactly when some row names it, and the last such row tells its parent,
      unless that is blank or the unit itself. */
  lemma {:induction false} ParentsExactly(rows: seq<Row>, code: Code)
    ensures code in ParentTable(rows) <==> exists i :: 0 <= i < |rows| && Names(rows[i].code, code)
    ensures forall i, p :: 0 <= i < |rows| && Names(rows[i].code, code)
                        && (forall j :: i < j < |rows| ==> !Names(rows[j].code, code))
              ==> code in ParentTable(rows)
                  && (ParentTable(rows)[code] == Some(p) <==> Names(rows[i].parent, p) && p != code)
  {
    hide NormalizeCode, Names, ParentTable;
    LastRowDecides(rows, code);
    forall i | 0 <= i < |rows|
      ensures NormalizeCode(rows[i].code) == Some(code) <==> Names(rows[i].code, code)
      ensures forall p :: NormalizeCode(rows[i].parent) == Some(p) <==> Names(rows[i].parent, p)
    {
      NamesExactly(rows[i].code, code);
      forall p
        ensures NormalizeCode(rows[i].parent) == Some(p) <==> Names(rows[i].parent, p)
      {
        NamesExactly(rows[i].parent, p);
      }
    }
  }

  method BuildParentMap(rows: seq<Row>) returns (parents: Parents)
    ensures parents == ParentTable(rows)
  {
    hide NormalizeCode;
    parents := map[];
    for n := 0 to |rows|
      invariant parents == ParentTable(rows[..n])
    {
      var code := NormalizeCode(rows[n].code);
      if code.Some? {
        parents := parents[code.value := RowParent(rows[n])];
      }
      assert rows[..n + 1][..n] == rows[..n];
    }
    assert rows[..|rows|] == rows;
  }

  // ---------- downwards: the subtree of a set of roots ----------

  function Normalized(roots: set<string>): set<Code> {
    set r | r in roots && NormalizeCode(Some(r)).Some? :: NormalizeCode(Some(r)).value
  }

  lemma RootsExactly(roots: set<string>, code: Code)
    ensures code in Normalized(roots) <==> exists r :: r in roots && Names(Some(r), code)
  {
    hide NormalizeCode, Names;
    forall r | r in roots
      ensures NormalizeCode(Some(r)) == Some(code) <==> Names(Some(r), code)
    {
      NamesExactly(Some(r), code);
    }
  }

  /** The roots and every unit below one of them. */
  ghost function Subtree(parents: Parents, roots: set<Code>): set<Code> {
    roots + set c | c in parents && Below(parents, roots, c)
  }

  lemma SubtreeIsBelow(parents: Parents, roots: set<Code>, code: Code)
    ensures code in Subtree(parents, roots) <==> Below(parents, roots, code)
  {
    if code in roots {
      assert AtRoot(parents, roots, code, 0);
    } else if Below(parents, roots, code) {
      var n: nat :| AtRoot(parents, roots, code, n);
      assert code in parents;
    }
  }

  lemma ChildInSubtree(parents: Parents, roots: set<Code>, child: Code, parent: Code)
    requires child in parents && parents[child] == Some(parent) && parent in Subtree(parents, roots)
    ensures child in Subtree(parents, roots)
  {
    SubtreeIsBelow(parents, roots, parent);
    var n: nat :| AtRoot(parents, roots, parent, n);
    assert AtRoot(parents, roots, child, n + 1);
  }

  /** A set that holds the roots and the children of its members holds the whole subtree. */
  lemma {:induction false} ClosedHoldsBelow(parents: Parents, roots: set<Code>, held: set<Code>, code: Code, n: nat)
    requires roots <= held
    requires forall c :: c in parents && parents[c].Some? && parents[c].value in held ==> c in held
    requires AtRoot(parents, roots, code, n)
    ensures code in held
    decreases n
  {
    if n > 0 {
      assert AtRoot(parents, roots, parents[code].value, n - 1);
      ClosedHoldsBelow(parents, roots, held, parents[code].value, n - 1);
    }
  }

  lemma ClosedHoldsSubtree(parents: Parents, roots: set<Code>, held: set<Code>)
    requires roots <= held
    requires forall c :: c in parents && parents[c].Some? && parents[c].value in held ==> c in held
    ensures Subtree(parents, roots) <= held
  {
    forall c | c in Subtree(parents, roots)
      ensures c in held
    {
      SubtreeIsBelow(parents, roots, c);
      var n: nat :| AtRoot(parents, roots, c, n);
      ClosedHoldsBelow(parents, roots, held, c, n);
    }
  }

  /** The inverted parent table. */
  ghost predicate ChildLists(parents: Parents, children: map<Code, seq<Code>>) {
    && (forall p, i :: p in children && 0 <= i < |children[p]| ==>
          children[p][i] in parents && parents[children[p][i]] == Some(p))
    && (forall c :: c in parents && parents[c].Some? ==>
          parents[c].value in children && c in children[parents[c].value])
  }

  function ChildrenOf(children: map<Code, seq<Code>>, code: Code): seq<Code> {
    if code in children then children[code] else []
  }

  method BuildChildren(parents: Parents) returns (children: map<Code, seq<Code>>)
    ensures ChildLists(parents, children)
  {
    children := map[];
    var todo := parents.Keys;
    while todo != {}
      invariant todo <= parents.Keys
      invariant forall p, i :: p in children && 0 <= i < |children[p]| ==>
                  children[p][i] in parents && parents[children[p][i]] == Some(p)
      invariant forall c :: c in parents && c !in todo && parents[c].Some? ==>
                  parents[c].value in children && c in children[parents[c].value]
      decreases todo
    {
      var child :| child in todo;
      todo := todo - {child};
      if parents[child].Some? {
        var p := parents[child].value;
        var longer := ChildrenOf(children, p) + [child];
        assert child == longer[|longer| - 1];
        assert forall c :: c in ChildrenOf(children, p) ==> c in longer;
        children := children[p := longer];
      }
    }
  }

  /** Depth-first from the normalised roots down the parent links: exactly the subtree, cycles or not. */
  method SubtreeCodes(parents: Parents, roots: set<string>) returns (result: set<Code>)
    ensures result == Subtree(parents, Normalized(roots))
  {
    hide NormalizeCode, Below;
    var children := BuildChildren(parents);
    ghost var normal := Normalized(roots);
    ghost var all := parents.Keys + normal;
    var stack: seq<Code> := [];
    var todo := roots;
    while todo != {}
      invariant todo <= roots
      invariant forall i :: 0 <= i < |stack| ==> stack[i] in normal
      invariant forall r :: r in roots - todo && NormalizeCode(Some(r)).Some? ==> NormalizeCode(Some(r)).value in stack
      decreases todo
    {
      var r :| r in todo;
      todo := todo - {r};
      if NormalizeCode(Some(r)).Some? {
        stack := stack + [NormalizeCode(Some(r)).value];
      }
    }
    result := Descend(parents, normal, children, stack);
    ClosedHoldsSubtree(parents, normal, result);
  }

  /** The work-stack loop shared by the two downward traversals. */
  method Descend(parents: Parents, ghost roots: set<Code>, children: map<Code, seq<Code>>, start: seq<Code>)
    returns (seen: set<Code>)
    requires ChildLists(parents, children)
    requires forall i :: 0 <= i < |start| ==> start[i] in Subtree(parents, roots)
    ensures seen <= Subtree(parents, roots)
    ensures forall i :: 0 <= i < |start| ==> start[i] in seen
    ensures forall c :: c in parents && parents[c].Some? && parents[c].value in seen ==> c in seen
    ensures forall c :: c in seen ==> c in start || (c in parents && parents[c].Some? && parents[c].value in seen)
  {
    hide Subtree;
    seen := {};
    var stack := start;
    while stack != []
      invariant seen <= Subtree(parents, roots)
      invariant forall i :: 0 <= i < |stack| ==> stack[i] in Subtree(parents, roots)
      invariant forall i :: 0 <= i < |start| ==> start[i] in seen || start[i] in stack
      invariant forall c :: c in parents && parents[c].Some? && parents[c].value in seen ==> c in seen || c in stack
      invariant forall c :: c in seen || c in stack ==>
                  c in start || (c in parents && parents[c].Some? && parents[c].value in seen)
      decreases Subtree(parents, roots) - seen, |stack|
    {
      var node := stack[|stack| - 1];
      ghost var before := stack;
      stack := stack[..|stack| - 1];
      assert before == stack + [node];
      if node !in seen {
        seen := seen + {node};
        var more := ChildrenOf(children, node);
        forall i | 0 <= i < |more|
          ensures more[i] in Subtree(parents, roots)
        {
          ChildInSubtree(parents, roots, more[i], node);
        }
        stack := stack + more;
      }
    }
  }

  /** The units strictly below a unit: those that climb to it in one step or more. A unit on a cycle is below itself. */
  ghost function Descendants(parents: Parents, code: Code): set<Code> {
    set c | c in parents && exists n: nat :: n >= 1 && Climb(parents, c, n) == Some(code)
  }

  ghost function Children(parents: Parents, code: Code): set<Code> {
    set c | c in parents && parents[c] == Some(code)
  }

  lemma {:induction false} ClimbLast(parents: Parents, code: Code, n: nat)
    ensures Climb(parents, code, n + 1)
         == match Climb(parents, code, n) case None => None case Some(top) => Up(parents, top)
    decreases n
  {
    if n > 0 && Up(parents, code).Some? {
      ClimbLast(parents, Up(parents, code).value, n - 1);
    }
  }

  /** The units strictly below a unit are the subtree of its children. */
  lemma DescendantsAreSubtree(parents: Parents, code: Code)
    ensures Descendants(parents, code) == Subtree(parents, Children(parents, code))
  {
    var kids := Children(parents, code);
    forall c
      ensures c in Descendants(parents, code) <==> c in Subtree(parents, kids)
    {
      SubtreeIsBelow(parents, kids, c);
      if c in Descendants(parents, code) {
        var n: nat :| n >= 1 && Climb(parents, c, n) == Some(code);
        ClimbLast(parents, c, n - 1);
        assert AtRoot(parents, kids, c, n - 1);
      }
      if Below(parents, kids, c) {
        var n: nat :| AtRoot(parents, kids, c, n);
        ClimbLast(parents, c, n);
        assert Climb(parents, c, n + 1) == Some(code);
        assert c in parents;
      }
    }
  }

  method DescendantsCount(parents: Parents, code: Code) returns (count: nat)
    ensures count == |Descendants(parents, code)|
  {
    hide Below, Descendants;
    var children := BuildChildren(parents);
    ghost var kids := Children(parents, code);
    DescendantsAreSubtree(parents, code);
    assert forall c :: c in kids ==> c in ChildrenOf(children, code);
    var seen := Descend(parents, kids, children, ChildrenOf(children, code));
    ClosedHoldsSubtree(parents, kids, seen);
    assert seen == Descendants(parents, code);
    count := |seen|;
  }

  /** The count is the size of the unit's subtree without the unit itself, except on a parent cycle, where the unit is
      its own descendant and is counted too. */
  lemma CountAndSubtree(parents: Parents, code: Code)
    ensures |Subtree(parents, {code})|
         == |Descendants(parents, code)| + if code in Descendants(parents, code) then 0 else 1
  {
    forall c
      ensures c in Subtree(parents, {code}) <==> c == code || c in Descendants(parents, code)
    {
      SubtreeIsBelow(parents, {code}, c);
      if c in Descendants(parents, code) {
        var n: nat :| n >= 1 && Climb(parents, c, n) == Some(code);
        assert AtRoot(parents, {code}, c, n);
      }
      if Below(parents, {code}, c) && c != code {
        var n: nat :| AtRoot(parents, {code}, c, n);
        assert n >= 1 && Climb(parents, c, n) == Some(code);
      }
    }
    assert Subtree(parents, {code}) == Descendants(parents, code) + {code};
  }

  // ---------- up and down agree ----------

  lemma {:induction false} NearestOwnerRoot(parents: Parents, owner: map<Code, int>, code: Code)
    ensures NearestOwner(parents, owner, code).Some? <==> Below(parents, owner.Keys, code)
    ensures NearestOwner(parents, owner, code).Some? ==>
              exists n: nat :: AtRoot(parents, owner.Keys, code, n)
                && NearestOwner(parents, owner, code) == Some(owner[Climb(parents, code, n).value])
  {
    if Below(parents, owner.Keys, code) {
      var bound: nat :| AtRoot(parents, owner.Keys, code, bound);
      NearestOwnerAt(parents, owner, code, FirstRoot(parents, owner.Keys, code, bound));
    }
  }

  /** A unit gets a site by climbing exactly when it is reached by descending from all roots together. */
  lemma UpDownDuality(parents: Parents, owner: map<Code, int>, code: Code)
    ensures NearestOwner(parents, owner, code).Some? <==> code in Subtree(parents, owner.Keys)
  {
    NearestOwnerRoot(parents, owner, code);
    SubtreeIsBelow(parents, owner.Keys, code);
  }

  /** A unit assigned to a site lies in the subtree of that site's own roots. */
  lemma AssignedLiesBelow(
    parents: Parents, rootsBySite: map<int, set<Code>>, owner: map<Code, int>, code: Code, site: int
  )
    requires OwnerMap(rootsBySite, owner)
    requires NearestOwner(parents, owner, code) == Some(site)
    ensures site in rootsBySite && code in Subtree(parents, rootsBySite[site])
  {
    NearestOwnerRoot(parents, owner, code);
    var n: nat :| AtRoot(parents, owner.Keys, code, n)
               && NearestOwner(parents, owner, code) == Some(owner[Climb(parents, code, n).value]);
    assert AtRoot(parents, rootsBySite[site], code, n);
    SubtreeIsBelow(parents, rootsBySite[site], code);
  }

  /** With a single site the two views coincide. */
  lemma SingleSiteCoincides(
    parents: Parents, rootsBySite: map<int, set<Code>>, owner: map<Code, int>, site: int, code: Code
  )
    requires OwnerMap(rootsBySite, owner) && rootsBySite.Keys == {site}
    ensures NearestOwner(parents, owner, code) == Some(site) <==> code in Subtree(parents, rootsBySite[site])
  {
    assert owner.Keys == rootsBySite[site];
    UpDownDuality(parents, owner, code);
    if NearestOwner(parents, owner, code).Some? {
      NearestOwnerRoot(parents, owner, code);
    }
  }
}
