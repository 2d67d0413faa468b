/** Cyclic search through the tree (TreeSearcher.cs). The window's top-level
    items are the children of the root node the extractor builds, and each of
    them still points to that root as its parent, so `WalkToNextTreeItem`
    moves from one top-level subtree into the next. Here the search works on
    that root `t`; the items it visits are the nodes at non-empty paths. */
module TreeSearcher {
  import opened Wrappers
  import opened Text
  import opened TreeItems

  /** The items the search can visit: every node but the root. */
  predicate Visitable(t: Item, p: Path)
  {
    ValidPath(t, p) && p != []
  }

  /** How many items the cycle has. */
  function Count(t: Item): nat
  {
    Size(t) - 1
  }

  /** The place of an item in the pre-order listing of the top-level items. */
  function Index(t: Item, p: Path): (r: nat)
    requires Visitable(t, p)
    ensures r < Count(t)
  {
    PosBound(t, p);
    Pos(t, p) - 1
  }

  /** `WalkToNextTreeItem(current)` of the searcher: the pre-order successor,
      or, from no item or past the last one, the first top-level item. */
  function Successor(t: Item, current: Option<Path>): (r: Path)
    requires |t.children| > 0 && (current.Some? ==> ValidPath(t, current.value))
    ensures Visitable(t, r)
  {
    assert ValidPath(t, [0]) by {
      assert [0][1..] == [];
    }
    if current.None? then [0]
    else match WalkToNext(t, current.value, true)
      case Some(q) => q
      case None => [0]
  }

  /** `(f + k) mod n`, for `k <= n`. */
  function Add(f: nat, k: nat, n: nat): nat
  {
    if f + k < n then f + k else f + k - n
  }

  /** How far `x` comes after `f` going round a cycle of `n`. */
  function Offset(f: nat, x: nat, n: nat): nat
    requires f <= n && x <= n
  {
    if x >= f then x - f else x + n - f
  }

  /** The successor steps to the next place in cyclic order. */
  lemma {:induction false} SuccessorStep(t: Item, p: Path)
    requires |t.children| > 0 && Visitable(t, p)
    ensures Index(t, Successor(t, Some(p))) == Add(Index(t, p), 1, Count(t))
  {
    WalkIsPreOrderSuccessor(t, p);
    FirstIndex(t);
  }

  lemma {:induction false} FirstIndex(t: Item)
    requires |t.children| > 0
    ensures Visitable(t, [0]) && Index(t, [0]) == 0
  {
    assert [0][1..] == [];
    assert Pos(t, [0]) == 1 + SizeAll(t.children[..0]) + Pos(t.children[0], []);
    assert t.children[..0] == [];
  }

  /** Items with the same place are the same item. */
  lemma {:induction false} SameIndex(t: Item, p: Path, q: Path)
    requires Visitable(t, p) && Visitable(t, q) && Index(t, p) == Index(t, q)
    ensures p == q
  {
    PosInjective(t, p, q);
  }

  /** The start item itself comes last in the cycle. */
  lemma {:induction false} StartComesLast(t: Item, start: Path)
    requires |t.children| > 0 && Visitable(t, start)
    ensures var f := Index(t, Successor(t, Some(start)));
      Offset(f, Index(t, start), Count(t)) == Count(t) - 1
  {
    SuccessorStep(t, start);
  }

  /** `FindNext(startExclusive, searchText)`: the search text is lower-cased,
      then the items are visited in cyclic pre-order from the successor of
      the start, each at most once, and the first that matches is returned;
      none matches exactly when no item of the tree does. */
  method FindNext(t: Item, startExclusive: Option<Path>, searchText: string) returns (r: Option<Path>)
    requires |t.children| > 0
    requires startExclusive.Some? ==> Visitable(t, startExclusive.value)
    ensures var text := ToLower(searchText);
      var first := Index(t, Successor(t, startExclusive));
      match r
      case Some(found) =>
        && Visitable(t, found)
        && MatchesFilter(At(t, found), text)
        && forall q :: Visitable(t, q) && Offset(first, Index(t, q), Count(t)) < Offset(first, Index(t, found), Count(t))
             ==> !MatchesFilter(At(t, q), text)
      case None =>
        forall q :: Visitable(t, q) ==> !MatchesFilter(At(t, q), text)
  {
    var text := ToLower(searchText);
    ghost var n := Count(t);
    var current := Successor(t, startExclusive);
    var last := current;
    ghost var first := Index(t, current);
    if MatchesFilter(At(t, current), text) {
      return Some(current);
    }
    forall q | Visitable(t, q) && Offset(first, Index(t, q), n) == 0
      ensures q == last
    {
      SameIndex(t, q, last);
    }
    SuccessorStep(t, current);
    current := Successor(t, Some(current));
    ghost var k := 1;
    while current != last
      invariant 1 <= k <= n && Visitable(t, current)
      invariant Index(t, current) == Add(first, k, n)
      invariant forall q :: Visitable(t, q) && Offset(first, Index(t, q), n) < k ==> !MatchesFilter(At(t, q), text)
      decreases n - k
    {
      if k == n {
        SameIndex(t, current, last);
      }
      if MatchesFilter(At(t, current), text) {
        return Some(current);
      }
      forall q | Visitable(t, q) && Offset(first, Index(t, q), n) == k
        ensures q == current
      {
        SameIndex(t, q, current);
      }
      SuccessorStep(t, current);
      current := Successor(t, Some(current));
      k := k + 1;
    }
    assert k == n;
    r := None;
  }
}
