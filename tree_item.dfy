/** The tree the extractor builds and the window shows (ViewModels/TreeItem.cs).
    A `TreeItem` object points to its parent; here the tree is a value and an
    item is named by its path from the root: the indices of the children to
    follow. The parent of the item at `p + [i]` is the item at `p`. */
module TreeItems {
  import opened Wrappers
  import opened Text
  import opened Usages
  import opened Sorting

  /** One tree node: a folder, a source file or a text (key) item. A text item
      is one with translations; `selectionIndex` is 1-based. */
  datatype Item = Item(
    key: string,
    isFolder: bool,
    fullFilename: Option<string>,
    tokenUsages: Option<seq<TokenUsage>>,
    translations: Option<seq<Translation>>,
    isDefaultKey: bool,
    isExpanded: bool,
    isSelected: bool,
    selectedUsage: Option<TokenUsage>,
    selectionIndex: int,
    children: seq<Item>)

  /** A `new TreeItem { Key = key }`: no children, nothing else set. */
  function NewItem(key: string): (r: Item)
    ensures r.key == key && r.children == [] && !r.isFolder
    ensures r.translations.None? && r.tokenUsages.None? && r.fullFilename.None?
  {
    Item(key, false, None, None, None, false, false, false, None, 0, [])
  }

  type Path = seq<nat>

  predicate IsTextItem(i: Item)
  {
    i.translations.Some?
  }

  predicate HasSourceFile(i: Item)
  {
    i.fullFilename.Some?
  }

  predicate IsNew(i: Item)
  {
    IsTextItem(i) && i.key == "NEW"
  }

  /** The node itself, its children left aside. */
  function Node(i: Item): Item
  {
    i.(children := [])
  }

  // ---------------------------------------------------------------------------
  // Paths.

  predicate ValidPath(t: Item, p: Path)
    decreases p
  {
    p == [] || (p[0] < |t.children| && ValidPath(t.children[p[0]], p[1..]))
  }

  function At(t: Item, p: Path): Item
    requires ValidPath(t, p)
    decreases p
  {
    if p == [] then t else At(t.children[p[0]], p[1..])
  }

  /** The tree with the node at `p` replaced by `n`. */
  function Replace(t: Item, p: Path, n: Item): Item
    requires ValidPath(t, p)
    decreases p
  {
    if p == [] then n
    else t.(children := t.children[p[0] := Replace(t.children[p[0]], p[1..], n)])
  }

  lemma {:induction false} AtAppend(t: Item, r: Path, k: nat)
    requires ValidPath(t, r)
    ensures ValidPath(t, r + [k]) <==> k < |At(t, r).children|
    ensures ValidPath(t, r + [k]) ==> At(t, r + [k]) == At(t, r).children[k]
    decreases r
  {
    if r == [] {
      assert [] + [k] == [k];
    } else {
      assert (r + [k])[1..] == r[1..] + [k];
      AtAppend(t.children[r[0]], r[1..], k);
    }
  }

  lemma {:induction false} PrefixValid(t: Item, p: Path, k: nat)
    requires ValidPath(t, p) && k <= |p|
    ensures ValidPath(t, p[..k])
    decreases p
  {
    if k > 0 {
      assert p[..k][1..] == p[1..][..k - 1];
      PrefixValid(t.children[p[0]], p[1..], k - 1);
    }
  }

  /** Replacing a node by one with the same children keeps every path and
      every other node; only the node at `p` changes. */
  lemma {:induction false} ReplaceAt(t: Item, p: Path, n: Item, q: Path)
    requires ValidPath(t, p) && n.children == At(t, p).children
    ensures ValidPath(Replace(t, p, n), q) == ValidPath(t, q)
    ensures ValidPath(t, q) ==>
      Node(At(Replace(t, p, n), q)) == (if q == p then Node(n) else Node(At(t, q)))
    decreases p
  {
    if p == [] {
      assert Replace(t, p, n) == n;
      if q != [] {
        assert n.children == t.children;
        assert ValidPath(n, q) == ValidPath(t, q);
        if ValidPath(t, q) {
          assert At(n, q) == At(n.children[q[0]], q[1..]);
        }
      }
    } else if q != [] {
      var r := Replace(t, p, n);
      if q[0] == p[0] {
        ReplaceAt(t.children[p[0]], p[1..], n, q[1..]);
        if q[1..] == p[1..] {
          assert q == p by {
            assert q == [q[0]] + q[1..] && p == [p[0]] + p[1..];
          }
        }
      } else if q[0] < |t.children| {
        assert r.children[q[0]] == t.children[q[0]];
      }
    }
  }

  // ---------------------------------------------------------------------------
  // Pre-order positions.

  function Size(t: Item): nat
    decreases t
  {
    1 + SizeAll(t.children)
  }

  function SizeAll(ts: seq<Item>): nat
    decreases ts
  {
    if ts == [] then 0 else SizeAll(ts[..|ts| - 1]) + Size(ts[|ts| - 1])
  }

  /** The index of the node at `p` in the pre-order listing of `t`. */
  function Pos(t: Item, p: Path): nat
    requires ValidPath(t, p)
    decreases p
  {
    if p == [] then 0
    else 1 + SizeAll(t.children[..p[0]]) + Pos(t.children[p[0]], p[1..])
  }

  lemma {:induction false} SizeAllStep(ts: seq<Item>, k: nat)
    requires k < |ts|
    ensures SizeAll(ts[..k + 1]) == SizeAll(ts[..k]) + Size(ts[k])
  {
    assert ts[..k + 1][..k] == ts[..k];
  }

  lemma {:induction false} SizeAllPrefix(ts: seq<Item>, k: nat, m: nat)
    requires k <= m <= |ts|
    ensures SizeAll(ts[..k]) <= SizeAll(ts[..m])
    decreases m - k
  {
    if k < m {
      SizeAllStep(ts, k);
      SizeAllPrefix(ts, k + 1, m);
    }
  }

  lemma {:induction false} PosBound(t: Item, p: Path)
    requires ValidPath(t, p)
    ensures Pos(t, p) < Size(t)
    decreases p
  {
    if p != [] {
      PosBound(t.children[p[0]], p[1..]);
      SizeAllStep(t.children, p[0]);
      SizeAllPrefix(t.children, p[0] + 1, |t.children|);
      assert t.children[..|t.children|] == t.children;
    }
  }

  /** Different nodes have different positions. */
  lemma {:induction false} PosInjective(t: Item, p: Path, q: Path)
    requires ValidPath(t, p) && ValidPath(t, q) && Pos(t, p) == Pos(t, q)
    ensures p == q
    decreases p
  {
    if p != [] && q != [] {
      if p[0] == q[0] {
        PosInjective(t.children[p[0]], p[1..], q[1..]);
        assert p == [p[0]] + p[1..] && q == [q[0]] + q[1..];
      } else if p[0] < q[0] {
        PosBelowNext(t, p, q);
      } else {
        PosBelowNext(t, q, p);
      }
    }
  }

  lemma {:induction false} PosBelowNext(t: Item, p: Path, q: Path)
    requires ValidPath(t, p) && ValidPath(t, q) && p != [] && q != [] && p[0] < q[0]
    ensures Pos(t, p) < Pos(t, q)
  {
    PosBound(t.children[p[0]], p[1..]);
    SizeAllStep(t.children, p[0]);
    SizeAllPrefix(t.children, p[0] + 1, q[0]);
  }

  lemma {:induction false} PosAppend(t: Item, r: Path, k: nat)
    requires ValidPath(t, r) && k < |At(t, r).children|
    ensures ValidPath(t, r + [k])
    ensures Pos(t, r + [k]) == Pos(t, r) + 1 + SizeAll(At(t, r).children[..k])
    decreases r
  {
    AtAppend(t, r, k);
    if r == [] {
      assert [] + [k] == [k];
    } else {
      assert (r + [k])[1..] == r[1..] + [k];
      PosAppend(t.children[r[0]], r[1..], k);
    }
  }

  // ---------------------------------------------------------------------------
  // WalkToNextTreeItem.

  /** The next node after `p`: its first child when stepping into children is
      allowed and it has any, else its next sibling, else its parent's next
      node without re-entering the parent's children; `None` past the last
      node of the tree. */
  function WalkToNext(t: Item, p: Path, stepInto: bool): (r: Option<Path>)
    requires ValidPath(t, p)
    ensures r.Some? ==> ValidPath(t, r.value) && r.value != []
    decreases |p|
  {
    if stepInto && |At(t, p).children| > 0 then
      AtAppend(t, p, 0);
      assert p + [0] != [];
      Some(p + [0])
    else if p == [] then None
    else
      var parent := p[..|p| - 1];
      var idx := p[|p| - 1];
      PrefixValid(t, p, |p| - 1);
      AtAppend(t, parent, idx);
      assert parent + [idx] == p;
      if |At(t, parent).children| > idx + 1 then
        AtAppend(t, parent, idx + 1);
        assert parent + [idx + 1] != [];
        Some(parent + [idx + 1])
      else WalkToNext(t, parent, false)
  }

  /** Without stepping into children, the next node comes right after the
      subtree at `p`, or the subtree reaches the end of the tree. */
  lemma {:induction false} WalkSkipsSubtree(t: Item, p: Path)
    requires ValidPath(t, p)
    ensures match WalkToNext(t, p, false)
            case Some(q) => Pos(t, q) == Pos(t, p) + Size(At(t, p))
            case None => Pos(t, p) + Size(At(t, p)) == Size(t)
    decreases |p|
  {
    if p == [] {
    } else {
      var parent := p[..|p| - 1];
      var idx := p[|p| - 1];
      PrefixValid(t, p, |p| - 1);
      assert parent + [idx] == p;
      AtAppend(t, parent, idx);
      PosAppend(t, parent, idx);
      var cs := At(t, parent).children;
      SizeAllStep(cs, idx);
      if |cs| > idx + 1 {
        PosAppend(t, parent, idx + 1);
      } else {
        WalkSkipsSubtree(t, parent);
        assert cs[..idx + 1] == cs;
      }
    }
  }

  /** `WalkToNextTreeItem()` is the pre-order successor: it moves to the next
      position, and returns nothing exactly at the last one. */
  lemma {:induction false} WalkIsPreOrderSuccessor(t: Item, p: Path)
    requires ValidPath(t, p)
    ensures match WalkToNext(t, p, true)
            case Some(q) => Pos(t, q) == Pos(t, p) + 1
            case None => Pos(t, p) == Size(t) - 1
  {
    var n := At(t, p);
    if |n.children| > 0 {
      PosAppend(t, p, 0);
    } else {
      WalkSkipsSubtree(t, p);
      assert Size(n) == 1;
    }
  }

  // ---------------------------------------------------------------------------
  // ExpandParents.

  /** `ExpandParents()` on the node at `p`: every ancestor is expanded, from the
      parent up to the root; no path and no other node changes, not even the
      node at `p`. */
  method ExpandParents(root: Item, p: Path) returns (r: Item)
    requires ValidPath(root, p)
    ensures forall q :: ValidPath(r, q) <==> ValidPath(root, q)
    ensures forall q :: ValidPath(root, q) ==>
      Node(At(r, q)) == (if q < p then Node(At(root, q)).(isExpanded := true) else Node(At(root, q)))
  {
    r := root;
    var k := |p|;
    while k > 0
      invariant 0 <= k <= |p|
      invariant ExpandedFrom(root, r, p, k)
    {
      k := k - 1;
      PrefixValid(root, p, k);
      var parent := p[..k];
      var current := At(r, parent);
      ExpandStep(root, r, p, k);
      r := Replace(r, parent, current.(isExpanded := true));
    }
  }

  /** `r` is `root` with the ancestors of the node at `p` from depth `k` down
      expanded. */
  ghost predicate ExpandedFrom(root: Item, r: Item, p: Path, k: nat)
  {
    && (forall q :: ValidPath(r, q) <==> ValidPath(root, q))
    && (forall q :: ValidPath(root, q) ==>
          Node(At(r, q)) == (if q < p && k <= |q| then Node(At(root, q)).(isExpanded := true) else Node(At(root, q))))
  }

  /** Expanding the ancestor at depth `k` extends the expanded range by one. */
  lemma {:induction false} ExpandStep(root: Item, before: Item, p: Path, k: nat)
    requires ValidPath(root, p) && k < |p| && ExpandedFrom(root, before, p, k + 1)
    ensures ValidPath(before, p[..k])
    ensures ExpandedFrom(root, Replace(before, p[..k], At(before, p[..k]).(isExpanded := true)), p, k)
  {
    PrefixValid(root, p, k);
    var parent := p[..k];
    var current := At(before, parent);
    var r := Replace(before, parent, current.(isExpanded := true));
    forall q | true
      ensures ValidPath(r, q) == ValidPath(before, q)
      ensures ValidPath(before, q) ==>
        (Node(At(r, q)) == if q == parent then Node(current.(isExpanded := true)) else Node(At(before, q)))
    {
      ReplaceAt(before, parent, current.(isExpanded := true), q);
    }
    forall q | ValidPath(root, q)
      ensures Node(At(r, q)) ==
        (if q < p && k <= |q| then Node(At(root, q)).(isExpanded := true) else Node(At(root, q)))
    {
      if q == parent {
        assert q < p;
      } else if q < p && k <= |q| {
        assert q == p[..|q|];
      }
    }
  }

  // ---------------------------------------------------------------------------
  // Flags.

  /** The characters of the key pattern's class `[a-zA-Z0-9-_]`. */
  predicate KeyChar(c: char)
  {
    'a' <= c <= 'z' || 'A' <= c <= 'Z' || '0' <= c <= '9' || c == '-' || c == '_'
  }

  /** `[a-zA-Z0-9-_]+(\.[a-zA-Z0-9-_]+)*` matching all of `s`. */
  predicate Segments(s: string)
    decreases |s|
  {
    |s| >= 1 && KeyChar(s[0]) && SegmentsRest(s[1..])
  }

  /** `[a-zA-Z0-9-_]*(\.[a-zA-Z0-9-_]+)*` matching all of `s`. */
  predicate SegmentsRest(s: string)
    decreases |s|
  {
    s == [] || (KeyChar(s[0]) && SegmentsRest(s[1..])) || (s[0] == '.' && Segments(s[1..]))
  }

  /** `KeyRegex.IsMatch(key)`: anchored at the start; `$` also matches in
      front of a final line feed. */
  predicate KeyMatches(key: string)
  {
    Segments(key) || (|key| >= 1 && key[|key| - 1] == '\n' && Segments(key[..|key| - 1]))
  }

  predicate IsValid(i: Item)
  {
    !IsTextItem(i) || KeyMatches(i.key)
  }

  predicate AllKeyChars(s: string)
  {
    forall k :: 0 <= k < |s| ==> KeyChar(s[k])
  }

  predicate GoodSegment(s: string)
  {
    s != [] && AllKeyChars(s)
  }

  predicate AllGoodSegments(parts: seq<string>)
  {
    forall k :: 0 <= k < |parts| ==> GoodSegment(parts[k])
  }

  /** The key pattern accepts exactly the texts whose dot-separated pieces are
      all non-empty runs of key characters. */
  lemma {:induction false} SegmentsIffSplit(s: string)
    ensures Segments(s) <==> AllGoodSegments(Split(s, '.'))
    decreases |s|
  {
    var i := IndexOfChar(s, '.');
    if s == [] || i == 0 {
      EmptyFirstSegment(s);
    } else if i < 0 {
      SegmentsWithoutDot(s);
      SplitWithoutDot(s);
    } else {
      SegmentsWithDot(s, i);
      SegmentsIffSplit(s[i + 1..]);
      SplitAtDot(s, i);
      AllGoodCons(s[..i], Split(s[i + 1..], '.'));
    }
  }

  /** A text that is empty or starts with a dot matches neither side. */
  lemma {:induction false} EmptyFirstSegment(s: string)
    requires s == [] || IndexOfChar(s, '.') == 0
    ensures !Segments(s) && !AllGoodSegments(Split(s, '.'))
  {
    var parts := Split(s, '.');
    if s == [] {
      assert parts == [s];
    } else {
      assert parts[0] == s[..0] == [];
      assert !KeyChar(s[0]);
    }
    assert !GoodSegment(parts[0]);
  }

  lemma {:induction false} SplitWithoutDot(s: string)
    requires IndexOfChar(s, '.') < 0
    ensures AllGoodSegments(Split(s, '.')) <==> GoodSegment(s)
  {
    var parts := Split(s, '.');
    assert parts == [s];
    assert AllGoodSegments(parts) <==> GoodSegment(parts[0]);
  }

  lemma {:induction false} SplitAtDot(s: string, i: nat)
    requires i < |s| && IndexOfChar(s, '.') == i
    ensures Split(s, '.') == [s[..i]] + Split(s[i + 1..], '.')
  {
  }

  lemma {:induction false} SegmentsWithoutDot(s: string)
    requires s != [] && IndexOfChar(s, '.') < 0
    ensures Segments(s) <==> GoodSegment(s)
  {
    assert '.' !in s[1..] by {
      assert forall x :: 0 <= x < |s[1..]| ==> s[1..][x] == s[x + 1];
    }
    RestSplit(s[1..]);
    KeyCharsCons(s);
  }

  lemma {:induction false} SegmentsWithDot(s: string, i: nat)
    requires 0 < i < |s| && IndexOfChar(s, '.') == i
    ensures Segments(s) <==> GoodSegment(s[..i]) && Segments(s[i + 1..])
  {
    var t := s[1..];
    assert IndexOfChar(t, '.') == i - 1;
    RestSplit(t);
    assert t[..i - 1] == s[1..i];
    assert t[i - 1 + 1..] == s[i + 1..];
    assert SegmentsRest(t) <==> AllKeyChars(s[1..i]) && Segments(s[i + 1..]);
    KeyCharsCons(s[..i]);
    assert s[..i][1..] == s[1..i];
  }

  lemma {:induction false} KeyCharsCons(s: string)
    requires s != []
    ensures AllKeyChars(s) <==> KeyChar(s[0]) && AllKeyChars(s[1..])
  {
    assert forall x :: 0 < x < |s| ==> s[x] == s[1..][x - 1];
  }

  lemma {:induction false} AllGoodCons(first: string, rest: seq<string>)
    ensures AllGoodSegments([first] + rest) <==> GoodSegment(first) && AllGoodSegments(rest)
  {
    var all := [first] + rest;
    assert forall k :: 0 < k < |all| ==> all[k] == rest[k - 1];
    if GoodSegment(first) && AllGoodSegments(rest) {
      forall k | 0 <= k < |all|
        ensures GoodSegment(all[k])
      {
        if k > 0 {
          assert all[k] == rest[k - 1];
        }
      }
    }
    if AllGoodSegments(all) {
      assert all[0] == first;
      forall k | 0 <= k < |rest|
        ensures GoodSegment(rest[k])
      {
        assert rest[k] == all[k + 1];
      }
    }
  }

  lemma {:induction false} RestSplit(s: string)
    ensures IndexOfChar(s, '.') < 0 ==> (SegmentsRest(s) <==> AllKeyChars(s))
    ensures IndexOfChar(s, '.') >= 0 ==>
      (SegmentsRest(s) <==> AllKeyChars(s[..IndexOfChar(s, '.')]) && Segments(s[IndexOfChar(s, '.') + 1..]))
    decreases |s|
  {
    if s != [] && s[0] != '.' {
      RestSplit(s[1..]);
      var i := IndexOfChar(s, '.');
      assert !KeyChar('.');
      if i >= 0 {
        assert IndexOfChar(s[1..], '.') == i - 1;
        assert s[1..][..i - 1] == s[1..i];
        assert s[1..][i - 1 + 1..] == s[i + 1..];
        assert s[..i] == [s[0]] + s[1..i];
      } else {
        assert s == [s[0]] + s[1..];
      }
    }
  }

  /** `Label`: a valid text item under the default key naming drops its
      namespace `ns` from the key; the slice fails when the key is shorter
      than the namespace. Every other node shows its key. */
  function Label(i: Item, ns: string): (r: Option<string>)
    ensures !(IsTextItem(i) && IsValid(i) && i.isDefaultKey) ==> r == Some(i.key)
    ensures IsTextItem(i) && IsValid(i) && i.isDefaultKey && StartsWith(i.key, ns) ==>
              r.Some? && ns + r.value == i.key
    ensures r.None? <==> IsTextItem(i) && IsValid(i) && i.isDefaultKey && |i.key| < |ns|
  {
    if IsTextItem(i) && IsValid(i) && i.isDefaultKey then
      if |ns| <= |i.key| then Some(i.key[|ns|..]) else None
    else Some(i.key)
  }

  // ---------------------------------------------------------------------------
  // Counts.

  predicate IsNullOrEmpty(text: Option<string>)
  {
    text.None? || text.value == []
  }

  predicate IsNullOrWhiteSpace(text: Option<string>)
  {
    text.None? || IsBlank(text.value)
  }

  function CountEmpty(ts: seq<Translation>): nat
  {
    if ts == [] then 0
    else CountEmpty(ts[..|ts| - 1]) + (if IsNullOrEmpty(ts[|ts| - 1].text) then 1 else 0)
  }

  /** The item's own untranslated texts. */
  function OwnMissing(i: Item): nat
  {
    if IsTextItem(i) then CountEmpty(i.translations.value) else 0
  }

  /** `MissingTranslationsCount`. */
  function MissingCount(i: Item): nat
    decreases i
  {
    OwnMissing(i) + MissingCountAll(i.children)
  }

  function MissingCountAll(cs: seq<Item>): nat
    decreases cs
  {
    if cs == [] then 0 else MissingCountAll(cs[..|cs| - 1]) + MissingCount(cs[|cs| - 1])
  }

  predicate HasMissingTranslations(i: Item)
  {
    MissingCount(i) > 0
  }

  /** An item has missing translations exactly when some text item in its
      subtree (the item included) has a null or empty text. */
  lemma {:induction false} HasMissingIff(i: Item)
    ensures HasMissingTranslations(i) ==> exists q :: ValidPath(i, q) && OwnMissing(At(i, q)) > 0
    ensures (exists q :: ValidPath(i, q) && OwnMissing(At(i, q)) > 0) ==> HasMissingTranslations(i)
    decreases i
  {
    MissingAllIff(i.children);
    if MissingCountAll(i.children) > 0 {
      var k, q :| 0 <= k < |i.children| && ValidPath(i.children[k], q) && OwnMissing(At(i.children[k], q)) > 0;
      assert ([k] + q)[1..] == q;
      assert ValidPath(i, [k] + q) && At(i, [k] + q) == At(i.children[k], q);
    }
    if OwnMissing(i) > 0 {
      assert ValidPath(i, []) && At(i, []) == i;
    }
    if q :| ValidPath(i, q) && OwnMissing(At(i, q)) > 0 {
      if q == [] {
        assert OwnMissing(i) > 0;
      } else {
        var k, q' := q[0], q[1..];
        assert 0 <= k < |i.children| && ValidPath(i.children[k], q') && OwnMissing(At(i.children[k], q')) > 0;
        assert MissingCountAll(i.children) > 0;
      }
    }
  }

  lemma {:induction false} MissingAllIff(cs: seq<Item>)
    ensures MissingCountAll(cs) > 0 ==>
      exists k, q :: 0 <= k < |cs| && ValidPath(cs[k], q) && OwnMissing(At(cs[k], q)) > 0
    ensures (exists k, q :: 0 <= k < |cs| && ValidPath(cs[k], q) && OwnMissing(At(cs[k], q)) > 0) ==>
      MissingCountAll(cs) > 0
    decreases cs
  {
    if cs != [] {
      var n := |cs| - 1;
      var init := cs[..n];
      MissingAllIff(init);
      HasMissingIff(cs[n]);
      if MissingCountAll(init) > 0 {
        var k, q :| 0 <= k < |init| && ValidPath(init[k], q) && OwnMissing(At(init[k], q)) > 0;
        assert init[k] == cs[k];
      }
      if MissingCount(cs[n]) > 0 {
        var q :| ValidPath(cs[n], q) && OwnMissing(At(cs[n], q)) > 0;
      }
      if k, q :| 0 <= k < |cs| && ValidPath(cs[k], q) && OwnMissing(At(cs[k], q)) > 0 {
        if k < n {
          assert init[k] == cs[k];
        }
      }
    }
  }

  /** `TextCount`: the expression `IsTextItem ? 1 : 0 + sum` groups as
      `IsTextItem ? 1 : (0 + sum)`. */
  function TextCount(i: Item): nat
    decreases i
  {
    if IsTextItem(i) then 1 else TextCountAll(i.children)
  }

  function TextCountAll(cs: seq<Item>): nat
    decreases cs
  {
    if cs == [] then 0 else TextCountAll(cs[..|cs| - 1]) + TextCount(cs[|cs| - 1])
  }

  /** An item counts some text exactly when its subtree holds a text item. */
  lemma {:induction false} TextCountIff(i: Item)
    ensures TextCount(i) > 0 ==> exists q :: ValidPath(i, q) && IsTextItem(At(i, q))
    ensures (exists q :: ValidPath(i, q) && IsTextItem(At(i, q))) ==> TextCount(i) > 0
    decreases i
  {
    if IsTextItem(i) {
      assert ValidPath(i, []) && At(i, []) == i;
    } else {
      TextCountAllIff(i.children);
      if TextCountAll(i.children) > 0 {
        var k, q :| 0 <= k < |i.children| && ValidPath(i.children[k], q) && IsTextItem(At(i.children[k], q));
        assert ([k] + q)[1..] == q;
        assert ValidPath(i, [k] + q) && At(i, [k] + q) == At(i.children[k], q);
      }
      if q :| ValidPath(i, q) && IsTextItem(At(i, q)) {
        assert q != [];
        var k, q' := q[0], q[1..];
        assert 0 <= k < |i.children| && ValidPath(i.children[k], q') && IsTextItem(At(i.children[k], q'));
        TextCountAllIff(i.children);
        assert TextCountAll(i.children) > 0;
      }
    }
  }

  lemma {:induction false} TextCountAllIff(cs: seq<Item>)
    ensures TextCountAll(cs) > 0 ==>
      exists k, q :: 0 <= k < |cs| && ValidPath(cs[k], q) && IsTextItem(At(cs[k], q))
    ensures (exists k, q :: 0 <= k < |cs| && ValidPath(cs[k], q) && IsTextItem(At(cs[k], q))) ==>
      TextCountAll(cs) > 0
    decreases cs
  {
    if cs != [] {
      var n := |cs| - 1;
      var init := cs[..n];
      TextCountAllIff(init);
      TextCountIff(cs[n]);
      if TextCountAll(init) > 0 {
        var k, q :| 0 <= k < |init| && ValidPath(init[k], q) && IsTextItem(At(init[k], q));
        assert init[k] == cs[k];
      }
      if TextCount(cs[n]) > 0 {
        var q :| ValidPath(cs[n], q) && IsTextItem(At(cs[n], q));
      }
      if k, q :| 0 <= k < |cs| && ValidPath(cs[k], q) && IsTextItem(At(cs[k], q)) {
        if k < n {
          assert init[k] == cs[k];
        }
      }
    }
  }

  // ---------------------------------------------------------------------------
  // Missing translations per language.

  /** A language-to-count table in insertion order, as the `Dictionary` that
      `GetMissingTranslationCountPerLanguage` builds. */
  type Counts = seq<(string, nat)>

  function CountOf(d: Counts, language: string): nat
  {
    if d == [] then 0 else if d[0].0 == language then d[0].1 else CountOf(d[1..], language)
  }

  function Languages(d: Counts): seq<string>
  {
    if d == [] then [] else [d[0].0] + Languages(d[1..])
  }

  /** No language appears twice: the table is a dictionary. */
  predicate DistinctLanguages(d: Counts)
  {
    d == [] || (d[0].0 !in Languages(d[1..]) && DistinctLanguages(d[1..]))
  }

  function Total(d: Counts): nat
  {
    if d == [] then 0 else d[0].1 + Total(d[1..])
  }

  /** `d[language] += v` when the language is present, else `d.Add(language, v)`. */
  function AddCount(d: Counts, language: string, v: nat): (r: Counts)
    ensures forall l :: CountOf(r, l) == CountOf(d, l) + (if l == language then v else 0)
    ensures forall l :: l in Languages(r) <==> l in Languages(d) || l == language
    ensures DistinctLanguages(d) ==> DistinctLanguages(r)
    ensures Total(r) == Total(d) + v
  {
    if d == [] then [(language, v)]
    else if d[0].0 == language then
      var r := [(language, d[0].1 + v)] + d[1..];
      assert r[1..] == d[1..];
      r
    else
      var rest := AddCount(d[1..], language, v);
      var r := [d[0]] + rest;
      assert r[1..] == rest;
      r
  }

  /** A language that is not in the table counts 0. */
  lemma {:induction false} CountOfAbsent(d: Counts, language: string)
    requires language !in Languages(d)
    ensures CountOf(d, language) == 0
    decreases |d|
  {
    if d != [] {
      CountOfAbsent(d[1..], language);
    }
  }

  /** Adding the pairs of `e` to `d`, in order. */
  function Merge(d: Counts, e: Counts): Counts
    decreases |e|
  {
    if e == [] then d else Merge(AddCount(d, e[0].0, e[0].1), e[1..])
  }

  lemma {:induction false} MergeCounts(d: Counts, e: Counts, language: string)
    requires DistinctLanguages(e)
    ensures CountOf(Merge(d, e), language) == CountOf(d, language) + CountOf(e, language)
    ensures DistinctLanguages(d) ==> DistinctLanguages(Merge(d, e))
    ensures Total(Merge(d, e)) == Total(d) + Total(e)
    decreases |e|
  {
    if e != [] {
      MergeCounts(AddCount(d, e[0].0, e[0].1), e[1..], language);
      if e[0].0 == language {
        CountOfAbsent(e[1..], language);
      }
    }
  }

  /** `Translations.GroupBy(Language)` counting null-or-white-space texts. */
  function OwnCounts(ts: seq<Translation>): Counts
  {
    if ts == [] then []
    else
      var t := ts[|ts| - 1];
      AddCount(OwnCounts(ts[..|ts| - 1]), t.language, if IsNullOrWhiteSpace(t.text) then 1 else 0)
  }

  /** `GetMissingTranslationCountPerLanguage()`: the item's own table, then
      each child's table added in child order. */
  function PerLanguage(i: Item): Counts
    decreases i
  {
    MergeChildren(if IsTextItem(i) then OwnCounts(i.translations.value) else [], i.children)
  }

  function MergeChildren(d: Counts, cs: seq<Item>): Counts
    decreases cs
  {
    if cs == [] then d else Merge(MergeChildren(d, cs[..|cs| - 1]), PerLanguage(cs[|cs| - 1]))
  }

  /** The item's own translations in `language` with a null or white-space
      text. */
  function OwnBlank(ts: seq<Translation>, language: string): nat
  {
    if ts == [] then 0
    else
      var t := ts[|ts| - 1];
      OwnBlank(ts[..|ts| - 1], language) + (if t.language == language && IsNullOrWhiteSpace(t.text) then 1 else 0)
  }

  function CountBlank(ts: seq<Translation>): nat
  {
    if ts == [] then 0
    else CountBlank(ts[..|ts| - 1]) + (if IsNullOrWhiteSpace(ts[|ts| - 1].text) then 1 else 0)
  }

  /** The blank translations in `language` over the whole subtree. */
  function BlankFor(i: Item, language: string): nat
    decreases i
  {
    (if IsTextItem(i) then OwnBlank(i.translations.value, language) else 0) + BlankForAll(i.children, language)
  }

  function BlankForAll(cs: seq<Item>, language: string): nat
    decreases cs
  {
    if cs == [] then 0 else BlankForAll(cs[..|cs| - 1], language) + BlankFor(cs[|cs| - 1], language)
  }

  /** The blank translations of any language over the whole subtree. */
  function BlankCount(i: Item): nat
    decreases i
  {
    (if IsTextItem(i) then CountBlank(i.translations.value) else 0) + BlankCountAll(i.children)
  }

  function BlankCountAll(cs: seq<Item>): nat
    decreases cs
  {
    if cs == [] then 0 else BlankCountAll(cs[..|cs| - 1]) + BlankCount(cs[|cs| - 1])
  }

  lemma {:induction false} OwnCountsOk(ts: seq<Translation>, language: string)
    ensures DistinctLanguages(OwnCounts(ts))
    ensures CountOf(OwnCounts(ts), language) == OwnBlank(ts, language)
    ensures Total(OwnCounts(ts)) == CountBlank(ts)
    decreases |ts|
  {
    if ts != [] {
      OwnCountsOk(ts[..|ts| - 1], language);
    }
  }

  /** The table of an item is a dictionary whose entry for each language is
      the number of null or white-space texts in that language in its
      subtree, and whose entries add up to all such texts. */
  lemma {:induction false} PerLanguageCounts(i: Item, language: string)
    ensures DistinctLanguages(PerLanguage(i))
    ensures CountOf(PerLanguage(i), language) == BlankFor(i, language)
    ensures Total(PerLanguage(i)) == BlankCount(i)
    decreases i
  {
    var own: Counts := if IsTextItem(i) then OwnCounts(i.translations.value) else [];
    if IsTextItem(i) {
      OwnCountsOk(i.translations.value, language);
    }
    MergeChildrenCounts(own, i.children, language);
  }

  lemma {:induction false} MergeChildrenCounts(d: Counts, cs: seq<Item>, language: string)
    requires DistinctLanguages(d)
    ensures DistinctLanguages(MergeChildren(d, cs))
    ensures CountOf(MergeChildren(d, cs), language) == CountOf(d, language) + BlankForAll(cs, language)
    ensures Total(MergeChildren(d, cs)) == Total(d) + BlankCountAll(cs)
    decreases cs
  {
    if cs != [] {
      var n := |cs| - 1;
      MergeChildrenCounts(d, cs[..n], language);
      PerLanguageCounts(cs[n], language);
      MergeCounts(MergeChildren(d, cs[..n]), PerLanguage(cs[n]), language);
    }
  }

  lemma {:induction false} EmptyIsBlank(ts: seq<Translation>)
    ensures CountEmpty(ts) <= CountBlank(ts)
    decreases |ts|
  {
    if ts != [] {
      EmptyIsBlank(ts[..|ts| - 1]);
    }
  }

  /** The per-language tables count at least the missing translations the
      total counts: an empty text is also white space, but a text of spaces
      only is counted by the tables and not by the total. */
  lemma {:induction false} PerLanguageCoversMissing(i: Item)
    ensures MissingCount(i) <= Total(PerLanguage(i))
    decreases i
  {
    PerLanguageCounts(i, "");
    MissingBelowBlank(i);
  }

  lemma {:induction false} MissingBelowBlank(i: Item)
    ensures MissingCount(i) <= BlankCount(i)
    decreases i
  {
    if IsTextItem(i) {
      EmptyIsBlank(i.translations.value);
    }
    MissingBelowBlankAll(i.children);
  }

  lemma {:induction false} MissingBelowBlankAll(cs: seq<Item>)
    ensures MissingCountAll(cs) <= BlankCountAll(cs)
    decreases cs
  {
    if cs != [] {
      MissingBelowBlankAll(cs[..|cs| - 1]);
      MissingBelowBlank(cs[|cs| - 1]);
    }
  }

  /** `Format`: the entries with a positive count, ordered by language. */
  function Positive(d: Counts): (r: Counts)
    ensures forall e :: e in r <==> e in d && e.1 > 0
  {
    if d == [] then []
    else
      var rest := Positive(d[1..]);
      assert forall e :: e in d <==> e == d[0] || e in d[1..];
      if d[0].1 > 0 then [d[0]] + rest else rest
  }

  function LanguageLe(a: (string, nat), b: (string, nat)): bool
  {
    LexLe(a.0, b.0)
  }

  lemma {:induction false} LanguageOrder()
    ensures TotalPreorder(LanguageLe)
  {
    forall a: (string, nat), b: (string, nat)
      ensures LanguageLe(a, b) || LanguageLe(b, a)
    {
      LexLeTotal(a.0, b.0);
    }
    forall a: (string, nat), b: (string, nat), c: (string, nat) | LanguageLe(a, b) && LanguageLe(b, c)
      ensures LanguageLe(a, c)
    {
      LexLeTrans(a.0, b.0, c.0);
    }
  }

  function FormatEntries(d: Counts): Counts
  {
    Sort(Positive(d), LanguageLe)
  }

  function EntryText(e: (string, nat)): string
  {
    e.0 + ":" + NatToString(e.1)
  }

  /** `"lang:count"` per entry, joined by spaces. */
  function Format(d: Counts): string
  {
    var es := FormatEntries(d);
    Join(" ", seq(|es|, k requires 0 <= k < |es| => EntryText(es[k])))
  }

  /** `MissingTranslationsCountLabel`. */
  function MissingLabel(i: Item): string
  {
    Format(PerLanguage(i))
  }

  /** The label lists exactly the entries with a positive count, sorted by
      language. */
  lemma {:induction false} FormatEntriesOk(d: Counts)
    ensures forall e :: e in FormatEntries(d) <==> e in d && e.1 > 0
    ensures Sorted(FormatEntries(d), LanguageLe)
  {
    var es := FormatEntries(d);
    var ps := Positive(d);
    SortPermutes(ps, LanguageLe);
    assert multiset(es) == multiset(ps);
    forall e
      ensures e in es <==> e in ps
    {
      assert e in es <==> e in multiset(es);
      assert e in ps <==> e in multiset(ps);
    }
    LanguageOrder();
    SortSorted(ps, LanguageLe);
  }

  /** Built from a dictionary, the label names each language once. */
  lemma {:induction false} FormatEntriesOnce(d: Counts)
    requires DistinctLanguages(d)
    ensures forall a, b :: 0 <= a < b < |FormatEntries(d)| ==> FormatEntries(d)[a].0 != FormatEntries(d)[b].0
  {
    var es := FormatEntries(d);
    FormatEntriesOk(d);
    SortPermutes(Positive(d), LanguageLe);
    forall a, b | 0 <= a < b < |es|
      ensures es[a].0 != es[b].0
    {
      if es[a].0 == es[b].0 {
        DistinctEntriesEqual(d, es[a], es[b]);
        Twice(es, a, b);
        PositiveOnce(d, es[a]);
      }
    }
  }

  /** In a dictionary a language determines its entry. */
  lemma {:induction false} DistinctEntriesEqual(d: Counts, x: (string, nat), y: (string, nat))
    requires DistinctLanguages(d) && x in d && y in d && x.0 == y.0
    ensures x == y
    decreases |d|
  {
    if x != d[0] || y != d[0] {
      if x == d[0] {
        LanguageOfEntry(d[1..], y);
      } else if y == d[0] {
        LanguageOfEntry(d[1..], x);
      } else {
        DistinctEntriesEqual(d[1..], x, y);
      }
    }
  }

  lemma {:induction false} LanguageOfEntry(d: Counts, x: (string, nat))
    requires x in d
    ensures x.0 in Languages(d)
    decreases |d|
  {
    if x != d[0] {
      LanguageOfEntry(d[1..], x);
    }
  }

  lemma {:induction false} PositiveOnce(d: Counts, x: (string, nat))
    requires DistinctLanguages(d)
    ensures multiset(Positive(d))[x] <= 1
    decreases |d|
  {
    if d != [] {
      PositiveOnce(d[1..], x);
      if x == d[0] && x in d[1..] {
        LanguageOfEntry(d[1..], x);
      }
    }
  }

  /** A value twice in a sequence counts twice in its multiset. */
  lemma {:induction false} Twice(es: Counts, a: nat, b: nat)
    requires a < b < |es| && es[a] == es[b]
    ensures multiset(es)[es[a]] >= 2
  {
    var x := es[a];
    assert es == es[..a] + [x] + es[a + 1..b] + [x] + es[b + 1..];
  }

  // ---------------------------------------------------------------------------
  // Search filter.

  /** `MatchesFilter(searchText)`: the lower-cased key, or the lower-cased text
      of some non-null translation, contains the search text. */
  predicate MatchesFilter(i: Item, searchText: string)
  {
    || Contains(ToLower(i.key), searchText)
    || (i.translations.Some? &&
        exists k :: 0 <= k < |i.translations.value| && i.translations.value[k].text.Some?
                    && Contains(ToLower(i.translations.value[k].text.value), searchText))
  }

  // ---------------------------------------------------------------------------
  // Token usage selection.

  datatype SelectError = NoTokenUsages | IndexOutOfRange

  /** The selection is consistent: with usages present, the 1-based index is
      in range and the selected usage is the one it names. */
  predicate SelectionOk(i: Item)
  {
    i.tokenUsages.Some? && |i.tokenUsages.value| > 0 ==>
      1 <= i.selectionIndex <= |i.tokenUsages.value|
      && i.selectedUsage == Some(i.tokenUsages.value[i.selectionIndex - 1])
  }

  /** Assigning `TokenUsages`: the first usage (or none) is selected and the
      index is reset to 1. */
  function SetTokenUsages(i: Item, us: seq<TokenUsage>): (r: Item)
    ensures SelectionOk(r) && r.tokenUsages == Some(us) && r.selectionIndex == 1
    ensures r.selectedUsage == (if us == [] then None else Some(us[0]))
    ensures Node(r).(tokenUsages := None, selectedUsage := None, selectionIndex := 0)
         == Node(i).(tokenUsages := None, selectedUsage := None, selectionIndex := 0)
    ensures r.children == i.children
  {
    i.(tokenUsages := Some(us), selectedUsage := if us == [] then None else Some(us[0]), selectionIndex := 1)
  }

  /** `SelectNextTokenUsage()`: the index moves up unless at the last usage;
      no usages (null or empty) make the lookup fail. */
  function SelectNext(i: Item): (r: Result<Item, SelectError>)
    ensures i.tokenUsages.None? ==> r == Failure(NoTokenUsages)
    ensures SelectionOk(i) && i.tokenUsages.Some? && |i.tokenUsages.value| > 0 ==>
              r.Success? && SelectionOk(r.value)
              && r.value.selectionIndex == (if i.selectionIndex < |i.tokenUsages.value| then i.selectionIndex + 1 else i.selectionIndex)
    ensures r.Success? ==> r.value.(selectionIndex := 0, selectedUsage := None) == i.(selectionIndex := 0, selectedUsage := None)
    ensures i.tokenUsages == Some([]) ==> r == Failure(IndexOutOfRange)
  {
    match i.tokenUsages
    case None => Failure(NoTokenUsages)
    case Some(us) =>
      var index := if i.selectionIndex < |us| then i.selectionIndex + 1 else i.selectionIndex;
      if 1 <= index <= |us| then Success(i.(selectionIndex := index, selectedUsage := Some(us[index - 1])))
      else Failure(IndexOutOfRange)
  }

  /** `SelectPreviousTokenUsage()`: the index moves down unless at the first
      usage. */
  function SelectPrevious(i: Item): (r: Result<Item, SelectError>)
    ensures i.tokenUsages.None? ==> r == Failure(NoTokenUsages)
    ensures SelectionOk(i) && i.tokenUsages.Some? && |i.tokenUsages.value| > 0 ==>
              r.Success? && SelectionOk(r.value)
              && r.value.selectionIndex == (if i.selectionIndex > 1 then i.selectionIndex - 1 else i.selectionIndex)
    ensures r.Success? ==> r.value.(selectionIndex := 0, selectedUsage := None) == i.(selectionIndex := 0, selectedUsage := None)
    ensures i.tokenUsages == Some([]) ==> r == Failure(IndexOutOfRange)
  {
    match i.tokenUsages
    case None => Failure(NoTokenUsages)
    case Some(us) =>
      var index := if i.selectionIndex > 1 then i.selectionIndex - 1 else i.selectionIndex;
      if 1 <= index <= |us| then Success(i.(selectionIndex := index, selectedUsage := Some(us[index - 1])))
      else Failure(IndexOutOfRange)
  }

  /** Next then previous from inside the range comes back to where it was. */
  lemma {:induction false} NextThenPrevious(i: Item)
    requires SelectionOk(i) && i.tokenUsages.Some? && 0 < |i.tokenUsages.value|
    requires i.selectionIndex < |i.tokenUsages.value|
    ensures SelectNext(i).Success? && SelectPrevious(SelectNext(i).value) == Success(i)
  {
  }
}
