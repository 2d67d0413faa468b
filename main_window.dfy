/** The rules behind the main window (MainWindow.xaml.cs): the key count
    that guards a rename, the flags a new scan takes over from the old tree,
    the expansion towards the "NEW" keys, the rescan flag and the file
    watchers that are off during every write. The window's top-level items
    are the children of the root node the extractor builds; every tree here
    is that root, and the window's items are the nodes at non-empty paths. */
module MainWindow {
  import opened Wrappers
  import opened Text
  import opened TreeItems
  import opened Files
  import Catalog
  import TokenRenamer
  import TranslationPersister
  import TextItemExtractor

  // ---------------------------------------------------------------------------
  // CountKeysInCodeBase.

  /** The count for the node `c` at path `p`: a text item counts itself when
      it has the key and is not the excluded node; any other node counts its
      children. */
  function KeyHere(c: Item, p: Path, key: string, exclude: Option<Path>): nat
    decreases c
  {
    if IsTextItem(c) then (if c.key == key && exclude != Some(p) then 1 else 0)
    else KeysIn(c.children, p, key, exclude)
  }

  /** The count over the children `cs` of the node at `p`. */
  function KeysIn(cs: seq<Item>, p: Path, key: string, exclude: Option<Path>): nat
    decreases cs
  {
    if cs == [] then 0
    else KeysIn(cs[..|cs| - 1], p, key, exclude) + KeyHere(cs[|cs| - 1], p + [|cs| - 1], key, exclude)
  }

  /** The way down `s` from `c`, the node at `p`, passes no text item and
      ends at a text item with the key that is not the excluded node. */
  predicate Hit(c: Item, p: Path, key: string, exclude: Option<Path>, s: Path)
    decreases s
  {
    if s == [] then IsTextItem(c) && c.key == key && exclude != Some(p)
    else !IsTextItem(c) && s[0] < |c.children| && Hit(c.children[s[0]], p + [s[0]], key, exclude, s[1..])
  }

  /** Some top-level item of `t`, or a node reached from one through nodes
      that are not text items, is a text item with the key other than the
      excluded node. */
  ghost predicate Used(t: Item, key: string, exclude: Option<Path>)
  {
    exists k, s :: 0 <= k < |t.children| && Hit(t.children[k], [k], key, exclude, s)
  }

  /** `CountKeysInCodeBase(key, excludeItem, treeItems)` on the children of
      the node at `at`; the excluded item is named by its path. */
  method CountKeysInCodeBase(key: string, exclude: Option<Path>, items: seq<Item>, at: Path) returns (count: nat)
    ensures count == KeysIn(items, at, key, exclude)
    decreases items
  {
    count := 0;
    for k := 0 to |items|
      invariant count == KeysIn(items[..k], at, key, exclude)
    {
      assert items[..k + 1][..k] == items[..k];
      var item := items[k];
      if IsTextItem(item) {
        if item.key == key && exclude != Some(at + [k]) {
          count := count + 1;
        }
      } else {
        var below := CountKeysInCodeBase(key, exclude, item.children, at + [k]);
        count := count + below;
      }
    }
    assert items[..|items|] == items;
  }

  /** A node counts something exactly when a way down from it hits. */
  lemma {:induction false} KeyHereIff(c: Item, p: Path, key: string, exclude: Option<Path>)
    ensures KeyHere(c, p, key, exclude) > 0 ==> exists s :: Hit(c, p, key, exclude, s)
    ensures (exists s :: Hit(c, p, key, exclude, s)) ==> KeyHere(c, p, key, exclude) > 0
    decreases c
  {
    if IsTextItem(c) {
      if KeyHere(c, p, key, exclude) > 0 {
        assert Hit(c, p, key, exclude, []);
      }
      if s :| Hit(c, p, key, exclude, s) {
        assert s == [];
      }
    } else {
      KeysInIff(c.children, p, key, exclude);
      if KeysIn(c.children, p, key, exclude) > 0 {
        var k, s :| 0 <= k < |c.children| && Hit(c.children[k], p + [k], key, exclude, s);
        assert ([k] + s)[0] == k && ([k] + s)[1..] == s;
        assert Hit(c, p, key, exclude, [k] + s);
      }
      if s :| Hit(c, p, key, exclude, s) {
        assert s != [];
        assert Hit(c.children[s[0]], p + [s[0]], key, exclude, s[1..]);
      }
    }
  }

  lemma {:induction false} KeysInIff(cs: seq<Item>, p: Path, key: string, exclude: Option<Path>)
    ensures KeysIn(cs, p, key, exclude) > 0 ==>
      exists k, s :: 0 <= k < |cs| && Hit(cs[k], p + [k], key, exclude, s)
    ensures (exists k, s :: 0 <= k < |cs| && Hit(cs[k], p + [k], key, exclude, s)) ==>
      KeysIn(cs, p, key, exclude) > 0
    decreases cs
  {
    if cs != [] {
      var n := |cs| - 1;
      var init := cs[..n];
      KeysInIff(init, p, key, exclude);
      KeyHereIff(cs[n], p + [n], key, exclude);
      if KeysIn(init, p, key, exclude) > 0 {
        var k, s :| 0 <= k < |init| && Hit(init[k], p + [k], key, exclude, s);
        assert init[k] == cs[k];
      }
      if k, s :| 0 <= k < |cs| && Hit(cs[k], p + [k], key, exclude, s) {
        if k < n {
          assert init[k] == cs[k];
        }
      }
    }
  }

  /** The count over the window's items is positive exactly when the key is
      used by some text item other than the excluded one. */
  lemma {:induction false} CountMeansUsed(t: Item, key: string, exclude: Option<Path>)
    ensures KeysIn(t.children, [], key, exclude) > 0 <==> Used(t, key, exclude)
  {
    KeysInIff(t.children, [], key, exclude);
    if k, s :| 0 <= k < |t.children| && Hit(t.children[k], [] + [k], key, exclude, s) {
      assert [] + [k] == [k];
    }
    if k, s :| 0 <= k < |t.children| && Hit(t.children[k], [k], key, exclude, s) {
      assert [] + [k] == [k];
    }
  }

  // ---------------------------------------------------------------------------
  // The guards of RenameKey_Click and RenamePopupWindow.

  /** Why a rename is refused before anything is written. */
  datatype Refusal =
    | NotATextItem        // only single text items (leaves) can be renamed
    | KeyUsedElsewhere    // the key is not "NEW" and another text item has it
    | Cancelled           // the dialog was closed without a new key
    | RenamedToNew        // the new key is "NEW"
    | KeyTaken            // some text item already has the new key

  /** `OK_Click` of the rename dialog closes it only for a key that is not
      blank and differs from the current one. */
  predicate Accepted(current: string, newKey: string)
  {
    !IsBlank(newKey) && newKey != current
  }

  /** The checks of `RenameKey_Click` on the selected node at `p`, with the
      dialog's answer (`None` when it was cancelled): the new key to rename
      to, or why not. */
  function RenameGuard(t: Item, p: Path, dialog: Option<string>): Result<string, Refusal>
    requires ValidPath(t, p)
  {
    var item := At(t, p);
    if !IsTextItem(item) then Failure(NotATextItem)
    else if item.key != "NEW" && KeysIn(t.children, [], item.key, Some(p)) > 0 then Failure(KeyUsedElsewhere)
    else if dialog.None? || !Accepted(item.key, dialog.value) then Failure(Cancelled)
    else if dialog.value == "NEW" then Failure(RenamedToNew)
    else if KeysIn(t.children, [], dialog.value, None) > 0 then Failure(KeyTaken)
    else Success(dialog.value)
  }

  /** A rename goes ahead exactly when the node is a text item whose key is
      "NEW" or used nowhere else, and the dialog gave a key other than "NEW"
      that no text item uses. */
  lemma {:induction false} GuardPasses(t: Item, p: Path, dialog: Option<string>)
    requires ValidPath(t, p)
    ensures
      var item := At(t, p);
      RenameGuard(t, p, dialog).Success? <==>
        && IsTextItem(item)
        && (item.key == "NEW" || !Used(t, item.key, Some(p)))
        && dialog.Some? && Accepted(item.key, dialog.value)
        && dialog.value != "NEW" && !Used(t, dialog.value, None)
    ensures RenameGuard(t, p, dialog).Success? ==> RenameGuard(t, p, dialog).value == dialog.value
  {
    CountMeansUsed(t, At(t, p).key, Some(p));
    if dialog.Some? {
      CountMeansUsed(t, dialog.value, None);
    }
  }

  // ---------------------------------------------------------------------------
  // ApplyUIState.

  /** `oldItems.FirstOrDefault(i => i.Key == key)`, as an index. */
  function FirstWithKey(olds: seq<Item>, key: string): (r: Option<nat>)
    ensures r.Some? ==> r.value < |olds| && olds[r.value].key == key
    ensures r.Some? ==> forall j :: 0 <= j < r.value ==> olds[j].key != key
    ensures r.None? ==> forall j :: 0 <= j < |olds| ==> olds[j].key != key
  {
    FirstWithKeyFrom(olds, key, 0)
  }

  function FirstWithKeyFrom(olds: seq<Item>, key: string, i: nat): (r: Option<nat>)
    requires i <= |olds|
    ensures r.Some? ==> i <= r.value < |olds| && olds[r.value].key == key
    ensures r.Some? ==> forall j :: i <= j < r.value ==> olds[j].key != key
    ensures r.None? ==> forall j :: i <= j < |olds| ==> olds[j].key != key
    decreases |olds| - i
  {
    if i == |olds| then None
    else if olds[i].key == key then Some(i)
    else FirstWithKeyFrom(olds, key, i + 1)
  }

  /** A new node with an old sibling of the same key takes the first such
      sibling's expanded and selected flags, and its children are matched
      against that sibling's children; any other new node is left as it is. */
  function Carried(n: Item, olds: seq<Item>): Item
    decreases n
  {
    match FirstWithKey(olds, n.key)
    case None => n
    case Some(j) =>
      n.(isExpanded := olds[j].isExpanded, isSelected := olds[j].isSelected,
         children := UIState(n.children, olds[j].children))
  }

  function UIState(news: seq<Item>, olds: seq<Item>): seq<Item>
    decreases news
  {
    if news == [] then [] else UIState(news[..|news| - 1], olds) + [Carried(news[|news| - 1], olds)]
  }

  /** `ApplyUIState(newItems, oldItems)`: a null old list changes nothing. */
  method ApplyUIState(news: seq<Item>, olds: Option<seq<Item>>) returns (r: seq<Item>)
    ensures olds.None? ==> r == news
    ensures olds.Some? ==> r == UIState(news, olds.value)
    decreases news
  {
    if olds.None? {
      return news;
    }
    r := [];
    for k := 0 to |news|
      invariant r == UIState(news[..k], olds.value)
    {
      assert news[..k + 1][..k] == news[..k];
      var newItem := news[k];
      var j := FirstWithKey(olds.value, newItem.key);
      if j.Some? {
        var oldItem := olds.value[j.value];
        var children := ApplyUIState(newItem.children, Some(oldItem.children));
        newItem := newItem.(isExpanded := oldItem.isExpanded, isSelected := oldItem.isSelected, children := children);
      }
      r := r + [newItem];
    }
    assert news[..|news|] == news;
  }

  /** A node with its expanded and selected flags cleared, down the tree. */
  function Shape(i: Item): Item
    decreases i
  {
    i.(isExpanded := false, isSelected := false, children := ShapeAll(i.children))
  }

  function ShapeAll(cs: seq<Item>): (r: seq<Item>)
    ensures |r| == |cs|
    decreases cs
  {
    if cs == [] then [] else ShapeAll(cs[..|cs| - 1]) + [Shape(cs[|cs| - 1])]
  }

  /** Only flags move: the carried-over tree is the new tree but for the
      expanded and selected flags. */
  lemma {:induction false} CarriedShape(n: Item, olds: seq<Item>)
    ensures Shape(Carried(n, olds)) == Shape(n)
    decreases n
  {
    match FirstWithKey(olds, n.key)
    case None =>
    case Some(j) =>
      UIStateShape(n.children, olds[j].children);
  }

  lemma {:induction false} UIStateShape(news: seq<Item>, olds: seq<Item>)
    ensures ShapeAll(UIState(news, olds)) == ShapeAll(news)
    decreases news
  {
    if news != [] {
      var n := |news| - 1;
      UIStateShape(news[..n], olds);
      CarriedShape(news[n], olds);
      var r := UIState(news, olds);
      assert r[..n] == UIState(news[..n], olds) && r[n] == Carried(news[n], olds);
    }
  }

  /** Sibling keys are distinct at every level. */
  predicate DistinctKeys(cs: seq<Item>)
    decreases cs
  {
    && (forall i, j :: 0 <= i < j < |cs| ==> cs[i].key != cs[j].key)
    && (forall k :: 0 <= k < |cs| ==> DistinctKeys(cs[k].children))
  }

  /** Rescanning a tree whose sibling keys are distinct against itself
      keeps every flag: each node finds itself. */
  lemma {:induction false} UIStateSelf(ts: seq<Item>)
    requires DistinctKeys(ts)
    ensures UIState(ts, ts) == ts
    decreases ts, 1
  {
    forall k | 0 <= k < |ts|
      ensures FirstWithKey(ts, ts[k].key) == Some(k)
    {
      var r := FirstWithKey(ts, ts[k].key);
      assert r.Some? ==> ts[r.value].key == ts[k].key;
    }
    UIStateFound(ts, ts, |ts|);
    assert ts[..|ts|] == ts;
  }

  /** `UIStateSelf` over a prefix of the new list. */
  lemma {:induction false} UIStateFound(news: seq<Item>, olds: seq<Item>, m: nat)
    requires m <= |news| && news == olds && DistinctKeys(news)
    requires forall k :: 0 <= k < |news| ==> FirstWithKey(olds, news[k].key) == Some(k)
    ensures UIState(news[..m], olds) == news[..m]
    decreases news, 0, m
  {
    if m > 0 {
      var n := m - 1;
      UIStateFound(news, olds, n);
      var c := news[n];
      UIStateSelf(c.children);
      CarriedSelf(c, olds, n);
      UIStateSnoc(news[..n], c, olds);
      assert news[..m] == news[..n] + [c];
    }
  }

  /** A node that finds itself among the old siblings, with children that
      match themselves, is carried unchanged. */
  lemma {:induction false} CarriedSelf(c: Item, olds: seq<Item>, k: nat)
    requires k < |olds| && olds[k] == c && FirstWithKey(olds, c.key) == Some(k)
    requires UIState(c.children, c.children) == c.children
    ensures Carried(c, olds) == c
  {
  }

  /** One more new node, at the end. */
  lemma {:induction false} UIStateSnoc(init: seq<Item>, c: Item, olds: seq<Item>)
    requires UIState(init, olds) == init && Carried(c, olds) == c
    ensures UIState(init + [c], olds) == init + [c]
  {
    var m := init + [c];
    assert m[..|m| - 1] == init;
  }

  // ---------------------------------------------------------------------------
  // OpenAllNewKeys.

  /** The proper prefixes of `p`: the paths of the node's ancestors, from the
      root down to its parent. */
  function Ancestors(p: Path): (r: set<Path>)
    ensures forall q :: q in r <==> q < p
  {
    var r := set j | 0 <= j < |p| :: p[..j];
    assert forall q :: q < p ==> q == p[..|q|];
    r
  }

  /** `r` is `root` with the nodes at the paths in `a` expanded, and nothing
      else changed. */
  ghost predicate ExpandedAt(root: Item, r: Item, a: set<Path>)
  {
    && (forall q :: ValidPath(r, q) <==> ValidPath(root, q))
    && (forall q :: ValidPath(root, q) ==>
          Node(At(r, q)) == (if q in a then Node(At(root, q)).(isExpanded := true) else Node(At(root, q))))
  }

  /** Two rounds of expansion are one round over both sets. */
  lemma {:induction false} ExpandedTwice(root: Item, r1: Item, r2: Item, a: set<Path>, b: set<Path>)
    requires ExpandedAt(root, r1, a) && ExpandedAt(r1, r2, b)
    ensures ExpandedAt(root, r2, a + b)
  {
    forall q | ValidPath(root, q)
      ensures Node(At(r2, q)) == (if q in a + b then Node(At(root, q)).(isExpanded := true) else Node(At(root, q)))
    {
      assert ValidPath(r1, q);
    }
  }

  /** The paths a walk from the node `c` at `p` expands: the ancestors of `c`
      when it is a "NEW" text item, otherwise those its children expand. */
  function OpenOne(c: Item, p: Path): set<Path>
    decreases c
  {
    if IsNew(c) then Ancestors(p) else OpenAll(c.children, p)
  }

  /** The paths a walk over the children `cs` of the node at `p` expands. */
  function OpenAll(cs: seq<Item>, p: Path): set<Path>
    decreases cs
  {
    if cs == [] then {} else OpenAll(cs[..|cs| - 1], p) + OpenOne(cs[|cs| - 1], p + [|cs| - 1])
  }

  /** The way down `s` from `c` passes no "NEW" text item and ends at one. */
  predicate ReachesNew(c: Item, s: Path)
    decreases s
  {
    if s == [] then IsNew(c) else !IsNew(c) && s[0] < |c.children| && ReachesNew(c.children[s[0]], s[1..])
  }

  /** `OpenAllNewKeys(newItems)` on the children `items` of the node at `at`
      of `root`, applied to `tree`, which is `root` with the nodes at `done`
      expanded: each "NEW" text item gets its ancestors expanded and every
      other item is walked into. */
  method OpenAllNewKeys(ghost root: Item, at: Path, items: seq<Item>, tree: Item, ghost done: set<Path>) returns (r: Item)
    requires ValidPath(root, at) && items == At(root, at).children
    requires ExpandedAt(root, tree, done)
    ensures ExpandedAt(root, r, done + OpenAll(items, at))
    decreases items
  {
    r := tree;
    for k := 0 to |items|
      invariant ExpandedAt(root, r, done + OpenAll(items[..k], at))
    {
      var item := items[k];
      AtAppend(root, at, k);
      ghost var before := done + OpenAll(items[..k], at);
      if IsTextItem(item) && item.key == "NEW" {
        var next := ExpandParents(r, at + [k]);
        ExpandedByParents(r, next, at + [k]);
        ExpandedTwice(root, r, next, before, Ancestors(at + [k]));
        r := next;
      } else {
        r := OpenAllNewKeys(root, at + [k], item.children, r, before);
      }
      OpenAllStep(items, at, k, done);
    }
    assert items[..|items|] == items;
  }

  /** One more child walked. */
  lemma {:induction false} OpenAllStep(items: seq<Item>, at: Path, k: nat, done: set<Path>)
    requires k < |items|
    ensures done + OpenAll(items[..k + 1], at) == (done + OpenAll(items[..k], at)) + OpenOne(items[k], at + [k])
  {
    assert items[..k + 1][..k] == items[..k];
  }

  /** What `ExpandParents` promises, as a set of expanded paths. */
  lemma {:induction false} ExpandedByParents(tree: Item, r: Item, p: Path)
    requires forall q :: ValidPath(r, q) <==> ValidPath(tree, q)
    requires forall q :: ValidPath(tree, q) ==>
      Node(At(r, q)) == (if q < p then Node(At(tree, q)).(isExpanded := true) else Node(At(tree, q)))
    ensures ExpandedAt(tree, r, Ancestors(p))
  {
  }

  /** A walk from `c` at `p` expands exactly the proper prefixes of the paths
      to the "NEW" items it reaches. */
  lemma {:induction false} OpenOneIff(c: Item, p: Path, q: Path)
    ensures q in OpenOne(c, p) ==> exists s :: ReachesNew(c, s) && q < p + s
    ensures (exists s :: ReachesNew(c, s) && q < p + s) ==> q in OpenOne(c, p)
    decreases c
  {
    if IsNew(c) {
      if q in OpenOne(c, p) {
        assert ReachesNew(c, []) && p + [] == p;
      }
      if s :| ReachesNew(c, s) && q < p + s {
        assert s == [] && p + s == p;
      }
    } else {
      OpenAllIff(c.children, p, q);
      if q in OpenOne(c, p) {
        var k, s :| 0 <= k < |c.children| && ReachesNew(c.children[k], s) && q < p + [k] + s;
        assert ([k] + s)[0] == k && ([k] + s)[1..] == s && p + ([k] + s) == p + [k] + s;
        assert ReachesNew(c, [k] + s);
      }
      if s :| ReachesNew(c, s) && q < p + s {
        assert s != [] && s == [s[0]] + s[1..] && p + s == p + [s[0]] + s[1..];
        assert ReachesNew(c.children[s[0]], s[1..]);
      }
    }
  }

  lemma {:induction false} OpenAllIff(cs: seq<Item>, p: Path, q: Path)
    ensures q in OpenAll(cs, p) ==>
      exists k, s :: 0 <= k < |cs| && ReachesNew(cs[k], s) && q < p + [k] + s
    ensures (exists k, s :: 0 <= k < |cs| && ReachesNew(cs[k], s) && q < p + [k] + s) ==>
      q in OpenAll(cs, p)
    decreases cs
  {
    if cs != [] {
      var n := |cs| - 1;
      var init := cs[..n];
      OpenAllIff(init, p, q);
      OpenOneIff(cs[n], p + [n], q);
      if q in OpenAll(init, p) {
        var k, s :| 0 <= k < |init| && ReachesNew(init[k], s) && q < p + [k] + s;
        assert init[k] == cs[k];
      }
      if k, s :| 0 <= k < |cs| && ReachesNew(cs[k], s) && q < p + [k] + s {
        if k < n {
          assert init[k] == cs[k];
        }
      }
    }
  }

  /** Some top-level item of `t` reaches a "NEW" text item along `[k] + s`,
      and the node at `q` is one of its ancestors. */
  ghost predicate LeadsToNew(t: Item, q: Path)
  {
    exists k, s :: 0 <= k < |t.children| && ReachesNew(t.children[k], s) && q < [k] + s
  }

  /** After the walk over the window's items, the node at `q` is expanded
      (or was already) exactly when it leads to a "NEW" key: every other node
      keeps its flags, and no node changes anything else. */
  lemma {:induction false} OpenedMeansLeadsToNew(t: Item, r: Item, q: Path)
    requires ExpandedAt(t, r, OpenAll(t.children, []))
    requires ValidPath(t, q)
    ensures LeadsToNew(t, q) ==> At(r, q).isExpanded
    ensures !LeadsToNew(t, q) ==> Node(At(r, q)) == Node(At(t, q))
  {
    OpenAllIff(t.children, [], q);
    if k, s :| 0 <= k < |t.children| && ReachesNew(t.children[k], s) && q < [k] + s {
      assert [] + [k] + s == [k] + s;
    }
    if k, s :| 0 <= k < |t.children| && ReachesNew(t.children[k], s) && q < [] + [k] + s {
      assert [] + [k] + s == [k] + s;
    }
  }

  /** The way down `s` from `c` ends at a "NEW" text item, and no node on
      the way before it, `c` included, is one. */
  lemma {:induction false} ReachesAlong(c: Item, s: Path)
    requires ValidPath(c, s) && IsNew(At(c, s))
    requires forall j :: 0 <= j < |s| && ValidPath(c, s[..j]) ==> !IsNew(At(c, s[..j]))
    ensures ReachesNew(c, s)
    decreases s
  {
    if s != [] {
      assert s[..0] == [];
      var d := c.children[s[0]];
      forall j | 0 <= j < |s[1..]|
        ensures ValidPath(d, s[1..][..j]) && !IsNew(At(d, s[1..][..j]))
      {
        PrefixValid(c, s, j + 1);
        assert s[..j + 1][0] == s[0] && s[..j + 1][1..] == s[1..][..j];
        assert At(c, s[..j + 1]) == At(d, s[1..][..j]);
      }
      ReachesAlong(d, s[1..]);
    }
  }

  /** Every "NEW" text item with no "NEW" text item above it among the
      window's items is revealed: all its ancestors are expanded. */
  lemma {:induction false} NewKeyRevealed(t: Item, r: Item, p: Path)
    requires ExpandedAt(t, r, OpenAll(t.children, []))
    requires ValidPath(t, p) && p != [] && IsNew(At(t, p))
    requires forall j :: 1 <= j < |p| && ValidPath(t, p[..j]) ==> !IsNew(At(t, p[..j]))
    ensures forall q :: q < p ==> ValidPath(r, q) && At(r, q).isExpanded
  {
    var k := p[0];
    var c := t.children[k];
    var s := p[1..];
    forall j | 0 <= j < |s|
      ensures ValidPath(c, s[..j]) && !IsNew(At(c, s[..j]))
    {
      PrefixValid(t, p, j + 1);
      assert p[..j + 1][0] == k && p[..j + 1][1..] == s[..j];
      assert At(t, p[..j + 1]) == At(c, s[..j]);
    }
    assert At(t, p) == At(c, s);
    ReachesAlong(c, s);
    assert [k] + s == p;
    forall q | q < p
      ensures ValidPath(r, q) && At(r, q).isExpanded
    {
      assert q == p[..|q|];
      PrefixValid(t, p, |q|);
      assert LeadsToNew(t, q);
      OpenedMeansLeadsToNew(t, r, q);
    }
  }

  // ---------------------------------------------------------------------------
  // The rescan flag.

  /** What makes the window consider a scan: a file change reported by a
      watcher while the window is active or not, the window being activated,
      or a scan started by the user (the scan button or the window loading). */
  datatype Trigger = Changed(active: bool) | Activated | ScanRequested

  /** Whether `trigger` starts a scan when the flag is `dirty`: a change seen
      while active, an activation with the flag set, a scan asked for. */
  predicate Scans(dirty: bool, trigger: Trigger)
  {
    match trigger
    case Changed(active) => active
    case Activated => dirty
    case ScanRequested => true
  }

  /** The flag after `trigger`: a change while inactive sets it and every
      scan clears it in its `finally`; with no extractor a scan returns
      before that and the flag stays as it was. */
  function NextDirty(dirty: bool, trigger: Trigger, configured: bool): bool
  {
    if Scans(dirty, trigger) then (if configured then false else dirty)
    else if trigger.Changed? then true
    else dirty
  }

  /** The flag after a run of triggers. */
  function RunDirty(dirty: bool, ts: seq<Trigger>, configured: bool): bool
    decreases |ts|
  {
    if ts == [] then dirty else NextDirty(RunDirty(dirty, ts[..|ts| - 1], configured), ts[|ts| - 1], configured)
  }

  /** No trigger of `ts` starts a scan, with the flag set before them. */
  predicate OnlyAway(ts: seq<Trigger>)
  {
    forall k :: 0 <= k < |ts| ==> ts[k] == Changed(false)
  }

  /** A change seen while the window is inactive is never lost: the flag is
      set from then on while only more such changes arrive, so the next
      activation scans, and that scan clears the flag. */
  lemma {:induction false} ChangeAwayScansOnActivation(dirty: bool, before: seq<Trigger>, away: seq<Trigger>)
    requires OnlyAway(away)
    ensures RunDirty(dirty, before + [Changed(false)] + away, true)
    ensures Scans(RunDirty(dirty, before + [Changed(false)] + away, true), Activated)
    ensures !RunDirty(dirty, before + [Changed(false)] + away + [Activated], true)
    decreases |away|
  {
    var ts := before + [Changed(false)] + away;
    if away == [] {
      assert ts[..|ts| - 1] == before;
    } else {
      var init := away[..|away| - 1];
      assert OnlyAway(init);
      ChangeAwayScansOnActivation(dirty, before, init);
      assert ts[..|ts| - 1] == before + [Changed(false)] + init;
      assert ts[|ts| - 1] == Changed(false);
    }
    assert (ts + [Activated])[..|ts|] == ts;
  }

  /** An activation without a pending change, and a change while inactive
      with no extractor, never scan; without an extractor nothing clears the
      flag, so once set it stays set. */
  lemma {:induction false} UnconfiguredStaysDirty(ts: seq<Trigger>)
    ensures RunDirty(true, ts, false)
    decreases |ts|
  {
    if ts != [] {
      UnconfiguredStaysDirty(ts[..|ts| - 1]);
    }
  }

  // ---------------------------------------------------------------------------
  // The file watchers.

  /** What the window records: the watchers switched on or off, and the
      work done with them off (a scan, a rename, a translation save). */
  datatype Event = Watchers(on: bool) | Scanned | Renamed(newKey: string) | Saved(language: string, key: string)

  /** The watchers' state after `log`, from `on` at its start. */
  function WatchingAfter(on: bool, log: seq<Event>): bool
    decreases |log|
  {
    if log == [] then on
    else if log[|log| - 1].Watchers? then log[|log| - 1].on
    else WatchingAfter(on, log[..|log| - 1])
  }

  /** Every piece of work in `log` happens with the watchers off, from `on`
      at its start. */
  predicate QuietFrom(on: bool, log: seq<Event>)
    decreases |log|
  {
    log == [] ||
    (QuietFrom(on, log[..|log| - 1]) && (!log[|log| - 1].Watchers? ==> !WatchingAfter(on, log[..|log| - 1])))
  }

  /** The watchers are on between handlers and no work is done while they
      are: the property all the handlers keep. */
  predicate Quiet(log: seq<Event>)
  {
    WatchingAfter(true, log) && QuietFrom(true, log)
  }

  /** A log followed by more events. */
  lemma {:induction false} QuietAppend(on: bool, a: seq<Event>, b: seq<Event>)
    ensures WatchingAfter(on, a + b) == WatchingAfter(WatchingAfter(on, a), b)
    ensures QuietFrom(on, a + b) <==> QuietFrom(on, a) && QuietFrom(WatchingAfter(on, a), b)
    decreases |b|
  {
    if b == [] {
      assert a + b == a;
    } else {
      var init := b[..|b| - 1];
      QuietAppend(on, a, init);
      assert (a + b)[..|a + b| - 1] == a + init;
    }
  }

  /** Work bracketed by switching the watchers off and on again. */
  lemma {:induction false} Bracketed(on: bool, work: Event)
    requires !work.Watchers?
    ensures WatchingAfter(on, [Watchers(false), work, Watchers(true)])
    ensures QuietFrom(on, [Watchers(false), work, Watchers(true)])
  {
    var s := [Watchers(false), work, Watchers(true)];
    assert s[..2][..1] == [Watchers(false)] && s[..2] == [Watchers(false), work];
    assert [Watchers(false)][..0] == [];
  }

  /** Work bracketed by switching the watchers off and on again, appended to
      a quiet log. */
  lemma {:induction false} QuietBracketed(log: seq<Event>, work: Event)
    requires Quiet(log) && !work.Watchers?
    ensures Quiet(log + [Watchers(false), work, Watchers(true)])
  {
    QuietAppend(true, log, [Watchers(false), work, Watchers(true)]);
    Bracketed(WatchingAfter(true, log), work);
  }

  /** A rename, and the scan it starts inside the rename's own bracket. */
  lemma {:induction false} QuietRenameAndScan(log: seq<Event>, newKey: string)
    requires Quiet(log)
    ensures Quiet(log + [Watchers(false), Renamed(newKey), Watchers(false), Scanned, Watchers(true), Watchers(true)])
  {
    var head := [Watchers(false), Renamed(newKey)];
    var scan := [Watchers(false), Scanned, Watchers(true)];
    var s := head + scan + [Watchers(true)];
    assert [Watchers(false), Renamed(newKey), Watchers(false), Scanned, Watchers(true), Watchers(true)] == s;
    assert head[..1] == [Watchers(false)] && [Watchers(false)][..0] == [];
    assert WatchingAfter(true, head) == false && QuietFrom(WatchingAfter(true, log), head);
    Bracketed(false, Scanned);
    QuietAppend(WatchingAfter(true, log), head, scan);
    QuietAppend(WatchingAfter(true, log), head + scan, [Watchers(true)]);
    assert [Watchers(true)][..0] == [];
    QuietAppend(true, log, s);
  }

  /** The log of a rename and its scan, put together. */
  lemma {:induction false} RenameAndScanLog(log: seq<Event>, newKey: string)
    ensures log + [Watchers(false), Renamed(newKey)] + [Watchers(false), Scanned, Watchers(true)] + [Watchers(true)]
         == log + [Watchers(false), Renamed(newKey), Watchers(false), Scanned, Watchers(true), Watchers(true)]
  {
  }

  /** The watchers switched off and on with nothing done between. */
  lemma {:induction false} QuietIdle(log: seq<Event>)
    requires Quiet(log)
    ensures Quiet(log + [Watchers(false), Watchers(true)])
  {
    var s := [Watchers(false), Watchers(true)];
    assert s[..1] == [Watchers(false)] && [Watchers(false)][..0] == [];
    QuietAppend(true, log, s);
  }

  // ---------------------------------------------------------------------------
  // The window.

  /** `r` is what `ExtractAsync` gives on catalogs `cats`: the catalog
      loader's failure, or the scanned folder's items under a new root, or
      the scan's failure. */
  ghost predicate Extraction(cats: map<string, Catalog.Json>, languages: seq<string>, sources: Dir,
                             ps: seq<TextItemExtractor.ParserKind>, texts: map<string, string>,
                             r: Result<Item, TextItemExtractor.ExtractError>)
  {
    match TextItemExtractor.LoadAll(cats, languages).0
    case Failure(e) => r == Failure(e)
    case Success(translations) =>
      match TextItemExtractor.FolderItems(sources, ps, texts, translations)
      case Failure(e) => r == Failure(e)
      case Success(items) => r == Success(TextItemExtractor.Root(TextItemExtractor.PostProcessedAll(items, [])))
  }

  /** The tree a scan `t` shows: the flags carried over from the items shown
      before, if any, then the walk towards the "NEW" keys applied. */
  ghost predicate Rescanned(prior: Option<Item>, t: Item, r: Item)
  {
    var carried := t.(children := if prior.Some? then UIState(t.children, prior.value.children) else t.children);
    ExpandedAt(carried, r, OpenAll(carried.children, []))
  }

  /** `MainWindow`: the state its handlers share. `root` is the node whose
      children are `RootItems` (`None` until a scan has succeeded) and
      `extractor` is `null` while the folders are not configured. */
  class Window {
    const fs: FileSystem
    const languages: seq<string>
    const extractor: TextItemExtractor.Extractor?
    var root: Option<Item>
    var sourcesDirty: bool
    var log: seq<Event>

    constructor (fs: FileSystem, languages: seq<string>, extractor: TextItemExtractor.Extractor?)
      ensures this.fs == fs && this.languages == languages && this.extractor == extractor
      ensures root.None? && !sourcesDirty && log == [] && Quiet(log)
    {
      this.fs := fs;
      this.languages := languages;
      this.extractor := extractor;
      root := None;
      sourcesDirty := false;
      log := [];
    }

    /** `EnableFileWatchers(isEnabled)`: both watchers at once. */
    method EnableFileWatchers(on: bool)
      modifies this
      ensures log == old(log) + [Watchers(on)]
      ensures root == old(root) && sourcesDirty == old(sourcesDirty)
    {
      log := log + [Watchers(on)];
    }

    /** `ScanSourcesAsync()`: nothing happens without an extractor; otherwise
        the watchers are off for the extraction, a failed one keeps the
        items shown, and the flag is cleared and the watchers switched on in
        `finally`. `r` is the extraction's outcome. */
    method ScanSources() returns (r: Option<Result<Item, TextItemExtractor.ExtractError>>)
      modifies this, fs, extractor
      ensures fs.sources == old(fs.sources) && fs.texts == old(fs.texts)
      ensures extractor == null ==>
        r.None? && root == old(root) && sourcesDirty == old(sourcesDirty) && log == old(log) && fs.catalogs == old(fs.catalogs)
      ensures extractor != null ==>
        && r.Some? && !sourcesDirty
        && log == old(log) + [Watchers(false), Scanned, Watchers(true)]
        && fs.catalogs == TextItemExtractor.LoadAll(old(fs.catalogs), languages).1
        && Extraction(old(fs.catalogs), languages, fs.sources, extractor.fileParsers, fs.texts, r.value)
        && (r.value.Failure? ==> root == old(root))
        && (r.value.Success? ==> root.Some? && Rescanned(old(root), r.value.value, root.value))
      ensures Quiet(old(log)) ==> Quiet(log)
    {
      if extractor == null {
        return None;
      }
      EnableFileWatchers(false);
      var extracted := Extract();
      log := log + [Scanned];
      if extracted.Success? {
        Show(extracted.value);
      }
      // finally
      sourcesDirty := false;
      EnableFileWatchers(true);
      r := Some(extracted);
      if Quiet(old(log)) {
        QuietBracketed(old(log), Scanned);
      }
    }

    /** `_extractor.ExtractAsync()`. */
    method Extract() returns (r: Result<Item, TextItemExtractor.ExtractError>)
      requires extractor != null
      modifies fs, extractor
      ensures fs.sources == old(fs.sources) && fs.texts == old(fs.texts)
      ensures fs.catalogs == TextItemExtractor.LoadAll(old(fs.catalogs), languages).1
      ensures Extraction(old(fs.catalogs), languages, fs.sources, extractor.fileParsers, fs.texts, r)
    {
      r := extractor.Extract(fs, languages);
    }

    /** The tail of the `try`: the UI state carried over from the items shown,
        the "NEW" keys revealed, and the new items shown. */
    method Show(t: Item)
      modifies this
      ensures root.Some? && Rescanned(old(root), t, root.value)
      ensures sourcesDirty == old(sourcesDirty) && log == old(log)
    {
      var oldItems := if root.Some? then Some(root.value.children) else None;
      var items := ApplyUIState(t.children, oldItems);
      var carried := t.(children := items);
      var revealed := OpenAllNewKeys(carried, [], items, carried, {});
      assert {} + OpenAll(items, []) == OpenAll(items, []);
      root := Some(revealed);
    }

    /** `MarkSourcesDirty()`, on a watcher's event: while the window is not
        active the flag is set, otherwise the sources are scanned at once. */
    method MarkSourcesDirty(active: bool) returns (scan: Option<Result<Item, TextItemExtractor.ExtractError>>)
      modifies this, fs, extractor
      ensures sourcesDirty == NextDirty(old(sourcesDirty), Changed(active), extractor != null)
      ensures fs.sources == old(fs.sources) && fs.texts == old(fs.texts)
      ensures scan.Some? <==> active && extractor != null
      ensures scan.None? ==> root == old(root) && log == old(log) && fs.catalogs == old(fs.catalogs)
      ensures scan.Some? ==>
        && log == old(log) + [Watchers(false), Scanned, Watchers(true)]
        && fs.catalogs == TextItemExtractor.LoadAll(old(fs.catalogs), languages).1
        && (scan.value.Failure? ==> root == old(root))
        && (scan.value.Success? ==> root.Some? && Rescanned(old(root), scan.value.value, root.value))
      ensures Quiet(old(log)) ==> Quiet(log)
    {
      if !active {
        sourcesDirty := true;
        return None;
      }
      scan := ScanSources();
    }

    /** `MainWindow_OnActivated`: a scan only when the flag is set. */
    method OnActivated() returns (scan: Option<Result<Item, TextItemExtractor.ExtractError>>)
      modifies this, fs, extractor
      ensures sourcesDirty == NextDirty(old(sourcesDirty), Activated, extractor != null)
      ensures fs.sources == old(fs.sources) && fs.texts == old(fs.texts)
      ensures scan.Some? <==> old(sourcesDirty) && extractor != null
      ensures scan.None? ==> root == old(root) && log == old(log) && fs.catalogs == old(fs.catalogs)
      ensures scan.Some? ==>
        && log == old(log) + [Watchers(false), Scanned, Watchers(true)]
        && fs.catalogs == TextItemExtractor.LoadAll(old(fs.catalogs), languages).1
        && (scan.value.Failure? ==> root == old(root))
        && (scan.value.Success? ==> root.Some? && Rescanned(old(root), scan.value.value, root.value))
      ensures Quiet(old(log)) ==> Quiet(log)
    {
      scan := None;
      if sourcesDirty {
        scan := ScanSources();
      }
    }

    /** `RenameKey_Click` on the selected node at `p`, with the dialog's
        answer: the guards first, then, with the watchers off, the rename
        and, when it succeeds, the renamed node in place of the old one and
        a new scan; the watchers are switched on again in `finally`. */
    method RenameKey(p: Path, dialog: Option<string>)
      returns (r: Result<string, Refusal>, renamed: Option<Result<Item, TokenRenamer.RenameError>>, scan: Option<Result<Item, TextItemExtractor.ExtractError>>)
      requires root.Some? && ValidPath(root.value, p) && p != []
      modifies this, fs, extractor
      ensures r == RenameGuard(old(root.value), p, dialog)
      ensures fs.sources == old(fs.sources)
      ensures r.Failure? ==>
        && renamed.None? && scan.None? && root == old(root) && sourcesDirty == old(sourcesDirty) && log == old(log)
        && fs.texts == old(fs.texts) && fs.catalogs == old(fs.catalogs)
      ensures r.Success? ==>
        var spec := TokenRenamer.RenameSpec(old(fs.texts), old(fs.catalogs), languages, At(old(root.value), p), r.value);
        && renamed == Some(spec.0) && fs.texts == spec.1
        && (scan.Some? <==> spec.0.Success? && extractor != null)
        && (scan.None? ==> fs.catalogs == spec.2 && sourcesDirty == old(sourcesDirty)
                           && log == old(log) + [Watchers(false), Renamed(r.value), Watchers(true)])
        && (spec.0.Failure? ==> root == old(root))
        && (spec.0.Success? && extractor == null ==> root == Some(Replace(old(root.value), p, spec.0.value)))
        && (scan.Some? ==>
              && fs.catalogs == TextItemExtractor.LoadAll(spec.2, languages).1 && !sourcesDirty
              && log == old(log) + [Watchers(false), Renamed(r.value), Watchers(false), Scanned, Watchers(true), Watchers(true)]
              && (scan.value.Failure? ==> root == Some(Replace(old(root.value), p, spec.0.value)))
              && (scan.value.Success? ==>
                    root.Some? && Rescanned(Some(Replace(old(root.value), p, spec.0.value)), scan.value.value, root.value)))
      ensures Quiet(old(log)) ==> Quiet(log)
    {
      renamed, scan := None, None;
      r := CheckRename(p, dialog);
      if r.Failure? {
        return;
      }
      renamed, scan := RenameTo(p, r.value);
    }

    /** The checks of `RenameKey_Click`, in its order, with the counts over
        the items shown. */
    method CheckRename(p: Path, dialog: Option<string>) returns (r: Result<string, Refusal>)
      requires root.Some? && ValidPath(root.value, p)
      ensures r == RenameGuard(root.value, p, dialog)
    {
      var t := root.value;
      var item := At(t, p);
      if !IsTextItem(item) {
        return Failure(NotATextItem);
      }
      if item.key != "NEW" {
        var others := CountKeysInCodeBase(item.key, Some(p), t.children, []);
        if others > 0 {
          return Failure(KeyUsedElsewhere);
        }
      }
      if dialog.None? || !Accepted(item.key, dialog.value) {
        return Failure(Cancelled);
      }
      var newKey := dialog.value;
      if newKey == "NEW" {
        return Failure(RenamedToNew);
      }
      var usageCount := CountKeysInCodeBase(newKey, None, t.children, []);
      if usageCount > 0 {
        return Failure(KeyTaken);
      }
      r := Success(newKey);
    }

    /** The `try` of `RenameKey_Click` once the checks pass, with its
        `finally`. */
    method RenameTo(p: Path, newKey: string)
      returns (renamed: Option<Result<Item, TokenRenamer.RenameError>>, scan: Option<Result<Item, TextItemExtractor.ExtractError>>)
      requires root.Some? && ValidPath(root.value, p)
      modifies this, fs, extractor
      ensures fs.sources == old(fs.sources)
      ensures
        var spec := TokenRenamer.RenameSpec(old(fs.texts), old(fs.catalogs), languages, At(old(root.value), p), newKey);
        && renamed == Some(spec.0) && fs.texts == spec.1
        && (scan.Some? <==> spec.0.Success? && extractor != null)
        && (scan.None? ==> fs.catalogs == spec.2 && sourcesDirty == old(sourcesDirty)
                           && log == old(log) + [Watchers(false), Renamed(newKey), Watchers(true)])
        && (spec.0.Failure? ==> root == old(root))
        && (spec.0.Success? && extractor == null ==> root == Some(Replace(old(root.value), p, spec.0.value)))
        && (scan.Some? ==>
              && fs.catalogs == TextItemExtractor.LoadAll(spec.2, languages).1 && !sourcesDirty
              && log == old(log) + [Watchers(false), Renamed(newKey), Watchers(false), Scanned, Watchers(true), Watchers(true)]
              && (scan.value.Failure? ==> root == Some(Replace(old(root.value), p, spec.0.value)))
              && (scan.value.Success? ==>
                    root.Some? && Rescanned(Some(Replace(old(root.value), p, spec.0.value)), scan.value.value, root.value)))
      ensures Quiet(old(log)) ==> Quiet(log)
    {
      var t := root.value;
      var result := RenameFiles(At(t, p), newKey);
      renamed := Some(result);
      scan := None;
      if result.Success? {
        scan := ShowRenamed(p, result.value);
      }
      // finally
      EnableFileWatchers(true);
      if scan.Some? {
        RenameAndScanLog(old(log), newKey);
      }
      if Quiet(old(log)) {
        if scan.Some? {
          QuietRenameAndScan(old(log), newKey);
        } else {
          QuietBracketed(old(log), Renamed(newKey));
        }
      }
    }

    /** The watchers off, then `_tokenRenamer.Rename(treeItem, newKey)`. */
    method RenameFiles(item: Item, newKey: string) returns (r: Result<Item, TokenRenamer.RenameError>)
      modifies this, fs
      ensures root == old(root) && sourcesDirty == old(sourcesDirty)
      ensures log == old(log) + [Watchers(false), Renamed(newKey)]
      ensures fs.sources == old(fs.sources)
      ensures (r, fs.texts, fs.catalogs) == TokenRenamer.RenameSpec(old(fs.texts), old(fs.catalogs), languages, item, newKey)
    {
      EnableFileWatchers(false);
      log := log + [Renamed(newKey)];
      r := TokenRenamer.Rename(fs, languages, item, newKey);
    }

    /** After a rename that succeeds: the renamed node in place of the old
        one, then a new scan. */
    method ShowRenamed(p: Path, renamed: Item) returns (scan: Option<Result<Item, TextItemExtractor.ExtractError>>)
      requires root.Some? && ValidPath(root.value, p)
      modifies this, fs, extractor
      ensures fs.sources == old(fs.sources) && fs.texts == old(fs.texts)
      ensures scan.Some? <==> extractor != null
      ensures scan.None? ==>
        root == Some(Replace(old(root.value), p, renamed)) && sourcesDirty == old(sourcesDirty)
        && log == old(log) && fs.catalogs == old(fs.catalogs)
      ensures scan.Some? ==>
        && fs.catalogs == TextItemExtractor.LoadAll(old(fs.catalogs), languages).1 && !sourcesDirty
        && log == old(log) + [Watchers(false), Scanned, Watchers(true)]
        && (scan.value.Failure? ==> root == Some(Replace(old(root.value), p, renamed)))
        && (scan.value.Success? ==> root.Some? && Rescanned(Some(Replace(old(root.value), p, renamed)), scan.value.value, root.value))
    {
      root := Some(Replace(root.value, p, renamed));
      scan := ScanSources();
    }

    /** `TranslationOnPropertyChanged`: the edited text is saved under the
        selected node's key with the watchers off. With no node selected the
        key cannot be read; the save is skipped and the `finally` still
        switches the watchers on. */
    method SaveTranslation(selection: Option<Path>, language: string, text: Option<string>)
      returns (r: Option<Result<(), TranslationPersister.PersistError>>)
      requires selection.Some? ==> root.Some? && ValidPath(root.value, selection.value)
      modifies this, fs
      ensures root == old(root) && sourcesDirty == old(sourcesDirty)
      ensures fs.sources == old(fs.sources) && fs.texts == old(fs.texts)
      ensures selection.None? ==>
        r.None? && fs.catalogs == old(fs.catalogs) && log == old(log) + [Watchers(false), Watchers(true)]
      ensures selection.Some? ==>
        var key := At(root.value, selection.value).key;
        && r.Some? && (r.value, fs.catalogs) == TranslationPersister.Save(old(fs.catalogs), language, key, text)
        && log == old(log) + [Watchers(false), Saved(language, key), Watchers(true)]
      ensures Quiet(old(log)) ==> Quiet(log)
    {
      EnableFileWatchers(false);
      r := None;
      if selection.Some? {
        var key := At(root.value, selection.value).key;
        log := log + [Saved(language, key)];
        var saved := TranslationPersister.SaveTranslationText(fs, language, key, text);
        r := Some(saved);
      }
      // finally
      EnableFileWatchers(true);
      if Quiet(old(log)) {
        if selection.Some? {
          QuietBracketed(old(log), Saved(language, At(root.value, selection.value).key));
        } else {
          QuietIdle(old(log));
        }
      }
    }
  }
}
