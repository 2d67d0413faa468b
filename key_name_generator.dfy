/** Key naming by folder (KeyNameGenerator.cs): a key's namespace is the
    dot-joined, upper-cased names of the folders above it; the default key of
    an item is its namespace followed by its last key segment. */
module KeyNameGenerator {
  import opened Wrappers
  import opened Text
  import opened TreeItems

  /** The ancestors of the node at `p`, outermost first: the root, then the
      node at each proper prefix of `p`. */
  function Ancestors(t: Item, p: Path): (r: seq<Item>)
    requires ValidPath(t, p)
    ensures |r| == |p|
    decreases p
  {
    if p == [] then [] else [t] + Ancestors(t.children[p[0]], p[1..])
  }

  lemma {:induction false} AncestorAt(t: Item, p: Path, k: nat)
    requires ValidPath(t, p) && k < |p|
    ensures ValidPath(t, p[..k]) && Ancestors(t, p)[k] == At(t, p[..k])
    decreases p
  {
    PrefixValid(t, p, k);
    if k > 0 {
      AncestorAt(t.children[p[0]], p[1..], k - 1);
      assert p[..k][1..] == p[1..][..k - 1];
    }
  }

  /** Folders name a namespace level, except a folder keyed `ROOT`. A folder
      is never a text item, so its label is its key. */
  predicate NamesLevel(a: Item)
  {
    a.isFolder && a.key != "ROOT"
  }

  function FolderLabels(ancestors: seq<Item>): seq<string>
  {
    if ancestors == [] then []
    else (if NamesLevel(ancestors[0]) then [ancestors[0].key] else []) + FolderLabels(ancestors[1..])
  }

  /** The namespace of an item with these ancestors. */
  function Namespace(ancestors: seq<Item>): string
  {
    ToUpper(Join(".", FolderLabels(ancestors)) + ".")
  }

  function Reverse(s: seq<string>): (r: seq<string>)
    ensures |r| == |s|
  {
    if s == [] then [] else Reverse(s[1..]) + [s[0]]
  }

  lemma {:induction false} ReverseConcat(x: seq<string>, y: seq<string>)
    ensures Reverse(x + y) == Reverse(y) + Reverse(x)
    decreases |x|
  {
    if x == [] {
      assert x + y == y;
    } else {
      assert (x + y)[1..] == x[1..] + y;
      ReverseConcat(x[1..], y);
    }
  }

  lemma {:induction false} ReverseTwice(s: seq<string>)
    ensures Reverse(Reverse(s)) == s
    decreases |s|
  {
    if s != [] {
      ReverseConcat(Reverse(s[1..]), [s[0]]);
      ReverseTwice(s[1..]);
      assert Reverse([s[0]]) == [s[0]];
    }
  }

  /** `GetNamespace`: walk up the parents from the node at `p`, collect the
      key of every folder that names a level, reverse, join with dots, append
      a dot and upper-case. */
  method GetNamespace(root: Item, p: Path) returns (ns: string)
    requires ValidPath(root, p)
    ensures ns == Namespace(Ancestors(root, p))
  {
    ghost var anc := Ancestors(root, p);
    var parents: seq<string> := [];
    var k := |p|;
    assert anc[k..] == [];
    while k > 0
      invariant 0 <= k <= |p|
      invariant parents == Reverse(FolderLabels(anc[k..]))
    {
      k := k - 1;
      AncestorAt(root, p, k);
      var current := At(root, p[..k]);
      ghost var own: seq<string> := if NamesLevel(current) then [current.key] else [];
      assert anc[k..][1..] == anc[k + 1..];
      assert FolderLabels(anc[k..]) == own + FolderLabels(anc[k + 1..]);
      ReverseConcat(own, FolderLabels(anc[k + 1..]));
      assert Reverse(own) == own;
      if current.isFolder && current.key != "ROOT" {
        parents := parents + [current.key];
      }
    }
    assert anc[0..] == anc;
    ReverseTwice(FolderLabels(anc));
    parents := Reverse(parents);
    ns := ToUpper(Join(".", parents) + ".");
  }

  /** The namespace always ends with a dot. */
  lemma {:induction false} NamespaceEndsWithDot(ancestors: seq<Item>)
    ensures EndsWith(Namespace(ancestors), ".")
  {
    var j := Join(".", FolderLabels(ancestors)) + ".";
    assert j[|j| - 1] == '.';
  }

  /** Without a folder that names a level the namespace is just a dot. */
  lemma {:induction false} NamespaceWithoutFolders(ancestors: seq<Item>)
    requires forall k :: 0 <= k < |ancestors| ==> !NamesLevel(ancestors[k])
    ensures Namespace(ancestors) == "."
  {
    NoFolderLabels(ancestors);
    assert Join(".", []) + "." == ".";
  }

  lemma {:induction false} NoFolderLabels(ancestors: seq<Item>)
    requires forall k :: 0 <= k < |ancestors| ==> !NamesLevel(ancestors[k])
    ensures FolderLabels(ancestors) == []
    decreases |ancestors|
  {
    if ancestors != [] {
      assert forall k :: 0 <= k < |ancestors[1..]| ==> ancestors[1..][k] == ancestors[k + 1];
      NoFolderLabels(ancestors[1..]);
    }
  }

  /** The namespace depends only on the ancestors: replacing the item itself
      (its key included) leaves it as it was. */
  lemma {:induction false} NamespaceIgnoresItem(t: Item, p: Path, n: Item)
    requires ValidPath(t, p)
    ensures ValidPath(Replace(t, p, n), p)
    ensures FolderLabels(Ancestors(Replace(t, p, n), p)) == FolderLabels(Ancestors(t, p))
    decreases p
  {
    if p != [] {
      var r := Replace(t, p, n);
      NamespaceIgnoresItem(t.children[p[0]], p[1..], n);
      assert r.children[p[0]] == Replace(t.children[p[0]], p[1..], n);
      assert Ancestors(r, p) == [r] + Ancestors(r.children[p[0]], p[1..]);
      assert Ancestors(r, p)[1..] == Ancestors(r.children[p[0]], p[1..]);
      assert Ancestors(t, p)[1..] == Ancestors(t.children[p[0]], p[1..]);
    }
  }

  /** `Label` of the node at `p`. */
  function LabelAt(root: Item, p: Path): Option<string>
    requires ValidPath(root, p)
  {
    Label(At(root, p), Namespace(Ancestors(root, p)))
  }

  datatype KeyError = LastSegmentBlank

  /** `GetDefaultKeyNameFor`: a key that already starts with the namespace is
      kept; otherwise the namespace followed by the upper-cased last segment,
      which must not be blank. */
  function DefaultKeyName(key: string, ns: string): (r: Result<string, KeyError>)
    ensures StartsWith(key, ns) ==> r == Success(key)
    ensures r.Success? ==> StartsWith(r.value, ns)
    ensures r.Failure? <==> !StartsWith(key, ns) && IsBlank(Split(key, '.')[|Split(key, '.')| - 1])
  {
    if StartsWith(key, ns) then Success(key)
    else
      var parts := Split(key, '.');
      var last := parts[|parts| - 1];
      if IsBlank(last) then Failure(LastSegmentBlank) else Success(ns + ToUpper(last))
  }

  function DefaultKeyNameAt(root: Item, p: Path): Result<string, KeyError>
    requires ValidPath(root, p)
  {
    DefaultKeyName(At(root, p).key, Namespace(Ancestors(root, p)))
  }

  /** A proposed default key is kept by a second proposal. */
  lemma {:induction false} DefaultKeyNameIdempotent(key: string, ns: string)
    requires DefaultKeyName(key, ns).Success?
    ensures DefaultKeyName(DefaultKeyName(key, ns).value, ns) == DefaultKeyName(key, ns)
  {
  }

  /** A changed key keeps the old last segment, upper-cased, as its own last
      segment: the namespace ends with a dot and the segment holds none. */
  lemma {:induction false} DefaultKeyKeepsLastSegment(key: string, ns: string)
    requires EndsWith(ns, ".") && !StartsWith(key, ns) && DefaultKeyName(key, ns).Success?
    ensures var parts := Split(key, '.');
            var newParts := Split(DefaultKeyName(key, ns).value, '.');
            newParts[|newParts| - 1] == ToUpper(parts[|parts| - 1])
  {
    var parts := Split(key, '.');
    var last := parts[|parts| - 1];
    assert '.' !in last by {
      SplitPartsHaveNoSeparator(key, '.');
    }
    assert DefaultKeyName(key, ns) == Success(ns + ToUpper(last));
    LastSegmentAfterDot(ns, last);
  }

  lemma {:induction false} LastSegmentAfterDot(ns: string, last: string)
    requires EndsWith(ns, ".") && '.' !in last
    ensures var newParts := Split(ns + ToUpper(last), '.');
            newParts[|newParts| - 1] == ToUpper(last)
  {
    var up := ToUpper(last);
    UpperKeepsNoDot(last);
    var r := ns + up;
    var parts := Split(r, '.');
    JoinSplit(r, '.');
    SplitPartsHaveNoSeparator(r, '.');
    var x := parts[|parts| - 1];
    var p := if |parts| >= 2 then Join(".", parts[..|parts| - 1]) + "." else "";
    if |parts| >= 2 {
      JoinSnoc(".", parts);
    }
    assert r == p + x;
    SameTail(ns, up, p, x);
  }

  /** Two dot-free tails of one text, each preceded by a dot or by nothing,
      are the same. */
  lemma {:induction false} SameTail(a: string, b: string, p: string, d: string)
    requires |a| > 0 && a[|a| - 1] == '.' && '.' !in b && '.' !in d
    requires p == [] || p[|p| - 1] == '.'
    requires a + b == p + d
    ensures b == d
  {
    var s := a + b;
    assert s[|a| - 1] == '.';
    assert s[|a|..] == b;
    LastIndexUnique(s, |a| - 1, '.');
    assert p != [];
    assert s[|p| - 1] == p[|p| - 1];
    assert s[|p|..] == d;
    LastIndexUnique(s, |p| - 1, '.');
  }

  lemma {:induction false} UpperKeepsNoDot(s: string)
    requires '.' !in s
    ensures '.' !in ToUpper(s)
  {
    var up := ToUpper(s);
    forall x | 0 <= x < |up|
      ensures up[x] != '.'
    {
      assert up[x] == ToUpperChar(s[x]);
      assert s[x] != '.';
    }
  }
}
