/** A translation catalog: the in-memory JSON tree of one language file, and
    the path operations TranslationPersister.cs performs on it (set a text at
    a dot-separated key path, remove a key path and prune emptied ancestors),
    stated as functions on values. */
module Catalog {
  import opened Wrappers
  import opened Text

  /** A JSON token: an object with its properties in document order, a
      scalar (string, number, boolean or null; `text` is what
      `Value<string>()` gives for it, `None` for null), or an array, whose
      items the catalog operations never look at. */
  datatype Json = Obj(props: seq<Prop>) | Val(text: Option<string>) | Arr

  type Prop = (string, Json)

  // ---------------------------------------------------------------------------
  // Property lookup.

  /** The index of the property called `name` (`JObject.ContainsKey` is an
      ordinal comparison), or -1. */
  function Find(props: seq<Prop>, name: string): (i: int)
    ensures -1 <= i < |props|
    ensures i >= 0 ==> props[i].0 == name && forall k :: 0 <= k < i ==> props[k].0 != name
    ensures i < 0 ==> forall k :: 0 <= k < |props| ==> props[k].0 != name
  {
    if props == [] then -1
    else if props[0].0 == name then 0
    else
      var k := Find(props[1..], name);
      if k < 0 then -1 else k + 1
  }

  /** `obj[name]` when `obj.ContainsKey(name)`. */
  function Child(props: seq<Prop>, name: string): Option<Json>
  {
    var i := Find(props, name);
    if i < 0 then None else Some(props[i].1)
  }

  /** `ContainsKey(name)`: a child is found exactly when some property has
      that name. */
  lemma {:induction false} ChildFound(props: seq<Prop>, name: string)
    ensures Child(props, name).Some? <==> exists k :: 0 <= k < |props| && props[k].0 == name
  {
  }

  /** A JSON object never holds two properties of the same name. */
  predicate DistinctNames(props: seq<Prop>)
  {
    forall a, b :: 0 <= a < b < |props| ==> props[a].0 != props[b].0
  }

  ghost predicate WellFormed(j: Json)
  {
    match j
    case Obj(props) =>
      DistinctNames(props) && forall k :: 0 <= k < |props| ==> WellFormed(props[k].1)
    case _ => true
  }

  /** What the key path `path` resolves to: each segment must name a property
      of an object; the translation text exists only where the walk ends at
      a scalar (TextItemExtractor.BuildTranslationsFor). */
  function Lookup(j: Json, path: seq<string>): (r: Option<string>)
    ensures r.Some? ==> path != [] || j.Val?
    decreases |path|
  {
    if path == [] then (match j case Val(t) => t case _ => None)
    else match j
      case Obj(props) =>
        (match Child(props, path[0])
         case Some(c) => Lookup(c, path[1..])
         case None => None)
      case _ => None
  }

  // ---------------------------------------------------------------------------
  // Case-insensitive sibling order.

  /** `a.ToLower().CompareTo(b.ToLower()) == 1`. */
  predicate NameGreater(a: string, b: string)
  {
    !LexLe(ToLower(a), ToLower(b))
  }

  /** Siblings are in ascending case-insensitive order. */
  predicate SortedNames(props: seq<Prop>)
  {
    forall a, b :: 0 <= a < b < |props| ==> LexLe(ToLower(props[a].0), ToLower(props[b].0))
  }

  /** Every object of the tree has its siblings in ascending case-insensitive order. */
  ghost predicate SortedDeep(j: Json)
  {
    match j
    case Obj(props) =>
      SortedNames(props) && forall k :: 0 <= k < |props| ==> SortedDeep(props[k].1)
    case _ => true
  }

  /** Where `SortedInsert` puts a new property called `name`: before the first
      sibling whose lower-cased name compares greater, or at the end. */
  function InsertPos(props: seq<Prop>, name: string): (p: nat)
    ensures p <= |props|
    ensures forall k :: 0 <= k < p ==> !NameGreater(props[k].0, name)
    ensures p < |props| ==> NameGreater(props[p].0, name)
  {
    if props == [] then 0
    else if NameGreater(props[0].0, name) then 0
    else 1 + InsertPos(props[1..], name)
  }

  function SortedInsert(props: seq<Prop>, name: string, value: Json): (r: seq<Prop>)
    ensures |r| == |props| + 1
  {
    var p := InsertPos(props, name);
    props[..p] + [(name, value)] + props[p..]
  }

  /** `parent.Remove(name)` for the property at index `i`. */
  function Delete(props: seq<Prop>, i: nat): (r: seq<Prop>)
    requires i < |props|
    ensures |r| == |props| - 1
  {
    props[..i] + props[i + 1..]
  }

  // ---------------------------------------------------------------------------
  // SetNode.

  datatype SetError =
    | InvalidPath       // an empty or white-space segment (FormatException)
    | LeafNotValue      // the leaf segment exists and is not a scalar
    | PathThroughValue  // the path goes on below a scalar
    | NotAnObject       // the path goes on below an array, or starts at a null set

  /** `SetNode` with the remaining segments `parts` of the key, `last` being
      the key's last segment: a segment is treated as the leaf whenever its
      TEXT equals `last`, wherever it stands in the key. A missing leaf is
      created as a string, a missing inner segment as an empty object, each
      by `SortedInsert`. An error leaves the caller with nothing to save. */
  function SetPath(j: Json, parts: seq<string>, last: string, text: string): Result<Json, SetError>
    decreases |parts|
  {
    if parts == [] then Success(j)
    else
      var part := parts[0];
      if IsBlank(part) then Failure(InvalidPath)
      else match j
        case Obj(props) =>
          var i := Find(props, part);
          if i >= 0 then
            var child := props[i].1;
            if part == last && !child.Val? then Failure(LeafNotValue)
            else
              var start := if part == last then Val(Some(text)) else child;
              var sub :- SetPath(start, parts[1..], last, text);
              Success(Obj(props[i := (part, sub)]))
          else
            var start := if part == last then Val(Some(text)) else Obj([]);
            var sub :- SetPath(start, parts[1..], last, text);
            Success(Obj(SortedInsert(props, part, sub)))
        case Val(_) => Failure(PathThroughValue)
        case Arr => Failure(NotAnObject)
  }

  /** `SetNode(language, key, textValue, set)`: a null text changes nothing. */
  function SetNode(j: Json, key: string, text: Option<string>): (r: Result<Json, SetError>)
    ensures text.None? ==> r == Success(j)
  {
    match text
    case None => Success(j)
    case Some(t) =>
      var path := Split(key, '.');
      SetPath(j, path, path[|path| - 1], t)
  }

  // ---------------------------------------------------------------------------
  // RemoveLeafAndClean.

  /** `RemoveLeafAndClean(obj, path, index)` on the object's properties, with
      `parts == path[index..]`: the last segment is removed whatever it
      holds; a missing or non-object inner segment stops the walk; an inner
      object left empty is removed on the way back up. */
  function RemoveLeaf(props: seq<Prop>, parts: seq<string>): (r: seq<Prop>)
    requires |parts| >= 1
    ensures |r| <= |props|
    decreases |parts|
  {
    var i := Find(props, parts[0]);
    if |parts| > 1 then
      if i < 0 then props
      else match props[i].1
        case Obj(cprops) =>
          var c := RemoveLeaf(cprops, parts[1..]);
          if c == [] then Delete(props, i) else props[i := (parts[0], Obj(c))]
        case _ => props
    else if i < 0 then props
    else Delete(props, i)
  }

  /** `RemoveTranslationText`'s change to the loaded object. */
  function RemoveKey(props: seq<Prop>, key: string): seq<Prop>
  {
    RemoveLeaf(props, Split(key, '.'))
  }

  // ===========================================================================
  // Lemmas: property lookup after the elementary edits.

  lemma {:induction false} FindSameNames(a: seq<Prop>, b: seq<Prop>, name: string)
    requires |a| == |b| && forall k :: 0 <= k < |a| ==> a[k].0 == b[k].0
    ensures Find(a, name) == Find(b, name)
  {
    var x, y := Find(a, name), Find(b, name);
    if x >= 0 && y >= 0 {
      assert !(x < y) && !(y < x);
    }
  }

  lemma {:induction false} ChildUpdate(props: seq<Prop>, i: nat, v: Json, n: string)
    requires i < |props| && Find(props, props[i].0) == i
    ensures Child(props[i := (props[i].0, v)], n) == if n == props[i].0 then Some(v) else Child(props, n)
  {
    FindSameNames(props, props[i := (props[i].0, v)], n);
  }

  lemma {:induction false} ChildInsert(props: seq<Prop>, name: string, v: Json, n: string)
    requires Find(props, name) < 0
    ensures Child(SortedInsert(props, name, v), n) == if n == name then Some(v) else Child(props, n)
  {
    ChildInsertAt(props, InsertPos(props, name), name, v, n);
  }

  /** A new property inserted anywhere is found, and moves no other. */
  lemma {:induction false} ChildInsertAt(props: seq<Prop>, p: nat, name: string, v: Json, n: string)
    requires p <= |props| && Find(props, name) < 0
    ensures Child(props[..p] + [(name, v)] + props[p..], n) == if n == name then Some(v) else Child(props, n)
  {
    FindInsertAt(props, p, name, v, n);
  }

  lemma {:induction false} FindInsertAt(props: seq<Prop>, p: nat, name: string, v: Json, n: string)
    requires p <= |props| && Find(props, name) < 0
    ensures var i := Find(props, n);
      Find(props[..p] + [(name, v)] + props[p..], n) ==
        if n == name then p else if i < 0 then -1 else if i < p then i else i + 1
  {
    var front, back := props[..p], props[p..];
    var mid := [(name, v)] + back;
    assert front + back == props;
    assert front + [(name, v)] + back == front + mid;
    FindConcat(front, back, name);
    FindConcat(front, back, n);
    FindConcat(front, mid, n);
    FindCons((name, v), back, n);
  }

  /** Looking in a concatenation looks in the front, then in the back. */
  lemma {:induction false} FindConcat(a: seq<Prop>, b: seq<Prop>, n: string)
    ensures Find(a + b, n) ==
      if Find(a, n) >= 0 then Find(a, n)
      else if Find(b, n) >= 0 then |a| + Find(b, n)
      else -1
    decreases |a|
  {
    if a == [] {
      assert a + b == b;
    } else {
      assert (a + b)[0] == a[0];
      assert (a + b)[1..] == a[1..] + b;
      FindConcat(a[1..], b, n);
    }
  }

  lemma {:induction false} FindNone(props: seq<Prop>, name: string)
    requires forall k :: 0 <= k < |props| ==> props[k].0 != name
    ensures Find(props, name) == -1
  {
  }

  lemma {:induction false} FindCons(x: Prop, s: seq<Prop>, n: string)
    ensures Find([x] + s, n) == if x.0 == n then 0 else if Find(s, n) < 0 then -1 else 1 + Find(s, n)
  {
    assert ([x] + s)[1..] == s;
  }

  lemma {:induction false} ChildDelete(props: seq<Prop>, i: nat, n: string)
    requires i < |props| && DistinctNames(props)
    ensures Child(Delete(props, i), n) == if n == props[i].0 then None else Child(props, n)
  {
    FindDeleteAt(props, i, n);
  }

  lemma {:induction false} FindDeleteAt(props: seq<Prop>, i: nat, n: string)
    requires i < |props| && DistinctNames(props)
    ensures var x := Find(props, n);
      Find(Delete(props, i), n) == if n == props[i].0 then -1 else if x < 0 then -1 else if x < i then x else x - 1
  {
    var front, back := props[..i], props[i + 1..];
    var mid := [props[i]] + back;
    assert props == front + mid;
    assert Delete(props, i) == front + back;
    FindConcat(front, mid, n);
    FindCons(props[i], back, n);
    FindConcat(front, back, n);
    if n == props[i].0 {
      NameOnlyAt(props, i);
    }
  }

  /** With distinct names, no other property is called like the one at `i`. */
  lemma {:induction false} NameOnlyAt(props: seq<Prop>, i: nat)
    requires i < |props| && DistinctNames(props)
    ensures Find(props[..i], props[i].0) < 0 && Find(props[i + 1..], props[i].0) < 0
  {
    FindNone(props[..i], props[i].0);
    FindNone(props[i + 1..], props[i].0);
  }

  // ===========================================================================
  // Lemmas: SetPath.

  /** Set then look up: after a successful set, the key resolves to the text
      and every other key path resolves to what it resolved to before. */
  lemma {:induction false} SetThenLookup(j: Json, parts: seq<string>, last: string, text: string, q: seq<string>)
    requires parts != [] && parts[|parts| - 1] == last
    requires SetPath(j, parts, last, text).Success?
    ensures Lookup(SetPath(j, parts, last, text).value, q)
            == if q == parts then Some(text) else Lookup(j, q)
    decreases |parts|
  {
    if q != [] {
      var start := SetStart(j.props, parts[0], last, text);
      SetStepChild(j, parts, last, text, q[0]);
      var sub := SetPath(start, parts[1..], last, text).value;
      LookupCons(SetPath(j, parts, last, text).value.props, q);
      LookupCons(j.props, q);
      if q[0] == parts[0] {
        if |parts| > 1 {
          SetThenLookup(start, parts[1..], last, text, q[1..]);
          assert q == parts <==> q[1..] == parts[1..];
        } else {
          assert sub == Val(Some(text));
          assert q == parts <==> q[1..] == [];
        }
      }
    }
  }

  lemma {:induction false} LookupCons(props: seq<Prop>, q: seq<string>)
    requires q != []
    ensures Lookup(Obj(props), q) == match Child(props, q[0]) case Some(c) => Lookup(c, q[1..]) case None => None
  {
  }

  /** Where `SetPath` goes on below the first segment `part` of `props`. */
  function SetStart(props: seq<Prop>, part: string, last: string, text: string): Json
  {
    var i := Find(props, part);
    if part == last then Val(Some(text)) else if i >= 0 then props[i].1 else Obj([])
  }

  /** One step of `SetPath`: the first segment now names what was set below
      it; every other property is found as before. */
  lemma {:induction false} SetStepChild(j: Json, parts: seq<string>, last: string, text: string, n: string)
    requires parts != [] && SetPath(j, parts, last, text).Success?
    ensures j.Obj? && SetPath(j, parts, last, text).value.Obj?
    ensures var start := SetStart(j.props, parts[0], last, text);
      SetPath(start, parts[1..], last, text).Success? &&
      Child(SetPath(j, parts, last, text).value.props, n)
        == if n == parts[0] then Some(SetPath(start, parts[1..], last, text).value) else Child(j.props, n)
  {
    var part := parts[0];
    var props := j.props;
    var i := Find(props, part);
    var sub := SetPath(SetStart(props, part, last, text), parts[1..], last, text).value;
    if i >= 0 {
      assert SetPath(j, parts, last, text).value == Obj(props[i := (part, sub)]);
      ChildUpdate(props, i, sub, n);
    } else {
      assert SetPath(j, parts, last, text).value == Obj(SortedInsert(props, part, sub));
      ChildInsert(props, part, sub, n);
    }
  }

  /** The corollary the catalog's readers see. */
  lemma {:induction false} SetNodeThenLookup(j: Json, key: string, text: string)
    requires SetNode(j, key, Some(text)).Success?
    ensures Lookup(SetNode(j, key, Some(text)).value, Split(key, '.')) == Some(text)
  {
    var path := Split(key, '.');
    SetThenLookup(j, path, path[|path| - 1], text, path);
  }

  /** A key with an empty or white-space segment is refused. */
  lemma {:induction false} BlankSegmentFails(j: Json, parts: seq<string>, last: string, text: string, k: nat)
    requires k < |parts| && IsBlank(parts[k])
    ensures SetPath(j, parts, last, text).Failure?
    decreases k
  {
    if k > 0 && !IsBlank(parts[0]) && j.Obj? {
      var i := Find(j.props, parts[0]);
      var start := if parts[0] == last then Val(Some(text))
                   else if i >= 0 then j.props[i].1 else Obj([]);
      if !(i >= 0 && parts[0] == last && !j.props[i].1.Val?) {
        BlankSegmentFails(start, parts[1..], last, text, k - 1);
      }
    }
  }

  /** Leaf detection compares segment text, not position: a key whose last
      segment also occurs earlier can never be set. After the earlier
      occurrence the cursor is a scalar (or the set failed already), and the
      next segment cannot go on below it. */
  lemma {:induction false} RepeatedLastSegmentFails(j: Json, parts: seq<string>, last: string, text: string, k: nat)
    requires k + 1 < |parts| && parts[k] == last
    ensures SetPath(j, parts, last, text).Failure?
    decreases k
  {
    if !IsBlank(parts[0]) && j.Obj? {
      var i := Find(j.props, parts[0]);
      var start := if parts[0] == last then Val(Some(text))
                   else if i >= 0 then j.props[i].1 else Obj([]);
      if !(i >= 0 && parts[0] == last && !j.props[i].1.Val?) {
        if k == 0 {
          assert start == Val(Some(text));
          assert SetPath(start, parts[1..], last, text).Failure?;
        } else {
          RepeatedLastSegmentFails(start, parts[1..], last, text, k - 1);
        }
      }
    }
  }

  /** `SetNode` succeeds exactly on the keys it can lay out in `j`: every
      segment non-blank, the last segment's text nowhere else in the key,
      every inner segment an object or missing, and the leaf a scalar or
      missing. */
  ghost predicate Settable(j: Json, parts: seq<string>)
    decreases |parts|
  {
    parts == [] ||
    (j.Obj? &&
     match Child(j.props, parts[0])
     case None => true
     case Some(c) => if |parts| == 1 then c.Val? else Settable(c, parts[1..]))
  }

  ghost predicate ValidSegments(parts: seq<string>, last: string)
  {
    && (forall k :: 0 <= k < |parts| ==> !IsBlank(parts[k]))
    && (forall k :: 0 <= k < |parts| - 1 ==> parts[k] != last)
  }

  lemma {:induction false} SettableEmpty(parts: seq<string>)
    ensures Settable(Obj([]), parts)
  {
  }

  lemma {:induction false} SetSucceedsIff(j: Json, parts: seq<string>, last: string, text: string)
    requires parts != [] && parts[|parts| - 1] == last
    ensures SetPath(j, parts, last, text).Success? <==> ValidSegments(parts, last) && Settable(j, parts)
    decreases |parts|
  {
    if exists k :: 0 <= k < |parts| && IsBlank(parts[k]) {
      var k :| 0 <= k < |parts| && IsBlank(parts[k]);
      BlankSegmentFails(j, parts, last, text, k);
    } else if exists k :: 0 <= k < |parts| - 1 && parts[k] == last {
      var k :| 0 <= k < |parts| - 1 && parts[k] == last;
      RepeatedLastSegmentFails(j, parts, last, text, k);
    } else {
      assert ValidSegments(parts, last);
      assert ValidSegments(parts[1..], last) by {
        assert forall k :: 0 <= k < |parts| - 1 ==> parts[1..][k] == parts[k + 1];
      }
      if j.Obj? {
        var part := parts[0];
        var i := Find(j.props, part);
        if |parts| == 1 {
          assert part == last;
        } else {
          assert part != last;
          if i >= 0 {
            SetSucceedsIff(j.props[i].1, parts[1..], last, text);
          } else {
            SettableEmpty(parts[1..]);
            SetSucceedsIff(Obj([]), parts[1..], last, text);
          }
        }
      }
    }
  }

  /** Updating an existing scalar leaf keeps every property in its place:
      only the leaf's text changes. */
  lemma {:induction false} ExistingLeafUpdatedInPlace(props: seq<Prop>, name: string, text: string)
    requires !IsBlank(name) && Find(props, name) >= 0 && props[Find(props, name)].1.Val?
    ensures var i := Find(props, name);
            SetPath(Obj(props), [name], name, text) == Success(Obj(props[i := (name, Val(Some(text)))]))
  {
  }

  // ---------------------------------------------------------------------------
  // Order and well-formedness are kept.

  lemma {:induction false} SortedInsertSorted(props: seq<Prop>, name: string, v: Json)
    requires SortedNames(props)
    ensures SortedNames(SortedInsert(props, name, v))
  {
    var p := InsertPos(props, name);
    var r := SortedInsert(props, name, v);
    var ln := ToLower(name);
    forall a, b | 0 <= a < b < |r|
      ensures LexLe(ToLower(r[a].0), ToLower(r[b].0))
    {
      if b < p {
        assert r[a] == props[a] && r[b] == props[b];
      } else if b == p {
        assert r[a] == props[a] && r[b].0 == name;
      } else if a < p {
        assert r[a] == props[a] && r[b] == props[b - 1];
        assert !NameGreater(props[a].0, name);
        LexLeTotal(ToLower(props[p].0), ln);
        LexLeTrans(ToLower(props[a].0), ln, ToLower(props[p].0));
        if b - 1 > p {
          LexLeTrans(ToLower(props[a].0), ToLower(props[p].0), ToLower(props[b - 1].0));
        }
      } else if a == p {
        assert r[b] == props[b - 1];
        LexLeTotal(ToLower(props[p].0), ln);
        if b - 1 > p {
          LexLeTrans(ln, ToLower(props[p].0), ToLower(props[b - 1].0));
        }
      } else {
        assert r[a] == props[a - 1] && r[b] == props[b - 1];
      }
    }
  }

  lemma {:induction false} SortedInsertDistinct(props: seq<Prop>, name: string, v: Json)
    requires DistinctNames(props) && Find(props, name) < 0
    ensures DistinctNames(SortedInsert(props, name, v))
  {
    InsertAtDistinct(props, InsertPos(props, name), (name, v));
  }

  lemma {:induction false} InsertAtDistinct(props: seq<Prop>, p: nat, x: Prop)
    requires p <= |props| && DistinctNames(props) && Find(props, x.0) < 0
    ensures DistinctNames(props[..p] + [x] + props[p..])
  {
    var r := props[..p] + [x] + props[p..];
    forall a, b | 0 <= a < b < |r|
      ensures r[a].0 != r[b].0
    {
      InsertAtIndex(props, p, x, a);
      InsertAtIndex(props, p, x, b);
    }
  }

  /** What sits at index `k` after inserting `x` at `p`. */
  lemma {:induction false} InsertAtIndex(props: seq<Prop>, p: nat, x: Prop, k: nat)
    requires p <= |props| && k <= |props|
    ensures (props[..p] + [x] + props[p..])[k] == if k < p then props[k] else if k == p then x else props[k - 1]
  {
  }

  lemma {:induction false} UpdateKeepsShape(props: seq<Prop>, i: nat, sub: Json)
    requires i < |props| && SortedDeep(Obj(props)) && WellFormed(Obj(props))
    requires SortedDeep(sub) && WellFormed(sub)
    ensures SortedDeep(Obj(props[i := (props[i].0, sub)])) && WellFormed(Obj(props[i := (props[i].0, sub)]))
  {
    UpdateKeepsSorted(props, i, sub);
    UpdateKeepsWellFormed(props, i, sub);
  }

  lemma {:induction false} InsertKeepsShape(props: seq<Prop>, name: string, sub: Json)
    requires Find(props, name) < 0 && SortedDeep(Obj(props)) && WellFormed(Obj(props))
    requires SortedDeep(sub) && WellFormed(sub)
    ensures SortedDeep(Obj(SortedInsert(props, name, sub))) && WellFormed(Obj(SortedInsert(props, name, sub)))
  {
    SortedInsertSorted(props, name, sub);
    SortedInsertDistinct(props, name, sub);
    InsertAtDeep(props, InsertPos(props, name), (name, sub));
  }

  lemma {:induction false} InsertAtDeep(props: seq<Prop>, p: nat, x: Prop)
    requires p <= |props| && SortedDeep(Obj(props)) && WellFormed(Obj(props))
    requires SortedDeep(x.1) && WellFormed(x.1)
    requires SortedNames(props[..p] + [x] + props[p..]) && DistinctNames(props[..p] + [x] + props[p..])
    ensures SortedDeep(Obj(props[..p] + [x] + props[p..])) && WellFormed(Obj(props[..p] + [x] + props[p..]))
  {
    var r := props[..p] + [x] + props[p..];
    forall k | 0 <= k < |r|
      ensures SortedDeep(r[k].1) && WellFormed(r[k].1)
    {
      if k < p {
        assert r[k] == props[k];
      } else if k > p {
        assert r[k] == props[k - 1];
      }
    }
  }

  /** Setting keeps every object's siblings in case-insensitive order and
      their names distinct. */
  lemma {:induction false} SetPathKeepsShape(j: Json, parts: seq<string>, last: string, text: string)
    requires SortedDeep(j) && WellFormed(j)
    requires SetPath(j, parts, last, text).Success?
    ensures SortedDeep(SetPath(j, parts, last, text).value)
    ensures WellFormed(SetPath(j, parts, last, text).value)
    decreases |parts|
  {
    if parts != [] {
      var part := parts[0];
      var props := j.props;
      var i := Find(props, part);
      var start := if part == last then Val(Some(text))
                   else if i >= 0 then props[i].1 else Obj([]);
      SetPathKeepsShape(start, parts[1..], last, text);
      var sub := SetPath(start, parts[1..], last, text).value;
      if i >= 0 {
        UpdateKeepsShape(props, i, sub);
        assert SetPath(j, parts, last, text).value == Obj(props[i := (props[i].0, sub)]);
      } else {
        InsertKeepsShape(props, part, sub);
      }
    }
  }

  // ===========================================================================
  // Lemmas: RemoveLeaf.

  /** Remove then look up: the removed key, and every key below it, no
      longer resolves; every other key resolves as before (pruning only
      drops empty objects, which hold no text). */
  lemma {:induction false} RemoveThenLookup(props: seq<Prop>, parts: seq<string>, q: seq<string>)
    requires |parts| >= 1 && WellFormed(Obj(props))
    ensures Lookup(Obj(RemoveLeaf(props, parts)), q) == if parts <= q then None else Lookup(Obj(props), q)
    decreases |parts|
  {
    if q != [] {
      var n := q[0];
      var p := parts[0];
      var i := Find(props, p);
      LookupCons(RemoveLeaf(props, parts), q);
      LookupCons(props, q);
      assert parts <= q <==> n == p && parts[1..] <= q[1..];
      if i >= 0 {
        if |parts| == 1 {
          ChildDelete(props, i, n);
        } else if props[i].1.Obj? {
          var cprops := props[i].1.props;
          var c := RemoveLeaf(cprops, parts[1..]);
          RemoveInnerChild(props, parts, n);
          if n == p {
            RemoveThenLookup(cprops, parts[1..], q[1..]);
            if c == [] {
              EmptyLookup(q[1..]);
            }
          }
        } else if n == p && parts <= q {
          assert q[1..] != [];
        }
      }
    }
  }

  /** Nothing is found in an empty object. */
  lemma {:induction false} EmptyLookup(q: seq<string>)
    ensures Lookup(Obj([]), q) == None
  {
  }

  /** Removing below an inner object changes only that object, dropping it
      once it is empty. */
  lemma {:induction false} RemoveInnerChild(props: seq<Prop>, parts: seq<string>, n: string)
    requires |parts| > 1 && WellFormed(Obj(props))
    requires Find(props, parts[0]) >= 0 && props[Find(props, parts[0])].1.Obj?
    ensures var i := Find(props, parts[0]);
      var c := RemoveLeaf(props[i].1.props, parts[1..]);
      WellFormed(props[i].1) &&
      Child(RemoveLeaf(props, parts), n) ==
        if n != parts[0] then Child(props, n) else if c == [] then None else Some(Obj(c))
  {
    var i := Find(props, parts[0]);
    var c := RemoveLeaf(props[i].1.props, parts[1..]);
    if c == [] {
      ChildDelete(props, i, n);
    } else {
      ChildUpdate(props, i, Obj(c), n);
    }
  }

  /** Pruning leaves no empty object below the root where there was none. */
  ghost predicate NoEmptyBelow(j: Json)
  {
    match j
    case Obj(props) => forall k :: 0 <= k < |props| ==> NonEmptyObjects(props[k].1)
    case _ => true
  }

  ghost predicate NonEmptyObjects(j: Json)
  {
    match j
    case Obj(props) => props != [] && forall k :: 0 <= k < |props| ==> NonEmptyObjects(props[k].1)
    case _ => true
  }

  /** Removing keeps sibling order, distinct names and the absence of empty
      objects below the root. */
  lemma {:induction false} RemoveKeepsShape(props: seq<Prop>, parts: seq<string>)
    requires |parts| >= 1
    ensures SortedDeep(Obj(props)) ==> SortedDeep(Obj(RemoveLeaf(props, parts)))
    ensures WellFormed(Obj(props)) ==> WellFormed(Obj(RemoveLeaf(props, parts)))
    ensures NoEmptyBelow(Obj(props)) ==> NoEmptyBelow(Obj(RemoveLeaf(props, parts)))
    decreases |parts|
  {
    var i := Find(props, parts[0]);
    var r := RemoveLeaf(props, parts);
    if i >= 0 {
      if |parts| > 1 && props[i].1.Obj? {
        var cprops := props[i].1.props;
        RemoveKeepsShape(cprops, parts[1..]);
        var c := RemoveLeaf(cprops, parts[1..]);
        if c != [] {
          ReplaceChildKeepsShape(props, i, c);
        } else {
          DeleteKeepsShape(props, i);
        }
      } else if |parts| == 1 {
        DeleteKeepsShape(props, i);
      }
    }
  }

  /** Replacing an inner object by a non-empty one of the same shape keeps
      the shape of its parent. */
  lemma {:induction false} ReplaceChildKeepsShape(props: seq<Prop>, i: nat, c: seq<Prop>)
    requires i < |props| && props[i].1.Obj? && c != []
    requires SortedDeep(props[i].1) ==> SortedDeep(Obj(c))
    requires WellFormed(props[i].1) ==> WellFormed(Obj(c))
    requires NoEmptyBelow(props[i].1) ==> NoEmptyBelow(Obj(c))
    ensures SortedDeep(Obj(props)) ==> SortedDeep(Obj(props[i := (props[i].0, Obj(c))]))
    ensures WellFormed(Obj(props)) ==> WellFormed(Obj(props[i := (props[i].0, Obj(c))]))
    ensures NoEmptyBelow(Obj(props)) ==> NoEmptyBelow(Obj(props[i := (props[i].0, Obj(c))]))
  {
    if SortedDeep(Obj(props)) {
      UpdateKeepsSorted(props, i, Obj(c));
    }
    if WellFormed(Obj(props)) {
      UpdateKeepsWellFormed(props, i, Obj(c));
    }
    if NoEmptyBelow(Obj(props)) {
      var r := props[i := (props[i].0, Obj(c))];
      forall k | 0 <= k < |r|
        ensures NonEmptyObjects(r[k].1)
      {
        if k != i {
          assert r[k] == props[k];
        }
      }
    }
  }

  /** A property's value replaced by one in order leaves its parent in order. */
  lemma {:induction false} UpdateKeepsSorted(props: seq<Prop>, i: nat, sub: Json)
    requires i < |props| && SortedDeep(Obj(props)) && SortedDeep(sub)
    ensures SortedDeep(Obj(props[i := (props[i].0, sub)]))
  {
    var r := props[i := (props[i].0, sub)];
    assert forall k :: 0 <= k < |r| ==> r[k].0 == props[k].0;
    forall k | 0 <= k < |r|
      ensures SortedDeep(r[k].1)
    {
      if k != i {
        assert r[k] == props[k];
      }
    }
  }

  lemma {:induction false} UpdateKeepsWellFormed(props: seq<Prop>, i: nat, sub: Json)
    requires i < |props| && WellFormed(Obj(props)) && WellFormed(sub)
    ensures WellFormed(Obj(props[i := (props[i].0, sub)]))
  {
    var r := props[i := (props[i].0, sub)];
    assert forall k :: 0 <= k < |r| ==> r[k].0 == props[k].0;
    forall k | 0 <= k < |r|
      ensures WellFormed(r[k].1)
    {
      if k != i {
        assert r[k] == props[k];
      }
    }
  }

  lemma {:induction false} DeleteKeepsShape(props: seq<Prop>, i: nat)
    requires i < |props|
    ensures SortedDeep(Obj(props)) ==> SortedDeep(Obj(Delete(props, i)))
    ensures WellFormed(Obj(props)) ==> WellFormed(Obj(Delete(props, i)))
    ensures NoEmptyBelow(Obj(props)) ==> NoEmptyBelow(Obj(Delete(props, i)))
  {
    if SortedDeep(Obj(props)) {
      DeleteKeepsSorted(props, i);
    }
    if WellFormed(Obj(props)) {
      DeleteKeepsWellFormed(props, i);
    }
    if NoEmptyBelow(Obj(props)) {
      forall k | 0 <= k < |props| - 1
        ensures NonEmptyObjects(Delete(props, i)[k].1)
      {
        DeleteIndex(props, i, k);
      }
    }
  }

  lemma {:induction false} DeleteKeepsSorted(props: seq<Prop>, i: nat)
    requires i < |props| && SortedDeep(Obj(props))
    ensures SortedDeep(Obj(Delete(props, i)))
  {
    var r := Delete(props, i);
    forall a, b | 0 <= a < b < |r|
      ensures LexLe(ToLower(r[a].0), ToLower(r[b].0))
    {
      DeleteIndex(props, i, a);
      DeleteIndex(props, i, b);
    }
    forall k | 0 <= k < |r|
      ensures SortedDeep(r[k].1)
    {
      DeleteIndex(props, i, k);
    }
  }

  lemma {:induction false} DeleteKeepsWellFormed(props: seq<Prop>, i: nat)
    requires i < |props| && WellFormed(Obj(props))
    ensures WellFormed(Obj(Delete(props, i)))
  {
    var r := Delete(props, i);
    forall a, b | 0 <= a < b < |r|
      ensures r[a].0 != r[b].0
    {
      DeleteIndex(props, i, a);
      DeleteIndex(props, i, b);
    }
    forall k | 0 <= k < |r|
      ensures WellFormed(r[k].1)
    {
      DeleteIndex(props, i, k);
    }
  }

  /** The index in the old properties of index `k` after deleting index `i`. */
  function Skip(k: nat, i: nat): nat
  {
    if k < i then k else k + 1
  }

  lemma {:induction false} DeleteIndex(props: seq<Prop>, i: nat, k: nat)
    requires i < |props| && k < |props| - 1
    ensures Delete(props, i)[k] == props[Skip(k, i)]
  {
  }

  /** `j` is a chain of objects with one property each, named by the
      segments of `parts` in turn (what the last one holds is free). */
  predicate OnlyPath(j: Json, parts: seq<string>)
    decreases |parts|
  {
    && |parts| >= 1 && j.Obj? && |j.props| == 1 && j.props[0].0 == parts[0]
    && (|parts| > 1 ==> OnlyPath(j.props[0].1, parts[1..]))
  }

  /** Removing the key path that a single-property chain spells out empties
      the whole chain. */
  lemma {:induction false} OnlyPathEmptied(j: Json, parts: seq<string>)
    requires OnlyPath(j, parts)
    ensures RemoveLeaf(j.props, parts) == []
    decreases |parts|
  {
    assert Find(j.props, parts[0]) == 0;
    if |parts| > 1 {
      OnlyPathEmptied(j.props[0].1, parts[1..]);
    }
  }

  /** Emptied ancestors are pruned all the way up: when the property
      `parts[0]` is a chain of single-property objects down the rest of the
      key path, removing the key path deletes `parts[0]` itself from the
      catalog (`{"HOME": {"TITLE": …}, …}` less `HOME.TITLE` is the catalog
      without `HOME`). */
  lemma {:induction false} RemoveOnlyChild(props: seq<Prop>, parts: seq<string>)
    requires |parts| >= 2 && Child(props, parts[0]).Some? && OnlyPath(Child(props, parts[0]).value, parts[1..])
    ensures Find(props, parts[0]) >= 0
    ensures RemoveLeaf(props, parts) == Delete(props, Find(props, parts[0]))
  {
    OnlyPathEmptied(Child(props, parts[0]).value, parts[1..]);
  }
}
