/** TranslationPersister.cs: load, change and save one language's catalog.
    The catalog files live in the `catalogs` map of the file system; each
    public operation loads the file (creating `{ }` when it is missing),
    changes the loaded object and saves it back. */
module TranslationPersister {
  import opened Wrappers
  import opened Text
  import opened Catalog
  import opened Files

  datatype PersistError =
    | Malformed(language: string)   // the file holds neither a JSON object nor `null`
    | SetFailed(reason: SetError)   // SetNode threw
    | NullSet(language: string)     // RemoveLeafAndClean was given the null set of a file holding `null`

  // ---------------------------------------------------------------------------
  // Specification of the public operations on the catalog files.

  /** The catalog files after `LoadTranslationSet(language)`: a missing file
      is written as an empty object. */
  function WithDefault(cats: map<string, Json>, language: string): (r: map<string, Json>)
    ensures language in r
    ensures forall l :: l in cats ==> l in r && r[l] == cats[l]
    ensures forall l :: l in r ==> l in cats || l == language
    ensures language !in cats ==> r[language] == Obj([])
  {
    if language in cats then cats else cats[language := Obj([])]
  }

  /** What `LoadTranslationSet` returns for a file's content: the object's
      properties, or `None` for the null reference `DeserializeObject` gives
      for a file holding `null`; any other content throws. */
  function Loaded(j: Json, language: string): (r: Result<Option<seq<Prop>>, PersistError>)
    ensures r.Success? <==> j.Obj? || j == Val(None)
    ensures r.Success? ==> (r.value.Some? <==> j.Obj?) && (j.Obj? ==> r.value.value == j.props)
  {
    match j
    case Obj(props) => Success(Some(props))
    case Val(None) => Success(None)
    case _ => Failure(Malformed(language))
  }

  /** `SetNode` on the null set: a null text returns at once; otherwise the
      first segment throws, as blank or as not below an object. */
  function SetOnNull(key: string, text: Option<string>): (r: Result<(), SetError>)
    ensures text.None? <==> r.Success?
    ensures text.Some? ==> (r == Failure(InvalidPath) <==> IsBlank(Split(key, '.')[0]))
  {
    if text.None? then Success(())
    else if IsBlank(Split(key, '.')[0]) then Failure(InvalidPath)
    else Failure(NotAnObject)
  }

  /** `SaveTranslationText(language, key, text)`: its outcome and the catalog
      files afterwards. On an error nothing but the missing-file default is
      written, because the save comes after `SetNode`. */
  function Save(cats: map<string, Json>, language: string, key: string, text: Option<string>)
    : (Result<(), PersistError>, map<string, Json>)
  {
    var loaded := WithDefault(cats, language);
    match Loaded(loaded[language], language)
    case Failure(e) => (Failure(e), loaded)
    case Success(None) =>
      // `SaveTranslationSet` writes the null set back as `null`
      (if SetOnNull(key, text).Failure? then (Failure(SetFailed(SetOnNull(key, text).error)), loaded)
       else (Success(()), loaded))
    case Success(Some(props)) =>
      match Catalog.SetNode(Obj(props), key, text)
      case Failure(e) => (Failure(SetFailed(e)), loaded)
      case Success(j) => (Success(()), loaded[language := j])
  }

  /** `RemoveTranslationText(language, key)`: its outcome and the catalog
      files afterwards. */
  function Remove(cats: map<string, Json>, language: string, key: string)
    : (Result<(), PersistError>, map<string, Json>)
  {
    var loaded := WithDefault(cats, language);
    match Loaded(loaded[language], language)
    case Failure(e) => (Failure(e), loaded)
    case Success(None) => (Failure(NullSet(language)), loaded)
    case Success(Some(props)) => (Success(()), loaded[language := Obj(RemoveKey(props, key))])
  }

  // ---------------------------------------------------------------------------
  // The operations.

  method LoadTranslationSet(fs: FileSystem, language: string) returns (r: Result<Option<seq<Prop>>, PersistError>)
    modifies fs
    ensures fs.catalogs == WithDefault(old(fs.catalogs), language)
    ensures fs.sources == old(fs.sources) && fs.texts == old(fs.texts)
    ensures r == Loaded(fs.catalogs[language], language)
  {
    if language !in fs.catalogs {
      fs.catalogs := fs.catalogs[language := Obj([])];
    }
    r := Loaded(fs.catalogs[language], language);
  }

  method SaveTranslationText(fs: FileSystem, language: string, key: string, text: Option<string>)
    returns (r: Result<(), PersistError>)
    modifies fs
    ensures (r, fs.catalogs) == Save(old(fs.catalogs), language, key, text)
    ensures fs.sources == old(fs.sources) && fs.texts == old(fs.texts)
  {
    var loadedSet := LoadTranslationSet(fs, language);
    if loadedSet.Failure? {
      return Failure(loadedSet.error);
    }
    if loadedSet.value.None? {
      var onNull := SetOnNull(key, text);
      if onNull.Failure? {
        return Failure(SetFailed(onNull.error));
      }
      return Success(());
    }
    var changed := SetNode(key, text, Obj(loadedSet.value.value));
    if changed.Failure? {
      return Failure(SetFailed(changed.error));
    }
    fs.catalogs := fs.catalogs[language := changed.value];
    r := Success(());
  }

  method RemoveTranslationText(fs: FileSystem, language: string, key: string)
    returns (r: Result<(), PersistError>)
    modifies fs
    ensures (r, fs.catalogs) == Remove(old(fs.catalogs), language, key)
    ensures fs.sources == old(fs.sources) && fs.texts == old(fs.texts)
  {
    var path := Split(key, '.');
    var loadedSet := LoadTranslationSet(fs, language);
    if loadedSet.Failure? {
      return Failure(loadedSet.error);
    }
    if loadedSet.value.None? {
      return Failure(NullSet(language));
    }
    var cleaned := RemoveLeafAndClean(loadedSet.value.value, path, 0);
    fs.catalogs := fs.catalogs[language := Obj(cleaned)];
    r := Success(());
  }

  // ---------------------------------------------------------------------------
  // SetNode: a cursor walks down the key; the objects it passes are kept as
  // frames, so that the change made below shows in the loaded object, as the
  // in-place update of the shared JObject does.

  /** An object the cursor went through: its properties before and after the
      one the cursor moved into, and that property's name. */
  datatype Frame = Frame(before: seq<Prop>, name: string, after: seq<Prop>)

  function Plug(ctx: seq<Frame>, v: Json): Json
    decreases |ctx|
  {
    if ctx == [] then v
    else
      var f := ctx[|ctx| - 1];
      Plug(ctx[..|ctx| - 1], Obj(f.before + [(f.name, v)] + f.after))
  }

  function PlugResult(ctx: seq<Frame>, r: Result<Json, SetError>): Result<Json, SetError>
  {
    match r
    case Success(v) => Success(Plug(ctx, v))
    case Failure(e) => Failure(e)
  }

  /** The index before which `SortedInsert` adds a property called `name`. */
  method InsertPosition(props: seq<Prop>, name: string) returns (p: nat)
    ensures p == InsertPos(props, name)
  {
    var nameLower := ToLower(name);
    p := 0;
    while p < |props|
      invariant p <= |props|
      invariant InsertPos(props, name) == p + InsertPos(props[p..], name)
    {
      if LexLe(ToLower(props[p].0), nameLower) == false {
        return;
      }
      assert props[p..][1..] == props[p + 1..];
      p := p + 1;
    }
  }

  /** `SortedInsert(parent, name, value)`. */
  method SortedInsertProperty(props: seq<Prop>, name: string, value: Json) returns (r: seq<Prop>)
    ensures r == SortedInsert(props, name, value)
  {
    var p := InsertPosition(props, name);
    r := props[..p] + [(name, value)] + props[p..];
  }

  method SetNode(key: string, text: Option<string>, loadedSet: Json) returns (r: Result<Json, SetError>)
    ensures r == Catalog.SetNode(loadedSet, key, text)
  {
    if text.None? {
      return Success(loadedSet);
    }
    var textValue := text.value;
    var path := Split(key, '.');
    var lastPart := path[|path| - 1];
    var current := loadedSet;
    var ctx: seq<Frame> := [];
    var k := 0;
    while k < |path|
      invariant k <= |path|
      invariant SetPath(loadedSet, path, lastPart, textValue)
                == PlugResult(ctx, SetPath(current, path[k..], lastPart, textValue))
    {
      var part := path[k];
      var rest := path[k..];
      assert rest[0] == part && rest[1..] == path[k + 1..];
      if IsBlank(part) {
        return Failure(InvalidPath);
      }
      match current {
        case Obj(props) =>
          var step := EnterProperty(props, part, lastPart, textValue);
          if step.Failure? {
            return Failure(step.error);
          }
          var (frame, next) := step.value;
          SetStep(props, rest, lastPart, textValue);
          PlugStep(ctx, frame, SetPath(next, rest[1..], lastPart, textValue));
          ctx := ctx + [frame];
          current := next;
        case Val(_) =>
          return Failure(PathThroughValue);
        case Arr =>
          return Failure(NotAnObject);
      }
      k := k + 1;
    }
    return Success(Plug(ctx, current));
  }

  /** The body of `SetNode`'s loop on an object: move into the property
      `part` (to be added at its sorted place when missing), or refuse a last
      segment whose property holds something other than a value. */
  method EnterProperty(props: seq<Prop>, part: string, lastPart: string, textValue: string)
    returns (r: Result<(Frame, Json), SetError>)
    ensures var i := Find(props, part);
      r.Failure? <==> i >= 0 && part == lastPart && !props[i].1.Val?
    ensures r.Failure? ==> r.error == LeafNotValue
    ensures r.Success? ==> r.value == Enter(props, part, lastPart, textValue)
  {
    var i := Find(props, part);
    if i >= 0 {
      var child := props[i].1;
      if part == lastPart && !child.Val? {
        return Failure(LeafNotValue);
      }
      var next := if part == lastPart then Val(Some(textValue)) else child;
      return Success((Frame(props[..i], part, props[i + 1..]), next));
    }
    var next := if part == lastPart then Val(Some(textValue)) else Obj([]);
    var p := InsertPosition(props, part);
    return Success((Frame(props[..p], part, props[p..]), next));
  }

  /** The segment the cursor enters, and the frame it leaves behind. */
  function Enter(props: seq<Prop>, part: string, last: string, text: string): (Frame, Json)
  {
    var i := Find(props, part);
    if i >= 0 then
      (Frame(props[..i], part, props[i + 1..]), if part == last then Val(Some(text)) else props[i].1)
    else
      var p := InsertPos(props, part);
      (Frame(props[..p], part, props[p..]), if part == last then Val(Some(text)) else Obj([]))
  }

  /** One step of `SetPath` on an object is entering the segment and
      plugging what is set below into the frame. */
  lemma {:induction false} SetStep(props: seq<Prop>, parts: seq<string>, last: string, text: string)
    requires parts != [] && !IsBlank(parts[0])
    requires var i := Find(props, parts[0]); !(i >= 0 && parts[0] == last && !props[i].1.Val?)
    ensures var (f, next) := Enter(props, parts[0], last, text);
            SetPath(Obj(props), parts, last, text) == PlugResult([f], SetPath(next, parts[1..], last, text))
  {
    var i := Find(props, parts[0]);
    var (f, next) := Enter(props, parts[0], last, text);
    var r := SetPath(next, parts[1..], last, text);
    if r.Success? {
      PlugLast([], f, r.value);
      assert [] + [f] == [f];
      if i >= 0 {
        assert props[i := (parts[0], r.value)] == props[..i] + [(parts[0], r.value)] + props[i + 1..];
      }
    }
  }

  lemma {:induction false} PlugStep(ctx: seq<Frame>, f: Frame, r: Result<Json, SetError>)
    ensures PlugResult(ctx + [f], r) == PlugResult(ctx, PlugResult([f], r))
  {
    if r.Success? {
      var fill := Obj(f.before + [(f.name, r.value)] + f.after);
      PlugLast(ctx, f, r.value);
      PlugLast([], f, r.value);
      assert [] + [f] == [f];
    }
  }

  lemma {:induction false} PlugLast(ctx: seq<Frame>, f: Frame, v: Json)
    ensures Plug(ctx + [f], v) == Plug(ctx, Obj(f.before + [(f.name, v)] + f.after))
  {
    var c := ctx + [f];
    assert c[|c| - 1] == f;
    assert c[..|c| - 1] == ctx;
  }

  /** `RemoveLeafAndClean(token, path, index)`: the removal goes down
      recursively and removes emptied objects on the way back up. */
  method RemoveLeafAndClean(props: seq<Prop>, path: seq<string>, index: nat) returns (r: seq<Prop>)
    requires index < |path|
    ensures r == RemoveLeaf(props, path[index..])
    decreases |path| - index
  {
    var name := path[index];
    var i := Find(props, name);
    if index < |path| - 1 {
      if i >= 0 {
        var child := props[i].1;
        if !child.Obj? {
          return props;
        }
        var cleaned := RemoveLeafAndClean(child.props, path, index + 1);
        assert path[index..][1..] == path[index + 1..];
        if |cleaned| == 0 {
          return props[..i] + props[i + 1..];
        }
        return props[i := (name, Obj(cleaned))];
      }
      return props;
    } else {
      if i >= 0 {
        return props[..i] + props[i + 1..];
      }
      return props;
    }
  }

  // ---------------------------------------------------------------------------
  // Properties of the public operations.

  /** Saving a null text changes no catalog beyond creating a missing file. */
  lemma {:induction false} SaveNullText(cats: map<string, Json>, language: string, key: string)
    requires language !in cats || cats[language].Obj? || cats[language] == Val(None)
    ensures Save(cats, language, key, None) == (Success(()), WithDefault(cats, language))
  {
    var loaded := WithDefault(cats, language);
    assert loaded[language := loaded[language]] == loaded;
  }

  /** A file holding `null` is never changed: a removal fails, and a save
      succeeds only for a null text. */
  lemma {:induction false} NullSetKept(cats: map<string, Json>, language: string, key: string, text: Option<string>)
    requires language in cats && cats[language] == Val(None)
    ensures Remove(cats, language, key) == (Failure(NullSet(language)), cats)
    ensures Save(cats, language, key, text).1 == cats
    ensures Save(cats, language, key, text).0.Success? <==> text.None?
  {
  }

  /** A failed save leaves every catalog as loaded. */
  lemma {:induction false} SaveFailureKeepsCatalogs(cats: map<string, Json>, language: string, key: string, text: Option<string>)
    requires Save(cats, language, key, text).0.Failure?
    ensures Save(cats, language, key, text).1 == WithDefault(cats, language)
  {
  }

  /** After a successful save, the key resolves to the text in that
      language, every other key of that language resolves as before, and
      every other language's catalog is unchanged. */
  lemma {:induction false} SaveThenLookup(cats: map<string, Json>, language: string, key: string, text: string, q: seq<string>)
    requires Save(cats, language, key, Some(text)).0.Success?
    ensures var after := Save(cats, language, key, Some(text)).1;
            && language in after
            && Lookup(after[language], q)
               == (if q == Split(key, '.') then Some(text) else Lookup(WithDefault(cats, language)[language], q))
            && forall l :: l in after && l != language ==> l in cats && after[l] == cats[l]
  {
    var path := Split(key, '.');
    SetThenLookup(WithDefault(cats, language)[language], path, path[|path| - 1], text, q);
  }

  /** After a removal, the key and every key below it no longer resolve in
      that language; every other key resolves as before (in the empty
      object created for a missing file, none does). */
  lemma {:induction false} RemoveThenLookupCatalog(cats: map<string, Json>, language: string, key: string, q: seq<string>)
    requires language in cats ==> cats[language].Obj? && WellFormed(cats[language])
    ensures var after := Remove(cats, language, key).1;
            && Remove(cats, language, key).0.Success?
            && Lookup(after[language], q)
               == (if Split(key, '.') <= q then None else Lookup(WithDefault(cats, language)[language], q))
            && forall l :: l in after && l != language ==> after[l] == cats[l]
  {
    RemoveThenLookup(WithDefault(cats, language)[language].props, Split(key, '.'), q);
  }

  /** A save touches the catalog of its own language only. */
  lemma {:induction false} SaveFrame(cats: map<string, Json>, language: string, key: string, text: Option<string>)
    ensures var after := Save(cats, language, key, text).1;
            && language in after
            && forall l :: l != language ==> (l in after <==> l in cats) && (l in cats ==> after[l] == cats[l])
  {
  }

  /** A removal touches the catalog of its own language only. */
  lemma {:induction false} RemoveFrame(cats: map<string, Json>, language: string, key: string)
    ensures var after := Remove(cats, language, key).1;
            && language in after
            && forall l :: l != language ==> (l in after <==> l in cats) && (l in cats ==> after[l] == cats[l])
  {
  }
}
