/** Parsing/TextItemExtractor.cs: build the tree of folders, source files
    and text items from the source folder and the loaded catalogs. */
module TextItemExtractor {
  import opened Wrappers
  import opened Text
  import opened Usages
  import opened Catalog
  import opened Files
  import opened Sorting
  import opened TreeItems
  import opened KeyNameGenerator
  import TranslationPersister
  import HtmlParser
  import TypeScriptParser

  /** The loaded catalogs, one per language in load order (the order in
      which the dictionary of catalogs enumerates them): each the file's
      object, or `Val(None)` for the null set of a file holding `null`. */
  type Catalogs = seq<(string, Json)>

  datatype ExtractError =
    | Unreadable(file: string)                            // a source file cannot be read
    | CatalogFailed(reason: TranslationPersister.PersistError)
    | DuplicateLanguage(language: string)                 // Dictionary.Add of a present key

  // ---------------------------------------------------------------------------
  // Loading the catalogs (`LoadTranslationFiles`).

  function LanguagesOf(cats: Catalogs): (r: seq<string>)
    ensures |r| == |cats| && forall k :: 0 <= k < |cats| ==> r[k] == cats[k].0
  {
    if cats == [] then [] else [cats[0].0] + LanguagesOf(cats[1..])
  }

  /** The outcome of loading the catalogs of `languages` in order, each by
      `LoadTranslationSet`, and the catalog files afterwards. */
  function LoadAll(files: map<string, Json>, languages: seq<string>): (Result<Catalogs, ExtractError>, map<string, Json>)
    decreases |languages|
  {
    if languages == [] then (Success([]), files)
    else LoadNext(LoadAll(files, languages[..|languages| - 1]), languages[|languages| - 1])
  }

  /** Loading one more language after `previous`: its file is created
      when missing; an error stops the loading. */
  function LoadNext(previous: (Result<Catalogs, ExtractError>, map<string, Json>), language: string)
    : (Result<Catalogs, ExtractError>, map<string, Json>)
  {
    var (r, before) := previous;
    if r.Failure? then previous
    else
      var after := TranslationPersister.WithDefault(before, language);
      match TranslationPersister.Loaded(after[language], language)
      case Failure(e) => (Failure(CatalogFailed(e)), after)
      case Success(loadedSet) =>
        if language in LanguagesOf(r.value) then (Failure(DuplicateLanguage(language)), after)
        else (Success(r.value + [(language, if loadedSet.Some? then Obj(loadedSet.value) else Val(None))]), after)
  }

  /** What `LoadTranslationSet` accepts: an object or `null`. */
  predicate Loadable(j: Json)
  {
    j.Obj? || j == Val(None)
  }

  /** Every catalog file among `languages` that exists can be loaded. */
  predicate AllObjects(files: map<string, Json>, languages: seq<string>)
  {
    forall k :: 0 <= k < |languages| && languages[k] in files ==> Loadable(files[languages[k]])
  }

  // ---------------------------------------------------------------------------
  // Text items (`ConvertToTextTreeItems`, `BuildTranslationsFor`).

  /** The distinct tokens of `us` in order of first occurrence: the keys of
      `GroupBy(usage => usage.Token)`. */
  function Tokens(us: seq<TokenUsage>): (r: seq<string>)
    ensures Distinct(r)
    ensures forall t :: t in r ==> exists k :: 0 <= k < |us| && us[k].token == t
    ensures forall k :: 0 <= k < |us| ==> us[k].token in r
    decreases |us|
  {
    if us == [] then []
    else
      var init := Tokens(us[..|us| - 1]);
      var t := us[|us| - 1].token;
      assert forall k :: 0 <= k < |us| - 1 ==> us[..|us| - 1][k] == us[k];
      if t in init then init else init + [t]
  }

  /** The group of `token`: its usages in source order. */
  function UsagesOf(us: seq<TokenUsage>, token: string): (r: seq<TokenUsage>)
    ensures forall k :: 0 <= k < |r| ==> r[k].token == token && r[k] in us
    decreases |us|
  {
    if us == [] then []
    else
      var init := UsagesOf(us[..|us| - 1], token);
      assert forall u :: u in init ==> u in us;
      if us[|us| - 1].token == token then init + [us[|us| - 1]] else init
  }

  /** The translations of `key`, one per loaded language, each the catalog's
      value at the key's dot-separated path or nothing. */
  function TranslationsFor(cats: Catalogs, key: string): (r: seq<Translation>)
    ensures |r| == |cats|
  {
    seq(|cats|, k requires 0 <= k < |cats| => Translation(cats[k].0, Lookup(cats[k].1, Split(key, '.'))))
  }

  /** The text item of one token group of `file`. Assigning `TokenUsages`
      selects the group's first usage. */
  function TextItem(file: string, token: string, us: seq<TokenUsage>, cats: Catalogs): Item
  {
    SetTokenUsages(NewItem(token), UsagesOf(us, token))
      .(translations := Some(TranslationsFor(cats, token)), fullFilename := Some(file))
  }

  function TextItems(file: string, us: seq<TokenUsage>, cats: Catalogs): (r: seq<Item>)
    ensures |r| == |Tokens(us)|
  {
    var tokens := Tokens(us);
    seq(|tokens|, k requires 0 <= k < |tokens| => TextItem(file, tokens[k], us, cats))
  }

  // ---------------------------------------------------------------------------
  // File items (`GetTreeItemsFromFile`, `ParseAllFilesInFolder`).

  datatype ParserKind = Html | Script

  const Parsers: seq<ParserKind> := [Html, Script]

  function Mask(p: ParserKind): string
  {
    match p
    case Html => HtmlParser.FileMask
    case Script => TypeScriptParser.FileMask
  }

  function Parse(p: ParserKind, file: string, content: string): seq<TokenUsage>
  {
    match p
    case Html => HtmlParser.ParseFile(file, content)
    case Script => TypeScriptParser.ParseFile(file, content)
  }

  function FileNode(file: string): Item
  {
    NewItem(FileName(file)).(fullFilename := Some(file))
  }

  /** The items one source file contributes: its file node with the text
      items as children, or nothing when it holds no token. */
  function FileItems(file: string, p: ParserKind, texts: map<string, string>, cats: Catalogs): Result<seq<Item>, ExtractError>
  {
    if file !in texts then Failure(Unreadable(file))
    else
      var textItems := TextItems(file, Parse(p, file, texts[file]), cats);
      Success(if |textItems| > 0 then [FileNode(file).(children := textItems)] else [])
  }

  /** The items of `files`, in order, scanned with `p`. */
  function FilesItems(files: seq<string>, p: ParserKind, texts: map<string, string>, cats: Catalogs): Result<seq<Item>, ExtractError>
    decreases |files|
  {
    if files == [] then Success([])
    else
      var init :- FilesItems(files[..|files| - 1], p, texts, cats);
      var last :- FileItems(files[|files| - 1], p, texts, cats);
      Success(init + last)
  }

  /** The items of the files of `dir`, parser by parser in the order of
      `ps`. */
  function ParsersItems(dir: Dir, ps: seq<ParserKind>, texts: map<string, string>, cats: Catalogs): Result<seq<Item>, ExtractError>
    decreases |ps|
  {
    if ps == [] then Success([])
    else
      var init :- ParsersItems(dir, ps[..|ps| - 1], texts, cats);
      var p := ps[|ps| - 1];
      var last :- FilesItems(GetFiles(dir, Mask(p)), p, texts, cats);
      Success(init + last)
  }

  // ---------------------------------------------------------------------------
  // Folders (`ProcessFolder`, `ProcessSubFolder`, `CountFolders`).

  /** `OrderBy(i => !i.IsFolder).ThenBy(i => i.Key)`: folders come first,
      then by key. */
  function SiblingLe(a: Item, b: Item): bool
  {
    (a.isFolder && !b.isFolder) || (a.isFolder == b.isFolder && LexLe(a.key, b.key))
  }

  function FolderNode(dir: Dir): Item
  {
    NewItem(FileName(dir.path)).(isFolder := true)
  }

  /** The items of a folder: its files' items, then an item for each
      subfolder that yields any, all sorted when there is any. */
  function FolderItems(dir: Dir, ps: seq<ParserKind>, texts: map<string, string>, cats: Catalogs): Result<seq<Item>, ExtractError>
    decreases dir, 1
  {
    var files :- ParsersItems(dir, ps, texts, cats);
    var all :- SubfoldersItems(dir.subdirs, ps, files, texts, cats);
    Success(SortSiblings(all))
  }

  /** The items of a folder in display order, when there are any. */
  function SortSiblings(items: seq<Item>): seq<Item>
  {
    if |items| > 0 then Sort(items, SiblingLe) else items
  }

  /** `acc` followed by the items of the subfolders `ds`, in order. */
  function SubfoldersItems(ds: seq<Dir>, ps: seq<ParserKind>, acc: seq<Item>, texts: map<string, string>, cats: Catalogs): Result<seq<Item>, ExtractError>
    decreases ds, 0
  {
    if ds == [] then Success(acc)
    else
      var children :- FolderItems(ds[0], ps, texts, cats);
      var acc' := if |children| > 0 then acc + [FolderNode(ds[0]).(children := children)] else acc;
      SubfoldersItems(ds[1..], ps, acc', texts, cats)
  }

  /** The number of folders in the tree of `dir`, `dir` included. */
  function CountFolders(dir: Dir): (r: nat)
    ensures r >= 1
    decreases dir, 1
  {
    1 + CountAll(dir.subdirs)
  }

  function CountAll(ds: seq<Dir>): nat
    decreases ds, 0
  {
    if ds == [] then 0 else CountAll(ds[..|ds| - 1]) + CountFolders(ds[|ds| - 1])
  }

  // ---------------------------------------------------------------------------
  // Default-key flags (`PostProcessItems`) and the root (`AddSingleRootParent`).

  /** The flag a valid text item gets when its ancestors are `anc`. */
  predicate DefaultFlag(i: Item, anc: seq<Item>)
  {
    if IsTextItem(i) && IsValid(i) then StartsWith(i.key, Namespace(anc)) else true
  }

  /** `PostProcessItems` on the items below ancestors `anc`: a valid text
      item is flagged by its namespace, anything else is flagged and its
      children are processed. */
  function PostProcessedAll(items: seq<Item>, anc: seq<Item>): (r: seq<Item>)
    ensures |r| == |items|
    decreases items, 0
  {
    if items == [] then []
    else
      assert items == [items[0]] + items[1..];
      [PostProcessed(items[0], anc)] + PostProcessedAll(items[1..], anc)
  }

  function PostProcessed(i: Item, anc: seq<Item>): Item
    decreases i, 1
  {
    if IsTextItem(i) && IsValid(i) then i.(isDefaultKey := DefaultFlag(i, anc))
    else i.(isDefaultKey := true, children := PostProcessedAll(i.children, anc + [i]))
  }

  function Root(items: seq<Item>): (r: Item)
    ensures r.key == "root" && !r.isFolder && !IsTextItem(r) && r.children == items
  {
    NewItem("root").(children := items)
  }

  // ---------------------------------------------------------------------------
  // Progress.

  /** `(float)done / count`, without rounding. */
  function Fraction(done: nat, count: nat): real
    requires count > 0
  {
    (done as real) / (count as real)
  }

  /** The values reported as the folder counter runs from `lo + 1` up to
      `hi`, out of `count`. */
  function Fractions(lo: nat, hi: nat, count: nat): (r: seq<real>)
    requires count > 0
    ensures |r| == (if hi <= lo then 0 else hi - lo)
    decreases hi
  {
    if hi <= lo then [] else Fractions(lo, hi - 1, count) + [Fraction(hi, count)]
  }

  // ---------------------------------------------------------------------------
  // The extractor.

  class Extractor {
    /** `_translations`: the catalogs loaded at the start of a run. */
    var translations: Catalogs
    var folderCount: nat
    var foldersDone: nat
    /** Every value sent through the `Progress` event, in order. */
    var progress: seq<real>
    /** `_fileParsers`: the scanners each folder's files go through, in order. */
    const fileParsers: seq<ParserKind>

    constructor ()
      ensures translations == [] && folderCount == 0 && foldersDone == 0 && progress == []
      ensures fileParsers == Parsers
    {
      translations := [];
      folderCount := 0;
      foldersDone := 0;
      progress := [];
      fileParsers := Parsers;
    }

    /** `ExtractAsync`: report 0, load the catalogs, count the folders, build
        the items of the source folder, flag the default keys and hang the
        items under a single root; 1 is reported once the catalogs are
        loaded, however the build ends. */
    method Extract(fs: FileSystem, languages: seq<string>) returns (r: Result<Item, ExtractError>)
      modifies this, fs
      ensures fs.sources == old(fs.sources) && fs.texts == old(fs.texts)
      ensures fs.catalogs == LoadAll(old(fs.catalogs), languages).1
      ensures LoadAll(old(fs.catalogs), languages).0.Failure? ==>
                r == Failure(LoadAll(old(fs.catalogs), languages).0.error)
                && progress == old(progress) + [0.0]
      ensures LoadAll(old(fs.catalogs), languages).0.Success? ==>
                && translations == LoadAll(old(fs.catalogs), languages).0.value
                && folderCount == CountFolders(fs.sources)
                && foldersDone <= folderCount
                && progress == old(progress) + [0.0] + Fractions(0, foldersDone, folderCount) + [1.0]
                && match FolderItems(fs.sources, fileParsers, fs.texts, translations)
                   case Failure(e) => r == Failure(e)
                   case Success(items) =>
                     r == Success(Root(PostProcessedAll(items, []))) && foldersDone == folderCount
    {
      progress := progress + [0.0];
      var loaded := LoadTranslationFiles(fs, languages);
      if loaded.Failure? {
        return Failure(loaded.error);
      }
      translations := loaded.value;
      folderCount := CountFolders(fs.sources);
      foldersDone := 0;
      var rootItems := ProcessFolder(fs.sources, fs.texts);
      // finally
      progress := progress + [1.0];
      if rootItems.Failure? {
        return Failure(rootItems.error);
      }
      var processed := PostProcessItems(rootItems.value, []);
      r := Success(AddSingleRootParent(processed));
    }

    /** `AddSingleRootParent`: a root keyed `root` over the items. */
    static function AddSingleRootParent(items: seq<Item>): (r: Item)
      ensures r.key == "root" && !r.isFolder && !IsTextItem(r) && r.children == items
    {
      Root(items)
    }

    /** `PostProcessItems`, the ancestors of `items` being `anc`. */
    static method PostProcessItems(items: seq<Item>, anc: seq<Item>) returns (r: seq<Item>)
      ensures r == PostProcessedAll(items, anc)
      decreases items
    {
      r := [];
      for k := 0 to |items|
        invariant |r| == k
        invariant forall j :: 0 <= j < k ==> r[j] == PostProcessed(items[j], anc)
      {
        var treeItem := items[k];
        var processed: Item;
        if IsTextItem(treeItem) && IsValid(treeItem) {
          processed := treeItem.(isDefaultKey := StartsWith(treeItem.key, Namespace(anc)));
        } else {
          var children := PostProcessItems(treeItem.children, anc + [treeItem]);
          processed := treeItem.(isDefaultKey := true, children := children);
        }
        r := r + [processed];
      }
      PostProcessedAllAt(items, anc);
    }

    /** `LoadTranslationFiles`: each language's catalog by
        `LoadTranslationSet`, in order. */
    method LoadTranslationFiles(fs: FileSystem, languages: seq<string>) returns (r: Result<Catalogs, ExtractError>)
      modifies fs
      ensures (r, fs.catalogs) == LoadAll(old(fs.catalogs), languages)
      ensures fs.sources == old(fs.sources) && fs.texts == old(fs.texts)
    {
      var lookups: Catalogs := [];
      for k := 0 to |languages|
        invariant (Success(lookups), fs.catalogs) == LoadAll(old(fs.catalogs), languages[..k])
        invariant fs.sources == old(fs.sources) && fs.texts == old(fs.texts)
      {
        var language := languages[k];
        assert languages[..k + 1][..k] == languages[..k];
        var obj := TranslationPersister.LoadTranslationSet(fs, language);
        if obj.Failure? {
          LoadAllSticks(old(fs.catalogs), languages, k + 1);
          return Failure(CatalogFailed(obj.error));
        }
        if language in LanguagesOf(lookups) {
          LoadAllSticks(old(fs.catalogs), languages, k + 1);
          return Failure(DuplicateLanguage(language));
        }
        lookups := lookups + [(language, if obj.value.Some? then Obj(obj.value.value) else Val(None))];
      }
      assert languages[..|languages|] == languages;
      r := Success(lookups);
    }

    /** `BuildTranslationsFor`: for each loaded language, follow the key's
        segments through the catalog's objects; the text is the value
        reached, if any. */
    method BuildTranslationsFor(key: string) returns (ts: seq<Translation>)
      ensures ts == TranslationsFor(translations, key)
    {
      ts := [];
      var keyPath := Split(key, '.');
      for l := 0 to |translations|
        invariant |ts| == l
        invariant forall k :: 0 <= k < l ==> ts[k] == TranslationsFor(translations, key)[k]
      {
        var (language, dictionary) := translations[l];
        var current: Option<Json> := Some(dictionary);
        var i := 0;
        while current.Some? && i < |keyPath|
          invariant 0 <= i <= |keyPath|
          invariant current.Some? ==> Lookup(dictionary, keyPath) == Lookup(current.value, keyPath[i..])
          invariant current.None? ==> Lookup(dictionary, keyPath) == None
          decreases |keyPath| - i, if current.Some? then 1 else 0
        {
          assert keyPath[i..][1..] == keyPath[i + 1..];
          if current.value.Obj? && Child(current.value.props, keyPath[i]).Some? {
            current := Child(current.value.props, keyPath[i]);
            i := i + 1;
          } else {
            // no translation yet, or the path passes through a value
            current := None;
          }
        }
        var text := if current.Some? && current.value.Val? then current.value.text else None;
        ts := ts + [Translation(language, text)];
      }
    }

    /** `ConvertToTextTreeItems`: one text item per token group. */
    method ConvertToTextTreeItems(file: string, us: seq<TokenUsage>) returns (items: seq<Item>)
      ensures items == TextItems(file, us, translations)
    {
      var tokens := Tokens(us);
      items := [];
      for k := 0 to |tokens|
        invariant |items| == k
        invariant forall j :: 0 <= j < k ==> items[j] == TextItem(file, tokens[j], us, translations)
      {
        var ts := BuildTranslationsFor(tokens[k]);
        var item := SetTokenUsages(NewItem(tokens[k]), UsagesOf(us, tokens[k]))
          .(translations := Some(ts), fullFilename := Some(file));
        items := items + [item];
      }
    }

    /** `GetTreeItemsFromFile`: the file's node, if the file holds a token. */
    method GetTreeItemsFromFile(file: string, p: ParserKind, texts: map<string, string>)
      returns (r: Result<seq<Item>, ExtractError>)
      ensures r == FileItems(file, p, texts, translations)
    {
      if file !in texts {
        return Failure(Unreadable(file));
      }
      var tokenUsages := Parse(p, file, texts[file]);
      var fileTreeItem := FileNode(file);
      var textTreeItems := ConvertToTextTreeItems(file, tokenUsages);
      if |textTreeItems| > 0 {
        r := Success([fileTreeItem.(children := textTreeItems)]);
      } else {
        r := Success([]);
      }
    }

    /** `ParseAllFilesInFolder`: the HTML files, then the TypeScript files. */
    method ParseAllFilesInFolder(dir: Dir, texts: map<string, string>) returns (r: Result<seq<Item>, ExtractError>)
      ensures r == ParsersItems(dir, fileParsers, texts, translations)
    {
      var list: seq<Item> := [];
      for n := 0 to |fileParsers|
        invariant ParsersItems(dir, fileParsers[..n], texts, translations) == Success(list)
      {
        var parser := fileParsers[n];
        ParsersItemsStep(dir, fileParsers, texts, translations, n);
        var fromParser := ParseFilesWith(GetFiles(dir, Mask(parser)), parser, texts);
        if fromParser.Failure? {
          ParsersItemsSticks(dir, fileParsers, texts, translations, n + 1);
          return Failure(fromParser.error);
        }
        list := list + fromParser.value;
      }
      assert fileParsers[..|fileParsers|] == fileParsers;
      r := Success(list);
    }

    /** The inner loop of `ParseAllFilesInFolder`: every file of one mask. */
    method ParseFilesWith(files: seq<string>, parser: ParserKind, texts: map<string, string>)
      returns (r: Result<seq<Item>, ExtractError>)
      ensures r == FilesItems(files, parser, texts, translations)
    {
      var list: seq<Item> := [];
      for f := 0 to |files|
        invariant FilesItems(files[..f], parser, texts, translations) == Success(list)
      {
        assert files[..f + 1][..f] == files[..f];
        var items := GetTreeItemsFromFile(files[f], parser, texts);
        if items.Failure? {
          FilesItemsSticks(files, parser, texts, translations, f + 1);
          return Failure(items.error);
        }
        list := list + items.value;
      }
      assert files[..|files|] == files;
      r := Success(list);
    }

    /** `ProcessFolder`: the files' items, then the subfolders'; one more
        folder done is reported; the items come back sorted. */
    method ProcessFolder(dir: Dir, texts: map<string, string>) returns (r: Result<seq<Item>, ExtractError>)
      requires folderCount > 0
      modifies this
      ensures r == FolderItems(dir, fileParsers, texts, translations)
      ensures translations == old(translations) && folderCount == old(folderCount)
      ensures old(foldersDone) <= foldersDone <= old(foldersDone) + CountFolders(dir)
      ensures r.Success? ==> foldersDone == old(foldersDone) + CountFolders(dir)
      ensures Reported(old(progress), progress, old(foldersDone), foldersDone, folderCount)
      decreases dir, 1
    {
      ghost var done0 := foldersDone;
      FolderItemsSplit(dir, fileParsers, texts, translations);
      var filesItems := ParseAllFilesInFolder(dir, texts);
      ghost var progress0 := progress;
      if filesItems.Failure? {
        ProgressNone(progress0, done0, folderCount);
        r := Failure(filesItems.error);
      } else {
        var treeItems := ProcessSubFolders(dir.subdirs, filesItems.value, texts);
        if treeItems.Failure? {
          r := Failure(treeItems.error);
        } else {
          FolderDone(done0, progress0);
          r := Success(SortSiblings(treeItems.value));
        }
      }
    }

    /** `_foldersDone++` and the `Progress` event that follows it. */
    method FolderDone(ghost lo: nat, ghost before: seq<real>)
      requires lo <= foldersDone && Reported(before, progress, lo, foldersDone, folderCount)
      modifies this
      ensures translations == old(translations) && folderCount == old(folderCount)
      ensures foldersDone == old(foldersDone) + 1
      ensures progress == old(progress) + [Fraction(foldersDone, folderCount)]
      ensures Reported(before, progress, lo, foldersDone, folderCount)
    {
      ProgressStep(before, progress, lo, foldersDone, folderCount);
      foldersDone := foldersDone + 1;
      progress := progress + [Fraction(foldersDone, folderCount)];
    }

    /** The loop of `ProcessFolder` over the subfolders. */
    method ProcessSubFolders(ds: seq<Dir>, acc: seq<Item>, texts: map<string, string>) returns (r: Result<seq<Item>, ExtractError>)
      requires folderCount > 0
      modifies this
      ensures r == SubfoldersItems(ds, fileParsers, acc, texts, translations)
      ensures translations == old(translations) && folderCount == old(folderCount)
      ensures old(foldersDone) <= foldersDone <= old(foldersDone) + CountAll(ds)
      ensures r.Success? ==> foldersDone == old(foldersDone) + CountAll(ds)
      ensures Reported(old(progress), progress, old(foldersDone), foldersDone, folderCount)
      decreases ds, 0
    {
      var treeItems := acc;
      for d := 0 to |ds|
        invariant SubfoldersItems(ds, fileParsers, acc, texts, translations) == SubfoldersItems(ds[d..], fileParsers, treeItems, texts, translations)
        invariant translations == old(translations) && folderCount == old(folderCount)
        invariant foldersDone == old(foldersDone) + CountAll(ds[..d])
        invariant Reported(old(progress), progress, old(foldersDone), foldersDone, folderCount)
      {
        assert ds[d..][1..] == ds[d + 1..];
        assert ds[..d + 1][..d] == ds[..d];
        ghost var before, progressBefore := foldersDone, progress;
        var outcome := ProcessSubFolder(ds[d], treeItems, texts);
        ProgressConcat(old(progress), progressBefore, progress, old(foldersDone), before, foldersDone, folderCount);
        if outcome.Failure? {
          CountAllPrefix(ds, d + 1);
          return Failure(outcome.error);
        }
        treeItems := outcome.value;
      }
      assert ds[..|ds|] == ds;
      r := Success(treeItems);
    }

    /** `ProcessSubFolder`: a folder item over the subfolder's items, added
        to `list` only when there are any. */
    method ProcessSubFolder(sub: Dir, list: seq<Item>, texts: map<string, string>) returns (r: Result<seq<Item>, ExtractError>)
      requires folderCount > 0
      modifies this
      ensures r == (match FolderItems(sub, fileParsers, texts, translations)
                    case Failure(e) => Failure(e)
                    case Success(children) =>
                      Success(if |children| > 0 then list + [FolderNode(sub).(children := children)] else list))
      ensures translations == old(translations) && folderCount == old(folderCount)
      ensures old(foldersDone) <= foldersDone <= old(foldersDone) + CountFolders(sub)
      ensures r.Success? ==> foldersDone == old(foldersDone) + CountFolders(sub)
      ensures Reported(old(progress), progress, old(foldersDone), foldersDone, folderCount)
      decreases sub, 2
    {
      var directoryItem := FolderNode(sub);
      var children := ProcessFolder(sub, texts);
      if children.Failure? {
        return Failure(children.error);
      }
      if |children.value| > 0 {
        r := Success(list + [directoryItem.(children := children.value)]);
      } else {
        r := Success(list);
      }
    }
  }

  // ---------------------------------------------------------------------------
  // Helper lemmas for the methods.

  lemma {:induction false} PostProcessedAllAt(items: seq<Item>, anc: seq<Item>)
    ensures forall j :: 0 <= j < |items| ==> PostProcessedAll(items, anc)[j] == PostProcessed(items[j], anc)
    decreases |items|
  {
    if items != [] {
      PostProcessedAllAt(items[1..], anc);
      forall j | 0 < j < |items|
        ensures PostProcessedAll(items, anc)[j] == PostProcessed(items[j], anc)
      {
        assert PostProcessedAll(items, anc)[j] == PostProcessedAll(items[1..], anc)[j - 1];
        assert items[1..][j - 1] == items[j];
      }
    }
  }

  /** Once a prefix of the languages fails to load, loading stops there. */
  lemma {:induction false} LoadAllSticks(files: map<string, Json>, languages: seq<string>, k: nat)
    requires k <= |languages| && LoadAll(files, languages[..k]).0.Failure?
    ensures LoadAll(files, languages) == LoadAll(files, languages[..k])
    decreases |languages|
  {
    if k < |languages| {
      var init := languages[..|languages| - 1];
      assert init[..k] == languages[..k];
      LoadAllSticks(files, init, k);
    } else {
      assert languages[..k] == languages;
    }
  }

  lemma {:induction false} FilesItemsSticks(files: seq<string>, p: ParserKind, texts: map<string, string>, cats: Catalogs, k: nat)
    requires k <= |files| && FilesItems(files[..k], p, texts, cats).Failure?
    ensures FilesItems(files, p, texts, cats) == FilesItems(files[..k], p, texts, cats)
    decreases |files|
  {
    if k < |files| {
      var init := files[..|files| - 1];
      assert init[..k] == files[..k];
      FilesItemsSticks(init, p, texts, cats, k);
    } else {
      assert files[..k] == files;
    }
  }

  lemma {:induction false} ParsersItemsStep(dir: Dir, ps: seq<ParserKind>, texts: map<string, string>, cats: Catalogs, n: nat)
    requires n < |ps|
    ensures ParsersItems(dir, ps[..n + 1], texts, cats)
      == match ParsersItems(dir, ps[..n], texts, cats)
         case Failure(e) => Failure(e)
         case Success(init) =>
           match FilesItems(GetFiles(dir, Mask(ps[n])), ps[n], texts, cats)
           case Failure(e) => Failure(e)
           case Success(last) => Success(init + last)
  {
    assert ps[..n + 1][..n] == ps[..n];
  }

  lemma {:induction false} ParsersItemsSticks(dir: Dir, ps: seq<ParserKind>, texts: map<string, string>, cats: Catalogs, k: nat)
    requires k <= |ps| && ParsersItems(dir, ps[..k], texts, cats).Failure?
    ensures ParsersItems(dir, ps, texts, cats) == ParsersItems(dir, ps[..k], texts, cats)
    decreases |ps|
  {
    if k < |ps| {
      var init := ps[..|ps| - 1];
      assert init[..k] == ps[..k];
      ParsersItemsSticks(dir, init, texts, cats, k);
    } else {
      assert ps[..k] == ps;
    }
  }

  lemma {:induction false} CountAllPrefix(ds: seq<Dir>, k: nat)
    requires k <= |ds|
    ensures CountAll(ds[..k]) <= CountAll(ds)
    decreases |ds|
  {
    if k < |ds| {
      var init := ds[..|ds| - 1];
      assert init[..k] == ds[..k];
      CountAllPrefix(init, k);
    } else {
      assert ds[..k] == ds;
    }
  }

  /** A folder's items: those of its files, then of its subfolders, sorted;
      the first failure of the two is the folder's. */
  lemma {:induction false} FolderItemsSplit(dir: Dir, ps: seq<ParserKind>, texts: map<string, string>, cats: Catalogs)
    ensures ParsersItems(dir, ps, texts, cats).Failure? ==>
              FolderItems(dir, ps, texts, cats) == Failure(ParsersItems(dir, ps, texts, cats).error)
    ensures ParsersItems(dir, ps, texts, cats).Success? ==>
              var all := SubfoldersItems(dir.subdirs, ps, ParsersItems(dir, ps, texts, cats).value, texts, cats);
              FolderItems(dir, ps, texts, cats) == if all.Failure? then Failure(all.error) else Success(SortSiblings(all.value))
    ensures CountFolders(dir) == 1 + CountAll(dir.subdirs)
  {
  }

  /** The reports going from `before` to `after` are those of the folders
      counted from `lo + 1` to `hi`. */
  ghost predicate Reported(before: seq<real>, after: seq<real>, lo: nat, hi: nat, count: nat)
  {
    count > 0 && after == before + Fractions(lo, hi, count)
  }

  /** One more report after those of `(lo, hi]`: the reports of `(lo, hi + 1]`. */
  lemma {:induction false} ProgressStep(p0: seq<real>, p1: seq<real>, lo: nat, hi: nat, count: nat)
    requires lo <= hi && Reported(p0, p1, lo, hi, count)
    ensures Reported(p0, p1 + [Fraction(hi + 1, count)], lo, hi + 1, count)
  {
    FractionsStep(lo, hi, count);
  }

  /** The reports of `(lo, mid]` followed by those of `(mid, hi]`. */
  lemma {:induction false} ProgressConcat(p0: seq<real>, p1: seq<real>, p2: seq<real>, lo: nat, mid: nat, hi: nat, count: nat)
    requires lo <= mid <= hi && Reported(p0, p1, lo, mid, count) && Reported(p1, p2, mid, hi, count)
    ensures Reported(p0, p2, lo, hi, count)
  {
    FractionsConcat(lo, mid, hi, count);
  }

  /** No folder done, nothing reported. */
  lemma {:induction false} ProgressNone(p: seq<real>, lo: nat, count: nat)
    requires count > 0
    ensures Reported(p, p, lo, lo, count)
  {
    assert Fractions(lo, lo, count) == [];
  }

  lemma {:induction false} FractionsStep(lo: nat, hi: nat, count: nat)
    requires lo <= hi && count > 0
    ensures Fractions(lo, hi + 1, count) == Fractions(lo, hi, count) + [Fraction(hi + 1, count)]
  {
  }

  lemma {:induction false} FractionsConcat(lo: nat, mid: nat, hi: nat, count: nat)
    requires lo <= mid <= hi && count > 0
    ensures Fractions(lo, mid, count) + Fractions(mid, hi, count) == Fractions(lo, hi, count)
    decreases hi
  {
    if mid < hi {
      FractionsConcat(lo, mid, hi - 1, count);
    }
  }

  // ---------------------------------------------------------------------------
  // Loading the catalogs: what the load promises.

  lemma {:induction false} AllObjectsSnoc(files: map<string, Json>, init: seq<string>, l: string)
    ensures AllObjects(files, init + [l]) <==> AllObjects(files, init) && (l in files ==> Loadable(files[l]))
  {
    var s := init + [l];
    assert forall k :: 0 <= k < |init| ==> s[k] == init[k];
    assert s[|init|] == l;
  }

  /** Loading writes an empty catalog for each language without a file and
      changes no other file; it succeeds exactly when no language is listed
      twice and every existing file holds an object or `null`, and then
      returns one catalog per language, in order, each the language's file. */
  lemma {:induction false} LoadAllOk(files: map<string, Json>, languages: seq<string>)
    ensures var (r, after) := LoadAll(files, languages);
      && (forall x :: x in files ==> x in after && after[x] == files[x])
      && (forall x :: x in after && x !in files ==> x in languages && after[x] == Obj([]))
      && (r.Success? ==> Distinct(languages) && AllObjects(files, languages))
      && (Distinct(languages) && AllObjects(files, languages) ==> r.Success?)
      && (r.Success? ==> LanguagesOf(r.value) == languages)
      && (r.Success? ==> forall k :: 0 <= k < |languages| ==>
            languages[k] in after && after[languages[k]] == r.value[k].1)
    decreases |languages|
  {
    if languages != [] {
      var init := languages[..|languages| - 1];
      var l := languages[|languages| - 1];
      assert languages == init + [l];
      LoadAllOk(files, init);
      DistinctSnoc(init, l);
      AllObjectsSnoc(files, init, l);
      var (ri, before) := LoadAll(files, init);
      if ri.Success? {
        LoadAllStep(files, init, l);
      }
    }
  }

  /** One more language loaded after a successful prefix. */
  lemma {:induction false} LoadAllStep(files: map<string, Json>, init: seq<string>, l: string)
    requires var (ri, before) := LoadAll(files, init);
      && ri.Success?
      && (forall x :: x in files ==> x in before && before[x] == files[x])
      && (forall x :: x in before && x !in files ==> x in init && before[x] == Obj([]))
      && LanguagesOf(ri.value) == init
      && (forall k :: 0 <= k < |init| ==> init[k] in before && before[init[k]] == ri.value[k].1)
    ensures var (r, after) := LoadAll(files, init + [l]);
      && (forall x :: x in files ==> x in after && after[x] == files[x])
      && (forall x :: x in after && x !in files ==> x in init + [l] && after[x] == Obj([]))
      && (r.Success? <==> l !in init && (l in files ==> Loadable(files[l])))
      && (r.Success? ==> LanguagesOf(r.value) == init + [l])
      && (r.Success? ==> forall k :: 0 <= k < |init| + 1 ==>
            (init + [l])[k] in after && after[(init + [l])[k]] == r.value[k].1)
  {
    var ls := init + [l];
    assert ls[..|ls| - 1] == init;
    var previous := LoadAll(files, init);
    assert LoadAll(files, ls) == LoadNext(previous, l);
    var (ri, before) := previous;
    var after := TranslationPersister.WithDefault(before, l);
    var cats := ri.value;
    assert after[l] == if l in before then before[l] else Obj([]);
    if l in init {
      var a :| 0 <= a < |init| && init[a] == l;
      assert after[l] == cats[a].1;
      assert l in LanguagesOf(cats);
    } else {
      assert after[l] == if l in files then files[l] else Obj([]);
      if Loadable(after[l]) {
        var next := cats + [(l, after[l])];
        LoadedBack(after[l], l);
        assert LoadAll(files, ls) == (Success(next), after);
        LanguagesOfSnoc(cats, (l, after[l]));
        LoadedIndexed(init, l, cats, before, after);
      }
    }
  }

  /** A loadable file gives back its own content as the catalog. */
  lemma {:induction false} LoadedBack(j: Json, language: string)
    requires Loadable(j)
    ensures var r := TranslationPersister.Loaded(j, language);
      r.Success? && (if r.value.Some? then Obj(r.value.value) else Val(None)) == j
  {
  }

  /** Appending the new language's catalog keeps every language at its own
      file's content. */
  lemma {:induction false} LoadedIndexed(init: seq<string>, l: string, cats: Catalogs, before: map<string, Json>,
                                         after: map<string, Json>)
    requires l in after && |cats| == |init|
    requires forall x :: x in before && x != l ==> x in after && after[x] == before[x]
    requires l !in init && forall k :: 0 <= k < |init| ==> init[k] in before && before[init[k]] == cats[k].1
    ensures var ls := init + [l];
      var next := cats + [(l, after[l])];
      forall k :: 0 <= k < |ls| ==> ls[k] in after && after[ls[k]] == next[k].1
  {
    var ls := init + [l];
    var next := cats + [(l, after[l])];
    forall k | 0 <= k < |ls|
      ensures ls[k] in after && after[ls[k]] == next[k].1
    {
      if k < |init| {
        assert ls[k] == init[k] && next[k] == cats[k];
      } else {
        assert ls[k] == l && next[k] == (l, after[l]);
      }
    }
  }

  lemma {:induction false} LanguagesOfSnoc(cats: Catalogs, c: (string, Json))
    ensures LanguagesOf(cats + [c]) == LanguagesOf(cats) + [c.0]
  {
    var s := cats + [c];
    assert forall k :: 0 <= k < |cats| ==> s[k] == cats[k];
  }

  // ---------------------------------------------------------------------------
  // Text items: the groups partition the file's usages.

  /** The sizes of the groups of `tokens`. */
  function GroupSizes(us: seq<TokenUsage>, tokens: seq<string>): nat
    decreases |tokens|
  {
    if tokens == [] then 0
    else GroupSizes(us, tokens[..|tokens| - 1]) + |UsagesOf(us, tokens[|tokens| - 1])|
  }

  lemma {:induction false} UsagesOfAbsent(us: seq<TokenUsage>, token: string)
    requires forall j :: 0 <= j < |us| ==> us[j].token != token
    ensures UsagesOf(us, token) == []
    decreases |us|
  {
    if us != [] {
      UsagesOfAbsent(us[..|us| - 1], token);
    }
  }

  lemma {:induction false} UsagesOfPresent(us: seq<TokenUsage>, j: nat)
    requires j < |us|
    ensures |UsagesOf(us, us[j].token)| > 0
    decreases |us|
  {
    if j < |us| - 1 {
      assert us[..|us| - 1][j] == us[j];
      UsagesOfPresent(us[..|us| - 1], j);
    }
  }

  /** One usage more adds one to the size of its own group only. */
  lemma {:induction false} GroupSizesSnoc(us: seq<TokenUsage>, u: TokenUsage, tokens: seq<string>)
    requires Distinct(tokens)
    ensures GroupSizes(us + [u], tokens) == GroupSizes(us, tokens) + (if u.token in tokens then 1 else 0)
    decreases |tokens|
  {
    if tokens != [] {
      var init := tokens[..|tokens| - 1];
      var t := tokens[|tokens| - 1];
      assert tokens == init + [t];
      DistinctSnoc(init, t);
      GroupSizesSnoc(us, u, init);
      assert (us + [u])[..|us|] == us;
    }
  }

  lemma {:induction false} GroupSizesPartition(us: seq<TokenUsage>)
    ensures GroupSizes(us, Tokens(us)) == |us|
    decreases |us|
  {
    if us != [] {
      var init := us[..|us| - 1];
      var u := us[|us| - 1];
      assert us == init + [u];
      GroupSizesPartition(init);
      var tokens := Tokens(init);
      GroupSizesSnoc(init, u, tokens);
      if u.token !in tokens {
        assert Tokens(us) == tokens + [u.token];
        assert Tokens(us)[..|Tokens(us)| - 1] == tokens;
        assert UsagesOf(init, u.token) == [] by {
          UsagesOfAbsent(init, u.token);
        }
        GroupSizesSnoc(init, u, tokens + [u.token]);
        DistinctSnoc(tokens, u.token);
      }
    }
  }

  /** The fields of the text item of a token. */
  lemma {:induction false} TextItemFields(file: string, token: string, us: seq<TokenUsage>, cats: Catalogs)
    ensures var i := TextItem(file, token, us, cats);
      && i.key == token && IsTextItem(i) && i.children == [] && !i.isFolder
      && i.fullFilename == Some(file) && i.tokenUsages == Some(UsagesOf(us, token))
      && i.translations == Some(TranslationsFor(cats, token))
  {
  }

  /** `ConvertToTextTreeItems` gives one text item per distinct token, in
      order of first occurrence: a leaf of the file, holding the token's
      usages (none empty) and its translations; every usage lands in the
      group of its token and the group sizes add up to the usages. */
  lemma {:induction false} TextItemsGroups(file: string, us: seq<TokenUsage>, cats: Catalogs)
    ensures var r := TextItems(file, us, cats);
      && (forall a, b :: 0 <= a < b < |r| ==> r[a].key != r[b].key)
      && (forall k :: 0 <= k < |r| ==>
            && IsTextItem(r[k]) && r[k].children == [] && r[k].fullFilename == Some(file)
            && r[k].tokenUsages == Some(UsagesOf(us, r[k].key)) && |UsagesOf(us, r[k].key)| > 0
            && r[k].translations == Some(TranslationsFor(cats, r[k].key)))
      && (forall j :: 0 <= j < |us| ==> exists k :: 0 <= k < |r| && r[k].key == us[j].token)
      && GroupSizes(us, Tokens(us)) == |us|
  {
    var r := TextItems(file, us, cats);
    var tokens := Tokens(us);
    forall k | 0 <= k < |r|
      ensures r[k].key == tokens[k]
      ensures IsTextItem(r[k]) && r[k].children == [] && r[k].fullFilename == Some(file)
      ensures r[k].tokenUsages == Some(UsagesOf(us, r[k].key)) && |UsagesOf(us, r[k].key)| > 0
      ensures r[k].translations == Some(TranslationsFor(cats, r[k].key))
    {
      assert r[k] == TextItem(file, tokens[k], us, cats);
      TextItemFields(file, tokens[k], us, cats);
      assert tokens[k] in tokens;
      var j :| 0 <= j < |us| && us[j].token == tokens[k];
      UsagesOfPresent(us, j);
    }
    forall j | 0 <= j < |us|
      ensures exists k :: 0 <= k < |r| && r[k].key == us[j].token
    {
      var k :| 0 <= k < |tokens| && tokens[k] == us[j].token;
      assert r[k].key == tokens[k];
    }
    GroupSizesPartition(us);
  }

  // ---------------------------------------------------------------------------
  // Folders: order and pruning.

  lemma {:induction false} SiblingOrder()
    ensures TotalPreorder(SiblingLe)
  {
    forall a: Item, b: Item
      ensures SiblingLe(a, b) || SiblingLe(b, a)
    {
      LexLeTotal(a.key, b.key);
    }
    forall a: Item, b: Item, c: Item | SiblingLe(a, b) && SiblingLe(b, c)
      ensures SiblingLe(a, c)
    {
      if a.isFolder == b.isFolder && b.isFolder == c.isFolder {
        LexLeTrans(a.key, b.key, c.key);
      }
    }
  }

  /** The items of every folder come sorted: folders before files, each
      kind by key. */
  lemma {:induction false} FolderItemsSorted(dir: Dir, ps: seq<ParserKind>, texts: map<string, string>, cats: Catalogs)
    requires FolderItems(dir, ps, texts, cats).Success?
    ensures var items := FolderItems(dir, ps, texts, cats).value;
      && Sorted(items, SiblingLe)
      && forall i, j :: 0 <= i < j < |items| && items[j].isFolder ==> items[i].isFolder
  {
    var files := ParsersItems(dir, ps, texts, cats).value;
    var all := SubfoldersItems(dir.subdirs, ps, files, texts, cats).value;
    SiblingOrder();
    if |all| > 0 {
      SortSorted(all, SiblingLe);
    }
  }

  /** A text item is a leaf; any other item has children, all of the same
      kind: no folder or file node is kept without a text item below it. */
  ghost predicate Retained(i: Item)
    decreases i
  {
    if IsTextItem(i) then i.children == []
    else |i.children| > 0 && forall k :: 0 <= k < |i.children| ==> Retained(i.children[k])
  }

  ghost predicate AllRetained(items: seq<Item>)
  {
    forall k :: 0 <= k < |items| ==> Retained(items[k])
  }

  lemma {:induction false} AllRetainedConcat(xs: seq<Item>, ys: seq<Item>)
    requires AllRetained(xs) && AllRetained(ys)
    ensures AllRetained(xs + ys)
  {
    var s := xs + ys;
    forall k | 0 <= k < |s|
      ensures Retained(s[k])
    {
      if k < |xs| {
        assert s[k] == xs[k];
      } else {
        assert s[k] == ys[k - |xs|];
      }
    }
  }

  lemma {:induction false} FileItemsRetained(file: string, p: ParserKind, texts: map<string, string>, cats: Catalogs)
    requires FileItems(file, p, texts, cats).Success?
    ensures AllRetained(FileItems(file, p, texts, cats).value)
  {
    var us := Parse(p, file, texts[file]);
    TextItemsGroups(file, us, cats);
  }

  lemma {:induction false} FilesItemsRetained(files: seq<string>, p: ParserKind, texts: map<string, string>, cats: Catalogs)
    requires FilesItems(files, p, texts, cats).Success?
    ensures AllRetained(FilesItems(files, p, texts, cats).value)
    decreases |files|
  {
    if files != [] {
      FilesItemsRetained(files[..|files| - 1], p, texts, cats);
      FileItemsRetained(files[|files| - 1], p, texts, cats);
      AllRetainedConcat(FilesItems(files[..|files| - 1], p, texts, cats).value,
                        FileItems(files[|files| - 1], p, texts, cats).value);
    }
  }

  lemma {:induction false} ParsersItemsRetained(dir: Dir, ps: seq<ParserKind>, texts: map<string, string>, cats: Catalogs)
    requires ParsersItems(dir, ps, texts, cats).Success?
    ensures AllRetained(ParsersItems(dir, ps, texts, cats).value)
    decreases |ps|
  {
    if ps != [] {
      var p := ps[|ps| - 1];
      ParsersItemsRetained(dir, ps[..|ps| - 1], texts, cats);
      FilesItemsRetained(GetFiles(dir, Mask(p)), p, texts, cats);
      AllRetainedConcat(ParsersItems(dir, ps[..|ps| - 1], texts, cats).value,
                        FilesItems(GetFiles(dir, Mask(p)), p, texts, cats).value);
    }
  }

  /** Every item the extraction keeps is retained. */
  lemma {:induction false} FolderItemsRetained(dir: Dir, ps: seq<ParserKind>, texts: map<string, string>, cats: Catalogs)
    requires FolderItems(dir, ps, texts, cats).Success?
    ensures AllRetained(FolderItems(dir, ps, texts, cats).value)
    decreases dir, 1
  {
    var files := ParsersItems(dir, ps, texts, cats).value;
    ParsersItemsRetained(dir, ps, texts, cats);
    SubfoldersRetained(dir.subdirs, ps, files, texts, cats);
    var all := SubfoldersItems(dir.subdirs, ps, files, texts, cats).value;
    var sorted := SortSiblings(all);
    SortPermutes(all, SiblingLe);
    forall k | 0 <= k < |sorted|
      ensures Retained(sorted[k])
    {
      if |all| > 0 {
        assert sorted[k] in multiset(sorted);
        assert sorted[k] in multiset(all);
        var m :| 0 <= m < |all| && all[m] == sorted[k];
      }
    }
  }

  lemma {:induction false} SubfoldersRetained(ds: seq<Dir>, ps: seq<ParserKind>, acc: seq<Item>, texts: map<string, string>, cats: Catalogs)
    requires AllRetained(acc) && SubfoldersItems(ds, ps, acc, texts, cats).Success?
    ensures AllRetained(SubfoldersItems(ds, ps, acc, texts, cats).value)
    decreases ds, 0
  {
    if ds != [] {
      var children := FolderItems(ds[0], ps, texts, cats).value;
      FolderItemsRetained(ds[0], ps, texts, cats);
      if |children| > 0 {
        var folder := FolderNode(ds[0]).(children := children);
        assert Retained(folder);
        AllRetainedConcat(acc, [folder]);
        SubfoldersRetained(ds[1..], ps, acc + [folder], texts, cats);
      } else {
        SubfoldersRetained(ds[1..], ps, acc, texts, cats);
      }
    }
  }

  // ---------------------------------------------------------------------------
  // Progress: what the reported values promise.

  ghost predicate NonDecreasing(s: seq<real>)
  {
    forall i, j :: 0 <= i < j < |s| ==> s[i] <= s[j]
  }

  lemma {:induction false} FractionMono(a: nat, b: nat, count: nat)
    requires a <= b && count > 0
    ensures 0.0 <= Fraction(a, count) <= Fraction(b, count)
  {
    var c := count as real;
    assert Fraction(b, count) - Fraction(a, count) == ((b - a) as real) / c;
  }

  lemma {:induction false} FractionBound(a: nat, count: nat)
    requires a <= count && count > 0
    ensures Fraction(a, count) <= 1.0 && Fraction(count, count) == 1.0
  {
    FractionMono(a, count, count);
  }

  lemma {:induction false} FractionsAt(lo: nat, hi: nat, count: nat)
    requires lo <= hi && count > 0
    ensures forall k :: 0 <= k < hi - lo ==> Fractions(lo, hi, count)[k] == Fraction(lo + k + 1, count)
    decreases hi
  {
    if lo < hi {
      FractionsAt(lo, hi - 1, count);
    }
  }

  /** A run that loads its catalogs reports 0, then the share of folders
      done after each folder, then 1: the values never go down and stay
      between 0 and 1, and when every folder is done the last share is
      already 1. */
  lemma {:induction false} ProgressReports(done: nat, count: nat)
    requires done <= count && count > 0
    ensures var s := [0.0] + Fractions(0, done, count) + [1.0];
      && s[0] == 0.0 && s[|s| - 1] == 1.0
      && NonDecreasing(s)
      && (forall k :: 0 <= k < |s| ==> 0.0 <= s[k] <= 1.0)
      && (done == count ==> s[|s| - 2] == 1.0)
  {
    var s := [0.0] + Fractions(0, done, count) + [1.0];
    ProgressValues(done, count);
    ProgressOrdered(done, count);
    if done == count {
      assert s[|s| - 2] == Fraction(done, count);
      FractionBound(count, count);
    }
  }

  /** Between the first and the last report, report `k` is the share of
      `k` folders; every report lies between 0 and 1. */
  lemma {:induction false} ProgressValues(done: nat, count: nat)
    requires done <= count && count > 0
    ensures var s := [0.0] + Fractions(0, done, count) + [1.0];
      forall k :: 0 <= k < |s| ==> 0.0 <= s[k] <= 1.0 && (0 < k < |s| - 1 ==> s[k] == Fraction(k, count))
  {
    var f := Fractions(0, done, count);
    var s := [0.0] + f + [1.0];
    FractionsAt(0, done, count);
    forall k | 0 <= k < |s|
      ensures 0.0 <= s[k] <= 1.0 && (0 < k < |s| - 1 ==> s[k] == Fraction(k, count))
    {
      if 0 < k < |s| - 1 {
        assert s[k] == f[k - 1];
        FractionMono(0, k, count);
        FractionBound(k, count);
      }
    }
  }

  lemma {:induction false} ProgressOrdered(done: nat, count: nat)
    requires done <= count && count > 0
    ensures NonDecreasing([0.0] + Fractions(0, done, count) + [1.0])
  {
    var s := [0.0] + Fractions(0, done, count) + [1.0];
    ProgressValues(done, count);
    forall i, j | 0 <= i < j < |s|
      ensures s[i] <= s[j]
    {
      if 0 < i && j < |s| - 1 {
        FractionMono(i, j, count);
      }
    }
  }

  // ---------------------------------------------------------------------------
  // Default-key flags: each valid text item is flagged by its namespace.

  /** No node strictly above the node at `p` is a valid text item. */
  predicate NoValidTextAbove(i: Item, p: Path)
    requires ValidPath(i, p)
    decreases p
  {
    p == [] || (!(IsTextItem(i) && IsValid(i)) && NoValidTextAbove(i.children[p[0]], p[1..]))
  }

  /** Below ancestors `anc`, the node at `p` of a processed item is the
      node at `p` before, flagged, as long as no node above `p` is a valid
      text item (whose children are left alone). */
  lemma {:induction false} PostProcessedAt(i: Item, anc: seq<Item>, p: Path)
    requires ValidPath(i, p) && NoValidTextAbove(i, p)
    ensures ValidPath(PostProcessed(i, anc), p)
    ensures Node(At(PostProcessed(i, anc), p))
         == Node(At(i, p)).(isDefaultKey := DefaultFlag(At(i, p), anc + Ancestors(i, p)))
    decreases p
  {
    if p == [] {
      assert anc + Ancestors(i, p) == anc;
    } else {
      var child := i.children[p[0]];
      var rest := p[1..];
      PostProcessedAllAt(i.children, anc + [i]);
      assert PostProcessed(i, anc).children[p[0]] == PostProcessed(child, anc + [i]);
      PostProcessedAt(child, anc + [i], rest);
      assert anc + [i] + Ancestors(child, rest) == anc + Ancestors(i, p);
    }
  }

  /** In a retained item no node above a valid path is a text item. */
  lemma {:induction false} RetainedNoTextAbove(i: Item, p: Path)
    requires Retained(i) && ValidPath(i, p)
    ensures NoValidTextAbove(i, p)
    decreases p
  {
    if p != [] {
      RetainedNoTextAbove(i.children[p[0]], p[1..]);
    }
  }

  /** After `ExtractAsync`, every node below the root carries the flag of
      its namespace in the built tree: a valid text item is a default key
      exactly when its key starts with the namespace of its ancestors, and
      every other node is one. Nothing else about the node changes. */
  lemma {:induction false} ExtractedFlags(items: seq<Item>, p: Path)
    requires AllRetained(items) && ValidPath(Root(items), p) && p != []
    ensures ValidPath(Root(PostProcessedAll(items, [])), p)
    ensures Node(At(Root(PostProcessedAll(items, [])), p))
         == Node(At(Root(items), p)).(isDefaultKey := DefaultFlag(At(Root(items), p), Ancestors(Root(items), p)))
  {
    var r0 := Root(items);
    var item := items[p[0]];
    var rest := p[1..];
    RetainedNoTextAbove(item, rest);
    PostProcessedAllAt(items, []);
    PostProcessedAt(item, [], rest);
    assert At(r0, p) == At(item, rest);
    var anc := Ancestors(item, rest);
    assert Ancestors(r0, p) == [r0] + anc;
    assert ([r0] + anc)[1..] == anc;
    assert FolderLabels([r0] + anc) == FolderLabels(anc);
    assert [] + anc == anc;
  }
}
