/** TokenRenamer.cs: rename a key in its source file and in every
    language's catalog. The source file is checked first (no two recorded
    spans overlap, every span still holds the key), then each span is
    replaced by the new key from back to front, then the catalog entry moves
    from the old key to the new one in every language, and only then does
    the item take the new key. */
module TokenRenamer {
  import opened Wrappers
  import opened Text
  import opened Usages
  import opened Catalog
  import opened Files
  import opened Sorting
  import opened TreeItems
  import TranslationPersister

  datatype RenameError =
    | NoSourceFile                     // the item names no source file: nothing is done
    | Unreadable(file: string)         // File.ReadAllText throws
    | NoTokenUsages                    // the item's usage list is null
    | OverlappingUsages                // two recorded spans overlap
    | SpanOutOfRange                   // Substring throws: a span runs past the text
    | CodeHasChanged                   // a span no longer holds the key
    | NoTranslations                   // the item's translation list is null
    | TranslationNotSingle(language: string)   // Single() throws
    | CatalogFailed(reason: TranslationPersister.PersistError)

  // ---------------------------------------------------------------------------
  // Validation (`ValidateRename`).

  /** `OrderBy(tu => tu.Begin)`. */
  function BeginLe(a: TokenUsage, b: TokenUsage): bool
  {
    a.begin <= b.begin
  }

  lemma {:induction false} BeginOrder()
    ensures TotalPreorder(BeginLe)
  {
  }

  /** Each span ends at or before the start of the next one. */
  predicate NonOverlapping(spans: seq<TokenUsage>)
  {
    forall j :: 0 <= j < |spans| - 1 ==> spans[j].begin + spans[j].length <= spans[j + 1].begin
  }

  /** The span lies in the text and holds `key`. */
  predicate SpanHolds(text: string, u: TokenUsage, key: string)
  {
    u.begin + u.length <= |text| && text[u.begin..u.begin + u.length] == key
  }

  /** The first recorded span from index `k` on, in list order, that runs
      past the text or does not hold `key`. */
  function FirstStale(text: string, us: seq<TokenUsage>, k: nat, key: string): Option<RenameError>
    requires k <= |us|
    decreases |us| - k
  {
    if k == |us| then None
    else if us[k].begin + us[k].length > |text| then Some(SpanOutOfRange)
    else if text[us[k].begin..us[k].begin + us[k].length] != key then Some(CodeHasChanged)
    else FirstStale(text, us, k + 1, key)
  }

  /** Every recorded span lies in the text and holds `key`. */
  predicate SpansHoldKey(text: string, us: seq<TokenUsage>, key: string)
  {
    forall k :: 0 <= k < |us| ==> SpanHolds(text, us[k], key)
  }

  /** The outcome of `ValidateRename`: the overlap check on the usages
      sorted by start, then the staleness check in list order. */
  function Validation(text: string, us: seq<TokenUsage>, key: string): Result<(), RenameError>
  {
    if !NonOverlapping(Sort(us, BeginLe)) then Failure(OverlappingUsages)
    else match FirstStale(text, us, 0, key)
      case Some(e) => Failure(e)
      case None => Success(())
  }

  // ---------------------------------------------------------------------------
  // Splicing (`RenameAllTokenUsages`).

  /** The spans can be replaced: they are in order, do not overlap and lie
      in the text. */
  predicate Spliceable(text: string, spans: seq<TokenUsage>)
  {
    && NonOverlapping(spans)
    && (forall k :: 0 <= k < |spans| ==> spans[k].begin + spans[k].length <= |text|)
  }

  /** Where the text of the spans from `j` on starts to differ: the start
      of span `j`, or the end of the text. */
  function Bound(text: string, spans: seq<TokenUsage>, j: nat): (b: nat)
    requires j <= |spans| && Spliceable(text, spans)
    ensures b <= |text|
    ensures j > 0 ==> spans[j - 1].begin + spans[j - 1].length <= b
  {
    if j < |spans| then spans[j].begin else |text|
  }

  /** The text from `pos` on with the spans from `j` on replaced by `newKey`,
      read front to back: the text up to span `j`, the new key, and so on. */
  function ReplaceFrom(text: string, spans: seq<TokenUsage>, j: nat, pos: nat, newKey: string): string
    requires j <= |spans| && Spliceable(text, spans) && pos <= Bound(text, spans, j)
    decreases |spans| - j
  {
    if j == |spans| then text[pos..]
    else text[pos..spans[j].begin] + newKey + ReplaceFrom(text, spans, j + 1, spans[j].begin + spans[j].length, newKey)
  }

  /** Starting earlier adds the text in between. */
  lemma {:induction false} ReplaceFromShift(text: string, spans: seq<TokenUsage>, j: nat, p: nat, q: nat, newKey: string)
    requires j <= |spans| && Spliceable(text, spans) && p <= q <= Bound(text, spans, j)
    ensures ReplaceFrom(text, spans, j, p, newKey) == text[p..q] + ReplaceFrom(text, spans, j, q, newKey)
  {
    if j == |spans| {
      SliceSplit(text, p, q, |text|);
      assert text[p..] == text[p..|text|];
      assert text[q..] == text[q..|text|];
    } else {
      ShiftCons(text, spans, j, p, q, newKey);
    }
  }

  lemma {:induction false} ShiftCons(text: string, spans: seq<TokenUsage>, j: nat, p: nat, q: nat, newKey: string)
    requires j < |spans| && Spliceable(text, spans) && p <= q <= spans[j].begin
    ensures ReplaceFrom(text, spans, j, p, newKey) == text[p..q] + ReplaceFrom(text, spans, j, q, newKey)
  {
    var b := spans[j].begin;
    ShiftParts(text, p, q, b, newKey, ReplaceFrom(text, spans, j + 1, b + spans[j].length, newKey));
  }

  lemma {:induction false} ShiftParts(text: string, p: nat, q: nat, b: nat, k: string, tail: string)
    requires p <= q <= b <= |text|
    ensures (text[p..b] + k) + tail == text[p..q] + ((text[q..b] + k) + tail)
  {
    SliceSplit(text, p, q, b);
    Assoc4(text[p..q], text[q..b], k, tail);
  }

  /** The file text with every span replaced. */
  function Spliced(text: string, spans: seq<TokenUsage>, newKey: string): string
    requires Spliceable(text, spans)
  {
    ReplaceFrom(text, spans, 0, 0, newKey)
  }

  /** The source files after `RenameAllTokenUsages`, or why it throws:
      the file is read, validated, spliced and written back. */
  function SpliceFile(texts: map<string, string>, item: Item, newKey: string): Result<map<string, string>, RenameError>
    requires item.fullFilename.Some?
  {
    var file := item.fullFilename.value;
    if file !in texts then Failure(Unreadable(file))
    else if item.tokenUsages.None? then Failure(RenameError.NoTokenUsages)
    else
      var text := texts[file];
      var us := item.tokenUsages.value;
      match Validation(text, us, item.key)
      case Failure(e) => Failure(e)
      case Success(_) =>
        ValidationSpliceable(text, us, item.key);
        Success(texts[file := Spliced(text, Sort(us, BeginLe), newKey)])
  }

  // ---------------------------------------------------------------------------
  // Moving the catalog entries.

  /** `Translations.Single(t => t.Language == language).Text`. */
  function SingleText(ts: Option<seq<Translation>>, language: string): Result<Option<string>, RenameError>
  {
    if ts.None? then Failure(NoTranslations)
    else
      var matching := OfLanguage(ts.value, language);
      if |matching| == 1 then Success(matching[0].text) else Failure(TranslationNotSingle(language))
  }

  function OfLanguage(ts: seq<Translation>, language: string): (r: seq<Translation>)
    ensures forall k :: 0 <= k < |r| ==> r[k].language == language && r[k] in ts
  {
    if ts == [] then []
    else (if ts[0].language == language then [ts[0]] else []) + OfLanguage(ts[1..], language)
  }

  /** One language: remove the old key, then save the new key with the
      item's text in that language. */
  function MoveOne(cats: map<string, Json>, language: string, oldKey: string, newKey: string, ts: Option<seq<Translation>>)
    : (Result<(), RenameError>, map<string, Json>)
  {
    var (removed, afterRemove) := TranslationPersister.Remove(cats, language, oldKey);
    if removed.Failure? then (Failure(CatalogFailed(removed.error)), afterRemove)
    else match SingleText(ts, language)
      case Failure(e) => (Failure(e), afterRemove)
      case Success(text) =>
        var (saved, afterSave) := TranslationPersister.Save(afterRemove, language, newKey, text);
        if saved.Failure? then (Failure(CatalogFailed(saved.error)), afterSave)
        else (Success(()), afterSave)
  }

  /** Every language in order; an error stops the loop. */
  function MoveAll(cats: map<string, Json>, languages: seq<string>, oldKey: string, newKey: string, ts: Option<seq<Translation>>)
    : (Result<(), RenameError>, map<string, Json>)
    decreases |languages|
  {
    if languages == [] then (Success(()), cats)
    else
      var previous := MoveAll(cats, languages[..|languages| - 1], oldKey, newKey, ts);
      if previous.0.Failure? then previous
      else MoveOne(previous.1, languages[|languages| - 1], oldKey, newKey, ts)
  }

  /** `Rename(treeItem, newKey)`: its outcome (the renamed item), and the
      source files and catalog files afterwards. */
  function RenameSpec(texts: map<string, string>, cats: map<string, Json>, languages: seq<string>, item: Item, newKey: string)
    : (Result<Item, RenameError>, map<string, string>, map<string, Json>)
  {
    if item.fullFilename.None? then (Failure(NoSourceFile), texts, cats)
    else match SpliceFile(texts, item, newKey)
      case Failure(e) => (Failure(e), texts, cats)
      case Success(newTexts) =>
        var (moved, newCats) := MoveAll(cats, languages, item.key, newKey, item.translations);
        if moved.Failure? then (Failure(moved.error), newTexts, newCats)
        else (Success(item.(key := newKey)), newTexts, newCats)
  }

  // ---------------------------------------------------------------------------
  // The operations.

  /** `Rename`: the item comes back with its new key. */
  method Rename(fs: FileSystem, languages: seq<string>, item: Item, newKey: string) returns (r: Result<Item, RenameError>)
    modifies fs
    ensures fs.sources == old(fs.sources)
    ensures (r, fs.texts, fs.catalogs) == RenameSpec(old(fs.texts), old(fs.catalogs), languages, item, newKey)
    ensures item.fullFilename.None? ==>
              r == Failure(NoSourceFile) && fs.texts == old(fs.texts) && fs.catalogs == old(fs.catalogs)
  {
    if item.fullFilename.None? {
      return Failure(NoSourceFile);
    }
    var renamed := RenameAllTokenUsages(fs, item, newKey);
    if renamed.Failure? {
      return Failure(renamed.error);
    }
    var moved := MoveTranslations(fs, languages, item.key, newKey, item.translations);
    if moved.Failure? {
      return Failure(moved.error);
    }
    r := Success(item.(key := newKey));
  }

  /** The loop of `Rename` over the languages. */
  method MoveTranslations(fs: FileSystem, languages: seq<string>, oldKey: string, newKey: string, ts: Option<seq<Translation>>)
    returns (r: Result<(), RenameError>)
    modifies fs
    ensures fs.sources == old(fs.sources) && fs.texts == old(fs.texts)
    ensures (r, fs.catalogs) == MoveAll(old(fs.catalogs), languages, oldKey, newKey, ts)
  {
    for k := 0 to |languages|
      invariant fs.sources == old(fs.sources) && fs.texts == old(fs.texts)
      invariant (Success(()), fs.catalogs) == MoveAll(old(fs.catalogs), languages[..k], oldKey, newKey, ts)
    {
      var language := languages[k];
      assert languages[..k + 1][..k] == languages[..k];
      var removed := TranslationPersister.RemoveTranslationText(fs, language, oldKey);
      if removed.Failure? {
        MoveAllSticks(old(fs.catalogs), languages, oldKey, newKey, ts, k + 1);
        return Failure(CatalogFailed(removed.error));
      }
      var text := SingleText(ts, language);
      if text.Failure? {
        MoveAllSticks(old(fs.catalogs), languages, oldKey, newKey, ts, k + 1);
        return Failure(text.error);
      }
      var saved := TranslationPersister.SaveTranslationText(fs, language, newKey, text.value);
      if saved.Failure? {
        MoveAllSticks(old(fs.catalogs), languages, oldKey, newKey, ts, k + 1);
        return Failure(CatalogFailed(saved.error));
      }
    }
    assert languages[..|languages|] == languages;
    r := Success(());
  }

  /** `RenameAllTokenUsages`: read the file, validate, splice, write. */
  method RenameAllTokenUsages(fs: FileSystem, item: Item, newKey: string) returns (r: Result<(), RenameError>)
    requires item.fullFilename.Some?
    modifies fs
    ensures fs.sources == old(fs.sources) && fs.catalogs == old(fs.catalogs)
    ensures match SpliceFile(old(fs.texts), item, newKey)
            case Failure(e) => r == Failure(e) && fs.texts == old(fs.texts)
            case Success(texts) => r == Success(()) && fs.texts == texts
  {
    var file := item.fullFilename.value;
    if file !in fs.texts {
      return Failure(Unreadable(file));
    }
    var fileContent := fs.texts[file];
    if item.tokenUsages.None? {
      return Failure(RenameError.NoTokenUsages);
    }
    var us := item.tokenUsages.value;
    var valid := ValidateRename(fileContent, us, item.key);
    if valid.Failure? {
      return Failure(valid.error);
    }
    ValidationSpliceable(fileContent, us, item.key);
    fileContent := SpliceBackToFront(fileContent, Sort(us, BeginLe), newKey);
    fs.texts := fs.texts[file := fileContent];
    r := Success(());
  }

  /** `ValidateRename`: a loop over the usages by start with the end of the
      previous span, then a loop over the usages comparing each span with
      the key. */
  method ValidateRename(fileContent: string, us: seq<TokenUsage>, key: string) returns (r: Result<(), RenameError>)
    ensures r == Validation(fileContent, us, key)
  {
    var sorted := Sort(us, BeginLe);
    var prevEnd := -1;
    for k := 0 to |sorted|
      invariant prevEnd == (if k == 0 then -1 else sorted[k - 1].begin + sorted[k - 1].length - 1)
      invariant forall j :: 0 <= j < k - 1 ==> sorted[j].begin + sorted[j].length <= sorted[j + 1].begin
    {
      if sorted[k].begin <= prevEnd {
        assert !NonOverlapping(sorted) by {
          assert sorted[k - 1].begin + sorted[k - 1].length > sorted[k].begin;
        }
        return Failure(OverlappingUsages);
      }
      prevEnd := sorted[k].begin + sorted[k].length - 1;
    }
    for k := 0 to |us|
      invariant FirstStale(fileContent, us, 0, key) == FirstStale(fileContent, us, k, key)
    {
      var tokenUsage := us[k];
      if tokenUsage.begin + tokenUsage.length > |fileContent| {
        return Failure(SpanOutOfRange);
      }
      var textToReplace := fileContent[tokenUsage.begin..tokenUsage.begin + tokenUsage.length];
      if textToReplace != key {
        return Failure(CodeHasChanged);
      }
    }
    r := Success(());
  }

  /** The splicing loop: the spans from the last to the first, each removed
      and the new key inserted at its start, so that the spans still to do
      keep their offsets. */
  method SpliceBackToFront(text: string, spans: seq<TokenUsage>, newKey: string) returns (content: string)
    requires Spliceable(text, spans)
    ensures content == Spliced(text, spans, newKey)
  {
    content := text;
    var j := |spans|;
    assert text[..|text|] == text;
    while j > 0
      invariant 0 <= j <= |spans|
      invariant content == text[..Bound(text, spans, j)] + ReplaceFrom(text, spans, j, Bound(text, spans, j), newKey)
    {
      SpliceStep(text, spans, j, newKey);
      var u := spans[j - 1];
      content := content[..u.begin] + content[u.begin + u.length..];   // Remove(Begin, Length)
      content := content[..u.begin] + newKey + content[u.begin..];     // Insert(Begin, newKey)
      j := j - 1;
    }
    ReplaceFromShift(text, spans, 0, 0, Bound(text, spans, 0), newKey);
  }

  // ---------------------------------------------------------------------------
  // Helper lemmas.

  /** Cutting a concatenation inside its first part. */
  lemma {:induction false} CutConcat(a: string, r: string, i: nat)
    requires i <= |a|
    ensures (a + r)[..i] == a[..i] && (a + r)[i..] == a[i..] + r
  {
  }

  /** One round of the splicing loop: removing span `j - 1` and inserting
      the new key at its start extends the replaced suffix by that span. */
  lemma {:induction false} SpliceStep(text: string, spans: seq<TokenUsage>, j: nat, newKey: string)
    requires 0 < j <= |spans| && Spliceable(text, spans)
    ensures var u := spans[j - 1];
      var b := Bound(text, spans, j);
      var content := text[..b] + ReplaceFrom(text, spans, j, b, newKey);
      && u.begin + u.length <= b
      && var removed := content[..u.begin] + content[u.begin + u.length..];
      && u.begin <= |removed|
      && removed[..u.begin] + newKey + removed[u.begin..]
         == text[..Bound(text, spans, j - 1)] + ReplaceFrom(text, spans, j - 1, Bound(text, spans, j - 1), newKey)
  {
    var u := spans[j - 1];
    var end := u.begin + u.length;
    var b := Bound(text, spans, j);
    var rest := ReplaceFrom(text, spans, j, b, newKey);
    RemoveSpan(text, rest, u.begin, end, b);
    InsertKey(text, text[end..b] + rest, u.begin, newKey);
    ReplaceFromShift(text, spans, j, end, b, newKey);
    ReplaceFromHead(text, spans, j - 1, newKey);
  }

  /** From the start of span `j` on, the replaced text starts with the new
      key. */
  lemma {:induction false} ReplaceFromHead(text: string, spans: seq<TokenUsage>, j: nat, newKey: string)
    requires j < |spans| && Spliceable(text, spans)
    ensures ReplaceFrom(text, spans, j, spans[j].begin, newKey)
         == newKey + ReplaceFrom(text, spans, j + 1, spans[j].begin + spans[j].length, newKey)
  {
    assert text[spans[j].begin..spans[j].begin] == [];
  }

  lemma {:induction false} RemoveSpan(text: string, rest: string, begin: nat, end: nat, b: nat)
    requires begin <= end <= b <= |text|
    ensures var content := text[..b] + rest;
      content[..begin] + content[end..] == text[..begin] + (text[end..b] + rest)
  {
    CutConcat(text[..b], rest, begin);
    CutConcat(text[..b], rest, end);
    assert text[..b][..begin] == text[..begin];
    assert text[..b][end..] == text[end..b];
  }

  lemma {:induction false} InsertKey(text: string, tail: string, begin: nat, newKey: string)
    requires begin <= |text|
    ensures var removed := text[..begin] + tail;
      begin <= |removed| && removed[..begin] + newKey + removed[begin..] == text[..begin] + (newKey + tail)
  {
    CutConcat(text[..begin], tail, begin);
    assert text[..begin][..begin] == text[..begin];
  }

  /** A passed validation makes the sorted spans spliceable. */
  lemma {:induction false} ValidationSpliceable(text: string, us: seq<TokenUsage>, key: string)
    requires Validation(text, us, key).Success?
    ensures Spliceable(text, Sort(us, BeginLe))
  {
    ValidationOk(text, us, key);
    SortedSpansHoldKey(text, us, key);
  }

  /** Sorting keeps the spans, so the sorted spans hold the key too. */
  lemma {:induction false} SortedSpansHoldKey(text: string, us: seq<TokenUsage>, key: string)
    requires SpansHoldKey(text, us, key)
    ensures SpansHoldKey(text, Sort(us, BeginLe), key)
  {
    var sorted := Sort(us, BeginLe);
    SortPermutes(us, BeginLe);
    forall k | 0 <= k < |sorted|
      ensures SpanHolds(text, sorted[k], key)
    {
      assert sorted[k] in multiset(us);
      var m :| 0 <= m < |us| && us[m] == sorted[k];
    }
  }

  lemma {:induction false} FirstStaleNone(text: string, us: seq<TokenUsage>, k: nat, key: string)
    requires k <= |us|
    ensures FirstStale(text, us, k, key).None? <==> forall i :: k <= i < |us| ==> SpanHolds(text, us[i], key)
    decreases |us| - k
  {
    if k < |us| {
      FirstStaleNone(text, us, k + 1, key);
    }
  }

  lemma {:induction false} MoveAllSticks(cats: map<string, Json>, languages: seq<string>, oldKey: string, newKey: string,
                                         ts: Option<seq<Translation>>, k: nat)
    requires k <= |languages| && MoveAll(cats, languages[..k], oldKey, newKey, ts).0.Failure?
    ensures MoveAll(cats, languages, oldKey, newKey, ts) == MoveAll(cats, languages[..k], oldKey, newKey, ts)
    decreases |languages|
  {
    if k < |languages| {
      var init := languages[..|languages| - 1];
      assert init[..k] == languages[..k];
      MoveAllSticks(cats, init, oldKey, newKey, ts, k);
    } else {
      assert languages[..k] == languages;
    }
  }

  // ---------------------------------------------------------------------------
  // What a rename promises.

  /** Validation passes exactly when the spans, sorted by start, do not
      overlap and every span lies in the text and holds the key. */
  lemma {:induction false} ValidationOk(text: string, us: seq<TokenUsage>, key: string)
    ensures Validation(text, us, key).Success? <==> NonOverlapping(Sort(us, BeginLe)) && SpansHoldKey(text, us, key)
  {
    FirstStaleNone(text, us, 0, key);
  }

  /** `m` times `d`, as a sum. */
  function Scaled(m: nat, d: int): int
  {
    if m == 0 then 0 else Scaled(m - 1, d) + d
  }

  lemma {:induction false} ScaledProduct(m: nat, d: int)
    ensures Scaled(m, d) == m * d
  {
    if m > 0 {
      ScaledProduct(m - 1, d);
    }
  }

  /** Each replaced span changes the length by the difference of the keys. */
  lemma {:induction false} ReplaceFromLength(text: string, spans: seq<TokenUsage>, j: nat, pos: nat, newKey: string, oldLength: nat)
    requires j <= |spans| && Spliceable(text, spans) && pos <= Bound(text, spans, j)
    requires forall k :: 0 <= k < |spans| ==> spans[k].length == oldLength
    ensures |ReplaceFrom(text, spans, j, pos, newKey)| == |text| - pos + Scaled(|spans| - j, |newKey| - oldLength)
    decreases |spans| - j
  {
    if j < |spans| {
      var end := spans[j].begin + spans[j].length;
      ReplaceFromLength(text, spans, j + 1, end, newKey, oldLength);
    }
  }

  /** Replacing spans that already hold the new key gives the text back:
      only the spans change, the text between them is kept in order. */
  lemma {:induction false} ReplaceFromIdentity(text: string, spans: seq<TokenUsage>, j: nat, pos: nat, newKey: string)
    requires j <= |spans| && Spliceable(text, spans) && pos <= Bound(text, spans, j)
    requires forall k :: 0 <= k < |spans| ==> text[spans[k].begin..spans[k].begin + spans[k].length] == newKey
    ensures ReplaceFrom(text, spans, j, pos, newKey) == text[pos..]
    decreases |spans| - j
  {
    if j < |spans| {
      var b := spans[j].begin;
      var end := b + spans[j].length;
      ReplaceFromIdentity(text, spans, j + 1, end, newKey);
      assert ReplaceFrom(text, spans, j, pos, newKey) == (text[pos..b] + text[b..end]) + text[end..];
      SliceSplit(text, pos, b, end);
      SliceSplit(text, pos, end, |text|);
      assert text[end..] == text[end..|text|] && text[pos..] == text[pos..|text|];
    }
  }

  /** Where the spans from `j` on stand in `ReplaceFrom(text, spans, j, pos,
      newKey)` once it follows `off` characters: each now holds the new key. */
  function MovedSpans(text: string, spans: seq<TokenUsage>, j: nat, pos: nat, newKey: string, off: nat): (r: seq<TokenUsage>)
    requires j <= |spans| && Spliceable(text, spans) && pos <= Bound(text, spans, j)
    ensures |r| == |spans| - j
    decreases |spans| - j
  {
    if j == |spans| then []
    else
      var b := off + (spans[j].begin - pos);
      [spans[j].(begin := b, length := |newKey|)]
        + MovedSpans(text, spans, j + 1, spans[j].begin + spans[j].length, newKey, b + |newKey|)
  }

  /** The spans of the spliced text, where the new key now stands. */
  function RenamedSpans(text: string, spans: seq<TokenUsage>, newKey: string): seq<TokenUsage>
    requires Spliceable(text, spans)
  {
    MovedSpans(text, spans, 0, 0, newKey, 0)
  }

  /** Renaming back undoes a splice: when every span holds `oldKey`, the
      text spliced with `newKey`, whose moved spans hold `newKey` and can be
      spliced in turn, gives the text back once they are spliced with
      `oldKey`. */
  lemma {:induction false} SpliceRoundTrip(text: string, spans: seq<TokenUsage>, oldKey: string, newKey: string)
    requires Spliceable(text, spans) && forall k :: 0 <= k < |spans| ==> SpanHolds(text, spans[k], oldKey)
    ensures var renamed := Spliced(text, spans, newKey);
      var moved := RenamedSpans(text, spans, newKey);
      && |moved| == |spans|
      && Spliceable(renamed, moved)
      && (forall k :: 0 <= k < |moved| ==> SpanHolds(renamed, moved[k], newKey))
      && Spliced(renamed, moved, oldKey) == text
  {
    var renamed := Spliced(text, spans, newKey);
    assert renamed[0..] == renamed;
    MovedHold(text, spans, 0, 0, newKey, renamed, 0);
    MovedRoundTrip(text, spans, 0, 0, oldKey, newKey, renamed, 0);
    assert text[0..] == text;
  }

  /** The spans from `j` on, moved into a text `out` that holds their
      splice from `start` on, lie after `start` and hold the new key. */
  lemma {:induction false} MovedHold(text: string, spans: seq<TokenUsage>, j: nat, pos: nat, newKey: string, out: string, start: nat)
    requires j <= |spans| && Spliceable(text, spans) && pos <= Bound(text, spans, j)
    requires start <= |out| && out[start..] == ReplaceFrom(text, spans, j, pos, newKey)
    ensures var moved := MovedSpans(text, spans, j, pos, newKey, start);
      forall k :: 0 <= k < |moved| ==> start <= moved[k].begin && SpanHolds(out, moved[k], newKey)
    decreases |spans| - j
  {
    if j < |spans| {
      var b := spans[j].begin;
      var e := b + spans[j].length;
      var gap := text[pos..b];
      var rest := ReplaceFrom(text, spans, j + 1, e, newKey);
      var next := start + |gap| + |newKey|;
      assert out[start..] == gap + newKey + rest;
      SuffixParts(out, start, gap, newKey, rest);
      MovedHold(text, spans, j + 1, e, newKey, out, next);
      MovedSpansCons(text, spans, j, pos, newKey, start);
      var moved := MovedSpans(text, spans, j, pos, newKey, start);
      var tail := MovedSpans(text, spans, j + 1, e, newKey, next);
      forall k | 0 <= k < |moved|
        ensures start <= moved[k].begin && SpanHolds(out, moved[k], newKey)
      {
        if k > 0 {
          assert moved[k] == tail[k - 1];
        }
      }
    }
  }

  /** The moved spans can be spliced in `out`, from `start` on. */
  lemma {:induction false} MovedSpliceableFrom(text: string, spans: seq<TokenUsage>, j: nat, pos: nat, newKey: string,
                                               out: string, start: nat)
    requires j <= |spans| && Spliceable(text, spans) && pos <= Bound(text, spans, j)
    requires start <= |out| && out[start..] == ReplaceFrom(text, spans, j, pos, newKey)
    ensures var moved := MovedSpans(text, spans, j, pos, newKey, start);
      Spliceable(out, moved) && start <= Bound(out, moved, 0)
    decreases |spans| - j
  {
    MovedHold(text, spans, j, pos, newKey, out, start);
    if j < |spans| {
      var b := spans[j].begin;
      var e := b + spans[j].length;
      var gap := text[pos..b];
      var rest := ReplaceFrom(text, spans, j + 1, e, newKey);
      var next := start + |gap| + |newKey|;
      assert out[start..] == gap + newKey + rest;
      SuffixParts(out, start, gap, newKey, rest);
      MovedSpliceableFrom(text, spans, j + 1, e, newKey, out, next);
      MovedHold(text, spans, j + 1, e, newKey, out, next);
      MovedSpansCons(text, spans, j, pos, newKey, start);
      var head := spans[j].(begin := start + |gap|, length := |newKey|);
      var tail := MovedSpans(text, spans, j + 1, e, newKey, next);
      MovedSpliceable(out, head, tail, next);
    }
  }

  /** `SpliceRoundTrip` for the spans from `j` on, read from `pos`, in a
      text `out` that holds their splice from `start` on. */
  lemma {:induction false} MovedRoundTrip(text: string, spans: seq<TokenUsage>, j: nat, pos: nat, oldKey: string, newKey: string,
                                          out: string, start: nat)
    requires j <= |spans| && Spliceable(text, spans) && pos <= Bound(text, spans, j)
    requires forall k :: j <= k < |spans| ==> SpanHolds(text, spans[k], oldKey)
    requires start <= |out| && out[start..] == ReplaceFrom(text, spans, j, pos, newKey)
    ensures var moved := MovedSpans(text, spans, j, pos, newKey, start);
      && Spliceable(out, moved) && start <= Bound(out, moved, 0)
      && ReplaceFrom(out, moved, 0, start, oldKey) == text[pos..]
    decreases |spans| - j
  {
    MovedSpliceableFrom(text, spans, j, pos, newKey, out, start);
    if j < |spans| {
      var b := spans[j].begin;
      var e := b + spans[j].length;
      var gap := text[pos..b];
      var rest := ReplaceFrom(text, spans, j + 1, e, newKey);
      var next := start + |gap| + |newKey|;
      assert out[start..] == gap + newKey + rest;
      SuffixParts(out, start, gap, newKey, rest);
      MovedRoundTrip(text, spans, j + 1, e, oldKey, newKey, out, next);
      MovedSpansCons(text, spans, j, pos, newKey, start);
      var moved := MovedSpans(text, spans, j, pos, newKey, start);
      var tail := MovedSpans(text, spans, j + 1, e, newKey, next);
      assert moved[0].begin == start + |gap| && moved[0].begin + moved[0].length == next;
      assert moved[1..] == tail;
      RoundTripStep(out, moved, start, oldKey, tail, next, text[e..]);
      assert out[start..moved[0].begin] == gap;
      assert SpanHolds(text, spans[j], oldKey);
      ThreeParts(text, pos, b, e);
    }
  }

  /** The first moved span, and the ones after it. */
  lemma {:induction false} MovedSpansCons(text: string, spans: seq<TokenUsage>, j: nat, pos: nat, newKey: string, off: nat)
    requires j < |spans| && Spliceable(text, spans) && pos <= Bound(text, spans, j)
    ensures var b := spans[j].begin;
      MovedSpans(text, spans, j, pos, newKey, off)
      == [spans[j].(begin := off + |text[pos..b]|, length := |newKey|)]
         + MovedSpans(text, spans, j + 1, b + spans[j].length, newKey, off + |text[pos..b]| + |newKey|)
  {
  }

  /** Where the parts of `gap + key + rest` stand in a text that holds it
      from `start` on. */
  lemma {:induction false} SuffixParts(out: string, start: nat, gap: string, key: string, rest: string)
    requires start <= |out| && out[start..] == gap + key + rest
    ensures var k := start + |gap|;
      && k + |key| <= |out|
      && out[start..k] == gap
      && out[k..k + |key|] == key
      && out[k + |key|..] == rest
  {
    var k := start + |gap|;
    assert out[start..k] == out[start..][..|gap|];
    assert out[k..k + |key|] == out[start..][|gap|..|gap| + |key|];
    assert out[k + |key|..] == out[start..][|gap| + |key|..];
  }

  lemma {:induction false} ThreeParts(text: string, p: nat, b: nat, e: nat)
    requires p <= b <= e <= |text|
    ensures text[p..b] + text[b..e] + text[e..] == text[p..]
  {
    SliceSplit(text, p, b, e);
    SliceSplit(text, p, e, |text|);
    assert text[e..] == text[e..|text|] && text[p..] == text[p..|text|];
  }

  /** A span ending where the spliceable ones after it may start goes in
      front of them. */
  lemma {:induction false} MovedSpliceable(out: string, head: TokenUsage, tail: seq<TokenUsage>, end: nat)
    requires Spliceable(out, tail) && head.begin + head.length == end <= |out|
    requires forall k :: 0 <= k < |tail| ==> end <= tail[k].begin
    ensures Spliceable(out, [head] + tail)
  {
    var all := [head] + tail;
    forall k | 0 <= k < |all| - 1
      ensures all[k].begin + all[k].length <= all[k + 1].begin
    {
      assert all[k + 1] == tail[k];
      if k > 0 {
        assert all[k] == tail[k - 1];
      }
    }
    forall k | 0 <= k < |all|
      ensures all[k].begin + all[k].length <= |out|
    {
      if k > 0 {
        assert all[k] == tail[k - 1];
      }
    }
  }

  /** Splicing from the first span on, when the other spans splice to
      `back`. */
  lemma {:induction false} RoundTripStep(out: string, moved: seq<TokenUsage>, start: nat, key: string, tail: seq<TokenUsage>,
                                         next: nat, back: string)
    requires |moved| >= 1 && Spliceable(out, moved) && start <= Bound(out, moved, 0)
    requires moved[0].begin + moved[0].length == next && moved[1..] == tail
    requires Spliceable(out, tail) && next <= Bound(out, tail, 0) && ReplaceFrom(out, tail, 0, next, key) == back
    ensures ReplaceFrom(out, moved, 0, start, key) == out[start..moved[0].begin] + key + back
  {
    ReplaceFromFirst(out, moved, start, key);
  }

  /** Splicing from the first span on: the text up to it, the key, and the
      splice of the other spans. */
  lemma {:induction false} ReplaceFromFirst(text: string, spans: seq<TokenUsage>, pos: nat, key: string)
    requires |spans| >= 1 && Spliceable(text, spans) && pos <= Bound(text, spans, 0)
    ensures var end := spans[0].begin + spans[0].length;
      && Spliceable(text, spans[1..]) && end <= Bound(text, spans[1..], 0)
      && ReplaceFrom(text, spans, 0, pos, key) == text[pos..spans[0].begin] + key + ReplaceFrom(text, spans[1..], 0, end, key)
  {
    ReplaceFromDropHead(text, spans, 1, spans[0].begin + spans[0].length, key);
  }

  /** Splicing from span `j` on does not look at the spans before it. */
  lemma {:induction false} ReplaceFromDropHead(text: string, spans: seq<TokenUsage>, j: nat, pos: nat, newKey: string)
    requires 1 <= j <= |spans| && Spliceable(text, spans) && pos <= Bound(text, spans, j)
    ensures Spliceable(text, spans[1..]) && pos <= Bound(text, spans[1..], j - 1)
    ensures ReplaceFrom(text, spans, j, pos, newKey) == ReplaceFrom(text, spans[1..], j - 1, pos, newKey)
    decreases |spans| - j
  {
    TailSpliceable(text, spans, j);
    if j < |spans| {
      var e := spans[j].begin + spans[j].length;
      TailSpliceable(text, spans, j + 1);
      ReplaceFromDropHead(text, spans, j + 1, e, newKey);
      assert spans[1..][j - 1] == spans[j];
    }
  }

  /** The spans after the first can be spliced, with the same bounds. */
  lemma {:induction false} TailSpliceable(text: string, spans: seq<TokenUsage>, j: nat)
    requires 1 <= j <= |spans| && Spliceable(text, spans)
    ensures Spliceable(text, spans[1..]) && Bound(text, spans[1..], j - 1) == Bound(text, spans, j)
  {
    var tail := spans[1..];
    assert forall k :: 0 <= k < |tail| ==> tail[k] == spans[k + 1];
  }

  /** A rename's change to the source file can be undone: the usages,
      moved to where the new key now stands, hold the new key, and splicing
      them back with the old key gives the old file text. */
  lemma {:induction false} RenameUndoable(texts: map<string, string>, cats: map<string, Json>, languages: seq<string>,
                                          item: Item, newKey: string)
    requires item.fullFilename.Some? && SpliceFile(texts, item, newKey).Success?
    ensures var file := item.fullFilename.value;
      var text := texts[file];
      var sorted := Sort(item.tokenUsages.value, BeginLe);
      var renamed := RenameSpec(texts, cats, languages, item, newKey).1[file];
      && Spliceable(text, sorted)
      && var moved := RenamedSpans(text, sorted, newKey);
      && |moved| == |sorted|
      && Spliceable(renamed, moved)
      && (forall k :: 0 <= k < |moved| ==> SpanHolds(renamed, moved[k], newKey))
      && Spliced(renamed, moved, item.key) == text
  {
    var file := item.fullFilename.value;
    var text := texts[file];
    var us := item.tokenUsages.value;
    RenameSplices(texts, cats, languages, item, newKey);
    assert Validation(text, us, item.key).Success?;
    ValidationOk(text, us, item.key);
    SortedSpansHoldKey(text, us, item.key);
    SpliceRoundTrip(text, Sort(us, BeginLe), item.key, newKey);
  }

  /** After a rename that got past validation, the source file is the old
      text with every recorded span replaced by the new key, and its length
      changed by the difference of the keys once per usage. */
  lemma {:induction false} RenameSplices(texts: map<string, string>, cats: map<string, Json>, languages: seq<string>, item: Item, newKey: string)
    requires item.fullFilename.Some? && SpliceFile(texts, item, newKey).Success?
    ensures var file := item.fullFilename.value;
      var text := texts[file];
      var us := item.tokenUsages.value;
      var newTexts := RenameSpec(texts, cats, languages, item, newKey).1;
      && Spliceable(text, Sort(us, BeginLe))
      && newTexts == texts[file := Spliced(text, Sort(us, BeginLe), newKey)]
      && |newTexts[file]| == |text| + |us| * (|newKey| - |item.key|)
  {
    var file := item.fullFilename.value;
    var text := texts[file];
    var us := item.tokenUsages.value;
    RenameSpecTexts(texts, cats, languages, item, newKey);
    assert Validation(text, us, item.key).Success?;
    ValidationSpliceable(text, us, item.key);
    ValidationOk(text, us, item.key);
    var sorted := Sort(us, BeginLe);
    SortedSpansHoldKey(text, us, item.key);
    forall k | 0 <= k < |sorted|
      ensures sorted[k].length == |item.key|
    {
      assert SpanHolds(text, sorted[k], item.key);
    }
    ReplaceFromLength(text, sorted, 0, 0, newKey, |item.key|);
    ScaledProduct(|us|, |newKey| - |item.key|);
  }

  lemma {:induction false} RenameSpecTexts(texts: map<string, string>, cats: map<string, Json>, languages: seq<string>, item: Item, newKey: string)
    requires item.fullFilename.Some? && SpliceFile(texts, item, newKey).Success?
    ensures RenameSpec(texts, cats, languages, item, newKey).1 == SpliceFile(texts, item, newKey).value
  {
  }

  /** A rename that fails before the splice writes nothing. */
  lemma {:induction false} RenameFailsEarly(texts: map<string, string>, cats: map<string, Json>, languages: seq<string>, item: Item, newKey: string)
    requires item.fullFilename.None? || SpliceFile(texts, item, newKey).Failure?
    ensures var (r, newTexts, newCats) := RenameSpec(texts, cats, languages, item, newKey);
      r.Failure? && newTexts == texts && newCats == cats
  {
  }

  /** `MoveOne` touches that language's catalog only. */
  lemma {:induction false} MoveOneFrame(cats: map<string, Json>, language: string, oldKey: string, newKey: string, ts: Option<seq<Translation>>)
    ensures var after := MoveOne(cats, language, oldKey, newKey, ts).1;
      && language in after
      && forall l :: l != language ==> (l in after <==> l in cats) && (l in cats ==> after[l] == cats[l])
  {
    var afterRemove := TranslationPersister.Remove(cats, language, oldKey).1;
    TranslationPersister.RemoveFrame(cats, language, oldKey);
    if SingleText(ts, language).Success? {
      TranslationPersister.SaveFrame(afterRemove, language, newKey, SingleText(ts, language).value);
    }
  }

  /** Where the key path `q` resolves in `language` once the old key has
      been removed and `text` saved under the new key, from the catalogs
      `cats` before the move: the text at the new key, nothing at the old
      key or below it, and elsewhere what it resolved to before. */
  ghost function MovedLookup(cats: map<string, Json>, language: string, oldKey: string, newKey: string,
                             text: Option<string>, q: seq<string>): Option<string>
  {
    if text.Some? && q == Split(newKey, '.') then text
    else if Split(oldKey, '.') <= q then None
    else Lookup(TranslationPersister.WithDefault(cats, language)[language], q)
  }

  /** The catalog of `language` is missing or a well-formed JSON object. */
  ghost predicate Movable(cats: map<string, Json>, language: string)
  {
    language in cats ==> cats[language].Obj? && WellFormed(cats[language])
  }

  /** In the catalogs `after`, the item's translation in `language` has
      been moved from `oldKey` to `newKey`: every key path resolves as
      `MovedLookup` says. */
  ghost predicate Moved(after: map<string, Json>, cats: map<string, Json>, language: string, oldKey: string, newKey: string,
                        ts: Option<seq<Translation>>)
  {
    && SingleText(ts, language).Success? && language in after
    && forall q :: Lookup(after[language], q) == MovedLookup(cats, language, oldKey, newKey, SingleText(ts, language).value, q)
  }

  /** After the catalog loop has gone through, with each language listed
      once: every language's text has been found on the item; every
      language with a text resolves the new key to it; in every language
      whose catalog was missing or an object, the old key and everything
      below it no longer resolve and every other path resolves as before;
      and no other language's catalog changed. */
  lemma {:induction false} MoveAllLookups(cats: map<string, Json>, languages: seq<string>, oldKey: string, newKey: string,
                                          ts: Option<seq<Translation>>)
    requires Distinct(languages) && MoveAll(cats, languages, oldKey, newKey, ts).0.Success?
    ensures var after := MoveAll(cats, languages, oldKey, newKey, ts).1;
      && (forall k :: 0 <= k < |languages| ==> SingleText(ts, languages[k]).Success? && languages[k] in after)
      && (forall k :: 0 <= k < |languages| && SingleText(ts, languages[k]).value.Some? ==>
            Lookup(after[languages[k]], Split(newKey, '.')) == SingleText(ts, languages[k]).value)
      && (forall k :: 0 <= k < |languages| && Movable(cats, languages[k]) ==>
            Moved(after, cats, languages[k], oldKey, newKey, ts))
      && (forall l :: l !in languages ==> (l in after <==> l in cats) && (l in cats ==> after[l] == cats[l]))
    decreases |languages|
  {
    if languages != [] {
      var init := languages[..|languages| - 1];
      var language := languages[|languages| - 1];
      SnocSplit(languages);
      DistinctSnoc(init, language);
      var previous := MoveAll(cats, init, oldKey, newKey, ts);
      assert previous.0.Success?;
      MoveAllLookups(cats, init, oldKey, newKey, ts);
      MoveLookupStep(cats, init, language, oldKey, newKey, ts, previous.1);
      MovedStep(cats, init, language, oldKey, newKey, ts, previous.1);
    }
  }

  /** A successful rename, over distinct languages, leaves the source file
      spliced and moves the item's translation in every language: in each
      catalog that was missing or an object the new key holds the item's
      text, the old key and everything below it no longer resolve, and every
      other path resolves as before; the other catalogs are unchanged. */
  lemma {:induction false} RenameMovesCatalogs(texts: map<string, string>, cats: map<string, Json>, languages: seq<string>,
                                               item: Item, newKey: string)
    requires Distinct(languages) && RenameSpec(texts, cats, languages, item, newKey).0.Success?
    ensures var (r, newTexts, after) := RenameSpec(texts, cats, languages, item, newKey);
      && item.fullFilename.Some? && SpliceFile(texts, item, newKey).Success?
      && newTexts == SpliceFile(texts, item, newKey).value
      && r.value == item.(key := newKey)
      && (forall k :: 0 <= k < |languages| ==> SingleText(item.translations, languages[k]).Success? && languages[k] in after)
      && (forall k :: 0 <= k < |languages| && Movable(cats, languages[k]) ==>
            Moved(after, cats, languages[k], item.key, newKey, item.translations))
      && (forall l :: l !in languages ==> (l in after <==> l in cats) && (l in cats ==> after[l] == cats[l]))
  {
    MoveAllLookups(cats, languages, item.key, newKey, item.translations);
  }

  /** One more language moved: what held for the languages before still
      holds, and the new one resolves the new key to its text. */
  lemma {:induction false} MoveLookupStep(cats: map<string, Json>, init: seq<string>, language: string, oldKey: string, newKey: string,
                                          ts: Option<seq<Translation>>, before: map<string, Json>)
    requires language !in init && MoveOne(before, language, oldKey, newKey, ts).0.Success?
    requires forall k :: 0 <= k < |init| ==> SingleText(ts, init[k]).Success? && init[k] in before
    requires forall k :: 0 <= k < |init| && SingleText(ts, init[k]).value.Some? ==>
               Lookup(before[init[k]], Split(newKey, '.')) == SingleText(ts, init[k]).value
    requires forall l :: l !in init ==> (l in before <==> l in cats) && (l in cats ==> before[l] == cats[l])
    ensures var after := MoveOne(before, language, oldKey, newKey, ts).1;
      var languages := init + [language];
      && (forall k :: 0 <= k < |languages| ==> SingleText(ts, languages[k]).Success? && languages[k] in after)
      && (forall k :: 0 <= k < |languages| && SingleText(ts, languages[k]).value.Some? ==>
            Lookup(after[languages[k]], Split(newKey, '.')) == SingleText(ts, languages[k]).value)
      && (forall l :: l !in languages ==> (l in after <==> l in cats) && (l in cats ==> after[l] == cats[l]))
  {
    var languages := init + [language];
    var after := MoveOne(before, language, oldKey, newKey, ts).1;
    MoveOneFrame(before, language, oldKey, newKey, ts);
    MoveOneLookup(before, language, oldKey, newKey, ts);
    forall k | 0 <= k < |languages|
      ensures SingleText(ts, languages[k]).Success? && languages[k] in after
      ensures SingleText(ts, languages[k]).value.Some? ==>
                Lookup(after[languages[k]], Split(newKey, '.')) == SingleText(ts, languages[k]).value
    {
      if k < |init| {
        assert languages[k] == init[k] && languages[k] != language;
      } else {
        assert languages[k] == language;
      }
    }
  }

  /** One more language moved: the languages before are still moved, and
      so is the new one when its catalog was missing or an object. */
  lemma {:induction false} MovedStep(cats: map<string, Json>, init: seq<string>, language: string, oldKey: string, newKey: string,
                                     ts: Option<seq<Translation>>, before: map<string, Json>)
    requires language !in init && MoveOne(before, language, oldKey, newKey, ts).0.Success?
    requires forall k :: 0 <= k < |init| && Movable(cats, init[k]) ==> Moved(before, cats, init[k], oldKey, newKey, ts)
    requires forall l :: l !in init ==> (l in before <==> l in cats) && (l in cats ==> before[l] == cats[l])
    ensures var after := MoveOne(before, language, oldKey, newKey, ts).1;
      var languages := init + [language];
      forall k :: 0 <= k < |languages| && Movable(cats, languages[k]) ==> Moved(after, cats, languages[k], oldKey, newKey, ts)
  {
    var after := MoveOne(before, language, oldKey, newKey, ts).1;
    MoveOneFrame(before, language, oldKey, newKey, ts);
    MoveOneLookup(before, language, oldKey, newKey, ts);
    MovedKept(cats, init, language, oldKey, newKey, ts, before, after);
    MovedNew(cats, language, oldKey, newKey, ts, before, after);
  }

  /** Languages other than the one just moved keep what held for them. */
  lemma {:induction false} MovedKept(cats: map<string, Json>, init: seq<string>, language: string, oldKey: string, newKey: string,
                                     ts: Option<seq<Translation>>, before: map<string, Json>, after: map<string, Json>)
    requires language !in init
    requires forall k :: 0 <= k < |init| && Movable(cats, init[k]) ==> Moved(before, cats, init[k], oldKey, newKey, ts)
    requires forall l :: l != language ==> (l in after <==> l in before) && (l in before ==> after[l] == before[l])
    ensures forall k :: 0 <= k < |init| && Movable(cats, init[k]) ==> Moved(after, cats, init[k], oldKey, newKey, ts)
  {
    forall k | 0 <= k < |init| && Movable(cats, init[k])
      ensures Moved(after, cats, init[k], oldKey, newKey, ts)
    {
      assert init[k] != language;
      assert after[init[k]] == before[init[k]];
    }
  }

  /** The language just moved, not touched by the loop before, is moved with
      respect to the catalogs `cats` it started from. */
  lemma {:induction false} MovedNew(cats: map<string, Json>, language: string, oldKey: string, newKey: string,
                                    ts: Option<seq<Translation>>, before: map<string, Json>, after: map<string, Json>)
    requires (language in before <==> language in cats) && (language in cats ==> before[language] == cats[language])
    requires Movable(before, language) ==> Moved(after, before, language, oldKey, newKey, ts)
    ensures Movable(cats, language) ==> Moved(after, cats, language, oldKey, newKey, ts)
  {
    assert TranslationPersister.WithDefault(before, language)[language] == TranslationPersister.WithDefault(cats, language)[language];
  }

  /** A successful move of one language: the item has one translation in
      it; the new key holds the item's text when it has one; and when the
      catalog was missing or an object, the old key and everything below it
      no longer resolve (unless it is the new key), while every other path
      resolves as before. */
  lemma {:induction false} MoveOneLookup(cats: map<string, Json>, language: string, oldKey: string, newKey: string,
                                         ts: Option<seq<Translation>>)
    requires MoveOne(cats, language, oldKey, newKey, ts).0.Success?
    ensures var after := MoveOne(cats, language, oldKey, newKey, ts).1;
      && SingleText(ts, language).Success? && language in after
      && (SingleText(ts, language).value.Some? ==>
            Lookup(after[language], Split(newKey, '.')) == SingleText(ts, language).value)
      && (Movable(cats, language) ==> Moved(after, cats, language, oldKey, newKey, ts))
  {
    var afterRemove := TranslationPersister.Remove(cats, language, oldKey).1;
    var text := SingleText(ts, language).value;
    if text.Some? {
      TranslationPersister.SaveThenLookup(afterRemove, language, newKey, text.value, Split(newKey, '.'));
    }
    if Movable(cats, language) {
      var after := MoveOne(cats, language, oldKey, newKey, ts).1;
      forall q
        ensures Lookup(after[language], q) == MovedLookup(cats, language, oldKey, newKey, text, q)
      {
        TranslationPersister.RemoveThenLookupCatalog(cats, language, oldKey, q);
        if text.Some? {
          TranslationPersister.SaveThenLookup(afterRemove, language, newKey, text.value, q);
        } else {
          TranslationPersister.SaveNullText(afterRemove, language, newKey);
        }
      }
    }
  }
}
