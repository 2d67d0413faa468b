# NgLocalizer, modelled in Dafny

NgLocalizer is a desktop tool for the translation catalogs of an Angular
application. It scans the application's source folder for key usages and
builds one tree out of them. Markup files are scanned for
`'key' | translate`, and script files for
`translateService.instant('key')` / `translateService.get('key')`. The
tree's folder nodes follow the source folders, and its text nodes are the
keys of each file. Each text node carries its usages and, from every
language's JSON catalog, its translation. Through that tree the tool:

- edits and saves translations;
- renames keys, both in the source file and in every catalog;
- derives default key names from folder namespaces;
- searches the tree;
- shows a code preview of each usage;
- opens the editor at a usage.

The model has one module per core source file, plus shared modules:

| module | what it holds |
|---|---|
| `Wrappers` | `Option` for a nullable reference, `Result` for a call that may throw |
| `Text` | the .NET string operations the core relies on |
| `Usages` | the `TokenUsage` and `Translation` records |
| `Files` | the file system as the core sees it |
| `Sorting` | the stable sort behind LINQ's `OrderBy` / `ThenBy` |

The file system is a value:

- a directory listing;
- the text of each readable source file, by full path;
- the JSON tree of each language's catalog file.

A file that cannot be read is a path with no entry. Exceptions the code
throws or catches become `Result` failures.

The tree that the extractor builds and the window shows is an `Item` value.
An item is named by its path from the root. The in-place changes of the
source are modelled this way:

- **Node flags.** A change made through an item's parent pointer becomes a
  change at a path.
- **Objects with mutable state** become classes whose methods carry the
  source's loops and are proved against specification functions: the
  extractor, a folder scan, a code-preview view and its stream, and the
  main window's shared state.

Behaviour of the code worth knowing:

- **Script-scanner keys.** The key pattern's lazy `.*?` cannot let a key
  contain `'`. The key ends at the first quote that has a `)` later on its
  line. It is shown that no later quote can then have one.
- **The walk towards "NEW" keys.** It descends into every item that is not
  a text item keyed "NEW", text items included.
- **Conflict detection on rename.** A catalog conflict during a rename is
  detected after the source file has been rewritten and the old key
  removed.
- **Folder order.** Folders come before files, because of
  `OrderBy(!IsFolder)`.

## Model

| member | source | states |
|---|---|---|
| TypeScriptParser.KeyStart | NgLocalizer/NgLocalizer/Parsing/TypeScriptParser.cs:10 | a match attempt at `i` puts the key after the call opening, inside the text |
| TypeScriptParser.KeyStartOpening | NgLocalizer/NgLocalizer/Parsing/TypeScriptParser.cs:10 | the text before a key ends with `translateService.instant('` or `translateService.get('` |
| TypeScriptParser.LineEndFirst | NgLocalizer/NgLocalizer/Parsing/TypeScriptParser.cs:10 | `.` does not cross a line feed: the line end is the first line feed from the key on, or the end of the text |
| TypeScriptParser.FirstParenFirst | NgLocalizer/NgLocalizer/Parsing/TypeScriptParser.cs:10 | the lazy `.*?\)` stops at the first `)` of the line; none is found only when the line has none |
| TypeScriptParser.KeyEnd | NgLocalizer/NgLocalizer/Parsing/TypeScriptParser.cs:10 | the lazy key ends at a `'` that has a `)` after it on the same line |
| TypeScriptParser.KeyEndFirst | NgLocalizer/NgLocalizer/Parsing/TypeScriptParser.cs:10 | the key ends at the first such quote: no earlier quote has a `)` after it on the line |
| TypeScriptParser.KeyHasNoQuote | NgLocalizer/NgLocalizer/Parsing/TypeScriptParser.cs:10 | a key never holds a `'` |
| TypeScriptParser.MatchAt | NgLocalizer/NgLocalizer/Parsing/TypeScriptParser.cs:10 | a match found at `i` starts after `i`, and its key span lies strictly inside it and inside the text |
| TypeScriptParser.MatchOk | NgLocalizer/NgLocalizer/Parsing/TypeScriptParser.cs:17-25 | each match gives a usage whose token is exactly its span, preceded by a call opening and followed by `'` and a later `)` on the same line |
| TypeScriptParser.ScanOk | NgLocalizer/NgLocalizer/Parsing/TypeScriptParser.cs:17-26 | every usage of the match sequence is such a well-formed span |
| TypeScriptParser.ScanOrdered | NgLocalizer/NgLocalizer/Parsing/TypeScriptParser.cs:17-26 | the usages found from `i` start after `i` and come in ascending order, without overlapping |
| TypeScriptParser.ParseFileOk | NgLocalizer/NgLocalizer/Parsing/TypeScriptParser.cs:14-27 | on the text with carriage returns made spaces, every usage is well formed and the usages are ascending |
| HtmlParser.SkipWhiteSpaceRun | NgLocalizer/NgLocalizer/Parsing/HtmlParser.cs:11 | `\s*` takes the whole white-space run after the pipe |
| HtmlParser.RunEndRun | NgLocalizer/NgLocalizer/Parsing/HtmlParser.cs:11 | `[^{"]*` takes the whole run of characters that are neither `{` nor `"` |
| HtmlParser.MatchEnd | NgLocalizer/NgLocalizer/Parsing/HtmlParser.cs:11 | a match ends after its pipe, inside the text |
| HtmlParser.LastPipeLast | NgLocalizer/NgLocalizer/Parsing/HtmlParser.cs:11 | the greedy code group backs off to the last `\| translate` inside the run, and finds none only when the run has none |
| HtmlParser.CodeEndLast | NgLocalizer/NgLocalizer/Parsing/HtmlParser.cs:11 | the code group from `i` is code characters up to the last pipe of the run that is followed by `translate` |
| HtmlParser.CloseQuoteFirst | NgLocalizer/NgLocalizer/Parsing/HtmlParser.cs:12 | the lazy `'(?<key>.*?)'` closes at the first quote on the line, and fails when a line feed comes first |
| HtmlParser.LiteralOk | NgLocalizer/NgLocalizer/Parsing/HtmlParser.cs:12 | a literal found gives the span strictly between its quotes, with no quote or line feed inside |
| HtmlParser.KeyUsagesOk | NgLocalizer/NgLocalizer/Parsing/HtmlParser.cs:21-30 | the literals of a code group are quoted spans inside it, ascending |
| HtmlParser.GroupOk | NgLocalizer/NgLocalizer/Parsing/HtmlParser.cs:19-30 | the usages of a code group carry file offsets (group index plus key index) that lie inside the group and before its pipe |
| HtmlParser.ScanOk | NgLocalizer/NgLocalizer/Parsing/HtmlParser.cs:19-31 | every usage of the match sequence is a quoted span inside a code group followed by `\| translate`, and the usages are ascending |
| HtmlParser.ParseFileOk | NgLocalizer/NgLocalizer/Parsing/HtmlParser.cs:16-32 | on the text with carriage returns made spaces, every usage is well formed and the usages are ascending |
| HtmlParser.NormalisationKeepsOffsets | NgLocalizer/NgLocalizer/Parsing/HtmlParser.cs:18-19 | replacing carriage returns keeps the length and every other character, so offsets found in the normalised text are offsets in the file |
| TokenUsageExtractor.Picked | NgLocalizer/NgLocalizer.CLI/TokenUsageExtractor.cs:31-34 | the files of one parser's mask, each paired with that parser, in order |
| TokenUsageExtractor.Extractor.Extract | NgLocalizer/NgLocalizer.CLI/TokenUsageExtractor.cs:10-13 | the scan of the source folder equals the recursive folder definition and, equally, the concatenation over the flat pre-order list of (parser, file) pairs |
| TokenUsageExtractor.Extractor.ProcessFolder | NgLocalizer/NgLocalizer.CLI/TokenUsageExtractor.cs:15-23 | the folder's own files first, then each subfolder's usages appended in order; the first unreadable file ends the scan |
| TokenUsageExtractor.Extractor.ProcessSubFolder | NgLocalizer/NgLocalizer.CLI/TokenUsageExtractor.cs:45-48 | the subfolder's usages appended to the list, or its failure |
| TokenUsageExtractor.Extractor.ParseAllFilesInFolder | NgLocalizer/NgLocalizer.CLI/TokenUsageExtractor.cs:25-38 | the usages of the folder's files, parser by parser (markup first, then script), each parser's files in listing order |
| TokenUsageExtractor.Extractor.GetUsagesOfFiles | NgLocalizer/NgLocalizer.CLI/TokenUsageExtractor.cs:31-34 | the usages of the files in order; the first unreadable file is the failure |
| TokenUsageExtractor.FilesUsagesSticks | NgLocalizer/NgLocalizer.CLI/TokenUsageExtractor.cs:31-34 | once a file fails, the rest of the files cannot change the outcome |
| TokenUsageExtractor.ParsersUsagesSticks | NgLocalizer/NgLocalizer.CLI/TokenUsageExtractor.cs:29-35 | once a parser's files fail, the later parsers cannot change the outcome |
| TokenUsageExtractor.ThenAssoc | NgLocalizer/NgLocalizer.CLI/TokenUsageExtractor.cs:33 | appending usage lists, with a failure absorbing, is associative |
| TokenUsageExtractor.ConcatenatedAppend | NgLocalizer/NgLocalizer.CLI/TokenUsageExtractor.cs:33 | the usages of two file lists one after the other are those of the joined list |
| TokenUsageExtractor.FilesUsagesFlat | NgLocalizer/NgLocalizer.CLI/TokenUsageExtractor.cs:31-34 | one parser's loop equals the flat concatenation over its (parser, file) pairs |
| TokenUsageExtractor.ParsersUsagesFlat | NgLocalizer/NgLocalizer.CLI/TokenUsageExtractor.cs:25-38 | the loop over the parsers equals the flat concatenation over all their pairs |
| TokenUsageExtractor.FolderUsagesFlat | NgLocalizer/NgLocalizer.CLI/TokenUsageExtractor.cs:15-23 | the recursive folder scan equals the concatenation over the folder's pre-order (parser, file) list |
| TokenUsageExtractor.SubfoldersUsagesFlat | NgLocalizer/NgLocalizer.CLI/TokenUsageExtractor.cs:19-20 | the subfolder loop from an accumulated list equals appending the subfolders' flat concatenation |
| TokenUsageExtractor.ConcatenatedLength | NgLocalizer/NgLocalizer.CLI/TokenUsageExtractor.cs:10-13 | when every file is readable the scan succeeds, with as many usages as the files' parses together |
| TokenUsageExtractor.ConcatenatedFailure | NgLocalizer/NgLocalizer.CLI/TokenUsageExtractor.cs:10-13 | the scan fails exactly when some listed file is unreadable, and then names the first such file |
| TextItemExtractor.Tokens | NgLocalizer/NgLocalizer/Parsing/TextItemExtractor.cs:157 | the group keys of `GroupBy(usage => usage.Token)`: distinct, each the token of some usage, and every usage's token among them |
| TextItemExtractor.UsagesOf | NgLocalizer/NgLocalizer/Parsing/TextItemExtractor.cs:161 | a group holds only usages of its own token, taken from the file's usages |
| TextItemExtractor.Extractor.AddSingleRootParent | NgLocalizer/NgLocalizer/Parsing/TextItemExtractor.cs:56-69 | the root is keyed `root`, is neither a folder nor a text item, and has the top-level items as its children |
| TextItemExtractor.Extractor.constructor | NgLocalizer/NgLocalizer/Parsing/TextItemExtractor.cs:24-29 | no catalogs loaded, no folders counted, no progress reported, the markup parser before the script parser |
| TextItemExtractor.Extractor.Extract | NgLocalizer/NgLocalizer/Parsing/TextItemExtractor.cs:31-54 | progress 0 is reported first; a catalog failure ends the extraction before any folder is scanned; otherwise the folders are counted, the tree is the post-processed folder tree under a new root, and progress 1 is reported last, after one report per finished folder, whether or not a file failed |
| TextItemExtractor.Extractor.PostProcessItems | NgLocalizer/NgLocalizer/Parsing/TextItemExtractor.cs:71-85 | the loop gives the recursive post-processing of every item with its ancestors |
| TextItemExtractor.Extractor.LoadTranslationFiles | NgLocalizer/NgLocalizer/Parsing/TextItemExtractor.cs:87-97 | the catalogs and the catalog files are those of loading the languages in order |
| TextItemExtractor.Extractor.BuildTranslationsFor | NgLocalizer/NgLocalizer/Parsing/TextItemExtractor.cs:168-198 | the loop over languages and path parts gives each catalog's value at the key's path |
| TextItemExtractor.Extractor.ConvertToTextTreeItems | NgLocalizer/NgLocalizer/Parsing/TextItemExtractor.cs:155-166 | one text item per token group, in order of first occurrence |
| TextItemExtractor.Extractor.GetTreeItemsFromFile | NgLocalizer/NgLocalizer/Parsing/TextItemExtractor.cs:134-153 | the file item with its text items, nothing when the file has no usages, a failure when it cannot be read |
| TextItemExtractor.Extractor.ParseAllFilesInFolder | NgLocalizer/NgLocalizer/Parsing/TextItemExtractor.cs:119-132 | the file items of the folder, parser by parser, each parser's files in listing order |
| TextItemExtractor.Extractor.ParseFilesWith | NgLocalizer/NgLocalizer/Parsing/TextItemExtractor.cs:125-128 | the file items of one parser's files in order; the first unreadable file is the failure |
| TextItemExtractor.Extractor.ProcessFolder | NgLocalizer/NgLocalizer/Parsing/TextItemExtractor.cs:104-117 | the folder's items, then its non-empty subfolders, sorted folders first and then by key; on success every folder of the subtree is reported done in increasing fractions |
| TextItemExtractor.Extractor.FolderDone | NgLocalizer/NgLocalizer/Parsing/TextItemExtractor.cs:111-112 | one more folder done, reported as the fraction of all folders |
| TextItemExtractor.Extractor.ProcessSubFolders | NgLocalizer/NgLocalizer/Parsing/TextItemExtractor.cs:108-109 | the subfolders' items appended in order, with their folders reported done |
| TextItemExtractor.Extractor.ProcessSubFolder | NgLocalizer/NgLocalizer/Parsing/TextItemExtractor.cs:200-216 | a folder item holding the subfolder's items is appended only when it has any |
| TextItemExtractor.PostProcessedAllAt | NgLocalizer/NgLocalizer/Parsing/TextItemExtractor.cs:73-84 | each item is post-processed on its own, with the same ancestors |
| TextItemExtractor.LoadAllSticks | NgLocalizer/NgLocalizer/Parsing/TextItemExtractor.cs:90-94 | once a catalog fails to load, the later languages change nothing |
| TextItemExtractor.FilesItemsSticks | NgLocalizer/NgLocalizer/Parsing/TextItemExtractor.cs:125-128 | once a file fails, the later files change nothing |
| TextItemExtractor.ParsersItemsSticks | NgLocalizer/NgLocalizer/Parsing/TextItemExtractor.cs:123-129 | once a parser's files fail, the later parsers change nothing |
| TextItemExtractor.FolderItemsSplit | NgLocalizer/NgLocalizer/Parsing/TextItemExtractor.cs:104-117 | a folder's items are its files' items followed by its subfolders', sorted; a folder counts itself and its subfolders |
| TextItemExtractor.LoadAllOk | NgLocalizer/NgLocalizer/Parsing/TextItemExtractor.cs:87-97 | loading keeps every existing catalog file and creates only empty ones for missing languages; it succeeds exactly when the languages are distinct and every existing file holds an object or `null`, and then gives one catalog per language, in order, equal to its file (a `null` file gives a null set) |
| TextItemExtractor.GroupSizesPartition | NgLocalizer/NgLocalizer/Parsing/TextItemExtractor.cs:157 | the groups partition the usages: their sizes add up to the number of usages |
| TextItemExtractor.TextItemFields | NgLocalizer/NgLocalizer/Parsing/TextItemExtractor.cs:158-165 | a text item has the token as key, no children, the file's name, its group's usages and the translations of its key |
| TextItemExtractor.TextItemsGroups | NgLocalizer/NgLocalizer/Parsing/TextItemExtractor.cs:155-166 | the text items have distinct keys, each with a non-empty group of its own usages, and every usage belongs to one of them |
| TextItemExtractor.SiblingOrder | NgLocalizer/NgLocalizer/Parsing/TextItemExtractor.cs:115 | folders-first-then-key is a total preorder |
| TextItemExtractor.FolderItemsSorted | NgLocalizer/NgLocalizer/Parsing/TextItemExtractor.cs:114-116 | a folder's items are sorted, with every folder before every file |
| TextItemExtractor.FileItemsRetained | NgLocalizer/NgLocalizer/Parsing/TextItemExtractor.cs:148-152 | a file item is produced only with a non-empty list of text items |
| TextItemExtractor.FolderItemsRetained | NgLocalizer/NgLocalizer/Parsing/TextItemExtractor.cs:210-215 | every folder and file item of the tree has children, and text items have none |
| TextItemExtractor.ProgressReports | NgLocalizer/NgLocalizer/Parsing/TextItemExtractor.cs:35-47 | the reports start at 0, end at 1, never decrease and stay within 0 and 1; the last folder's report is 1 |
| TextItemExtractor.PostProcessedAt | NgLocalizer/NgLocalizer/Parsing/TextItemExtractor.cs:71-85 | post-processing changes only the default-key flag of each node not below a valid text item |
| TextItemExtractor.ExtractedFlags | NgLocalizer/NgLocalizer/Parsing/TextItemExtractor.cs:71-85 | in the extracted tree, every node's default-key flag is the key-prefix test for a valid text item and true otherwise |
| TokenRenamer.BeginOrder | NgLocalizer/NgLocalizer/TokenRenamer.cs:62 | ordering usages by start is a total preorder, so the sort is well defined |
| TokenRenamer.Bound | NgLocalizer/NgLocalizer/TokenRenamer.cs:51-55 | the part of the text the spans from `j` on leave untouched ends inside the text and after span `j - 1` |
| TokenRenamer.OfLanguage | NgLocalizer/NgLocalizer/TokenRenamer.cs:39 | the filter keeps only translations of the language, taken from the list |
| TokenRenamer.Rename | NgLocalizer/NgLocalizer/TokenRenamer.cs:26-43 | an item without a source file changes nothing; otherwise the source file is validated and spliced, then every language's entry moves from the old key to the new with the item's text, then the item takes the new key; each failure leaves the earlier writes in place (where each key then resolves is stated by `TokenRenamer.RenameMovesCatalogs`) |
| TokenRenamer.MoveTranslations | NgLocalizer/NgLocalizer/TokenRenamer.cs:36-40 | per language in order, the old key is removed and the new key saved with the language's single translation; the first error stops the loop (the resulting lookups are stated by `TokenRenamer.MoveAllLookups`) |
| TokenRenamer.RenameAllTokenUsages | NgLocalizer/NgLocalizer/TokenRenamer.cs:45-57 | an unreadable file, a missing usage list or a failed validation writes nothing; otherwise the file is written with every span replaced |
| TokenRenamer.ValidateRename | NgLocalizer/NgLocalizer/TokenRenamer.cs:59-75 | the overlap loop with the previous span's last index, then the staleness loop, give the validation outcome |
| TokenRenamer.SpliceBackToFront | NgLocalizer/NgLocalizer/TokenRenamer.cs:51-55 | removing and inserting from the last span to the first gives the text with every span replaced, read front to back |
| TokenRenamer.FirstStaleNone | NgLocalizer/NgLocalizer/TokenRenamer.cs:69-74 | the staleness check passes exactly when every span lies in the text and holds the key |
| TokenRenamer.ValidationOk | NgLocalizer/NgLocalizer/TokenRenamer.cs:59-75 | validation succeeds exactly when the spans sorted by start do not overlap and every span holds the old key |
| TokenRenamer.ValidationSpliceable | NgLocalizer/NgLocalizer/TokenRenamer.cs:49-55 | after a successful validation the sorted spans can be replaced |
| TokenRenamer.SortedSpansHoldKey | NgLocalizer/NgLocalizer/TokenRenamer.cs:51 | sorting the spans keeps every span holding the key |
| TokenRenamer.MoveAllSticks | NgLocalizer/NgLocalizer/TokenRenamer.cs:36-40 | once a language fails, the later languages change nothing |
| TokenRenamer.ReplaceFromLength | NgLocalizer/NgLocalizer/TokenRenamer.cs:51-55 | replacing spans of one length changes the text's length by the difference times the number of spans |
| TokenRenamer.ReplaceFromIdentity | NgLocalizer/NgLocalizer/TokenRenamer.cs:51-55 | renaming to a key the spans already hold leaves the text unchanged |
| TokenRenamer.RenameSplices | NgLocalizer/NgLocalizer/TokenRenamer.cs:45-57 | a successful splice writes the file with every sorted span replaced, its length changed by the usage count times the key-length difference, whatever the catalogs then do |
| TokenRenamer.SpliceRoundTrip | NgLocalizer/NgLocalizer/TokenRenamer.cs:51-55 | for any ordered, non-overlapping spans that all hold the old key, the spans moved into the spliced text hold the new key and can be spliced in turn, and splicing them with the old key gives the original text back |
| TokenRenamer.RenameUndoable | NgLocalizer/NgLocalizer/TokenRenamer.cs:45-75 | after a rename that passed validation, the item's usages moved to where the new key now stands hold the new key, and renaming them back to the old key restores the old source file |
| TokenRenamer.RenameFailsEarly | NgLocalizer/NgLocalizer/TokenRenamer.cs:28-34 | a missing source file or a failed splice fails the rename with no file written |
| TokenRenamer.MoveOneFrame | NgLocalizer/NgLocalizer/TokenRenamer.cs:38-39 | moving one language's entry touches only that language's catalog file, and leaves it existing |
| TokenRenamer.MoveOneLookup | NgLocalizer/NgLocalizer/TokenRenamer.cs:38-39 | after a successful move the item has one translation in the language and, when it has a text, the new key's path in the catalog holds it; when the catalog was missing or an object, the old key and every path below it no longer resolve, except the new key itself when there is a text; a null text leaves only that removal; and every other path of the language resolves as before |
| TokenRenamer.MoveAllLookups | NgLocalizer/NgLocalizer/TokenRenamer.cs:36-40 | after a successful loop over distinct languages, every language's catalog holds the item's text at the new key; in every catalog that was missing or an object, the old key and everything below it no longer resolve and every other path resolves as before; the other catalogs are untouched |
| TokenRenamer.RenameMovesCatalogs | NgLocalizer/NgLocalizer/TokenRenamer.cs:26-43 | a successful rename over distinct languages has spliced the source file and gives the item with the new key; in every language's catalog that was missing or an object the new key holds the item's text, the old key and its subtree no longer resolve, and every other path resolves as before; the other catalogs are unchanged |
| TranslationPersister.WithDefault | NgLocalizer/NgLocalizer/TranslationPersister.cs:18-22 | after loading, the language's file exists; the other files are as before; a missing file is an empty object |
| TranslationPersister.LoadTranslationSet | NgLocalizer/NgLocalizer/TranslationPersister.cs:18-25 | a missing file is created as `{ }`, and the file's object is returned, the null set when the file holds `null`, or a failure when it holds anything else |
| TranslationPersister.SaveTranslationText | NgLocalizer/NgLocalizer/TranslationPersister.cs:33-38 | the set is loaded, the node set and the set written back; a failing `SetNode` writes nothing beyond the default file |
| TranslationPersister.RemoveTranslationText | NgLocalizer/NgLocalizer/TranslationPersister.cs:113-119 | the set is loaded, the key path removed with its emptied parents, and the set written back |
| TranslationPersister.InsertPosition | NgLocalizer/NgLocalizer/TranslationPersister.cs:96-105 | the loop stops at the first sibling whose lower-cased name compares greater, or at the end |
| TranslationPersister.SortedInsertProperty | NgLocalizer/NgLocalizer/TranslationPersister.cs:94-106 | the new property goes in just before that sibling |
| TranslationPersister.SetNode | NgLocalizer/NgLocalizer/TranslationPersister.cs:43-92 | the cursor loop, with frames standing for the shared objects it walks through, gives the recursive path-setting definition |
| TranslationPersister.EnterProperty | NgLocalizer/NgLocalizer/TranslationPersister.cs:57-80 | entering a segment fails exactly when it is the last segment's text and exists without holding a value; otherwise the cursor moves into the existing or newly inserted property |
| TranslationPersister.RemoveLeafAndClean | NgLocalizer/NgLocalizer/TranslationPersister.cs:121-148 | the recursive walk gives the pruning removal on the remaining path segments |
| TranslationPersister.SaveNullText | NgLocalizer/NgLocalizer/TranslationPersister.cs:45-46 | saving a null text to an object or a null set succeeds and changes nothing beyond creating a missing file |
| TranslationPersister.SaveFailureKeepsCatalogs | NgLocalizer/NgLocalizer/TranslationPersister.cs:33-38 | a failed save leaves every catalog as loaded |
| TranslationPersister.SaveThenLookup | NgLocalizer/NgLocalizer/TranslationPersister.cs:33-38 | after a successful save the key resolves to the text in that language, every other path as before, and the other languages are unchanged |
| TranslationPersister.RemoveThenLookupCatalog | NgLocalizer/NgLocalizer/TranslationPersister.cs:113-119 | after a removal from a catalog that is missing or a well-formed object, the key and every path below it no longer resolve, every other path resolves as before, and the other languages are unchanged |
| TranslationPersister.NullSetKept | NgLocalizer/NgLocalizer/TranslationPersister.cs:113-127 | a file holding `null` is never changed: removing any key fails on the non-object set, and saving succeeds exactly for a null text |
| TranslationPersister.SetOnNull | NgLocalizer/NgLocalizer/TranslationPersister.cs:43-88 | on a null set, a null text is a no-op success; a text fails because of a blank first segment exactly when that segment is blank, and otherwise because the set is not an object |
| TranslationPersister.Loaded | NgLocalizer/NgLocalizer/TranslationPersister.cs:18-25 | the file's content loads exactly when it is an object or `null`, giving the object's properties or the null set |
| TranslationPersister.SaveFrame | NgLocalizer/NgLocalizer/TranslationPersister.cs:33-38 | a save touches only its own language's file |
| TranslationPersister.RemoveFrame | NgLocalizer/NgLocalizer/TranslationPersister.cs:113-119 | a removal touches only its own language's file |
| Catalog.Find | NgLocalizer/NgLocalizer/TranslationPersister.cs:59 | the index of the first property with the name, or -1 when none has it |
| Catalog.ChildFound | NgLocalizer/NgLocalizer/Parsing/TextItemExtractor.cs:178 | a child exists exactly when some property has the name |
| Catalog.Lookup | NgLocalizer/NgLocalizer/Parsing/TextItemExtractor.cs:171-193 | a text is found only on a non-empty path or at a scalar |
| Catalog.InsertPos | NgLocalizer/NgLocalizer/TranslationPersister.cs:96-105 | every sibling before the position is not greater than the name, and the sibling at it is |
| Catalog.SetNode | NgLocalizer/NgLocalizer/TranslationPersister.cs:45-46 | a null text leaves the set as it is |
| Catalog.SetThenLookup | NgLocalizer/NgLocalizer/TranslationPersister.cs:48-91 | after setting a path, that path resolves to the text and every other path as before |
| Catalog.SetNodeThenLookup | NgLocalizer/NgLocalizer/TranslationPersister.cs:43-92 | after a successful `SetNode` the key's dot-separated path resolves to the text |
| Catalog.BlankSegmentFails | NgLocalizer/NgLocalizer/TranslationPersister.cs:54-55 | a key with an empty or white-space segment is refused |
| Catalog.RepeatedLastSegmentFails | NgLocalizer/NgLocalizer/TranslationPersister.cs:63-71 | a key whose last segment's text also appears earlier is refused, because that earlier segment is taken for the leaf |
| Catalog.SetSucceedsIff | NgLocalizer/NgLocalizer/TranslationPersister.cs:48-91 | setting succeeds exactly when every segment is non-blank, the last segment's text appears nowhere earlier, every inner segment is an object or missing, and the leaf is a scalar or missing |
| Catalog.ExistingLeafUpdatedInPlace | NgLocalizer/NgLocalizer/TranslationPersister.cs:63-68 | an existing value is overwritten at its place, without moving it |
| Catalog.SortedInsertSorted | NgLocalizer/NgLocalizer/TranslationPersister.cs:94-106 | sorted insertion keeps siblings in case-insensitive order |
| Catalog.SortedInsertDistinct | NgLocalizer/NgLocalizer/TranslationPersister.cs:94-106 | inserting a missing name keeps sibling names distinct |
| Catalog.SetPathKeepsShape | NgLocalizer/NgLocalizer/TranslationPersister.cs:48-91 | setting keeps every object's siblings sorted and their names distinct |
| Catalog.RemoveThenLookup | NgLocalizer/NgLocalizer/TranslationPersister.cs:121-148 | after removal the path and every path below it resolve to nothing, every other path as before |
| Catalog.RemoveKeepsShape | NgLocalizer/NgLocalizer/TranslationPersister.cs:121-148 | removal keeps sibling order, distinct names and the absence of empty objects below the root |
| Catalog.RemoveOnlyChild | NgLocalizer/NgLocalizer/TranslationPersister.cs:129-145 | for any catalog whose property `parts[0]` is a chain of single-property objects spelling out the rest of the key path, removing the key path deletes `parts[0]` itself: every ancestor the removal leaves empty is pruned, up to the first segment |
| TreeItems.NewItem | NgLocalizer/NgLocalizer/ViewModels/TreeItem.cs:21-25 | a new item has its key, no children, is no folder, and has no translations, usages or source file |
| TreeItems.AtAppend | NgLocalizer/NgLocalizer/ViewModels/TreeItem.cs:116 | a path extended by `k` names an item exactly when `k` indexes the children, and then names that child |
| TreeItems.PrefixValid | NgLocalizer/NgLocalizer/ViewModels/TreeItem.cs:60 | every prefix of a path names an item: the chain of parents |
| TreeItems.ReplaceAt | NgLocalizer/NgLocalizer/ViewModels/TreeItem.cs:116 | changing one node's own fields keeps every path and changes only that node |
| TreeItems.PosBound | NgLocalizer/NgLocalizer/ViewModels/TreeItem.cs:205-221 | an item's pre-order position lies within the tree |
| TreeItems.PosInjective | NgLocalizer/NgLocalizer/ViewModels/TreeItem.cs:205-221 | distinct items have distinct pre-order positions |
| TreeItems.PosAppend | NgLocalizer/NgLocalizer/ViewModels/TreeItem.cs:205-221 | child `k` comes right after its parent and the subtrees of the children before it |
| TreeItems.WalkToNext | NgLocalizer/NgLocalizer/ViewModels/TreeItem.cs:205-221 | the walk yields an item of the tree below the root, or null |
| TreeItems.WalkSkipsSubtree | NgLocalizer/NgLocalizer/ViewModels/TreeItem.cs:211-220 | without stepping into children, the walk lands on the first item after the whole subtree, or gives null when the subtree ends the tree |
| TreeItems.WalkIsPreOrderSuccessor | NgLocalizer/NgLocalizer/ViewModels/TreeItem.cs:205-221 | the walk yields the next item in pre-order, and null exactly at the last item |
| TreeItems.ExpandParents | NgLocalizer/NgLocalizer/ViewModels/TreeItem.cs:231-239 | every proper ancestor of the item, the root included, is expanded, and nothing else changes |
| TreeItems.ExpandStep | NgLocalizer/NgLocalizer/ViewModels/TreeItem.cs:234-238 | one turn of the loop moves to the parent and expands it, keeping the invariant |
| TreeItems.SegmentsIffSplit | NgLocalizer/NgLocalizer/ViewModels/TreeItem.cs:11 | the key pattern matches exactly the texts whose dot-separated pieces are all non-empty runs of letters, digits, `-` and `_` |
| TreeItems.Label | NgLocalizer/NgLocalizer/ViewModels/TreeItem.cs:54 | a valid text item under default naming shows its key without the namespace, failing when the key is shorter than the namespace; every other item shows its key |
| TreeItems.HasMissingIff | NgLocalizer/NgLocalizer/ViewModels/TreeItem.cs:118-119 | an item has missing translations exactly when some text item in its subtree has a null or empty text |
| TreeItems.MissingAllIff | NgLocalizer/NgLocalizer/ViewModels/TreeItem.cs:119 | the children's sum is positive exactly when one of their subtrees has a missing text |
| TreeItems.TextCountIff | NgLocalizer/NgLocalizer/ViewModels/TreeItem.cs:162 | an item counts some text exactly when its subtree holds a text item |
| TreeItems.TextCountAllIff | NgLocalizer/NgLocalizer/ViewModels/TreeItem.cs:162 | the children's text count is positive exactly when one of their subtrees holds a text item |
| TreeItems.AddCount | NgLocalizer/NgLocalizer/ViewModels/TreeItem.cs:144-151 | adding to a present language or adding the language raises only its count, keeps the languages distinct and raises the total by the amount |
| TreeItems.MergeCounts | NgLocalizer/NgLocalizer/ViewModels/TreeItem.cs:142-152 | merging a child's table adds its count to every language and its total to the total |
| TreeItems.OwnCountsOk | NgLocalizer/NgLocalizer/ViewModels/TreeItem.cs:135-138 | the item's own table counts, per language, the translations with a null or white-space text |
| TreeItems.PerLanguageCounts | NgLocalizer/NgLocalizer/ViewModels/TreeItem.cs:133-157 | the per-language table is a dictionary whose count for each language is the subtree's blank translations in it, and whose total is all blank translations |
| TreeItems.MergeChildrenCounts | NgLocalizer/NgLocalizer/ViewModels/TreeItem.cs:140-154 | merging the children's tables adds their blank counts, per language and in total |
| TreeItems.MissingBelowBlank | NgLocalizer/NgLocalizer/ViewModels/TreeItem.cs:119 | the missing count (null or empty) never exceeds the per-language total (null or white space) |
| TreeItems.Positive | NgLocalizer/NgLocalizer/ViewModels/TreeItem.cs:125 | exactly the entries with a positive count are kept |
| TreeItems.LanguageOrder | NgLocalizer/NgLocalizer/ViewModels/TreeItem.cs:126 | ordering entries by language is a total preorder |
| TreeItems.FormatEntriesOk | NgLocalizer/NgLocalizer/ViewModels/TreeItem.cs:122-128 | the label lists exactly the entries with a positive count, sorted by language |
| TreeItems.FormatEntriesOnce | NgLocalizer/NgLocalizer/ViewModels/TreeItem.cs:122-128 | each language appears in the label at most once |
| TreeItems.SetTokenUsages | NgLocalizer/NgLocalizer/ViewModels/TreeItem.cs:167-178 | assigning the usages selects the first one (or none) and resets the index to 1, changing nothing else |
| TreeItems.SelectNext | NgLocalizer/NgLocalizer/ViewModels/TreeItem.cs:38-44 | the index moves up unless at the last usage, keeping the selection consistent; a null or empty list fails; nothing else changes |
| TreeItems.SelectPrevious | NgLocalizer/NgLocalizer/ViewModels/TreeItem.cs:46-52 | the index moves down unless at the first usage, keeping the selection consistent; a null or empty list fails; nothing else changes |
| TreeItems.NextThenPrevious | NgLocalizer/NgLocalizer/ViewModels/TreeItem.cs:38-52 | next then previous from below the last usage comes back to the same item |
| TreeSearcher.Index | NgLocalizer/NgLocalizer/TreeSearcher.cs:40-43 | every item below the root has a pre-order index within the count of items |
| TreeSearcher.Successor | NgLocalizer/NgLocalizer/TreeSearcher.cs:40-43 | the next item, wrapping to the first root item after the last one or when there is no current item, is an item below the root |
| TreeSearcher.SuccessorStep | NgLocalizer/NgLocalizer/TreeSearcher.cs:40-43 | a step of the walk adds one to the index, modulo the number of items |
| TreeSearcher.FirstIndex | NgLocalizer/NgLocalizer/TreeSearcher.cs:42 | the first root item has index 0 |
| TreeSearcher.SameIndex | NgLocalizer/NgLocalizer/TreeSearcher.cs:40-43 | two items with the same index are the same item |
| TreeSearcher.StartComesLast | NgLocalizer/NgLocalizer/TreeSearcher.cs:23-36 | counted from the first item visited, the start item is visited last |
| TreeSearcher.FindNext | NgLocalizer/NgLocalizer/TreeSearcher.cs:19-38 | the search lower-cases the text and returns the first matching item in one full cycle after the start, the start included last; null only when no item of the tree matches |
| KeyNameGenerator.Ancestors | NgLocalizer/NgLocalizer/KeyNameGenerator.cs:14-20 | an item has one ancestor per step of its path |
| KeyNameGenerator.AncestorAt | NgLocalizer/NgLocalizer/KeyNameGenerator.cs:15-17 | the `k`-th ancestor, from the root, is the item at the path's prefix of length `k` |
| KeyNameGenerator.GetNamespace | NgLocalizer/NgLocalizer/KeyNameGenerator.cs:10-25 | walking the parent chain up and reversing gives the upper-cased, dot-joined labels of the folder ancestors other than `ROOT`, root first, followed by a dot |
| KeyNameGenerator.ReverseConcat | NgLocalizer/NgLocalizer/KeyNameGenerator.cs:22 | reversing a concatenation reverses and swaps its parts |
| KeyNameGenerator.ReverseTwice | NgLocalizer/NgLocalizer/KeyNameGenerator.cs:22 | reversing twice gives the list back |
| KeyNameGenerator.NamespaceEndsWithDot | NgLocalizer/NgLocalizer/KeyNameGenerator.cs:24 | a namespace always ends with a dot |
| KeyNameGenerator.NamespaceWithoutFolders | NgLocalizer/NgLocalizer/KeyNameGenerator.cs:18-24 | with no naming folder among the ancestors the namespace is `.` |
| KeyNameGenerator.NamespaceIgnoresItem | NgLocalizer/NgLocalizer/KeyNameGenerator.cs:14-20 | changing the item itself does not change its namespace |
| KeyNameGenerator.DefaultKeyName | NgLocalizer/NgLocalizer/KeyNameGenerator.cs:27-39 | a key that starts with the namespace is kept; any proposal starts with the namespace; the proposal fails exactly when the key does not start with the namespace and its last segment is blank |
| KeyNameGenerator.DefaultKeyNameIdempotent | NgLocalizer/NgLocalizer/KeyNameGenerator.cs:27-39 | proposing again from a proposal keeps it |
| KeyNameGenerator.DefaultKeyKeepsLastSegment | NgLocalizer/NgLocalizer/KeyNameGenerator.cs:34-38 | a changed key's last segment is the old key's last segment upper-cased |
| SourcePreviewLoader.FirstLineCut | NgLocalizer/NgLocalizer/SourcePreviewLoader.cs:74-80 | the text after the first line feed when that line feed is not the last character, the text itself otherwise |
| SourcePreviewLoader.FirstLineRemoved | NgLocalizer/NgLocalizer/SourcePreviewLoader.cs:74-80 | the result is a suffix; when something is cut, exactly the first line up to and including its line feed goes, and something is left |
| SourcePreviewLoader.LastLineRemoved | NgLocalizer/NgLocalizer/SourcePreviewLoader.cs:66-72 | the result is a prefix; when something is cut, the cut starts at the last carriage return, which lies beyond index 1 |
| SourcePreviewLoader.LastLineCut | NgLocalizer/NgLocalizer/SourcePreviewLoader.cs:66-72 | the text before the last carriage return when that lies beyond index 1, the text itself otherwise |
| SourcePreviewLoader.ReadCount | NgLocalizer/NgLocalizer/SourcePreviewLoader.cs:43 | a read gets at most what it asks for, never past the end of the file, and all of it when the file is long enough |
| SourcePreviewLoader.Overlay | NgLocalizer/NgLocalizer/SourcePreviewLoader.cs:43 | a read keeps the buffer's size |
| SourcePreviewLoader.Stream.constructor | NgLocalizer/NgLocalizer/SourcePreviewLoader.cs:21 | a stream on the file's content, at position 0 |
| SourcePreviewLoader.Stream.Seek | NgLocalizer/NgLocalizer/SourcePreviewLoader.cs:42 | the position is the offset |
| SourcePreviewLoader.Stream.Read | NgLocalizer/NgLocalizer/SourcePreviewLoader.cs:43-55 | a negative count or one past the buffer fails and changes nothing; otherwise the bytes that are left, up to the count, overwrite the start of the buffer and advance the position |
| SourcePreviewLoader.Copy | NgLocalizer/NgLocalizer/SourcePreviewLoader.cs:43 | the loop overwrites the first `n` places of the buffer with the file's bytes |
| SourcePreviewLoader.BeforeLength | NgLocalizer/NgLocalizer/SourcePreviewLoader.cs:39-41 | the window before the key is 300 bytes, or the whole text before the key when that is shorter |
| SourcePreviewLoader.AfterLength | NgLocalizer/NgLocalizer/SourcePreviewLoader.cs:52-54 | the window after the key is 300 bytes, or what is left of the file when that is shorter |
| SourcePreviewLoader.ReadInFile | NgLocalizer/NgLocalizer/SourcePreviewLoader.cs:43 | a read inside the file puts exactly the requested bytes at the buffer's start |
| SourcePreviewLoader.CodeView.constructor | NgLocalizer/NgLocalizer/ViewModels/TokenUsage.cs:6-8 | a usage starts with no preview texts |
| SourcePreviewLoader.LoadTokenUsageCodePreview | NgLocalizer/NgLocalizer/SourcePreviewLoader.cs:30-64 | the three preview fields become those of the specification, read from a fresh 300-byte buffer |
| SourcePreviewLoader.ReadWindow | NgLocalizer/NgLocalizer/SourcePreviewLoader.cs:34-57 | seek, read of the window before the key, then the key and the window after it, from any buffer |
| SourcePreviewLoader.ReadKey | NgLocalizer/NgLocalizer/SourcePreviewLoader.cs:48-57 | a key longer than the buffer throws, caught into the before-key field; otherwise the key is read, then the window after it |
| SourcePreviewLoader.ReadAfter | NgLocalizer/NgLocalizer/SourcePreviewLoader.cs:52-57 | a negative remaining length throws, caught into the before-key field; otherwise the window after the key without its last incomplete line |
| SourcePreviewLoader.LoadSourceCodePreview | NgLocalizer/NgLocalizer/SourcePreviewLoader.cs:15-28 | an item that is not a text item changes nothing; a missing or unreadable file fails with nothing changed; otherwise every usage gets its preview, in order, through one stream |
| SourcePreviewLoader.LoadUsages | NgLocalizer/NgLocalizer/SourcePreviewLoader.cs:23-26 | each usage's fields become its preview; the shared stream does not change what the next usage sees |
| SourcePreviewLoader.FieldsOf | NgLocalizer/NgLocalizer/SourcePreviewLoader.cs:23-26 | the fields of each view, in order |
| SourcePreviewLoader.PreviewInFile | NgLocalizer/NgLocalizer/SourcePreviewLoader.cs:30-64 | for a usage inside the file with a key no longer than the buffer, nothing is thrown and the preview is the text just around the key, whatever the fields held before |
| SourcePreviewLoader.FromInFile | NgLocalizer/NgLocalizer/SourcePreviewLoader.cs:34-57 | the same preview from any buffer: stale buffer bytes never show |
| SourcePreviewLoader.KeyInFile | NgLocalizer/NgLocalizer/SourcePreviewLoader.cs:48-57 | reading from the key's start gives the key's own span and the window after it |
| SourcePreviewLoader.AfterInFile | NgLocalizer/NgLocalizer/SourcePreviewLoader.cs:52-57 | the window after a key inside the file is the file's next bytes |
| SourcePreviewLoader.PreviewLongKey | NgLocalizer/NgLocalizer/SourcePreviewLoader.cs:48-63 | a key longer than 300 bytes makes the read throw; the error lands in the before-key field and the other fields keep their values |
| EditAppIntegration.Buffer | NgLocalizer/NgLocalizer/EditAppIntegration.cs:80-81 | the buffer holds the file's first bytes, and zero bytes past the end of the file |
| EditAppIntegration.GetLineInfo | NgLocalizer/NgLocalizer/EditAppIntegration.cs:70-94 | no usage gives line 1, column 1; otherwise the line is one more than the carriage returns before the usage's start, and the column is the start plus one with none, or the distance past the last carriage return less one |
| EditAppIntegration.GetFirstUsageLineInfo | NgLocalizer/NgLocalizer/EditAppIntegration.cs:64-68 | the place of the first usage, or line 1, column 1 when the list is null or empty |
| EditAppIntegration.FirstUsage | NgLocalizer/NgLocalizer/EditAppIntegration.cs:66 | a usage exactly when the list exists and is non-empty, and then its first one |
| EditAppIntegration.GetSourceFile | NgLocalizer/NgLocalizer/EditAppIntegration.cs:45-62 | a path exactly when there is an item with a source file, and then that file |
| EditAppIntegration.LastIndexStep | NgLocalizer/NgLocalizer/EditAppIntegration.cs:84-93 | the last carriage return of a text is its last character when that is one, otherwise the last one before it |
| EditAppIntegration.CountCRConcat | NgLocalizer/NgLocalizer/EditAppIntegration.cs:86-88 | the line count adds up over concatenated text |
| EditAppIntegration.LineInfoOfLines | NgLocalizer/NgLocalizer/EditAppIntegration.cs:82-93 | on text with carriage-return line-feed line ends, a usage after `m` characters of line `n` gets line `n` and column `m + 1` |
| MainWindow.CountKeysInCodeBase | NgLocalizer/NgLocalizer/MainWindow.xaml.cs:357-377 | the loop over the items counts exactly the text items below them with the key, other than the excluded one |
| MainWindow.KeyHereIff | NgLocalizer/NgLocalizer/MainWindow.xaml.cs:357-377 | the count below one item is positive exactly when some path below it reaches a counted text item |
| MainWindow.KeysInIff | NgLocalizer/NgLocalizer/MainWindow.xaml.cs:357-377 | the count over a list is positive exactly when one of its items has a path to a counted text item |
| MainWindow.CountMeansUsed | NgLocalizer/NgLocalizer/MainWindow.xaml.cs:357-377 | the count over the shown items is positive exactly when some other text item of the tree has the key |
| MainWindow.GuardPasses | NgLocalizer/NgLocalizer/MainWindow.xaml.cs:302-335 | a rename goes ahead exactly when the node is a text item whose key is "NEW" or used nowhere else, and the dialog was accepted with a key that is not "NEW" and that no text item has; the new key is the dialog's |
| MainWindow.FirstWithKey | NgLocalizer/NgLocalizer/MainWindow.xaml.cs:190 | the first old item with the key, or none when no old item has it |
| MainWindow.FirstWithKeyFrom | NgLocalizer/NgLocalizer/MainWindow.xaml.cs:190 | the first item from position `i` with the key, or none when none from there has it |
| MainWindow.ApplyUIState | NgLocalizer/NgLocalizer/MainWindow.xaml.cs:184-200 | a missing old list leaves the new items as they are; otherwise each new item takes the flags of the first old item with its key, recursively, and keeps its own when there is none |
| MainWindow.CarriedShape | NgLocalizer/NgLocalizer/MainWindow.xaml.cs:184-200 | copying the flags changes nothing but the flags of one item and its descendants |
| MainWindow.UIStateShape | NgLocalizer/NgLocalizer/MainWindow.xaml.cs:184-200 | copying the flags changes nothing but the flags of a list of items |
| MainWindow.UIStateSelf | NgLocalizer/NgLocalizer/MainWindow.xaml.cs:184-200 | copying a tree's flags onto itself, when sibling keys are distinct, gives the same tree |
| MainWindow.UIStateFound | NgLocalizer/NgLocalizer/MainWindow.xaml.cs:184-200 | copying onto a prefix of the same list, when each item is the first with its key, leaves the prefix as it was |
| MainWindow.Ancestors | NgLocalizer/NgLocalizer/MainWindow.xaml.cs:155-164 | the set of paths that are proper prefixes of a path |
| MainWindow.ExpandedTwice | NgLocalizer/NgLocalizer/MainWindow.xaml.cs:155-164 | expanding one set of paths and then another expands their union |
| MainWindow.OpenAllNewKeys | NgLocalizer/NgLocalizer/MainWindow.xaml.cs:155-164 | after the walk, exactly the ancestors of every "NEW" key reached without first passing through one are expanded, in addition to those expanded before, and nothing else changes |
| MainWindow.OpenAllStep | NgLocalizer/NgLocalizer/MainWindow.xaml.cs:157-163 | one more item of the loop adds the paths that item opens |
| MainWindow.ExpandedByParents | NgLocalizer/NgLocalizer/ViewModels/TreeItem.cs:231-239 | expanding the parents of a node sets the expanded flag on its ancestors and on nothing else |
| MainWindow.OpenOneIff | NgLocalizer/NgLocalizer/MainWindow.xaml.cs:157-163 | a path is opened from one item exactly when it is a proper prefix of a path to a "NEW" key reached from there without passing through another |
| MainWindow.OpenAllIff | NgLocalizer/NgLocalizer/MainWindow.xaml.cs:155-164 | a path is opened from a list exactly when it is a proper prefix of a path, through one of its items, to such a "NEW" key |
| MainWindow.OpenedMeansLeadsToNew | NgLocalizer/NgLocalizer/MainWindow.xaml.cs:155-164 | after the walk over the tree, every node on the way to a reached "NEW" key is expanded, and every other node is as it was |
| MainWindow.ReachesAlong | NgLocalizer/NgLocalizer/MainWindow.xaml.cs:157-163 | a "NEW" key with no "NEW" key on its way from an item is reached by the walk from that item |
| MainWindow.NewKeyRevealed | NgLocalizer/NgLocalizer/MainWindow.xaml.cs:155-164 | every proper ancestor of a "NEW" key with no "NEW" key above it is expanded after the walk |
| MainWindow.ChangeAwayScansOnActivation | NgLocalizer/NgLocalizer/MainWindow.xaml.cs:166-179 | a change seen while the window is inactive keeps the flag set through later inactive changes, makes the next activation scan, and is cleared by that scan |
| MainWindow.UnconfiguredStaysDirty | NgLocalizer/NgLocalizer/MainWindow.xaml.cs:115-118 | with no extractor, a set flag is never cleared |
| MainWindow.QuietAppend | NgLocalizer/NgLocalizer/MainWindow.xaml.cs:126-151 | the watchers' state and the no-work-while-watching property compose over concatenated logs |
| MainWindow.Bracketed | NgLocalizer/NgLocalizer/MainWindow.xaml.cs:277-281 | work between turning the watchers off and on is done unwatched and leaves them on |
| MainWindow.QuietBracketed | NgLocalizer/NgLocalizer/MainWindow.xaml.cs:261-268 | a handler that brackets its work with the watchers keeps the property that no work is done while they are on |
| MainWindow.QuietRenameAndScan | NgLocalizer/NgLocalizer/MainWindow.xaml.cs:338-350 | a rename followed by a scan, each with its own bracket, keeps that property |
| MainWindow.RenameAndScanLog | NgLocalizer/NgLocalizer/MainWindow.xaml.cs:338-350 | the log of the rename handler is the rename bracket with the scan's bracket nested inside |
| MainWindow.QuietIdle | NgLocalizer/NgLocalizer/MainWindow.xaml.cs:277-281 | switching the watchers off and straight back on keeps that property |
| MainWindow.Window.constructor | NgLocalizer/NgLocalizer/MainWindow.xaml.cs:45-97 | a new window holds the given files, languages and extractor (none when the folders are not configured), shows no tree, is not dirty and has an empty log |
| MainWindow.Window.EnableFileWatchers | NgLocalizer/NgLocalizer/MainWindow.xaml.cs:277-281 | both watchers are switched to the given state and nothing else changes |
| MainWindow.Window.ScanSources | NgLocalizer/NgLocalizer/MainWindow.xaml.cs:115-153 | with no extractor nothing happens; otherwise the scan runs with the watchers off, the catalogs are reloaded, a failure keeps the tree shown, a success shows the new tree with the old flags carried over and the "NEW" keys revealed, and the flag is cleared either way |
| MainWindow.Window.Extract | NgLocalizer/NgLocalizer/MainWindow.xaml.cs:136 | the result is the catalog loader's failure, the folder scan's failure, or the root over the post-processed items |
| MainWindow.Window.Show | NgLocalizer/NgLocalizer/MainWindow.xaml.cs:137-139 | the new tree is shown with the old flags carried over and the "NEW" keys revealed |
| MainWindow.Window.MarkSourcesDirty | NgLocalizer/NgLocalizer/MainWindow.xaml.cs:166-179 | a change while active scans (when an extractor exists) and one while inactive only sets the flag |
| MainWindow.Window.OnActivated | NgLocalizer/NgLocalizer/MainWindow.xaml.cs:289-293 | activation scans exactly when the flag is set and an extractor exists |
| MainWindow.Window.RenameKey | NgLocalizer/NgLocalizer/MainWindow.xaml.cs:302-352 | the outcome is the guard's; a refusal changes nothing; otherwise the source file and catalogs are rewritten as the renamer specifies, and a successful rename is followed by a scan, all with the watchers off |
| MainWindow.Window.CheckRename | NgLocalizer/NgLocalizer/MainWindow.xaml.cs:305-335 | the refusal or new key the handler's checks give |
| MainWindow.Window.RenameTo | NgLocalizer/NgLocalizer/MainWindow.xaml.cs:336-350 | the renamer's outcome, the renamed node shown in place, then a scan when there is an extractor, with the watchers off throughout |
| MainWindow.Window.RenameFiles | NgLocalizer/NgLocalizer/MainWindow.xaml.cs:338-339 | the files become those the renamer specifies, with the watchers off |
| MainWindow.Window.ShowRenamed | NgLocalizer/NgLocalizer/MainWindow.xaml.cs:340-341 | the renamed node replaces the old one in the tree, then a scan runs when there is an extractor |
| MainWindow.Window.SaveTranslation | NgLocalizer/NgLocalizer/MainWindow.xaml.cs:254-275 | with no selection nothing is saved; otherwise the translation is saved under the selected node's key as the persister specifies, with the watchers off |
| Sorting.InsertPermutes | NgLocalizer/NgLocalizer/Parsing/TextItemExtractor.cs:115 | inserting one element into a list keeps every element and adds that one |
| Sorting.SortPermutes | NgLocalizer/NgLocalizer/Parsing/TextItemExtractor.cs:115 | the sort is a permutation of its input |
| Sorting.InsertSorted | NgLocalizer/NgLocalizer/Parsing/TextItemExtractor.cs:115 | under a total preorder, inserting into a sorted list gives a sorted list |
| Sorting.SortSorted | NgLocalizer/NgLocalizer/Parsing/TextItemExtractor.cs:115 | under a total preorder, the sort's result is sorted |
| Files.FileNameLast | NgLocalizer/NgLocalizer/Parsing/TextItemExtractor.cs:141 | `Path.GetFileName` gives the separator-free tail of the path, which is the whole path or comes after its last separator |
| Files.GetFilesMatch | NgLocalizer/NgLocalizer/Parsing/TextItemExtractor.cs:125 | `Directory.GetFiles` with a mask lists exactly the folder's files whose names end with the mask's extension, ignoring case as Windows does (`Page.HTML` is listed under `*.html`) |
| Files.MaskIgnoresCase | NgLocalizer/NgLocalizer/Parsing/TextItemExtractor.cs:125 | paths, or masks, that differ only in letter case select the same files |
| Files.FileNameLower | NgLocalizer/NgLocalizer/Parsing/TextItemExtractor.cs:125 | `Path.GetFileName` of a lower-cased path is the lower-cased file name |
| Files.FilterMaskMatch | NgLocalizer/NgLocalizer/Parsing/TextItemExtractor.cs:125 | filtering a file list by a mask keeps exactly the files that match it |
| Files.FileSystem.constructor | NgLocalizer/NgLocalizer/Parsing/TextItemExtractor.cs:125-141 | a file system holds the given listing, file texts and catalogs |

## Left out

- TokenRenamer.RenameUndoable: only the source file is shown to come back when a key is renamed back. For the catalogs no round trip is stated, because it does not hold in general: an entry holding JSON null is removed by the move and never saved again; a number or boolean comes back as its text, a string; and a new key holding `'` would not be found again by the script scanners, so the usage list a rescan gives differs from the moved spans.
- User interface: the WPF window's bindings, message boxes, clipboard snippets, folder dialogs, help text, the detail panel and its selection handling, `TreeViewItemRevealer`, `CodePreview`, the value converters, `Language` and property-change notification. They display state and decide nothing the model covers.
- The rename dialog: `RenamePopupWindow` is a window; its one rule (a non-blank key that differs from the current one) is the `Accepted` predicate, and the dialog's answer is a parameter.
- Asynchrony and threads: `Task.Factory.StartNew`, `Dispatcher.Invoke` and the `async` handlers become one synchronous call each; interleavings of handlers are not modelled.
- `CodeBaseWatcher`: file-system notifications are not modelled; the watchers appear only as the on/off events of the window's log, and a change notification is the `Changed` trigger.
- The progress bar: each scan adds one more handler to `Progress` and the handlers accumulate; only the sequence of values the extractor reports is modelled, as real fractions without floating-point rounding.
- Object identity: `TreeItem` is a value and its `Parent` back-pointer is the node's path from the root, so a change made through one reference to a shared item is not modelled; the extractor never shares items between two places of a tree.
- Exception texts: each exception the core throws or catches is a `Result` failure naming its cause, not its message.
- MainWindow.Window.RenameKey: requires a selected node; with no selection the source dereferences null inside an `async void` handler, which ends the process.
- MainWindow.Window.RenameTo: the code-preview reload of the renamed node between the rename and the rescan only refreshes what the detail panel shows, and is not modelled here (the preview itself is `SourcePreviewLoader`).
- MainWindow.OpenAllNewKeys: `ExpandParents` also expands the hidden root node above `RootItems`; the model expands it too, and no property depends on it.
- `EditAppIntegration.RevealInVSCode`, `ExecCommandLine` and `Process.Start`: launching an editor is process I/O; only the line and column it is given are modelled.
- File and stream I/O: `File.ReadAllText`/`WriteAllText`, `Directory.GetFiles`/`GetDirectories`, `File.Exists`, and stream seek and read. The file system is a value: a directory listing, a map from path to text, and a map from language to catalog. An unreadable file is a path with no entry, and a read returns every byte it asks for that the file holds.
- JSON text: parsing, serialisation and indentation are left out. A catalog is an ordered tree of objects, scalars and arrays. Array contents are not represented, and a scalar is its text (or none for JSON null). A file holding `null` loads as a null set: lookups in it find nothing, a save of a null text succeeds and leaves it as it is, a save of any other text and every removal fail. A file holding anything else that is not an object is the abstract `Malformed` failure.
- Case mapping and comparison: `ToLower`/`ToUpper` are ASCII case mapping, and the culture-sensitive comparisons of `OrderBy(Key)`, `CompareTo` and `StartsWith` are ordinal; culture rules and non-ASCII letters are not modelled.
- Files.MatchesMask: the mask test ignores ASCII case, as `Directory.GetFiles` does on Windows, where the window runs; the command-line front end on a case-sensitive Unix file system would match case-sensitively, which is not modelled.
- Sorting.Sort: proved sorted and a permutation of its input; stability (equal keys keep their order, as LINQ's `OrderBy` promises) holds of the insertion sort but is not stated as a lemma.
- Encodings: the parsers index decoded characters while `GetLineInfo` and the preview treat `Begin` as a byte offset; the model uses one sequence of code units for both, so multi-byte characters are not modelled.
- `LastSourceFileWrite`: it is recorded but never read by the core.
- Configuration: `SettingsService`, `LanguagesConfiguration` and `Program.cs` (the command-line front end) are left out; the configured languages are an input sequence, and an unconfigured source or i18n folder is a window with no extractor.
- TreeSearcher.FindNext: requires a non-empty tree, because `First()` throws on an empty one; its caller checks that before searching.
- Partial failure of rename writes: the code does no rollback; the model writes the files in the code's order and stops at the first failure.
