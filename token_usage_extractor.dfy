/** The command-line tool's scan (NgLocalizer.CLI/TokenUsageExtractor.cs):
    every usage in the source tree as one flat list, the files of a folder
    parser by parser, then each subfolder's list. A file that cannot be read
    ends the scan with that file's name. */
module TokenUsageExtractor {
  import opened Wrappers
  import opened Usages
  import opened Files
  import opened TextItemExtractor

  /** The usages of one file, or the file when it cannot be read. */
  function FileUsages(file: string, p: ParserKind, texts: map<string, string>): Result<seq<TokenUsage>, string>
  {
    if file !in texts then Failure(file) else Success(Parse(p, file, texts[file]))
  }

  /** `files` scanned with `p`, in order (the inner loop of
      `ParseAllFilesInFolder`). */
  function FilesUsages(files: seq<string>, p: ParserKind, texts: map<string, string>): Result<seq<TokenUsage>, string>
    decreases |files|
  {
    if files == [] then Success([])
    else
      var init :- FilesUsages(files[..|files| - 1], p, texts);
      var last :- FileUsages(files[|files| - 1], p, texts);
      Success(init + last)
  }

  /** `ParseAllFilesInFolder`: the files of `dir`, parser by parser. */
  function ParsersUsages(dir: Dir, ps: seq<ParserKind>, texts: map<string, string>): Result<seq<TokenUsage>, string>
    decreases |ps|
  {
    if ps == [] then Success([])
    else
      var init :- ParsersUsages(dir, ps[..|ps| - 1], texts);
      var p := ps[|ps| - 1];
      var last :- FilesUsages(GetFiles(dir, Mask(p)), p, texts);
      Success(init + last)
  }

  /** `ProcessFolder`: the folder's own files, then its subfolders. */
  function FolderUsages(dir: Dir, texts: map<string, string>): Result<seq<TokenUsage>, string>
    decreases dir, 1
  {
    var own :- ParsersUsages(dir, Parsers, texts);
    SubfoldersUsages(dir.subdirs, own, texts)
  }

  /** `acc` followed by the usages of the subfolders `ds`, in order. */
  function SubfoldersUsages(ds: seq<Dir>, acc: seq<TokenUsage>, texts: map<string, string>): Result<seq<TokenUsage>, string>
    decreases ds, 0
  {
    if ds == [] then Success(acc)
    else
      var sub :- FolderUsages(ds[0], texts);
      SubfoldersUsages(ds[1..], acc + sub, texts)
  }

  // ---------------------------------------------------------------------------
  // A reference definition: every matched file of the tree, in scan order.

  /** The files a parser picks in one folder. */
  function Picked(files: seq<string>, p: ParserKind): (r: seq<(ParserKind, string)>)
    ensures |r| == |files|
    ensures forall k :: 0 <= k < |files| ==> r[k] == (p, files[k])
  {
    if files == [] then [] else Picked(files[..|files| - 1], p) + [(p, files[|files| - 1])]
  }

  /** The matched files of one folder, parser by parser. */
  function PickedAll(dir: Dir, ps: seq<ParserKind>): seq<(ParserKind, string)>
    decreases |ps|
  {
    if ps == [] then []
    else PickedAll(dir, ps[..|ps| - 1]) + Picked(GetFiles(dir, Mask(ps[|ps| - 1])), ps[|ps| - 1])
  }

  /** Every matched file in the tree of `dir`: the folder's own, then each
      subfolder's, each subfolder listed once. */
  function MatchedFiles(dir: Dir): seq<(ParserKind, string)>
    decreases dir, 1
  {
    PickedAll(dir, Parsers) + MatchedAll(dir.subdirs)
  }

  function MatchedAll(ds: seq<Dir>): seq<(ParserKind, string)>
    decreases ds, 0
  {
    if ds == [] then [] else MatchedFiles(ds[0]) + MatchedAll(ds[1..])
  }

  /** Each matched file's usages, one after the other: nothing is dropped,
      reordered or merged. */
  function Concatenated(files: seq<(ParserKind, string)>, texts: map<string, string>): Result<seq<TokenUsage>, string>
    decreases |files|
  {
    if files == [] then Success([])
    else
      var init :- Concatenated(files[..|files| - 1], texts);
      var last :- FileUsages(files[|files| - 1].1, files[|files| - 1].0, texts);
      Success(init + last)
  }

  /** The usage count of all matched files, when all are readable. */
  function TotalUsages(files: seq<(ParserKind, string)>, texts: map<string, string>): nat
    requires forall k :: 0 <= k < |files| ==> files[k].1 in texts
    decreases |files|
  {
    if files == [] then 0
    else
      var last := files[|files| - 1];
      TotalUsages(files[..|files| - 1], texts) + |Parse(last.0, last.1, texts[last.1])|
  }

  // ---------------------------------------------------------------------------
  // The scanner.

  class Extractor {
    const sourceFolder: Dir

    constructor (sourceFolder: Dir)
      ensures this.sourceFolder == sourceFolder
    {
      this.sourceFolder := sourceFolder;
    }

    /** `Extract()`: the usages of the whole source tree. */
    method Extract(texts: map<string, string>) returns (r: Result<seq<TokenUsage>, string>)
      ensures r == FolderUsages(sourceFolder, texts)
      ensures r == Concatenated(MatchedFiles(sourceFolder), texts)
    {
      FolderUsagesFlat(sourceFolder, texts);
      r := ProcessFolder(sourceFolder, texts);
    }

    static method ProcessFolder(folder: Dir, texts: map<string, string>) returns (r: Result<seq<TokenUsage>, string>)
      ensures r == FolderUsages(folder, texts)
      decreases folder, 1
    {
      var tokenUsages := ParseAllFilesInFolder(folder, texts);
      if tokenUsages.Failure? {
        return tokenUsages;
      }
      var list := tokenUsages.value;
      for k := 0 to |folder.subdirs|
        invariant FolderUsages(folder, texts) == SubfoldersUsages(folder.subdirs[k..], list, texts)
      {
        assert folder.subdirs[k..][0] == folder.subdirs[k];
        assert folder.subdirs[k..][1..] == folder.subdirs[k + 1..];
        var next := ProcessSubFolder(folder.subdirs[k], list, texts);
        if next.Failure? {
          return next;
        }
        list := next.value;
      }
      assert folder.subdirs[|folder.subdirs|..] == [];
      r := Success(list);
    }

    /** `ProcessSubFolder(directory, list)`: the subfolder's usages appended
        to `list`. */
    static method ProcessSubFolder(directory: Dir, list: seq<TokenUsage>, texts: map<string, string>)
      returns (r: Result<seq<TokenUsage>, string>)
      ensures match FolderUsages(directory, texts)
              case Failure(e) => r == Failure(e)
              case Success(sub) => r == Success(list + sub)
      decreases directory, 2
    {
      var sub := ProcessFolder(directory, texts);
      if sub.Failure? {
        return Failure(sub.error);
      }
      r := Success(list + sub.value);
    }

    static method ParseAllFilesInFolder(folder: Dir, texts: map<string, string>) returns (r: Result<seq<TokenUsage>, string>)
      ensures r == ParsersUsages(folder, Parsers, texts)
    {
      var list: seq<TokenUsage> := [];
      for j := 0 to |Parsers|
        invariant ParsersUsages(folder, Parsers[..j], texts) == Success(list)
      {
        var parser := Parsers[j];
        assert Parsers[..j + 1][..j] == Parsers[..j];
        var files := GetFiles(folder, Mask(parser));
        var own := GetUsagesOfFiles(files, parser, texts);
        if own.Failure? {
          ParsersUsagesSticks(folder, Parsers, texts, j + 1);
          return Failure(own.error);
        }
        list := list + own.value;
      }
      assert Parsers[..|Parsers|] == Parsers;
      r := Success(list);
    }

    /** The inner loop of `ParseAllFilesInFolder`, through `GetTokenUsages`. */
    static method GetUsagesOfFiles(files: seq<string>, parser: ParserKind, texts: map<string, string>)
      returns (r: Result<seq<TokenUsage>, string>)
      ensures r == FilesUsages(files, parser, texts)
    {
      var list: seq<TokenUsage> := [];
      for k := 0 to |files|
        invariant FilesUsages(files[..k], parser, texts) == Success(list)
      {
        assert files[..k + 1][..k] == files[..k];
        var file := files[k];
        if file !in texts {
          FilesUsagesSticks(files, parser, texts, k + 1);
          return Failure(file);
        }
        list := list + Parse(parser, file, texts[file]);
      }
      assert files[..|files|] == files;
      r := Success(list);
    }
  }

  // ---------------------------------------------------------------------------
  // Lemmas.

  lemma {:induction false} FilesUsagesSticks(files: seq<string>, p: ParserKind, texts: map<string, string>, k: nat)
    requires k <= |files| && FilesUsages(files[..k], p, texts).Failure?
    ensures FilesUsages(files, p, texts) == FilesUsages(files[..k], p, texts)
    decreases |files|
  {
    if k < |files| {
      var init := files[..|files| - 1];
      assert init[..k] == files[..k];
      FilesUsagesSticks(init, p, texts, k);
    } else {
      assert files[..k] == files;
    }
  }

  lemma {:induction false} ParsersUsagesSticks(dir: Dir, ps: seq<ParserKind>, texts: map<string, string>, k: nat)
    requires k <= |ps| && ParsersUsages(dir, ps[..k], texts).Failure?
    ensures ParsersUsages(dir, ps, texts) == ParsersUsages(dir, ps[..k], texts)
    decreases |ps|
  {
    if k < |ps| {
      var init := ps[..|ps| - 1];
      assert init[..k] == ps[..k];
      ParsersUsagesSticks(dir, init, texts, k);
    } else {
      assert ps[..k] == ps;
    }
  }

  /** Concatenating after a list: the appended list's usages follow. */
  function Then(r: Result<seq<TokenUsage>, string>, s: Result<seq<TokenUsage>, string>): Result<seq<TokenUsage>, string>
  {
    match r
    case Failure(e) => Failure(e)
    case Success(x) =>
      match s
      case Failure(e) => Failure(e)
      case Success(y) => Success(x + y)
  }

  lemma {:induction false} ThenAssoc(r: Result<seq<TokenUsage>, string>, s: Result<seq<TokenUsage>, string>, t: Result<seq<TokenUsage>, string>)
    ensures Then(Then(r, s), t) == Then(r, Then(s, t))
  {
    if r.Success? && s.Success? && t.Success? {
      assert r.value + s.value + t.value == r.value + (s.value + t.value);
    }
  }

  lemma {:induction false} ConcatenatedSnoc(xs: seq<(ParserKind, string)>, x: (ParserKind, string), texts: map<string, string>)
    ensures Concatenated(xs + [x], texts) == Then(Concatenated(xs, texts), FileUsages(x.1, x.0, texts))
  {
    assert (xs + [x])[..|xs|] == xs;
  }

  lemma {:induction false} ConcatenatedAppend(a: seq<(ParserKind, string)>, b: seq<(ParserKind, string)>, texts: map<string, string>)
    ensures Concatenated(a + b, texts) == Then(Concatenated(a, texts), Concatenated(b, texts))
    decreases |b|
  {
    if b == [] {
      assert a + b == a;
      if Concatenated(a, texts).Success? {
        assert Concatenated(a, texts).value + [] == Concatenated(a, texts).value;
      }
    } else {
      var init := b[..|b| - 1];
      var last := b[|b| - 1];
      assert a + b == (a + init) + [last];
      assert b == init + [last];
      ConcatenatedSnoc(a + init, last, texts);
      ConcatenatedSnoc(init, last, texts);
      ConcatenatedAppend(a, init, texts);
      ThenAssoc(Concatenated(a, texts), Concatenated(init, texts), FileUsages(last.1, last.0, texts));
    }
  }

  lemma {:induction false} FilesUsagesFlat(files: seq<string>, p: ParserKind, texts: map<string, string>)
    ensures FilesUsages(files, p, texts) == Concatenated(Picked(files, p), texts)
    decreases |files|
  {
    if files != [] {
      var init := files[..|files| - 1];
      var picked := Picked(files, p);
      FilesUsagesFlat(init, p, texts);
      assert picked[..|picked| - 1] == Picked(init, p);
    }
  }

  lemma {:induction false} ParsersUsagesFlat(dir: Dir, ps: seq<ParserKind>, texts: map<string, string>)
    ensures ParsersUsages(dir, ps, texts) == Concatenated(PickedAll(dir, ps), texts)
    decreases |ps|
  {
    if ps != [] {
      var init := ps[..|ps| - 1];
      var p := ps[|ps| - 1];
      ParsersUsagesFlat(dir, init, texts);
      FilesUsagesFlat(GetFiles(dir, Mask(p)), p, texts);
      ConcatenatedAppend(PickedAll(dir, init), Picked(GetFiles(dir, Mask(p)), p), texts);
    }
  }

  /** The scan of a folder is the usages of its matched files, one after the
      other, its own files first and then each subfolder's in order. */
  lemma {:induction false} FolderUsagesFlat(dir: Dir, texts: map<string, string>)
    ensures FolderUsages(dir, texts) == Concatenated(MatchedFiles(dir), texts)
    decreases dir, 1
  {
    ParsersUsagesFlat(dir, Parsers, texts);
    ConcatenatedAppend(PickedAll(dir, Parsers), MatchedAll(dir.subdirs), texts);
    SubfoldersUsagesFlat(dir.subdirs, ParsersUsages(dir, Parsers, texts), texts);
  }

  lemma {:induction false} SubfoldersUsagesFlat(ds: seq<Dir>, acc: Result<seq<TokenUsage>, string>, texts: map<string, string>)
    ensures (if acc.Failure? then acc else SubfoldersUsages(ds, acc.value, texts))
         == Then(acc, Concatenated(MatchedAll(ds), texts))
    decreases ds, 0
  {
    if ds == [] {
      if acc.Success? {
        assert acc.value + [] == acc.value;
      }
    } else {
      FolderUsagesFlat(ds[0], texts);
      ConcatenatedAppend(MatchedFiles(ds[0]), MatchedAll(ds[1..]), texts);
      ThenAssoc(acc, Concatenated(MatchedFiles(ds[0]), texts), Concatenated(MatchedAll(ds[1..]), texts));
      if acc.Success? {
        var next := Then(acc, FolderUsages(ds[0], texts));
        SubfoldersUsagesFlat(ds[1..], next, texts);
        SubfoldersStep(ds, acc.value, texts);
      }
    }
  }

  lemma {:induction false} SubfoldersStep(ds: seq<Dir>, acc: seq<TokenUsage>, texts: map<string, string>)
    requires ds != []
    ensures var next := Then(Success(acc), FolderUsages(ds[0], texts));
      SubfoldersUsages(ds, acc, texts) == if next.Failure? then next else SubfoldersUsages(ds[1..], next.value, texts)
  {
  }

  /** When every matched file is readable, the scan's length is the sum of
      the parsers' outputs over those files. */
  lemma {:induction false} ConcatenatedLength(files: seq<(ParserKind, string)>, texts: map<string, string>)
    requires forall k :: 0 <= k < |files| ==> files[k].1 in texts
    ensures Concatenated(files, texts).Success?
    ensures |Concatenated(files, texts).value| == TotalUsages(files, texts)
    decreases |files|
  {
    if files != [] {
      ConcatenatedLength(files[..|files| - 1], texts);
    }
  }

  /** A scan fails exactly on a matched file that cannot be read, and then
      names the first such file. */
  lemma {:induction false} ConcatenatedFailure(files: seq<(ParserKind, string)>, texts: map<string, string>)
    ensures Concatenated(files, texts).Failure? <==> exists k :: 0 <= k < |files| && files[k].1 !in texts
    ensures Concatenated(files, texts).Failure? ==>
      exists k :: 0 <= k < |files| && files[k].1 == Concatenated(files, texts).error
                  && files[k].1 !in texts && forall j :: 0 <= j < k ==> files[j].1 in texts
    decreases |files|
  {
    if files != [] {
      var init := files[..|files| - 1];
      ConcatenatedFailure(init, texts);
      assert forall j :: 0 <= j < |init| ==> init[j] == files[j];
    }
  }
}
