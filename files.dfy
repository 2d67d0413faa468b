/** The file system as the core sees it: a directory listing of the source
    folder, the text of every readable source file, and the catalog file of
    every language in the i18n folder. */
module Files {
  import opened Text
  import Catalog

  /** A source directory: its full path, the full paths of its files and its
      subdirectories, each in the order `Directory.GetFiles` and
      `Directory.GetDirectories` list them. */
  datatype Dir = Dir(path: string, files: seq<string>, subdirs: seq<Dir>)

  predicate IsSeparator(c: char)
  {
    c == '\\' || c == '/'
  }

  /** `Path.GetFileName`: what follows the last directory separator. */
  function FileName(path: string): (r: string)
    ensures |r| <= |path|
    decreases |path|
  {
    if path == [] then ""
    else if IsSeparator(path[|path| - 1]) then ""
    else FileName(path[..|path| - 1]) + [path[|path| - 1]]
  }

  /** The file name is a separator-free suffix of the path that is either
      the whole path or preceded by a separator. */
  lemma {:induction false} FileNameLast(path: string)
    ensures var r := FileName(path);
      && path[|path| - |r|..] == r
      && (forall i :: 0 <= i < |r| ==> !IsSeparator(r[i]))
      && (|r| < |path| ==> IsSeparator(path[|path| - |r| - 1]))
    decreases |path|
  {
    if path != [] && !IsSeparator(path[|path| - 1]) {
      var init := path[..|path| - 1];
      FileNameLast(init);
      var r := FileName(path);
      var q := FileName(init);
      assert r == q + [path[|path| - 1]];
      assert path[|path| - |r|..] == init[|init| - |q|..] + [path[|path| - 1]];
      forall i | 0 <= i < |r|
        ensures !IsSeparator(r[i])
      {
        if i < |q| {
          assert r[i] == q[i];
        }
      }
      if |r| < |path| {
        assert path[|path| - |r| - 1] == init[|init| - |q| - 1];
      }
    }
  }

  /** Whether a file name is selected by a search pattern of the form
      `*<extension>` such as `*.html` or `*.ts`. As on Windows, the match
      ignores case, so `Page.HTML` is selected by `*.html`. */
  predicate MatchesMask(fullPath: string, mask: string)
  {
    |mask| >= 1 && mask[0] == '*' && EndsWith(ToLower(FileName(fullPath)), ToLower(mask[1..]))
  }

  /** Lower-casing a path lower-cases its file name, as it leaves the
      separators alone. */
  lemma {:induction false} FileNameLower(path: string)
    ensures FileName(ToLower(path)) == ToLower(FileName(path))
    decreases |path|
  {
    if path != [] {
      var init := path[..|path| - 1];
      assert ToLower(path)[..|path| - 1] == ToLower(init);
      FileNameLower(init);
      if !IsSeparator(path[|path| - 1]) {
        assert ToLower(FileName(init) + [path[|path| - 1]]) == ToLower(FileName(init)) + [ToLowerChar(path[|path| - 1])];
      }
    }
  }

  /** Two paths, or two masks, that differ only in the case of their letters
      select the same files. */
  lemma MaskIgnoresCase(f: string, g: string, mask: string, mask': string)
    requires ToLower(f) == ToLower(g) && ToLower(mask) == ToLower(mask')
    ensures MatchesMask(f, mask) <==> MatchesMask(g, mask')
  {
    FileNameLower(f);
    FileNameLower(g);
    LowerTwice(FileName(f));
    LowerTwice(FileName(g));
    if |mask| >= 1 {
      assert ToLower(mask[1..]) == ToLower(mask)[1..];
      assert ToLower(mask'[1..]) == ToLower(mask')[1..];
      assert mask[0] == '*' <==> ToLower(mask)[0] == '*';
      assert mask'[0] == '*' <==> ToLower(mask')[0] == '*';
    }
  }

  /** `Directory.GetFiles(folder, mask)`. */
  function GetFiles(dir: Dir, mask: string): (r: seq<string>)
    ensures |r| <= |dir.files|
  {
    FilterMask(dir.files, mask)
  }

  function FilterMask(files: seq<string>, mask: string): (r: seq<string>)
    ensures |r| <= |files|
  {
    if files == [] then []
    else (if MatchesMask(files[0], mask) then [files[0]] else []) + FilterMask(files[1..], mask)
  }

  /** `GetFiles` lists exactly the folder's files that match the mask. */
  lemma GetFilesMatch(dir: Dir, mask: string)
    ensures forall f :: f in GetFiles(dir, mask) <==> f in dir.files && MatchesMask(f, mask)
  {
    FilterMaskMatch(dir.files, mask);
  }

  lemma {:induction false} FilterMaskMatch(files: seq<string>, mask: string)
    ensures forall f :: f in FilterMask(files, mask) <==> f in files && MatchesMask(f, mask)
    decreases |files|
  {
    if files != [] {
      FilterMaskMatch(files[1..], mask);
      assert files == [files[0]] + files[1..];
    }
  }

  /** The state of the disk: the source folder's listing, the contents of
      its files (a file missing from `texts` cannot be read), and the JSON
      content of each language's catalog file (a language missing from
      `catalogs` has no file yet). */
  class FileSystem {
    var sources: Dir
    var texts: map<string, string>
    var catalogs: map<string, Catalog.Json>

    constructor (sources: Dir, texts: map<string, string>, catalogs: map<string, Catalog.Json>)
      ensures this.sources == sources && this.texts == texts && this.catalogs == catalogs
    {
      this.sources := sources;
      this.texts := texts;
      this.catalogs := catalogs;
    }
  }
}
