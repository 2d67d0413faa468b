/** The markup scanner (Parsing/HtmlParser.cs). It finds every `<code> | translate`
    segment with the pattern `(?<code>[^{"]*)\|\s*translate` and, inside each
    code group, every single-quoted literal with the pattern `'(?<key>.*?)'`.
    Both patterns are modelled directly as the leftmost, non-overlapping match
    sequence the regex engine produces, not through a general matcher. */
module HtmlParser {
  import opened Wrappers
  import opened Text
  import opened Usages

  /** The search pattern that selects the files this scanner handles. */
  const FileMask := "*.html"

  const TranslateWord := "translate"

  /** The end of the white-space run that starts at `pos`. `\s*` is greedy and
      what follows it starts with a letter, so this run is the only length of
      `\s*` with which the rest of the pattern can match. */
  function SkipWhiteSpace(t: string, pos: nat): (q: nat)
    requires pos <= |t|
    ensures pos <= q <= |t|
    decreases |t| - pos
  {
    if pos == |t| || !IsWhiteSpace(t[pos]) then pos else SkipWhiteSpace(t, pos + 1)
  }

  /** The run skipped is all white space, and what follows it is not. */
  lemma {:induction false} SkipWhiteSpaceRun(t: string, pos: nat)
    requires pos <= |t|
    ensures forall x :: pos <= x < SkipWhiteSpace(t, pos) ==> IsWhiteSpace(t[x])
    ensures SkipWhiteSpace(t, pos) < |t| ==> !IsWhiteSpace(t[SkipWhiteSpace(t, pos)])
    decreases |t| - pos
  {
    if pos < |t| && IsWhiteSpace(t[pos]) {
      SkipWhiteSpaceRun(t, pos + 1);
    }
  }

  /** `\s*translate` matches at `pos`. */
  predicate TranslateAfter(t: string, pos: nat)
    requires pos <= |t|
  {
    var q := SkipWhiteSpace(t, pos);
    q + |TranslateWord| <= |t| && t[q..q + |TranslateWord|] == TranslateWord
  }

  /** A character the `code` group `[^{"]*` may hold. */
  predicate IsCodeChar(c: char)
  {
    c != '{' && c != '"'
  }

  /** `\|\s*translate` matches at `p`. */
  predicate PipeAt(t: string, p: nat)
  {
    p < |t| && t[p] == '|' && TranslateAfter(t, p + 1)
  }

  /** Where the whole match ends when its `|` is at `p`. */
  function MatchEnd(t: string, p: nat): (e: nat)
    requires PipeAt(t, p)
    ensures p < e <= |t|
  {
    SkipWhiteSpace(t, p + 1) + |TranslateWord|
  }

  /** The first index at or after `i` that the `code` group cannot cross. */
  function RunEnd(t: string, i: nat): (k: nat)
    requires i <= |t|
    ensures i <= k <= |t|
    decreases |t| - i
  {
    if i == |t| || !IsCodeChar(t[i]) then i else RunEnd(t, i + 1)
  }

  /** The run is made of code characters, and what follows it is not one. */
  lemma {:induction false} RunEndRun(t: string, i: nat)
    requires i <= |t|
    ensures forall x :: i <= x < RunEnd(t, i) ==> IsCodeChar(t[x])
    ensures RunEnd(t, i) < |t| ==> !IsCodeChar(t[RunEnd(t, i)])
    decreases |t| - i
  {
    if i < |t| && IsCodeChar(t[i]) {
      RunEndRun(t, i + 1);
    }
  }

  /** The last `p` in `[i, k)` at which `\|\s*translate` matches. */
  function LastPipe(t: string, i: nat, k: nat): (r: Option<nat>)
    requires i <= k <= |t|
    ensures r.Some? ==> i <= r.value < k && PipeAt(t, r.value)
    decreases k
  {
    if k == i then None
    else if PipeAt(t, k - 1) then Some(k - 1)
    else LastPipe(t, i, k - 1)
  }

  /** No pipe of the range comes after the one found, and none is found only
      when the range has none. */
  lemma {:induction false} LastPipeLast(t: string, i: nat, k: nat)
    requires i <= k <= |t|
    ensures LastPipe(t, i, k).Some? ==> forall p :: LastPipe(t, i, k).value < p < k ==> !PipeAt(t, p)
    ensures LastPipe(t, i, k).None? <==> forall p :: i <= p < k ==> !PipeAt(t, p)
    decreases k
  {
    if k > i && !PipeAt(t, k - 1) {
      LastPipeLast(t, i, k - 1);
      LastPipeStep(t, i, k);
    }
  }

  lemma {:induction false} LastPipeStep(t: string, i: nat, k: nat)
    requires i < k <= |t| && !PipeAt(t, k - 1)
    requires LastPipe(t, i, k - 1).Some? ==> forall p :: LastPipe(t, i, k - 1).value < p < k - 1 ==> !PipeAt(t, p)
    requires LastPipe(t, i, k - 1).None? <==> forall p :: i <= p < k - 1 ==> !PipeAt(t, p)
    ensures LastPipe(t, i, k).Some? ==> forall p :: LastPipe(t, i, k).value < p < k ==> !PipeAt(t, p)
    ensures LastPipe(t, i, k).None? <==> forall p :: i <= p < k ==> !PipeAt(t, p)
  {
    assert LastPipe(t, i, k) == LastPipe(t, i, k - 1);
  }

  /** The end of the `code` group of a match starting at `i`, if one does:
      the greedy `[^{"]*` backs off to the LAST pipe in its run. */
  function CodeEnd(t: string, i: nat): (r: Option<nat>)
    requires i <= |t|
    ensures r.Some? ==> i <= r.value < RunEnd(t, i) && PipeAt(t, r.value)
  {
    LastPipe(t, i, RunEnd(t, i))
  }

  /** The group found is made of code characters and ends at the last pipe
      of the run; there is none only when the run holds no pipe. */
  lemma {:induction false} CodeEndLast(t: string, i: nat)
    requires i <= |t|
    ensures CodeEnd(t, i).Some? ==> forall x :: i <= x < CodeEnd(t, i).value ==> IsCodeChar(t[x])
    ensures CodeEnd(t, i).Some? ==> forall p :: CodeEnd(t, i).value < p < RunEnd(t, i) ==> !PipeAt(t, p)
    ensures CodeEnd(t, i).None? <==> forall p :: i <= p < RunEnd(t, i) ==> !PipeAt(t, p)
  {
    RunEndRun(t, i);
    LastPipeLast(t, i, RunEnd(t, i));
  }

  /** The `code` group of one match: its index and length in the text. */
  datatype Segment = Segment(codeIndex: nat, codeLength: nat)

  /** After the `'` that opens a literal, the index of the `'` that closes it
      within the code group `[.., ce)`: the lazy `.*?` stops at the first `'`,
      and `.` does not cross a line feed. */
  function CloseQuote(n: string, m: nat, ce: nat): (r: Option<nat>)
    requires m <= ce <= |n|
    ensures r.Some? ==> m <= r.value < ce && n[r.value] == '\''
    decreases ce - m
  {
    if m == ce then None
    else if n[m] == '\n' then None
    else if n[m] == '\'' then Some(m)
    else CloseQuote(n, m + 1, ce)
  }

  /** The closing quote is the first `'`, with no line feed before it; there
      is none only when every `'` of the group comes after a line feed. */
  lemma {:induction false} CloseQuoteFirst(n: string, m: nat, ce: nat)
    requires m <= ce <= |n|
    ensures CloseQuote(n, m, ce).Some? ==>
              forall x :: m <= x < CloseQuote(n, m, ce).value ==> n[x] != '\'' && n[x] != '\n'
    ensures CloseQuote(n, m, ce).None? ==>
              forall x :: m <= x < ce ==> n[x] != '\'' || exists y :: m <= y < x && n[y] == '\n'
    decreases ce - m
  {
    if m < ce && n[m] != '\n' && n[m] != '\'' {
      CloseQuoteFirst(n, m + 1, ce);
    }
  }

  /** The matches of `'(?<key>.*?)'` in the code group `n[.., ce)`, scanning
      from `j`. The inner pattern has no anchors, so scanning the group in
      place is scanning the extracted group; the usage's `Begin` is then the
      group's index plus the key's index inside the group. */
  function KeyUsages(n: string, j: nat, ce: nat, file: string): seq<TokenUsage>
    requires j <= ce <= |n|
    decreases ce - j
  {
    if j == ce then []
    else if n[j] == '\'' then
      match CloseQuote(n, j + 1, ce)
      case Some(k) => [TokenUsage(n[j + 1..k], j + 1, k - j - 1, file)] + KeyUsages(n, k + 1, ce, file)
      case None => KeyUsages(n, j + 1, ce, file)
    else KeyUsages(n, j + 1, ce, file)
  }

  /** The matches of the outer pattern, scanning from `s`: the leftmost match
      start is taken, its code group `[s, p)` is scanned for keys, and the
      next search starts where the match ends. */
  function Scan(n: string, s: nat, file: string): seq<TokenUsage>
    decreases |n| - s
  {
    if s >= |n| then []
    else match CodeEnd(n, s)
      case Some(p) => KeyUsages(n, s, p, file) + Scan(n, MatchEnd(n, p), file)
      case None => Scan(n, s + 1, file)
  }

  // ---------------------------------------------------------------------------
  // What one usage guarantees about the normalised text.

  /** `pos` is followed, within the same code group, by `|`, optional white
      space and `translate`. */
  ghost predicate FollowedByTranslatePipe(n: string, pos: nat)
  {
    exists p :: pos <= p && PipeAt(n, p) && forall x :: pos <= x < p ==> IsCodeChar(n[x])
  }

  /** The span of `u` is exactly its token, and the token is enclosed in
      single quotes and holds neither `'` nor a line feed. */
  ghost predicate QuotedSpan(n: string, u: TokenUsage, file: string)
  {
    && 1 <= u.begin && u.begin + u.length < |n|
    && n[u.begin..u.begin + u.length] == u.token
    && n[u.begin - 1] == '\'' && n[u.begin + u.length] == '\''
    && (forall x :: 0 <= x < |u.token| ==> u.token[x] != '\'' && u.token[x] != '\n')
    && u.fullFilename == file
  }

  /** In addition, the token holds no `{` or `"` and the code group goes on
      to `| translate`. */
  ghost predicate UsageOk(n: string, u: TokenUsage, file: string)
  {
    && QuotedSpan(n, u, file)
    && (forall x :: 0 <= x < |u.token| ==> u.token[x] != '{' && u.token[x] != '"')
    && FollowedByTranslatePipe(n, u.begin + u.length)
  }

  /** `ParseFile` on the text of `file`. Carriage returns become spaces first,
      so every index of the normalised text is an index of the original. */
  function ParseFile(file: string, content: string): seq<TokenUsage>
  {
    Scan(ReplaceCR(content), 0, file)
  }

  /** Every usage found is a well-formed key span of the file's text, and
      the usages come in ascending order. */
  lemma {:induction false} ParseFileOk(file: string, content: string)
    ensures var r := ParseFile(file, content);
            && (forall a :: 0 <= a < |r| ==> UsageOk(ReplaceCR(content), r[a], file))
            && Ascending(r)
  {
    ScanOk(ReplaceCR(content), 0, file);
  }

  // ---------------------------------------------------------------------------
  // Proofs.

  /** Every usage of `us` is a quoted span lying inside `(lo, ce)`. */
  ghost predicate KeysIn(n: string, us: seq<TokenUsage>, file: string, lo: nat, ce: nat)
  {
    forall a :: 0 <= a < |us| ==>
      QuotedSpan(n, us[a], file) && lo < us[a].begin && us[a].begin + us[a].length < ce
  }

  /** The keys of a code group `[j, ce)` are quoted spans inside it, in order. */
  lemma {:induction false} KeyUsagesOk(n: string, j: nat, ce: nat, file: string)
    requires j <= ce <= |n|
    ensures KeysIn(n, KeyUsages(n, j, ce, file), file, j, ce)
    ensures Ascending(KeyUsages(n, j, ce, file))
    decreases ce - j
  {
    if j < ce {
      if n[j] == '\'' {
        match CloseQuote(n, j + 1, ce)
        case Some(k) =>
          KeyUsagesOk(n, k + 1, ce, file);
          KeyUsagesStep(n, j, k, ce, file);
        case None =>
          KeyUsagesOk(n, j + 1, ce, file);
          KeyUsagesSkip(n, j, ce, file);
      } else {
        KeyUsagesOk(n, j + 1, ce, file);
        KeyUsagesSkip(n, j, ce, file);
      }
    }
  }

  /** No literal opens at `j`: the keys are those found from `j + 1`. */
  lemma {:induction false} KeyUsagesSkip(n: string, j: nat, ce: nat, file: string)
    requires j < ce <= |n| && (n[j] != '\'' || CloseQuote(n, j + 1, ce).None?)
    requires KeysIn(n, KeyUsages(n, j + 1, ce, file), file, j + 1, ce)
    requires Ascending(KeyUsages(n, j + 1, ce, file))
    ensures KeysIn(n, KeyUsages(n, j, ce, file), file, j, ce)
    ensures Ascending(KeyUsages(n, j, ce, file))
  {
    assert KeyUsages(n, j, ce, file) == KeyUsages(n, j + 1, ce, file);
  }

  /** One literal `n[j..k]` in front of the keys found after it. */
  lemma {:induction false} KeyUsagesStep(n: string, j: nat, k: nat, ce: nat, file: string)
    requires j < ce <= |n| && n[j] == '\'' && CloseQuote(n, j + 1, ce) == Some(k)
    requires KeysIn(n, KeyUsages(n, k + 1, ce, file), file, k + 1, ce)
    requires Ascending(KeyUsages(n, k + 1, ce, file))
    ensures KeysIn(n, KeyUsages(n, j, ce, file), file, j, ce)
    ensures Ascending(KeyUsages(n, j, ce, file))
  {
    var u := TokenUsage(n[j + 1..k], j + 1, k - j - 1, file);
    var rest := KeyUsages(n, k + 1, ce, file);
    LiteralOk(n, j, k, ce, file);
    assert KeyUsages(n, j, ce, file) == [u] + rest;
    KeyCons(n, u, rest, file, j, k + 1, ce);
  }

  lemma {:induction false} LiteralOk(n: string, j: nat, k: nat, ce: nat, file: string)
    requires j < ce <= |n| && n[j] == '\'' && CloseQuote(n, j + 1, ce) == Some(k)
    ensures QuotedSpan(n, TokenUsage(n[j + 1..k], j + 1, k - j - 1, file), file)
  {
    CloseQuoteFirst(n, j + 1, ce);
    var t := n[j + 1..k];
    forall x | 0 <= x < |t|
      ensures t[x] != '\'' && t[x] != '\n'
    {
      assert t[x] == n[j + 1 + x];
    }
  }

  lemma {:induction false} KeyCons(n: string, u: TokenUsage, rest: seq<TokenUsage>, file: string, lo: nat, hi: nat, ce: nat)
    requires QuotedSpan(n, u, file) && lo < u.begin && u.begin + u.length < hi && hi <= ce
    requires KeysIn(n, rest, file, hi, ce) && Ascending(rest)
    ensures KeysIn(n, [u] + rest, file, lo, ce) && Ascending([u] + rest)
  {
    AscendingConcat([u], rest);
    var r := [u] + rest;
    forall a | 0 <= a < |r|
      ensures QuotedSpan(n, r[a], file) && lo < r[a].begin && r[a].begin + r[a].length < ce
    {
      if a > 0 {
        assert r[a] == rest[a - 1];
      }
    }
  }

  /** A key found in the code group `[s, p)` of a match also satisfies the
      outer pattern's guarantees. */
  lemma {:induction false} InGroupUsageOk(n: string, u: TokenUsage, s: nat, p: nat, file: string)
    requires QuotedSpan(n, u, file) && s < u.begin && u.begin + u.length < p
    requires PipeAt(n, p) && forall x :: s <= x < p ==> IsCodeChar(n[x])
    ensures UsageOk(n, u, file)
  {
    forall x | 0 <= x < |u.token|
      ensures u.token[x] != '{' && u.token[x] != '"'
    {
      assert u.token[x] == n[u.begin + x];
    }
    assert forall x :: u.begin + u.length <= x < p ==> IsCodeChar(n[x]);
  }

  ghost predicate AllOk(n: string, us: seq<TokenUsage>, file: string, lo: nat)
  {
    forall a :: 0 <= a < |us| ==> UsageOk(n, us[a], file) && lo < us[a].begin
  }

  lemma {:induction false} AllOkConcat(n: string, xs: seq<TokenUsage>, ys: seq<TokenUsage>, file: string, lo: nat)
    requires AllOk(n, xs, file, lo) && AllOk(n, ys, file, lo)
    ensures AllOk(n, xs + ys, file, lo)
  {
    var all := xs + ys;
    forall a | 0 <= a < |all|
      ensures UsageOk(n, all[a], file) && lo < all[a].begin
    {
      if a < |xs| {
        assert all[a] == xs[a];
      } else {
        assert all[a] == ys[a - |xs|];
      }
    }
  }

  /** The usages of the code group `[s, p)` of one match. */
  lemma {:induction false} GroupOk(n: string, s: nat, p: nat, file: string)
    requires s <= p && PipeAt(n, p) && forall x :: s <= x < p ==> IsCodeChar(n[x])
    ensures var r := KeyUsages(n, s, p, file);
            && AllOk(n, r, file, s) && Ascending(r)
            && forall a :: 0 <= a < |r| ==> r[a].begin + r[a].length < p
  {
    KeyUsagesOk(n, s, p, file);
    var r := KeyUsages(n, s, p, file);
    forall a | 0 <= a < |r|
      ensures UsageOk(n, r[a], file)
    {
      InGroupUsageOk(n, r[a], s, p, file);
    }
  }

  lemma {:induction false} ScanOk(n: string, s: nat, file: string)
    ensures AllOk(n, Scan(n, s, file), file, s)
    ensures Ascending(Scan(n, s, file))
    decreases |n| - s
  {
    if s < |n| {
      match CodeEnd(n, s)
      case Some(p) =>
        ScanOk(n, MatchEnd(n, p), file);
        ScanStep(n, s, p, file);
      case None =>
        ScanOk(n, s + 1, file);
        AllOkLower(n, Scan(n, s + 1, file), file, s + 1, s);
    }
  }

  /** The keys of one match's code group in front of the usages found after
      the match. */
  lemma {:induction false} ScanStep(n: string, s: nat, p: nat, file: string)
    requires s < |n| && CodeEnd(n, s) == Some(p)
    requires AllOk(n, Scan(n, MatchEnd(n, p), file), file, MatchEnd(n, p))
    requires Ascending(Scan(n, MatchEnd(n, p), file))
    ensures AllOk(n, Scan(n, s, file), file, s)
    ensures Ascending(Scan(n, s, file))
  {
    var e := MatchEnd(n, p);
    CodeEndLast(n, s);
    GroupOk(n, s, p, file);
    var first := KeyUsages(n, s, p, file);
    var rest := Scan(n, e, file);
    AscendingConcat(first, rest);
    AllOkLower(n, rest, file, e, s);
    AllOkConcat(n, first, rest, file, s);
    assert Scan(n, s, file) == first + rest;
  }

  lemma {:induction false} AllOkLower(n: string, us: seq<TokenUsage>, file: string, lo: nat, lo': nat)
    requires AllOk(n, us, file, lo) && lo' <= lo
    ensures AllOk(n, us, file, lo')
  {
  }

  // ---------------------------------------------------------------------------
  // Properties.

  /** Normalising carriage returns keeps the length and every other character
      at its index, so offsets into the normalised text index the file itself. */
  lemma {:induction false} NormalisationKeepsOffsets(content: string, i: nat)
    requires i < |content|
    ensures |ReplaceCR(content)| == |content|
    ensures content[i] != '\r' ==> ReplaceCR(content)[i] == content[i]
    ensures '\r' !in ReplaceCR(content)
  {
  }
}
