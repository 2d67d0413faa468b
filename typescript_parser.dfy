/** The script scanner (Parsing/TypeScriptParser.cs). It finds every match of
    `translateService\.(instant|get)\('(?<key>.*?)'.*?\)`, modelled directly
    as the leftmost, non-overlapping match sequence the regex engine produces. */
module TypeScriptParser {
  import opened Wrappers
  import opened Text
  import opened Usages

  /** The search pattern that selects the files this scanner handles. */
  const FileMask := "*.ts"

  const ServicePrefix := "translateService."
  const InstantOpen := "instant('"
  const GetOpen := "get('"

  predicate LiteralAt(t: string, i: nat, lit: string)
  {
    i + |lit| <= |t| && t[i..i + |lit|] == lit
  }

  /** Where the key starts when a match starts at `i`: after
      `translateService.instant('` or, the first alternative failing, after
      `translateService.get('`. */
  function KeyStart(t: string, i: nat): (r: Option<nat>)
    ensures r.Some? ==> i < r.value <= |t|
  {
    var j := i + |ServicePrefix|;
    if !LiteralAt(t, i, ServicePrefix) then None
    else if LiteralAt(t, j, InstantOpen) then Some(j + |InstantOpen|)
    else if LiteralAt(t, j, GetOpen) then Some(j + |GetOpen|)
    else None
  }

  /** The text before the key ends with one of the two call openings. */
  lemma {:induction false} KeyStartOpening(t: string, i: nat)
    requires KeyStart(t, i).Some?
    ensures var m := KeyStart(t, i).value;
            EndsWith(t[..m], ServicePrefix + InstantOpen) || EndsWith(t[..m], ServicePrefix + GetOpen)
  {
    var j := i + |ServicePrefix|;
    if LiteralAt(t, j, InstantOpen) {
      assert t[..j + |InstantOpen|][j + |InstantOpen| - |ServicePrefix + InstantOpen|..]
          == t[i..j] + t[j..j + |InstantOpen|];
    } else {
      assert t[..j + |GetOpen|][j + |GetOpen| - |ServicePrefix + GetOpen|..]
          == t[i..j] + t[j..j + |GetOpen|];
    }
  }

  /** The first line feed at or after `m`, or the end of the text: `.` does not
      cross a line feed, so the rest of a match lies before it. */
  function LineEnd(t: string, m: nat): (l: nat)
    requires m <= |t|
    ensures m <= l <= |t|
    decreases |t| - m
  {
    if m == |t| || t[m] == '\n' then m else LineEnd(t, m + 1)
  }

  /** The line end is the first line feed at or after `m`. */
  lemma {:induction false} LineEndFirst(t: string, m: nat)
    requires m <= |t|
    ensures forall x :: m <= x < LineEnd(t, m) ==> t[x] != '\n'
    ensures LineEnd(t, m) < |t| ==> t[LineEnd(t, m)] == '\n'
    decreases |t| - m
  {
    if m < |t| && t[m] != '\n' {
      LineEndFirst(t, m + 1);
    }
  }

  /** The first `)` in `[a, l)`: where the lazy `.*?\)` ends. */
  function FirstParen(t: string, a: nat, l: nat): (r: Option<nat>)
    requires a <= l <= |t|
    ensures r.Some? ==> a <= r.value < l && t[r.value] == ')'
    decreases l - a
  {
    if a == l then None
    else if t[a] == ')' then Some(a)
    else FirstParen(t, a + 1, l)
  }

  /** `FirstParen` finds the first `)` of the range, and finds none only
      when the range has none. */
  lemma {:induction false} FirstParenFirst(t: string, a: nat, l: nat)
    requires a <= l <= |t|
    ensures FirstParen(t, a, l).Some? ==> forall x :: a <= x < FirstParen(t, a, l).value ==> t[x] != ')'
    ensures FirstParen(t, a, l).None? <==> forall x :: a <= x < l ==> t[x] != ')'
    decreases l - a
  {
    if a < l && t[a] != ')' {
      FirstParenFirst(t, a + 1, l);
    }
  }

  /** The closing quote of the key: the lazy `.*?` tries each end `k` from the
      start on and takes the first with a `'` at `k` and a `)` later on the
      same line. */
  function KeyEnd(t: string, k: nat, l: nat): (r: Option<nat>)
    requires k <= l <= |t|
    ensures r.Some? ==> k <= r.value < l && t[r.value] == '\''
                        && FirstParen(t, r.value + 1, l).Some?
    decreases l - k
  {
    if k == l then None
    else if t[k] == '\'' && FirstParen(t, k + 1, l).Some? then Some(k)
    else KeyEnd(t, k + 1, l)
  }

  /** The key ends at the first `'` with a `)` after it on the line. */
  lemma {:induction false} KeyEndFirst(t: string, k: nat, l: nat)
    requires k <= l <= |t| && KeyEnd(t, k, l).Some?
    ensures forall x :: k <= x < KeyEnd(t, k, l).value ==> t[x] != '\'' || FirstParen(t, x + 1, l).None?
    decreases l - k
  {
    if KeyEnd(t, k, l).value != k {
      KeyEndFirst(t, k + 1, l);
    }
  }

  /** The match starting at `i`, if there is one: the key's span `[m, k)` and
      the end of the whole match. */
  datatype Call = Call(keyStart: nat, keyEnd: nat, matchEnd: nat)

  function MatchAt(t: string, i: nat): (r: Option<Call>)
    requires i <= |t|
    ensures r.Some? ==> i < r.value.keyStart <= r.value.keyEnd < r.value.matchEnd <= |t|
  {
    match KeyStart(t, i)
    case None => None
    case Some(m) =>
      var l := LineEnd(t, m);
      match KeyEnd(t, m, l)
      case None => None
      case Some(k) =>
        var p := FirstParen(t, k + 1, l).value;
        Some(Call(m, k, p + 1))
  }

  /** The matches found scanning from `i`: the next search starts where the
      previous match ends. */
  function Scan(t: string, i: nat, file: string): seq<TokenUsage>
    requires i <= |t|
    decreases |t| - i
  {
    if i == |t| then []
    else match MatchAt(t, i)
      case Some(c) =>
        [TokenUsage(t[c.keyStart..c.keyEnd], c.keyStart, c.keyEnd - c.keyStart, file)]
        + Scan(t, c.matchEnd, file)
      case None => Scan(t, i + 1, file)
  }

  /** The span of `u` is exactly its token; the text before it ends with one
      of the two call openings; the token is followed by `'` and, later on the
      same line, by `)`; the token holds no line feed and no `'`. */
  ghost predicate UsageOk(t: string, u: TokenUsage, file: string)
  {
    && u.begin + u.length < |t|
    && t[u.begin..u.begin + u.length] == u.token
    && (EndsWith(t[..u.begin], ServicePrefix + InstantOpen) || EndsWith(t[..u.begin], ServicePrefix + GetOpen))
    && t[u.begin + u.length] == '\''
    && (exists p :: u.begin + u.length < p < |t| && t[p] == ')'
                    && forall x :: u.begin + u.length < x < p ==> t[x] != '\n')
    && (forall x :: 0 <= x < |u.token| ==> u.token[x] != '\n' && u.token[x] != '\'')
    && u.fullFilename == file
  }

  ghost predicate AllOk(t: string, us: seq<TokenUsage>, file: string)
  {
    forall a :: 0 <= a < |us| ==> UsageOk(t, us[a], file)
  }

  /** `ParseFile` on the text of `file`, carriage returns turned into spaces. */
  function ParseFile(file: string, content: string): seq<TokenUsage>
  {
    Scan(ReplaceCR(content), 0, file)
  }

  /** Every usage found is a well-formed key span of the file's text, and
      the usages come in ascending order. */
  lemma {:induction false} ParseFileOk(file: string, content: string)
    ensures var r := ParseFile(file, content);
            && (forall a :: 0 <= a < |r| ==> UsageOk(ReplaceCR(content), r[a], file))
            && Ascending(r)
  {
    ScanOk(ReplaceCR(content), 0, file);
    ScanOrdered(ReplaceCR(content), 0, file);
  }

  // ---------------------------------------------------------------------------
  // Proofs.

  /** The lazy key cannot hold a `'`: at an earlier `'` no `)` followed on the
      line, so none follows the later one either. */
  lemma {:induction false} KeyHasNoQuote(t: string, m: nat, l: nat)
    requires m <= l <= |t| && KeyEnd(t, m, l).Some?
    ensures forall x :: m <= x < KeyEnd(t, m, l).value ==> t[x] != '\''
  {
    var k := KeyEnd(t, m, l).value;
    var p := FirstParen(t, k + 1, l).value;
    KeyEndFirst(t, m, l);
    forall x | m <= x < k
      ensures t[x] != '\''
    {
      ParenFound(t, x + 1, p, l);
    }
  }

  lemma {:induction false} ParenFound(t: string, a: nat, p: nat, l: nat)
    requires a <= p < l <= |t| && t[p] == ')'
    ensures FirstParen(t, a, l).Some?
  {
    FirstParenFirst(t, a, l);
  }

  /** No character of `t[m..k]` is a line feed or a quote. */
  lemma {:induction false} TokenClean(t: string, m: nat, k: nat)
    requires m <= k <= |t|
    requires forall x :: m <= x < k ==> t[x] != '\n' && t[x] != '\''
    ensures forall x :: 0 <= x < k - m ==> t[m..k][x] != '\n' && t[m..k][x] != '\''
  {
    forall x | 0 <= x < k - m
      ensures t[m..k][x] != '\n' && t[m..k][x] != '\''
    {
      assert t[m..k][x] == t[m + x];
    }
  }

  lemma {:induction false} MatchOk(t: string, i: nat, file: string)
    requires i <= |t| && MatchAt(t, i).Some?
    ensures var c := MatchAt(t, i).value;
            UsageOk(t, TokenUsage(t[c.keyStart..c.keyEnd], c.keyStart, c.keyEnd - c.keyStart, file), file)
  {
    var m := KeyStart(t, i).value;
    var l := LineEnd(t, m);
    var k := KeyEnd(t, m, l).value;
    var p := FirstParen(t, k + 1, l).value;
    KeyStartOpening(t, i);
    LineEndFirst(t, m);
    KeyHasNoQuote(t, m, l);
    SpanOk(t, m, k, p, l, file);
  }

  /** The usage of `t[m..k]` is well formed when the text before `m` ends
      with a call opening, `k` holds a quote, `p` a `)`, and no line feed
      lies in `[m, l)` after which `p` comes. */
  lemma {:induction false} SpanOk(t: string, m: nat, k: nat, p: nat, l: nat, file: string)
    requires m <= k < p < l <= |t| && t[k] == '\'' && t[p] == ')'
    requires EndsWith(t[..m], ServicePrefix + InstantOpen) || EndsWith(t[..m], ServicePrefix + GetOpen)
    requires forall x :: m <= x < l ==> t[x] != '\n'
    requires forall x :: m <= x < k ==> t[x] != '\''
    ensures UsageOk(t, TokenUsage(t[m..k], m, k - m, file), file)
  {
    TokenClean(t, m, k);
    assert k < p < |t| && t[p] == ')' && forall x :: k < x < p ==> t[x] != '\n';
  }

  lemma {:induction false} AllOkCons(t: string, u: TokenUsage, rest: seq<TokenUsage>, file: string)
    requires UsageOk(t, u, file) && AllOk(t, rest, file)
    ensures AllOk(t, [u] + rest, file)
  {
    var r := [u] + rest;
    forall a | 0 <= a < |r|
      ensures UsageOk(t, r[a], file)
    {
      if a > 0 {
        assert r[a] == rest[a - 1];
      }
    }
  }

  lemma {:induction false} ScanOk(t: string, i: nat, file: string)
    requires i <= |t|
    ensures AllOk(t, Scan(t, i, file), file)
    decreases |t| - i
  {
    if i < |t| {
      match MatchAt(t, i)
      case Some(c) =>
        ScanOk(t, c.matchEnd, file);
        MatchOk(t, i, file);
        AllOkCons(t, TokenUsage(t[c.keyStart..c.keyEnd], c.keyStart, c.keyEnd - c.keyStart, file),
                  Scan(t, c.matchEnd, file), file);
      case None =>
        ScanOk(t, i + 1, file);
    }
  }

  /** The usages found from `i` on start after `i` and come in ascending
      order. */
  lemma {:induction false} ScanOrdered(t: string, i: nat, file: string)
    requires i <= |t|
    ensures forall a :: 0 <= a < |Scan(t, i, file)| ==> i < Scan(t, i, file)[a].begin
    ensures Ascending(Scan(t, i, file))
    decreases |t| - i
  {
    if i < |t| {
      match MatchAt(t, i)
      case Some(c) =>
        ScanOrdered(t, c.matchEnd, file);
        ScanOrderedStep(t, i, file, c);
      case None =>
        ScanOrdered(t, i + 1, file);
    }
  }

  lemma {:induction false} ScanOrderedStep(t: string, i: nat, file: string, c: Call)
    requires i < |t| && MatchAt(t, i) == Some(c)
    requires forall a :: 0 <= a < |Scan(t, c.matchEnd, file)| ==> c.matchEnd < Scan(t, c.matchEnd, file)[a].begin
    requires Ascending(Scan(t, c.matchEnd, file))
    ensures forall a :: 0 <= a < |Scan(t, i, file)| ==> i < Scan(t, i, file)[a].begin
    ensures Ascending(Scan(t, i, file))
  {
    ScanMatch(t, i, file, c);
    var u := TokenUsage(t[c.keyStart..c.keyEnd], c.keyStart, c.keyEnd - c.keyStart, file);
    ConsOrdered(u, Scan(t, c.matchEnd, file), i, c.matchEnd);
  }

  /** A match at `i` is the first usage found from `i`. */
  lemma {:induction false} ScanMatch(t: string, i: nat, file: string, c: Call)
    requires i < |t| && MatchAt(t, i) == Some(c)
    ensures i < c.keyStart <= c.keyEnd < c.matchEnd <= |t|
    ensures Scan(t, i, file)
      == [TokenUsage(t[c.keyStart..c.keyEnd], c.keyStart, c.keyEnd - c.keyStart, file)] + Scan(t, c.matchEnd, file)
  {
  }

  lemma {:induction false} ConsOrdered(u: TokenUsage, rest: seq<TokenUsage>, lo: nat, hi: nat)
    requires lo < u.begin && u.begin + u.length < hi
    requires forall a :: 0 <= a < |rest| ==> hi < rest[a].begin
    requires Ascending(rest)
    ensures forall a :: 0 <= a < |[u] + rest| ==> lo < ([u] + rest)[a].begin
    ensures Ascending([u] + rest)
  {
    AscendingConcat([u], rest);
    var r := [u] + rest;
    forall a | 0 <= a < |r|
      ensures lo < r[a].begin
    {
      if a > 0 {
        assert r[a] == rest[a - 1];
      }
    }
  }
}
