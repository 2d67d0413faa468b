/** The two record types the scanners, the tree and the rename engine pass
    around (ViewModels/TokenUsage.cs and ViewModels/Translation.cs). */
module Usages {
  import opened Wrappers

  /** One occurrence of a key literal: `token` is the key text, and
      `[begin, begin + length)` its span in the scanned file. */
  datatype TokenUsage = TokenUsage(token: string, begin: nat, length: nat, fullFilename: string)

  /** One language's text for a key; `None` stands for a null text: the key
      has no translation in that language yet. */
  datatype Translation = Translation(language: string, text: Option<string>)

  /** Spans come in strictly increasing order and never overlap: there is at
      least one character (a closing quote) between two of them. */
  ghost predicate Ascending(us: seq<TokenUsage>)
  {
    forall a, b :: 0 <= a < b < |us| ==> us[a].begin + us[a].length < us[b].begin
  }

  lemma {:induction false} AscendingConcat(xs: seq<TokenUsage>, ys: seq<TokenUsage>)
    requires Ascending(xs) && Ascending(ys)
    requires forall a, b :: 0 <= a < |xs| && 0 <= b < |ys| ==> xs[a].begin + xs[a].length < ys[b].begin
    ensures Ascending(xs + ys)
  {
    var all := xs + ys;
    forall a, b | 0 <= a < b < |all|
      ensures all[a].begin + all[a].length < all[b].begin
    {
      if b < |xs| {
        assert all[a] == xs[a] && all[b] == xs[b];
      } else if a < |xs| {
        assert all[a] == xs[a] && all[b] == ys[b - |xs|];
      } else {
        assert all[a] == ys[a - |xs|] && all[b] == ys[b - |xs|];
      }
    }
  }
}
