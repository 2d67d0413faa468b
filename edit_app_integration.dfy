/** Where the editor puts the cursor (EditAppIntegration.cs): the 1-based
    line and column of a usage, counted over the bytes of the file before the
    usage's start. Each byte of the file is one character here. */
module EditAppIntegration {
  import opened Wrappers
  import opened Text
  import opened Usages
  import opened TreeItems

  /** The number of carriage returns in `s`. */
  function CountCR(s: string): nat
    decreases |s|
  {
    if s == [] then 0 else CountCR(s[..|s| - 1]) + (if s[|s| - 1] == '\r' then 1 else 0)
  }

  /** `new byte[n]` after `Read(buffer, 0, n)`: the first `n` bytes of the
      file, and zero bytes past its end. */
  function Buffer(content: string, n: nat): (r: string)
    ensures |r| == n
    ensures forall i :: 0 <= i < n ==> r[i] == if i < |content| then content[i] else '\0'
  {
    seq(n, i requires 0 <= i < n => if i < |content| then content[i] else '\0')
  }

  /** The line: one more than the carriage returns before the start. */
  function Line(before: string): int
  {
    1 + CountCR(before)
  }

  /** The column: one more than the start without a carriage return before
      it; otherwise counted from the last one, skipping it and the line feed
      assumed to follow it. */
  function Column(before: string): int
  {
    var k := LastIndexOfChar(before, '\r');
    if k < 0 then |before| + 1 else |before| - k - 1
  }

  /** `GetLineInfo(usage, out line, out char)`: `(1, 1)` for no usage,
      otherwise a loop over the bytes before the usage's start. */
  method GetLineInfo(usage: Option<TokenUsage>, content: string) returns (line: int, column: int)
    ensures usage.None? ==> line == 1 && column == 1
    ensures usage.Some? ==>
      var before := Buffer(content, usage.value.begin);
      line == Line(before) && column == Column(before)
  {
    if usage.None? {
      return 1, 1;
    }
    var n := usage.value.begin;
    var buffer := new char[n](i requires 0 <= i < n => if i < |content| then content[i] else '\0');
    ghost var before := Buffer(content, n);
    assert buffer[..] == before;
    line := 1;
    column := 1;
    for i := 0 to n
      invariant buffer[..] == before
      invariant line == Line(before[..i])
      invariant column == Column(before[..i])
    {
      assert before[..i + 1][..i] == before[..i];
      LastIndexStep(before[..i + 1]);
      if buffer[i] == '\r' {
        line := line + 1;
        column := -1;
      }
      column := column + 1;
    }
    assert before[..n] == before;
  }

  lemma {:induction false} LastIndexStep(s: string)
    requires s != []
    ensures LastIndexOfChar(s, '\r') ==
      if s[|s| - 1] == '\r' then |s| - 1 else LastIndexOfChar(s[..|s| - 1], '\r')
  {
  }

  /** `GetFirstUsageLineInfo`: the place of the item's first usage, or
      `(1, 1)` when it has none or its usage list is null. */
  method GetFirstUsageLineInfo(item: Item, content: string) returns (line: int, column: int)
    ensures var first := FirstUsage(item);
      (first.None? ==> line == 1 && column == 1)
      && (first.Some? ==> var before := Buffer(content, first.value.begin);
                          line == Line(before) && column == Column(before))
  {
    line, column := GetLineInfo(FirstUsage(item), content);
  }

  /** `TokenUsages?.FirstOrDefault()`. */
  function FirstUsage(item: Item): (r: Option<TokenUsage>)
    ensures r.Some? <==> item.tokenUsages.Some? && |item.tokenUsages.value| > 0
    ensures r.Some? ==> r.value == item.tokenUsages.value[0]
  {
    if item.tokenUsages.Some? && |item.tokenUsages.value| > 0 then Some(item.tokenUsages.value[0]) else None
  }

  /** `GetSourceFile(treeItem, out path)`: the item's file, when there is an
      item and it has a file. */
  function GetSourceFile(item: Option<Item>): (r: Option<string>)
    ensures r.Some? <==> item.Some? && item.value.fullFilename.Some?
    ensures r.Some? ==> r.value == item.value.fullFilename.value
  {
    if item.None? then None
    else if item.value.fullFilename.None? then None
    else Some(item.value.fullFilename.value)
  }

  // ---------------------------------------------------------------------------
  // What the line and column mean.

  lemma {:induction false} CountCRConcat(a: string, b: string)
    ensures CountCR(a + b) == CountCR(a) + CountCR(b)
    decreases |b|
  {
    if b == [] {
      assert a + b == a;
    } else {
      assert (a + b)[..|a + b| - 1] == a + b[..|b| - 1];
      CountCRConcat(a, b[..|b| - 1]);
    }
  }

  lemma {:induction false} NoCR(s: string)
    requires '\r' !in s
    ensures CountCR(s) == 0
    decreases |s|
  {
    if s != [] {
      assert s[..|s| - 1] <= s;
      NoCR(s[..|s| - 1]);
    }
  }

  /** Lines joined by CR LF, the last line the one the usage starts in. */
  function JoinLines(lines: seq<string>): string
    decreases |lines|
  {
    if lines == [] then ""
    else if |lines| == 1 then lines[0]
    else JoinLines(lines[..|lines| - 1]) + "\r\n" + lines[|lines| - 1]
  }

  /** On a file with Windows line ends the place is exact: before a usage
      that starts on line `n`, after `m` characters of that line, there are
      `n - 1` line ends, and the editor gets line `n` and column `m + 1`. */
  lemma {:induction false} LineInfoOfLines(lines: seq<string>)
    requires |lines| > 0 && forall k :: 0 <= k < |lines| ==> '\r' !in lines[k]
    ensures Line(JoinLines(lines)) == |lines|
    ensures Column(JoinLines(lines)) == |lines[|lines| - 1]| + 1
    decreases |lines|
  {
    var last := lines[|lines| - 1];
    NoCR(last);
    if |lines| > 1 {
      var init := lines[..|lines| - 1];
      var j := JoinLines(init);
      LineInfoOfLines(init);
      var s := j + "\r\n" + last;
      CountCRConcat(j + "\r\n", last);
      CountCRConcat(j, "\r\n");
      assert CountCR("\r\n") == 1 by {
        assert "\r\n"[..1] == "\r";
        assert "\r"[..0] == "";
      }
      assert s[|j|] == '\r';
      assert s[|j| + 1..] == "\n" + last;
      LastIndexUnique(s, |j|, '\r');
    }
  }
}
