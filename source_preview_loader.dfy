/** The code preview of a text item's usages (SourcePreviewLoader.cs): for
    each usage, up to 300 bytes before the key, the key, and up to 300 bytes
    after it, read from the source file through one stream and a 300-byte
    buffer. Each byte of the file is one character here. */
module SourcePreviewLoader {
  import opened Wrappers
  import opened Text
  import opened Usages
  import opened TreeItems

  const BufferSize: nat := 300

  /** A new buffer. */
  function Zeros(): (r: string)
    ensures |r| == BufferSize
  {
    seq(BufferSize, _ => '\0')
  }

  // ---------------------------------------------------------------------------
  // Line trimming.

  /** `RemoveFirstIncompleteLine`: drop everything up to the first line feed,
      when that line feed is not the last character. (With no line feed at
      all the source takes the substring from index 0, the whole text.) */
  function RemoveFirstIncompleteLine(text: string): string
  {
    var firstNewline := IndexOfChar(text, '\n');
    if 0 <= firstNewline < |text| - 1 then text[firstNewline + 1..] else text
  }

  /** Where the first cut falls: right after the first line feed, unless
      there is none before the last character. */
  lemma {:induction false} FirstLineCut(text: string)
    ensures RemoveFirstIncompleteLine(text)
      == if |text| > 0 && '\n' in text[..|text| - 1] then text[IndexOfChar(text, '\n') + 1..] else text
  {
    FirstIndexBefore(text, '\n');
  }

  /** `RemoveLastIncompleteLine`: drop everything from the last carriage
      return on, when it is at index 2 or later. */
  function RemoveLastIncompleteLine(text: string): string
  {
    var lastNewline := LastIndexOfChar(text, '\r');
    if lastNewline > 1 then text[..lastNewline] else text
  }

  lemma {:induction false} FirstIndexBefore(text: string, c: char)
    ensures 0 <= IndexOfChar(text, c) < |text| - 1 <==> |text| > 0 && c in text[..|text| - 1]
  {
    var k := IndexOfChar(text, c);
    if 0 <= k < |text| - 1 {
      assert text[..|text| - 1][k] == c;
    }
    if |text| > 0 && c in text[..|text| - 1] {
      var j :| 0 <= j < |text| - 1 && text[..|text| - 1][j] == c;
      assert text[j] in text;
    }
  }

  /** A trimmed window is a suffix of the window; when something was cut,
      it starts right after a line feed, and the cut-off part is the one
      line the window began in the middle of. */
  lemma {:induction false} FirstLineRemoved(text: string)
    ensures var r := RemoveFirstIncompleteLine(text);
      var cut := |text| - |r|;
      && |r| <= |text| && r == text[cut..]
      && (r != text ==> cut > 0 && text[cut - 1] == '\n' && '\n' !in text[..cut - 1] && |r| > 0)
  {
  }

  /** A trimmed window is a prefix of the window; when something was cut,
      it ends just before a carriage return, and there is none after that
      one. */
  lemma {:induction false} LastLineRemoved(text: string)
    ensures var r := RemoveLastIncompleteLine(text);
      && r <= text
      && (r != text ==> |r| > 1 && |r| < |text| && text[|r|] == '\r' && '\r' !in text[|r| + 1..])
  {
  }

  /** Where the last cut falls: at the last carriage return, when it is at
      index 2 or later. */
  lemma {:induction false} LastLineCut(text: string)
    ensures RemoveLastIncompleteLine(text)
      == if LastIndexOfChar(text, '\r') > 1 then text[..LastIndexOfChar(text, '\r')] else text
  {
  }

  // ---------------------------------------------------------------------------
  // The stream.

  /** The exceptions `Stream.Read` can throw here. */
  datatype ReadError =
    | NegativeCount   // ArgumentOutOfRangeException: the count is negative
    | PastBuffer      // ArgumentException: the count runs past the buffer

  /** How many bytes a read of `count` bytes at `pos` gets from a file of
      `len` bytes. */
  function ReadCount(len: nat, pos: nat, count: nat): (n: nat)
    ensures n <= count && (n > 0 ==> pos + n <= len)
    ensures pos + count <= len ==> n == count
  {
    if pos >= len then 0 else if count <= len - pos then count else len - pos
  }

  /** The bytes a read gets, copied over the front of the buffer. */
  function Overlay(buffer: string, content: string, pos: nat, n: nat): (r: string)
    requires n <= |buffer| && (n > 0 ==> pos + n <= |content|)
    ensures |r| == |buffer|
  {
    if n == 0 then buffer else content[pos..pos + n] + buffer[n..]
  }

  /** An open `FileStream`: the file's bytes and the read position. */
  class Stream {
    const content: string
    var position: nat

    constructor (content: string)
      ensures this.content == content && position == 0
    {
      this.content := content;
      position := 0;
    }

    method Seek(offset: nat)
      modifies this
      ensures position == offset
    {
      position := offset;
    }

    /** `Read(buffer, 0, count)`: the arguments are checked, then as many
        bytes as the file still has, up to `count`, are copied. */
    method Read(buffer: array<char>, count: int) returns (r: Result<nat, ReadError>)
      modifies this, buffer
      ensures count < 0 ==> r == Failure(NegativeCount)
      ensures count > buffer.Length ==> r == Failure(PastBuffer)
      ensures r.Failure? ==> position == old(position) && buffer[..] == old(buffer[..])
      ensures 0 <= count <= buffer.Length ==>
        && r == Success(ReadCount(|content|, old(position), count))
        && position == old(position) + r.value
        && buffer[..] == Overlay(old(buffer[..]), content, old(position), r.value)
    {
      if count < 0 {
        return Failure(NegativeCount);
      }
      if count > buffer.Length {
        return Failure(PastBuffer);
      }
      var n := ReadCount(|content|, position, count);
      Copy(buffer, content, position, n);
      position := position + n;
      r := Success(n);
    }
  }

  /** The copy a read makes into the front of the buffer. */
  method Copy(buffer: array<char>, content: string, start: nat, n: nat)
    requires n <= buffer.Length && (n > 0 ==> start + n <= |content|)
    modifies buffer
    ensures buffer[..] == Overlay(old(buffer[..]), content, start, n)
  {
    if n == 0 {
      return;
    }
    ghost var before := buffer[..];
    for i := 0 to n
      invariant forall j :: 0 <= j < i ==> buffer[j] == content[start + j]
      invariant forall j :: i <= j < buffer.Length ==> buffer[j] == before[j]
    {
      buffer[i] := content[start + i];
    }
    assert buffer[..] == content[start..start + n] + before[n..];
  }

  // ---------------------------------------------------------------------------
  // One usage.

  /** What the preview fields of a usage show; `before` holds the error
      when reading failed. */
  datatype BeforeText = Code(code: string) | Error(error: ReadError)
  datatype View = View(before: Option<BeforeText>, key: Option<string>, after: Option<string>)

  /** The length of the window before the key: at most 300 bytes, and never
      more than there are before it. */
  function BeforeLength(begin: nat): (r: nat)
    ensures r <= BufferSize && r <= begin && (r == BufferSize || r == begin)
  {
    if begin < BufferSize then begin else BufferSize
  }

  /** The length of the window after the key: 300 bytes, or what is left of
      the file when that is less, which is negative past the end. */
  function AfterLength(position: nat, len: nat): (r: int)
    ensures r <= BufferSize
    ensures position <= len ==> 0 <= r && position + r <= len && (r == BufferSize || r == len - position)
  {
    if position + BufferSize > len then len - position else BufferSize
  }

  /** The buffer and the stream position after some reads. */
  datatype Reading = Reading(buffer: string, position: nat)

  /** One `Read(buffer, 0, count)` with a valid count. */
  function ReadStep(content: string, s: Reading, count: nat): (r: Reading)
    requires count <= |s.buffer|
    ensures |r.buffer| == |s.buffer| && r.position >= s.position
  {
    var n := ReadCount(|content|, s.position, count);
    Reading(Overlay(s.buffer, content, s.position, n), s.position + n)
  }

  /** A read that stays inside the file gets all it asks for. */
  lemma {:induction false} ReadInFile(content: string, s: Reading, count: nat)
    requires count <= |s.buffer| && s.position + count <= |content|
    ensures var r := ReadStep(content, s, count);
      r.position == s.position + count && r.buffer[..count] == content[s.position..s.position + count]
  {
  }

  /** `LoadTokenUsageCodePreview`: the three fields after the preview of a
      usage, starting from `prior` and a zeroed buffer. An exception is
      caught and its text goes into the before-key field. */
  function Preview(u: TokenUsage, content: string, prior: View): View
  {
    PreviewFrom(u, content, prior, Zeros())
  }

  /** The same from any buffer of the right size. */
  function PreviewFrom(u: TokenUsage, content: string, prior: View, buffer: string): View
    requires |buffer| == BufferSize
  {
    var w1 := BeforeLength(u.begin);
    var s1 := ReadStep(content, Reading(buffer, u.begin - w1), w1);
    PreviewKey(u, content, prior, s1.buffer[..w1], s1)
  }

  /** The read of the key, once the window before it is read. */
  function PreviewKey(u: TokenUsage, content: string, prior: View, window: string, s1: Reading): View
    requires |s1.buffer| == BufferSize
  {
    if u.length > BufferSize then View(Some(Error(PastBuffer)), prior.key, prior.after)
    else
      var s2 := ReadStep(content, s1, u.length);
      PreviewAfter(content, prior, window, s2.buffer[..u.length], s2)
  }

  /** The read after the key, once the key is known. */
  function PreviewAfter(content: string, prior: View, window: string, key: string, s2: Reading): View
    requires |s2.buffer| == BufferSize
  {
    var w3 := AfterLength(s2.position, |content|);
    if w3 < 0 then View(Some(Error(NegativeCount)), Some(key), prior.after)
    else
      var s3 := ReadStep(content, s2, w3);
      View(Some(Code(RemoveFirstIncompleteLine(window))), Some(key), Some(RemoveLastIncompleteLine(s3.buffer[..w3])))
  }

  /** The preview fields of one `TokenUsage`. */
  class CodeView {
    var before: Option<BeforeText>
    var key: Option<string>
    var after: Option<string>

    constructor ()
      ensures before.None? && key.None? && after.None?
    {
      before := None;
      key := None;
      after := None;
    }

    function Fields(): View
      reads this
    {
      View(before, key, after)
    }
  }

  /** `LoadTokenUsageCodePreview(tokenUsage, stream)`. */
  method LoadTokenUsageCodePreview(u: TokenUsage, view: CodeView, stream: Stream)
    modifies view, stream
    ensures view.Fields() == Preview(u, stream.content, old(view.Fields()))
  {
    var buffer := new char[BufferSize](_ => '\0');
    assert buffer[..] == Zeros();
    ReadWindow(u, view, stream, buffer);
  }

  /** The seek and the read of the window before the key, into `buffer`. */
  method ReadWindow(u: TokenUsage, view: CodeView, stream: Stream, buffer: array<char>)
    requires buffer.Length == BufferSize
    modifies view, stream, buffer
    ensures view.Fields() == PreviewFrom(u, stream.content, old(view.Fields()), old(buffer[..]))
  {
    ghost var prior := view.Fields();
    var keyPosition := u.begin;
    var length := BufferSize;
    if keyPosition < length {
      length := keyPosition;
    }
    stream.Seek(keyPosition - length);
    ghost var s := Reading(buffer[..], stream.position);
    var read := stream.Read(buffer, length);
    s := ReadStep(stream.content, s, length);
    var window := buffer[..length];
    FirstRead(u, stream.content, prior, old(buffer[..]));
    view.before := Some(Code(RemoveFirstIncompleteLine(window)));
    ReadKey(u, view, stream, buffer, window, s, prior);
  }

  /** The first read of a usage: the window before the key. */
  lemma {:induction false} FirstRead(u: TokenUsage, content: string, prior: View, buffer: string)
    requires |buffer| == BufferSize
    ensures var w1 := BeforeLength(u.begin);
      var s1 := ReadStep(content, Reading(buffer, u.begin - w1), w1);
      PreviewFrom(u, content, prior, buffer) == PreviewKey(u, content, prior, s1.buffer[..w1], s1)
  {
  }

  /** The rest of `LoadTokenUsageCodePreview`, from the read of the key on. */
  method ReadKey(u: TokenUsage, view: CodeView, stream: Stream, buffer: array<char>, window: string, ghost s: Reading, ghost prior: View)
    requires buffer.Length == BufferSize && buffer[..] == s.buffer && stream.position == s.position
    requires view.before == Some(Code(RemoveFirstIncompleteLine(window)))
    requires view.key == prior.key && view.after == prior.after
    modifies view, stream, buffer
    ensures view.Fields() == PreviewKey(u, stream.content, prior, window, s)
  {
    var read := stream.Read(buffer, u.length);
    if read.Failure? {
      view.before := Some(Error(read.error));
      return;
    }
    ghost var s2 := ReadStep(stream.content, s, u.length);
    var key := buffer[..u.length];
    view.key := Some(key);
    ReadAfter(view, stream, buffer, window, key, s2, prior);
  }

  /** The read of the text after the key. */
  method ReadAfter(view: CodeView, stream: Stream, buffer: array<char>, window: string, key: string, ghost s: Reading, ghost prior: View)
    requires buffer.Length == BufferSize && buffer[..] == s.buffer && stream.position == s.position
    requires view.before == Some(Code(RemoveFirstIncompleteLine(window))) && view.key == Some(key)
    requires view.after == prior.after
    modifies view, stream, buffer
    ensures view.Fields() == PreviewAfter(stream.content, prior, window, key, s)
  {
    var after: int := BufferSize;
    if stream.position + after > |stream.content| {
      after := |stream.content| - stream.position;
    }
    var read := stream.Read(buffer, after);
    if read.Failure? {
      view.before := Some(Error(read.error));
      return;
    }
    view.after := Some(RemoveLastIncompleteLine(buffer[..after]));
  }

  /** `LoadSourceCodePreviewAsync(treeItem)`: nothing happens to an item that
      is not a text item; otherwise its file is opened, which fails when it
      cannot be read or the item names none, and each usage gets its preview
      in turn. `views[k]` holds the fields of usage `k`. */
  method LoadSourceCodePreview(item: Item, views: seq<CodeView>, texts: map<string, string>) returns (r: Result<(), string>)
    requires item.tokenUsages.Some? ==> |views| == |item.tokenUsages.value|
    requires forall i, j :: 0 <= i < j < |views| ==> views[i] != views[j]
    modifies set k | 0 <= k < |views| :: views[k]
    ensures !IsTextItem(item) ==> r == Success(()) && forall k :: 0 <= k < |views| ==> views[k].Fields() == old(views[k].Fields())
    ensures IsTextItem(item) && (item.fullFilename.None? || item.fullFilename.value !in texts) ==>
              r.Failure? && forall k :: 0 <= k < |views| ==> views[k].Fields() == old(views[k].Fields())
    ensures IsTextItem(item) && item.fullFilename.Some? && item.fullFilename.value in texts ==>
              if item.tokenUsages.None? then r.Failure?
              else r == Success(()) && forall k :: 0 <= k < |views| ==>
                     views[k].Fields() == Preview(item.tokenUsages.value[k], texts[item.fullFilename.value], old(views[k].Fields()))
  {
    if !IsTextItem(item) {
      return Success(());
    }
    if item.fullFilename.None? || item.fullFilename.value !in texts {
      return Failure("file not found");
    }
    var stream := new Stream(texts[item.fullFilename.value]);
    if item.tokenUsages.None? {
      return Failure("no token usages");
    }
    LoadUsages(item.tokenUsages.value, views, stream);
    r := Success(());
  }

  /** The loop over the usages, all read through one stream. */
  method LoadUsages(us: seq<TokenUsage>, views: seq<CodeView>, stream: Stream)
    requires |views| == |us|
    requires forall i, j :: 0 <= i < j < |views| ==> views[i] != views[j]
    modifies stream, set k | 0 <= k < |views| :: views[k]
    ensures forall k :: 0 <= k < |views| ==> views[k].Fields() == Preview(us[k], stream.content, old(views[k].Fields()))
  {
    ghost var priors := FieldsOf(views);
    for k := 0 to |us|
      invariant forall j :: 0 <= j < k ==> views[j].Fields() == Preview(us[j], stream.content, priors[j])
      invariant forall j :: k <= j < |views| ==> views[j].Fields() == priors[j]
    {
      ghost var done := FieldsOf(views);
      LoadTokenUsageCodePreview(us[k], views[k], stream);
      forall j | 0 <= j < |views| && j != k
        ensures views[j].Fields() == done[j]
      {
        assert views[j] != views[k];
      }
    }
  }

  /** The preview fields of each view. */
  function FieldsOf(views: seq<CodeView>): (r: seq<View>)
    reads set k | 0 <= k < |views| :: views[k]
    ensures |r| == |views| && forall k :: 0 <= k < |views| ==> r[k] == views[k].Fields()
  {
    seq(|views|, k requires 0 <= k < |views| reads set i | 0 <= i < |views| :: views[i] => views[k].Fields())
  }

  // ---------------------------------------------------------------------------
  // What the preview shows.

  /** The text just around a usage that lies in the file: the 300 bytes
      before the key (fewer near the start of the file) without their first
      incomplete line, the key's own span, and the 300 bytes after it (fewer
      near the end) without their last incomplete line. */
  function InFileView(u: TokenUsage, content: string): View
    requires u.begin + u.length <= |content|
  {
    var w1 := BeforeLength(u.begin);
    AroundView(content[u.begin - w1..u.begin], content, u.begin, u.begin + u.length)
  }

  /** The view of the key `content[begin..end]` with `window` read before
      it and the bytes after it read from the file. */
  function AroundView(window: string, content: string, begin: nat, end: nat): View
    requires begin <= end <= |content|
  {
    var w3 := AfterLength(end, |content|);
    View(Some(Code(RemoveFirstIncompleteLine(window))),
         Some(content[begin..end]),
         Some(RemoveLastIncompleteLine(content[end..end + w3])))
  }

  /** For a usage that lies in the file, nothing is thrown and the preview is
      the text just around it. */
  lemma {:induction false} PreviewInFile(u: TokenUsage, content: string, prior: View)
    requires u.begin + u.length <= |content| && u.length <= BufferSize
    ensures Preview(u, content, prior) == InFileView(u, content)
  {
    FromInFile(u, content, prior, Zeros());
  }

  /** Whatever the buffer held before, a usage in the file overwrites every
      byte of it that the preview shows. */
  lemma {:induction false} FromInFile(u: TokenUsage, content: string, prior: View, buffer: string)
    requires |buffer| == BufferSize && u.begin + u.length <= |content| && u.length <= BufferSize
    ensures PreviewFrom(u, content, prior, buffer) == InFileView(u, content)
  {
    var w1 := BeforeLength(u.begin);
    WindowInFile(u, content, prior, Reading(buffer, u.begin - w1), w1);
  }

  /** The read of the window before the key, from any buffer of the right size. */
  lemma {:induction false} WindowInFile(u: TokenUsage, content: string, prior: View, s0: Reading, w1: nat)
    requires |s0.buffer| == BufferSize && w1 == BeforeLength(u.begin) && s0.position == u.begin - w1
    requires u.begin + u.length <= |content| && u.length <= BufferSize
    ensures var s1 := ReadStep(content, s0, w1);
      PreviewKey(u, content, prior, s1.buffer[..w1], s1) == InFileView(u, content)
  {
    var s1 := ReadStep(content, s0, w1);
    ReadInFile(content, s0, w1);
    var window := s1.buffer[..w1];
    KeyInFile(u, content, prior, window, s1);
    InFileAround(u, content, window);
  }

  lemma {:induction false} InFileAround(u: TokenUsage, content: string, window: string)
    requires u.begin + u.length <= |content|
    requires window == content[u.begin - BeforeLength(u.begin)..u.begin]
    ensures InFileView(u, content) == AroundView(window, content, u.begin, u.begin + u.length)
  {
  }

  lemma {:induction false} KeyInFile(u: TokenUsage, content: string, prior: View, window: string, s1: Reading)
    requires |s1.buffer| == BufferSize && s1.position == u.begin
    requires u.begin + u.length <= |content| && u.length <= BufferSize
    ensures PreviewKey(u, content, prior, window, s1) == AroundView(window, content, u.begin, u.begin + u.length)
  {
    var s2 := ReadStep(content, s1, u.length);
    ReadInFile(content, s1, u.length);
    var key := s2.buffer[..u.length];
    assert key == content[u.begin..u.begin + u.length];
    AfterInFile(content, prior, window, key, s2);
  }

  lemma {:induction false} AfterInFile(content: string, prior: View, window: string, key: string, s2: Reading)
    requires |s2.buffer| == BufferSize && |key| <= s2.position <= |content|
    requires content[s2.position - |key|..s2.position] == key
    ensures PreviewAfter(content, prior, window, key, s2) == AroundView(window, content, s2.position - |key|, s2.position)
  {
    var w3 := AfterLength(s2.position, |content|);
    ReadInFile(content, s2, w3);
  }

  /** A key longer than the buffer cannot be read: the error replaces the
      before-key text and the other fields keep what they had. */
  lemma {:induction false} PreviewLongKey(u: TokenUsage, content: string, prior: View)
    requires u.length > BufferSize
    ensures Preview(u, content, prior) == View(Some(Error(PastBuffer)), prior.key, prior.after)
  {
  }
}
