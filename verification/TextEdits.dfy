/**
 * Character-range edits (crates/aifed/src/text_edit.rs): positions are a line and a count of characters
 * in it, resolved to byte offsets of the UTF-8 text, and edits are applied from the bottom of the file up.
 */
module TextEdits {
  import opened Prelude
  import opened StableSort
  import opened FileText

  type u32 = n: int | 0 <= n < 0x1_0000_0000

  datatype Position = Position(line: u32, character: u32)
  datatype Range = Range(start: Position, end: Position)
  datatype TextEdit = TextEdit(range: Range, newText: string)

  datatype EditError =
    | StartAfterEnd(range: Range)
    | EndOutOfBounds(range: Range)
    | StartCharacterOutOfLine(range: Range)
    | EndCharacterOutOfLine(range: Range)
    | ReplacePanic  // a byte range that is reversed, out of bounds or splits a character

  // ---------- UTF-8 ----------

  function Width(c: char): nat {
    if c < '\U{80}' then 1 else if c < '\U{800}' then 2 else if c < '\U{10000}' then 3 else 4
  }

  /** The bytes of a character (section 3 of RFC 3629). */
  function Utf8(c: char): seq<nat> {
    var n := c as int;
    if n < 0x80 then [n]
    else if n < 0x800 then [0xC0 + n / 64, 0x80 + n % 64]
    else if n < 0x1_0000 then [0xE0 + n / 64 / 64, 0x80 + n / 64 % 64, 0x80 + n % 64]
    else [0xF0 + n / 64 / 64 / 64, 0x80 + n / 64 / 64 % 64, 0x80 + n / 64 % 64, 0x80 + n % 64]
  }

  /** The width of a character is the number of its bytes. */
  lemma WidthOfBytes(c: char)
    ensures |Utf8(c)| == Width(c) && forall i :: 0 <= i < |Utf8(c)| ==> Utf8(c)[i] < 0x100
  {
  }

  function ByteLen(s: string): nat {
    if s == "" then 0 else Width(s[0]) + ByteLen(s[1..])
  }

  lemma {:induction false} ByteLenConcat(a: string, b: string)
    ensures ByteLen(a + b) == ByteLen(a) + ByteLen(b)
  {
    if a == "" {
      assert a + b == b;
    } else {
      assert (a + b)[1..] == a[1..] + b;
      ByteLenConcat(a[1..], b);
    }
  }

  /** The number of whole characters in the first `b` bytes. */
  function CharsIn(s: string, b: nat): (n: nat)
    ensures n <= |s|
  {
    if s == "" || b < Width(s[0]) then 0 else 1 + CharsIn(s[1..], b - Width(s[0]))
  }

  predicate CharBoundary(s: string, b: nat) { ByteLen(s[..CharsIn(s, b)]) == b }

  lemma {:induction false} BoundaryAt(s: string, i: nat)
    requires i <= |s|
    ensures CharsIn(s, ByteLen(s[..i])) == i
  {
    if i > 0 {
      assert s[..i][1..] == s[1..][..i - 1];
      BoundaryAt(s[1..], i - 1);
    } else {
      assert s[..i] == "";
    }
  }

  // ---------- positions to byte offsets ----------

  function CharOffsetToByteOffset(line: Line, charOffset: nat): nat {
    if charOffset < |line| then ByteLen(line[..charOffset]) else ByteLen(line)
  }

  /** The bytes of the first `n` lines, each with its newline; lines that do not exist add nothing. */
  function LinesBytes(lines: seq<Line>, n: nat): nat {
    if n == 0 then 0
    else LinesBytes(lines, n - 1) + if n <= |lines| then ByteLen(lines[n - 1]) + 1 else 0
  }

  function ByteOffset(content: string, pos: Position): nat {
    var lines := SplitLines(content);
    LinesBytes(lines, pos.line)
    + CharOffsetToByteOffset(if pos.line < |lines| then lines[pos.line] else "", pos.character)
  }

  method PositionToByteOffset(content: string, pos: Position) returns (offset: nat)
    ensures offset == ByteOffset(content, pos)
  {
    var lines := SplitLines(content);
    offset := 0;
    for i := 0 to pos.line
      invariant offset == LinesBytes(lines, i)
    {
      offset := offset + if i < |lines| then ByteLen(lines[i]) + 1 else 0;
    }
    var line := if pos.line < |lines| then lines[pos.line] else "";
    offset := offset + CharOffsetToByteOffset(line, pos.character);
  }

  /** Where character index `i` is: the newlines before it, and the characters since the last of them. */
  function LineOf(content: string, i: nat): nat
    requires i <= |content|
  {
    |SplitLines(content[..i])| - 1
  }

  function ColumnOf(content: string, i: nat): nat
    requires i <= |content|
  {
    var lines := SplitLines(content[..i]);
    |lines[|lines| - 1]|
  }

  ghost predicate IsAt(content: string, i: nat, pos: Position) {
    i <= |content| && LineOf(content, i) == pos.line && ColumnOf(content, i) == pos.character
  }

  /** The position names an existing line and a character within it, or the end of that line. */
  predicate Names(content: string, pos: Position) {
    var lines := SplitLines(content);
    pos.line < |lines| && pos.character <= |lines[pos.line]|
  }

  predicate Leq(a: Position, b: Position) {
    a.line < b.line || (a.line == b.line && a.character <= b.character)
  }

  predicate Less(a: Position, b: Position) {
    a.line < b.line || (a.line == b.line && a.character < b.character)
  }

  lemma {:induction false} LinesBytesPrefix(a: seq<Line>, b: seq<Line>, n: nat)
    requires n <= |a| && n <= |b| && a[..n] == b[..n]
    ensures LinesBytes(a, n) == LinesBytes(b, n)
  {
    if n > 0 {
      assert a[..n][n - 1] == b[..n][n - 1];
      assert a[..n - 1] == a[..n][..n - 1] && b[..n - 1] == b[..n][..n - 1];
      LinesBytesPrefix(a, b, n - 1);
    }
  }

  lemma {:induction false} LinesBytesTail(lines: seq<Line>, n: nat)
    requires lines != [] && n < |lines|
    ensures LinesBytes(lines, n + 1) == ByteLen(lines[0]) + 1 + LinesBytes(lines[1..], n)
  {
    if n > 0 {
      LinesBytesTail(lines, n - 1);
    }
  }

  /** All lines but the last with their newlines, then the last, are the whole text. */
  lemma {:induction false} SplitBytes(content: string)
    ensures var lines := SplitLines(content);
            LinesBytes(lines, |lines| - 1) + ByteLen(lines[|lines| - 1]) == ByteLen(content)
  {
    if content != "" {
      var rest := SplitLines(content[1..]);
      var lines := SplitLines(content);
      SplitBytes(content[1..]);
      if content[0] == '\n' {
        assert lines[1..] == rest;
        LinesBytesTail(lines, |rest| - 1);
      } else {
        assert lines[0][1..] == rest[0];
        assert lines[1..] == rest[1..];
        if |rest| > 1 {
          LinesBytesTail(lines, |rest| - 2);
          LinesBytesTail(rest, |rest| - 2);
        }
      }
    }
  }

  /** The text up to an index splits into the same lines, the last one cut short. */
  lemma PrefixLines(content: string, i: nat)
    requires i <= |content|
    ensures var l, all, before := LineOf(content, i), SplitLines(content), SplitLines(content[..i]);
            && l < |all|
            && all[..l] == before[..l]
            && ColumnOf(content, i) <= |all[l]|
            && before[l] == all[l][..ColumnOf(content, i)]
  {
    hide SplitLines;
    assert content == content[..i] + content[i..];
    SplitConcat(content[..i], content[i..]);
  }

  /** The offset of a position is the byte length of the text before it. */
  lemma {:induction false} OffsetAt(content: string, i: nat, pos: Position)
    requires IsAt(content, i, pos)
    ensures Names(content, pos)
    ensures ByteOffset(content, pos) == ByteLen(content[..i])
    ensures CharsIn(content, ByteOffset(content, pos)) == i && CharBoundary(content, ByteOffset(content, pos))
  {
    PrefixLines(content, i);
    var all, before := SplitLines(content), SplitLines(content[..i]);
    LinesBytesPrefix(all, before, pos.line);
    SplitBytes(content[..i]);
    BoundaryAt(content, i);
    assert all[pos.line][..|all[pos.line]|] == all[pos.line];
  }

  /** Later indexes have later positions. */
  lemma {:induction false} PositionsMonotone(content: string, i: nat, j: nat, p: Position, q: Position)
    requires IsAt(content, i, p) && IsAt(content, j, q)
    ensures i < j <==> Less(p, q)
    ensures i == j <==> p == q
  {
    if i < j {
      PositionsIncrease(content, i, j, p, q);
    } else if j < i {
      PositionsIncrease(content, j, i, q, p);
    }
  }

  lemma PositionsIncrease(content: string, i: nat, j: nat, p: Position, q: Position)
    requires IsAt(content, i, p) && IsAt(content, j, q) && i < j
    ensures Less(p, q)
  {
    var between := content[i..j];
    assert content[..j] == content[..i] + between;
    SplitConcat(content[..i], between);
    if |SplitLines(between)| == 1 {
      JoinSplit(between);
    }
  }

  /** The index a position names. */
  function IndexOf(content: string, pos: Position): nat
    requires Names(content, pos)
  {
    var lines := SplitLines(content);
    |JoinLines(lines[..pos.line] + [lines[pos.line][..pos.character]])|
  }

  lemma {:induction false} JoinPrefix(lines: seq<Line>, l: nat, c: nat)
    requires l < |lines| && c <= |lines[l]|
    ensures JoinLines(lines[..l] + [lines[l][..c]]) <= JoinLines(lines)
  {
    var cut := lines[..l] + [lines[l][..c]];
    if l == 0 {
      assert cut == [lines[0][..c]];
    } else {
      assert cut[1..] == lines[1..][..l - 1] + [lines[1..][l - 1][..c]];
      JoinPrefix(lines[1..], l - 1, c);
      assert JoinLines(lines) == lines[0] + "\n" + JoinLines(lines[1..]);
      assert JoinLines(cut) == lines[0] + "\n" + JoinLines(cut[1..]);
    }
  }

  /** Every position that names a character has exactly the index `IndexOf`. */
  lemma {:induction false} IndexOfIsAt(content: string, pos: Position)
    requires Names(content, pos)
    ensures IsAt(content, IndexOf(content, pos), pos)
  {
    var lines := SplitLines(content);
    var cut := lines[..pos.line] + [lines[pos.line][..pos.character]];
    JoinSplit(content);
    SplitNewlineFree(content);
    JoinPrefix(lines, pos.line, pos.character);
    forall k | 0 <= k < |cut| ensures NewlineFree(cut[k]) {
      assert NewlineFree(lines[k]);
    }
    SplitJoin(cut);
    assert content[..|JoinLines(cut)|] == JoinLines(cut);
  }

  /** A line that does not exist resolves to one past the end of the text. */
  lemma {:induction false} OffsetPastEnd(content: string, pos: Position)
    requires pos.line >= |SplitLines(content)|
    ensures ByteOffset(content, pos) == ByteLen(content) + 1
  {
    var lines := SplitLines(content);
    SplitBytes(content);
    LinesBytesPast(lines, pos.line);
  }

  lemma {:induction false} LinesBytesPast(lines: seq<Line>, n: nat)
    requires n >= |lines| > 0
    ensures LinesBytes(lines, n) == LinesBytes(lines, |lines| - 1) + ByteLen(lines[|lines| - 1]) + 1
  {
    if n > |lines| {
      LinesBytesPast(lines, n - 1);
    }
  }

  // ---------- validation ----------

  function Validate(content: string, range: Range): Result<(nat, nat), EditError> {
    var start := ByteOffset(content, range.start);
    var end := ByteOffset(content, range.end);
    var lines := SplitLines(content);
    if start > end then Err(StartAfterEnd(range))
    else if end > ByteLen(content) then Err(EndOutOfBounds(range))
    else if range.start.line < |lines| && range.start.character > |lines[range.start.line]| then
      Err(StartCharacterOutOfLine(range))
    else if range.end.line < |lines| && range.end.character > |lines[range.end.line]| then
      Err(EndCharacterOutOfLine(range))
    else Ok((start, end))
  }

  /** Slicing and replacing by byte offsets, where the offsets are sound. */
  predicate SliceOk(s: string, start: nat, end: nat) {
    start <= end <= ByteLen(s) && CharBoundary(s, start) && CharBoundary(s, end)
    && CharsIn(s, start) <= CharsIn(s, end)
  }

  function ExtractRangeContent(content: string, range: Range): Result<string, EditError> {
    match Validate(content, range)
    case Err(e) => Err(e)
    case Ok((start, end)) =>
      if SliceOk(content, start, end) then Ok(content[CharsIn(content, start)..CharsIn(content, end)])
      else Err(ReplacePanic)
  }

  /**
   * Validation accepts a range exactly when both ends name a character of an existing line and the start
   * is not after the end; then the slice it takes is the text between the two.
   */
  lemma {:induction false} ValidationExact(content: string, range: Range)
    ensures var r := ExtractRangeContent(content, range);
            && (r.Ok? <==> Names(content, range.start) && Names(content, range.end) && Leq(range.start, range.end))
            && r != Err(ReplacePanic)
            && (r.Ok? ==>
                  && IndexOf(content, range.start) <= IndexOf(content, range.end) <= |content|
                  && r.value == content[IndexOf(content, range.start)..IndexOf(content, range.end)])
  {
    var lines := SplitLines(content);
    if range.start.line >= |lines| {
      OffsetPastEnd(content, range.start);
    } else if range.end.line >= |lines| {
      OffsetPastEnd(content, range.end);
    } else if Names(content, range.start) && Names(content, range.end) {
      NamedRange(content, range);
    }
  }

  lemma NamedRange(content: string, range: Range)
    requires Names(content, range.start) && Names(content, range.end)
    ensures var r := ExtractRangeContent(content, range);
            && (r.Ok? <==> Leq(range.start, range.end))
            && r != Err(ReplacePanic)
            && (r.Ok? ==>
                  && IndexOf(content, range.start) <= IndexOf(content, range.end) <= |content|
                  && r.value == content[IndexOf(content, range.start)..IndexOf(content, range.end)])
  {
    var i, j := IndexOf(content, range.start), IndexOf(content, range.end);
    IndexOfIsAt(content, range.start);
    IndexOfIsAt(content, range.end);
    OffsetAt(content, i, range.start);
    OffsetAt(content, j, range.end);
    PositionsMonotone(content, i, j, range.start, range.end);
    BytesMonotone(content, i, j);
    BytesMonotone(content, j, |content|);
    assert content[..|content|] == content;
  }

  lemma BytesMonotone(s: string, i: nat, j: nat)
    requires i <= |s| && j <= |s|
    ensures i < j <==> ByteLen(s[..i]) < ByteLen(s[..j])
  {
    if i < j {
      assert s[..j] == s[..i] + s[i..j];
      ByteLenConcat(s[..i], s[i..j]);
    } else if j < i {
      assert s[..i] == s[..j] + s[j..i];
      ByteLenConcat(s[..j], s[j..i]);
    }
  }

  // ---------- application ----------

  function ReplaceRange(s: string, start: nat, end: nat, text: string): Result<string, EditError> {
    if SliceOk(s, start, end) then Ok(s[..CharsIn(s, start)] + text + s[CharsIn(s, end)..])
    else Err(ReplacePanic)
  }

  function ApplyInOrder(result: string, edits: seq<TextEdit>): Result<string, EditError>
    decreases |edits|
  {
    if edits == [] then Ok(result)
    else
      var r := edits[0].range;
      match ReplaceRange(result, ByteOffset(result, r.start), ByteOffset(result, r.end), edits[0].newText)
      case Err(e) => Err(e)
      case Ok(next) => ApplyInOrder(next, edits[1..])
  }

  function FirstInvalid(content: string, edits: seq<TextEdit>): Option<EditError> {
    if edits == [] then None
    else
      match ExtractRangeContent(content, edits[0].range)
      case Err(e) => Some(e)
      case Ok(_) => FirstInvalid(content, edits[1..])
  }

  function StartKey(e: TextEdit): int { e.range.start.line * 0x1_0000_0000 + e.range.start.character }
  function DescendingStart(e: TextEdit): int { -1 * StartKey(e) }

  function EditedText(content: string, edits: seq<TextEdit>): Result<string, EditError> {
    match FirstInvalid(content, edits)
    case Some(e) => Err(e)
    case None => ApplyInOrder(content, SortBy(edits, DescendingStart))
  }

  method ApplyEdits(content: string, edits: seq<TextEdit>) returns (r: Result<string, EditError>)
    ensures r == EditedText(content, edits)
  {
    for i := 0 to |edits|
      invariant FirstInvalid(content, edits) == FirstInvalid(content, edits[i..])
    {
      var checked := ExtractRangeContent(content, edits[i].range);
      if checked.Err? {
        return Err(checked.error);
      }
      assert edits[i..][1..] == edits[i + 1..];
    }
    var sorted := SortBy(edits, DescendingStart);
    var result := content;
    for i := 0 to |sorted|
      invariant ApplyInOrder(content, sorted) == ApplyInOrder(result, sorted[i..])
    {
      var start := PositionToByteOffset(result, sorted[i].range.start);
      var end := PositionToByteOffset(result, sorted[i].range.end);
      var replaced := ReplaceRange(result, start, end, sorted[i].newText);
      assert sorted[i..][1..] == sorted[i + 1..];
      if replaced.Err? {
        return Err(replaced.error);
      }
      result := replaced.value;
    }
    r := Ok(result);
  }

  // ---------- the simultaneous splice ----------

  /** Every edit names a range of the original text. */
  ghost predicate AllValid(content: string, edits: seq<TextEdit>) {
    forall k :: 0 <= k < |edits| ==> ExtractRangeContent(content, edits[k].range).Ok?
  }

  ghost predicate Apart(edits: seq<TextEdit>) {
    forall k :: 0 <= k < |edits| - 1 ==> Leq(edits[k].range.end, edits[k + 1].range.start)
  }

  /** From the top of the file down: no range reaches into the next. Insertions at one place may follow each other. */
  ghost predicate Ordered(edits: seq<TextEdit>) {
    Sorted(edits, StartKey) && Apart(edits)
  }

  ghost predicate Applicable(content: string, edits: seq<TextEdit>) {
    AllValid(content, edits) && Ordered(edits)
  }

  lemma ApplicableTail(content: string, edits: seq<TextEdit>)
    requires Applicable(content, edits) && edits != []
    ensures Applicable(content, edits[1..])
    ensures var e := edits[0].range;
            && Names(content, e.start) && Names(content, e.end)
            && IndexOf(content, e.start) <= IndexOf(content, e.end) <= |content|
    ensures |edits| > 1 ==>
              && Names(content, edits[1].range.start)
              && IndexOf(content, edits[0].range.end) <= IndexOf(content, edits[1].range.start)
  {
    ValidationExact(content, edits[0].range);
    if |edits| > 1 {
      var p, q := edits[0].range.end, edits[1].range.start;
      ValidationExact(content, edits[1].range);
      IndexOfIsAt(content, p);
      IndexOfIsAt(content, q);
      PositionsMonotone(content, IndexOf(content, p), IndexOf(content, q), p, q);
    }
    forall k | 0 <= k < |edits| - 1 ensures edits[1..][k] == edits[k + 1] {
    }
  }

  ghost predicate From(content: string, edits: seq<TextEdit>, from: nat) {
    && Applicable(content, edits)
    && from <= |content|
    && (edits != [] ==> Names(content, edits[0].range.start) && from <= IndexOf(content, edits[0].range.start))
  }

  /** The text from index `from` on with all ranges of the original text replaced at once. */
  ghost function Splice(content: string, edits: seq<TextEdit>, from: nat): string
    requires From(content, edits, from)
    decreases |edits|
  {
    if edits == [] then content[from..]
    else
      ApplicableTail(content, edits);
      var r := edits[0].range;
      content[from..IndexOf(content, r.start)] + edits[0].newText
      + Splice(content, edits[1..], IndexOf(content, r.end))
  }

  /** Text after a common prefix does not move the positions inside the prefix. */
  lemma PrefixKeepsPositions(a: string, b: string, i: nat, upto: nat, pos: Position)
    requires i <= upto <= |a| && upto <= |b| && a[..upto] == b[..upto]
    requires IsAt(a, i, pos)
    ensures IsAt(b, i, pos)
  {
    assert a[..i] == a[..upto][..i] && b[..i] == b[..upto][..i];
  }

  lemma {:induction false} ApplyInOrderSnoc(result: string, edits: seq<TextEdit>, last: TextEdit)
    ensures var once := ApplyInOrder(result, edits);
            ApplyInOrder(result, edits + [last]) == if once.Err? then once else ApplyInOrder(once.value, [last])
    decreases |edits|
  {
    var all := edits + [last];
    if edits == [] {
      assert all == [last];
    } else {
      var r := edits[0].range;
      var once := ReplaceRange(result, ByteOffset(result, r.start), ByteOffset(result, r.end), edits[0].newText);
      assert all[1..] == edits[1..] + [last];
      if once.Ok? {
        ApplyInOrderSnoc(once.value, edits[1..], last);
      }
    }
  }

  /** One edit whose ends are at two indices of the text at hand. */
  lemma ApplyAt(text: string, edit: TextEdit, i: nat, j: nat)
    requires IsAt(text, i, edit.range.start) && IsAt(text, j, edit.range.end) && i <= j
    ensures ApplyInOrder(text, [edit]) == Ok(text[..i] + edit.newText + text[j..])
  {
    OffsetAt(text, i, edit.range.start);
    OffsetAt(text, j, edit.range.end);
    BytesMonotone(text, j, i);
    BytesMonotone(text, |text|, j);
    assert text[..|text|] == text;
  }

  /** One edit above the part already rewritten: its offsets still resolve as in the original. */
  lemma ApplyAbove(content: string, edit: TextEdit, rest: string)
    requires ExtractRangeContent(content, edit.range).Ok?
    ensures Names(content, edit.range.start) && Names(content, edit.range.end)
    ensures var s, e := IndexOf(content, edit.range.start), IndexOf(content, edit.range.end);
            && s <= e <= |content|
            && ApplyInOrder(content[..e] + rest, [edit]) == Ok(content[..s] + edit.newText + rest)
  {
    ValidationExact(content, edit.range);
    var p, q := edit.range.start, edit.range.end;
    var s, e := IndexOf(content, p), IndexOf(content, q);
    var result := content[..e] + rest;
    IndexOfIsAt(content, p);
    IndexOfIsAt(content, q);
    PrefixKeepsPositions(content, result, s, e, p);
    PrefixKeepsPositions(content, result, e, e, q);
    ApplyAt(result, edit, s, e);
    assert result[..s] == content[..s] && result[e..] == rest;
  }

  lemma {:induction false} BottomUpIsSplice(content: string, edits: seq<TextEdit>, from: nat)
    requires From(content, edits, from)
    ensures ApplyInOrder(content, Reverse(edits)) == Ok(content[..from] + Splice(content, edits, from))
    decreases |edits|
  {
    if edits == [] {
      assert content[..from] + content[from..] == content;
    } else {
      ApplicableTail(content, edits);
      var r := edits[0].range;
      var s, e := IndexOf(content, r.start), IndexOf(content, r.end);
      var rest := Splice(content, edits[1..], e);
      BottomUpIsSplice(content, edits[1..], e);
      ApplyInOrderSnoc(content, Reverse(edits[1..]), edits[0]);
      ApplyAbove(content, edits[0], rest);
      Regroup(content, from, s, edits[0].newText, rest);
    }
  }

  lemma Regroup(content: string, from: nat, s: nat, text: string, rest: string)
    requires from <= s <= |content|
    ensures content[..s] + text + rest == content[..from] + (content[from..s] + text + rest)
  {
    assert content[..s] == content[..from] + content[from..s];
  }

  lemma {:induction false} NoneInvalid(content: string, edits: seq<TextEdit>)
    requires AllValid(content, edits)
    ensures FirstInvalid(content, edits) == None
  {
    if edits != [] {
      forall k | 0 <= k < |edits| - 1 ensures edits[1..][k] == edits[k + 1] {
      }
      NoneInvalid(content, edits[1..]);
    }
  }

  /** The reverse of the order in which the edits are applied: from the top of the file down. */
  function CodeOrder(edits: seq<TextEdit>): seq<TextEdit> { Reverse(SortBy(edits, DescendingStart)) }

  lemma {:induction false} ReverseTwice<T>(s: seq<T>)
    ensures Reverse(Reverse(s)) == s
  {
    ReverseIndex(s);
    ReverseIndex(Reverse(s));
  }

  lemma PermutationValid(content: string, edits: seq<TextEdit>, ordered: seq<TextEdit>)
    requires multiset(edits) == multiset(ordered)
    requires AllValid(content, ordered)
    ensures AllValid(content, edits)
  {
    forall k | 0 <= k < |edits| ensures ExtractRangeContent(content, edits[k].range).Ok? {
      assert edits[k] in multiset(ordered);
    }
  }

  lemma FromStart(content: string, edits: seq<TextEdit>)
    requires Applicable(content, edits)
    ensures From(content, edits, 0)
  {
    if edits != [] {
      ApplicableTail(content, edits);
    }
  }

  /** Edits that do not overlap from the top down give the simultaneous splice of the original text. */
  lemma {:induction false} EffectiveSplice(content: string, edits: seq<TextEdit>)
    requires Applicable(content, CodeOrder(edits))
    ensures From(content, CodeOrder(edits), 0)
    ensures EditedText(content, edits) == Ok(Splice(content, CodeOrder(edits), 0))
  {
    hide Splice;
    hide ApplyInOrder;
    hide FirstInvalid;
    hide SortBy;
    hide Ordered;
    hide ExtractRangeContent;
    var order, sorted := CodeOrder(edits), SortBy(edits, DescendingStart);
    FromStart(content, order);
    ReverseTwice(sorted);
    BottomUpIsSplice(content, order, 0);
    assert content[..0] + Splice(content, order, 0) == Splice(content, order, 0);
    ReverseMultiset(sorted);
    PermutationValid(content, edits, order);
    NoneInvalid(content, edits);
  }

  lemma {:induction false} SortedBottomUp(edits: seq<TextEdit>, ordered: seq<TextEdit>)
    requires multiset(edits) == multiset(ordered)
    requires StrictlySorted(ordered, StartKey)
    ensures CodeOrder(edits) == ordered
  {
    ReverseMultiset(ordered);
    ReverseIndex(ordered);
    SortUnique(edits, Reverse(ordered), DescendingStart);
    ReverseTwice(ordered);
  }

  /**
   * For ranges valid in the original text that do not overlap and start at different places, in whatever order
   * they are listed, the bottom-up application is the simultaneous splice of the original text.
   */
  lemma EditsAreSimultaneous(content: string, edits: seq<TextEdit>, ordered: seq<TextEdit>)
    requires multiset(edits) == multiset(ordered)
    requires Applicable(content, ordered) && StrictlySorted(ordered, StartKey)
    ensures From(content, ordered, 0)
    ensures EditedText(content, edits) == Ok(Splice(content, ordered, 0))
  {
    hide Applicable;
    hide CodeOrder;
    SortedBottomUp(edits, ordered);
    EffectiveSplice(content, edits);
  }

  // ---------- one edit of a text at hand ----------

  /** The index a position of an existing line resolves to: the end of the line when the line is too short. */
  function Where(content: string, pos: Position): (j: nat)
    requires pos.line < |SplitLines(content)|
    ensures j <= |content|
  {
    IndexOfIsAt(content, Clamped(content, pos));
    IndexOf(content, Clamped(content, pos))
  }

  function Clamped(content: string, pos: Position): (r: Position)
    requires pos.line < |SplitLines(content)|
    ensures Names(content, r) && (Names(content, pos) ==> r == pos)
  {
    var line := SplitLines(content)[pos.line];
    if pos.character <= |line| then pos else Position(pos.line, |line|)
  }

  /** Resolving does not look past the end of a line. */
  lemma ClampedOffset(content: string, pos: Position)
    requires pos.line < |SplitLines(content)|
    ensures ByteOffset(content, Clamped(content, pos)) == ByteOffset(content, pos)
  {
    var line := SplitLines(content)[pos.line];
    assert line[..|line|] == line;
  }

  /** Text put in at an index leaves what is before it where it was and takes no line away. */
  lemma Inserted(content: string, s: nat, text: string)
    requires s <= |content|
    ensures var changed := content[..s] + text + content[s..];
            && |SplitLines(content)| <= |SplitLines(changed)|
            && forall pos :: IsAt(content, s, pos) ==> IsAt(changed, s, pos)
  {
    var changed := content[..s] + text + content[s..];
    assert content == content[..s] + content[s..];
    SplitConcat(content[..s], content[s..]);
    SplitConcat(content[..s], text);
    SplitConcat(content[..s] + text, content[s..]);
    assert changed[..s] == content[..s];
  }

  lemma ReplaceFrom(text: string, edit: TextEdit, s: nat)
    requires IsAt(text, s, edit.range.start) && Leq(edit.range.start, edit.range.end)
    requires edit.range.end.line < |SplitLines(text)|
    ensures s <= Where(text, edit.range.end) <= |text|
    ensures ApplyInOrder(text, [edit]) == Ok(text[..s] + edit.newText + text[Where(text, edit.range.end)..])
  {
    hide SplitLines;
    var p, q := edit.range.start, Clamped(text, edit.range.end);
    var j := IndexOf(text, q);
    OffsetAt(text, s, p);
    assert Leq(p, q);
    IndexOfIsAt(text, q);
    PositionsMonotone(text, j, s, q, p);
    ClampedOffset(text, edit.range.end);
    ApplyAt(text, TextEdit(Range(p, q), edit.newText), s, j);
    SameOffsets(text, edit, TextEdit(Range(p, q), edit.newText));
  }

  lemma SameOffsets(text: string, a: TextEdit, b: TextEdit)
    requires ByteOffset(text, a.range.start) == ByteOffset(text, b.range.start)
    requires ByteOffset(text, a.range.end) == ByteOffset(text, b.range.end) && a.newText == b.newText
    ensures ApplyInOrder(text, [a]) == ApplyInOrder(text, [b])
  {
    assert [a][1..] == [] && [b][1..] == [];
  }

  /** Two edits at one place are applied in the order listed. */
  lemma {:induction false} PairInListedOrder(content: string, a: TextEdit, b: TextEdit)
    requires ExtractRangeContent(content, a.range).Ok? && a.range == b.range
    ensures var once := ApplyInOrder(content, [a]);
            EditedText(content, [a, b]) == if once.Err? then once else ApplyInOrder(once.value, [b])
  {
    hide ExtractRangeContent;
    hide ApplyInOrder;
    hide SortBy;
    hide FirstInvalid;
    NoneInvalid(content, [a, b]);
    SortOfSorted([a, b], DescendingStart);
    ApplyInOrderSnoc(content, [a], b);
    assert [a] + [b] == [a, b];
  }

  /** The byte offset of any position on an existing line. */
  lemma {:induction false} OffsetOfLine(content: string, pos: Position)
    requires pos.line < |SplitLines(content)|
    ensures ByteOffset(content, pos) == ByteLen(content[..Where(content, pos)]) <= ByteLen(content)
  {
    hide SplitLines;
    var j := Where(content, pos);
    ClampedOffset(content, pos);
    IndexOfIsAt(content, Clamped(content, pos));
    OffsetAt(content, j, Clamped(content, pos));
    BytesMonotone(content, |content|, j);
    assert content[..|content|] == content;
  }

  /**
   * With which error a range is refused: its end is on no line; its start is on no line, or both resolve but the wrong
   * way round; or a column is beyond its line, the start's first.
   */
  lemma {:induction false} RefusedRange(content: string, range: Range)
    ensures var r, n, p, q := ExtractRangeContent(content, range), |SplitLines(content)|, range.start, range.end;
            && (r == Err(EndOutOfBounds(range)) <==> q.line >= n)
            && (r == Err(StartAfterEnd(range)) <==>
                  q.line < n && (p.line >= n || Where(content, p) > Where(content, q)))
            && (r == Err(StartCharacterOutOfLine(range)) <==>
                  && p.line < n && q.line < n && Where(content, p) <= Where(content, q)
                  && p.character > |SplitLines(content)[p.line]|)
            && (r == Err(EndCharacterOutOfLine(range)) <==>
                  && p.line < n && q.line < n && Where(content, p) <= Where(content, q)
                  && p.character <= |SplitLines(content)[p.line]| && q.character > |SplitLines(content)[q.line]|)
  {
    hide SplitLines;
    hide ByteOffset;
    hide Where;
    var n, p, q := |SplitLines(content)|, range.start, range.end;
    ValidationExact(content, range);
    if p.line < n {
      OffsetOfLine(content, p);
    } else {
      OffsetPastEnd(content, p);
    }
    if q.line < n {
      OffsetOfLine(content, q);
    } else {
      OffsetPastEnd(content, q);
    }
    if p.line < n && q.line < n {
      BytesMonotone(content, Where(content, q), Where(content, p));
    }
  }

  // ---------- when the replacement panics ----------

  /** The number of lines left after an edit of a text that has `count` lines, among them the edit's. */
  function LinesAfter(count: int, e: TextEdit): int {
    count - (e.range.end.line - e.range.start.line) + |SplitLines(e.newText)| - 1
  }

  /** The end of every edit is on an existing line when its turn comes. */
  predicate EndsExist(count: int, edits: seq<TextEdit>)
    decreases |edits|
  {
    edits == [] || (edits[0].range.end.line < count && EndsExist(LinesAfter(count, edits[0]), edits[1..]))
  }

  /** The lines of a text of which everything between two indices is replaced. */
  lemma ReplacedLines(text: string, s: nat, j: nat, with: string)
    requires s <= j <= |text|
    ensures |SplitLines(text[..s] + with + text[j..])|
         == |SplitLines(text)| - (LineOf(text, j) - LineOf(text, s)) + |SplitLines(with)| - 1
  {
    assert text == text[..j] + text[j..];
    SplitConcat(text[..j], text[j..]);
    SplitConcat(text[..s], with);
    SplitConcat(text[..s] + with, text[j..]);
  }

  /** One edit of a text that has its start where the original has it. */
  lemma OneReplacement(text: string, edit: TextEdit, s: nat)
    requires IsAt(text, s, edit.range.start) && Leq(edit.range.start, edit.range.end)
    ensures var r, count := ApplyInOrder(text, [edit]), |SplitLines(text)|;
            if edit.range.end.line < count then
              && r.Ok?
              && s <= |r.value| && r.value[..s] == text[..s]
              && |SplitLines(r.value)| == LinesAfter(count, edit)
            else r == Err(ReplacePanic)
  {
    if edit.range.end.line < |SplitLines(text)| {
      var q := Clamped(text, edit.range.end);
      ReplaceFrom(text, edit, s);
      IndexOfIsAt(text, q);
      ReplacedLines(text, s, IndexOf(text, q), edit.newText);
    } else {
      OffsetPastEnd(text, edit.range.end);
    }
  }

  lemma ApplyFirst(text: string, edits: seq<TextEdit>)
    requires edits != []
    ensures var once := ApplyInOrder(text, edits[..1]);
            ApplyInOrder(text, edits) == if once.Err? then once else ApplyInOrder(once.value, edits[1..])
  {
    assert edits[..1][1..] == [] && edits[..1][0] == edits[0];
  }

  /** From the bottom of the file up, starting with text that agrees with the original above the edits. */
  lemma {:induction false} StepsPanic(content: string, text: string, edits: seq<TextEdit>, upto: nat)
    requires AllValid(content, edits) && Sorted(edits, DescendingStart)
    requires upto <= |content| && upto <= |text| && text[..upto] == content[..upto]
    requires edits != [] ==> Names(content, edits[0].range.start) && IndexOf(content, edits[0].range.start) <= upto
    ensures var r := ApplyInOrder(text, edits);
            if EndsExist(|SplitLines(text)|, edits) then r.Ok? else r == Err(ReplacePanic)
    decreases |edits|
  {
    hide ExtractRangeContent;
    hide IndexOf;
    hide SplitLines;
    hide IsAt;
    hide ApplyInOrder;
    if edits == [] {
      ApplyNothing(text);
    } else {
      var edit := edits[0];
      var s := IndexOf(content, edit.range.start);
      ValidationExact(content, edit.range);
      IndexOfIsAt(content, edit.range.start);
      PrefixKeepsPositions(content, text, s, upto, edit.range.start);
      OneReplacement(text, edit, s);
      ApplyFirst(text, edits);
      assert edits[..1] == [edit];
      if ApplyInOrder(text, [edit]).Ok? {
        var next := ApplyInOrder(text, [edit]).value;
        assert next[..s] == content[..s] by {
          assert text[..s] == text[..upto][..s] && content[..s] == content[..upto][..s];
        }
        if |edits| > 1 {
          NextAbove(content, edit, edits[1]);
        }
        TailValid(content, edits);
        StepsPanic(content, next, edits[1..], s);
      }
    }
  }

  lemma ApplyNothing(text: string)
    ensures ApplyInOrder(text, []) == Ok(text)
  {
  }

  lemma TailValid(content: string, edits: seq<TextEdit>)
    requires AllValid(content, edits) && Sorted(edits, DescendingStart) && edits != []
    ensures AllValid(content, edits[1..]) && Sorted(edits[1..], DescendingStart)
  {
    hide ExtractRangeContent;
    forall k | 0 <= k < |edits| - 1 ensures edits[1..][k] == edits[k + 1] {
    }
  }

  lemma NextAbove(content: string, edit: TextEdit, next: TextEdit)
    requires ExtractRangeContent(content, edit.range).Ok? && ExtractRangeContent(content, next.range).Ok?
    requires DescendingStart(edit) <= DescendingStart(next)
    ensures Names(content, next.range.start) && Names(content, edit.range.start)
    ensures IndexOf(content, next.range.start) <= IndexOf(content, edit.range.start)
  {
    var p, q := edit.range.start, next.range.start;
    ValidationExact(content, edit.range);
    ValidationExact(content, next.range);
    IndexOfIsAt(content, p);
    IndexOfIsAt(content, q);
    PositionsMonotone(content, IndexOf(content, p), IndexOf(content, q), p, q);
  }

  /**
   * Edits that pass validation are applied, or the replacement panics. It panics exactly when some edit's end is
   * beyond the last line at its turn, which line numbers and numbers of inserted lines tell beforehand.
   */
  lemma {:induction false} PanicsExactly(content: string, edits: seq<TextEdit>)
    requires AllValid(content, edits)
    ensures var r, sorted := EditedText(content, edits), SortBy(edits, DescendingStart);
            if EndsExist(|SplitLines(content)|, sorted) then r.Ok? else r == Err(ReplacePanic)
  {
    hide ApplyInOrder;
    hide FirstInvalid;
    hide SortBy;
    hide ExtractRangeContent;
    hide EndsExist;
    var sorted := SortBy(edits, DescendingStart);
    NoneInvalid(content, edits);
    SortSorted(edits, DescendingStart);
    PermutationValid(content, sorted, edits);
    assert content[..|content|] == content;
    if sorted != [] {
      ValidationExact(content, sorted[0].range);
    }
    StepsPanic(content, content, sorted, |content|);
  }

  /** Two valid deletions that overlap: the lower one takes away the line on which the upper one ends. */
  lemma OverlapPanics()
    ensures var lower := TextEdit(Range(Position(0, 1), Position(1, 1)), "");
            var upper := TextEdit(Range(Position(0, 0), Position(1, 2)), "");
            && AllValid("ab\ncd", [lower, upper])
            && EditedText("ab\ncd", [lower, upper]) == Err(ReplacePanic)
  {
    hide EditedText;
    var lower := TextEdit(Range(Position(0, 1), Position(1, 1)), "");
    var upper := TextEdit(Range(Position(0, 0), Position(1, 2)), "");
    var edits := [lower, upper];
    assert SplitLines("ab\ncd") == ["ab", "cd"] by {
      assert ["ab", "cd"][1..] == ["cd"] && JoinLines(["ab", "cd"]) == "ab" + "\n" + "cd" == "ab\ncd";
      SplitJoin(["ab", "cd"]);
    }
    ValidationExact("ab\ncd", lower.range);
    ValidationExact("ab\ncd", upper.range);
    SortOfSorted(edits, DescendingStart);
    PanicsExactly("ab\ncd", edits);
    assert LinesAfter(2, lower) == 1;
    assert edits[1..] == [upper];
    assert !EndsExist(1, [upper]);
    assert !EndsExist(2, edits);
  }
}
