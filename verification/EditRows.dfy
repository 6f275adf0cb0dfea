/**
 * The typed row view of an edit (crates/aifed/src/edit_view/) and the change list derived from it
 * (crates/aifed/src/output.rs), tied to edit scripts.
 */
module EditRows {
  import opened Prelude
  import opened LineDiffs

  datatype EditRow =
    | Equal(newLine: nat, content: Line)
    | Delete(oldLine: nat, oldContent: Line)
    | Insert(newLine: nat, newContent: Line)

  function RowNew(row: EditRow): seq<Line> {
    match row case Equal(_, c) => [c] case Insert(_, c) => [c] case Delete(_, _) => []
  }

  function RowOld(row: EditRow): seq<Line> {
    match row case Equal(_, c) => [c] case Insert(_, _) => [] case Delete(_, c) => [c]
  }

  function RowChange(row: EditRow): seq<LineDiff> {
    match row
    case Equal(_, _) => []
    case Insert(n, c) => [LineDiff(n, None, Some(c))]
    case Delete(o, c) => [LineDiff(o, Some(c), None)]
  }

  function NewLinesFromRows(rows: seq<EditRow>): seq<Line> { FlatMap(rows, RowNew) }

  /** The counterpart of `NewLinesFromRows`: the lines of the original file. */
  function OldLinesFromRows(rows: seq<EditRow>): seq<Line> { FlatMap(rows, RowOld) }

  function ChangesFromRows(rows: seq<EditRow>): seq<LineDiff> { FlatMap(rows, RowChange) }

  lemma RowsAppend(a: seq<EditRow>, b: seq<EditRow>)
    ensures NewLinesFromRows(a + b) == NewLinesFromRows(a) + NewLinesFromRows(b)
    ensures OldLinesFromRows(a + b) == OldLinesFromRows(a) + OldLinesFromRows(b)
    ensures ChangesFromRows(a + b) == ChangesFromRows(a) + ChangesFromRows(b)
  {
    FlatMapAppend(a, b, RowNew);
    FlatMapAppend(a, b, RowOld);
    FlatMapAppend(a, b, RowChange);
  }

  function StepRows(step: Step, oldLine: nat, newLine: nat): seq<EditRow> {
    match step
    case Keep(l) => [Equal(newLine, l)]
    case Del(o) => [Delete(oldLine, o)]
    case Ins(n) => [Insert(newLine, n)]
    case Sub(o, n) => [Delete(oldLine, o), Insert(newLine, n)]
  }

  /** The rows of a script: each step at the old and new line numbers it ends at. */
  function RowsOf(s: Script): seq<EditRow> {
    match s
    case Empty => []
    case Then(init, step) => RowsOf(init) + StepRows(step, |OldOf(s)|, |NewOf(s)|)
  }

  lemma {:induction false} RowsProject(s: Script)
    ensures NewLinesFromRows(RowsOf(s)) == NewOf(s)
    ensures OldLinesFromRows(RowsOf(s)) == OldOf(s)
    ensures NoSub(s) ==> ChangesFromRows(RowsOf(s)) == DiffsOf(s)
  {
    match s
    case Empty =>
    case Then(init, step) =>
      RowsProject(init);
      RowsAppend(RowsOf(init), StepRows(step, |OldOf(s)|, |NewOf(s)|));
      StepProject(step, |OldOf(s)|, |NewOf(s)|);
  }

  lemma StepProject(step: Step, oldLine: nat, newLine: nat)
    ensures NewLinesFromRows(StepRows(step, oldLine, newLine)) == StepNew(step)
    ensures OldLinesFromRows(StepRows(step, oldLine, newLine)) == StepOld(step)
    ensures !step.Sub? ==> ChangesFromRows(StepRows(step, oldLine, newLine)) == StepDiffs(step, oldLine, newLine)
  {
    var rows := StepRows(step, oldLine, newLine);
    FlatMapOne(rows[0], RowNew);
    FlatMapOne(rows[0], RowOld);
    FlatMapOne(rows[0], RowChange);
    if step.Sub? {
      assert rows == [rows[0]] + [rows[1]];
      RowsAppend([rows[0]], [rows[1]]);
      FlatMapOne(rows[1], RowNew);
      FlatMapOne(rows[1], RowOld);
    }
  }

  /** The row carries the number of its own line, in the file that has that line. */
  ghost predicate RowExact(row: EditRow, before: seq<Line>, after: seq<Line>) {
    match row
    case Equal(n, c) => 0 < n <= |after| && after[n - 1] == c
    case Insert(n, c) => 0 < n <= |after| && after[n - 1] == c
    case Delete(o, c) => 0 < o <= |before| && before[o - 1] == c
  }

  /** Row by row, the numbers count the lines of each file passed so far. */
  ghost predicate RowsCount(rows: seq<EditRow>) {
    forall i :: 0 <= i < |rows| ==>
      match rows[i]
      case Equal(n, _) => n == |NewLinesFromRows(rows[..i + 1])|
      case Insert(n, _) => n == |NewLinesFromRows(rows[..i + 1])|
      case Delete(o, _) => o == |OldLinesFromRows(rows[..i + 1])|
  }

  lemma {:induction false} CountedRowExact(rows: seq<EditRow>, i: nat)
    requires RowsCount(rows) && i < |rows|
    ensures RowExact(rows[i], OldLinesFromRows(rows), NewLinesFromRows(rows))
  {
    assert rows == rows[..i + 1] + rows[i + 1..];
    RowsAppend(rows[..i + 1], rows[i + 1..]);
    assert rows[..i + 1] == rows[..i] + [rows[i]];
    RowsAppend(rows[..i], [rows[i]]);
    FlatMapOne(rows[i], RowNew);
    FlatMapOne(rows[i], RowOld);
  }

  lemma {:induction false} RowsCountOf(s: Script)
    requires NoSub(s)
    ensures RowsCount(RowsOf(s))
  {
    match s
    case Empty =>
    case Then(init, step) =>
      RowsCountOf(init);
      RowsProject(s);
      var rows, before := RowsOf(s), RowsOf(init);
      assert |rows| == |before| + 1;
      forall i | 0 <= i < |before| ensures rows[i] == before[i] && rows[..i + 1] == before[..i + 1] {
      }
      assert rows[..|before| + 1] == rows;
  }
}
