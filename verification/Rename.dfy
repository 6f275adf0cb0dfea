/**
 * The diffs a rename records (crates/aifed/src/commands/lsp.rs) and the two row views of it
 * (crates/aifed/src/edit_view/mod.rs): lines are paired by position.
 */
module Rename {
  import opened Prelude
  import opened LineDiffs
  import opened EditRows

  /** How position `i` (from 0) of the two files is paired. */
  function PairStep(before: seq<Line>, after: seq<Line>, i: nat): Step
    requires i < |before| || i < |after|
  {
    if i < |before| && i < |after| then
      if before[i] == after[i] then Keep(after[i]) else Sub(before[i], after[i])
    else if i < |before| then Del(before[i])
    else Ins(after[i])
  }

  /** The pairing of the first `n` positions. */
  function PairScript(before: seq<Line>, after: seq<Line>, n: nat): Script
    requires n <= Max(|before|, |after|)
  {
    if n == 0 then Empty
    else Then(PairScript(before, after, n - 1), PairStep(before, after, n - 1))
  }

  function Upto(lines: seq<Line>, n: nat): seq<Line> { if n < |lines| then lines[..n] else lines }

  lemma UptoStep(lines: seq<Line>, n: nat)
    requires n > 0
    ensures Upto(lines, n) == Upto(lines, n - 1) + if n <= |lines| then [lines[n - 1]] else []
  {
  }

  lemma UptoLength(lines: seq<Line>, n: nat)
    ensures |Upto(lines, n)| == if n < |lines| then n else |lines|
    ensures n == 0 ==> Upto(lines, n) == []
  {
  }

  lemma {:induction false} PairScriptFiles(before: seq<Line>, after: seq<Line>, n: nat)
    requires n <= Max(|before|, |after|)
    ensures OldOf(PairScript(before, after, n)) == Upto(before, n)
    ensures NewOf(PairScript(before, after, n)) == Upto(after, n)
    ensures Anchored(PairScript(before, after, n))
  {
    hide Upto;
    if n > 0 {
      PairScriptFiles(before, after, n - 1);
      UptoStep(before, n);
      UptoStep(after, n);
      UptoLength(before, n);
      UptoLength(after, n);
    } else {
      UptoLength(before, n);
      UptoLength(after, n);
    }
  }

  /** What one more position adds to the diffs and the rows: both files have reached the same line number. */
  lemma PairNext(before: seq<Line>, after: seq<Line>, i: nat)
    requires i < Max(|before|, |after|)
    ensures DiffsOf(PairScript(before, after, i + 1))
         == DiffsOf(PairScript(before, after, i)) + StepDiffs(PairStep(before, after, i), i + 1, i + 1)
    ensures RowsOf(PairScript(before, after, i + 1))
         == RowsOf(PairScript(before, after, i)) + StepRows(PairStep(before, after, i), i + 1, i + 1)
  {
    hide Upto;
    hide OldOf;
    hide NewOf;
    PairScriptFiles(before, after, i + 1);
    UptoLength(before, i + 1);
    UptoLength(after, i + 1);
  }

  function RenameDiffs(before: seq<Line>, after: seq<Line>): seq<LineDiff> {
    DiffsOf(PairScript(before, after, Max(|before|, |after|)))
  }

  lemma NothingPaired(before: seq<Line>, after: seq<Line>)
    ensures DiffsOf(PairScript(before, after, 0)) == [] && RowsOf(PairScript(before, after, 0)) == []
  {
  }

  method ComputeRenameDiffs(originalLines: seq<Line>, newLines: seq<Line>) returns (diffs: seq<LineDiff>)
    ensures diffs == RenameDiffs(originalLines, newLines)
  {
    hide PairScript;
    hide DiffsOf;
    NothingPaired(originalLines, newLines);
    diffs := [];
    var maxLines := Max(|originalLines|, |newLines|);
    for i := 0 to maxLines
      invariant diffs == DiffsOf(PairScript(originalLines, newLines, i))
    {
      PairNext(originalLines, newLines, i);
      var lineNum := i + 1;
      if i < |originalLines| && i < |newLines| {
        if originalLines[i] != newLines[i] {
          diffs := diffs + [LineDiff(lineNum, Some(originalLines[i]), Some(newLines[i]))];
        }
      } else if i < |originalLines| {
        diffs := diffs + [LineDiff(lineNum, Some(originalLines[i]), None)];
      } else {
        diffs := diffs + [LineDiff(lineNum, None, Some(newLines[i]))];
      }
    }
  }

  function LineAt(lines: seq<Line>, n: nat): Option<Line> {
    if 0 < n <= |lines| then Some(lines[n - 1]) else None
  }

  /** The diff with the number of a line where the files differ. */
  predicate Differs(before: seq<Line>, after: seq<Line>, d: LineDiff) {
    d == LineDiff(d.lineNum, LineAt(before, d.lineNum), LineAt(after, d.lineNum)) && d.oldContent != d.newContent
  }

  lemma PairDiffs(before: seq<Line>, after: seq<Line>, i: nat, d: LineDiff)
    requires i < Max(|before|, |after|)
    ensures d in StepDiffs(PairStep(before, after, i), i + 1, i + 1)
            <==> d.lineNum == i + 1 && Differs(before, after, d)
  {
  }

  lemma {:induction false} DiffsUpto(before: seq<Line>, after: seq<Line>, n: nat, d: LineDiff)
    requires n <= Max(|before|, |after|)
    ensures d in DiffsOf(PairScript(before, after, n)) <==> 0 < d.lineNum <= n && Differs(before, after, d)
  {
    hide PairScript;
    hide PairStep;
    hide StepDiffs;
    hide DiffsOf;
    hide Differs;
    if n == 0 {
      NothingPaired(before, after);
    } else {
      DiffsUpto(before, after, n - 1, d);
      PairNext(before, after, n - 1);
      PairDiffs(before, after, n - 1, d);
    }
  }

  /** A rename records a diff at exactly the lines where the two files differ, with both files' lines. */
  lemma DiffsWhereDifferent(before: seq<Line>, after: seq<Line>, d: LineDiff)
    ensures d in RenameDiffs(before, after) <==>
              && d.lineNum > 0
              && d == LineDiff(d.lineNum, LineAt(before, d.lineNum), LineAt(after, d.lineNum))
              && d.oldContent != d.newContent
  {
    hide PairScript;
    hide DiffsOf;
    DiffsUpto(before, after, Max(|before|, |after|), d);
  }

  /** For any two line lists, the recorded diffs lead from the first to the second and, inverted, back. */
  lemma {:induction false} RenameCarries(before: seq<Line>, after: seq<Line>)
    ensures Carries(RenameDiffs(before, after), before, after)
  {
    var n := Max(|before|, |after|);
    PairScriptFiles(before, after, n);
    ScriptCarries(PairScript(before, after, n));
    assert Upto(before, n) == before && Upto(after, n) == after;
  }

  // ---------- rows ----------

  function DiffRows(d: LineDiff): seq<EditRow> {
    match (d.oldContent, d.newContent)
    case (None, Some(n)) => [Insert(d.lineNum, n)]
    case (Some(o), None) => [Delete(d.lineNum, o)]
    case (Some(o), Some(n)) => [Delete(d.lineNum, o), Insert(d.lineNum, n)]
    case (None, None) => []
  }

  function ExpandedRows(diffs: seq<LineDiff>): seq<EditRow> { FlatMap(diffs, DiffRows) }

  method ChangedRowsFromDiffs(diffs: seq<LineDiff>) returns (rows: seq<EditRow>)
    ensures rows == ExpandedRows(diffs)
  {
    rows := [];
    for i := 0 to |diffs|
      invariant rows == ExpandedRows(diffs[..i])
    {
      var d := diffs[i];
      match (d.oldContent, d.newContent) {
        case (None, Some(n)) => rows := rows + [Insert(d.lineNum, n)];
        case (Some(o), None) => rows := rows + [Delete(d.lineNum, o)];
        case (Some(o), Some(n)) =>
          rows := rows + [Delete(d.lineNum, o)];
          rows := rows + [Insert(d.lineNum, n)];
        case (None, None) =>
      }
      assert diffs[..i + 1] == diffs[..i] + [d];
      FlatMapAppend(diffs[..i], [d], DiffRows);
      FlatMapOne(d, DiffRows);
    }
    assert diffs[..|diffs|] == diffs;
  }

  /** The positional view: unchanged lines too. */
  function PairRows(before: seq<Line>, after: seq<Line>): seq<EditRow> {
    RowsOf(PairScript(before, after, Max(|before|, |after|)))
  }

  method RowsFromOldAndNew(original: seq<Line>, newLines: seq<Line>) returns (rows: seq<EditRow>)
    ensures rows == PairRows(original, newLines)
  {
    hide PairScript;
    hide RowsOf;
    NothingPaired(original, newLines);
    var maxLines := Max(|original|, |newLines|);
    rows := [];
    for i := 0 to maxLines
      invariant rows == RowsOf(PairScript(original, newLines, i))
    {
      PairNext(original, newLines, i);
      var line := i + 1;
      if i < |original| && i < |newLines| {
        if original[i] == newLines[i] {
          rows := rows + [Equal(line, newLines[i])];
        } else {
          rows := rows + [Delete(line, original[i])];
          rows := rows + [Insert(line, newLines[i])];
        }
      } else if i < |original| {
        rows := rows + [Delete(line, original[i])];
      } else {
        rows := rows + [Insert(line, newLines[i])];
      }
    }
  }

  predicate IsChange(row: EditRow) { !row.Equal? }

  lemma {:induction false} ExpandedRowsOfScript(s: Script)
    requires Anchored(s)
    ensures ExpandedRows(DiffsOf(s)) == Filter(RowsOf(s), IsChange)
  {
    match s
    case Empty =>
    case Then(init, step) =>
      ExpandedRowsOfScript(init);
      var diffs, rows := StepDiffs(step, |OldOf(s)|, |NewOf(s)|), StepRows(step, |OldOf(s)|, |NewOf(s)|);
      FlatMapAppend(DiffsOf(init), diffs, DiffRows);
      FilterAppend(RowsOf(init), rows, IsChange);
      ExpandedStep(step, |OldOf(s)|, |NewOf(s)|);
  }

  lemma ExpandedStep(step: Step, oldLine: nat, newLine: nat)
    requires step.Sub? ==> oldLine == newLine
    ensures ExpandedRows(StepDiffs(step, oldLine, newLine)) == Filter(StepRows(step, oldLine, newLine), IsChange)
  {
    var rows := StepRows(step, oldLine, newLine);
    if !step.Keep? {
      FlatMapOne(StepDiffs(step, oldLine, newLine)[0], DiffRows);
      assert rows[1..] == if step.Sub? then [rows[1]] else [];
    }
    assert Filter(rows[1..], IsChange) == rows[1..];
    assert rows == [rows[0]] + rows[1..];
  }

  /** The stored diffs expand to exactly the changed rows of the separately written positional view. */
  lemma {:induction false} RenameViewsAgree(before: seq<Line>, after: seq<Line>)
    ensures ExpandedRows(RenameDiffs(before, after)) == Filter(PairRows(before, after), IsChange)
    ensures NewLinesFromRows(PairRows(before, after)) == after
    ensures OldLinesFromRows(PairRows(before, after)) == before
  {
    var n := Max(|before|, |after|);
    PairScriptFiles(before, after, n);
    ExpandedRowsOfScript(PairScript(before, after, n));
    RowsProject(PairScript(before, after, n));
  }
}
