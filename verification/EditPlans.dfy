/**
 * The edit plan of crates/aifed/src/batch.rs: every operation is recorded against the original
 * line numbers, and one walk over the original file emits the rows of the result.
 */
module EditPlans {
  import opened Prelude
  import opened LineDiffs
  import opened EditRows

  datatype Operation = InsertOp | DeleteOp | ReplaceOp

  datatype ValidatedOp = ValidatedOp(operation: Operation, targetLine: nat, newContents: seq<Line>)

  /** The value of an `EditPlan` object. */
  datatype Plan = Plan(deletions: set<nat>, inserts: map<nat, seq<Line>>, insertsAtStart: seq<Line>)
  {
    function InsertsAt(i: nat): seq<Line> {
      if i == 0 then insertsAtStart else if i in inserts then inserts[i] else []
    }

    /** Everything the plan refers to exists in a file of `n` lines. */
    ghost predicate Valid(n: nat) {
      && (forall i :: i in deletions ==> 0 < i <= n)
      && (forall i :: i in inserts ==> 0 < i <= n)
    }

    ghost predicate Mentions(line: Line) {
      line in insertsAtStart || exists i :: i in inserts && line in inserts[i]
    }
  }

  const EMPTY_PLAN := Plan({}, map[], [])

  function AddDeletion(p: Plan, i: nat): Plan { p.(deletions := p.deletions + {i}) }

  function AddInserts(p: Plan, i: nat, contents: seq<Line>): Plan {
    if i == 0 then p.(insertsAtStart := p.insertsAtStart + contents)
    else p.(inserts := p.inserts[i := p.InsertsAt(i) + contents])
  }

  function AddOp(p: Plan, v: ValidatedOp): Plan
    requires v.operation == ReplaceOp ==> v.targetLine > 0
  {
    match v.operation
    case DeleteOp => AddDeletion(p, v.targetLine)
    case ReplaceOp => AddInserts(AddDeletion(p, v.targetLine), v.targetLine, v.newContents)
    case InsertOp => AddInserts(p, v.targetLine, v.newContents)
  }

  /** The script continued by inserting the first `k` of the contents. */
  function WithInserts(s: Script, contents: seq<Line>, k: nat): Script
    requires k <= |contents|
  {
    if k == 0 then s else Then(WithInserts(s, contents, k - 1), Ins(contents[k - 1]))
  }

  /** An original line goes or stays. */
  function LineStep(p: Plan, i: nat, original: Line): Step {
    if i in p.deletions then Del(original) else Keep(original)
  }

  /** The walk over the first `n` original lines: inserts at the start, then each line and its inserts. */
  function PlanScript(p: Plan, original: seq<Line>, n: nat): Script
    requires n <= |original|
  {
    var inserts := p.InsertsAt(n);
    var before := if n == 0 then Empty
                  else Then(PlanScript(p, original, n - 1), LineStep(p, n, original[n - 1]));
    WithInserts(before, inserts, |inserts|)
  }

  class EditPlan {
    var deletions: set<nat>
    var inserts: map<nat, seq<Line>>
    var insertsAtStart: seq<Line>

    function Value(): Plan
      reads this
    {
      Plan(deletions, inserts, insertsAtStart)
    }

    constructor ()
      ensures Value() == EMPTY_PLAN
    {
      deletions, inserts, insertsAtStart := {}, map[], [];
    }

    method Extend(line: nat, contents: seq<Line>)
      requires line > 0
      modifies this
      ensures Value() == AddInserts(old(Value()), line, contents)
      ensures Value().InsertsAt(line) == old(Value().InsertsAt(line)) + contents
      ensures forall n :: n != line ==> Value().InsertsAt(n) == old(Value()).InsertsAt(n)
      ensures deletions == old(deletions)
    {
      var entry := if line in inserts then inserts[line] else [];
      inserts := inserts[line := entry + contents];
    }

    method Add(validated: ValidatedOp)
      requires validated.operation == ReplaceOp ==> validated.targetLine > 0
      modifies this
      ensures Value() == AddOp(old(Value()), validated)
      ensures var line := validated.targetLine;
              && deletions == old(deletions) + (if validated.operation == InsertOp then {} else {line})
              && (forall n :: n != line ==> Value().InsertsAt(n) == old(Value()).InsertsAt(n))
              && Value().InsertsAt(line) == old(Value().InsertsAt(line))
                 + if validated.operation == DeleteOp then [] else validated.newContents
    {
      match validated.operation {
        case DeleteOp =>
          deletions := deletions + {validated.targetLine};
        case ReplaceOp =>
          deletions := deletions + {validated.targetLine};
          Extend(validated.targetLine, validated.newContents);
        case InsertOp =>
          if validated.targetLine == 0 {
            insertsAtStart := insertsAtStart + validated.newContents;
          } else {
            Extend(validated.targetLine, validated.newContents);
          }
      }
    }

    /** The inserts that follow one anchor. */
    static method PushInserts(rows: seq<EditRow>, newLine: nat, contents: seq<Line>, ghost s: Script)
      returns (r: seq<EditRow>, next: nat)
      requires rows == RowsOf(s) && newLine == |NewOf(s)|
      ensures r == RowsOf(WithInserts(s, contents, |contents|))
      ensures next == |NewOf(WithInserts(s, contents, |contents|))|
    {
      r, next := rows, newLine;
      for k := 0 to |contents|
        invariant r == RowsOf(WithInserts(s, contents, k))
        invariant next == |NewOf(WithInserts(s, contents, k))|
      {
        next := next + 1;
        r := r + [Insert(next, contents[k])];
      }
    }

    method Apply(original: seq<Line>) returns (rows: seq<EditRow>)
      ensures rows == PlanRows(Value(), original)
    {
      var newLine: nat;
      rows, newLine := PushInserts([], 0, insertsAtStart, Empty);
      for i := 0 to |original|
        invariant rows == RowsOf(PlanScript(Value(), original, i))
        invariant newLine == |NewOf(PlanScript(Value(), original, i))|
      {
        var oldLine := i + 1;
        ghost var here := Then(PlanScript(Value(), original, i), LineStep(Value(), oldLine, original[i]));
        LineRow(Value(), original, i);
        if oldLine in deletions {
          rows := rows + [Delete(oldLine, original[i])];
        } else {
          newLine := newLine + 1;
          rows := rows + [Equal(newLine, original[i])];
        }
        var contents := if oldLine in inserts then inserts[oldLine] else [];
        rows, newLine := PushInserts(rows, newLine, contents, here);
      }
    }
  }

  /** The row of one original line, at the numbers the walk has reached. */
  lemma LineRow(p: Plan, original: seq<Line>, i: nat)
    requires i < |original|
    ensures var before := PlanScript(p, original, i);
            var here := Then(before, LineStep(p, i + 1, original[i]));
            var newLine := |NewOf(before)|;
            && PlanScript(p, original, i + 1) == WithInserts(here, p.InsertsAt(i + 1), |p.InsertsAt(i + 1)|)
            && |NewOf(here)| == (if i + 1 in p.deletions then newLine else newLine + 1)
            && RowsOf(here) == RowsOf(before)
                 + [if i + 1 in p.deletions then Delete(i + 1, original[i]) else Equal(newLine + 1, original[i])]
  {
    PlanScriptOld(p, original, i);
  }

  // ---------- the script of a plan ----------

  lemma {:induction false} WithInsertsFiles(s: Script, contents: seq<Line>, k: nat)
    requires k <= |contents|
    ensures OldOf(WithInserts(s, contents, k)) == OldOf(s)
    ensures NewOf(WithInserts(s, contents, k)) == NewOf(s) + contents[..k]
    ensures NoSub(s) ==> NoSub(WithInserts(s, contents, k))
  {
    if k > 0 {
      WithInsertsFiles(s, contents, k - 1);
      assert contents[..k] == contents[..k - 1] + [contents[k - 1]];
      ConcatAssociative(NewOf(s), contents[..k - 1], [contents[k - 1]]);
    }
  }

  lemma {:induction false} PlanScriptOld(p: Plan, original: seq<Line>, n: nat)
    requires n <= |original|
    ensures OldOf(PlanScript(p, original, n)) == original[..n]
    ensures NoSub(PlanScript(p, original, n))
  {
    var inserts := p.InsertsAt(n);
    if n == 0 {
      WithInsertsFiles(Empty, inserts, |inserts|);
    } else {
      PlanScriptOld(p, original, n - 1);
      var here := Then(PlanScript(p, original, n - 1), LineStep(p, n, original[n - 1]));
      WithInsertsFiles(here, inserts, |inserts|);
      assert original[..n] == original[..n - 1] + [original[n - 1]];
    }
  }

  /** What one original line becomes. */
  function LineResult(p: Plan, n: nat, original: Line): seq<Line> {
    (if n in p.deletions then [] else [original]) + p.InsertsAt(n)
  }

  lemma PlanScriptNew(p: Plan, original: seq<Line>, n: nat)
    requires n <= |original|
    ensures n == 0 ==> NewOf(PlanScript(p, original, n)) == p.insertsAtStart
    ensures n > 0 ==>
              NewOf(PlanScript(p, original, n))
              == NewOf(PlanScript(p, original, n - 1)) + LineResult(p, n, original[n - 1])
  {
    hide WithInserts;
    var inserts := p.InsertsAt(n);
    assert inserts[..|inserts|] == inserts;
    if n == 0 {
      WithInsertsFiles(Empty, inserts, |inserts|);
    } else {
      var here := Then(PlanScript(p, original, n - 1), LineStep(p, n, original[n - 1]));
      WithInsertsFiles(here, inserts, |inserts|);
      var before, step := NewOf(PlanScript(p, original, n - 1)), StepNew(LineStep(p, n, original[n - 1]));
      ConcatAssociative(before, step, inserts);
    }
  }

  // ---------- what a plan does ----------

  function PlanRows(p: Plan, original: seq<Line>): seq<EditRow> {
    RowsOf(PlanScript(p, original, |original|))
  }

  function NewLines(p: Plan, original: seq<Line>): seq<Line> { NewLinesFromRows(PlanRows(p, original)) }

  function Changes(p: Plan, original: seq<Line>): seq<LineDiff> { ChangesFromRows(PlanRows(p, original)) }

  /**
   * The recorded changes of any plan replay the original file into the new one and their inverse replays
   * the new file into the original.
   */
  lemma {:induction false} PlanCarries(p: Plan, original: seq<Line>)
    ensures Carries(Changes(p, original), original, NewLines(p, original))
  {
    var s := PlanScript(p, original, |original|);
    PlanScriptOld(p, original, |original|);
    NoSubAnchored(s);
    RowsProject(s);
    assert original[..|original|] == original;
    ScriptCarries(s);
    assert Changes(p, original) == DiffsOf(s) && NewLines(p, original) == NewOf(s) && OldOf(s) == original;
  }

  /** Equal and insert rows are the new file, equal and delete rows the original, each row at its own line number. */
  lemma {:induction false} PlanRowsExact(p: Plan, original: seq<Line>)
    ensures OldLinesFromRows(PlanRows(p, original)) == original
    ensures RowsCount(PlanRows(p, original))
    ensures forall row :: row in PlanRows(p, original) ==> RowExact(row, original, NewLines(p, original))
  {
    var s := PlanScript(p, original, |original|);
    PlanScriptOld(p, original, |original|);
    RowsProject(s);
    RowsCountOf(s);
    forall row | row in RowsOf(s) ensures RowExact(row, original, NewLines(p, original)) {
      var i :| 0 <= i < |RowsOf(s)| && RowsOf(s)[i] == row;
      CountedRowExact(RowsOf(s), i);
    }
  }

  // ---------- the simple editor ----------

  /** Inserts the contents one by one so that they end up in order from index `at` on. */
  function InsertEach(lines: seq<Line>, at: nat, contents: seq<Line>): (r: seq<Line>)
    requires at <= |lines|
    ensures |r| == |lines| + |contents|
    decreases |contents|
  {
    if contents == [] then lines
    else InsertEach(InsertAt(lines, at, contents[0]), at + 1, contents[1..])
  }

  /** An editor that touches one anchor of the plan: inserts after the line, then removes the line. */
  function EditAnchor(p: Plan, lines: seq<Line>, i: nat): seq<Line>
    requires i <= |lines|
  {
    var inserted := InsertEach(lines, i, p.InsertsAt(i));
    if i > 0 && i in p.deletions then RemoveAt(inserted, i - 1) else inserted
  }

  /** Edits the anchors `i`, `i - 1`, ..., 0 of a file in that order. */
  function EditDownwards(p: Plan, lines: seq<Line>, i: nat): seq<Line>
    requires i <= |lines|
    decreases i
  {
    if i == 0 then EditAnchor(p, lines, 0)
    else EditDownwards(p, EditAnchor(p, lines, i), i - 1)
  }

  lemma {:induction false} InsertEachIsSplice(lines: seq<Line>, at: nat, contents: seq<Line>)
    requires at <= |lines|
    ensures InsertEach(lines, at, contents) == lines[..at] + contents + lines[at..]
    decreases |contents|
  {
    if contents == [] {
      assert lines[..at] + contents + lines[at..] == lines;
    } else {
      var once := InsertAt(lines, at, contents[0]);
      InsertEachIsSplice(once, at + 1, contents[1..]);
      assert once[..at + 1] == lines[..at] + [contents[0]] && once[at + 1..] == lines[at..];
      assert contents == [contents[0]] + contents[1..];
    }
  }

  lemma EditAnchorIsSplice(p: Plan, original: seq<Line>, i: nat, done: seq<Line>)
    requires 0 < i <= |original|
    ensures EditAnchor(p, original[..i] + done, i)
         == original[..i - 1] + (LineResult(p, i, original[i - 1]) + done)
  {
    var lines := original[..i] + done;
    InsertEachIsSplice(lines, i, p.InsertsAt(i));
    assert lines[..i] == original[..i] && lines[i..] == done;
    assert original[..i] == original[..i - 1] + [original[i - 1]];
  }

  lemma EditAtStart(p: Plan, lines: seq<Line>)
    ensures EditDownwards(p, lines, 0) == p.insertsAtStart + lines
  {
    InsertEachIsSplice(lines, 0, p.InsertsAt(0));
    assert lines[..0] + p.insertsAtStart + lines[0..] == p.insertsAtStart + lines;
  }

  lemma {:induction false} EditDownwardsFrom(p: Plan, original: seq<Line>, i: nat, done: seq<Line>)
    requires i <= |original|
    ensures EditDownwards(p, original[..i] + done, i) == NewOf(PlanScript(p, original, i)) + done
  {
    if i == 0 {
      PlanScriptNew(p, original, 0);
      EditAtStart(p, original[..0] + done);
      assert original[..0] + done == done;
    } else {
      var here := LineResult(p, i, original[i - 1]);
      var lines := original[..i] + done;
      var next := EditAnchor(p, lines, i);
      assert EditDownwards(p, lines, i) == EditDownwards(p, next, i - 1);
      assert next == original[..i - 1] + (here + done) by {
        EditAnchorIsSplice(p, original, i, done);
      }
      EditDownwardsFrom(p, original, i - 1, here + done);
      var before := NewOf(PlanScript(p, original, i - 1));
      assert NewOf(PlanScript(p, original, i)) == before + here by {
        PlanScriptNew(p, original, i);
      }
      ConcatAssociative(before, here, done);
    }
  }

  /** The one-pass walk gives what editing anchor by anchor from the last line up gives: line numbers never drift. */
  lemma {:induction false} ApplyRefinesSimpleEditor(p: Plan, original: seq<Line>)
    ensures NewLines(p, original) == EditDownwards(p, original, |original|)
  {
    assert original[..|original|] + [] == original;
    EditDownwardsFrom(p, original, |original|, []);
    RowsProject(PlanScript(p, original, |original|));
  }

  function InsertedUpTo(p: Plan, n: nat): nat {
    |p.InsertsAt(n)| + if n == 0 then 0 else InsertedUpTo(p, n - 1)
  }

  function DeletedUpTo(p: Plan, n: nat): set<nat> {
    set i | i in p.deletions && 0 < i <= n
  }

  /** New length is old length, less the distinct deleted lines, plus the inserted ones. */
  lemma {:induction false} NewLength(p: Plan, original: seq<Line>)
    ensures |NewLines(p, original)| + |DeletedUpTo(p, |original|)| == |original| + InsertedUpTo(p, |original|)
    ensures p.Valid(|original|) ==> DeletedUpTo(p, |original|) == p.deletions
  {
    RowsProject(PlanScript(p, original, |original|));
    NewLengthUpTo(p, original, |original|);
  }

  lemma {:induction false} NewLengthUpTo(p: Plan, original: seq<Line>, n: nat)
    requires n <= |original|
    ensures |NewOf(PlanScript(p, original, n))| + |DeletedUpTo(p, n)| == n + InsertedUpTo(p, n)
  {
    PlanScriptNew(p, original, n);
    if n == 0 {
      assert DeletedUpTo(p, 0) == {};
    } else {
      NewLengthUpTo(p, original, n - 1);
      DeletedCount(p, n);
    }
  }

  lemma DeletedCount(p: Plan, n: nat)
    requires n > 0
    ensures |DeletedUpTo(p, n)| == |DeletedUpTo(p, n - 1)| + if n in p.deletions then 1 else 0
  {
    assert DeletedUpTo(p, n) == DeletedUpTo(p, n - 1) + if n in p.deletions then {n} else {};
  }
}
