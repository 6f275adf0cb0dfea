/**
 * Stored line diffs (crates/aifed-daemon/src/history/entry.rs), their inversion by the daemon
 * (crates/aifed-daemon/src/history/manager.rs) and their in-place replay by the command line
 * (crates/aifed/src/diff.rs), related through the edit script that produced them.
 */
module LineDiffs {
  import opened Prelude
  import opened StableSort

  /** One changed line. `lineNum` counts from 1, in the old file for removals and the new file for insertions. */
  datatype LineDiff = LineDiff(lineNum: nat, oldContent: Option<Line>, newContent: Option<Line>)

  // ---------- replay ----------

  function RemoveAt(lines: seq<Line>, i: nat): seq<Line>
    requires i < |lines|
  {
    lines[..i] + lines[i + 1..]
  }

  function InsertAt(lines: seq<Line>, i: nat, line: Line): seq<Line>
    requires i <= |lines|
  {
    lines[..i] + [line] + lines[i..]
  }

  /** First pass: deletions and replacements. */
  function RemoveStep(lines: seq<Line>, d: LineDiff): seq<Line> {
    if d.oldContent.Some? && 0 < d.lineNum <= |lines| then
      match d.newContent
      case None => RemoveAt(lines, d.lineNum - 1)
      case Some(n) => lines[d.lineNum - 1 := n]
    else lines
  }

  /** Second pass: insertions. */
  function InsertStep(lines: seq<Line>, d: LineDiff): seq<Line> {
    if d.oldContent.None? && d.newContent.Some? then
      if d.lineNum == 0 then InsertAt(lines, 0, d.newContent.value)
      else if d.lineNum <= |lines| + 1 then InsertAt(lines, d.lineNum - 1, d.newContent.value)
      else lines
    else lines
  }

  function RemovePass(lines: seq<Line>, diffs: seq<LineDiff>): seq<Line>
    decreases |diffs|
  {
    if diffs == [] then lines else RemovePass(RemoveStep(lines, diffs[0]), diffs[1..])
  }

  function InsertPass(lines: seq<Line>, diffs: seq<LineDiff>): seq<Line>
    decreases |diffs|
  {
    if diffs == [] then lines else InsertPass(InsertStep(lines, diffs[0]), diffs[1..])
  }

  function Descending(d: LineDiff): int { -1 * d.lineNum }
  function Ascending(d: LineDiff): int { d.lineNum }

  /** What replaying stored diffs on a list of lines yields. */
  function Replay(lines: seq<Line>, diffs: seq<LineDiff>): seq<Line> {
    InsertPass(RemovePass(lines, SortBy(diffs, Descending)), SortBy(diffs, Ascending))
  }

  /** The vector of lines a command holds between reading and writing a file. */
  class LineVec {
    var lines: seq<Line>

    constructor (lines: seq<Line>)
      ensures this.lines == lines
    {
      this.lines := lines;
    }

    method ApplyDiffs(diffs: seq<LineDiff>)
      modifies this
      ensures lines == Replay(old(lines), diffs)
    {
      var sortedDiffs := SortBy(diffs, Descending);
      for i := 0 to |sortedDiffs|
        invariant RemovePass(lines, sortedDiffs[i..]) == RemovePass(old(lines), sortedDiffs)
      {
        var diff := sortedDiffs[i];
        match (diff.oldContent, diff.newContent) {
          case (Some(_), None) =>
            if diff.lineNum > 0 && diff.lineNum <= |lines| {
              lines := RemoveAt(lines, diff.lineNum - 1);
            }
          case (Some(_), Some(n)) =>
            if diff.lineNum > 0 && diff.lineNum <= |lines| {
              lines := lines[diff.lineNum - 1 := n];
            }
          case _ =>
        }
        assert sortedDiffs[i..][1..] == sortedDiffs[i + 1..];
      }
      var insertDiffs := SortBy(diffs, Ascending);
      ghost var kept := lines;
      for i := 0 to |insertDiffs|
        invariant InsertPass(lines, insertDiffs[i..]) == InsertPass(kept, insertDiffs)
      {
        var diff := insertDiffs[i];
        if diff.oldContent.None? && diff.newContent.Some? {
          if diff.lineNum == 0 {
            lines := InsertAt(lines, 0, diff.newContent.value);
          } else if diff.lineNum <= |lines| + 1 {
            lines := InsertAt(lines, diff.lineNum - 1, diff.newContent.value);
          }
        }
        assert insertDiffs[i..][1..] == insertDiffs[i + 1..];
      }
    }
  }

  // ---------- inversion ----------

  function Invert(d: LineDiff): LineDiff {
    match (d.oldContent, d.newContent)
    case (None, Some(n)) => LineDiff(d.lineNum, Some(n), None)
    case (Some(o), None) => LineDiff(d.lineNum, None, Some(o))
    case (Some(o), Some(n)) => LineDiff(d.lineNum, Some(n), Some(o))
    case (None, None) => LineDiff(d.lineNum, Some(""), Some(""))
  }

  function InverseDiffs(diffs: seq<LineDiff>): (r: seq<LineDiff>)
    ensures |r| == |diffs|
  {
    if diffs == [] then [] else [Invert(diffs[0])] + InverseDiffs(diffs[1..])
  }

  lemma {:induction false} InverseAppend(a: seq<LineDiff>, b: seq<LineDiff>)
    ensures InverseDiffs(a + b) == InverseDiffs(a) + InverseDiffs(b)
  {
    if a == [] {
      assert a + b == b;
    } else {
      assert (a + b)[1..] == a[1..] + b;
      InverseAppend(a[1..], b);
    }
  }

  // ---------- edit scripts ----------

  /** One step of a walk over an old and a new file at once. */
  datatype Step = Keep(line: Line) | Del(gone: Line) | Ins(added: Line) | Sub(gone: Line, added: Line)

  /** A walk from the start of both files, last step outermost. */
  datatype Script = Empty | Then(init: Script, step: Step)

  function StepOld(step: Step): seq<Line> {
    match step case Keep(l) => [l] case Del(o) => [o] case Ins(_) => [] case Sub(o, _) => [o]
  }

  function StepNew(step: Step): seq<Line> {
    match step case Keep(l) => [l] case Del(_) => [] case Ins(n) => [n] case Sub(_, n) => [n]
  }

  function OldOf(s: Script): seq<Line> {
    match s case Empty => [] case Then(init, step) => OldOf(init) + StepOld(step)
  }

  function NewOf(s: Script): seq<Line> {
    match s case Empty => [] case Then(init, step) => NewOf(init) + StepNew(step)
  }

  /** The diff recorded for a step that ends at the given old and new line numbers. */
  function StepDiffs(step: Step, oldLine: nat, newLine: nat): seq<LineDiff> {
    match step
    case Keep(_) => []
    case Del(o) => [LineDiff(oldLine, Some(o), None)]
    case Ins(n) => [LineDiff(newLine, None, Some(n))]
    case Sub(o, n) => [LineDiff(oldLine, Some(o), Some(n))]
  }

  /** The stored form of a script: removals numbered in the old file, insertions in the new one. */
  function DiffsOf(s: Script): seq<LineDiff> {
    match s
    case Empty => []
    case Then(init, step) => DiffsOf(init) + StepDiffs(step, |OldOf(s)|, |NewOf(s)|)
  }

  /** Scripts of batch edits: a replaced line is a deletion and an insertion. */
  ghost predicate NoSub(s: Script) {
    s.Then? ==> NoSub(s.init) && !s.step.Sub?
  }

  /** Substitutions carry one line number only, so they must sit at the same place in both files. */
  ghost predicate Anchored(s: Script) {
    s.Then? ==> Anchored(s.init) && (s.step.Sub? ==> |OldOf(s)| == |NewOf(s)|)
  }

  lemma {:induction false} NoSubAnchored(s: Script)
    requires NoSub(s)
    ensures Anchored(s)
  {
    if s.Then? {
      NoSubAnchored(s.init);
    }
  }

  predicate IsRemoval(d: LineDiff) { d.oldContent.Some? }
  predicate IsInsertion(d: LineDiff) { d.oldContent.None? && d.newContent.Some? }

  lemma {:induction false} RemovePassFilter(lines: seq<Line>, diffs: seq<LineDiff>)
    ensures RemovePass(lines, diffs) == RemovePass(lines, Filter(diffs, IsRemoval))
    decreases |diffs|
  {
    if diffs != [] {
      var rest := Filter(diffs[1..], IsRemoval);
      RemovePassFilter(RemoveStep(lines, diffs[0]), diffs[1..]);
      assert ([diffs[0]] + rest)[1..] == rest;
    }
  }

  lemma {:induction false} InsertPassFilter(lines: seq<Line>, diffs: seq<LineDiff>)
    ensures InsertPass(lines, diffs) == InsertPass(lines, Filter(diffs, IsInsertion))
    decreases |diffs|
  {
    if diffs != [] {
      var rest := Filter(diffs[1..], IsInsertion);
      InsertPassFilter(InsertStep(lines, diffs[0]), diffs[1..]);
      assert ([diffs[0]] + rest)[1..] == rest;
    }
  }

  lemma {:induction false} InsertPassAppend(lines: seq<Line>, a: seq<LineDiff>, b: seq<LineDiff>)
    ensures InsertPass(lines, a + b) == InsertPass(InsertPass(lines, a), b)
    decreases |a|
  {
    if a == [] {
      assert a + b == b;
    } else {
      assert (a + b)[1..] == a[1..] + b;
      InsertPassAppend(InsertStep(lines, a[0]), a[1..], b);
    }
  }

  function Removals(s: Script): seq<LineDiff> { Filter(DiffsOf(s), IsRemoval) }
  function Insertions(s: Script): seq<LineDiff> { Filter(DiffsOf(s), IsInsertion) }

  /** The diffs a step contributes to the first pass. */
  function StepRemovals(step: Step, oldLine: nat): seq<LineDiff> {
    match step
    case Del(o) => [LineDiff(oldLine, Some(o), None)]
    case Sub(o, n) => [LineDiff(oldLine, Some(o), Some(n))]
    case _ => []
  }

  function StepInsertions(step: Step, newLine: nat): seq<LineDiff> {
    match step
    case Ins(n) => [LineDiff(newLine, None, Some(n))]
    case _ => []
  }

  lemma {:induction false} PassesOfStep(s: Script)
    requires s.Then?
    ensures Removals(s) == Removals(s.init) + StepRemovals(s.step, |OldOf(s)|)
    ensures Insertions(s) == Insertions(s.init) + StepInsertions(s.step, |NewOf(s)|)
  {
    var last := StepDiffs(s.step, |OldOf(s)|, |NewOf(s)|);
    FilterAppend(DiffsOf(s.init), last, IsRemoval);
    FilterAppend(DiffsOf(s.init), last, IsInsertion);
  }

  /** Numbered from 1 up to at most `last`, strictly increasing. */
  ghost predicate Numbered(diffs: seq<LineDiff>, last: nat) {
    && StrictlySorted(diffs, Ascending)
    && forall i :: 0 <= i < |diffs| ==> 0 < diffs[i].lineNum <= last
  }

  lemma {:induction false} NumberedSnoc(diffs: seq<LineDiff>, last: nat, d: LineDiff)
    requires Numbered(diffs, last) && d.lineNum == last + 1
    ensures Numbered(diffs + [d], last + 1)
  {
  }

  /** Removals are numbered in increasing old lines, insertions in increasing new lines. */
  lemma {:induction false} ScriptNumbering(s: Script)
    ensures Numbered(Removals(s), |OldOf(s)|)
    ensures Numbered(Insertions(s), |NewOf(s)|)
  {
    if s.Then? {
      ScriptNumbering(s.init);
      PassesOfStep(s);
      var removals, insertions := StepRemovals(s.step, |OldOf(s)|), StepInsertions(s.step, |NewOf(s)|);
      if removals != [] {
        NumberedSnoc(Removals(s.init), |OldOf(s.init)|, removals[0]);
      }
      if insertions != [] {
        NumberedSnoc(Insertions(s.init), |NewOf(s.init)|, insertions[0]);
      }
    }
  }

  /** The two sorts put a script's removals last-to-first and its insertions first-to-last. */
  lemma {:induction false} ReplayOrder(lines: seq<Line>, s: Script)
    ensures Replay(lines, DiffsOf(s)) == InsertPass(RemovePass(lines, Reverse(Removals(s))), Insertions(s))
  {
    ScriptNumbering(s);
    var diffs := DiffsOf(s);
    SortFilter(diffs, Descending, IsRemoval);
    ReverseMultiset(Removals(s));
    ReverseIndex(Removals(s));
    SortUnique(Removals(s), Reverse(Removals(s)), Descending);
    RemovePassFilter(lines, SortBy(diffs, Descending));
    SortFilter(diffs, Ascending, IsInsertion);
    SortUnique(Insertions(s), Insertions(s), Ascending);
    var kept := RemovePass(lines, SortBy(diffs, Descending));
    InsertPassFilter(kept, SortBy(diffs, Ascending));
  }

  /** What a step leaves behind after the first pass. */
  function StepKept(step: Step): seq<Line> { if step.Ins? then [] else StepNew(step) }

  /** The lines of the file between the two passes. */
  function Kept(s: Script): seq<Line> {
    match s case Empty => [] case Then(init, step) => Kept(init) + StepKept(step)
  }

  lemma {:induction false} RemoveStepAt(before: seq<Line>, step: Step, suffix: seq<Line>)
    requires step.Del? || step.Sub?
    ensures RemoveStep(before + StepOld(step) + suffix, StepRemovals(step, |before| + 1)[0])
         == before + (StepKept(step) + suffix)
  {
  }

  lemma {:induction false} RemoveLast(before: seq<Line>, removals: seq<LineDiff>, step: Step, suffix: seq<Line>)
    ensures RemovePass(before + StepOld(step) + suffix, Reverse(removals + StepRemovals(step, |before| + 1)))
         == RemovePass(before + (StepKept(step) + suffix), Reverse(removals))
  {
    var last := StepRemovals(step, |before| + 1);
    ReverseAppend(removals, last);
    assert Reverse(last) == last;
    if step.Del? || step.Sub? {
      RemoveStepAt(before, step, suffix);
      assert (last + Reverse(removals))[1..] == Reverse(removals);
    } else {
      assert before + StepOld(step) + suffix == before + (StepKept(step) + suffix);
      assert last + Reverse(removals) == Reverse(removals);
    }
  }

  lemma {:induction false} RemovePassKeeps(s: Script, suffix: seq<Line>)
    ensures RemovePass(OldOf(s) + suffix, Reverse(Removals(s))) == Kept(s) + suffix
  {
    match s
    case Empty =>
    case Then(init, step) =>
      var rest := StepKept(step) + suffix;
      calc {
        RemovePass(OldOf(s) + suffix, Reverse(Removals(s)));
        { PassesOfStep(s); assert StepRemovals(step, |OldOf(s)|) == StepRemovals(step, |OldOf(init)| + 1); }
        RemovePass(OldOf(init) + StepOld(step) + suffix,
                   Reverse(Removals(init) + StepRemovals(step, |OldOf(init)| + 1)));
        { RemoveLast(OldOf(init), Removals(init), step, suffix); }
        RemovePass(OldOf(init) + rest, Reverse(Removals(init)));
        { RemovePassKeeps(init, rest); }
        Kept(init) + rest;
        { ConcatAssociative(Kept(init), StepKept(step), suffix); }
        Kept(s) + suffix;
      }
  }

  lemma {:induction false} InsertLast(before: seq<Line>, step: Step, suffix: seq<Line>)
    ensures InsertPass(before + (StepKept(step) + suffix), StepInsertions(step, |before| + 1))
         == before + StepNew(step) + suffix
  {
    var lines := before + (StepKept(step) + suffix);
    if step.Ins? {
      assert lines == before + suffix;
      var d := StepInsertions(step, |before| + 1)[0];
      assert InsertStep(lines, d) == before + StepNew(step) + suffix;
    } else {
      ConcatAssociative(before, StepNew(step), suffix);
    }
  }

  lemma {:induction false} InsertPassRebuilds(s: Script, suffix: seq<Line>)
    ensures InsertPass(Kept(s) + suffix, Insertions(s)) == NewOf(s) + suffix
  {
    match s
    case Empty =>
    case Then(init, step) =>
      var rest := StepKept(step) + suffix;
      var last := StepInsertions(step, |NewOf(init)| + 1);
      calc {
        InsertPass(Kept(s) + suffix, Insertions(s));
        { PassesOfStep(s); assert StepInsertions(step, |NewOf(s)|) == last; }
        InsertPass(Kept(s) + suffix, Insertions(init) + last);
        { ConcatAssociative(Kept(init), StepKept(step), suffix); }
        InsertPass(Kept(init) + rest, Insertions(init) + last);
        { InsertPassAppend(Kept(init) + rest, Insertions(init), last); }
        InsertPass(InsertPass(Kept(init) + rest, Insertions(init)), last);
        { InsertPassRebuilds(init, rest); }
        InsertPass(NewOf(init) + rest, last);
        { InsertLast(NewOf(init), step, suffix); }
        NewOf(s) + suffix;
      }
  }

  /**
   * Replaying a script's stored diffs on its old file gives its new file, whatever lines follow the part
   * the script covers: the descending and ascending passes undo the mixing of the two numberings.
   */
  lemma {:induction false} ReplayForward(s: Script, suffix: seq<Line>)
    ensures Replay(OldOf(s) + suffix, DiffsOf(s)) == NewOf(s) + suffix
  {
    ReplayOrder(OldOf(s) + suffix, s);
    RemovePassKeeps(s, suffix);
    InsertPassRebuilds(s, suffix);
  }

  function FlipStep(step: Step): Step {
    match step
    case Keep(l) => Keep(l)
    case Del(o) => Ins(o)
    case Ins(n) => Del(n)
    case Sub(o, n) => Sub(n, o)
  }

  /** The script of the opposite edit. */
  function Flip(s: Script): Script {
    match s case Empty => Empty case Then(init, step) => Then(Flip(init), FlipStep(step))
  }

  lemma {:induction false} InvertStep(step: Step, oldLine: nat, newLine: nat)
    requires step.Sub? ==> oldLine == newLine
    ensures InverseDiffs(StepDiffs(step, oldLine, newLine)) == StepDiffs(FlipStep(step), newLine, oldLine)
  {
  }

  /** The daemon's inverse diffs are the stored form of the opposite script. */
  lemma {:induction false} InverseIsFlip(s: Script)
    requires Anchored(s)
    ensures OldOf(Flip(s)) == NewOf(s) && NewOf(Flip(s)) == OldOf(s)
    ensures DiffsOf(Flip(s)) == InverseDiffs(DiffsOf(s))
  {
    match s
    case Empty =>
    case Then(init, step) =>
      InverseIsFlip(init);
      InverseAppend(DiffsOf(init), StepDiffs(step, |OldOf(s)|, |NewOf(s)|));
      InvertStep(step, |OldOf(s)|, |NewOf(s)|);
  }

  lemma {:induction false} ReplayBackward(s: Script, suffix: seq<Line>)
    requires Anchored(s)
    ensures Replay(NewOf(s) + suffix, InverseDiffs(DiffsOf(s))) == OldOf(s) + suffix
  {
    InverseIsFlip(s);
    ReplayForward(Flip(s), suffix);
  }

  /** `diffs` leads from `a` to `b` and its inverse leads back. */
  ghost predicate Carries(diffs: seq<LineDiff>, a: seq<Line>, b: seq<Line>) {
    Replay(a, diffs) == b && Replay(b, InverseDiffs(diffs)) == a
  }

  lemma {:induction false} ScriptCarries(s: Script)
    requires Anchored(s)
    ensures Carries(DiffsOf(s), OldOf(s), NewOf(s))
  {
    ReplayForward(s, []);
    ReplayBackward(s, []);
    assert OldOf(s) + [] == OldOf(s) && NewOf(s) + [] == NewOf(s);
  }

  // ---------- replay on another file ----------

  lemma {:induction false} InsertPassGrowth(lines: seq<Line>, diffs: seq<LineDiff>)
    ensures |lines| <= |InsertPass(lines, diffs)| <= |lines| + |diffs|
    decreases |diffs|
  {
    if diffs != [] {
      InsertPassGrowth(InsertStep(lines, diffs[0]), diffs[1..]);
    }
  }

  /** An insertion that found its place in `b` tells `a` and `b` apart after it if they were different before. */
  lemma InsertStepInjective(a: seq<Line>, b: seq<Line>, d: LineDiff)
    requires |InsertStep(b, d)| == |b| + 1
    ensures InsertStep(a, d) == InsertStep(b, d) <==> a == b
  {
    var a', b' := InsertStep(a, d), InsertStep(b, d);
    var i := if d.lineNum == 0 then 0 else d.lineNum - 1;
    if a' == b' && |a'| == |a| + 1 {
      assert a == a'[..i] + a'[i + 1..];
      assert b == b'[..i] + b'[i + 1..];
    }
  }

  lemma {:induction false} InsertPassInjective(a: seq<Line>, b: seq<Line>, diffs: seq<LineDiff>)
    requires |InsertPass(b, diffs)| == |b| + |diffs|
    ensures InsertPass(a, diffs) == InsertPass(b, diffs) <==> a == b
    decreases |diffs|
  {
    hide InsertStep;
    if diffs != [] {
      var b' := InsertStep(b, diffs[0]);
      InsertPassGrowth(b', diffs[1..]);
      StepGrowth(b, diffs[0]);
      InsertStepInjective(a, b, diffs[0]);
      InsertPassInjective(InsertStep(a, diffs[0]), b', diffs[1..]);
    }
  }

  lemma StepGrowth(lines: seq<Line>, d: LineDiff)
    ensures |lines| <= |InsertStep(lines, d)| <= |lines| + 1
  {
  }

  lemma {:induction false} InsertionsCount(s: Script)
    ensures |NewOf(s)| == |Kept(s)| + |Insertions(s)|
  {
    hide Insertions;
    if s.Then? {
      InsertionsCount(s.init);
      PassesOfStep(s);
    } else {
      NoInsertions();
    }
  }

  lemma NoInsertions()
    ensures Insertions(Empty) == []
  {
  }

  /**
   * A script's stored diffs, replayed on any file, give the script's new file exactly when the first pass leaves of
   * that file what it leaves of the old one.
   */
  lemma {:induction false} ReplayAgrees(s: Script, lines: seq<Line>)
    ensures var removals := SortBy(DiffsOf(s), Descending);
            Replay(lines, DiffsOf(s)) == NewOf(s) <==> RemovePass(lines, removals) == RemovePass(OldOf(s), removals)
  {
    hide InsertPass;
    hide RemovePass;
    var removals := SortBy(DiffsOf(s), Descending);
    FirstPass(lines, s);
    FirstPass(OldOf(s), s);
    ReplayOrder(lines, s);
    RemovePassKeeps(s, []);
    InsertPassRebuilds(s, []);
    assert OldOf(s) + [] == OldOf(s) && Kept(s) + [] == Kept(s) && NewOf(s) + [] == NewOf(s);
    InsertionsCount(s);
    InsertPassInjective(RemovePass(lines, removals), Kept(s), Insertions(s));
  }

  lemma {:induction false} FirstPass(lines: seq<Line>, s: Script)
    ensures RemovePass(lines, SortBy(DiffsOf(s), Descending)) == RemovePass(lines, Reverse(Removals(s)))
  {
    hide RemovePass;
    ScriptNumbering(s);
    var diffs := DiffsOf(s);
    SortFilter(diffs, Descending, IsRemoval);
    ReverseMultiset(Removals(s));
    ReverseIndex(Removals(s));
    SortUnique(Removals(s), Reverse(Removals(s)), Descending);
    RemovePassFilter(lines, SortBy(diffs, Descending));
  }

  // ---------- what the first pass drops ----------

  /** The lines whose numbers, counted from 1, are not in `gone`. */
  function Without(lines: seq<Line>, gone: set<nat>): seq<Line> {
    if lines == [] then []
    else Without(lines[..|lines| - 1], gone) + if |lines| in gone then [] else [lines[|lines| - 1]]
  }

  /** The numbers of the lines that the diffs delete. */
  function DeletedNumbers(diffs: seq<LineDiff>): set<nat> {
    if diffs == [] then {}
    else (if IsRemoval(diffs[0]) then {diffs[0].lineNum} else {}) + DeletedNumbers(diffs[1..])
  }

  /** The numbers of the lines that the diffs insert. */
  function InsertedNumbers(diffs: seq<LineDiff>): set<nat> {
    if diffs == [] then {}
    else (if IsInsertion(diffs[0]) then {diffs[0].lineNum} else {}) + InsertedNumbers(diffs[1..])
  }

  lemma {:induction false} WithoutBeyond(lines: seq<Line>, gone: set<nat>, k: nat)
    requires k == 0 || k > |lines|
    ensures Without(lines, gone + {k}) == Without(lines, gone)
  {
    if lines != [] {
      WithoutBeyond(lines[..|lines| - 1], gone, k);
    }
  }

  /** Dropping the highest number first. */
  lemma {:induction false} WithoutHighest(lines: seq<Line>, gone: set<nat>, k: nat)
    requires 0 < k <= |lines| && forall n :: n in gone ==> n < k
    ensures Without(lines, gone + {k}) == Without(RemoveAt(lines, k - 1), gone)
  {
    var n := |lines| - 1;
    var rest := RemoveAt(lines, k - 1);
    if k == |lines| {
      assert rest == lines[..n];
      WithoutBeyond(lines[..n], gone, k);
    } else {
      assert rest[..n - 1] == RemoveAt(lines[..n], k - 1) && rest[n - 1] == lines[n];
      WithoutHighest(lines[..n], gone, k);
    }
  }

  ghost predicate DeletesOnly(diffs: seq<LineDiff>) {
    forall i :: 0 <= i < |diffs| ==> diffs[i].oldContent.Some? && diffs[i].newContent.None?
  }

  /** On any file, deletions in descending order drop exactly the lines they number, as far as there are such lines. */
  lemma {:induction false} RemovePassDrops(lines: seq<Line>, diffs: seq<LineDiff>, last: nat)
    requires Numbered(diffs, last) && DeletesOnly(diffs)
    ensures RemovePass(lines, Reverse(diffs)) == Without(lines, DeletedNumbers(diffs))
    decreases |diffs|
  {
    hide Without;
    if diffs == [] {
      WithoutNothing(lines);
    } else {
      var n := |diffs| - 1;
      var init, d := diffs[..n], diffs[n];
      BelowLast(diffs, last);
      SplitLast(lines, init, d);
      hide Reverse;
      hide RemovePass;
      hide DeletedNumbers;
      RemovePassDrops(RemoveStep(lines, d), init, last);
      if d.lineNum <= |lines| {
        WithoutHighest(lines, DeletedNumbers(init), d.lineNum);
      } else {
        WithoutBeyond(lines, DeletedNumbers(init), d.lineNum);
      }
    }
  }

  lemma SplitLast(lines: seq<Line>, init: seq<LineDiff>, d: LineDiff)
    requires IsRemoval(d)
    ensures RemovePass(lines, Reverse(init + [d])) == RemovePass(RemoveStep(lines, d), Reverse(init))
    ensures DeletedNumbers(init + [d]) == DeletedNumbers(init) + {d.lineNum}
  {
    hide RemoveStep;
    ReverseAppend(init, [d]);
    assert Reverse([d]) == [d] && ([d] + Reverse(init))[1..] == Reverse(init);
    DeletedSnoc(init, d);
  }

  lemma BelowLast(diffs: seq<LineDiff>, last: nat)
    requires Numbered(diffs, last) && DeletesOnly(diffs) && diffs != []
    ensures var n := |diffs| - 1;
            && Numbered(diffs[..n], last) && DeletesOnly(diffs[..n])
            && diffs == diffs[..n] + [diffs[n]]
            && forall k :: k in DeletedNumbers(diffs[..n]) ==> k < diffs[n].lineNum
  {
    hide DeletedNumbers;
    var n := |diffs| - 1;
    forall i | 0 <= i < n ensures diffs[..n][i].lineNum < diffs[n].lineNum {
      assert Ascending(diffs[i]) < Ascending(diffs[n]);
    }
    DeletedBelow(diffs[..n], diffs[n].lineNum);
  }

  lemma {:induction false} WithoutNothing(lines: seq<Line>)
    ensures Without(lines, {}) == lines
  {
    if lines != [] {
      WithoutNothing(lines[..|lines| - 1]);
    }
  }

  lemma {:induction false} DeletedSnoc(diffs: seq<LineDiff>, d: LineDiff)
    requires IsRemoval(d)
    ensures DeletedNumbers(diffs + [d]) == DeletedNumbers(diffs) + {d.lineNum}
  {
    if diffs == [] {
      assert [d][1..] == [];
    } else {
      assert (diffs + [d])[1..] == diffs[1..] + [d];
      DeletedSnoc(diffs[1..], d);
    }
  }

  lemma {:induction false} DeletedBelow(diffs: seq<LineDiff>, below: nat)
    requires forall i :: 0 <= i < |diffs| ==> diffs[i].lineNum < below
    ensures forall n :: n in DeletedNumbers(diffs) ==> n < below
  {
    if diffs != [] {
      DeletedBelow(diffs[1..], below);
    }
  }

  lemma {:induction false} DeletedFilter(diffs: seq<LineDiff>)
    ensures DeletedNumbers(Filter(diffs, IsRemoval)) == DeletedNumbers(diffs)
  {
    if diffs != [] {
      DeletedFilter(diffs[1..]);
      var rest := Filter(diffs[1..], IsRemoval);
      assert ([diffs[0]] + rest)[1..] == rest;
    }
  }

  lemma {:induction false} RemovalsDelete(s: Script)
    requires NoSub(s)
    ensures DeletesOnly(Removals(s))
  {
    if s.Then? {
      RemovalsDelete(s.init);
      PassesOfStep(s);
    }
  }

  /** The first pass of a batch edit's diffs, on any file. */
  lemma {:induction false} FirstPassDrops(lines: seq<Line>, s: Script)
    requires NoSub(s)
    ensures RemovePass(lines, SortBy(DiffsOf(s), Descending)) == Without(lines, DeletedNumbers(DiffsOf(s)))
  {
    hide RemovePass;
    hide Without;
    FirstPass(lines, s);
    ScriptNumbering(s);
    RemovalsDelete(s);
    RemovePassDrops(lines, Removals(s), |OldOf(s)|);
    DeletedFilter(DiffsOf(s));
  }

  lemma {:induction false} InverseNumbers(diffs: seq<LineDiff>)
    requires forall d :: d in diffs ==> d.oldContent.None? != d.newContent.None?
    ensures DeletedNumbers(InverseDiffs(diffs)) == InsertedNumbers(diffs)
  {
    if diffs != [] {
      InverseNumbers(diffs[1..]);
      assert InverseDiffs(diffs)[1..] == InverseDiffs(diffs[1..]);
      assert diffs[0] in diffs;
    }
  }

  lemma {:induction false} ScriptDiffKinds(s: Script)
    requires NoSub(s)
    ensures forall d :: d in DiffsOf(s) ==> d.oldContent.None? != d.newContent.None?
  {
    if s.Then? {
      ScriptDiffKinds(s.init);
    }
  }

  lemma {:induction false} FlipNoSub(s: Script)
    requires NoSub(s)
    ensures NoSub(Flip(s))
  {
    if s.Then? {
      FlipNoSub(s.init);
    }
  }

  /**
   * The inverse of a batch edit, replayed on any file, gives the file from before the edit exactly when that file and
   * the edited one agree once the lines numbered by the edit's insertions are dropped from both.
   */
  lemma {:induction false} InverseAgrees(s: Script, lines: seq<Line>)
    requires NoSub(s)
    ensures var inserted := InsertedNumbers(DiffsOf(s));
            Replay(lines, InverseDiffs(DiffsOf(s))) == OldOf(s)
            <==> Without(lines, inserted) == Without(NewOf(s), inserted)
  {
    hide Without;
    hide RemovePass;
    hide Replay;
    NoSubAnchored(s);
    FlipNoSub(s);
    InverseIsFlip(s);
    ReplayAgrees(Flip(s), lines);
    FirstPassDrops(lines, Flip(s));
    FirstPassDrops(NewOf(s), Flip(s));
    ScriptDiffKinds(s);
    InverseNumbers(DiffsOf(s));
  }

  // ---------- one diff on any file ----------

  /**
   * One diff replayed on any file: a removal or replacement needs its line to exist; an insertion goes in front of the
   * line with its number, or at the end, with 0 as the start of the file; anything else is ignored.
   */
  lemma {:induction false} OneDiff(lines: seq<Line>, d: LineDiff)
    ensures var n, there := d.lineNum, 0 < d.lineNum <= |lines|;
            Replay(lines, [d])
            == match (d.oldContent, d.newContent)
               case (Some(_), None) => if there then lines[..n - 1] + lines[n..] else lines
               case (Some(_), Some(x)) => if there then lines[..n - 1] + [x] + lines[n..] else lines
               case (None, Some(x)) =>
                 if n == 0 then [x] + lines
                 else if n <= |lines| + 1 then lines[..n - 1] + [x] + lines[n - 1..] else lines
               case (None, None) => lines
  {
    assert SortBy([d], Descending) == [d] && SortBy([d], Ascending) == [d];
    assert [d][1..] == [];
    assert RemovePass(lines, [d]) == RemovePass(RemoveStep(lines, d), []);
    var kept := RemoveStep(lines, d);
    assert InsertPass(kept, [d]) == InsertPass(InsertStep(kept, d), []);
  }

  /** A diff that says nothing is undone by blanking its line. */
  lemma {:induction false} EmptyDiffBlanks(lines: seq<Line>, n: nat)
    requires 0 < n <= |lines|
    ensures Replay(lines, [LineDiff(n, None, None)]) == lines
    ensures Replay(lines, InverseDiffs([LineDiff(n, None, None)])) == lines[..n - 1] + [""] + lines[n..]
  {
    hide Replay;
    var d := LineDiff(n, None, None);
    OneDiff(lines, d);
    OneDiff(lines, LineDiff(n, Some(""), Some("")));
    assert [d][1..] == [] && InverseDiffs([]) == [];
    assert InverseDiffs([d]) == [LineDiff(n, Some(""), Some(""))];
  }
}
