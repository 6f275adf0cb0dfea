/**
 * Executing a batch (crates/aifed/src/batch.rs): every operation is validated against the file as read, the plan
 * is built, and only then are the new lines and the recorded changes produced.
 */
module BatchEdits {
  import opened Prelude
  import opened Whitespace
  import opened Locators
  import opened FileText
  import opened LineDiffs
  import opened EditRows
  import opened EditPlans
  import opened BatchLanguage
  import opened Decimals
  import opened Indents

  datatype EditError =
    | ContentMissing | VirtualNotInsert | RangeUnsupported | LineOutOfRange | HashMismatch
    | AssistDisabled | NoAnchor | ConfigConflict | StyleUnknown(reason: UnknownReason)
    | RangeOnlyDeletes | RangeStartOutOfBounds | RangeEndOutOfBounds

  /** An error, with the operation it is about, counted from 1. */
  datatype BatchError = BatchError(index: nat, error: EditError)

  /** A file as read, with what its validation depends on. */
  datatype Target = Target(lines: seq<Line>, lineHash: Line -> string, settings: IndentSettings)

  predicate IsVirtualHash(hash: string) { hash == "00" }

  /** The line has the expected hash, or the expected hash is the virtual one. */
  predicate HashOk(t: Target, line: nat, expected: string)
    requires 0 < line <= |t.lines|
  {
    IsVirtualHash(expected) || t.lineHash(t.lines[line - 1]) == expected
  }

  function Indent(contents: seq<Line>, run: string, directive: int, kind: IndentKind): (r: seq<Line>)
    requires directive != 0 ==> !kind.Unknown?
    ensures |r| == |contents|
    ensures forall i :: 0 <= i < |r| ==> r[i] == ApplyIndent(contents[i], run, directive, kind)
  {
    seq(|contents|, i requires 0 <= i < |contents| => ApplyIndent(contents[i], run, directive, kind))
  }

  function ApplyDirective(contents: seq<Line>, indent: Option<int>, anchor: Option<Line>, t: Target):
    Result<seq<Line>, EditError>
  {
    match indent
    case None => Ok(contents)
    case Some(n) =>
      if !t.settings.assistEnabled then Err(AssistDisabled)
      else
        var run := if anchor.Some? then LeadingIndent(anchor.value) else "";
        var resolved := ResolveIndent(t.lines, t.settings);
        if n == 0 then Ok(Indent(contents, run, 0, resolved.kind))
        else if anchor.None? then Err(NoAnchor)
        else if resolved.configConflict then Err(ConfigConflict)
        else
          match resolved.kind
          case Unknown(reason) => Err(StyleUnknown(reason))
          case _ => Ok(Indent(contents, run, n, resolved.kind))
  }

  function ValidateOperation(op: EditOp, t: Target): (r: Result<ValidatedOp, EditError>)
    ensures r.Ok? ==> (r.value.operation == op.operation && r.value.targetLine <= |t.lines|)
    ensures r.Ok? && op.operation != InsertOp ==> r.value.targetLine > 0
  {
    if op.operation != DeleteOp && op.contents == [] then Err(ContentMissing)
    else if op.locator.IsVirtual() then
      if op.operation != InsertOp then Err(VirtualNotInsert)
      else
        match ApplyDirective(op.contents, op.indent, None, t)
        case Err(e) => Err(e)
        case Ok(contents) => Ok(ValidatedOp(op.operation, 0, contents))
    else if op.locator.LineRange? || op.locator.HashlineRange? then Err(RangeUnsupported)
    else
      var line := if op.locator.Hashline? then op.locator.line else op.locator.number;
      if line == 0 || line > |t.lines| then Err(LineOutOfRange)
      else if op.locator.Hashline? && !HashOk(t, line, op.locator.hash) then Err(HashMismatch)
      else
        match ApplyDirective(op.contents, op.indent, Some(t.lines[line - 1]), t)
        case Err(e) => Err(e)
        case Ok(contents) => Ok(ValidatedOp(op.operation, line, contents))
  }

  /** The line numbers from `start` up to but not including `end`. */
  function Interval(start: nat, end: nat): (r: set<nat>)
    ensures forall i :: i in r <==> start <= i < end
    decreases end
  {
    if end <= start then {} else Interval(start, end - 1) + {end - 1}
  }

  /** The lines a range deletion removes. */
  function ValidateRange(op: EditOp, t: Target): (r: Result<set<nat>, EditError>)
    requires op.locator.HashlineRange? && op.locator.start <= op.locator.end
    ensures r.Ok? ==> forall i :: i in r.value ==> 0 < i <= |t.lines|
  {
    var (start, end) := (op.locator.start, op.locator.end);
    if op.operation != DeleteOp then Err(RangeOnlyDeletes)
    else if start == 0 || start > |t.lines| then Err(RangeStartOutOfBounds)
    else if end > |t.lines| then Err(RangeEndOutOfBounds)
    else if !HashOk(t, start, op.locator.startHash) || !HashOk(t, end, op.locator.endHash) then Err(HashMismatch)
    else Ok(Interval(start, end + 1))
  }

  /** The plan with one more operation. */
  function AddEdit(p: Plan, op: EditOp, t: Target): Result<Plan, EditError>
    requires WellFormed(op.locator)
  {
    if op.locator.HashlineRange? then
      match ValidateRange(op, t)
      case Err(e) => Err(e)
      case Ok(gone) => Ok(p.(deletions := p.deletions + gone))
    else
      match ValidateOperation(op, t) case Err(e) => Err(e) case Ok(v) => Ok(AddOp(p, v))
  }

  ghost predicate LocatorsFit(ops: seq<EditOp>) { forall i :: 0 <= i < |ops| ==> WellFormed(ops[i].locator) }

  /** The plan of the first `n` operations, or the first error. */
  function PlanOf(ops: seq<EditOp>, n: nat, t: Target): Result<Plan, BatchError>
    requires n <= |ops| && LocatorsFit(ops)
  {
    if n == 0 then Ok(EMPTY_PLAN)
    else
      match PlanOf(ops, n - 1, t)
      case Err(e) => Err(e)
      case Ok(p) => match AddEdit(p, ops[n - 1], t) case Err(e) => Err(BatchError(n, e)) case Ok(q) => Ok(q)
  }

  datatype Edited = Edited(newLines: seq<Line>, changes: seq<LineDiff>)

  function EditResult(ops: seq<EditOp>, t: Target): Result<Edited, BatchError>
    requires LocatorsFit(ops)
  {
    match PlanOf(ops, |ops|, t)
    case Err(e) => Err(e)
    case Ok(p) => Ok(Edited(NewLines(p, t.lines), Changes(p, t.lines)))
  }

  lemma PlanNext(ops: seq<EditOp>, n: nat, t: Target)
    requires n < |ops| && LocatorsFit(ops) && PlanOf(ops, n, t).Ok?
    ensures var added := AddEdit(PlanOf(ops, n, t).value, ops[n], t);
            PlanOf(ops, n + 1, t) == if added.Ok? then Ok(added.value) else Err(BatchError(n + 1, added.error))
  {
    hide AddEdit;
  }

  /** A range deletion, line by line. */
  method DeleteRange(plan: EditPlan, start: nat, end: nat)
    requires start <= end
    modifies plan
    ensures plan.Value() == old(plan.Value()).(deletions := old(plan.deletions) + Interval(start, end + 1))
  {
    var lineNum := start;
    while lineNum <= end
      invariant start <= lineNum <= end + 1
      invariant plan.Value() == old(plan.Value()).(deletions := old(plan.deletions) + Interval(start, lineNum))
    {
      plan.deletions := plan.deletions + {lineNum};
      lineNum := lineNum + 1;
    }
  }

  /** One operation, validated and added to the plan. */
  method AddOne(plan: EditPlan, op: EditOp, t: Target) returns (r: Result<(), EditError>)
    requires WellFormed(op.locator)
    modifies plan
    ensures var added := AddEdit(old(plan.Value()), op, t);
            && (r.Ok? <==> added.Ok?)
            && (r.Ok? ==> plan.Value() == added.value)
            && (r.Err? ==> r.error == added.error)
  {
    hide ValidateOperation;
    if op.locator.HashlineRange? {
      var gone := ValidateRange(op, t);
      if gone.Err? {
        return Err(gone.error);
      }
      DeleteRange(plan, op.locator.start, op.locator.end);
    } else {
      var validated := ValidateOperation(op, t);
      if validated.Err? {
        return Err(validated.error);
      }
      plan.Add(validated.value);
    }
    r := Ok(());
  }

  method ExecuteAtomic(ops: seq<EditOp>, t: Target) returns (r: Result<Edited, BatchError>)
    requires LocatorsFit(ops)
    ensures r == EditResult(ops, t)
  {
    hide PlanOf;
    hide AddEdit;
    var plan := new EditPlan();
    NoPlanYet(ops, t);
    for idx := 0 to |ops|
      invariant fresh(plan)
      invariant PlanOf(ops, idx, t) == Ok(plan.Value())
    {
      PlanNext(ops, idx, t);
      var added := AddOne(plan, ops[idx], t);
      if added.Err? {
        ErrorStays(ops, idx + 1, t);
        return Err(BatchError(idx + 1, added.error));
      }
    }
    var rows := plan.Apply(t.lines);
    r := Ok(Edited(NewLinesFromRows(rows), ChangesFromRows(rows)));
  }

  lemma NoPlanYet(ops: seq<EditOp>, t: Target)
    requires LocatorsFit(ops)
    ensures PlanOf(ops, 0, t) == Ok(EMPTY_PLAN)
  {
  }

  /** One failing operation fails the batch, with its own error: nothing after it is looked at. */
  lemma {:induction false} ErrorStays(ops: seq<EditOp>, n: nat, t: Target)
    requires n <= |ops| && LocatorsFit(ops)
    requires PlanOf(ops, n, t).Err?
    ensures PlanOf(ops, |ops|, t) == PlanOf(ops, n, t)
    decreases |ops| - n
  {
    if n < |ops| {
      ErrorStays(ops, n + 1, t);
    }
  }

  // ---------- what every accepted batch satisfies ----------

  /** An accepted batch only names lines of the file. */
  lemma {:induction false} PlanValid(ops: seq<EditOp>, n: nat, t: Target)
    requires n <= |ops| && LocatorsFit(ops)
    ensures PlanOf(ops, n, t).Ok? ==> PlanOf(ops, n, t).value.Valid(|t.lines|)
  {
    hide ValidateOperation;
    if n > 0 {
      PlanValid(ops, n - 1, t);
    }
  }

  lemma {:induction false} NewLinesFrom(p: Plan, original: seq<Line>, n: nat, line: Line)
    requires n <= |original|
    ensures line in NewOf(PlanScript(p, original, n)) ==> line in original || p.Mentions(line)
    ensures p.deletions == {} && line in original[..n] ==> line in NewOf(PlanScript(p, original, n))
  {
    PlanScriptNew(p, original, n);
    if n > 0 {
      NewLinesFrom(p, original, n - 1, line);
      assert original[..n] == original[..n - 1] + [original[n - 1]];
      if line in p.InsertsAt(n) {
        assert n in p.inserts;
      }
    }
  }

  /** Every line of the result is an original line or an inserted one; without deletions all original lines stay. */
  lemma {:induction false} ResultLines(p: Plan, original: seq<Line>, line: Line)
    ensures line in NewLines(p, original) ==> line in original || p.Mentions(line)
    ensures p.deletions == {} && line in original ==> line in NewLines(p, original)
  {
    NewLinesFrom(p, original, |original|, line);
    RowsProject(PlanScript(p, original, |original|));
    assert original[..|original|] == original;
  }

  /** What an operation's contents become: inserted lines, given the directive's anchor. */
  ghost predicate InsertedBy(line: Line, op: EditOp, t: Target) {
    match ValidateOperation(op, t)
    case Err(_) => false
    case Ok(v) => !op.locator.HashlineRange? && op.operation != DeleteOp && line in v.newContents
  }

  lemma MentionsAdded(p: Plan, v: ValidatedOp, line: Line)
    requires v.operation == ReplaceOp ==> v.targetLine > 0
    ensures AddOp(p, v).Mentions(line) ==> p.Mentions(line) || (v.operation != DeleteOp && line in v.newContents)
  {
    var q := AddOp(p, v);
    if q.Mentions(line) && line !in q.insertsAtStart {
      var i :| i in q.inserts && line in q.inserts[i];
      if i in p.inserts && line in p.inserts[i] {
        assert p.Mentions(line);
      }
    }
  }

  /** Every inserted line comes from some operation of the batch. */
  lemma {:induction false} MentionsFrom(ops: seq<EditOp>, n: nat, t: Target, line: Line)
    requires n <= |ops| && LocatorsFit(ops)
    requires PlanOf(ops, n, t).Ok? && PlanOf(ops, n, t).value.Mentions(line)
    ensures exists i :: 0 <= i < n && InsertedBy(line, ops[i], t)
  {
    hide ValidateOperation;
    assert n > 0;
    var p := PlanOf(ops, n - 1, t).value;
    if p.Mentions(line) {
      MentionsFrom(ops, n - 1, t, line);
    } else {
      var op := ops[n - 1];
      if !op.locator.HashlineRange? {
        MentionsAdded(p, ValidateOperation(op, t).value, line);
        assert InsertedBy(line, op, t);
      }
    }
  }

  lemma RunNewlineFree(line: Line)
    ensures NewlineFree(LeadingIndent(line))
    ensures NewlineFree(line) ==> NewlineFree(Body(line))
  {
  }

  lemma ApplyIndentNewlineFree(content: Line, run: string, directive: int, kind: IndentKind)
    requires NewlineFree(content) && NewlineFree(run)
    requires directive != 0 ==> !kind.Unknown?
    ensures NewlineFree(ApplyIndent(content, run, directive, kind))
  {
    RunNewlineFree(content);
    hide Wrap32;
    hide AnchorLevel;
    hide Body;
  }

  lemma {:induction false} InsertedNewlineFree(line: Line, op: EditOp, t: Target)
    requires InsertedBy(line, op, t) && AllNewlineFree(op.contents)
    ensures NewlineFree(line)
  {
    hide ResolveIndent;
    hide ApplyIndent;
    var v := ValidateOperation(op, t).value;
    var i :| 0 <= i < |v.newContents| && v.newContents[i] == line;
    var anchor := if v.targetLine == 0 then None else Some(t.lines[v.targetLine - 1]);
    var run := if anchor.Some? then LeadingIndent(anchor.value) else "";
    assert NewlineFree(run) by {
      if anchor.Some? {
        RunNewlineFree(anchor.value);
      }
    }
    if op.indent.Some? {
      ApplyIndentNewlineFree(op.contents[i], run, op.indent.value, ResolveIndent(t.lines, t.settings).kind);
    }
  }

  ghost predicate ContentsNewlineFree(ops: seq<EditOp>) {
    forall i :: 0 <= i < |ops| ==> AllNewlineFree(ops[i].contents)
  }

  /** No batch puts a newline inside a line: what is written splits into the new lines again. */
  lemma {:induction false} ResultNewlineFree(ops: seq<EditOp>, t: Target)
    requires LocatorsFit(ops) && ContentsNewlineFree(ops) && AllNewlineFree(t.lines)
    ensures EditResult(ops, t).Ok? ==> AllNewlineFree(EditResult(ops, t).value.newLines)
  {
    if EditResult(ops, t).Ok? {
      var p := PlanOf(ops, |ops|, t).value;
      var after := NewLines(p, t.lines);
      hide ValidateOperation;
      hide NewLines;
      forall k | 0 <= k < |after| ensures NewlineFree(after[k]) {
        ResultLines(p, t.lines, after[k]);
        if after[k] !in t.lines {
          MentionsFrom(ops, |ops|, t, after[k]);
          var i :| 0 <= i < |ops| && InsertedBy(after[k], ops[i], t);
          InsertedNewlineFree(after[k], ops[i], t);
        }
      }
    }
  }

  // ---------- batches that leave nothing ----------

  predicate Covers(l: Locator, n: nat) {
    match l
    case Hashline(line, _) => n == line
    case SingleLine(line) => n == line
    case HashlineRange(start, _, end, _) => start <= n <= end
    case LineRange(_, _) => false
  }

  /** The deletions of an accepted batch are the lines its operations other than insertions are about. */
  lemma {:induction false} PlanDeletions(ops: seq<EditOp>, k: nat, t: Target, n: nat)
    requires k <= |ops| && LocatorsFit(ops) && PlanOf(ops, k, t).Ok?
    ensures n in PlanOf(ops, k, t).value.deletions <==>
              exists i :: 0 <= i < k && ops[i].operation != InsertOp && Covers(ops[i].locator, n)
  {
    hide ValidateOperation;
    if k > 0 {
      PlanDeletions(ops, k - 1, t, n);
      AddedDeletions(PlanOf(ops, k - 1, t).value, ops[k - 1], t, n);
      hide AddEdit;
    }
  }

  lemma AddedDeletions(p: Plan, op: EditOp, t: Target, n: nat)
    requires WellFormed(op.locator) && AddEdit(p, op, t).Ok?
    ensures n in AddEdit(p, op, t).value.deletions <==>
              n in p.deletions || (op.operation != InsertOp && Covers(op.locator, n))
  {
    hide ApplyDirective;
    hide HashOk;
  }

  ghost predicate InsertsNothing(p: Plan) { forall n: nat :: p.InsertsAt(n) == [] }

  lemma DirectiveKeepsCount(contents: seq<Line>, indent: Option<int>, anchor: Option<Line>, t: Target)
    ensures var r := ApplyDirective(contents, indent, anchor, t); r.Ok? ==> |r.value| == |contents|
  {
    hide ApplyIndent;
    hide ResolveIndent;
  }

  lemma ValidatedContents(op: EditOp, t: Target)
    requires ValidateOperation(op, t).Ok? && op.operation != DeleteOp
    ensures ValidateOperation(op, t).value.newContents != []
  {
    hide ApplyDirective;
    if op.locator.IsVirtual() {
      DirectiveKeepsCount(op.contents, op.indent, None, t);
    } else {
      var line := if op.locator.Hashline? then op.locator.line else op.locator.number;
      DirectiveKeepsCount(op.contents, op.indent, Some(t.lines[line - 1]), t);
    }
  }

  lemma AddedInserts(p: Plan, op: EditOp, t: Target)
    requires WellFormed(op.locator) && AddEdit(p, op, t).Ok?
    ensures InsertsNothing(AddEdit(p, op, t).value) <==> InsertsNothing(p) && op.operation == DeleteOp
  {
    hide ValidateOperation;
    var q := AddEdit(p, op, t).value;
    if op.operation == DeleteOp {
      assert forall n: nat :: q.InsertsAt(n) == p.InsertsAt(n);
    } else {
      ValidatedContents(op, t);
      var v := ValidateOperation(op, t).value;
      assert q.InsertsAt(v.targetLine) == p.InsertsAt(v.targetLine) + v.newContents;
    }
  }

  lemma {:induction false} PlanInserts(ops: seq<EditOp>, k: nat, t: Target)
    requires k <= |ops| && LocatorsFit(ops) && PlanOf(ops, k, t).Ok?
    ensures InsertsNothing(PlanOf(ops, k, t).value) <==> forall i :: 0 <= i < k ==> ops[i].operation == DeleteOp
  {
    hide InsertsNothing;
    if k == 0 {
      NothingInserted();
    } else {
      PlanInserts(ops, k - 1, t);
      AddedInserts(PlanOf(ops, k - 1, t).value, ops[k - 1], t);
      hide AddEdit;
    }
  }

  lemma NothingInserted()
    ensures InsertsNothing(EMPTY_PLAN)
  {
  }

  /** All lines up to the `n`th are deleted, and nothing is inserted up to there. */
  ghost predicate LeavesNothing(p: Plan, n: nat) {
    p.InsertsAt(n) == [] && (n > 0 ==> n in p.deletions && LeavesNothing(p, n - 1))
  }

  lemma {:induction false} NothingLeft(p: Plan, original: seq<Line>, n: nat)
    requires n <= |original|
    ensures NewOf(PlanScript(p, original, n)) == [] <==> LeavesNothing(p, n)
  {
    hide PlanScript;
    PlanScriptNew(p, original, n);
    if n > 0 {
      NothingLeft(p, original, n - 1);
    }
  }

  lemma {:induction false} LeavesNothingExactly(p: Plan, n: nat)
    ensures LeavesNothing(p, n) <==>
              (forall k: nat :: k <= n ==> p.InsertsAt(k) == []) && forall k: nat :: 0 < k <= n ==> k in p.deletions
  {
    if n > 0 {
      LeavesNothingExactly(p, n - 1);
    }
  }

  ghost predicate Covered(ops: seq<EditOp>, n: nat) { exists i :: 0 <= i < |ops| && Covers(ops[i].locator, n) }

  /** Every line is deleted and nothing is inserted. */
  ghost predicate Empties(ops: seq<EditOp>, total: nat) {
    && (forall i :: 0 <= i < |ops| ==> ops[i].operation == DeleteOp)
    && (forall n: nat :: 0 < n <= total ==> Covered(ops, n))
  }

  lemma InsertsWithin(p: Plan, n: nat)
    requires p.Valid(n)
    ensures InsertsNothing(p) <==> forall k: nat :: k <= n ==> p.InsertsAt(k) == []
  {
  }

  /** An accepted batch leaves no line exactly when all its operations are deletions and they cover every line. */
  lemma {:induction false} EmptiesExactly(ops: seq<EditOp>, t: Target)
    requires LocatorsFit(ops) && EditResult(ops, t).Ok?
    ensures EditResult(ops, t).value.newLines == [] <==> Empties(ops, |t.lines|)
  {
    hide PlanOf;
    hide PlanScript;
    hide InsertsNothing;
    hide LeavesNothing;
    hide Covers;
    var p, n := PlanOf(ops, |ops|, t).value, |t.lines|;
    PlanValid(ops, |ops|, t);
    PlanInserts(ops, |ops|, t);
    InsertsWithin(p, n);
    LeavesNothingExactly(p, n);
    NothingLeft(p, t.lines, n);
    RowsProject(PlanScript(p, t.lines, n));
    if forall i :: 0 <= i < |ops| ==> ops[i].operation == DeleteOp {
      forall k: nat ensures k in p.deletions <==> Covered(ops, k) {
        PlanDeletions(ops, |ops|, t, k);
      }
    }
  }

  // ---------- replacement is deletion and insertion ----------

  /** `=` at a line plans exactly what `-` and then `+` at the same line plan. */
  lemma {:induction false} ReplaceIsDeleteInsert(p: Plan, locator: Locator, contents: seq<Line>, indent: Option<int>,
                                                 t: Target)
    requires locator.Hashline? && !locator.IsVirtual() && WellFormed(locator)
    ensures var replaced := AddEdit(p, EditOp(ReplaceOp, locator, contents, indent), t);
            var deleted := AddEdit(p, EditOp(DeleteOp, locator, [], None), t);
            replaced.Ok? ==>
              && deleted.Ok?
              && AddEdit(deleted.value, EditOp(InsertOp, locator, contents, indent), t) == replaced
  {
    hide ApplyDirective;
    if 0 < locator.line <= |t.lines| {
      EmptyDirective(Some(t.lines[locator.line - 1]), t);
    }
  }

  lemma EmptyDirective(anchor: Option<Line>, t: Target)
    ensures ApplyDirective([], None, anchor, t) == Ok([])
  {
  }

  lemma DeletionsCommute(p: Plan, i: nat, j: nat)
    ensures AddDeletion(AddDeletion(p, i), j) == AddDeletion(AddDeletion(p, j), i)
  {
    assert p.deletions + {i} + {j} == p.deletions + {j} + {i};
  }

  lemma InsertsAfterDeletion(p: Plan, i: nat, j: nat, contents: seq<Line>)
    ensures AddInserts(AddDeletion(p, i), j, contents) == AddDeletion(AddInserts(p, j, contents), i)
  {
  }

  lemma UpdatesCommute<K, V>(m: map<K, V>, i: K, a: V, j: K, b: V)
    requires i != j
    ensures m[i := a][j := b] == m[j := b][i := a]
  {
  }

  lemma InsertsCommute(p: Plan, i: nat, a: seq<Line>, j: nat, b: seq<Line>)
    requires i != j
    ensures AddInserts(AddInserts(p, i, a), j, b) == AddInserts(AddInserts(p, j, b), i, a)
  {
    if i > 0 && j > 0 {
      UpdatesCommute(p.inserts, i, p.InsertsAt(i) + a, j, p.InsertsAt(j) + b);
    }
  }

  /** Operations at different lines can be listed in either order. */
  lemma DifferentLinesCommute(p: Plan, v: ValidatedOp, w: ValidatedOp)
    requires v.operation == ReplaceOp ==> v.targetLine > 0
    requires w.operation == ReplaceOp ==> w.targetLine > 0
    requires v.targetLine != w.targetLine || v.operation == DeleteOp || w.operation == DeleteOp
    ensures AddOp(AddOp(p, v), w) == AddOp(AddOp(p, w), v)
  {
    hide AddDeletion;
    hide AddInserts;
    var i, j, a, b := v.targetLine, w.targetLine, v.newContents, w.newContents;
    forall q ensures AddDeletion(AddDeletion(q, i), j) == AddDeletion(AddDeletion(q, j), i) {
      DeletionsCommute(q, i, j);
    }
    forall q, k, l, c ensures AddInserts(AddDeletion(q, k), l, c) == AddDeletion(AddInserts(q, l, c), k) {
      InsertsAfterDeletion(q, k, l, c);
    }
    if i != j {
      forall q ensures AddInserts(AddInserts(q, i, a), j, b) == AddInserts(AddInserts(q, j, b), i, a) {
        InsertsCommute(q, i, a, j, b);
      }
    }
  }

  // ---------- directives keep a file's style ----------

  /** An insertion with a directive, anchored at a line that is not blank if the directive copies its indent. */
  ghost predicate StyledInsert(op: EditOp, t: Target) {
    && op.operation == InsertOp && op.indent.Some? && op.locator.Hashline?
    && (op.indent.value == 0 && 0 < op.locator.line <= |t.lines| ==> !IsBlankLine(t.lines[op.locator.line - 1]))
  }

  lemma {:induction false} StyledInsertFits(line: Line, op: EditOp, t: Target)
    requires StyledInsert(op, t) && InsertedBy(line, op, t)
    requires !(t.settings.assistEnabled && FinerWidth(t.lines, t.settings)) && !Classify(t.lines).Unknown?
    ensures Fits(line, Classify(t.lines))
  {
    hide Classify;
    hide ApplyIndent;
    hide Fits;
    hide ResolveIndent;
    hide FinerWidth;
    var v := ValidateOperation(op, t).value;
    var i :| 0 <= i < |v.newContents| && v.newContents[i] == line;
    var anchor := if v.targetLine == 0 then None else Some(t.lines[v.targetLine - 1]);
    assert t.settings.assistEnabled;
    ConfiguredStyle(t.lines, t.settings);
    if op.indent.value == 0 {
      ZeroIgnoresKind(op.contents[i], if anchor.Some? then LeadingIndent(anchor.value) else "",
                      ResolveIndent(t.lines, t.settings).kind, Classify(t.lines));
    }
    DirectiveFits(t.lines, anchor, op.contents[i], op.indent.value);
  }

  lemma {:induction false} InsertsDeleteNothing(ops: seq<EditOp>, n: nat, t: Target)
    requires n <= |ops| && LocatorsFit(ops)
    requires forall i :: 0 <= i < |ops| ==> StyledInsert(ops[i], t)
    ensures PlanOf(ops, n, t).Ok? ==> PlanOf(ops, n, t).value.deletions == {}
  {
    hide ValidateOperation;
    if n > 0 {
      InsertsDeleteNothing(ops, n - 1, t);
    }
  }

  lemma ZeroIgnoresKind(content: Line, run: string, a: IndentKind, b: IndentKind)
    ensures ApplyIndent(content, run, 0, a) == ApplyIndent(content, run, 0, b)
  {
  }

  ghost predicate AllStyled(ops: seq<EditOp>, t: Target) { forall i :: 0 <= i < |ops| ==> StyledInsert(ops[i], t) }

  /** The batch, if it is one of insertions with directives and accepted, leaves the class of the file alone. */
  ghost predicate KeepsStyle(ops: seq<EditOp>, t: Target) {
    LocatorsFit(ops) && AllStyled(ops, t) && EditResult(ops, t).Ok? ==>
      Classify(EditResult(ops, t).value.newLines) == Classify(t.lines)
  }

  lemma StyleKept(ops: seq<EditOp>, t: Target)
    requires !(t.settings.assistEnabled && FinerWidth(t.lines, t.settings)) && !Classify(t.lines).Unknown?
    ensures KeepsStyle(ops, t)
  {
    hide Classify;
    hide ValidateOperation;
    hide Fits;
    hide StyledInsert;
    hide FinerWidth;
    if LocatorsFit(ops) && AllStyled(ops, t) && EditResult(ops, t).Ok? {
      var p := PlanOf(ops, |ops|, t).value;
      var after := NewLines(p, t.lines);
      hide NewLines;
      InsertsDeleteNothing(ops, |ops|, t);
      forall l | l in t.lines ensures l in after {
        ResultLines(p, t.lines, l);
      }
      forall l | l in after ensures l in t.lines || Fits(l, Classify(t.lines)) {
        ResultLines(p, t.lines, l);
        if l !in t.lines {
          MentionsFrom(ops, |ops|, t, l);
          var i :| 0 <= i < |ops| && InsertedBy(l, ops[i], t);
          StyledInsertFits(l, ops[i], t);
        }
      }
      FittingKeepsClass(t.lines, after);
    }
  }

  lemma {:induction false} InsertedStays(p: Plan, original: seq<Line>, n: nat, k: nat, line: Line)
    requires k <= n <= |original| && line in p.InsertsAt(k)
    ensures line in NewOf(PlanScript(p, original, n))
  {
    hide PlanScript;
    PlanScriptNew(p, original, n);
    if k < n {
      InsertedStays(p, original, n - 1, k, line);
    }
  }

  /** The file after one line was inserted: its own lines and the new one. */
  lemma OneLineInserted(t: Target, k: nat, x: Line, l: Line)
    requires 0 < k <= |t.lines|
    ensures l in NewLines(AddInserts(EMPTY_PLAN, k, [x]), t.lines) <==> l in t.lines || l == x
  {
    var p := AddInserts(EMPTY_PLAN, k, [x]);
    assert p.InsertsAt(k) == [x];
    ResultLines(p, t.lines, l);
    RowsProject(PlanScript(p, t.lines, |t.lines|));
    InsertedStays(p, t.lines, |t.lines|, k, x);
    hide PlanScript;
  }

  lemma DirectiveOp(t: Target, k: nat, n: int, own: nat)
    requires 0 < k <= |t.lines| <= USIZE_MAX && n != 0 && t.settings.assistEnabled
    requires ResolveIndent(t.lines, t.settings) == ResolvedIndent(Space(own), false)
    ensures var op := EditOp(InsertOp, Hashline(k, "00"), ["x"], Some(n));
            var x := ApplyIndent("x", LeadingIndent(t.lines[k - 1]), n, Space(own));
            && LocatorsFit([op]) && AllStyled([op], t)
            && PlanOf([op], 1, t) == Ok(AddInserts(EMPTY_PLAN, k, [x]))
  {
    hide ResolveIndent;
    hide ApplyIndent;
    var op := EditOp(InsertOp, Hashline(k, "00"), ["x"], Some(n));
    var x := ApplyIndent("x", LeadingIndent(t.lines[k - 1]), n, Space(own));
    NoPlanYet([op], t);
    PlanNext([op], 0, t);
    hide PlanOf;
    assert Indent(["x"], LeadingIndent(t.lines[k - 1]), n, Space(own)) == [x];
  }

  /** A finer width forced on a file of spaces: one directive after a line of the first level ends the file's style. */
  lemma FinerWidthBreaks(t: Target) returns (ops: seq<EditOp>)
    requires FinerWidth(t.lines, t.settings) && t.settings.assistEnabled && |t.lines| <= USIZE_MAX
    ensures !KeepsStyle(ops, t)
  {
    hide Classify;
    hide ResolveIndent;
    hide ApplyIndent;
    hide FinerDirective;
    hide NewLines;
    hide KeepsStyle;
    hide Fits;
    hide AllStyled;
    hide PlanOf;
    hide AddInserts;
    hide LocatorsFit;
    var w, own := Classify(t.lines).width, t.settings.forcedWidth.value;
    ClassifySpace(t.lines, w);
    var k :| 0 <= k < |t.lines| && Indented(t.lines[k]) && RunLen(t.lines[k]) == w;
    var n := FinerDirective(w, own);
    FinerLevels(w, own);
    FinerResolved(t.lines, t.settings);
    FinerMisfits(t.lines[k], w, own);
    DirectiveOp(t, k + 1, n, own);
    ops := [EditOp(InsertOp, Hashline(k + 1, "00"), ["x"], Some(n))];
    MisfitEndsStyle(t, k + 1, ops[0], ApplyIndent("x", LeadingIndent(t.lines[k]), n, Space(own)));
  }

  lemma MisfitEndsStyle(t: Target, k: nat, op: EditOp, x: Line)
    requires 0 < k <= |t.lines| && !Classify(t.lines).Unknown? && !Fits(x, Classify(t.lines))
    requires LocatorsFit([op]) && AllStyled([op], t) && PlanOf([op], 1, t) == Ok(AddInserts(EMPTY_PLAN, k, [x]))
    ensures !KeepsStyle([op], t)
  {
    hide Classify;
    hide Fits;
    hide NewLines;
    hide StyledInsert;
    hide PlanOf;
    hide AddInserts;
    var after := NewLines(AddInserts(EMPTY_PLAN, k, [x]), t.lines);
    forall l ensures l in after <==> l in t.lines || l == x {
      OneLineInserted(t, k, x, l);
    }
    OneLineFits(t.lines, after, x);
  }

  /**
   * A file of known style keeps it under every batch of insertions that all carry a directive, as long as `@0` is not
   * anchored at a blank line: this holds exactly when directives are disabled or no finer width of spaces is forced.
   */
  lemma DirectivesKeepStyle(t: Target)
    requires !Classify(t.lines).Unknown? && |t.lines| <= USIZE_MAX
    ensures (forall ops :: KeepsStyle(ops, t)) <==> !(t.settings.assistEnabled && FinerWidth(t.lines, t.settings))
  {
    hide KeepsStyle;
    hide FinerWidth;
    hide Classify;
    if t.settings.assistEnabled && FinerWidth(t.lines, t.settings) {
      var ops := FinerWidthBreaks(t);
    } else {
      forall ops ensures KeepsStyle(ops, t) {
        StyleKept(ops, t);
      }
    }
  }
}
