/**
 * What a batch means (crates/aifed/src/batch.rs), told without its plan: which operations are accepted, which error the
 * others get, and which lines an accepted batch leaves.
 */
module BatchMeaning {
  import opened Prelude
  import opened Locators
  import opened LineDiffs
  import opened EditRows
  import opened EditPlans
  import opened BatchLanguage
  import opened Indents
  import opened BatchEdits

  // ---------- which batches are accepted ----------

  /** The line exists. */
  predicate InFile(t: Target, line: nat) { 0 < line <= |t.lines| }

  /** The line exists and has the hash that was asked for; the hash 00 stands for any. */
  predicate Shows(t: Target, line: nat, hash: string) {
    InFile(t, line) && (hash == "00" || t.lineHash(t.lines[line - 1]) == hash)
  }

  /** Insertions and replacements need something to write. */
  predicate HasContents(op: EditOp) { op.operation == DeleteOp || op.contents != [] }

  /** The style of the file is known, and the configuration agrees with it. */
  predicate StyleSettled(t: Target) {
    var r := ResolveIndent(t.lines, t.settings);
    !r.configConflict && !r.kind.Unknown?
  }

  /**
   * The directive, if there is one, can be followed: directives are enabled, and it copies the anchor's indentation or
   * there is an anchor and a settled style.
   */
  predicate Followable(t: Target, indent: Option<int>, anchored: bool) {
    indent.Some? ==> t.settings.assistEnabled && (indent.value == 0 || (anchored && StyleSettled(t)))
  }

  /** The operation can be made on the file. */
  predicate Acceptable(op: EditOp, t: Target) {
    match op.locator
    case HashlineRange(start, startHash, end, endHash) =>
      op.operation == DeleteOp && Shows(t, start, startHash) && Shows(t, end, endHash)
    case LineRange(_, _) => false
    case SingleLine(line) => HasContents(op) && InFile(t, line) && Followable(t, op.indent, true)
    case Hashline(line, hash) =>
      HasContents(op)
      && if line == 0 && hash == "00" then op.operation == InsertOp && Followable(t, op.indent, false)
         else Shows(t, line, hash) && Followable(t, op.indent, true)
  }

  lemma AddedExactly(p: Plan, op: EditOp, t: Target)
    requires WellFormed(op.locator)
    ensures AddEdit(p, op, t).Ok? <==> Acceptable(op, t)
  {
    hide ResolveIndent;
    hide Indent;
  }

  lemma {:induction false} PlannedExactly(ops: seq<EditOp>, n: nat, t: Target)
    requires n <= |ops| && LocatorsFit(ops)
    ensures PlanOf(ops, n, t).Ok? <==> forall i :: 0 <= i < n ==> Acceptable(ops[i], t)
  {
    hide AddEdit;
    hide Acceptable;
    if n > 0 {
      PlannedExactly(ops, n - 1, t);
      if PlanOf(ops, n - 1, t).Ok? {
        AddedExactly(PlanOf(ops, n - 1, t).value, ops[n - 1], t);
      }
    }
  }

  /** A batch is accepted exactly when every one of its operations can be made on the file as it was read. */
  lemma AcceptedExactly(ops: seq<EditOp>, t: Target)
    requires LocatorsFit(ops)
    ensures EditResult(ops, t).Ok? <==> forall i :: 0 <= i < |ops| ==> Acceptable(ops[i], t)
  {
    hide PlanOf;
    hide Acceptable;
    PlannedExactly(ops, |ops|, t);
  }

  // ---------- what is wrong with the others ----------

  /** The operation is about one line, and about which. */
  predicate AtLine(op: EditOp, line: nat) {
    HasContents(op)
    && match op.locator
       case Hashline(n, hash) => n == line && !(n == 0 && hash == "00")
       case SingleLine(n) => n == line
       case _ => false
  }

  /** The operation is about one existing line with the right hash, and holds a directive. */
  predicate DirectsAt(op: EditOp, line: nat, t: Target) {
    && AtLine(op, line) && op.indent.Some?
    && (if op.locator.Hashline? then Shows(t, line, op.locator.hash) else InFile(t, line))
  }

  /** An insertion in front of the file with a directive. */
  predicate DirectsInFront(op: EditOp) {
    HasContents(op) && op.locator == Hashline(0, "00") && op.operation == InsertOp && op.indent.Some?
  }

  /** The error that an operation is refused with. */
  ghost predicate Complains(op: EditOp, t: Target, e: EditError) {
    match e
    case ContentMissing => !op.locator.HashlineRange? && !HasContents(op)
    case VirtualNotInsert => op.locator == Hashline(0, "00") && HasContents(op) && op.operation != InsertOp
    case RangeUnsupported => op.locator.LineRange? && HasContents(op)
    case LineOutOfRange => exists line :: AtLine(op, line) && !InFile(t, line)
    case HashMismatch =>
      (match op.locator
       case Hashline(line, hash) => AtLine(op, line) && InFile(t, line) && !Shows(t, line, hash)
       case HashlineRange(start, startHash, end, endHash) =>
         op.operation == DeleteOp && InFile(t, start) && InFile(t, end)
         && !(Shows(t, start, startHash) && Shows(t, end, endHash))
       case _ => false)
    case AssistDisabled =>
      !t.settings.assistEnabled && (DirectsInFront(op) || exists line :: DirectsAt(op, line, t))
    case NoAnchor => t.settings.assistEnabled && DirectsInFront(op) && op.indent.value != 0
    case ConfigConflict =>
      && t.settings.assistEnabled && (exists line :: DirectsAt(op, line, t)) && op.indent.value != 0
      && ResolveIndent(t.lines, t.settings).configConflict
    case StyleUnknown(reason) =>
      && t.settings.assistEnabled && (exists line :: DirectsAt(op, line, t)) && op.indent.value != 0
      && ResolveIndent(t.lines, t.settings) == ResolvedIndent(Unknown(reason), false)
    case RangeOnlyDeletes => op.locator.HashlineRange? && op.operation != DeleteOp
    case RangeStartOutOfBounds =>
      op.locator.HashlineRange? && op.operation == DeleteOp && !InFile(t, op.locator.start)
    case RangeEndOutOfBounds =>
      op.locator.HashlineRange? && op.operation == DeleteOp && InFile(t, op.locator.start) && !InFile(t, op.locator.end)
  }

  lemma ComplaintExactly(p: Plan, op: EditOp, t: Target, e: EditError)
    requires WellFormed(op.locator)
    ensures AddEdit(p, op, t) == Err(e) <==> Complains(op, t, e)
  {
    hide ResolveIndent;
    hide Indent;
    if op.locator.Hashline? {
      assert AtLine(op, op.locator.line) || !HasContents(op) || op.locator.IsVirtual();
      assert DirectsAt(op, op.locator.line, t) <==> exists line :: DirectsAt(op, line, t);
    } else if op.locator.SingleLine? {
      assert AtLine(op, op.locator.number) || !HasContents(op);
      assert DirectsAt(op, op.locator.number, t) <==> exists line :: DirectsAt(op, line, t);
    }
  }

  lemma {:induction false} PlanRefused(ops: seq<EditOp>, n: nat, t: Target, k: nat, e: EditError)
    requires n <= |ops| && LocatorsFit(ops)
    ensures PlanOf(ops, n, t) == Err(BatchError(k, e)) <==>
              0 < k <= n && (forall i :: 0 <= i < k - 1 ==> Acceptable(ops[i], t)) && Complains(ops[k - 1], t, e)
  {
    hide AddEdit;
    hide Acceptable;
    hide Complains;
    if n > 0 {
      PlanRefused(ops, n - 1, t, k, e);
      PlannedExactly(ops, n - 1, t);
      if PlanOf(ops, n - 1, t).Ok? {
        ComplaintExactly(PlanOf(ops, n - 1, t).value, ops[n - 1], t, e);
      }
      if 0 < k < n {
        AddedExactly(EMPTY_PLAN, ops[k - 1], t);
        ComplaintExactly(EMPTY_PLAN, ops[k - 1], t, e);
      }
    }
  }

  /** A batch is refused with the error of its first operation that cannot be made, and that operation's number. */
  lemma RefusedExactly(ops: seq<EditOp>, t: Target, k: nat, e: EditError)
    requires LocatorsFit(ops)
    ensures EditResult(ops, t) == Err(BatchError(k, e)) <==>
              && 0 < k <= |ops| && (forall i :: 0 <= i < k - 1 ==> Acceptable(ops[i], t))
              && Complains(ops[k - 1], t, e)
  {
    hide PlanOf;
    hide Acceptable;
    hide Complains;
    PlanRefused(ops, |ops|, t, k, e);
  }

  // ---------- which lines an accepted batch leaves ----------

  /** The operation writes after line `n`, or in front of the file. */
  predicate WritesAt(op: EditOp, n: nat) {
    op.operation != DeleteOp
    && match op.locator case Hashline(line, _) => line == n case SingleLine(line) => line == n case _ => false
  }

  /** The lines it writes there: its contents, indented by its directive. */
  function LinesAt(op: EditOp, n: nat, t: Target): seq<Line>
    requires Acceptable(op, t) && WritesAt(op, n)
  {
    if op.indent.None? then op.contents
    else
      Indent(op.contents, if n == 0 then "" else LeadingIndent(t.lines[n - 1]), op.indent.value,
             ResolveIndent(t.lines, t.settings).kind)
  }

  ghost predicate AllAcceptable(ops: seq<EditOp>, t: Target) { forall i :: 0 <= i < |ops| ==> Acceptable(ops[i], t) }

  /** What the first `k` operations write after line `n`, in their order. */
  function WrittenAt(ops: seq<EditOp>, k: nat, n: nat, t: Target): seq<Line>
    requires k <= |ops| && AllAcceptable(ops, t)
  {
    if k == 0 then []
    else WrittenAt(ops, k - 1, n, t) + if WritesAt(ops[k - 1], n) then LinesAt(ops[k - 1], n, t) else []
  }

  /** Some operation deletes or replaces line `n`. */
  predicate Goes(ops: seq<EditOp>, n: nat) {
    exists i :: 0 <= i < |ops| && ops[i].operation != InsertOp && Covers(ops[i].locator, n)
  }

  /** The first `n` lines, each as it stays or goes, with what is written after it. */
  function LinesUpTo(ops: seq<EditOp>, t: Target, n: nat): seq<Line>
    requires n <= |t.lines| && AllAcceptable(ops, t)
  {
    if n == 0 then WrittenAt(ops, |ops|, 0, t)
    else
      LinesUpTo(ops, t, n - 1) + (if Goes(ops, n) then [] else [t.lines[n - 1]]) + WrittenAt(ops, |ops|, n, t)
  }

  lemma ValidatedAs(op: EditOp, t: Target)
    requires WellFormed(op.locator) && Acceptable(op, t) && !op.locator.HashlineRange?
    ensures var r := ValidateOperation(op, t);
            && r.Ok?
            && (op.operation != DeleteOp ==>
                  && WritesAt(op, r.value.targetLine)
                  && r.value.newContents == LinesAt(op, r.value.targetLine, t))
  {
    hide ResolveIndent;
    hide LeadingIndent;
    hide Indent;
  }

  lemma AddedAt(p: Plan, op: EditOp, t: Target, n: nat)
    requires WellFormed(op.locator) && Acceptable(op, t)
    ensures AddEdit(p, op, t).Ok?
    ensures AddEdit(p, op, t).value.InsertsAt(n) == p.InsertsAt(n) + if WritesAt(op, n) then LinesAt(op, n, t) else []
  {
    hide ResolveIndent;
    hide LeadingIndent;
    hide ValidateOperation;
    hide LinesAt;
    AddedExactly(p, op, t);
    if !op.locator.HashlineRange? {
      ValidatedAs(op, t);
    }
    hide Acceptable;
    assert p.InsertsAt(n) + [] == p.InsertsAt(n);
  }

  lemma {:induction false} PlanWrites(ops: seq<EditOp>, k: nat, t: Target, n: nat)
    requires k <= |ops| && LocatorsFit(ops) && AllAcceptable(ops, t)
    ensures PlanOf(ops, k, t).Ok? && PlanOf(ops, k, t).value.InsertsAt(n) == WrittenAt(ops, k, n, t)
  {
    hide AddEdit;
    hide Acceptable;
    hide LinesAt;
    if k > 0 {
      PlanWrites(ops, k - 1, t, n);
      AddedAt(PlanOf(ops, k - 1, t).value, ops[k - 1], t, n);
    }
  }

  lemma PlanGoes(ops: seq<EditOp>, t: Target, n: nat)
    requires LocatorsFit(ops) && PlanOf(ops, |ops|, t).Ok?
    ensures n in PlanOf(ops, |ops|, t).value.deletions <==> Goes(ops, n)
  {
    hide PlanOf;
    hide Covers;
    PlanDeletions(ops, |ops|, t, n);
  }

  lemma {:induction false} ScriptLeaves(ops: seq<EditOp>, t: Target, n: nat)
    requires n <= |t.lines| && LocatorsFit(ops) && AllAcceptable(ops, t)
    ensures PlanOf(ops, |ops|, t).Ok?
    ensures NewOf(PlanScript(PlanOf(ops, |ops|, t).value, t.lines, n)) == LinesUpTo(ops, t, n)
  {
    hide PlanOf;
    hide PlanScript;
    hide WrittenAt;
    hide Goes;
    hide LocatorsFit;
    hide AllAcceptable;
    PlanWrites(ops, |ops|, t, n);
    var p := PlanOf(ops, |ops|, t).value;
    PlanScriptNew(p, t.lines, n);
    if n > 0 {
      ScriptLeaves(ops, t, n - 1);
      PlanGoes(ops, t, n);
      ConcatAssociative(LinesUpTo(ops, t, n - 1), if Goes(ops, n) then [] else [t.lines[n - 1]],
                        WrittenAt(ops, |ops|, n, t));
    }
  }

  /**
   * What an accepted batch leaves: every line of the file that no operation deletes or replaces, and after each line
   * what the insertions and replacements there write, in the order of the batch.
   */
  lemma BatchLeaves(ops: seq<EditOp>, t: Target)
    requires LocatorsFit(ops) && AllAcceptable(ops, t)
    ensures EditResult(ops, t).Ok?
    ensures EditResult(ops, t).value.newLines == LinesUpTo(ops, t, |t.lines|)
  {
    hide PlanOf;
    hide PlanScript;
    ScriptLeaves(ops, t, |t.lines|);
    RowsProject(PlanScript(PlanOf(ops, |ops|, t).value, t.lines, |t.lines|));
  }

  /** Of two operations at one line the earlier one's lines come first. */
  lemma {:induction false} WrittenInOrder(ops: seq<EditOp>, k: nat, n: nat, t: Target, i: nat, j: nat)
    returns (before: seq<Line>, between: seq<Line>, after: seq<Line>)
    requires i < j < k <= |ops| && AllAcceptable(ops, t) && WritesAt(ops[i], n) && WritesAt(ops[j], n)
    ensures WrittenAt(ops, k, n, t) == before + LinesAt(ops[i], n, t) + between + LinesAt(ops[j], n, t) + after
  {
    hide LinesAt;
    hide Acceptable;
    if j < k - 1 {
      before, between, after := WrittenInOrder(ops, k - 1, n, t, i, j);
      after := after + if WritesAt(ops[k - 1], n) then LinesAt(ops[k - 1], n, t) else [];
    } else {
      before, between := WrittenOnce(ops, j, n, t, i);
      after := [];
    }
  }

  lemma {:induction false} WrittenOnce(ops: seq<EditOp>, k: nat, n: nat, t: Target, i: nat)
    returns (before: seq<Line>, after: seq<Line>)
    requires i < k <= |ops| && AllAcceptable(ops, t) && WritesAt(ops[i], n)
    ensures WrittenAt(ops, k, n, t) == before + LinesAt(ops[i], n, t) + after
  {
    hide LinesAt;
    hide Acceptable;
    if i < k - 1 {
      before, after := WrittenOnce(ops, k - 1, n, t, i);
      after := after + if WritesAt(ops[k - 1], n) then LinesAt(ops[k - 1], n, t) else [];
    } else {
      before, after := WrittenAt(ops, k - 1, n, t), [];
    }
  }
}
