/** Where undo does not restore a file, and exactly when it does. */
module UndoLimits {
  import opened Prelude
  import opened StableSort
  import opened FileText
  import opened LineDiffs
  import opened EditRows
  import opened EditPlans
  import opened Locators
  import opened BatchLanguage
  import opened BatchEdits
  import opened History
  import opened Workspaces
  import opened Timelines

  lemma {:induction false} JoinWithEmptyLine(lines: seq<Line>)
    requires lines != []
    ensures JoinLines(lines + [""]) == JoinLines(lines) + "\n"
  {
    var more := lines + [""];
    if |lines| == 1 {
      assert more == [lines[0], ""] && more[1..] == [""];
      assert JoinLines(more) == lines[0] + "\n" + "";
    } else {
      assert more[1..] == lines[1..] + [""];
      JoinWithEmptyLine(lines[1..]);
      ConcatAssociative(lines[0] + "\n", JoinLines(lines[1..]), "\n");
    }
  }

  /** What undoing a plan makes of the lines read back after it was written. */
  lemma InverseAfterWrite(p: Plan, original: seq<Line>)
    requires AllNewlineFree(NewLines(p, original)) && original != []
    ensures Replay(SplitLines(JoinLines(NewLines(p, original))), InverseDiffs(Changes(p, original)))
         == if NewLines(p, original) != [] then original else original + [""]
  {
    PlanCarries(p, original);
    if NewLines(p, original) != [] {
      SplitJoin(NewLines(p, original));
      hide *;
    } else {
      var s := PlanScript(p, original, |original|);
      SplitOfNothing();
      PlanScriptOld(p, original, |original|);
      NoSubAnchored(s);
      RowsProject(s);
      assert original[..|original|] == original;
      EmptyResult(s, original);
      assert Changes(p, original) == DiffsOf(s);
    }
  }

  lemma EmptyResult(s: Script, original: seq<Line>)
    requires Anchored(s) && OldOf(s) == original && NewOf(s) == []
    ensures Replay([""], InverseDiffs(DiffsOf(s))) == original + [""]
  {
    hide Replay;
    ReplayBackward(s, [""]);
    assert NewOf(s) + [""] == [""];
  }

  lemma UndoAfterPush(f: FileHistory, entry: HistoryEntry, newHash: string)
    ensures var undo := Pushed(f, entry, newHash).undoStack;
            undo != [] && undo[|undo| - 1] == entry
  {
  }

  /** What the client does when the daemon's hash is that of the file. */
  lemma ResponseApplied(env: Env, w: World, path: Path, response: UndoRedoResult)
    requires path in w.disk && env.isText(w.disk[path])
    requires response.currentHash == "" || response.currentHash == env.fileHash(w.disk[path])
    ensures var after := ApplyResponse(env, w, path, response).0;
            path in after.disk
            && after.disk[path] == JoinLines(Replay(SplitLines(w.disk[path]), response.diffs))
  {
    hide Replay;
    hide SplitLines;
    ReplayNothing(SplitLines(w.disk[path]));
    JoinSplit(w.disk[path]);
  }

  /** The undo right after a recorded edit replays the inverse of its changes on what it wrote. */
  lemma UndoAfterEdit(env: Env, w: World, path: Path, newContent: string, changes: seq<LineDiff>)
    requires path in w.disk && env.isText(newContent)
    requires EditAccepted(w.histories.Of(path), env.fileHash(w.disk[path]))
    ensures var edited := WriteAndRecord(env, w, path, w.disk[path], newContent, changes);
            var after := DoUndo(env, edited, path, false).0;
            && path in after.disk
            && after.disk[path] == JoinLines(Replay(SplitLines(newContent), InverseDiffs(changes)))
  {
    hide Replay;
    hide SplitLines;
    hide InverseDiffs;
    var edited := WriteAndRecord(env, w, path, w.disk[path], newContent, changes);
    var entry := HistoryEntry(w.histories.nextId, changes);
    UndoAfterPush(w.histories.Of(path), entry, env.fileHash(newContent));
    assert edited.histories.Of(path) == Pushed(w.histories.Of(path), entry, env.fileHash(newContent));
    var moved := edited.(histories := Undone(edited.histories, path));
    ResponseApplied(env, moved, path, UndoResult(edited.histories, path).value);
    hide ApplyResponse;
  }

  lemma EditWrites(env: Env, w: World, path: Path, ops: seq<EditOp>)
    requires LocatorsFit(ops) && ops != [] && path in w.disk && env.isText(w.disk[path])
    requires EditResult(ops, TargetOf(env, path, w.disk[path])).Ok?
    ensures var r := EditResult(ops, TargetOf(env, path, w.disk[path])).value;
            var edited := WriteAndRecord(env, w, path, w.disk[path], JoinLines(r.newLines), r.changes);
            DoEdit(env, w, path, ops, false).0 == edited
  {
    hide EditResult;
  }

  /** What an edit of the file at hand writes, when its batch is accepted. */
  function TextWritten(env: Env, w: World, path: Path, ops: seq<EditOp>): string
    requires LocatorsFit(ops) && path in w.disk && EditResult(ops, TargetOf(env, path, w.disk[path])).Ok?
  {
    JoinLines(EditResult(ops, TargetOf(env, path, w.disk[path])).value.newLines)
  }

  /** The undo after a recorded edit restores the file exactly when something was left and it still counts as text. */
  lemma UndoAfterRecorded(env: Env, w: World, path: Path, ops: seq<EditOp>)
    requires LocatorsFit(ops) && ContentsNewlineFree(ops) && ops != []
    requires path in w.disk && env.isText(w.disk[path])
    requires EditResult(ops, TargetOf(env, path, w.disk[path])).Ok?
    requires EditAccepted(w.histories.Of(path), env.fileHash(w.disk[path]))
    ensures var left := EditResult(ops, TargetOf(env, path, w.disk[path])).value.newLines;
            var undone := DoUndo(env, DoEdit(env, w, path, ops, false).0, path, false).0;
            && path in undone.disk
            && (env.isText(JoinLines(left)) ==>
                  undone.disk[path] == if left != [] then w.disk[path] else w.disk[path] + "\n")
            && (undone.disk[path] == w.disk[path] <==> env.isText(JoinLines(left)) && left != [])
  {
    var content := w.disk[path];
    var t := TargetOf(env, path, content);
    var edited := EditResult(ops, t).value;
    var newContent := JoinLines(edited.newLines);
    var p := PlanOf(ops, |ops|, t).value;
    EditWrites(env, w, path, ops);
    if env.isText(newContent) {
      SplitNewlineFree(content);
      ResultNewlineFree(ops, t);
      InverseAfterWrite(p, t.lines);
      UndoAfterEdit(env, w, path, newContent, edited.changes);
      JoinSplit(content);
      JoinWithEmptyLine(t.lines);
      assert content + "\n" != content;
    } else {
      UndoOfOtherThanText(env, WriteAndRecord(env, w, path, content, newContent, edited.changes), path);
    }
    hide *;
  }

  lemma UndoOfOtherThanText(env: Env, w: World, path: Path)
    requires path in w.disk && !env.isText(w.disk[path])
    ensures DoUndo(env, w, path, false).0.disk == w.disk
  {
    hide Replay;
    hide InverseDiffs;
  }

  /**
   * The undo after an unrecorded edit would replay the last recorded one: that has something to undo, and the text
   * written happens to have the hash the daemon knows.
   */
  ghost predicate ReplaysEarlier(env: Env, f: FileHistory, newContent: string) {
    && f.undoStack != [] && f.undoStack[|f.undoStack| - 1].diffs != []
    && env.isText(newContent) && env.fileHash(newContent) == f.lastKnownHash
  }

  lemma UndoAfterUnrecorded(env: Env, w: World, path: Path, newContent: string, diffs: seq<LineDiff>)
    requires path in w.disk && !EditAccepted(w.histories.Of(path), env.fileHash(w.disk[path]))
    ensures var f := w.histories.Of(path);
            var written := WriteAndRecord(env, w, path, w.disk[path], newContent, diffs);
            var (undone, r) := DoUndo(env, written, path, false);
            && path in undone.disk
            && (if ReplaysEarlier(env, f, newContent)
                then undone.disk[path] == JoinLines(Replay(SplitLines(newContent),
                                                           InverseDiffs(f.undoStack[|f.undoStack| - 1].diffs)))
                else undone.disk[path] == newContent)
            && (f.undoStack != [] ==> |undone.histories.Of(path).undoStack| == |f.undoStack| - 1)
            && (r.Err? <==>
                  f.undoStack == []
                  || (f.undoStack[|f.undoStack| - 1].diffs != [] && !ReplaysEarlier(env, f, newContent)))
  {
    hide Replay;
    hide InverseDiffs;
    hide SplitLines;
    hide JoinLines;
    var f := w.histories.Of(path);
    var written := WriteAndRecord(env, w, path, w.disk[path], newContent, diffs);
    assert written.histories.Of(path) == f;
    if f.undoStack != [] {
      SomethingToInvert(f.undoStack[|f.undoStack| - 1].diffs);
    }
  }

  /**
   * The undo after another program wrote the file and an edit of that text was not recorded. If the edit happens to
   * give the text the daemon knows, the undo succeeds and brings back the version before that one; if its text has
   * another hash, the undo leaves it there. Either way the entry of the last recorded edit has moved.
   */
  lemma UndoAfterOutsideWrite(
    env: Env, w: World, path: Path, t: Timeline, foreign: string, newContent: string, diffs: seq<LineDiff>)
    requires Refines(env, w, path, t) && !EditAccepted(w.histories.Of(path), env.fileHash(foreign))
    ensures var f := w.histories.Of(path);
            var written := WriteAndRecord(env, w.(disk := w.disk[path := foreign]), path, foreign, newContent, diffs);
            var (undone, r) := DoUndo(env, written, path, false);
            && path in undone.disk
            && |f.undoStack| == t.cur
            && (newContent == t.Now() ==>
                  && undone.disk[path] == t.Back().Now()
                  && (r.Ok? <==> t.cur > 0))
            && (env.fileHash(newContent) != env.fileHash(t.Now()) ==>
                  && undone.disk[path] == newContent
                  && (r.Ok? <==> t.cur > 0 && f.undoStack[t.cur - 1].diffs == []))
            && (t.cur > 0 ==> |undone.histories.Of(path).undoStack| == t.cur - 1)
  {
    var f, v := w.histories.Of(path), w.(disk := w.disk[path := foreign]);
    UndoAfterUnrecorded(env, v, path, newContent, diffs);
    NothingToUndo(env, w, path, t);
    if t.cur > 0 {
      UndoAnswer(env, w, path, t);
      JoinSplit(t.versions[t.cur - 1]);
      SomethingToInvert(f.undoStack[t.cur - 1].diffs);
      if newContent == t.Now() && f.undoStack[t.cur - 1].diffs == [] {
        ReplayNothing(SplitLines(t.Now()));
        JoinSplit(t.Now());
      }
    }
    hide *;
  }

  /** What the relation says of the daemon's side. */
  lemma NothingToUndo(env: Env, w: World, path: Path, t: Timeline)
    requires Refines(env, w, path, t)
    ensures var f := w.histories.Of(path);
            && t.Valid() && |f.undoStack| == t.cur
            && env.isText(t.Now())
            && (f.lastKnownHash == "" || f.lastKnownHash == env.fileHash(t.Now()))
            && UndoResult(w.histories, path).Ok? == (t.cur > 0)
            && (t.cur > 0 ==> UndoResult(w.histories, path).value.diffs == InverseDiffs(f.undoStack[t.cur - 1].diffs))
  {
    hide Linked;
    hide InverseDiffs;
  }

  /**
   * When the undo right after an accepted batch restores the file, whether or not another program wrote it before
   * (`foreign` is the text the batch was applied to). A recorded edit is undone exactly when it left a line and what
   * it wrote still counts as text: a file emptied by deletions of all its lines is read back as one empty line. An
   * edit of an outside text that the daemon did not record is undone exactly when it changed nothing, or gave the
   * text the daemon knows and the outside text is the version before that.
   */
  lemma UndoRestoresExactly(env: Env, w: World, path: Path, t: Timeline, foreign: string, ops: seq<EditOp>)
    requires Refines(env, w, path, t) && env.isText(foreign)
    requires LocatorsFit(ops) && ContentsNewlineFree(ops) && ops != []
    requires EditResult(ops, TargetOf(env, path, foreign)).Ok?
    ensures var v := w.(disk := w.disk[path := foreign]);
            var undone := DoUndo(env, DoEdit(env, v, path, ops, false).0, path, false).0;
            var newContent := TextWritten(env, v, path, ops);
            var recorded := EditAccepted(w.histories.Of(path), env.fileHash(foreign));
            && path in undone.disk
            && (!recorded ==> env.fileHash(foreign) != env.fileHash(t.Now()))
            && (recorded || newContent == t.Now() || env.fileHash(newContent) != env.fileHash(t.Now()) ==>
                  (undone.disk[path] == foreign <==>
                     if recorded then env.isText(newContent) && !Empties(ops, |SplitLines(foreign)|)
                     else if newContent == t.Now() then t.cur > 0 && foreign == t.versions[t.cur - 1]
                     else newContent == foreign))
  {
    var v, target := w.(disk := w.disk[path := foreign]), TargetOf(env, path, foreign);
    NothingToUndo(env, w, path, t);
    EmptiesExactly(ops, target);
    if EditAccepted(w.histories.Of(path), env.fileHash(foreign)) {
      UndoAfterRecorded(env, v, path, ops);
    } else {
      EditWrites(env, v, path, ops);
      var newContent := TextWritten(env, v, path, ops);
      UndoAfterOutsideWrite(env, w, path, t, foreign, newContent, EditResult(ops, target).value.changes);
      if t.cur == 0 {
        assert newContent == t.Now() ==> newContent != foreign;
      }
    }
    hide *;
  }

  lemma DeletionAccepted(t: Target)
    requires |t.lines| == 1
    ensures var ops := [EditOp(DeleteOp, Hashline(1, "00"), [], None)];
            LocatorsFit(ops) && ContentsNewlineFree(ops) && EditResult(ops, t).Ok? && Empties(ops, 1)
  {
    var ops := [EditOp(DeleteOp, Hashline(1, "00"), [], None)];
    NoPlanYet(ops, t);
    PlanNext(ops, 0, t);
    hide PlanOf;
    assert Covers(ops[0].locator, 1);
  }

  /** Deleting the only line of a file empties it, and undoing that adds a newline to the line. */
  lemma EmptyingBatch(env: Env, w: World, path: Path)
    requires path in w.disk && NewlineFree(w.disk[path]) && env.isText(w.disk[path]) && env.isText("")
    requires EditAccepted(w.histories.Of(path), env.fileHash(w.disk[path]))
    ensures var ops := [EditOp(DeleteOp, Hashline(1, "00"), [], None)];
            && LocatorsFit(ops)
            && var (edited, r) := DoEdit(env, w, path, ops, false);
            && r == Ok(()) && path in edited.disk && edited.disk[path] == ""
            && var undone := DoUndo(env, edited, path, false).0;
            && path in undone.disk && undone.disk[path] == w.disk[path] + "\n"
  {
    var ops := [EditOp(DeleteOp, Hashline(1, "00"), [], None)];
    var t := TargetOf(env, path, w.disk[path]);
    SplitNoNewline(w.disk[path]);
    DeletionAccepted(t);
    EmptiesExactly(ops, t);
    EditWrites(env, w, path, ops);
    UndoAfterRecorded(env, w, path, ops);
    hide DoUndo;
    hide EditResult;
    hide TargetOf;
    hide SplitLines;
    hide WriteAndRecord;
  }

  /**
   * The daemon moves its entry before the client checks the file. An undo after another program wrote the file is
   * refused exactly if there is something to undo and the file is no text or has another hash; the file is then left
   * alone, yet the stacks have moved, and once the file is back as it was the history no longer matches it.
   */
  lemma RefusedUndoMovesEntry(env: Env, w: World, path: Path, t: Timeline, foreign: string)
    requires Refines(env, w, path, t) && t.cur > 0
    ensures var undo := w.histories.Of(path).undoStack;
            var disturbed := w.(disk := w.disk[path := foreign]);
            var (refused, r) := DoUndo(env, disturbed, path, false);
            var restored := refused.(disk := refused.disk[path := t.Now()]);
            && undo != []
            && (r.Err? <==> Refuses(env, disturbed, path, undo[|undo| - 1]))
            && (r.Err? ==>
                  && refused == World(disturbed.disk, Undone(w.histories, path))
                  && restored.disk == w.disk
                  && !Refines(env, restored, path, t))
  {
    hide Linked;
    hide Refuses;
    hide DoUndo;
    var disturbed := w.(disk := w.disk[path := foreign]);
    UndoRefusedExactly(env, disturbed, path);
    assert disturbed.disk[path := t.Now()] == w.disk;
  }

  lemma RefusedRedoMovesEntry(env: Env, w: World, path: Path, t: Timeline, foreign: string)
    requires Refines(env, w, path, t) && t.cur + 1 < |t.versions|
    ensures var redo := w.histories.Of(path).redoStack;
            var disturbed := w.(disk := w.disk[path := foreign]);
            var (refused, r) := DoRedo(env, disturbed, path, false);
            var restored := refused.(disk := refused.disk[path := t.Now()]);
            && redo != []
            && (r.Err? <==> Refuses(env, disturbed, path, redo[|redo| - 1]))
            && (r.Err? ==>
                  && refused == World(disturbed.disk, Redone(w.histories, path))
                  && restored.disk == w.disk
                  && !Refines(env, restored, path, t))
  {
    hide Linked;
    hide Refuses;
    hide DoRedo;
    var disturbed := w.(disk := w.disk[path := foreign]);
    RedoRefusedExactly(env, disturbed, path);
    assert disturbed.disk[path := t.Now()] == w.disk;
  }

  // ---------- a file adopted from another program ----------

  lemma PlanInverse(p: Plan, original: seq<Line>, lines: seq<Line>)
    ensures var inserted := InsertedNumbers(Changes(p, original));
            Replay(lines, InverseDiffs(Changes(p, original))) == original
            <==> Without(lines, inserted) == Without(NewLines(p, original), inserted)
  {
    var s := PlanScript(p, original, |original|);
    PlanScriptOld(p, original, |original|);
    assert original[..|original|] == original;
    RowsProject(s);
    InverseAgrees(s, lines);
    hide *;
  }

  lemma WrittenAndRead(env: Env, w: World, path: Path, foreign: string)
    requires path in w.disk && env.isText(foreign)
    ensures Run(env, w, [OutsideWrite(path, foreign), ReadFile(path)])
         == World(w.disk[path := foreign], AccessRecorded(w.histories, path, env.fileHash(foreign)))
  {
    var steps := [OutsideWrite(path, foreign), ReadFile(path)];
    var written := World(w.disk[path := foreign], w.histories);
    assert Execute(env, w, steps[0]).0 == written;
    assert steps[1..] == [ReadFile(path)];
    RunOne(env, written, ReadFile(path));
    hide AccessRecorded;
  }

  /** Reading a file that another program wrote makes the daemon take it for the file it knows. */
  lemma Adopted(env: Env, w: World, path: Path, foreign: string)
    requires path in w.disk && env.isText(foreign) && w.histories.Of(path).undoStack != []
    ensures var adopted := Run(env, w, [OutsideWrite(path, foreign), ReadFile(path)]);
            var undo := w.histories.Of(path).undoStack;
            var (undone, r) := DoUndo(env, adopted, path, false);
            && r == Ok(()) && path in undone.disk
            && undone.disk[path] == JoinLines(Replay(SplitLines(foreign), InverseDiffs(undo[|undo| - 1].diffs)))
  {
    hide Replay;
    hide SplitLines;
    hide InverseDiffs;
    hide Run;
    hide Execute;
    var adopted := World(w.disk[path := foreign], AccessRecorded(w.histories, path, env.fileHash(foreign)));
    WrittenAndRead(env, w, path, foreign);
    var response := UndoResult(adopted.histories, path).value;
    ResponseApplied(env, adopted.(histories := Undone(adopted.histories, path)), path, response);
    ReplayNothing(SplitLines(foreign));
    JoinSplit(foreign);
  }

  /**
   * After an edit, a write by another program and a read, the undo of the edit is not refused: it replays the inverse
   * of the edit on the text it finds. That gives the lines from before the edit exactly when the text found and the
   * edited one agree once the lines numbered by the edit's insertions are dropped from both.
   */
  lemma {:induction false} StaleUndo(env: Env, w: World, path: Path, ops: seq<EditOp>, foreign: string)
    requires LocatorsFit(ops) && ops != [] && path in w.disk && env.isText(w.disk[path]) && env.isText(foreign)
    requires EditResult(ops, TargetOf(env, path, w.disk[path])).Ok?
    requires EditAccepted(w.histories.Of(path), env.fileHash(w.disk[path]))
    ensures var before, edited := SplitLines(w.disk[path]), EditResult(ops, TargetOf(env, path, w.disk[path])).value;
            var adopted := Run(env, DoEdit(env, w, path, ops, false).0, [OutsideWrite(path, foreign), ReadFile(path)]);
            var (undone, r) := DoUndo(env, adopted, path, false);
            var inserted := InsertedNumbers(edited.changes);
            && r == Ok(()) && path in undone.disk
            && undone.disk[path] == JoinLines(Replay(SplitLines(foreign), InverseDiffs(edited.changes)))
            && (Replay(SplitLines(foreign), InverseDiffs(edited.changes)) == before <==>
                  Without(SplitLines(foreign), inserted) == Without(edited.newLines, inserted))
  {
    var content, t := w.disk[path], TargetOf(env, path, w.disk[path]);
    var edited := EditResult(ops, t).value;
    var p := PlanOf(ops, |ops|, t).value;
    var after := WriteAndRecord(env, w, path, content, JoinLines(edited.newLines), edited.changes);
    EditWrites(env, w, path, ops);
    UndoAfterPush(w.histories.Of(path), HistoryEntry(w.histories.nextId, edited.changes),
                  env.fileHash(JoinLines(edited.newLines)));
    assert after.histories.Of(path).undoStack[|after.histories.Of(path).undoStack| - 1].diffs == edited.changes;
    Adopted(env, after, path, foreign);
    PlanInverse(p, t.lines, SplitLines(foreign));
    assert t.lines == SplitLines(content);
    assert edited.changes == Changes(p, t.lines) && edited.newLines == NewLines(p, t.lines);
    hide *;
  }

  // ---------- instances ----------

  function InsertBelow(line: Line): seq<EditOp> { [EditOp(InsertOp, Hashline(1, "00"), [line], None)] }

  lemma InsertBelowScript(line: Line, x: Line)
    ensures var p := AddInserts(EMPTY_PLAN, 1, [x]);
            && NewLines(p, [line]) == [line, x]
            && Changes(p, [line]) == [LineDiff(2, None, Some(x))]
  {
    var p := AddInserts(EMPTY_PLAN, 1, [x]);
    var first := PlanScript(p, [line], 0);
    assert p.InsertsAt(0) == [] && p.InsertsAt(1) == [x];
    assert first == Empty;
    var kept := Then(first, LineStep(p, 1, line));
    assert kept == Then(Empty, Keep(line));
    var s := PlanScript(p, [line], 1);
    assert s == WithInserts(kept, [x], 1) == Then(WithInserts(kept, [x], 0), Ins(x));
    PlanScriptOld(p, [line], 1);
    RowsProject(s);
    hide *;
    OneInsertion(line, x);
  }

  lemma OneInsertion(line: Line, x: Line)
    ensures var s := Then(Then(Empty, Keep(line)), Ins(x));
            && OldOf(s) == [line] && NewOf(s) == [line, x]
            && DiffsOf(s) == [LineDiff(2, None, Some(x))]
  {
    var kept := Then(Empty, Keep(line));
    assert OldOf(Empty) == NewOf(Empty) == [] && DiffsOf(Empty) == [];
    assert OldOf(kept) == [line] && NewOf(kept) == [line];
    assert DiffsOf(kept) == [] + StepDiffs(Keep(line), 1, 1) == [];
    assert NewOf(Then(kept, Ins(x))) == [line] + [x];
  }

  /** One line inserted after the only line of a file. */
  lemma InsertedBelow(t: Target, x: Line)
    requires |t.lines| == 1
    ensures LocatorsFit(InsertBelow(x))
    ensures EditResult(InsertBelow(x), t) == Ok(Edited([t.lines[0], x], [LineDiff(2, None, Some(x))]))
  {
    hide NewLines;
    hide Changes;
    NoPlanYet(InsertBelow(x), t);
    PlanNext(InsertBelow(x), 0, t);
    hide PlanOf;
    assert t.lines == [t.lines[0]];
    InsertBelowScript(t.lines[0], x);
  }

  lemma InsertionCarries(line: Line, x: Line)
    requires NewlineFree(line) && NewlineFree(x)
    ensures Carries([LineDiff(2, None, Some(x))], SplitLines(line), SplitLines(line + "\n" + x))
  {
    hide Carries;
    var kept := Then(Empty, Keep(line));
    var s := Then(kept, Ins(x));
    assert Anchored(Empty) && Anchored(kept) && Anchored(s);
    ScriptCarries(s);
    OneInsertion(line, x);
    JoinedLines(line, x, "");
    SplitNoNewline(line);
    SplitJoin([line, x]);
    hide SplitLines;
    hide JoinLines;
  }

  /** After an insertion at the end of a file of one line that the daemon had not seen. */
  lemma FirstInsertion(env: Env, w: World, path: Path, line: Line, x: Line)
    requires path in w.disk && w.disk[path] == line && w.histories.Of(path) == NEW_FILE_HISTORY
    requires NewlineFree(line) && NewlineFree(x) && env.isText(line) && env.isText(line + "\n" + x)
    ensures LocatorsFit(InsertBelow(x))
    ensures var t, after := Timeline([line, line + "\n" + x], 1), DoEdit(env, w, path, InsertBelow(x), false).0;
            && Refines(env, after, path, t)
            && after.histories.Of(path).lastKnownHash == env.fileHash(t.Now())
            && after.histories.Of(path).undoStack == [HistoryEntry(w.histories.nextId, [LineDiff(2, None, Some(x))])]
  {
    hide Carries;
    hide SplitLines;
    hide Refines;
    hide DoEdit;
    hide WriteAndRecord;
    hide InsertBelow;
    var next, diffs := line + "\n" + x, [LineDiff(2, None, Some(x))];
    FreshRefines(env, w, path);
    InsertionCarries(line, x);
    WrittenBelow(env, w, path, x);
    WriteRefines(env, w, path, Timeline([line], 0), next, diffs);
    SecondVersion(line, next);
    FirstRecorded(env, w, path, line, next, diffs);
  }

  lemma SecondVersion(first: string, second: string)
    ensures Timeline([first], 0).Push(second) == Timeline([first, second], 1)
  {
    assert [first][..1] + [second] == [first, second];
  }

  lemma FirstRecorded(env: Env, w: World, path: Path, content: string, next: string, diffs: seq<LineDiff>)
    requires w.histories.Of(path) == NEW_FILE_HISTORY
    ensures WriteAndRecord(env, w, path, content, next, diffs).histories.Of(path)
         == FileHistory(env.fileHash(next), [HistoryEntry(w.histories.nextId, diffs)], [])
  {
    var entry := HistoryEntry(w.histories.nextId, diffs);
    assert [] + [entry] == [entry];
  }

  /** What inserting a line below the only one writes and reports. */
  lemma WrittenBelow(env: Env, w: World, path: Path, x: Line)
    requires path in w.disk && NewlineFree(w.disk[path]) && env.isText(w.disk[path])
    ensures LocatorsFit(InsertBelow(x))
    ensures var newContent, diffs := w.disk[path] + "\n" + x, [LineDiff(2, None, Some(x))];
            DoEdit(env, w, path, InsertBelow(x), false)
            == (WriteAndRecord(env, w, path, w.disk[path], newContent, diffs), Ok(()))
  {
    var t := TargetOf(env, path, w.disk[path]);
    OneLineTarget(env, path, w.disk[path]);
    InsertedBelow(t, x);
    JoinedLines(w.disk[path], x, "");
    hide SplitLines;
    hide JoinLines;
    hide TargetOf;
    hide EditResult;
    hide WriteAndRecord;
  }

  /**
   * An edit, a write by another program, an edit of what that wrote, an undo: the second edit is written but not
   * recorded, the undo is refused, the file stays edited, and the entry of the first edit has moved.
   */
  lemma UnrecordedEdit(env: Env, w: World, path: Path)
    requires path in w.disk && w.disk[path] == "a" && w.histories.Of(path) == NEW_FILE_HISTORY
    requires env.isText("a") && env.isText("a\nx") && env.isText("b") && env.fileHash("a\nx") != ""
    requires env.fileHash("b") != env.fileHash("a\nx") && env.fileHash("b\ny") != env.fileHash("a\nx")
    ensures LocatorsFit(InsertBelow("x")) && LocatorsFit(InsertBelow("y"))
    ensures var first := DoEdit(env, w, path, InsertBelow("x"), false).0;
            var disturbed := first.(disk := first.disk[path := "b"]);
            var (second, written) := DoEdit(env, disturbed, path, InsertBelow("y"), false);
            var (undone, r) := DoUndo(env, second, path, false);
            && written == Ok(()) && second.disk[path := "b\ny"] == second.disk
            && r.Err? && undone.disk[path := "b\ny"] == undone.disk
            && |first.histories.Of(path).undoStack| == 1 && undone.histories.Of(path).undoStack == []
  {
    var t := Timeline(["a", "a\nx"], 1);
    assert "a" + "\n" + "x" == "a\nx" && "b" + "\n" + "y" == "b\ny";
    hide *;
    FirstInsertion(env, w, path, "a", "x");
    UnrecordedStays(env, DoEdit(env, w, path, InsertBelow("x"), false).0, path, t, "b", "y");
  }

  lemma UnrecordedStays(env: Env, w: World, path: Path, t: Timeline, foreign: Line, x: Line)
    requires Refines(env, w, path, t) && t.cur > 0 && w.histories.Of(path).undoStack[t.cur - 1].diffs != []
    requires NewlineFree(foreign) && env.isText(foreign) && env.fileHash(t.Now()) != ""
    requires env.fileHash(foreign) != env.fileHash(t.Now()) && env.fileHash(foreign + "\n" + x) != env.fileHash(t.Now())
    ensures LocatorsFit(InsertBelow(x))
    ensures var newContent := foreign + "\n" + x;
            var (edited, written) := DoEdit(env, w.(disk := w.disk[path := foreign]), path, InsertBelow(x), false);
            var (undone, r) := DoUndo(env, edited, path, false);
            && written == Ok(()) && edited.disk[path := newContent] == edited.disk
            && r.Err? && undone.disk[path := newContent] == undone.disk
            && |undone.histories.Of(path).undoStack| == t.cur - 1
  {
    hide DoEdit;
    hide DoUndo;
    hide Linked;
    var v, diffs := w.(disk := w.disk[path := foreign]), [LineDiff(2, None, Some(x))];
    WrittenBelow(env, v, path, x);
    UndoAfterOutsideWrite(env, w, path, t, foreign, foreign + "\n" + x, diffs);
    var undone := DoUndo(env, DoEdit(env, v, path, InsertBelow(x), false).0, path, false).0;
    assert undone.disk[path := foreign + "\n" + x] == undone.disk;
  }

  /**
   * The undo of an insertion at the bottom of a file that another program meanwhile extended at the top: it succeeds,
   * removes a line of the file's own and leaves the inserted one.
   */
  lemma StaleUndoMisplaces(env: Env, w: World, path: Path)
    requires path in w.disk && w.disk[path] == "a" && env.isText("a") && env.isText("z\na\nx")
    requires EditAccepted(w.histories.Of(path), env.fileHash("a"))
    ensures LocatorsFit(InsertBelow("x"))
    ensures var edited := DoEdit(env, w, path, InsertBelow("x"), false).0;
            var adopted := Run(env, edited, [OutsideWrite(path, "z\na\nx"), ReadFile(path)]);
            var (undone, r) := DoUndo(env, adopted, path, false);
            && edited.disk[path := "a\nx"] == edited.disk
            && r == Ok(()) && path in undone.disk && undone.disk[path] == "z\nx"
  {
    var ops, t := InsertBelow("x"), TargetOf(env, path, "a");
    hide SplitLines;
    hide JoinLines;
    hide Replay;
    hide Without;
    hide EditResult;
    hide InverseDiffs;
    hide EditRecorded;
    hide DoUndo;
    hide DoEdit;
    hide Run;
    OneLineTarget(env, path, "a");
    InsertedBelow(t, "x");
    EditWrites(env, w, path, ops);
    StaleUndo(env, w, path, ops, "z\na\nx");
    JoinedLines("a", "x", "z");
    ThreeLinesUndone();
    assert EditResult(ops, t).value.changes == [LineDiff(2, None, Some("x"))];
    assert "a" + "\n" + "x" == "a\nx";
  }

  lemma OneLineTarget(env: Env, path: Path, content: string)
    requires NewlineFree(content)
    ensures TargetOf(env, path, content).lines == [content]
  {
    SplitNoNewline(content);
  }

  lemma JoinedLines(a: Line, b: Line, c: Line)
    ensures JoinLines([a, b]) == a + "\n" + b
    ensures JoinLines([c, a, b]) == c + "\n" + (a + "\n" + b)
  {
    assert [a, b][1..] == [b] && [c, a, b][1..] == [a, b];
  }

  lemma OneDeletion(lines: seq<Line>, n: nat, x: Line)
    requires 0 < n <= |lines|
    ensures Replay(lines, InverseDiffs([LineDiff(n, None, Some(x))])) == RemoveAt(lines, n - 1)
  {
    var diffs, d := [LineDiff(n, None, Some(x))], LineDiff(n, Some(x), None);
    assert InverseDiffs(diffs) == [d] by {
      assert diffs[1..] == [] && InverseDiffs([]) == [];
    }
    assert SortBy([d], Descending) == [d] && SortBy([d], Ascending) == [d];
    assert [d][1..] == [];
    assert RemovePass(lines, [d]) == RemovePass(RemoveStep(lines, d), []);
    assert InsertPass(RemoveAt(lines, n - 1), [d]) == InsertPass(RemoveAt(lines, n - 1), []);
  }

  lemma ThreeLinesUndone()
    ensures SplitLines("z\na\nx") == ["z", "a", "x"]
    ensures JoinLines(Replay(SplitLines("z\na\nx"), InverseDiffs([LineDiff(2, None, Some("x"))]))) == "z\nx"
  {
    hide Replay;
    var lines := ["z", "a", "x"];
    JoinedLines("a", "x", "z");
    JoinedLines("z", "x", "");
    SplitJoin(lines);
    OneDeletion(lines, 2, "x");
    assert RemoveAt(lines, 1) == ["z", "x"];
    assert "z" + "\n" + ("a" + "\n" + "x") == "z\na\nx";
    assert "z" + "\n" + "x" == "z\nx";
  }
}
