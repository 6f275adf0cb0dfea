/**
 * Undo and redo against an ideal editor that keeps whole versions: the stored diffs of the daemon and their replay by
 * the commands behave as if every version of the file were kept.
 */
module Timelines {
  import opened Prelude
  import opened FileText
  import opened LineDiffs
  import opened EditPlans
  import opened Rename
  import opened TextEdits
  import opened BatchEdits
  import opened History
  import opened Workspaces

  /** The ideal history of one file: its versions, oldest first, and which of them the file is now. */
  datatype Timeline = Timeline(versions: seq<string>, cur: nat) {
    ghost predicate Valid() { cur < |versions| }

    function Now(): string
      requires Valid()
    {
      versions[cur]
    }

    /** A new version after the current one; later ones are forgotten, and the oldest when there are too many. */
    function Push(next: string): (r: Timeline)
      requires Valid()
      ensures r.Valid() && r.Now() == next
    {
      var kept := versions[..cur + 1] + [next];
      if cur + 1 > MAX_ENTRIES then Timeline(kept[1..], cur) else Timeline(kept, cur + 1)
    }

    function Back(): (r: Timeline)
      requires Valid()
      ensures r.Valid()
    {
      if cur > 0 then Timeline(versions, cur - 1) else this
    }

    function Forward(): (r: Timeline)
      requires Valid()
      ensures r.Valid()
    {
      if cur + 1 < |versions| then Timeline(versions, cur + 1) else this
    }
  }

  /** What an accepted edit or rename writes: the file edited anchor by anchor, or the edited text. */
  function Written(env: Env, content: string, c: Command): Option<string>
    requires FromParser(c)
  {
    match c
    case EditFile(p, ops, dryRun) =>
      if ops == [] || dryRun then None
      else
        var t := TargetOf(env, p, content);
        (match PlanOf(ops, |ops|, t)
         case Err(_) => None
         case Ok(plan) => Some(JoinLines(EditDownwards(plan, t.lines, |t.lines|))))
    case RenameIn(p, edits) => (match EditedText(content, edits) case Err(_) => None case Ok(text) => Some(text))
    case _ => None
  }

  /** The ideal editor. */
  function Ideal(env: Env, t: Timeline, path: Path, c: Command): (r: Timeline)
    requires t.Valid() && FromParser(c)
    ensures r.Valid()
  {
    if c.path != path then t
    else
      match c
      case UndoFile(_, dryRun) => if dryRun then t else t.Back()
      case RedoFile(_, dryRun) => if dryRun then t else t.Forward()
      case _ => match Written(env, t.Now(), c) case None => t case Some(next) => t.Push(next)
  }

  /** An accepted edit leaves at least one line. */
  ghost predicate LeavesALine(env: Env, content: string, c: Command)
    requires FromParser(c)
  {
    c.EditFile? && !c.dryRun ==>
      match PlanOf(c.ops, |c.ops|, TargetOf(env, c.path, content))
      case Err(_) => true
      case Ok(plan) => NewLines(plan, SplitLines(content)) != []
  }

  /** No other program writes the file, edits leave a line, and what is written can be read as text again. */
  ghost predicate Tame(env: Env, t: Timeline, path: Path, c: Command)
    requires t.Valid() && FromParser(c)
  {
    c.path == path ==>
      && !c.OutsideWrite?
      && LeavesALine(env, t.Now(), c)
      && (Written(env, t.Now(), c).Some? ==> env.isText(Written(env, t.Now(), c).value))
  }

  // ---------- the relation ----------

  ghost predicate Linked(entries: seq<HistoryEntry>, versions: seq<string>)
    requires |versions| == |entries| + 1
  {
    forall k :: 0 <= k < |entries| ==> Carries(entries[k].diffs, SplitLines(versions[k]), SplitLines(versions[k + 1]))
  }

  /**
   * The file is the current version, undo entry k leads from version k to version k + 1, the redo stack holds the rest
   * in reverse, and the daemon's hash is that of the file.
   */
  ghost predicate Refines(env: Env, w: World, path: Path, t: Timeline) {
    && t.Valid()
    && path in w.disk && w.disk[path] == t.Now()
    && (forall k :: 0 <= k < |t.versions| ==> env.isText(t.versions[k]))
    && RefinesHistory(env, w.histories.Of(path), t)
  }

  ghost predicate RefinesHistory(env: Env, f: FileHistory, t: Timeline)
    requires t.Valid()
  {
    && |f.undoStack| == t.cur
    && |t.versions| == |f.Entries()| + 1
    && |f.Entries()| <= MAX_ENTRIES
    && Linked(f.Entries(), t.versions)
    && (f.lastKnownHash == env.fileHash(t.Now()) || (f.lastKnownHash == "" && f.Entries() == []))
  }

  /** A file never touched before, with one version. */
  lemma FreshRefines(env: Env, w: World, path: Path)
    requires path in w.disk && env.isText(w.disk[path]) && w.histories.Of(path) == NEW_FILE_HISTORY
    ensures Refines(env, w, path, Timeline([w.disk[path]], 0))
  {
  }

  // ---------- one step ----------

  lemma LinkedPush(entries: seq<HistoryEntry>, versions: seq<string>, cur: nat, entry: HistoryEntry, next: string)
    requires |versions| == |entries| + 1 && cur < |versions| && Linked(entries, versions)
    requires Carries(entry.diffs, SplitLines(versions[cur]), SplitLines(next))
    ensures Linked(entries[..cur] + [entry], versions[..cur + 1] + [next])
  {
    hide Carries;
    hide SplitLines;
  }

  lemma LinkedTail(entries: seq<HistoryEntry>, versions: seq<string>)
    requires |versions| == |entries| + 1 && entries != [] && Linked(entries, versions)
    ensures Linked(entries[1..], versions[1..])
  {
    hide Carries;
    hide SplitLines;
    forall k | 0 <= k < |entries| - 1
      ensures Carries(entries[1..][k].diffs, SplitLines(versions[1..][k]), SplitLines(versions[1..][k + 1]))
    {
      assert entries[1..][k] == entries[k + 1] && versions[1..][k] == versions[k + 1];
      assert versions[1..][k + 1] == versions[k + 1 + 1];
    }
  }

  /** Recording an edit that carries the current version to the next extends the timeline. */
  lemma {:induction false} PushRefines(env: Env, f: FileHistory, t: Timeline, entry: HistoryEntry, next: string)
    requires t.Valid() && RefinesHistory(env, f, t)
    requires Carries(entry.diffs, SplitLines(t.Now()), SplitLines(next))
    ensures EditAccepted(f, env.fileHash(t.Now()))
    ensures RefinesHistory(env, Pushed(f, entry, env.fileHash(next)), t.Push(next))
  {
    hide Carries;
    hide SplitLines;
    var cur := t.cur;
    LinkedPush(f.Entries(), t.versions, cur, entry, next);
    assert f.Entries()[..cur] == f.undoStack;
    var undo, kept := f.undoStack + [entry], t.versions[..cur + 1] + [next];
    if cur + 1 > MAX_ENTRIES {
      LinkedTail(undo, kept);
    }
    var after := Pushed(f, entry, env.fileHash(next));
    assert after.Entries() == after.undoStack + [];
    hide Linked;
    assert after.Entries() == after.undoStack;
  }

  /** What an accepted command writes is what the world's command writes, with diffs that carry it both ways. */
  lemma EditCarries(env: Env, content: string, c: Command)
    requires c.EditFile? && FromParser(c) && Written(env, content, c).Some? && LeavesALine(env, content, c)
    ensures var r := EditResult(c.ops, TargetOf(env, c.path, content));
            && r.Ok?
            && Written(env, content, c) == Some(JoinLines(r.value.newLines))
            && Carries(r.value.changes, SplitLines(content), SplitLines(JoinLines(r.value.newLines)))
  {
    var t := TargetOf(env, c.path, content);
    var plan := PlanOf(c.ops, |c.ops|, t).value;
    ApplyRefinesSimpleEditor(plan, t.lines);
    PlanCarries(plan, t.lines);
    SplitNewlineFree(content);
    ResultNewlineFree(c.ops, t);
    SplitJoin(NewLines(plan, t.lines));
    hide *;
  }

  lemma {:induction false} WriteRefines(env: Env, w: World, path: Path, t: Timeline, next: string, diffs: seq<LineDiff>)
    requires Refines(env, w, path, t) && env.isText(next)
    requires Carries(diffs, SplitLines(t.Now()), SplitLines(next))
    ensures Refines(env, WriteAndRecord(env, w, path, t.Now(), next, diffs), path, t.Push(next))
  {
    hide Carries;
    hide SplitLines;
    var f := w.histories.Of(path);
    PushRefines(env, f, t, HistoryEntry(w.histories.nextId, diffs), next);
    hide RefinesHistory;
    var after := WriteAndRecord(env, w, path, t.Now(), next, diffs);
    assert after.histories.Of(path) == Pushed(f, HistoryEntry(w.histories.nextId, diffs), env.fileHash(next));
    var kept := t.versions[..t.cur + 1] + [next];
    assert forall k :: 0 <= k < |kept| ==> env.isText(kept[k]);
  }

  lemma EditStep(env: Env, w: World, path: Path, t: Timeline, c: Command)
    requires Refines(env, w, path, t) && FromParser(c) && Tame(env, t, path, c)
    requires c.EditFile? && c.path == path
    ensures Refines(env, Execute(env, w, c).0, path, Ideal(env, t, path, c))
  {
    var content := w.disk[path];
    if Written(env, content, c).Some? {
      EditCarries(env, content, c);
      var r := EditResult(c.ops, TargetOf(env, path, content)).value;
      var next := JoinLines(r.newLines);
      WriteRefines(env, w, path, t, next, r.changes);
      hide EditResult;
      hide Refines;
      hide Carries;
      hide SplitLines;
    } else {
      hide Carries;
      hide SplitLines;
      hide NewLines;
      hide Changes;
    }
  }

  lemma {:induction false} RenameStep(env: Env, w: World, path: Path, t: Timeline, c: Command)
    requires Refines(env, w, path, t) && FromParser(c) && Tame(env, t, path, c)
    requires c.RenameIn? && c.path == path
    ensures Refines(env, Execute(env, w, c).0, path, Ideal(env, t, path, c))
  {
    hide EditedText;
    hide SplitLines;
    var content := w.disk[path];
    if EditedText(content, c.edits).Ok? {
      var next := EditedText(content, c.edits).value;
      RenameCarries(SplitLines(content), SplitLines(next));
      hide RenameDiffs;
      WriteRefines(env, w, path, t, next, RenameDiffs(SplitLines(content), SplitLines(next)));
    }
  }

  lemma ReplayNothing(lines: seq<Line>)
    ensures Replay(lines, []) == lines
  {
  }

  /** The history with its cursor moved, and the hash of the version now current. */
  lemma MovedRefines(env: Env, f: FileHistory, f': FileHistory, t: Timeline, cur: nat)
    requires t.Valid() && RefinesHistory(env, f, t) && cur < |t.versions|
    requires f'.Entries() == f.Entries() && |f'.undoStack| == cur <= MAX_ENTRIES
    requires f'.lastKnownHash == env.fileHash(t.versions[cur])
    ensures RefinesHistory(env, f', Timeline(t.versions, cur))
  {
    hide Linked;
  }

  /** The response to an undo or redo, applied: it turns the current version into a neighbouring one. */
  lemma ApplyMoves(env: Env, w: World, path: Path, t: Timeline, response: UndoRedoResult, next: string)
    requires t.Valid() && path in w.disk && w.disk[path] == t.Now() && env.isText(t.Now())
    requires response.currentHash == env.fileHash(t.Now())
    requires w.histories.Of(path).lastKnownHash == env.fileHash(t.Now())
    requires path in w.histories.files
    requires Replay(SplitLines(t.Now()), response.diffs) == SplitLines(next)
    ensures var (after, outcome) := ApplyResponse(env, w, path, response);
            && outcome == Ok(())
            && after == World(w.disk[path := next], AccessRecorded(w.histories, path, env.fileHash(next)))
  {
    hide Replay;
    hide SplitLines;
    JoinSplit(next);
    if response.diffs == [] {
      ReplayNothing(SplitLines(t.Now()));
      JoinSplit(t.Now());
      assert next == t.Now();
      assert w.disk[path := next] == w.disk;
      var f := w.histories.files[path];
      assert f.(lastKnownHash := env.fileHash(next)) == f;
      assert w.histories.files[path := f] == w.histories.files;
    }
  }

  lemma LastEntry(f: FileHistory)
    ensures f.undoStack != [] ==> f.Entries()[|f.undoStack| - 1] == f.undoStack[|f.undoStack| - 1]
    ensures f.redoStack != [] ==> f.Entries()[|f.undoStack|] == f.redoStack[|f.redoStack| - 1]
  {
    ReverseIndex(f.redoStack);
  }

  /** The diffs that the daemon answers an undo with lead to the version before. */
  lemma UndoAnswer(env: Env, w: World, path: Path, t: Timeline)
    requires Refines(env, w, path, t) && t.cur > 0
    ensures var response := UndoResult(w.histories, path);
            && path in w.histories.files && response.Ok?
            && response.value.currentHash == env.fileHash(t.Now())
            && Replay(SplitLines(t.Now()), response.value.diffs) == SplitLines(t.versions[t.cur - 1])
  {
    hide Replay;
    hide SplitLines;
    hide InverseDiffs;
    var f := w.histories.Of(path);
    LastEntry(f);
    assert Carries(f.Entries()[t.cur - 1].diffs, SplitLines(t.versions[t.cur - 1]), SplitLines(t.Now()));
  }

  lemma RedoAnswer(env: Env, w: World, path: Path, t: Timeline)
    requires Refines(env, w, path, t) && t.cur + 1 < |t.versions|
    ensures var response := RedoResult(w.histories, path);
            && path in w.histories.files && response.Ok?
            && response.value.currentHash == env.fileHash(t.Now())
            && Replay(SplitLines(t.Now()), response.value.diffs) == SplitLines(t.versions[t.cur + 1])
  {
    hide Replay;
    hide SplitLines;
    hide InverseDiffs;
    var f := w.histories.Of(path);
    LastEntry(f);
    assert Carries(f.Entries()[t.cur].diffs, SplitLines(t.Now()), SplitLines(t.versions[t.cur + 1]));
  }

  /** Moving an entry leaves the file's hash as the daemon knows it. */
  lemma UndoneElsewhere(h: Histories, path: Path)
    ensures Undone(h, path).Of(path).lastKnownHash == Redone(h, path).Of(path).lastKnownHash == h.Of(path).lastKnownHash
    ensures path in h.files ==> path in Undone(h, path).files && path in Redone(h, path).files
  {
  }

  /** An undo that finds an entry restores the version before, exactly. */
  lemma UndoWorld(env: Env, w: World, path: Path, t: Timeline)
    requires Refines(env, w, path, t) && t.cur > 0
    ensures var previous := t.versions[t.cur - 1];
            var moved := AccessRecorded(Undone(w.histories, path), path, env.fileHash(previous));
            DoUndo(env, w, path, false) == (World(w.disk[path := previous], moved), Ok(()))
  {
    hide Replay;
    hide SplitLines;
    hide ApplyResponse;
    hide InverseDiffs;
    var previous := t.versions[t.cur - 1];
    UndoAnswer(env, w, path, t);
    UndoneElsewhere(w.histories, path);
    ApplyMoves(env, w.(histories := Undone(w.histories, path)), path, t, UndoResult(w.histories, path).value, previous);
  }

  lemma RedoWorld(env: Env, w: World, path: Path, t: Timeline)
    requires Refines(env, w, path, t) && t.cur + 1 < |t.versions|
    ensures var next := t.versions[t.cur + 1];
            var moved := AccessRecorded(Redone(w.histories, path), path, env.fileHash(next));
            DoRedo(env, w, path, false) == (World(w.disk[path := next], moved), Ok(()))
  {
    hide Replay;
    hide SplitLines;
    hide ApplyResponse;
    var next := t.versions[t.cur + 1];
    RedoAnswer(env, w, path, t);
    UndoneElsewhere(w.histories, path);
    ApplyMoves(env, w.(histories := Redone(w.histories, path)), path, t, RedoResult(w.histories, path).value, next);
  }

  /** The world after the cursor moved refines the timeline with its cursor moved. */
  lemma CursorMoved(env: Env, w: World, path: Path, t: Timeline, h: Histories, cur: nat)
    requires Refines(env, w, path, t) && cur < |t.versions| && cur <= MAX_ENTRIES
    requires h.Of(path).Entries() == w.histories.Of(path).Entries() && |h.Of(path).undoStack| == cur
    ensures var version := t.versions[cur];
            Refines(env, World(w.disk[path := version], AccessRecorded(h, path, env.fileHash(version))), path,
                    Timeline(t.versions, cur))
  {
    hide Linked;
    var after := AccessRecorded(h, path, env.fileHash(t.versions[cur])).Of(path);
    MovedRefines(env, w.histories.Of(path), after, t, cur);
  }

  lemma UndoStep(env: Env, w: World, path: Path, t: Timeline)
    requires Refines(env, w, path, t)
    ensures Refines(env, DoUndo(env, w, path, false).0, path, t.Back())
    ensures DoUndo(env, w, path, false).1.Ok? <==> t.cur > 0
  {
    if t.cur > 0 {
      UndoWorld(env, w, path, t);
      UndoRedoKeepEntries(w.histories, path);
      hide DoUndo;
      hide Linked;
      CursorMoved(env, w, path, t, Undone(w.histories, path), t.cur - 1);
    }
  }

  lemma {:induction false} RedoStep(env: Env, w: World, path: Path, t: Timeline)
    requires Refines(env, w, path, t)
    ensures Refines(env, DoRedo(env, w, path, false).0, path, t.Forward())
    ensures DoRedo(env, w, path, false).1.Ok? <==> t.cur + 1 < |t.versions|
  {
    if t.cur + 1 < |t.versions| {
      RedoWorld(env, w, path, t);
      UndoRedoKeepEntries(w.histories, path);
      hide DoRedo;
      hide Linked;
      CursorMoved(env, w, path, t, Redone(w.histories, path), t.cur + 1);
    }
  }

  ghost predicate SameAt(w: World, after: World, path: Path) {
    && (path in after.disk <==> path in w.disk)
    && (path in w.disk ==> after.disk[path] == w.disk[path])
    && after.histories.Of(path) == w.histories.Of(path)
  }

  lemma ApplyElsewhere(env: Env, w: World, path: Path, other: Path, response: UndoRedoResult)
    requires other != path && other in w.disk
    ensures SameAt(w, ApplyResponse(env, w, other, response).0, path)
  {
    hide Replay;
    hide SplitLines;
    hide JoinLines;
  }

  lemma MovedElsewhere(h: Histories, path: Path, other: Path)
    requires other != path
    ensures Undone(h, other).Of(path) == Redone(h, other).Of(path) == h.Of(path)
  {
  }

  /** A command on one file leaves the others and their histories alone. */
  lemma {:induction false} Elsewhere(env: Env, w: World, path: Path, c: Command)
    requires FromParser(c) && c.path != path
    ensures SameAt(w, Execute(env, w, c).0, path)
  {
    hide EditResult;
    hide EditedText;
    hide SplitLines;
    hide JoinLines;
    hide ApplyResponse;
    hide Undone;
    hide Redone;
    hide UndoResult;
    hide RedoResult;
    hide RenameDiffs;
    MovedElsewhere(w.histories, path, c.path);
    if c.UndoFile? && c.path in w.disk && UndoResult(w.histories, c.path).Ok? {
      var moved := w.(histories := Undone(w.histories, c.path));
      ApplyElsewhere(env, moved, path, c.path, UndoResult(w.histories, c.path).value);
    }
    if c.RedoFile? && c.path in w.disk && RedoResult(w.histories, c.path).Ok? {
      var moved := w.(histories := Redone(w.histories, c.path));
      ApplyElsewhere(env, moved, path, c.path, RedoResult(w.histories, c.path).value);
    }
  }

  lemma ReadStep(env: Env, w: World, path: Path, t: Timeline)
    requires Refines(env, w, path, t)
    ensures Refines(env, DoRead(env, w, path).0, path, t)
  {
    hide Linked;
    var after := DoRead(env, w, path).0;
    assert after.histories.Of(path) == w.histories.Of(path).(lastKnownHash := env.fileHash(t.Now()));
  }

  /** One command, on any file: the world keeps step with the ideal editor. */
  lemma {:induction false} StepRefines(env: Env, w: World, path: Path, t: Timeline, c: Command)
    requires Refines(env, w, path, t) && FromParser(c) && Tame(env, t, path, c)
    ensures Refines(env, Execute(env, w, c).0, path, Ideal(env, t, path, c))
  {
    if c.path != path {
      Elsewhere(env, w, path, c);
      hide *;
      RefinesElsewhere(env, w, Execute(env, w, c).0, path, t);
      IdealElsewhere(env, t, path, c);
    } else {
      match c
      case EditFile(_, _, _) => EditStep(env, w, path, t, c);
      case RenameIn(_, _) => RenameStep(env, w, path, t, c);
      case ReadFile(_) => ReadStep(env, w, path, t);
      case UndoFile(_, dryRun) => UndoStep(env, w, path, t);
      case RedoFile(_, dryRun) => RedoStep(env, w, path, t);
      case OutsideWrite(_, _) =>
    }
  }

  lemma IdealElsewhere(env: Env, t: Timeline, path: Path, c: Command)
    requires t.Valid() && FromParser(c) && c.path != path
    ensures Ideal(env, t, path, c) == t
  {
  }

  lemma RefinesElsewhere(env: Env, w: World, w': World, path: Path, t: Timeline)
    requires Refines(env, w, path, t)
    requires path in w'.disk && w'.disk[path] == w.disk[path] && w'.histories.Of(path) == w.histories.Of(path)
    ensures Refines(env, w', path, t)
  {
  }

  // ---------- every run ----------

  ghost predicate TameRun(env: Env, t: Timeline, path: Path, cs: seq<Command>)
    requires t.Valid() && AllFromParser(cs)
    decreases |cs|
  {
    cs != [] ==> Tame(env, t, path, cs[0]) && TameRun(env, Ideal(env, t, path, cs[0]), path, cs[1..])
  }

  function IdealRun(env: Env, t: Timeline, path: Path, cs: seq<Command>): (r: Timeline)
    requires t.Valid() && AllFromParser(cs)
    ensures r.Valid()
    decreases |cs|
  {
    if cs == [] then t else IdealRun(env, Ideal(env, t, path, cs[0]), path, cs[1..])
  }

  /**
   * Every run of edits, renames, reads, undos and redos on any number of files, for each file that no other program
   * writes meanwhile: the stored diffs behave exactly like an editor that keeps all versions, evictions included.
   */
  lemma {:induction false} RunRefines(env: Env, w: World, path: Path, t: Timeline, cs: seq<Command>)
    requires Refines(env, w, path, t) && AllFromParser(cs) && TameRun(env, t, path, cs)
    ensures Refines(env, Run(env, w, cs), path, IdealRun(env, t, path, cs))
    decreases |cs|
  {
    assert t.Valid();
    hide Refines;
    hide Execute;
    hide Ideal;
    hide Tame;
    if cs != [] {
      StepRefines(env, w, path, t, cs[0]);
      RunRefines(env, Execute(env, w, cs[0]).0, path, Ideal(env, t, path, cs[0]), cs[1..]);
    }
  }

  /** From the start: a file the daemon has not seen yet, after any such run. */
  lemma RunFromStart(env: Env, w: World, path: Path, cs: seq<Command>)
    requires path in w.disk && env.isText(w.disk[path]) && w.histories.Of(path) == NEW_FILE_HISTORY
    requires AllFromParser(cs) && TameRun(env, Timeline([w.disk[path]], 0), path, cs)
    ensures Refines(env, Run(env, w, cs), path, IdealRun(env, Timeline([w.disk[path]], 0), path, cs))
  {
    FreshRefines(env, w, path);
    RunRefines(env, w, path, Timeline([w.disk[path]], 0), cs);
  }

  // ---------- undo and redo are inverse ----------

  /** In the daemon: an undo and a redo with their hash updates leave nothing behind. */
  lemma UndoRedoHistories(h: Histories, path: Path, hash: string)
    requires path in h.files && h.files[path].undoStack != []
    ensures var undone := AccessRecorded(Undone(h, path), path, hash);
            AccessRecorded(Redone(undone, path), path, h.files[path].lastKnownHash) == h
  {
    var f := h.files[path];
    var n := |f.undoStack| - 1;
    var undone := AccessRecorded(Undone(h, path), path, hash);
    var g := undone.files[path];
    assert g == FileHistory(hash, f.undoStack[..n], f.redoStack + [f.undoStack[n]]);
    assert f.undoStack[..n] + [f.undoStack[n]] == f.undoStack;
    assert (f.redoStack + [f.undoStack[n]])[..|f.redoStack|] == f.redoStack;
    var back := AccessRecorded(Redone(undone, path), path, f.lastKnownHash);
    assert back.files[path] == f;
    assert back.files == h.files;
  }

  lemma RefinesFacts(env: Env, w: World, path: Path, t: Timeline)
    requires Refines(env, w, path, t) && t.cur > 0
    ensures path in w.disk && w.disk[path] == t.versions[t.cur]
    ensures path in w.histories.files && w.histories.files[path].undoStack != []
    ensures w.histories.files[path].lastKnownHash == env.fileHash(t.versions[t.cur])
    ensures t.Valid() && t.cur < |t.versions| && t.Back() == Timeline(t.versions, t.cur - 1)
  {
    hide Linked;
  }

  /** A redo right after an undo restores the whole world: the file, both stacks and the hash. */
  lemma {:induction false} UndoRedoWorld(env: Env, w: World, path: Path, t: Timeline)
    requires Refines(env, w, path, t) && t.cur > 0
    ensures DoRedo(env, DoUndo(env, w, path, false).0, path, false).0 == w
  {
    hide *;
    RefinesFacts(env, w, path, t);
    var previous, now := t.versions[t.cur - 1], t.versions[t.cur];
    var undone := DoUndo(env, w, path, false).0;
    UndoStep(env, w, path, t);
    var h := AccessRecorded(Undone(w.histories, path), path, env.fileHash(previous));
    assert undone == World(w.disk[path := previous], h) by {
      UndoWorld(env, w, path, t);
    }
    var redone := DoRedo(env, undone, path, false).0;
    assert redone == World(undone.disk[path := now], AccessRecorded(Redone(h, path), path, env.fileHash(now))) by {
      RedoWorld(env, undone, path, Timeline(t.versions, t.cur - 1));
    }
    UndoRedoHistories(w.histories, path, env.fileHash(previous));
    assert w.disk[path := previous][path := now] == w.disk;
  }

  function Repeat(c: Command, k: nat): (cs: seq<Command>)
    ensures |cs| == k && forall i :: 0 <= i < k ==> cs[i] == c
  {
    if k == 0 then [] else [c] + Repeat(c, k - 1)
  }

  lemma {:induction false} RunConcat(env: Env, w: World, a: seq<Command>, b: seq<Command>)
    requires AllFromParser(a) && AllFromParser(b)
    ensures AllFromParser(a + b) && Run(env, w, a + b) == Run(env, Run(env, w, a), b)
    decreases |a|
  {
    hide Execute;
    if a == [] {
      assert a + b == b;
    } else {
      assert (a + b)[1..] == a[1..] + b && (a + b)[0] == a[0];
      RunConcat(env, Execute(env, w, a[0]).0, a[1..], b);
    }
  }

  lemma {:induction false} RepeatSnoc(c: Command, k: nat)
    ensures Repeat(c, k + 1) == Repeat(c, k) + [c]
  {
    if k > 0 {
      RepeatSnoc(c, k - 1);
    }
  }

  /** `k + 1` of one command and `k + 1` of another, as the outermost of each around the rest. */
  lemma RepeatAround(c: Command, d: Command, k: nat)
    ensures Repeat(c, k + 1) == [c] + Repeat(c, k)
    ensures Repeat(c, k + 1) + Repeat(d, k + 1) == [c] + ((Repeat(c, k) + Repeat(d, k)) + [d])
  {
    RepeatSnoc(d, k);
  }

  lemma RunOne(env: Env, w: World, c: Command)
    requires FromParser(c)
    ensures AllFromParser([c]) && Run(env, w, [c]) == Execute(env, w, c).0
  {
    hide Execute;
    assert Run(env, Execute(env, w, c).0, []) == Execute(env, w, c).0;
  }

  /**
   * `k` undos bring back the version `k` steps before the current one, and `k` redos after them bring back the world
   * exactly as it was.
   */
  lemma {:induction false} UndosThenRedos(env: Env, w: World, path: Path, t: Timeline, k: nat)
    requires Refines(env, w, path, t) && k <= t.cur
    ensures var undos, redos := Repeat(UndoFile(path, false), k), Repeat(RedoFile(path, false), k);
            && path in Run(env, w, undos).disk
            && Run(env, w, undos).disk[path] == t.versions[t.cur - k]
            && Run(env, w, undos + redos) == w
    decreases k, 1
  {
    if k == 0 {
      RefinesNow(env, w, path, t);
    } else {
      UndosThenRedosStep(env, w, path, t, k);
    }
  }

  lemma RefinesNow(env: Env, w: World, path: Path, t: Timeline)
    requires Refines(env, w, path, t)
    ensures t.Valid() && path in w.disk && w.disk[path] == t.versions[t.cur]
  {
  }

  lemma OnlyCommands(c: Command, d: Command, k: nat)
    requires !c.EditFile? && !d.EditFile?
    ensures FromParser(c) && FromParser(d)
    ensures AllFromParser(Repeat(c, k)) && AllFromParser(Repeat(d, k)) && AllFromParser(Repeat(c, k) + Repeat(d, k))
  {
  }

  lemma {:induction false} UndosThenRedosStep(env: Env, w: World, path: Path, t: Timeline, k: nat)
    requires Refines(env, w, path, t) && 0 < k <= t.cur
    ensures var undos, redos := Repeat(UndoFile(path, false), k), Repeat(RedoFile(path, false), k);
            && path in Run(env, w, undos).disk
            && Run(env, w, undos).disk[path] == t.versions[t.cur - k]
            && Run(env, w, undos + redos) == w
    decreases k, 0
  {
    hide *;
    var undo, redo := UndoFile(path, false), RedoFile(path, false);
    var undone := DoUndo(env, w, path, false).0;
    OnlyCommands(undo, redo, k);
    OnlyCommands(undo, redo, k - 1);
    RefinesFacts(env, w, path, t);
    UndoStep(env, w, path, t);
    UndosThenRedos(env, undone, path, Timeline(t.versions, t.cur - 1), k - 1);
    UndoRedoWorld(env, w, path, t);
    ExecuteUndoRedo(env, w, undone, path);
    var undos', redos' := Repeat(undo, k - 1), Repeat(redo, k - 1);
    RunOne(env, w, undo);
    RunOne(env, undone, redo);
    RepeatAround(undo, redo, k - 1);
    RunConcat(env, undone, undos' + redos', [redo]);
    RunConcat(env, w, [undo], undos');
    RunConcat(env, w, [undo], (undos' + redos') + [redo]);
  }

  lemma ExecuteUndoRedo(env: Env, w: World, v: World, path: Path)
    ensures Execute(env, w, UndoFile(path, false)) == DoUndo(env, w, path, false)
    ensures Execute(env, v, RedoFile(path, false)) == DoRedo(env, v, path, false)
  {
  }

  /** The commands that write, all of them accepted. */
  ghost predicate WritingRun(env: Env, t: Timeline, path: Path, cs: seq<Command>)
    requires t.Valid() && AllFromParser(cs)
    decreases |cs|
  {
    cs != [] ==>
      && cs[0].path == path && (cs[0].EditFile? || cs[0].RenameIn?)
      && Written(env, t.Now(), cs[0]).Some?
      && WritingRun(env, Ideal(env, t, path, cs[0]), path, cs[1..])
  }

  /** Versions up to the limit back stay reachable, at a distance that grows with each write. */
  lemma {:induction false} PushesKeep(env: Env, t: Timeline, path: Path, cs: seq<Command>, back: nat)
    requires t.Valid() && back <= t.cur && AllFromParser(cs) && WritingRun(env, t, path, cs)
    requires |cs| + back <= MAX_ENTRIES
    ensures var r := IdealRun(env, t, path, cs);
            |cs| + back <= r.cur && r.versions[r.cur - (|cs| + back)] == t.versions[t.cur - back]
    decreases |cs|
  {
    hide Written;
    if cs != [] {
      WritingPushes(env, t, path, cs[0]);
      hide Ideal;
      PushKeeps(t, Written(env, t.Now(), cs[0]).value, back);
      PushesKeep(env, Ideal(env, t, path, cs[0]), path, cs[1..], back + 1);
    }
  }

  lemma WritingPushes(env: Env, t: Timeline, path: Path, c: Command)
    requires t.Valid() && FromParser(c) && c.path == path && (c.EditFile? || c.RenameIn?)
    requires Written(env, t.Now(), c).Some?
    ensures Ideal(env, t, path, c) == t.Push(Written(env, t.Now(), c).value)
  {
    hide Written;
  }

  lemma PushKeeps(t: Timeline, next: string, back: nat)
    requires t.Valid() && back <= t.cur && back < MAX_ENTRIES
    ensures var r := t.Push(next); back + 1 <= r.cur && r.versions[r.cur - (back + 1)] == t.versions[t.cur - back]
  {
  }

  lemma {:induction false} SplitRun(env: Env, t: Timeline, path: Path, cs: seq<Command>, k: nat)
    requires t.Valid() && k <= |cs| && AllFromParser(cs) && TameRun(env, t, path, cs) && WritingRun(env, t, path, cs)
    ensures TameRun(env, t, path, cs[..k])
    ensures var middle := IdealRun(env, t, path, cs[..k]);
            && WritingRun(env, middle, path, cs[k..]) && TameRun(env, middle, path, cs[k..])
            && IdealRun(env, t, path, cs) == IdealRun(env, middle, path, cs[k..])
    decreases k
  {
    hide Tame;
    hide Ideal;
    hide Written;
    if k > 0 {
      SplitRun(env, Ideal(env, t, path, cs[0]), path, cs[1..], k - 1);
      assert cs[..k][1..] == cs[1..][..k - 1] && cs[1..][k - 1..] == cs[k..];
    }
  }

  /** The ideal editor steps back to its oldest version and stays there. */
  lemma {:induction false} UndosBack(env: Env, t: Timeline, path: Path, k: nat)
    requires t.Valid()
    ensures var undos := Repeat(UndoFile(path, false), k);
            && AllFromParser(undos) && TameRun(env, t, path, undos)
            && IdealRun(env, t, path, undos) == Timeline(t.versions, if k <= t.cur then t.cur - k else 0)
    decreases k
  {
    if k > 0 {
      UndosBack(env, t.Back(), path, k - 1);
      assert Repeat(UndoFile(path, false), k)[1..] == Repeat(UndoFile(path, false), k - 1);
    }
  }

  lemma CursorBounded(env: Env, w: World, path: Path, t: Timeline)
    requires Refines(env, w, path, t)
    ensures t.cur <= MAX_ENTRIES
  {
    hide Linked;
  }

  /** As many undos as one likes, on the files. */
  lemma UndosReach(env: Env, w: World, path: Path, t: Timeline, k: nat)
    requires Refines(env, w, path, t)
    ensures var undos := Repeat(UndoFile(path, false), k);
            && AllFromParser(undos)
            && path in Run(env, w, undos).disk
            && t.cur < |t.versions|
            && Run(env, w, undos).disk[path] == t.versions[if k <= t.cur then t.cur - k else 0]
  {
    var undos := Repeat(UndoFile(path, false), k);
    RefinesNow(env, w, path, t);
    hide *;
    UndosBack(env, t, path, k);
    RunRefines(env, w, path, t, undos);
    RefinesNow(env, Run(env, w, undos), path, IdealRun(env, t, path, undos));
  }

  lemma PartsFromParser(cs: seq<Command>, n: nat)
    requires n <= |cs| && AllFromParser(cs)
    ensures AllFromParser(cs[..n]) && AllFromParser(cs[n..])
  {
  }

  /** The number of edits of which the daemon no longer has an entry. */
  function Forgotten(n: nat): nat { if n <= 50 then 0 else n - 50 }

  lemma LatestReached(env: Env, t: Timeline, path: Path, cs: seq<Command>, k: nat)
    requires t.Valid() && AllFromParser(cs) && WritingRun(env, t, path, cs)
    requires |cs| == if k <= MAX_ENTRIES then k else MAX_ENTRIES
    requires IdealRun(env, t, path, cs).cur <= MAX_ENTRIES
    ensures var last := IdealRun(env, t, path, cs);
            last.versions[if k <= last.cur then last.cur - k else 0] == t.Now()
  {
    hide IdealRun;
    hide WritingRun;
    hide AllFromParser;
    PushesKeep(env, t, path, cs, 0);
  }

  /** Edits within the limit, made on the version at hand, and enough undos to get back. */
  lemma UndoneTo(env: Env, w: World, path: Path, t: Timeline, recent: seq<Command>, k: nat)
    requires Refines(env, w, path, t) && AllFromParser(recent)
    requires TameRun(env, t, path, recent) && WritingRun(env, t, path, recent)
    requires |recent| == if k <= MAX_ENTRIES then k else MAX_ENTRIES
    ensures var undos := Repeat(UndoFile(path, false), k);
            && AllFromParser(undos)
            && path in Run(env, Run(env, w, recent), undos).disk && path in w.disk
            && Run(env, Run(env, w, recent), undos).disk[path] == w.disk[path]
  {
    hide AllFromParser;
    hide TameRun;
    hide WritingRun;
    hide IdealRun;
    hide Run;
    hide Repeat;
    RefinesNow(env, w, path, t);
    hide Refines;
    RunRefines(env, w, path, t, recent);
    CursorBounded(env, Run(env, w, recent), path, IdealRun(env, t, path, recent));
    LatestReached(env, t, path, recent, k);
    UndosReach(env, Run(env, w, recent), path, IdealRun(env, t, path, recent), k);
  }

  lemma RunNothing(env: Env, w: World, cs: seq<Command>)
    requires cs == []
    ensures AllFromParser(cs) && Run(env, w, cs) == w
  {
  }

  /**
   * Any number of accepted edits of a file, from any point of its history, followed by as many undos: the file is what
   * it was before the last fifty of them, and what it was before all of them if there were no more than fifty.
   */
  lemma {:induction false} EditsThenUndos(env: Env, w: World, path: Path, t: Timeline, cs: seq<Command>)
    requires Refines(env, w, path, t) && AllFromParser(cs)
    requires TameRun(env, t, path, cs) && WritingRun(env, t, path, cs)
    ensures var undos, older := Repeat(UndoFile(path, false), |cs|), cs[..Forgotten(|cs|)];
            && AllFromParser(cs + undos)
            && path in Run(env, w, cs + undos).disk && path in Run(env, w, older).disk
            && Run(env, w, cs + undos).disk[path] == Run(env, w, older).disk[path]
            && (|cs| <= 50 ==> Run(env, w, older) == w)
  {
    hide AllFromParser;
    hide Refines;
    hide TameRun;
    hide WritingRun;
    hide IdealRun;
    hide Run;
    hide Repeat;
    var undos, n := Repeat(UndoFile(path, false), |cs|), Forgotten(|cs|);
    RefinesNow(env, w, path, t);
    PartsFromParser(cs, n);
    SplitRun(env, t, path, cs, n);
    if |cs| <= MAX_ENTRIES {
      RunNothing(env, w, cs[..n]);
    }
    RunRefines(env, w, path, t, cs[..n]);
    UndoneTo(env, Run(env, w, cs[..n]), path, IdealRun(env, t, path, cs[..n]), cs[n..], |cs|);
    RunInThree(env, w, cs[..n], cs[n..], undos);
    assert cs[..n] + cs[n..] == cs;
  }

  lemma RunInThree(env: Env, w: World, a: seq<Command>, b: seq<Command>, c: seq<Command>)
    requires AllFromParser(a) && AllFromParser(b) && AllFromParser(c)
    ensures AllFromParser(a + b + c) && Run(env, w, a + b + c) == Run(env, Run(env, Run(env, w, a), b), c)
  {
    hide AllFromParser;
    hide Run;
    RunConcat(env, w, a, b);
    RunConcat(env, w, a + b, c);
  }
}
