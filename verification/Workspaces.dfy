/**
 * The commands that touch a file and its history: edit (crates/aifed/src/batch.rs), rename
 * (crates/aifed/src/commands/lsp.rs), read, undo and redo (crates/aifed/src/commands/), run against the disk and
 * the daemon's history.
 */
module Workspaces {
  import opened Prelude
  import opened FileText
  import opened LineDiffs
  import opened Rename
  import opened TextEdits
  import opened BatchLanguage
  import opened BatchEdits
  import opened Indents
  import opened History

  /** What the commands depend on but do not change; hashes and the text check are left uninterpreted. */
  datatype Env = Env(
    fileHash: string -> string,
    lineHash: Line -> string,
    isText: string -> bool,
    settings: Path -> IndentSettings)

  datatype World = World(disk: map<Path, string>, histories: Histories)

  datatype Command =
    | EditFile(path: Path, ops: seq<EditOp>, dryRun: bool)
    | RenameIn(path: Path, edits: seq<TextEdit>)
    | ReadFile(path: Path)
    | UndoFile(path: Path, dryRun: bool)
    | RedoFile(path: Path, dryRun: bool)
    | OutsideWrite(path: Path, content: string)  // another program writes the file

  datatype CommandError =
    | FileNotFound | NotText | BatchRejected(batch: BatchError) | RenameRejected(text: TextEdits.EditError)
    | DaemonRefused(history: HistoryError) | FileHashMismatch

  type Outcome = Result<(), CommandError>

  // ---------- the commands, as functions of the world ----------

  /** The file written and the edit reported to the daemon, which may refuse to record it. */
  function WriteAndRecord(env: Env, w: World, path: Path, content: string, newContent: string, diffs: seq<LineDiff>)
    : World
  {
    World(w.disk[path := newContent],
          EditRecorded(w.histories, path, env.fileHash(content), env.fileHash(newContent), diffs))
  }

  function TargetOf(env: Env, path: Path, content: string): Target {
    Target(SplitLines(content), env.lineHash, env.settings(path))
  }

  function DoEdit(env: Env, w: World, path: Path, ops: seq<EditOp>, dryRun: bool): (World, Outcome)
    requires LocatorsFit(ops)
  {
    if path !in w.disk then (w, Err(FileNotFound))
    else if ops == [] then (w, Ok(()))
    else if !env.isText(w.disk[path]) then (w, Err(NotText))
    else
      match EditResult(ops, TargetOf(env, path, w.disk[path]))
      case Err(e) => (w, Err(BatchRejected(e)))
      case Ok(edited) =>
        if dryRun then (w, Ok(()))
        else (WriteAndRecord(env, w, path, w.disk[path], JoinLines(edited.newLines), edited.changes), Ok(()))
  }

  /** A file of a rename, read and edited but not yet written. */
  datatype PreparedFile = PreparedFile(path: Path, content: string, newContent: string)

  function Prepare(env: Env, w: World, path: Path, edits: seq<TextEdit>): Result<PreparedFile, CommandError> {
    if path !in w.disk then Err(FileNotFound)
    else if !env.isText(w.disk[path]) then Err(NotText)
    else
      match EditedText(w.disk[path], edits)
      case Err(e) => Err(RenameRejected(e))
      case Ok(newContent) => Ok(PreparedFile(path, w.disk[path], newContent))
  }

  function WritePrepared(env: Env, w: World, f: PreparedFile): World {
    var diffs := RenameDiffs(SplitLines(f.content), SplitLines(f.newContent));
    WriteAndRecord(env, w, f.path, f.content, f.newContent, diffs)
  }

  /** A rename in one file. */
  function DoRename(env: Env, w: World, path: Path, edits: seq<TextEdit>): (World, Outcome) {
    match Prepare(env, w, path, edits) case Err(e) => (w, Err(e)) case Ok(f) => (WritePrepared(env, w, f), Ok(()))
  }

  datatype FileEdit = FileEdit(path: Path, edits: seq<TextEdit>)

  /** All files of a rename prepared, or the first error. */
  function PrepareAll(env: Env, w: World, changes: seq<FileEdit>): Result<seq<PreparedFile>, CommandError> {
    if changes == [] then Ok([])
    else
      match Prepare(env, w, changes[0].path, changes[0].edits)
      case Err(e) => Err(e)
      case Ok(f) => match PrepareAll(env, w, changes[1..]) case Err(e) => Err(e) case Ok(fs) => Ok([f] + fs)
  }

  function WriteAll(env: Env, w: World, files: seq<PreparedFile>): World
    decreases |files|
  {
    if files == [] then w else WriteAll(env, WritePrepared(env, w, files[0]), files[1..])
  }

  /** A rename over several files: nothing is written before all of them are prepared. */
  function DoRenameAll(env: Env, w: World, changes: seq<FileEdit>, dryRun: bool): (World, Outcome) {
    match PrepareAll(env, w, changes)
    case Err(e) => (w, Err(e))
    case Ok(files) => (if dryRun then w else WriteAll(env, w, files), Ok(()))
  }

  function DoRead(env: Env, w: World, path: Path): (World, Outcome) {
    if path !in w.disk then (w, Err(FileNotFound))
    else if !env.isText(w.disk[path]) then (w, Err(NotText))
    else (w.(histories := AccessRecorded(w.histories, path, env.fileHash(w.disk[path]))), Ok(()))
  }

  /** What the client does with the diffs of an undo or redo: by now the daemon has already moved the entry. */
  function ApplyResponse(env: Env, w: World, path: Path, response: UndoRedoResult): (World, Outcome)
    requires path in w.disk
  {
    var content := w.disk[path];
    if response.diffs == [] then (w, Ok(()))
    else if !env.isText(content) then (w, Err(NotText))
    else if response.currentHash != "" && env.fileHash(content) != response.currentHash then (w, Err(FileHashMismatch))
    else
      var newContent := JoinLines(Replay(SplitLines(content), response.diffs));
      (World(w.disk[path := newContent], AccessRecorded(w.histories, path, env.fileHash(newContent))), Ok(()))
  }

  function DoUndo(env: Env, w: World, path: Path, dryRun: bool): (World, Outcome) {
    if path !in w.disk then (w, Err(FileNotFound))
    else
      match UndoResult(w.histories, path)
      case Err(e) => (w, Err(DaemonRefused(e)))
      case Ok(response) =>
        if dryRun then (w, Ok(()))
        else ApplyResponse(env, w.(histories := Undone(w.histories, path)), path, response)
  }

  function DoRedo(env: Env, w: World, path: Path, dryRun: bool): (World, Outcome) {
    if path !in w.disk then (w, Err(FileNotFound))
    else
      match RedoResult(w.histories, path)
      case Err(e) => (w, Err(DaemonRefused(e)))
      case Ok(response) =>
        if dryRun then (w, Ok(()))
        else ApplyResponse(env, w.(histories := Redone(w.histories, path)), path, response)
  }

  /** Edit operations come from the parser: their locators and contents are what it can produce. */
  ghost predicate FromParser(c: Command) { c.EditFile? ==> LocatorsFit(c.ops) && ContentsNewlineFree(c.ops) }

  function Execute(env: Env, w: World, c: Command): (World, Outcome)
    requires FromParser(c)
  {
    match c
    case EditFile(p, ops, dryRun) => DoEdit(env, w, p, ops, dryRun)
    case RenameIn(p, edits) => DoRename(env, w, p, edits)
    case ReadFile(p) => DoRead(env, w, p)
    case UndoFile(p, dryRun) => DoUndo(env, w, p, dryRun)
    case RedoFile(p, dryRun) => DoRedo(env, w, p, dryRun)
    case OutsideWrite(p, content) => (w.(disk := w.disk[p := content]), Ok(()))
  }

  ghost predicate AllFromParser(cs: seq<Command>) { forall i :: 0 <= i < |cs| ==> FromParser(cs[i]) }

  function Run(env: Env, w: World, cs: seq<Command>): World
    requires AllFromParser(cs)
    decreases |cs|
  {
    if cs == [] then w else Run(env, Execute(env, w, cs[0]).0, cs[1..])
  }

  /** Files already prepared in front of those still to come. */
  function AfterPrepared(done: seq<PreparedFile>, r: Result<seq<PreparedFile>, CommandError>)
    : Result<seq<PreparedFile>, CommandError>
  {
    match r case Err(e) => Err(e) case Ok(fs) => Ok(done + fs)
  }

  lemma PreparedTwice(a: seq<PreparedFile>, b: seq<PreparedFile>, r: Result<seq<PreparedFile>, CommandError>)
    ensures AfterPrepared(a, AfterPrepared(b, r)) == AfterPrepared(a + b, r)
    ensures AfterPrepared([], r) == r
  {
    if r.Ok? {
      ConcatAssociative(a, b, r.value);
      assert [] + r.value == r.value;
    }
  }

  // ---------- the commands, as methods ----------

  class Workspace {
    var disk: map<Path, string>
    const manager: HistoryManager

    function Value(): World
      reads this, manager
    {
      World(disk, manager.Value())
    }

    constructor (disk: map<Path, string>)
      ensures Value() == World(disk, NO_HISTORIES) && fresh(manager)
    {
      this.disk := disk;
      manager := new HistoryManager();
    }

    method Edit(env: Env, path: Path, ops: seq<EditOp>, dryRun: bool) returns (r: Outcome)
      requires LocatorsFit(ops)
      modifies this, manager
      ensures (Value(), r) == DoEdit(env, old(Value()), path, ops, dryRun)
    {
      hide EditResult;
      if path !in disk { return Err(FileNotFound); }
      if ops == [] { return Ok(()); }
      var fileContent := disk[path];
      if !env.isText(fileContent) { return Err(NotText); }
      var expectedHash := env.fileHash(fileContent);
      var lines := SplitLines(fileContent);
      var edited := ExecuteAtomic(ops, Target(lines, env.lineHash, env.settings(path)));
      if edited.Err? { return Err(BatchRejected(edited.error)); }
      if !dryRun {
        var newContent := JoinLines(edited.value.newLines);
        disk := disk[path := newContent];
        var _ := manager.RecordEdit(path, expectedHash, env.fileHash(newContent), edited.value.changes);
      }
      r := Ok(());
    }

    method PrepareFile(env: Env, path: Path, edits: seq<TextEdit>) returns (r: Result<PreparedFile, CommandError>)
      ensures r == Prepare(env, Value(), path, edits)
    {
      hide EditedText;
      if path !in disk { return Err(FileNotFound); }
      var content := disk[path];
      if !env.isText(content) { return Err(NotText); }
      var edited := ApplyEdits(content, edits);
      if edited.Err? { return Err(RenameRejected(edited.error)); }
      r := Ok(PreparedFile(path, content, edited.value));
    }

    method PrepareFiles(env: Env, changes: seq<FileEdit>) returns (r: Result<seq<PreparedFile>, CommandError>)
      ensures r == PrepareAll(env, Value(), changes)
    {
      hide Prepare;
      var prepared: seq<PreparedFile> := [];
      PreparedTwice([], [], PrepareAll(env, Value(), changes));
      for i := 0 to |changes|
        invariant PrepareAll(env, Value(), changes) == AfterPrepared(prepared, PrepareAll(env, Value(), changes[i..]))
      {
        assert changes[i..][1..] == changes[i + 1..];
        var file := PrepareFile(env, changes[i].path, changes[i].edits);
        if file.Err? { return Err(file.error); }
        PreparedTwice(prepared, [file.value], PrepareAll(env, Value(), changes[i + 1..]));
        prepared := prepared + [file.value];
      }
      assert prepared + [] == prepared;
      r := Ok(prepared);
    }

    method WriteFiles(env: Env, files: seq<PreparedFile>)
      modifies this, manager
      ensures Value() == WriteAll(env, old(Value()), files)
    {
      hide RenameDiffs;
      hide EditRecorded;
      for i := 0 to |files|
        invariant WriteAll(env, Value(), files[i..]) == WriteAll(env, old(Value()), files)
      {
        assert files[i..][1..] == files[i + 1..];
        var diffs := ComputeRenameDiffs(SplitLines(files[i].content), SplitLines(files[i].newContent));
        disk := disk[files[i].path := files[i].newContent];
        var oldHash, newHash := env.fileHash(files[i].content), env.fileHash(files[i].newContent);
        var _ := manager.RecordEdit(files[i].path, oldHash, newHash, diffs);
      }
    }

    method RenameSymbol(env: Env, changes: seq<FileEdit>, dryRun: bool) returns (r: Outcome)
      modifies this, manager
      ensures (Value(), r) == DoRenameAll(env, old(Value()), changes, dryRun)
    {
      var prepared := PrepareFiles(env, changes);
      if prepared.Err? { return Err(prepared.error); }
      if !dryRun {
        WriteFiles(env, prepared.value);
      }
      r := Ok(());
    }

    method Read(env: Env, path: Path) returns (r: Outcome)
      modifies manager
      ensures (Value(), r) == DoRead(env, old(Value()), path)
    {
      if path !in disk { return Err(FileNotFound); }
      if !env.isText(disk[path]) { return Err(NotText); }
      manager.RecordAccess(path, env.fileHash(disk[path]));
      r := Ok(());
    }

    method Undo(env: Env, path: Path, dryRun: bool) returns (r: Outcome)
      modifies this, manager
      ensures (Value(), r) == DoUndo(env, old(Value()), path, dryRun)
    {
      hide Replay;
      hide UndoResult;
      hide Undone;
      if path !in disk { return Err(FileNotFound); }
      var response := manager.Undo(path, dryRun);
      if response.Err? {
        RefusedUndo(old(manager.Value()), path);
        return Err(DaemonRefused(response.error));
      }
      if dryRun { return Ok(()); }
      r := Apply(env, path, response.value);
    }

    method Redo(env: Env, path: Path, dryRun: bool) returns (r: Outcome)
      modifies this, manager
      ensures (Value(), r) == DoRedo(env, old(Value()), path, dryRun)
    {
      hide Replay;
      hide RedoResult;
      hide Redone;
      if path !in disk { return Err(FileNotFound); }
      var response := manager.Redo(path, dryRun);
      if response.Err? {
        RefusedUndo(old(manager.Value()), path);
        return Err(DaemonRefused(response.error));
      }
      if dryRun { return Ok(()); }
      r := Apply(env, path, response.value);
    }

    method Apply(env: Env, path: Path, response: UndoRedoResult) returns (r: Outcome)
      requires path in disk
      modifies this, manager
      ensures (Value(), r) == ApplyResponse(env, old(Value()), path, response)
    {
      hide Replay;
      if response.diffs == [] { return Ok(()); }
      var fileContent := disk[path];
      if !env.isText(fileContent) { return Err(NotText); }
      if response.currentHash != "" {
        var actualHash := env.fileHash(fileContent);
        if actualHash != response.currentHash { return Err(FileHashMismatch); }
      }
      var lines := new LineVec(SplitLines(fileContent));
      lines.ApplyDiffs(response.diffs);
      disk := disk[path := JoinLines(lines.lines)];
      manager.RecordAccess(path, env.fileHash(disk[path]));
      r := Ok(());
    }
  }

  // ---------- renames over several files ----------

  function RenameCommands(changes: seq<FileEdit>): (cs: seq<Command>)
    ensures AllFromParser(cs) && |cs| == |changes|
  {
    if changes == [] then [] else [RenameIn(changes[0].path, changes[0].edits)] + RenameCommands(changes[1..])
  }

  /** The edits listed for a file leave it as it is, wherever the file is listed again. */
  ghost predicate EarlierIdle(env: Env, w: World, changes: seq<FileEdit>) {
    forall i, j :: 0 <= i < j < |changes| && changes[i].path == changes[j].path ==> Idle(env, w, changes[i])
  }

  predicate Idle(env: Env, w: World, change: FileEdit) {
    change.path in w.disk && EditedText(w.disk[change.path], change.edits) == Ok(w.disk[change.path])
  }

  /** The files of the changes are in `w` as they are in `v`. */
  ghost predicate SameFiles(v: World, w: World, changes: seq<FileEdit>) {
    forall i :: 0 <= i < |changes| ==>
      && (changes[i].path in v.disk <==> changes[i].path in w.disk)
      && (changes[i].path in v.disk ==> v.disk[changes[i].path] == w.disk[changes[i].path])
  }

  lemma {:induction false} WriteAllIsRun(env: Env, v: World, w: World, changes: seq<FileEdit>)
    requires EarlierIdle(env, v, changes) && SameFiles(v, w, changes) && PrepareAll(env, v, changes).Ok?
    ensures WriteAll(env, w, PrepareAll(env, v, changes).value) == Run(env, w, RenameCommands(changes))
    decreases |changes|
  {
    hide EditedText;
    hide RenameDiffs;
    hide EditRecorded;
    hide SplitLines;
    if changes != [] {
      var files, cs, c := PrepareAll(env, v, changes).value, RenameCommands(changes), changes[0];
      var f := Prepare(env, v, c.path, c.edits).value;
      assert files == [f] + PrepareAll(env, v, changes[1..]).value;
      assert files[1..] == PrepareAll(env, v, changes[1..]).value;
      assert cs[0] == RenameIn(c.path, c.edits) && cs[1..] == RenameCommands(changes[1..]);
      assert Prepare(env, w, c.path, c.edits) == Ok(f);
      var rest := changes[1..];
      forall k | 0 <= k < |rest| && rest[k].path == c.path ensures f.newContent == v.disk[c.path] {
        assert Idle(env, v, changes[0]) by {
          assert changes[k + 1].path == c.path;
        }
      }
      WriteAllIsRun(env, v, WritePrepared(env, w, f), rest);
    }
  }

  /**
   * A rename over several files is refused without writing any file exactly when one of them cannot be edited; else it
   * is the run of the renames of its files one after the other, if no file is listed again after a real change.
   */
  lemma RenameIsARun(env: Env, w: World, changes: seq<FileEdit>)
    ensures var (after, r) := DoRenameAll(env, w, changes, false);
            && (r.Ok? <==> forall i :: 0 <= i < |changes| ==> Prepare(env, w, changes[i].path, changes[i].edits).Ok?)
            && (r.Err? ==> after == w)
            && (r.Ok? && EarlierIdle(env, w, changes) ==> after == Run(env, w, RenameCommands(changes)))
  {
    PreparedExactly(env, w, changes);
    if PrepareAll(env, w, changes).Ok? && EarlierIdle(env, w, changes) {
      WriteAllIsRun(env, w, w, changes);
    }
    hide Prepare;
  }

  /** The edits listed first and last for a file. */
  function FirstEdits(changes: seq<FileEdit>, path: Path): Option<seq<TextEdit>> {
    if changes == [] then None
    else if changes[0].path == path then Some(changes[0].edits)
    else FirstEdits(changes[1..], path)
  }

  function LastEdits(changes: seq<FileEdit>, path: Path): Option<seq<TextEdit>> {
    if changes == [] then None
    else if LastEdits(changes[1..], path).Some? then LastEdits(changes[1..], path)
    else if changes[0].path == path then Some(changes[0].edits)
    else None
  }

  lemma PreparedFirst(env: Env, v: World, changes: seq<FileEdit>)
    requires changes != [] && PrepareAll(env, v, changes).Ok?
    ensures var c, files := changes[0], PrepareAll(env, v, changes).value;
            && PrepareAll(env, v, changes[1..]).Ok?
            && files != [] && files[1..] == PrepareAll(env, v, changes[1..]).value
            && c.path in v.disk && EditedText(v.disk[c.path], c.edits).Ok?
            && files[0] == PreparedFile(c.path, v.disk[c.path], EditedText(v.disk[c.path], c.edits).value)
  {
    hide EditedText;
  }

  lemma {:induction false} WriteAllDisk(env: Env, v: World, w: World, changes: seq<FileEdit>, path: Path)
    requires PrepareAll(env, v, changes).Ok? && path in v.disk && path in w.disk
    ensures var after := WriteAll(env, w, PrepareAll(env, v, changes).value);
            && path in after.disk
            && (if LastEdits(changes, path).None? then after.disk[path] == w.disk[path]
                else EditedText(v.disk[path], LastEdits(changes, path).value) == Ok(after.disk[path]))
    decreases |changes|
  {
    hide EditedText;
    hide RenameDiffs;
    hide EditRecorded;
    hide PrepareAll;
    if changes == [] {
      NothingPrepared(env, v);
    } else {
      PreparedFirst(env, v, changes);
      WriteAllDisk(env, v, WritePrepared(env, w, PrepareAll(env, v, changes).value[0]), changes[1..], path);
    }
  }

  lemma NothingPrepared(env: Env, v: World)
    ensures PrepareAll(env, v, []) == Ok([])
  {
  }

  /** What the daemon knows of a file after several edits of one text: the first of them, and no later one. */
  lemma {:induction false} WriteAllKnown(env: Env, v: World, w: World, changes: seq<FileEdit>, path: Path)
    requires PrepareAll(env, v, changes).Ok? && path in v.disk
    ensures var f, hash := w.histories.Of(path), env.fileHash(v.disk[path]);
            var after := WriteAll(env, w, PrepareAll(env, v, changes).value).histories.Of(path);
            && (!EditAccepted(f, hash) || FirstEdits(changes, path).None? ==> after == f)
            && (EditAccepted(f, hash) && FirstEdits(changes, path).Some? ==>
                  && EditedText(v.disk[path], FirstEdits(changes, path).value).Ok?
                  && var first := env.fileHash(EditedText(v.disk[path], FirstEdits(changes, path).value).value);
                  (first != "" && first != hash ==> after.lastKnownHash == first))
    decreases |changes|
  {
    hide EditedText;
    hide RenameDiffs;
    hide PrepareAll;
    if changes == [] {
      NothingPrepared(env, v);
    } else {
      PreparedFirst(env, v, changes);
      WriteAllKnown(env, v, WritePrepared(env, w, PrepareAll(env, v, changes).value[0]), changes[1..], path);
    }
  }

  /**
   * What a rename leaves of a file, also of one listed several times, which a server's answer with both forms of
   * changes leads to: the text of the edits listed last is on disk, those before are lost, and the daemon takes the
   * file for the text of the edits listed first.
   */
  lemma RenameLeaves(env: Env, w: World, changes: seq<FileEdit>, path: Path)
    requires path in w.disk && DoRenameAll(env, w, changes, false).1.Ok?
    requires EditAccepted(w.histories.Of(path), env.fileHash(w.disk[path]))
    ensures var (after, content) := (DoRenameAll(env, w, changes, false).0, w.disk[path]);
            && path in after.disk
            && (LastEdits(changes, path).None? ==> SameAtPath(w, after, path))
            && (LastEdits(changes, path).Some? ==>
                  && FirstEdits(changes, path).Some?
                  && EditedText(content, LastEdits(changes, path).value) == Ok(after.disk[path])
                  && EditedText(content, FirstEdits(changes, path).value).Ok?
                  && var first := env.fileHash(EditedText(content, FirstEdits(changes, path).value).value);
                  (first != "" && first != env.fileHash(content) ==>
                     (EditAccepted(after.histories.Of(path), env.fileHash(after.disk[path]))
                      <==> env.fileHash(after.disk[path]) == first)))
  {
    hide EditedText;
    hide WriteAll;
    hide PrepareAll;
    WriteAllDisk(env, w, w, changes, path);
    WriteAllKnown(env, w, w, changes, path);
    FirstAndLast(changes, path);
  }

  predicate SameAtPath(w: World, after: World, path: Path)
    requires path in w.disk && path in after.disk
  {
    after.disk[path] == w.disk[path] && after.histories.Of(path) == w.histories.Of(path)
  }

  lemma {:induction false} FirstAndLast(changes: seq<FileEdit>, path: Path)
    ensures FirstEdits(changes, path).Some? <==> LastEdits(changes, path).Some?
  {
    if changes != [] {
      FirstAndLast(changes[1..], path);
    }
  }

  /**
   * A file listed twice: the rename equals the two renames one after the other exactly when the first changes nothing,
   * or when both give one text and the second cannot be made after the first.
   */
  lemma TwiceRenamed(env: Env, w: World, path: Path, first: seq<TextEdit>, second: seq<TextEdit>)
    requires path in w.disk && env.isText(w.disk[path])
    requires EditedText(w.disk[path], first).Ok? && EditedText(w.disk[path], second).Ok?
    requires EditAccepted(w.histories.Of(path), env.fileHash(w.disk[path]))
    requires var (content, text) := (w.disk[path], EditedText(w.disk[path], first).value);
             text == content || (env.fileHash(text) != "" && env.fileHash(text) != env.fileHash(content))
    ensures var changes := [FileEdit(path, first), FileEdit(path, second)];
            var (after, r) := DoRenameAll(env, w, changes, false);
            var (text, last) := (EditedText(w.disk[path], first).value, EditedText(w.disk[path], second).value);
            && r == Ok(())
            && (after == Run(env, w, RenameCommands(changes)) <==>
                  || text == w.disk[path]
                  || (text == last && Prepare(env, DoRename(env, w, path, first).0, path, second).Err?))
  {
    hide EditedText;
    hide RenameDiffs;
    hide SplitLines;
    var changes := [FileEdit(path, first), FileEdit(path, second)];
    var (text, last) := (EditedText(w.disk[path], first).value, EditedText(w.disk[path], second).value);
    TwoPrepared(env, w, path, first, second);
    TwoRenames(env, w, path, first, second);
    if text == w.disk[path] {
      WriteAllIsRun(env, w, w, changes);
    } else {
      SecondRefused(env, w, path, PreparedFile(path, w.disk[path], text), PreparedFile(path, w.disk[path], last));
      SecondRecorded(env, w, path, text, second);
    }
  }

  lemma TwoPrepared(env: Env, w: World, path: Path, first: seq<TextEdit>, second: seq<TextEdit>)
    requires Prepare(env, w, path, first).Ok? && Prepare(env, w, path, second).Ok?
    ensures var files := [Prepare(env, w, path, first).value, Prepare(env, w, path, second).value];
            && PrepareAll(env, w, [FileEdit(path, first), FileEdit(path, second)]) == Ok(files)
            && WriteAll(env, w, files) == WritePrepared(env, WritePrepared(env, w, files[0]), files[1])
  {
    hide Prepare;
    hide WritePrepared;
    var changes := [FileEdit(path, first), FileEdit(path, second)];
    var files := [Prepare(env, w, path, first).value, Prepare(env, w, path, second).value];
    assert changes[1..] == [FileEdit(path, second)] && changes[1..][1..] == [];
    assert PrepareAll(env, w, []) == Ok([]);
    assert PrepareAll(env, w, changes[1..]) == Ok([files[1]] + []) by {
      assert changes[1..][0] == FileEdit(path, second);
      assert PrepareAll(env, w, changes[1..][1..]) == Ok([]);
    }
    assert [files[1]] + [] == [files[1]] && [files[0]] + [files[1]] == files;
    assert PrepareAll(env, w, changes) == Ok([files[0]] + [files[1]]);
    assert files[1..] == [files[1]] && files[1..][1..] == [];
    assert WriteAll(env, WritePrepared(env, w, files[0]), files[1..])
        == WriteAll(env, WritePrepared(env, WritePrepared(env, w, files[0]), files[1]), []);
  }

  lemma TwoRenames(env: Env, w: World, path: Path, first: seq<TextEdit>, second: seq<TextEdit>)
    ensures var changes := [FileEdit(path, first), FileEdit(path, second)];
            Run(env, w, RenameCommands(changes)) == DoRename(env, DoRename(env, w, path, first).0, path, second).0
  {
    hide DoRename;
    var changes := [FileEdit(path, first), FileEdit(path, second)];
    assert changes[1..] == [FileEdit(path, second)] && changes[1..][1..] == [];
    assert RenameCommands([]) == [];
    assert RenameCommands(changes[1..]) == [RenameIn(path, second)];
    var cs: seq<Command> := RenameCommands(changes);
    assert cs == [RenameIn(path, first), RenameIn(path, second)];
    assert cs[1..] == [RenameIn(path, second)] && cs[1..][1..] == [];
    var w1 := DoRename(env, w, path, first).0;
    assert Run(env, w, cs) == Run(env, w1, cs[1..]);
    assert Run(env, w1, cs[1..]) == Run(env, DoRename(env, w1, path, second).0, cs[1..][1..]);
  }

  /** The daemon refuses a second edit that starts from the text before the first. */
  lemma SecondRefused(env: Env, w: World, path: Path, f: PreparedFile, g: PreparedFile)
    requires f.path == g.path == path && f.content == g.content
    requires EditAccepted(w.histories.Of(path), env.fileHash(f.content))
    requires env.fileHash(f.newContent) != "" && env.fileHash(f.newContent) != env.fileHash(f.content)
    ensures WritePrepared(env, WritePrepared(env, w, f), g)
         == World(w.disk[path := g.newContent], WritePrepared(env, w, f).histories)
  {
    hide RenameDiffs;
    var one := WritePrepared(env, w, f);
    assert one.histories.files[path := one.histories.Of(path)] == one.histories.files;
    assert one.disk[path := g.newContent] == w.disk[path := g.newContent];
  }

  /** A second edit that starts from the text of the first is recorded. */
  lemma SecondRecorded(env: Env, w: World, path: Path, text: string, second: seq<TextEdit>)
    requires path in w.disk && EditAccepted(w.histories.Of(path), env.fileHash(w.disk[path]))
    ensures var one := WritePrepared(env, w, PreparedFile(path, w.disk[path], text));
            var (two, r) := DoRename(env, one, path, second);
            && one.disk[path := text] == one.disk
            && (r.Ok? <==> Prepare(env, one, path, second).Ok?)
            && (r.Ok? ==> two.histories != one.histories)
            && (r.Err? ==> two == one)
  {
    hide EditedText;
    hide RenameDiffs;
  }

  lemma {:induction false} PreparedExactly(env: Env, w: World, changes: seq<FileEdit>)
    ensures PrepareAll(env, w, changes).Ok? <==>
              forall i :: 0 <= i < |changes| ==> Prepare(env, w, changes[i].path, changes[i].edits).Ok?
  {
    hide Prepare;
    if changes != [] {
      PreparedExactly(env, w, changes[1..]);
      assert forall i :: 0 < i < |changes| ==> changes[i] == changes[1..][i - 1];
    }
  }

  lemma RefusedUndo(h: Histories, path: Path)
    ensures UndoResult(h, path).Err? ==> Undone(h, path) == h
    ensures RedoResult(h, path).Err? ==> Redone(h, path) == h
  {
  }

  predicate IsDryRun(c: Command) {
    match c
    case EditFile(_, _, dryRun) => dryRun
    case UndoFile(_, dryRun) => dryRun
    case RedoFile(_, dryRun) => dryRun
    case _ => false
  }

  /** An undo or redo for which the daemon has an entry: it moves the entry before anything is checked. */
  predicate MovesEntry(w: World, c: Command) {
    match c
    case UndoFile(p, dryRun) => !dryRun && p in w.disk && w.histories.Of(p).undoStack != []
    case RedoFile(p, dryRun) => !dryRun && p in w.disk && w.histories.Of(p).redoStack != []
    case _ => false
  }

  /** The client refuses what the daemon answers: there is something to apply, and the file is not as it should be. */
  predicate Refuses(env: Env, w: World, path: Path, entry: HistoryEntry)
    requires path in w.disk
  {
    var known := w.histories.Of(path).lastKnownHash;
    entry.diffs != [] && (!env.isText(w.disk[path]) || (known != "" && env.fileHash(w.disk[path]) != known))
  }

  lemma SomethingToInvert(diffs: seq<LineDiff>)
    ensures InverseDiffs(diffs) == [] <==> diffs == []
  {
  }

  /**
   * When an undo fails, and when it then leaves the world alone. An undo that the client refuses leaves the file but
   * has moved the entry to the redo stack.
   */
  lemma UndoRefusedExactly(env: Env, w: World, path: Path)
    ensures var (after, r) := DoUndo(env, w, path, false);
            var undo := w.histories.Of(path).undoStack;
            && (r.Err? <==> path !in w.disk || undo == [] || Refuses(env, w, path, undo[|undo| - 1]))
            && (r.Err? ==> after.disk == w.disk && (after == w <==> path !in w.disk || undo == []))
            && (r.Err? && after != w ==> after.histories == Undone(w.histories, path))
            && (r.Err? ==> r.error == if path !in w.disk then FileNotFound
                                      else if undo == [] then DaemonRefused(NoHistory)
                                      else if !env.isText(w.disk[path]) then NotText else FileHashMismatch)
  {
    hide Replay;
    hide InverseDiffs;
    var undo := w.histories.Of(path).undoStack;
    if path in w.disk && undo != [] {
      SomethingToInvert(undo[|undo| - 1].diffs);
      assert Undone(w.histories, path).Of(path).undoStack != undo;
    }
  }

  lemma RedoRefusedExactly(env: Env, w: World, path: Path)
    ensures var (after, r) := DoRedo(env, w, path, false);
            var redo := w.histories.Of(path).redoStack;
            && (r.Err? <==> path !in w.disk || redo == [] || Refuses(env, w, path, redo[|redo| - 1]))
            && (r.Err? ==> after.disk == w.disk && (after == w <==> path !in w.disk || redo == []))
            && (r.Err? && after != w ==> after.histories == Redone(w.histories, path))
            && (r.Err? ==> r.error == if path !in w.disk then FileNotFound
                                      else if redo == [] then DaemonRefused(NoRedo)
                                      else if !env.isText(w.disk[path]) then NotText else FileHashMismatch)
  {
    hide Replay;
    var redo := w.histories.Of(path).redoStack;
    if path in w.disk && redo != [] {
      assert Redone(w.histories, path).Of(path).redoStack != redo;
    }
  }

  /**
   * A batch is applied whole or not at all: a command that fails writes no file, and it leaves the whole world alone
   * exactly when it is not an undo or redo for which the daemon had an entry. A dry run changes nothing.
   */
  lemma FailureChangesNothing(env: Env, w: World, c: Command)
    requires FromParser(c)
    ensures var (after, r) := Execute(env, w, c);
            && (r.Err? ==> after.disk == w.disk && (after == w <==> !MovesEntry(w, c)))
            && (IsDryRun(c) ==> after == w)
  {
    hide EditResult;
    hide EditedText;
    hide SplitLines;
    hide RenameDiffs;
    hide ApplyResponse;
    if c.UndoFile? {
      UndoRefusedExactly(env, w, c.path);
    } else if c.RedoFile? {
      RedoRefusedExactly(env, w, c.path);
    }
  }

  /** When an edit fails, and why. Without operations an existing file is not even read. */
  lemma EditRefusedExactly(env: Env, w: World, path: Path, ops: seq<EditOp>, dryRun: bool)
    requires LocatorsFit(ops)
    ensures var r := DoEdit(env, w, path, ops, dryRun).1;
            && (r == Err(FileNotFound) <==> path !in w.disk)
            && (r == Err(NotText) <==> path in w.disk && ops != [] && !env.isText(w.disk[path]))
            && (forall e :: r == Err(BatchRejected(e)) <==>
                  && path in w.disk && ops != [] && env.isText(w.disk[path])
                  && EditResult(ops, TargetOf(env, path, w.disk[path])) == Err(e))
            && (r.Err? ==> r.error.FileNotFound? || r.error.NotText? || r.error.BatchRejected?)
  {
    hide EditResult;
  }

  /**
   * A dry run of an edit or a rename answers what the real run would. One of an undo or redo does not look at the file:
   * it promises success exactly where the client would then refuse.
   */
  lemma DryRunsForetell(env: Env, w: World, path: Path, ops: seq<EditOp>, changes: seq<FileEdit>)
    requires LocatorsFit(ops)
    ensures DoEdit(env, w, path, ops, true).1 == DoEdit(env, w, path, ops, false).1
    ensures DoRenameAll(env, w, changes, true).1 == DoRenameAll(env, w, changes, false).1
    ensures var undo := w.histories.Of(path).undoStack;
            DoUndo(env, w, path, true).1 != DoUndo(env, w, path, false).1 <==>
              path in w.disk && undo != [] && Refuses(env, w, path, undo[|undo| - 1])
    ensures var redo := w.histories.Of(path).redoStack;
            DoRedo(env, w, path, true).1 != DoRedo(env, w, path, false).1 <==>
              path in w.disk && redo != [] && Refuses(env, w, path, redo[|redo| - 1])
  {
    hide EditResult;
    hide PrepareAll;
    hide WriteAll;
    hide Replay;
    hide InverseDiffs;
    hide SplitLines;
    var undo := w.histories.Of(path).undoStack;
    if path in w.disk && undo != [] {
      SomethingToInvert(undo[|undo| - 1].diffs);
    }
  }
}
