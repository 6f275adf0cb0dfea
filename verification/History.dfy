/** The daemon's per-file undo and redo stacks (crates/aifed-daemon/src/history/manager.rs). */
module History {
  import opened Prelude
  import opened LineDiffs

  type Path = string

  const MAX_ENTRIES := 50
  const U64_SIZE := 0x1_0000_0000_0000_0000

  datatype HistoryEntry = HistoryEntry(id: nat, diffs: seq<LineDiff>)

  datatype FileHistory =
    FileHistory(lastKnownHash: string, undoStack: seq<HistoryEntry>, redoStack: seq<HistoryEntry>)
  {
    /** All entries in the order they were made: the undo stack from the bottom, then the redo stack from the top. */
    function Entries(): (r: seq<HistoryEntry>)
      ensures |r| == |undoStack| + |redoStack|
    {
      undoStack + Reverse(redoStack)
    }
  }

  const NEW_FILE_HISTORY := FileHistory("", [], [])

  datatype HistoryError = HashMismatch(expected: string, actual: string) | NoHistory | NoRedo

  datatype UndoRedoResult = UndoRedoResult(diffs: seq<LineDiff>, currentHash: string)

  /** The value of a `HistoryManager`. */
  datatype Histories = Histories(files: map<Path, FileHistory>, nextId: nat) {
    function Of(path: Path): FileHistory { if path in files then files[path] else NEW_FILE_HISTORY }
  }

  const NO_HISTORIES := Histories(map[], 1)

  function AccessRecorded(h: Histories, path: Path, hash: string): Histories {
    h.(files := h.files[path := h.Of(path).(lastKnownHash := hash)])
  }

  /** The history of a file after one more edit, the oldest entry dropped when there are too many. */
  function Pushed(f: FileHistory, entry: HistoryEntry, newHash: string): FileHistory {
    var undo := f.undoStack + [entry];
    FileHistory(newHash, if |undo| > MAX_ENTRIES then undo[1..] else undo, [])
  }

  predicate EditAccepted(f: FileHistory, expectedHash: string) {
    f.lastKnownHash == "" || f.lastKnownHash == expectedHash
  }

  function EditRecorded(h: Histories, path: Path, expectedHash: string, newHash: string, diffs: seq<LineDiff>)
    : Histories
  {
    var f := h.Of(path);
    if EditAccepted(f, expectedHash) then
      Histories(h.files[path := Pushed(f, HistoryEntry(h.nextId, diffs), newHash)], (h.nextId + 1) % U64_SIZE)
    else h.(files := h.files[path := f])
  }

  function UndoResult(h: Histories, path: Path): Result<UndoRedoResult, HistoryError> {
    var f := h.Of(path);
    if f.undoStack == [] then Err(NoHistory)
    else Ok(UndoRedoResult(InverseDiffs(f.undoStack[|f.undoStack| - 1].diffs), f.lastKnownHash))
  }

  function RedoResult(h: Histories, path: Path): Result<UndoRedoResult, HistoryError> {
    var f := h.Of(path);
    if f.redoStack == [] then Err(NoRedo)
    else Ok(UndoRedoResult(f.redoStack[|f.redoStack| - 1].diffs, f.lastKnownHash))
  }

  /** The last undo entry moved to the redo stack. */
  function Undone(h: Histories, path: Path): Histories {
    var f := h.Of(path);
    if f.undoStack == [] then h
    else
      var n := |f.undoStack| - 1;
      h.(files := h.files[path :=
        f.(undoStack := f.undoStack[..n], redoStack := f.redoStack + [f.undoStack[n]])])
  }

  /** The last redo entry moved back to the undo stack. */
  function Redone(h: Histories, path: Path): Histories {
    var f := h.Of(path);
    if f.redoStack == [] then h
    else
      var n := |f.redoStack| - 1;
      h.(files := h.files[path :=
        f.(redoStack := f.redoStack[..n], undoStack := f.undoStack + [f.redoStack[n]])])
  }

  class HistoryManager {
    var files: map<Path, FileHistory>
    var nextId: nat

    function Value(): Histories
      reads this
    {
      Histories(files, nextId)
    }

    constructor ()
      ensures Value() == NO_HISTORIES
    {
      files, nextId := map[], 1;
    }

    method RecordAccess(path: Path, hash: string)
      modifies this
      ensures Value() == AccessRecorded(old(Value()), path, hash)
    {
      var history := if path in files then files[path] else NEW_FILE_HISTORY;
      files := files[path := history.(lastKnownHash := hash)];
    }

    method RecordEdit(path: Path, expectedHash: string, newHash: string, diffs: seq<LineDiff>)
      returns (r: Result<(), HistoryError>)
      modifies this
      ensures Value() == EditRecorded(old(Value()), path, expectedHash, newHash, diffs)
      ensures r.Ok? <==> EditAccepted(old(Value()).Of(path), expectedHash)
      ensures r.Err? ==> r.error == HashMismatch(old(Value()).Of(path).lastKnownHash, expectedHash)
    {
      var history := if path in files then files[path] else NEW_FILE_HISTORY;
      files := files[path := history];
      if history.lastKnownHash != "" && history.lastKnownHash != expectedHash {
        return Err(HashMismatch(history.lastKnownHash, expectedHash));
      }
      var id := nextId;
      nextId := (nextId + 1) % U64_SIZE;
      history := history.(undoStack := history.undoStack + [HistoryEntry(id, diffs)]);
      history := history.(redoStack := []);
      if |history.undoStack| > MAX_ENTRIES {
        history := history.(undoStack := history.undoStack[1..]);
      }
      history := history.(lastKnownHash := newHash);
      files := files[path := history];
      r := Ok(());
    }

    method Undo(path: Path, dryRun: bool) returns (r: Result<UndoRedoResult, HistoryError>)
      modifies this
      ensures r == UndoResult(old(Value()), path)
      ensures Value() == if dryRun then old(Value()) else Undone(old(Value()), path)
    {
      if path !in files || files[path].undoStack == [] {
        return Err(NoHistory);
      }
      var history := files[path];
      var currentHash := history.lastKnownHash;
      var entry := history.undoStack[|history.undoStack| - 1];
      if !dryRun {
        history := history.(undoStack := history.undoStack[..|history.undoStack| - 1]);
        history := history.(redoStack := history.redoStack + [entry]);
        files := files[path := history];
      }
      r := Ok(UndoRedoResult(InverseDiffs(entry.diffs), currentHash));
    }

    method Redo(path: Path, dryRun: bool) returns (r: Result<UndoRedoResult, HistoryError>)
      modifies this
      ensures r == RedoResult(old(Value()), path)
      ensures Value() == if dryRun then old(Value()) else Redone(old(Value()), path)
    {
      if path !in files || files[path].redoStack == [] {
        return Err(NoRedo);
      }
      var history := files[path];
      var currentHash := history.lastKnownHash;
      var entry := history.redoStack[|history.redoStack| - 1];
      if !dryRun {
        history := history.(redoStack := history.redoStack[..|history.redoStack| - 1]);
        history := history.(undoStack := history.undoStack + [entry]);
        files := files[path := history];
      }
      r := Ok(UndoRedoResult(entry.diffs, currentHash));
    }

    /** The entries that can be undone, most recent first. */
    method GetHistory(path: Path, count: Option<nat>) returns (entries: seq<HistoryEntry>)
      ensures var undo := Value().Of(path).undoStack;
              && |entries| == (if count.Some? && count.value < |undo| then count.value else |undo|)
              && forall i :: 0 <= i < |entries| ==> entries[i] == undo[|undo| - 1 - i]
    {
      if path !in files {
        return [];
      }
      var undo := files[path].undoStack;
      ReverseIndex(undo);
      entries := Reverse(undo);
      if count.Some? && count.value < |undo| {
        entries := entries[..count.value];
      }
    }
  }

  // ---------- over all operation sequences ----------

  datatype HistoryCall =
    | Access(path: Path, hash: string)
    | Edit(path: Path, expectedHash: string, newHash: string, diffs: seq<LineDiff>)
    | Undo(path: Path)
    | Redo(path: Path)

  function Call(h: Histories, c: HistoryCall): Histories {
    match c
    case Access(p, hash) => AccessRecorded(h, p, hash)
    case Edit(p, e, n, diffs) => EditRecorded(h, p, e, n, diffs)
    case Undo(p) => Undone(h, p)
    case Redo(p) => Redone(h, p)
  }

  function Calls(h: Histories, cs: seq<HistoryCall>): Histories
    decreases |cs|
  {
    if cs == [] then h else Calls(Call(h, cs[0]), cs[1..])
  }

  ghost predicate IdsIncrease(entries: seq<HistoryEntry>, limit: nat) {
    && (forall i, j :: 0 <= i < j < |entries| ==> entries[i].id < entries[j].id)
    && (forall i :: 0 <= i < |entries| ==> entries[i].id < limit)
  }

  ghost predicate FileBounded(f: FileHistory, limit: nat) {
    |f.Entries()| <= MAX_ENTRIES && IdsIncrease(f.Entries(), limit)
  }

  ghost predicate NoSharedId(f: FileHistory, g: FileHistory) {
    forall a, b :: a in f.Entries() && b in g.Entries() ==> a.id != b.id
  }

  /** No file keeps more than the limit, ids increase along each file's entries and no two files share one. */
  ghost predicate Bounded(h: Histories) {
    && (forall p :: p in h.files ==> FileBounded(h.files[p], h.nextId))
    && (forall p, q :: p in h.files && q in h.files && p != q ==> NoSharedId(h.files[p], h.files[q]))
  }

  lemma ReverseSnoc<T>(s: seq<T>, x: T)
    ensures Reverse(s + [x]) == [x] + Reverse(s)
  {
    ReverseAppend(s, [x]);
  }

  /** Undo and redo move the boundary between the stacks; the entries stay what they are. */
  lemma UndoRedoKeepEntries(h: Histories, path: Path)
    ensures Undone(h, path).Of(path).Entries() == h.Of(path).Entries()
    ensures Redone(h, path).Of(path).Entries() == h.Of(path).Entries()
  {
    var f := h.Of(path);
    if f.undoStack != [] {
      var n := |f.undoStack| - 1;
      ReverseSnoc(f.redoStack, f.undoStack[n]);
      assert f.undoStack == f.undoStack[..n] + [f.undoStack[n]];
    }
    if f.redoStack != [] {
      var n := |f.redoStack| - 1;
      ReverseSnoc(f.redoStack[..n], f.redoStack[n]);
      assert f.redoStack == f.redoStack[..n] + [f.redoStack[n]];
    }
  }

  lemma PushedEntries(f: FileHistory, entry: HistoryEntry, newHash: string)
    requires |f.Entries()| <= MAX_ENTRIES
    ensures var r := Pushed(f, entry, newHash).Entries();
            && 0 < |r| <= MAX_ENTRIES && r[|r| - 1] == entry
            && |r| - 1 <= |f.undoStack|
            && forall i :: 0 <= i < |r| - 1 ==> r[i] == f.Entries()[|f.undoStack| - (|r| - 1) + i]
  {
    var undo := f.undoStack + [entry];
    assert Reverse<HistoryEntry>([]) == [];
  }

  lemma PushedBounded(f: FileHistory, entry: HistoryEntry, newHash: string)
    requires FileBounded(f, entry.id)
    ensures FileBounded(Pushed(f, entry, newHash), entry.id + 1)
    ensures forall e :: e in Pushed(f, entry, newHash).Entries() ==> e == entry || e in f.Entries()
  {
    PushedEntries(f, entry, newHash);
    hide Pushed;
  }

  /** What a call does to the entries of the file it is about: all are old ones or carry the next id. */
  lemma {:induction false} CallHere(h: Histories, c: HistoryCall)
    requires FileBounded(h.Of(c.path), h.nextId) && h.nextId + 1 < U64_SIZE
    ensures var after := Call(h, c);
            && h.nextId <= after.nextId <= h.nextId + 1
            && FileBounded(after.Of(c.path), after.nextId)
            && forall e :: e in after.Of(c.path).Entries() ==> e.id == h.nextId || e in h.Of(c.path).Entries()
  {
    var f := h.Of(c.path);
    match c
    case Access(p, hash) =>
      assert Call(h, c).Of(p).Entries() == f.Entries();
    case Edit(p, e, n, diffs) =>
      if EditAccepted(f, e) {
        PushedBounded(f, HistoryEntry(h.nextId, diffs), n);
        assert Call(h, c).Of(p) == Pushed(f, HistoryEntry(h.nextId, diffs), n);
        hide Pushed;
      }
    case Undo(p) => UndoRedoKeepEntries(h, p);
    case Redo(p) => UndoRedoKeepEntries(h, p);
  }

  lemma NewFileBounded(limit: nat)
    ensures FileBounded(NEW_FILE_HISTORY, limit)
    ensures NEW_FILE_HISTORY.Entries() == []
  {
  }

  /** What keeps two files apart when one of them changes. */
  lemma StillApart(f: FileHistory, f': FileHistory, g: FileHistory, limit: nat)
    requires FileBounded(g, limit) && NoSharedId(f, g)
    requires forall e :: e in f'.Entries() ==> e.id == limit || e in f.Entries()
    ensures NoSharedId(f', g) && NoSharedId(g, f')
  {
  }

  /** The files after a call: the one it was about, and the others as they were. */
  lemma CallFiles(h: Histories, c: HistoryCall, p: Path)
    requires p in Call(h, c).files
    ensures Call(h, c).files[p] == Call(h, c).Of(p)
    ensures p != c.path ==> p in h.files && Call(h, c).files[p] == h.files[p]
    ensures c.path !in h.files ==> h.Of(c.path) == NEW_FILE_HISTORY
    ensures c.path in h.files ==> h.Of(c.path) == h.files[c.path]
  {
    hide Pushed;
  }

  lemma HereBounded(h: Histories, c: HistoryCall)
    requires Bounded(h)
    ensures FileBounded(h.Of(c.path), h.nextId)
    ensures forall q :: q in h.files && q != c.path ==> NoSharedId(h.Of(c.path), h.files[q])
  {
    hide FileBounded;
    NewFileBounded(h.nextId);
    NewFileApart(h);
    hide NoSharedId;
  }

  lemma NewFileApart(h: Histories)
    ensures forall q :: q in h.files ==> NoSharedId(NEW_FILE_HISTORY, h.files[q])
  {
    NewFileBounded(0);
  }

  lemma {:induction false} CallBounded(h: Histories, c: HistoryCall)
    requires Bounded(h) && h.nextId + 1 < U64_SIZE
    ensures Bounded(Call(h, c)) && h.nextId <= Call(h, c).nextId <= h.nextId + 1
  {
    hide Call;
    hide FileBounded;
    hide NoSharedId;
    var after := Call(h, c);
    HereBounded(h, c);
    CallHere(h, c);
    forall p | p in after.files ensures FileBounded(after.files[p], after.nextId) {
      CallFiles(h, c, p);
      if p != c.path {
        LimitGrows(h.files[p], h.nextId, after.nextId);
      }
    }
    forall p, q | p in after.files && q in after.files && p != q
      ensures NoSharedId(after.files[p], after.files[q])
    {
      CallFiles(h, c, p);
      CallFiles(h, c, q);
      if p == c.path {
        StillApart(h.Of(p), after.files[p], h.files[q], h.nextId);
      } else if q == c.path {
        StillApart(h.Of(q), after.files[q], h.files[p], h.nextId);
      }
    }
  }

  lemma LimitGrows(f: FileHistory, a: nat, b: nat)
    requires FileBounded(f, a) && a <= b
    ensures FileBounded(f, b)
  {
  }

  lemma {:induction false} CallsBounded(h: Histories, cs: seq<HistoryCall>)
    requires Bounded(h) && h.nextId + |cs| < U64_SIZE
    ensures Bounded(Calls(h, cs))
    decreases |cs|
  {
    if cs != [] {
      CallBounded(h, cs[0]);
      CallsBounded(Call(h, cs[0]), cs[1..]);
    }
  }

  /**
   * Whatever is called in whatever order, on however many files, as long as the id counter has not wrapped around:
   * undo and redo entries of a file together stay within the limit, and ids are unique and increasing.
   */
  lemma {:induction false} HistoryBounded(cs: seq<HistoryCall>)
    requires |cs| < 0xFFFF_FFFF_FFFF_FFFF
    ensures Bounded(Calls(NO_HISTORIES, cs))
    ensures forall path :: |Calls(NO_HISTORIES, cs).Of(path).Entries()| <= 50
  {
    CallsBounded(NO_HISTORIES, cs);
  }
}
