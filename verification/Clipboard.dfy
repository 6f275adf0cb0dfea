/** Copying lines to the clipboard and pasting them (crates/aifed/src/commands/copy.rs and paste.rs). */
module Clipboard {
  import opened Prelude
  import opened Decimals
  import opened Escapes
  import opened Scanners
  import opened Locators
  import opened FileText
  import opened LineDiffs
  import opened EditRows
  import opened EditPlans
  import opened BatchLanguage
  import opened BatchPrinting
  import opened BatchEdits

  /** What copying the lines `start` to `end` stores. */
  function CopiedText(lines: seq<Line>, start: nat, end: nat): string
    requires 1 <= start <= end <= |lines|
  {
    JoinLines(lines[start - 1..end])
  }

  /** The one insertion that carries all clipboard lines. */
  function PasteOp(clipboard: string, line: nat, hash: string): EditOp {
    EditOp(InsertOp, Hashline(line, hash), SplitLines(clipboard), None)
  }

  /** The operation text paste generates. */
  function PasteText(clipboard: string, line: nat, hash: string): string {
    "+ " + Hashline(line, hash).Print() + PrintContents(SplitLines(clipboard), true) + "\n"
  }

  lemma {:induction false} PrintContentsSnoc(contents: seq<Line>, last: Line, hexControls: bool)
    ensures PrintContents(contents + [last], hexControls)
         == PrintContents(contents, hexControls) + (" \"" + EscapeFor(last, hexControls) + "\"")
  {
    hide EscapeFor;
    if contents == [] {
      assert [] + [last] == [last] && [last][1..] == [];
    } else {
      assert (contents + [last])[1..] == contents[1..] + [last];
      PrintContentsSnoc(contents[1..], last, hexControls);
      var first := " \"" + EscapeFor(contents[0], hexControls) + "\"";
      ConcatAssociative(first, PrintContents(contents[1..], hexControls), " \"" + EscapeFor(last, hexControls) + "\"");
    }
  }

  method BuildPasteInput(clipboard: string, anchorLine: nat, anchorHash: string) returns (opsInput: string)
    ensures opsInput == PasteText(clipboard, anchorLine, anchorHash)
  {
    hide Escaped;
    opsInput := "+ " + (Decimal(anchorLine) + ":" + anchorHash);
    var head := opsInput;
    var lines := SplitLines(clipboard);
    for i := 0 to |lines|
      invariant opsInput == head + PrintContents(lines[..i], true)
    {
      var escaped := PasteEscapeContent(lines[i]);
      PrintContentsSnoc(lines[..i], lines[i], true);
      assert lines[..i + 1] == lines[..i] + [lines[i]];
      ConcatAssociative(head, PrintContents(lines[..i], true), " \"" + escaped + "\"");
      opsInput := opsInput + (" \"" + escaped + "\"");
    }
    assert lines[..|lines|] == lines;
    opsInput := opsInput + "\n";
  }

  lemma PasteTextParts(anchor: string, contents: string)
    ensures "+ " + anchor + contents + "\n" == ['+'] + ([' '] + (anchor + ("" + contents + "\n")))
  {
  }

  lemma {:induction false} LexedPaste(op: EditOp)
    requires op.indent == None && AllNewlineFree(op.contents)
    requires op.locator.Hashline? && WellFormed(op.locator)
    ensures Lexed("+ " + op.locator.Print() + PrintContents(op.contents, true) + "\n")
         == More(Plus, More(Unquoted(op.locator.Print()), Follow(BodyTokens(op, true), Done)))
  {
    var anchor := op.locator.Print();
    var body := "" + PrintContents(op.contents, true) + "\n";
    assert Lexed("\n") == Done by {
      LexedSpace('\n', "");
      LexedNothing();
      assert ['\n'] + "" == "\n";
    }
    LexedPunct('+', Plus, [' '] + (anchor + body));
    hide Lexed;
    hide Follow;
    LexedBody(op, true, "\n");
    LexedSpace(' ', anchor + body);
    LexedLocator(op.locator, body);
    FollowOne(Unquoted(anchor), Follow(BodyTokens(op, true), Done));
    PasteTextParts(anchor, PrintContents(op.contents, true));
  }

  lemma {:induction false} ParsePasteTokens(op: EditOp, body: Stream)
    requires op.operation == InsertOp && op.locator.Hashline? && Parse(op.locator.Print()) == Ok(op.locator)
    requires TakeBody(op.operation, op.locator, body) == Ok((op, Done))
    ensures ParseOps(More(Plus, More(Unquoted(op.locator.Print()), body))) == Ok([op])
  {
    hide Parse;
    hide TakeBody;
    assert ParseOps(Done) == Ok([]);
    assert [op] + [] == [op];
  }

  /** For any clipboard text, the generated operation text parses to one insertion of the clipboard's lines. */
  lemma {:induction false} PasteParses(clipboard: string, line: nat, hash: string)
    requires WellFormed(Hashline(line, hash))
    ensures ParseOps(Lexed(PasteText(clipboard, line, hash))) == Ok([PasteOp(clipboard, line, hash)])
  {
    var op := PasteOp(clipboard, line, hash);
    SplitNewlineFree(clipboard);
    LexedPaste(op);
    TakePrintedBody(op, true, Done);
    PrintParse(op.locator);
    hide *;
    ParsePasteTokens(op, Follow(BodyTokens(op, true), Done));
  }

  /** The anchor of a paste is the virtual line, or an existing line with the right hash. */
  predicate GoodPasteAnchor(line: nat, hash: string, t: Target) {
    (line == 0 && hash == "00") || (0 < line <= |t.lines| && (hash == "00" || t.lineHash(t.lines[line - 1]) == hash))
  }

  /** The first `n` lines with the contents spliced in after line `line`. */
  function Spliced(original: seq<Line>, line: nat, contents: seq<Line>, n: nat): seq<Line>
    requires n <= |original|
  {
    if n < line then original[..n] else original[..line] + contents + original[line..n]
  }

  lemma SplicedStep(original: seq<Line>, line: nat, contents: seq<Line>, n: nat)
    requires line <= |original| && n <= |original|
    ensures n == 0 ==> Spliced(original, line, contents, n) == if line == 0 then contents else []
    ensures n > 0 ==>
              Spliced(original, line, contents, n)
              == Spliced(original, line, contents, n - 1) + ([original[n - 1]] + if n == line then contents else [])
  {
  }

  /** What a plan with one insertion does at each line. */
  lemma OneInsertLine(p: Plan, line: nat, contents: seq<Line>, n: nat, l: Line)
    requires p == AddInserts(EMPTY_PLAN, line, contents)
    ensures p.insertsAtStart == if line == 0 then contents else []
    ensures n > 0 ==> LineResult(p, n, l) == [l] + if n == line then contents else []
  {
    assert [] + contents == contents;
  }

  lemma {:induction false} OneInsert(p: Plan, original: seq<Line>, line: nat, contents: seq<Line>, n: nat)
    requires line <= |original| && n <= |original|
    requires p == AddInserts(EMPTY_PLAN, line, contents)
    ensures NewOf(PlanScript(p, original, n)) == Spliced(original, line, contents, n)
  {
    hide Spliced;
    hide PlanScript;
    hide NewOf;
    hide AddInserts;
    hide LineResult;
    PlanScriptNew(p, original, n);
    SplicedStep(original, line, contents, n);
    if n > 0 {
      OneInsert(p, original, line, contents, n - 1);
      OneInsertLine(p, line, contents, n, original[n - 1]);
    } else {
      OneInsertLine(p, line, contents, n, "");
    }
  }

  /** The plan of a paste: one insertion at the anchor, if the anchor is good. */
  lemma PastePlan(clipboard: string, line: nat, hash: string, t: Target)
    requires WellFormed(Hashline(line, hash))
    ensures var plan := PlanOf([PasteOp(clipboard, line, hash)], 1, t);
            && (plan.Ok? <==> GoodPasteAnchor(line, hash, t))
            && (plan.Ok? ==> plan.value == AddInserts(EMPTY_PLAN, line, SplitLines(clipboard)) && line <= |t.lines|)
  {
    hide AddInserts;
    hide SplitLines;
    var op := PasteOp(clipboard, line, hash);
    NoPlanYet([op], t);
    PlanNext([op], 0, t);
    hide PlanOf;
  }

  /** Pasting succeeds exactly at a good anchor, and puts the clipboard's lines right after it. */
  lemma PasteInserts(clipboard: string, line: nat, hash: string, t: Target)
    requires WellFormed(Hashline(line, hash))
    ensures var r := EditResult([PasteOp(clipboard, line, hash)], t);
            && (r.Ok? <==> GoodPasteAnchor(line, hash, t))
            && (r.Ok? ==> line <= |t.lines|
                          && r.value.newLines == t.lines[..line] + SplitLines(clipboard) + t.lines[line..])
  {
    hide PlanOf;
    hide GoodPasteAnchor;
    hide SplitLines;
    hide AddInserts;
    hide PlanScript;
    PastePlan(clipboard, line, hash, t);
    if GoodPasteAnchor(line, hash, t) {
      var p := AddInserts(EMPTY_PLAN, line, SplitLines(clipboard));
      OneInsert(p, t.lines, line, SplitLines(clipboard), |t.lines|);
      RowsProject(PlanScript(p, t.lines, |t.lines|));
    }
  }

  /**
   * Copy, then paste: the lines copied from one file appear, unchanged and in order, after the anchor line of
   * another.
   */
  lemma {:induction false} CopyPaste(source: seq<Line>, start: nat, end: nat, line: nat, hash: string, t: Target)
    requires 1 <= start <= end <= |source| && AllNewlineFree(source)
    requires WellFormed(Hashline(line, hash)) && GoodPasteAnchor(line, hash, t)
    ensures var clipboard := CopiedText(source, start, end);
            var parsed := ParseOps(Lexed(PasteText(clipboard, line, hash)));
            && parsed.Ok? && LocatorsFit(parsed.value)
            && EditResult(parsed.value, t).Ok?
            && line <= |t.lines|
            && EditResult(parsed.value, t).value.newLines
               == t.lines[..line] + source[start - 1..end] + t.lines[line..]
  {
    hide EditResult;
    hide ParseOps;
    hide Lexed;
    hide WellFormed;
    hide GoodPasteAnchor;
    hide JoinLines;
    hide SplitLines;
    var clipboard := CopiedText(source, start, end);
    PasteParses(clipboard, line, hash);
    SplitJoin(source[start - 1..end]);
    PasteInserts(clipboard, line, hash, t);
    PasteFits(clipboard, line, hash);
  }

  lemma PasteFits(clipboard: string, line: nat, hash: string)
    requires WellFormed(Hashline(line, hash))
    ensures LocatorsFit([PasteOp(clipboard, line, hash)])
  {
  }
}
