/**
 * Contents of an operation as people write them (crates/aifed/src/batch.rs): bare words, quoted texts, and both mixed.
 */
module BatchContents {
  import opened Prelude
  import opened Escapes
  import opened Scanners
  import opened Locators
  import opened FileText
  import opened EditPlans
  import opened BatchLanguage
  import opened BatchPrinting

  /** A piece of content: a word written as it is, or a text written in quotes. */
  datatype Piece = Bare(text: Line) | InQuotes(text: Line)

  /** No white space, bracket, comma, quote or backslash. */
  predicate BareChar(c: char) { c !in " \t\n\U{c}\r[],\"\\" }

  /** Such characters, the first of which starts neither an operator nor a directive nor a comment. */
  predicate BareWord(w: string) {
    w != "" && w[0] !in "+-=@#" && forall i :: 0 <= i < |w| ==> BareChar(w[i])
  }

  predicate PieceFits(p: Piece) { match p case Bare(w) => BareWord(w) case InQuotes(t) => '\n' !in t }

  ghost predicate AllFit(ps: seq<Piece>) { forall i :: 0 <= i < |ps| ==> PieceFits(ps[i]) }

  /** The pieces as written, each after a space. */
  function PiecesText(ps: seq<Piece>): string {
    if ps == [] then ""
    else
      (match ps[0] case Bare(w) => " " + w case InQuotes(t) => " \"" + EscapeFor(t, false) + "\"") + PiecesText(ps[1..])
  }

  /** The texts of the pieces with a space between each two. */
  function Spaced(ps: seq<Piece>): Line {
    if ps == [] then "" else if |ps| == 1 then ps[0].text else ps[0].text + " " + Spaced(ps[1..])
  }

  // ---------- scanning ----------

  function PieceToken(p: Piece): Token {
    match p case Bare(w) => Unquoted(w) case InQuotes(t) => Quoted(Escaped(t, false))
  }

  function PieceTokens(ps: seq<Piece>): (r: seq<Token>)
    ensures |r| == |ps| && forall i :: 0 <= i < |ps| ==> r[i] == PieceToken(ps[i])
  {
    if ps == [] then [] else [PieceToken(ps[0])] + PieceTokens(ps[1..])
  }

  lemma LexedBare(w: string, tail: string)
    requires BareWord(w) && Separated(tail)
    ensures Lexed(w + tail) == More(Unquoted(w), Lexed(tail))
  {
    hide Lexed;
    var s := w + tail;
    assert s[0] == w[0] && BareChar(w[0]);
    SeparatedEnds(tail);
    forall i | 0 <= i < |w| ensures IsWordChar(w[i]) {
      assert BareChar(w[i]);
    }
    SpanLenExact(w, tail, IsWordChar);
    LexedToken(s);
    assert s[..|w|] == w && s[|w|..] == tail;
  }

  lemma BareText(w: string, rest: string, tail: string)
    ensures " " + w + rest + tail == [' '] + (w + (rest + tail))
  {
  }

  lemma {:induction false} LexedPieces(ps: seq<Piece>, tail: string)
    requires AllFit(ps) && Separated(tail)
    ensures Separated(PiecesText(ps) + tail)
    ensures Lexed(PiecesText(ps) + tail) == Follow(PieceTokens(ps), Lexed(tail))
  {
    hide Lexed;
    hide Escaped;
    if ps == [] {
      assert PiecesText(ps) + tail == tail;
    } else {
      var rest := PiecesText(ps[1..]);
      assert PieceFits(ps[0]);
      forall i | 0 <= i < |ps| - 1 ensures PieceFits(ps[1..][i]) {
        assert ps[1..][i] == ps[i + 1];
      }
      LexedPieces(ps[1..], tail);
      assert PieceTokens(ps)[1..] == PieceTokens(ps[1..]);
      match ps[0]
      case Bare(w) =>
        BareText(w, rest, tail);
        LexedSpace(' ', w + (rest + tail));
        LexedBare(w, rest + tail);
      case InQuotes(t) =>
        ContentText(Escaped(t, false), rest, tail);
        LexedSpace(' ', "\"" + Escaped(t, false) + "\"" + (rest + tail));
        LexedQuoted(t, false, rest + tail);
    }
  }

  // ---------- decoding ----------

  lemma DecodedPiece(p: Piece)
    requires PieceFits(p)
    ensures DecodeContent(PieceToken(p).raw) == Ok(p.text)
  {
    hide Decode;
    hide Normalized;
    NormalizePreservesMeaning(PieceToken(p).raw);
    DecodeEscaped(p.text, false);
    if p.Bare? {
      forall i | 0 <= i < |p.text| ensures PlainChar(p.text[i]) {
        assert BareChar(p.text[i]);
      }
      EscapedPlain(p.text);
    }
  }

  function TextsOf(ps: seq<Piece>): (r: seq<Line>)
    ensures |r| == |ps| && forall i :: 0 <= i < |ps| ==> r[i] == ps[i].text
  {
    if ps == [] then [] else [ps[0].text] + TextsOf(ps[1..])
  }

  lemma {:induction false} DecodedPieces(ps: seq<Piece>, raws: seq<string>)
    requires AllFit(ps) && |raws| == |ps| && forall i :: 0 <= i < |ps| ==> raws[i] == PieceToken(ps[i]).raw
    ensures DecodeAll(raws) == Ok(TextsOf(ps))
  {
    hide DecodeContent;
    if ps != [] {
      assert PieceFits(ps[0]);
      DecodedPiece(ps[0]);
      forall i | 0 <= i < |ps| - 1 ensures PieceFits(ps[1..][i]) && ps[1..][i] == ps[i + 1] {
        assert PieceFits(ps[i + 1]);
      }
      DecodedPieces(ps[1..], raws[1..]);
    }
  }

  lemma {:induction false} JoinedPieces(ps: seq<Piece>)
    requires AllFit(ps)
    ensures JoinWithSpace(TextsOf(ps)) == Spaced(ps) && NewlineFree(Spaced(ps))
  {
    if ps != [] {
      assert PieceFits(ps[0]);
      forall i | 0 <= i < |ps[0].text| ensures ps[0].text[i] != '\n' {
        assert ps[0].Bare? ==> BareChar(ps[0].text[i]);
      }
      forall i | 0 <= i < |ps| - 1 ensures PieceFits(ps[1..][i]) {
        assert ps[1..][i] == ps[i + 1];
      }
      JoinedPieces(ps[1..]);
      assert TextsOf(ps)[1..] == TextsOf(ps[1..]);
    }
  }

  /** One piece, or several of which one is bare: they make one line. */
  ghost predicate OneLine(ps: seq<Piece>) { |ps| == 1 || exists i :: 0 <= i < |ps| && ps[i].Bare? }

  lemma ParsedPieces(ps: seq<Piece>)
    requires AllFit(ps) && OneLine(ps)
    ensures ParseContents(PieceTokens(ps)) == Ok([Spaced(ps)])
  {
    hide DecodeAll;
    hide JoinWithSpace;
    hide Spaced;
    hide AllFit;
    hide TextsOf;
    var tokens := PieceTokens(ps);
    DecodedPieces(ps, Raws(tokens));
    JoinedPieces(ps);
    if |ps| > 1 {
      var i :| 0 <= i < |ps| && ps[i].Bare?;
      assert tokens[i].Unquoted?;
    }
  }

  // ---------- parsing ----------

  lemma {:induction false} TakePieces(ps: seq<Piece>, st: Stream)
    requires AtOperator(st)
    ensures TakeContent(Follow(PieceTokens(ps), st)) == Ok((PieceTokens(ps), st))
  {
    if ps != [] {
      TakePieces(ps[1..], st);
      var tokens := PieceTokens(ps);
      assert tokens[1..] == PieceTokens(ps[1..]);
      assert tokens == [tokens[0]] + tokens[1..];
    }
  }

  lemma TakePiecesBody(op: EditOp, ps: seq<Piece>, st: Stream)
    requires op.operation != DeleteOp && AllFit(ps) && OneLine(ps) && op.contents == [Spaced(ps)] && AtOperator(st)
    ensures TakeBody(op.operation, op.locator, Follow(IndentTokens(op.indent) + PieceTokens(ps), st)) == Ok((op, st))
  {
    hide ParseContents;
    hide TakeContent;
    hide Spaced;
    var contents := Follow(PieceTokens(ps), st);
    FollowConcat(IndentTokens(op.indent), PieceTokens(ps), st);
    assert contents.More? ==> !contents.token.Indent?;
    assert TakeIndent(Follow(IndentTokens(op.indent) + PieceTokens(ps), st)) == (op.indent, contents);
    TakePieces(ps, st);
    ParsedPieces(ps);
  }

  /** The text of an operation with its content in pieces. */
  function WrittenOp(op: EditOp, ps: seq<Piece>): string {
    OperationStr(op.operation) + " " + op.locator.Print() + PrintIndent(op.indent) + PiecesText(ps)
  }

  lemma LexedPiecesBody(indent: Option<int>, ps: seq<Piece>, tail: string)
    requires IndentFits(indent) && AllFit(ps) && Separated(tail)
    ensures var body := PrintIndent(indent) + (PiecesText(ps) + tail);
            Separated(body) && Lexed(body) == Follow(IndentTokens(indent) + PieceTokens(ps), Lexed(tail))
  {
    hide Lexed;
    hide Follow;
    hide PrintInt;
    hide PiecesText;
    var contents := PiecesText(ps) + tail;
    LexedPieces(ps, tail);
    FollowConcat(IndentTokens(indent), PieceTokens(ps), Lexed(tail));
    if indent.Some? {
      LexedIndent(indent.value, contents);
      FollowOne(Indent(indent.value), Lexed(contents));
    } else {
      assert "" + contents == contents;
      FollowNone(Lexed(contents));
    }
  }

  lemma WrittenText(op: EditOp, ps: seq<Piece>, tail: string)
    ensures WrittenOp(op, ps) + tail
         == OperationStr(op.operation)
            + ([' '] + (op.locator.Print() + (PrintIndent(op.indent) + (PiecesText(ps) + tail))))
  {
    OpText(OperationStr(op.operation), op.locator.Print(), PrintIndent(op.indent), PiecesText(ps), tail);
    ConcatAssociative(PrintIndent(op.indent), PiecesText(ps), tail);
  }

  /**
   * Content of bare words, or of bare words and quoted texts mixed, is one line: the texts that are meant, with single
   * spaces between them. Parsing goes on after it.
   */
  lemma {:induction false} MixedContent(op: EditOp, ps: seq<Piece>, tail: string)
    requires op.operation != DeleteOp && op.locator.Hashline? && WellFormed(op.locator) && IndentFits(op.indent)
    requires AllFit(ps) && OneLine(ps) && op.contents == [Spaced(ps)]
    requires Separated(tail) && AtOperator(Lexed(tail))
    ensures ParseOps(Lexed(WrittenOp(op, ps) + tail)) == PrependOps([op], ParseOps(Lexed(tail)))
  {
    hide Lexed;
    hide Follow;
    hide TakeBody;
    hide TakeLocator;
    hide PiecesText;
    hide PrintIndent;
    hide OperationStr;
    hide WrittenOp;
    hide WellFormed;
    hide Spaced;
    hide PrependOps;
    var body := PrintIndent(op.indent) + (PiecesText(ps) + tail);
    var rest := Follow(IndentTokens(op.indent) + PieceTokens(ps), Lexed(tail));
    WrittenText(op, ps, tail);
    LexedOperator(op.operation, op.locator.Print() + body);
    LexedPiecesBody(op.indent, ps, tail);
    SeparatedEnds(body);
    LexedLocator(op.locator, body);
    TakePrintedLocator(op.operation, op.locator, rest);
    TakePiecesBody(op, ps, Lexed(tail));
    var st := Lexed(WrittenOp(op, ps) + tail);
    assert st == More(OperatorToken(op.operation), Follow(LocatorTokens(op.locator), rest));
    assert ParseOp(st) == Ok((op, Lexed(tail)));
    ParseOpsStep(st);
  }

  // ---------- a line of words ----------

  /** Words with single spaces between them. */
  ghost predicate WordLine(line: Line) {
    && line != "" && line[0] != ' ' && line[|line| - 1] != ' '
    && (forall i :: 0 <= i < |line| ==> line[i] == ' ' || BareChar(line[i]))
    && (forall i :: 0 < i < |line| && line[i - 1] == ' ' ==> line[i] != ' ' && line[i] !in "+-=@#")
    && line[0] !in "+-=@#"
  }

  /** The first word of a line, and the line after it. */
  lemma FirstOfLine(line: Line, k: nat)
    requires WordLine(line) && k <= |line|
    requires (forall i :: 0 <= i < k ==> line[i] != ' ') && (k < |line| ==> line[k] == ' ')
    ensures BareWord(line[..k])
    ensures k < |line| ==> WordLine(line[k + 1..]) && line == line[..k] + " " + line[k + 1..]
  {
    hide BareChar;
    if k < |line| {
      var rest := line[k + 1..];
      assert line[k + 1] != ' ';
      assert forall i :: 0 <= i < |rest| ==> rest[i] == line[k + 1 + i];
    }
  }

  lemma {:induction false} WordsOf(line: Line) returns (ps: seq<Piece>)
    requires WordLine(line)
    ensures ps != [] && AllFit(ps) && Spaced(ps) == line && PiecesText(ps) == " " + line
    ensures forall i :: 0 <= i < |ps| ==> ps[i].Bare?
    decreases |line|
  {
    hide WordLine;
    hide BareWord;
    var k := IndexOfChar(line, ' ');
    FirstOfLine(line, k);
    var word := line[..k];
    if k == |line| {
      ps := [Bare(line)];
      assert word == line;
      assert PiecesText([]) == "" && " " + line + "" == " " + line;
    } else {
      var later := WordsOf(line[k + 1..]);
      ps := [Bare(word)] + later;
      PiecesCons(word, later, line[k + 1..]);
    }
  }

  lemma PiecesCons(word: string, later: seq<Piece>, line: Line)
    requires BareWord(word) && AllFit(later) && later != [] && Spaced(later) == line && PiecesText(later) == " " + line
    ensures var ps := [Bare(word)] + later;
            AllFit(ps) && Spaced(ps) == word + " " + line && PiecesText(ps) == " " + (word + " " + line)
  {
    hide BareWord;
    assert ([Bare(word)] + later)[1..] == later;
    assert PieceFits(Bare(word));
    assert " " + word + (" " + line) == " " + (word + " " + line);
  }

  /** An insertion of an unquoted line of words inserts exactly that line. */
  lemma UnquotedLine(l: Locator, line: Line)
    requires l.Hashline? && WellFormed(l) && WordLine(line)
    ensures ParseOps(Lexed("+ " + l.Print() + " " + line)) == Ok([EditOp(InsertOp, l, [line], None)])
  {
    hide Lexed;
    hide WordLine;
    hide WellFormed;
    hide PiecesText;
    hide ParseOps;
    hide WrittenOp;
    hide Spaced;
    hide AllFit;
    var op := EditOp(InsertOp, l, [line], None);
    var ps := WordsOf(line);
    assert OneLine(ps) by {
      assert ps[0].Bare?;
    }
    LexedNothing();
    MixedContent(op, ps, "");
    UnquotedText(op, ps, line);
    NothingParsed();
    PrependOpsTwice([op], [], Ok([]));
    assert [op] + [] == [op];
  }

  lemma UnquotedText(op: EditOp, ps: seq<Piece>, line: Line)
    requires op.operation == InsertOp && op.indent.None? && PiecesText(ps) == " " + line
    ensures WrittenOp(op, ps) + "" == "+ " + op.locator.Print() + " " + line
  {
    hide PiecesText;
    var text := op.locator.Print();
    assert "+" + " " + text + "" + (" " + line) + "" == "+ " + text + " " + line;
  }

  lemma NothingParsed()
    ensures ParseOps(Done) == Ok([])
  {
  }

  // ---------- what separates words ----------

  /** A character between two words separates them without a trace exactly if it is one of five. */
  lemma SeparatorsExactly(c: char)
    ensures Lexed("a" + [c] + "b") == More(Unquoted("a"), More(Unquoted("b"), Done))
            <==> c in [' ', '\t', '\n', '\U{c}', '\r']
  {
    hide Lexed;
    hide LexOne;
    var s, rest := "a" + [c] + "b", [c] + "b";
    LexedNothing();
    assert s == "a" + rest && s[0] == 'a' && "b" + "" == "b";
    if IsWordChar(c) {
      LexedRun(s);
    } else {
      LexedRun("b");
      FirstWord(rest);
      if IsSpace(c) {
        LexedSpace(c, "b");
      } else {
        NoWord(c);
      }
    }
  }

  lemma LexedRun(w: string)
    requires w != "" && 'a' <= w[0] <= 'b' && forall i :: 0 <= i < |w| ==> IsWordChar(w[i])
    ensures Lexed(w) == More(Unquoted(w), Done)
  {
    hide Lexed;
    LexedNothing();
    SpanLenExact(w, "", IsWordChar);
    assert w + "" == w && w[..|w|] == w && w[|w|..] == "";
    LexedToken(w);
  }

  lemma FirstWord(rest: string)
    requires rest != "" && !IsWordChar(rest[0])
    ensures Lexed("a" + rest) == More(Unquoted("a"), Lexed(rest))
  {
    hide Lexed;
    var s := "a" + rest;
    SpanLenExact("a", rest, IsWordChar);
    LexedToken(s);
    assert s[..1] == "a" && s[1..] == rest;
  }

  /** A bracket, a comma or a quote is a token of its own or an error. */
  lemma NoWord(c: char)
    requires c in "[],\""
    ensures Lexed([c] + "b") != More(Unquoted("b"), Done)
  {
    hide Lexed;
    LexedToken([c] + "b");
  }
}
