/** What the scanner and the parser of batch operations refuse, and with which error (crates/aifed/src/batch.rs). */
module BatchErrors {
  import opened Prelude
  import opened Decimals
  import opened Escapes
  import opened Scanners
  import opened Locators
  import opened FileText
  import opened EditPlans
  import opened BatchLanguage
  import opened BatchPrinting
  import opened BatchContents

  // ---------- tokens ----------

  predicate NoDigit(tail: string) { tail == "" || !IsDigit(tail[0]) }

  lemma DirectiveParts(sign: string, digits: string, tail: string)
    requires sign in ["", "+", "-"] && AllDigits(digits) && NoDigit(tail)
    requires digits == "" && sign == "" ==> tail == "" || (tail[0] != '+' && tail[0] != '-')
    ensures var st, token := Lexed("@" + sign + digits + tail), IndentToken(sign == "-", digits);
            st == if token.Err? then Fault(token.error) else More(token.value, Lexed(tail))
  {
    hide Lexed;
    hide DigitsValue;
    var s, start := "@" + sign + digits + tail, 1 + |sign|;
    assert s[start..] == digits + tail;
    assert start == if |s| > 1 && (s[1] == '+' || s[1] == '-') then 2 else 1;
    SpanLenExact(digits, tail, IsDigit);
    LexIndentParts(s, start, sign == "-");
    assert (digits + tail)[..|digits|] == digits;
    LexedToken(s);
    assert s[start + |digits|..] == tail;
  }

  /** A directive with or without a sign, for any number: too large a number is an error. */
  lemma DirectiveExactly(sign: string, n: nat, tail: string)
    requires sign in ["", "+", "-"] && NoDigit(tail)
    ensures Lexed("@" + sign + Decimal(n) + tail)
         == if n > 0x7FFF_FFFF then Fault(IndentOutOfRange)
            else More(Indent(if sign == "-" then -1 * n else n), Lexed(tail))
  {
    hide Lexed;
    hide Decimal;
    DirectiveParts(sign, Decimal(n), tail);
    DecimalValue(n);
  }

  /** A directive without a number is an error. */
  lemma DirectiveWithout(sign: string, tail: string)
    requires sign in ["", "+", "-"] && NoDigit(tail)
    requires sign == "" ==> tail == "" || (tail[0] != '+' && tail[0] != '-')
    ensures Lexed("@" + sign + tail) == Fault(IndentWithoutDigits)
  {
    hide Lexed;
    assert "@" + sign + "" + tail == "@" + sign + tail;
    DirectiveParts(sign, "", tail);
  }

  lemma {:induction false} QuoteUnclosed(text: string, rest: string)
    requires forall i :: 0 <= i < |text| ==> text[i] !in "\"\\\n"
    ensures ScanQuote(text) == Broken(UnterminatedString, |text|)
    ensures ScanQuote(text + "\n" + rest) == Broken(NewlineInString, |text|)
  {
    if text == "" {
      assert "" + "\n" + rest == ['\n'] + rest;
    } else {
      assert (text + "\n" + rest)[1..] == text[1..] + "\n" + rest;
      QuoteUnclosed(text[1..], rest);
    }
  }

  /** A quote must be closed, and on its own line. */
  lemma OpenQuote(text: string, rest: string)
    requires forall i :: 0 <= i < |text| ==> text[i] !in "\"\\\n"
    ensures Lexed("\"" + text) == Fault(UnterminatedString)
    ensures Lexed("\"" + text + "\n" + rest) == Fault(NewlineInString)
  {
    hide Lexed;
    hide ScanQuote;
    QuoteUnclosed(text, rest);
    var s, t := "\"" + text, "\"" + text + "\n" + rest;
    assert s[1..] == text && t[1..] == text + "\n" + rest;
    LexedToken(s);
    LexedToken(t);
  }

  /** A character ends a word exactly if it is white space, a bracket, a comma or a quote. */
  lemma WordEndsExactly(c: char)
    ensures Lexed("a" + [c] + "b") == More(Unquoted("a" + [c] + "b"), Done)
            <==> c !in [' ', '\t', '\n', '\U{c}', '\r', '[', ']', ',', '"']
  {
    hide Lexed;
    hide LexOne;
    var s, rest := "a" + [c] + "b", [c] + "b";
    assert s == "a" + rest && s[0] == 'a';
    if IsWordChar(c) {
      LexedRun(s);
    } else {
      FirstWord(rest);
    }
  }

  // ---------- contents ----------

  /** What a raw content stands for: its escapes decoded, in one line. */
  lemma ContentDecodes(raw: string)
    ensures var text := Decode(raw, true);
            DecodeContent(raw)
            == if text.None? then Err(InvalidEscape)
               else if '\n' in text.value then Err(NewlineInContent) else Ok(text.value)
  {
    NormalizePreservesMeaning(raw);
  }

  // ---------- operations ----------

  /** How the text of an operation with any of these parts is scanned. */
  lemma {:induction false} LexedParts(op: EditOp, tail: string)
    requires (op.locator.Hashline? || op.locator.SingleLine?) && WellFormed(op.locator)
    requires IndentFits(op.indent) && AllNewlineFree(op.contents) && Separated(tail)
    ensures Lexed(PrintOp(op) + tail)
         == More(OperatorToken(op.operation),
                 More(Unquoted(op.locator.Print()), Follow(BodyTokens(op, false), Lexed(tail))))
  {
    hide Lexed;
    hide Follow;
    hide BodyTokens;
    hide PrintContents;
    hide PrintIndent;
    hide OperationStr;
    hide WellFormed;
    hide Word;
    var body := PrintIndent(op.indent) + PrintContents(op.contents, false) + tail;
    OpText(OperationStr(op.operation), op.locator.Print(), PrintIndent(op.indent), PrintContents(op.contents, false),
           tail);
    LexedOperator(op.operation, op.locator.Print() + body);
    LexedBody(op, false, tail);
    SeparatedEnds(body);
    PrintedWord(op.locator);
    LexedWord(op.locator.Print(), body);
  }

  lemma PrintedWord(l: Locator)
    requires (l.Hashline? || l.SingleLine?) && WellFormed(l)
    ensures Word(l.Print())
  {
    match l
    case Hashline(n, h) => HashlineWord(n, h);
    case SingleLine(n) =>
      var d := Decimal(n);
      forall i | 0 <= i < |d| ensures IsWordChar(d[i]) {
        assert IsDigit(d[i]);
      }
  }

  /** Why an operation at one line is refused. */
  function Refusal(op: EditOp): Option<ParseError> {
    if op.locator.SingleLine? then Some(HashRequired)
    else if op.operation == DeleteOp && op.indent.Some? then Some(IndentOnDelete)
    else if op.operation != DeleteOp && op.contents == [] then Some(ContentRequired)
    else if op.operation == ReplaceOp && |op.contents| > 1 then Some(OneLineOnly)
    else None
  }

  lemma {:induction false} TakenParts(op: EditOp, st: Stream)
    requires op.locator.Hashline? && AllNewlineFree(op.contents) && AtOperator(st)
    ensures TakeBody(op.operation, op.locator, Follow(BodyTokens(op, false), st))
         == if Refusal(op).Some? then Err(Refusal(op).value) else Ok((op, st))
  {
    hide ParseContents;
    hide TakeContent;
    var contents := Follow(ContentTokens(op.contents, false), st);
    var body := Follow(BodyTokens(op, false), st);
    FollowConcat(IndentTokens(op.indent), ContentTokens(op.contents, false), st);
    assert contents.More? ==> !contents.token.Indent?;
    assert TakeIndent(body) == (op.indent, contents);
    TakePrintedContent(op.contents, false, st);
    ParsePrintedContents(op.contents, false);
  }

  /**
   * The printed text of any operation at one line, in whatever state: it parses to the operation, and parsing goes on
   * behind it, unless the line has no hash, a deletion has a directive, an insertion or a replacement has no content,
   * or a replacement has more than one line.
   */
  lemma {:induction false} PrintedExactly(op: EditOp, tail: string)
    requires (op.locator.Hashline? || op.locator.SingleLine?) && WellFormed(op.locator)
    requires IndentFits(op.indent) && AllNewlineFree(op.contents) && Separated(tail) && AtOperator(Lexed(tail))
    ensures ParseOps(Lexed(PrintOp(op) + tail))
         == if Refusal(op).Some? then Err(Refusal(op).value) else PrependOps([op], ParseOps(Lexed(tail)))
  {
    hide Lexed;
    hide Follow;
    hide TakeBody;
    hide BodyTokens;
    hide Parse;
    hide WellFormed;
    hide PrintOp;
    hide PrependOps;
    var st, rest := Lexed(PrintOp(op) + tail), Follow(BodyTokens(op, false), Lexed(tail));
    LexedParts(op, tail);
    PrintParse(op.locator);
    if op.locator.Hashline? {
      TakenParts(op, Lexed(tail));
    }
    assert TakeLocator(More(Unquoted(op.locator.Print()), rest)) == Ok((op.locator, rest));
    ParseOpsStep(st);
  }

  /** A second directive is an error, after a deletion already the first. */
  lemma SecondDirective(op: Operation, l: Locator, n: int, m: int, st: Stream)
    requires l.Hashline?
    ensures TakeBody(op, l, More(Indent(n), More(Indent(m), st)))
         == Err(if op == DeleteOp then IndentOnDelete else SecondIndent)
  {
  }

  /** Text that does not begin with an operator, and an operator with nothing or no locator behind it. */
  lemma {:induction false} NoOperation(op: Operation, word: string, tail: string)
    requires BareWord(word) && Separated(tail)
    ensures ParseOps(Lexed(word + tail)) == Err(ExpectedOperation)
    ensures ParseOps(Lexed(OperationStr(op))) == Err(ExpectedLocator)
    ensures Parse(word).Err? ==>
              ParseOps(Lexed(OperationStr(op) + " " + word + tail)) == Err(BadLocator(Parse(word).error))
  {
    hide Lexed;
    hide Parse;
    hide BareWord;
    LexedBare(word, tail);
    ParseOpsStep(Lexed(word + tail));
    LexedNothing();
    LexedOperator(op, "");
    LexedPunct(OperationStr(op)[0], OperatorToken(op), "");
    assert OperationStr(op) + "" == OperationStr(op);
    ParseOpsStep(Lexed(OperationStr(op)));
    LexedOperator(op, word + tail);
    assert OperationStr(op) + " " + word + tail == OperationStr(op) + ([' '] + (word + tail));
    ParseOpsStep(Lexed(OperationStr(op) + " " + word + tail));
  }
}
