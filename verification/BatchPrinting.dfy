/** Printing edit operations, and what parsing the printed text returns (crates/aifed/src/batch.rs). */
module BatchPrinting {
  import opened Prelude
  import opened Decimals
  import opened Escapes
  import opened Scanners
  import opened Locators
  import opened FileText
  import opened EditPlans
  import opened BatchLanguage

  // ---------- the printer ----------

  function PrintInt(n: int): string { if n < 0 then "-" + Decimal(-n) else Decimal(n) }

  function OperationStr(op: Operation): string {
    match op case InsertOp => "+" case DeleteOp => "-" case ReplaceOp => "="
  }

  /** What stands between the quotes: the operation printer's replacements or paste's. */
  function EscapeFor(content: string, hexControls: bool): (r: string)
    ensures r == Escaped(content, hexControls)
  {
    if hexControls then Escaped(content, true)
    else
      EscapeContentIsEscaped(content);
      EscapeContent(content)
  }

  /** Quoted contents, each after a space; `hexControls` is paste's variant. */
  function PrintContents(contents: seq<Line>, hexControls: bool): string {
    if contents == [] then ""
    else " \"" + EscapeFor(contents[0], hexControls) + "\"" + PrintContents(contents[1..], hexControls)
  }

  function PrintIndent(indent: Option<int>): string {
    match indent case None => "" case Some(n) => " @" + PrintInt(n)
  }

  /** The `Display` form of an operation. */
  function PrintOp(op: EditOp): string {
    OperationStr(op.operation) + " " + op.locator.Print() + PrintIndent(op.indent) + PrintContents(op.contents, false)
  }

  function PrintedOps(ops: seq<EditOp>): seq<string> {
    if ops == [] then [] else [PrintOp(ops[0])] + PrintedOps(ops[1..])
  }

  function PrintOps(ops: seq<EditOp>): string { JoinLines(PrintedOps(ops)) }

  // ---------- what can be printed, what can be parsed ----------

  predicate ContentsFit(op: EditOp) {
    && (forall i :: 0 <= i < |op.contents| ==> NewlineFree(op.contents[i]))
    && match op.operation
       case InsertOp => |op.contents| >= 1
       case ReplaceOp => |op.contents| == 1
       case DeleteOp => op.indent == None
  }

  predicate IndentFits(indent: Option<int>) { indent.Some? ==> -0x7FFF_FFFF <= indent.value <= 0x7FFF_FFFF }

  /** What the parser can return. */
  predicate Parsable(op: EditOp) {
    && (op.locator.Hashline? || op.locator.HashlineRange?)
    && WellFormed(op.locator) && ContentsFit(op) && IndentFits(op.indent)
  }

  /** Parsable operations whose printed locator is accepted after their operator: ranges are for deletions. */
  predicate Printable(op: EditOp) {
    Parsable(op) && (op.locator.HashlineRange? ==> op.operation == DeleteOp)
  }

  lemma {:induction false} DecodedNewlineFree(raws: seq<string>)
    ensures DecodeAll(raws).Ok? ==>
              |DecodeAll(raws).value| == |raws| && AllNewlineFree(DecodeAll(raws).value)
  {
    hide Decode;
    if raws != [] {
      DecodedNewlineFree(raws[1..]);
    }
  }

  lemma {:induction false} ParsedContents(tokens: seq<Token>)
    requires AllContent(tokens)
    ensures ParseContents(tokens).Ok? ==> AllNewlineFree(ParseContents(tokens).value)
  {
    DecodedNewlineFree(Raws(tokens));
  }

  /** Every indent directive in a token stream is in range. */
  lemma {:induction false} LexedIndents(t: string)
    requires t != "" && !IsSpace(t[0]) && t[0] != '#'
    ensures LexOne(t).Tok? && LexOne(t).token.Indent? ==> IndentFits(Some(LexOne(t).token.n))
  {
  }

  predicate IndentsFit(st: Stream) {
    match st case More(t, rest) => (t.Indent? ==> IndentFits(Some(t.n))) && IndentsFit(rest) case _ => true
  }

  lemma {:induction false} LexedIndentsFit(s: string)
    ensures IndentsFit(Lexed(s))
    decreases |s|
  {
    var t := Visible(s);
    if t != "" {
      LexedIndents(t);
      hide LexOne;
      if LexOne(t).Tok? {
        LexedIndentsFit(t[LexOne(t).len..]);
      }
    }
  }

  lemma {:induction false} TakeContentFits(st: Stream)
    requires IndentsFit(st)
    ensures TakeContent(st).Ok? ==> IndentsFit(TakeContent(st).value.1)
  {
    if st.More? && IsContent(st.token) {
      TakeContentFits(st.rest);
    }
  }

  lemma TakeBodyParsable(op: Operation, locator: Locator, st: Stream)
    requires IndentsFit(st) && WellFormed(locator) && (locator.Hashline? || locator.HashlineRange?)
    ensures var r := TakeBody(op, locator, st); r.Ok? ==> Parsable(r.value.0) && IndentsFit(r.value.1)
  {
    hide ParseContents;
    var (indent, afterIndent) := TakeIndent(st);
    TakeContentFits(afterIndent);
    if TakeContent(afterIndent).Ok? {
      ParsedContents(TakeContent(afterIndent).value.0);
    }
  }

  lemma TakersFit(st: Stream, t: Token, e: ParseError)
    requires IndentsFit(st)
    ensures TakeLocatorText(st).Ok? ==> IndentsFit(TakeLocatorText(st).value.1)
    ensures TakeExactly(st, t, e).Ok? ==> IndentsFit(TakeExactly(st, t, e).value)
  {
  }

  lemma LocatorTextWellFormed(text: string, rest: Stream)
    ensures ParseLocatorText(text, rest).Ok? ==> WellFormed(ParseLocatorText(text, rest).value.0)
  {
    ParseWellFormed(text);
  }

  lemma TakeRangeWellFormed(st: Stream)
    requires IndentsFit(st)
    ensures TakeRange(st).Ok? ==> WellFormed(TakeRange(st).value.0) && IndentsFit(TakeRange(st).value.1)
  {
    hide IndentsFit;
    hide WellFormed;
    hide ParseLocatorText;
    if TakeRange(st).Ok? {
      TakersFit(st, Comma, ExpectedComma);
      var (start, st1) := TakeLocatorText(st).value;
      TakersFit(st1, Comma, ExpectedComma);
      var st2 := TakeExactly(st1, Comma, ExpectedComma).value;
      TakersFit(st2, Comma, ExpectedComma);
      var (end, st3) := TakeLocatorText(st2).value;
      TakersFit(st3, RangeEnd, ExpectedRangeEnd);
      LocatorTextWellFormed("[" + start + "," + end + "]", TakeExactly(st3, RangeEnd, ExpectedRangeEnd).value);
    }
  }

  lemma TakeLocatorsWellFormed(st: Stream)
    requires IndentsFit(st)
    ensures TakeLocator(st).Ok? ==> WellFormed(TakeLocator(st).value.0) && IndentsFit(TakeLocator(st).value.1)
    ensures TakeDeleteLocator(st).Ok? ==>
              WellFormed(TakeDeleteLocator(st).value.0) && IndentsFit(TakeDeleteLocator(st).value.1)
  {
    hide WellFormed;
    hide Parse;
    TakersFit(st, Comma, ExpectedComma);
    if TakeLocatorText(st).Ok? {
      LocatorTextWellFormed(TakeLocatorText(st).value.0, TakeLocatorText(st).value.1);
    }
    if st.More? {
      TakeRangeWellFormed(st.rest);
    }
    hide TakeRange;
  }

  lemma {:induction false} TakeOperandParsable(op: Operation, st: Stream)
    requires IndentsFit(st)
    ensures TakeOperand(op, st).Ok? ==> Parsable(TakeOperand(op, st).value.0) && IndentsFit(TakeOperand(op, st).value.1)
  {
    TakeLocatorsWellFormed(st);
    hide TakeLocator;
    hide TakeDeleteLocator;
    hide TakeBody;
    var r := if op == DeleteOp then TakeDeleteLocator(st) else TakeLocator(st);
    if r.Ok? && (r.value.0.Hashline? || r.value.0.HashlineRange?) {
      TakeBodyParsable(op, r.value.0, r.value.1);
    }
  }

  lemma {:induction false} ParseOpsParsable(st: Stream)
    requires IndentsFit(st)
    ensures ParseOps(st).Ok? ==> forall i :: 0 <= i < |ParseOps(st).value| ==> Parsable(ParseOps(st).value[i])
    decreases Len(st)
  {
    hide TakeOperand;
    if ParseOp(st).Ok? {
      TakeOperandParsable(TakeOperator(st).value.0, TakeOperator(st).value.1);
      ParseOpsParsable(ParseOp(st).value.1);
    }
  }

  /** Whatever text is parsed, the operations it yields have a line hash, legal contents and a legal directive. */
  lemma {:induction false} ParsedOpsParsable(input: string)
    ensures var r := ParseOps(Lexed(input)); r.Ok? ==> forall i :: 0 <= i < |r.value| ==> Parsable(r.value[i])
  {
    LexedIndentsFit(input);
    ParseOpsParsable(Lexed(input));
  }

  // ---------- the tokens of printed text ----------

  /** Tokens in front of a stream. */
  function Follow(tokens: seq<Token>, st: Stream): Stream {
    if tokens == [] then st else More(tokens[0], Follow(tokens[1..], st))
  }

  lemma {:induction false} FollowConcat(a: seq<Token>, b: seq<Token>, st: Stream)
    ensures Follow(a + b, st) == Follow(a, Follow(b, st))
  {
    if a == [] {
      assert a + b == b;
    } else {
      assert (a + b)[1..] == a[1..] + b;
      FollowConcat(a[1..], b, st);
    }
  }

  function OperatorToken(op: Operation): Token {
    match op case InsertOp => Plus case DeleteOp => Minus case ReplaceOp => Equals
  }

  function LocatorTokens(l: Locator): seq<Token>
    requires l.Hashline? || l.HashlineRange?
  {
    match l
    case Hashline(_, _) => [Unquoted(l.Print())]
    case HashlineRange(s, sh, e, eh) =>
      [RangeStart, Unquoted(Hashline(s, sh).Print()), Comma, Unquoted(Hashline(e, eh).Print()), RangeEnd]
  }

  function IndentTokens(indent: Option<int>): seq<Token> {
    match indent case None => [] case Some(n) => [Indent(n)]
  }

  function ContentTokens(contents: seq<Line>, hexControls: bool): (r: seq<Token>)
    ensures |r| == |contents|
    ensures forall i :: 0 <= i < |r| ==> r[i] == Quoted(Escaped(contents[i], hexControls))
  {
    if contents == [] then []
    else [Quoted(Escaped(contents[0], hexControls))] + ContentTokens(contents[1..], hexControls)
  }

  lemma LexedSpace(c: char, s: string)
    requires IsSpace(c)
    ensures Lexed([c] + s) == Lexed(s)
  {
    hide Lexed;
    LexedWhitespace(s);
    LexedWhitespace([c] + s);
    assert ([c] + s)[1..] == s;
    assert ([c] + s)[SpanLen([c] + s, IsSpace)..] == s[SpanLen(s, IsSpace)..];
  }

  lemma {:induction false} SpanLenExact(w: string, tail: string, p: char -> bool)
    requires forall i :: 0 <= i < |w| ==> p(w[i])
    requires tail == "" || !p(tail[0])
    ensures SpanLen(w + tail, p) == |w|
  {
    if w == "" {
      assert w + tail == tail;
    } else {
      assert (w + tail)[1..] == w[1..] + tail;
      SpanLenExact(w[1..], tail, p);
    }
  }

  /** An unquoted token that starts with a digit. */
  predicate Word(w: string) { w != "" && IsDigit(w[0]) && forall i :: 0 <= i < |w| ==> IsWordChar(w[i]) }

  lemma LexedWord(w: string, tail: string)
    requires Word(w)
    requires tail == "" || !IsWordChar(tail[0])
    ensures Lexed(w + tail) == More(Unquoted(w), Lexed(tail))
  {
    hide Lexed;
    var s := w + tail;
    assert s[0] == w[0];
    SpanLenExact(w, tail, IsWordChar);
    LexedToken(s);
    assert s[..|w|] == w && s[|w|..] == tail;
  }

  lemma LexedPunct(c: char, t: Token, tail: string)
    requires c in "+-=[]," && LexOne([c]) == Tok(t, 1)
    ensures Lexed([c] + tail) == More(t, Lexed(tail))
  {
    hide Lexed;
    LexedToken([c] + tail);
    assert ([c] + tail)[1..] == tail;
  }

  lemma {:induction false} QuoteCloses(s: string, hexControls: bool, tail: string)
    requires NewlineFree(s)
    ensures ScanQuote(Escaped(s, hexControls) + ("\"" + tail)) == Closed(|Escaped(s, hexControls)|)
  {
    hide ScanQuote;
    hide EscapeChar;
    var after := "\"" + tail;
    if s == "" {
      assert Escaped(s, hexControls) + after == after;
      QuoteEnds(tail);
    } else {
      var e, rest := EscapeChar(s[0], hexControls), Escaped(s[1..], hexControls);
      QuoteCloses(s[1..], hexControls, tail);
      assert s[0] in s;
      QuoteEscape(s[0], hexControls, rest + after);
      ConcatAssociative(e, rest, after);
    }
  }

  lemma QuoteEnds(tail: string)
    ensures ScanQuote("\"" + tail) == Closed(0)
  {
  }

  lemma QuotePair(c: char, rest: string)
    ensures ScanQuote(['\\', c] + rest) == AddLen(2, ScanQuote(rest))
  {
    assert (['\\', c] + rest)[2..] == rest;
  }

  /** The scanner steps over one escaped character. */
  lemma QuoteEscape(c: char, hexControls: bool, rest: string)
    requires c != '\n'
    ensures ScanQuote(EscapeChar(c, hexControls) + rest)
         == AddLen(|EscapeChar(c, hexControls)|, ScanQuote(rest))
  {
    hide ScanQuote;
    var e := EscapeChar(c, hexControls);
    if |e| == 1 {
      QuotePlain(c, rest);
    } else if |e| == 2 {
      QuotePair(e[1], rest);
      assert e == ['\\', e[1]];
    } else {
      QuoteHex(e, rest);
    }
  }

  lemma QuoteHex(e: string, rest: string)
    requires |e| == 4 && e[0] == '\\' && e[1] == 'x' && IsHex(e[2]) && IsHex(e[3])
    ensures ScanQuote(e + rest) == AddLen(4, ScanQuote(rest))
  {
    hide ScanQuote;
    assert e + rest == ['\\', 'x'] + ([e[2]] + ([e[3]] + rest));
    QuotePair('x', [e[2]] + ([e[3]] + rest));
    QuotePlain(e[2], [e[3]] + rest);
    QuotePlain(e[3], rest);
  }

  lemma QuotePlain(c: char, rest: string)
    requires c != '\\' && c != '"' && c != '\n'
    ensures ScanQuote([c] + rest) == AddLen(1, ScanQuote(rest))
  {
    assert ([c] + rest)[1..] == rest;
  }

  lemma LexedQuoted(s: string, hexControls: bool, tail: string)
    requires NewlineFree(s)
    ensures Lexed("\"" + Escaped(s, hexControls) + "\"" + tail)
         == More(Quoted(Escaped(s, hexControls)), Lexed(tail))
  {
    hide Lexed;
    hide Escaped;
    hide ScanQuote;
    var e := Escaped(s, hexControls);
    QuotedText(e, tail);
    QuoteCloses(s, hexControls, tail);
    LexedToken("\"" + e + "\"" + tail);
  }

  lemma QuotedText(e: string, tail: string)
    ensures var all := "\"" + e + "\"" + tail;
            all[1..] == e + ("\"" + tail) && all[1..1 + |e|] == e && all[|e| + 2..] == tail
  {
  }

  lemma ContentText(e: string, rest: string, tail: string)
    ensures " \"" + e + "\"" + rest + tail == [' '] + ("\"" + e + "\"" + (rest + tail))
  {
  }

  lemma {:induction false} LexedContents(contents: seq<Line>, hexControls: bool, tail: string)
    requires forall i :: 0 <= i < |contents| ==> NewlineFree(contents[i])
    ensures Lexed(PrintContents(contents, hexControls) + tail)
         == Follow(ContentTokens(contents, hexControls), Lexed(tail))
  {
    hide Lexed;
    hide Escaped;
    if contents == [] {
      assert PrintContents(contents, hexControls) + tail == tail;
    } else {
      var e, rest := Escaped(contents[0], hexControls), PrintContents(contents[1..], hexControls);
      var first := "\"" + e + "\"" + (rest + tail);
      ContentText(e, rest, tail);
      LexedSpace(' ', first);
      LexedQuoted(contents[0], hexControls, rest + tail);
      LexedContents(contents[1..], hexControls, tail);
      var tokens := ContentTokens(contents, hexControls);
      assert tokens[1..] == ContentTokens(contents[1..], hexControls);
    }
  }

  function Magnitude(n: int): nat { if n < 0 then -n else n }

  lemma LexIndentPrinted(n: int, tail: string)
    requires -I32_MAX <= n <= I32_MAX
    requires tail == "" || !IsDigit(tail[0])
    ensures LexIndent("@" + PrintInt(n) + tail) == Tok(Indent(n), 1 + |PrintInt(n)|)
  {
    hide LexIndent;
    hide Decimal;
    hide SpanLen;
    hide DigitsValue;
    var d := Decimal(Magnitude(n));
    var p := if n < 0 then "@-" else "@";
    var s := p + (d + tail);
    IndentText(n, tail);
    AfterPrefix(p, d, tail);
    SpanLenExact(d, tail, IsDigit);
    LexIndentParts(s, |p|, n < 0);
    DecimalValue(Magnitude(n));
  }

  lemma IndentText(n: int, tail: string)
    ensures "@" + PrintInt(n) + tail == (if n < 0 then "@-" else "@") + (Decimal(Magnitude(n)) + tail)
    ensures |PrintInt(n)| + 1 == |if n < 0 then "@-" else "@"| + |Decimal(Magnitude(n))|
  {
    hide Decimal;
  }

  lemma AfterPrefix(p: string, d: string, tail: string)
    requires d != ""
    ensures var s := p + (d + tail);
            s[|p|..] == d + tail && s[|p|] == d[0] && (d + tail)[..|d|] == d
  {
  }

  lemma {:induction false} LexedIndent(n: int, tail: string)
    requires -I32_MAX <= n <= I32_MAX
    requires tail == "" || !IsDigit(tail[0])
    ensures Lexed(" @" + PrintInt(n) + tail) == More(Indent(n), Lexed(tail))
  {
    hide Lexed;
    hide LexIndent;
    hide PrintInt;
    var s := "@" + PrintInt(n) + tail;
    assert " @" + PrintInt(n) + tail == [' '] + s;
    LexedSpace(' ', s);
    LexIndentPrinted(n, tail);
    LexedToken(s);
    assert s[1 + |PrintInt(n)|..] == tail;
  }

  lemma HashlineWord(line: nat, hash: string)
    requires CanonicalHash(hash)
    ensures Word(Hashline(line, hash).Print())
  {
    var d, w := Decimal(line), Hashline(line, hash).Print();
    forall i | 0 <= i < |w| ensures IsWordChar(w[i]) {
      if i < |d| {
        assert w[i] == d[i] && IsDigit(d[i]);
      } else if i > |d| {
        assert w[i] == hash[i - |d| - 1];
      }
    }
    assert w[0] == d[0] && IsDigit(d[0]);
  }

  lemma {:induction false} LexedRange(left: string, right: string, tail: string)
    requires Word(left) && Word(right)
    ensures Lexed("[" + left + "," + right + "]" + tail)
         == Follow([RangeStart, Unquoted(left), Comma, Unquoted(right), RangeEnd], Lexed(tail))
  {
    hide Lexed;
    hide Word;
    var t5 := "]" + tail;
    var t4 := right + t5;
    var t3 := "," + t4;
    var t2 := left + t3;
    LexedPunct('[', RangeStart, t2);
    LexedWord(left, t3);
    LexedPunct(',', Comma, t4);
    LexedWord(right, t5);
    LexedPunct(']', RangeEnd, tail);
    hide LexOne;
    hide Follow;
    RangeText(left, right, tail);
    FollowFive(RangeStart, Unquoted(left), Comma, Unquoted(right), RangeEnd, Lexed(tail));
  }

  lemma {:induction false} LexedLocator(l: Locator, tail: string)
    requires WellFormed(l) && (l.Hashline? || l.HashlineRange?)
    requires tail == "" || !IsWordChar(tail[0])
    ensures Lexed(l.Print() + tail) == Follow(LocatorTokens(l), Lexed(tail))
  {
    hide Lexed;
    match l
    case Hashline(n, h) =>
      HashlineWord(n, h);
      LexedWord(l.Print(), tail);
      FollowOne(Unquoted(l.Print()), Lexed(tail));
    case HashlineRange(s, sh, e, eh) =>
      HashlineWord(s, sh);
      HashlineWord(e, eh);
      LexedRange(Hashline(s, sh).Print(), Hashline(e, eh).Print(), tail);
      assert l.Print() == "[" + Hashline(s, sh).Print() + "," + Hashline(e, eh).Print() + "]";
  }

  lemma RangeText(left: string, right: string, tail: string)
    ensures "[" + left + "," + right + "]" + tail == "[" + (left + ("," + (right + ("]" + tail))))
  {
  }

  lemma {:induction false} FollowFive(a: Token, b: Token, c: Token, d: Token, e: Token, st: Stream)
    ensures Follow([a, b, c, d, e], st) == More(a, More(b, More(c, More(d, More(e, st)))))
  {
    FollowConcat([a], [b, c, d, e], st);
    FollowConcat([b], [c, d, e], st);
    FollowConcat([c], [d, e], st);
    FollowConcat([d], [e], st);
    assert [a, b, c, d, e] == [a] + [b, c, d, e];
    assert [b, c, d, e] == [b] + [c, d, e];
    assert [c, d, e] == [c] + [d, e];
    assert [d, e] == [d] + [e];
  }

  function BodyTokens(op: EditOp, hexControls: bool): seq<Token> {
    IndentTokens(op.indent) + ContentTokens(op.contents, hexControls)
  }

  function OpTokens(op: EditOp): seq<Token>
    requires op.locator.Hashline? || op.locator.HashlineRange?
  {
    [OperatorToken(op.operation)] + LocatorTokens(op.locator) + BodyTokens(op, false)
  }

  /** Text that starts with a space or a newline, or is empty: where a token can end. */
  predicate Separated(tail: string) { tail == "" || tail[0] == ' ' || tail[0] == '\n' }

  lemma {:induction false} LexedBody(op: EditOp, hexControls: bool, tail: string)
    requires IndentFits(op.indent) && AllNewlineFree(op.contents) && Separated(tail)
    ensures var body := PrintIndent(op.indent) + PrintContents(op.contents, hexControls) + tail;
            Separated(body) && Lexed(body) == Follow(BodyTokens(op, hexControls), Lexed(tail))
  {
    hide Lexed;
    hide Follow;
    hide ContentTokens;
    hide PrintInt;
    var contents := PrintContents(op.contents, hexControls) + tail;
    SeparatedContents(op.contents, hexControls, tail);
    hide PrintContents;
    LexedContents(op.contents, hexControls, tail);
    FollowConcat(IndentTokens(op.indent), ContentTokens(op.contents, hexControls), Lexed(tail));
    ConcatAssociative(PrintIndent(op.indent), PrintContents(op.contents, hexControls), tail);
    if op.indent.Some? {
      LexedIndent(op.indent.value, contents);
      FollowOne(Indent(op.indent.value), Lexed(contents));
    } else {
      assert "" + contents == contents;
      FollowNone(Lexed(contents));
    }
  }

  lemma SeparatedContents(contents: seq<Line>, hexControls: bool, tail: string)
    requires Separated(tail)
    ensures Separated(PrintContents(contents, hexControls) + tail)
  {
  }

  lemma FollowNone(st: Stream)
    ensures Follow([], st) == st
  {
  }

  lemma OpText(operator: string, locator: string, indent: string, contents: string, tail: string)
    ensures operator + " " + locator + indent + contents + tail
         == operator + ([' '] + (locator + (indent + contents + tail)))
  {
  }

  /** The tokens of a printed operation are its operator, locator, directive and quoted contents. */
  lemma {:induction false} LexedOp(op: EditOp, tail: string)
    requires Parsable(op) && Separated(tail)
    ensures Lexed(PrintOp(op) + tail) == Follow(OpTokens(op), Lexed(tail))
  {
    hide Lexed;
    hide Follow;
    hide OpTokens;
    hide BodyTokens;
    hide LocatorTokens;
    hide PrintContents;
    hide PrintIndent;
    hide OperationStr;
    hide WellFormed;
    var body := PrintIndent(op.indent) + PrintContents(op.contents, false) + tail;
    OpText(OperationStr(op.operation), op.locator.Print(), PrintIndent(op.indent), PrintContents(op.contents, false),
           tail);
    LexedOperator(op.operation, op.locator.Print() + body);
    ParsableFits(op);
    LexedBody(op, false, tail);
    SeparatedEnds(body);
    LexedLocator(op.locator, body);
    OpTokensFollow(op, Lexed(tail));
  }

  lemma LexedOperator(op: Operation, rest: string)
    ensures Lexed(OperationStr(op) + ([' '] + rest)) == More(OperatorToken(op), Lexed(rest))
  {
    hide Lexed;
    LexedPunct(OperationStr(op)[0], OperatorToken(op), [' '] + rest);
    LexedSpace(' ', rest);
  }

  lemma ParsableFits(op: EditOp)
    requires Parsable(op)
    ensures IndentFits(op.indent) && AllNewlineFree(op.contents)
  {
  }

  lemma SeparatedEnds(tail: string)
    requires Separated(tail)
    ensures tail == "" || !IsWordChar(tail[0])
  {
  }

  /** The tokens of an operation in front of a stream, part by part. */
  lemma {:induction false} OpTokensFollow(op: EditOp, st: Stream)
    requires op.locator.Hashline? || op.locator.HashlineRange?
    ensures Follow(OpTokens(op), st)
         == More(OperatorToken(op.operation), Follow(LocatorTokens(op.locator), Follow(BodyTokens(op, false), st)))
  {
    hide Follow;
    hide LocatorTokens;
    hide BodyTokens;
    var operator, rest := OperatorToken(op.operation), LocatorTokens(op.locator) + BodyTokens(op, false);
    assert OpTokens(op) == [operator] + rest;
    FollowConcat([operator], rest, st);
    FollowConcat(LocatorTokens(op.locator), BodyTokens(op, false), st);
    FollowOne(operator, Follow(rest, st));
  }

  lemma FollowOne(t: Token, st: Stream)
    ensures Follow([t], st) == More(t, st)
  {
  }

  // ---------- parsing those tokens ----------

  /** A stream at which content stops: its end or the next operator. */
  predicate AtOperator(st: Stream) {
    st.Done? || (st.More? && (st.token == Plus || st.token == Minus || st.token == Equals))
  }

  lemma {:induction false} TakePrintedContent(contents: seq<Line>, hexControls: bool, st: Stream)
    requires AtOperator(st)
    ensures TakeContent(Follow(ContentTokens(contents, hexControls), st))
         == Ok((ContentTokens(contents, hexControls), st))
  {
    if contents != [] {
      TakePrintedContent(contents[1..], hexControls, st);
      var tokens := ContentTokens(contents, hexControls);
      assert tokens[1..] == ContentTokens(contents[1..], hexControls);
      assert tokens == [tokens[0]] + tokens[1..];
    }
  }

  lemma {:induction false} DecodePrinted(contents: seq<Line>, raws: seq<string>, hexControls: bool)
    requires AllNewlineFree(contents) && |raws| == |contents|
    requires forall i :: 0 <= i < |raws| ==> raws[i] == Escaped(contents[i], hexControls)
    ensures DecodeAll(raws) == Ok(contents)
  {
    if contents != [] {
      DecodePrinted(contents[1..], raws[1..], hexControls);
      NormalizePreservesMeaning(raws[0]);
      DecodeEscaped(contents[0], hexControls);
      assert contents == [contents[0]] + contents[1..];
    }
  }

  lemma ParsePrintedContents(contents: seq<Line>, hexControls: bool)
    requires AllNewlineFree(contents)
    ensures ParseContents(ContentTokens(contents, hexControls)) == Ok(contents)
  {
    var tokens := ContentTokens(contents, hexControls);
    DecodePrinted(contents, Raws(tokens), hexControls);
    hide DecodeAll;
    if |contents| == 1 {
      assert JoinWithSpace(contents) == contents[0] && NewlineFree(contents[0]);
      assert contents == [contents[0]];
    }
  }

  lemma {:induction false} TakePrintedBody(op: EditOp, hexControls: bool, st: Stream)
    requires ContentsFit(op) && AtOperator(st)
    ensures TakeBody(op.operation, op.locator, Follow(BodyTokens(op, hexControls), st)) == Ok((op, st))
  {
    hide ParseContents;
    hide TakeContent;
    var contents := Follow(ContentTokens(op.contents, hexControls), st);
    var body := Follow(BodyTokens(op, hexControls), st);
    FollowConcat(IndentTokens(op.indent), ContentTokens(op.contents, hexControls), st);
    assert contents.More? ==> !contents.token.Indent?;
    assert TakeIndent(body) == (op.indent, contents);
    TakePrintedContent(op.contents, hexControls, st);
    ParsePrintedContents(op.contents, hexControls);
  }

  lemma TakePrintedLocator(op: Operation, l: Locator, st: Stream)
    requires WellFormed(l) && (l.Hashline? || (l.HashlineRange? && op == DeleteOp))
    ensures (if op == DeleteOp then TakeDeleteLocator(Follow(LocatorTokens(l), st))
             else TakeLocator(Follow(LocatorTokens(l), st)))
         == Ok((l, st))
  {
    hide Parse;
    hide Follow;
    hide WellFormed;
    PrintParse(l);
    match l
    case Hashline(_, _) =>
      FollowOne(Unquoted(l.Print()), st);
    case HashlineRange(s, sh, e, eh) =>
      var left, right := Hashline(s, sh).Print(), Hashline(e, eh).Print();
      FollowFive(RangeStart, Unquoted(left), Comma, Unquoted(right), RangeEnd, st);
      TakeRangeTokens(left, right, st);
      assert l.Print() == "[" + left + "," + right + "]";
  }

  lemma TakeRangeTokens(left: string, right: string, st: Stream)
    ensures TakeRange(More(Unquoted(left), More(Comma, More(Unquoted(right), More(RangeEnd, st)))))
         == ParseLocatorText("[" + left + "," + right + "]", st)
  {
    hide ParseLocatorText;
  }

  lemma {:induction false} ParsePrintedOp(op: EditOp, st: Stream)
    requires Printable(op) && AtOperator(st)
    ensures ParseOp(Follow(OpTokens(op), st)) == Ok((op, st))
  {
    hide TakeBody;
    hide TakeLocator;
    hide TakeDeleteLocator;
    hide Follow;
    hide OpTokens;
    hide BodyTokens;
    hide LocatorTokens;
    OpTokensFollow(op, st);
    TakePrintedLocator(op.operation, op.locator, Follow(BodyTokens(op, false), st));
    TakePrintedBody(op, false, st);
  }

  /** A range where only a hashline is accepted. */
  lemma {:induction false} ParseUnprintableOp(op: EditOp, st: Stream)
    requires Parsable(op) && !Printable(op)
    ensures ParseOp(Follow(OpTokens(op), st)) == Err(ExpectedLocator)
  {
    hide Follow;
    hide OpTokens;
    hide BodyTokens;
    hide WellFormed;
    OpTokensFollow(op, st);
    RangeFollow(op.locator, Follow(BodyTokens(op, false), st));
  }

  lemma RangeFollow(l: Locator, st: Stream)
    requires l.HashlineRange?
    ensures Follow(LocatorTokens(l), st).More? && Follow(LocatorTokens(l), st).token == RangeStart
  {
  }

  // ---------- the round trip ----------

  /** The text of one operation in front of others. */
  lemma PrintOpsCons(op: EditOp, rest: seq<EditOp>)
    ensures PrintOps([op] + rest) == PrintOp(op) + if rest == [] then "" else ['\n'] + PrintOps(rest)
  {
    hide PrintOp;
    var ops := [op] + rest;
    assert ops[1..] == rest && ops[0] == op;
    assert PrintedOps(ops) == [PrintOp(op)] + PrintedOps(rest);
    assert PrintedOps(ops)[1..] == PrintedOps(rest);
    if rest != [] {
      assert PrintOps(ops) == PrintOp(op) + "\n" + PrintOps(rest);
    }
  }

  lemma {:induction false} LexedOps(op: EditOp, rest: seq<EditOp>)
    requires Parsable(op)
    ensures Lexed(PrintOps([op] + rest)) == Follow(OpTokens(op), Lexed(PrintOps(rest)))
  {
    hide Lexed;
    hide PrintOp;
    hide Follow;
    hide OpTokens;
    hide Parsable;
    PrintOpsCons(op, rest);
    if rest == [] {
      assert PrintOps([]) == "";
      LexedOp(op, "");
    } else {
      LexedOp(op, ['\n'] + PrintOps(rest));
      LexedSpace('\n', PrintOps(rest));
    }
  }

  ghost predicate AllParsable(ops: seq<EditOp>) { forall i :: 0 <= i < |ops| ==> Parsable(ops[i]) }

  ghost predicate AllPrintable(ops: seq<EditOp>) { forall i :: 0 <= i < |ops| ==> Printable(ops[i]) }

  lemma HeadAndTail(ops: seq<EditOp>)
    requires ops != []
    ensures AllParsable(ops) <==> Parsable(ops[0]) && AllParsable(ops[1..])
    ensures AllPrintable(ops) <==> Printable(ops[0]) && AllPrintable(ops[1..])
    ensures ops == [ops[0]] + ops[1..]
  {
    assert forall i :: 0 < i < |ops| ==> ops[i] == ops[1..][i - 1];
  }

  lemma ParseOpsStep(st: Stream)
    requires st != Done
    ensures ParseOp(st).Err? ==> ParseOps(st) == Err(ParseOp(st).error)
    ensures ParseOp(st).Ok? ==> ParseOps(st) == PrependOps([ParseOp(st).value.0], ParseOps(ParseOp(st).value.1))
  {
  }

  /** The tokens after a printed operation start with the next operator, if there is one. */
  lemma RestAtOperator(ops: seq<EditOp>)
    requires AllParsable(ops)
    ensures AtOperator(Lexed(PrintOps(ops)))
    ensures ops == [] ==> Lexed(PrintOps(ops)) == Done
  {
    hide Lexed;
    hide PrintOp;
    if ops == [] {
      LexedNothing();
    } else {
      HeadAndTail(ops);
      LexedOps(ops[0], ops[1..]);
      OpTokensFollow(ops[0], Lexed(PrintOps(ops[1..])));
    }
  }

  /**
   * For operations the parser can return, parsing their printed text returns the same list exactly when no
   * insertion or replacement is anchored at a range.
   */
  lemma {:induction false} PrintParseOps(ops: seq<EditOp>)
    requires AllParsable(ops)
    ensures ParseOps(Lexed(PrintOps(ops))) == Ok(ops) <==> AllPrintable(ops)
    ensures ParseOps(Lexed(PrintOps(ops))) == Ok(ops) || ParseOps(Lexed(PrintOps(ops))) == Err(ExpectedLocator)
  {
    RestAtOperator(ops);
    if ops != [] {
      HeadAndTail(ops);
      LexedOps(ops[0], ops[1..]);
      hide *;
      var rest := Lexed(PrintOps(ops[1..]));
      ParseOpsStep(Follow(OpTokens(ops[0]), rest));
      if Printable(ops[0]) {
        RestAtOperator(ops[1..]);
        ParsePrintedOp(ops[0], rest);
        PrintParseOps(ops[1..]);
        PrependedIs([ops[0]], ops[1..]);
      } else {
        ParseUnprintableOp(ops[0], rest);
      }
    }
  }

  lemma PrependedIs(a: seq<EditOp>, b: seq<EditOp>)
    ensures PrependOps(a, Ok(b)) == Ok(a + b)
    ensures PrependOps(a, Err(ExpectedLocator)) == Err(ExpectedLocator)
  {
  }

  // ---------- what the parser can receive ----------

  /** Text for an operation: its printed form, with a range quoted where only a hashline may stand. */
  function TextOf(op: EditOp): string {
    OperationStr(op.operation) + " " + LocatorText(op) + PrintIndent(op.indent) + PrintContents(op.contents, false)
  }

  function LocatorText(op: EditOp): string {
    if Printable(op) then op.locator.Print() else "\"" + op.locator.Print() + "\""
  }

  function LocatorTextTokens(op: EditOp): seq<Token>
    requires op.locator.Hashline? || op.locator.HashlineRange?
  {
    if Printable(op) then LocatorTokens(op.locator) else [Quoted(op.locator.Print())]
  }

  predicate PlainChar(c: char) { c != '\\' && c != '"' && c != '\t' && c != '\r' && c != '\n' }

  lemma {:induction false} EscapedPlain(s: string)
    requires forall i :: 0 <= i < |s| ==> PlainChar(s[i])
    ensures Escaped(s, false) == s
  {
    if s != "" {
      EscapedPlain(s[1..]);
      assert s == [s[0]] + s[1..];
    }
  }

  lemma PlainConcat(a: string, b: string)
    requires (forall i :: 0 <= i < |a| ==> PlainChar(a[i])) && forall i :: 0 <= i < |b| ==> PlainChar(b[i])
    ensures forall i :: 0 <= i < |a + b| ==> PlainChar((a + b)[i])
  {
  }

  lemma PlainHashline(n: nat, h: string)
    requires CanonicalHash(h)
    ensures var s := Hashline(n, h).Print(); forall i :: 0 <= i < |s| ==> PlainChar(s[i])
  {
    var d := Decimal(n);
    assert forall i :: 0 <= i < |d| ==> IsDigit(d[i]);
    PlainConcat(d, ":");
    PlainConcat(d + ":", h);
  }

  lemma PlainRange(l: Locator)
    requires WellFormed(l) && l.HashlineRange?
    ensures var s := l.Print(); NewlineFree(s) && Escaped(s, false) == s
  {
    var left, right := Hashline(l.start, l.startHash).Print(), Hashline(l.end, l.endHash).Print();
    PlainHashline(l.start, l.startHash);
    PlainHashline(l.end, l.endHash);
    PlainConcat("[", left);
    PlainConcat("[" + left, ",");
    PlainConcat("[" + left + ",", right);
    PlainConcat("[" + left + "," + right, "]");
    assert l.Print() == "[" + left + "," + right + "]";
    EscapedPlain(l.Print());
  }

  lemma {:induction false} LexedLocatorText(op: EditOp, tail: string)
    requires Parsable(op) && Separated(tail)
    ensures Lexed(LocatorText(op) + tail) == Follow(LocatorTextTokens(op), Lexed(tail))
  {
    hide Lexed;
    hide Follow;
    hide WellFormed;
    hide LocatorTokens;
    if Printable(op) {
      SeparatedEnds(tail);
      LexedLocator(op.locator, tail);
    } else {
      PlainRange(op.locator);
      LexedQuoted(op.locator.Print(), false, tail);
      FollowOne(Quoted(op.locator.Print()), Lexed(tail));
    }
  }

  /** The stream of an operation's text in front of others. */
  function TextStream(op: EditOp, st: Stream): Stream
    requires op.locator.Hashline? || op.locator.HashlineRange?
  {
    More(OperatorToken(op.operation), Follow(LocatorTextTokens(op), Follow(BodyTokens(op, false), st)))
  }

  lemma {:induction false} LexedText(op: EditOp, tail: string)
    requires Parsable(op) && Separated(tail)
    ensures Lexed(TextOf(op) + tail) == TextStream(op, Lexed(tail))
  {
    hide Lexed;
    hide Follow;
    hide BodyTokens;
    hide LocatorTextTokens;
    hide LocatorText;
    hide PrintContents;
    hide PrintIndent;
    hide OperationStr;
    hide Parsable;
    var body := PrintIndent(op.indent) + PrintContents(op.contents, false) + tail;
    OpText(OperationStr(op.operation), LocatorText(op), PrintIndent(op.indent), PrintContents(op.contents, false),
           tail);
    LexedOperator(op.operation, LocatorText(op) + body);
    ParsableFits(op);
    LexedBody(op, false, tail);
    LexedLocatorText(op, body);
  }

  lemma {:induction false} ParseTextStream(op: EditOp, st: Stream)
    requires Parsable(op) && AtOperator(st)
    ensures ParseOp(TextStream(op, st)) == Ok((op, st))
  {
    hide TakeBody;
    hide TakeLocator;
    hide TakeDeleteLocator;
    hide Follow;
    hide BodyTokens;
    hide LocatorTokens;
    TakePrintedBody(op, false, st);
    var body := Follow(BodyTokens(op, false), st);
    if Printable(op) {
      TakePrintedLocator(op.operation, op.locator, body);
    } else {
      FollowOne(Quoted(op.locator.Print()), body);
      TakeQuotedLocator(op.locator, body);
    }
  }

  lemma TakeQuotedLocator(l: Locator, st: Stream)
    requires WellFormed(l)
    ensures TakeLocator(More(Quoted(l.Print()), st)) == Ok((l, st))
  {
    hide Parse;
    PrintParse(l);
  }

  function TextOfAll(ops: seq<EditOp>): string {
    if ops == [] then "" else TextOf(ops[0]) + (['\n'] + TextOfAll(ops[1..]))
  }

  lemma {:induction false} LexedAll(ops: seq<EditOp>)
    requires AllParsable(ops)
    ensures ops == [] ==> Lexed(TextOfAll(ops)) == Done
    ensures ops != [] ==>
              && (ops[0].locator.Hashline? || ops[0].locator.HashlineRange?)
              && Lexed(TextOfAll(ops)) == TextStream(ops[0], Lexed(TextOfAll(ops[1..])))
    ensures AtOperator(Lexed(TextOfAll(ops)))
  {
    hide Lexed;
    hide Follow;
    hide LocatorTextTokens;
    if ops == [] {
      LexedNothing();
    } else {
      LexedText(ops[0], ['\n'] + TextOfAll(ops[1..]));
      LexedSpace('\n', TextOfAll(ops[1..]));
    }
  }

  lemma {:induction false} ParseTextOfAll(ops: seq<EditOp>)
    requires AllParsable(ops)
    ensures ParseOps(Lexed(TextOfAll(ops))) == Ok(ops)
  {
    LexedAll(ops);
    if ops != [] {
      HeadAndTail(ops);
      LexedAll(ops[1..]);
      hide *;
      var rest := Lexed(TextOfAll(ops[1..]));
      ParseTextStream(ops[0], rest);
      TextStreamStarts(ops[0], rest);
      ParseOpsStep(TextStream(ops[0], rest));
      ParseTextOfAll(ops[1..]);
      PrependedIs([ops[0]], ops[1..]);
    }
  }

  lemma TextStreamStarts(op: EditOp, st: Stream)
    requires op.locator.Hashline? || op.locator.HashlineRange?
    ensures TextStream(op, st) != Done
  {
  }

  /**
   * The lists that the parser can return are exactly the lists of parsable operations, insertions and replacements
   * anchored at a range included.
   */
  lemma ParserImage(ops: seq<EditOp>)
    ensures AllParsable(ops) <==> exists input: string :: ParseOps(Lexed(input)) == Ok(ops)
  {
    hide *;
    if AllParsable(ops) {
      ParseTextOfAll(ops);
    }
    if exists input: string :: ParseOps(Lexed(input)) == Ok(ops) {
      var input: string :| ParseOps(Lexed(input)) == Ok(ops);
      ParsedOpsParsable(input);
      AllParsableIs(ops);
    }
  }

  lemma AllParsableIs(ops: seq<EditOp>)
    ensures AllParsable(ops) <==> forall i :: 0 <= i < |ops| ==> Parsable(ops[i])
  {
  }
}
