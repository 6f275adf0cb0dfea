/** The language of edit operations: its parser and its printer (crates/aifed/src/batch.rs). */
module BatchLanguage {
  import opened Prelude
  import opened Escapes
  import opened Scanners
  import opened Locators
  import opened FileText
  import opened EditPlans

  datatype EditOp = EditOp(operation: Operation, locator: Locator, contents: seq<Line>, indent: Option<int>)

  datatype ParseError =
    | ScanFailed(scan: ScanError)
    | ExpectedOperation | ExpectedLocator | ExpectedComma | ExpectedRangeEnd
    | BadLocator(locator: LocatorError)
    | HashRequired | IndentOnDelete | SecondIndent
    | ContentRequired | OneLineOnly
    | InvalidEscape | NewlineInContent

  // ---------- content ----------

  function DecodeContent(raw: string): Result<Line, ParseError> {
    match Decode(Normalized(raw), false)
    case None => Err(InvalidEscape)
    case Some(c) => if NewlineFree(c) then Ok(c) else Err(NewlineInContent)
  }

  function DecodeAll(raws: seq<string>): Result<seq<Line>, ParseError> {
    if raws == [] then Ok([])
    else
      match DecodeContent(raws[0])
      case Err(e) => Err(e)
      case Ok(c) => match DecodeAll(raws[1..]) case Err(e) => Err(e) case Ok(cs) => Ok([c] + cs)
  }

  function JoinWithSpace(lines: seq<Line>): Line {
    if lines == [] then "" else if |lines| == 1 then lines[0] else lines[0] + " " + JoinWithSpace(lines[1..])
  }

  predicate IsContent(t: Token) { t.Quoted? || t.Unquoted? }

  predicate AllContent(tokens: seq<Token>) {
    forall i :: 0 <= i < |tokens| ==> tokens[i].Quoted? || tokens[i].Unquoted?
  }

  /** The raw texts of content tokens. */
  function Raws(tokens: seq<Token>): (r: seq<string>)
    requires AllContent(tokens)
    ensures |r| == |tokens|
    ensures forall i :: 0 <= i < |tokens| ==> r[i] == tokens[i].raw
  {
    if tokens == [] then [] else [tokens[0].raw] + Raws(tokens[1..])
  }

  /** Several quoted tokens are a line each; anything else is one line, joined with spaces. */
  function ParseContents(tokens: seq<Token>): Result<seq<Line>, ParseError>
    requires AllContent(tokens)
  {
    if tokens == [] then Ok([])
    else
      match DecodeAll(Raws(tokens))
      case Err(e) => Err(e)
      case Ok(lines) =>
        if |tokens| > 1 && forall i :: 0 <= i < |tokens| ==> tokens[i].Quoted? then Ok(lines)
        else if NewlineFree(JoinWithSpace(lines)) then Ok([JoinWithSpace(lines)])
        else Err(NewlineInContent)
  }

  // ---------- the parser, as a function of the token stream ----------

  type Parsed<T> = Result<(T, Stream), ParseError>

  function Len(st: Stream): nat {
    match st case Done => 0 case Fault(_) => 1 case More(_, rest) => 1 + Len(rest)
  }

  function TakeLocatorText(st: Stream): (r: Parsed<string>)
    ensures r.Ok? ==> Len(r.value.1) < Len(st)
  {
    match st
    case Fault(e) => Err(ScanFailed(e))
    case More(Quoted(s), rest) => Ok((s, rest))
    case More(Unquoted(s), rest) => Ok((s, rest))
    case _ => Err(ExpectedLocator)
  }

  function TakeExactly(st: Stream, expected: Token, otherwise: ParseError): (r: Result<Stream, ParseError>)
    ensures r.Ok? ==> Len(r.value) < Len(st)
  {
    match st
    case Fault(e) => Err(ScanFailed(e))
    case More(t, rest) => if t == expected then Ok(rest) else Err(otherwise)
    case Done => Err(otherwise)
  }

  function ParseLocatorText(text: string, rest: Stream): (r: Parsed<Locator>)
    ensures r.Ok? ==> r.value.1 == rest
  {
    match Parse(text) case Err(e) => Err(BadLocator(e)) case Ok(l) => Ok((l, rest))
  }

  function TakeLocator(st: Stream): (r: Parsed<Locator>)
    ensures r.Ok? ==> Len(r.value.1) < Len(st)
  {
    match TakeLocatorText(st) case Err(e) => Err(e) case Ok((text, rest)) => ParseLocatorText(text, rest)
  }

  /** After the opening bracket. */
  function TakeRange(st: Stream): (r: Parsed<Locator>)
    ensures r.Ok? ==> Len(r.value.1) < Len(st)
  {
    match TakeLocatorText(st)
    case Err(e) => Err(e)
    case Ok((start, afterStart)) =>
      match TakeExactly(afterStart, Comma, ExpectedComma)
      case Err(e) => Err(e)
      case Ok(afterComma) =>
        match TakeLocatorText(afterComma)
        case Err(e) => Err(e)
        case Ok((end, afterEnd)) =>
          match TakeExactly(afterEnd, RangeEnd, ExpectedRangeEnd)
          case Err(e) => Err(e)
          case Ok(rest) => ParseLocatorText("[" + start + "," + end + "]", rest)
  }

  function TakeDeleteLocator(st: Stream): (r: Parsed<Locator>)
    ensures r.Ok? ==> Len(r.value.1) < Len(st)
  {
    if st.More? && st.token == RangeStart then TakeRange(st.rest) else TakeLocator(st)
  }

  /** An indent directive, if there is one. */
  function TakeIndent(st: Stream): (r: (Option<int>, Stream))
    ensures Len(r.1) <= Len(st)
  {
    match st case More(Indent(n), rest) => (Some(n), rest) case _ => (None, st)
  }

  /** Tokens already collected in front of those still to come. */
  function Prepend(tokens: seq<Token>, r: Parsed<seq<Token>>): Parsed<seq<Token>> {
    match r case Err(e) => Err(e) case Ok((ts, rest)) => Ok((tokens + ts, rest))
  }

  function TakeContent(st: Stream): (r: Parsed<seq<Token>>)
    ensures r.Ok? ==> Len(r.value.1) <= Len(st)
    ensures r.Ok? ==> AllContent(r.value.0)
  {
    match st
    case Fault(e) => Err(ScanFailed(e))
    case More(t, rest) =>
      if IsContent(t) then
        Prepend([t], TakeContent(rest))
      else Ok(([], st))
    case Done => Ok(([], st))
  }

  function TakeOperator(st: Stream): (r: Parsed<Operation>)
    ensures r.Ok? ==> Len(r.value.1) < Len(st)
  {
    match st
    case More(Plus, rest) => Ok((InsertOp, rest))
    case More(Minus, rest) => Ok((DeleteOp, rest))
    case More(Equals, rest) => Ok((ReplaceOp, rest))
    case Fault(e) => Err(ScanFailed(e))
    case _ => Err(ExpectedOperation)
  }

  /** From the indent directive on. */
  function TakeBody(op: Operation, locator: Locator, st: Stream): (r: Parsed<EditOp>)
    ensures r.Ok? ==> Len(r.value.1) <= Len(st)
  {
    var (indent, afterIndent) := TakeIndent(st);
    if op == DeleteOp && indent.Some? then Err(IndentOnDelete)
    else if afterIndent.More? && afterIndent.token.Indent? then Err(SecondIndent)
    else
      match TakeContent(afterIndent)
      case Err(e) => Err(e)
      case Ok((tokens, rest)) =>
        match ParseContents(tokens)
        case Err(e) => Err(e)
        case Ok(contents) =>
          if op != DeleteOp && contents == [] then Err(ContentRequired)
          else if op == ReplaceOp && |contents| > 1 then Err(OneLineOnly)
          else Ok((EditOp(op, locator, contents, indent), rest))
  }

  /** Locator and body, for an operator already read. */
  function TakeOperand(op: Operation, st: Stream): (r: Parsed<EditOp>)
    ensures r.Ok? ==> Len(r.value.1) < Len(st)
  {
    match (if op == DeleteOp then TakeDeleteLocator(st) else TakeLocator(st))
    case Err(e) => Err(e)
    case Ok((locator, rest)) =>
      if locator.SingleLine? || locator.LineRange? then Err(HashRequired) else TakeBody(op, locator, rest)
  }

  function ParseOp(st: Stream): (r: Parsed<EditOp>)
    ensures r.Ok? ==> Len(r.value.1) < Len(st)
  {
    match TakeOperator(st) case Err(e) => Err(e) case Ok((op, rest)) => TakeOperand(op, rest)
  }

  function ParseOps(st: Stream): Result<seq<EditOp>, ParseError>
    decreases Len(st)
  {
    if st == Done then Ok([])
    else
      match ParseOp(st)
      case Err(e) => Err(e)
      case Ok((op, rest)) => PrependOps([op], ParseOps(rest))
  }

  /** Operations already parsed in front of those still to come. */
  function PrependOps(ops: seq<EditOp>, r: Result<seq<EditOp>, ParseError>): Result<seq<EditOp>, ParseError> {
    match r case Err(e) => Err(e) case Ok(rest) => Ok(ops + rest)
  }

  lemma PrependOpsTwice(a: seq<EditOp>, b: seq<EditOp>, r: Result<seq<EditOp>, ParseError>)
    ensures PrependOps(a, PrependOps(b, r)) == PrependOps(a + b, r)
    ensures PrependOps([], r) == r
  {
    if r.Ok? {
      ConcatAssociative(a, b, r.value);
      assert [] + r.value == r.value;
    }
  }

  // ---------- the parser, over a scanner ----------

  /** The scanner has moved as `r` says; on errors the rest does not matter. */
  ghost predicate Moved<T>(r: Parsed<T>, got: Result<T, ParseError>, pending: Stream) {
    match r
    case Err(e) => got == Err(e)
    case Ok((v, rest)) => got == Ok(v) && pending == rest
  }

  method ExpectLocatorStr(scanner: Scanner) returns (r: Result<string, ParseError>)
    requires scanner.Valid()
    modifies scanner
    ensures scanner.Valid()
    ensures Moved(TakeLocatorText(old(scanner.Pending())), r, scanner.Pending())
  {
    hide Lexed;
    var next := scanner.NextToken();
    match next {
      case Some(Ok(Unquoted(s))) => r := Ok(s);
      case Some(Ok(Quoted(s))) => r := Ok(s);
      case Some(Err(e)) => r := Err(ScanFailed(e));
      case _ => r := Err(ExpectedLocator);
    }
  }

  method ExpectToken(scanner: Scanner, expected: Token, otherwise: ParseError) returns (r: Result<(), ParseError>)
    requires scanner.Valid()
    modifies scanner
    ensures scanner.Valid()
    ensures match TakeExactly(old(scanner.Pending()), expected, otherwise)
            case Err(e) => r == Err(e)
            case Ok(rest) => r == Ok(()) && scanner.Pending() == rest
  {
    hide Lexed;
    var next := scanner.NextToken();
    match next {
      case Some(Ok(t)) => r := if t == expected then Ok(()) else Err(otherwise);
      case Some(Err(e)) => r := Err(ScanFailed(e));
      case None => r := Err(otherwise);
    }
  }

  method ParseDeleteLocator(scanner: Scanner) returns (r: Result<Locator, ParseError>)
    requires scanner.Valid()
    modifies scanner
    ensures scanner.Valid()
    ensures Moved(TakeDeleteLocator(old(scanner.Pending())), r, scanner.Pending())
  {
    hide Lexed;
    hide Parse;
    var peeked := scanner.PeekToken();
    if peeked == Some(Ok(RangeStart)) {
      var _ := scanner.NextToken();
      var start := ExpectLocatorStr(scanner);
      if start.Err? { return Err(start.error); }
      var comma := ExpectToken(scanner, Comma, ExpectedComma);
      if comma.Err? { return Err(comma.error); }
      var end := ExpectLocatorStr(scanner);
      if end.Err? { return Err(end.error); }
      var close := ExpectToken(scanner, RangeEnd, ExpectedRangeEnd);
      if close.Err? { return Err(close.error); }
      var loc := Parse("[" + start.value + "," + end.value + "]");
      r := if loc.Err? then Err(BadLocator(loc.error)) else Ok(loc.value);
    } else {
      r := ParseSingleLocator(scanner);
    }
  }

  method ParseSingleLocator(scanner: Scanner) returns (r: Result<Locator, ParseError>)
    requires scanner.Valid()
    modifies scanner
    ensures scanner.Valid()
    ensures Moved(TakeLocator(old(scanner.Pending())), r, scanner.Pending())
  {
    hide Lexed;
    hide Parse;
    var raw := ExpectLocatorStr(scanner);
    if raw.Err? { return Err(raw.error); }
    var loc := Parse(raw.value);
    r := if loc.Err? then Err(BadLocator(loc.error)) else Ok(loc.value);
  }

  lemma PrependTwice(a: seq<Token>, b: seq<Token>, r: Parsed<seq<Token>>)
    ensures Prepend(a, Prepend(b, r)) == Prepend(a + b, r)
    ensures Prepend([], r) == r
  {
    if r.Ok? {
      ConcatAssociative(a, b, r.value.0);
      assert [] + r.value.0 == r.value.0;
    }
  }

  method CollectContentTokens(scanner: Scanner) returns (r: Result<seq<Token>, ParseError>)
    requires scanner.Valid()
    modifies scanner
    ensures scanner.Valid()
    ensures Moved(TakeContent(old(scanner.Pending())), r, scanner.Pending())
  {
    hide Lexed;
    var tokens: seq<Token> := [];
    PrependTwice([], [], TakeContent(scanner.Pending()));
    while true
      invariant scanner.Valid()
      invariant TakeContent(old(scanner.Pending())) == Prepend(tokens, TakeContent(scanner.Pending()))
      decreases Len(scanner.Pending())
    {
      var peeked := scanner.PeekToken();
      match peeked {
        case Some(Ok(t)) =>
          if !IsContent(t) { break; }
          PrependTwice(tokens, [t], TakeContent(scanner.Pending().rest));
          tokens := tokens + [t];
          var _ := scanner.NextToken();
        case Some(Err(e)) => return Err(ScanFailed(e));
        case None => break;
      }
    }
    assert tokens + [] == tokens;
    r := Ok(tokens);
  }

  method ParseBody(scanner: Scanner, op: Operation, locator: Locator) returns (r: Result<EditOp, ParseError>)
    requires scanner.Valid()
    modifies scanner
    ensures scanner.Valid()
    ensures Moved(TakeBody(op, locator, old(scanner.Pending())), r, scanner.Pending())
  {
    hide Lexed;
    hide ParseContents;
    var indent := None;
    var peeked := scanner.PeekToken();
    if peeked.Some? && peeked.value.Ok? && peeked.value.value.Indent? {
      indent := Some(peeked.value.value.n);
      var _ := scanner.NextToken();
    }
    if op == DeleteOp && indent.Some? { return Err(IndentOnDelete); }
    peeked := scanner.PeekToken();
    if peeked.Some? && peeked.value.Ok? && peeked.value.value.Indent? { return Err(SecondIndent); }
    var tokens := CollectContentTokens(scanner);
    if tokens.Err? { return Err(tokens.error); }
    var contents := ParseContents(tokens.value);
    if contents.Err? { return Err(contents.error); }
    if op != DeleteOp && contents.value == [] { return Err(ContentRequired); }
    if op == ReplaceOp && |contents.value| > 1 { return Err(OneLineOnly); }
    r := Ok(EditOp(op, locator, contents.value, indent));
  }

  /** One operation, given its operator. */
  method ParseRest(scanner: Scanner, op: Operation) returns (r: Result<EditOp, ParseError>)
    requires scanner.Valid()
    modifies scanner
    ensures scanner.Valid()
    ensures Moved(TakeOperand(op, old(scanner.Pending())), r, scanner.Pending())
  {
    hide Lexed;
    hide TakeBody;
    hide TakeDeleteLocator;
    hide TakeLocator;
    var locator;
    if op == DeleteOp {
      locator := ParseDeleteLocator(scanner);
    } else {
      locator := ParseSingleLocator(scanner);
    }
    if locator.Err? { return Err(locator.error); }
    if locator.value.SingleLine? || locator.value.LineRange? { return Err(HashRequired); }
    r := ParseBody(scanner, op, locator.value);
  }

  /** The whole parser computes `ParseOps` of the tokens of its input. */
  method ParseBatchOperations(input: string) returns (r: Result<seq<EditOp>, ParseError>)
    ensures r == ParseOps(Lexed(input))
  {
    hide Lexed;
    hide TakeOperand;
    var scanner := new Scanner(input);
    var operations: seq<EditOp> := [];
    PrependOpsTwice([], [], ParseOps(scanner.Pending()));
    while true
      invariant scanner.Valid() && fresh(scanner)
      invariant ParseOps(Lexed(input)) == PrependOps(operations, ParseOps(scanner.Pending()))
      decreases Len(scanner.Pending())
    {
      var op;
      var peeked := scanner.PeekToken();
      match peeked {
        case None => break;
        case Some(Ok(Plus)) => op := InsertOp;
        case Some(Ok(Minus)) => op := DeleteOp;
        case Some(Ok(Equals)) => op := ReplaceOp;
        case Some(Ok(_)) => return Err(ExpectedOperation);
        case Some(Err(e)) => return Err(ScanFailed(e));
      }
      var _ := scanner.NextToken();
      var parsed := ParseRest(scanner, op);
      if parsed.Err? { return Err(parsed.error); }
      PrependOpsTwice(operations, [parsed.value], ParseOps(scanner.Pending()));
      operations := operations + [parsed.value];
    }
    assert operations + [] == operations;
    r := Ok(operations);
  }
}
