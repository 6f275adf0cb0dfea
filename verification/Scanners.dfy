/** The character-level scanner of batch input (crates/aifed/src/scanner.rs). */
module Scanners {
  import opened Prelude
  import opened Decimals

  datatype Token =
    | Plus | Minus | Equals | RangeStart | RangeEnd | Comma
    | Quoted(raw: string) | Unquoted(raw: string) | Indent(n: int)

  datatype ScanError = NewlineInString | UnterminatedString | IndentWithoutDigits | IndentOutOfRange

  // ---------- the language of tokens ----------

  predicate IsSpace(c: char) { c == ' ' || c == '\t' || c == '\n' || c == '\U{c}' || c == '\r' }
  predicate NotNewline(c: char) { c != '\n' }
  predicate IsWordChar(c: char) { !IsSpace(c) && c != '[' && c != ']' && c != ',' && c != '"' }

  /** The number of leading characters that satisfy `p`. */
  function SpanLen(s: string, p: char -> bool): (n: nat)
    ensures n <= |s|
    ensures forall i :: 0 <= i < n ==> p(s[i])
    ensures n < |s| ==> !p(s[n])
  {
    if s == "" || !p(s[0]) then 0 else 1 + SpanLen(s[1..], p)
  }

  /** A text without the whitespace and comments it starts with. */
  function Visible(s: string): (t: string)
    ensures |t| <= |s|
    ensures t != "" ==> !IsSpace(t[0]) && t[0] != '#'
    decreases |s|
  {
    var t := s[SpanLen(s, IsSpace)..];
    if t != "" && t[0] == '#' then Visible(t[SpanLen(t, NotNewline)..]) else t
  }

  datatype Quote = Closed(len: nat) | Broken(error: ScanError, len: nat)

  /** The raw content after an opening quote: up to the closing quote, skipping what a backslash precedes. */
  function ScanQuote(s: string): (q: Quote)
    ensures q.len <= |s|
    ensures q.Closed? ==> q.len < |s| && s[q.len] == '"'
    decreases |s|
  {
    if s == "" then Broken(UnterminatedString, 0)
    else if s[0] == '\\' then
      if |s| == 1 then Broken(UnterminatedString, 1) else AddLen(2, ScanQuote(s[2..]))
    else if s[0] == '"' then Closed(0)
    else if s[0] == '\n' then Broken(NewlineInString, 0)
    else AddLen(1, ScanQuote(s[1..]))
  }

  function AddLen(n: nat, q: Quote): Quote {
    match q case Closed(l) => Closed(n + l) case Broken(e, l) => Broken(e, n + l)
  }

  datatype Lexeme = Tok(token: Token, len: nat) | Bad(error: ScanError, len: nat)

  /** The token at the front of a text that starts with neither whitespace nor a comment. */
  function LexOne(s: string): (x: Lexeme)
    requires s != "" && !IsSpace(s[0]) && s[0] != '#'
    ensures 0 < x.len <= |s|
  {
    match s[0]
    case '+' => Tok(Plus, 1)
    case '-' => Tok(Minus, 1)
    case '=' => Tok(Equals, 1)
    case '[' => Tok(RangeStart, 1)
    case ']' => Tok(RangeEnd, 1)
    case ',' => Tok(Comma, 1)
    case '"' =>
      (match ScanQuote(s[1..])
       case Closed(n) => Tok(Quoted(s[1..1 + n]), n + 2)
       case Broken(e, n) => Bad(e, 1 + n))
    case '@' => LexIndent(s)
    case _ =>
      var n := SpanLen(s, IsWordChar);
      Tok(Unquoted(s[..n]), n)
  }

  /** The digits of a directive, already separated from its sign. */
  function IndentToken(negative: bool, digits: string): Result<Token, ScanError>
    requires AllDigits(digits)
  {
    if digits == "" then Err(IndentWithoutDigits)
    else if DigitsValue(digits) > I32_MAX then Err(IndentOutOfRange)
    else Ok(Indent(if negative then -1 * DigitsValue(digits) else DigitsValue(digits)))
  }

  function LexIndent(s: string): (x: Lexeme)
    requires s != ""
    ensures 0 < x.len <= |s|
  {
    var start := if |s| > 1 && (s[1] == '+' || s[1] == '-') then 2 else 1;
    var n := SpanLen(s[start..], IsDigit);
    match IndentToken(start == 2 && s[1] == '-', s[start..][..n])
    case Ok(t) => Tok(t, start + n)
    case Err(e) => Bad(e, start + n)
  }

  /** The tokens of a text up to its end or its first lexical error. */
  datatype Stream = Done | Fault(error: ScanError) | More(token: Token, rest: Stream)

  function Lexed(s: string): Stream
    decreases |s|
  {
    var t := Visible(s);
    if t == "" then Done
    else
      match LexOne(t)
      case Bad(e, _) => Fault(e)
      case Tok(token, n) => More(token, Lexed(t[n..]))
  }

  lemma LexedWhitespace(s: string)
    ensures Lexed(s) == Lexed(s[SpanLen(s, IsSpace)..])
  {
    hide LexOne;
    var t := s[SpanLen(s, IsSpace)..];
    assert t[0..] == t;
    assert Visible(s) == Visible(t);
  }

  lemma LexedComment(s: string)
    requires s != "" && s[0] == '#'
    ensures Lexed(s) == Lexed(s[SpanLen(s, NotNewline)..])
  {
    hide LexOne;
    assert s[0..] == s;
    assert Visible(s) == Visible(s[SpanLen(s, NotNewline)..]);
  }

  lemma LexedToken(s: string)
    requires s != "" && !IsSpace(s[0]) && s[0] != '#'
    ensures LexOne(s).Bad? ==> Lexed(s) == Fault(LexOne(s).error)
    ensures LexOne(s).Tok? ==> Lexed(s) == More(LexOne(s).token, Lexed(s[LexOne(s).len..]))
  {
    hide LexOne;
    assert s[0..] == s;
    assert Visible(s) == s;
  }

  lemma LexedNothing()
    ensures Lexed("") == Done
  {
  }

  // ---------- where tokens lie ----------

  datatype Span = Span(start: nat, end: nat, token: Token)

  /** The spans of the tokens of `s`, a text that starts at offset `from`. */
  function Spans(s: string, from: nat): seq<Span>
    decreases |s|
  {
    var t := Visible(s);
    if t == "" then []
    else
      match LexOne(t)
      case Bad(_, _) => []
      case Tok(token, n) =>
        var start := from + (|s| - |t|);
        [Span(start, start + n, token)] + Spans(t[n..], start + n)
  }

  function StreamTokens(st: Stream): seq<Token> {
    match st case Done => [] case Fault(_) => [] case More(t, rest) => [t] + StreamTokens(rest)
  }

  predicate ErrorFree(st: Stream) {
    match st case Done => true case Fault(_) => false case More(_, rest) => ErrorFree(rest)
  }

  ghost predicate InComment(t: string, i: nat)
    requires i < |t|
  {
    exists j :: 0 <= j <= i && t[j] == '#' && forall k :: j <= k <= i ==> t[k] != '\n'
  }

  /** Only whitespace and comments. */
  ghost predicate IsBlank(t: string) {
    forall i :: 0 <= i < |t| ==> IsSpace(t[i]) || InComment(t, i)
  }

  /** From `from` on: blanks, a token with at least one character, blanks, the next token, and so on to the end. */
  ghost predicate Tiled(input: string, from: nat, spans: seq<Span>)
    requires from <= |input|
    decreases |spans|
  {
    if spans == [] then IsBlank(input[from..])
    else
      && from <= spans[0].start < spans[0].end <= |input|
      && IsBlank(input[from..spans[0].start])
      && Tiled(input, spans[0].end, spans[1..])
  }

  lemma BlankConcat(a: string, b: string)
    requires IsBlank(a) && IsBlank(b)
    ensures IsBlank(a + b)
  {
    var t := a + b;
    forall i | 0 <= i < |t| ensures IsSpace(t[i]) || InComment(t, i) {
      if i < |a| {
        if InComment(a, i) {
          var j :| 0 <= j <= i && a[j] == '#' && forall k :: j <= k <= i ==> a[k] != '\n';
          assert t[j] == '#';
        }
      } else if InComment(b, i - |a|) {
        var j :| 0 <= j <= i - |a| && b[j] == '#' && forall k :: j <= k <= i - |a| ==> b[k] != '\n';
        assert t[|a| + j] == '#';
        forall k | |a| + j <= k <= i ensures t[k] != '\n' {
          assert t[k] == b[k - |a|];
        }
      }
    }
  }

  /** `n` characters of `s` can be dropped as blanks, leaving `t`. */
  ghost predicate DropsBlanks(s: string, n: nat, t: string) {
    n <= |s| && IsBlank(s[..n]) && s[n..] == t
  }

  lemma DropsBlanksTwice(s: string, n: nat, t: string, m: nat, u: string)
    requires DropsBlanks(s, n, t) && DropsBlanks(t, m, u)
    ensures DropsBlanks(s, n + m, u)
  {
    hide IsBlank;
    BlankConcat(s[..n], t[..m]);
    assert s[..n + m] == s[..n] + t[..m];
    assert s[n + m..] == t[m..];
  }

  lemma DropsSpaces(s: string)
    ensures DropsBlanks(s, SpanLen(s, IsSpace), s[SpanLen(s, IsSpace)..])
  {
  }

  lemma DropsComment(t: string)
    requires t != "" && t[0] == '#'
    ensures DropsBlanks(t, SpanLen(t, NotNewline), t[SpanLen(t, NotNewline)..])
  {
    var c := SpanLen(t, NotNewline);
    forall i | 0 <= i < c ensures InComment(t[..c], i) {
      assert t[..c][0] == '#';
    }
  }

  lemma VisibleStep(s: string)
    ensures var t := s[SpanLen(s, IsSpace)..];
            Visible(s) == if t != "" && t[0] == '#' then Visible(t[SpanLen(t, NotNewline)..]) else t
  {
  }

  /** What `Visible` drops is blank. */
  lemma {:induction false} VisibleDropsBlanks(s: string) returns (n: nat)
    ensures DropsBlanks(s, n, Visible(s))
    decreases |s|
  {
    hide IsBlank;
    hide DropsBlanks;
    hide Visible;
    hide SpanLen;
    n := SpanLen(s, IsSpace);
    var t := s[n..];
    VisibleStep(s);
    DropsSpaces(s);
    if t != "" && t[0] == '#' {
      var c := SpanLen(t, NotNewline);
      var u := t[c..];
      DropsComment(t);
      var v := VisibleDropsBlanks(u);
      DropsBlanksTwice(t, c, u, v, Visible(u));
      DropsBlanksTwice(s, n, t, c + v, Visible(u));
      n := n + (c + v);
    }
  }

  function SpanTokens(spans: seq<Span>): seq<Token> {
    if spans == [] then [] else [spans[0].token] + SpanTokens(spans[1..])
  }

  /** The tokens of an error-free text are non-empty, in order and disjoint, and only blanks lie between them. */
  lemma {:induction false} SpansTile(input: string, from: nat)
    requires from <= |input| && ErrorFree(Lexed(input[from..]))
    ensures Tiled(input, from, Spans(input[from..], from))
    ensures SpanTokens(Spans(input[from..], from)) == StreamTokens(Lexed(input[from..]))
    decreases |input| - from
  {
    hide LexOne;
    hide IsBlank;
    hide Visible;
    var s := input[from..];
    var t := Visible(s);
    var blanks := VisibleDropsBlanks(s);
    var start := from + blanks;
    SliceOfTail(input, from, blanks);
    if t == "" {
      assert s[..|s|] == s;
    } else {
      var n := LexOne(t).len;
      SliceOfTail(input, start, n);
      SpansTile(input, start + n);
      var rest := Spans(t[n..], start + n);
      assert ([Span(start, start + n, LexOne(t).token)] + rest)[1..] == rest;
    }
  }

  /** One turn of the loop over quoted text. */
  lemma ScanQuoteStep(body: string, k: nat, step: nat)
    requires k < |body| && ScanQuote(body) == AddLen(k, ScanQuote(body[k..]))
    requires body[k] != '"' && body[k] != '\n'
    requires step == if body[k] == '\\' then 2 else 1
    requires k + step <= |body|
    ensures ScanQuote(body) == AddLen(k + step, ScanQuote(body[k + step..]))
  {
    hide ScanQuote;
    SliceOfTail(body, k, step);
    ScanOneUnit(body[k..], step);
  }

  lemma ScanOneUnit(s: string, step: nat)
    requires s != "" && s[0] != '"' && s[0] != '\n' && step == (if s[0] == '\\' then 2 else 1) && step <= |s|
    ensures ScanQuote(s) == AddLen(step, ScanQuote(s[step..]))
  {
  }

  // ---------- the scanner ----------

  type ScanResult = Option<Result<Token, ScanError>>

  class Scanner {
    const input: string
    var pos: nat
    var peeked: ScanResult

    ghost predicate Valid()
      reads this
    {
      pos <= |input|
    }

    function Rest(): string
      reads this
      requires Valid()
    {
      input[pos..]
    }

    /** The tokens still to be delivered. */
    function Pending(): Stream
      reads this
      requires Valid()
    {
      match peeked
      case None => Lexed(Rest())
      case Some(Ok(t)) => More(t, Lexed(Rest()))
      case Some(Err(e)) => Fault(e)
    }

    constructor (input: string)
      ensures Valid() && Pending() == Lexed(input) && this.input == input
    {
      this.input := input;
      pos := 0;
      peeked := None;
      new;
      assert this.input[0..] == input;
    }

    /** Consumes the next token. */
    method NextToken() returns (r: ScanResult)
      requires Valid()
      modifies this
      ensures Valid()
      ensures match old(Pending())
              case Done => r == None && Pending() == Done
              case Fault(e) => r == Some(Err(e))
              case More(t, rest) => r == Some(Ok(t)) && Pending() == rest
    {
      LexedNothing();
      hide Lexed;
      if peeked.Some? {
        r := peeked;
        peeked := None;
      } else {
        r := ScanToken();
      }
    }

    /** Looks at the next token; what is still to be delivered stays the same. */
    method PeekToken() returns (r: ScanResult)
      requires Valid()
      modifies this
      ensures Valid()
      ensures Pending() == old(Pending())
      ensures match Pending()
              case Done => r == None
              case Fault(e) => r == Some(Err(e))
              case More(t, _) => r == Some(Ok(t))
    {
      LexedNothing();
      hide Lexed;
      if peeked.None? {
        var scanned := ScanToken();
        peeked := scanned;
      }
      r := peeked;
    }

    /** Scans one token; every call that yields one consumes input, so a scan always ends. */
    method ScanToken() returns (r: ScanResult)
      requires Valid()
      modifies this`pos
      ensures Valid() && pos >= old(pos)
      ensures r == None ==> Lexed(old(Rest())) == Done && Rest() == ""
      ensures r.Some? ==> pos > old(pos)
      ensures r.Some? && r.value.Ok? ==> Lexed(old(Rest())) == More(r.value.value, Lexed(Rest()))
      ensures r.Some? && r.value.Err? ==> Lexed(old(Rest())) == Fault(r.value.error)
      decreases |input| - pos
    {
      hide Lexed;
      hide LexOne;
      hide Visible;
      hide SpanLen;
      ghost var all := Rest();
      SkipWhitespace();
      ghost var rest := Rest();
      assert Lexed(all) == Lexed(rest) by {
        LexedWhitespace(all);
        assert rest == all[SpanLen(all, IsSpace)..];
      }
      if pos == |input| {
        LexedNothing();
        return None;
      }
      if input[pos] == '#' {
        SkipToEol();
        assert Lexed(rest) == Lexed(Rest()) by {
          LexedComment(rest);
          assert Rest() == rest[SpanLen(rest, NotNewline)..];
        }
        r := ScanToken();
      } else {
        r := ScanVisible();
      }
    }

    /** Past whitespace and comments. */
    method ScanVisible() returns (r: ScanResult)
      requires pos < |input| && !IsSpace(input[pos]) && input[pos] != '#'
      modifies this`pos
      ensures Valid() && pos > old(pos) && r.Some?
      ensures r.value.Ok? ==> Lexed(old(Rest())) == More(r.value.value, Lexed(Rest()))
      ensures r.value.Err? ==> Lexed(old(Rest())) == Fault(r.value.error)
    {
      ghost var rest := Rest();
      r := ScanLexeme();
      assert Rest() == rest[LexOne(rest).len..];
      LexedToken(rest);
    }

    method ScanLexeme() returns (r: ScanResult)
      requires pos < |input| && !IsSpace(input[pos]) && input[pos] != '#'
      modifies this`pos
      ensures Valid() && pos == old(pos) + LexOne(old(Rest())).len
      ensures match LexOne(old(Rest())) case Tok(t, _) => r == Some(Ok(t)) case Bad(e, _) => r == Some(Err(e))
    {
      match input[pos] {
        case '+' => r := OneChar(Plus);
        case '-' => r := OneChar(Minus);
        case '=' => r := OneChar(Equals);
        case '[' => r := OneChar(RangeStart);
        case ']' => r := OneChar(RangeEnd);
        case ',' => r := OneChar(Comma);
        case '"' => r := ScanQuoted();
        case '@' => r := ScanIndent();
        case _ => r := ScanUnquoted();
      }
    }

    method OneChar(token: Token) returns (r: ScanResult)
      requires pos < |input|
      modifies this`pos
      ensures pos == old(pos) + 1 <= |input| && r == Some(Ok(token))
    {
      pos := pos + 1;
      r := Some(Ok(token));
    }

    method SkipWhitespace()
      requires Valid()
      modifies this`pos
      ensures Valid() && pos == old(pos) + SpanLen(old(Rest()), IsSpace)
    {
      while pos < |input| && IsSpace(input[pos])
        invariant Valid() && old(pos) <= pos
        invariant pos + SpanLen(Rest(), IsSpace) == old(pos) + SpanLen(old(Rest()), IsSpace)
        decreases |input| - pos
      {
        assert Rest()[1..] == input[pos + 1..];
        pos := pos + 1;
      }
    }

    method SkipToEol()
      requires Valid()
      modifies this`pos
      ensures Valid() && pos == old(pos) + SpanLen(old(Rest()), NotNewline)
    {
      while pos < |input| && input[pos] != '\n'
        invariant Valid() && old(pos) <= pos
        invariant pos + SpanLen(Rest(), NotNewline) == old(pos) + SpanLen(old(Rest()), NotNewline)
        decreases |input| - pos
      {
        assert Rest()[1..] == input[pos + 1..];
        pos := pos + 1;
      }
    }

    /** Walks the text after an opening quote. */
    static method FindQuote(body: string) returns (q: Quote)
      ensures q == ScanQuote(body)
    {
      var k := 0;
      assert body[0..] == body;
      while k < |body| && body[k] != '"' && body[k] != '\n'
        invariant k <= |body|
        invariant ScanQuote(body) == AddLen(k, ScanQuote(body[k..]))
      {
        if body[k] == '\\' {
          if k + 1 == |body| {
            assert body[k..] == "\\";
            return Broken(UnterminatedString, k + 1);
          }
          ScanQuoteStep(body, k, 2);
          k := k + 2;
        } else {
          ScanQuoteStep(body, k, 1);
          k := k + 1;
        }
      }
      ghost var tail := body[k..];
      if k == |body| {
        assert tail == "";
        q := Broken(UnterminatedString, k);
      } else if body[k] == '\n' {
        assert tail[0] == '\n';
        q := Broken(NewlineInString, k);
      } else {
        assert tail[0] == '"';
        q := Closed(k);
      }
    }

    method ScanQuoted() returns (r: ScanResult)
      requires pos < |input| && input[pos] == '"'
      modifies this`pos
      ensures Valid() && pos == old(pos) + LexOne(old(Rest())).len
      ensures match LexOne(old(Rest())) case Tok(t, _) => r == Some(Ok(t)) case Bad(e, _) => r == Some(Err(e))
    {
      ghost var s := Rest();
      pos := pos + 1;
      var start := pos;
      assert s[1..] == input[start..];
      var q := FindQuote(input[start..]);
      match q {
        case Closed(n) =>
          var raw := input[start..start + n];
          assert raw == s[1..1 + n];
          pos := start + n + 1;
          r := Some(Ok(Quoted(raw)));
        case Broken(e, n) =>
          pos := start + n;
          r := Some(Err(e));
      }
    }

    method ScanUnquoted() returns (r: ScanResult)
      requires pos < |input| && IsWordChar(input[pos])
      modifies this`pos
      ensures Valid()
      ensures var n := SpanLen(old(Rest()), IsWordChar);
              n > 0 && pos == old(pos) + n && r == Some(Ok(Unquoted(old(Rest())[..n])))
    {
      var start := pos;
      while pos < |input| && IsWordChar(input[pos])
        invariant start <= pos <= |input|
        invariant pos + SpanLen(Rest(), IsWordChar) == start + SpanLen(old(Rest()), IsWordChar)
        decreases |input| - pos
      {
        assert Rest()[1..] == input[pos + 1..];
        pos := pos + 1;
      }
      var raw := input[start..pos];
      assert raw == old(Rest())[..pos - start];
      r := Some(Ok(Unquoted(raw)));
    }

    method SkipDigits()
      requires Valid()
      modifies this`pos
      ensures Valid() && pos == old(pos) + SpanLen(old(Rest()), IsDigit)
    {
      while pos < |input| && IsDigit(input[pos])
        invariant Valid() && old(pos) <= pos
        invariant pos + SpanLen(Rest(), IsDigit) == old(pos) + SpanLen(old(Rest()), IsDigit)
        decreases |input| - pos
      {
        assert Rest()[1..] == input[pos + 1..];
        pos := pos + 1;
      }
    }

    method ScanIndent() returns (r: ScanResult)
      requires pos < |input| && input[pos] == '@'
      modifies this`pos
      ensures Valid()
      ensures pos == old(pos) + LexIndent(old(Rest())).len
      ensures match LexIndent(old(Rest())) case Tok(t, _) => r == Some(Ok(t)) case Bad(e, _) => r == Some(Err(e))
    {
      hide IndentToken;
      hide LexIndent;
      hide SpanLen;
      ghost var s := Rest();
      var negative, sign := false, 1;
      if pos + 1 < |input| && input[pos + 1] == '+' {
        sign := 2;
      } else if pos + 1 < |input| && input[pos + 1] == '-' {
        negative, sign := true, 2;
      }
      assert s[sign..] == input[pos + sign..];
      LexIndentParts(s, sign, negative);
      pos := pos + sign;
      var start := pos;
      SkipDigits();
      var digits := input[start..pos];
      SliceOfTail(input, start, pos - start);
      r := Some(IndentToken(negative, digits));
    }
  }

  lemma LexIndentParts(s: string, sign: nat, negative: bool)
    requires s != "" && sign == (if |s| > 1 && (s[1] == '+' || s[1] == '-') then 2 else 1)
    requires negative <==> |s| > 1 && s[1] == '-'
    ensures var n := SpanLen(s[sign..], IsDigit);
            && LexIndent(s).len == sign + n
            && match IndentToken(negative, s[sign..][..n])
               case Ok(t) => LexIndent(s) == Tok(t, sign + n)
               case Err(e) => LexIndent(s) == Bad(e, sign + n)
  {
  }
}
