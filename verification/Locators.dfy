/** Locators: lines named by number, by number and hash, or as a range (crates/aifed/src/locator.rs). */
module Locators {
  import opened Prelude
  import opened Decimals
  import opened Whitespace

  datatype Locator =
    | Hashline(line: nat, hash: string)
    | SingleLine(number: nat)
    | LineRange(start: nat, end: nat)
    | HashlineRange(start: nat, startHash: string, end: nat, endHash: string)
  {
    /** The virtual line 0:00, before the first line of the file. */
    predicate IsVirtual() { Hashline? && line == 0 && hash == "00" }

    /** The `Display` form. */
    function Print(): string {
      match this
      case Hashline(l, h) => Decimal(l) + ":" + h
      case SingleLine(n) => Decimal(n)
      case LineRange(s, e) => "[" + Decimal(s) + "," + Decimal(e) + "]"
      case HashlineRange(s, sh, e, eh) => "[" + (Decimal(s) + ":" + sh) + "," + (Decimal(e) + ":" + eh) + "]"
    }
  }

  datatype LocatorError =
    | MissingComma | StartAfterEnd | StartBelowOne | MixedBoundaries | InvalidLineNumber | InvalidHash | InvalidLocator

  /** The index of the first `c`, or the length. */
  function IndexOfChar(s: string, c: char): (i: nat)
    ensures i <= |s|
    ensures i < |s| ==> s[i] == c
    ensures forall k :: 0 <= k < i ==> s[k] != c
  {
    if s == "" || s[0] == c then 0 else 1 + IndexOfChar(s[1..], c)
  }

  predicate IsHashChar(c: char) { '0' <= c <= '9' || 'A' <= c <= 'V' || 'a' <= c <= 'v' }

  function UpperChar(c: char): char { if 'a' <= c <= 'z' then (c as int - 32) as char else c }

  function Upper(s: string): (r: string)
    ensures |r| == |s|
    ensures forall i :: 0 <= i < |s| ==> r[i] == UpperChar(s[i])
  {
    if s == "" then "" else [UpperChar(s[0])] + Upper(s[1..])
  }

  predicate IsBracketed(s: string) { s != "" && s[0] == '[' && s[|s| - 1] == ']' }

  predicate AllHashChars(h: string) { forall i :: 0 <= i < |h| ==> IsHashChar(h[i]) }

  function Parse(raw: string): Result<Locator, LocatorError>
    decreases |raw|
  {
    var input := Trim(raw);
    if IsBracketed(input) then
      var inner := input[1..|input| - 1];
      var comma := IndexOfChar(inner, ',');
      if comma == |inner| then Err(MissingComma)
      else ParseRange(Parse(Trim(inner[..comma])), Parse(Trim(inner[comma + 1..])))
    else ParsePlain(input)
  }

  /** A hashline or a bare line number. */
  function ParsePlain(input: string): Result<Locator, LocatorError> {
    var colon := IndexOfChar(input, ':');
    if colon < |input| then
      match ParseUsize(input[..colon])
      case None => Err(InvalidLineNumber)
      case Some(line) =>
        if AllHashChars(input[colon + 1..]) then Ok(Hashline(line, Upper(input[colon + 1..]))) else Err(InvalidHash)
    else
      match ParseUsize(input)
      case None => Err(InvalidLocator)
      case Some(line) => Ok(SingleLine(line))
  }

  /** The two boundaries of a bracketed range: the left one's error is reported first. */
  function ParseRange(left: Result<Locator, LocatorError>, right: Result<Locator, LocatorError>):
    Result<Locator, LocatorError>
  {
    if left.Err? then left
    else if right.Err? then right
    else
      match (left.value, right.value)
      case (SingleLine(s), SingleLine(e)) =>
        if s > e then Err(StartAfterEnd) else if s == 0 then Err(StartBelowOne) else Ok(LineRange(s, e))
      case (Hashline(s, sh), Hashline(e, eh)) =>
        if s > e then Err(StartAfterEnd) else Ok(HashlineRange(s, sh, e, eh))
      case _ => Err(MixedBoundaries)
  }

  predicate CanonicalHash(h: string) {
    forall i :: 0 <= i < |h| ==> '0' <= h[i] <= '9' || 'A' <= h[i] <= 'V'
  }

  /** What parsing can produce. */
  predicate WellFormed(l: Locator) {
    match l
    case Hashline(n, h) => n <= USIZE_MAX && CanonicalHash(h)
    case SingleLine(n) => n <= USIZE_MAX
    case LineRange(s, e) => 1 <= s <= e <= USIZE_MAX
    case HashlineRange(s, sh, e, eh) => s <= e <= USIZE_MAX && CanonicalHash(sh) && CanonicalHash(eh)
  }

  lemma {:induction false} UpperCanonical(h: string)
    requires AllHashChars(h)
    ensures CanonicalHash(Upper(h))
  {
  }

  lemma ParsePlainWellFormed(input: string)
    ensures ParsePlain(input).Ok? ==> WellFormed(ParsePlain(input).value)
  {
    var colon := IndexOfChar(input, ':');
    if colon < |input| && AllHashChars(input[colon + 1..]) {
      UpperCanonical(input[colon + 1..]);
    }
  }

  lemma {:induction false} ParseWellFormed(raw: string)
    ensures Parse(raw).Ok? ==> WellFormed(Parse(raw).value)
    decreases |raw|
  {
    hide ParsePlain;
    hide Trim;
    var input := Trim(raw);
    if IsBracketed(input) {
      var inner := input[1..|input| - 1];
      var comma := IndexOfChar(inner, ',');
      if comma < |inner| {
        ParseWellFormed(Trim(inner[..comma]));
        ParseWellFormed(Trim(inner[comma + 1..]));
      }
    } else {
      ParsePlainWellFormed(input);
    }
  }

  // ---------- printing, then parsing ----------

  lemma TrimNothing(s: string)
    requires s != "" && !IsUnicodeSpace(s[0]) && !IsUnicodeSpace(s[|s| - 1])
    ensures Trim(s) == s
  {
  }

  lemma {:induction false} IndexOfFirst(s: string, c: char, i: nat)
    requires i < |s| && s[i] == c && forall k :: 0 <= k < i ==> s[k] != c
    ensures IndexOfChar(s, c) == i
  {
    if i > 0 {
      IndexOfFirst(s[1..], c, i - 1);
    }
  }

  lemma {:induction false} UpperFixed(h: string)
    requires CanonicalHash(h)
    ensures Upper(h) == h
  {
  }

  lemma SplitAtColon(d: string, h: string)
    requires forall k :: 0 <= k < |d| ==> d[k] != ':'
    ensures var s := d + ":" + h;
            IndexOfChar(s, ':') == |d| && s[..|d|] == d && s[|d| + 1..] == h
  {
    hide IndexOfChar;
    var s := d + ":" + h;
    forall k | 0 <= k < |d| ensures s[k] != ':' {
      assert s[k] == d[k];
    }
    IndexOfFirst(s, ':', |d|);
  }

  lemma NumberBeforeColon(n: nat, h: string)
    ensures var d := Decimal(n);
            && (forall k :: 0 <= k < |d| ==> d[k] != ':')
            && !IsBracketed(d + ":" + h)
  {
    var d := Decimal(n);
    assert (d + ":" + h)[0] == d[0] && IsDigit(d[0]);
  }

  lemma {:induction false} PrintParseHashline(line: nat, hash: string)
    requires WellFormed(Hashline(line, hash))
    ensures Parse(Hashline(line, hash).Print()) == Ok(Hashline(line, hash))
  {
    hide Decimal;
    hide IsUnicodeSpace;
    hide ParseUsize;
    hide Upper;
    hide Trim;
    hide IndexOfChar;
    hide IsBracketed;
    var d := Decimal(line);
    PrintedEnds(Hashline(line, hash));
    TrimNothing(d + ":" + hash);
    NumberBeforeColon(line, hash);
    SplitAtColon(d, hash);
    ParsePrinted(line);
    UpperFixed(hash);
  }

  lemma {:induction false} PrintParseLine(line: nat)
    requires WellFormed(SingleLine(line))
    ensures Parse(SingleLine(line).Print()) == Ok(SingleLine(line))
  {
    var s := Decimal(line);
    assert IsDigit(s[0]) && IsDigit(s[|s| - 1]);
    TrimNothing(s);
    ParsePrinted(line);
    var colon := IndexOfChar(s, ':');
    assert colon < |s| ==> IsDigit(s[colon]);
  }

  /** A bracketed pair parses as its two halves, when neither has a comma or outer blanks. */
  lemma {:induction false} ParseBracketed(left: string, right: string)
    requires left != "" && right != ""
    requires !IsUnicodeSpace(left[0]) && !IsUnicodeSpace(left[|left| - 1])
    requires !IsUnicodeSpace(right[0]) && !IsUnicodeSpace(right[|right| - 1])
    requires forall i :: 0 <= i < |left| ==> left[i] != ','
    ensures Parse("[" + left + "," + right + "]") == ParseRange(Parse(left), Parse(right))
  {
    hide ParsePlain;
    var s := "[" + left + "," + right + "]";
    TrimNothing(s);
    var inner := s[1..|s| - 1];
    assert inner == left + "," + right;
    IndexOfFirst(inner, ',', |left|);
    assert inner[..|left|] == left && inner[|left| + 1..] == right;
    TrimNothing(left);
    TrimNothing(right);
  }

  lemma PrintedEnds(l: Locator)
    requires WellFormed(l) && (l.Hashline? || l.SingleLine?)
    ensures var s := l.Print();
            && s != "" && !IsUnicodeSpace(s[0]) && !IsUnicodeSpace(s[|s| - 1])
            && forall i :: 0 <= i < |s| ==> s[i] != ','
  {
    match l
    case Hashline(n, h) =>
      var d, s := Decimal(n), l.Print();
      assert s[0] == d[0] && IsDigit(d[0]);
      assert s[|s| - 1] == if h == "" then ':' else h[|h| - 1];
      forall i | 0 <= i < |s| ensures s[i] != ',' {
        if i < |d| {
          assert s[i] == d[i] && IsDigit(d[i]);
        } else if i > |d| {
          assert s[i] == h[i - |d| - 1];
        }
      }
    case SingleLine(n) =>
      var d := Decimal(n);
      assert IsDigit(d[0]) && IsDigit(d[|d| - 1]);
  }

  lemma PrintParsePlain(l: Locator)
    requires WellFormed(l) && (l.Hashline? || l.SingleLine?)
    ensures Parse(l.Print()) == Ok(l)
  {
    match l
    case Hashline(n, h) => PrintParseHashline(n, h);
    case SingleLine(n) => PrintParseLine(n);
  }

  lemma {:induction false} PrintParsePair(left: Locator, right: Locator)
    requires WellFormed(left) && (left.Hashline? || left.SingleLine?)
    requires WellFormed(right) && (right.Hashline? || right.SingleLine?)
    ensures Parse("[" + left.Print() + "," + right.Print() + "]") == ParseRange(Ok(left), Ok(right))
  {
    hide Parse;
    PrintedEnds(left);
    PrintedEnds(right);
    ParseBracketed(left.Print(), right.Print());
    PrintParsePlain(left);
    PrintParsePlain(right);
  }

  /** Every locator parsing can produce is printed so that it parses back to itself. */
  lemma {:induction false} PrintParse(l: Locator)
    requires WellFormed(l)
    ensures Parse(l.Print()) == Ok(l)
  {
    hide Parse;
    match l
    case Hashline(_, _) => PrintParsePlain(l);
    case SingleLine(_) => PrintParsePlain(l);
    case LineRange(s, e) =>
      PrintParsePair(SingleLine(s), SingleLine(e));
    case HashlineRange(s, sh, e, eh) =>
      PrintParsePair(Hashline(s, sh), Hashline(e, eh));
  }

  // ---------- other ways to write a locator ----------

  /** The same character, or the same letter in the other case. */
  predicate SameLetter(a: char, b: char) {
    a == b || ('a' <= a <= 'z' && b as int == a as int - 32) || ('a' <= b <= 'z' && a as int == b as int - 32)
  }

  ghost predicate SameLetters(s: string, t: string) {
    |s| == |t| && forall i :: 0 <= i < |s| ==> SameLetter(s[i], t[i])
  }

  lemma {:induction false} TrimStartSame(s: string, t: string)
    requires SameLetters(s, t)
    ensures SameLetters(TrimStart(s), TrimStart(t))
  {
    if s != "" {
      assert SameLetter(s[0], t[0]);
      if IsUnicodeSpace(s[0]) {
        TrimStartSame(s[1..], t[1..]);
      }
    }
  }

  lemma {:induction false} TrimEndSame(s: string, t: string)
    requires SameLetters(s, t)
    ensures SameLetters(TrimEnd(s), TrimEnd(t))
  {
    if s != "" {
      var n := |s| - 1;
      assert SameLetter(s[n], t[n]);
      if IsUnicodeSpace(s[n]) {
        TrimEndSame(s[..n], t[..n]);
      }
    }
  }

  lemma TrimSame(s: string, t: string)
    requires SameLetters(s, t)
    ensures SameLetters(Trim(s), Trim(t))
  {
    TrimStartSame(s, t);
    TrimEndSame(TrimStart(s), TrimStart(t));
  }

  lemma {:induction false} IndexSame(s: string, t: string, c: char)
    requires SameLetters(s, t) && c < 'A'
    ensures IndexOfChar(s, c) == IndexOfChar(t, c)
  {
    if s != "" {
      assert SameLetter(s[0], t[0]);
      if s[0] != c {
        IndexSame(s[1..], t[1..], c);
      }
    }
  }

  lemma {:induction false} UpperSame(s: string, t: string)
    requires SameLetters(s, t)
    ensures AllHashChars(s) <==> AllHashChars(t)
    ensures Upper(s) == Upper(t)
  {
    forall i | 0 <= i < |s| ensures (IsHashChar(s[i]) <==> IsHashChar(t[i])) && UpperChar(s[i]) == UpperChar(t[i]) {
      LetterSame(s[i], t[i]);
    }
    hide IsHashChar;
    hide UpperChar;
  }

  lemma LetterSame(a: char, b: char)
    requires SameLetter(a, b)
    ensures (IsHashChar(a) <==> IsHashChar(b)) && UpperChar(a) == UpperChar(b)
  {
  }

  lemma NumberSame(s: string, t: string)
    requires SameLetters(s, t)
    ensures ParseUsize(s) == ParseUsize(t)
  {
    hide DigitsValue;
    forall i | 0 <= i < |s| ensures IsDigit(s[i]) || s[i] == '+' || IsDigit(t[i]) || t[i] == '+' ==> s[i] == t[i] {
      assert SameLetter(s[i], t[i]);
    }
    if s != t {
      var i :| 0 <= i < |s| && s[i] != t[i];
      assert s[i] in s && t[i] in t;
    }
  }

  lemma PlainSame(s: string, t: string)
    requires SameLetters(s, t)
    ensures ParsePlain(s) == ParsePlain(t)
  {
    hide ParseUsize;
    IndexSame(s, t, ':');
    var colon := IndexOfChar(s, ':');
    if colon < |s| {
      NumberSame(s[..colon], t[..colon]);
      UpperSame(s[colon + 1..], t[colon + 1..]);
    } else {
      NumberSame(s, t);
    }
  }

  /** Upper and lower case are the same to the parser, errors included. */
  lemma {:induction false} ParseIgnoresCase(s: string, t: string)
    requires SameLetters(s, t)
    ensures Parse(s) == Parse(t)
    decreases |s|
  {
    hide ParsePlain;
    hide Trim;
    hide SameLetter;
    TrimSame(s, t);
    var a, b := Trim(s), Trim(t);
    BracketSame(a, b);
    if IsBracketed(a) {
      var c, d := a[1..|a| - 1], b[1..|b| - 1];
      IndexSame(c, d, ',');
      var comma := IndexOfChar(c, ',');
      if comma < |c| {
        TrimSame(c[..comma], d[..comma]);
        TrimSame(c[comma + 1..], d[comma + 1..]);
        ParseIgnoresCase(Trim(c[..comma]), Trim(d[..comma]));
        ParseIgnoresCase(Trim(c[comma + 1..]), Trim(d[comma + 1..]));
      }
    } else {
      PlainSame(a, b);
    }
  }

  lemma BracketSame(s: string, t: string)
    requires SameLetters(s, t)
    ensures IsBracketed(s) <==> IsBracketed(t)
  {
    if s != "" {
      assert SameLetter(s[0], t[0]) && SameLetter(s[|s| - 1], t[|t| - 1]);
    }
  }

  lemma {:induction false} TrimStartBlanks(blank: string, s: string)
    requires (forall i :: 0 <= i < |blank| ==> IsUnicodeSpace(blank[i])) && s != "" && !IsUnicodeSpace(s[0])
    ensures TrimStart(blank + s) == s
  {
    if blank == "" {
      assert blank + s == s;
    } else {
      assert (blank + s)[1..] == blank[1..] + s;
      TrimStartBlanks(blank[1..], s);
    }
  }

  lemma {:induction false} TrimEndBlanks(s: string, blank: string)
    requires (forall i :: 0 <= i < |blank| ==> IsUnicodeSpace(blank[i])) && s != "" && !IsUnicodeSpace(s[|s| - 1])
    ensures TrimEnd(s + blank) == s
  {
    if blank == "" {
      assert s + blank == s;
    } else {
      assert (s + blank)[..|s + blank| - 1] == s + blank[..|blank| - 1];
      TrimEndBlanks(s, blank[..|blank| - 1]);
    }
  }

  ghost predicate AllBlank(s: string) { forall i :: 0 <= i < |s| ==> IsUnicodeSpace(s[i]) }

  lemma TrimBlanks(a: string, s: string, b: string)
    requires AllBlank(a) && AllBlank(b) && s != "" && !IsUnicodeSpace(s[0]) && !IsUnicodeSpace(s[|s| - 1])
    ensures Trim(a + s + b) == s
  {
    ConcatAssociative(a, s, b);
    TrimStartBlanks(a, s + b);
    TrimEndBlanks(s, b);
  }

  /** White space around a locator changes nothing. */
  lemma {:induction false} ParseIgnoresBlanks(a: string, s: string, b: string)
    requires AllBlank(a) && AllBlank(b) && s != "" && !IsUnicodeSpace(s[0]) && !IsUnicodeSpace(s[|s| - 1])
    ensures Parse(a + s + b) == Parse(s)
  {
    TrimBlanks(a, s, b);
    TrimNothing(s);
  }

  /**
   * What a bracketed pair of printed boundaries, with blanks around each, parses to: a range if both are line numbers
   * or both hashlines and the first is not after the second; line numbers count from 1.
   */
  lemma {:induction false} ParsePair(left: Locator, right: Locator, a: string, b: string, c: string, d: string)
    requires WellFormed(left) && (left.Hashline? || left.SingleLine?)
    requires WellFormed(right) && (right.Hashline? || right.SingleLine?)
    requires AllBlank(a) && AllBlank(b) && AllBlank(c) && AllBlank(d)
    ensures var r := Parse("[" + (a + left.Print() + b) + "," + (c + right.Print() + d) + "]");
            if left.Hashline? && right.Hashline? then
              r == if left.line > right.line then Err(StartAfterEnd)
                   else Ok(HashlineRange(left.line, left.hash, right.line, right.hash))
            else if left.SingleLine? && right.SingleLine? then
              r == if left.number > right.number then Err(StartAfterEnd)
                   else if left.number == 0 then Err(StartBelowOne) else Ok(LineRange(left.number, right.number))
            else r == Err(MixedBoundaries)
  {
    hide Trim;
    hide Parse;
    hide IsUnicodeSpace;
    var l, r := a + left.Print() + b, c + right.Print() + d;
    PrintedEnds(left);
    PrintedEnds(right);
    PrintParsePlain(left);
    PrintParsePlain(right);
    TrimBlanks(a, left.Print(), b);
    TrimBlanks(c, right.Print(), d);
    NoComma(a);
    NoComma(b);
    assert forall i :: 0 <= i < |l| ==> l[i] != ',';
    ParseInBrackets(l, r);
  }

  lemma NoComma(blank: string)
    requires AllBlank(blank)
    ensures forall i :: 0 <= i < |blank| ==> blank[i] != ','
  {
  }

  lemma {:induction false} ParseInBrackets(left: string, right: string)
    requires forall i :: 0 <= i < |left| ==> left[i] != ','
    ensures Parse("[" + left + "," + right + "]") == ParseRange(Parse(Trim(left)), Parse(Trim(right)))
  {
    hide ParsePlain;
    var s := "[" + left + "," + right + "]";
    TrimNothing(s);
    var inner := s[1..|s| - 1];
    assert inner == left + "," + right;
    IndexOfFirst(inner, ',', |left|);
    assert inner[..|left|] == left && inner[|left| + 1..] == right;
  }

  /** A number before something that is no hash is an error, and so is no number at all. */
  lemma {:induction false} ParseBadHash(n: nat, h: string)
    requires n <= USIZE_MAX && h != "" && !IsUnicodeSpace(h[|h| - 1])
    ensures Parse(Decimal(n) + ":" + h).Ok? <==>
              forall i :: 0 <= i < |h| ==> '0' <= h[i] <= '9' || 'A' <= h[i] <= 'V' || 'a' <= h[i] <= 'v'
    ensures Parse(Decimal(n) + ":" + h).Err? ==> Parse(Decimal(n) + ":" + h) == Err(InvalidHash)
  {
    hide Decimal;
    hide ParseUsize;
    hide Upper;
    hide Trim;
    hide IndexOfChar;
    hide IsBracketed;
    var d := Decimal(n);
    var s := d + ":" + h;
    assert IsDigit(d[0]) && s[0] == d[0] && s[|s| - 1] == h[|h| - 1];
    TrimNothing(s);
    NumberBeforeColon(n, h);
    SplitAtColon(d, h);
    ParsePrinted(n);
  }

  /** Text that is no locator: brackets without a comma, a hash after no number, or neither a colon nor a number. */
  lemma {:induction false} ParseMalformed(a: string, b: string)
    requires forall i :: 0 <= i < |a| ==> a[i] != ':' && a[i] != ','
    ensures Parse("[" + a + "]") == Err(MissingComma)
    ensures var s := a + ":" + b;
            !IsBracketed(s) && !IsUnicodeSpace(s[0]) && !IsUnicodeSpace(s[|s| - 1]) && ParseUsize(a).None? ==>
              Parse(s) == Err(InvalidLineNumber)
    ensures a != "" && !IsBracketed(a) && !IsUnicodeSpace(a[0]) && !IsUnicodeSpace(a[|a| - 1]) ==>
              Parse(a) == if ParseUsize(a).None? then Err(InvalidLocator) else Ok(SingleLine(ParseUsize(a).value))
  {
    hide ParseUsize;
    hide IsUnicodeSpace;
    hide Trim;
    hide IsBracketed;
    hide ParsePlain;
    InBrackets(a);
    SplitAtColon(a, b);
    var s := a + ":" + b;
    if !IsUnicodeSpace(s[0]) && !IsUnicodeSpace(s[|s| - 1]) {
      TrimNothing(s);
    }
    if a != "" && !IsUnicodeSpace(a[0]) && !IsUnicodeSpace(a[|a| - 1]) {
      TrimNothing(a);
    }
    PlainParts(s);
    PlainParts(a);
    assert IndexOfChar(a, ':') < |a| ==> a[IndexOfChar(a, ':')] == ':';
  }

  lemma PlainParts(s: string)
    ensures var k := IndexOfChar(s, ':');
            && (k < |s| && ParseUsize(s[..k]).None? ==> ParsePlain(s) == Err(InvalidLineNumber))
            && (k == |s| ==>
                  ParsePlain(s)
                  == if ParseUsize(s).None? then Err(InvalidLocator) else Ok(SingleLine(ParseUsize(s).value)))
  {
  }

  lemma InBrackets(a: string)
    requires forall i :: 0 <= i < |a| ==> a[i] != ','
    ensures Parse("[" + a + "]") == Err(MissingComma)
  {
    hide IndexOfChar;
    var s := "[" + a + "]";
    TrimNothing(s);
    assert s[1..|s| - 1] == a;
  }
}
