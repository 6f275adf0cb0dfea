/**
 * The base protocol of the language servers: messages framed by a Content-Length header
 * (crates/aifed-daemon/src/lsp/protocol.rs), and the loop that reads them (crates/aifed-daemon/src/lsp/client.rs).
 */
module Framing {
  import opened Prelude
  import opened Decimals
  import opened Whitespace

  newtype Byte = x: int | 0 <= x < 256

  type Bytes = seq<Byte>

  const NEWLINE: Byte := 10
  const PREFIX := "Content-Length:"
  const SPACED_PREFIX := "Content-Length :"

  predicate IsAscii(s: string) { forall i :: 0 <= i < |s| ==> s[i] < '\U{80}' }

  function Ascii(s: string): (r: Bytes)
    requires IsAscii(s)
    ensures |r| == |s|
  {
    seq(|s|, i requires 0 <= i < |s| => (s[i] as int) as Byte)
  }

  /** How bytes are read as UTF-8; all that is known of it is what it does to ASCII. */
  datatype Env = Env(utf8: Bytes -> Option<string>) {
    ghost predicate ReadsAscii() { forall s :: IsAscii(s) ==> utf8(Ascii(s)) == Some(s) }
  }

  /** The length a header line declares, if it is a Content-Length line. */
  function ParseContentLength(header: string): Option<nat> {
    if PREFIX <= header then ParseUsize(Trim(header[|PREFIX|..]))
    else if SPACED_PREFIX <= header then ParseUsize(Trim(header[|SPACED_PREFIX|..]))
    else None
  }

  function LengthLine(n: nat): (s: string)
    ensures IsAscii(s) && '\n' !in s
  {
    PREFIX + " " + Decimal(n)
  }

  function EncodeMessage(content: Bytes): Bytes {
    Ascii(LengthLine(|content|) + "\r\n\r\n") + content
  }

  // ---------- the reader ----------

  /** The bytes up to and including the first newline, or all of them. */
  function LineLength(input: Bytes): (n: nat)
    ensures n <= |input|
    ensures input != [] ==> n > 0
  {
    if input == [] then 0 else if input[0] == NEWLINE then 1 else 1 + LineLength(input[1..])
  }

  /** The end of the input, or the length declared by a block of headers and the input after it. */
  datatype HeaderBlock = EndOfInput | HeaderBlock(length: Option<nat>, rest: Bytes)

  function ReadHeaders(env: Env, input: Bytes, length: Option<nat>): (r: HeaderBlock)
    ensures r.HeaderBlock? ==> |r.rest| < |input|
    decreases |input|
  {
    if input == [] then EndOfInput
    else
      var n := LineLength(input);
      match env.utf8(input[..n])
      case None => HeaderBlock(length, input[n..])
      case Some(text) =>
        var line := Trim(text);
        if line == "" then HeaderBlock(length, input[n..])
        else ReadHeaders(env, input[n..], if ParseContentLength(line).Some? then ParseContentLength(line) else length)
  }

  /** The bodies read until the input ends. */
  function ReadMessages(env: Env, input: Bytes): seq<Bytes>
    decreases |input|
  {
    match ReadHeaders(env, input, None)
    case EndOfInput => []
    case HeaderBlock(None, rest) => ReadMessages(env, rest)
    case HeaderBlock(Some(n), rest) => if n > |rest| then [] else [rest[..n]] + ReadMessages(env, rest[n..])
  }

  method MessageLoop(env: Env, stdout: Bytes) returns (bodies: seq<Bytes>)
    ensures bodies == ReadMessages(env, stdout)
  {
    bodies := [];
    var input := stdout;
    while true
      invariant bodies + ReadMessages(env, input) == ReadMessages(env, stdout)
      decreases |input|
    {
      var contentLength: Option<nat> := None;
      ghost var start := input;
      while true
        invariant ReadHeaders(env, input, contentLength) == ReadHeaders(env, start, None)
        invariant |input| <= |start|
        decreases |input|
      {
        if input == [] {
          return;
        }
        var n := LineLength(input);
        var buffer := env.utf8(input[..n]);
        ghost var before := input;
        input := input[n..];
        if buffer.None? {
          break;
        }
        var line := Trim(buffer.value);
        if line == "" {
          break;
        }
        var length := ParseContentLength(line);
        if length.Some? {
          contentLength := length;
        }
      }
      if contentLength.Some? {
        if contentLength.value > |input| {
          return;
        }
        bodies := bodies + [input[..contentLength.value]];
        input := input[contentLength.value..];
      }
    }
  }

  // ---------- what comes back ----------

  /** A header field as the protocol has it: ASCII, on one line, not blank. */
  predicate IsField(h: string) { IsAscii(h) && '\n' !in h && Trim(h) != "" }

  /** A message with any header fields. */
  datatype Frame = Frame(fields: seq<string>, body: Bytes)

  /** The length declared by the last Content-Length field, `length` if there is none. */
  function DeclaredLength(fields: seq<string>, length: Option<nat>): Option<nat> {
    if fields == [] then length
    else
      var own := ParseContentLength(Trim(fields[0]));
      DeclaredLength(fields[1..], if own.Some? then own else length)
  }

  ghost predicate WellFramed(f: Frame) {
    && (forall h :: h in f.fields ==> IsField(h))
    && DeclaredLength(f.fields, None) == Some(|f.body|)
  }

  function FieldBytes(h: string): Bytes
    requires IsAscii(h)
  {
    Ascii(h + "\r\n")
  }

  function FieldsBytes(fields: seq<string>): Bytes
    requires forall h :: h in fields ==> IsField(h)
  {
    if fields == [] then [] else assert IsField(fields[0]); FieldBytes(fields[0]) + FieldsBytes(fields[1..])
  }

  function FrameBytes(f: Frame): Bytes
    requires WellFramed(f)
  {
    FieldsBytes(f.fields) + Ascii("\r\n") + f.body
  }

  function StreamBytes(frames: seq<Frame>): Bytes
    requires forall f :: f in frames ==> WellFramed(f)
  {
    if frames == [] then [] else FrameBytes(frames[0]) + StreamBytes(frames[1..])
  }

  lemma {:induction false} LineLengthOf(line: Bytes, rest: Bytes)
    requires NEWLINE !in line
    ensures LineLength(line + [NEWLINE] + rest) == |line| + 1
  {
    var input := line + [NEWLINE] + rest;
    if line != [] {
      assert input[1..] == line[1..] + [NEWLINE] + rest;
      LineLengthOf(line[1..], rest);
    }
  }

  lemma {:induction false} LineLengthWithout(input: Bytes)
    requires NEWLINE !in input
    ensures LineLength(input) == |input|
  {
    if input != [] {
      LineLengthWithout(input[1..]);
    }
  }

  /** One line, as the reader takes it off the input. */
  lemma FirstLine(h: string, rest: Bytes)
    requires IsAscii(h) && '\n' !in h
    ensures var input := FieldBytes(h) + rest;
            var n := LineLength(input);
            input[..n] == FieldBytes(h) && input[n..] == rest
  {
    var line := Ascii(h + "\r");
    assert FieldBytes(h) == line + [NEWLINE];
    LineLengthOf(line, rest);
    assert FieldBytes(h) + rest == line + [NEWLINE] + rest;
  }

  lemma {:induction false} TrimStartCrLf(h: string)
    ensures TrimStart(h + "\r\n") == if TrimStart(h) == "" then "" else TrimStart(h) + "\r\n"
  {
    if h == "" {
      assert h + "\r\n" == "\r\n" && "\r\n"[1..] == "\n" && "\n"[1..] == "";
    } else {
      assert (h + "\r\n")[1..] == h[1..] + "\r\n";
      if IsUnicodeSpace(h[0]) {
        TrimStartCrLf(h[1..]);
      }
    }
  }

  lemma TrimEndCrLf(h: string)
    ensures TrimEnd(h + "\r\n") == TrimEnd(h)
  {
    var cr := h + "\r";
    assert h + "\r\n" == cr + "\n";
    assert (cr + "\n")[..|cr|] == cr;
    assert cr[..|h|] == h;
  }

  /** Reading a line drops its line ending. */
  lemma TrimCrLf(h: string)
    ensures Trim(h + "\r\n") == Trim(h)
  {
    TrimStartCrLf(h);
    TrimEndCrLf(TrimStart(h));
  }

  lemma BlankLine(env: Env, rest: Bytes, length: Option<nat>)
    requires env.ReadsAscii()
    ensures ReadHeaders(env, Ascii("\r\n") + rest, length) == HeaderBlock(length, rest)
  {
    assert FieldBytes("") == Ascii("\r\n") by {
      assert "" + "\r\n" == "\r\n";
    }
    FirstLine("", rest);
    TrimCrLf("");
  }

  lemma FieldLine(env: Env, h: string, rest: Bytes, length: Option<nat>)
    requires env.ReadsAscii() && IsField(h)
    ensures var own := ParseContentLength(Trim(h));
            ReadHeaders(env, FieldBytes(h) + rest, length) == ReadHeaders(env, rest, if own.Some? then own else length)
  {
    FirstLine(h, rest);
    TrimCrLf(h);
    hide ParseContentLength;
    hide Trim;
    assert env.utf8(FieldBytes(h)) == Some(h + "\r\n");
  }

  lemma {:induction false} ReadFields(env: Env, fields: seq<string>, rest: Bytes, length: Option<nat>)
    requires env.ReadsAscii() && forall h :: h in fields ==> IsField(h)
    ensures ReadHeaders(env, FieldsBytes(fields) + (Ascii("\r\n") + rest), length)
         == HeaderBlock(DeclaredLength(fields, length), rest)
    decreases |fields|
  {
    hide ReadHeaders;
    hide FieldBytes;
    hide Ascii;
    hide ParseContentLength;
    hide IsField;
    if fields == [] {
      BlankLine(env, rest, length);
      assert [] + (Ascii("\r\n") + rest) == Ascii("\r\n") + rest;
    } else {
      var own := ParseContentLength(Trim(fields[0]));
      var more := FieldsBytes(fields[1..]) + (Ascii("\r\n") + rest);
      FieldAscii(fields[0]);
      assert FieldsBytes(fields) + (Ascii("\r\n") + rest) == FieldBytes(fields[0]) + more by {
        ConcatAssociative(FieldBytes(fields[0]), FieldsBytes(fields[1..]), Ascii("\r\n") + rest);
      }
      FieldLine(env, fields[0], more, length);
      ReadFields(env, fields[1..], rest, if own.Some? then own else length);
    }
  }

  lemma {:induction false} FieldsThen(env: Env, fields: seq<string>, more: Bytes, length: Option<nat>)
    requires env.ReadsAscii() && forall h :: h in fields ==> IsField(h)
    ensures ReadHeaders(env, FieldsBytes(fields) + more, length)
         == ReadHeaders(env, more, DeclaredLength(fields, length))
    decreases |fields|
  {
    hide ReadHeaders;
    hide FieldBytes;
    hide Ascii;
    hide ParseContentLength;
    hide IsField;
    if fields == [] {
      assert [] + more == more;
    } else {
      var own := ParseContentLength(Trim(fields[0]));
      FieldAscii(fields[0]);
      ConcatAssociative(FieldBytes(fields[0]), FieldsBytes(fields[1..]), more);
      FieldLine(env, fields[0], FieldsBytes(fields[1..]) + more, length);
      FieldsThen(env, fields[1..], more, if own.Some? then own else length);
    }
  }

  /** A block of headers that declares no length is skipped. */
  lemma SkippedBlock(env: Env, fields: seq<string>, rest: Bytes)
    requires env.ReadsAscii() && (forall h :: h in fields ==> IsField(h)) && DeclaredLength(fields, None) == None
    ensures ReadMessages(env, FieldsBytes(fields) + (Ascii("\r\n") + rest)) == ReadMessages(env, rest)
  {
    hide ReadHeaders;
    hide DeclaredLength;
    hide IsField;
    ReadFields(env, fields, rest, None);
  }

  /** A header line that is no text ends the headers as an empty line does: what follows it is taken for the body. */
  lemma UnreadableLine(env: Env, fields: seq<string>, line: Bytes, rest: Bytes)
    requires env.ReadsAscii() && forall h :: h in fields ==> IsField(h)
    requires NEWLINE !in line && env.utf8(line + [NEWLINE]) == None
    ensures ReadHeaders(env, FieldsBytes(fields) + (line + [NEWLINE] + rest), None)
         == HeaderBlock(DeclaredLength(fields, None), rest)
  {
    hide FieldsBytes;
    hide IsField;
    hide DeclaredLength;
    var more := line + [NEWLINE] + rest;
    FieldsThen(env, fields, more, None);
    LineLengthOf(line, rest);
    assert more[..|line| + 1] == line + [NEWLINE] && more[|line| + 1..] == rest;
  }

  lemma FieldAscii(h: string)
    requires IsField(h)
    ensures IsAscii(h)
  {
  }

  lemma TakeDrop(a: Bytes, b: Bytes)
    ensures (a + b)[..|a|] == a && (a + b)[|a|..] == b
  {
  }

  /** One message is read, and the rest of the input is left. */
  lemma ReadFrame(env: Env, f: Frame, rest: Bytes)
    requires env.ReadsAscii() && WellFramed(f)
    ensures ReadMessages(env, FrameBytes(f) + rest) == [f.body] + ReadMessages(env, rest)
  {
    hide ReadHeaders;
    hide FieldsBytes;
    hide Ascii;
    hide DeclaredLength;
    hide IsField;
    ReadFields(env, f.fields, f.body + rest, None);
    assert FrameBytes(f) + rest == FieldsBytes(f.fields) + (Ascii("\r\n") + (f.body + rest));
    TakeDrop(f.body, rest);
  }

  /** Bodies come back in order, whatever bytes they hold, followed by what the rest of the input gives. */
  lemma {:induction false} ReadStream(env: Env, frames: seq<Frame>, rest: Bytes)
    requires env.ReadsAscii() && forall f :: f in frames ==> WellFramed(f)
    ensures ReadMessages(env, StreamBytes(frames) + rest) == Bodies(frames) + ReadMessages(env, rest)
  {
    hide ReadMessages;
    hide WellFramed;
    hide FrameBytes;
    if frames == [] {
      assert [] + rest == rest;
    } else {
      ConcatAssociative(FrameBytes(frames[0]), StreamBytes(frames[1..]), rest);
      ReadFrame(env, frames[0], StreamBytes(frames[1..]) + rest);
      ReadStream(env, frames[1..], rest);
    }
  }

  function Bodies(frames: seq<Frame>): seq<Bytes> {
    seq(|frames|, i requires 0 <= i < |frames| => frames[i].body)
  }

  // ---------- messages as the client writes them ----------

  lemma {:induction false} TrimNothing(s: string)
    requires s != "" && !IsUnicodeSpace(s[0]) && !IsUnicodeSpace(s[|s| - 1])
    ensures Trim(s) == s && Trim(" " + s) == s
  {
    assert (" " + s)[1..] == s;
  }

  /** The header line the client writes is a field, and it declares the length it was written with. */
  lemma LengthLineDeclares(n: nat)
    requires n <= USIZE_MAX
    ensures IsField(LengthLine(n)) && ParseContentLength(Trim(LengthLine(n))) == Some(n)
  {
    var digits := Decimal(n);
    assert IsDigit(digits[0]) && IsDigit(digits[|digits| - 1]);
    TrimNothing(digits);
    TrimNothing(LengthLine(n));
    assert LengthLine(n)[|PREFIX|..] == " " + digits;
    ParsePrinted(n);
  }

  lemma {:induction false} TrimBlankStart(blank: string, s: string)
    requires (forall i :: 0 <= i < |blank| ==> IsUnicodeSpace(blank[i])) && s != "" && !IsUnicodeSpace(s[0])
    ensures TrimStart(blank + s) == s
  {
    if blank == "" {
      assert blank + s == s;
    } else {
      assert (blank + s)[1..] == blank[1..] + s;
      TrimBlankStart(blank[1..], s);
    }
  }

  /** The two spellings of the length header, with any white space before the number. Other headers declare nothing. */
  lemma {:induction false} LengthSpellings(n: nat, blank: string, other: string)
    requires n <= USIZE_MAX && forall i :: 0 <= i < |blank| ==> IsUnicodeSpace(blank[i])
    ensures ParseContentLength("Content-Length:" + blank + Decimal(n)) == Some(n)
    ensures ParseContentLength("Content-Length :" + blank + Decimal(n)) == Some(n)
    ensures !("Content-Length:" <= other) && !("Content-Length :" <= other) ==> ParseContentLength(other) == None
  {
    hide ParseUsize;
    hide Decimal;
    var digits := Decimal(n);
    assert IsDigit(digits[0]) && IsDigit(digits[|digits| - 1]);
    TrimBlankStart(blank, digits);
    ParsePrinted(n);
    var a, b := "Content-Length:" + blank + digits, "Content-Length :" + blank + digits;
    assert a[|PREFIX|..] == blank + digits && b[|SPACED_PREFIX|..] == blank + digits;
    assert a[..|PREFIX|] == PREFIX && b[..|SPACED_PREFIX|] == SPACED_PREFIX;
    assert b[|PREFIX| - 1] == ' ';
  }

  function Encoded(content: Bytes): Frame { Frame([LengthLine(|content|)], content) }

  lemma AsciiConcat(s: string, t: string)
    requires IsAscii(s) && IsAscii(t)
    ensures IsAscii(s + t) && Ascii(s + t) == Ascii(s) + Ascii(t)
  {
  }

  lemma EncodedBytes(line: string, content: Bytes)
    requires IsField(line)
    ensures IsAscii(line + "\r\n\r\n")
    ensures FieldsBytes([line]) + Ascii("\r\n") + content == Ascii(line + "\r\n\r\n") + content
  {
    hide Trim;
    assert line + "\r\n\r\n" == (line + "\r\n") + "\r\n";
    AsciiConcat(line, "\r\n");
    AsciiConcat(line + "\r\n", "\r\n");
    hide Ascii;
    hide IsAscii;
    assert [line][1..] == [];
    assert FieldsBytes([line]) == FieldBytes(line);
  }

  lemma EncodedFrame(content: Bytes)
    requires |content| <= USIZE_MAX
    ensures WellFramed(Encoded(content)) && FrameBytes(Encoded(content)) == EncodeMessage(content)
  {
    hide LengthLine;
    hide Ascii;
    hide IsField;
    hide ParseContentLength;
    hide Trim;
    hide FieldsBytes;
    var line := LengthLine(|content|);
    LengthLineDeclares(|content|);
    EncodedBytes(line, content);
    assert DeclaredLength([line], None) == Some(|content|) by {
      assert [line][1..] == [];
      assert [line][0] == line;
    }
  }

  function EncodeAll(contents: seq<Bytes>): Bytes {
    if contents == [] then [] else EncodeMessage(contents[0]) + EncodeAll(contents[1..])
  }

  lemma {:induction false} ReadEncoded(env: Env, contents: seq<Bytes>, rest: Bytes)
    requires env.ReadsAscii() && forall c :: c in contents ==> |c| <= USIZE_MAX
    ensures ReadMessages(env, EncodeAll(contents) + rest) == contents + ReadMessages(env, rest)
  {
    hide ReadMessages;
    hide WellFramed;
    hide FrameBytes;
    hide EncodeMessage;
    if contents == [] {
      assert [] + rest == rest;
    } else {
      EncodedFrame(contents[0]);
      ConcatAssociative(EncodeMessage(contents[0]), EncodeAll(contents[1..]), rest);
      ReadFrame(env, Encoded(contents[0]), EncodeAll(contents[1..]) + rest);
      ReadEncoded(env, contents[1..], rest);
    }
  }

  /** Reading what was written gives the contents back, whatever bytes they hold. */
  lemma FramingRoundTrip(env: Env, contents: seq<Bytes>)
    requires env.ReadsAscii() && forall c :: c in contents ==> |c| <= USIZE_MAX
    ensures ReadMessages(env, EncodeAll(contents)) == contents
  {
    ReadEncoded(env, contents, []);
    assert EncodeAll(contents) + [] == EncodeAll(contents);
  }

  // ---------- a stream that breaks off ----------

  lemma NoNewlineNoMessage(env: Env, input: Bytes)
    requires NEWLINE !in input
    ensures ReadMessages(env, input) == []
  {
    LineLengthWithout(input);
    assert input[|input|..] == [];
  }

  lemma FieldThenEnd(env: Env, line: string)
    requires env.ReadsAscii() && IsField(line)
    ensures ReadMessages(env, FieldBytes(line)) == []
  {
    FieldLine(env, line, [], None);
    assert FieldBytes(line) + [] == FieldBytes(line);
  }

  /** A lone carriage return at the end of the input ends the headers. */
  lemma FieldThenCr(env: Env, line: string, n: nat)
    requires env.ReadsAscii() && IsField(line) && ParseContentLength(Trim(line)) == Some(n)
    ensures ReadMessages(env, FieldBytes(line) + Ascii("\r")) == if n == 0 then [[]] else []
  {
    hide ParseContentLength;
    hide IsField;
    FieldLine(env, line, Ascii("\r"), None);
    LineLengthWithout(Ascii("\r"));
    assert Ascii("\r")[..1] == Ascii("\r") && Ascii("\r")[1..] == [];
    assert "\r"[1..] == "";
    assert ReadHeaders(env, Ascii("\r"), Some(n)) == HeaderBlock(Some(n), []);
    NoNewlineNoMessage(env, []);
  }

  lemma {:induction false} FieldThenPart(env: Env, line: string, n: nat, part: Bytes)
    requires env.ReadsAscii() && IsField(line) && ParseContentLength(Trim(line)) == Some(n) && |part| < n
    ensures ReadMessages(env, FieldBytes(line) + (Ascii("\r\n") + part)) == []
  {
    FieldLine(env, line, Ascii("\r\n") + part, None);
    BlankLine(env, part, Some(n));
  }

  /** The four ways in which an encoded message can break off. */
  lemma EncodedPrefix(content: Bytes, k: nat)
    requires k < |EncodeMessage(content)|
    ensures var line, tail := LengthLine(|content|), EncodeMessage(content)[..k];
            if k < |line| + 2 then NEWLINE !in tail
            else if k == |line| + 2 then tail == FieldBytes(line)
            else if k == |line| + 3 then tail == FieldBytes(line) + Ascii("\r")
            else k - |line| - 4 < |content| && tail == FieldBytes(line) + (Ascii("\r\n") + content[..k - |line| - 4])
  {
    var line, tail := LengthLine(|content|), EncodeMessage(content)[..k];
    if k >= |line| + 4 {
      assert tail == FieldBytes(line) + (Ascii("\r\n") + content[..k - |line| - 4]);
    } else if k == |line| + 3 {
      assert tail == FieldBytes(line) + Ascii("\r");
    } else if k == |line| + 2 {
      assert tail == FieldBytes(line);
    }
  }

  /**
   * When the stream breaks off inside a message, the messages before it are delivered and nothing else is, except that
   * an empty message is delivered although its very last byte is missing.
   */
  lemma {:induction false} TruncatedStream(env: Env, contents: seq<Bytes>, last: Bytes, k: nat)
    requires env.ReadsAscii() && (forall c :: c in contents ==> |c| <= USIZE_MAX) && |last| <= USIZE_MAX
    requires k < |EncodeMessage(last)|
    ensures ReadMessages(env, EncodeAll(contents) + EncodeMessage(last)[..k])
         == contents + if last == [] && k == |EncodeMessage(last)| - 1 then [[]] else []
  {
    var line, tail := LengthLine(|last|), EncodeMessage(last)[..k];
    EncodedPrefix(last, k);
    LengthLineDeclares(|last|);
    ReadEncoded(env, contents, tail);
    hide ReadMessages;
    hide FieldBytes;
    hide IsField;
    hide ParseContentLength;
    if k < |line| + 2 {
      NoNewlineNoMessage(env, tail);
    } else if k == |line| + 2 {
      FieldThenEnd(env, line);
    } else if k == |line| + 3 {
      FieldThenCr(env, line, |last|);
    } else {
      FieldThenPart(env, line, |last|, last[..k - |line| - 4]);
    }
  }
}
