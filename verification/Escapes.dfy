/**
 * Escape sequences of edit content: hex normalisation (crates/aifed/src/escape.rs), the JSON string decoder it
 * feeds, and the two printers whose output it must accept (crates/aifed/src/batch.rs and
 * crates/aifed/src/commands/paste.rs).
 */
module Escapes {
  import opened Prelude

  // ---------- hexadecimal ----------

  predicate IsHex(c: char) { '0' <= c <= '9' || 'a' <= c <= 'f' || 'A' <= c <= 'F' }

  function HexValue(c: char): (v: nat)
    requires IsHex(c)
    ensures v < 16
  {
    if c <= '9' then c as int - '0' as int
    else if c <= 'F' then c as int - 'A' as int + 10
    else c as int - 'a' as int + 10
  }

  function HexDigit(n: nat): (c: char)
    requires n < 16
    ensures IsHex(c) && HexValue(c) == n
  {
    "0123456789abcdef"[n]
  }

  /** The value of four hex digits, if the text starts with them. */
  function Hex4(s: string): (v: Option<nat>)
    ensures v.Some? ==> |s| >= 4 && v.value < 0x10000
  {
    if |s| >= 4 && IsHex(s[0]) && IsHex(s[1]) && IsHex(s[2]) && IsHex(s[3]) then
      Some(HexValue(s[0]) * 0x1000 + HexValue(s[1]) * 0x100 + HexValue(s[2]) * 0x10 + HexValue(s[3]))
    else None
  }

  // ---------- decoding ----------

  /** One decoded character and the number of characters it was written with. */
  datatype Unit = Unit(c: char, len: nat)

  /** The second half of a surrogate pair, if the text starts with it. */
  function LowSurrogate(t: string): (v: Option<nat>)
    ensures v.Some? ==> |t| >= 6 && 0xDC00 <= v.value < 0xE000
  {
    if |t| >= 2 && t[0] == '\\' && t[1] == 'u' && Hex4(t[2..]).Some? && 0xDC00 <= Hex4(t[2..]).value < 0xE000 then
      Hex4(t[2..])
    else None
  }

  /** `\uXXXX`, with a surrogate pair spread over two of them. */
  function UnicodeUnit(s: string): (u: Option<Unit>)
    requires |s| >= 2
    ensures u.Some? ==> 6 <= u.value.len <= |s|
  {
    match Hex4(s[2..])
    case None => None
    case Some(v) =>
      if v < 0xD800 || v >= 0xE000 then Some(Unit(v as char, 6))
      else if v >= 0xDC00 then None
      else
        match LowSurrogate(s[6..])
        case None => None
        case Some(low) => Some(Unit((0x10000 + (v - 0xD800) * 0x400 + (low - 0xDC00)) as char, 12))
  }

  /**
   * The first character of an escaped string: the escapes of section 7 of RFC 8259, everything else standing for
   * itself. With `hex`, `\xNN` is an escape as well.
   */
  function FirstUnit(s: string, hex: bool): (u: Option<Unit>)
    requires s != ""
    ensures u.Some? ==> 0 < u.value.len <= |s|
  {
    if s[0] != '\\' then Some(Unit(s[0], 1))
    else if |s| == 1 then None
    else
      match s[1]
      case '"' => Some(Unit('"', 2))
      case '\\' => Some(Unit('\\', 2))
      case '/' => Some(Unit('/', 2))
      case 'b' => Some(Unit('\U{8}', 2))
      case 'f' => Some(Unit('\U{c}', 2))
      case 'n' => Some(Unit('\n', 2))
      case 'r' => Some(Unit('\r', 2))
      case 't' => Some(Unit('\t', 2))
      case 'u' => UnicodeUnit(s)
      case _ =>
        if hex && s[1] == 'x' && |s| >= 4 && IsHex(s[2]) && IsHex(s[3]) then
          Some(Unit((HexValue(s[2]) * 16 + HexValue(s[3])) as char, 4))
        else None
  }

  /** The text an escaped string stands for, or nothing if an escape is malformed. */
  function Decode(s: string, hex: bool): Option<string> {
    if s == "" then Some("")
    else
      match FirstUnit(s, hex)
      case None => None
      case Some(u) => match Decode(s[u.len..], hex) case None => None case Some(t) => Some([u.c] + t)
  }

  // ---------- normalisation ----------

  function Normalized(s: string): string {
    if s == "" then ""
    else if s[0] != '\\' then [s[0]] + Normalized(s[1..])
    else if |s| == 1 then "\\"
    else if s[1] == 'x' && |s| >= 4 && IsHex(s[2]) && IsHex(s[3]) then "\\u00" + s[2..4] + Normalized(s[4..])
    else s[..2] + Normalized(s[2..])
  }

  /** The length of the text before the first backslash. */
  function PlainLen(s: string): (n: nat)
    ensures n <= |s|
    ensures forall i :: 0 <= i < n ==> s[i] != '\\'
    ensures n < |s| ==> s[n] == '\\'
  {
    if s == "" || s[0] == '\\' then 0 else 1 + PlainLen(s[1..])
  }

  predicate HasHexMarker(s: string) { exists i :: 0 <= i < |s| - 1 && s[i] == '\\' && s[i + 1] == 'x' }

  lemma {:induction false} NormalizedPlain(s: string, k: nat)
    requires k <= PlainLen(s)
    ensures Normalized(s) == s[..k] + Normalized(s[k..])
  {
    if k == 0 {
      assert s[..0] + Normalized(s[0..]) == Normalized(s);
    } else {
      NormalizedPlain(s[1..], k - 1);
      assert s[..k] == [s[0]] + s[1..][..k - 1];
      assert s[1..][k - 1..] == s[k..];
      ConcatAssociative([s[0]], s[1..][..k - 1], Normalized(s[k..]));
    }
  }

  /** Without `\x` there is nothing to rewrite: the fast path agrees with the slow one. */
  lemma {:induction false} FastPath(s: string)
    requires !HasHexMarker(s)
    ensures Normalized(s) == s
  {
    if s == "" {
    } else {
      var k := if s[0] != '\\' || |s| == 1 then 1 else 2;
      assert forall i :: 0 <= i < |s| - k ==> s[k..][i] == s[k + i];
      FastPath(s[k..]);
      assert s == s[..k] + s[k..];
      assert k == 2 ==> s[0] == '\\' && s[0 + 1] != 'x';
    }
  }

  method NormalizeHexEscapes(s: string) returns (result: string)
    ensures result == Normalized(s)
  {
    if !HasHexMarker(s) {
      FastPath(s);
      return s;
    }
    result := "";
    var remaining := s;
    while remaining != ""
      invariant Normalized(s) == result + Normalized(remaining)
      decreases |remaining|
    {
      var pos := PlainLen(remaining);
      NormalizedPlain(remaining, pos);
      ghost var before := remaining[pos..];
      ConcatAssociative(result, remaining[..pos], Normalized(before));
      result := result + remaining[..pos];
      remaining := remaining[pos..];
      if remaining != "" {
        var piece;
        piece, remaining := NextEscape(remaining);
        ConcatAssociative(result, piece, Normalized(remaining));
        result := result + piece;
      }
    }
  }

  /** What one escape is rewritten to, and the text after it. */
  method NextEscape(s: string) returns (piece: string, rest: string)
    requires s != "" && s[0] == '\\'
    ensures Normalized(s) == piece + Normalized(rest) && |rest| < |s|
  {
    if |s| == 1 {
      return "\\", "";
    }
    rest := s[2..];
    if s[1] == 'x' {
      if |rest| >= 2 && IsHex(rest[0]) && IsHex(rest[1]) {
        assert [rest[0]] + [rest[1]] == s[2..4] && rest[2..] == s[4..];
        return "\\u00" + [rest[0]] + [rest[1]], rest[2..];
      }
      piece := "\\x";
    } else {
      piece := "\\" + [s[1]];
    }
    assert piece == s[..2];
  }

  /** Text without backslashes at the front of a normalised text was there before. */
  lemma {:induction false} PlainPrefix(s: string, k: nat)
    requires k <= |Normalized(s)|
    requires forall i :: 0 <= i < k ==> Normalized(s)[i] != '\\'
    ensures k <= PlainLen(s)
  {
    if k > 0 {
      var n := Normalized(s);
      assert n[0] != '\\';
      assert n == [s[0]] + Normalized(s[1..]);
      forall i | 0 <= i < k - 1 ensures Normalized(s[1..])[i] != '\\' {
        assert n[i + 1] == Normalized(s[1..])[i];
      }
      PlainPrefix(s[1..], k - 1);
    }
  }

  /** A normalised text starts with four hex digits exactly if the text did. */
  lemma {:induction false} Hex4Normalized(s: string)
    ensures Hex4(s) == Hex4(Normalized(s))
    ensures Hex4(s).Some? ==> |Normalized(s)| >= 4 && Normalized(s)[4..] == Normalized(s[4..])
  {
    if Hex4(s).Some? {
      assert PlainLen(s) >= 4 by {
        assert s[0] != '\\' && s[1] != '\\' && s[2] != '\\' && s[3] != '\\';
      }
      NormalizedPlain(s, 4);
    } else if Hex4(Normalized(s)).Some? {
      PlainPrefix(s, 4);
      NormalizedPlain(s, 4);
    }
  }

  // ---------- normalisation preserves meaning ----------

  /** The first unit after normalisation is the first unit of the extended notation. */
  ghost predicate SameUnit(s: string, n: string)
    requires s != ""
  {
    && n != ""
    && (FirstUnit(s, true).None? <==> FirstUnit(n, false).None?)
    && var u, v := FirstUnit(s, true), FirstUnit(n, false);
       u.Some? ==> u.value.c == v.value.c && n[v.value.len..] == Normalized(s[u.value.len..])
  }

  lemma FirstUnitNormalized(s: string)
    requires s != ""
    ensures SameUnit(s, Normalized(s))
  {
    if s[0] != '\\' {
      assert Normalized(s)[1..] == Normalized(s[1..]);
    } else if |s| > 1 {
      hide FirstUnit;
      hide SameUnit;
      if s[1] == 'u' {
        UnicodeUnitSame(s);
      } else if s[1] == 'x' && |s| >= 4 && IsHex(s[2]) && IsHex(s[3]) {
        HexUnitSame(s);
      } else {
        CopiedUnitSame(s);
      }
    }
  }

  lemma UnicodeUnitSame(s: string)
    requires |s| >= 2 && s[0] == '\\' && s[1] == 'u'
    ensures SameUnit(s, Normalized(s))
  {
    hide UnicodeUnit;
    hide Normalized;
    UnicodeUnitNormalized(s);
  }

  lemma HexUnitSame(s: string)
    requires |s| >= 4 && s[0] == '\\' && s[1] == 'x' && IsHex(s[2]) && IsHex(s[3])
    ensures SameUnit(s, Normalized(s))
  {
    hide Normalized;
    hide LowSurrogate;
    HexPair(s);
  }

  lemma CopiedUnitSame(s: string)
    requires |s| >= 2 && s[0] == '\\' && s[1] != 'u'
    requires !(s[1] == 'x' && |s| >= 4 && IsHex(s[2]) && IsHex(s[3]))
    ensures SameUnit(s, Normalized(s))
  {
    hide Normalized;
    hide UnicodeUnit;
    CopiedPair(s);
  }

  /** A rewritten `\xNN` reads as the `\u00NN` it became. */
  lemma HexPair(s: string)
    requires |s| >= 4 && s[0] == '\\' && s[1] == 'x' && IsHex(s[2]) && IsHex(s[3])
    ensures var n := Normalized(s);
            |n| >= 6 && n[0] == '\\' && n[1] == 'u' && n[6..] == Normalized(s[4..])
            && Hex4(n[2..]) == Some(HexValue(s[2]) * 16 + HexValue(s[3]))
  {
    var n := Normalized(s);
    var t := n[2..];
    assert t == "00" + s[2..4] + Normalized(s[4..]);
    assert t[0] == '0' && t[1] == '0' && t[2] == s[2] && t[3] == s[3];
  }

  lemma UnicodeUnitNormalized(s: string)
    requires |s| >= 2 && s[0] == '\\' && s[1] == 'u'
    ensures var n := Normalized(s);
            && |n| >= 2 && n[0] == '\\' && n[1] == 'u'
            && UnicodeUnit(s) == UnicodeUnit(n)
            && (UnicodeUnit(s).Some? ==> n[UnicodeUnit(s).value.len..] == Normalized(s[UnicodeUnit(s).value.len..]))
  {
    hide Normalized;
    hide Hex4;
    hide LowSurrogate;
    var n := Normalized(s);
    CopiedPair(s);
    Hex4Normalized(s[2..]);
    if Hex4(s[2..]).Some? {
      var t := s[6..];
      SliceOfTail(s, 2, 4);
      SliceOfTail(n, 2, 4);
      LowSurrogateNormalized(t);
      if LowSurrogate(t).Some? {
        SliceOfTail(s, 6, 6);
        SliceOfTail(n, 6, 6);
      }
    }
  }

  /** Two characters normalisation copies. */
  lemma CopiedPair(s: string)
    requires |s| >= 2 && s[0] == '\\'
    requires !(s[1] == 'x' && |s| >= 4 && IsHex(s[2]) && IsHex(s[3]))
    ensures var n := Normalized(s);
            |n| >= 2 && n[0] == s[0] && n[1] == s[1] && n[2..] == Normalized(s[2..])
  {
    var n := Normalized(s);
    assert n[..2] == s[..2];
    assert n[0] == n[..2][0] && n[1] == n[..2][1];
  }

  lemma {:induction false} LowSurrogateNormalized(t: string)
    ensures LowSurrogate(t) == LowSurrogate(Normalized(t))
    ensures LowSurrogate(t).Some? ==> Normalized(t)[6..] == Normalized(t[6..])
  {
    var m := Normalized(t);
    if |t| >= 2 && t[0] == '\\' {
      if t[1] == 'x' && |t| >= 4 && IsHex(t[2]) && IsHex(t[3]) {
        // a rewritten \xNN is below 0x100, never a surrogate
        assert m[2..][0] == '0' && m[2..][1] == '0';
      } else {
        CopiedPair(t);
        Hex4Normalized(t[2..]);
        if LowSurrogate(t).Some? {
          assert t[2..][4..] == t[6..] && m[2..][4..] == m[6..];
        }
      }
    }
  }

  /**
   * Decoding the normalised text with the JSON escapes gives what decoding the text with `\xNN` added gives,
   * errors included.
   */
  lemma {:induction false} NormalizePreservesMeaning(s: string)
    ensures Decode(Normalized(s), false) == Decode(s, true)
    decreases |s|
  {
    if s != "" {
      FirstUnitNormalized(s);
      var u := FirstUnit(s, true);
      if u.Some? {
        NormalizePreservesMeaning(s[u.value.len..]);
      }
    }
  }

  /** A malformed `\x` is not completed by rewriting what follows it. */
  lemma MarkerStaysMalformed(s: string)
    requires |s| >= 2 && s[0] == '\\'
    requires !(s[1] == 'x' && |s| >= 4 && IsHex(s[2]) && IsHex(s[3]))
    ensures var n := Normalized(s); !(s[1] == 'x' && |n| >= 4 && IsHex(n[2]) && IsHex(n[3]))
  {
    var n := Normalized(s);
    CopiedPair(s);
    if |n| >= 4 && IsHex(n[2]) && IsHex(n[3]) {
      assert n[2] == n[2..][0] && n[3] == n[2..][1];
      PlainPrefix(s[2..], 2);
      NormalizedPlain(s[2..], 2);
    }
  }

  lemma UnicodeFormStays(digits: string, rest: string)
    requires |digits| == 2 && IsHex(digits[0]) && IsHex(digits[1])
    ensures Normalized("\\u00" + digits + rest) == "\\u00" + digits + Normalized(rest)
  {
    var n, t := "\\u00" + digits + rest, "00" + digits + rest;
    CopiedPair(n);
    assert n[2..] == t;
    assert t[0] == '0' && t[1] == '0' && t[2] == digits[0] && t[3] == digits[1];
    NormalizedPlain(t, 4);
    assert t[..4] == "00" + digits && t[4..] == rest;
    assert n[..2] == "\\u";
  }

  lemma {:induction false} NormalizeIdempotent(s: string)
    ensures Normalized(Normalized(s)) == Normalized(s)
    decreases |s|
  {
    var n := Normalized(s);
    if s == "" {
    } else if s[0] != '\\' {
      NormalizeIdempotent(s[1..]);
      assert n[1..] == Normalized(s[1..]);
    } else if |s| == 1 {
    } else if s[1] == 'x' && |s| >= 4 && IsHex(s[2]) && IsHex(s[3]) {
      NormalizeIdempotent(s[4..]);
      UnicodeFormStays(s[2..4], Normalized(s[4..]));
    } else {
      NormalizeIdempotent(s[2..]);
      CopiedPair(s);
      MarkerStaysMalformed(s);
      CopiedPair(n);
      assert n[..2] == s[..2];
    }
  }

  // ---------- the printers' escapes ----------

  /** Bytes both printers of raw text show as `\xNN`: C0 controls other than tab, LF and CR, and DEL. */
  predicate ControlNeedsHex(c: char) {
    c <= '\U{8}' || c == '\U{b}' || c == '\U{c}' || '\U{e}' <= c <= '\U{1f}' || c == '\U{7f}'
  }

  function HexEscape(c: char): string
    requires c < '\U{80}'
  {
    "\\x" + [HexDigit(c as int / 16), HexDigit(c as int % 16)]
  }

  /** How one character is written between quotes; pasting also writes control characters in hex. */
  function EscapeChar(c: char, hexControls: bool): (e: string)
    ensures e != ""
  {
    match c
    case '\\' => "\\\\"
    case '"' => "\\\""
    case '\t' => "\\t"
    case '\r' => "\\r"
    case _ => if hexControls && ControlNeedsHex(c) then HexEscape(c) else [c]
  }

  function Escaped(s: string, hexControls: bool): string {
    if s == "" then "" else EscapeChar(s[0], hexControls) + Escaped(s[1..], hexControls)
  }

  lemma FirstUnitOfEscape(c: char, hexControls: bool, rest: string)
    ensures FirstUnit(EscapeChar(c, hexControls) + rest, true) == Some(Unit(c, |EscapeChar(c, hexControls)|))
  {
    var e := EscapeChar(c, hexControls);
    var s := e + rest;
    assert forall i :: 0 <= i < |e| ==> s[i] == e[i];
  }

  /** Whatever is escaped, by either printer, decodes to itself. */
  lemma {:induction false} DecodeEscaped(s: string, hexControls: bool)
    ensures Decode(Escaped(s, hexControls), true) == Some(s)
  {
    if s != "" {
      var e, rest := EscapeChar(s[0], hexControls), Escaped(s[1..], hexControls);
      FirstUnitOfEscape(s[0], hexControls, rest);
      assert (e + rest)[|e|..] == rest;
      DecodeEscaped(s[1..], hexControls);
      assert s == [s[0]] + s[1..];
    }
  }

  function ReplaceChar(s: string, c: char, text: string): string {
    if s == "" then "" else (if s[0] == c then text else [s[0]]) + ReplaceChar(s[1..], c, text)
  }

  lemma {:induction false} ReplaceConcat(a: string, b: string, c: char, text: string)
    ensures ReplaceChar(a + b, c, text) == ReplaceChar(a, c, text) + ReplaceChar(b, c, text)
  {
    if a == "" {
      assert a + b == b;
    } else {
      assert (a + b)[0] == a[0] && (a + b)[1..] == a[1..] + b;
      ReplaceConcat(a[1..], b, c, text);
      ConcatAssociative(if a[0] == c then text else [a[0]], ReplaceChar(a[1..], c, text), ReplaceChar(b, c, text));
    }
  }

  /** The four replacements of the operation printer, one after the other. */
  function EscapeContent(content: string): string {
    ReplaceChar(ReplaceChar(ReplaceChar(ReplaceChar(content, '\\', "\\\\"), '"', "\\\""), '\t', "\\t"), '\r', "\\r")
  }

  /** Replacing in sequence does not escape twice. */
  lemma {:induction false} EscapeContentIsEscaped(s: string)
    ensures EscapeContent(s) == Escaped(s, false)
  {
    if s != "" {
      assert s == s[..1] + s[1..];
      EscapeContentConcat(s[..1], s[1..]);
      EscapeContentIsEscaped(s[1..]);
      EscapeOneChar(s[0]);
      assert s[..1] == [s[0]];
    }
  }

  lemma EscapeContentConcat(a: string, b: string)
    ensures EscapeContent(a + b) == EscapeContent(a) + EscapeContent(b)
  {
    ReplaceConcat(a, b, '\\', "\\\\");
    var a1, b1 := ReplaceChar(a, '\\', "\\\\"), ReplaceChar(b, '\\', "\\\\");
    ReplaceConcat(a1, b1, '"', "\\\"");
    var a2, b2 := ReplaceChar(a1, '"', "\\\""), ReplaceChar(b1, '"', "\\\"");
    ReplaceConcat(a2, b2, '\t', "\\t");
    ReplaceConcat(ReplaceChar(a2, '\t', "\\t"), ReplaceChar(b2, '\t', "\\t"), '\r', "\\r");
  }

  lemma ReplaceOne(d: char, c: char, text: string)
    ensures ReplaceChar([d], c, text) == if d == c then text else [d]
  {
    assert [d][1..] == "";
  }

  lemma ReplaceTwo(d: char, e: char, c: char, text: string)
    requires d != c && e != c
    ensures ReplaceChar([d, e], c, text) == [d, e]
  {
    assert [d, e][1..] == [e];
    ReplaceOne(e, c, text);
  }

  lemma EscapeOneChar(c: char)
    ensures EscapeContent([c]) == EscapeChar(c, false)
  {
    ReplaceOne(c, '\\', "\\\\");
    ReplaceOne(c, '"', "\\\"");
    ReplaceOne(c, '\t', "\\t");
    ReplaceOne(c, '\r', "\\r");
    ReplaceTwo('\\', '\\', '"', "\\\"");
    ReplaceTwo('\\', '\\', '\t', "\\t");
    ReplaceTwo('\\', '\\', '\r', "\\r");
    ReplaceTwo('\\', '"', '\t', "\\t");
    ReplaceTwo('\\', '"', '\r', "\\r");
    ReplaceTwo('\\', 't', '\r', "\\r");
  }

  /** Paste's printer. */
  method PasteEscapeContent(content: string) returns (out: string)
    ensures out == Escaped(content, true)
  {
    out := "";
    for i := 0 to |content|
      invariant Escaped(content, true) == out + Escaped(content[i..], true)
    {
      var c := content[i];
      var piece: string;
      match c {
        case '\\' => piece := ['\\', c];
        case '"' => piece := ['\\', c];
        case '\t' => piece := "\\t";
        case '\r' => piece := "\\r";
        case _ => piece := if c < '\U{80}' && ControlNeedsHex(c) then HexEscape(c) else [c];
      }
      assert content[i..][0] == c && content[i..][1..] == content[i + 1..];
      ConcatAssociative(out, piece, Escaped(content[i + 1..], true));
      out := out + piece;
    }
  }

  // ---------- the escapes, one by one ----------

  /** Four hex digits of a 16-bit unit. */
  function Digits4(n: nat): (s: string)
    requires n < 0x10000
    ensures |s| == 4
  {
    [HexDigit(n / 16 / 16 / 16), HexDigit(n / 16 / 16 % 16), HexDigit(n / 16 % 16), HexDigit(n % 16)]
  }

  lemma {:induction false} Hex4Digits(n: nat, rest: string)
    requires n < 0x10000
    ensures Hex4(Digits4(n) + rest) == Some(n)
  {
    hide HexValue;
    var s := Digits4(n) + rest;
    var a, b, c := n / 16, n / 16 / 16, n / 16 / 16 / 16;
    assert s[0] == HexDigit(c) && s[1] == HexDigit(b % 16) && s[2] == HexDigit(a % 16) && s[3] == HexDigit(n % 16);
    assert n == a * 16 + n % 16 && a == b * 16 + a % 16 && b == c * 16 + b % 16;
  }

  function High(c: char): nat
    requires c as int >= 0x10000
  {
    0xD800 + (c as int - 0x10000) / 0x400
  }

  function Low(c: char): nat
    requires c as int >= 0x10000
  {
    0xDC00 + (c as int - 0x10000) % 0x400
  }

  lemma SurrogateRange(c: char)
    requires c as int >= 0x10000
    ensures 0xD800 <= High(c) < 0xDC00 <= Low(c) < 0xE000
    ensures 0x10000 + (High(c) - 0xD800) * 0x400 + (Low(c) - 0xDC00) == c as int
  {
  }

  /** How section 7 of RFC 8259 writes a character by number: one unit, or the two units of a surrogate pair. */
  function ByNumber(c: char): string {
    if c as int < 0x10000 then "\\u" + Digits4(c as int)
    else
      SurrogateRange(c);
      "\\u" + Digits4(High(c)) + ("\\u" + Digits4(Low(c)))
  }

  lemma Unit4(n: nat, rest: string)
    requires n < 0x10000
    ensures var s := "\\u" + Digits4(n) + rest;
            s[0] == '\\' && s[1] == 'u' && s[2..] == Digits4(n) + rest && s[6..] == rest && Hex4(s[2..]) == Some(n)
  {
    hide Digits4;
    hide Hex4;
    Hex4Digits(n, rest);
    assert ("\\u" + Digits4(n) + rest)[2..] == Digits4(n) + rest;
  }

  lemma UnicodeFirst(s: string, hex: bool)
    requires |s| >= 2 && s[0] == '\\' && s[1] == 'u'
    ensures FirstUnit(s, hex) == UnicodeUnit(s)
  {
    hide UnicodeUnit;
  }

  lemma PairUnit(s: string, high: nat, low: nat)
    requires |s| >= 12 && Hex4(s[2..]) == Some(high) && 0xD800 <= high < 0xDC00 <= low < 0xE000
    requires s[6] == '\\' && s[7] == 'u' && Hex4(s[8..]) == Some(low)
    ensures UnicodeUnit(s) == Some(Unit((0x10000 + (high - 0xD800) * 0x400 + (low - 0xDC00)) as char, 12))
  {
    hide Hex4;
    assert s[6..][2..] == s[8..];
  }

  lemma PairText(high: string, low: string, rest: string)
    requires |high| == |low| == 4
    ensures var s := "\\u" + high + ("\\u" + low) + rest;
            && |s| >= 12 && s == "\\u" + high + ("\\u" + low + rest)
            && s[6] == '\\' && s[7] == 'u' && s[8..] == low + rest
  {
    var s := "\\u" + high + ("\\u" + low) + rest;
    assert s == "\\u" + high + ("\\u" + low + rest);
    assert s[8..] == low + rest;
  }

  lemma PairDecodes(c: char, rest: string, hex: bool)
    requires c as int >= 0x10000
    ensures FirstUnit(ByNumber(c) + rest, hex) == Some(Unit(c, 12))
  {
    hide Digits4;
    hide Hex4;
    hide High;
    hide Low;
    hide FirstUnit;
    hide UnicodeUnit;
    SurrogateRange(c);
    var high, low := Digits4(High(c)), Digits4(Low(c));
    PairText(high, low, rest);
    Unit4(High(c), "\\u" + low + rest);
    Unit4(Low(c), rest);
    Hex4Digits(Low(c), rest);
    var s := "\\u" + high + ("\\u" + low) + rest;
    UnicodeFirst(s, hex);
    PairUnit(s, High(c), Low(c));
  }

  /** Every character can be written by number. */
  lemma {:induction false} NumberDecodes(c: char, rest: string, hex: bool)
    ensures FirstUnit(ByNumber(c) + rest, hex) == Some(Unit(c, |ByNumber(c)|))
  {
    hide Digits4;
    hide Hex4;
    hide FirstUnit;
    if c as int < 0x10000 {
      Unit4(c as int, rest);
      UnicodeFirst(ByNumber(c) + rest, hex);
    } else {
      PairDecodes(c, rest, hex);
      SurrogateRange(c);
    }
  }

  /** A surrogate on its own is no character. */
  lemma {:induction false} LoneSurrogate(n: nat, rest: string, hex: bool)
    requires 0xD800 <= n < 0xE000 && (rest == "" || rest[0] != '\\')
    ensures FirstUnit("\\u" + Digits4(n) + rest, hex) == None
  {
    var s := "\\u" + Digits4(n) + rest;
    Hex4Digits(n, rest);
    assert s[0] == '\\' && s[1] == 'u' && s[2..] == Digits4(n) + rest && s[6..] == rest;
  }

  /** The short escapes of section 7 of RFC 8259; no other letter, digit or sign after a backslash is one. */
  lemma ShortEscapes(e: char, rest: string)
    requires e != 'u'
    ensures FirstUnit(['\\', e] + rest, false)
         == if e == '"' || e == '\\' || e == '/' then Some(Unit(e, 2))
            else if e == 'b' then Some(Unit(8 as char, 2))
            else if e == 't' then Some(Unit(9 as char, 2))
            else if e == 'n' then Some(Unit(10 as char, 2))
            else if e == 'f' then Some(Unit(12 as char, 2))
            else if e == 'r' then Some(Unit(13 as char, 2))
            else None
  {
  }

  /** What is written between quotes holds no raw tab or carriage return, and pasted text no other control character. */
  lemma {:induction false} EscapedIsPlain(s: string, hexControls: bool)
    ensures forall i :: 0 <= i < |Escaped(s, hexControls)| ==>
              var c := Escaped(s, hexControls)[i];
              c != '\t' && c != '\r' && (hexControls && c != '\n' ==> 0x20 <= c as int && c as int != 0x7F)
  {
    if s != "" {
      EscapedIsPlain(s[1..], hexControls);
      PlainUnit(s[0], hexControls);
      hide EscapeChar;
    }
  }

  lemma PlainUnit(c: char, hexControls: bool)
    ensures forall i :: 0 <= i < |EscapeChar(c, hexControls)| ==>
              var d := EscapeChar(c, hexControls)[i];
              d != '\t' && d != '\r' && (hexControls && d != '\n' ==> 0x20 <= d as int && d as int != 0x7F)
  {
  }
}
