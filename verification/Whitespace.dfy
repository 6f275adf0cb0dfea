/** Unicode white space and `trim`, as the standard library has them. */
module Whitespace {
  import opened Prelude

  /** The `White_Space` property of Unicode, which `trim` strips. */
  predicate IsUnicodeSpace(c: char) {
    '\U{9}' <= c <= '\U{d}' || c == ' ' || c == '\U{85}' || c == '\U{a0}' || c == '\U{1680}'
    || '\U{2000}' <= c <= '\U{200a}' || c == '\U{2028}' || c == '\U{2029}' || c == '\U{202f}'
    || c == '\U{205f}' || c == '\U{3000}'
  }

  function TrimStart(s: string): (r: string)
    ensures |r| <= |s|
  {
    if s != "" && IsUnicodeSpace(s[0]) then TrimStart(s[1..]) else s
  }

  function TrimEnd(s: string): (r: string)
    ensures |r| <= |s|
  {
    if s != "" && IsUnicodeSpace(s[|s| - 1]) then TrimEnd(s[..|s| - 1]) else s
  }

  function Trim(s: string): (r: string)
    ensures |r| <= |s|
  {
    TrimEnd(TrimStart(s))
  }

  predicate IsBlankLine(line: Line) { Trim(line) == "" }

  /** A line is blank when all its characters are white space. */
  lemma {:induction false} BlankExactly(line: Line)
    ensures IsBlankLine(line) <==> forall i :: 0 <= i < |line| ==> IsUnicodeSpace(line[i])
  {
    TrimStartStops(line);
    TrimEndStops(TrimStart(line));
  }

  lemma {:induction false} TrimStartStops(s: string)
    ensures TrimStart(s) == "" <==> forall i :: 0 <= i < |s| ==> IsUnicodeSpace(s[i])
    ensures TrimStart(s) != "" ==> !IsUnicodeSpace(TrimStart(s)[0])
  {
    if s != "" && IsUnicodeSpace(s[0]) {
      TrimStartStops(s[1..]);
      assert forall i :: 0 < i < |s| ==> s[i] == s[1..][i - 1];
    }
  }

  lemma {:induction false} TrimEndStops(s: string)
    requires s == "" || !IsUnicodeSpace(s[0])
    ensures TrimEnd(s) == "" <==> s == ""
  {
    if s != "" && IsUnicodeSpace(s[|s| - 1]) {
      TrimEndStops(s[..|s| - 1]);
    }
  }

  /** The white space of Unicode, one by one. */
  lemma WhiteSpaceExactly(c: char)
    ensures IsUnicodeSpace(c) <==>
              c as int in {9, 10, 11, 12, 13, 0x20, 0x85, 0xA0, 0x1680, 0x2000, 0x2001, 0x2002, 0x2003, 0x2004, 0x2005,
                           0x2006, 0x2007, 0x2008, 0x2009, 0x200A, 0x2028, 0x2029, 0x202F, 0x205F, 0x3000}
  {
  }
}
