/** How raw lines are shown (crates/aifed/src/escape.rs), and when the edit decoder takes what is shown back. */
module DisplayEscapes {
  import opened Prelude
  import opened Escapes

  predicate NeedsEscape(c: char) { c == '\r' || ControlNeedsHex(c) }

  function DisplayChar(c: char): (d: string)
    ensures d != "" && (NeedsEscape(c) <==> d != [c])
    ensures NeedsEscape(c) ==> |d| >= 2 && d[0] == '\\' && (d[1] == 'r' || d[1] == 'x')
  {
    if c == '\r' then "\\r" else if ControlNeedsHex(c) then HexEscape(c) else [c]
  }

  function Displayed(s: string): string {
    if s == "" then "" else DisplayChar(s[0]) + Displayed(s[1..])
  }

  lemma {:induction false} DisplayedPlain(s: string, n: nat)
    requires n <= |s| && forall i :: 0 <= i < n ==> !NeedsEscape(s[i])
    ensures Displayed(s) == s[..n] + Displayed(s[n..])
  {
    if n == 0 {
      assert s[..0] + Displayed(s[0..]) == Displayed(s);
    } else {
      DisplayedPlain(s[1..], n - 1);
      assert s[..n] == [s[0]] + s[1..][..n - 1];
      assert s[1..][n - 1..] == s[n..];
      ConcatAssociative([s[0]], s[1..][..n - 1], Displayed(s[n..]));
    }
  }

  method EscapeForDisplay(s: string) returns (out: string)
    ensures out == Displayed(s)
  {
    if forall i :: 0 <= i < |s| ==> !NeedsEscape(s[i]) {
      DisplayedPlain(s, |s|);
      assert s[..|s|] + Displayed(s[|s|..]) == s;
      return s;
    }
    out := "";
    for i := 0 to |s|
      invariant Displayed(s) == out + Displayed(s[i..])
    {
      var c := s[i];
      var piece: string;
      match c {
        case '\t' => piece := [c];
        case '\n' => piece := [c];
        case '\r' => piece := "\\r";
        case _ => piece := if c < '\U{80}' && ControlNeedsHex(c) then HexEscape(c) else [c];
      }
      assert s[i..][0] == c && s[i..][1..] == s[i + 1..];
      ConcatAssociative(out, piece, Displayed(s[i + 1..]));
      out := out + piece;
    }
  }

  // ---------- text without backslashes ----------

  lemma FirstUnitDisplayed(c: char, rest: string)
    requires c != '\\'
    ensures FirstUnit(DisplayChar(c) + rest, true) == Some(Unit(c, |DisplayChar(c)|))
    ensures (DisplayChar(c) + rest)[|DisplayChar(c)|..] == rest
  {
    var d, s := DisplayChar(c), DisplayChar(c) + rest;
    assert forall i :: 0 <= i < |d| ==> s[i] == d[i];
  }

  /** One displayed character other than a backslash decodes to itself. */
  lemma DecodeStep(c: char, rest: string)
    requires c != '\\'
    ensures Decode(DisplayChar(c) + rest, true)
         == if Decode(rest, true).None? then None else Some([c] + Decode(rest, true).value)
  {
    FirstUnitDisplayed(c, rest);
    hide FirstUnit;
    hide DisplayChar;
  }

  /** What is shown of a text without backslashes is decoded to the text. */
  lemma {:induction false} DisplayRoundTrip(s: string)
    requires '\\' !in s
    ensures Decode(Displayed(s), true) == Some(s)
  {
    hide FirstUnit;
    hide DisplayChar;
    if s == "" {
    } else {
      assert s[0] in s;
      DecodeStep(s[0], Displayed(s[1..]));
      DisplayRoundTrip(s[1..]);
      assert s == [s[0]] + s[1..];
    }
  }

  // ---------- text with backslashes ----------

  function Backslashes(s: string): (n: nat)
    ensures n == 0 <==> '\\' !in s
  {
    if s == "" then 0 else (if s[0] == '\\' then 1 else 0) + Backslashes(s[1..])
  }

  /** The text after the last backslash. */
  function AfterLast(s: string): string {
    if '\\' in s then AfterLast(s[1..]) else s
  }

  lemma BackslashesCons(c: char, s: string)
    ensures Backslashes([c] + s) == (if c == '\\' then 1 else 0) + Backslashes(s)
    ensures '\\' in s || c == '\\' ==> AfterLast([c] + s) == AfterLast(s)
  {
    assert ([c] + s)[1..] == s;
    assert ([c] + s)[0] == c;
    assert '\\' in s || c == '\\' ==> '\\' in [c] + s;
  }

  lemma {:induction false} BackslashesDrop(s: string, n: nat)
    requires n <= |s|
    ensures Backslashes(s) == Backslashes(s[..n]) + Backslashes(s[n..])
    ensures '\\' in s[n..] ==> AfterLast(s) == AfterLast(s[n..])
  {
    if n == 0 {
      assert s[0..] == s;
    } else {
      BackslashesDrop(s[1..], n - 1);
      assert s[1..][n - 1..] == s[n..];
      assert s[..n] == [s[0]] + s[1..][..n - 1];
      assert s == [s[0]] + s[1..];
      BackslashesCons(s[0], s[1..]);
      BackslashesCons(s[0], s[1..][..n - 1]);
    }
  }

  lemma HexFirst(t: string)
    requires Displayed(t) != "" && IsHex(Displayed(t)[0])
    ensures t != "" && IsHex(t[0]) && Displayed(t) == [t[0]] + Displayed(t[1..])
  {
    hide IsHex;
    assert Displayed(t)[0] == DisplayChar(t[0])[0];
    NotHex();
  }

  lemma NotHex()
    ensures !IsHex('\\')
  {
  }

  lemma ConsSlices<T>(x: T, a: seq<T>, k: nat)
    requires 0 < k <= |a| + 1
    ensures ([x] + a)[k..] == a[k - 1..] && ([x] + a)[..k] == [x] + a[..k - 1]
    ensures ([x] + a)[1..] == a
  {
  }

  /** Hex digits at the front of a displayed text are characters of the text. */
  lemma {:induction false} HexDisplayed(t: string, k: nat)
    requires k <= |Displayed(t)| && forall i :: 0 <= i < k ==> IsHex(Displayed(t)[i])
    ensures k <= |t| && Displayed(t)[k..] == Displayed(t[k..])
    ensures '\\' !in t[..k]
  {
    hide Displayed;
    hide IsHex;
    if k == 0 {
      assert Displayed(t)[0..] == Displayed(t) && t[0..] == t;
    } else {
      HexFirst(t);
      NotHex();
      var rest := Displayed(t[1..]);
      forall i | 0 <= i < k - 1 ensures IsHex(rest[i]) {
        assert Displayed(t)[i + 1] == rest[i];
      }
      HexDisplayed(t[1..], k - 1);
      assert t == [t[0]] + t[1..];
      ConsSlices(t[0], t[1..], k);
      ConsSlices(t[0], rest, k);
    }
  }

  /** What the decoder makes of a displayed backslash: `n` characters go, and some of what was shown stays. */
  ghost predicate Reads(s: string, c: char, len: nat, n: nat, extra: string) {
    && 2 <= n <= |s| && len <= |Displayed(s)|
    && Displayed(s)[len..] == extra + Displayed(s[n..])
    && (extra != "" ==> n == 2 && c == '\\' && NeedsEscape(s[1]) && extra == DisplayChar(s[1])[1..])
    && (extra == "" && c == '\\' ==> (n == 2 && s[1] == '\\') || '\\' !in s[1..n])
  }

  lemma DisplayedPair(s: string)
    requires |s| >= 2 && s[0] == '\\'
    ensures Displayed(s) == "\\" + (DisplayChar(s[1]) + Displayed(s[2..]))
  {
    assert s[1..][0] == s[1] && s[1..][1..] == s[2..];
  }

  lemma BackslashPlain(s: string)
    requires |s| >= 2 && s[0] == '\\' && !NeedsEscape(s[1])
    ensures var d := Displayed(s);
            |d| >= 2 && d[0] == '\\' && d[1] == s[1] && d[2..] == Displayed(s[2..])
  {
    hide Displayed;
    DisplayedPair(s);
    assert Displayed(s) == "\\" + ([s[1]] + Displayed(s[2..]));
  }

  lemma UnitBeforeControl(s: string)
    requires |s| >= 2 && s[0] == '\\' && NeedsEscape(s[1])
    ensures Displayed(s) != "" && FirstUnit(Displayed(s), true) == Some(Unit('\\', 2))
    ensures Reads(s, '\\', 2, 2, DisplayChar(s[1])[1..])
  {
    hide Displayed;
    hide DisplayChar;
    hide NeedsEscape;
    var d, e := Displayed(s), DisplayChar(s[1]);
    DisplayedPair(s);
    assert d[1] == e[0];
    assert d[2..] == e[1..] + Displayed(s[2..]);
  }

  lemma HexOfDisplayed(t: string)
    requires Hex4(Displayed(t)).Some?
    ensures |t| >= 4 && |Displayed(t)| >= 4 && '\\' !in t[..4] && Displayed(t)[4..] == Displayed(t[4..])
  {
    hide Displayed;
    HexDisplayed(t, 4);
  }

  lemma SliceOfSlice(s: string, i: nat, j: nat)
    requires i + j <= |s|
    ensures s[i..][j..] == s[i + j..]
  {
  }

  lemma UnitUnicode(s: string)
    requires |s| >= 2 && s[0] == '\\' && s[1] == 'u' && |Displayed(s)| >= 2 && UnicodeUnit(Displayed(s)).Some?
    ensures var u := UnicodeUnit(Displayed(s)).value; Reads(s, u.c, u.len, u.len, "")
  {
    hide Displayed;
    hide Hex4;
    hide LowSurrogate;
    var d, t := Displayed(s), s[2..];
    BackslashPlain(s);
    HexOfDisplayed(t);
    SliceOfSlice(s, 2, 4);
    SliceOfSlice(d, 2, 4);
    var u := UnicodeUnit(d).value;
    if u.len == 6 {
      assert s[1..6] == ['u'] + t[..4];
      assert [] + Displayed(s[6..]) == Displayed(s[6..]);
    } else {
      UnitLow(s[6..]);
      SliceOfSlice(s, 6, 6);
      SliceOfSlice(d, 6, 6);
      assert [] + Displayed(s[12..]) == Displayed(s[12..]);
    }
  }

  lemma FirstCharsOfDisplayed(t: string)
    requires |Displayed(t)| >= 2 && Displayed(t)[0] == '\\' && Displayed(t)[1] == 'u'
    ensures |t| >= 2 && t[0] == '\\' && t[1] == 'u'
  {
    DisplayedSecond(t);
    assert Displayed(t)[0] == DisplayChar(t[0])[0];
  }

  lemma DisplayedSecond(t: string)
    requires t != "" && |Displayed(t)| >= 2
    ensures var second := Displayed(t)[1];
            if NeedsEscape(t[0]) then second == DisplayChar(t[0])[1] else |t| >= 2 && second == DisplayChar(t[1])[0]
  {
    if !NeedsEscape(t[0]) {
      assert t[1..] != "";
      assert t[1..][0] == t[1];
    }
  }

  lemma UnitLow(t: string)
    requires LowSurrogate(Displayed(t)).Some?
    ensures |t| >= 6 && |Displayed(t)| >= 6 && Displayed(t)[6..] == Displayed(t[6..])
  {
    hide Displayed;
    hide Hex4;
    FirstCharsOfDisplayed(t);
    BackslashPlain(t);
    HexOfDisplayed(t[2..]);
    SliceOfSlice(t, 2, 4);
    SliceOfSlice(Displayed(t), 2, 4);
  }

  lemma UnitHex(s: string)
    requires |s| >= 2 && s[0] == '\\' && s[1] == 'x'
    requires var d := Displayed(s); |d| >= 4 && IsHex(d[2]) && IsHex(d[3])
    ensures forall c :: Reads(s, c, 4, 4, "")
  {
    hide Displayed;
    hide IsHex;
    var d, t := Displayed(s), s[2..];
    BackslashPlain(s);
    assert Displayed(t)[0] == d[2] && Displayed(t)[1] == d[3];
    HexDisplayed(t, 2);
    SliceOfSlice(s, 2, 2);
    SliceOfSlice(d, 2, 2);
    assert s[1..4] == ['x'] + t[..2];
    assert [] + Displayed(s[4..]) == Displayed(s[4..]);
  }

  lemma {:induction false} UnitOfBackslash(s: string) returns (n: nat, extra: string)
    requires s != "" && s[0] == '\\' && FirstUnit(Displayed(s), true).Some?
    ensures var u := FirstUnit(Displayed(s), true).value; Reads(s, u.c, u.len, n, extra)
  {
    hide Displayed;
    n, extra := 2, "";
    OneBackslash(s);
    if NeedsEscape(s[1]) {
      extra := DisplayChar(s[1])[1..];
      UnitBeforeControl(s);
    } else {
      BackslashPlain(s);
      if s[1] == 'u' {
        n := UnicodeUnit(Displayed(s)).value.len;
        UnitUnicode(s);
      } else if s[1] == 'x' {
        n := 4;
        UnitHex(s);
      }
    }
  }

  lemma OneBackslash(s: string)
    requires s != "" && s[0] == '\\'
    ensures Displayed(s) != "" && (FirstUnit(Displayed(s), true).Some? ==> |s| >= 2)
  {
    if |s| == 1 {
      assert s[1..] == "";
    }
  }

  lemma ConsText(a: string, b: string)
    requires a != ""
    ensures a + b == [a[0]] + (a[1..] + b) && a == [a[0]] + a[1..]
  {
  }

  lemma DecodeCons(c: char, rest: string)
    requires c != '\\'
    ensures Decode([c] + rest, true)
         == if Decode(rest, true).None? then None else Some([c] + Decode(rest, true).value)
  {
    assert ([c] + rest)[1..] == rest;
  }

  lemma {:induction false} DecodeAfterPlain(plain: string, rest: string)
    requires '\\' !in plain && Decode(plain + rest, true).Some?
    ensures Decode(rest, true).Some? && Decode(plain + rest, true).value == plain + Decode(rest, true).value
  {
    hide Decode;
    if plain == "" {
      assert plain + rest == rest;
      assert "" + Decode(rest, true).value == Decode(rest, true).value;
    } else {
      assert plain[0] in plain;
      ConsText(plain, rest);
      DecodeCons(plain[0], plain[1..] + rest);
      DecodeAfterPlain(plain[1..], rest);
      var d := Decode(rest, true).value;
      ConcatAssociative([plain[0]], plain[1..], d);
    }
  }

  /** Decoding what was shown never adds a backslash, and if it keeps them all, the text after the last one differs. */
  ghost predicate Spoilt(s: string, r: string) {
    && Backslashes(r) <= Backslashes(s)
    && (Backslashes(r) == Backslashes(s) && '\\' in s ==> AfterLast(r) != AfterLast(s))
  }

  lemma SpoiltPlain(c: char, s: string, r: string)
    requires c != '\\' && Spoilt(s, r)
    ensures Spoilt([c] + s, [c] + r)
  {
    BackslashesCons(c, s);
    BackslashesCons(c, r);
  }

  /** The counts when a text is taken apart. */
  lemma {:induction false} BackslashesThree(c: char, a: string, b: string)
    ensures Backslashes([c] + (a + b)) == (if c == '\\' then 1 else 0) + Backslashes(a) + Backslashes(b)
    ensures '\\' in b ==> AfterLast([c] + (a + b)) == AfterLast(b)
    ensures c == '\\' && '\\' !in a && '\\' !in b ==> AfterLast([c] + (a + b)) == a + b
  {
    BackslashesCons(c, a + b);
    BackslashesDrop(a + b, |a|);
    assert (a + b)[..|a|] == a && (a + b)[|a|..] == b;
  }

  lemma SpoiltUnit(s: string, c: char, len: nat, n: nat, extra: string, q: string)
    requires s != "" && s[0] == '\\' && Reads(s, c, len, n, extra)
    requires Spoilt(s[n..], q)
    requires '\\' !in s[n..] ==> q == s[n..]
    ensures Spoilt(s, [c] + (extra + q))
  {
    hide Displayed;
    hide Backslashes;
    hide AfterLast;
    var gone, left := s[1..n], s[n..];
    assert s == [s[0]] + (gone + left);
    BackslashesThree(s[0], gone, left);
    BackslashesThree(c, extra, q);
    if extra != "" {
      ExtraPlain(s, c, len, n, extra);
      ControlExtra(s[1], extra, left, q);
      assert gone == [s[1]];
    } else if c == '\\' && '\\' !in gone && '\\' !in left {
      assert |extra + q| < |gone + left|;
    }
  }

  /** What is left of a control character that was shown does not start like the control character. */
  lemma ControlExtra(c: char, extra: string, a: string, b: string)
    requires NeedsEscape(c) && extra == DisplayChar(c)[1..]
    ensures c != '\\' && [c] + a != extra + b
  {
    assert ([c] + a)[0] == c && (extra + b)[0] == extra[0];
  }

  lemma {:induction false} DecodingSpoils(s: string)
    requires Decode(Displayed(s), true).Some?
    ensures Spoilt(s, Decode(Displayed(s), true).value)
    decreases |s|
  {
    hide Spoilt;
    if s == "" {
      NothingSpoilt();
    } else if s[0] != '\\' {
      DecodeStep(s[0], Displayed(s[1..]));
      DecodingSpoils(s[1..]);
      SpoiltPlain(s[0], s[1..], Decode(Displayed(s[1..]), true).value);
      assert s == [s[0]] + s[1..];
    } else {
      DisplayedNonempty(s);
      var u := FirstUnit(Displayed(s), true).value;
      var n, extra := UnitOfBackslash(s);
      ExtraPlain(s, u.c, u.len, n, extra);
      DecodeAfterPlain(extra, Displayed(s[n..]));
      DecodingSpoils(s[n..]);
      if '\\' !in s[n..] {
        DisplayRoundTrip(s[n..]);
      }
      SpoiltUnit(s, u.c, u.len, n, extra, Decode(Displayed(s[n..]), true).value);
    }
  }

  lemma NothingSpoilt()
    ensures Spoilt("", "")
  {
  }

  lemma DisplayedNonempty(s: string)
    ensures s != "" ==> Displayed(s) != ""
  {
  }

  lemma ExtraPlain(s: string, c: char, len: nat, n: nat, extra: string)
    requires Reads(s, c, len, n, extra)
    ensures '\\' !in extra
  {
  }

  /** The edit decoder gives back a line that was shown exactly when the line has no backslash. */
  lemma DisplayRoundTripsExactly(s: string)
    ensures Decode(Displayed(s), true) == Some(s) <==> '\\' !in s
  {
    if '\\' !in s {
      DisplayRoundTrip(s);
    } else if Decode(Displayed(s), true).Some? {
      DecodingSpoils(s);
    }
  }

  /** What is shown holds no control character but tabs and newlines. */
  lemma {:induction false} DisplayedIsPlain(s: string)
    ensures forall i :: 0 <= i < |Displayed(s)| ==>
              var c := Displayed(s)[i]; c == '\t' || c == '\n' || (0x20 <= c as int && c as int != 0x7F)
  {
    if s != "" {
      DisplayedIsPlain(s[1..]);
      PlainDisplay(s[0]);
      hide DisplayChar;
    }
  }

  lemma PlainDisplay(c: char)
    ensures forall i :: 0 <= i < |DisplayChar(c)| ==>
              var d := DisplayChar(c)[i]; d == '\t' || d == '\n' || (0x20 <= d as int && d as int != 0x7F)
  {
  }
}
