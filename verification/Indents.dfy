/** Indentation: classifying a file's style and applying `@N` directives (crates/aifed/src/indent.rs). */
module Indents {
  import opened Prelude
  import opened StableSort
  import opened Whitespace

  datatype UnknownReason = Mixed | Undeterminable

  datatype IndentKind = Tab | Space(width: nat) | Unknown(reason: UnknownReason)

  datatype IndentStyle = TabStyle | SpaceStyle

  datatype IndentSettings = IndentSettings(
    assistEnabled: bool, forcedStyle: Option<IndentStyle>, forcedWidth: Option<nat>)

  datatype ResolvedIndent = ResolvedIndent(kind: IndentKind, configConflict: bool)

  // ---------- one line ----------

  function RunLen(line: Line): (n: nat)
    ensures n <= |line|
    ensures forall i :: 0 <= i < n ==> line[i] == ' ' || line[i] == '\t'
    ensures n < |line| ==> line[n] != ' ' && line[n] != '\t'
  {
    if line == "" || (line[0] != ' ' && line[0] != '\t') then 0 else 1 + RunLen(line[1..])
  }

  /** The leading run of tabs and spaces. */
  function LeadingIndent(line: Line): string { line[..RunLen(line)] }

  /** A line that counts for the style of a file: not blank, and indented. */
  predicate Indented(line: Line) { !IsBlankLine(line) && RunLen(line) > 0 }

  /** A space somewhere before a tab. */
  ghost predicate MixedRun(run: string) {
    exists i, j :: 0 <= i < j < |run| && run[i] == ' ' && run[j] == '\t'
  }

  function CountChar(s: string, c: char): (n: nat)
    ensures n <= |s|
  {
    if s == "" then 0 else CountChar(s[..|s| - 1], c) + if s[|s| - 1] == c then 1 else 0
  }

  // ---------- a file ----------

  datatype Analysis = Analysis(
    hasIndented: bool, tabLeading: bool, spaceLeading: bool, mixedRun: bool, spaceCounts: seq<nat>)

  /** What the analysis of a file is, by what its indented lines are. */
  ghost predicate Describes(a: Analysis, lines: seq<Line>) {
    && (a.hasIndented <==> exists l :: l in lines && Indented(l))
    && (a.tabLeading <==> exists l :: l in lines && Indented(l) && l[0] == '\t')
    && (a.spaceLeading <==> exists l :: l in lines && Indented(l) && l[0] == ' ')
    && (a.mixedRun <==> exists l :: l in lines && Indented(l) && MixedRun(LeadingIndent(l)))
    && (forall n :: n in a.spaceCounts <==>
          exists l :: l in lines && Indented(l) && l[0] == ' ' && n == CountChar(LeadingIndent(l), ' '))
  }

  function EmptyAnalysis(): Analysis { Analysis(false, false, false, false, []) }

  /** Whether a run mixes, by a scan that remembers having seen a space. */
  predicate ScanMixed(run: string, n: nat)
    requires n <= |run|
  {
    n > 0 && (ScanMixed(run, n - 1) || (run[n - 1] != ' ' && CountChar(run[..n - 1], ' ') > 0))
  }

  function AddLine(a: Analysis, line: Line): Analysis {
    if !Indented(line) then a
    else
      var run := LeadingIndent(line);
      Analysis(
        true,
        a.tabLeading || run[0] == '\t',
        a.spaceLeading || run[0] != '\t',
        a.mixedRun || ScanMixed(run, |run|),
        if run[0] == ' ' then a.spaceCounts + [CountChar(run, ' ')] else a.spaceCounts)
  }

  function AnalysisOf(lines: seq<Line>): Analysis {
    if lines == [] then EmptyAnalysis() else AddLine(AnalysisOf(lines[..|lines| - 1]), lines[|lines| - 1])
  }

  method Analyze(lines: seq<Line>) returns (a: Analysis)
    ensures a == AnalysisOf(lines)
  {
    a := EmptyAnalysis();
    for k := 0 to |lines|
      invariant a == AnalysisOf(lines[..k])
    {
      var line := lines[k];
      assert lines[..k + 1][..k] == lines[..k];
      if !IsBlankLine(line) {
        var run := LeadingIndent(line);
        if run != "" {
          a := a.(hasIndented := true);
          if run[0] == '\t' {
            a := a.(tabLeading := true);
          } else {
            a := a.(spaceLeading := true);
          }
          var seenSpace := false;
          ghost var before := a.mixedRun;
          var mixed := a.mixedRun;
          for i := 0 to |run|
            invariant seenSpace <==> CountChar(run[..i], ' ') > 0
            invariant mixed <==> before || ScanMixed(run, i)
          {
            assert run[..i + 1][..i] == run[..i];
            if run[i] == ' ' {
              seenSpace := true;
            } else if seenSpace {
              mixed := true;
            }
          }
          assert run[..|run|] == run;
          a := a.(mixedRun := mixed);
          if run[0] == ' ' {
            a := a.(spaceCounts := a.spaceCounts + [CountChar(run, ' ')]);
          }
        }
      }
    }
    assert lines[..|lines|] == lines;
  }

  lemma {:induction false} CountPositive(s: string, c: char)
    ensures CountChar(s, c) > 0 <==> exists i :: 0 <= i < |s| && s[i] == c
  {
    if s != "" {
      CountPositive(s[..|s| - 1], c);
      if s[|s| - 1] != c && CountChar(s, c) > 0 {
        var i :| 0 <= i < |s[..|s| - 1]| && s[..|s| - 1][i] == c;
        assert s[i] == c;
      }
      forall i | 0 <= i < |s| && s[i] == c ensures CountChar(s, c) > 0 {
        if i < |s| - 1 {
          assert s[..|s| - 1][i] == c;
        }
      }
    }
  }

  lemma {:induction false} ScanMixedExact(run: string, n: nat)
    requires n <= |run| && forall i :: 0 <= i < |run| ==> run[i] == ' ' || run[i] == '\t'
    ensures ScanMixed(run, n) <==> exists i, j :: 0 <= i < j < n && run[i] == ' ' && run[j] == '\t'
  {
    if n > 0 {
      ScanMixedExact(run, n - 1);
      CountPositive(run[..n - 1], ' ');
      if run[n - 1] != ' ' && CountChar(run[..n - 1], ' ') > 0 {
        var i :| 0 <= i < |run[..n - 1]| && run[..n - 1][i] == ' ';
        assert run[i] == ' ' && run[n - 1] == '\t';
      }
      forall i, j | 0 <= i < j < n && run[i] == ' ' && run[j] == '\t' ensures ScanMixed(run, n) {
        if j == n - 1 {
          assert run[..n - 1][i] == ' ';
        }
      }
    }
  }

  lemma {:induction false} AnalysisDescribes(lines: seq<Line>)
    ensures Describes(AnalysisOf(lines), lines)
  {
    hide LeadingIndent;
    hide ScanMixed;
    hide MixedRun;
    hide AddLine;
    hide Describes;
    if lines == [] {
      NothingDescribed();
    } else {
      var init, line := lines[..|lines| - 1], lines[|lines| - 1];
      AnalysisDescribes(init);
      assert lines == init + [line];
      if Indented(line) {
        RunScanned(line);
        DescribesStep(AnalysisOf(init), init, line);
      } else {
        DescribesSkip(AnalysisOf(init), init, line);
        NothingAdded(AnalysisOf(init), line);
      }
    }
  }

  lemma NothingAdded(a: Analysis, line: Line)
    ensures !Indented(line) ==> AddLine(a, line) == a
  {
  }

  lemma RunScanned(line: Line)
    ensures ScanMixed(LeadingIndent(line), |LeadingIndent(line)|) <==> MixedRun(LeadingIndent(line))
  {
    ScanMixedExact(LeadingIndent(line), |LeadingIndent(line)|);
  }

  lemma NothingDescribed()
    ensures Describes(AnalysisOf([]), [])
  {
  }

  lemma DescribesSkip(a: Analysis, lines: seq<Line>, line: Line)
    requires Describes(a, lines) && !Indented(line)
    ensures Describes(a, lines + [line])
  {
    hide Indented;
    assert forall l :: l in lines + [line] <==> l in lines || l == line;
  }

  lemma DescribesStep(a: Analysis, lines: seq<Line>, line: Line)
    requires Describes(a, lines) && Indented(line)
    requires ScanMixed(LeadingIndent(line), |LeadingIndent(line)|) <==> MixedRun(LeadingIndent(line))
    ensures Describes(AddLine(a, line), lines + [line])
  {
    var b := AddLine(a, line);
    assert LeadingIndent(line)[0] == line[0];
    assert forall l :: l in lines + [line] <==> l in lines || l == line;
    hide Indented;
    hide LeadingIndent;
    hide MixedRun;
    hide ScanMixed;
    hide CountChar;
    forall n
      ensures n in b.spaceCounts <==>
                exists l :: l in lines + [line] && Indented(l) && l[0] == ' ' && n == CountChar(LeadingIndent(l), ' ')
    {
      assert n in b.spaceCounts <==> n in a.spaceCounts || (line[0] == ' ' && n == CountChar(LeadingIndent(line), ' '));
    }
  }

  // ---------- classification ----------

  function Identity(n: nat): int { n }

  /** Removes repeated neighbours. */
  function Dedup(s: seq<nat>): (r: seq<nat>)
    ensures |r| <= |s|
    ensures s != [] ==> r != [] && r[0] == s[0]
    ensures forall n :: n in r <==> n in s
  {
    if |s| <= 1 then s
    else if s[0] == s[1] then Dedup(s[1..])
    else [s[0]] + Dedup(s[1..])
  }

  ghost predicate CountsPositive(a: Analysis) { forall n :: n in a.spaceCounts ==> n > 0 }

  function ClassifyFrom(a: Analysis): IndentKind
    requires CountsPositive(a)
  {
    if !a.hasIndented then Unknown(Undeterminable)
    else if a.mixedRun || (a.tabLeading && a.spaceLeading) then Unknown(Mixed)
    else if a.tabLeading then Tab
    else
      var distinct := Dedup(SortBy(a.spaceCounts, Identity));
      DistinctCounts(a.spaceCounts);
      if |distinct| < 2 then Unknown(Undeterminable)
      else
        assert distinct[0] in a.spaceCounts;
        var width := distinct[0];
        if forall i :: 0 <= i < |distinct| ==> distinct[i] % width == 0 then Space(width)
        else Unknown(Undeterminable)
  }

  lemma CountsOfLinesPositive(lines: seq<Line>)
    ensures CountsPositive(AnalysisOf(lines))
  {
    AnalysisDescribes(lines);
    forall n | n in AnalysisOf(lines).spaceCounts ensures n > 0 {
      var l :| l in lines && Indented(l) && l[0] == ' ' && n == CountChar(LeadingIndent(l), ' ');
      CountPositive(LeadingIndent(l), ' ');
      assert LeadingIndent(l)[0] == ' ';
    }
  }

  function Classify(lines: seq<Line>): IndentKind {
    CountsOfLinesPositive(lines);
    ClassifyFrom(AnalysisOf(lines))
  }

  /** An indented line in the style of a tab file: tabs, then possibly spaces for alignment. */
  ghost predicate TabIndented(l: Line) { RunLen(l) > 0 && l[0] == '\t' && !MixedRun(LeadingIndent(l)) }

  /** An indented line in the style of a file with `w` spaces a level. */
  ghost predicate SpaceIndented(l: Line, w: nat)
    requires w > 0
  {
    RunLen(l) % w == 0 && forall i :: 0 <= i < RunLen(l) ==> l[i] == ' '
  }

  ghost predicate TabFile(lines: seq<Line>) {
    && (exists l :: l in lines && Indented(l))
    && (forall l :: l in lines && Indented(l) ==> TabIndented(l))
  }

  /** Every indented line is a multiple of `w` spaces, one is exactly `w`, and one is deeper. */
  ghost predicate SpaceFile(lines: seq<Line>, w: nat) {
    && w > 0
    && (forall l :: l in lines && Indented(l) ==> SpaceIndented(l, w))
    && (exists l :: l in lines && Indented(l) && RunLen(l) == w)
    && (exists l :: l in lines && Indented(l) && RunLen(l) != w)
  }

  lemma {:induction false} CountAll(s: string, c: char)
    requires forall i :: 0 <= i < |s| ==> s[i] == c
    ensures CountChar(s, c) == |s|
  {
    if s != "" {
      CountAll(s[..|s| - 1], c);
    }
  }

  /** Without a mixed run, a run that starts with a space is spaces only. */
  lemma SpacesOnly(l: Line)
    requires RunLen(l) > 0 && l[0] == ' ' && !MixedRun(LeadingIndent(l))
    ensures forall i :: 0 <= i < RunLen(l) ==> l[i] == ' '
    ensures CountChar(LeadingIndent(l), ' ') == RunLen(l)
  {
    var run := LeadingIndent(l);
    forall i | 0 <= i < |run| ensures run[i] == ' ' && l[i] == ' ' {
      assert run[i] == l[i] && run[0] == ' ';
    }
    CountAll(run, ' ');
  }

  /** A file classifies as tabs exactly when it has indented lines and all of them are indented with tabs. */
  lemma {:induction false} ClassifyTab(lines: seq<Line>)
    ensures Classify(lines) == Tab <==> TabFile(lines)
  {
    AnalysisDescribes(lines);
    hide Indented;
    hide MixedRun;
    hide LeadingIndent;
    forall l | l in lines && Indented(l) ensures RunLen(l) > 0 && (l[0] == ' ' || l[0] == '\t') {
      IndentedRun(l);
    }
  }

  lemma IndentedRun(l: Line)
    requires Indented(l)
    ensures RunLen(l) > 0 && |l| > 0 && (l[0] == ' ' || l[0] == '\t')
  {
  }

  /** The counts of a file whose indented lines are all spaces are the lengths of their runs. */
  lemma CountsAreRuns(lines: seq<Line>)
    requires forall l :: l in lines && Indented(l) ==> l[0] == ' ' && !MixedRun(LeadingIndent(l))
    ensures forall n :: n in AnalysisOf(lines).spaceCounts <==> exists l :: l in lines && Indented(l) && n == RunLen(l)
  {
    AnalysisDescribes(lines);
    forall l | l in lines && Indented(l) ensures CountChar(LeadingIndent(l), ' ') == RunLen(l) {
      SpacesOnly(l);
    }
  }

  lemma DistinctCounts(counts: seq<nat>)
    ensures var d := Dedup(SortBy(counts, Identity));
            && (forall n :: n in d <==> n in counts)
            && (forall i :: 0 <= i < |d| ==> d != [] && d[0] <= d[i])
            && (|d| >= 2 ==> exists n :: n in counts && n != d[0])
            && (forall n, m :: n in counts && m in counts && n != m ==> |d| >= 2)
  {
    hide SortBy;
    hide Dedup;
    hide Sorted;
    var sorted := SortBy(counts, Identity);
    SortSorted(counts, Identity);
    SameMembers(sorted, counts);
    DedupIncreasing(sorted);
    IncreasingList(Dedup(sorted));
  }

  lemma SameMembers(a: seq<nat>, b: seq<nat>)
    requires multiset(a) == multiset(b)
    ensures forall n :: n in a <==> n in b
  {
    forall n ensures n in a <==> n in b {
      assert n in a <==> n in multiset(a);
    }
  }

  lemma IncreasingList(d: seq<nat>)
    requires forall i, j :: 0 <= i < j < |d| ==> d[i] < d[j]
    ensures forall i :: 0 <= i < |d| ==> d[0] <= d[i]
    ensures |d| >= 2 ==> d[1] in d && d[1] != d[0]
    ensures forall n, m :: n in d && m in d && n != m ==> |d| >= 2
  {
  }

  lemma {:induction false} DedupIncreasing(s: seq<nat>)
    requires Sorted(s, Identity)
    ensures forall i, j :: 0 <= i < j < |Dedup(s)| ==> Dedup(s)[i] < Dedup(s)[j]
  {
    if |s| > 1 {
      DedupIncreasing(s[1..]);
      var rest := Dedup(s[1..]);
      if s[0] != s[1] {
        assert Identity(s[0]) <= Identity(s[1]);
        assert rest[0] == s[1];
      }
    }
  }

  /** A file classifies as `w` spaces exactly when it is a file of `w` spaces. */
  lemma {:induction false} ClassifySpace(lines: seq<Line>, w: nat)
    ensures Classify(lines) == Space(w) <==> SpaceFile(lines, w)
  {
    if Classify(lines) == Space(w) {
      SpaceClassified(lines, w);
    }
    if SpaceFile(lines, w) {
      SpaceFileClassifies(lines, w);
    }
  }

  lemma SpaceClassified(lines: seq<Line>, w: nat)
    requires Classify(lines) == Space(w)
    ensures SpaceFile(lines, w)
  {
    var a := AnalysisOf(lines);
    AnalysisDescribes(lines);
    CountsOfLinesPositive(lines);
    var d := Dedup(SortBy(a.spaceCounts, Identity));
    DistinctCounts(a.spaceCounts);
    assert d[0] == w && d[0] in d;
    forall l | l in lines && Indented(l) ensures l[0] == ' ' && !MixedRun(LeadingIndent(l)) {
      IndentedRun(l);
    }
    CountsAreRuns(lines);
    forall l | l in lines && Indented(l) ensures SpaceIndented(l, w) {
      SpacesOnly(l);
      assert RunLen(l) in a.spaceCounts;
      assert RunLen(l) in d;
      var i :| 0 <= i < |d| && d[i] == RunLen(l);
    }
    var n :| n in a.spaceCounts && n != w;
    assert w in a.spaceCounts;
  }

  lemma {:induction false} SpaceFileClassifies(lines: seq<Line>, w: nat)
    requires SpaceFile(lines, w)
    ensures Classify(lines) == Space(w)
  {
    hide SortBy;
    hide Dedup;
    hide AnalysisOf;
    hide IsBlankLine;
    var a := AnalysisOf(lines);
    AnalysisDescribes(lines);
    forall l | l in lines && Indented(l) ensures l[0] == ' ' && !MixedRun(LeadingIndent(l)) {
      IndentedRun(l);
      assert forall i :: 0 <= i < RunLen(l) ==> LeadingIndent(l)[i] == l[i];
    }
    CountsAreRuns(lines);
    DistinctCounts(a.spaceCounts);
    var d := Dedup(SortBy(a.spaceCounts, Identity));
    forall n | n in a.spaceCounts ensures n % w == 0 && n >= w {
      var l :| l in lines && Indented(l) && n == RunLen(l);
      IndentedRun(l);
      MultipleAtLeast(n, w);
    }
    var first :| first in lines && Indented(first) && RunLen(first) == w;
    var other :| other in lines && Indented(other) && RunLen(other) != w;
    assert w in a.spaceCounts && RunLen(other) in a.spaceCounts;
    assert w in d;
    var k :| 0 <= k < |d| && d[k] == w;
    assert d[0] in d;
    assert d[0] == w;
    forall i | 0 <= i < |d| ensures d[i] % w == 0 {
      assert d[i] in d;
    }
  }

  lemma MultipleAtLeast(n: nat, w: nat)
    requires w > 0 && n > 0 && n % w == 0
    ensures n >= w
  {
  }

  // ---------- directives ----------

  /** A 32-bit signed value: what is left of an integer after wrapping. */
  function Wrap32(n: int): int { (n + 0x8000_0000) % 0x1_0000_0000 - 0x8000_0000 }

  function Repeated(c: char, n: nat): (r: string)
    ensures |r| == n
    ensures forall i :: 0 <= i < n ==> r[i] == c
  {
    if n == 0 then "" else [c] + Repeated(c, n - 1)
  }

  function Body(content: Line): (r: Line)
    ensures r == "" || (r[0] != ' ' && r[0] != '\t')
  {
    content[RunLen(content)..]
  }

  /** The level of the anchor, by counting tabs or dividing spaces. */
  function AnchorLevel(anchorIndent: string, kind: IndentKind): int
    requires !kind.Unknown?
  {
    match kind
    case Tab => Wrap32(CountChar(anchorIndent, '\t'))
    case Space(w) => if w > 0 then Wrap32(CountChar(anchorIndent, ' ') / w) else 0
  }

  function ApplyIndent(content: Line, anchorIndent: string, directive: int, kind: IndentKind): Line
    requires directive != 0 ==> !kind.Unknown?
  {
    if directive == 0 then anchorIndent + Body(content)
    else
      var level := Wrap32(AnchorLevel(anchorIndent, kind) + directive);
      var target := if level < 0 then 0 else level;
      (match kind case Tab => Repeated('\t', target) case Space(w) => Repeated(' ', target * w)) + Body(content)
  }

  function ResolveIndent(lines: seq<Line>, settings: IndentSettings): ResolvedIndent {
    match settings.forcedStyle
    case None => ResolvedIndent(Classify(lines), false)
    case Some(style) =>
      var a := AnalysisOf(lines);
      match (style, settings.forcedWidth)
      case (TabStyle, _) => ResolvedIndent(Tab, a.spaceLeading || a.mixedRun)
      case (SpaceStyle, Some(w)) =>
        ResolvedIndent(Space(w), w == 0 || a.tabLeading || a.mixedRun || !AllDivide(w, a.spaceCounts))
      case (SpaceStyle, None) => ResolvedIndent(Classify(lines), false)
  }

  predicate AllDivide(w: nat, counts: seq<nat>)
    requires w > 0
  {
    forall i :: 0 <= i < |counts| ==> counts[i] % w == 0
  }

  // ---------- what a directive makes of a line ----------

  lemma {:induction false} CountIsMultiplicity(s: string, c: char)
    ensures CountChar(s, c) == multiset(s)[c]
  {
    if s != "" {
      CountIsMultiplicity(s[..|s| - 1], c);
      assert s == s[..|s| - 1] + [s[|s| - 1]];
    }
  }

  /** The level of a line: its leading tabs, or its leading spaces by the width. */
  function LevelOf(line: Line, kind: IndentKind): nat
    requires !kind.Unknown?
  {
    var run := multiset(line[..RunLen(line)]);
    match kind case Tab => run['\t'] case Space(w) => if w == 0 then 0 else run[' '] / w
  }

  /**
   * `@N` puts the content, without the tabs and spaces it begins with, `N` levels deeper than its anchor (at the margin
   * if that would be negative), in tabs or in spaces of the given width. `@0` copies what the anchor begins with.
   */
  lemma {:induction false} DirectiveIndents(content: Line, anchor: Line, n: int, kind: IndentKind)
    requires !kind.Unknown?
    requires LevelOf(anchor, kind) < 0x8000_0000 && -0x8000_0000 <= LevelOf(anchor, kind) + n < 0x8000_0000
    ensures var level := if LevelOf(anchor, kind) + n < 0 then 0 else LevelOf(anchor, kind) + n;
            var body := content[RunLen(content)..];
            && (n != 0 && kind == Tab ==>
                  ApplyIndent(content, LeadingIndent(anchor), n, kind) == Repeated('\t', level) + body)
            && (n != 0 && kind.Space? ==>
                  ApplyIndent(content, LeadingIndent(anchor), n, kind) == Repeated(' ', level * kind.width) + body)
    ensures ApplyIndent(content, LeadingIndent(anchor), 0, kind)
         == anchor[..RunLen(anchor)] + content[RunLen(content)..]
  {
    hide Wrap32;
    hide AnchorLevel;
    hide LevelOf;
    AnchorLevelExact(anchor, kind);
    WrapNothing(LevelOf(anchor, kind) + n);
  }

  lemma WrapNothing(n: int)
    requires -0x8000_0000 <= n < 0x8000_0000
    ensures Wrap32(n) == n
  {
  }

  lemma AnchorLevelExact(anchor: Line, kind: IndentKind)
    requires !kind.Unknown? && LevelOf(anchor, kind) < 0x8000_0000
    ensures AnchorLevel(LeadingIndent(anchor), kind) == LevelOf(anchor, kind)
  {
    hide Wrap32;
    CountIsMultiplicity(LeadingIndent(anchor), '\t');
    CountIsMultiplicity(LeadingIndent(anchor), ' ');
    WrapNothing(LevelOf(anchor, kind));
  }

  // ---------- directives keep the style ----------

  /** A line that does not change the class of a file of this kind. */
  ghost predicate Fits(l: Line, kind: IndentKind) {
    match kind
    case Tab => Indented(l) ==> TabIndented(l)
    case Space(w) => w > 0 && (Indented(l) ==> SpaceIndented(l, w))
    case Unknown(_) => false
  }

  /** Adding lines that fit, and dropping none, leaves the classification alone. */
  lemma {:induction false} FittingKeepsClass(before: seq<Line>, after: seq<Line>)
    requires !Classify(before).Unknown?
    requires forall l :: l in before ==> l in after
    requires forall l :: l in after ==> l in before || Fits(l, Classify(before))
    ensures Classify(after) == Classify(before)
  {
    match Classify(before)
    case Tab =>
      ClassifyTab(before);
      ClassifyTab(after);
    case Space(w) =>
      ClassifySpace(before, w);
      ClassifySpace(after, w);
      assert SpaceFile(after, w) by {
        var first :| first in before && Indented(first) && RunLen(first) == w;
        var other :| other in before && Indented(other) && RunLen(other) != w;
        assert first in after && other in after;
      }
  }

  lemma {:induction false} RunLenOf(run: string, body: Line)
    requires forall i :: 0 <= i < |run| ==> run[i] == ' ' || run[i] == '\t'
    requires body == "" || (body[0] != ' ' && body[0] != '\t')
    ensures RunLen(run + body) == |run| && LeadingIndent(run + body) == run
  {
    var l := run + body;
    assert forall k :: 0 <= k < |run| ==> l[k] == run[k];
    assert l[..|run|] == run;
  }

  lemma RepeatedFits(content: Line, c: char, n: nat, kind: IndentKind)
    requires (kind == Tab && c == '\t') || (kind.Space? && kind.width > 0 && c == ' ' && n % kind.width == 0)
    ensures Fits(Repeated(c, n) + Body(content), kind)
  {
    var run := Repeated(c, n);
    RunLenOf(run, Body(content));
  }

  /** An indented line of a file of known style. */
  lemma FitsOwnFile(lines: seq<Line>, l: Line)
    requires !Classify(lines).Unknown? && l in lines
    ensures Fits(l, Classify(lines))
  {
    match Classify(lines)
    case Tab => ClassifyTab(lines);
    case Space(w) => ClassifySpace(lines, w);
  }

  lemma CopiedRunFits(anchor: Line, content: Line, kind: IndentKind)
    requires Fits(anchor, kind) && !IsBlankLine(anchor)
    ensures Fits(LeadingIndent(anchor) + Body(content), kind)
  {
    var run, l := LeadingIndent(anchor), LeadingIndent(anchor) + Body(content);
    RunLenOf(run, Body(content));
    if run == "" {
      assert RunLen(l) == 0;
    } else {
      assert l[0] == run[0] == anchor[0];
      assert forall i :: 0 <= i < |run| ==> l[i] == run[i] == anchor[i];
    }
  }

  /** One more line keeps a file's class exactly when it fits. */
  lemma OneLineFits(before: seq<Line>, after: seq<Line>, x: Line)
    requires !Classify(before).Unknown?
    requires forall l :: l in after <==> l in before || l == x
    ensures Classify(after) == Classify(before) <==> Fits(x, Classify(before))
  {
    hide Classify;
    hide TabIndented;
    hide SpaceIndented;
    hide Indented;
    ClassWidth(before);
    if Fits(x, Classify(before)) {
      FittingKeepsClass(before, after);
    } else {
      assert x in after;
      match Classify(before)
      case Tab => ClassifyTab(after);
      case Space(w) => ClassifySpace(after, w);
    }
  }

  /** A leading run in the style of the file. */
  ghost predicate RunInStyle(run: string, kind: IndentKind) {
    match kind
    case Tab => run == "" || (run[0] == '\t' && !MixedRun(run))
    case Space(w) => w > 0 && |run| % w == 0 && forall i :: 0 <= i < |run| ==> run[i] == ' '
    case Unknown(_) => false
  }

  lemma BlankBody(run: string, content: Line)
    requires forall i :: 0 <= i < |run| ==> run[i] == ' ' || run[i] == '\t'
    ensures IsBlankLine(run + Body(content)) <==> IsBlankLine(content)
  {
    hide IsBlankLine;
    var l, own := run + Body(content), LeadingIndent(content);
    BlankExactly(l);
    BlankExactly(content);
    assert content == own + Body(content);
    if IsBlankLine(l) {
      assert forall i :: |own| <= i < |content| ==> content[i] == l[i - |own| + |run|];
    }
    if IsBlankLine(content) {
      assert forall i :: |run| <= i < |l| ==> l[i] == content[i - |run| + |own|];
    }
  }

  lemma RunFitsExactly(run: string, content: Line, kind: IndentKind)
    requires !kind.Unknown? && (kind.Space? ==> kind.width > 0)
    requires forall i :: 0 <= i < |run| ==> run[i] == ' ' || run[i] == '\t'
    ensures Fits(run + Body(content), kind) <==> IsBlankLine(content) || RunInStyle(run, kind)
  {
    hide IsBlankLine;
    var l := run + Body(content);
    BlankBody(run, content);
    RunLenOf(run, Body(content));
    hide MixedRun;
    hide RunLen;
    hide Body;
    assert forall i :: 0 <= i < |run| ==> l[i] == run[i];
  }

  /**
   * Inserting a line with `@0` after an anchor of the file keeps the file's style exactly when the line is blank or
   * the run it copies is in style, which the run of a blank anchor need not be.
   */
  lemma CopiedIndentExactly(before: seq<Line>, after: seq<Line>, anchor: Line, content: Line)
    requires !Classify(before).Unknown?
    requires var x := ApplyIndent(content, LeadingIndent(anchor), 0, Classify(before));
             forall l :: l in after <==> l in before || l == x
    ensures Classify(after) == Classify(before)
       <==> IsBlankLine(content) || RunInStyle(LeadingIndent(anchor), Classify(before))
  {
    hide Classify;
    hide Fits;
    hide IsBlankLine;
    hide RunInStyle;
    ClassWidth(before);
    OneLineFits(before, after, ApplyIndent(content, LeadingIndent(anchor), 0, Classify(before)));
    RunFitsExactly(LeadingIndent(anchor), content, Classify(before));
  }

  /** No anchor, an anchor of the file, or for `@0` an anchor that is not blank. */
  ghost predicate GoodAnchor(lines: seq<Line>, anchor: Option<Line>, directive: int) {
    anchor.Some? ==> anchor.value in lines && (directive == 0 ==> !IsBlankLine(anchor.value))
  }

  lemma ClassWidth(lines: seq<Line>)
    ensures Classify(lines).Space? ==> Classify(lines).width > 0
  {
    if Classify(lines).Space? {
      ClassifySpace(lines, Classify(lines).width);
    }
  }

  lemma LevelsFit(content: Line, run: string, directive: int, kind: IndentKind)
    requires directive != 0 && !kind.Unknown? && (kind.Space? ==> kind.width > 0)
    ensures Fits(ApplyIndent(content, run, directive, kind), kind)
  {
    hide AnchorLevel;
    hide Wrap32;
    hide Fits;
    var level := Wrap32(AnchorLevel(run, kind) + directive);
    var target := if level < 0 then 0 else level;
    match kind
    case Tab =>
      RepeatedFits(content, '\t', target, kind);
    case Space(w) =>
      MultipleDivides(target, w);
      RepeatedFits(content, ' ', target * w, kind);
  }

  lemma NoIndentFits(content: Line, kind: IndentKind)
    requires !kind.Unknown? && (kind.Space? ==> kind.width > 0)
    ensures Fits("" + Body(content), kind)
  {
    RunLenOf("", Body(content));
  }

  /** A line made by a directive fits the file it is made for. */
  lemma {:induction false} DirectiveFits(lines: seq<Line>, anchor: Option<Line>, content: Line, directive: int)
    requires !Classify(lines).Unknown? && GoodAnchor(lines, anchor, directive)
    ensures var run := if anchor.Some? then LeadingIndent(anchor.value) else "";
            Fits(ApplyIndent(content, run, directive, Classify(lines)), Classify(lines))
  {
    hide Classify;
    hide Fits;
    var kind := Classify(lines);
    var run := if anchor.Some? then LeadingIndent(anchor.value) else "";
    ClassWidth(lines);
    if directive != 0 {
      LevelsFit(content, run, directive, kind);
    } else if anchor.Some? {
      FitsOwnFile(lines, anchor.value);
      CopiedRunFits(anchor.value, content, kind);
    } else {
      NoIndentFits(content, kind);
    }
  }

  lemma {:induction false} MultipleDivides(n: nat, w: nat)
    requires w > 0
    ensures (n * w) % w == 0
  {
    var q, r := (n * w) / w, (n * w) % w;
    assert (n - q) * w == r;
    if n - q >= 1 {
      MulAtLeast(n - q, w);
    } else if n - q <= -1 {
      MulAtLeast(q - n, w);
    }
  }

  lemma MulAtLeast(k: nat, w: nat)
    requires k >= 1
    ensures k * w >= w
  {
  }

  lemma RunsOfExample()
    ensures Indented("\tx") && TabIndented("\tx") && !Indented("  ")
    ensures LeadingIndent("  ") == "  " && !IsBlankLine("y") && !IsBlankLine("x")
  {
    assert "\tx"[1..] == "x" && "  "[1..] == " " && " "[1..] == "";
    hide IsUnicodeSpace;
    assert LeadingIndent("\tx") == "\t";
    assert "y"[0] == 'y' && "\tx"[1] == 'x' && !IsUnicodeSpace('y') && !IsUnicodeSpace('x') by {
      NotSpaces();
    }
    assert IsUnicodeSpace("  "[0]) && IsUnicodeSpace("  "[1]) by {
      NotSpaces();
    }
    BlankExactly("\tx");
    BlankExactly("  ");
    BlankExactly("y");
    assert "x"[0] == 'x';
    BlankExactly("x");
  }

  lemma NotSpaces()
    ensures !IsUnicodeSpace('x') && !IsUnicodeSpace('y') && !IsUnicodeSpace('z') && IsUnicodeSpace(' ')
  {
  }

  /** A tab file with a blank line of spaces: `@0` anchored at that line ends the file's style. */
  lemma BlankAnchorMixes()
    ensures var lines := ["\tx", "  "];
            && Classify(lines) == Tab
            && Classify(lines + [ApplyIndent("y", LeadingIndent(lines[1]), 0, Tab)]) != Tab
  {
    hide Classify;
    hide RunLen;
    hide Indented;
    hide TabIndented;
    hide IsBlankLine;
    hide ApplyIndent;
    var lines := ["\tx", "  "];
    RunsOfExample();
    assert lines[0] == "\tx";
    ClassifyTab(lines);
    CopiedIndentExactly(lines, lines + [ApplyIndent("y", LeadingIndent(lines[1]), 0, Tab)], lines[1], "y");
    assert LeadingIndent(lines[1])[0] == ' ';
  }

  // ---------- configured styles ----------

  /** Configuration forces spaces of a width that properly divides the file's own. */
  ghost predicate FinerWidth(lines: seq<Line>, settings: IndentSettings) {
    && settings.forcedStyle == Some(SpaceStyle) && settings.forcedWidth.Some? && Classify(lines).Space?
    && 0 < settings.forcedWidth.value < Classify(lines).width
    && Classify(lines).width % settings.forcedWidth.value == 0
  }

  lemma WidthCounted(lines: seq<Line>, w: nat)
    requires Classify(lines) == Space(w)
    ensures w in AnalysisOf(lines).spaceCounts && AnalysisOf(lines).spaceLeading && w > 0
  {
    hide Classify;
    hide AnalysisOf;
    hide IsBlankLine;
    ClassifySpace(lines, w);
    AnalysisDescribes(lines);
    var first :| first in lines && Indented(first) && RunLen(first) == w;
    SpacesOnlyRun(first, w);
  }

  lemma SpacesOnlyRun(l: Line, w: nat)
    requires w > 0 && SpaceIndented(l, w) && RunLen(l) > 0
    ensures l[0] == ' ' && CountChar(LeadingIndent(l), ' ') == RunLen(l)
  {
    CountAll(LeadingIndent(l), ' ');
  }

  lemma TabClassified(lines: seq<Line>)
    requires Classify(lines) == Tab
    ensures AnalysisOf(lines).tabLeading
  {
  }

  /**
   * For a file of known style, the configured style is the file's own or in conflict with the file, unless it is a
   * finer width of spaces.
   */
  lemma ConfiguredStyle(lines: seq<Line>, settings: IndentSettings)
    requires !Classify(lines).Unknown? && !FinerWidth(lines, settings)
    ensures var r := ResolveIndent(lines, settings); r.kind == Classify(lines) || r.configConflict
  {
    hide Classify;
    hide AnalysisOf;
    var a := AnalysisOf(lines);
    match Classify(lines)
    case Tab => TabClassified(lines);
    case Space(w) =>
      WidthCounted(lines, w);
      if settings.forcedStyle == Some(SpaceStyle) && settings.forcedWidth.Some? && settings.forcedWidth.value > 0 {
        var own := settings.forcedWidth.value;
        if AllDivide(own, a.spaceCounts) {
          var k :| 0 <= k < |a.spaceCounts| && a.spaceCounts[k] == w;
          MultipleAtLeast(w, own);
        }
      }
  }

  lemma FinerResolved(lines: seq<Line>, settings: IndentSettings)
    requires FinerWidth(lines, settings)
    ensures ResolveIndent(lines, settings) == ResolvedIndent(Space(settings.forcedWidth.value), false)
  {
    hide Classify;
    hide AnalysisOf;
    var a, w, own := AnalysisOf(lines), Classify(lines).width, settings.forcedWidth.value;
    NothingMixed(lines, w);
    forall k | 0 <= k < |a.spaceCounts| ensures a.spaceCounts[k] % own == 0 {
      CountsMultiple(lines, w, a.spaceCounts[k]);
      DividesThrough(a.spaceCounts[k], w, own);
    }
  }

  lemma NothingMixed(lines: seq<Line>, w: nat)
    requires Classify(lines) == Space(w)
    ensures !AnalysisOf(lines).tabLeading && !AnalysisOf(lines).mixedRun
  {
  }

  lemma CountsMultiple(lines: seq<Line>, w: nat, n: nat)
    requires Classify(lines) == Space(w) && n in AnalysisOf(lines).spaceCounts
    ensures w > 0 && n % w == 0
  {
    hide Classify;
    hide AnalysisOf;
    ClassifySpace(lines, w);
    AnalysisDescribes(lines);
    var l :| l in lines && Indented(l) && l[0] == ' ' && n == CountChar(LeadingIndent(l), ' ');
    SpacesOnlyRun(l, w);
  }

  lemma DividesThrough(n: nat, w: nat, own: nat)
    requires own > 0 && w > 0 && w % own == 0 && n % w == 0
    ensures n % own == 0
  {
    var a, b := n / w, w / own;
    assert n == (a * b) * own by {
      assert n == a * w && w == b * own;
      TimesThrough(a, b, own);
    }
    MultipleDivides(a * b, own);
  }

  lemma TimesThrough(a: nat, b: nat, c: nat)
    ensures a * (b * c) == (a * b) * c
  {
  }

  lemma WrapShift(a: int, level: int)
    requires 0 <= level < 0x8000_0000
    ensures Wrap32(a + Wrap32(level - a)) == level
  {
  }

  lemma WrapZero(a: int, level: int)
    requires -0x8000_0000 <= a < 0x8000_0000 && 0 <= level < 0x8000_0000 && a != level
    ensures Wrap32(level - a) != 0
  {
  }

  /** A directive that puts a line between the levels of a file with `w` spaces a level. */
  function FinerDirective(w: nat, own: nat): int
    requires own > 0
  {
    var a := Wrap32(w / own);
    Wrap32((if a == 1 then 2 else 1) - a)
  }

  lemma FinerLevels(w: nat, own: nat)
    requires 0 < own < w && w % own == 0
    ensures var a := Wrap32(w / own);
            var level := if a == 1 then 2 else 1;
            FinerDirective(w, own) != 0 && Wrap32(a + FinerDirective(w, own)) == level && 0 < level * own < w
  {
    var q, a := w / own, Wrap32(w / own);
    var level := if a == 1 then 2 else 1;
    assert q * own == w;
    WrapShift(a, level);
    WrapZero(a, level);
    assert q > level by {
      if q <= 1 {
        QuotientAtLeast(q, own);
      }
    }
    LessTimes(level, q, own);
  }

  lemma QuotientAtLeast(q: nat, own: nat)
    requires q <= 1 && own > 0
    ensures q * own <= own
  {
  }

  lemma LessTimes(a: nat, b: nat, c: nat)
    requires 0 < a < b && c > 0
    ensures 0 < a * c < b * c
  {
    MulAtLeast(b - a, c);
    MulAtLeast(a, c);
  }

  /** The line that the directive makes of an anchor at the first level is off the file's grid. */
  lemma FinerMisfits(anchor: Line, w: nat, own: nat)
    requires 0 < own < w && w % own == 0
    requires Indented(anchor) && SpaceIndented(anchor, w) && RunLen(anchor) == w
    ensures !Fits(ApplyIndent("x", LeadingIndent(anchor), FinerDirective(w, own), Space(own)), Space(w))
  {
    hide IsBlankLine;
    hide FinerDirective;
    SpacesOnlyRun(anchor, w);
    FinerLevels(w, own);
    var level := if Wrap32(w / own) == 1 then 2 else 1;
    var run := Repeated(' ', level * own);
    assert AnchorLevel(LeadingIndent(anchor), Space(own)) == Wrap32(w / own);
    hide AnchorLevel;
    hide Wrap32;
    RunsOfExample();
    assert ApplyIndent("x", LeadingIndent(anchor), FinerDirective(w, own), Space(own)) == run + Body("x");
    RunFitsExactly(run, "x", Space(w));
    SmallRemainder(level * own, w);
  }

  lemma SmallRemainder(n: nat, w: nat)
    requires 0 < n < w
    ensures n % w == n
  {
  }

  lemma SpacesThen(line: Line, n: nat, body: string)
    requires n > 0 && body in {"x", "y", "z"} && line == Repeated(' ', n) + body
    ensures RunLen(line) == n && LeadingIndent(line) == Repeated(' ', n) && Indented(line)
    ensures forall i :: 0 <= i < n ==> line[i] == ' '
  {
    hide IsUnicodeSpace;
    RunLenOf(Repeated(' ', n), body);
    assert line[n] == body[0] && !IsUnicodeSpace(line[n]) by {
      NotSpaces();
    }
    BlankExactly(line);
  }

  lemma FourSpaces()
    ensures Classify(["    x", "        y"]) == Space(4)
    ensures FinerWidth(["    x", "        y"], IndentSettings(true, Some(SpaceStyle), Some(2)))
  {
    hide Classify;
    hide RunLen;
    hide Indented;
    var lines := ["    x", "        y"];
    assert "    x" == Repeated(' ', 4) + "x" && "        y" == Repeated(' ', 8) + "y";
    SpacesThen(lines[0], 4, "x");
    SpacesThen(lines[1], 8, "y");
    assert lines[0] in lines && lines[1] in lines;
    ClassifySpace(lines, 4);
  }

  /** With a width of two forced on a file of four spaces a level, `@1` at the first level makes six spaces. */
  lemma FinerWidthInstance()
    ensures var lines := ["    x", "        y"];
            var settings := IndentSettings(true, Some(SpaceStyle), Some(2));
            var line := ApplyIndent("z", LeadingIndent(lines[0]), 1, ResolveIndent(lines, settings).kind);
            && Classify(lines) == Space(4) && FinerWidth(lines, settings)
            && line == "      z"
            && Classify(lines + [line]) != Space(4)
  {
    hide Classify;
    hide RunLen;
    hide Indented;
    hide ResolveIndent;
    hide FinerWidth;
    hide LeadingIndent;
    var lines := ["    x", "        y"];
    var settings := IndentSettings(true, Some(SpaceStyle), Some(2));
    FourSpaces();
    assert "    x" == Repeated(' ', 4) + "x";
    SpacesThen("    x", 4, "x");
    FinerResolved(lines, settings);
    assert ResolveIndent(lines, settings).kind == Space(2);
    SixSpaces();
    var line := "      z";
    SpacesThen(line, 6, "z");
    assert !Fits(line, Space(4));
    OneLineFits(lines, lines + [line], line);
  }

  lemma SixSpaces()
    ensures ApplyIndent("z", Repeated(' ', 4), 1, Space(2)) == "      z" == Repeated(' ', 6) + "z"
  {
    CountAll(Repeated(' ', 4), ' ');
    hide CountChar;
    assert RunLen("z") == 0 && "z"[0..] == "z";
    assert Repeated(' ', 6) + "z" == "      z";
  }

  // ---------- what is not known, and what configuration makes of it ----------

  lemma UnknownByAnalysis(lines: seq<Line>)
    ensures var a := AnalysisOf(lines);
            Classify(lines) == Unknown(Mixed) <==> a.hasIndented && (a.mixedRun || (a.tabLeading && a.spaceLeading))
  {
    hide AnalysisOf;
    hide Dedup;
  }

  /**
   * A file is mixed if and only if an indented line has a space before a tab, or one starts with a tab and another with
   * a space; a file that is neither mixed nor of a known style is undeterminable.
   */
  lemma ClassifyMixed(lines: seq<Line>)
    ensures Classify(lines) == Unknown(Mixed) <==>
              || (exists l :: l in lines && Indented(l) && MixedRun(LeadingIndent(l)))
              || ((exists l :: l in lines && Indented(l) && l[0] == '\t')
                  && exists l :: l in lines && Indented(l) && l[0] == ' ')
  {
    UnknownByAnalysis(lines);
    AnalysisDescribes(lines);
    hide Classify;
    hide AnalysisOf;
    hide MixedRun;
    hide Indented;
  }

  lemma MixedNeverSpaces(l: Line, w: nat)
    requires w > 0 && Indented(l)
    ensures MixedRun(LeadingIndent(l)) || l[0] == '\t' ==> !SpaceIndented(l, w)
    ensures !MixedRun(LeadingIndent(l)) && l[0] == ' ' ==>
              (SpaceIndented(l, w) <==> CountChar(LeadingIndent(l), ' ') % w == 0)
  {
    hide IsBlankLine;
    var run := LeadingIndent(l);
    assert forall i :: 0 <= i < RunLen(l) ==> run[i] == l[i];
    if !MixedRun(run) && l[0] == ' ' {
      forall i | 0 <= i < RunLen(l) ensures l[i] == ' ' {
        assert run[0] == ' ';
      }
      CountAll(run, ' ');
    }
  }

  /** A forced style is in conflict with the file exactly when some indented line is not in that style. */
  lemma ResolvedExactly(lines: seq<Line>, settings: IndentSettings)
    ensures var r := ResolveIndent(lines, settings);
            match (settings.forcedStyle, settings.forcedWidth)
            case (Some(TabStyle), _) =>
              r.kind == Tab && (r.configConflict <==> exists l :: l in lines && Indented(l) && !TabIndented(l))
            case (Some(SpaceStyle), Some(w)) =>
              r.kind == Space(w)
              && (r.configConflict <==> w == 0 || exists l :: l in lines && Indented(l) && !SpaceIndented(l, w))
            case _ => r == ResolvedIndent(Classify(lines), false)
  {
    hide Classify;
    hide AnalysisOf;
    AnalysisDescribes(lines);
    match (settings.forcedStyle, settings.forcedWidth)
    case (Some(TabStyle), _) => TabConflict(lines);
    case (Some(SpaceStyle), Some(w)) =>
      if w > 0 {
        SpaceConflict(lines, w);
      }
    case _ =>
  }

  lemma LeadIsBlank(l: Line)
    requires Indented(l)
    ensures RunLen(l) > 0 && (l[0] == ' ' || l[0] == '\t')
  {
  }

  lemma TabConflict(lines: seq<Line>)
    ensures var a := AnalysisOf(lines);
            a.spaceLeading || a.mixedRun <==> exists l :: l in lines && Indented(l) && !TabIndented(l)
  {
    hide AnalysisOf;
    hide IsBlankLine;
    hide MixedRun;
    AnalysisDescribes(lines);
    forall l | l in lines && Indented(l)
      ensures TabIndented(l) <==> l[0] != ' ' && !MixedRun(LeadingIndent(l)) {
      LeadIsBlank(l);
    }
    hide Indented;
    hide TabIndented;
  }

  lemma SpaceConflict(lines: seq<Line>, w: nat)
    requires w > 0
    ensures var a := AnalysisOf(lines);
            a.tabLeading || a.mixedRun || !AllDivide(w, a.spaceCounts)
            <==> exists l :: l in lines && Indented(l) && !SpaceIndented(l, w)
  {
    hide AnalysisOf;
    hide IsBlankLine;
    hide MixedRun;
    hide SpaceIndented;
    hide CountChar;
    hide LeadingIndent;
    AnalysisDescribes(lines);
    var a := AnalysisOf(lines);
    forall l | l in lines && Indented(l)
      ensures l[0] == ' ' || l[0] == '\t'
      ensures MixedRun(LeadingIndent(l)) || l[0] == '\t' ==> !SpaceIndented(l, w)
      ensures !MixedRun(LeadingIndent(l)) && l[0] == ' ' ==>
                (SpaceIndented(l, w) <==> CountChar(LeadingIndent(l), ' ') % w == 0) {
      LeadIsBlank(l);
      MixedNeverSpaces(l, w);
    }
    if !AllDivide(w, a.spaceCounts) {
      var i :| 0 <= i < |a.spaceCounts| && a.spaceCounts[i] % w != 0;
      assert a.spaceCounts[i] in a.spaceCounts;
    }
    if exists l :: l in lines && Indented(l) && !SpaceIndented(l, w) {
      var l :| l in lines && Indented(l) && !SpaceIndented(l, w);
      if !a.tabLeading && !a.mixedRun {
        var n := CountChar(LeadingIndent(l), ' ');
        assert n in a.spaceCounts;
        var i :| 0 <= i < |a.spaceCounts| && a.spaceCounts[i] == n;
      }
    }
  }
}
