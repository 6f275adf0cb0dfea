/** Lines and file contents (crates/aifed/src/file.rs): split at newlines, joined with newlines. */
module FileText {
  import opened Prelude

  /** One character in front of split text. */
  function PushFront(c: char, lines: seq<Line>): (r: seq<Line>)
    requires lines != []
    ensures r != []
  {
    if c == '\n' then [""] + lines else [[c] + lines[0]] + lines[1..]
  }

  function SplitLines(content: string): (lines: seq<Line>)
    ensures lines != []
  {
    if content == "" then [""] else PushFront(content[0], SplitLines(content[1..]))
  }

  function JoinLines(lines: seq<Line>): string {
    if lines == [] then ""
    else if |lines| == 1 then lines[0]
    else lines[0] + "\n" + JoinLines(lines[1..])
  }

  predicate NewlineFree(line: Line) { '\n' !in line }

  ghost predicate AllNewlineFree(lines: seq<Line>) { forall i :: 0 <= i < |lines| ==> NewlineFree(lines[i]) }

  lemma {:induction false} SplitNewlineFree(content: string)
    ensures AllNewlineFree(SplitLines(content))
  {
    if content != "" {
      SplitNewlineFree(content[1..]);
    }
  }

  /** What is read is what was written. */
  lemma {:induction false} JoinSplit(content: string)
    ensures JoinLines(SplitLines(content)) == content
  {
    if content == "" {
    } else {
      var rest := SplitLines(content[1..]);
      JoinSplit(content[1..]);
      if content[0] == '\n' {
        assert ([""] + rest)[1..] == rest;
      } else {
        var lines := [[content[0]] + rest[0]] + rest[1..];
        assert lines[1..] == rest[1..];
        assert JoinLines(lines) == [content[0]] + JoinLines(rest);
      }
    }
  }

  lemma {:induction false} SplitNoNewline(line: Line)
    requires NewlineFree(line)
    ensures SplitLines(line) == [line]
  {
    if line != "" {
      SplitNoNewline(line[1..]);
      assert line[0] in line && line == [line[0]] + line[1..];
    }
  }

  /** The last line of the one continues with the first line of the other. */
  function Glue(la: seq<Line>, lb: seq<Line>): seq<Line>
    requires la != [] && lb != []
  {
    la[..|la| - 1] + [la[|la| - 1] + lb[0]] + lb[1..]
  }

  lemma GluePushFront(c: char, la: seq<Line>, lb: seq<Line>)
    requires la != [] && lb != []
    ensures PushFront(c, Glue(la, lb)) == Glue(PushFront(c, la), lb)
  {
    if |la| == 1 {
      assert [c] + (la[0] + lb[0]) == [c] + la[0] + lb[0];
    }
  }

  lemma {:induction false} SplitConcat(a: string, b: string)
    ensures SplitLines(a + b) == Glue(SplitLines(a), SplitLines(b))
  {
    if a == "" {
      assert a + b == b;
      var lb := SplitLines(b);
      assert "" + lb[0] == lb[0];
      assert [lb[0]] + lb[1..] == lb;
    } else {
      assert (a + b)[0] == a[0] && (a + b)[1..] == a[1..] + b;
      SplitConcat(a[1..], b);
      GluePushFront(a[0], SplitLines(a[1..]), SplitLines(b));
    }
  }

  /** What is written is what will be read, provided there is a line and no line holds a newline. */
  lemma {:induction false} SplitJoin(lines: seq<Line>)
    requires lines != [] && AllNewlineFree(lines)
    ensures SplitLines(JoinLines(lines)) == lines
  {
    SplitNoNewline(lines[0]);
    if |lines| == 1 {
    } else {
      var tail := JoinLines(lines[1..]);
      SplitJoin(lines[1..]);
      assert SplitLines("\n" + tail) == [""] + SplitLines(tail) by {
        assert ("\n" + tail)[1..] == tail;
      }
      SplitConcat(lines[0], "\n" + tail);
      assert lines[0] + ("\n" + tail) == JoinLines(lines);
      assert lines == [lines[0]] + lines[1..];
      assert lines[0] + "" == lines[0];
    }
  }

  /** An empty file cannot be told from a file with one empty line. */
  lemma SplitOfNothing()
    ensures SplitLines(JoinLines([])) == [""]
  {
  }
}
