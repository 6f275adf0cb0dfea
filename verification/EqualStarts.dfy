/**
 * Edits that start at the same place (crates/aifed/src/text_edit.rs): a stable sort by descending start applies them in
 * the order listed, each where the ones before it have already written.
 */
module EqualStarts {
  import opened Prelude
  import opened StableSort
  import opened FileText
  import opened TextEdits

  /** The order that the protocol asks for: by start, and as listed where several edits share a start. */
  function ListedOrder(edits: seq<TextEdit>): seq<TextEdit> { SortBy(edits, StartKey) }

  predicate IsInsertion(e: TextEdit) { e.range.start == e.range.end }

  /** The number of edits at the front of the list that start where the first one does. */
  function GroupLen(edits: seq<TextEdit>): (n: nat)
    requires edits != []
    ensures 0 < n <= |edits|
    ensures forall i :: 0 <= i < n ==> StartKey(edits[i]) == StartKey(edits[0])
    ensures n < |edits| ==> StartKey(edits[n]) != StartKey(edits[0])
  {
    if |edits| > 1 && StartKey(edits[1]) == StartKey(edits[0]) then 1 + GroupLen(edits[1..]) else 1
  }

  /** Every group of edits with one start reversed. */
  function FlipGroups(edits: seq<TextEdit>): (r: seq<TextEdit>)
    ensures multiset(r) == multiset(edits)
    decreases |edits|
  {
    if edits == [] then []
    else
      var n := GroupLen(edits);
      ReverseMultiset(edits[..n]);
      assert edits == edits[..n] + edits[n..];
      Reverse(edits[..n]) + FlipGroups(edits[n..])
  }

  function Texts(edits: seq<TextEdit>): string {
    if edits == [] then "" else edits[0].newText + Texts(edits[1..])
  }

  /** The edits that start at a place, as listed. */
  function At(edits: seq<TextEdit>, start: int): seq<TextEdit> { WithKey(edits, StartKey, start) }

  lemma {:induction false} TextsConcat(a: seq<TextEdit>, b: seq<TextEdit>)
    ensures Texts(a + b) == Texts(a) + Texts(b)
  {
    if a == [] {
      assert a + b == b;
    } else {
      assert (a + b)[1..] == a[1..] + b;
      TextsConcat(a[1..], b);
    }
  }

  // The two orders have the same edits at every start, in opposite orders.

  lemma AtConcat(a: seq<TextEdit>, b: seq<TextEdit>, start: int)
    ensures At(a + b, start) == At(a, start) + At(b, start)
  {
    WithKeyAppend(a, b, StartKey, start);
  }

  lemma {:induction false} AtNone(edits: seq<TextEdit>, start: int)
    requires forall i :: 0 <= i < |edits| ==> StartKey(edits[i]) != start
    ensures At(edits, start) == []
  {
    if edits != [] {
      AtNone(edits[1..], start);
    }
  }

  lemma {:induction false} AtAll(edits: seq<TextEdit>, start: int)
    requires forall i :: 0 <= i < |edits| ==> StartKey(edits[i]) == start
    ensures At(edits, start) == edits
    ensures forall other :: other != start ==> At(edits, other) == []
  {
    forall other | other != start ensures At(edits, other) == [] {
      AtNone(edits, other);
    }
    if edits != [] {
      AtAll(edits[1..], start);
      assert edits == [edits[0]] + edits[1..];
    }
  }

  /** A sorted list is its first group and the rest, which has no edit at the start of the group. */
  lemma {:induction false} GroupAt(edits: seq<TextEdit>, start: int)
    requires edits != [] && Sorted(edits, StartKey)
    ensures var n := GroupLen(edits);
            && Sorted(edits[n..], StartKey)
            && At(edits, start) == (if start == StartKey(edits[0]) then edits[..n] else At(edits[n..], start))
            && At(edits[n..], StartKey(edits[0])) == []
  {
    var n := GroupLen(edits);
    assert edits == edits[..n] + edits[n..];
    AtConcat(edits[..n], edits[n..], start);
    AtAll(edits[..n], StartKey(edits[0]));
    forall i | n <= i < |edits| ensures StartKey(edits[i]) != StartKey(edits[0]) {
      assert StartKey(edits[0]) < StartKey(edits[n]) <= StartKey(edits[i]);
    }
    AtNone(edits[n..], StartKey(edits[0]));
    hide At;
    assert [] + At(edits[n..], start) == At(edits[n..], start) && edits[..n] + [] == edits[..n];
  }

  lemma AtIs(edits: seq<TextEdit>, start: int)
    ensures At(edits, start) == WithKey(edits, StartKey, start)
  {
  }

  lemma AtReverse(edits: seq<TextEdit>, start: int)
    ensures At(Reverse(edits), start) == Reverse(At(edits, start))
  {
    WithKeyReverse(edits, StartKey, start);
  }

  lemma {:induction false} FlipAt(edits: seq<TextEdit>, start: int)
    requires Sorted(edits, StartKey)
    ensures At(FlipGroups(edits), start) == Reverse(At(edits, start))
    decreases |edits|
  {
    if edits == [] {
      AtReverse(edits, start);
      assert FlipGroups(edits) == Reverse(edits) == [];
    } else {
      hide FlipGroups;
      hide At;
      hide StartKey;
      hide Sorted;
      var n := GroupLen(edits);
      GroupAt(edits, start);
      FlipAt(edits[n..], start);
      FlipIs(edits);
      AtConcat(Reverse(edits[..n]), FlipGroups(edits[n..]), start);
      AtReverse(edits[..n], start);
      AtAll(edits[..n], StartKey(edits[0]));
      ReverseNothing<TextEdit>();
    }
  }

  lemma ReverseNothing<T>()
    ensures Reverse<T>([]) == []
  {
  }

  lemma AppendSorted(a: seq<TextEdit>, b: seq<TextEdit>, mid: int)
    requires Sorted(a, StartKey) && Sorted(b, StartKey)
    requires forall i :: 0 <= i < |a| ==> StartKey(a[i]) <= mid
    requires forall i :: 0 <= i < |b| ==> mid <= StartKey(b[i])
    ensures Sorted(a + b, StartKey)
  {
    hide StartKey;
  }

  /** The groups, told by their first edits. */
  lemma GroupBefore(edits: seq<TextEdit>)
    requires edits != [] && Sorted(edits, StartKey)
    ensures var n := GroupLen(edits);
            && Sorted(Reverse(edits[..n]), StartKey)
            && (forall i :: 0 <= i < n ==> StartKey(Reverse(edits[..n])[i]) <= StartKey(edits[0]))
            && Sorted(edits[n..], StartKey)
            && forall j :: 0 <= j < |edits[n..]| ==> StartKey(edits[0]) <= StartKey(edits[n..][j])
  {
    hide StartKey;
    ReverseIndex(edits[..GroupLen(edits)]);
  }

  lemma FlipIs(edits: seq<TextEdit>)
    requires edits != []
    ensures FlipGroups(edits) == Reverse(edits[..GroupLen(edits)]) + FlipGroups(edits[GroupLen(edits)..])
  {
  }

  lemma FlipMembers(edits: seq<TextEdit>, low: int)
    requires forall i :: 0 <= i < |edits| ==> low <= StartKey(edits[i])
    ensures forall i :: 0 <= i < |FlipGroups(edits)| ==> low <= StartKey(FlipGroups(edits)[i])
  {
    hide FlipGroups;
    var flip := FlipGroups(edits);
    forall i | 0 <= i < |flip| ensures low <= StartKey(flip[i]) {
      assert flip[i] in multiset(flip);
      assert flip[i] in edits;
    }
  }

  lemma {:induction false} FlipSorted(edits: seq<TextEdit>)
    requires Sorted(edits, StartKey)
    ensures Sorted(FlipGroups(edits), StartKey)
    decreases |edits|
  {
    if edits == [] {
      assert FlipGroups(edits) == [];
    } else {
      hide FlipGroups;
      hide StartKey;
      hide Sorted;
      var n := GroupLen(edits);
      GroupBefore(edits);
      FlipIs(edits);
      FlipSorted(edits[n..]);
      FlipMembers(edits[n..], StartKey(edits[0]));
      AppendSorted(Reverse(edits[..n]), FlipGroups(edits[n..]), StartKey(edits[0]));
    }
  }

  lemma DescendingReversed(s: seq<TextEdit>)
    requires Sorted(s, DescendingStart)
    ensures Sorted(Reverse(s), StartKey)
  {
    ReverseIndex(s);
  }

  /** From the top down, the code has the listed order with every group reversed. */
  lemma {:induction false} CodeOrderFlips(edits: seq<TextEdit>)
    ensures CodeOrder(edits) == FlipGroups(ListedOrder(edits))
    ensures forall start :: At(CodeOrder(edits), start) == Reverse(At(edits, start))
    ensures forall start :: At(ListedOrder(edits), start) == At(edits, start)
  {
    var sorted, listed := SortBy(edits, DescendingStart), ListedOrder(edits);
    SortSorted(edits, DescendingStart);
    SortSorted(edits, StartKey);
    DescendingReversed(sorted);
    FlipSorted(listed);
    forall start
      ensures At(CodeOrder(edits), start) == Reverse(At(edits, start)) == At(FlipGroups(listed), start)
      ensures At(listed, start) == At(edits, start)
    {
      SortKeepsOrder(edits, DescendingStart, StartKey, start);
      SortKeepsOrder(edits, StartKey, StartKey, start);
      WithKeyReverse(sorted, StartKey, start);
      FlipAt(listed, start);
    }
    hide WithKey;
    hide Sorted;
    hide SortBy;
    forall start ensures WithKey(CodeOrder(edits), StartKey, start) == WithKey(FlipGroups(listed), StartKey, start) {
      AtIs(CodeOrder(edits), start);
      AtIs(FlipGroups(listed), start);
    }
    SortedByKeys(CodeOrder(edits), FlipGroups(listed), StartKey);
  }

  lemma KeysAndPositions(a: TextEdit, b: TextEdit)
    ensures StartKey(a) <= StartKey(b) <==> Leq(a.range.start, b.range.start)
    ensures StartKey(a) == StartKey(b) <==> a.range.start == b.range.start
  {
  }

  // ---------- what a group of edits with one start leaves ----------

  ghost predicate IsGroup(content: string, group: seq<TextEdit>) {
    group != [] && ExtractRangeContent(content, group[|group| - 1].range).Ok?
  }

  /** What a group's insertions and range are just before its last edit: the text of the insertions, then the range. */
  ghost function Held(content: string, group: seq<TextEdit>): string
    requires IsGroup(content, group)
  {
    var last := group[|group| - 1].range;
    ValidationExact(content, last);
    Texts(Reverse(group[..|group| - 1])) + content[IndexOf(content, last.start)..IndexOf(content, last.end)]
  }

  /**
   * What a group leaves in the place of its range: the text of its last edit, then what that edit has not taken away
   * up to where the end of its range resolves.
   */
  ghost function GroupText(content: string, group: seq<TextEdit>): string
    requires IsGroup(content, group)
  {
    var last := group[|group| - 1];
    ValidationExact(content, last.range);
    var before := content[..IndexOf(content, last.range.start)];
    var held := before + Held(content, group);
    HeldLines(content, group);
    last.newText + held[Where(held, last.range.end)..]
  }

  /** Where a text up to the end of a range is, when text went in at the start of the range. */
  lemma HeldPrefix(content: string, p: Position, q: Position, text: string)
    requires ExtractRangeContent(content, Range(p, q)).Ok?
    ensures Names(content, p) && Names(content, q)
    ensures var s, e := IndexOf(content, p), IndexOf(content, q);
            && s <= e <= |content|
            && IsAt(content, s, p) && IsAt(content, e, q)
            && var held := content[..s] + (text + content[s..e]);
            && IsAt(held, s, p)
            && q.line < |SplitLines(held)|
  {
    ValidationExact(content, Range(p, q));
    IndexOfIsAt(content, p);
    IndexOfIsAt(content, q);
    var s, e := IndexOf(content, p), IndexOf(content, q);
    var upTo := content[..e];
    assert upTo[..s] == content[..s] && upTo[s..] == content[s..e];
    Inserted(upTo, s, text);
    ConcatAssociative(content[..s], text, content[s..e]);
  }

  lemma HeldLines(content: string, group: seq<TextEdit>)
    requires IsGroup(content, group)
    ensures var last := group[|group| - 1].range;
            && Names(content, last.start)
            && IndexOf(content, last.start) <= |content|
            && last.end.line < |SplitLines(content[..IndexOf(content, last.start)] + Held(content, group))|
  {
    var last := group[|group| - 1].range;
    HeldPrefix(content, last.start, last.end, Texts(Reverse(group[..|group| - 1])));
  }

  /** More text after the end of a range does not change where the end resolves. */
  lemma {:induction false} WhereHeld(content: string, p: Position, q: Position, text: string, rest: string)
    requires ExtractRangeContent(content, Range(p, q)).Ok?
    ensures Names(content, p) && Names(content, q)
    ensures var s, e := IndexOf(content, p), IndexOf(content, q);
            && s <= e <= |content|
            && var held := content[..s] + (text + content[s..e]);
            && q.line < |SplitLines(held)| <= |SplitLines(held + rest)|
            && Where(held + rest, q) == Where(held, q)
  {
    HeldPrefix(content, p, q, text);
    var s, e := IndexOf(content, p), IndexOf(content, q);
    var held := content[..s] + (text + content[s..e]);
    HeldEnd(content, s, e, q, text);
    SplitConcat(held, rest);
    SameClamped(SplitLines(held), SplitLines(rest), held, held + rest, q);
  }

  /** The line of the end is the last one only when it is at least that long. */
  lemma {:induction false} HeldEnd(content: string, s: nat, e: nat, q: Position, text: string)
    requires s <= e && IsAt(content, e, q)
    ensures var lines := SplitLines(content[..s] + (text + content[s..e]));
            q.line == |lines| - 1 ==> q.character <= |lines[|lines| - 1]|
  {
    assert content[..e] == content[..s] + content[s..e];
    SplitConcat(content[..s], content[s..e]);
    SplitConcat(text, content[s..e]);
    SplitConcat(content[..s], text + content[s..e]);
  }

  lemma SameClamped(a: seq<Line>, b: seq<Line>, text: string, longer: string, q: Position)
    requires a == SplitLines(text) && b != [] && SplitLines(longer) == Glue(a, b)
    requires q.line < |a| && (q.line == |a| - 1 ==> q.character <= |a[q.line]|)
    ensures q.line < |SplitLines(longer)| && Where(longer, q) == Where(text, q)
  {
    hide SplitLines;
    var glued := Glue(a, b);
    assert glued[..q.line] == a[..q.line];
    var k := Clamped(text, q).character;
    assert glued[q.line][..k] == a[q.line][..k];
  }

  lemma {:induction false} ApplyConcat(text: string, a: seq<TextEdit>, b: seq<TextEdit>)
    ensures var once := ApplyInOrder(text, a);
            ApplyInOrder(text, a + b) == if once.Err? then once else ApplyInOrder(once.value, b)
    decreases |a|
  {
    if a == [] {
      assert a + b == b;
    } else {
      hide ApplyInOrder;
      ApplyFirst(text, a);
      ApplyFirst(text, a + b);
      assert (a + b)[1..] == a[1..] + b && (a + b)[..1] == a[..1];
      var once := ApplyInOrder(text, a[..1]);
      if once.Ok? {
        ApplyConcat(once.value, a[1..], b);
      }
    }
  }

  ghost predicate InsertsHere(edits: seq<TextEdit>, pos: Position) {
    forall i :: 0 <= i < |edits| ==> edits[i].range == Range(pos, pos)
  }

  /** Insertions at one place come out in the reverse of the order in which they are applied. */
  lemma {:induction false} InsertionsApplied(before: string, after: string, edits: seq<TextEdit>, pos: Position)
    requires InsertsHere(edits, pos) && IsAt(before + after, |before|, pos)
    ensures ApplyInOrder(before + after, edits) == Ok(before + (Texts(Reverse(edits)) + after))
    decreases |edits|
  {
    if edits == [] {
      ApplyNothing(before + after);
      assert Texts(Reverse(edits)) == "" && "" + after == after;
    } else {
      var text, rest := edits[0].newText, edits[1..];
      hide ApplyInOrder;
      var all := before + after;
      assert all[..|before|] == before && all[|before|..] == after;
      ApplyAt(all, edits[0], |before|, |before|);
      ApplyFirst(all, edits);
      assert edits[..1] == [edits[0]];
      ConcatAssociative(before, text, after);
      var next := before + (text + after);
      assert next[..|before|] == before;
      PrefixKeepsPositions(all, next, |before|, |before|, pos);
      InsertionsApplied(before, text + after, rest, pos);
      TextsConcat(Reverse(rest), [edits[0]]);
      OneText(edits[0]);
      ConcatAssociative(Texts(Reverse(rest)), text, after);
    }
  }

  lemma OneText(e: TextEdit)
    ensures Texts([e]) == e.newText
  {
    assert [e][1..] == [];
  }

  /** A group of insertions and a last edit, applied where everything after its range may have been rewritten. */
  lemma {:induction false} GroupApplied(content: string, group: seq<TextEdit>, rest: string)
    requires IsGroup(content, group)
    requires InsertsHere(group[..|group| - 1], group[|group| - 1].range.start)
    ensures var last := group[|group| - 1].range;
            && Names(content, last.start) && Names(content, last.end)
            && IndexOf(content, last.start) <= IndexOf(content, last.end) <= |content|
            && ApplyInOrder(content[..IndexOf(content, last.end)] + rest, group)
               == Ok(content[..IndexOf(content, last.start)] + GroupText(content, group) + rest)
  {
    hide ApplyInOrder;
    hide ExtractRangeContent;
    hide IndexOf;
    hide SplitLines;
    var n := |group| - 1;
    var last, inserts := group[n], group[..n];
    var p, q, text := last.range.start, last.range.end, Texts(Reverse(inserts));
    HeldPrefix(content, p, q, text);
    var s, e := IndexOf(content, p), IndexOf(content, q);
    var before, after := content[..s], content[s..e] + rest;
    assert content[..e] + rest == before + after;
    PrefixKeepsPositions(content, before + after, s, s, p);
    InsertionsApplied(before, after, inserts, p);
    var held := before + Held(content, group);
    assert held == before + (text + content[s..e]);
    var changed := held + rest;
    assert changed == before + (text + after);
    WhereHeld(content, p, q, text, rest);
    PrefixKeepsPositions(held, changed, s, s, p);
    ValidationExact(content, last.range);
    ReplaceFrom(changed, last, s);
    ApplyConcat(before + after, inserts, [last]);
    assert group == inserts + [last];
    var j := Where(held, q);
    assert changed[..s] == before && changed[j..] == held[j..] + rest;
    ConcatAssociative(before + last.newText, held[j..], rest);
    ConcatAssociative(before, last.newText, held[j..]);
  }

  // ---------- groups of a list ----------

  lemma SameStart(edits: seq<TextEdit>, i: nat)
    requires edits != [] && i < GroupLen(edits)
    ensures edits[i].range.start == edits[0].range.start
  {
    KeysAndPositions(edits[i], edits[0]);
  }

  /** All but the last edit of a group are insertions, since ranges do not reach into each other. */
  lemma {:induction false} InsertsBeforeLast(content: string, edits: seq<TextEdit>)
    requires Applicable(content, edits) && edits != []
    ensures InsertsHere(edits[..GroupLen(edits) - 1], edits[0].range.start)
  {
    hide ExtractRangeContent;
    hide Sorted;
    hide GroupLen;
    var n, pos := GroupLen(edits), edits[0].range.start;
    forall i | 0 <= i < n - 1 ensures edits[i].range == Range(pos, pos) {
      SameStart(edits, i);
      SameStart(edits, i + 1);
      assert Leq(edits[i].range.end, edits[i + 1].range.start);
      ValidationExact(content, edits[i].range);
    }
  }

  lemma {:induction false} GroupFacts(content: string, edits: seq<TextEdit>)
    requires Applicable(content, edits) && edits != []
    ensures var n := GroupLen(edits);
            var last := edits[n - 1].range;
            && last.start == edits[0].range.start
            && edits[..n][n - 1] == edits[n - 1]
            && IsGroup(content, edits[..n]) && InsertsHere(edits[..n - 1], last.start)
            && Names(content, last.end)
            && From(content, edits[n..], IndexOf(content, last.end))
  {
    hide IndexOf;
    hide Names;
    hide ExtractRangeContent;
    hide GroupLen;
    hide Ordered;
    hide InsertsHere;
    hide From;
    var n := GroupLen(edits);
    SameStart(edits, n - 1);
    InsertsBeforeLast(content, edits);
    RestFrom(content, edits, n - 1);
  }

  lemma RestFrom(content: string, edits: seq<TextEdit>, k: nat)
    requires Applicable(content, edits) && k < |edits|
    ensures Names(content, edits[k].range.end) && From(content, edits[k + 1..], IndexOf(content, edits[k].range.end))
    decreases k
  {
    hide IndexOf;
    hide Names;
    ApplicableTail(content, edits);
    if k > 0 {
      RestFrom(content, edits[1..], k - 1);
      assert edits[1..][k..] == edits[k + 1..];
    }
  }

  /** The text from index `from` on as the code makes it, group by group. */
  ghost function CodeSplice(content: string, edits: seq<TextEdit>, from: nat): string
    requires From(content, edits, from)
    decreases |edits|
  {
    if edits == [] then content[from..]
    else
      GroupFacts(content, edits);
      ApplicableTail(content, edits);
      var n := GroupLen(edits);
      content[from..IndexOf(content, edits[0].range.start)] + GroupText(content, edits[..n])
      + CodeSplice(content, edits[n..], IndexOf(content, edits[n - 1].range.end))
  }

  /** The code applies the groups from the bottom up, each as it is listed. */
  lemma {:induction false} ReverseFlip(edits: seq<TextEdit>)
    requires edits != []
    ensures var n := GroupLen(edits); Reverse(FlipGroups(edits)) == Reverse(FlipGroups(edits[n..])) + edits[..n]
  {
    var n := GroupLen(edits);
    FlipIs(edits);
    ReverseAppend(Reverse(edits[..n]), FlipGroups(edits[n..]));
    ReverseTwice(edits[..n]);
  }

  lemma {:induction false} GroupsApplied(content: string, edits: seq<TextEdit>, from: nat)
    requires From(content, edits, from)
    ensures ApplyInOrder(content, Reverse(FlipGroups(edits))) == Ok(content[..from] + CodeSplice(content, edits, from))
    decreases |edits|
  {
    hide ApplyInOrder;
    hide CodeSplice;
    hide IndexOf;
    hide GroupText;
    hide FlipGroups;
    hide Applicable;
    hide ExtractRangeContent;
    if edits == [] {
      NothingApplied(content, from);
    } else {
      var n := GroupLen(edits);
      FromApplicable(content, edits, from);
      GroupFacts(content, edits);
      CodeSpliceFirst(content, edits, from);
      var s, e := IndexOf(content, edits[0].range.start), IndexOf(content, edits[n - 1].range.end);
      var rest := CodeSplice(content, edits[n..], e);
      GroupsApplied(content, edits[n..], e);
      ReverseFlip(edits);
      ApplyConcat(content, Reverse(FlipGroups(edits[n..])), edits[..n]);
      assert edits[..n][..n - 1] == edits[..n - 1];
      GroupApplied(content, edits[..n], rest);
      Regroup(content, from, s, GroupText(content, edits[..n]), rest);
    }
  }

  lemma NothingApplied(content: string, from: nat)
    requires from <= |content| && From(content, [], from)
    ensures ApplyInOrder(content, Reverse(FlipGroups([]))) == Ok(content[..from] + CodeSplice(content, [], from))
  {
    assert Reverse(FlipGroups([])) == [];
    ApplyNothing(content);
    assert content[..from] + content[from..] == content;
  }

  lemma FromApplicable(content: string, edits: seq<TextEdit>, from: nat)
    requires From(content, edits, from)
    ensures Applicable(content, edits) && from <= |content|
  {
  }

  lemma CodeSpliceFirst(content: string, edits: seq<TextEdit>, from: nat)
    requires From(content, edits, from) && edits != []
    ensures var n := GroupLen(edits);
            && IsGroup(content, edits[..n])
            && Names(content, edits[0].range.start) && Names(content, edits[n - 1].range.end)
            && from <= IndexOf(content, edits[0].range.start) <= |content|
            && From(content, edits[n..], IndexOf(content, edits[n - 1].range.end))
            && CodeSplice(content, edits, from)
               == content[from..IndexOf(content, edits[0].range.start)] + GroupText(content, edits[..n])
                  + CodeSplice(content, edits[n..], IndexOf(content, edits[n - 1].range.end))
  {
    GroupFacts(content, edits);
    ApplicableTail(content, edits);
  }

  // ---------- when the listed order comes out ----------

  lemma SpliceFirst(content: string, edits: seq<TextEdit>, from: nat)
    requires From(content, edits, from) && edits != []
    ensures var r := edits[0].range;
            && Names(content, r.start) && Names(content, r.end)
            && from <= IndexOf(content, r.start) <= |content|
            && From(content, edits[1..], IndexOf(content, r.end))
            && Splice(content, edits, from)
            == content[from..IndexOf(content, r.start)] + edits[0].newText
               + Splice(content, edits[1..], IndexOf(content, r.end))
  {
    ApplicableTail(content, edits);
  }

  lemma Concat4(a: string, b: string, c: string, d: string)
    ensures a + b + ("" + c + d) == a + (b + c) + d
  {
  }

  /** The splice in the listed order takes the texts of a group one after the other. */
  lemma {:induction false} GroupSplice(content: string, edits: seq<TextEdit>, n: nat, from: nat)
    requires From(content, edits, from) && 0 < n <= |edits|
    requires InsertsHere(edits[..n - 1], edits[n - 1].range.start)
    ensures var r := edits[n - 1].range;
            && Names(content, r.start) && Names(content, r.end)
            && from <= IndexOf(content, r.start) <= |content|
            && From(content, edits[n..], IndexOf(content, r.end))
            && Splice(content, edits, from)
               == content[from..IndexOf(content, r.start)] + Texts(edits[..n])
                  + Splice(content, edits[n..], IndexOf(content, r.end))
    decreases n
  {
    hide Splice;
    hide Applicable;
    hide IndexOf;
    SpliceFirst(content, edits, from);
    if n == 1 {
      assert edits[..1] == [edits[0]];
      OneText(edits[0]);
    } else {
      var pos, later := edits[n - 1].range.start, edits[1..];
      assert edits[0] == edits[..n - 1][0];
      var s := IndexOf(content, pos);
      assert later[..n - 1] == edits[..n][1..] && later[n - 1..] == edits[n..] && later[n - 2] == edits[n - 1];
      var inserts := later[..n - 2];
      forall i | 0 <= i < n - 2 ensures inserts[i].range == Range(pos, pos) {
        assert inserts[i] == edits[..n - 1][i + 1];
      }
      GroupSplice(content, later, n - 1, s);
      assert content[s..s] == "";
      var rest := Splice(content, edits[n..], IndexOf(content, edits[n - 1].range.end));
      Concat4(content[from..s], edits[0].newText, Texts(later[..n - 1]), rest);
    }
  }

  /** A group leaves its texts as listed. */
  ghost predicate GroupAgrees(content: string, group: seq<TextEdit>) {
    IsGroup(content, group) ==> GroupText(content, group) == Texts(group)
  }

  /** A group of insertions only, or one whose insertions hold no newline. */
  ghost predicate InsertsInLine(group: seq<TextEdit>) {
    group != [] ==> IsInsertion(group[|group| - 1]) || NewlineFree(Texts(Reverse(group[..|group| - 1])))
  }

  ghost predicate AllAgree(content: string, edits: seq<TextEdit>)
    decreases |edits|
  {
    edits == []
    || (GroupAgrees(content, edits[..GroupLen(edits)]) && AllAgree(content, edits[GroupLen(edits)..]))
  }

  lemma {:induction false} AgreeAt(content: string, edits: seq<TextEdit>)
    requires Sorted(edits, StartKey)
    ensures AllAgree(content, edits) <==> forall start :: GroupAgrees(content, At(edits, start))
    decreases |edits|
  {
    hide IsGroup;
    hide At;
    if edits == [] {
      forall start ensures GroupAgrees(content, At(edits, start)) {
        AtNone(edits, start);
        NoGroup(content);
      }
    } else {
      var n, start := GroupLen(edits), StartKey(edits[0]);
      GroupAt(edits, start);
      AgreeAt(content, edits[n..]);
      NoGroup(content);
      forall other
        ensures GroupAgrees(content, At(edits, other))
                <==> GroupAgrees(content, if other == start then edits[..n] else At(edits[n..], other)) {
        GroupAt(edits, other);
      }
      assert GroupAgrees(content, At(edits, start)) <==> GroupAgrees(content, edits[..n]);
    }
  }

  lemma NoGroup(content: string)
    ensures GroupAgrees(content, [])
  {
  }

  /** The insertions in line of a list are those of its first group and of the rest. */
  lemma InLineRest(edits: seq<TextEdit>)
    requires edits != [] && Sorted(edits, StartKey) && forall start :: InsertsInLine(At(edits, start))
    ensures var n := GroupLen(edits);
            InsertsInLine(edits[..n]) && forall start :: InsertsInLine(At(edits[n..], start))
  {
    hide InsertsInLine;
    hide At;
    var n, start := GroupLen(edits), StartKey(edits[0]);
    GroupAt(edits, start);
    assert InsertsInLine(At(edits, start));
    NothingInserted();
    forall other ensures InsertsInLine(At(edits[n..], other)) {
      GroupAt(edits, other);
      assert InsertsInLine(At(edits, other));
    }
  }

  lemma NothingInserted()
    ensures InsertsInLine([])
  {
  }

  lemma {:induction false} TextsReversed(edits: seq<TextEdit>)
    ensures |Texts(Reverse(edits))| == |Texts(edits)|
  {
    if edits != [] {
      TextsReversed(edits[1..]);
      TextsConcat(Reverse(edits[1..]), [edits[0]]);
    }
  }

  /** A range of no length keeps what is inserted. */
  lemma {:induction false} KeptAtPoint(content: string, p: Position, text: string)
    requires ExtractRangeContent(content, Range(p, p)).Ok?
    ensures Names(content, p) && IndexOf(content, p) <= |content|
    ensures var s := IndexOf(content, p);
            && p.line < |SplitLines(content[..s] + (text + content[s..s]))|
            && Where(content[..s] + (text + content[s..s]), p) == s
  {
    HeldPrefix(content, p, p, text);
    var s := IndexOf(content, p);
    var held := content[..s] + (text + content[s..s]);
    OffsetAt(held, s, p);
    IndexOfIsAt(held, p);
    PositionsMonotone(held, s, IndexOf(held, p), p, p);
  }

  /** Where the end of a range is when text without a newline went in at its start. */
  lemma {:induction false} KeptInLine(content: string, p: Position, q: Position, text: string)
    requires ExtractRangeContent(content, Range(p, q)).Ok? && NewlineFree(text)
    ensures Names(content, p) && Names(content, q)
    ensures var s, e := IndexOf(content, p), IndexOf(content, q);
            && s <= e <= |content|
            && q.line < |SplitLines(content[..s] + (text + content[s..e]))|
            && Where(content[..s] + (text + content[s..e]), q) == if p.line == q.line then e else e + |text|
  {
    HeldPrefix(content, p, q, text);
    var s, e := IndexOf(content, p), IndexOf(content, q);
    var upTo := content[..e];
    assert upTo[..e] == content[..e] && upTo[..s] == content[..s] && upTo[s..] == content[s..e];
    WhereAfterInsertion(upTo, s, e, q, text);
    ConcatAssociative(content[..s], text, content[s..e]);
  }

  /**
   * What a group leaves, outright: insertions alone come out last listed first; insertions without a newline before a
   * replacement lose as much of their text as the range is long, and all of it when the range spans lines.
   */
  lemma {:induction false} GroupTextExactly(content: string, group: seq<TextEdit>)
    requires IsGroup(content, group) && InsertsInLine(group)
    ensures var n := |group| - 1;
            var r, text := group[n].range, Texts(Reverse(group[..n]));
            && Names(content, r.start) && Names(content, r.end)
            && IndexOf(content, r.start) <= IndexOf(content, r.end) <= |content|
            && var length := IndexOf(content, r.end) - IndexOf(content, r.start);
            && GroupText(content, group)
               == group[n].newText
                  + (if r.start.line == r.end.line then Held(content, group)[length..] else "")
            && |GroupText(content, group)| <= |Texts(group)|
  {
    hide SplitLines;
    hide IndexOf;
    hide ExtractRangeContent;
    hide Texts;
    var n := |group| - 1;
    var last, text := group[n], Texts(Reverse(group[..n]));
    var p, q := last.range.start, last.range.end;
    HeldPrefix(content, p, q, text);
    var s, e := IndexOf(content, p), IndexOf(content, q);
    var before, held := content[..s], Held(content, group);
    assert |held| == |text| + (e - s);
    if p == q {
      KeptAtPoint(content, p, text);
    } else {
      KeptInLine(content, p, q, text);
    }
    var j := Where(before + held, q);
    assert (before + held)[j..] == held[j - s..];
    LastText(group);
  }

  lemma LastText(group: seq<TextEdit>)
    requires group != []
    ensures var n := |group| - 1; |Texts(group)| == |Texts(Reverse(group[..n]))| + |group[n].newText|
  {
    var n := |group| - 1;
    assert group == group[..n] + [group[n]];
    TextsConcat(group[..n], [group[n]]);
    OneText(group[n]);
    TextsReversed(group[..n]);
  }

  lemma CancelMiddle(x: string, a: string, u: string, b: string, v: string)
    requires |a| <= |b| && |u| <= |v|
    ensures x + a + u == x + b + v <==> a == b && u == v
    ensures |x + a + u| <= |x + b + v|
  {
    if x + a + u == x + b + v {
      assert |a| == |b|;
      CancelPrefix(x + a, u, x + b, v);
      CancelPrefix(x, a, x, b);
    }
  }

  /** Group by group, the code's text is the listed one. */
  lemma {:induction false} SplicesAgree(content: string, edits: seq<TextEdit>, from: nat)
    requires From(content, edits, from)
    ensures AllAgree(content, edits) ==> CodeSplice(content, edits, from) == Splice(content, edits, from)
    ensures (forall start :: InsertsInLine(At(edits, start))) ==>
              && |CodeSplice(content, edits, from)| <= |Splice(content, edits, from)|
              && (CodeSplice(content, edits, from) == Splice(content, edits, from) <==> AllAgree(content, edits))
    decreases |edits|
  {
    hide Splice;
    hide CodeSplice;
    hide IndexOf;
    hide Applicable;
    hide ExtractRangeContent;
    hide GroupText;
    hide InsertsInLine;
    hide At;
    hide Sorted;
    if edits == [] {
      SpliceNothing(content, from);
    } else {
      var n := GroupLen(edits);
      FromApplicable(content, edits, from);
      GroupFacts(content, edits);
      CodeSpliceFirst(content, edits, from);
      GroupSplice(content, edits, n, from);
      var s, e := IndexOf(content, edits[0].range.start), IndexOf(content, edits[n - 1].range.end);
      SplicesAgree(content, edits[n..], e);
      if forall start :: InsertsInLine(At(edits, start)) {
        FromSorted(content, edits, from);
        InLineRest(edits);
        GroupTextExactly(content, edits[..n]);
        CancelMiddle(content[from..s], GroupText(content, edits[..n]), CodeSplice(content, edits[n..], e),
                     Texts(edits[..n]), Splice(content, edits[n..], e));
      }
    }
  }

  lemma SpliceNothing(content: string, from: nat)
    requires From(content, [], from)
    ensures CodeSplice(content, [], from) == Splice(content, [], from)
  {
  }

  lemma FromSorted(content: string, edits: seq<TextEdit>, from: nat)
    requires From(content, edits, from)
    ensures Sorted(edits, StartKey)
  {
  }

  /**
   * For all valid edits that in the order listed do not reach into each other, that is with any number of insertions
   * and then at most one replacement at each start: what the code makes of them. It is the splice in the listed order
   * if every group leaves its texts as listed, and, where no insertion before a replacement holds a newline, only then.
   */
  lemma {:induction false} EqualStartsReverse(content: string, edits: seq<TextEdit>)
    requires Applicable(content, ListedOrder(edits))
    ensures From(content, ListedOrder(edits), 0)
    ensures EditedText(content, edits) == Ok(CodeSplice(content, ListedOrder(edits), 0))
    ensures var agree := forall start :: GroupAgrees(content, At(edits, start));
            var listed := EditedText(content, edits) == Ok(Splice(content, ListedOrder(edits), 0));
            && (agree ==> listed)
            && ((forall start :: InsertsInLine(At(edits, start))) ==> (listed <==> agree))
  {
    hide Splice;
    hide CodeSplice;
    hide GroupAgrees;
    hide InsertsInLine;
    hide At;
    hide ApplyInOrder;
    hide FirstInvalid;
    hide ExtractRangeContent;
    hide FlipGroups;
    var order, sorted := ListedOrder(edits), SortBy(edits, DescendingStart);
    CodeOrderFlips(edits);
    FromStart(content, order);
    FromSorted(content, order, 0);
    hide SortBy;
    hide Applicable;
    ReverseTwice(sorted);
    GroupsApplied(content, order, 0);
    assert content[..0] + CodeSplice(content, order, 0) == CodeSplice(content, order, 0);
    ListedValid(content, edits);
    NoneInvalid(content, edits);
    SplicesAgree(content, order, 0);
    AgreeAt(content, order);
    assert forall start :: At(order, start) == At(edits, start);
  }

  lemma ListedValid(content: string, edits: seq<TextEdit>)
    requires Applicable(content, ListedOrder(edits))
    ensures AllValid(content, edits)
  {
    hide ExtractRangeContent;
    SortSorted(edits, StartKey);
    PermutationValid(content, edits, ListedOrder(edits));
  }

  // ---------- groups that make up for each other ----------

  /** An insertion and a replacement at 0:0, and another two at 1:0. */
  function MakingUp(): seq<TextEdit> {
    var p, q, r := Position(0, 0), Position(1, 0), Position(1, 1);
    [TextEdit(Range(p, p), "a"), TextEdit(Range(p, q), ""), TextEdit(Range(q, q), "\n"), TextEdit(Range(q, r), "a")]
  }

  lemma TwoLines()
    ensures SplitLines("\na") == ["", "a"] && SplitLines("\n\na") == ["", "", "a"]
  {
    assert "\n\na"[1..] == "\na" && "\na"[1..] == "a";
    SplitNoNewline("a");
    assert SplitLines("\na") == PushFront('\n', SplitLines("a"));
    assert SplitLines("\n\na") == PushFront('\n', SplitLines("\na"));
  }

  lemma TwoLinePositions()
    ensures var p, q, r := Position(0, 0), Position(1, 0), Position(1, 1);
            && Names("\na", p) && Names("\na", q) && Names("\na", r)
            && IndexOf("\na", p) == 0 && IndexOf("\na", q) == 1 && IndexOf("\na", r) == 2
            && 1 < |SplitLines("\n\na")| && Where("\n\na", r) == 1
  {
    TwoLines();
    hide SplitLines;
    assert ["", "a"][..0] == [] && ["", "a"][..1] == [""] && ["", "", "a"][..1] == [""];
    assert [""] + [""] == ["", ""] && [""] + ["a"] == ["", "a"];
    assert "a"[..0] == "" && "a"[..1] == "a" && ""[..0] == "";
    assert ["", ""][1..] == [""] && ["", "a"][1..] == ["a"];
    assert JoinLines(["", ""]) == "\n" && JoinLines(["", "a"]) == "\na" && JoinLines([""]) == "";
    assert Clamped("\n\na", Position(1, 1)) == Position(1, 0);
  }

  lemma MakingUpValid(k: nat)
    requires k < 4
    ensures ExtractRangeContent("\na", MakingUp()[k].range).Ok?
  {
    hide IndexOf;
    hide ExtractRangeContent;
    TwoLinePositions();
    ValidationExact("\na", MakingUp()[k].range);
  }

  lemma MakingUpOrdered()
    ensures Ordered(MakingUp())
  {
    var edits := MakingUp();
    assert StartKey(edits[0]) == StartKey(edits[1]) == 0;
    assert StartKey(edits[2]) == StartKey(edits[3]) == 0x1_0000_0000;
    forall k | 0 <= k < 3 ensures Leq(edits[k].range.end, edits[k + 1].range.start) {
      assert k == 0 || k == 1 || k == 2;
    }
    hide StartKey;
    hide Leq;
  }

  lemma MakingUpApplicable()
    ensures Applicable("\na", MakingUp()) && From("\na", MakingUp(), 0)
    ensures ListedOrder(MakingUp()) == MakingUp()
  {
    hide ExtractRangeContent;
    hide IndexOf;
    hide Names;
    hide Ordered;
    MakingUpOrdered();
    ListedAsGiven();
    hide SortBy;
    forall k | 0 <= k < |MakingUp()| ensures ExtractRangeContent("\na", MakingUp()[k].range).Ok? {
      MakingUpValid(k);
    }
    hide MakingUp;
    FromStart("\na", MakingUp());
  }

  lemma ListedAsGiven()
    ensures ListedOrder(MakingUp()) == MakingUp()
  {
    hide SortBy;
    MakingUpOrdered();
    hide MakingUp;
    SortOfSorted(MakingUp(), StartKey);
  }

  /** What the first group leaves, and what the second does. */
  lemma MakingUpGroups()
    ensures var first, second := MakingUp()[..2], MakingUp()[2..];
            && IsGroup("\na", first) && GroupText("\na", first) == ""
            && IsGroup("\na", second) && GroupText("\na", second) == "a\na"
            && Texts(first) == "a" && Texts(second) == "\na"
  {
    hide ExtractRangeContent;
    hide IndexOf;
    hide Where;
    var first, second := MakingUp()[..2], MakingUp()[2..];
    MakingUpValid(1);
    MakingUpValid(3);
    TwoLinePositions();
    assert first[..1] == [first[0]] && second[..1] == [second[0]];
    assert Reverse([first[0]]) == [first[0]] && Reverse([second[0]]) == [second[0]];
    assert first == [first[0]] + [first[1]] && second == [second[0]] + [second[1]];
    TextsConcat([first[0]], [first[1]]);
    TextsConcat([second[0]], [second[1]]);
    OneText(first[0]);
    OneText(first[1]);
    OneText(second[0]);
    OneText(second[1]);
    GroupTextExactly("\na", first);
    assert Held("\na", second) == "\na";
    HeldLines("\na", second);
    assert "\na"[..1] + "\na" == "\n\na";
    assert "\n\na"[1..] == "\na";
  }

  lemma MakingUpLengths()
    ensures GroupLen(MakingUp()) == 2 && GroupLen(MakingUp()[2..]) == 2
  {
    var edits := MakingUp();
    assert edits[1..][0] == edits[1] && edits[1..][1] == edits[2];
    assert StartKey(edits[1]) == StartKey(edits[0]) && StartKey(edits[2]) != StartKey(edits[1]);
    assert GroupLen(edits[1..]) == 1;
    var rest := edits[2..];
    assert |rest[1..]| == 1 && GroupLen(rest[1..]) == 1;
    assert StartKey(rest[1]) == StartKey(rest[0]);
  }

  /**
   * With a newline inserted before a replacement, groups can make up for each other: the first loses an `a`, the second
   * keeps one too many, and the listed text comes out.
   */
  lemma GroupsMakeUp()
    ensures Applicable("\na", ListedOrder(MakingUp())) && From("\na", ListedOrder(MakingUp()), 0)
    ensures EditedText("\na", MakingUp()) == Ok("a\na") == Ok(Splice("\na", ListedOrder(MakingUp()), 0))
    ensures !GroupAgrees("\na", At(MakingUp(), 0))
  {
    hide IndexOf;
    hide GroupText;
    hide Applicable;
    hide CodeSplice;
    hide Splice;
    hide EditedText;
    hide IsGroup;
    hide At;
    hide From;
    hide MakingUp;
    hide GroupLen;
    hide Sorted;
    hide SortBy;
    hide InsertsInLine;
    var edits := MakingUp();
    MakingUpApplicable();
    MakingUpLengths();
    MakingUpGroups();
    EqualStartsReverse("\na", edits);
    MakingUpCode();
    MakingUpListed();
    MakingUpPlaces();
    FromSorted("\na", edits, 0);
    GroupAt(edits, 0);
  }

  lemma MakingUpPlaces()
    ensures var edits, rest := MakingUp(), MakingUp()[2..];
            && edits[0].range.start == edits[1].range.start == Position(0, 0) && edits[1].range.end == Position(1, 0)
            && rest[0].range.start == rest[1].range.start == Position(1, 0) && rest[1].range.end == Position(1, 1)
            && |edits| == 4 && |rest| == 2 && rest[2..] == [] && rest[..2] == rest && StartKey(edits[0]) == 0
  {
  }

  lemma MakingUpTails()
    ensures var edits, rest := MakingUp(), MakingUp()[2..];
            && From("\na", edits, 0) && InsertsHere(edits[..1], Position(0, 0))
            && From("\na", rest, 1) && InsertsHere(rest[..1], Position(1, 0))
            && From("\na", [], 2)
  {
    hide IndexOf;
    hide Where;
    hide GroupText;
    hide Applicable;
    hide CodeSplice;
    hide Splice;
    hide IsGroup;
    hide From;
    hide MakingUp;
    hide GroupLen;
    hide SplitLines;
    hide InsertsHere;
    MakingUpPlaces();
    MakingUpApplicable();
    MakingUpLengths();
    TwoLinePositions();
    GroupFacts("\na", MakingUp());
    FromApplicable("\na", MakingUp()[2..], 1);
    GroupFacts("\na", MakingUp()[2..]);
  }

  lemma MakingUpCode()
    ensures From("\na", MakingUp(), 0) && CodeSplice("\na", MakingUp(), 0) == "a\na"
  {
    hide IndexOf;
    hide Where;
    hide GroupText;
    hide Applicable;
    hide CodeSplice;
    hide Splice;
    hide IsGroup;
    hide From;
    hide MakingUp;
    hide GroupLen;
    hide SplitLines;
    hide InsertsHere;
    MakingUpPlaces();
    MakingUpLengths();
    MakingUpGroups();
    TwoLinePositions();
    MakingUpTails();
    CodeSpliceFirst("\na", MakingUp(), 0);
    CodeSpliceFirst("\na", MakingUp()[2..], 1);
    AtTheEnd();
    assert "\na"[0..0] == "" && "\na"[1..1] == "";
  }

  lemma MakingUpListed()
    ensures From("\na", MakingUp(), 0) && Splice("\na", MakingUp(), 0) == "a\na"
  {
    hide IndexOf;
    hide Where;
    hide GroupText;
    hide Applicable;
    hide CodeSplice;
    hide Splice;
    hide IsGroup;
    hide From;
    hide MakingUp;
    hide GroupLen;
    hide SplitLines;
    hide InsertsHere;
    MakingUpPlaces();
    MakingUpGroups();
    TwoLinePositions();
    MakingUpTails();
    GroupSplice("\na", MakingUp(), 2, 0);
    GroupSplice("\na", MakingUp()[2..], 2, 1);
    AtTheEnd();
    assert "\na"[0..0] == "" && "\na"[1..1] == "";
    assert "a" + "\na" == "a\na";
  }

  lemma AtTheEnd()
    ensures From("\na", [], 2) ==> CodeSplice("\na", [], 2) == Splice("\na", [], 2) == ""
  {
  }

  /** Two insertions at one position: the one listed first ends up second. */
  lemma {:induction false} TwoInsertions(content: string, pos: Position, first: string, second: string)
    requires Names(content, pos)
    ensures var i := IndexOf(content, pos);
            var at := Range(pos, pos);
            var r := EditedText(content, [TextEdit(at, first), TextEdit(at, second)]);
            && i <= |content|
            && r == Ok(content[..i] + second + first + content[i..])
            && (r == Ok(content[..i] + first + second + content[i..]) <==> first + second == second + first)
  {
    var i, at := IndexOf(content, pos), Range(pos, pos);
    ValidationExact(content, at);
    var before, after := content[..i], content[i..];
    assert ApplyInOrder(content, [TextEdit(at, first)]) == Ok(before + (first + after)) by {
      ApplyAbove(content, TextEdit(at, first), after);
      assert before + after == content;
      ConcatAssociative(before, first, after);
    }
    assert ApplyInOrder(before + (first + after), [TextEdit(at, second)]) == Ok(before + second + first + after) by {
      ApplyAbove(content, TextEdit(at, second), first + after);
      ConcatAssociative(before + second, first, after);
    }
    PairInListedOrder(content, TextEdit(at, first), TextEdit(at, second));
    SwapMatters(before, first, second, after);
  }

  /**
   * An insertion and then a replacement that starts at the same place, which a client may send together: the
   * replacement takes away what its end names in the text that already holds the insertion.
   */
  lemma {:induction false} InsertThenReplace(content: string, p: Position, q: Position, text: string, with: string)
    requires Names(content, p) && Names(content, q) && Leq(p, q)
    ensures var s, e := IndexOf(content, p), IndexOf(content, q);
            && s <= e <= |content|
            && var changed := content[..s] + text + content[s..];
            && q.line < |SplitLines(changed)|
            && s <= Where(changed, q) <= |changed|
            && var r := EditedText(content, [TextEdit(Range(p, p), text), TextEdit(Range(p, q), with)]);
            && r == Ok(content[..s] + with + changed[Where(changed, q)..])
            && (r == Ok(content[..s] + text + with + content[e..])
                <==> with + changed[Where(changed, q)..] == text + with + content[e..])
  {
    hide ApplyInOrder;
    hide SortBy;
    hide FirstInvalid;
    hide ExtractRangeContent;
    hide SplitLines;
    var first, second := TextEdit(Range(p, p), text), TextEdit(Range(p, q), with);
    var s, e := IndexOf(content, p), IndexOf(content, q);
    ValidationExact(content, first.range);
    ValidationExact(content, second.range);
    var changed := content[..s] + text + content[s..];
    IndexOfIsAt(content, p);
    Inserted(content, s, text);
    assert ApplyInOrder(content, [first]) == Ok(changed) by {
      ApplyAt(content, first, s, s);
    }
    ReplaceFrom(changed, second, s);
    assert changed[..s] == content[..s];
    NoneInvalid(content, [first, second]);
    SortOfSorted([first, second], DescendingStart);
    ApplyInOrderSnoc(content, [first], second);
    assert [first] + [second] == [first, second];
    CancelPrefix(content[..s], with + changed[Where(changed, q)..], content[..s], text + with + content[e..]);
    ConcatAssociative(content[..s], with, changed[Where(changed, q)..]);
    ConcatAssociative(content[..s], text + with, content[e..]);
    ConcatAssociative(content[..s], text, with);
  }

  lemma AlongLine(before: string, text: string)
    requires NewlineFree(text)
    ensures var was, all := SplitLines(before), SplitLines(before + text);
            && |all| == |was|
            && |all[|all| - 1]| == |was[|was| - 1]| + |text|
  {
    SplitConcat(before, text);
    SplitNoNewline(text);
  }

  /** Two indices on one line have no newline between them. */
  lemma SameLine(content: string, s: nat, e: nat)
    requires s <= e <= |content| && LineOf(content, s) == LineOf(content, e)
    ensures NewlineFree(content[s..e])
  {
    assert content[..e] == content[..s] + content[s..e];
    SplitConcat(content[..s], content[s..e]);
    JoinSplit(content[s..e]);
    SplitNewlineFree(content[s..e]);
  }

  /**
   * Where the end of a range is after text without a newline went in at its start: at the same index when the
   * range lies in one line, so that the text takes the place of as much of the range, and further on by the
   * text's length otherwise, so that all of the text lies in the range.
   */
  lemma {:induction false} WhereAfterInsertion(content: string, s: nat, e: nat, q: Position, text: string)
    requires s <= e && IsAt(content, e, q) && NewlineFree(text)
    ensures var changed := content[..s] + text + content[s..];
            && q.line < |SplitLines(changed)|
            && Where(changed, q) == if LineOf(content, s) == q.line then e else e + |text|
  {
    var changed := content[..s] + text + content[s..];
    var j := if LineOf(content, s) == q.line then e else e + |text|;
    assert content[..e] == content[..s] + content[s..e];
    assert IsAt(changed, j, q) by {
      if LineOf(content, s) == q.line {
        EndInLine(content, s, e, q, text);
      } else {
        EndBelow(content, s, e, q, text);
      }
    }
    OffsetAt(changed, j, q);
    IndexOfIsAt(changed, q);
    PositionsMonotone(changed, j, IndexOf(changed, q), q, q);
  }

  lemma EndInLine(content: string, s: nat, e: nat, q: Position, text: string)
    requires s <= e && IsAt(content, e, q) && NewlineFree(text) && LineOf(content, s) == q.line
    ensures IsAt(content[..s] + text + content[s..], e, q)
  {
    var changed := content[..s] + text + content[s..];
    var between := (text + content[s..])[..e - s];
    SameLine(content, s, e);
    assert between == (text + content[s..e])[..e - s];
    assert content[..e] == content[..s] + content[s..e];
    assert changed[..e] == content[..s] + between;
    AlongLine(content[..s], content[s..e]);
    AlongLine(content[..s], between);
  }

  lemma EndBelow(content: string, s: nat, e: nat, q: Position, text: string)
    requires s <= e && IsAt(content, e, q) && NewlineFree(text) && LineOf(content, s) != q.line
    ensures IsAt(content[..s] + text + content[s..], e + |text|, q)
  {
    var changed, below := content[..s] + text + content[s..], content[s..e];
    assert content[..e] == content[..s] + below;
    assert changed[..e + |text|] == content[..s] + text + below;
    AlongLine(content[..s], text);
    SplitConcat(content[..s], below);
    SplitConcat(content[..s] + text, below);
  }

  /**
   * For an insertion without a newline the listed result comes out exactly when the replacement has the same
   * text on both sides of the insertion, and, over more than one line, when nothing is inserted.
   */
  lemma {:induction false} InsertThenReplaceExactly(
    content: string, p: Position, q: Position, text: string, with: string)
    requires Names(content, p) && Names(content, q) && Leq(p, q) && NewlineFree(text)
    ensures var s, e := IndexOf(content, p), IndexOf(content, q);
            && s <= e <= |content|
            && var r := EditedText(content, [TextEdit(Range(p, p), text), TextEdit(Range(p, q), with)]);
            && var kept := if p.line == q.line then (text + content[s..e])[e - s..] else "";
            && r == Ok(content[..s] + with + kept + content[e..])
            && (r == Ok(content[..s] + text + with + content[e..]) <==> with + kept == text + with)
  {
    hide EditedText;
    var s, e := IndexOf(content, p), IndexOf(content, q);
    IndexOfIsAt(content, p);
    IndexOfIsAt(content, q);
    InsertThenReplace(content, p, q, text, with);
    WhereAfterInsertion(content, s, e, q, text);
    hide SplitLines;
    hide IsAt;
    hide LineOf;
    var changed := content[..s] + text + content[s..];
    var kept := if p.line == q.line then (text + content[s..e])[e - s..] else "";
    assert changed[Where(changed, q)..] == kept + content[e..];
    ConcatAssociative(with, kept, content[e..]);
    ConcatAssociative(content[..s], with, kept);
    ConcatAssociative(content[..s] + with, kept, content[e..]);
    Cancel(with + kept, text + with, content[e..]);
  }

  lemma Cancel(a: string, b: string, rest: string)
    ensures a + rest == b + rest <==> a == b
  {
    if a + rest == b + rest {
      assert |a| == |b|;
      CancelPrefix(a, rest, b, rest);
    }
  }

  /** The inserted text is lost and the replaced text stays. */
  lemma InsertThenReplaceLoses()
    ensures var p, q := Position(0, 0), Position(0, 1);
            && EditedText("ab", [TextEdit(Range(p, p), "X"), TextEdit(Range(p, q), "Y")]) == Ok("Yab")
  {
    hide EditedText;
    var p, q := Position(0, 0), Position(0, 1);
    FirstLine("ab", p);
    FirstLine("ab", q);
    InsertThenReplaceExactly("ab", p, q, "X", "Y");
    calc {
      "ab"[..0] + "Y" + ("X" + "ab"[0..1])[1..] + "ab"[1..];
      { assert ("X" + "ab"[0..1])[1..] == "a"; }
      "Y" + "a" + "b";
      "Yab";
    }
  }

  lemma FirstLine(line: Line, pos: Position)
    requires NewlineFree(line) && pos.line == 0 && pos.character <= |line|
    ensures Names(line, pos) && IndexOf(line, pos) == pos.character
  {
    SplitNoNewline(line);
    assert [line][..0] + [line[..pos.character]] == [line[..pos.character]];
  }

  lemma SwapMatters(before: string, a: string, b: string, after: string)
    ensures before + b + a + after == before + a + b + after <==> a + b == b + a
  {
    var i, n := |before|, |a| + |b|;
    assert (before + b + a + after)[i..i + n] == b + a;
    assert (before + a + b + after)[i..i + n] == a + b;
    assert before + b + a + after == before + (b + a) + after;
    assert before + a + b + after == before + (a + b) + after;
  }
}
