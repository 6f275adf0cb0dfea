/** The section tree of a Markdown outline, from its list of headings (crates/aifed/src/outline/markdown.rs). */
module Outlines {
  import opened Prelude
  import opened Whitespace

  datatype Heading = Heading(level: nat, text: string, start: nat)

  datatype OutlineItem = OutlineItem(name: string, level: nat, startLine: nat, endLine: nat, children: seq<OutlineItem>)

  // ---------- the declarative outline ----------

  /** The nearest earlier heading that is shallower. */
  function Parent(hs: seq<Heading>, i: nat): Option<nat>
    requires i < |hs|
  {
    ShallowerBefore(hs, i, hs[i].level)
  }

  function ShallowerBefore(hs: seq<Heading>, i: nat, level: nat): (r: Option<nat>)
    requires i <= |hs|
    ensures r.Some? ==> r.value < i && hs[r.value].level < level
    ensures forall k :: (if r.Some? then r.value < k else 0 <= k) && k < i ==> hs[k].level >= level
  {
    if i == 0 then None
    else if hs[i - 1].level < level then Some(i - 1)
    else ShallowerBefore(hs, i - 1, level)
  }

  /** The next heading that is as shallow or shallower. */
  function Closer(hs: seq<Heading>, i: nat, n: nat): (r: Option<nat>)
    requires i < n <= |hs|
    ensures r.Some? ==> i < r.value < n && hs[r.value].level <= hs[i].level
    ensures forall k :: i < k < (if r.Some? then r.value else n) ==> hs[k].level > hs[i].level
  {
    if n == i + 1 then None
    else if Closer(hs, i, n - 1).Some? then Closer(hs, i, n - 1)
    else if hs[n - 1].level <= hs[i].level then Some(n - 1)
    else None
  }

  /** The last line of a section before blank lines are trimmed, when `n` headings have been seen. */
  function RawEnd(hs: seq<Heading>, i: nat, n: nat, total: nat): nat
    requires i < n <= |hs|
  {
    match Closer(hs, i, n)
    case None => total
    case Some(k) => if hs[k].start == 0 then 0 else hs[k].start - 1
  }

  /** `end` moved up past blank lines, but not above `start`. */
  function TrimBlank(lines: seq<Line>, start: nat, end: nat): (r: nat)
    ensures r <= end
    ensures start <= end ==> start <= r
    ensures end <= start ==> r == end
    decreases end
  {
    if end > start && end <= |lines| && IsBlankLine(lines[end - 1]) then TrimBlank(lines, start, end - 1) else end
  }

  function SectionEnd(hs: seq<Heading>, lines: seq<Line>, i: nat): nat
    requires i < |hs|
  {
    TrimBlank(lines, hs[i].start, RawEnd(hs, i, |hs|, |lines|))
  }

  /** The headings after `i`, up to `n`, whose parent is `i`. */
  function ChildrenUpTo(hs: seq<Heading>, parent: Option<nat>, n: nat): (r: seq<nat>)
    requires n <= |hs|
    ensures forall k :: 0 <= k < |r| ==> r[k] < n && Parent(hs, r[k]) == parent
    ensures forall i :: i in r <==> 0 <= i < n && Parent(hs, i) == parent
    ensures forall j, k :: 0 <= j < k < |r| ==> r[j] < r[k]
  {
    if n == 0 then []
    else ChildrenUpTo(hs, parent, n - 1) + if Parent(hs, n - 1) == parent then [n - 1] else []
  }

  function Children(hs: seq<Heading>, parent: Option<nat>): (r: seq<nat>)
    ensures forall k :: 0 <= k < |r| ==> r[k] < |hs| && Parent(hs, r[k]) == parent
    ensures parent.Some? ==> forall k :: 0 <= k < |r| ==> parent.value < r[k]
  {
    ChildrenUpTo(hs, parent, |hs|)
  }

  function Item(hs: seq<Heading>, lines: seq<Line>, i: nat): OutlineItem
    requires i < |hs|
    decreases |hs| - i, 0, 0
  {
    OutlineItem(hs[i].text, hs[i].level, hs[i].start, SectionEnd(hs, lines, i),
                Items(hs, lines, i + 1, Children(hs, Some(i))))
  }

  /** The trees of the headings `ids`, none of them before `from`. */
  function Items(hs: seq<Heading>, lines: seq<Line>, from: nat, ids: seq<nat>): (r: seq<OutlineItem>)
    requires from <= |hs| && forall k :: 0 <= k < |ids| ==> from <= ids[k] < |hs|
    decreases |hs| - from, 1, |ids|
  {
    if ids == [] then []
    else Items(hs, lines, from, ids[..|ids| - 1]) + [Item(hs, lines, ids[|ids| - 1])]
  }

  /** The outline: one tree for each heading without a parent. */
  function Outline(hs: seq<Heading>, lines: seq<Line>): seq<OutlineItem> {
    Items(hs, lines, 0, Children(hs, None))
  }

  // ---------- the stack algorithm ----------

  /** An arena node under construction. */
  datatype Node = Node(heading: Heading, endLine: nat)

  ghost predicate OnStack(stack: seq<(nat, nat)>, i: nat) {
    exists k :: 0 <= k < |stack| && stack[k].1 == i
  }

  /** The stack after `n` headings: the open sections, shallowest first. */
  ghost predicate StackOf(hs: seq<Heading>, n: nat, stack: seq<(nat, nat)>)
    requires n <= |hs|
  {
    && (forall k :: 0 <= k < |stack| ==> stack[k].1 < n && stack[k].0 == hs[stack[k].1].level)
    && (forall j, k :: 0 <= j < k < |stack| ==> stack[j].1 < stack[k].1 && stack[j].0 < stack[k].0)
    && (forall i :: 0 <= i < n ==> (Closer(hs, i, n) == None <==> OnStack(stack, i)))
  }

  ghost predicate NodesOf(hs: seq<Heading>, n: nat, total: nat, nodes: seq<Node>)
    requires n <= |hs|
  {
    && |nodes| == n
    && forall i :: 0 <= i < n ==> nodes[i] == Node(hs[i], RawEnd(hs, i, n, total))
  }

  /** A heading that is no longer open was closed by a heading that is as shallow or shallower. */
  lemma {:induction false} DeepSinceOpen(
    hs: seq<Heading>, n: nat, stack: seq<(nat, nat)>, from: nat, k: nat, level: nat)
    requires n <= |hs| && StackOf(hs, n, stack)
    requires forall j :: 0 <= j < |stack| && stack[j].1 >= from ==> stack[j].0 >= level
    requires from <= k < n
    ensures hs[k].level >= level
    decreases n - k
  {
    if Closer(hs, k, n).Some? {
      DeepSinceOpen(hs, n, stack, from, Closer(hs, k, n).value, level);
    } else {
      var j :| 0 <= j < |stack| && stack[j].1 == k;
    }
  }

  lemma {:induction false} NearestShallower(hs: seq<Heading>, n: nat, level: nat, p: Option<nat>)
    requires n <= |hs|
    requires p.Some? ==> p.value < n && hs[p.value].level < level
    requires forall k :: (if p.Some? then p.value < k else 0 <= k) && k < n ==> hs[k].level >= level
    ensures ShallowerBefore(hs, n, level) == p
  {
    if n > 0 && p != Some(n - 1) {
      NearestShallower(hs, n - 1, level, p);
    }
  }

  function SaturatingPred(n: nat): nat { if n == 0 then 0 else n - 1 }

  /** What remains of the stack before a heading of the given level. */
  ghost predicate Popped(before: seq<(nat, nat)>, stack: seq<(nat, nat)>, level: nat) {
    && stack <= before
    && forall k :: |stack| <= k < |before| ==> before[k].0 >= level
  }

  /** The nodes whose sections the heading at `n` has closed so far: those that were open and no longer are. */
  ghost predicate Closing(hs: seq<Heading>, n: nat, total: nat, before: seq<(nat, nat)>, stack: seq<(nat, nat)>,
                          nodes: seq<Node>)
    requires n < |hs|
  {
    && |nodes| == n
    && forall i :: 0 <= i < n ==>
         nodes[i] == Node(hs[i], if OnStack(before, i) && !OnStack(stack, i) then SaturatingPred(hs[n].start)
                                 else RawEnd(hs, i, n, total))
  }

  /** A heading stays open exactly when it was open and is shallower than the new one. */
  lemma StackMember(hs: seq<Heading>, n: nat, before: seq<(nat, nat)>, stack: seq<(nat, nat)>, level: nat, i: nat)
    requires n < |hs| && StackOf(hs, n, before) && Popped(before, stack, level) && i < n
    requires stack != [] ==> stack[|stack| - 1].0 < level
    ensures OnStack(stack, i) <==> OnStack(before, i) && hs[i].level < level
  {
    if OnStack(stack, i) {
      var k :| 0 <= k < |stack| && stack[k].1 == i;
      assert before[k] == stack[k] && before[|stack| - 1] == stack[|stack| - 1];
    }
    if OnStack(before, i) {
      var k :| 0 <= k < |before| && before[k].1 == i;
      if k < |stack| {
        assert stack[k] == before[k];
      }
    }
  }

  lemma OnPushed(stack: seq<(nat, nat)>, level: nat, n: nat, i: nat)
    ensures OnStack(stack + [(level, n)], i) <==> OnStack(stack, i) || i == n
  {
    var after := stack + [(level, n)];
    assert after[|stack|].1 == n;
    if OnStack(stack, i) {
      var k :| 0 <= k < |stack| && stack[k].1 == i;
      assert after[k].1 == i;
    }
  }

  /** One more heading closes what is still open and not shallower. */
  lemma CloserStep(hs: seq<Heading>, i: nat, n: nat)
    requires i < n < |hs|
    ensures Closer(hs, i, n + 1)
         == if Closer(hs, i, n).None? && hs[i].level >= hs[n].level then Some(n) else Closer(hs, i, n)
    ensures Closer(hs, n, n + 1) == None
  {
  }

  lemma ParentOnTop(hs: seq<Heading>, n: nat, before: seq<(nat, nat)>, stack: seq<(nat, nat)>)
    requires n < |hs| && StackOf(hs, n, before) && Popped(before, stack, hs[n].level)
    requires stack != [] ==> stack[|stack| - 1].0 < hs[n].level
    ensures Parent(hs, n) == if stack == [] then None else Some(stack[|stack| - 1].1)
  {
    var level := hs[n].level;
    var from := if stack == [] then 0 else stack[|stack| - 1].1 + 1;
    if stack != [] {
      assert before[|stack| - 1] == stack[|stack| - 1];
    }
    forall k | from <= k < n ensures hs[k].level >= level {
      DeepSinceOpen(hs, n, before, from, k, level);
    }
    NearestShallower(hs, n, level, if stack == [] then None else Some(stack[|stack| - 1].1));
  }

  /** What one more heading means for an earlier one. */
  lemma HeadingAfter(hs: seq<Heading>, n: nat, total: nat, before: seq<(nat, nat)>, stack: seq<(nat, nat)>, i: nat)
    requires n < |hs| && StackOf(hs, n, before) && Popped(before, stack, hs[n].level) && i < n
    requires stack != [] ==> stack[|stack| - 1].0 < hs[n].level
    ensures Closer(hs, i, n + 1) == None <==> OnStack(stack + [(hs[n].level, n)], i)
    ensures RawEnd(hs, i, n + 1, total)
         == if OnStack(before, i) && !OnStack(stack, i) then SaturatingPred(hs[n].start) else RawEnd(hs, i, n, total)
  {
    StackMember(hs, n, before, stack, hs[n].level, i);
    OnPushed(stack, hs[n].level, n, i);
    CloserStep(hs, i, n);
    assert Closer(hs, i, n) == None <==> OnStack(before, i);
    hide OnStack;
    hide StackOf;
  }

  /** Popping until the top is shallower, then pushing: the stack is that of one heading more. */
  lemma PushStack(hs: seq<Heading>, n: nat, before: seq<(nat, nat)>, stack: seq<(nat, nat)>)
    requires n < |hs| && StackOf(hs, n, before) && Popped(before, stack, hs[n].level)
    requires stack != [] ==> stack[|stack| - 1].0 < hs[n].level
    ensures StackOf(hs, n + 1, stack + [(hs[n].level, n)])
  {
    hide OnStack;
    hide Closer;
    var after := stack + [(hs[n].level, n)];
    forall i | 0 <= i < |hs| && i <= n ensures Closer(hs, i, n + 1) == None <==> OnStack(after, i) {
      if i < n {
        HeadingAfter(hs, n, 0, before, stack, i);
      } else {
        OnPushed(stack, hs[n].level, n, n);
        LastIsOpen(hs, n);
      }
    }
    assert forall k :: 0 <= k < |stack| ==> after[k] == stack[k] == before[k];
  }

  lemma LastIsOpen(hs: seq<Heading>, n: nat)
    requires n < |hs|
    ensures Closer(hs, n, n + 1) == None
  {
  }

  /** The nodes are those of one heading more. */
  lemma PushNode(
    hs: seq<Heading>, n: nat, total: nat, before: seq<(nat, nat)>, stack: seq<(nat, nat)>, nodes: seq<Node>)
    requires n < |hs| && StackOf(hs, n, before) && Popped(before, stack, hs[n].level)
    requires stack != [] ==> stack[|stack| - 1].0 < hs[n].level
    requires Closing(hs, n, total, before, stack, nodes)
    ensures NodesOf(hs, n + 1, total, nodes + [Node(hs[n], total)])
  {
    forall i | 0 <= i < n ensures nodes[i] == Node(hs[i], RawEnd(hs, i, n + 1, total)) {
      HeadingAfter(hs, n, total, before, stack, i);
    }
    LastIsOpen(hs, n);
  }

  /** Popping one open heading closes it. */
  lemma PopHeading(
    hs: seq<Heading>, n: nat, total: nat, before: seq<(nat, nat)>, stack: seq<(nat, nat)>, nodes: seq<Node>)
    requires n < |hs| && StackOf(hs, n, before) && Popped(before, stack, hs[n].level) && stack != []
    requires stack[|stack| - 1].0 >= hs[n].level
    requires Closing(hs, n, total, before, stack, nodes)
    ensures var (_, top) := stack[|stack| - 1];
            var rest := stack[..|stack| - 1];
            && top < n
            && Popped(before, rest, hs[n].level)
            && Closing(hs, n, total, before, rest, nodes[top := nodes[top].(endLine := SaturatingPred(hs[n].start))])
  {
    var top, rest := stack[|stack| - 1].1, stack[..|stack| - 1];
    assert before[|stack| - 1] == stack[|stack| - 1];
    forall i | 0 <= i < n ensures OnStack(rest, i) <==> OnStack(stack, i) && i != top {
      assert stack == rest + [(stack[|stack| - 1].0, top)];
      OnPushed(rest, stack[|stack| - 1].0, top, i);
    }
    assert OnStack(before, top);
    hide RawEnd;
  }

  /** One heading of the main loop. */
  method AddHeading(hs: seq<Heading>, n: nat, total: nat, nodes: seq<Node>, parents: seq<Option<nat>>,
                    stack: seq<(nat, nat)>)
    returns (nodes': seq<Node>, parents': seq<Option<nat>>, stack': seq<(nat, nat)>)
    requires n < |hs| && NodesOf(hs, n, total, nodes) && StackOf(hs, n, stack)
    requires |parents| == n && forall i :: 0 <= i < n ==> parents[i] == Parent(hs, i)
    ensures NodesOf(hs, n + 1, total, nodes') && StackOf(hs, n + 1, stack')
    ensures |parents'| == n + 1 && forall i :: 0 <= i < n + 1 ==> parents'[i] == Parent(hs, i)
  {
    hide StackOf;
    hide NodesOf;
    var heading := hs[n];
    nodes', stack' := nodes, stack;
    StartClosing(hs, n, total, stack, nodes);
    hide Closing;
    while stack' != [] && stack'[|stack'| - 1].0 >= heading.level
      invariant Popped(stack, stack', heading.level) && |nodes'| == n
      invariant Closing(hs, n, total, stack, stack', nodes')
      decreases |stack'|
    {
      var top := stack'[|stack'| - 1].1;
      PopHeading(hs, n, total, stack, stack', nodes');
      nodes' := nodes'[top := nodes'[top].(endLine := SaturatingPred(heading.start))];
      ClosingLength(hs, n, total, stack, stack'[..|stack'| - 1], nodes');
      stack' := stack'[..|stack'| - 1];
    }
    ParentOnTop(hs, n, stack, stack');
    var parent := if stack' == [] then None else Some(stack'[|stack'| - 1].1);
    PushStack(hs, n, stack, stack');
    PushNode(hs, n, total, stack, stack', nodes');
    nodes' := nodes' + [Node(heading, total)];
    parents' := parents + [parent];
    stack' := stack' + [(heading.level, n)];
  }

  lemma StartClosing(hs: seq<Heading>, n: nat, total: nat, stack: seq<(nat, nat)>, nodes: seq<Node>)
    requires n < |hs| && NodesOf(hs, n, total, nodes)
    ensures Popped(stack, stack, hs[n].level) && Closing(hs, n, total, stack, stack, nodes) && |nodes| == n
  {
  }

  lemma ClosingLength(hs: seq<Heading>, n: nat, total: nat, before: seq<(nat, nat)>, stack: seq<(nat, nat)>,
                      nodes: seq<Node>)
    requires n < |hs| && Closing(hs, n, total, before, stack, nodes)
    ensures |nodes| == n
  {
  }

  lemma ItemsSnoc(hs: seq<Heading>, lines: seq<Line>, from: nat, ids: seq<nat>, i: nat)
    requires from <= i < |hs| && forall k :: 0 <= k < |ids| ==> from <= ids[k] < |hs|
    ensures Items(hs, lines, from, ids + [i]) == Items(hs, lines, from, ids) + [Item(hs, lines, i)]
  {
    hide Item;
    assert (ids + [i])[..|ids|] == ids;
  }

  lemma NoItems(hs: seq<Heading>, lines: seq<Line>, from: nat)
    requires from <= |hs|
    ensures Items(hs, lines, from, []) == []
  {
  }

  /** The recursion that assembles a heading and everything below it. */
  method Build(idx: nat, nodes: seq<Node>, childrenOf: seq<seq<nat>>, ghost hs: seq<Heading>, ghost lines: seq<Line>)
    returns (item: OutlineItem)
    requires idx < |nodes| == |hs| == |childrenOf|
    requires forall i :: 0 <= i < |hs| ==> nodes[i] == Node(hs[i], SectionEnd(hs, lines, i))
    requires forall i :: 0 <= i < |hs| ==> childrenOf[i] == Children(hs, Some(i))
    ensures item == Item(hs, lines, idx)
    decreases |nodes| - idx
  {
    hide Items;
    hide SectionEnd;
    hide Children;
    var ids := childrenOf[idx];
    var children: seq<OutlineItem> := [];
    NoItems(hs, lines, idx + 1);
    for k := 0 to |ids|
      invariant children == Items(hs, lines, idx + 1, ids[..k])
    {
      var child := Build(ids[k], nodes, childrenOf, hs, lines);
      children := children + [child];
      ItemsSnoc(hs, lines, idx + 1, ids[..k], ids[k]);
      assert ids[..k + 1] == ids[..k] + [ids[k]];
    }
    assert ids[..|ids|] == ids;
    var h := nodes[idx].heading;
    item := OutlineItem(h.text, h.level, h.start, nodes[idx].endLine, children);
  }

  /** Trailing blank lines of a section removed one by one. */
  method TrimEnd(lines: seq<Line>, start: nat, end: nat) returns (r: nat)
    ensures r == TrimBlank(lines, start, end)
  {
    r := end;
    while r > start && r <= |lines| && IsBlankLine(lines[r - 1])
      invariant TrimBlank(lines, start, r) == TrimBlank(lines, start, end)
    {
      r := r - 1;
    }
  }

  method TrimSections(lines: seq<Line>, nodes: seq<Node>, ghost hs: seq<Heading>) returns (r: seq<Node>)
    requires NodesOf(hs, |hs|, |lines|, nodes)
    ensures |r| == |hs| && forall i :: 0 <= i < |hs| ==> r[i] == Node(hs[i], SectionEnd(hs, lines, i))
  {
    r := nodes;
    for n := 0 to |nodes|
      invariant |r| == |hs|
      invariant forall i :: 0 <= i < n ==> r[i] == Node(hs[i], SectionEnd(hs, lines, i))
      invariant forall i :: n <= i < |r| ==> r[i] == nodes[i]
    {
      var end := TrimEnd(lines, r[n].heading.start, r[n].endLine);
      r := r[n := r[n].(endLine := end)];
    }
  }

  method LinkChildren(parents: seq<Option<nat>>, ghost hs: seq<Heading>) returns (childrenOf: seq<seq<nat>>)
    requires |parents| == |hs| && forall i :: 0 <= i < |hs| ==> parents[i] == Parent(hs, i)
    ensures |childrenOf| == |hs| && forall i :: 0 <= i < |hs| ==> childrenOf[i] == Children(hs, Some(i))
  {
    hide Parent;
    childrenOf := seq(|parents|, i => []);
    for child := 0 to |parents|
      invariant |childrenOf| == |hs|
      invariant forall i :: 0 <= i < |hs| ==> childrenOf[i] == ChildrenUpTo(hs, Some(i), child)
    {
      if parents[child].Some? {
        var p := parents[child].value;
        ParentBefore(hs, child);
        childrenOf := childrenOf[p := childrenOf[p] + [child]];
      }
    }
  }

  lemma ParentBefore(hs: seq<Heading>, i: nat)
    requires i < |hs|
    ensures Parent(hs, i).Some? ==> Parent(hs, i).value < i
  {
  }

  method BuildTree(headings: seq<Heading>, lines: seq<Line>) returns (items: seq<OutlineItem>)
    ensures items == Outline(headings, lines)
  {
    hide NodesOf;
    hide StackOf;
    hide Parent;
    hide Items;
    var nodes: seq<Node>, parents: seq<Option<nat>>, stack: seq<(nat, nat)> := [], [], [];
    NothingYet(headings, |lines|);
    for n := 0 to |headings|
      invariant NodesOf(headings, n, |lines|, nodes) && StackOf(headings, n, stack)
      invariant |parents| == n && forall i :: 0 <= i < n ==> parents[i] == Parent(headings, i)
    {
      nodes, parents, stack := AddHeading(headings, n, |lines|, nodes, parents, stack);
    }
    nodes := TrimSections(lines, nodes, headings);
    var childrenOf := LinkChildren(parents, headings);
    items := CollectRoots(parents, nodes, childrenOf, headings, lines);
  }

  lemma NothingYet(hs: seq<Heading>, total: nat)
    ensures NodesOf(hs, 0, total, []) && StackOf(hs, 0, [])
  {
  }

  method CollectRoots(parents: seq<Option<nat>>, nodes: seq<Node>, childrenOf: seq<seq<nat>>,
                      ghost hs: seq<Heading>, ghost lines: seq<Line>)
    returns (items: seq<OutlineItem>)
    requires |parents| == |nodes| == |hs| == |childrenOf|
    requires forall i :: 0 <= i < |hs| ==> parents[i] == Parent(hs, i)
    requires forall i :: 0 <= i < |hs| ==> nodes[i] == Node(hs[i], SectionEnd(hs, lines, i))
    requires forall i :: 0 <= i < |hs| ==> childrenOf[i] == Children(hs, Some(i))
    ensures items == Outline(hs, lines)
  {
    hide Items;
    hide Parent;
    hide SectionEnd;
    items := [];
    NoItems(hs, lines, 0);
    for idx := 0 to |parents|
      invariant items == Items(hs, lines, 0, ChildrenUpTo(hs, None, idx))
    {
      if parents[idx].None? {
        var item := Build(idx, nodes, childrenOf, hs, lines);
        items := items + [item];
        ItemsSnoc(hs, lines, 0, ChildrenUpTo(hs, None, idx), idx);
      } else {
        assert ChildrenUpTo(hs, None, idx + 1) == ChildrenUpTo(hs, None, idx);
      }
    }
  }

  // ---------- what the outline is like ----------

  /** Where the headings under `i` end: the next heading as shallow, or the end of the list. */
  function BlockEnd(hs: seq<Heading>, i: nat): (r: nat)
    requires i < |hs|
    ensures i < r <= |hs|
  {
    match Closer(hs, i, |hs|) case None => |hs| case Some(k) => k
  }

  function ChildrenStart(parent: Option<nat>): nat { match parent case None => 0 case Some(p) => p + 1 }

  function ChildrenEnd(hs: seq<Heading>, parent: Option<nat>): nat
    requires parent.Some? ==> parent.value < |hs|
  {
    match parent case None => |hs| case Some(p) => BlockEnd(hs, p)
  }

  lemma ParentLevels(hs: seq<Heading>, i: nat)
    requires i < |hs|
    ensures forall k :: ChildrenStart(Parent(hs, i)) <= k < i ==> hs[k].level >= hs[i].level
    ensures Parent(hs, i).Some? ==> Parent(hs, i).value < i && hs[Parent(hs, i).value].level < hs[i].level
  {
  }

  lemma BlockLevels(hs: seq<Heading>, i: nat)
    requires i < |hs|
    ensures forall k :: i < k < BlockEnd(hs, i) ==> hs[k].level > hs[i].level
    ensures BlockEnd(hs, i) < |hs| ==> hs[BlockEnd(hs, i)].level <= hs[i].level
  {
  }

  /** A child lies in its parent's block. */
  lemma ChildInBlock(hs: seq<Heading>, i: nat)
    requires i < |hs|
    ensures ChildrenStart(Parent(hs, i)) <= i < ChildrenEnd(hs, Parent(hs, i))
  {
    ParentLevels(hs, i);
    if Parent(hs, i).Some? {
      BlockLevels(hs, Parent(hs, i).value);
    }
  }

  /** After a child's block comes the next child of the same parent, or the end of the parent's block. */
  lemma NextSibling(hs: seq<Heading>, i: nat)
    requires i < |hs|
    ensures var k, end := BlockEnd(hs, i), ChildrenEnd(hs, Parent(hs, i));
            && k <= end
            && (k < end ==> Parent(hs, k) == Parent(hs, i))
            && forall t :: i < t < k ==> Parent(hs, t) != Parent(hs, i)
  {
    var parent := Parent(hs, i);
    var k, end := BlockEnd(hs, i), ChildrenEnd(hs, parent);
    ParentLevels(hs, i);
    BlockLevels(hs, i);
    ChildInBlock(hs, i);
    if parent.Some? {
      BlockLevels(hs, parent.value);
    }
    if k < end {
      NearestShallower(hs, k, hs[k].level, parent);
    }
    forall t | i < t < k ensures Parent(hs, t) != parent {
      ParentLevels(hs, t);
    }
  }

  /** The first heading of a parent's block is its first child. */
  lemma FirstChild(hs: seq<Heading>, parent: Option<nat>)
    requires parent.Some? ==> parent.value < |hs|
    ensures var start, end := ChildrenStart(parent), ChildrenEnd(hs, parent);
            start <= end && (start < end ==> Parent(hs, start) == parent)
  {
    var start := ChildrenStart(parent);
    if parent.Some? {
      BlockLevels(hs, parent.value);
    }
    if start < ChildrenEnd(hs, parent) {
      NearestShallower(hs, start, hs[start].level, parent);
    }
  }

  ghost predicate Increasing(ids: seq<nat>) {
    forall j, k :: 0 <= j < k < |ids| ==> ids[j] < ids[k]
  }

  /** In an increasing list bounded by `start` and `end`, `start` can only come first. */
  lemma FirstOf(ids: seq<nat>, start: nat, end: nat)
    requires Increasing(ids) && forall k :: 0 <= k < |ids| ==> start <= ids[k] < end
    requires start < end ==> start in ids
    requires start <= end
    ensures (if ids == [] then end else ids[0]) == start
  {
    if start in ids {
      var k :| 0 <= k < |ids| && ids[k] == start;
    }
  }

  /** In an increasing list bounded by `end`, an element with nothing between it and the one at `j - 1` is at `j`. */
  lemma NextOf(ids: seq<nat>, j: nat, next: nat, end: nat)
    requires Increasing(ids) && 0 < j <= |ids| && forall k :: 0 <= k < |ids| ==> ids[k] < end
    requires ids[j - 1] < next <= end && (next < end ==> next in ids)
    requires forall t :: ids[j - 1] < t < next ==> t !in ids
    ensures (if j < |ids| then ids[j] else end) == next
  {
    if j < |ids| {
      assert ids[j - 1] < ids[j] && ids[j] in ids;
    }
    if next < end {
      var k :| 0 <= k < |ids| && ids[k] == next;
    }
  }

  lemma ChildrenAre(hs: seq<Heading>, parent: Option<nat>)
    requires parent.Some? ==> parent.value < |hs|
    ensures Increasing(Children(hs, parent))
    ensures forall i :: i in Children(hs, parent) <==> 0 <= i < |hs| && Parent(hs, i) == parent
    ensures ChildrenEnd(hs, parent) <= |hs|
    ensures var ids := Children(hs, parent);
            forall k :: 0 <= k < |ids| ==> ChildrenStart(parent) <= ids[k] < ChildrenEnd(hs, parent)
  {
    hide Parent;
    hide BlockEnd;
    var ids := Children(hs, parent);
    forall k | 0 <= k < |ids| ensures ChildrenStart(parent) <= ids[k] < ChildrenEnd(hs, parent) {
      ChildInBlock(hs, ids[k]);
    }
  }

  /** The children of a parent, listed in order, start where its block starts and follow each other's blocks. */
  lemma ChildrenTile(hs: seq<Heading>, parent: Option<nat>, j: nat)
    requires parent.Some? ==> parent.value < |hs|
    requires j <= |Children(hs, parent)|
    ensures var ids, end := Children(hs, parent), ChildrenEnd(hs, parent);
            var here := if j < |ids| then ids[j] else end;
            && (j == 0 ==> here == ChildrenStart(parent))
            && (j > 0 ==> here == BlockEnd(hs, ids[j - 1]))
  {
    hide Parent;
    hide Children;
    hide BlockEnd;
    hide ChildrenEnd;
    hide ChildrenStart;
    var ids, start, end := Children(hs, parent), ChildrenStart(parent), ChildrenEnd(hs, parent);
    ChildrenAre(hs, parent);
    if j == 0 {
      FirstChild(hs, parent);
      FirstOf(ids, start, end);
    } else {
      NextSibling(hs, ids[j - 1]);
      NextOf(ids, j, BlockEnd(hs, ids[j - 1]), end);
    }
  }

  function FlattenItem(item: OutlineItem): seq<OutlineItem>
    decreases item, 0
  {
    [item] + Flatten(item.children)
  }

  /** The items of a forest in pre-order. */
  function Flatten(items: seq<OutlineItem>): seq<OutlineItem>
    decreases items, 1
  {
    if items == [] then [] else Flatten(items[..|items| - 1]) + FlattenItem(items[|items| - 1])
  }

  lemma FlattenSnoc(items: seq<OutlineItem>, item: OutlineItem)
    ensures Flatten(items + [item]) == Flatten(items) + FlattenItem(item)
  {
    assert (items + [item])[..|items|] == items;
  }

  /** The items of all headings, in document order. */
  function AllItems(hs: seq<Heading>, lines: seq<Line>): (r: seq<OutlineItem>)
    ensures |r| == |hs| && forall i :: 0 <= i < |hs| ==> r[i] == Item(hs, lines, i)
  {
    seq(|hs|, i requires 0 <= i < |hs| => Item(hs, lines, i))
  }

  lemma JoinSlices<T>(s: seq<T>, i: nat, j: nat, k: nat)
    requires i <= j <= k <= |s|
    ensures s[i..j] + s[j..k] == s[i..k]
  {
  }

  lemma TakeOneMore<T>(s: seq<T>, j: nat)
    requires 0 < j <= |s|
    ensures s[..j] == s[..j - 1] + [s[j - 1]]
  {
  }

  /** One more child: its block follows the blocks of the children before it. */
  lemma FlattenOneMore(hs: seq<Heading>, lines: seq<Line>, from: nat, ids: seq<nat>, j: nat)
    requires from <= |hs| && 0 < j <= |ids| && forall k :: 0 <= k < |ids| ==> from <= ids[k] < |hs|
    requires Flatten(Items(hs, lines, from, ids[..j - 1])) == AllItems(hs, lines)[from..ids[j - 1]]
    requires FlattenItem(Item(hs, lines, ids[j - 1])) == AllItems(hs, lines)[ids[j - 1]..BlockEnd(hs, ids[j - 1])]
    ensures Flatten(Items(hs, lines, from, ids[..j])) == AllItems(hs, lines)[from..BlockEnd(hs, ids[j - 1])]
  {
    hide Items;
    hide Item;
    hide AllItems;
    hide Flatten;
    hide FlattenItem;
    hide BlockEnd;
    var i, all := ids[j - 1], AllItems(hs, lines);
    var before := Items(hs, lines, from, ids[..j - 1]);
    calc {
      Flatten(Items(hs, lines, from, ids[..j]));
      { TakeOneMore(ids, j); }
      Flatten(Items(hs, lines, from, ids[..j - 1] + [i]));
      { ItemsSnoc(hs, lines, from, ids[..j - 1], i); }
      Flatten(before + [Item(hs, lines, i)]);
      { FlattenSnoc(before, Item(hs, lines, i)); }
      all[from..i] + all[i..BlockEnd(hs, i)];
      { JoinSlices(all, from, i, BlockEnd(hs, i)); }
      all[from..BlockEnd(hs, i)];
    }
  }

  /** The trees of the first children of a parent hold exactly the headings up to the next child. */
  lemma {:induction false} FlattenChildren(hs: seq<Heading>, lines: seq<Line>, parent: Option<nat>, j: nat)
    requires parent.Some? ==> parent.value < |hs|
    requires j <= |Children(hs, parent)|
    ensures var ids, from := Children(hs, parent), ChildrenStart(parent);
            var here := if j < |ids| then ids[j] else ChildrenEnd(hs, parent);
            && from <= here <= |hs|
            && (forall k :: 0 <= k < |ids| ==> from <= ids[k] < |hs|)
            && Flatten(Items(hs, lines, from, ids[..j])) == AllItems(hs, lines)[from..here]
    decreases |hs| - ChildrenStart(parent), 0, j
  {
    hide Parent;
    hide Item;
    hide Items;
    hide AllItems;
    hide Children;
    hide Flatten;
    hide FlattenItem;
    hide BlockEnd;
    var ids, from := Children(hs, parent), ChildrenStart(parent);
    ChildrenTile(hs, parent, j);
    if j == 0 {
      FirstChild(hs, parent);
      NoItems(hs, lines, from);
      NothingFlat();
      assert ids[..0] == [];
    } else {
      FlattenChildren(hs, lines, parent, j - 1);
      FlattenBlock(hs, lines, ids[j - 1]);
      FlattenOneMore(hs, lines, from, ids, j);
    }
  }

  lemma NothingFlat()
    ensures Flatten([]) == []
  {
  }

  /** A heading's tree holds exactly the headings of its block, in order. */
  lemma {:induction false} FlattenBlock(hs: seq<Heading>, lines: seq<Line>, i: nat)
    requires i < |hs|
    ensures FlattenItem(Item(hs, lines, i)) == AllItems(hs, lines)[i..BlockEnd(hs, i)]
    decreases |hs| - i, 0, 0
  {
    hide Items;
    hide SectionEnd;
    hide AllItems;
    var ids, all := Children(hs, Some(i)), AllItems(hs, lines);
    FlattenChildren(hs, lines, Some(i), |ids|);
    assert ids[..|ids|] == ids;
    assert all[i..BlockEnd(hs, i)] == [all[i]] + all[i + 1..BlockEnd(hs, i)];
  }

  lemma {:induction false} FlattenOutline(hs: seq<Heading>, lines: seq<Line>)
    ensures Flatten(Outline(hs, lines)) == AllItems(hs, lines)
  {
    hide Items;
    hide AllItems;
    var ids, all := Children(hs, None), AllItems(hs, lines);
    FlattenChildren(hs, lines, None, |ids|);
    assert ids[..|ids|] == ids;
    assert all[0..|hs|] == all;
  }

  /** Walking the outline in pre-order meets every heading once, in document order. */
  lemma {:induction false} OutlinePreOrder(hs: seq<Heading>, lines: seq<Line>)
    ensures var items := Flatten(Outline(hs, lines));
            && |items| == |hs|
            && forall i :: 0 <= i < |hs| ==> Heading(items[i].level, items[i].name, items[i].startLine) == hs[i]
  {
    hide Items;
    hide Outline;
    FlattenOutline(hs, lines);
  }

  /** Headings start on increasing lines of the file, none of them blank. */
  ghost predicate Proper(hs: seq<Heading>, lines: seq<Line>) {
    && (forall i :: 0 <= i < |hs| ==> 1 <= hs[i].start <= |lines| && !IsBlankLine(lines[hs[i].start - 1]))
    && (forall i, j :: 0 <= i < j < |hs| ==> hs[i].start < hs[j].start)
  }

  /** The last line a section could have: the one before the next heading as shallow, or the last of the file. */
  function SectionLimit(hs: seq<Heading>, lines: seq<Line>, i: nat): nat
    requires i < |hs|
  {
    if BlockEnd(hs, i) < |hs| then SaturatingPred(hs[BlockEnd(hs, i)].start) else |lines|
  }

  lemma {:induction false} TrimExact(lines: seq<Line>, start: nat, end: nat)
    requires 1 <= start <= end <= |lines| && !IsBlankLine(lines[start - 1])
    ensures var r := TrimBlank(lines, start, end);
            && start <= r <= end && !IsBlankLine(lines[r - 1])
            && forall k :: r <= k < end ==> IsBlankLine(lines[k])
    decreases end
  {
    hide IsBlankLine;
    if end > start && IsBlankLine(lines[end - 1]) {
      TrimExact(lines, start, end - 1);
    }
  }

  /** A section ends at its last line that is not blank. */
  lemma {:induction false} SectionExact(hs: seq<Heading>, lines: seq<Line>, i: nat)
    requires i < |hs| && Proper(hs, lines)
    ensures var end, limit := SectionEnd(hs, lines, i), SectionLimit(hs, lines, i);
            && hs[i].start <= end <= limit <= |lines|
            && !IsBlankLine(lines[end - 1])
            && forall k :: end <= k < limit ==> IsBlankLine(lines[k])
  {
    hide IsBlankLine;
    var k := BlockEnd(hs, i);
    assert RawEnd(hs, i, |hs|, |lines|) == SectionLimit(hs, lines, i);
    if k < |hs| {
      assert hs[i].start < hs[k].start;
    }
    TrimExact(lines, hs[i].start, SectionLimit(hs, lines, i));
  }

  lemma LimitsNest(hs: seq<Heading>, lines: seq<Line>, i: nat)
    requires i < |hs| && Proper(hs, lines) && Parent(hs, i).Some?
    ensures SectionLimit(hs, lines, i) <= SectionLimit(hs, lines, Parent(hs, i).value)
  {
    hide Parent;
    hide BlockEnd;
    hide IsBlankLine;
    ParentLevels(hs, i);
    var j, k := BlockEnd(hs, i), BlockEnd(hs, Parent(hs, i).value);
    NextSibling(hs, i);
    if j < k < |hs| {
      assert hs[j].start < hs[k].start;
    }
  }

  /** Trimming at a higher limit ends at least as low. */
  lemma TrimMonotone(lines: seq<Line>, e: nat, limit: nat, e': nat, limit': nat)
    requires 1 <= e <= limit <= limit' <= |lines| && !IsBlankLine(lines[e - 1])
    requires e' <= limit' && forall k :: e' <= k < limit' ==> IsBlankLine(lines[k])
    ensures e <= e'
  {
  }

  /** A child's section lies inside its parent's. */
  lemma ChildrenNest(hs: seq<Heading>, lines: seq<Line>, i: nat)
    requires i < |hs| && Proper(hs, lines) && Parent(hs, i).Some?
    ensures var p := Parent(hs, i).value;
            && p < i && hs[p].start < hs[i].start
            && SectionEnd(hs, lines, i) <= SectionEnd(hs, lines, p)
  {
    hide SectionEnd;
    hide SectionLimit;
    hide IsBlankLine;
    hide BlockEnd;
    var p := Parent(hs, i).value;
    SectionExact(hs, lines, i);
    SectionExact(hs, lines, p);
    LimitsNest(hs, lines, i);
    TrimMonotone(lines, SectionEnd(hs, lines, i), SectionLimit(hs, lines, i),
                 SectionEnd(hs, lines, p), SectionLimit(hs, lines, p));
  }

  /** Sections of the same parent do not overlap. */
  lemma SiblingsDisjoint(hs: seq<Heading>, lines: seq<Line>, i: nat, j: nat)
    requires i < j < |hs| && Proper(hs, lines) && Parent(hs, i) == Parent(hs, j)
    ensures SectionEnd(hs, lines, i) < hs[j].start
  {
    hide Parent;
    hide SectionEnd;
    hide BlockEnd;
    hide IsBlankLine;
    SectionExact(hs, lines, i);
    ChildInBlock(hs, i);
    BlockBefore(hs, i, j);
    if BlockEnd(hs, i) < j {
      assert hs[BlockEnd(hs, i)].start < hs[j].start;
    }
  }

  lemma BlockBefore(hs: seq<Heading>, i: nat, j: nat)
    requires i < j < |hs| && Parent(hs, i) == Parent(hs, j)
    ensures BlockEnd(hs, i) <= j
  {
    hide Parent;
    hide BlockEnd;
    ParentLevels(hs, j);
    BlockLevels(hs, i);
    ChildInBlock(hs, i);
    assert hs[i].level >= hs[j].level;
  }

  // ---------- the tree itself ----------

  /** Heading `p` is the nearest one before `i` that is shallower. */
  ghost predicate Under(hs: seq<Heading>, p: nat, i: nat)
    requires p < |hs| && i < |hs|
  {
    p < i && hs[p].level < hs[i].level && forall k :: p < k < i ==> hs[k].level >= hs[i].level
  }

  /** No heading before `i` is shallower. */
  ghost predicate OnTop(hs: seq<Heading>, i: nat)
    requires i < |hs|
  {
    forall k :: 0 <= k < i ==> hs[k].level >= hs[i].level
  }

  lemma ParentUnder(hs: seq<Heading>, i: nat)
    requires i < |hs|
    ensures forall p: nat :: p < |hs| ==> (Under(hs, p, i) <==> Parent(hs, i) == Some(p))
    ensures OnTop(hs, i) <==> Parent(hs, i) == None
  {
    forall p: nat | p < |hs| && Under(hs, p, i) ensures Parent(hs, i) == Some(p) {
      NearestShallower(hs, i, hs[i].level, Some(p));
    }
  }

  /** The list picks the items at the increasing indices `ids`. */
  ghost predicate Picks(list: seq<OutlineItem>, items: seq<OutlineItem>, ids: seq<nat>) {
    && |list| == |ids| && Increasing(ids)
    && forall k :: 0 <= k < |ids| ==> ids[k] < |items| && list[k] == items[ids[k]]
  }

  lemma {:induction false} ItemsPick(hs: seq<Heading>, lines: seq<Line>, from: nat, ids: seq<nat>)
    requires from <= |hs| && (forall k :: 0 <= k < |ids| ==> from <= ids[k] < |hs|) && Increasing(ids)
    ensures Picks(Items(hs, lines, from, ids), AllItems(hs, lines), ids)
    decreases |ids|
  {
    hide Item;
    if ids != [] {
      ItemsPick(hs, lines, from, ids[..|ids| - 1]);
      assert ids == ids[..|ids| - 1] + [ids[|ids| - 1]];
    }
  }

  /** The items are those of the headings under heading `p`, in order. */
  ghost predicate PicksUnder(hs: seq<Heading>, list: seq<OutlineItem>, items: seq<OutlineItem>, p: nat)
    requires p < |hs|
  {
    exists ids: seq<nat> :: Picks(list, items, ids) && forall i: nat :: i in ids <==> i < |hs| && Under(hs, p, i)
  }

  /** The items are those of the headings that no heading is above. */
  ghost predicate PicksTop(hs: seq<Heading>, list: seq<OutlineItem>, items: seq<OutlineItem>) {
    exists ids: seq<nat> :: Picks(list, items, ids) && forall i: nat :: i in ids <==> i < |hs| && OnTop(hs, i)
  }

  lemma ChildrenPicked(hs: seq<Heading>, lines: seq<Line>, p: nat)
    requires p < |hs|
    ensures PicksUnder(hs, AllItems(hs, lines)[p].children, AllItems(hs, lines), p)
  {
    hide Items;
    hide Parent;
    hide Under;
    var ids := Children(hs, Some(p));
    ChildrenAre(hs, Some(p));
    forall i: nat ensures i in ids <==> i < |hs| && Under(hs, p, i) {
      if i < |hs| {
        ParentUnder(hs, i);
      }
    }
    ItemsPick(hs, lines, p + 1, ids);
  }

  /**
   * In the outline, met in pre-order, the children of an item are exactly the items whose nearest earlier shallower
   * heading is that item's, in order, and the trees of the outline are the items of the headings that have none.
   */
  lemma OutlineChildren(hs: seq<Heading>, lines: seq<Line>)
    ensures var outline := Outline(hs, lines);
            var items := Flatten(outline);
            && |items| == |hs|
            && (forall p: nat :: p < |hs| ==> PicksUnder(hs, items[p].children, items, p))
            && PicksTop(hs, outline, items)
  {
    hide Items;
    hide Flatten;
    hide Parent;
    hide OnTop;
    FlattenOutline(hs, lines);
    forall p: nat | p < |hs| ensures PicksUnder(hs, AllItems(hs, lines)[p].children, AllItems(hs, lines), p) {
      ChildrenPicked(hs, lines, p);
    }
    hide PicksUnder;
    var ids := Children(hs, None);
    ChildrenAre(hs, None);
    forall i: nat ensures i in ids <==> i < |hs| && OnTop(hs, i) {
      if i < |hs| {
        ParentUnder(hs, i);
      }
    }
    ItemsPick(hs, lines, 0, ids);
  }

  /** The line before the next heading as shallow as heading `i` or shallower, or the last line of the file. */
  ghost predicate Bounds(hs: seq<Heading>, lines: seq<Line>, i: nat, limit: nat)
    requires i < |hs|
  {
    || (limit == |lines| && forall k :: i < k < |hs| ==> hs[k].level > hs[i].level)
    || exists k ::
         && i < k < |hs| && hs[k].level <= hs[i].level && limit == hs[k].start - 1
         && forall j :: i < j < k ==> hs[j].level > hs[i].level
  }

  /** Every item of the outline ends at the last line that is not blank before the next section as shallow. */
  lemma OutlineEnds(hs: seq<Heading>, lines: seq<Line>, i: nat)
    requires i < |hs| && Proper(hs, lines)
    ensures var items := Flatten(Outline(hs, lines));
            && |items| == |hs|
            && exists limit: nat ::
                 && Bounds(hs, lines, i, limit)
                 && hs[i].start <= items[i].endLine <= limit <= |lines|
                 && !IsBlankLine(lines[items[i].endLine - 1])
                 && forall k :: items[i].endLine <= k < limit ==> IsBlankLine(lines[k])
  {
    hide Flatten;
    hide Outline;
    hide IsBlankLine;
    hide Items;
    FlattenOutline(hs, lines);
    BlockLevels(hs, i);
    SectionExact(hs, lines, i);
    assert Bounds(hs, lines, i, SectionLimit(hs, lines, i));
  }

  /** Items in order, each ending before the next one starts. */
  ghost predicate Apart(items: seq<OutlineItem>) {
    forall a, b :: 0 <= a < b < |items| ==> items[a].endLine < items[b].startLine
  }

  lemma ChildrenApart(hs: seq<Heading>, lines: seq<Line>, parent: Option<nat>, list: seq<OutlineItem>)
    requires Proper(hs, lines) && (parent.Some? ==> parent.value < |hs|)
    requires Picks(list, AllItems(hs, lines), Children(hs, parent))
    ensures Apart(list)
  {
    hide Parent;
    hide IsBlankLine;
    hide Items;
    hide SectionEnd;
    ChildrenAre(hs, parent);
    var ids := Children(hs, parent);
    forall a, b | 0 <= a < b < |list| ensures list[a].endLine < list[b].startLine {
      assert ids[a] in ids && ids[b] in ids;
      SiblingsDisjoint(hs, lines, ids[a], ids[b]);
    }
  }

  /** In the outline the children's sections lie inside their parent's, below its heading, and siblings' are apart. */
  lemma OutlineNests(hs: seq<Heading>, lines: seq<Line>, i: nat)
    requires i < |hs| && Proper(hs, lines)
    ensures var outline := Outline(hs, lines);
            var items := Flatten(outline);
            && |items| == |hs|
            && Apart(outline) && Apart(items[i].children)
            && forall child :: child in items[i].children ==>
                 items[i].startLine < child.startLine && child.endLine <= items[i].endLine
  {
    hide Flatten;
    hide Parent;
    hide IsBlankLine;
    hide Items;
    hide SectionEnd;
    FlattenOutline(hs, lines);
    ChildrenAre(hs, None);
    ItemsPick(hs, lines, 0, Children(hs, None));
    ChildrenApart(hs, lines, None, Outline(hs, lines));
    var ids, items := Children(hs, Some(i)), AllItems(hs, lines);
    ChildrenAre(hs, Some(i));
    ItemsPick(hs, lines, i + 1, ids);
    ChildrenApart(hs, lines, Some(i), items[i].children);
    forall child | child in items[i].children
      ensures items[i].startLine < child.startLine && child.endLine <= items[i].endLine
    {
      var k :| 0 <= k < |ids| && items[ids[k]] == child;
      assert ids[k] in ids;
      ChildrenNest(hs, lines, ids[k]);
    }
  }
}
