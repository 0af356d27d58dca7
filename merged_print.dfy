/** The merged rendering: `MergeAndPrintStackTraces` feeds the non-empty
    stack traces to the merge and prints each resulting tree with
    `PrintMergedStackTrace`, largest count first. The console is modelled as
    the sequence of lines written to it. */
module MergedPrint {
  import opened Text
  import opened MergeEngine
  import FrameWalk

  // ---------------------------------------------------------------------
  // `OrderByDescending(n => n.Count)`: a stable sort on descending count

  /** Puts `x` in front of the first element whose count it is at least. */
  function Insert(x: Node, s: seq<Node>): (r: seq<Node>)
    ensures |r| == |s| + 1
    ensures multiset(r) == multiset(s) + multiset{x}
  {
    if s == [] || x.count >= s[0].count then [x] + s
    else
      assert s == [s[0]] + s[1..];
      [s[0]] + Insert(x, s[1..])
  }

  /** LINQ's `OrderByDescending(n => n.Count)`, as an insertion sort that
      keeps equal counts in input order. */
  function SortByCountDescending(ns: seq<Node>): (r: seq<Node>)
    ensures |r| == |ns|
    ensures multiset(r) == multiset(ns)
  {
    if ns == [] then []
    else
      assert ns == [ns[0]] + ns[1..];
      Insert(ns[0], SortByCountDescending(ns[1..]))
  }

  predicate SortedByCountDescending(s: seq<Node>) {
    forall i, j :: 0 <= i < j < |s| ==> s[i].count >= s[j].count
  }

  /** Every count in `s` is at most `c`. */
  predicate CountsAtMost(s: seq<Node>, c: int) {
    forall i :: 0 <= i < |s| ==> s[i].count <= c
  }

  lemma {:induction false} InsertCountsAtMost(x: Node, s: seq<Node>, c: int)
    requires x.count <= c && CountsAtMost(s, c)
    ensures CountsAtMost(Insert(x, s), c)
    decreases |s|
  {
    if s != [] && x.count < s[0].count {
      InsertCountsAtMost(x, s[1..], c);
    }
  }

  lemma {:induction false} InsertSorted(x: Node, s: seq<Node>)
    requires SortedByCountDescending(s)
    ensures SortedByCountDescending(Insert(x, s))
    decreases |s|
  {
    if s != [] && x.count < s[0].count {
      InsertSorted(x, s[1..]);
      InsertCountsAtMost(x, s[1..], s[0].count);
    }
  }

  /** The sort orders by descending count. */
  lemma {:induction false} SortSorted(ns: seq<Node>)
    ensures SortedByCountDescending(SortByCountDescending(ns))
    decreases |ns|
  {
    if ns != [] {
      SortSorted(ns[1..]);
      InsertSorted(ns[0], SortByCountDescending(ns[1..]));
    }
  }

  /** The nodes of `s` whose count is `c`, in order. */
  function WithCount(s: seq<Node>, c: int): (r: seq<Node>)
    ensures forall i :: 0 <= i < |r| ==> r[i].count == c
  {
    if s == [] then []
    else (if s[0].count == c then [s[0]] else []) + WithCount(s[1..], c)
  }

  lemma {:induction false} InsertWithCount(x: Node, s: seq<Node>, c: int)
    requires SortedByCountDescending(s)
    ensures WithCount(Insert(x, s), c) == if x.count == c then [x] + WithCount(s, c) else WithCount(s, c)
    decreases |s|
  {
    if s != [] && x.count < s[0].count {
      InsertWithCount(x, s[1..], c);
      assert ([s[0]] + Insert(x, s[1..]))[1..] == Insert(x, s[1..]);
    } else {
      assert ([x] + s)[1..] == s;
    }
  }

  /** The sort is stable: nodes of equal count keep their input order. */
  lemma {:induction false} SortStable(ns: seq<Node>, c: int)
    ensures WithCount(SortByCountDescending(ns), c) == WithCount(ns, c)
    decreases |ns|
  {
    if ns != [] {
      SortStable(ns[1..], c);
      SortSorted(ns[1..]);
      InsertWithCount(ns[0], SortByCountDescending(ns[1..]), c);
    }
  }

  // ---------------------------------------------------------------------
  // Size of a tree: what the printer's recursion shrinks

  function Size(n: Node): (s: nat)
    ensures s >= 1
    decreases n
  {
    1 + SizeAll(n.children)
  }

  function SizeAll(ns: seq<Node>): nat
    decreases ns
  {
    if ns == [] then 0 else SizeAll(ns[..|ns| - 1]) + Size(ns[|ns| - 1])
  }

  lemma {:induction false} SizeAllAppend(a: seq<Node>, b: seq<Node>)
    ensures SizeAll(a + b) == SizeAll(a) + SizeAll(b)
    decreases |b|
  {
    if b == [] {
      assert a + b == a;
    } else {
      SizeAllAppend(a, b[..|b| - 1]);
      assert (a + b)[..|a + b| - 1] == a + b[..|b| - 1];
    }
  }

  lemma {:induction false} SizeAllMember(ns: seq<Node>, x: Node)
    requires x in ns
    ensures Size(x) <= SizeAll(ns)
    decreases |ns|
  {
    if ns[|ns| - 1] != x {
      assert x in ns[..|ns| - 1];
      SizeAllMember(ns[..|ns| - 1], x);
    }
  }

  lemma {:induction false} InsertSize(x: Node, s: seq<Node>)
    ensures SizeAll(Insert(x, s)) == Size(x) + SizeAll(s)
    decreases |s|
  {
    if s == [] || x.count >= s[0].count {
      SizeAllAppend([x], s);
      assert [x][..0] == [];
    } else {
      InsertSize(x, s[1..]);
      SizeAllAppend([s[0]], Insert(x, s[1..]));
      SizeAllAppend([s[0]], s[1..]);
      assert [s[0]] + s[1..] == s;
      assert [s[0]][..0] == [];
    }
  }

  lemma {:induction false} SortSize(ns: seq<Node>)
    ensures SizeAll(SortByCountDescending(ns)) == SizeAll(ns)
    decreases |ns|
  {
    if ns != [] {
      SortSize(ns[1..]);
      InsertSize(ns[0], SortByCountDescending(ns[1..]));
      SizeAllAppend([ns[0]], ns[1..]);
      assert [ns[0]] + ns[1..] == ns;
      assert [ns[0]][..0] == [];
    }
  }

  // ---------------------------------------------------------------------
  // The printed lines

  /** A printed line: a tree's `[count]frame` header, or a collapsed chain
      step that shows only a frame; `indent` is the number of leading tabs. */
  datatype Line = Header(indent: nat, count: int, frame: string) | Chain(indent: nat, frame: string)

  /** The text of a line: `{tabs}[{Count}]{Frame}` or `{tabs}{Frame}`. */
  function Format(l: Line): string {
    match l
    case Header(indent, count, frame) => Tabs(indent) + "[" + IntToString(count) + "]" + frame
    case Chain(indent, frame) => Tabs(indent) + frame
  }

  /** A line's text opens with exactly its indent in tabs; a header then
      shows the count in brackets, whose digits read back to the count when
      it is not negative, and the frame; a chain line shows the bare frame. */
  lemma FormatParts(l: Line)
    ensures |Format(l)| >= l.indent && Format(l)[..l.indent] == Tabs(l.indent)
    ensures l.Chain? ==> Format(l)[l.indent..] == l.frame
    ensures l.Header? ==> Format(l)[l.indent] == '[' && Format(l)[|Format(l)| - |l.frame|..] == l.frame
    ensures l.Header? && l.count >= 0 ==>
      var digits := Format(l)[l.indent + 1..|Format(l)| - |l.frame| - 1];
      IsDigits(digits) && ParseNat(digits) == l.count
  {
    if l.Header? {
      var digits := IntToString(l.count);
      assert Format(l) == Tabs(l.indent) + ("[" + digits + "]" + l.frame);
      assert Format(l)[l.indent + 1..|Format(l)| - |l.frame| - 1] == digits;
      IntToStringMagnitude(l.count);
      if l.count >= 0 {
        NatToStringRoundTrip(l.count);
      }
    } else {
      assert Format(l) == Tabs(l.indent) + l.frame;
    }
  }

  /** The strings written for a sequence of lines. */
  function Render(ls: seq<Line>): (r: seq<string>)
    ensures |r| == |ls|
  {
    if ls == [] then [] else Render(ls[..|ls| - 1]) + [Format(ls[|ls| - 1])]
  }

  lemma {:induction false} RenderAppend(a: seq<Line>, b: seq<Line>)
    ensures Render(a + b) == Render(a) + Render(b)
    decreases |b|
  {
    if b == [] {
      assert a + b == a;
    } else {
      RenderAppend(a, b[..|b| - 1]);
      assert (a + b)[..|a + b| - 1] == a + b[..|b| - 1];
    }
  }

  lemma {:induction false} RenderAt(ls: seq<Line>, i: nat)
    requires i < |ls|
    ensures Render(ls)[i] == Format(ls[i])
    decreases |ls|
  {
    if i < |ls| - 1 {
      RenderAt(ls[..|ls| - 1], i);
    }
  }

  /** `PrintMergedStackTrace(node, tabs)` as written: the header of `node`,
      then the collapsed chain and the children's trees. */
  function TreeLines(n: Node, d: nat): (ls: seq<Line>)
    ensures |ls| == Size(n)
    decreases Size(n), 1
  {
    [Header(d, n.count, n.frame)] + ChainLines(n, d)
  }

  /** The `while` loop and the loop over the children: while the node has a
      single child, a line with the frame of the node being left; then the
      trees of the last node's children, largest count first, one tab
      further in. */
  function ChainLines(n: Node, d: nat): (ls: seq<Line>)
    ensures |ls| == Size(n) - 1
    decreases Size(n), 0
  {
    if |n.children| == 1 then
      assert n.children[..|n.children| - 1] == [];
      assert SizeAll(n.children) == Size(n.children[0]);
      [Chain(d + 1, n.frame)] + ChainLines(n.children[0], d)
    else
      SortSize(n.children);
      ForestLines(SortByCountDescending(n.children), d + 1)
  }

  /** The trees of `ns`, in order, each at indent `d`. */
  function ForestLines(ns: seq<Node>, d: nat): (ls: seq<Line>)
    ensures |ls| == SizeAll(ns)
    decreases SizeAll(ns), 2
  {
    if ns == [] then []
    else ForestLines(ns[..|ns| - 1], d) + TreeLines(ns[|ns| - 1], d)
  }

  /** Below a tree's header, every line is indented further than the
      header. */
  lemma {:induction false} TreeIndents(n: Node, d: nat)
    ensures TreeLines(n, d)[0] == Header(d, n.count, n.frame)
    ensures forall i :: 1 <= i < |TreeLines(n, d)| ==> TreeLines(n, d)[i].indent > d
    decreases Size(n), 1
  {
    ChainIndents(n, d);
  }

  lemma {:induction false} ChainIndents(n: Node, d: nat)
    ensures forall i :: 0 <= i < |ChainLines(n, d)| ==> ChainLines(n, d)[i].indent > d
    decreases Size(n), 0
  {
    if |n.children| == 1 {
      assert n.children[..|n.children| - 1] == [];
      assert SizeAll(n.children) == Size(n.children[0]);
      ChainIndents(n.children[0], d);
    } else {
      SortSize(n.children);
      ForestIndents(SortByCountDescending(n.children), d + 1);
    }
  }

  lemma {:induction false} ForestIndents(ns: seq<Node>, d: nat)
    ensures forall i :: 0 <= i < |ForestLines(ns, d)| ==> ForestLines(ns, d)[i].indent >= d
    decreases SizeAll(ns), 2
  {
    if ns != [] {
      ForestIndents(ns[..|ns| - 1], d);
      TreeIndents(ns[|ns| - 1], d);
    }
  }

  /** The header line comes first. */
  lemma HeaderFirst(n: Node, d: nat)
    ensures Render(TreeLines(n, d)) ==
      [Tabs(d) + "[" + IntToString(n.count) + "]" + n.frame] + Render(ChainLines(n, d))
  {
    RenderAppend([Header(d, n.count, n.frame)], ChainLines(n, d));
    assert [Header(d, n.count, n.frame)][..0] == [];
  }

  /** One step down a chain of single children: the line for the node being
      left, then the rest of the chain. */
  lemma ChainStep(printed: seq<string>, cur: Node, tabs: nat, all: seq<string>)
    requires |cur.children| == 1
    requires printed + Render(ChainLines(cur, tabs)) == all
    ensures Size(cur.children[0]) < Size(cur)
    ensures (printed + ["\t" + Tabs(tabs) + cur.frame]) + Render(ChainLines(cur.children[0], tabs)) == all
  {
    assert cur.children[..|cur.children| - 1] == [];
    TabsStep(tabs);
    RenderAppend([Chain(tabs + 1, cur.frame)], ChainLines(cur.children[0], tabs));
  }

  /** Where the chain stops, the children's trees follow, sorted. */
  lemma ChainEnd(printed: seq<string>, cur: Node, tabs: nat, all: seq<string>, children: seq<string>)
    requires |cur.children| != 1
    requires printed + Render(ChainLines(cur, tabs)) == all
    requires children == Render(ForestLines(SortByCountDescending(cur.children), tabs + 1))
    ensures printed + children == all
  {
  }

  /** One more tree of a forest. */
  lemma ForestStep(printed: seq<string>, ns: seq<Node>, j: nat, d: nat, tree: seq<string>)
    requires j < |ns|
    requires printed == Render(ForestLines(ns[..j], d))
    requires tree == Render(TreeLines(ns[j], d))
    ensures printed + tree == Render(ForestLines(ns[..j + 1], d))
  {
    assert ns[..j + 1][..j] == ns[..j];
    RenderAppend(ForestLines(ns[..j], d), TreeLines(ns[j], d));
  }

  /** A forest printed up to its last tree is the whole forest printed. */
  lemma ForestDone(printed: seq<string>, ns: seq<Node>, d: nat)
    requires printed == Render(ForestLines(ns[..|ns|], d))
    ensures printed == Render(ForestLines(ns, d))
  {
    assert ns[..|ns|] == ns;
  }

  /** Every child the printer recurses into is smaller than its parent. */
  lemma SortedChildSmaller(cur: Node, x: Node)
    requires x in SortByCountDescending(cur.children)
    ensures Size(x) < Size(cur)
  {
    assert x in multiset(cur.children);
    SizeAllMember(cur.children, x);
  }

  /** `PrintMergedStackTrace`: prints the header, walks down the chain of
      single children reassigning `node`, then prints every child of the
      node it stopped at, sorted, one tab further in. */
  method PrintMergedStackTrace(node: Node, tabs: nat) returns (lines: seq<string>)
    ensures lines == Render(TreeLines(node, tabs))
    decreases Size(node)
  {
    lines := [Tabs(tabs) + "[" + IntToString(node.count) + "]" + node.frame];
    HeaderFirst(node, tabs);
    var cur := node;
    while |cur.children| == 1
      invariant Size(cur) <= Size(node)
      invariant lines + Render(ChainLines(cur, tabs)) == Render(TreeLines(node, tabs))
      decreases Size(cur)
    {
      ChainStep(lines, cur, tabs, Render(TreeLines(node, tabs)));
      lines := lines + ["\t" + Tabs(tabs) + cur.frame];
      cur := cur.children[0];
    }
    var sorted := SortByCountDescending(cur.children);
    var children := [];
    for j := 0 to |sorted|
      invariant children == Render(ForestLines(sorted[..j], tabs + 1))
    {
      SortedChildSmaller(cur, sorted[j]);
      var sub := PrintMergedStackTrace(sorted[j], tabs + 1);
      ForestStep(children, sorted, j, tabs + 1, sub);
      children := children + sub;
    }
    ForestDone(children, sorted, tabs + 1);
    ChainEnd(lines, cur, tabs, Render(TreeLines(node, tabs)), children);
    lines := lines + children;
  }

  // ---------------------------------------------------------------------
  // `MergeAndPrintStackTraces`

  /** The frame descriptions of one stack trace, outermost first. */
  function Descriptions(st: FrameWalk.StackTrace): (t: Trace)
    ensures |t| == |st.frames|
    ensures forall i :: 0 <= i < |t| ==> t[i] == st.frames[i].frameDescription
  {
    seq(|st.frames|, i requires 0 <= i < |st.frames| => st.frames[i].frameDescription)
  }

  /** `Where(st => st.Frames.Count > 0)` followed by the projection to
      descriptions: what the merge is given. */
  function MergeInput(sts: seq<FrameWalk.StackTrace>): (traces: seq<Trace>)
    ensures AllNonEmpty(traces)
    ensures |traces| <= |sts|
  {
    if sts == [] then []
    else
      var st := sts[|sts| - 1];
      MergeInput(sts[..|sts| - 1]) + (if |st.frames| > 0 then [Descriptions(st)] else [])
  }

  /** The positions of the stack traces that have at least one frame, in
      increasing order: the traces `Where(st => st.Frames.Count > 0)` keeps. */
  function Kept(sts: seq<FrameWalk.StackTrace>): (ks: seq<nat>)
    ensures forall j :: 0 <= j < |ks| ==> ks[j] < |sts| && |sts[ks[j]].frames| > 0
    ensures forall j, j' :: 0 <= j < j' < |ks| ==> ks[j] < ks[j']
    ensures forall k :: 0 <= k < |sts| && |sts[k].frames| > 0 ==> k in ks
  {
    if sts == [] then []
    else Kept(sts[..|sts| - 1]) + (if |sts[|sts| - 1].frames| > 0 then [|sts| - 1] else [])
  }

  /** Every trace with a frame reaches the merge, once and in input order,
      and no other trace does: the merge input is the descriptions of the
      kept traces, position by position. */
  lemma {:induction false} MergeInputFilters(sts: seq<FrameWalk.StackTrace>)
    ensures |MergeInput(sts)| == |Kept(sts)|
    ensures forall j :: 0 <= j < |Kept(sts)| ==> MergeInput(sts)[j] == Descriptions(sts[Kept(sts)[j]])
    decreases |sts|
  {
    if sts != [] {
      var sts' := sts[..|sts| - 1];
      MergeInputFilters(sts');
      forall j | 0 <= j < |Kept(sts')|
        ensures MergeInput(sts)[j] == Descriptions(sts[Kept(sts)[j]])
      {
        assert sts'[Kept(sts')[j]] == sts[Kept(sts')[j]];
      }
    }
  }

  /** Across filter and merge, the top-level counts add up to the number of
      stack traces that have a frame: each such thread is counted once. */
  lemma MergedThreadCount(sts: seq<FrameWalk.StackTrace>)
    ensures SumCounts(MergeStackTraces(MergeInput(sts))) == |Kept(sts)|
  {
    MergeInputFilters(sts);
    MergeConservesCount(MergeInput(sts));
  }

  /** Stack traces without frames do not change what is printed. */
  lemma EmptyTracesIgnored(sts: seq<FrameWalk.StackTrace>, st: FrameWalk.StackTrace)
    requires st.frames == []
    ensures MergeInput(sts + [st]) == MergeInput(sts)
    ensures MergeInput([st] + sts) == MergeInput(sts)
  {
    assert (sts + [st])[..|sts|] == sts;
    ConsEmpty(sts, st);
  }

  lemma {:induction false} ConsEmpty(sts: seq<FrameWalk.StackTrace>, st: FrameWalk.StackTrace)
    requires st.frames == []
    ensures MergeInput([st] + sts) == MergeInput(sts)
    decreases |sts|
  {
    if sts == [] {
      assert [st][..0] == [];
    } else {
      var sts' := sts[..|sts| - 1];
      ConsEmpty(sts', st);
      assert ([st] + sts)[..|[st] + sts| - 1] == [st] + sts';
    }
  }

  /** What `MergeAndPrintStackTraces` writes for a batch of stack traces. */
  function MergedOutput(sts: seq<FrameWalk.StackTrace>): seq<string> {
    Render(ForestLines(SortByCountDescending(MergeStackTraces(MergeInput(sts))), 0))
  }

  /** `MergeAndPrintStackTraces`: merge the non-empty traces, then print the
      trees largest count first. */
  method MergeAndPrintStackTraces(sts: seq<FrameWalk.StackTrace>) returns (lines: seq<string>)
    ensures lines == MergedOutput(sts)
  {
    var mergedStackTraces := MergeStackTraces(MergeInput(sts));
    var sorted := SortByCountDescending(mergedStackTraces);
    lines := [];
    for j := 0 to |sorted|
      invariant lines == Render(ForestLines(sorted[..j], 0))
    {
      var sub := PrintMergedStackTrace(sorted[j], 0);
      ForestStep(lines, sorted, j, 0, sub);
      lines := lines + sub;
    }
    ForestDone(lines, sorted, 0);
  }

  // ---------------------------------------------------------------------
  // What the printed forest shows

  /** The lines at indent exactly `d`. */
  function AtIndent(ls: seq<Line>, d: nat): (r: seq<Line>)
    ensures forall i :: 0 <= i < |r| ==> r[i].indent == d
  {
    if ls == [] then []
    else AtIndent(ls[..|ls| - 1], d) + (if ls[|ls| - 1].indent == d then [ls[|ls| - 1]] else [])
  }

  lemma {:induction false} AtIndentAppend(a: seq<Line>, b: seq<Line>, d: nat)
    ensures AtIndent(a + b, d) == AtIndent(a, d) + AtIndent(b, d)
    decreases |b|
  {
    if b == [] {
      assert a + b == a;
    } else {
      AtIndentAppend(a, b[..|b| - 1], d);
      assert (a + b)[..|a + b| - 1] == a + b[..|b| - 1];
    }
  }

  lemma {:induction false} AtIndentDeeper(ls: seq<Line>, d: nat)
    requires forall i :: 0 <= i < |ls| ==> ls[i].indent > d
    ensures AtIndent(ls, d) == []
    decreases |ls|
  {
    if ls != [] {
      AtIndentDeeper(ls[..|ls| - 1], d);
    }
  }

  /** The headers of a forest's trees. */
  function Headers(ns: seq<Node>, d: nat): (r: seq<Line>)
    ensures |r| == |ns|
    ensures forall i :: 0 <= i < |ns| ==> r[i] == Header(d, ns[i].count, ns[i].frame)
  {
    seq(|ns|, i requires 0 <= i < |ns| => Header(d, ns[i].count, ns[i].frame))
  }

  /** At its own indent a tree shows only its header. */
  lemma TreeAtIndent(n: Node, d: nat)
    ensures AtIndent(TreeLines(n, d), d) == [Header(d, n.count, n.frame)]
  {
    ChainIndents(n, d);
    AtIndentDeeper(ChainLines(n, d), d);
    AtIndentAppend([Header(d, n.count, n.frame)], ChainLines(n, d), d);
    assert [Header(d, n.count, n.frame)][..0] == [];
  }

  /** The lines at a forest's own indent are exactly its trees' headers, in
      order: everything else is indented further. */
  lemma {:induction false} ForestHeaders(ns: seq<Node>, d: nat)
    ensures AtIndent(ForestLines(ns, d), d) == Headers(ns, d)
    decreases |ns|
  {
    if ns != [] {
      ForestHeaders(ns[..|ns| - 1], d);
      TreeAtIndent(ns[|ns| - 1], d);
      AtIndentAppend(ForestLines(ns[..|ns| - 1], d), TreeLines(ns[|ns| - 1], d), d);
      assert Headers(ns, d) == Headers(ns[..|ns| - 1], d) + [Header(d, ns[|ns| - 1].count, ns[|ns| - 1].frame)];
    }
  }

  /** The unindented lines of the merged output are one header per merged
      tree, in descending order of count, ties in the merge's order (which
      is the order of first occurrence). */
  lemma MergedTopLevel(sts: seq<FrameWalk.StackTrace>)
    ensures var roots := MergeStackTraces(MergeInput(sts));
      var sorted := SortByCountDescending(roots);
      AtIndent(ForestLines(sorted, 0), 0) == Headers(sorted, 0) &&
      SortedByCountDescending(sorted) &&
      multiset(sorted) == multiset(roots) &&
      (forall c :: WithCount(sorted, c) == WithCount(roots, c))
  {
    var roots := MergeStackTraces(MergeInput(sts));
    var sorted := SortByCountDescending(roots);
    ForestHeaders(sorted, 0);
    SortSorted(roots);
    forall c
      ensures WithCount(sorted, c) == WithCount(roots, c)
    {
      SortStable(roots, c);
    }
  }

  // ---------------------------------------------------------------------
  // The chain collapse: as written against as evidently intended

  /** The frames the lines show, in order. */
  function Labels(ls: seq<Line>): (r: seq<string>)
    ensures |r| == |ls|
    ensures forall i :: 0 <= i < |ls| ==> r[i] == ls[i].frame
  {
    seq(|ls|, i requires 0 <= i < |ls| => ls[i].frame)
  }

  /** As written, leaving a single-child node prints that node's own label
      again: the line after the header repeats the header's frame. */
  lemma ChainRepeatsHeaderLabel(n: Node, d: nat)
    requires |n.children| == 1
    ensures TreeLines(n, d)[0] == Header(d, n.count, n.frame)
    ensures |TreeLines(n, d)| > 1 && TreeLines(n, d)[1] == Chain(d + 1, n.frame)
  {
    assert n.children[..|n.children| - 1] == [];
  }

  /** `x` (count 2) with the single child `y` (count 2), which has the
      children `z` and `w` (count 1 each). */
  function ChainExample(x: string, y: string, z: string, w: string): Node {
    Node(x, 2, [Node(y, 2, [Node(z, 1, []), Node(w, 1, [])])])
  }

  /** A leaf prints as its header alone. */
  lemma LeafLines(n: Node, d: nat)
    requires n.children == []
    ensures TreeLines(n, d) == [Header(d, n.count, n.frame)]
  {
    assert ChainLines(n, d) == [];
  }

  /** Two leaves of equal count keep their order. */
  lemma TwoLeavesLines(a: Node, b: Node, d: nat)
    requires a.children == [] && b.children == [] && a.count == b.count
    ensures ForestLines(SortByCountDescending([a, b]), d) == [Header(d, a.count, a.frame), Header(d, b.count, b.frame)]
  {
    assert SortByCountDescending([b]) == [b] by {
      assert [b][1..] == [];
    }
    assert SortByCountDescending([a, b]) == [a, b] by {
      assert [a, b][1..] == [b];
    }
    LeafLines(a, d);
    LeafLines(b, d);
    assert ForestLines([a], d) == [Header(d, a.count, a.frame)] by {
      assert [a][..0] == [];
    }
    assert [a, b][..1] == [a];
  }

  /** The example's lines, as written. */
  lemma ChainExampleLines(x: string, y: string, z: string, w: string)
    ensures TreeLines(ChainExample(x, y, z, w), 0) ==
      [Header(0, 2, x), Chain(1, x), Header(1, 1, z), Header(1, 1, w)]
  {
    var yn := Node(y, 2, [Node(z, 1, []), Node(w, 1, [])]);
    TwoLeavesLines(Node(z, 1, []), Node(w, 1, []), 1);
    assert ChainLines(yn, 0) == [Header(1, 1, z), Header(1, 1, w)];
    assert ChainExample(x, y, z, w).children == [yn];
  }

  /** As written, the example prints `x` twice and never prints `y`. */
  lemma ChainExampleAsWritten(x: string, y: string, z: string, w: string)
    requires y != x && y != z && y != w
    ensures Render(TreeLines(ChainExample(x, y, z, w), 0)) == ["[2]" + x, "\t" + x, "\t[1]" + z, "\t[1]" + w]
    ensures Labels(TreeLines(ChainExample(x, y, z, w), 0)) == [x, x, z, w]
    ensures y !in Labels(TreeLines(ChainExample(x, y, z, w), 0))
  {
    ChainExampleLines(x, y, z, w);
    var ls := [Header(0, 2, x), Chain(1, x), Header(1, 1, z), Header(1, 1, w)];
    assert Tabs(0) == "" && Tabs(1) == "\t";
    assert IntToString(2) == "2" && IntToString(1) == "1";
    RenderAt(ls, 0);
    RenderAt(ls, 1);
    RenderAt(ls, 2);
    RenderAt(ls, 3);
    assert Render(ls) == [Format(ls[0]), Format(ls[1]), Format(ls[2]), Format(ls[3])];
    assert Format(ls[0]) == "[2]" + x;
    assert Format(ls[1]) == "\t" + x;
    assert Format(ls[2]) == "\t[1]" + z;
    assert Format(ls[3]) == "\t[1]" + w;
    assert Labels(ls) == [x, x, z, w];
  }

  /** Every label of a tree once, header first, children in printing order:
      what the collapsed print evidently means to show. */
  function Preorder(n: Node): (r: seq<string>)
    ensures |r| == Size(n)
    decreases Size(n), 1
  {
    SortSize(n.children);
    [n.frame] + PreorderAll(SortByCountDescending(n.children))
  }

  function PreorderAll(ns: seq<Node>): (r: seq<string>)
    ensures |r| == SizeAll(ns)
    decreases SizeAll(ns), 2
  {
    if ns == [] then [] else PreorderAll(ns[..|ns| - 1]) + Preorder(ns[|ns| - 1])
  }

  /** The print with the chain collapse corrected: leaving a single-child
      node prints the child's label. */
  function IntendedTreeLines(n: Node, d: nat): (ls: seq<Line>)
    ensures |ls| == Size(n)
    decreases Size(n), 1
  {
    [Header(d, n.count, n.frame)] + IntendedChainLines(n, d)
  }

  function IntendedChainLines(n: Node, d: nat): (ls: seq<Line>)
    ensures |ls| == Size(n) - 1
    decreases Size(n), 0
  {
    if |n.children| == 1 then
      assert n.children[..|n.children| - 1] == [];
      assert SizeAll(n.children) == Size(n.children[0]);
      [Chain(d + 1, n.children[0].frame)] + IntendedChainLines(n.children[0], d)
    else
      SortSize(n.children);
      IntendedForestLines(SortByCountDescending(n.children), d + 1)
  }

  function IntendedForestLines(ns: seq<Node>, d: nat): (ls: seq<Line>)
    ensures |ls| == SizeAll(ns)
    decreases SizeAll(ns), 2
  {
    if ns == [] then []
    else IntendedForestLines(ns[..|ns| - 1], d) + IntendedTreeLines(ns[|ns| - 1], d)
  }

  lemma LabelsAppend(a: seq<Line>, b: seq<Line>)
    ensures Labels(a + b) == Labels(a) + Labels(b)
  {
  }

  /** Corrected, the print shows every node of the tree exactly once, in
      preorder. */
  lemma {:induction false} IntendedTreeLabels(n: Node, d: nat)
    ensures Labels(IntendedTreeLines(n, d)) == Preorder(n)
    decreases Size(n), 1
  {
    IntendedChainLabels(n, d);
    LabelsAppend([Header(d, n.count, n.frame)], IntendedChainLines(n, d));
  }

  lemma {:induction false} IntendedChainLabels(n: Node, d: nat)
    ensures Labels(IntendedChainLines(n, d)) == PreorderAll(SortByCountDescending(n.children))
    decreases Size(n), 0
  {
    SortSize(n.children);
    if |n.children| == 1 {
      var c := n.children[0];
      assert n.children[..|n.children| - 1] == [];
      assert SizeAll(n.children) == Size(c);
      assert n.children == [c];
      assert SortByCountDescending(n.children) == [c];
      assert PreorderAll([c]) == Preorder(c) by {
        assert [c][..0] == [];
      }
      IntendedChainLabels(c, d);
      LabelsAppend([Chain(d + 1, c.frame)], IntendedChainLines(c, d));
    } else {
      IntendedForestLabels(SortByCountDescending(n.children), d + 1);
    }
  }

  lemma {:induction false} IntendedForestLabels(ns: seq<Node>, d: nat)
    ensures Labels(IntendedForestLines(ns, d)) == PreorderAll(ns)
    decreases SizeAll(ns), 2
  {
    if ns != [] {
      IntendedForestLabels(ns[..|ns| - 1], d);
      IntendedTreeLabels(ns[|ns| - 1], d);
      LabelsAppend(IntendedForestLines(ns[..|ns| - 1], d), IntendedTreeLines(ns[|ns| - 1], d));
    }
  }
}
