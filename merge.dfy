/** `MergeStackTraces`: folds a batch of stack traces, each a non-empty
    sequence of frame descriptions, into a counted prefix tree. The traces
    are grouped by their first frame, in the order in which the first frames
    first occur (LINQ's `GroupBy`); each group becomes one node whose count
    is the size of the group and whose children are the merge of the tails
    of the group's traces that have more than one frame. */
module MergeEngine {

  /** `MergedStackTraceNode`. */
  datatype Node = Node(frame: string, count: int, children: seq<Node>)

  /** A stack trace as the merge sees it: its frame descriptions. */
  type Trace = seq<string>

  /** `First()` throws on an empty trace; every caller filters those out. */
  predicate AllNonEmpty(traces: seq<Trace>) {
    forall i :: 0 <= i < |traces| ==> traces[i] != []
  }

  predicate Distinct(s: seq<string>) {
    forall i, j :: 0 <= i < j < |s| ==> s[i] != s[j]
  }

  /** The first frame of every trace, in input order. */
  function Firsts(traces: seq<Trace>): (r: seq<string>)
    requires AllNonEmpty(traces)
    ensures |r| == |traces|
    ensures forall i :: 0 <= i < |traces| ==> r[i] == traces[i][0]
  {
    seq(|traces|, i requires 0 <= i < |traces| => traces[i][0])
  }

  /** The distinct elements of `s`, each where it first occurs: the keys of
      `GroupBy`, in the order `GroupBy` yields its groups. */
  function Dedup(s: seq<string>): (r: seq<string>)
    ensures Distinct(r)
    ensures |r| <= |s|
    ensures forall x :: x in r <==> x in s
  {
    if s == [] then []
    else
      var d := Dedup(s[..|s| - 1]);
      assert forall x :: x in s <==> x in s[..|s| - 1] || x == s[|s| - 1];
      if s[|s| - 1] in d then d else d + [s[|s| - 1]]
  }

  /** The traces whose first frame is `key`, in input order. */
  function Group(traces: seq<Trace>, key: string): (g: seq<Trace>)
    ensures |g| <= |traces|
    ensures forall i :: 0 <= i < |g| ==> g[i] != [] && g[i][0] == key
  {
    if traces == [] then []
    else
      var t := traces[|traces| - 1];
      Group(traces[..|traces| - 1], key) + (if t != [] && t[0] == key then [t] else [])
  }

  /** A key taken from the first frames has a non-empty group. */
  lemma GroupHasKey(traces: seq<Trace>, key: string)
    requires AllNonEmpty(traces)
    requires key in Firsts(traces)
    ensures |Group(traces, key)| > 0
  {
    var i :| 0 <= i < |traces| && Firsts(traces)[i] == key;
    GroupMembers(traces, key);
    assert traces[i] in traces;
  }

  lemma {:induction false} GroupMembers(traces: seq<Trace>, key: string)
    ensures forall t :: t in Group(traces, key) <==> t in traces && t != [] && t[0] == key
    decreases |traces|
  {
    if traces != [] {
      var t := traces[|traces| - 1];
      GroupMembers(traces[..|traces| - 1], key);
      assert forall u :: u in traces <==> u in traces[..|traces| - 1] || u == t;
    }
  }

  /** `st.Count > 1` members of a group, each without its first frame. */
  function Tails(g: seq<Trace>): (r: seq<Trace>)
    ensures |r| <= |g|
    ensures forall i :: 0 <= i < |r| ==> r[i] != []
  {
    if g == [] then []
    else
      var t := g[|g| - 1];
      Tails(g[..|g| - 1]) + (if |t| > 1 then [t[1..]] else [])
  }

  /** Every tail is a member of the group without its first frame. */
  lemma {:induction false} TailsFrom(g: seq<Trace>)
    ensures forall i :: 0 <= i < |Tails(g)| ==> exists j :: 0 <= j < |g| && |g[j]| > 1 && Tails(g)[i] == g[j][1..]
    decreases |g|
  {
    if g != [] {
      var g' := g[..|g| - 1];
      var r := Tails(g);
      TailsFrom(g');
      assert r == Tails(g') + (if |g[|g| - 1]| > 1 then [g[|g| - 1][1..]] else []);
      forall i | 0 <= i < |Tails(g)|
        ensures exists j :: 0 <= j < |g| && |g[j]| > 1 && Tails(g)[i] == g[j][1..]
      {
        if i < |Tails(g')| {
          var j :| 0 <= j < |g'| && |g'[j]| > 1 && Tails(g')[i] == g'[j][1..];
          assert g[j] == g'[j] && Tails(g)[i] == Tails(g')[i];
        } else {
          assert Tails(g)[i] == g[|g| - 1][1..] && |g[|g| - 1]| > 1;
        }
      }
    } else {
      assert Tails(g) == [];
    }
  }

  /** Total number of frames in a batch: what every recursive call shrinks. */
  function SumLen(traces: seq<Trace>): nat {
    if traces == [] then 0 else SumLen(traces[..|traces| - 1]) + |traces[|traces| - 1]|
  }

  function SumCounts(nodes: seq<Node>): int {
    if nodes == [] then 0 else SumCounts(nodes[..|nodes| - 1]) + nodes[|nodes| - 1].count
  }

  /** `MergeStackTraces`: at most one node per trace, none exactly when
      there are no traces, every node counting at least one trace, and no
      two nodes of one level with the same frame. */
  function MergeStackTraces(traces: seq<Trace>): (nodes: seq<Node>)
    requires AllNonEmpty(traces)
    ensures |nodes| <= |traces|
    ensures nodes == [] <==> traces == []
    ensures forall i :: 0 <= i < |nodes| ==> nodes[i].count >= 1
    ensures forall i, j :: 0 <= i < j < |nodes| ==> nodes[i].frame != nodes[j].frame
    decreases SumLen(traces), 1, 0
  {
    MergeGroups(traces, Dedup(Firsts(traces)))
  }

  /** One node per key, the node of `key` built from the group of `key`. */
  function MergeGroups(traces: seq<Trace>, keys: seq<string>): (nodes: seq<Node>)
    requires AllNonEmpty(traces)
    requires forall k :: k in keys ==> k in Firsts(traces)
    ensures |nodes| == |keys|
    ensures forall i :: 0 <= i < |nodes| ==> nodes[i].frame == keys[i] && nodes[i].count >= 1
    decreases SumLen(traces), 0, |keys| + 1
  {
    if keys == [] then []
    else MergeGroups(traces, keys[..|keys| - 1]) + [GroupNode(traces, keys[|keys| - 1])]
  }

  /** The node of one group: its size, and the merge of its tails below. */
  function GroupNode(traces: seq<Trace>, key: string): (n: Node)
    requires AllNonEmpty(traces)
    requires key in Firsts(traces)
    ensures n.frame == key
    ensures 1 <= n.count <= |traces|
    decreases SumLen(traces), 0, 0
  {
    var g := Group(traces, key);
    GroupHasKey(traces, key);
    TailsShorter(traces, key);
    Node(key, |g|, MergeStackTraces(Tails(g)))
  }

  // ---------------------------------------------------------------------
  // Termination: the tails of a group hold fewer frames than the batch

  lemma {:induction false} GroupSumLen(traces: seq<Trace>, key: string)
    ensures SumLen(Group(traces, key)) <= SumLen(traces)
    decreases |traces|
  {
    if traces != [] {
      GroupSumLen(traces[..|traces| - 1], key);
      var t := traces[|traces| - 1];
      var g' := Group(traces[..|traces| - 1], key);
      if t != [] && t[0] == key {
        assert (g' + [t])[..|g' + [t]| - 1] == g';
      } else {
        assert g' + [] == g';
      }
    }
  }

  lemma {:induction false} TailsSumLen(g: seq<Trace>)
    requires AllNonEmpty(g)
    ensures SumLen(Tails(g)) == SumLen(g) - |g|
    decreases |g|
  {
    if g != [] {
      var t := g[|g| - 1];
      var r' := Tails(g[..|g| - 1]);
      TailsSumLen(g[..|g| - 1]);
      if |t| > 1 {
        assert (r' + [t[1..]])[..|r' + [t[1..]]| - 1] == r';
      } else {
        assert r' + [] == r';
      }
    }
  }

  lemma TailsShorter(traces: seq<Trace>, key: string)
    requires AllNonEmpty(traces)
    requires key in Firsts(traces)
    ensures Group(traces, key) != []
    ensures SumLen(Tails(Group(traces, key))) < SumLen(traces)
  {
    var q :| 0 <= q < |traces| && Firsts(traces)[q] == key;
    GroupMembers(traces, key);
    assert traces[q] in Group(traces, key);
    GroupSumLen(traces, key);
    TailsSumLen(Group(traces, key));
  }

  // ---------------------------------------------------------------------
  // The shape of the merge

  lemma {:induction false} MergeGroupsAt(traces: seq<Trace>, keys: seq<string>)
    requires AllNonEmpty(traces)
    requires forall k :: k in keys ==> k in Firsts(traces)
    ensures |MergeGroups(traces, keys)| == |keys|
    ensures forall i :: 0 <= i < |keys| ==> MergeGroups(traces, keys)[i] == GroupNode(traces, keys[i])
    decreases |keys|
  {
    if keys != [] {
      var keys' := keys[..|keys| - 1];
      var key := keys[|keys| - 1];
      MergeGroupsAt(traces, keys');
      var ns := MergeGroups(traces, keys);
      assert ns == MergeGroups(traces, keys') + [GroupNode(traces, key)];
      forall i | 0 <= i < |keys|
        ensures ns[i] == GroupNode(traces, keys[i])
      {
        if i < |keys'| {
          assert ns[i] == MergeGroups(traces, keys')[i];
          assert keys'[i] == keys[i];
        }
      }
    }
  }

  /** LINQ's `GroupBy` keys are the first occurrences, in order. */
  lemma {:induction false} DedupFirstOccurrence(s: seq<string>)
    ensures forall i, j, q :: 0 <= i < j < |Dedup(s)| && 0 <= q < |s| && s[q] == Dedup(s)[j] ==>
      Dedup(s)[i] in s[..q]
    decreases |s|
  {
    if s != [] {
      var s' := s[..|s| - 1];
      var x := s[|s| - 1];
      var d', d := Dedup(s'), Dedup(s);
      DedupFirstOccurrence(s');
      forall i, j, q | 0 <= i < j < |d| && 0 <= q < |s| && s[q] == d[j]
        ensures d[i] in s[..q]
      {
        if q < |s'| {
          assert s[..q] == s'[..q] && s[q] == s'[q];
          assert s'[q] in s';
          var k :| 0 <= k < |d'| && d'[k] == d[j];
          assert d[k] == d'[k];
          assert k == j;
          assert d[i] == d'[i] && d[j] == d'[j];
        } else {
          assert s[..q] == s';
          assert d[i] == d'[i];
        }
      }
    }
  }

  // ---------------------------------------------------------------------
  // Counting occurrences

  /** How many times `x` occurs in `s`: the multiplicity `multiset(s)[x]`,
      written as a recursion so that each step of a proof unfolds it once. */
  function Occ<T(==)>(s: seq<T>, x: T): nat {
    if s == [] then 0 else Occ(s[..|s| - 1], x) + (if s[|s| - 1] == x then 1 else 0)
  }

  lemma OccSnoc<T>(s: seq<T>, y: T, x: T)
    ensures Occ(s + [y], x) == Occ(s, x) + (if y == x then 1 else 0)
  {
    assert (s + [y])[..|s|] == s;
  }

  lemma {:induction false} OccAppend<T>(a: seq<T>, b: seq<T>, x: T)
    ensures Occ(a + b, x) == Occ(a, x) + Occ(b, x)
    decreases |b|
  {
    if b != [] {
      var b' := b[..|b| - 1];
      OccAppend(a, b', x);
      assert a + b == (a + b') + [b[|b| - 1]];
      OccSnoc(a + b', b[|b| - 1], x);
    } else {
      assert a + b == a;
    }
  }

  lemma {:induction false} OccPositive<T>(s: seq<T>, x: T)
    ensures Occ(s, x) > 0 <==> x in s
    decreases |s|
  {
    if s != [] {
      var s' := s[..|s| - 1];
      OccPositive(s', x);
      assert s == s' + [s[|s| - 1]];
    }
  }

  lemma {:induction false} OccMultiset<T>(s: seq<T>, x: T)
    ensures Occ(s, x) == multiset(s)[x]
    decreases |s|
  {
    if s != [] {
      var s' := s[..|s| - 1];
      OccMultiset(s', x);
      assert s == s' + [s[|s| - 1]];
    }
  }

  /** The number of traces whose first frame is `key`. */
  lemma {:induction false} GroupSize(traces: seq<Trace>, key: string)
    requires AllNonEmpty(traces)
    ensures |Group(traces, key)| == Occ(Firsts(traces), key)
    decreases |traces|
  {
    if traces != [] {
      var tr' := traces[..|traces| - 1];
      var t := traces[|traces| - 1];
      GroupSize(tr', key);
      assert Firsts(traces) == Firsts(tr') + [t[0]];
      OccSnoc(Firsts(tr'), t[0], key);
    }
  }

  /** The top-level frames of the merge are the `GroupBy` keys. */
  lemma MergeFrames(traces: seq<Trace>)
    requires AllNonEmpty(traces)
    ensures |MergeStackTraces(traces)| == |Dedup(Firsts(traces))|
    ensures forall i :: 0 <= i < |MergeStackTraces(traces)| ==>
      MergeStackTraces(traces)[i].frame == Dedup(Firsts(traces))[i]
  {
    var keys := Dedup(Firsts(traces));
    MergeGroupsAt(traces, keys);
    forall i | 0 <= i < |keys|
      ensures MergeGroups(traces, keys)[i].frame == keys[i]
    {
      assert keys[i] in Firsts(traces);
      assert MergeGroups(traces, keys)[i] == GroupNode(traces, keys[i]);
    }
  }

  /** No two top-level nodes share a frame. */
  lemma MergeDistinctFrames(traces: seq<Trace>)
    requires AllNonEmpty(traces)
    ensures var r := MergeStackTraces(traces);
      forall i, j :: 0 <= i < j < |r| ==> r[i].frame != r[j].frame
  {
    MergeFrames(traces);
  }

  /** Every trace's first frame has a top-level node, so the merge is empty
      exactly when the batch is. */
  lemma MergeCoversFirsts(traces: seq<Trace>)
    requires AllNonEmpty(traces)
    ensures var r := MergeStackTraces(traces);
      (forall q :: 0 <= q < |traces| ==> exists i :: 0 <= i < |r| && r[i].frame == traces[q][0]) &&
      (r == [] <==> traces == [])
  {
    var f := Firsts(traces);
    var keys := Dedup(f);
    var r := MergeStackTraces(traces);
    MergeFrames(traces);
    forall q | 0 <= q < |traces|
      ensures exists i :: 0 <= i < |r| && r[i].frame == traces[q][0]
    {
      assert f[q] in keys;
      var i :| 0 <= i < |keys| && keys[i] == f[q];
      assert r[i].frame == traces[q][0];
    }
    if traces == [] {
      assert f == [];
    } else {
      assert f[0] in keys;
    }
  }

  /** Every top-level node stands for the first frame of some trace. */
  lemma MergeFramesOccur(traces: seq<Trace>)
    requires AllNonEmpty(traces)
    ensures var r := MergeStackTraces(traces);
      forall i :: 0 <= i < |r| ==> exists q :: 0 <= q < |traces| && traces[q][0] == r[i].frame
  {
    var f := Firsts(traces);
    var keys := Dedup(f);
    var r := MergeStackTraces(traces);
    MergeFrames(traces);
    forall i | 0 <= i < |r|
      ensures exists q :: 0 <= q < |traces| && traces[q][0] == r[i].frame
    {
      assert keys[i] in f;
      var q :| 0 <= q < |f| && f[q] == keys[i];
      assert traces[q][0] == r[i].frame;
    }
  }

  /** The top-level nodes come in the order in which their frames first
      occur: a node's frame starts some trace before any trace that starts
      with the frame of a later node. */
  lemma MergeFirstOccurrenceOrder(traces: seq<Trace>)
    requires AllNonEmpty(traces)
    ensures var r := MergeStackTraces(traces);
      forall i, j, q :: 0 <= i < j < |r| && 0 <= q < |traces| && traces[q][0] == r[j].frame ==>
        exists p :: 0 <= p < q && traces[p][0] == r[i].frame
  {
    var f := Firsts(traces);
    var keys := Dedup(f);
    var r := MergeStackTraces(traces);
    MergeFrames(traces);
    DedupFirstOccurrence(f);
    forall i, j, q | 0 <= i < j < |r| && 0 <= q < |traces| && traces[q][0] == r[j].frame
      ensures exists p :: 0 <= p < q && traces[p][0] == r[i].frame
    {
      assert f[q] == keys[j];
      assert keys[i] in f[..q];
      var p :| 0 <= p < q && f[..q][p] == keys[i];
      assert traces[p][0] == r[i].frame;
    }
  }

  /** Each top-level node counts the traces that start with its frame. */
  lemma MergeCounts(traces: seq<Trace>)
    requires AllNonEmpty(traces)
    ensures var r := MergeStackTraces(traces);
      forall i :: 0 <= i < |r| ==> 1 <= r[i].count == Occ(Firsts(traces), r[i].frame)
  {
    var keys := Dedup(Firsts(traces));
    var r := MergeStackTraces(traces);
    MergeGroupsAt(traces, keys);
    forall i | 0 <= i < |r|
      ensures 1 <= r[i].count == Occ(Firsts(traces), r[i].frame)
    {
      assert keys[i] in Firsts(traces);
      TailsShorter(traces, keys[i]);
      GroupSize(traces, keys[i]);
    }
  }

  // ---------------------------------------------------------------------
  // Count conservation

  /** How many elements of `s` are among the keys. */
  function Occurrences(keys: seq<string>, s: seq<string>): nat {
    if keys == [] then 0 else Occurrences(keys[..|keys| - 1], s) + Occ(s, keys[|keys| - 1])
  }

  lemma {:induction false} OccurrencesAdd(keys: seq<string>, s: seq<string>, x: string)
    requires Distinct(keys)
    ensures Occurrences(keys, s + [x]) == Occurrences(keys, s) + (if x in keys then 1 else 0)
    decreases |keys|
  {
    if keys != [] {
      var keys' := keys[..|keys| - 1];
      OccurrencesAdd(keys', s, x);
      OccSnoc(s, x, keys[|keys| - 1]);
      assert x in keys <==> x in keys' || x == keys[|keys| - 1];
    }
  }

  /** Each element of `s` is counted once among its distinct elements. */
  lemma {:induction false} DedupCovers(s: seq<string>)
    ensures Occurrences(Dedup(s), s) == |s|
    decreases |s|
  {
    if s != [] {
      var s' := s[..|s| - 1];
      var x := s[|s| - 1];
      var d' := Dedup(s');
      assert s == s' + [x];
      DedupCovers(s');
      OccurrencesAdd(d', s', x);
      if x !in d' {
        assert (d' + [x])[..|d' + [x]| - 1] == d';
        OccPositive(s', x);
        OccSnoc(s', x, x);
      }
    }
  }

  lemma {:induction false} SumCountsGroups(traces: seq<Trace>, keys: seq<string>)
    requires AllNonEmpty(traces)
    requires forall k :: k in keys ==> k in Firsts(traces)
    ensures SumCounts(MergeGroups(traces, keys)) == Occurrences(keys, Firsts(traces))
    decreases |keys|
  {
    if keys != [] {
      var keys' := keys[..|keys| - 1];
      SumCountsGroups(traces, keys');
      GroupSize(traces, keys[|keys| - 1]);
      var ns := MergeGroups(traces, keys);
      assert ns[..|ns| - 1] == MergeGroups(traces, keys');
    }
  }

  /** Every trace is counted exactly once at the top level. */
  lemma MergeConservesCount(traces: seq<Trace>)
    requires AllNonEmpty(traces)
    ensures SumCounts(MergeStackTraces(traces)) == |traces|
  {
    SumCountsGroups(traces, Dedup(Firsts(traces)));
    DedupCovers(Firsts(traces));
  }

  // ---------------------------------------------------------------------
  // Round trip: the tree gives back the batch

  function Repeat(t: Trace, c: int): (r: seq<Trace>)
    decreases c
  {
    if c <= 0 then [] else Repeat(t, c - 1) + [t]
  }

  /** Every trace of `e` with `frame` put in front. */
  function Prefixed(frame: string, e: seq<Trace>): (r: seq<Trace>) {
    if e == [] then [] else Prefixed(frame, e[..|e| - 1]) + [[frame] + e[|e| - 1]]
  }

  /** The traces a forest stands for, node by node. */
  function Expand(nodes: seq<Node>): seq<Trace>
    decreases nodes
  {
    if nodes == [] then [] else Expand(nodes[..|nodes| - 1]) + NodeExpand(nodes[|nodes| - 1])
  }

  /** The traces a node stands for: its own path `count - SumCounts(children)`
      times (the traces ending there), and every trace its children stand
      for, behind its frame. */
  function NodeExpand(n: Node): seq<Trace>
    decreases n
  {
    Repeat([n.frame], n.count - SumCounts(n.children)) + Prefixed(n.frame, Expand(n.children))
  }

  /** How often `x` occurs in the groups of the keys together. */
  function GroupsOcc(traces: seq<Trace>, keys: seq<string>, x: Trace): nat {
    if keys == [] then 0
    else GroupsOcc(traces, keys[..|keys| - 1], x) + Occ(Group(traces, keys[|keys| - 1]), x)
  }

  lemma {:induction false} RepeatCount(t: Trace, c: int, x: Trace)
    ensures Occ(Repeat(t, c), x) == if x == t && c > 0 then c else 0
    decreases c
  {
    if c > 0 {
      RepeatCount(t, c - 1, x);
      OccSnoc(Repeat(t, c - 1), t, x);
    }
  }

  lemma {:induction false} PrefixedCount(frame: string, e: seq<Trace>, x: Trace)
    ensures Occ(Prefixed(frame, e), x) == if x != [] && x[0] == frame then Occ(e, x[1..]) else 0
    decreases |e|
  {
    if e != [] {
      var e' := e[..|e| - 1];
      var y := e[|e| - 1];
      PrefixedCount(frame, e', x);
      OccSnoc(Prefixed(frame, e'), [frame] + y, x);
      assert e == e' + [y];
      OccSnoc(e', y, if x == [] then x else x[1..]);
      assert ([frame] + y)[1..] == y;
      if x != [] && x[0] == frame {
        assert x == [frame] + x[1..];
      }
    }
  }

  lemma {:induction false} GroupCount(traces: seq<Trace>, key: string, x: Trace)
    ensures Occ(Group(traces, key), x) == if x != [] && x[0] == key then Occ(traces, x) else 0
    decreases |traces|
  {
    if traces != [] {
      var tr' := traces[..|traces| - 1];
      var t := traces[|traces| - 1];
      GroupCount(tr', key, x);
      assert traces == tr' + [t];
      OccSnoc(tr', t, x);
      if t != [] && t[0] == key {
        OccSnoc(Group(tr', key), t, x);
      } else {
        assert Group(traces, key) == Group(tr', key);
      }
    }
  }

  /** A trace occurs in a group as often as it is a one-frame trace of the
      group, or as its tail occurs among the group's tails. */
  lemma {:induction false} GroupOccTails(g: seq<Trace>, key: string, x: Trace)
    requires forall i :: 0 <= i < |g| ==> g[i] != [] && g[i][0] == key
    ensures Occ(g, x) == (if x == [key] then |g| - |Tails(g)| else 0)
      + (if x != [] && x[0] == key then Occ(Tails(g), x[1..]) else 0)
    decreases |g|
  {
    if g != [] {
      var g' := g[..|g| - 1];
      var t := g[|g| - 1];
      GroupOccTails(g', key, x);
      assert t == [key] + t[1..];
      if |t| > 1 {
        assert Tails(g) == Tails(g') + [t[1..]];
        if x != [] && x[0] == key {
          assert x == [key] + x[1..];
          OccSnoc(Tails(g'), t[1..], x[1..]);
        }
      } else {
        assert Tails(g) == Tails(g') && t == [key];
      }
    }
  }

  lemma {:induction false} GroupsOccCount(traces: seq<Trace>, keys: seq<string>, x: Trace)
    requires Distinct(keys)
    ensures GroupsOcc(traces, keys, x) == if x != [] && x[0] in keys then Occ(traces, x) else 0
    decreases |keys|
  {
    if keys != [] {
      var keys' := keys[..|keys| - 1];
      GroupsOccCount(traces, keys', x);
      GroupCount(traces, keys[|keys| - 1], x);
      assert x != [] ==> (x[0] in keys <==> x[0] in keys' || x[0] == keys[|keys| - 1]);
    }
  }

  /** The groups of the distinct first frames partition the batch. */
  lemma Partition(traces: seq<Trace>, x: Trace)
    requires AllNonEmpty(traces)
    ensures Occ(traces, x) == GroupsOcc(traces, Dedup(Firsts(traces)), x)
  {
    GroupsOccCount(traces, Dedup(Firsts(traces)), x);
    OccPositive(traces, x);
    if x in traces {
      var q :| 0 <= q < |traces| && traces[q] == x;
      assert Firsts(traces)[q] == x[0];
    }
  }

  /** Expanding the merge gives back every trace as often as the batch
      holds it. */
  lemma {:induction false} MergeRoundTripAt(traces: seq<Trace>, x: Trace)
    requires AllNonEmpty(traces)
    ensures Occ(Expand(MergeStackTraces(traces)), x) == Occ(traces, x)
    decreases SumLen(traces), 1, 0
  {
    MergeGroupsRoundTrip(traces, Dedup(Firsts(traces)), x);
    Partition(traces, x);
  }

  /** The last key's node, written out. */
  lemma MergeGroupsSnoc(traces: seq<Trace>, keys: seq<string>)
    requires AllNonEmpty(traces)
    requires forall k :: k in keys ==> k in Firsts(traces)
    requires keys != []
    ensures var key := keys[|keys| - 1];
      var g := Group(traces, key);
      Group(traces, key) != [] &&
      SumLen(Tails(g)) < SumLen(traces) &&
      MergeGroups(traces, keys) == MergeGroups(traces, keys[..|keys| - 1]) + [Node(key, |g|, MergeStackTraces(Tails(g)))]
  {
    TailsShorter(traces, keys[|keys| - 1]);
  }

  lemma ExpandSnoc(ns: seq<Node>, n: Node)
    ensures Expand(ns + [n]) == Expand(ns) + NodeExpand(n)
  {
    assert (ns + [n])[..|ns|] == ns;
  }

  /** A group's node stands for the group, given children that stand for
      the group's tails. */
  lemma NodeOcc(g: seq<Trace>, key: string, children: seq<Node>, x: Trace)
    requires forall i :: 0 <= i < |g| ==> g[i] != [] && g[i][0] == key
    requires SumCounts(children) == |Tails(g)|
    requires x != [] && x[0] == key ==> Occ(Expand(children), x[1..]) == Occ(Tails(g), x[1..])
    ensures Occ(NodeExpand(Node(key, |g|, children)), x) == Occ(g, x)
  {
    GroupOccTails(g, key, x);
    RepeatCount([key], |g| - SumCounts(children), x);
    PrefixedCount(key, Expand(children), x);
    OccAppend(Repeat([key], |g| - SumCounts(children)), Prefixed(key, Expand(children)), x);
  }

  lemma {:induction false} MergeGroupsRoundTrip(traces: seq<Trace>, keys: seq<string>, x: Trace)
    requires AllNonEmpty(traces)
    requires forall k :: k in keys ==> k in Firsts(traces)
    ensures Occ(Expand(MergeGroups(traces, keys)), x) == GroupsOcc(traces, keys, x)
    decreases SumLen(traces), 0, |keys|
  {
    if keys != [] {
      var key := keys[|keys| - 1];
      MergeGroupsRoundTrip(traces, keys[..|keys| - 1], x);
      GroupNodeRoundTrip(traces, key, x);
      ExpandSnocOcc(MergeGroups(traces, keys[..|keys| - 1]), GroupNode(traces, key), x);
    }
  }

  /** The node of one group expands to that group. */
  lemma {:induction false} GroupNodeRoundTrip(traces: seq<Trace>, key: string, x: Trace)
    requires AllNonEmpty(traces)
    requires key in Firsts(traces)
    ensures Occ(NodeExpand(GroupNode(traces, key)), x) == Occ(Group(traces, key), x)
    decreases SumLen(traces), 0, 0
  {
    var g := Group(traces, key);
    TailsShorter(traces, key);
    if x != [] && x[0] == key {
      MergeRoundTripAt(Tails(g), x[1..]);
    }
    MergeConservesCount(Tails(g));
    NodeOcc(g, key, MergeStackTraces(Tails(g)), x);
  }

  /** Occurrences in the expansion of one more node. */
  lemma ExpandSnocOcc(ns: seq<Node>, n: Node, x: Trace)
    ensures Occ(Expand(ns + [n]), x) == Occ(Expand(ns), x) + Occ(NodeExpand(n), x)
  {
    ExpandSnoc(ns, n);
    OccAppend(Expand(ns), NodeExpand(n), x);
  }

  /** Expanding the merge gives back exactly the multiset of input traces. */
  lemma MergeRoundTrip(traces: seq<Trace>)
    requires AllNonEmpty(traces)
    ensures multiset(Expand(MergeStackTraces(traces))) == multiset(traces)
  {
    forall x: Trace
      ensures multiset(Expand(MergeStackTraces(traces)))[x] == multiset(traces)[x]
    {
      MergeRoundTripAt(traces, x);
      OccMultiset(Expand(MergeStackTraces(traces)), x);
      OccMultiset(traces, x);
    }
  }

  // ---------------------------------------------------------------------
  // Children: the traces that end at a node are not passed down

  /** Of a group's traces, those of more than one frame give its tails; the
      others are exactly the batch's one-frame traces `[key]`. */
  lemma GroupEnds(traces: seq<Trace>, key: string)
    ensures |Tails(Group(traces, key))| == |Group(traces, key)| - Occ(traces, [key])
  {
    var g := Group(traces, key);
    GroupOccTails(g, key, [key]);
    assert [key][1..] == [];
    OccPositive(Tails(g), []);
    GroupCount(traces, key, [key]);
  }

  /** A node's children are the merge of the tails of its group; their counts
      add up to the node's count less the traces that end at the node, and so
      never exceed it. */
  lemma MergeChildren(traces: seq<Trace>)
    requires AllNonEmpty(traces)
    ensures var r := MergeStackTraces(traces);
      forall i :: 0 <= i < |r| ==>
        r[i].children == MergeStackTraces(Tails(Group(traces, r[i].frame))) &&
        SumCounts(r[i].children) == r[i].count - Occ(traces, [r[i].frame]) &&
        0 <= SumCounts(r[i].children) <= r[i].count
  {
    var keys := Dedup(Firsts(traces));
    var r := MergeStackTraces(traces);
    MergeGroupsAt(traces, keys);
    forall i | 0 <= i < |r|
      ensures r[i].children == MergeStackTraces(Tails(Group(traces, r[i].frame)))
      ensures SumCounts(r[i].children) == r[i].count - Occ(traces, [r[i].frame])
      ensures 0 <= SumCounts(r[i].children) <= r[i].count
    {
      assert keys[i] in Firsts(traces);
      assert r[i] == GroupNode(traces, keys[i]);
      GroupEnds(traces, keys[i]);
      MergeConservesCount(Tails(Group(traces, keys[i])));
    }
  }

  /** The invariant of a counted prefix tree: every count is at least one and
      at least the sum of the children's counts, all the way down. */
  predicate WellCounted(nodes: seq<Node>)
    decreases nodes
  {
    forall i :: 0 <= i < |nodes| ==>
      nodes[i].count >= 1 && SumCounts(nodes[i].children) <= nodes[i].count && WellCounted(nodes[i].children)
  }

  lemma {:induction false} MergeWellCounted(traces: seq<Trace>)
    requires AllNonEmpty(traces)
    ensures WellCounted(MergeStackTraces(traces))
    decreases SumLen(traces), 1
  {
    var keys := Dedup(Firsts(traces));
    var r := MergeStackTraces(traces);
    MergeCounts(traces);
    MergeChildren(traces);
    MergeGroupsAt(traces, keys);
    forall i | 0 <= i < |r|
      ensures WellCounted(r[i].children)
    {
      assert keys[i] in Firsts(traces);
      TailsShorter(traces, keys[i]);
      MergeWellCounted(Tails(Group(traces, keys[i])));
    }
  }

  // ---------------------------------------------------------------------
  // Depth of the tree

  function MaxLen(traces: seq<Trace>): (m: nat)
    ensures forall i :: 0 <= i < |traces| ==> |traces[i]| <= m
    ensures traces != [] ==> exists i :: 0 <= i < |traces| && |traces[i]| == m
    ensures traces == [] ==> m == 0
  {
    if traces == [] then 0
    else
      var m' := MaxLen(traces[..|traces| - 1]);
      var l := |traces[|traces| - 1]|;
      if m' < l then l else m'
  }

  function Height(nodes: seq<Node>): nat
    decreases nodes
  {
    if nodes == [] then 0
    else
      var h' := Height(nodes[..|nodes| - 1]);
      var h := 1 + Height(nodes[|nodes| - 1].children);
      if h' < h then h else h'
  }

  /** No path of the tree is longer than the longest input trace. */
  lemma {:induction false} MergeHeight(traces: seq<Trace>)
    requires AllNonEmpty(traces)
    ensures Height(MergeStackTraces(traces)) <= MaxLen(traces)
    decreases SumLen(traces), 1, 0
  {
    MergeGroupsHeight(traces, Dedup(Firsts(traces)));
  }

  lemma HeightSnoc(ns: seq<Node>, n: Node)
    ensures Height(ns + [n]) == if Height(ns) < 1 + Height(n.children) then 1 + Height(n.children) else Height(ns)
  {
    assert (ns + [n])[..|ns|] == ns;
  }

  /** The tails of a group are one frame shorter than the longest trace. */
  lemma TailsMaxLen(traces: seq<Trace>, key: string)
    requires AllNonEmpty(traces)
    requires key in Firsts(traces)
    ensures 1 + MaxLen(Tails(Group(traces, key))) <= MaxLen(traces)
  {
    var g := Group(traces, key);
    var tails := Tails(g);
    TailsShorter(traces, key);
    GroupMembers(traces, key);
    TailsFrom(g);
    assert g[0] in traces;
    if tails != [] {
      var i :| 0 <= i < |tails| && |tails[i]| == MaxLen(tails);
      var j :| 0 <= j < |g| && |g[j]| > 1 && tails[i] == g[j][1..];
      assert g[j] in traces;
    }
  }

  lemma {:induction false} MergeGroupsHeight(traces: seq<Trace>, keys: seq<string>)
    requires AllNonEmpty(traces)
    requires forall k :: k in keys ==> k in Firsts(traces)
    ensures Height(MergeGroups(traces, keys)) <= MaxLen(traces)
    decreases SumLen(traces), 0, |keys|
  {
    if keys != [] {
      var keys' := keys[..|keys| - 1];
      var key := keys[|keys| - 1];
      var g := Group(traces, key);
      MergeGroupsSnoc(traces, keys);
      MergeGroupsHeight(traces, keys');
      MergeHeight(Tails(g));
      TailsMaxLen(traces, key);
      HeightSnoc(MergeGroups(traces, keys'), Node(key, |g|, MergeStackTraces(Tails(g))));
    }
  }
}
