/** The depth-limited frame walk over one debugged thread
    (`GetStackTraceFromThread`) and its application to every thread of an
    attached process (`GetStackTracesFromProcess`).

    The debugger's thread is modelled as the finite sequence of its frames,
    bottom frame first, each next element being the previous one's `NextUp`;
    the walk reaching the end of the sequence is `NextUp` returning null. */
module FrameWalk {

  datatype Option<T> = None | Some(value: T)

  /** A frame as the debugger exposes it. `id` is the frame's identity (what
      `Equals` compares), `text` is `ToString()` and `verboseText` is
      `ToString("v")`, the rendering with module names and argument values. */
  datatype Frame = Frame(id: int, isInfoOnly: bool, text: string, verboseText: string)

  /** A debugged thread: its id, its frames from the bottom frame up, and the
      frame it is currently stopped in, if it has one (`HaveCurrentFrame`). */
  datatype Thread = Thread(id: int, frames: seq<Frame>, currentFrame: Option<Frame>)

  /** One collected frame: whether it is the frame the thread is executing,
      and its description. */
  datatype FrameLine = FrameLine(isCurrentlyExecutingFrame: bool, frameDescription: string)

  /** One thread's collected stack, outermost frame first. */
  datatype StackTrace = StackTrace(threadId: int, frames: seq<FrameLine>, wasCutOff: bool)

  /** `frame.Equals(currentlyExecutingFrame)`: false against null. */
  predicate IsCurrent(f: Frame, current: Option<Frame>) {
    current.Some? && current.value.id == f.id
  }

  /** `ToString(verbose ? "v" : null)` of a frame that is not info-only. */
  function Describe(f: Frame, verbose: bool): string {
    if verbose then f.verboseText else f.text
  }

  /** The entry the walk records for one visited frame: only a real frame
      that is the thread's current frame is flagged, and an info-only frame
      is shown by its plain text whatever the verbosity. */
  function Line(f: Frame, current: Option<Frame>, verbose: bool): (l: FrameLine)
    ensures l.isCurrentlyExecutingFrame <==> !f.isInfoOnly && current.Some? && current.value.id == f.id
    ensures l.frameDescription == (if verbose && !f.isInfoOnly then f.verboseText else f.text)
  {
    if f.isInfoOnly then FrameLine(false, f.text)
    else FrameLine(IsCurrent(f, current), Describe(f, verbose))
  }

  function Lines(fs: seq<Frame>, current: Option<Frame>, verbose: bool): (ls: seq<FrameLine>)
    ensures |ls| == |fs|
    ensures forall k :: 0 <= k < |fs| ==> ls[k] == Line(fs[k], current, verbose)
  {
    seq(|fs|, k requires 0 <= k < |fs| => Line(fs[k], current, verbose))
  }

  function Reversed<T>(s: seq<T>): (r: seq<T>)
    ensures |r| == |s|
    ensures forall k :: 0 <= k < |s| ==> r[k] == s[|s| - 1 - k]
  {
    seq(|s|, k requires 0 <= k < |s| => s[|s| - 1 - k])
  }

  lemma ReversedTwice<T>(s: seq<T>)
    ensures Reversed(Reversed(s)) == s
  {
  }

  /** Number of frames of `fs` that consume depth budget. */
  function RealCount(fs: seq<Frame>): nat {
    if fs == [] then 0
    else (if fs[0].isInfoOnly then 0 else 1) + RealCount(fs[1..])
  }

  /** How many frames of `fs` a walk with `budget` real frames left visits:
      every frame while budget remains, a real frame spending one unit. */
  function Reach(fs: seq<Frame>, budget: int): (n: nat)
    ensures n <= |fs|
  {
    if fs == [] || budget <= 0 then 0
    else 1 + Reach(fs[1..], if fs[0].isInfoOnly then budget else budget - 1)
  }

  /** How many frames the walk visits for a `depth` option; 0 is unlimited. */
  function Visited(fs: seq<Frame>, depth: int): (n: nat)
    ensures n <= |fs|
  {
    if depth == 0 then |fs| else Reach(fs, depth)
  }

  /** The stack trace the walk produces: the visited frames, outermost
      first after the reversal, and whether the walk stopped on the budget
      with frames left. It holds one line per visited frame, and it is cut
      off exactly when a depth was given and frames were left unvisited. */
  function Walk(thread: Thread, depth: int, verbose: bool): (t: StackTrace)
    ensures t.threadId == thread.id
    ensures |t.frames| == Visited(thread.frames, depth)
    ensures t.wasCutOff <==> depth != 0 && Visited(thread.frames, depth) < |thread.frames|
  {
    var n := Visited(thread.frames, depth);
    StackTrace(thread.id,
               Reversed(Lines(thread.frames[..n], thread.currentFrame, verbose)),
               n < |thread.frames| && depth != 0)
  }

  /** Visiting one more frame: its line goes after the lines so far. */
  lemma LinesSnoc(fs: seq<Frame>, k: nat, current: Option<Frame>, verbose: bool)
    requires k < |fs|
    ensures Lines(fs[..k + 1], current, verbose) == Lines(fs[..k], current, verbose) + [Line(fs[k], current, verbose)]
  {
  }

  /** One step of the walk from frame `k`, with budget left. */
  lemma ReachStep(fs: seq<Frame>, k: nat, budget: int)
    requires k < |fs| && budget > 0
    ensures Reach(fs[k..], budget) == 1 + Reach(fs[k + 1..], if fs[k].isInfoOnly then budget else budget - 1)
  {
    assert fs[k..][1..] == fs[k + 1..];
  }

  /** `GetStackTraceFromThread`: walks the frames from the bottom frame up
      while frames remain and the depth budget is not spent, then reverses
      the collected list. */
  method GetStackTraceFromThread(thread: Thread, depth: int, verbose: bool) returns (trace: StackTrace)
    ensures trace == Walk(thread, depth, verbose)
  {
    var fs := thread.frames;
    var stackLines: seq<FrameLine> := [];
    var currentlyExecutingFrame := thread.currentFrame;
    var k := 0;  // index of currentlyInspectingFrame; k == |fs| is null
    var i := 0;
    while k < |fs| && (depth == 0 || i < depth)
      invariant 0 <= k <= |fs|
      invariant stackLines == Lines(fs[..k], currentlyExecutingFrame, verbose)
      invariant depth != 0 ==> Reach(fs, depth) == k + Reach(fs[k..], depth - i)
    {
      var f := fs[k];
      LinesSnoc(fs, k, currentlyExecutingFrame, verbose);
      if depth != 0 {
        ReachStep(fs, k, depth - i);
      }
      if f.isInfoOnly {
        stackLines := stackLines + [FrameLine(false, f.text)];
      } else {
        stackLines := stackLines + [FrameLine(IsCurrent(f, currentlyExecutingFrame), Describe(f, verbose))];
        i := i + 1;
      }
      k := k + 1;
    }
    assert fs[..|fs|] == fs;
    stackLines := Reversed(stackLines);
    trace := StackTrace(thread.id, stackLines, k < |fs| && depth != 0);
  }

  /** `GetStackTracesFromProcess` without the debugger session: one walk per
      thread, in the order the debugger enumerates them. */
  method GetStackTracesFromProcess(threads: seq<Thread>, depth: int, verbose: bool) returns (traces: seq<StackTrace>)
    ensures |traces| == |threads|
    ensures forall k :: 0 <= k < |threads| ==> traces[k] == Walk(threads[k], depth, verbose)
  {
    traces := [];
    for k := 0 to |threads|
      invariant |traces| == k
      invariant forall j :: 0 <= j < k ==> traces[j] == Walk(threads[j], depth, verbose)
    {
      var trace := GetStackTraceFromThread(threads[k], depth, verbose);
      traces := traces + [trace];
    }
  }

  // ---------------------------------------------------------------------
  // The depth budget

  lemma RealCountPrefixStep(fs: seq<Frame>, j: nat)
    requires 0 < j <= |fs|
    ensures RealCount(fs[..j]) == (if fs[0].isInfoOnly then 0 else 1) + RealCount(fs[1..][..j - 1])
  {
    assert fs[..j][1..] == fs[1..][..j - 1];
  }

  /** With a positive budget, the walk's stopping point is determined by the
      real frames: before each visited frame fewer than `budget` real frames
      were taken, and if it stopped early exactly `budget` were. */
  lemma {:induction false} ReachBudget(fs: seq<Frame>, budget: int)
    requires budget > 0
    ensures RealCount(fs[..Reach(fs, budget)]) <= budget
    ensures forall j :: 0 <= j < Reach(fs, budget) ==> RealCount(fs[..j]) < budget
    ensures Reach(fs, budget) < |fs| ==> RealCount(fs[..Reach(fs, budget)]) == budget
    decreases |fs|
  {
    if fs != [] {
      var b' := if fs[0].isInfoOnly then budget else budget - 1;
      var n := Reach(fs, budget);
      assert n == 1 + Reach(fs[1..], b');
      RealCountPrefixStep(fs, n);
      assert fs[..0] == [];
      if b' > 0 {
        ReachBudget(fs[1..], b');
        forall j | 0 < j < n
          ensures RealCount(fs[..j]) < budget
        {
          RealCountPrefixStep(fs, j);
        }
      } else {
        assert Reach(fs[1..], b') == 0 && fs[1..][..0] == [];
      }
    }
  }

  /** Unlimited depth: every frame is collected and the trace is not cut off. */
  lemma WalkUnlimited(thread: Thread, verbose: bool)
    ensures |Walk(thread, 0, verbose).frames| == |thread.frames|
    ensures !Walk(thread, 0, verbose).wasCutOff
  {
  }

  /** A negative depth: the loop guard fails before the first frame, so
      nothing is collected, yet the trace counts as cut off when the thread
      has any frame. */
  lemma WalkNegativeDepth(thread: Thread, depth: int, verbose: bool)
    requires depth < 0
    ensures Walk(thread, depth, verbose).frames == []
    ensures Walk(thread, depth, verbose).wasCutOff <==> thread.frames != []
  {
  }

  /** A positive depth: at most `depth` real frames are collected; the
      trace is cut off exactly when frames were left behind, and then
      exactly `depth` real frames were collected; and the walk visited each
      collected frame while fewer than `depth` real frames had been taken. */
  lemma WalkDepth(thread: Thread, depth: int, verbose: bool)
    requires depth > 0
    ensures var n := |Walk(thread, depth, verbose).frames|;
      n <= |thread.frames| &&
      RealCount(thread.frames[..n]) <= depth &&
      (Walk(thread, depth, verbose).wasCutOff <==> n < |thread.frames|) &&
      (Walk(thread, depth, verbose).wasCutOff ==> RealCount(thread.frames[..n]) == depth) &&
      (forall j :: 0 <= j < n ==> RealCount(thread.frames[..j]) < depth)
  {
    ReachBudget(thread.frames, depth);
  }

  /** Whatever the depth, the trace is cut off exactly when frames were left
      uncollected. */
  lemma WalkCutOff(thread: Thread, depth: int, verbose: bool)
    ensures Walk(thread, depth, verbose).wasCutOff <==> |Walk(thread, depth, verbose).frames| < |thread.frames|
  {
  }

  /** Order and flags: the trace is the visited prefix of the bottom-up frame
      sequence, reversed; an info-only frame is never flagged executing and
      is described by `ToString()`; any other frame is flagged executing
      exactly when the thread has a current frame equal to it. */
  lemma WalkOrderAndFlags(thread: Thread, depth: int, verbose: bool)
    ensures var t := Walk(thread, depth, verbose);
      var n := |t.frames|;
      n <= |thread.frames| &&
      Reversed(t.frames) == Lines(thread.frames[..n], thread.currentFrame, verbose) &&
      forall k :: 0 <= k < n ==>
        var f := thread.frames[n - 1 - k];
        (f.isInfoOnly ==> t.frames[k] == FrameLine(false, f.text)) &&
        (!f.isInfoOnly ==> t.frames[k].frameDescription == Describe(f, verbose) &&
                           (t.frames[k].isCurrentlyExecutingFrame <==>
                              thread.currentFrame.Some? && thread.currentFrame.value.id == f.id))
  {
    WalkOrder(thread, depth, verbose);
    WalkFlags(thread, depth, verbose);
  }

  /** The order half: reversing the trace gives back the visited prefix. */
  lemma WalkOrder(thread: Thread, depth: int, verbose: bool)
    ensures var t := Walk(thread, depth, verbose);
      var n := |t.frames|;
      n <= |thread.frames| &&
      Reversed(t.frames) == Lines(thread.frames[..n], thread.currentFrame, verbose)
  {
    var t := Walk(thread, depth, verbose);
    ReversedTwice(Lines(thread.frames[..|t.frames|], thread.currentFrame, verbose));
  }

  /** The flags half, frame by frame. */
  lemma WalkFlags(thread: Thread, depth: int, verbose: bool)
    ensures var t := Walk(thread, depth, verbose);
      var n := |t.frames|;
      forall k :: 0 <= k < n ==>
        var f := thread.frames[n - 1 - k];
        (f.isInfoOnly ==> t.frames[k] == FrameLine(false, f.text)) &&
        (!f.isInfoOnly ==> t.frames[k].frameDescription == Describe(f, verbose) &&
                           (t.frames[k].isCurrentlyExecutingFrame <==>
                              thread.currentFrame.Some? && thread.currentFrame.value.id == f.id))
  {
    var t := Walk(thread, depth, verbose);
    var n := |t.frames|;
    forall k | 0 <= k < n
      ensures var f := thread.frames[n - 1 - k];
        (f.isInfoOnly ==> t.frames[k] == FrameLine(false, f.text)) &&
        (!f.isInfoOnly ==> t.frames[k].frameDescription == Describe(f, verbose) &&
                           (t.frames[k].isCurrentlyExecutingFrame <==>
                              thread.currentFrame.Some? && thread.currentFrame.value.id == f.id))
    {
      WalkFrame(thread, depth, verbose, k);
    }
  }

  /** The trace's `k`-th line is the line of the `k`-th visited frame
      counted back from the last one visited. */
  lemma WalkFrame(thread: Thread, depth: int, verbose: bool, k: nat)
    requires k < |Walk(thread, depth, verbose).frames|
    ensures var n := |Walk(thread, depth, verbose).frames|;
      Walk(thread, depth, verbose).frames[k] == Line(thread.frames[n - 1 - k], thread.currentFrame, verbose)
  {
    var n := |Walk(thread, depth, verbose).frames|;
    var ls := Lines(thread.frames[..n], thread.currentFrame, verbose);
    assert Walk(thread, depth, verbose).frames[k] == ls[n - 1 - k];
  }

  /** When frame identities are distinct, at most one collected frame is
      flagged executing, and only if the thread has a current frame. */
  lemma WalkAtMostOneExecuting(thread: Thread, depth: int, verbose: bool)
    requires forall a, b :: 0 <= a < b < |thread.frames| ==> thread.frames[a].id != thread.frames[b].id
    ensures var t := Walk(thread, depth, verbose);
      forall a, b ::
        (0 <= a < |t.frames| && 0 <= b < |t.frames| &&
         t.frames[a].isCurrentlyExecutingFrame && t.frames[b].isCurrentlyExecutingFrame) ==> a == b
    ensures var t := Walk(thread, depth, verbose);
      forall a :: 0 <= a < |t.frames| && t.frames[a].isCurrentlyExecutingFrame ==> thread.currentFrame.Some?
  {
    var t := Walk(thread, depth, verbose);
    var n := |t.frames|;
    forall a, b | 0 <= a < n && 0 <= b < n && t.frames[a].isCurrentlyExecutingFrame && t.frames[b].isCurrentlyExecutingFrame
      ensures a == b
    {
      assert thread.frames[n - 1 - a].id == thread.currentFrame.value.id == thread.frames[n - 1 - b].id;
    }
  }

  /** The cut-off flag looks only at whether a frame is left, not at whether
      it would consume budget: a thread whose one real frame is followed by
      an info-only frame, walked with depth 1, collects every real frame and
      is still reported cut off. */
  lemma CutOffWithOnlyInfoFramesLeft(called: Frame, info: Frame, verbose: bool)
    requires !called.isInfoOnly && info.isInfoOnly
    ensures var thread := Thread(7, [called, info], None);
      var t := Walk(thread, 1, verbose);
      RealCount(thread.frames) == 1 && |t.frames| == 1 && t.wasCutOff
  {
    var fs := [called, info];
    assert fs[1..] == [info] && fs[1..][1..] == [];
    assert RealCount(fs[1..]) == 0;
    assert Reach(fs, 1) == 1;
    assert fs[..1] == [called];
  }
}
