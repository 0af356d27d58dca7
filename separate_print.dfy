/** The separate rendering: `PrintStackTraces` writes every stack trace on
    its own, a header naming the thread, one numbered line per frame and a
    notice when the walk stopped early. The console is modelled as the
    sequence of lines written to it. */
module SeparatePrint {
  import opened Text
  import opened FrameWalk

  /** The fixed parts of the printed lines. */
  const ThreadPrefix: string := "Thread #:"
  const CutOffHead: string := "displayed only the first "
  const CutOffTail: string := " frames, use the --depth parameter to control the depth."

  /** `Thread #:{ThreadId}`: the fixed prefix, then the id, which reads back
      from the digits when it is not negative. */
  function ThreadHeader(threadId: int): (h: string)
    ensures |h| > |ThreadPrefix| && h[..|ThreadPrefix|] == ThreadPrefix
    ensures threadId >= 0 ==> IsDigits(h[|ThreadPrefix|..]) && ParseNat(h[|ThreadPrefix|..]) == threadId
  {
    var h := ThreadPrefix + IntToString(threadId);
    assert h[|ThreadPrefix|..] == IntToString(threadId);
    IntToStringMagnitude(threadId);
    if threadId >= 0 then NatToStringRoundTrip(threadId); h else h
  }

  /** `{marker}{i}. {FrameDescription}`, where the marker is `*` for the
      frame flagged as executing and a space otherwise. */
  function FrameText(i: int, frame: FrameLine): (r: string)
    ensures |r| > 3 + |frame.frameDescription|
    ensures r[0] == (if frame.isCurrentlyExecutingFrame then '*' else ' ')
    ensures r[|r| - |frame.frameDescription|..] == frame.frameDescription
  {
    (if frame.isCurrentlyExecutingFrame then "*" else " ") + IntToString(i) + ". " + frame.frameDescription
  }

  /** The notice written after a trace that was cut off: the depth stands
      between the fixed head and tail, and reads back when not negative. */
  function CutOffNotice(depth: int): (r: string)
    ensures |r| > |CutOffHead| + |CutOffTail|
    ensures r[..|CutOffHead|] == CutOffHead && r[|r| - |CutOffTail|..] == CutOffTail
    ensures depth >= 0 ==> IsDigits(r[|CutOffHead|..|r| - |CutOffTail|]) && ParseNat(r[|CutOffHead|..|r| - |CutOffTail|]) == depth
  {
    var r := CutOffHead + IntToString(depth) + CutOffTail;
    assert r[|CutOffHead|..|r| - |CutOffTail|] == IntToString(depth);
    IntToStringMagnitude(depth);
    if depth >= 0 then NatToStringRoundTrip(depth); r else r
  }

  /** The numbered frame lines of a trace, the counter starting at 0. */
  function FrameTexts(frames: seq<FrameLine>): (r: seq<string>)
    ensures |r| == |frames|
  {
    seq(|frames|, k requires 0 <= k < |frames| => FrameText(k, frames[k]))
  }

  /** What one trace prints. */
  function TraceText(st: StackTrace, depth: int): (r: seq<string>)
    ensures |r| == 1 + |st.frames| + (if st.wasCutOff then 1 else 0)
  {
    [ThreadHeader(st.threadId)] + FrameTexts(st.frames) + (if st.wasCutOff then [CutOffNotice(depth)] else [])
  }

  /** `TraceText` with the depth fixed, as a function of the trace. */
  function TextOf(depth: int): StackTrace -> seq<string> {
    st => TraceText(st, depth)
  }

  /** The blocks of lines of a batch of traces, one per trace. */
  function Blocks(sts: seq<StackTrace>, text: StackTrace -> seq<string>): (r: seq<seq<string>>)
    ensures |r| == |sts|
  {
    if sts == [] then [] else Blocks(sts[..|sts| - 1], text) + [text(sts[|sts| - 1])]
  }

  /** Blocks of lines written one after the other. */
  function Concat(blocks: seq<seq<string>>): seq<string> {
    if blocks == [] then [] else Concat(blocks[..|blocks| - 1]) + blocks[|blocks| - 1]
  }

  /** What a batch of traces prints, trace after trace. */
  function Output(sts: seq<StackTrace>, depth: int): seq<string> {
    Concat(Blocks(sts, TextOf(depth)))
  }

  /** One more numbered frame line. */
  lemma FrameStep(printed: seq<string>, header: string, frames: seq<FrameLine>, i: nat)
    requires i < |frames|
    requires printed == [header] + FrameTexts(frames[..i])
    ensures printed + [FrameText(i, frames[i])] == [header] + FrameTexts(frames[..i + 1])
  {
    assert FrameTexts(frames[..i + 1]) == FrameTexts(frames[..i]) + [FrameText(i, frames[i])];
  }

  /** After the last frame and the optional notice, one trace is printed. */
  lemma TraceDone(printed: seq<string>, st: StackTrace, depth: int)
    requires printed == [ThreadHeader(st.threadId)] + FrameTexts(st.frames[..|st.frames|])
      + (if st.wasCutOff then [CutOffNotice(depth)] else [])
    ensures printed == TraceText(st, depth)
  {
    assert st.frames[..|st.frames|] == st.frames;
  }

  lemma {:induction false} ConcatAppend(a: seq<seq<string>>, b: seq<seq<string>>)
    ensures Concat(a + b) == Concat(a) + Concat(b)
    decreases |b|
  {
    if b == [] {
      assert a + b == a;
    } else {
      ConcatAppend(a, b[..|b| - 1]);
      assert (a + b)[..|a + b| - 1] == a + b[..|b| - 1];
    }
  }

  lemma ConcatSnoc(blocks: seq<seq<string>>, b: seq<string>)
    ensures Concat(blocks + [b]) == Concat(blocks) + b
  {
    assert (blocks + [b])[..|blocks|] == blocks;
  }

  lemma {:induction false} BlocksAppend(a: seq<StackTrace>, b: seq<StackTrace>, text: StackTrace -> seq<string>)
    ensures Blocks(a + b, text) == Blocks(a, text) + Blocks(b, text)
    decreases |b|
  {
    if b == [] {
      assert a + b == a;
    } else {
      BlocksAppend(a, b[..|b| - 1], text);
      assert (a + b)[..|a + b| - 1] == a + b[..|b| - 1];
      assert (a + b)[|a + b| - 1] == b[|b| - 1];
    }
  }

  /** Printing two batches one after the other prints their concatenation. */
  lemma OutputAppend(a: seq<StackTrace>, b: seq<StackTrace>, depth: int)
    ensures Output(a + b, depth) == Output(a, depth) + Output(b, depth)
  {
    BlocksAppend(a, b, TextOf(depth));
    ConcatAppend(Blocks(a, TextOf(depth)), Blocks(b, TextOf(depth)));
  }

  /** One more trace of the batch. */
  lemma OutputStep(lines: seq<string>, sts: seq<StackTrace>, t: nat, depth: int, printed: seq<string>)
    requires t < |sts|
    requires lines == Output(sts[..t], depth)
    requires printed == TraceText(sts[t], depth)
    ensures lines + printed == Output(sts[..t + 1], depth)
  {
    assert sts[..t + 1][..t] == sts[..t];
    assert TextOf(depth)(sts[t]) == printed;
    ConcatSnoc(Blocks(sts[..t], TextOf(depth)), printed);
  }

  /** `PrintStackTraces`: for each trace the header, then each frame with the
      running counter `i`, then the notice if the trace was cut off. */
  method PrintStackTraces(stackTraces: seq<StackTrace>, depth: int) returns (lines: seq<string>)
    ensures lines == Output(stackTraces, depth)
  {
    lines := [];
    for t := 0 to |stackTraces|
      invariant lines == Output(stackTraces[..t], depth)
    {
      var stackTrace := stackTraces[t];
      var header := ThreadHeader(stackTrace.threadId);
      var printed := [header];
      var i := 0;
      while i < |stackTrace.frames|
        invariant 0 <= i <= |stackTrace.frames|
        invariant printed == [header] + FrameTexts(stackTrace.frames[..i])
      {
        var frame := stackTrace.frames[i];
        FrameStep(printed, header, stackTrace.frames, i);
        printed := printed + [FrameText(i, frame)];
        i := i + 1;
      }
      if stackTrace.wasCutOff {
        printed := printed + [CutOffNotice(depth)];
      }
      TraceDone(printed, stackTrace, depth);
      OutputStep(lines, stackTraces, t, depth, printed);
      lines := lines + printed;
    }
    assert stackTraces[..|stackTraces|] == stackTraces;
  }

  // ---------------------------------------------------------------------
  // What the printed lines say

  /** The lines of one trace: the header first, then frame `k` on line
      `1 + k` numbered `k` (info-only frames are numbered too), then the
      notice exactly when the trace was cut off. */
  lemma TraceTextShape(st: StackTrace, depth: int)
    ensures TraceText(st, depth)[0] == ThreadHeader(st.threadId)
    ensures forall k :: 0 <= k < |st.frames| ==> TraceText(st, depth)[1 + k] == FrameText(k, st.frames[k])
    ensures st.wasCutOff <==> |TraceText(st, depth)| == |st.frames| + 2
    ensures st.wasCutOff ==> TraceText(st, depth)[|st.frames| + 1] == CutOffNotice(depth)
  {
  }

  /** A frame line starts with `*` exactly when its frame is flagged as
      executing; the header and the notice never do. */
  lemma Markers(i: int, frame: FrameLine, threadId: int, depth: int)
    ensures FrameText(i, frame)[0] == '*' <==> frame.isCurrentlyExecutingFrame
    ensures FrameText(i, frame)[0] == '*' || FrameText(i, frame)[0] == ' '
    ensures ThreadHeader(threadId)[0] != '*' && CutOffNotice(depth)[0] != '*'
  {
  }

  /** Two runs of digits that both start a string and are both followed by
      a `.` are the same run. */
  lemma DigitRunsAgree(x: string, s: string, u: string)
    requires IsDigits(s) && IsDigits(u)
    requires |s| < |x| && x[..|s|] == s && x[|s|] == '.'
    requires |u| < |x| && x[..|u|] == u && x[|u|] == '.'
    ensures s == u
  {
  }

  /** A frame line without its marker: the counter, a dot and the rest. */
  lemma FrameTextParts(i: nat, frame: FrameLine)
    ensures |FrameText(i, frame)| > 1 + |IntToString(i)|
    ensures FrameText(i, frame)[1..][..|IntToString(i)|] == IntToString(i)
    ensures FrameText(i, frame)[1..][|IntToString(i)|] == '.'
  {
    var m := if frame.isCurrentlyExecutingFrame then "*" else " ";
    assert FrameText(i, frame) == m + (IntToString(i) + (". " + frame.frameDescription));
  }

  /** The number on a frame line identifies it: lines with different
      counters differ, whatever the frames say. */
  lemma FrameTextIndex(i: nat, j: nat, a: FrameLine, b: FrameLine)
    requires FrameText(i, a) == FrameText(j, b)
    ensures i == j
  {
    FrameTextParts(i, a);
    FrameTextParts(j, b);
    DigitRunsAgree(FrameText(i, a)[1..], IntToString(i), IntToString(j));
    IntToStringInjective(i, j);
  }

  /** The header names the thread: different threads, different headers. */
  lemma ThreadHeaderIdentifies(a: int, b: int)
    requires ThreadHeader(a) == ThreadHeader(b)
    ensures a == b
  {
    assert ThreadHeader(a)[9..] == IntToString(a);
    assert ThreadHeader(b)[9..] == IntToString(b);
    IntToStringInjective(a, b);
  }

  /** A line carrying the `*` marker of the executing frame. */
  predicate Marked(line: string) {
    |line| > 0 && line[0] == '*'
  }

  /** A trace prints a marked line exactly for each frame flagged as
      executing, on that frame's line. */
  lemma MarkedLines(st: StackTrace, depth: int)
    ensures forall a :: 0 <= a < |TraceText(st, depth)| && Marked(TraceText(st, depth)[a]) ==>
      1 <= a <= |st.frames| && st.frames[a - 1].isCurrentlyExecutingFrame
    ensures forall k :: 0 <= k < |st.frames| && st.frames[k].isCurrentlyExecutingFrame ==>
      Marked(TraceText(st, depth)[1 + k])
  {
    var out := TraceText(st, depth);
    TraceTextShape(st, depth);
    Markers(0, FrameLine(false, ""), st.threadId, depth);
    forall a | 0 <= a < |out| && Marked(out[a])
      ensures 1 <= a <= |st.frames| && st.frames[a - 1].isCurrentlyExecutingFrame
    {
      if 1 <= a <= |st.frames| {
        Markers(a - 1, st.frames[a - 1], st.threadId, depth);
      }
    }
    forall k | 0 <= k < |st.frames| && st.frames[k].isCurrentlyExecutingFrame
      ensures Marked(out[1 + k])
    {
      Markers(k, st.frames[k], st.threadId, depth);
    }
  }

  /** For a trace collected by the walk from a thread whose frames are
      distinct, at most one printed line carries the `*` marker, and one
      does only if the thread has a current frame. */
  lemma WalkPrintsAtMostOneMarker(thread: Thread, depth: int, verbose: bool, printDepth: int)
    requires forall a, b :: 0 <= a < b < |thread.frames| ==> thread.frames[a].id != thread.frames[b].id
    ensures var out := TraceText(Walk(thread, depth, verbose), printDepth);
      forall a, b :: 0 <= a < |out| && 0 <= b < |out| && Marked(out[a]) && Marked(out[b]) ==> a == b
    ensures var out := TraceText(Walk(thread, depth, verbose), printDepth);
      forall a :: 0 <= a < |out| && Marked(out[a]) ==> thread.currentFrame.Some?
  {
    WalkAtMostOneExecuting(thread, depth, verbose);
    MarkedLines(Walk(thread, depth, verbose), printDepth);
  }
}
