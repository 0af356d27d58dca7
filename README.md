# DotNetStackPrinter core, modelled in Dafny

DotNetStackPrinter attaches a debugger to a running .NET process and prints
the managed stack of every thread. There are two output modes:

- **separately**: one numbered trace per thread;
- **merged**: the traces of all threads folded into a counted prefix tree, so
  that threads sharing the same outer frames are printed once with a count.

This project models the algorithmic part of `DotNetStackPrinter/Program.cs`:
everything between "a thread's frames" and "lines of text".

- `frame_walk.dfy` (module `FrameWalk`) models the frame walk.
  - `GetStackTraceFromThread` is a method. Its `while` loop visits the
    thread's frames bottom first. Only frames that are not info-only spend
    the `depth` budget, and `0` means unlimited.
  - After the loop, the collected lines are reversed. The trace is flagged
    as cut off exactly when a frame was left unvisited and `depth != 0`.
  - Each step is proved against the specification function `Walk`. The
    properties the program relies on are lemmas about `Walk`: budget, cut
    off, order, executing flag.
  - `GetStackTracesFromProcess` is kept as one walk per thread.
- `merge.dfy` (module `MergeEngine`) models `MergeStackTraces`.
  - It is the recursive `GroupBy` over first frames:
    - groups come in first-occurrence order;
    - a node's count is the size of its group;
    - a node's children are the merge of the group's tails of length > 1.
  - It is pure, like the LINQ expression it models.
  - Proved about it: distinct labels, first-occurrence order, exact counts,
    conservation of the number of traces, children's counts, a multiset
    round trip back to the input traces, termination and a height bound.
- `merged_print.dfy` (module `MergedPrint`) models `MergeAndPrintStackTraces`
  and `PrintMergedStackTrace`.
  - Both are methods. The second has the chain-collapsing `while` loop that
    reassigns the current node, then recurses over the children sorted by
    descending count.
  - Both are proved equal to a line-by-line rendering, `TreeLines` /
    `ForestLines`, which keeps the chain collapse exactly as written.
  - `OrderByDescending` is a stable insertion sort. The model proves it sorts
    by descending count, is a permutation, and keeps equal counts in input
    order.
- `separate_print.dfy` (module `SeparatePrint`) models `PrintStackTraces`.
  - It is a method with the nested loops and the running counter `i`.
  - It is proved equal to `Output`. The lemmas give the shape of each trace's
    lines, which lines carry the `*` marker, and that the numbers and headers
    identify frames and threads.
- `text.dfy` (module `Text`) holds the decimal rendering of integers used by
  string interpolation, with its round trip, and the tab runs used for
  indentation.

The console is modelled as the sequence of lines written to it: each
printing method returns the lines it would write, in order.

Where the code and a natural reading of the tool's intent disagree, the
model follows the code:

- **Frame numbering.** In the separate output, the counter is incremented
  for every frame, so info-only frames are numbered as well
  (`SeparatePrint.TraceTextShape`).
- **Info-only frames after the budget.** Suppose the walk has taken `depth`
  real frames and only info-only frames remain. The loop still stops before
  those frames, and the trace is reported as cut off
  (`FrameWalk.CutOffWithOnlyInfoFramesLeft`).
- **Negative depth.** A negative `depth` collects nothing. The trace is then
  reported as cut off exactly when the thread has a frame
  (`FrameWalk.WalkNegativeDepth`).
- **Chain collapse.** Leaving a single-child node prints that node's own
  label, not the child's; see "## Findings".

## Model

| member | source | states |
|---|---|---|
| FrameWalk.Line | DotNetStackPrinter/Program.cs:141-146 | a visited frame is flagged executing iff it is not info-only and is the thread's current frame; an info-only frame is shown by its plain text, any other by its verbose text exactly when verbose is asked for |
| FrameWalk.Walk | DotNetStackPrinter/Program.cs:137-156 | the walk keeps the thread id, never collects more frames than the thread has, and is cut off exactly when a depth was given and frames were left |
| FrameWalk.GetStackTraceFromThread | DotNetStackPrinter/Program.cs:133-158 | the loop, the reversal and the cut-off flag produce exactly the trace `Walk` specifies: the visited prefix of the frames, reversed, with the thread id and `WasCutOff = frame left && depth != 0` |
| FrameWalk.GetStackTracesFromProcess | DotNetStackPrinter/Program.cs:122-126 | one trace per thread, in the order the threads are enumerated, each the walk of that thread with the same depth and verbosity |
| FrameWalk.ReachBudget | DotNetStackPrinter/Program.cs:139-148 | with a positive budget, the walk visits frames while fewer than `depth` real frames have been taken, never takes more than `depth`, and stops before the end only after taking exactly `depth` |
| FrameWalk.WalkUnlimited | DotNetStackPrinter/Program.cs:140-156 | with `depth == 0` every frame is collected and the trace is not cut off |
| FrameWalk.WalkNegativeDepth | DotNetStackPrinter/Program.cs:140-156 | with a negative depth nothing is collected, and the trace is cut off iff the thread has a frame |
| FrameWalk.WalkDepth | DotNetStackPrinter/Program.cs:139-156 | with `depth > 0`: at most `depth` real frames are collected; cut off iff frames remain uncollected; if cut off, exactly `depth` real frames were collected |
| FrameWalk.WalkCutOff | DotNetStackPrinter/Program.cs:156 | for every depth, the trace is cut off iff fewer frames were collected than the thread has |
| FrameWalk.WalkOrderAndFlags | DotNetStackPrinter/Program.cs:137-151 | the trace's frames are the visited prefix reversed; an info-only frame is recorded as not executing with its plain text; any other frame carries its (verbose) description and is flagged executing iff the thread has a current frame equal to it |
| FrameWalk.WalkAtMostOneExecuting | DotNetStackPrinter/Program.cs:137-145 | when frame identities are distinct, at most one collected frame is flagged executing, and one is only if the thread has a current frame |
| FrameWalk.CutOffWithOnlyInfoFramesLeft | DotNetStackPrinter/Program.cs:140-156 | a thread with one real frame followed by an info-only frame, walked with depth 1, collects all its real frames yet is reported cut off |
| MergeEngine.MergeStackTraces | DotNetStackPrinter/Program.cs:94-101 | at most one node per input trace, none exactly when there is no input, every node counting at least one trace, and no two nodes of one level labelled alike |
| MergeEngine.MergeGroups | DotNetStackPrinter/Program.cs:95-101 | one node per group key, in key order, labelled with its key and counting at least one trace |
| MergeEngine.GroupNode | DotNetStackPrinter/Program.cs:96-100 | a group's node is labelled with the group's key and counts between 1 and the number of input traces |
| MergeEngine.Dedup | DotNetStackPrinter/Program.cs:95 | the group keys are pairwise distinct and are exactly the first frames that occur |
| MergeEngine.GroupMembers | DotNetStackPrinter/Program.cs:95 | a group holds exactly the input traces whose first frame is the key |
| MergeEngine.GroupSize | DotNetStackPrinter/Program.cs:98 | a group's size is the number of inputs whose first frame is its key |
| MergeEngine.MergeFrames | DotNetStackPrinter/Program.cs:95-97 | there is one top-level node per distinct first frame, labelled with it, in `GroupBy` order |
| MergeEngine.MergeDistinctFrames | DotNetStackPrinter/Program.cs:95-97 | top-level labels are pairwise distinct |
| MergeEngine.MergeCoversFirsts | DotNetStackPrinter/Program.cs:95-97 | every input's first frame labels some top-level node, and the result is empty iff the input is |
| MergeEngine.MergeFramesOccur | DotNetStackPrinter/Program.cs:95-97 | every top-level label is the first frame of some input |
| MergeEngine.MergeFirstOccurrenceOrder | DotNetStackPrinter/Program.cs:95-97 | for two top-level nodes, the earlier node's label occurs as a first frame before any occurrence of the later node's label |
| MergeEngine.MergeCounts | DotNetStackPrinter/Program.cs:98 | each node's count is the number of inputs starting with its label, and at least 1 |
| MergeEngine.MergeConservesCount | DotNetStackPrinter/Program.cs:94-101 | the top-level counts sum to the number of input traces |
| MergeEngine.GroupEnds | DotNetStackPrinter/Program.cs:99 | the tails passed down are the group's members minus those that end at the key |
| MergeEngine.MergeChildren | DotNetStackPrinter/Program.cs:99 | a node's children are the merge of its group's tails; their counts sum to the node's count minus the number of inputs ending at the node, which lies between 0 and the count |
| MergeEngine.MergeWellCounted | DotNetStackPrinter/Program.cs:94-101 | at every level of the tree, each count is at least 1 and at least the sum of the children's counts |
| MergeEngine.MergeRoundTripAt | DotNetStackPrinter/Program.cs:94-101 | expanding the tree (each node giving `count - sum of children's counts` copies of its root path) yields every trace exactly as often as the input has it |
| MergeEngine.MergeRoundTrip | DotNetStackPrinter/Program.cs:94-101 | the expanded tree is the input as a multiset |
| MergeEngine.TailsSumLen | DotNetStackPrinter/Program.cs:99 | dropping the first frame of each member shortens the group's total length by one per member |
| MergeEngine.TailsShorter | DotNetStackPrinter/Program.cs:99 | the recursive call receives strictly less total length, so the recursion terminates |
| MergeEngine.MergeHeight | DotNetStackPrinter/Program.cs:94-101 | the tree is no higher than the longest input trace |
| MergedPrint.SortByCountDescending | DotNetStackPrinter/Program.cs:78 | the sort returns a permutation of its input |
| MergedPrint.SortSorted | DotNetStackPrinter/Program.cs:78 | the sorted nodes are in descending order of count |
| MergedPrint.SortStable | DotNetStackPrinter/Program.cs:89 | nodes of equal count keep their input order |
| MergedPrint.Descriptions | DotNetStackPrinter/Program.cs:77 | a trace's projection has one description per frame, in the frames' order |
| MergedPrint.MergeInput | DotNetStackPrinter/Program.cs:77 | every trace given to the merge is non-empty, and there are no more of them than input traces |
| MergedPrint.Kept | DotNetStackPrinter/Program.cs:77 | the kept positions are increasing, each holds a trace with a frame, and every trace with a frame is kept |
| MergedPrint.MergeInputFilters | DotNetStackPrinter/Program.cs:77 | the merge input is, position by position, the descriptions of the traces that have a frame, in input order and each once: duplicates are kept |
| MergedPrint.MergedThreadCount | DotNetStackPrinter/Program.cs:77-78 | the top-level counts of the merged forest add up to the number of input traces that have a frame |
| MergedPrint.EmptyTracesIgnored | DotNetStackPrinter/Program.cs:77 | adding a trace without frames, before or after a batch, does not change what is merged |
| MergedPrint.PrintMergedStackTrace | DotNetStackPrinter/Program.cs:82-92 | the header, the chain loop and the recursion over the sorted children write exactly `Render(TreeLines(node, tabs))` |
| MergedPrint.MergeAndPrintStackTraces | DotNetStackPrinter/Program.cs:76-80 | filtering, merging, sorting and printing each tree write exactly the rendering of the sorted merged forest |
| MergedPrint.FormatParts | DotNetStackPrinter/Program.cs:83-85 | a printed line opens with exactly its indent in tabs; a header then has the count in brackets, reading back to the count when it is not negative, followed by the frame; a chain line has the bare frame |
| MergedPrint.HeaderFirst | DotNetStackPrinter/Program.cs:83 | a tree's first line is `tabs + "[" + Count + "]" + Frame` |
| MergedPrint.ChainStep | DotNetStackPrinter/Program.cs:84-87 | each single-child node left adds the line `"\t" + tabs + Frame` of the node being left, and the child is smaller |
| MergedPrint.ChainEnd | DotNetStackPrinter/Program.cs:89-91 | where the chain stops, the rest of the output is the trees of that node's children, sorted, at indent `tabs + "\t"` |
| MergedPrint.ForestStep | DotNetStackPrinter/Program.cs:89-90 | printing one more child tree appends exactly that tree's lines |
| MergedPrint.TreeIndents | DotNetStackPrinter/Program.cs:82-91 | a tree's first line is its header at indent `tabs`; every later line is indented further |
| MergedPrint.ForestHeaders | DotNetStackPrinter/Program.cs:89-90 | the lines at a forest's own indent are exactly its trees' headers, in order |
| MergedPrint.MergedTopLevel | DotNetStackPrinter/Program.cs:76-80 | the unindented output lines are one header per merged tree; these are in descending order of count, are a permutation of the merged trees, and keep equal counts in first-occurrence order |
| MergedPrint.ChainRepeatsHeaderLabel | DotNetStackPrinter/Program.cs:83-85 | for a node with a single child, the line after the header carries the header's own label again |
| MergedPrint.ChainExampleAsWritten | DotNetStackPrinter/Program.cs:82-91 | `x(2) -> y(2) -> {z(1), w(1)}` prints `[2]x`, `\tx`, `\t[1]z`, `\t[1]w`: `x` appears twice and `y` never |
| MergedPrint.IntendedTreeLabels | DotNetStackPrinter/Program.cs:82-91 | with the chain line printing the child's label, the printed labels are every node exactly once, in preorder with the children sorted |
| SeparatePrint.PrintStackTraces | DotNetStackPrinter/Program.cs:103-114 | the nested loops with the counter `i` write exactly `Output(stackTraces, depth)`, trace after trace |
| SeparatePrint.ThreadHeader | DotNetStackPrinter/Program.cs:105 | the header is `Thread #:` followed by digits that read back to the thread id when it is not negative |
| SeparatePrint.FrameText | DotNetStackPrinter/Program.cs:108 | a frame line starts with `*` for the executing frame and a space otherwise, and ends with the frame's description |
| SeparatePrint.CutOffNotice | DotNetStackPrinter/Program.cs:112 | the notice is the fixed head, the depth's digits, which read back to the depth when it is not negative, and the fixed tail |
| SeparatePrint.TraceTextShape | DotNetStackPrinter/Program.cs:104-112 | a trace prints `Thread #:` + id, then frame `k` on line `1 + k` numbered `k` (info-only frames included), then the notice naming `depth` iff the trace was cut off: `1 + frames + (cut off ? 1 : 0)` lines |
| SeparatePrint.Markers | DotNetStackPrinter/Program.cs:105-112 | a frame line starts with `*` iff its frame is flagged executing, and with a space otherwise; the header and the notice never start with `*` |
| SeparatePrint.MarkedLines | DotNetStackPrinter/Program.cs:104-112 | a trace's lines starting with `*` are exactly the lines of its frames flagged executing |
| SeparatePrint.FrameTextIndex | DotNetStackPrinter/Program.cs:108 | two frame lines with different counters differ, whatever the descriptions |
| SeparatePrint.ThreadHeaderIdentifies | DotNetStackPrinter/Program.cs:105 | two headers are equal only for equal thread ids |
| SeparatePrint.OutputAppend | DotNetStackPrinter/Program.cs:103-114 | printing two batches one after the other writes the output of the concatenated batch |
| SeparatePrint.WalkPrintsAtMostOneMarker | DotNetStackPrinter/Program.cs:137-145 | for a trace collected by the walk from a thread with distinct frames, at most one printed line carries `*`, and one does only if the thread has a current frame |
| Text.NatToStringRoundTrip | DotNetStackPrinter/Program.cs:83 | reading back a rendered count gives the count |
| Text.IntToStringInjective | DotNetStackPrinter/Program.cs:105 | different integers render differently |

## Left out

- `CommandLineOptions` and `Main` (Program.cs:9-28, :42-44). They are argument parsing done by an external library.
- `RunOptionsAndReturnExitCode` (:46-74). It covers:
  - process lookup by name;
  - the repeat loop with its sleep;
  - the `Pid #:` line and the blank line between processes.

  All of this is operating-system glue.
- The debugger session in `GetStackTracesFromProcess`: `MDbgEngine`, `Attach`, `Go().WaitOne()` and `Detach` in the `finally`. These are foreign calls. Only the loop over the threads is modelled.
- MDbg frame internals:
  - `NextUp` is the order of the frame sequence.
  - `IsInfoOnly` is a field.
  - `ToString()` and `ToString("v")` are two given strings per frame.
  - `Equals` is equality of a frame identity.
  - `HaveCurrentFrame`/`CurrentFrame` is an optional frame.
- The console. Every printing member returns the lines it would write instead.
- `PrintMergedStackTrace` and `PrintStackTraces` gather the lines of a block, either one child's tree or one trace, before appending them. The lines and their order are what the program writes.
- `OrderByDescending` is modelled by a stable insertion sort. LINQ's algorithm differs, but a stable sort on one key has only one possible result.
- Counts and thread ids are unbounded integers. The `Int32` overflow of a count would need more than 2^31 threads.
- The `tabs` string is modelled by its length, since it only ever holds tab characters.

## Findings

| source | as written | input that shows it | evidently intended | confidence | as-written member | corrected member |
|---|---|---|---|---|---|---|
| DotNetStackPrinter/Program.cs:84-87 | inside the chain loop, the line printed for each single-child node is that node's own `Frame`, written before `node` advances to the child | `x` (count 2) with one child `y` (count 2) whose children are `z` and `w` (count 1 each): prints `[2]x`, `\tx`, `\t[1]z`, `\t[1]w`, so `x` twice and `y` never | print the child's `Frame` after advancing, so each node of the chain appears once, in order | medium, not executed | MergedPrint.ChainExampleAsWritten | MergedPrint.IntendedTreeLabels |

The printing methods model the code as written. `MergedPrint.IntendedTreeLines` is the corrected rendering: it prints the child's label. `MergedPrint.IntendedTreeLabels` proves that the corrected rendering shows every node of the tree exactly once, in preorder.
