# Flight Recorder: a verified model

Flight Recorder has two halves. *Record* traces a C program: it stops the child at every
statement, logs the step, the call depth, the heap events and the 32-byte memory segments that
changed. *Examine* later answers a debugger from that log alone: memory at a step, the stack at
a step, next, stepBack, continue, expressions. This project models both halves and proves that
what Examine answers is what the child really had.

## What is modelled

**Record and replay** (`Bytes`, `SegmentLog`, `Memdiff`, `MemCache`, `Replay`, `Recorder`,
`RecorderInvariants`, `RecordReplay`, `RecorderTheorems`, `MappedMemory`, `EndToEnd`).
`Recorder` is a state machine of four interleaved parties: the child, the BPF callback, the main
loop with `process_breakpoint`, and the worker that resets soft-dirty bits. Its runs are unbounded
and its interleavings arbitrary.
The history of a run remembers, for every stop, what the child held; no recorder step reads it.
The main result is `ReplayMatchesChild`: the child's memory at the moment the recorder steps
over a statement is what any later log replays at that step. `MemCache.PageCache` is the sorted
region array of `memcache.c`, proved to refine the abstract mirror of the state machine;
`Replay.GetVarValue` is the copy loop of Examine, proved to return what the theorems speak of;
`RecordThenExamine` puts recorder, channel, worker, query and copy loop together.

**Channels and workers** (`Channel`, `ChannelProtocol`, `DbWorkers`, `HeapLog`). The linked
queue, the semaphore-and-mutex protocol around it with any number of readers and writers, and
the tables drained from it. `HeapLog` also holds the query of `get_pointer_size`.

**Breakpoints** (`Breakpoints`, `LineSearch`, `LineGaps`, `StatementLookup`,
`TrapPatching`). Trap bytes written through overlapping 8-byte words, and the interpolation search
for the statement of a trap.

**Depth and navigation** (`CallStack`, `Navigation`, `DebugSession`). An abstract call-stack
machine, the recorder's one depth counter, the stack trace, the six stepping requests and whole
sessions of them.

**Expressions** (`Expressions`, `ExpressionSoundness`, `PointerExpressions`,
`OperandRules`, `UsualConversions`, `RecordedEvaluation`, `ExpressionExamples`). The typing actions
of the grammar, the evaluator, a reference semantics over mathematical integers, where that differs from C, and
evaluation on what was recorded.

**Scopes** (`Scopes`). The innermost scope of a statement, the recursive closure of parents, and
the local-variable query.

`Arithmetic` holds facts about products and quotients.

## Where the code does less than it promises

Each of these has a lemma that says exactly when the code is right, and one at an input where it
is not.

- `lookup_cache` divides by zero for a unit with a single line (`CachedIsFound`,
  `OneLineExample`).
- `lookup_cache` says it returns NULL for an address it does not hold. Between two statements of a
  unit it does so if and only if its search meets an interval, next to the gap, from which the guess
  overshoots by 0 modulo 2^32 (`GapOutcome`, `GapIsAbsent`). Otherwise it divides by zero, which it
  always does between the last two statements (`LastGapDividesByZero`, `GapDividesByZero`), leaves
  the line array (`GapLeavesArray`) or never returns (`EndlessIffForever`, `GapNeverEnds`).
- The trap is put back through the word read before the single step, so an instruction that
  writes the seven bytes after itself loses that write (`StepOver`, `SelfWriteExample`).
- An address allocated twice within one step may be reported as released (`HeapAnswers`,
  `TieExample`).
- `get_var_value` packs the bytes it has: a range with a hole comes back shifted
  (`CoveredReadsEveryByte`, `HoleExample`).
- After running to the end the depth is 1 whatever the last step's depth is, so the stack trace
  is complete only when that depth is 1 (`Trace`, `TraceFromDepthOne`, `TraceExample`).
- The local-variable query lists a variable of the frame's own scope once per ancestor
  (`ListedOnceIffFunctionScope`, `BlockVariableExample`).
- A pointer variable is loaded from a buffer of the size of its base type, so only a part of the
  pointer to a small type is read (`PointerLoadedIff`, `IntPointerExample`).
- Pointer arithmetic steps by the size of the base type however deep the pointer is
  (`StepIsElementIff`, `PointerToPointerExample`).
- The bounds check of a subscript divides the block by the base type's size, so for a pointer to a
  pointer it lets indices past the block through (`CheckIsElementIff`, `PointerBlockExample`).
- Subscripting a pointer to an array yields an element of the array's base type, at its size
  (`SubscriptIdentity`, `SubscriptAddressIff`, `PointerToArrayExample`).
- The grammar's comment says that signed operands of a shift are cast to unsigned; they are not,
  and the evaluator reports an internal error, for bitwise operators too (`SignedBitOperandsFail`,
  `SignedBitExample`).
- Of a signed and an unsigned operand the signed one wins, where C lets the unsigned one win at
  equal or greater rank (`MixedComparesAsCIff`, `MixedExample`).
- A cast to a narrower integer keeps all 64 bits (`CastConvertsIffInRange`, `NarrowingExample`).
- A logical operator with a pointer on its left is taken for pointer arithmetic
  (`LogicWithNumberLeft`, `LogicWithPointerLeft`, `PointerLogicExample`).
- Every pointer subtraction that the grammar accepts is refused by the evaluator, whose guard
  has a doubled negation (`PointerSubtractionRefused`, `SubtractionExample`).

## Model

| member | source | states |
|---|---|---|
| EndToEnd.RecordThenExamine | examine/vars.c:547-600 | the whole path: for any run of the recorder, any stop in it and any run of its memory channel, the worker's table and Examine's query and copy loop return the bytes the child held at that stop, or at a function start at the latest earlier stop that was none, for any range cached by then or mapped by the child before |
| EndToEnd.MappedIsShown | record/run.c:695-702 | any range the child mapped before a stop lies in the pages the stop shows |
| EndToEnd.ShownIsChild | record/run.c:533-596 | the memory shown at a stop is the child's own at the moment the recorder was about to step over the stop shown |
| RecordedEvaluation.VariableIsChilds | examine/expressions/expression.c:266-277 | on the replayed log of any run, an integer variable in cached pages evaluates to the value in its type's range that is, modulo the type's size, the little-endian number of the child's own bytes at the stop shown; a pointer of at least eight bytes to the child's pointer |
| RecordedEvaluation.BlockIsLive | examine/vars.c:1024-1064 | on the heap table of any orderly run, a live block is reported with its size and another as released or unknown, unless the address is live and was allocated twice in its newest step |
| RecordedEvaluation.SubscriptInLiveBlock | examine/expressions/expression.c:302-315 | a subscript into a live block passes the check if and only if its element lies in that block |
| RecordedEvaluation.SubscriptInReleasedBlock | examine/expressions/expression.c:310-312 | a subscript into a block that was allocated and is no longer live is "released", whatever its index |
| RecorderTheorems.ReplayMatchesChild | record/run.c:499-536 | for every run and every non-start stop, the child's bytes at the moment it is stepped over are what every later log replays at that step, for any range in cached pages |
| RecorderTheorems.ReplayIsFaithful | record/memcache.c:193-309 | for every recorded stop of every run, replay gives the child's bytes at that stop, or at a function start those of the latest earlier stop that was none |
| RecorderTheorems.StopStandsInChild | record/run.c:507-596 | when the main loop is about to single-step, the last recorded stop is the child as it stands, on exactly the cached pages, and step_id counts the stops |
| RecorderTheorems.OneRowPerStep | record/db_workers.c:386-389 | over a whole run no two rows share address and step, so the unique index builds |
| RecorderTheorems.DirtyPagesArePending | record/run.c:687-694 | a stale page, and while the child runs an unprotected one, has a pending fault address; a non-empty queue means mem_dirty is or is about to be set; the child never runs with a reset unfinished |
| RecorderTheorems.DrainCleansCache | record/run.c:533-536 | after a drain the cache equals the child on all cached pages, the queue is empty and mem_dirty is clear |
| RecorderTheorems.StartIsNotDrained | record/run.c:533-536 | dirty memory is drained exactly at statements that are not a function's first; at a first one nothing is logged and all that is pending stays pending |
| RecorderTheorems.WritesNeedATouch | record/reset_dirty.c:146-150 | the child can write a page once it has touched it, which reports a fault, and not after a reset until it touches it again |
| RecorderTheorems.Handshake | record/run.c:209-236 | bpf_sem is handled breakpoint traps minus completed waits; while process_breakpoint works every event has been handled and the child is stopped |
| RecorderTheorems.NeverStuck | record/run.c:209-236 | no deadlock: while the child is stopped some recorder thread can move |
| RecorderTheorems.StopsAreFinite | record/run.c:493-612 | every step short of resuming the child decreases a measure, so each stop ends |
| RecorderTheorems.StartUpCache | record/memcache.c:105-135 | caching any disjoint memory map region by region gives a cache and log from which the runs may start, with exactly the pages of the map |
| MappedMemory.MmapIsCached | record/run.c:695-702 | every page of memory mapped during a run is cached, and shown, at every stop after the call |
| MappedMemory.BrkIsCached | record/run.c:707-714 | likewise every page between an earlier program break and a higher one |
| MappedMemory.CachedPagesStay | record/memcache.c:233-279 | pages never leave the cache |
| MappedMemory.NothingBeforeMapping | record/run.c:699-714 | a page not cached at a stop reads as nothing at every earlier step, whatever is mapped later |
| MappedMemory.BoundaryRun | record/run.c:707-719 | the callback's boundary, once it has handled what was reported, is the first program break and then the highest |
| RecorderInvariants.WaitedForEverything | record/run.c:224-228 | once bpf_sem lets the main loop through, no event is unhandled |
| RecorderInvariants.SyncStep | record/run.c:668-684 | every step of every party keeps the trap counters, the toggle and the semaphore in step, two traps per stop |
| RecorderInvariants.ResetStep | record/reset_dirty.c:97-157 | at any time at most one reset is triggered, running or unclaimed, and exactly when the main loop owes it a wait |
| RecorderInvariants.OpenStep | record/run.c:587-596 | every step keeps: an unprotected page has a pending fault or a reset ahead of it |
| RecorderInvariants.StaleStep | record/run.c:687-694 | every step keeps: a cached page equals the child's or has a pending fault |
| RecorderInvariants.RegionsStep | record/run.c:695-719 | every step keeps: announced regions not yet cached are readable and disjoint from the cache |
| RecordReplay.InvRun | record/run.c:493-723 | all invariants hold in every state of every run |
| RecordReplay.StopLog | record/run.c:533-536 | recording a stop keeps every earlier stop replayable, and skipping the drain at a function start leaves the previous stop's memory |
| RecordReplay.AddRegionLog | record/memcache.c:233-279 | adding a region changes no earlier replay and makes the new pages replay |
| RecordReplay.ProcessLog | record/memcache.c:193-217 | processing a page changes no earlier replay, keeps one row per address and step even when a page is queued twice |
| SegmentLog.NewestIsMaximal | examine/vars.c:550-566 | the row the query picks has the greatest step of that address at or before the asked one |
| SegmentLog.NewestIsDetermined | examine/vars.c:560-563 | under the unique index the query has one possible answer |
| SegmentLog.DeltaIsExact | record/memcache.c:203-216 | a page logs a segment if and only if it changed, with its new content, and nothing else for it |
| SegmentLog.NewestOfDelta | record/memcache.c:203-216 | a delta replaces the newest content of exactly the changed segments |
| SegmentLog.NewestOfRegion | record/memcache.c:269-276 | after a region is added every segment of it reads as the bytes just read |
| Replay.GetVarValue | examine/vars.c:547-600 | the buffer holds the recorded bytes of the range in address order, then zeros; the cursor stays inside |
| Replay.Cut | examine/vars.c:581-589 | the clamped copy never underflows and takes exactly the part of the segment inside the range |
| Replay.Assemble | examine/vars.c:578-592 | the fetch loop yields the concatenation of the clipped segments |
| Replay.QueryReads | examine/vars.c:556-566 | the segments the query selects, clipped and joined, are the recorded bytes of the range, including ranges inside one segment and neighbours that add nothing |
| Replay.CoveredReadsEveryByte | examine/vars.c:580-592 | the result has full length if and only if every byte was recorded, and then each is the newest at its address |
| Replay.HoleExample | examine/vars.c:580-592 | two bytes of which the first was never recorded: the second is returned in its place |
| Memdiff.Memdiff32 | record/memdiff.c:134-149 | true exactly when some byte differs, for every size |
| Memdiff.Memdiff16 | record/memdiff.c:167-182 | true exactly when some byte differs, for every size |
| Memdiff.Memdiff8 | record/memdiff.c:200-221 | true exactly when some byte differs, for every size |
| MemCache.FindRegion | record/memcache.c:158-172 | the binary search finds the region holding an address, or proves there is none |
| MemCache.PageCache.FindPage | record/memcache.c:154-176 | returns the page and its cached copy as a linear scan would, and 0 exactly when no region holds it |
| MemCache.UpdatePage | record/memcache.c:204-216 | the segment loop leaves the cached page equal to the child's and logs exactly its delta |
| MemCache.PageCache.ProcessPage | record/memcache.c:193-217 | one page of one region is brought up to date and its delta appended |
| MemCache.PageCache.ProcDirtyMem | record/memcache.c:293-309 | draining the queue on the sorted array refines draining it on the abstract mirror |
| MemCache.PageCache.AddRegion | record/memcache.c:233-279 | the array stays sorted, loses no region, gains the new one, and logs all its segments; refines the mirror |
| MemCache.RowsOfRegion | record/memcache.c:269-276 | the offset loop logs the segments of every page in order |
| MemCache.ScanInsert | record/memcache.c:246-259 | a linear scan of the array after insertion finds the new pages and all the old ones |
| MemCache.InsertIsSorted | record/memcache.c:236-259 | inserting at the scanned position keeps the array sorted and the regions apart |
| Channel.Queue.Write | record/channel.c:106-115 | the linked list holds its old contents and then the new message |
| Channel.Queue.Read | record/channel.c:168-199 | takes the first message and no other: end if and only if it has no payload, misread if and only if another size was expected, else its payload and size |
| ChannelProtocol.ChannelIsSafe | record/channel.c:101-200 | in every interleaving the length is semaphore + unposted writers + entitled readers, no reader meets a null head, reads are a prefix of writes, the mutex excludes |
| ChannelProtocol.ReaderFindsMessage | record/channel.c:163-172 | a reader holding the mutex after its wait finds a message |
| ChannelProtocol.NothingStranded | record/channel.c:116-124 | when all threads are idle the semaphore counts the whole queue |
| ChannelProtocol.SomeoneMoves | record/channel.c:101-200 | no deadlock: while any thread is inside a call, some thread inside one can go on |
| ChannelProtocol.FinishedWorkerHasEverything | record/channel.c:214-216 | once a channel's one worker has taken the end marker, it has itself taken exactly the messages written before it, once each and in order |
| DbWorkers.SentArrives | record/db_workers.h:51-63 | rows followed by the end marker arrive as exactly those rows |
| DbWorkers.Table.Drain | record/db_workers.c:339-374 | the worker commits exactly the messages before the end marker, in order, every 4096 rows and once at the end |
| HeapLog.HeapTable.Drain | record/db_workers.c:214-257 | the table is the fold of the messages: a row per allocation, closed by a free |
| HeapLog.RowsAreAllocations | record/db_workers.c:192-243 | a row is in the table if and only if it is some allocation with the step of the first free after it |
| HeapLog.HeapAnswers | examine/vars.c:1028-1051 | the newest row says released exactly when the block is not live, else gives its size, if and only if the address is not both live and allocated twice in its newest step |
| HeapLog.NoRowNotLive | examine/vars.c:1047-1052 | where the query finds no row the address is not live |
| HeapLog.TieExample | examine/vars.c:1037-1051 | malloc, free, malloc of one address in one step: a live block may be reported released |
| Scopes.ScopeAncestors | record/db.c:363-371 | the recursive query terminates on any table and yields exactly the transitive closure of parent |
| Scopes.InnermostAndAncestors | record/db.c:195-203 | the innermost scope and its ancestors, without the global scope, are exactly the scopes whose start is at or before and whose end is after the address |
| Scopes.SameDepthSameScope | record/dbginfo.c:667-669 | scopes of one depth that contain one address are the same, so the innermost scope is unique |
| Scopes.AncestorCount | record/dbginfo.c:590-594 | a scope at depth d has d + 1 ancestors |
| Scopes.LocalVariableRows | examine/requests.c:1288-1303 | how many rows the query returns for each variable: enclosing scopes once, the own scope depth + 1 times, others never |
| Scopes.ListedOnceIffFunctionScope | examine/requests.c:1288-1303 | every visible variable is listed once if and only if the scope is a function's |
| Scopes.BlockVariableExample | examine/requests.c:1297-1303 | in a block inside a function the block's variable is listed twice |
| StatementLookup.StatementCache.Lookup | record/run.c:429-476 | for any address and any remembered unit: what is found has that address; a cached address is found at its own line unless its unit has one line, which divides by zero; outside all units: NULL; between two statements: never found, NULL if and only if the search meets an interval under an arithmetic guard, division by zero if and only if it meets one of one line |
| StatementLookup.StatementCache.FindUnit | record/run.c:435-448 | the binary search finds the unit of an address if and only if there is one |
| StatementLookup.StatementCache.FindLine | record/run.c:452-475 | the loop, in 64-bit arithmetic with its bounds and divisor checked, comes to what the search function says |
| LineGaps.GapOutcome | record/run.c:457-475 | for every address between two statements of a unit: the search answers NULL if and only if it meets an interval of several lines that ends next to the gap and whose guess overshoots by 0 modulo 2^32; it divides by zero if and only if it meets an interval of one line; it never hits |
| LineGaps.GapRounds | record/run.c:460-469 | one round in a gap: inside it shrinks the interval and goes on; at one line it divides by zero; next to the gap it answers NULL exactly under the guard; the interval stays around the gap |
| LineGaps.GapCrosses | record/run.c:457-470 | within as many rounds as there are lines the search comes to an interval that ends next to the gap |
| LineGaps.GuessFromBelow | record/run.c:460-460 | from an interval that ends before the gap the guess is its end plus (address - lines[k]) * (k - l) / (lines[k] - lines[l]), cut to 32 bits |
| LineGaps.GuessFromAbove | record/run.c:460-460 | from one that starts after the gap the difference wraps, and the guess is its start plus (2^64 - (lines[k+1] - address) * (r - k - 1)) / (lines[r] - lines[k+1]), cut to 32 bits |
| LineGaps.LastGapDividesByZero | record/run.c:460-460 | between the last two statements of any unit, hence in every unit of two, the search divides by zero |
| LineSearch.CachedIsFound | record/run.c:457-475 | a cached address of a unit is found at its own line if and only if the unit has another line |
| LineSearch.ProbeCloses | record/run.c:460-469 | with the line between the bounds, a round finds it or moves a bound closer and keeps it between |
| LineSearch.EndlessIffForever | record/run.c:457-470 | the search is reported endless if and only if no number of rounds ends it |
| LineSearch.OneLineExample | record/run.c:460-460 | the one line of a unit, asked for, divides by zero |
| LineSearch.GapDividesByZero | record/run.c:460-460 | lines 10, 20, address 15: division by zero |
| LineSearch.GapLeavesArray | record/run.c:460-461 | lines 10, 12, 15, address 11: the difference wraps and the index leaves the array |
| LineSearch.GapNeverEnds | record/run.c:457-470 | lines 10, 12, 13, address 11: the same interval for ever |
| LineSearch.GapIsAbsent | record/run.c:471-473 | lines 10, 89, 100, 110, address 90: correctly not found |
| LineSearch.GuessInside | record/run.c:460-460 | between the bounds, the guess is too, is exact at the ends and strictly below right elsewhere |
| LineSearch.InterpolatedOffset | record/run.c:460-460 | in 64-bit arithmetic the offset does not wrap and reaches the end only at the end |
| Breakpoints.LowByteIsFirst | record/run.c:392-394 | replacing the low byte of a word replaces the first byte in memory and no other |
| Breakpoints.PokeSame | record/run.c:392-395 | peek, mask and poke at one address changes that byte only |
| TrapPatching.Tracee.PatchLines | record/run.c:357-400 | a trap at every line of a unit, every other byte kept, the true original byte saved, even where words overlap |
| TrapPatching.Tracee.SetBreakpoints | record/run.c:345-404 | over all units, code is the original with a trap at every cached address, and each entry holds its original byte |
| TrapPatching.Tracee.StepOver | record/run.c:574-609 | the child steps with the saved byte at pc; the code left is the instruction's with the trap in it if and only if the instruction did not write the seven bytes after the trap, which come from the word read before the step |
| TrapPatching.SelfWriteExample | record/run.c:605-609 | an instruction that writes the byte after itself: the old byte is back |
| TrapPatching.Tracee.StepAt | record/run.c:516-609 | a stop looked up by its address executes the original byte there and leaves the patched image unchanged; nothing is executed if and only if the statement is alone in its unit |
| TrapPatching.Tracee.StepAll | record/run.c:209-236 | over any sequence of stops, each executes the original byte and the image comes back; the sequence goes through if and only if no stop is alone in its unit |
| TrapPatching.Tracee.PatchAndStep | record/run.c:357-609 | set_breakpoints and any sequence of stops on the cache it filled: every byte executed at a stop is the one that was there before patching |
| CallStack.DepthRecorder.Record | record/run.c:524-532 | one stop: depth rises at a START before the row, falls at an END after it |
| CallStack.DepthRecorder.RecordAll | record/run.c:493-572 | for every well-bracketed execution the recorded depth is the number of live activations |
| CallStack.LiveUntil | record/run.c:524-532 | while an activation is live no shallower stop occurs, and a stop at its depth is its own, despite recursion and sibling calls |
| CallStack.FrameIsLastStop | examine/requests.c:382-382 | the last step at depth k is the last executed step of the k-th live activation |
| CallStack.StackTrace | examine/requests.c:362-386 | the trace lists, innermost first, exactly the last executed step of each live activation |
| CallStack.TraceFromDepthOne | examine/requests.c:1804-1804 | with depth fixed at 1 the trace is the whole stack if and only if the step is at depth 1 |
| CallStack.TraceExample | examine/requests.c:1804-1804 | a recording that ends inside a called function: the trace from depth 1 misses its frame |
| DebugSession.Debugger.Next | examine/requests.c:476-549 | lands no deeper, on another line, passing over nothing else; stays in its activation if and only if that goes on to another line, and then at the first such step; at the end nothing moves |
| DebugSession.Debugger.StepIn | examine/requests.c:564-631 | lands on the next stop: same activation, one just opened, or the caller's after an END |
| DebugSession.Debugger.StepOut | examine/requests.c:646-722 | nothing at depth 1; else lands in the caller's activation, the frame the trace shows next, with the outer stack unchanged |
| DebugSession.Debugger.StepBack | examine/requests.c:740-807 | the mirror image of next, with the latest earlier step; entry reported exactly at the first step |
| DebugSession.Debugger.Continue | examine/requests.c:959-1040 | stops on a line with a breakpoint, at the first such step after the contiguous run on the current line; with none, goes to the last step with depth 1 |
| DebugSession.Debugger.ReverseContinue | examine/requests.c:1055-1132 | the mirror image; with none, goes to the first step |
| DebugSession.Debugger.SetBreakpoints | examine/requests.c:822-944 | the file's breakpoints become those of the lines asked for that some step is on, other files' stay, and exactly those lines are verified |
| DebugSession.Debugger.Trace | examine/requests.c:362-386 | the frames are those of all live activations if and only if the current depth is that of the current step |
| DebugSession.Debugger.NextAndBack | examine/requests.c:766-771 | next and then stepBack, in an activation that goes on, ends on the line and in the activation it began in |
| DebugSession.Debugger.ContinueAndBack | examine/requests.c:1095-1105 | continue to a breakpoint and reverseContinue, from a breakpoint line, ends on that line at the end of its run |
| DebugSession.Debugger.Serve | examine/examine.c:165-236 | each request does to position and breakpoints what its own handler promises |
| DebugSession.Debugger.Session | examine/examine.c:165-236 | over any sequence of requests each leads from one position to the next as it promises; the last is a recorded step with its own line, and if the recording ends at depth 1 with its own depth and a right stack trace |
| Navigation.FetchForward | examine/requests.c:998-1008 | the fetch loop that skips same-line rows one by one finds the first row after the whole run whose file and line have a breakpoint |
| Navigation.RunForward | examine/requests.c:999-1003 | the run goes on exactly as long as the steps stay on the line |
| Navigation.RunBackward | examine/requests.c:1096-1100 | the same backwards |
| Navigation.FetchBackward | examine/requests.c:1095-1105 | the same backwards |
| Navigation.NextStaysInActivation | examine/requests.c:498-503 | next stays in its activation if and only if that has a later stop on another line, and lands on the first |
| Navigation.StepBackStaysInActivation | examine/requests.c:766-771 | stepBack stays in its activation if and only if that has an earlier stop on another line, and lands on the latest |
| Navigation.NeverDeeper | examine/requests.c:499-499 | next and stepBack never land deeper |
| Navigation.StepOutToCaller | examine/requests.c:658-681 | stepOut lands in the caller's activation, the one shown as the next frame, with the outer stack unchanged |
| Navigation.NextThenStepBack | examine/requests.c:766-771 | stepBack after a next that stayed returns to the same line and activation |
| Navigation.ContinueThenReverse | examine/requests.c:1095-1105 | from a breakpoint line, reverseContinue after a continue that hit a breakpoint returns to that line, at the end of its run |
| ExpressionSoundness.BuildTypes | examine/expressions/expr.y:217-604 | every integer expression is accepted, typed as the reference says, and every arithmetic and comparison node has operands of one kind |
| ExpressionSoundness.EvaluatesToReference | examine/expressions/expression.c:387-429 | where the reference semantics gives a value the built tree evaluates to it, with short-circuit logic |
| ExpressionSoundness.ArithAgrees | examine/expressions/expression.c:549-654 | signed operations are exact absent overflow, unsigned ones are modulo 2^64, with the casts the grammar inserts |
| ExpressionSoundness.RelAgrees | examine/expressions/expr.y:420-521 | comparisons compare as signed if either operand is |
| UsualConversions.MixedComparesAsCIff | examine/expressions/expr.y:431-432 | a signed and an unsigned operand compare as section 6.3.1.8 of C11 has it, for every operator, if and only if the signed type is the common one or the values lie on the same side, as spelt out |
| UsualConversions.EitherOrder | examine/expressions/expr.y:633-644 | it does not matter which operand is the signed one |
| UsualConversions.SameSignComparesAsC | examine/expressions/expr.y:433-436 | operands of one signedness and any sizes compare as in C |
| UsualConversions.MixedExample | examine/expressions/expression.c:571-572 | int -1 < unsigned 1 is true in the debugger and false in C |
| ExpressionSoundness.LogicAgrees | examine/expressions/expression.c:387-418 | and/or evaluate the right side only when the left does not decide, and yield 0 or 1 |
| ExpressionSoundness.BitsAgree | examine/expressions/expression.c:638-647 | bitwise operators, bit by bit from below, give the number whose binary digits C names; shifts by less than 64 give the product modulo 2^64 and the quotient by the power of two |
| ExpressionSoundness.NeverInternalError | examine/expressions/expression.c:472-476 | no integer expression whose shift and bitwise operands are unsigned reaches "internal error", whatever memory holds |
| ExpressionSoundness.SignedBitOperandsFail | examine/expressions/expr.y:390-417 | a shift or bitwise node is an internal error if and only if an operand is signed |
| ExpressionSoundness.CastConvertsIffInRange | examine/expressions/expression.c:447-461 | a cast keeps the bits, and is the conversion of C if and only if the resulting value lies in the target type's range |
| ExpressionSoundness.VariableAgrees | examine/expressions/expression.c:684-722 | a variable's value lies in the range of its type and is the little-endian number of its bytes modulo the type's size, for each size and sign |
| ExpressionSoundness.QuotientTruncates | examine/expressions/expression.c:562-569 | signed division truncates: the remainder is smaller than the divisor and has the dividend's sign |
| ExpressionSoundness.DivisionFailsIff | examine/expressions/expression.c:562-569 | an operation crashes if and only if it divides by zero or, signed, the quotient does not fit 64 bits |
| PointerExpressions.SumAddress | examine/expressions/expression.c:362-370 | for every pointer p and integer i, p + i keeps p's type and is p plus i times the size of p's base type modulo 2^64 |
| PointerExpressions.StepIsElementIff | examine/expressions/expression.c:369-369 | that step is the size of what p points to, for every i, if and only if p is no pointer to a pointer or its base type has eight bytes |
| PointerExpressions.SubscriptTypes | examine/expressions/expr.y:112-139 | p[i] is typed as *(p+i), and &p[i] as p+i, if and only if p points to no array or the array's base type is what p points to |
| PointerExpressions.SubscriptIdentity | examine/expressions/expression.c:289-336 | for every pointer p: p[i] and *(p+i) agree in type, address and value and &p[i] equals p+i, wherever in bounds, if and only if p points to no array or the array's base type is what p points to |
| PointerExpressions.SubscriptAddressIff | examine/expressions/expression.c:322-325 | for any pointer, in bounds, &p[i] equals p+i if and only if the two sizes times i agree modulo 2^64 |
| PointerExpressions.SubscriptOutOfBounds | examine/expressions/expression.c:302-321 | out of bounds p[i] is an error and p+i is not |
| PointerExpressions.SubscriptUnchecked | examine/expressions/expression.c:303-321 | no type size and released memory are errors of their own, a type without size crashes, memory of unknown extent is let through |
| PointerExpressions.SubscriptFails | examine/expressions/expression.c:290-300 | an operand that fails makes the subscript fail alike |
| PointerExpressions.ArraySubscript | examine/expressions/expression.c:293-326 | an array is subscripted at its own address: the element is reached if and only if it ends within the array, else out of bounds |
| PointerExpressions.VariableFailsIff | examine/expressions/expression.c:672-748 | a variable cannot be read if and only if its memory cannot, or it is neither a pointer nor an integer of 1, 2, 4 or 8 bytes; without an address it is an error of its own |
| PointerExpressions.PointerLoadedIff | examine/expressions/expression.c:672-683 | a pointer variable evaluates to the recorded pointer, whatever follows its buffer, if and only if the base type has at least eight bytes, or seven and the pointer's top byte is 0 |
| PointerExpressions.ShortPointerIsWrong | examine/expressions/expression.c:679-683 | with a shorter base type a pointer whose next byte is not 0 is never loaded right |
| PointerExpressions.CheckIsInsideBlock | examine/expressions/expression.c:302-321 | for a pointer, or an array of unknown dimension, on a heap block the check passes if and only if index + 1 objects of the base type's size lie in the block, and else says out of bounds |
| PointerExpressions.CheckIsElementIff | examine/expressions/expression.c:307-307 | the check is right for the element C names, at every index and block, if and only if the base type's size is that element's |
| PointerExpressions.PointerSubtractionRefused | examine/expressions/expression.c:350-356 | every pointer subtraction the grammar accepts is refused |
| OperandRules.ArithAccepted | examine/expressions/expr.y:288-386 | arithmetic is accepted for exactly: two numbers; a pointer plus or minus a number; two pointers of one size and depth for minus |
| OperandRules.PointerArithTypes | examine/expressions/expr.y:331-376 | a sum or difference with a number has the pointer's type, a difference of pointers is signed |
| OperandRules.BinaryAccepted | examine/expressions/expr.y:388-604 | comparisons and bitwise operators take exactly numbers, logical ones exactly numbers and pointers; all are unsigned |
| OperandRules.UnaryAccepted | examine/expressions/expr.y:186-253 | which operands each unary operator takes; dereferencing an address gives back the type |
| OperandRules.SubscriptTakes | examine/expressions/expr.y:112-139 | exactly pointers and arrays of known base type are subscripted, by integers |
| OperandRules.CastAccepted | examine/expressions/expr.y:272-284 | which casts are accepted, exactly |
| OperandRules.CastValue | examine/expressions/expression.c:430-461 | a cast keeps the bits of a number or pointer and makes an array its address |
| OperandRules.LogicWithNumberLeft | examine/expressions/expression.c:387-418 | with a number on the left, the logical operators yield the truth of numbers and pointers |
| OperandRules.LogicWithPointerLeft | examine/expressions/expression.c:350-371 | with a pointer on the left and a signed number on the right they subtract |
| OperandRules.PointerLogicExample | examine/expressions/expression.c:350-371 | (int *)1000 && -1 is 1004 |
| ExpressionExamples.IntPointerExample | examine/expressions/expression.c:672-683 | int *p holding 0x7FFF12345678 evaluates to something else |
| ExpressionExamples.PointerToPointerExample | examine/expressions/expression.c:369-369 | (int **)1000 + 1 is 1004 |
| ExpressionExamples.PointerBlockExample | examine/expressions/expression.c:307-307 | int **p on a block of 8 bytes: p[1] passes the check |
| ExpressionExamples.PointerToArrayExample | examine/expressions/expr.y:122-131 | int (*p)[3] at 1000: &p[1] is 1004 and p+1 is 1012 |
| ExpressionExamples.SubtractionExample | examine/expressions/expression.c:351-355 | p - 1 is accepted and then refused |
| ExpressionExamples.SignedBitExample | examine/expressions/expr.y:526-537 | -1 & 1 is an internal error |
| ExpressionExamples.NarrowingExample | examine/expressions/expression.c:455-461 | (signed char)300 stays 300 |

## Left out

Assumptions about the world:

- The state at record/run.c:201 is assumed to have every page protected and nothing pending. The
  first stop is single-stepped before monitoring starts (record/run.c:187-201), so what that one
  instruction writes is outside the model. That the cache mirrors the child is proved from the
  region-by-region start-up (`StartUpCache`).
- Regions are page-aligned, disjoint, not at address 0 and not empty, and child memory can be
  read. Unmapping is ignored, as in the code; remapping over a cached region and kernel writes
  into cached pages are excluded.
- A user-mode write faults on the first touch after a reset; events reach the callback in the
  order the child caused them; each stop has two SIGTRAPs.
- Child exit, other signals' effect on the main loop, and the `stop` flag: a run may end
  anywhere, and the theorems hold in every state.
- Addresses are between 32 and 2^63, so the queries' comparisons and `addr - 32` are those of
  integers. Grouped rows come back in address order.
- Database operations succeed, so there is no rollback; tables are sequences and queries are
  functions.
- The patched code and the recorded data memory are modelled separately.

Parts of the modelled functions:

- StatementLookup.StatementCache.Lookup: the product of a unit's span and line count is below 2^64 and
  the line count below 2^31; intervals already met are kept, which the code does not do, to tell
  an endless search.
- TrapPatching.Tracee.SetBreakpoints: the retry with a base address and ptrace failures are left
  out; addresses are absolute and words can be read at them.
- CallStack.DepthRecorder.RecordAll: long jumps are excluded by well-bracketedness; the code
  marks them as unhandled.
- CallStack.StackTrace: each address has one statement, and step ids count stops without gaps.
- DebugSession.Debugger.SetBreakpoints: a file the recording does not know is an error that changes
  nothing, which is left out.
- DebugSession.Debugger.Continue: file names are unique and breakpoints form a set of lines.
- HeapLog.HeapAnswers: a live address is not allocated again, reallocation in place or with a
  move and zero-size allocations do not occur. The fallback to the `mem` table for addresses off
  the heap is left out.
- ExpressionSoundness.EvaluatesToReference: the reference has no value for zero divisors, signed
  overflow, shifts by 64 or more, narrowing casts that lose bits and signed bitwise operands; the
  last two are settled by CastConvertsIffInRange and SignedBitOperandsFail. A shift by 64 or more
  is whatever the processor makes of it.
- RecordedEvaluation.BlockIsLive: an address without a heap row counts as unknown; the check that it
  belongs to recorded memory, which ends in the same answer for a subscript, is left out.
- PointerExpressions.SubscriptIdentity: what memory holds past a variable's buffer is the same each
  time an expression is evaluated. Of several errors in one subscript the first is reported; the
  code keeps the last message.
- Memdiff.Memdiff32: a vector comparison is equality of that many bytes; alignment is not
  modelled.
- MemCache.PageCache.AddRegion: the array is a sequence that is rebuilt, as in the code; freeing
  is not modelled.

Not modelled:

- memdiff64, which is never chosen for 32-byte segments.
- Floating point, struct fields, strings and sizeof in expressions, and the type tables behind
  the names.
- Propagation of type sizes in `alter_db`.
- libdwarf traversal, location expressions, ptrace, BPF loading, SQLite, sockets, JSON and the
  text of Debug Adapter Protocol responses, the frame list kept between requests.
- The step worker, which differs from the memory worker only in its row.
