# ZeroSum: a verified model

ZeroSum watches an MPI job from inside: a monitor thread samples threads and hardware once a period, looks for
deadlocks, and writes logs and CSV files that small tools post-process. This project models the parts of it that
carry state or a protocol, and proves what those parts promise over all inputs, all runs or all interleavings.

| files | what they model |
|---|---|
| `RandomWalk`, `RingExchange`, `RingProgress`, `RingConservation`, `RingProcess` | the ring-exchange example: the decomposition of the domain, all ranks as a transition system with rendezvous sends, its progress, what it does to the walkers, and one process with its round loop |
| `LuFactor` | the in-place LU factorisation example, its parallel row loop under every interleaving |
| `RankRanges`, `StackSpec`, `StackTree`, `StackGraph`, `StackScript` | merging per-rank call stacks: run compression, the meaning of the merge without a tree, the tree on the heap with its shared rank lists, the writer that sorts those lists in place, and the script as a whole with what the lines of its graph say |
| `Decimal`, `Json`, `Topology`, `TopologyJson`, `TopologyReadBack` | the hardware topology: the cache collapse, the printer that overwrites a comma, a JSON parser, and what a consumer of the file sees |
| `StopProtocol`, `Schedule`, `DeadlockDetector` | the monitor thread: stopping it, its sampling schedule, and the deadlock detector |
| `KeyOrder`, `Series`, `SeriesRead`, `SeriesOutput`, `SeriesRun`, `CpuTime` | the sample store: padded series, CSV output with a cursor and its columns read back, a store driven through updates and emissions, CPU-time accounting |
| `CpuList` | CPU lists such as `0-3,7` |
| `PointToPoint`, `PointToPointMerge`, `PointToPointRoundTrip` | message totals: recording, the summary in the log, the merger that reads it, and the two together |
| `Text`, `Collections` | the C++ string functions the readers rely on, and small facts about collections |

Run `dafny verify dfyconfig.toml`.

Conventions. Code that updates state is a class or a method with loops, proved against a function of its inputs or of
a ghost history; the theorems are lemmas about those functions. Machine integers are written out where they matter
(32-bit sizes and counters, 64-bit totals, the `int` bounds of `std::stoi`). An exception, a failed call or undefined
behaviour is an outcome of its own. A `std::map` is a Dafny map walked in key order.

Where a plausible claim is false of the code, the exact condition is proved instead, and an input that fails:

- With one rank the ring exchange waits for itself for ever (`RingProgress.DeadlockFreedom`, `RingProgress.LoneRankIsStuck`).
- The factorisation divides by zero exactly when some leading block of the input, short of the whole matrix, is singular (`LuFactor.PivotsFromInput`), even for an invertible matrix such as ((0, 1), (1, 0)) (`LuFactor.SwapFails`).
- The topology text is read back as the tree only if no name in it needs escaping, also by a reader that knows all escapes; the same holds for what a consumer sees of it (`TopologyReadBack.WriteTopology`; a name with a quote: `TopologyReadBack.QuotedName`).
- `total_time` is the sum of the eight raw counters only if the 32-bit wraps cancel (`CpuTime.GuestsCancel`; guest time ahead of user time: `CpuTime.GuestAhead`).
- A percentage is right only while 100 times its numerator fits 32 bits (`CpuTime.PercentageExact`; 42949673 ticks out of as many: `CpuTime.WrappedShare`).
- A percentage is at most 100 only if 100 times what its component rises by, as 32 bits keep it, is less than 101 times the time passed. Components that fall let others rise by more than that (`CpuTime.SampleShares`; iowait given back: `CpuTime.FallingIowait`).
- A printed CPU set with an element of 2^31 or more cannot be read back, and a range ending at 2^31 - 1 overflows its loop counter (`CpuList.PrintedListReads`, `CpuList.ListReads`; `CpuList.LargeElement`, `CpuList.RangeToMax`).
- A CSV row gives its host, field and value back only if they hold no comma and no line break: the writer puts them in quotes and escapes nothing, and a reader that splits at commas is misled (`SeriesRead.RowReadsExactly`; the value `a,b`: `SeriesRead.CommaInValue`).
- CSV rows written as one goes are fewer than those written at the end when a field comes late (`SeriesOutput.AgreeExactly`, `SeriesOutput.AgreeWhenNamed`; two updates: `SeriesOutput.LateField`).
- The merger of message totals gets through the logs only if every printed total is one `std::stol` can hold and every peer is a rank of the run (`PointToPointRoundTrip.MergeFinishes`; 2^63 bytes: `PointToPointRoundTrip.LargeTotal`).
- The sampling schedule bounds lateness by W only if W is at most the period (`Schedule.NoDriftExactly`; `Schedule.Drifts`), and within the period an iteration's own work delays the next one in full: its wait was computed before it (`Schedule.OnlyLastWorkCounts`).
- A comment in `src/utils.cpp` speaks of CPU use "in the last period"; the code tests the use since the thread started. So a deadlock is seen exactly when no sleeping thread has ever used the CPU (`DeadlockDetector.DeadlockSeenExactly`, `DeadlockDetector.DeadlockReportedExactly`; a worker that used one tick: `DeadlockDetector.UsedOnce`).

## Model

| member | source | states |
|---|---|---|
| RandomWalk.SubdomainsTile | examples/random_walk.cpp:38-52 | The slices tile the circle: a slice's end, wrapped, is the next rank's start; only the last slice reaches the end of the domain |
| RingExchange.TransferMatchesRounds | examples/random_walk.cpp:165-179 | In every reachable state an enabled transfer joins two different ranks in the same round and carries that round's message |
| RingExchange.ExecutionInv | examples/random_walk.cpp:156-182 | In every state of every interleaving each rank is where the round-by-round meaning of the program puts it, and neighbours' sends and receives are balanced |
| RingProgress.DeadlockFreedom | examples/random_walk.cpp:156-179 | No interleaving with rendezvous sends blocks before all ranks have done all rounds, if and only if there are at least two ranks |
| RingProgress.LoneRankIsStuck | examples/random_walk.cpp:165-171 | With one rank there is a run that blocks for ever |
| RingProgress.MessagesMatchRounds | examples/random_walk.cpp:85-113 | In every run, the message received in a round is the predecessor's message of that round |
| RingProgress.RunLength | examples/random_walk.cpp:155-182 | A run has at most 2 * rounds * ranks actions, and all ranks are done exactly when it has that many |
| RingConservation.Arrivals | examples/random_walk.cpp:67-83 | A walker that arrives in round m stands on the first position of the slice, still has steps, and has used at least m shares of them |
| RingConservation.RoundsSuffice | examples/random_walk.cpp:155-156 | After the computed number of rounds no walker is received, and the last message is empty |
| RingConservation.RoundsNeeded | examples/random_walk.cpp:155-156 | With one round less some walker is still on its way, unless the longest walk is a whole number of shares, on a ring long enough for it to meet full slices only |
| RingConservation.WalkersConserved | examples/random_walk.cpp:156-182 | In every state of every run, finished, waiting and in-flight walkers are as many as were created, for every property that walking keeps |
| RingConservation.DestinationIsInvariant | examples/random_walk.cpp:70-80 | location + remaining steps modulo the domain size is kept by walking and wrapping |
| RingConservation.WalkOnACircle | examples/random_walk.cpp:156-183 | Every complete run leaves all buffers empty and all walkers stopped, each within the slice of the rank it is on, as many on each point of the circle as independent walks would leave there |
| RingConservation.InterleavingsAgree | examples/random_walk.cpp:156-179 | Any two complete runs leave every rank in the same state |
| RingProcess.Process.Walk | examples/random_walk.cpp:67-83 | The step-by-step walk in place ends where the closed form says, and emits the walker exactly if its slice ends before its steps do |
| RingProcess.Process.WalkAll | examples/random_walk.cpp:157-161 | Walking the whole buffer in place is the Compute action of the ring for this rank: walkers and emitted walkers in order, the others settled |
| RingProcess.Process.SendOutgoing | examples/random_walk.cpp:85-94 | The call is the sender's half of the ring's Transfer: the rank goes to SendRank of itself, and the message is the one the transition system carries |
| RingProcess.Process.ReceiveIncoming | examples/random_walk.cpp:96-113 | The call is the receiver's half of the ring's Transfer: the rank goes to ReceiveRank of itself and the message |
| RingProcess.Process.Round | examples/random_walk.cpp:156-182 | A round given the predecessor's message of that round keeps the process on schedule and sends the round's own message, for even and odd ranks |
| RingProcess.Process.Run | examples/random_walk.cpp:140-183 | The round loop of a process that receives its predecessor's messages sends exactly the messages of the round-by-round program, and ends with empty buffers and the walkers of that program |
| LuFactor.LuCorrect | examples/main.cpp:48-66 | Unit lower times upper triangle of the final matrix gives the original, entry by entry, for every size, if no pivot used is zero |
| LuFactor.LuUnique | examples/main.cpp:48-66 | Any such factors of the matrix are the ones stored |
| LuFactor.PivotsFromInput | examples/main.cpp:51-55 | No pivot used is zero if and only if every leading block of the input but the whole matrix sends no non-zero vector to zero |
| LuFactor.SwapFails | examples/main.cpp:51-55 | ((0, 1), (1, 0)) is regular as a whole, yet the first division is by zero |
| LuFactor.PivotsExactly | examples/main.cpp:51-55 | Unit lower and upper factors with a non-zero leading diagonal exist exactly for the matrices on which no pivot used is zero |
| LuFactor.ScaleColumn | examples/main.cpp:53-55 | The pivot column below the pivot is divided by it; nothing else changes |
| LuFactor.UpdateRows | examples/main.cpp:57-64 | Under every interleaving of the row iterations the result is the one simultaneous row update, so the order does not matter |
| LuFactor.Pass | examples/main.cpp:51-65 | One pass takes the matrix after k eliminations to the matrix after k + 1 |
| LuFactor.Factorise | examples/main.cpp:48-66 | For a matrix with regular leading blocks, the product of the stored factors is afterwards the matrix the method was given |
| RankRanges.RangesExpand | src/post-processing/zs-stacks.py:90-93 | Expanding the ranges of any list gives the list back |
| RankRanges.RangesHaveGaps | src/post-processing/zs-stacks.py:90-93 | For increasing ranks, at least one absent rank lies between neighbouring ranges |
| RankRanges.RangesMinimal | src/post-processing/zs-stacks.py:90-93 | No list of intervals covering exactly the same ranks is shorter |
| StackSpec.GatheredOnce | src/post-processing/zs-stacks.py:52-70 | Joining the rank lists of all keys that extend a path gives each rank whose stack extends it exactly once |
| StackSpec.CountsAdd | src/post-processing/zs-stacks.py:55-69 | The ranks under a path are those under its one-frame extensions plus those whose stack is the path |
| StackSpec.DistinctInOrder | src/post-processing/zs-stacks.py:206-212 | A key stands before every key whose first occurrence is later |
| StackSpec.RanksOfIs | src/post-processing/zs-stacks.py:206-212 | A key's list holds exactly the ranks whose stack it is, in increasing order |
| StackTree.FindUnique | src/post-processing/zs-stacks.py:204-213 | Keys are the different stacks in order of first occurrence; each has its own list of exactly its ranks |
| StackTree.MatchingChild | src/post-processing/zs-stacks.py:60-66 | Among distinct siblings exactly one child has the frame if the longer path is a node, and none otherwise |
| StackTree.Scan | src/post-processing/zs-stacks.py:60-66 | The scan without break enters the matching child once and only it, although it moves the current node while it iterates |
| StackTree.Descend | src/post-processing/zs-stacks.py:59-70 | One frame keeps the tree well formed with distinct siblings in the order of their indices, parents with smaller indices and exact counts, and adds at most the one new path |
| StackTree.AddStack | src/post-processing/zs-stacks.py:52-70 | One stack adds exactly its prefixes to the tree and its ranks to exactly the nodes on them |
| StackTree.DotStacks | src/post-processing/zs-stacks.py:47-71 | The node paths are the root and the prefixes of the keys, siblings differ, indices differ, and counts are the lengths of what the nodes have gathered |
| StackGraph.SortRanks | src/post-processing/zs-stacks.py:131 | Sorting a list object that other nodes share keeps every node's ranks and unsorts none of the lists already sorted |
| StackGraph.WriteNode | src/post-processing/zs-stacks.py:115-135 | Exactly two lines, the node's with its count and share and then its edge's with count and the ranges of its sorted ranks |
| StackGraph.WriteGraph | src/post-processing/zs-stacks.py:137-146 | The lines are those of all nodes in preorder, children in list order, and every list but the root's ends up sorted |
| StackGraph.PreorderInOrder | src/post-processing/zs-stacks.py:137-146 | In the order of the lines a path comes before another if it is above it, or below an earlier child of the same path |
| StackScript.MergeStacks | src/post-processing/zs-stacks.py:217-218 | For any stacks, each node of the merged tree holds a rearrangement of the ranks whose stack extends its path, and no two nodes have the same index |
| StackScript.DrawGraph | src/post-processing/zs-stacks.py:220-224 | Afterwards every non-root node's list is exactly the increasing list of its ranks and its count is the length, the root's list is a rearrangement of all ranks, and indices differ. Every path has a node line with its last frame and its share of the ranks, followed by an edge line from the node of the path without that frame, with its count and exactly its ranks; every line is one of these, and an edge comes after the lines of both ends. It fails exactly when there are no stacks |
| StackScript.EachNodeOnce | src/post-processing/zs-stacks.py:137-146 | That preorder names every node of the tree exactly once, each after its parent and after all that is below its earlier siblings, that no two node lines carry the same index, and that there are two lines per node but one for the root |
| StackScript.CountsAddUp | src/post-processing/zs-stacks.py:55-69 | In the finished tree a node's count is its children's counts plus the stacks that end there |
| StackScript.EdgeLabels | src/post-processing/zs-stacks.py:129-132 | An edge's ranges expand to exactly the ranks below the child, in as few intervals as possible |
| Topology.CollapseIsSound | src/hwloc.cpp:296-311 | Dropping unshared caches keeps the leaves and all objects that are not caches in order, leaves no such cache, is idempotent, and changes exactly the trees that have one |
| Topology.UnsharedExactly | src/hwloc.cpp:297-308 | What is skipped are the objects of the eight cache kinds of which all children together are one normal child |
| TopologyJson.Wrap32Is | src/hwloc.cpp:282 | A size is kept as it is below 2^32 and otherwise modulo 2^32 |
| TopologyJson.CommaToBracket | src/hwloc.cpp:394 | The text appended for a non-empty list of children is the separated list plus one comma |
| TopologyJson.CloseList | src/hwloc.cpp:394 | The overwritten character is a comma at every call, and only it changes |
| TopologyJson.AppendChildren | src/hwloc.cpp:364-370 | A loop over children appends their printed descriptions with commas and adds their leaf counts modulo 2^32 |
| TopologyJson.BuildJson | src/hwloc.cpp:284-400 | The text is the printed description of the collapsed tree, and the size is its number of leaves modulo 2^32 |
| Json.ValueRoundTrip | src/hwloc.cpp:320-395 | Any value whose strings need no escape, printed and followed by anything that ends a value, parses back to itself and leaves the rest |
| Json.RoundTripExactly | src/hwloc.cpp:320-395 | A value printed without escapes is read back as itself, by a parser that knows every escape, if and only if none of its strings needs one |
| Json.FirstQuote | src/hwloc.cpp:320 | When a string's text is read, its first quote either ends it, with the same length only if the text before is clean, or is decoded at an earlier position than it stands |
| Json.ValueOnlyIfClean | src/hwloc.cpp:320-395 | If what is printed for a value, followed by anything that ends one, parses to that value, none of its strings needs an escape |
| TopologyReadBack.ReadDescribe | src/hwloc.cpp:312-396 | Looking members up by key in the description yields exactly the tree's names, details, depths, sizes and children in order |
| TopologyReadBack.CleanDescribe | src/hwloc.cpp:313-320 | The description needs no escape exactly when no text of the tree does |
| TopologyReadBack.ViewIsWellShown | src/hwloc.cpp:312-396 | Depths rise by one and every size is the number of leaves shown beneath the node, modulo 2^32 |
| TopologyReadBack.FullNameSays | src/hwloc.cpp:313-319 | A name is the type, then the subtype and the name if there are any, and for cores and hardware threads alone " L#" and digits that stand for the logical index, " P#" and digits that stand for the system's index |
| TopologyReadBack.ViewDepicts | src/hwloc.cpp:312-396 | Every node of the view has the name, detail and depth of its object, no use and no rank, and one child for each child of the object: memory, normal, I/O and miscellaneous, in this order |
| TopologyReadBack.LeavesShown | src/hwloc.cpp:360-396 | The names of the leaves that the view shows are those of the tree's leaves, in order |
| TopologyReadBack.WriteTopology | src/hwloc.cpp:284-400 | The emitted text parses, with nothing left over, to the collapsed tree if and only if no name in it needs escaping, although the parser decodes escapes; and a consumer that looks members up by key sees exactly that tree under the same condition: then each object is depicted with its name and indices, its children in order, sizes that count leaves, and the leaves of the tree before the collapse, in order |
| TopologyReadBack.SeenExactly | src/hwloc.cpp:312-396 | Whatever value a text with escapes may parse to, a consumer sees the tree in it if and only if no text of the tree needs escaping |
| TopologyReadBack.QuotedName | src/hwloc.cpp:313-320 | No consumer sees a machine whose name holds a quote |
| StopProtocol.RunInv | src/zerosum.cpp:103-119 | In every run the worker ends only after the flag is cleared, and the final log comes only after it has ended |
| StopProtocol.OneSamplePerTurn | src/zerosum.cpp:103-120 | While the flag is set, every completed turn of the loop has begun exactly one sampling step |
| StopProtocol.TurnsByTimeout | src/zerosum.cpp:117-119 | While the flag is set, the turns completed are the timeouts that occurred, less the one just being taken: a spurious wake-up goes back to the wait |
| StopProtocol.CrashKeepsRunning | src/zerosum.cpp:336-346 | After a crash was handled, a shutdown that had not begun leaves the flag set and stops nothing |
| StopProtocol.CrashedRun | src/zerosum.cpp:336-346 | A run in which that happens |
| StopProtocol.StopsSoon | src/zerosum.cpp:345-349 | Once the flag is cleared, the worker begins at most one more sampling step and takes at most five more steps, even if the notification is missed |
| StopProtocol.WorkerCanMove | src/zerosum.cpp:117-119 | Until it has ended some step of the worker can be taken, and each one decreases the measure; then the join returns |
| StopProtocol.NothingAfterJoin | src/zerosum.cpp:349-364 | No worker step, hence no sampling, follows the join |
| StopProtocol.LateSample | src/zerosum.cpp:107-112 | A run in which one more sample and five more steps do happen: the bounds are met |
| StopProtocol.MissedNotification | src/zerosum.cpp:117-119 | A run in which the notification falls before the block and only the timeout can end the wait |
| Schedule.RunLoop | src/zerosum.cpp:103-120 | Iteration k starts at t0 + k * period plus the lateness given by L' = max(0, L - period) + w |
| Schedule.LatenessIsBacklog | src/zerosum.cpp:103-120 | Starting on time, lateness is the largest backlog over all suffixes of the run |
| Schedule.NoDrift | src/zerosum.cpp:91-120 | If no iteration works longer than W, at most the period, every iteration starts within W of its nominal time |
| Schedule.OnlyLastWorkCounts | src/zerosum.cpp:104-118 | Under that bound the lateness is exactly the last iteration's work |
| Schedule.NoDriftExactly | src/zerosum.cpp:91-120 | The bound W holds for all runs with work times up to W if and only if W is at most the period |
| Schedule.Drifts | src/zerosum.cpp:91-120 | Two iterations of two ticks with a period of one end three ticks late |
| DeadlockDetector.Detector.IsRunning | src/utils.cpp:169-219 | The verdict is that of the pure rule, and the memory changes only for a main thread in R |
| DeadlockDetector.Detector.Sample | src/zerosum_pthreads.cpp:112-171 | The counter is that of the whole sample history, and the abort fires exactly when it reaches the duration |
| DeadlockDetector.RunningExactly | src/utils.cpp:190-219 | The number counted as running is that of the threads in a tracing stop, plus the threads other than the main one in R, plus those of them that sleep but have used the CPU, plus one for a main thread in R that does not look stuck |
| DeadlockDetector.RememberedIs | src/utils.cpp:196-211 | The static map holds, after any samples, the main thread's fault count when it was last seen in R, and nothing else |
| DeadlockDetector.TwoAwakeReset | src/utils.cpp:194-213 | Two threads each in a tracing stop, or in R and not the main one, reset the counter |
| DeadlockDetector.TracedWorker | src/utils.cpp:213 | With the main thread asleep and a worker in a tracing stop nothing is ever reported |
| DeadlockDetector.StreakIsTrailing | src/zerosum_pthreads.cpp:155-171 | The counter is the length of the trailing streak of samples with at most one running thread |
| DeadlockDetector.AbortExactly | src/zerosum_pthreads.cpp:155-171 | For a duration of at least one, a sample aborts exactly when it and the duration - 1 samples before it were all quiet |
| DeadlockDetector.SpinExactly | src/utils.cpp:192-207 | After any samples, a main thread that spins at one fault count while only the monitor runs adds one per sample to the counter if its remembered count makes it look stuck, and otherwise restarts it with the second sample |
| DeadlockDetector.SpinIsCaught | src/zerosum_pthreads.cpp:155-171 | A spin is reported within duration + 1 samples whatever came before, and in exactly duration samples from a zero counter at a known fault count |
| DeadlockDetector.SpinFromStart | src/utils.cpp:197-200 | From a fresh start the first sample of the spin does not count |
| DeadlockDetector.ProgressIsSafe | src/utils.cpp:197-210 | A main thread always in R with strictly growing minor faults keeps the counter at zero, whatever else runs beside the monitor |
| DeadlockDetector.DeadlockSeenExactly | src/utils.cpp:212-218 | When all threads but the monitor sleep, a sample adds one to the counter if no sleeping thread has ever used the CPU, and otherwise resets it |
| DeadlockDetector.DeadlockReportedExactly | src/zerosum_pthreads.cpp:155-171 | A deadlock lasting duration samples or more is reported by its last one if and only if no sleeping thread has used the CPU by then in any of the last duration samples |
| DeadlockDetector.UsedOnce | src/utils.cpp:214-215 | A deadlock with a worker that has used one tick of CPU time is not reported however long it lasts; with none used it counts at once |
| DeadlockDetector.PastUseHidesDeadlock | src/utils.cpp:214-215 | A sleeping thread that ever used the CPU, listed before or after any other running thread, resets the counter whatever the main thread does |
| Series.Store.UpdateFields | src/hardware.h:54-70 | After any update, entry j of a field is the j-th update's value or "0", and the length is one past the last update naming the field |
| Series.AddFields | src/software.h:92-111 | The same for the loop of extractFields, in whichever order the fields are visited |
| Series.FieldRow | src/hardware.h:86-109 | A field has a row exactly if all vectors the row reads are long enough; looking total_time up may add the key and changes no column |
| Series.StepToCSV | src/software.h:150-167 | The rows of a step are those of exactly the fields that have one, in key order |
| Series.Store.FieldsToCSV | src/software.h:145-170 | From a cursor within range, the rows of all steps from the cursor on, and the cursor moves to the end |
| SeriesRead.RowReads | src/software.h:159-166 | A row is one line; split at its commas it gives nine columns: host, rank, shmrank, step, kind, "Metric", id, field and value, the numbers scanning to what was printed |
| SeriesRead.RowReadsExactly | src/software.h:159-166 | It reads back so if and only if host, field and value hold no comma and no line break |
| SeriesRead.CommaInValue | src/software.h:159-166 | The value `a,b` is not read back |
| SeriesRead.ChunkReads | src/hardware.h:82-113 | Whatever is written for a range of steps, read back, is one record for each field with a row, step by step in key order, and nothing else |
| SeriesRead.RecordedValue | src/software.h:152-158 | A software thread's row shows the value the update brought, or 0 |
| SeriesRead.PercentageValue | src/hardware.h:86-110 | A hardware thread's row shows the floor of 100 times the field's rise over the rise of total_time |
| SeriesRead.ComponentValue | src/hardware.h:86-110 | For updates that bring what was stored for two lines, a component's row shows its share of the time passed |
| KeyOrder.BeforeIs | src/software.h:150 | The order of the keys is lexicographic |
| KeyOrder.SortedFrom | src/software.h:150 | Iteration visits the lexicographically least key first, and that key is unique |
| SeriesOutput.OutThen | src/software.h:145-170 | What is written after n updates does not depend on the later ones |
| SeriesOutput.IncrementalIsOneShot | src/hardware.h:82-113 | Chunks written between the updates join up to the one-shot output if and only if no row of an emitted step came late |
| SeriesOutput.AgreeExactly | src/software.h:145-170 | For every update log of either kind and all emission times, the outputs agree if and only if, at each emission, no field is still to get rows for the steps emitted |
| SeriesOutput.AgreeWhenNamed | src/software.h:145-170 | In terms of names, for software threads and for hardware threads whose updates all name total_time: if and only if each emission that writes any rows follows an update naming every field still to come |
| SeriesOutput.LateField | src/software.h:145-170 | For two updates, the second with one more field, and an emission between them, the outputs differ |
| SeriesOutput.SameKeys | src/hardware.h:82-113 | If all updates carry the same keys, the two outputs are the same text, for both kinds of series and any emission times |
| SeriesRun.Drive | src/hardware.h:54-113 | A store taken through updates and emissions in any order, with one cursor, writes the concatenation that the agreement theorems speak of |
| CpuTime.Account | src/utils.cpp:317-337 | The vector is corrected in place at user and nice only. The stored system, idle, iowait, irq, softirq, steal, guest and guest_nice are the counters as read, stored user and nice with their own guest time are those as read modulo 2^32, and the sums are sums of their components modulo 2^32 |
| CpuTime.StoredSums | src/utils.cpp:323-337 | The sums are stored as doubles under their names, and there are no other entries |
| CpuTime.StoredShown | src/utils.cpp:323-337 | The texts stored under the ten component names, with total_time, give the percentages of the stored numbers |
| CpuTime.GuestsCancel | src/utils.cpp:317-322 | total_time is the sum of the eight raw non-guest counters less 2^32 per carry, so it equals that sum if and only if the carries cancel |
| CpuTime.GuestsCancelUnlessAhead | src/utils.cpp:317-322 | If the partial sums fit, it is that sum when guest time is within user and nice time, and 2^32 more otherwise |
| CpuTime.GuestAhead | src/utils.cpp:317-322 | With 5 ticks of user and 7 of guest time the total is 5 + 2^32 |
| CpuTime.PercentageOfText | src/hardware.h:71-81 | Storing the counters as text, totals with a decimal point, does not change a percentage |
| CpuTime.PercentageExact | src/hardware.h:71-81 | The percentage is the floor of 100 (a - b) / (c - d) if and only if 100 (a - b) fits 32 bits, and never more |
| CpuTime.WrappedShare | src/hardware.h:71-81 | 42949673 ticks are shown as 0 percent of themselves |
| CpuTime.PercentageAtMost | src/hardware.h:71-81 | A percentage is at most 100 if and only if 100 times the rise, modulo 2^32, is less than 101 times the time passed, whether the counter rises or falls |
| CpuTime.FloorsOfWhole | src/hardware.h:71-81 | Floored percentages of n parts of a whole add up to more than 100 - n and at most 100 |
| CpuTime.SampleShares | src/hardware.h:71-81 | For what is stored for any two lines: if time has passed, each of the ten percentages is at most 100 under exactly that condition, and their sum is at most 100 (passed + fallen) / passed, less by under 10 unless a product with 100 wraps, where fallen is what components lost between samples with totals within 32 bits |
| CpuTime.FallingIowait | src/hardware.h:71-81 | When 50 ticks of iowait are given back while user time rises by 100, user time is shown as 200 percent |
| CpuTime.SamplePercentages | src/hardware.h:71-81 | If no component falls, each of the ten percentages and their sum are at most 100; the sum is at least 91 unless a product with 100 wraps |
| CpuList.ParseDiscreteValues | src/utils.cpp:42-82 | The loop that erases its input ends, and yields the token values in order or the first failure |
| CpuList.ListReads | src/utils.cpp:42-82 | A list of values and a-b ranges reads as the concatenation of what they stand for if every item fits an int and no range ends at its maximum; otherwise the call throws or overflows |
| CpuList.RangeToMax | src/utils.cpp:60-66 | The range of the one number 2^31 - 1 overflows the counter, while the number alone is read |
| CpuList.FirstFailure | src/utils.cpp:53-56 | If the first number of a range cannot be read, its failure is the outcome whatever the second one is |
| CpuList.ToString | src/utils.cpp:285-292 | The text of a set is the comma-separated list of its elements in order |
| CpuList.PrintedListReads | src/utils.cpp:285-292 | Reading a printed set gives its elements in increasing order if and only if all are at most 2^31 - 1 |
| CpuList.LargeElement | src/utils.cpp:285-292 | The printed set {2^31} is not read |
| PointToPoint.Process.RecordSentBytes | src/software.h:555-562 | The map holds exactly the peers of the history, each with its number of calls and sum of bytes modulo 2^64 |
| PointToPoint.Process.RecordRecvBytes | src/software.h:564-571 | The same for receives, and the sends are untouched |
| PointToPoint.Process.Summary | src/software.h:385-404 | The text is the heading and one line per peer in increasing order, sends before receives |
| PointToPointMerge.ReadLine | src/post-processing/mpi_p2p_merge.cpp:88-94 | A line with the keyword sets exactly its cell of the row, or the program fails exactly if a number is missing or out of range |
| PointToPointMerge.ReadLog | src/post-processing/mpi_p2p_merge.cpp:87-102 | Row i is the fold of the log's lines and the other rows are untouched |
| PointToPointMerge.Merge | src/post-processing/mpi_p2p_merge.cpp:62-105 | It finishes exactly if every line of every log can be read, with each row given by its log and zero for a missing log |
| PointToPointRoundTrip.LineReads | src/software.h:391-393 | A printed line is readable exactly if its peer is a rank and its numbers fit a long, and then gives back peer, calls and bytes |
| PointToPointRoundTrip.LineMentions | src/software.h:391-401 | A printed line is one line and only the branch of its direction sees it |
| PointToPointRoundTrip.LineWords | src/software.h:391-401 | The nine words of a line, with the direction, bytes, peer and calls in their places |
| PointToPointRoundTrip.SummaryLines | src/software.h:385-404 | The lines of a summary: an empty one, the heading, one per destination and then one per source in map order, and an empty one |
| PointToPointRoundTrip.SummaryTurns | src/software.h:385-404 | Reading one summary replaces the cells of the peers it lists and keeps the others |
| PointToPointRoundTrip.LogReads | src/post-processing/mpi_p2p_merge.cpp:87-102 | Reading a log with any number of summaries among unrelated lines leaves the totals at the last summary: a later one supersedes an earlier one |
| PointToPointRoundTrip.MergeFinishes | src/post-processing/mpi_p2p_merge.cpp:74-105 | For logs the processes wrote, the merger finishes if and only if every printed total is in range |
| PointToPointRoundTrip.LargeTotal | src/post-processing/mpi_p2p_merge.cpp:74-105 | Two sends of 2^62 bytes to one rank make a log that the merger fails on |
| PointToPointRoundTrip.MatricesExact | src/post-processing/mpi_p2p_merge.cpp:62-105 | Entry (i, j) is exactly the calls and bytes rank i recorded for rank j, and zero if there were none |
| Text.IntegerReads | src/utils.cpp:54-55 | What std::to_string prints, std::stoi and std::stol read back, if it is within their bounds |
| Text.LinesConcat | src/post-processing/mpi_p2p_merge.cpp:87 | std::getline splits a text made of whole lines piece by piece |

## Left out

- Random numbers: `initialize_walkers` draws the walk lengths; the model takes any lengths from 0 to the maximum. The overflow of a C `int` in the walk is not modelled.
- MPI itself: messages are reliable and ordered, a send completes only with its receive, and a world larger than the domain (where the program aborts) is excluded.
- Floating point: LU runs over exact reals, on matrices for which no pivot is zero; rounding, infinities and the uninitialised parts of the example's matrices are not modelled. The parallel loop is sequentially consistent.
- `zs-stacks.py`: reading gdb output (`parseFile`), label truncation and brackets (`printlist`), colours and number formatting. A frame is any comparable value, a line of the graph is a record rather than text. `Node.total` is a parameter and result rather than a class variable, and the name of the root is a parameter. `trees.py` has the same algorithm.
- `hwloc.cpp`: where the objects come from; `hwloc_obj_type_string` and `getDetailName` are inputs. An object's children are values, so sharing between them cannot be expressed. The `processed` set is only written.
- RFC 8259: numbers with a fraction or exponent, `true`, `false` and `null` are not in the parser. The writer emits none, and a reading already differs from the tree at the first string that needs an escape, before such a value could matter.
- The monitor thread: what `doOnce` and `doPeriodic` do is any work; signals, the time limit, the aggregator and `pthread_kill` are not modelled. The unsynchronised flag is read and written one step at a time, which is stronger than the C++ memory model gives. The wait may overshoot, which counts as work.
- `getpthreads`: reading `/proc`, and what happens after the abort signal.
- HWT and LWP hold the same vectors and one class models both, with a constant saying which rows it writes. Metadata fields, thread types, `hwthreads`, the first sample's step label (any number here) and the counters passed to PerfStubs, whose `std::stof` can throw, are not modelled.
- GPU and node series, and the one cursor that is passed through several writers: the invariants proved here do not hold for them.
- `parseProcStat` for lines with fewer than eleven numbers, which the code reads out of bounds; reading the file.
- `std::set` and `std::map` are given by their contents; `CpuList.ToString` takes the elements in iteration order.
- The merger's CSV writer, its missing-argument case, and log names. Concurrent calls of the recording functions.
- pthread lock counters: their start values are not set.
- SeriesOutput.AgreeWhenNamed: takes every update of a hardware thread to name total_time, as `parseProcStat` does (src/utils.cpp:337); SeriesOutput.AgreeExactly needs no such assumption.
- CpuTime.SamplePercentages: takes no component to fall between the samples; CpuTime.SampleShares is the statement for all samples.
