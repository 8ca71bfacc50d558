# Verified models of the libuv runtime in ExPTY

ExPTY bundles the libuv runtime (version 1.51.0). This project models the parts of that runtime
that hold its data structures and protocols together, and proves what they promise, for all
inputs, all runs and all interleavings. `dafny verify dfyconfig.toml` checks everything.

| files | what they model |
|---|---|
| `RedBlackShape`, `RedBlackTree` | the red-black tree of `tree.h` on its parent-linked nodes |
| `HeapShape`, `Heap` | the pointer-linked binary heap |
| `TimerSpec`, `TimerLaws`, `Timers` | the timers on the heap, with the two-phase pass whose callbacks may initialize, start, stop and close timers |
| `ThreadPool`, `ThreadPoolSafety`, `ThreadPoolProgress` | workers, submitters, cancellation and completion as interleaved steps between lock operations |
| `ThreadPoolCancel`, `ThreadPoolOrder`, `ThreadPoolDone` | which cancellations succeed and what becomes of the request; in which order requests are taken, and in which they are told |
| `Rfc3492` | the decoder of RFC 3492 with its named parameters, with and without the checks for overflow |
| `Punycode`, `Punycode32`, `PunycodeLimit` | the encoder of the source against these decoders, and which labels it refuses |
| `Utf8`, `Utf8Forms` | the UTF-8 decoder, and the byte sequences that it takes |
| `Idna`, `IdnaAnswers` | host names to ASCII: the loops on 32-bit numbers that write into a bounded buffer, and known answers |
| `Wtf8`, `Wtf8Forms`, `Wtf8Convert` | the conversions between UTF-16 and WTF-8, and the byte sequences that they take |
| `Async`, `AsyncProgress`, `AsyncCalls` | the wake-up protocol of async handles as interleaved atomic operations, and the calls of the callback that follow from it |
| `Barrier`, `BarrierCount` | the cyclic barrier as interleaved critical sections, and its numbers of calls and returns |
| `Inet`, `Inet6`, `InetConvert` | the printer and the parser of IPv4 and IPv6 addresses |
| `Inet6Grammar`, `InetAnswers` | the texts that are addresses, and which address each stands for; what is printed |
| `Queue` | the intrusive circular list on its pointers |
| `PowerOfTwo`, `Watchers`, `Handles` | the watcher table with the bit operations that size it, and the handle flags with the counter of active handles and closing |
| `Common` | sequences without repetitions, and types that several modules share |

Data structures and buffers are classes, arrays and loops in the form of the source, each proved
against a function or relation on values. What such a function computes is stated once more without it: as
a grammar, as the text of a standard with its own parameters, by known answers, or as what happens to a
request, timer or handle over a whole run. The shape of a linked structure is a ghost tree or
sequence, and the pointers are related to it through a map from nodes to links, so that most of
the reasoning is about values. The protocols are a state datatype, a datatype of steps, `Enabled`
and `Apply`, and an invariant that every step keeps; memory is sequentially consistent. Callbacks
are arguments: whatever they do to timers or handles is a list of operations that the theorem
quantifies over.

Where the code does not do what one would expect, the exact condition is proved:

- `uv_wtf8_to_utf16` aborts on U+10FFFF because the assertion in line 397 of `idna.c` says less
  than instead of at most. `Wtf8.AssertionHit` shows that of the texts that come from UTF-16
  exactly those of inputs with the pair DBFF DFFF hit it; `Wtf8.AssertionExample` is one.
- After `UV_ENOBUFS` the length that `uv_utf16_to_wtf8` reports is never too small, and it is exact
  if and only if the target was empty or had room for the first character (`Wtf8Convert.Copy`).
- `uv__utf8_decode1` tests only the exclusive or of the upper bits of three bytes and takes a
  longer lead byte for a shorter one at the end of the text, so it accepts some ill-formed input
  (`Utf8.AcceptsMore`). `Utf8Forms.ReadsForms` says exactly what it accepts, and `Utf8.AcceptsUtf8` which
  of that is UTF-8.
- `uv__wtf8_decode1` accepts forms of three and four bytes that are longer than needed, and surrogate
  pairs in two forms of three bytes. `Wtf8Forms.BackTrip`: a text comes back from UTF-16 as it was if and
  only if it has neither.
- `next_power_of_two` is right from 1 to 2^31 and 0 elsewhere (`PowerOfTwo.NextPowerIs`), so that
  `uv__io_start` fails with `UV_ENOMEM` for descriptor 2^31 - 2, which its assertion admits, and
  for no other as long as the allocator does not fail (`Watchers.Loop.Start`).
- The encoder of `uv__idna_toascii_label` refuses a label only when a delta of its own overflows
  (`PunycodeLimit.EncodesExactly`). A decoder that makes the checks of section 6.2 of RFC 3492 adds
  that delta to its index and may overflow all the same: `Punycode32.RoundTrip32` says exactly for which
  labels, and `Punycode32.LongLabelOverflows` is one. No label of at most 3854 code points is among them.
- The test `best.len == 7` in line 125 of `inet.c` can never decide anything: word 6 is then inside
  the run that is compressed. `InetConvert.PrintWord` keeps the test, and its contract does without it.

## Model

| member | source | states |
|---|---|---|
| RedBlackTree.Head.Insert | 3rd_party/libuv-1.51.0/include/uv/tree.h:351-379 | returns the member with an equal key and leaves the tree as it was, or returns null and the members are the old ones and the new one, in order; the tree stays red-black with consistent links |
| RedBlackTree.Head.Remove | 3rd_party/libuv-1.51.0/include/uv/tree.h:283-348 | takes any member out: the members in order are the old ones without it, and the tree stays red-black with consistent links |
| RedBlackTree.Head.InsertColor | 3rd_party/libuv-1.51.0/include/uv/tree.h:160-202 | restores the colours above a red node whose parent may be red, whatever the size of the tree, and keeps the members and their order |
| RedBlackTree.Head.InsertBelowLeft | 3rd_party/libuv-1.51.0/include/uv/tree.h:167-182 | one turn of the loop when the parent is a left child: the violation moves up two levels or is gone, members and order unchanged |
| RedBlackTree.Head.InsertBelowRight | 3rd_party/libuv-1.51.0/include/uv/tree.h:183-199 | the mirror case |
| RedBlackTree.Head.RemoveColor | 3rd_party/libuv-1.51.0/include/uv/tree.h:204-281 | makes up for one black node missing on a path; terminates; members and order unchanged |
| RedBlackTree.Head.RemoveBelowLeft | 3rd_party/libuv-1.51.0/include/uv/tree.h:211-243 | one turn when the short side is on the left: the shortage moves up or is gone |
| RedBlackTree.Head.RemoveBelowRight | 3rd_party/libuv-1.51.0/include/uv/tree.h:244-277 | the mirror case |
| RedBlackTree.Head.RemoveOuter | 3rd_party/libuv-1.51.0/include/uv/tree.h:332-347 | removal of a node with at most one child |
| RedBlackTree.Head.RemoveInner | 3rd_party/libuv-1.51.0/include/uv/tree.h:292-347 | removal of a node with two children, whose successor takes its place and colour |
| RedBlackTree.Head.Attach | 3rd_party/libuv-1.51.0/include/uv/tree.h:368-376 | linking the new node below the last one of the search |
| RedBlackTree.Head.Unlink | 3rd_party/libuv-1.51.0/include/uv/tree.h:334-343 | the child takes the place of the removed node |
| RedBlackTree.Head.Replace | 3rd_party/libuv-1.51.0/include/uv/tree.h:312-323 | the successor takes over the links of the removed node |
| RedBlackTree.Head.RotateLeft | 3rd_party/libuv-1.51.0/include/uv/tree.h:95-113 | the exact change of the pointers |
| RedBlackTree.Head.RotateRight | 3rd_party/libuv-1.51.0/include/uv/tree.h:115-133 | the exact change of the pointers |
| RedBlackTree.Head.RotateLeftAt | 3rd_party/libuv-1.51.0/include/uv/tree.h:95-113 | a rotation anywhere in a tree keeps links, members and order and gives the rotated shape |
| RedBlackTree.Head.RotateRightAt | 3rd_party/libuv-1.51.0/include/uv/tree.h:115-133 | the same to the right |
| RedBlackTree.Head.Find | 3rd_party/libuv-1.51.0/include/uv/tree.h:382-397 | returns the member with the key, or null exactly if there is none |
| RedBlackTree.Head.NFind | 3rd_party/libuv-1.51.0/include/uv/tree.h:400-418 | returns the least member that is not below the key, or null exactly if there is none |
| RedBlackTree.Head.MinMax | 3rd_party/libuv-1.51.0/include/uv/tree.h:464-477 | returns the first or the last member in order, or null |
| RedBlackTree.Head.Next | 3rd_party/libuv-1.51.0/include/uv/tree.h:421-440 | returns the member after the given one in order, or null for the last |
| RedBlackTree.Head.Prev | 3rd_party/libuv-1.51.0/include/uv/tree.h:443-462 | returns the member before the given one in order, or null for the first |
| RedBlackTree.Head.ForEach | 3rd_party/libuv-1.51.0/include/uv/tree.h:491-494 | visits exactly the members in ascending order |
| RedBlackTree.Head.ForEachReverse | 3rd_party/libuv-1.51.0/include/uv/tree.h:506-509 | visits exactly the members in descending order |
| RedBlackTree.Head.HeightIsBounded | 3rd_party/libuv-1.51.0/include/uv/tree.h:46-47 | every valid tree of n members has height at most 2 lg(n+1), as 2^height <= (n+1)^2, and no way down from the root passes more nodes |
| RedBlackShape.HeightBound | 3rd_party/libuv-1.51.0/include/uv/tree.h:46-47 | the same bound for the shape alone |
| RedBlackShape.HeightReached | 3rd_party/libuv-1.51.0/include/uv/tree.h:46-47 | the height is that of the longest way down |
| RedBlackShape.RemoveSibling | 3rd_party/libuv-1.51.0/include/uv/tree.h:211-218 | a short side never meets a missing sibling |
| RedBlackShape.RotatedOrder | 3rd_party/libuv-1.51.0/include/uv/tree.h:95-133 | a rotation does not change the order of the members |
| RedBlackShape.RotatedLeft | 3rd_party/libuv-1.51.0/include/uv/tree.h:95-113 | the pointers after a rotation hold the rotated tree, all else being as it was |
| RedBlackShape.RotatedRight | 3rd_party/libuv-1.51.0/include/uv/tree.h:115-133 | the same to the right |
| RedBlackShape.InsertRecoloured | 3rd_party/libuv-1.51.0/include/uv/tree.h:168-173 | recolouring parent, uncle and grandparent keeps the black heights and leaves at most the grandparent to be repaired |
| RedBlackShape.RemoveRepaired | 3rd_party/libuv-1.51.0/include/uv/tree.h:236-240 | the last rotation and colours make the tree red-black again |
| RedBlackShape.FindEnd | 3rd_party/libuv-1.51.0/include/uv/tree.h:382-397 | when a search has reached the bottom no member has the key |
| RedBlackShape.NFindEnd | 3rd_party/libuv-1.51.0/include/uv/tree.h:400-418 | the last left turn of a search is at the least member not below the key |
| HeapInl.Heap.Insert | 3rd_party/libuv-1.51.0/src/heap-inl.h:106-148 | adds a node in the next free place and sifts it up: a complete tree in min order with consistent links and exactly one more node |
| HeapInl.Heap.Remove | 3rd_party/libuv-1.51.0/src/heap-inl.h:150-237 | takes any node out, sifting the last one down or up in its place: complete, in order, consistent, exactly one node fewer |
| HeapInl.Heap.Dequeue | 3rd_party/libuv-1.51.0/src/heap-inl.h:239-241 | takes a least node out |
| HeapInl.Heap.Min | 3rd_party/libuv-1.51.0/src/heap-inl.h:67-69 | the root is a least node; null exactly if the heap is empty |
| HeapInl.Heap.NodeSwap | 3rd_party/libuv-1.51.0/src/heap-inl.h:72-104 | exchanges a node with its child, in every position of the two, with all links around them |
| HeapInl.Heap.Path | 3rd_party/libuv-1.51.0/src/heap-inl.h:119-124 | the bits of n lead from the root to place n, and the path fits where n does |
| HeapInl.Heap.Walk | 3rd_party/libuv-1.51.0/src/heap-inl.h:127-136 | following the path ends at place n |
| HeapInl.Heap.WalkUp | 3rd_party/libuv-1.51.0/src/heap-inl.h:146-147 | sifting up restores the order and keeps the set of nodes |
| HeapInl.Heap.WalkDown | 3rd_party/libuv-1.51.0/src/heap-inl.h:220-229 | sifting down restores the order below and keeps the set of nodes |
| HeapInl.Heap.Cut | 3rd_party/libuv-1.51.0/src/heap-inl.h:171-192 | unlinks the last node of the bottom row |
| HeapInl.Heap.Substitute | 3rd_party/libuv-1.51.0/src/heap-inl.h:195-214 | the last node takes the place of the removed one |
| HeapShape.RootLeast | 3rd_party/libuv-1.51.0/src/heap-inl.h:67-69 | in a tree whose parents are not above their children no node is below the root |
| HeapShape.Swapped | 3rd_party/libuv-1.51.0/src/heap-inl.h:72-104 | the pointers after an exchange hold the tree with the two nodes exchanged |
| HeapShape.FollowMore | 3rd_party/libuv-1.51.0/src/heap-inl.h:122-136 | one bit of the path is one step on the way from the root |
| HeapShape.MovedLast | 3rd_party/libuv-1.51.0/src/heap-inl.h:216-236 | putting the last node in any place leaves at most one violation, upwards or downwards |
| TimerSpec.ClampedSaturates | 3rd_party/libuv-1.51.0/src/timer.c:79-81 | the 64-bit sum that wraps is replaced by the greatest value: the due time is the lesser of the sum and that value |
| TimerSpec.Pass | 3rd_party/libuv-1.51.0/src/timer.c:165-195 | for callbacks that do anything to any timers and initialize new ones, a pass fires only timers that had expired at its start, each once, each after those with a lesser timeout and, at the same timeout, after those started before it; no timer that an earlier callback stopped, closed or started fires, and every expired one that does not fire was stopped, closed, started or set going again by a callback of the pass |
| TimerSpec.FiresInOrder | 3rd_party/libuv-1.51.0/src/timer.c:186-194 | the second loop ends with an empty queue, in a sound state, and fires a subsequence of the queue without repetition |
| TimerSpec.FiresUnlessWithdrawn | 3rd_party/libuv-1.51.0/src/timer.c:186-194 | a queued timer fires if and only if no earlier callback withdrew it |
| TimerSpec.AlwaysWithdraws | 3rd_party/libuv-1.51.0/src/timer.c:68-110 | stopping, closing or starting a timer in a callback withdraws it from the pass, whatever happened before |
| TimerSpec.NotAfterTaking | 3rd_party/libuv-1.51.0/src/timer.c:186-194 | no timer fires after the callback of an earlier one of the pass has stopped, closed or started it |
| TimerSpec.TakenBy | 3rd_party/libuv-1.51.0/src/timer.c:186-194 | an expired timer that does not fire was stopped, closed, started or set going again by a callback of the pass |
| TimerSpec.CollectStep | 3rd_party/libuv-1.51.0/src/timer.c:173-184 | the first loop moves the earliest timer and keeps what is queued in order |
| TimerSpec.ApplyKeeps | 3rd_party/libuv-1.51.0/src/timer.c:58-128 | every operation, the initialization of a new timer included, keeps the invariant: a queued timer is neither active nor closing, an active one has a callback; the queue loses exactly the timers that the operation withdraws |
| Timers.TimerLoop.RunTimers | 3rd_party/libuv-1.51.0/src/timer.c:165-195 | on the heap: what fires are timers that had expired at the start, each once, by timeout and then by the number of the start, none that an earlier callback took out, and every other; the new state is that of the firing sequence |
| Timers.TimerLoop.Collect | 3rd_party/libuv-1.51.0/src/timer.c:173-184 | the first loop queues exactly the expired timers, in order, and stops them |
| Timers.TimerLoop.Start | 3rd_party/libuv-1.51.0/src/timer.c:68-95 | EINVAL for a closing timer or no callback, otherwise restarts the timer; a timer is active iff its node is in the heap |
| Timers.TimerLoop.Stop | 3rd_party/libuv-1.51.0/src/timer.c:98-110 | takes the timer out of the heap or of the queue of the pass in progress |
| Timers.TimerLoop.Again | 3rd_party/libuv-1.51.0/src/timer.c:113-123 | EINVAL before the first start, otherwise restarts a repeating timer |
| Timers.TimerLoop.Close | 3rd_party/libuv-1.51.0/src/timer.c:198-200 | a closed timer is neither in the heap nor in the queue |
| Timers.TimerLoop.NextTimeout | 3rd_party/libuv-1.51.0/src/timer.c:144-162 | -1 iff no timer is active, 0 iff one is due, otherwise the time to the earliest one, at most INT_MAX |
| TimerLaws.StartSets | 3rd_party/libuv-1.51.0/src/timer.c:68-95 | the started timer is active, due at the sum of loop time and timeout or at 2^64-1 if that is less, with the number of the start, greater than all before; nothing else changes but that it leaves the queue of a pass |
| TimerLaws.StartRefuses | 3rd_party/libuv-1.51.0/src/timer.c:74-75 | a timer that is closing or has no callback is refused and nothing changes |
| TimerLaws.AgainSets | 3rd_party/libuv-1.51.0/src/timer.c:113-123 | a repeating timer is due again after its repeat and keeps it; any other is left as it is |
| TimerLaws.AgainRefuses | 3rd_party/libuv-1.51.0/src/timer.c:114-115 | a timer without a callback is refused and nothing changes |
| TimerLaws.StopSets | 3rd_party/libuv-1.51.0/src/timer.c:98-110 | a stopped timer is inactive and waits for no pass; nothing else changes |
| TimerLaws.SetRepeatThenAgain | 3rd_party/libuv-1.51.0/src/timer.c:113-128 | a new repeat counts from the next time that the timer is set going again |
| TimerLaws.CloseSets | 3rd_party/libuv-1.51.0/src/timer.c:198-200 | a closed timer is inactive, waits for no pass, and no start revives it |
| TimerLaws.TurnSets | 3rd_party/libuv-1.51.0/src/timer.c:186-193 | as its callback runs, a repeating timer is active again and due after its repeat, any other is inactive |
| TimerLaws.StartedFirst | 3rd_party/libuv-1.51.0/src/timer.c:44-53 | of two timers that are due at the same time the one that was started first fires first, whatever is done to other timers between, before and after the two starts, and during the pass |
| TimerLaws.AfterPass | 3rd_party/libuv-1.51.0/src/timer.c:186-194 | a timer that fires and is left alone by the callbacks is active after the pass if and only if it repeats, and is then due after its repeat |
| ThreadPool.NThreads | 3rd_party/libuv-1.51.0/src/threadpool.c:200-207 | 4 workers if the variable is not set, its value if that lies between 1 and 1024, 1 for 0, and 1024 for all other 32-bit integers |
| ThreadPoolSafety.InvKept | 3rd_party/libuv-1.51.0/src/threadpool.c:57-161 | each of the 21 steps of workers, submitters, cancellers and deliveries keeps the invariant |
| ThreadPoolSafety.Reachable | 3rd_party/libuv-1.51.0/src/threadpool.c:57-161 | the invariant holds in every state of every interleaving |
| ThreadPoolProgress.OnePlace | 3rd_party/libuv-1.51.0/src/threadpool.c:57-161 | in every interleaving a request that is not done is in exactly one queue or in the hands of exactly one thread, a done one in none, and no queue holds anything twice |
| ThreadPoolProgress.DoneOnce | 3rd_party/libuv-1.51.0/src/threadpool.c:309-332 | the done function is called at most once, with UV_ECANCELED if the work function never ran and with success if it did |
| ThreadPoolProgress.RunOnce | 3rd_party/libuv-1.51.0/src/threadpool.c:122-123 | the work function is called at most once and never after cancellation, so uv__cancelled, which aborts, is never called |
| ThreadPoolProgress.SlowBound | 3rd_party/libuv-1.51.0/src/threadpool.c:45-47 | slow_io_work_running is the number of workers on slow work, at most (nthreads+1)/2 and below nthreads for two or more; waiting slow work is announced in wq |
| ThreadPoolProgress.NoStall | 3rd_party/libuv-1.51.0/src/threadpool.c:72-79 | whenever there is ordinary work, or slow work while fewer than half of the workers, rounded up, run such, some worker is not blocked on the condition variable |
| ThreadPoolProgress.NoCyclicWait | 3rd_party/libuv-1.51.0/src/threadpool.c:54-56 | a holder of a wq_mutex waits for no lock, a holder of the global mutex only for the wq_mutex of its own loop |
| ThreadPoolProgress.NotStuck | 3rd_party/libuv-1.51.0/src/threadpool.c:57-161 | as long as some request is not done, a step is enabled that is neither a new submission or cancellation nor a spurious wake-up nor a look into an empty queue |
| ThreadPoolProgress.RankFalls | 3rd_party/libuv-1.51.0/src/threadpool.c:57-161 | each such step makes a measure of the remaining work smaller |
| ThreadPoolProgress.Drains | 3rd_party/libuv-1.51.0/src/threadpool.c:57-161 | from every reachable state and under every scheduling, at most that many such steps are possible, and when none is left every request is done |
| ThreadPoolProgress.Completes | 3rd_party/libuv-1.51.0/src/threadpool.c:57-161 | and such a run to the end exists |
| ThreadPoolProgress.TurnRank | 3rd_party/libuv-1.51.0/src/threadpool.c:67-118 | a turn of a worker lowers what is left to do, also when it only puts run_slow_work_message back at the end |
| ThreadPoolSafety.TokenCancel | 3rd_party/libuv-1.51.0/src/threadpool.c:289-291 | cancelling a request never takes the slow-work message out of the queue or strands waiting work |
| ThreadPoolSafety.SignalAwakens | 3rd_party/libuv-1.51.0/src/threadpool.c:157-160 | a signal after an insertion leaves some worker off the condition variable |
| ThreadPoolCancel.Decides | 3rd_party/libuv-1.51.0/src/threadpool.c:289-294 | a request that may be cancelled either waits, in the shared queue, the slow queue, or cancelled already in a queue of its loop, or has been begun by a worker, and never both |
| ThreadPoolCancel.CancelTakes | 3rd_party/libuv-1.51.0/src/threadpool.c:289-307 | cancelling a request that waits succeeds: the request is in the hands of the canceller and in no queue, and every other request is where it was |
| ThreadPoolCancel.CancelRefuses | 3rd_party/libuv-1.51.0/src/threadpool.c:293-300 | cancelling a request that a worker has or has run changes nothing but the locks and the program counter |
| ThreadPoolCancel.CancelledExactly | 3rd_party/libuv-1.51.0/src/threadpool.c:271-332 | in every run, a request whose cancellation was accepted never runs and is told UV_ECANCELED; one whose cancellation was refused is told success after it has run; nobody is told UV_ECANCELED without a cancellation that was accepted |
| ThreadPoolCancel.CancelSucceeds | 3rd_party/libuv-1.51.0/src/threadpool.c:289-332 | a request that waits when it is cancelled has been told UV_ECANCELED, without having run, at the end of every run of the steps that remain |
| ThreadPoolOrder.TurnTakes | 3rd_party/libuv-1.51.0/src/threadpool.c:69-118 | a turn of a worker: when it waits, which request it takes, ordinary or slow, what happens to the queues, and whom it wakes |
| ThreadPoolOrder.PostWakes | 3rd_party/libuv-1.51.0/src/threadpool.c:142-161 | a request goes to the end of its queue, slow work being announced once, and a waiting worker is woken if there is one |
| ThreadPoolOrder.FirstComeFirstServed | 3rd_party/libuv-1.51.0/src/threadpool.c:57-161 | in every run, of two ordinary requests or two slow ones the first to be queued leaves the queue first: while it waits, no worker has begun the other |
| ThreadPoolDone.FirstDoneFirstTold | 3rd_party/libuv-1.51.0/src/threadpool.c:309-332 | in every run, of two requests of a loop the one that is put first into its queue is told first, unless it is cancelled once more |
| ThreadPoolDone.LineMoves | 3rd_party/libuv-1.51.0/src/threadpool.c:109-117 | in every step a request joins the queue of its loop at the end, and leaves it at the front to be told, or where it is when it is cancelled |
| ThreadPoolOrder.SlowReached | 3rd_party/libuv-1.51.0/src/threadpool.c:45-47 | for every number n of workers there is a run in which (n+1)/2 of them run slow work at once |
| Punycode.RoundTrip | 3rd_party/libuv-1.51.0/src/idna.c:189-314 | for every label that is encoded, the decoder of section 6.2 of RFC 3492 on numbers of any size, written with the parameters and the adaptation of sections 5 and 6.1, gives back exactly its code points |
| Punycode.ScanRoundTrip | 3rd_party/libuv-1.51.0/src/idna.c:249-308 | at every point of the encoder, the digits that are still to come lead the decoder from the corresponding state to the whole label |
| Punycode.ReadIntText | 3rd_party/libuv-1.51.0/src/idna.c:261-287 | a variable-length integer is read back, for every value and bias, with whatever follows it |
| Punycode.Landing | 3rd_party/libuv-1.51.0/src/idna.c:240-247 | an encoded delta brings the decoder to the code point and the position where the encoder is |
| Punycode.Fits | 3rd_party/libuv-1.51.0/src/idna.c:243-256 | no label of at most 3854 code points is refused with E2BIG |
| Punycode.LastDelimiterAt | 3rd_party/libuv-1.51.0/src/idna.c:217-220 | the delimiter that the encoder writes is the last one of the text |
| Punycode.SameAdapt | 3rd_party/libuv-1.51.0/src/idna.c:289-305 | halving, dividing by 350 after the first delta, and the loop of the source give the bias of section 6.1 of RFC 3492 with its named parameters, for every delta and number of code points |
| Punycode.SameThreshold | 3rd_party/libuv-1.51.0/src/idna.c:266-272 | the threshold of every digit is that of sections 3.3 and 6.2 of RFC 3492 |
| Punycode.DigitIs | 3rd_party/libuv-1.51.0/src/idna.c:154 | the digits 0..35 are the letters and figures of the string in the source, in that order |
| PunycodeLimit.EncodesExactly | 3rd_party/libuv-1.51.0/src/idna.c:240-256 | a label is encoded if and only if for each of its code points beyond ASCII the number that the text has to say of it, taken from the label alone, is less than 2^32, and is refused with E2BIG otherwise |
| IdnaAnswers.UmlautsText | 3rd_party/libuv-1.51.0/src/idna.c:152-315 | the code points E4 F6 are encoded as 4ca0b |
| IdnaAnswers.SampleLText | 3rd_party/libuv-1.51.0/src/idna.c:152-315 | the sample (L) of section 7.1 of RFC 3492, of two ASCII characters and six ideographs, is encoded as 3B-ww4c5e180e575a65lsy2b |
| IdnaAnswers.SampleLLabel | 3rd_party/libuv-1.51.0/test/test-idna.c:200 | and its label is xn--3B-ww4c5e180e575a65lsy2b |
| IdnaAnswers.UmlautsLabel | 3rd_party/libuv-1.51.0/src/idna.c:217-220 | and the label of E4 F6 is xn--4ca0b |
| IdnaAnswers.Joined | 3rd_party/libuv-1.51.0/src/idna.c:339-358 | the texts of two labels are joined by a full stop |
| IdnaAnswers.Dots | 3rd_party/libuv-1.51.0/src/idna.c:331-345 | a label ends at the full stop and at U+3002, U+FF0E and U+FF61, and nowhere else |
| Punycode32.RoundTrip32 | 3rd_party/libuv-1.51.0/src/idna.c:189-314 | for every label that is encoded, the decoder of section 6.2 of RFC 3492 with its overflow checks on 32 bits gives the label back if and only if its index stays within 32 bits before each insertion, and fails otherwise |
| Punycode32.ShortRoundTrip32 | 3rd_party/libuv-1.51.0/src/idna.c:189-314 | every label of at most 3854 code points is encoded, and that decoder gives it back |
| Punycode32.LongLabelOverflows | 3rd_party/libuv-1.51.0/src/idna.c:240-247 | U+1061C2, 3999 letters and U+0080 are encoded without E2BIG, but that decoder fails on the result |
| Punycode32.ScanRoundTrip32 | 3rd_party/libuv-1.51.0/src/idna.c:249-308 | at every point of the encoder, the digits that are still to come lead that decoder to the label exactly when no later insertion overflows |
| Punycode32.ReadIntText32 | 3rd_party/libuv-1.51.0/src/idna.c:261-287 | a variable-length integer is added to the index if and only if the sum fits; the weight of a digit never overflows before the sum does |
| Idna.ToAscii | 3rd_party/libuv-1.51.0/src/idna.c:318-367 | a result that is not negative means that the whole text and a NUL were written and counts them; every error is characterised: EINVAL for an empty or undecodable name or a buffer that is too small, E2BIG for a label that does not fit 32-bit arithmetic; nothing outside the buffer changes |
| Idna.ToAsciiLabel | 3rd_party/libuv-1.51.0/src/idna.c:152-315 | writes the text of the label as far as the limit allows, or reports EINVAL or E2BIG exactly in those cases |
| Idna.PutDigits | 3rd_party/libuv-1.51.0/src/idna.c:222-314 | the loops on 32-bit numbers, none of which wraps, write the digits of the encoder or report E2BIG exactly if its delta does not fit |
| Idna.Scan | 3rd_party/libuv-1.51.0/src/idna.c:249-308 | one round of the loop |
| Idna.PutInt | 3rd_party/libuv-1.51.0/src/idna.c:261-287 | writes a variable-length integer; alphabet indices stay below 36, the loop ends, no number wraps |
| Idna.AdaptBias | 3rd_party/libuv-1.51.0/src/idna.c:289-305 | the loop computes the adaptation of section 6.1 of RFC 3492 without wrapping |
| Idna.Next | 3rd_party/libuv-1.51.0/src/idna.c:289-307 | the bias is that of the adaptation of section 6.1 of RFC 3492 |
| Idna.Advance | 3rd_party/libuv-1.51.0/src/idna.c:240-247 | the overflow test refuses exactly the sums that do not fit in 32 bits |
| Idna.Least | 3rd_party/libuv-1.51.0/src/idna.c:228-238 | finds the least code point that is not yet written |
| Idna.Count | 3rd_party/libuv-1.51.0/src/idna.c:177-187 | counts ASCII and other characters, or finds that the label does not decode |
| Idna.WriteBasic | 3rd_party/libuv-1.51.0/src/idna.c:197-212 | writes the ASCII characters and stops after the last of them |
| Idna.Put | 3rd_party/libuv-1.51.0/src/idna.c:207-208 | a byte is written only below the limit, and what is written is a prefix of the whole text |
| Idna.LabelRoundTrip | 3rd_party/libuv-1.51.0/src/idna.c:152-315 | an ASCII label is its own text; from any other the code points come back by decoding what follows "xn--", and with a decoder of 32 bits exactly when they are within its reach |
| Idna.HostRoundTrip | 3rd_party/libuv-1.51.0/src/idna.c:318-367 | splitting the text of a host name at its dots gives the text of each label, from which the label comes back; all four dots separate |
| Utf8.DecodesUtf8 | 3rd_party/libuv-1.51.0/src/idna.c:71-149 | the UTF-8 form of every scalar value decodes to it |
| Utf8.CharsUtf8 | 3rd_party/libuv-1.51.0/src/idna.c:177-187 | UTF-8 text decodes to its code points |
| Utf8.AcceptsUtf8 | 3rd_party/libuv-1.51.0/src/idna.c:71-149 | what decodes is UTF-8 if and only if the lead byte announces the length and the bytes after it are continuation bytes |
| Utf8.AcceptsMore | 3rd_party/libuv-1.51.0/src/idna.c:117-118 | two ill-formed inputs that decode |
| Utf8.Decode1 | 3rd_party/libuv-1.51.0/src/idna.c:138-149 | the position advances within the text, and the result is a scalar value or -1 |
| Utf8.EndsEarlier | 3rd_party/libuv-1.51.0/src/idna.c:331-344 | a character decodes the same way in its label as in the whole name |
| Utf8Forms.ReadsForms | 3rd_party/libuv-1.51.0/src/idna.c:71-149 | a character is read from the bytes up to a position if and only if these have one of the forms that are spelled out by byte ranges: which lead bytes, how many bytes after them, which of their marking bits, and the value of the others |
| Utf8Forms.Answers | 3rd_party/libuv-1.51.0/src/idna.c:71-149 | U+0041, U+00E9, U+20AC and U+1F600 in UTF-8 |
| Wtf8.RoundTrip | 3rd_party/libuv-1.51.0/src/idna.c:370-456 | units that are not zero, unpaired surrogates included, come back from WTF-8 as they were |
| Wtf8.AssertionHit | 3rd_party/libuv-1.51.0/src/idna.c:396-397 | the text of such units hits the assertion in line 397 if and only if they contain the pair DBFF DFFF |
| Wtf8.AssertionExample | 3rd_party/libuv-1.51.0/src/idna.c:396-397 | the pair itself is an input that does |
| Wtf8.DecodesWtf8 | 3rd_party/libuv-1.51.0/src/idna.c:28-68 | the WTF-8 form of every code point, surrogates included, decodes to it |
| Wtf8Forms.ReadsForms | 3rd_party/libuv-1.51.0/src/idna.c:28-68 | a code point is read from the bytes up to a position if and only if these have one of four forms: 00-7F, C2-DF, E0-EF or F0-F4 with none to three bytes of 80-BF after it, the value being that of their bits and at most U+10FFFF |
| Wtf8Forms.Strays | 3rd_party/libuv-1.51.0/src/idna.c:38-39 | a byte of 80-BF without a lead byte, and the bytes C0, C1 and F5-FF, are refused |
| Wtf8Forms.FormsWritten | 3rd_party/libuv-1.51.0/src/idna.c:504-529 | what is read is the form that the writer gives if and only if it is no longer than needed; overlong forms of three and four bytes are read as well |
| Wtf8Forms.Converts | 3rd_party/libuv-1.51.0/src/idna.c:370-409 | a text converts to UTF-16 if and only if it is a sequence of such forms up to its first NUL, and to their code points |
| Wtf8Forms.TextIs | 3rd_party/libuv-1.51.0/src/idna.c:411-457 | the text of the UTF-16 form of any code points, unpaired surrogates included, is the sequence of their forms |
| Wtf8Forms.PointsOf | 3rd_party/libuv-1.51.0/src/idna.c:411-425 | every sequence of 16-bit units is the UTF-16 form of such code points |
| Wtf8Forms.TextUtf8 | 3rd_party/libuv-1.51.0/src/idna.c:494-539 | for code points of Unicode that text is UTF-8 |
| Wtf8Forms.BackTrip | 3rd_party/libuv-1.51.0/src/idna.c:370-539 | a text that converts to UTF-16 comes back as it was if and only if no form in it is longer than needed and no lead surrogate stands before a trail surrogate |
| Wtf8Forms.Utf16Is | 3rd_party/libuv-1.51.0/src/idna.c:396-399 | the two units of a code point beyond U+FFFF, in numbers |
| Wtf8Forms.Answers | 3rd_party/libuv-1.51.0/src/idna.c:427-539 | the texts of U+0041, U+00E9, U+20AC, U+1F600 and of a lone surrogate |
| Wtf8Convert.LengthAsUtf16 | 3rd_party/libuv-1.51.0/src/idna.c:370-384 | is the exact length of the result with its NUL, or -1 exactly if the text does not decode |
| Wtf8Convert.ToUtf16 | 3rd_party/libuv-1.51.0/src/idna.c:387-409 | writes exactly the units, or aborts exactly if the text holds U+10FFFF |
| Wtf8Convert.LengthAsWtf8 | 3rd_party/libuv-1.51.0/src/idna.c:427-457 | is the exact length, for sources with a length and for those that end with zero |
| Wtf8Convert.PutChar | 3rd_party/libuv-1.51.0/src/idna.c:504-529 | writes the bytes of a character as far as they fit |
| Wtf8Convert.Fill | 3rd_party/libuv-1.51.0/src/idna.c:494-539 | fills the target with a prefix of the text and tells what is left |
| Wtf8Convert.Copy | 3rd_party/libuv-1.51.0/src/idna.c:494-559 | writes the text and a NUL if they fit; otherwise a prefix of it, with a length that is never below the true one and exact unless the target was not empty and too small for the first character |
| Wtf8Convert.Utf16ToWtf8 | 3rd_party/libuv-1.51.0/src/idna.c:460-560 | the three uses: measuring, a new buffer, a given buffer; with the reported length a retry succeeds |
| Async.NoLostWakeup | 3rd_party/libuv-1.51.0/src/unix/async.c:93-115 | in every state of every run a pending open handle that is not being closed has a token in the descriptor, or a sender before its write, or a pass that has yet to visit it |
| Async.WakeupProgress | 3rd_party/libuv-1.51.0/src/unix/async.c:160-210 | and then some thread can go on without a new send, init or close |
| AsyncProgress.Drains | 3rd_party/libuv-1.51.0/src/unix/async.c:93-210 | without a new send, init or close every run of the threads has at most Rank(u) steps, and at its end every handle that was pending has been visited and none is pending |
| AsyncProgress.RankFalls | 3rd_party/libuv-1.51.0/src/unix/async.c:93-210 | every step of a send that has begun, of the pass, and of the spin leaves less to do |
| AsyncProgress.Completes | 3rd_party/libuv-1.51.0/src/unix/async.c:93-210 | and there is such a run to the end from every state |
| Async.VisitsOnce | 3rd_party/libuv-1.51.0/src/unix/async.c:192-209 | a pass visits each handle at most once |
| Async.SilentForever | 3rd_party/libuv-1.51.0/src/unix/async.c:118-157 | after uv__async_spin has returned no sender writes to the descriptor for the handle, in any interleaving |
| Async.InvKept | 3rd_party/libuv-1.51.0/src/unix/async.c:93-210 | every atomic step of senders and loop thread keeps the invariant |
| Async.NoneWriting | 3rd_party/libuv-1.51.0/src/unix/async.c:132-149 | busy is 0 only if no sender is between its increment and its decrement |
| AsyncCalls.SendOwes | 3rd_party/libuv-1.51.0/src/unix/async.c:93-115 | the first step of a send, whatever it finds, leaves the callback owed |
| AsyncCalls.OwedUntilCalled | 3rd_party/libuv-1.51.0/src/unix/async.c:93-210 | a callback that is owed stays so, in every interleaving, until it is called or the handle is closed |
| AsyncCalls.Answered | 3rd_party/libuv-1.51.0/src/unix/async.c:93-210 | once the threads have come to rest, under every scheduling, the callback of a handle that was sent to has been called |
| AsyncCalls.CalledPerSend | 3rd_party/libuv-1.51.0/src/unix/async.c:105-209 | in every state of every run the callback was called exactly once for each exchange that found the handle not pending, but for the last one while the handle is pending |
| AsyncCalls.SilentOnceClosed | 3rd_party/libuv-1.51.0/src/unix/async.c:118-157 | in no run is the callback called after the handle is closed |
| AsyncCalls.OrderKept | 3rd_party/libuv-1.51.0/src/unix/async.c:192-209 | the handles are visited in the same order in every pass; a new one comes behind those that the pass has visited |
| AsyncCalls.ReadTakes | 3rd_party/libuv-1.51.0/src/unix/async.c:172-190 | a pass begins only when the descriptor is empty; a read takes at most 1024 bytes of a pipe and everything from an eventfd |
| AsyncCalls.TokensWritten | 3rd_party/libuv-1.51.0/src/unix/async.c:213-260 | the descriptor never holds more than its capacity or than was written |
| Barrier.Init | 3rd_party/libuv-1.51.0/src/thread-common.c:38-60 | a barrier for no threads is refused; any other starts empty, with the invariant |
| Barrier.InvKept | 3rd_party/libuv-1.51.0/src/thread-common.c:85-120 | every critical section, with spurious wake-ups, keeps the counters and the waiting threads in agreement |
| Barrier.ReturnsTogether | 3rd_party/libuv-1.51.0/src/thread-common.c:85-120 | no call returns before threshold calls have joined its generation, at most threshold return, and the one that returns 1 is the last of them |
| Barrier.Generational | 3rd_party/libuv-1.51.0/src/thread-common.c:101-114 | every generation that is over returned threshold calls and told exactly one of them; out > 0 implies in == 0 |
| Barrier.NotStuck | 3rd_party/libuv-1.51.0/src/thread-common.c:101-119 | a blocked thread waits for calls that have yet to join its own generation, or for one that a thread that is not blocked can leave |
| Barrier.Drains | 3rd_party/libuv-1.51.0/src/thread-common.c:85-120 | without new calls and spurious wake-ups the calls in the barrier take at most Rank(s) steps, and then fewer than threshold calls are left in it, all waiting in the generation that calls join now |
| Barrier.RankFalls | 3rd_party/libuv-1.51.0/src/thread-common.c:85-120 | every critical section of a call that has begun leaves less to do, with the wake-ups that it causes |
| Barrier.Completes | 3rd_party/libuv-1.51.0/src/thread-common.c:85-120 | and there is such a run to the end from every state |
| BarrierCount.WholeGroups | 3rd_party/libuv-1.51.0/src/thread-common.c:85-120 | in every state of every run, calls have begun for as many whole groups of threshold calls as any that returned belong to, and one in each complete group of returns was told 1 |
| BarrierCount.ToldOnce | 3rd_party/libuv-1.51.0/src/thread-common.c:114-119 | a call is told 1 if and only if the number of calls that have returned is then a multiple of the threshold |
| BarrierCount.AtRest | 3rd_party/libuv-1.51.0/src/thread-common.c:85-120 | when no thread in the barrier can go on, all calls have returned but those of an incomplete group |
| Inet.Exact4 | 3rd_party/libuv-1.51.0/src/inet.c:175-211 | inet_pton4 accepts a text with result b if and only if it is what inet_ntop4 prints for b |
| Inet.Parse4Exact | 3rd_party/libuv-1.51.0/src/inet.c:183-206 | what was read so far is always what would have been printed |
| Inet6.AddressRoundTrip | 3rd_party/libuv-1.51.0/src/inet.c:62-143 | inet_pton6 gives back every address that inet_ntop6 prints |
| Inet6.RoundTrip | 3rd_party/libuv-1.51.0/src/inet.c:214-298 | and does so whichever run of zeros is compressed |
| Inet6.FillsGap | 3rd_party/libuv-1.51.0/src/inet.c:278-293 | the bytes that "::" leaves out come back as zeros |
| Inet6.Text6Length | 3rd_party/libuv-1.51.0/src/inet.c:70 | no text is longer than 39 characters |
| InetConvert.Ntop6 | 3rd_party/libuv-1.51.0/src/inet.c:62-143 | prints the address into the 46 characters without exceeding them, compressing the first of the longest runs of at least two zero words (section 4.2 of RFC 5952), or reports ENOSPC exactly if the target is too small |
| InetConvert.FindBest | 3rd_party/libuv-1.51.0/src/inet.c:83-106 | finds that run |
| InetConvert.PrintWord | 3rd_party/libuv-1.51.0/src/inet.c:120-133 | one turn of the loop that prints, with the embedded IPv4 form |
| InetConvert.ToWords | 3rd_party/libuv-1.51.0/src/inet.c:80-82 | the words of the address |
| InetConvert.Ntop4 | 3rd_party/libuv-1.51.0/src/inet.c:48-59 | prints the address, or reports ENOSPC exactly if the target is too small |
| InetConvert.Pton4At | 3rd_party/libuv-1.51.0/src/inet.c:175-211 | the loop accepts exactly what the parser accepts and writes the result only then |
| InetConvert.ParseLoop | 3rd_party/libuv-1.51.0/src/inet.c:232-271 | the loop of inet_pton6 computes the parser |
| InetConvert.Shift | 3rd_party/libuv-1.51.0/src/inet.c:283-291 | the bytes after "::" move to the end in place, overlapping or not, with zeros in the gap |
| InetConvert.Complete | 3rd_party/libuv-1.51.0/src/inet.c:272-295 | the last word, the gap and the length test |
| InetConvert.Pton6To | 3rd_party/libuv-1.51.0/src/inet.c:214-298 | writes the result if the text is an address, and only then |
| InetConvert.Pton6Zone | 3rd_party/libuv-1.51.0/src/inet.c:153-167 | a zone after % is ignored, and refused after more than 45 characters |
| Inet6Grammar.Exact6 | 3rd_party/libuv-1.51.0/src/inet.c:214-298 | inet_pton6 accepts a text with a result if and only if the text stands for that address: eight groups, each a hexadecimal number below 2^16 in at most four digits of either case, the last two perhaps in dotted form, or fewer around one double colon that stands for zeros |
| Inet6Grammar.CaseBlind | 3rd_party/libuv-1.51.0/src/inet.c:216-240 | a text and its lower-case form are accepted alike, with the same address |
| InetAnswers.DecIs | 3rd_party/libuv-1.51.0/src/inet.c:53 | an octet is printed in decimal without leading zeros |
| InetAnswers.HexIs | 3rd_party/libuv-1.51.0/src/inet.c:133 | a word is printed in lower-case hexadecimal without leading zeros |
| InetAnswers.EmbeddedText | 3rd_party/libuv-1.51.0/src/inet.c:120-131 | an embedded IPv4 address is printed with dots after the two colons |
| InetAnswers.PlainText | 3rd_party/libuv-1.51.0/src/inet.c:108-141 | every other address is printed as hexadecimal words with colons, without those that are left out |
| InetAnswers.Text4Is | 3rd_party/libuv-1.51.0/src/inet.c:48-59 | four octets are printed with dots between them |
| InetAnswers.JoinMore | 3rd_party/libuv-1.51.0/src/inet.c:110-118 | words are printed with a colon between each two |
| InetAnswers.FirstRun | 3rd_party/libuv-1.51.0/src/inet.c:83-106 | of the two runs of zeros in 2001:db8:0:0:1:0:0:1 the first is the one that counts |
| InetAnswers.FirstRunText | 3rd_party/libuv-1.51.0/src/inet.c:83-106 | 2001:db8:0:0:1:0:0:1 is printed as 2001:db8::1:0:0:1 |
| Queue.InsertTail | 3rd_party/libuv-1.51.0/src/queue.h:77-83 | appends the link, for a ring of any length |
| Queue.Remove | 3rd_party/libuv-1.51.0/src/queue.h:85-88 | takes the link out of the ring it is in, without knowing its head, and leaves a link alone in its ring as it is; the pointers of the link itself stay |
| Queue.Split | 3rd_party/libuv-1.51.0/src/queue.h:51-60 | the elements from q on go to the other head |
| Queue.Move | 3rd_party/libuv-1.51.0/src/queue.h:62-67 | all elements go to the other head, the first is left empty |
| Queue.Empty | 3rd_party/libuv-1.51.0/src/queue.h:32-34 | tells whether there are elements |
| Queue.Head | 3rd_party/libuv-1.51.0/src/queue.h:36-38 | is the first element |
| PowerOfTwo.NextPowerIs | 3rd_party/libuv-1.51.0/src/unix/core.c:859-868 | the bit operations give the least power of two that is at least n for the numbers from 1 to 2^31, and 0 for all others of 32 bits |
| PowerOfTwo.BitsNumber | 3rd_party/libuv-1.51.0/src/unix/core.c:859-860 | the binary form of a number below 2^32 has that number as its value |
| Watchers.Loop.MaybeResize | 3rd_party/libuv-1.51.0/src/unix/core.c:870-903 | the table grows, by the bit operations, to the least power of two that holds what is asked for and two more, keeps its entries and gains empty ones; from 2^31 - 1 entries on the size wraps to 0 and it fails |
| Watchers.Loop.Start | 3rd_party/libuv-1.51.0/src/unix/core.c:917-948 | UV_ENOMEM exactly for descriptor 2^31 - 2; the wanted events are the old ones and the new ones, the watcher has the slot of its descriptor, and it is queued, at the end, exactly if the kernel knows other events than these; nfds stays the number of used slots |
| Watchers.Loop.Stop | 3rd_party/libuv-1.51.0/src/unix/core.c:968-996 | the wanted events are the old ones without those given; a watcher without any leaves queue and slot, any other is queued for the kernel |
| Watchers.Loop.Flush | 3rd_party/libuv-1.51.0/src/unix/linux.c:1406-1432 | tells the kernel of each queued watcher once, in order, to add or to modify it, after which the kernel knows what every watcher wants |
| Watchers.StartStop | 3rd_party/libuv-1.51.0/src/unix/core.c:917-996 | a start followed by a stop with disjoint events leaves the events of the start, and nothing else if none were wanted before |
| Handles.Loop.InitHandle | 3rd_party/libuv-1.51.0/src/uv-common.h:332-340 | a handle starts referenced and not active |
| Handles.Loop.Activate | 3rd_party/libuv-1.51.0/src/uv-common.h:289-295 | active_handles stays the number of handles that are active and referenced |
| Handles.Loop.StartHandle | 3rd_party/libuv-1.51.0/src/timer.c:74-92 | a closing handle is refused with EINVAL, any other becomes active, and the invariant of the handles holds |
| Handles.Loop.StopHandle | 3rd_party/libuv-1.51.0/src/uv-common.h:297-303 | the handle is inactive, and active_handles stays the number of handles that are active and referenced |
| Handles.Loop.RefHandle | 3rd_party/libuv-1.51.0/src/uv-common.h:305-312 | the same, closing handles included |
| Handles.Loop.UnrefHandle | 3rd_party/libuv-1.51.0/src/uv-common.h:314-321 | the same, closing handles included |
| Handles.Loop.CloseHandle | 3rd_party/libuv-1.51.0/src/unix/core.c:159-163 | the handle is stopped and put at the front of the list of closing handles, and no handle that is being closed is ever missing from the lists |
| Handles.Loop.FinishClose | 3rd_party/libuv-1.51.0/src/unix/core.c:303-365 | the handle is closed, unreferenced and its callback due, but a signal handle with signals in the pipe goes back on the list |
| Handles.Loop.Perform | 3rd_party/libuv-1.51.0/src/uv-common.h:289-340 | every operation of a program, on any handle in any state, has exactly its effect on the flags of that handle and none on others; every handle that is being closed stays in a list |
| Handles.Loop.CatchSignal | 3rd_party/libuv-1.51.0/src/unix/signal.c:196-217 | a signal is counted for a handle that is active, so for none that is closing |
| Handles.Loop.DispatchSignal | 3rd_party/libuv-1.51.0/src/unix/signal.c:479-487 | a signal taken from the pipe is counted, for closing handles too |
| Handles.Loop.RunClosing | 3rd_party/libuv-1.51.0/src/unix/core.c:368-380 | for callbacks that do anything to any handles, exactly the close callbacks of the handles on the list are called, each once, in the order of the list, except for signal handles with signals in the pipe, which are on the list again; the flags of all handles and the new list are what the callbacks make of them, performed in that order |
| Handles.Untouched | 3rd_party/libuv-1.51.0/src/unix/core.c:368-380 | a handle that no callback does anything with is closed and unreferenced afterwards if it was on the list, and otherwise as it was |
| Handles.WaitsOn | 3rd_party/libuv-1.51.0/src/unix/core.c:334-341 | a signal handle with signals in the pipe is on the list again afterwards, whatever the callbacks do |

## Left out

- Punycode.RoundTrip: its decoder computes on unbounded integers; the one with the overflow checks of the standard is that of Punycode32.RoundTrip32.
- RedBlackTree.Head.Insert: keys are integers and the comparison function is their order; the augmentation hook, empty by default, is not modelled.
- HeapInl.Heap.Walk: returns the owner and the side of the link where the source returns a pointer to the link.
- ThreadPoolCancel.CancelTakes: the return code of uv_cancel is the step that follows, and requests of types that it refuses with EINVAL are not modelled.
- ThreadPool: exit at shutdown, fork, failure to create threads, and other requests than those of the pool; uv_async_send is taken to make the loop run uv__work_done at any later time; done functions may submit and cancel, as those are steps of the loop thread.
- ThreadPoolProgress.Drains: runs without spurious wake-ups, as these have no bound.
- Timers.TimerLoop.Start: `timer_counter` is unbounded, so that it never wraps; time and timeouts wrap and saturate as in the source.
- Timers.TimerLoop.RunTimers: the queue of the pass is a sequence, with the removal of a stopped timer from it; the union of the heap node and the queue node is two fields. A callback that runs the loop itself is not modelled, nor is the reuse of a closed timer's memory for a new one.
- TimerSpec.Pass: the timers that callbacks initialize are new ones, as for Timers.TimerLoop.RunTimers.
- AsyncProgress.Drains and AsyncCalls.Answered: runs in which nobody begins a send, opens or closes, as new ones have no bound.
- AsyncCalls.CalledPerSend: a handle without a callback.
- Async: the registration of the descriptor, kqueue, fork, and the reuse of a handle's memory after it was closed; weaker memory orders than sequential consistency.
- Barrier.Drains: runs without new calls and spurious wake-ups, as these have no bound.
- Barrier: destruction of a barrier, failure to allocate it, and platforms with barriers of their own.
- Idna.ToAscii: names of 2^31 code points or more.
- Wtf8Convert.Utf16ToWtf8: failure to allocate the buffer.
- InetConvert.Pton6Zone: null arguments and other address families.
- Watchers.Loop.Start: other failures of the allocator; after UV_ENOMEM the model has no operations on the loop, whose table was given up. The two extra slots after the table are carried over but mean nothing here.
- Watchers.Loop.Flush: the system calls themselves.
- Handles.Loop.CloseHandle: handles that may stay active while closing (streams) or go on the list later (fs-poll).
- Handles.Loop.FinishClose: the destruction of streams and UDP handles, which call back the requests that are left.
- Handles.Loop.StartHandle: the flags only; the timer itself is that of Timers.TimerLoop.Start.
- Process spawning, terminals, file systems, streams, the delivery of signals and everything else in libuv and ExPTY that is a layer over the operating system.
