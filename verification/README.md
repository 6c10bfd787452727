# cserv in Dafny

A model of the hard core of cserv, a coroutine web server in C, with proofs of
what it keeps over every input and every run. All files form one project:
`dafny verify dfyconfig.toml`.

| files | what they model |
|---|---|
| `RbShape`, `RbLinks`, `RbTree`, `Ordered` | the intrusive red-black tree on linked nodes, and ordered descents over it |
| `TimerTree`, `TimerLink`, `Descent` | the two-level timer tree on linked nodes, its in-order sequence, and its narrowed comparison of deadlines |
| `Sched`, `Timers`, `Scheduler` | the scheduler's lists, timers and node pool, and its step functions |
| `Events`, `Worker`, `WorkerProof`, `WorkerRuns`, `WorkerTurns`, `WorkerLives` | a whole worker process as a transition system: scheduler, event loop, hooked calls, connection accounting; the turns of its main loop, the order of wakes, and its account of connections |
| `Wrap`, `TicketLock`, `Ring`, `LogLife`, `LogPass` | the ticket lock, the log ring and the life of a log slot, as interleaved atomic steps under sequential consistency |
| `Logger` | the log server: records, slots, the page and the file |
| `List`, `HashTable` | circular lists and the hash table of ordered buckets |
| `HttpLine`, `HttpLineProof`, `HttpTarget`, `HttpLineRoundTrip`, `HttpLineForms`, `HttpLineExact`, `HttpHeader`, `HttpHeaderRoundTrip`, `HttpDispatch`, `HttpHost`, `HttpConn`, `HttpBuiltIn`, `HttpServe` | the resumable request parser with the exact lines it takes, header dispatch, the request driver with handlers that write into the buffer, the built-in handlers, and requests end to end |
| `Seqs` | sequences and counting |

How the parts hang together. `RbRoot` methods write the C fields and carry a
ghost tree; a position in it is a subtree with its path to the root. A
`TimerTree` owns one tree of deadlines and one tree per deadline, and stands for
a map from deadline to ids; `Schedule` works on the in-order sequence of the
timer nodes, with their addresses and the pool, and stands for the same map with
the same `AddTimer` and `DropTimer`. `TimerLink` reads that sequence off the
linked trees and shows that the map determines it. `Sched` holds the step
functions on the map, `Schedule` is proved to perform them, and `Worker` runs them.

What is a parameter: the clock, memory (`memory`), the address of a fresh block,
the kernel's refusal to change what it watches (`willing`), the reported
descriptors (distinct, and registered), the accept lock's answer, the received
pieces and how the input ends (`fault`), the shape of the tree over an in-order
sequence, and the header handlers: functions of the hash, the span and the bytes
of a value that answer with a code, the bytes to leave there and what they record
in the request.

The clock may take any value at any time, with one condition on a worker's sleeps:
the deadline can be told from every live one by the narrowed comparison
(`Descent.Tellable`; deadlines in one window of 2^31 ms are enough,
`Descent.WindowEnough`). Without it the invariant fails: `WorkerRuns.ClockSet` gives,
for every worker size and every two deadlines that the narrowing confuses, a run in
which the clock is set between two sleeps and a coroutine ends in two places.

Where code and comments disagree, the code is followed: the header parser returns
0 per line and 100 at the end of the headers (`src/http/parse.c:794-799`, against
the comment at `src/http/parse.c:618`); any minor version 9 becomes version 0.9;
a coroutine whose timer node cannot be allocated is in no list (the comment at
`src/coro/sched.c:154` says it stays in the active list), which
`Sched.LostIsNowhere` states.

False as naively stated, with the exact condition proved:

- sleeping files a coroutine under its deadline in an ordered tree, and keeps it in one
  place: `TimerTree.TimerTree.Insert` and `Ordered.DescendNarrow` on linked nodes,
  `Scheduler.Schedule.ScheduleTimeout` and `Descent.FiledExact` on sequences, if and
  only if no comparison on the full-width search path changes (`Ordered.PathAgrees`,
  `Descent.PathSame`). Otherwise it joins another deadline, or its node is linked out
  of order and lost to the search (`Ordered.LinkedFound`); both are in the runs of
  `WorkerRuns.ClockSet`;
- a trylock finds the lock free: `TicketLock.SafeExact`, and a run at every counter
  width, `TicketLock.WrapBreaks`;
- a log slot is freed empty: `LogLife.FreedExact`, and a run, `LogLife.LateExitLoses`;
- the server reads each record once: `LogLife.TestExact`, `LogLife.PopExact` and
  `LogLife.ReadExact`, with two runs, `LogLife.LookBetweenRereads` and
  `LogLife.LookAroundRereads`, in which it looks while a new owner resets the indices;
- a log record is read back as it was written: `Logger.StoredExact`;
- the answer does not depend on the cuts: `HttpConn.BodyIndependent` for the body
  step and `HttpConn.StatusIndependent` for the whole request, with
  `HttpConn.SurplusDependsOnCuts`;
- register and deregister are inverses: `Events.AddDelRestores`, `Events.DelMirrors`;
- the arguments of a target are what follows its first '?': `HttpTarget.ArgsExact`;
- a handler is reached by its own name only: `HttpDispatch.HeaderReaches`, with
  `HttpHeader.HashCollides`;
- a Content-Length is the number it spells: `HttpBuiltIn.NumberExact`.

## Model

| member | source | states |
|---|---|---|
| `RbTree.RbRoot.RotateLeft` | src/util/rbtree.c:5-25 | the pointer writes of a left rotation, as a relation between the fields before and after, with nothing else changed |
| `RbTree.RbRoot.RotateRight` | src/util/rbtree.c:27-47 | the mirror image |
| `RbTree.RbRoot.RotateLeftAt` | src/util/rbtree.c:5-25 | a left rotation at any position keeps parent and child links consistent and turns the subtree there into its rotated form |
| `RbTree.RbRoot.RotateRightAt` | src/util/rbtree.c:27-47 | the mirror image |
| `RbTree.RbRoot.LinkNode` | src/util/rbtree.h:49-57 | a node linked red at any null link: links stay consistent and the tree is the old one with that node at exactly that position |
| `RbTree.RbRoot.InsertRecolor` | src/util/rbtree.c:57-62 | the red-uncle case recolours the three nodes and changes neither links nor order |
| `RbTree.RbRoot.InsertUnderLeft` | src/util/rbtree.c:55-74 | one turn of insert fix-up under a left parent (recolouring, or one or two rotations with the swap of node and parent) re-establishes the invariant strictly nearer the root and keeps the in-order sequence |
| `RbTree.RbRoot.InsertUnderRight` | src/util/rbtree.c:75-94 | the mirror image |
| `RbTree.RbRoot.InsertColor` | src/util/rbtree.c:49-99 | insert fix-up terminates, yields a red-black tree (black root, no red node with a red child, equal black counts, consistent links) and keeps the in-order sequence |
| `RbTree.RbRoot.EraseUnderLeft` | src/util/rbtree.c:108-134 | one turn of erase fix-up under a left child: all black counts repaired, or the missing black strictly nearer the root, or at a red node; order and nodes kept |
| `RbTree.RbRoot.EraseUnderRight` | src/util/rbtree.c:135-163 | the mirror image |
| `RbTree.RbRoot.EraseColor` | src/util/rbtree.c:101-168 | erase fix-up terminates with a possibly null node and a separate parent, and repairs the black counts without changing the in-order sequence |
| `RbTree.RbRoot.Unlink` | src/util/rbtree.c:216-228 | unlinking a node with at most one child, as a relation between fields |
| `RbTree.RbRoot.MoveSuccessor` | src/util/rbtree.c:186-211 | moving the successor into the place of a node with two children, as a relation between fields, both when it is the right child and when it is deeper |
| `RbTree.RbRoot.PutSuccessor` | src/util/rbtree.c:180-213 | that move spells the tree with the successor in the erased node's place and colour |
| `RbTree.RbRoot.Erase` | src/util/rbtree.c:170-233 | erasing any node of a red-black tree leaves a red-black tree whose in-order sequence is the old one minus exactly that node; all other nodes stay |
| `RbTree.RbRoot.First` | src/util/rbtree.c:236-246 | null exactly on the empty tree, otherwise the first node in order |
| `RbTree.RbRoot.EmptyRoot` | src/util/rbtree.h:40 | the root pointer is null exactly when the tree has no node |
| `RbTree.RbRoot.Clear` | src/coro/sched.c:156 | assigning RB_ROOT leaves a valid empty tree |
| `RbShape.InsertRecolorStep` | src/util/rbtree.c:57-62 | the insert invariant two levels up after recolouring |
| `RbShape.InsertRotateStepLeft` | src/util/rbtree.c:65-74 | the insert invariant becomes a red-black tree after the rotations |
| `RbShape.InsertRotateStepRight` | src/util/rbtree.c:85-94 | the mirror image |
| `RbShape.EraseSunkLeft` | src/util/rbtree.c:110-115 | the red-sibling case keeps the erase invariant one level deeper, below a red parent, so it happens at most once in a row |
| `RbShape.EraseSunkRight` | src/util/rbtree.c:137-142 | the mirror image |
| `RbShape.EraseRecolorLeft` | src/util/rbtree.c:116-120 | a black sibling with black children recoloured moves the missing black up one level |
| `RbShape.EraseRecolorRight` | src/util/rbtree.c:143-147 | the mirror image |
| `RbShape.EraseRepairedLeft` | src/util/rbtree.c:122-133 | the rotation cases restore all black counts |
| `RbShape.EraseRepairedRight` | src/util/rbtree.c:149-161 | the mirror image |
| `RbShape.HeightBound` | src/util/rbtree.c:53-96 | 2 to the height is at most (n + 1) squared: the height is at most 2 log2(n + 1) |
| `Ordered.FindKey` | src/coro/sched.c:55-72 | the binary descent returns a node exactly when the key is in the ordered tree, and that node has the key; it takes no more turns than the height, so at most 2 log2(n + 1) in a red-black tree |
| `Ordered.TurnsBound` | src/coro/sched.c:55-100 | a walk down a red-black tree of n nodes takes at most 2 log2(n + 1) turns |
| `Ordered.AddNode` | src/coro/sched.c:116-131 | descent, link and fix-up keep a red-black tree in key order and add exactly the node |
| `Ordered.PutNode` | src/util/rbtree.h:49-57 | linking at any empty link of an ordered red-black tree and rebalancing gives a red-black tree, in order if and only if the key belongs at that link |
| `Ordered.LinkedSorted` | src/coro/sched.c:162 | before rebalancing: in order if and only if the key belongs there |
| `Ordered.EraseNode` | src/coro/sched.c:74-81 | erasing keeps the order and removes exactly the node |
| `Ordered.NarrowExact` | src/coro/sched.c:140 | the int-narrowed difference decides like the full one if and only if the difference modulo 2^32 lies on its own side |
| `Ordered.NarrowAgrees` | src/coro/sched.c:140 | it does for deadlines less than 2^31 ms apart |
| `Ordered.NarrowConfuses` | src/coro/sched.c:140 | it does not for deadlines 2^32 ms apart |
| `Ordered.DescendNarrow` | src/coro/sched.c:133-151 | on linked nodes: the descent with the narrowed comparison ends at the node of the deadline, or at the link where it belongs, if and only if the narrowing changes no comparison on the full-width search path; the same bound on its turns |
| `Ordered.LinkedFound` | src/coro/sched.c:83-100 | the full-width search finds a node just linked if and only if its key belongs there; it never enters a subtree where the key does not belong |
| `Descent.DescentExact` | src/coro/sched.c:137-151 | in any one tree over an ascending sequence, that descent is right if and only if no comparison on the full-width search path is changed |
| `Descent.WalkExact` | src/coro/sched.c:137-151 | the same of any subtree whose neighbours lie on the right sides |
| `Descent.FiledExact` | src/coro/sched.c:133-164 | filed where the narrowed descent ends, the sequence stays ascending with the coroutine under its deadline if and only if no comparison on the path is changed |
| `Descent.SeekRight` | src/coro/sched.c:83-100 | over an ascending sequence the full-width search is right in a tree of any shape |
| `Descent.OffThePath` | src/coro/sched.c:137-151 | a live deadline compared wrongly off the path does no harm: three nodes, the middle one at the root |
| `Descent.TellableEnough` | src/coro/sched.c:137-151 | a deadline that the comparison tells from every live one is filed right in every tree |
| `Descent.WindowEnough` | src/coro/sched.c:137-151 | deadlines in one window of 2^31 ms can all be told apart |
| `Descent.SpanEnough` | src/coro/sched.c:137-151 | live deadlines within 2^31 ms of the new one are enough |
| `Descent.DescentConfuses` | src/coro/sched.c:137-151 | a deadline 2^32 ms after a live one is filed under the live one |
| `Descent.MislinkedBeside` | src/coro/sched.c:137-151 | any second deadline that the narrowing puts on the wrong side of a single live one is linked out of order, and the full-width search then misses it |
| `TimerTree.TimerTree.Insert` | src/coro/sched.c:133-164 | on linked nodes, for any deadline: both levels stay red-black on consistent links; the tree is in order, its map with the coroutine added under that deadline, if and only if the narrowing changes no comparison on the full-width path; otherwise the coroutine joins the group of another deadline, or its node is linked out of order |
| `TimerTree.TimerTree.AddHere` | src/coro/sched.c:147-150 | joining the group of a deadline that has one leaves all other trees untouched |
| `TimerTree.TimerTree.AddNew` | src/coro/sched.c:153-163 | a timer node is cleared, gets the coroutine, and is linked at the empty link where the descent ended: valid if and only if the deadline belongs there |
| `TimerTree.TimerTree.FindDeadline` | src/coro/sched.c:83-100 | a timer node exactly for the deadlines of the map, in at most 2 log2(n + 1) turns |
| `TimerTree.TimerTree.FindMember` | src/coro/sched.c:55-72 | a coroutine exactly for the ids of the group, in at most 2 log2(n + 1) turns |
| `TimerTree.TimerTree.Remove` | src/coro/sched.c:102-114 | the map loses the coroutine, and its deadline when the group is left empty; a coroutine that is not there changes nothing |
| `TimerTree.TimerTree.Recent` | src/coro/sched.c:262-269 | the earliest deadline of the map, or null when it is empty |
| `TimerTree.TimerTree.TakeEarliest` | src/coro/sched.c:288-292 | the earliest deadline leaves the tree exactly when it is due, its group intact |
| `TimerTree.TimeoutHandler` | src/coro/sched.c:271-281 | taking the root until the group is empty yields every id of the group once |
| `TimerTree.TimerTree.CheckTimeout` | src/coro/sched.c:283-296 | every coroutine with deadline at most now leaves exactly once, earlier deadlines first, and the map keeps exactly the later deadlines |
| `TimerLink.ForestListed` | src/coro/sched.c:133-164 | the in-order sequence of a valid two-level tree is an ascending sequence of timer nodes that stands for the same map |
| `TimerLink.MapFixesNodes` | src/coro/sched.c:133-164 | and it is the only one: two ascending sequences for one map agree in every deadline and group |
| `Timers.PutIsAdd` | src/coro/sched.c:153-163 | a node put into its gap of the in-order sequence is the map with one more deadline |
| `Timers.PutExact` | src/coro/sched.c:153-163 | a node put anywhere into the in-order sequence keeps it ascending if and only if it is put into its gap |
| `Timers.SetIsUpdate` | src/coro/sched.c:116-131 | changing one group changes the map at that deadline alone |
| `Timers.CutIsDrop` | src/coro/sched.c:110-113 | erasing a node removes that deadline alone |
| `Sched.DispatchPlaced` | src/coro/sched.c:196-233 | dispatch keeps every coroutine in exactly one of idle list, active list, timer tree or running, once, with ids 1 to the number created |
| `Sched.SleepPlaced` | src/coro/sched.c:342-349 | so does going to sleep under one's own deadline |
| `Sched.MisfiledExact` | src/coro/sched.c:137-151 | on the map, filed under the node of any deadline, it does if and only if that is one's own (whether the tree still finds that node is `Descent.FiledExact`) |
| `Sched.MisfiledTwice` | src/coro/sched.c:102-114 | a misfiled coroutine, once woken, is in the active list and in the timer tree |
| `Sched.MissedTwice` | src/coro/sched.c:102-114 | so is one whose own node is linked where the search misses it |
| `Sched.LostIsNowhere` | src/coro/sched.c:153-155 | without memory for a timer node the coroutine is in no list and no timer |
| `Sched.WakePlaced` | src/coro/sched.c:359-373 | so does waking a sleeping coroutine, at the head or the tail |
| `Sched.PickPlaced` | src/coro/sched.c:241-260 | so does switching to the first active coroutine |
| `Sched.FinishPlaced` | src/coro/sched.c:319-326 | so does returning to the idle list |
| `Sched.ExpirePlaced` | src/coro/sched.c:283-296 | so does an expiry pass |
| `Sched.SizesSum` | src/coro/sched.c:196-214 | idle, active, sleeping and running sizes sum to the number created, at most the maximum |
| `Scheduler.Schedule.constructor` | src/coro/sched.c:381-401 | an empty scheduler, its pool filled to a quarter |
| `Scheduler.Schedule.CreateCoroutine` | src/coro/sched.c:196-214 | a new id, one more than the last, unless the maximum is reached or memory is out |
| `Scheduler.Schedule.GetCoroutine` | src/coro/sched.c:216-233 | the head of the idle list, reset, or a new one when the list is empty |
| `Scheduler.Schedule.DispatchCoro` | src/coro/sched.c:328-340 | succeeds exactly when an idle coroutine or a slot and memory are there, and appends it to the active list |
| `Scheduler.Schedule.FindTimerNode` | src/coro/sched.c:83-100 | the full-width search over a tree of any shape; the node of a deadline, or the gap where it belongs, whenever the tree is in order |
| `Scheduler.Schedule.Descend` | src/coro/sched.c:133-151 | the same with the narrowed comparison, over a tree of any shape: the walk of `Descent` |
| `Scheduler.Schedule.MemcacheAlloc` | src/util/memcache.c:63-66 | pops the pool, or takes a block in use nowhere, and fails exactly when both are out; never a node that is in the tree |
| `Scheduler.Schedule.MemcacheFree` | src/util/memcache.c:68-71 | pushes the node, or gives it back when the pool is full; no node is in the pool twice or in pool and tree |
| `Scheduler.Schedule.NewTimerNode` | src/coro/sched.c:153-163 | a new node linked at the place where the descent ended, right or wrong, or memory is out and nothing changes |
| `Scheduler.Schedule.MoveToInactiveTree` | src/coro/sched.c:133-164 | filed where the descent ends, unless memory is out for a node that is needed; in order with the coroutine under its deadline if and only if no comparison on the path is changed; groups stay non-empty, pool and tree disjoint |
| `Scheduler.Schedule.RemoveFromInactiveTree` | src/coro/sched.c:102-114 | from a tree in order its map loses the coroutine, and an emptied node goes to the pool; a node that the search misses stays, in any tree |
| `Scheduler.Schedule.ScheduleTimeout` | src/coro/sched.c:342-349 | the running coroutine is filed where the descent ends, or lost exactly when memory is out for a node that is needed; every coroutine is then in one place, in a tree in order, if and only if it is filed and no comparison on the path is changed |
| `Scheduler.Schedule.IsWakeupByTimeout` | src/coro/sched.c:351-357 | reads the flag and leaves it cleared |
| `Scheduler.Schedule.WakeupCoro` | src/coro/sched.c:359-365 | the active list gains the coroutine at its tail, whatever the tree; with a tree in order the flag is cleared and it leaves the timer tree; when the search misses its node it stays in the tree |
| `Scheduler.Schedule.WakeupCoroPriority` | src/coro/sched.c:367-373 | the same with the active list gaining it at its head |
| `Scheduler.Schedule.RunActive` | src/coro/sched.c:241-260 | switches to the head of the active list and takes it out, exactly when there is one |
| `Scheduler.Schedule.Return` | src/coro/sched.c:319-326 | a finished coroutine joins the tail of the idle list and the main loop runs |
| `Scheduler.Schedule.RecentTimespan` | src/coro/sched.c:298-306 | 10 s without timers; otherwise the exact wait for the earliest deadline within 2^31 ms, and never a wait past it unless it is more than 2^31 ms overdue |
| `Scheduler.Schedule.TimeoutHandler` | src/coro/sched.c:271-281 | all of a group moves to the active tail with the flag set, each once |
| `Scheduler.Schedule.ExpireFirst` | src/coro/sched.c:292-294 | a due node leaves the tree for the pool and its group joins the active tail with the flag set |
| `Scheduler.Schedule.CheckTimeout` | src/coro/sched.c:283-296 | appends to the active list exactly the coroutines with deadline at most now, each once, in non-decreasing deadline order, sets their flags and no others, and leaves exactly the later deadlines |
| `Events.EventLoop.constructor` | src/event.c:86-107 | 128 descriptors more than asked for, none registered |
| `Events.EventLoop.AddFdEvent` | src/event.c:24-49 | range error, kernel refusal or the merged mask with the new callback |
| `Events.EventLoop.DelFdEvent` | src/event.c:51-71 | the mask without the event; the kernel's interest modified, deleted, or left as it was on a refusal |
| `Events.AddMirrors` | src/event.c:24-49 | kernel interest stays equal to the recorded masks, and then adding fails only for range or the kernel's own refusal |
| `Events.DelMirrors` | src/event.c:51-71 | kernel interest stays equal to the recorded masks if and only if the kernel agrees or is not asked to narrow its interest |
| `Events.AddDelRestores` | src/syscall_hook.c:160-165 | registering and deregistering puts all masks and kernel interest back if and only if that event of that descriptor was not registered before and the kernel does not refuse to leave another one |
| `WorkerProof.BootInv` | src/process.c:175-187 | the state after start-up satisfies the invariant |
| `WorkerProof.ExpiredKeeps` | src/coro/sched.c:283-296 | expiry keeps the whole invariant |
| `WorkerProof.WaitsKeeps` | src/syscall_hook.c:149-164 | registering and sleeping in a hooked call, until a deadline that can be told from the live ones, keeps it |
| `WorkerProof.ResumedKeeps` | src/syscall_hook.c:165-169 | deregistering and reading the flag after a hooked sleep keeps it |
| `WorkerProof.AcceptedKeeps` | src/process.c:160-167 | dispatching a handler for an accepted connection, or closing it, keeps it |
| `WorkerProof.LeaveKeeps` | src/process.c:108-121 | the end of a handler or of the accept loop keeps it, and ends the process only as the last one |
| `WorkerProof.PollKeeps` | src/event.c:73-84 | a batch of callbacks keeps it and moves exactly the named coroutines |
| `WorkerProof.RegisteredSleep` | src/event.c:73-84 | when the event policy runs, each registered descriptor names a coroutine in the timer tree that waits on that descriptor |
| `WorkerRuns.StepKeeps` | src/coro/sched.c:308-317 | every step of a worker keeps the invariant, its sleeps being until deadlines that can be told from the live ones (which steps follow which is in `WorkerTurns`) |
| `WorkerRuns.AlwaysInv` | src/coro/sched.c:308-317 | it holds in every state such a worker reaches |
| `WorkerRuns.OnePlaceEach` | src/coro/sched.c:166-260 | in every reachable state each created coroutine is in exactly one place, and the sizes sum to the number created, at most the maximum |
| `WorkerRuns.EventBatch` | src/event.c:73-84 | at every reachable policy step the active list is empty and a batch of distinct reported descriptors moves as many distinct coroutines, none twice (that such steps come is `WorkerTurns.OneTurn`, in which order they wake is `WorkerTurns.BatchOrder`) |
| `WorkerRuns.TimeoutFlagExact` | src/coro/sched.c:351-373 | a coroutine resumed in a hooked call reads the flag as true if and only if expiry, not an event, woke it; the flag is then cleared and its descriptor unregistered here and in the kernel |
| `WorkerRuns.OwnDescriptorsClear` | src/syscall_hook.c:149-173 | a running coroutine always finds its own descriptors unregistered, so a hooked call leaves them as it found them |
| `WorkerRuns.CountIsBusy` | src/process.c:103-173 | the connection count equals the number of coroutines not idle |
| `WorkerRuns.ZeroIsLast` | src/process.c:108-112 | the count is zero only after the accept loop saw stop and with every other coroutine idle |
| `WorkerRuns.GrantedHasSlot` | src/process.c:123-146 | from a passed check of worker_can_accept to the end of that accept, dispatch cannot fail for lack of a slot |
| `WorkerRuns.AskExact` | src/process.c:123-146 | with the accept lock, the check passes if and only if a coroutine, idle or new, can be dispatched |
| `WorkerRuns.MisfiledWait` | src/coro/sched.c:102-114 | from any reachable state, a hooked wait filed under another live deadline ends, after its event, in the active list and in the timer tree |
| `WorkerRuns.MislinkedWait` | src/coro/sched.c:102-114 | so does one whose own node is linked where the search misses it |
| `WorkerRuns.HandlingReached` | src/process.c:148-173 | for every size that schedule_init accepts, a worker with an accepted connection, its accept loop asleep until any given deadline, is reachable |
| `WorkerRuns.ClockSet` | src/coro/sched.c:137-151 | from there, with the clock set so that the connection is to wait until any other deadline: the step is one of the runs above if and only if the narrowing does not change their comparison, and otherwise its event leaves the coroutine in two places, filed under the accept loop's node or linked on its wrong side |
| `WorkerTurns.OneTurn` | src/coro/sched.c:308-317 | between two expiry passes of any run the event policy runs exactly once, with the active list drained exactly once before it and once after it |
| `WorkerTurns.PolicyFollows` | src/coro/sched.c:308-317 | after a drained first round the policy comes, for every list of distinct registered descriptors |
| `WorkerTurns.BatchOrder` | src/event.c:73-84 | at every reachable policy step the batch leaves the active list as the priority wakes in reverse order of report, then the others in order of report |
| `WorkerTurns.PickedInOrder` | src/coro/sched.c:241-260 | in any run up to the next policy step, what is queued is picked in the order of the queue |
| `WorkerTurns.BatchRuns` | src/coro/sched.c:241-260 | so the coroutines of a batch run in the order of the batch before the list is drained |
| `WorkerTurns.FallsAsleep` | src/coro/sched.c:342-349 | a nap, and a hooked wait that is registered, put the running coroutine into the timer tree until its deadline and the main loop runs |
| `WorkerTurns.WakesExactly` | src/coro/sched.c:271-373 | a step takes a sleeping coroutine out of the timer tree if and only if it is an expiry pass at or after its deadline, or a batch that reports the descriptor it waits on |
| `WorkerTurns.EventReached` | src/event.c:73-84 | for every size that schedule_init accepts, a run in which the event of the listening descriptor wakes the accept loop |
| `WorkerLives.Conserved` | src/process.c:103-173 | over any run the connection count changes by the connections that got a coroutine less the coroutines that left, and the process has ended if and only if it was told to quit or all have left |
| `WorkerLives.WholeAccount` | src/process.c:175-187 | the same from start-up, counting one for the accept loop |
| `WorkerLives.HeldExactly` | src/process.c:128-146 | over any run an accept is under way if and only if the last check passed with the lock and neither a connection nor a refusal came since |
| `WorkerLives.NeverStuck` | src/coro/sched.c:308-317 | every reachable worker that has not ended has a next step, whatever the clock says |
| `TicketLock.TicketsOut` | src/util/spinlock.h:31-41 | never more tickets out than processes |
| `TicketLock.EnterExact` | src/util/spinlock.h:36-38 | the wrapped comparison of the waiting loop is true exactly for the ticket next in turn |
| `TicketLock.SwapExact` | src/util/spinlock.h:20-29 | a trylock succeeds if and only if the tickets drawn since its read are a multiple of the wrap-around |
| `TicketLock.FreeExact` | src/util/spinlock.h:20-47 | the lock is free and nobody waits if and only if no ticket is out |
| `TicketLock.SafeExact` | src/util/spinlock.h:20-29 | a trylock that succeeds finds the lock free if and only if it is not the case that a positive number of full wrap-arounds passed since its read with a ticket still out |
| `TicketLock.SoonIsSafe` | src/util/spinlock.h:20-29 | fewer tickets since the read than the counter has values are enough |
| `TicketLock.AlwaysInv` | src/util/spinlock.h:20-47 | the invariant of every run whose trylocks meet exactly that condition |
| `TicketLock.MutualExclusion` | src/util/spinlock.h:20-47 | in all those runs, late trylocks that fail included, any number of processes: at most one is inside, and processes enter in the order they drew tickets |
| `TicketLock.TryNeverOvertakes` | src/util/spinlock.h:20-29 | a successful trylock, however stale its read, finds no holder and no waiter (when it succeeds is `TicketLock.TryExact` and `TicketLock.TryLater`) |
| `TicketLock.TryExact` | src/util/spinlock.h:20-29 | in every reachable state, a trylock without interruption succeeds if and only if the lock is free and nobody waits, and otherwise changes nothing |
| `TicketLock.TryLater` | src/util/spinlock.h:20-29 | whatever the others do after the read, the swap succeeds if and only if the tickets drawn by then, less those given back at the read, are a multiple of the wrap-around |
| `TicketLock.NeverHangs` | src/util/spinlock.h:31-47 | whenever the lock is not free, the process with the oldest ticket out is inside or can enter, and gives the lock back in at most three steps of its own |
| `TicketLock.UnsafeOvertakes` | src/util/spinlock.h:20-29 | one trylock that does not meet it enters beside a holder or before a waiter |
| `TicketLock.WrapBreaks` | src/util/spinlock.h:20-29 | without that bound exclusion fails at every counter width: a run of two processes that ends with both inside |
| `Ring.CirBuf.constructor` | src/util/cirbuf.h:65-77 | an empty buffer |
| `Ring.CirBuf.IsEmpty` | src/util/cirbuf.h:17-20 | true exactly when the queue is empty |
| `Ring.CirBuf.IsFull` | src/util/cirbuf.h:22-25 | true exactly when the queue holds elem_count - 1 records |
| `Ring.CirBuf.Write` | src/util/cirbuf.h:28-40 | appends to the queue, or fails exactly when it is full |
| `Ring.CirBuf.Read` | src/util/cirbuf.h:43-55 | takes the first of the queue, or fails exactly when it is empty |
| `Ring.TestsExact` | src/util/cirbuf.h:17-25 | with both sides in the middle of their operations, the full and empty tests are exact |
| `Ring.StepKeeps` | src/util/cirbuf.h:28-55 | every interleaving of check, copy and publish keeps the queue in its slots |
| `Ring.FirstInFirstOut` | src/util/cirbuf.h:28-55 | in every run records come out once, unmodified and in order, at most elem_count - 1 are inside, and the two sides never work on the same slot |
| `Ring.WriteExact` | src/util/cirbuf.h:28-40 | in every reachable state a write is taken if and only if fewer than elem_count - 1 records are inside, and then publishes its record |
| `Ring.ReadExact` | src/util/cirbuf.h:43-55 | a read is taken if and only if a record is inside, and then hands out the first one not handed out yet |
| `Logger.Server.constructor` | src/logger.c:202-233 | all slots free, page empty |
| `Logger.StoredExact` | src/logger.c:78-101 | a record is read back as it was written if and only if it is shorter than the text field of its slot; a longer one is cut, and bytes beyond the field are read |
| `Logger.Server.Flush` | src/logger.c:68-76 | the page goes to the file, or is dropped without one |
| `Logger.Server.LogRead` | src/logger.c:78-87 | file plus page gains exactly as many bytes from the record's field on as its stored length says, and the page exceeds its size if and only if that length does |
| `Logger.Server.Drain` | src/logger.c:103-106 | file plus page gains exactly the concatenation of the records, each shorter than its field |
| `Logger.Server.CopyToCache` | src/logger.c:103-112 | the slot is drained and freed when need_init is set |
| `Logger.Server.ScanWrite` | src/logger.c:115-125 | the file gains the page and then every record of every slot in use, in order; all those slots are drained and the rest untouched |
| `Logger.Server.WorkerAlloc` | src/logger.c:128-149 | the first free slot, emptied; fails exactly when none is free |
| `Logger.Server.WorkerReset` | src/logger.c:152-160 | need_init is set on exactly the slots of that process |
| `Logger.Server.Replace` | src/logger.c:115-160 | after the reset for a gone process and a scan, no slot has its id, and the process that replaces it gets a slot |
| `LogLife.StepKeeps` | src/logger.c:103-160 | every load and store of an owner and of the server, in any order, keeps the invariant: every record written is read or in the ring, in order, a free slot has none, and what the server has loaded or found is of the ring as it is; its empty test being sound and its freeing test quiet |
| `LogLife.NothingLost` | src/logger.c:103-160 | so it holds in every state that such a run reaches, over any number of owners: no record is lost, added or reordered |
| `LogLife.TestExact` | src/util/cirbuf.h:17-20 | the empty test, whose two loads may straddle the resets of a new owner, answers rightly if and only if it is sound: it does not straddle them, or the indices compared happen to agree with the truth |
| `LogLife.PopExact` | src/util/cirbuf.h:43-55 | a read that follows a test keeps the account if and only if the test was sound |
| `LogLife.ReadExact` | src/util/cirbuf.h:43-55 | a whole read without interruption keeps it if and only if it does not fall between the reset of start and the reset of end |
| `LogLife.OverlookedLost` | src/logger.c:103-112 | an unsound test that finds nothing lets the slot of a gone owner be freed with records inside |
| `LogLife.FreedExact` | src/logger.c:103-112 | a slot is freed empty if and only if nothing was written between the empty test and the test of need_init |
| `LogLife.EarlyIsQuiet` | src/logger.c:103-160 | need_init set before the empty test is enough |
| `LogLife.NoisyLoses` | src/logger.c:103-143 | one written in between is lost when the next owner has reset the indices |
| `LogLife.LateExitLoses` | src/logger.c:103-111 | a fair run up to such a test |
| `LogLife.LookBetweenRereads` | src/logger.c:128-149 | a fair run up to a test between the two resets: the record is read again, and after the second reset the ring seems to hold all other stale cells |
| `LogLife.LookAroundRereads` | src/logger.c:128-149 | a fair run up to a test with one load before both resets and one after: the record is read again |
| `LogPass.WholePass` | src/logger.c:103-112 | a pass over a slot in use that its owner does not touch meanwhile, from any indices, ends with all its records read in order, and with the slot free if and only if need_init was set |
| `List.Node.constructor` | src/util/list.h:20-23 | a node alone in its ring |
| `List.AddBetween` | src/util/list.h:26-34 | the ring with the new node spliced in at that place, forward and backward links consistent |
| `List.Add` | src/util/list.h:41-44 | spliced in after the given node |
| `List.AddTail` | src/util/list.h:51-55 | spliced in before the given node; before the head is the end |
| `List.DelInit` | src/util/list.h:77-81 | the ring without the node, and the node alone |
| `HashTable.StopFinds` | src/util/hashtable.c:12-19 | the early exit never misses a key: a bucket has the key if and only if the walk stops on it |
| `HashTable.Walk` | src/util/hashtable.c:53-64 | the walk stops at the first key not below the given one |
| `HashTable.Search` | src/util/hashtable.c:29-37 | finds the key if and only if the bucket has it |
| `HashTable.SpliceBucket` | src/util/hashtable.c:53-67 | adding keeps a bucket strictly ascending, of one residue, and in agreement with the map |
| `HashTable.DropBucket` | src/util/hashtable.c:29-36 | so does removing |
| `HashTable.Table.constructor` | src/util/hashtable.c:75-88 | an empty table |
| `HashTable.PowerTest` | src/util/hashtable.c:72 | the bit test passes exactly for the powers of two |
| `HashTable.Create` | src/util/hashtable.c:70-89 | an empty table exactly for a power of two and when memory is there |
| `HashTable.Table.Find` | src/util/hashtable.c:7-22 | what the map has under the key |
| `HashTable.Table.Add` | src/util/hashtable.c:42-68 | out of memory, duplicate exactly when the key is present, or the map with the key added |
| `HashTable.Table.Remove` | src/util/hashtable.c:24-40 | the map without the key, and the object it had |
| `HttpLineProof.StepLocal` | src/http/parse.c:140-598 | a step of the request-line machine looks at no byte beyond the current one |
| `HttpLineProof.SplitLine` | src/http/parse.c:135-616 | parsing any prefix and resuming on the rest gives the return code and spans of one call, backed-up characters included |
| `HttpLineProof.FeedIsRun` | src/http/parse.c:135-616 | so does any list of receives |
| `HttpLineProof.StepKeeps` | src/http/parse.c:140-598 | what is known about the spans in each of the 27 states is kept by every step |
| `HttpLineProof.RunKeeps` | src/http/parse.c:135-616 | and by every run |
| `HttpLineProof.LineSpans` | src/http/parse.c:604-615 | a successful parse stops just past the first LF after the method's first byte, with method, URI and protocol spans in order inside the line, the URI starting with a slash and the extension length not negative (which lines those are is `HttpLineExact.TakenExactly`) |
| `HttpLineRoundTrip.MethodNames` | src/http/parse.c:77-132 | get_request_method answers a known method exactly for that method's own name |
| `HttpTarget.ReadPath` | src/http/parse.c:321-465 | a path is read to its end: where arguments and extension start and every flag of the URI, from the bytes of the path and what the record held before it |
| `HttpTarget.ArgsExact` | src/http/parse.c:321-465 | the arguments start after the first '?' if and only if no byte before it stops the close look at the path; otherwise there are none |
| `HttpTarget.DotOrNone` | src/http/parse.c:321-465 | a path has at most one extension, and has one unless no dot follows its last slash |
| `HttpLineForms.FormRead` | src/http/parse.c:135-616 | every request line of every form, anywhere in a buffer, is read: any known method, the origin or the absolute form with a plain or a bracketed host, optional port and optional path, empty lines before it, any spaces, any version of any length kept to 16 bits or none, CRLF or LF; each part is recorded where it lies; version 0.9, which no version and every minor version 9 give, is refused with -25 for every method but GET |
| `HttpLineForms.TargetTexts` | src/http/parse.c:186-309 | the recorded scheme, host, port and URI of a target are the printed ones, the URI of a target without a path being a slash |
| `HttpLineForms.LineRoundTrip` | src/http/parse.c:135-616 | the same as a round trip: the recorded spans of method, scheme, host, port, URI, protocol and whole line hold the printed texts |
| `HttpLineForms.ExtenText` | src/http/parse.c:321-465 | the recorded extension is what follows that dot, to the end of the URI |
| `HttpLineExact.TakenIsForm` | src/http/parse.c:135-616 | conversely, whatever the machine takes as a line is, byte for byte, a line of one of these forms |
| `HttpLineExact.TakenExactly` | src/http/parse.c:135-616 | so it takes a line if and only if a line of one of these forms is there |
| `HttpHeader.SplitHeader` | src/http/parse.c:619-800 | the header machine too is independent of the split |
| `HttpHeader.LowKept` | src/http/parse.c:663-686 | a call with an index inside the 32 bytes of lowcase_header keeps it inside, and every write on the way |
| `HttpHeader.StaleExact` | src/http/parse.c:663-686 | the index left by an earlier header or an earlier use of the record is used again if and only if the first byte of a name is not a name character |
| `HttpHeader.HashKeyLc` | src/http/request.c:282-290 | the loop computes the fold of the lower-cased name modulo 2^32 |
| `HttpHeader.HashIgnoresCase` | src/http/request.c:282-290 | equal for names that differ only in case (section 5.1 of RFC 9110) |
| `HttpHeader.HashCollides` | src/http/request.c:165-176 | but not only for those: infinitely many pairs of different names share a hash (`HttpDispatch.HeaderReaches` says which headers reach a handler) |
| `HttpHeaderRoundTrip.ReadLine` | src/http/parse.c:648-800 | every header line (a name; no colon, or a colon and a value with any spaces around it; any CRs and LF) is read by one call: the name, the value without outer spaces or none when empty, invalid if and only if a byte of the name is outside [0-9A-Za-z-], the hash, and the lower-case copy of a valid name in 32 bytes going round |
| `HttpHeaderRoundTrip.ReadField` | src/http/parse.c:648-800 | a header line with a valid name, in any layout, is read back by one call: name, value, and the hash of the name |
| `HttpHeaderRoundTrip.HeadersRoundTrip` | src/http/parse.c:648-800 | any list of header lines in any layouts, with the empty line, is read back in order, each with its value and hash, less those whose name is not valid |
| `HttpHeaderRoundTrip.TakenIsLine` | src/http/parse.c:648-800 | conversely, from every state, whatever the machine takes as a line is what is left of a header line there |
| `HttpHeaderRoundTrip.EndsAtLf` | src/http/parse.c:648-800 | a call never runs past the first LF, and ends there unless it refuses a byte before it |
| `HttpHeaderRoundTrip.EmptyExact` | src/http/parse.c:648-662 | the headers end exactly at an LF alone or after one CR |
| `HttpHeaderRoundTrip.RefusedExact` | src/http/parse.c:648-800 | the bytes up to an LF are refused if and only if they are neither that nor a header line |
| `HttpDispatch.AddHandlers` | src/http/request.c:292-308 | registers every entry with a function up to the empty name; fails exactly when two hashes clash or memory is out |
| `HttpDispatch.FailsIsClash` | src/http/request.c:292-308 | with memory to spare, exactly when two hashes clash |
| `HttpDispatch.FindHandler` | src/http/request.c:165-176 | the entry registered under the header's hash, unless the header is invalid |
| `HttpDispatch.RegistryHas` | src/http/request.c:292-308 | every listed entry is in the table under its hash |
| `HttpDispatch.RegistryOnly` | src/http/request.c:292-308 | and nothing else is: each key of the table is the hash of a listed entry, and holds that entry |
| `HttpDispatch.FoundExactly` | src/http/request.c:165-176 | a hash finds an entry if and only if it is the hash of that entry's name |
| `HttpDispatch.HeaderReaches` | src/http/request.c:165-203 | a header with a valid name, in any layout, read back among others, reaches an entry if and only if the hashes of the two names are equal, which every casing of the name has |
| `HttpConn.Connection.Receive` | src/http/request.c:115-140 | a full buffer, the code of a timeout, an error or the end of input, or more bytes appended |
| `HttpConn.Connection.ParseRequestLine` | src/http/parse.c:135-616 | the loop of the parser, with its saved state, computes one run of the machine, whose runs are those of `HttpLineForms.FormRead` and `HttpLineExact.TakenExactly` |
| `HttpConn.Connection.ProcessRequestLine` | src/http/request.c:142-163 | with any cuts, the outcome of one call over all the bytes |
| `HttpConn.Connection.ParseRequestHeader` | src/http/parse.c:619-800 | the loop of the header parser computes one run of its machine, whose runs are those of `HttpHeaderRoundTrip.ReadLine`, `HttpHeaderRoundTrip.EmptyExact` and `HttpHeaderRoundTrip.RefusedExact` |
| `HttpConn.Connection.HandleHeader` | src/http/request.c:165-176 | one handler's reply: its code, what it records, and its bytes written over the value in place |
| `HttpConn.Connection.ProcessRequestHeader` | src/http/request.c:178-203 | with any cuts, the headers, the handlers' replies, what they leave in the buffer and the errors of one pass over all the bytes |
| `HttpConn.WritesUnread` | src/http/request.c:178-203 | what handlers write changes neither the headers read after it nor where they end |
| `HttpConn.Connection.ProcessRequestBody` | src/http/request.c:205-221 | the body is completed exactly when some receive ends at its end |
| `HttpConn.Connection.HandleRequest` | src/http/request.c:223-255 | for a request that fits the buffer, the spans, the recorded values and the bytes left depend on the bytes sent alone; the status is 400, 200 or, when no receive ends where the announced body does, 507 |
| `HttpConn.LandsAtEnd` | src/http/request.c:209-215 | an exact body is completed under every cutting |
| `HttpConn.LandsWithin` | src/http/request.c:209-215 | a body the peer does not finish is never completed |
| `HttpConn.SurplusDependsOnCuts` | src/http/request.c:209-215 | with surplus bytes the same input can be cut so that the body is completed and so that it never is |
| `HttpConn.BodyIndependent` | src/http/request.c:209-215 | the body step comes out the same under any two cuttings if and only if the body does not end strictly inside the bytes still to come |
| `HttpConn.StatusIndependent` | src/http/request.c:223-255 | the status of a whole request is the same under all cuttings if and only if its headers are refused, or no byte follows the announced body |
| `HttpConn.StatusOfExact` | src/http/request.c:223-255 | with exactly the announced body it is 200 under every cutting, with less 507 |
| `HttpHost.ProcessHost` | src/http/request.c:40-90 | the code (decided by the first NUL, slash or double dot, or an empty host), the bytes left in place also on a refusal (lower case up to that character), and on success the host: up to the colon or closing bracket, less a final dot that is the last dot of the value |
| `HttpHost.CodeExact` | src/http/request.c:40-90 | accepted if and only if it has no NUL, no slash and no two dots in a row, is not empty, and starts neither with a colon nor with the one dot that ends its host |
| `HttpHost.NoColon` | src/http/request.c:56-61 | outside brackets the recorded host has no colon |
| `HttpHost.HostOf` | src/http/request.c:40-90 | a host without colon, with or without a port after it, is recorded without the port and without one final dot |
| `HttpHost.LiteralOf` | src/http/request.c:62-72 | an address in brackets, with or without a port, is recorded with its brackets |
| `HttpBuiltIn.StrAtoi` | src/util/str.h:34-49 | the number its leading digits spell, wrapped to 32 bits |
| `HttpBuiltIn.ProcessContentLength` | src/http/request.c:31-38 | that number, refused exactly when it is zero or wrapped to a negative one |
| `HttpBuiltIn.NumberExact` | src/util/str.h:34-49 | digits are read as the number they spell if and only if an int can hold it |
| `HttpBuiltIn.BuiltInTable` | src/http/request.c:93-113 | of the eighteen built-in entries exactly Host and Content-Length are in the table, under different hashes |
| `HttpBuiltIn.BuiltInIsTable` | src/http/request.c:165-176 | the built-in handlers act on a hash as the entry found under it says (code, bytes, recorded length or host), and do nothing when there is none |
| `HttpServe.HeadersPrinted` | src/http/request.c:178-203 | the header loop over header lines of any layout is the handlers' replies in order, lines with an invalid name skipped, up to the first refusal, and leaves the lines with the values they wrote |
| `HttpServe.RequestRead` | src/http/request.c:223-255 | every printed request, of every line form: refused for version 0.9 without GET, its line alone below version 1.0, and from 1.0 on read back up to its body, or refused when a handler refuses a header |
| `HttpServe.ServePrinted` | src/http/request.c:223-255 | end to end, for any handlers that keep lengths and every line and header form: below version 1.0 answered by the line alone; from 1.0 on 400 exactly when a header is refused, 200 exactly when some receive ends where the announced body does, 507 otherwise; so 507 under every cutting when less follows than announced, 200 when just that follows; with 200 the method, target and body are read back from the rewritten buffer |
| `HttpServe.BuiltInReplies` | src/http/request.c:31-90 | the built-in handlers accept a list of headers if and only if every Host names one and every Content-Length is positive; the last length counts, and only Host values change, to lower case; a line with an invalid name does nothing |
| `HttpServe.AnnouncedBy` | src/http/request.c:31-38 | a Content-Length in any casing, the last of its hash, announces the number it spells if and only if an int can hold it |
| `HttpServe.ServeBuiltIn` | src/http/request.c:223-255 | the same with the built-in handlers, in terms of the line, the headers and the cuts alone; the buffer is the request up to its body, with its Hosts in lower case |

## Left out

- TimerTree.TimerTree.AddNew: the deadline of a tree node is fixed here, so a block of the pool that is used again for another deadline is another node; use of the same block again is in `Scheduler.Schedule.MemcacheAlloc`.
- TimerTree.TimerTree.Remove: requires the order of the tree; of a tree out of order only `Ordered.LinkedFound` and `Scheduler.Schedule.RemoveFromInactiveTree` speak.
- WorkerRuns.AlwaysInv: deadlines that can be told from the live ones, as above; a timer node can be allocated (`Sched.LostIsNowhere` otherwise); a descriptor is used by the one coroutine it was accepted for, and the kernel does not hand out a descriptor that is open.
- Logger.Server.Drain: requires records shorter than their field; for others `Logger.StoredExact` and `Logger.Server.LogRead` say what is read, which depends on the memory after the field.
- LogLife.NothingLost: the empty test loads `start` before `end`, as written; the copy of a record and the index store after it are one step, which `Ring` justifies while each index has one writer.
- HttpConn.Connection.HandleRequest: requires a request that fits the buffer; the optional line handlers are left out.
- HttpBuiltIn.StrAtoi: signed overflow, which C leaves undefined, is modelled as wrap-around.
- HttpServe.ServeBuiltIn: the host the Host header names is recorded beside the one of the request line, which the source keeps in the same field.
- HttpLineExact.TakenExactly: which negative code a refused line gets is not stated, and `HttpHeaderRoundTrip.RefusedExact` does not state it of headers; the driver answers 400 to each.
- TicketLock.MutualExclusion: assumes no more processes than the counter has values.
- The retry of a hooked call after EINTR and its real system call; `connect`, which the server does not use.
- Context switching and stacks (an atomic change of `current`), the packing of parent and colour in one word (two fields).
- Master supervision, fork, signals, configuration, daemon and process-title code.
- Response pages and status texts, which are tables.
- Weak memory ordering (sequential consistency is used) and the text format of log records.
