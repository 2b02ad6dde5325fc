# HeavenFox: verified models of the kernel's state machines and data structures

HeavenFox is a small ARM kernel. This project models the parts of it that are
hard to get right, in Dafny, and proves what they are for. Each part comes as a
value-level specification and, where the C code changes things step by step, as
a class whose methods run the same branches and loops and are proved equal to
that specification; the properties are then proved about the specification, over
every input, every reachable state or every run.

| files | component |
|---|---|
| `Scheduler`, `SchedulerSteps`, `SchedulerCodes`, `SchedulerRuns`, `SchedulerTable` | the priority scheduler: one running slot, a ready and a suspend list |
| `Sleep`, `SleepClock` | timed sleep: the clock and the timer list over the scheduler |
| `Mempool`, `MempoolRuns`, `MempoolHeap` | the first-fit memory pool: as a list of blocks, its runs, and as linked headers in memory |
| `PathTree`, `RadixPaths`, `RadixTree`, `TrieTree` | the radix tree and the trie, over one theory of linked trees |
| `Bitmap`, `NumberSearch`, `IrqSpec`, `IrqTable` | virtual interrupt numbers: bitmap, number search, descriptors, domain maps |
| `IrqInit` | the bring-up order of interrupt controllers |
| `Chrdev`, `ChrdevTable`, `Kobjmap`, `Fcntl` | the registries: character device numbers, device lookup, file descriptors |
| `StraightLine` | the line rasteriser |
| `Rings` | the circular doubly linked lists that most of the above are kept in |

## What the proofs found

Nine places where the code does not do what its shape suggests. Each has the
exact condition under which it does, and a concrete failing input or state.

- A search for free interrupt numbers does not end when the bits below the limit
  end in a run of set bits and nothing fits: the not-found code -1 is held in an
  unsigned index and becomes a restart from 0 (`SearchEndsIff`,
  `FullMapNeverEnds`).
- An allocation of interrupt numbers keeps bitmap, descriptors and domain maps in
  agreement if and only if none of its hardware numbers is mapped and the search
  succeeds; the error code of a failing search passes for a number and gets a
  descriptor (`AllocKeepsIff`, `FailedSearchStrays`).
- The steps of a line are held in plain `char`. Where that is unsigned, as it is by
  default on ARM, the step of -1 is 255, and the loop plots the pixels of the line
  if and only if the line goes neither left nor up (`UnsignedIff`,
  `LeftwardGoesAstray`). Where it is signed it always does (`SignedAlways`).
- Adding a name to the trie uses a negative branch number as an index if and only
  if the name has a character without a branch and its start, up to there, is not
  on the tree (`AddingIff`).
- Freeing a pool block keeps the pool well-formed if and only if the block's
  stored back link still names its predecessor (`FreeKeepsIff`);
  `StaleLinkDoubleAllocates` ends a run in which it does not, and one address is
  handed out twice. Bracketed runs never get there (`Play`), and which single
  allocations and frees make a link stale is decided exactly
  (`AllocKeepsLinksIff`, `FreeKeepsLinksIff`).
- A stale link that names no listed block may lead into a listed header: freeing
  then overwrites that header's fields. This happens if and only if a listed
  header starts between 12 bytes below and 20 bytes above the link
  (`FreedListsIff`, `StaleLinkOverwrites`). Which frees change a payload word is
  decided as well (`FreedPayloadIff`).
- k yields of k threads of equal priority restore the scheduler if and only if
  the running one has no request pending, and without an idle thread one may have
  (`RoundRobin`, `PendingBreaksTheRound`). With idle registered before scheduling
  begins no other thread ever has (`QuietRuns`).
- A call for a timeout puts the caller to sleep on its timer if and only if it is
  not idle and another thread is ready (`FallsAsleepIff`); if none is, a later
  yield may suspend it with no timer to wake it (`LateSuspendNeverEnds`). A sleep
  whose expiry is 0 or the last value of the clock never ends by itself
  (`SleepEndsIff`).
- A refused registration of character devices that starts at major 0 is not
  taken back, because the first piece went to a dynamic major and is looked for
  under major 0 (`RollbackIff`, `RollbackLeavesPiece`).

## Model

| member | source | states |
|---|---|---|
| Scheduler.Position | kernel/sched.c:731-741 | the place of a newcomer: behind the last thread it does not outrank, before only lower priorities |
| Scheduler.PositionUnique | kernel/sched.c:706-749 | the scan from the back finds that place and no other satisfies its description |
| SchedulerTable.ThreadTable.AddStatusList | kernel/sched.c:706-749 | the two walks over a list amount to stable insertion by priority, and to nothing for a thread already listed |
| SchedulerTable.ThreadTable.DelStatusList | kernel/sched.c:758-766 | takes the thread out of the list and nothing else |
| SchedulerTable.ThreadTable.AddReadyList | kernel/sched.c:537-551 | refuses a thread whose status is ready, otherwise enqueues it |
| SchedulerTable.ThreadTable.DetachReadyList | kernel/sched.c:561-578 | refuses a thread whose status is not ready, otherwise unlinks it |
| SchedulerTable.ThreadTable.AddSuspendList | kernel/sched.c:586-600 | the same for the suspend list |
| SchedulerTable.ThreadTable.DetachSuspendList | kernel/sched.c:610-627 | the same for the suspend list |
| SchedulerTable.ThreadTable.DespoilWorkRole | kernel/sched.c:464-496 | takes the running slot for a ready thread; whoever held it goes back to the ready list in its place |
| SchedulerTable.ThreadTable.ReinstallWorkRole | kernel/sched.c:504-529 | only the running thread hands over, only to the head of a non-empty ready list; otherwise nothing changes |
| SchedulerTable.ThreadTable.SwitchThread | kernel/sched.c:359-456 | table and return code of a status transition, for every source and target status |
| SchedulerTable.ThreadTable.RegisterThread | kernel/sched.c:775-816 | a new thread joins the ready list; a taken number or a missing stack is refused unchanged |
| SchedulerTable.ThreadTable.ScheduleThread | kernel/sched.c:838-895 | the table after a call of the scheduler, first schedule included, and whether it hands out a context |
| SchedulerTable.ThreadTable.SelfSuspend | kernel/sched.c:222-229 | a request to suspend followed by a schedule |
| SchedulerTable.ThreadTable.SuspendThread | kernel/sched.c:237-254 | suspends the caller or another thread |
| SchedulerTable.ThreadTable.WakeupThread | kernel/sched.c:262-280 | refuses a thread that is not suspended, otherwise makes it ready |
| SchedulerSteps.RegistrationIs | kernel/sched.c:775-816 | a new thread with a stack becomes ready with the priority it was given, last among its equals, and nothing else changes; any other is refused with nothing changed; the code says which |
| SchedulerCodes.ScheduledIff | kernel/sched.c:850-891 | a context is handed out if and only if the slot changes hands, which is when a thread is ready and the running one is not idle asking to suspend; the head then runs |
| SchedulerCodes.SelfSuspendedIff | kernel/sched.c:222-229 | the same for a self-suspension |
| SchedulerCodes.WokenIff | kernel/sched.c:262-280 | a wakeup succeeds if and only if the thread is suspended, and else changes nothing |
| SchedulerCodes.SuspendedThreadIff | kernel/sched.c:237-254 | suspending another thread succeeds if and only if it is ready and not idle, and else changes nothing; suspending oneself answers with success |
| SchedulerCodes.SwitchRefuses | kernel/sched.c:367-391 | a refused switch drops the request and changes nothing else |
| SchedulerCodes.SwitchDespoils | kernel/sched.c:412-445 | a ready thread switched to running takes the slot, and whoever held it is queued as ready |
| SchedulerCodes.SwitchToUnset | kernel/sched.c:393-441 | a switch to no status leaves a ready thread detached and fails |
| SchedulerSteps.EnqueueKeepsOrder | kernel/sched.c:706-749 | insertion keeps a list sorted and free of duplicates |
| SchedulerSteps.EnqueueListed | kernel/sched.c:719-721 | a thread already listed stays where it is |
| SchedulerSteps.SwitchRelieves | kernel/sched.c:377-421 | a switch by the running thread hands the slot to the head and files the thread under its new status |
| SchedulerSteps.SwitchMoves | kernel/sched.c:393-441 | a switch of a thread that is not running moves it between the two lists |
| SchedulerSteps.ScheduleLaunches | kernel/sched.c:850-877 | the first schedule puts the best ready thread in the empty slot |
| SchedulerSteps.StepIsChange | kernel/sched.c:222-280 | every operation on a consistent table is one of seven simple changes, the one its arguments select |
| SchedulerSteps.StepInv | kernel/sched.c:359-529 | every operation keeps: one place per thread and its status names it, both lists sorted without duplicates, idle never suspended |
| SchedulerRuns.Run | kernel/sched.c:838-895 | every state of every run satisfies that invariant |
| SchedulerRuns.RunKeepsPlaces | kernel/sched.c:359-529 | after any run from boot each registered thread is exactly once in exactly one of slot, ready list, suspend list |
| SchedulerRuns.StepConserves | kernel/sched.c:359-456 | no operation loses, gains or duplicates a thread, except a successful registration, which adds its own |
| SchedulerRuns.AlwaysAThreadToRun | kernel/sched.c:377-391 | with idle registered and scheduling begun: exactly one running thread, a ready thread whenever idle is not running, and a hand-over from any other thread succeeds |
| SchedulerRuns.RunKeepsStarted | kernel/sched.c:882-895 | scheduling once begun and registrations once made persist over every run |
| SchedulerRuns.SelfSuspendIff | kernel/sched.c:222-229 | a thread that suspends itself is suspended and the head of the ready list runs, if and only if it is not idle and a thread is ready; otherwise it keeps running |
| SchedulerRuns.QuietRuns | kernel/sched.c:222-229 | with idle registered before scheduling begins, no other thread has a request pending between operations, over every run |
| SchedulerRuns.StepFifo | kernel/sched.c:706-749 | one operation keeps both lists first come first served, by the step at which each thread took up its status |
| SchedulerRuns.RunFifo | kernel/sched.c:706-749 | after every run each list is in strict order of priority and then of arrival |
| SchedulerRuns.QueuesBehindEquals | include/kernel/thread.h:73 | a yielding thread queues behind all ready threads of its priority and before all lower ones |
| SchedulerRuns.RoundRobin | kernel/sched.c:838-895 | when k >= 2 threads share the top priority, k yields restore the whole scheduler state if and only if the running one has no request pending, and then each gets one turn |
| SchedulerRuns.PendingBreaksTheRound | kernel/sched.c:222-229 | a run from boot, without idle, to a state with a request pending, in which a yield suspends instead |
| Sleep.FiredEffect | common/generic/time.c:240-255 | one pass over the timers makes ready exactly the suspended threads whose timer is due, only with the lock free, and keeps the scheduler invariant |
| Sleep.FiredIsRun | common/generic/time.c:240-255 | a pass with the lock free is the run of wakeups of the due timers in list order; under the lock it does nothing |
| Sleep.WakeupsAre | common/generic/time.c:246-249 | a timer is due if and only if it is listed, its expiry is not zero and the clock has passed it |
| Sleep.AdvanceWraps | include/common/time.h:125-129 | the clock counts through all 32-bit numbers |
| Sleep.ArmSets | common/generic/time.c:222-231 | arming sets and lists the caller's timer and changes no other |
| Sleep.DisarmUnlists | common/generic/time.c:188-194 | disarming unlists the caller's timer and changes no other |
| Sleep.SleeperStep | kernel/sleep.c:31-41 | a sleeping thread is made ready by an event if and only if it is an explicit wakeup or a tick, with the lock free, past a nonzero expiry; its timer stays armed |
| Sleep.SleepsUntilWoken | kernel/sleep.c:49-69 | over every run a sleeping thread becomes ready if and only if some event wakes it |
| Sleep.NeverWokenEarly | kernel/sleep.c:31-41 | never made ready by its timer while the clock is at most the expiry |
| Sleep.WokenByFirstFreeTick | kernel/sleep.c:31-69 | has been made ready by the first tick that finds the clock past the expiry and the lock free, whatever came before |
| Sleep.WakeupNotLost | kernel/sleep.c:49-69 | for a thread found suspended with its timer still armed the same holds counted from arming: firing before the thread suspends, or under the lock, loses nothing |
| Sleep.FallsAsleepIff | kernel/sleep.c:58-64 | a caller is asleep on its timer if and only if it is not idle and another thread is ready; otherwise it keeps running |
| Sleep.TimeoutOnTime | kernel/sleep.c:49-69 | with idle registered and scheduling begun, any other caller is asleep on its timer, is ready by the first free tick past the count, and not before unless woken |
| Sleep.TimeoutEndsIff | kernel/sleep.c:49-69 | such a timeout can end by itself if and only if 0 < count < JIFFIES_MAX |
| Sleep.UnarmedStaysSuspended | kernel/sleep.c:66-68 | a thread suspended with its timer off the list stays so until somebody wakes it |
| Sleep.LateSuspendNeverEnds | kernel/sleep.c:61-68 | a run in which a caller disarms its timer while its request is pending, is suspended by a later yield, and no timer ever wakes it |
| Sleep.WokenOnTime | common/generic/time.c:240-255 | ready after exactly expiry - jiffies + 1 ticks and not before |
| Sleep.SleepEndsIff | common/generic/time.c:246-249 | some run without an explicit wakeup ends the sleep if and only if 0 < expiry < JIFFIES_MAX |
| SleepClock.Clock.FindTimer | common/generic/time.c:202-213 | finds a timer exactly if it is listed |
| SleepClock.Clock.SetTimer | common/generic/time.c:222-231 | sets the expiry and lists the timer once |
| SleepClock.Clock.DelTimer | common/generic/time.c:188-194 | unlists the timer and nothing else |
| SleepClock.Clock.SleepTimeout | kernel/sleep.c:31-41 | the timer callback: gives up under the lock, wakes only a suspended thread |
| SleepClock.Clock.DoTimerEvent | common/generic/time.c:240-255 | the timer loop is the pass of `FiredEffect` |
| SleepClock.Clock.SystickIsr | board/mach-imx6ull/imx6_systick.c:172-187 | the clock counts on or wraps, then the timers run |
| SleepClock.Clock.BeforeTimeout | kernel/sleep.c:55-56 | a count of 0 yields first |
| SleepClock.Clock.EnterTimeout | kernel/sleep.c:58-64 | arms the timer and suspends; asleep on it if and only if the caller is not idle and another thread is ready |
| SleepClock.Clock.LeaveTimeout | kernel/sleep.c:66-68 | the woken thread takes its timer off the list |
| Mempool.NeedCovers | common/mempool/mem_simple.c:101-102 | the block length asked for covers request and header if and only if the 32-bit sum does not wrap |
| Mempool.WrappedRequest | common/mempool/mem_simple.c:101-102 | a request for which it does |
| Mempool.TotalIsArena | common/mempool/mem_simple.c:42-60 | the lengths of blocks that tile the arena add up to it |
| Mempool.LiveApart | common/mempool/mem_simple.c:113-145 | live allocations with their headers lie in the arena and are pairwise disjoint |
| Mempool.AllocSound | common/mempool/mem_simple.c:85-149 | null if and only if no block has room; otherwise the payload fits, lies in the arena, is disjoint from every live extent, every live allocation stays, and the blocks still tile the arena |
| Mempool.AllocPlace | common/mempool/mem_simple.c:113-121 | the payload comes from the first block with room, behind what is in use |
| Mempool.SuccessorNeverIdle | common/mempool/mem_simple.c:215-223 | the merge with an idle successor is dead in a well-formed pool |
| Mempool.FreeKeepsIff | common/mempool/mem_simple.c:185-225 | freeing keeps the pool well-formed if and only if the back link names the true predecessor |
| Mempool.FreeLive | common/mempool/mem_simple.c:185-225 | then it gives up that allocation and keeps every other |
| MempoolRuns.FreeUndoesAlloc | common/mempool/mem_simple.c:113-224 | freeing what an allocation returned restores every header field on the list |
| MempoolRuns.Play | common/mempool/mem_simple.c:85-225 | every properly bracketed sequence of allocations and frees restores the list exactly |
| Mempool.AllocKeepsLinksIff | common/mempool/mem_simple.c:113-145 | from a pool with true links, allocation keeps every link true if and only if it fails, takes from the idle block, or splits the last |
| Mempool.FreeKeepsLinksIff | common/mempool/mem_simple.c:199-213 | freeing keeps every link true if and only if it frees the first or the last block |
| MempoolRuns.RunOpens | common/mempool/mem_simple.c:113-145 | the start of a run after which a back link is stale |
| MempoolRuns.RunReuses | common/mempool/mem_simple.c:199-213 | its middle: the link now skips a block |
| MempoolRuns.StaleLinkDoubleAllocates | common/mempool/mem_simple.c:199-213 | freeing through that link loses a live block, and its address is handed out again |
| MempoolHeap.Pool.Create | common/mempool/mem_simple.c:27-61 | one idle block over the aligned arena, usable if and only if a header fits |
| MempoolHeap.Pool.AllocSpare | common/mempool/mem_simple.c:85-149 | walking and rewriting headers word by word does what `Alloc` does to the block list, and touches no payload word of a live allocation |
| MempoolHeap.Pool.CheckEmploy | common/mempool/mem_simple.c:157-177 | recognises exactly the payload pointers of listed blocks |
| MempoolHeap.Pool.FreeEmploy | common/mempool/mem_simple.c:185-225 | ignores any pointer but a listed payload; otherwise the list in memory is what `Free` says if and only if the back link is harmless, and every payload word stays if and only if no word written through the link is one; with a true link the pool stays valid |
| MempoolHeap.FreedIs | common/mempool/mem_simple.c:199-224 | freeing writes at most four words, wherever the back link leads |
| MempoolHeap.FreedListsIff | common/mempool/mem_simple.c:199-224 | the headers in memory are those of `FreeAt` if and only if the link is null, names a listed block, or no listed header starts between 12 bytes below and 20 above it |
| MempoolHeap.FreedKeeps | common/mempool/mem_simple.c:205-213 | freeing through a true link changes no payload word |
| MempoolHeap.FreedPayloadIff | common/mempool/mem_simple.c:205-213 | for every back link: freeing leaves every payload word as it is if and only if none of the words it writes through the link is one, but that the last may hold what is written |
| MempoolHeap.StaleLinkOverwrites | common/mempool/mem_simple.c:205-213 | in the state after `OverlapRunReuses` the free overwrites base, length and back link of a listed header, whose payload can then not be freed |
| MempoolRuns.OverlapRunOpens | common/mempool/mem_simple.c:113-145 | the start of the run to that state |
| MempoolRuns.OverlapRunFrees | common/mempool/mem_simple.c:199-213 | its middle: two blocks are freed |
| MempoolRuns.OverlapRunReuses | common/mempool/mem_simple.c:113-145 | its end: a back link lies four bytes below a listed header |
| MempoolHeap.TakenLists | common/mempool/mem_simple.c:117-142 | the words written by a split or a cut keep memory and block list in step |
| MempoolHeap.TakenKeeps | common/mempool/mem_simple.c:117-142 | they are no payload words of a live allocation |
| RadixPaths.PathInjective | common/generic/radix_tree.c:60-74 | no two numbers have the same base-8 path |
| RadixPaths.PathsNest | common/generic/radix_tree.c:60-74 | one number's path may run through another's node |
| RadixPaths.NumLen | common/generic/radix_tree.c:28-52 | the bit scan yields three times the number of octal digits, for every 32-bit number |
| RadixTree.LinksFormMap | common/generic/radix_tree.c:137-268 | adding or deleting a number changes the link of that number and of no other |
| RadixTree.Tree.FindNode | common/generic/radix_tree.c:106-129 | the node of a number that has a link, null exactly if it has none |
| RadixTree.Tree.LookUp | common/generic/radix_tree.c:137-146 | the link the map holds for the number |
| RadixTree.Tree.Add | common/generic/radix_tree.c:154-191 | updates the map; a second add is a no-op; no node moves |
| RadixTree.Tree.ClearBranch | common/generic/radix_tree.c:206-219 | clears one branch and tells whether another is in use, although it stops early |
| RadixTree.Tree.DelNode | common/generic/radix_tree.c:199-233 | prunes upward from a node, terminates, touches no freed node, and leaves a well-formed tree |
| RadixTree.Tree.Del | common/generic/radix_tree.c:241-268 | removes the number from the map, and the tree has exactly the nodes the others need |
| RadixTree.Tree.AddThenDel | common/generic/radix_tree.c:154-268 | adding a fresh number and deleting it restores links and nodes, each at its address |
| PathTree.LeavesCarryLinks | common/generic/radix_tree.c:222-232 | every leaf but the root carries a link |
| PathTree.PrunedExact | common/generic/radix_tree.c:199-233 | upward pruning leaves exactly the nodes that remaining keys need |
| PathTree.KeysDetermineNodes | common/generic/radix_tree.c:154-268 | the set of keys determines the set of nodes, however it was reached |
| TrieTree.PathInjective | common/generic/trie_tree.c:91-113 | no two printable names have the same path |
| TrieTree.BranchIff | common/generic/trie_tree.c:30-39 | a character has a branch if and only if it lies between space and tilde, and which |
| TrieTree.PrintableIff | common/generic/trie_tree.c:30-39 | a name is printable if and only if all its characters are |
| TrieTree.Tree.FindNode | common/generic/trie_tree.c:91-113 | the node of a printable name that has a link; the error pointer for a name that leaves the alphabet while on the tree |
| TrieTree.Tree.LookUp | common/generic/trie_tree.c:121-130 | the link the map holds for the name |
| TrieTree.Tree.Add | common/generic/trie_tree.c:138-183 | updates the map; a second add is a no-op; no node moves |
| TrieTree.SoughtIs | common/generic/trie_tree.c:91-113 | where the lookup loop ends for any name: off the tree, at a character without a branch, or at the node of its path |
| TrieTree.AddingIff | common/generic/trie_tree.c:138-183 | adding indexes outside the branch array if and only if the name is not printable and its printable start is not on the tree; it stores the link if and only if the name is printable and has none |
| TrieTree.Tree.Unbranch | common/generic/trie_tree.c:198-221 | frees the branch array with its last child, so an array is there exactly if a child is |
| TrieTree.Tree.DelNode | common/generic/trie_tree.c:191-235 | prunes upward, keeping that rule, and touches no freed node |
| TrieTree.Tree.Del | common/generic/trie_tree.c:243-270 | removes the name from the map and exactly the nodes and arrays no other name needs |
| TrieTree.Tree.AddThenDel | common/generic/trie_tree.c:138-270 | adding a fresh name and deleting it restores links and nodes |
| Bitmap.FindFirstBit | common/generic/io_stream.c:76-92 | the first bit with the value from the start on, -1 exactly if there is none |
| Bitmap.FindNrBit | common/generic/io_stream.c:104-118 | 0 for a run of equal bits, otherwise the first that differs; -1 if the run would reach the last bit |
| Bitmap.SetNrBit | common/generic/io_stream.c:126-145 | sets exactly the given bits, nothing if they would reach the last one or wrap round 32 bits |
| Bitmap.FilledIs | common/generic/io_stream.c:134-144 | bit by bit, what the filled map is |
| NumberSearch.ScanExact | platform/irq/fwk_irq_desc.c:65-92 | one upward scan hits the lowest fitting number, or restarts exactly when the bits end in a run |
| NumberSearch.ChosenIs | platform/irq/fwk_irq_desc.c:65-92 | what the search returns: the lowest fit from the start; without one the lowest of all if the scan comes round; else the error code |
| NumberSearch.SearchEndsIff | platform/irq/fwk_irq_desc.c:71-89 | the search ends if and only if a number fits or a scan meets no run at the end |
| NumberSearch.FullMapNeverEnds | platform/irq/fwk_irq_desc.c:71-89 | with every number taken it does not end |
| NumberSearch.FindAreas | platform/irq/fwk_irq_desc.c:65-92 | what it returns fits; from base -1 it is the lowest that fits, from any base the lowest from there if there is one |
| IrqSpec.AllocatedInv | platform/irq/fwk_irq_desc.c:100-151 | allocation keeps bitmap, descriptors and domain maps in agreement |
| IrqSpec.FreedInv | platform/irq/fwk_irq_desc.c:305-317 | so does giving up the numbers of a domain, part way or whole |
| IrqSpec.AllocKeepsIff | platform/irq/fwk_irq_desc.c:128-151 | allocation keeps the agreement if and only if none of the hardware numbers is mapped and the search succeeds |
| IrqSpec.FailedSearchStrays | platform/irq/fwk_irq_desc.c:131-146 | a failing search on a fresh allocator makes a descriptor for number 4294967286 |
| IrqSpec.AfterIsStep | platform/irq/fwk_irq_desc.c:267-276 | where runs go on, allocation and mapping are the steps of the runs |
| IrqSpec.AfterFinds | platform/irq/fwk_irq_desc.c:267-276 | the number that allocation yields is found for the first hardware number |
| IrqSpec.YieldedFound | platform/irq/fwk_irq_domain.c:124-140 | the number mapping yields is the one found afterwards; an existing mapping is returned with nothing changed |
| IrqSpec.FailureIs | platform/irq/fwk_irq_desc.c:131-148 | what a failing search leaves behind, descriptor by descriptor |
| IrqSpec.NewDomainFinds | platform/irq/fwk_irq_domain.c:167-188 | a new domain has its size and maps nothing, the others stay |
| IrqSpec.AllocFinds | platform/irq/fwk_irq_desc.c:100-151 | allocation maps its range to the chosen numbers and changes no other lookup |
| IrqSpec.ReleaseFinds | platform/irq/fwk_irq_desc.c:305-317 | release unmaps the domain and changes no other lookup |
| IrqSpec.FindsDetermine | platform/irq/fwk_irq_desc.c:197-215 | agreeing states with the same lookups are the same |
| IrqSpec.FindIsMap | platform/irq/fwk_irq_desc.c:197-215 | the cross-check of the lookup never fails in an agreeing state |
| IrqSpec.MappingIsBijection | platform/irq/fwk_irq_desc.c:197-243 | lookup of (domain, hardware number) yields v if and only if v is marked and its descriptor names them; live mappings never share a number |
| IrqSpec.Run | platform/irq/fwk_irq_desc.c:267-317 | every run of domain creation, allocation, mapping and release keeps the agreement |
| IrqSpec.StepMaps | platform/irq/fwk_irq_domain.c:106-141 | allocation maps the range to consecutive numbers nobody held; lookup after mapping returns the number |
| IrqSpec.RunKeepsMapping | platform/irq/fwk_irq_desc.c:197-317 | a mapping keeps its number over every run that does not release its domain |
| IrqSpec.AllocThenRelease | platform/irq/fwk_irq_desc.c:267-317 | allocating for a domain without mappings and releasing it restores the whole state |
| IrqTable.IrqTable.AddLinear | platform/irq/fwk_irq_domain.c:167-188 | a new domain maps nothing |
| IrqTable.IrqTable.ToDesc | platform/irq/fwk_irq_desc.c:160-166 | the radix tree leads to the number's own descriptor, null exactly if it has none |
| IrqTable.IrqTable.AllocDescs | platform/irq/fwk_irq_desc.c:128-151 | descriptors and marks for exactly the chosen numbers; for a failing search, descriptors for its error code and the numbers behind, in 32 bits, and no marks |
| IrqTable.IrqTable.AllocIrqData | platform/irq/fwk_irq_desc.c:100-120 | fills in the descriptors and the domain map, number by number |
| IrqTable.IrqTable.AllocIrqs | platform/irq/fwk_irq_desc.c:267-276 | the bitmap, tree and map updates whatever the search yields; the structures agree afterwards if and only if the range was unmapped and the search succeeds |
| IrqTable.IrqTable.FindMapping | platform/irq/fwk_irq_desc.c:197-243 | the number the domain maps to, or none |
| IrqTable.IrqTable.CreateMapping | platform/irq/fwk_irq_domain.c:124-140 | an existing mapping is returned unchanged, otherwise one number is searched for and mapped; the number returned is the one found afterwards, and the structures agree if and only if one is returned |
| IrqTable.IrqTable.DescFree | platform/irq/fwk_irq_desc.c:284-297 | clears one bit and drops one descriptor, nothing else |
| IrqTable.IrqTable.FreeIrqs | platform/irq/fwk_irq_desc.c:305-317 | the loop over the map is the release step of the specification |
| IrqInit.Collect | platform/irq/fwk_irq.c:66-92 | exactly the controllers that available matching controller nodes make, each with its node's interrupt parent unless that is the node itself |
| IrqInit.ControllersAre | platform/irq/fwk_irq.c:66-92 | the same of the list as a value |
| IrqInit.ControllersInOrder | platform/irq/fwk_irq.c:66-92 | the controllers are in the order of the nodes |
| IrqInit.ControllersOnce | platform/irq/fwk_irq.c:66-92 | each controller is collected once |
| IrqInit.Scan | platform/irq/fwk_irq.c:96-121 | one pass takes out exactly the controllers below the cursor, calls those with a callback in order, and queues those that succeed |
| IrqInit.Init | platform/irq/fwk_irq.c:94-135 | the loop terminates; the callbacks run at most once each, in breadth-first order; what is left over |
| IrqInit.CalledIff | platform/irq/fwk_irq.c:94-135 | a callback runs if and only if its controller has one and is connected to a parentless controller by parents that all came up |
| IrqInit.LeftIff | platform/irq/fwk_irq.c:123-135 | a controller is left over if and only if it has a parent that never came up |
| IrqInit.CalledOnce | platform/irq/fwk_irq.c:94-121 | no callback runs twice, none outside the list |
| IrqInit.DepthOrder | platform/irq/fwk_irq.c:94-135 | callbacks run in order of depth below the parentless controllers |
| IrqInit.SiblingsInOrder | platform/irq/fwk_irq.c:96-121 | callbacks of one parent run in list order |
| IrqInit.CousinsInOrder | platform/irq/fwk_irq.c:120-134 | callbacks of different parents run in the order in which the parents did |
| StraightLine.MinorBound | platform/framebuffer/fwk_disp.c:197-217 | after k major steps the m minor steps are those with -dmax <= 2 dmin k - 2 dmax m < dmax, and no others |
| StraightLine.MinorStep | platform/framebuffer/fwk_disp.c:211-217 | one round of the accumulator takes a minor step exactly when that bound asks for it |
| StraightLine.Nearest | platform/framebuffer/fwk_disp.c:211-217 | the pixel is nearest to the ideal line in its column, the farther one along on a tie |
| StraightLine.PixelEnds | platform/framebuffer/fwk_disp.c:175-223 | of the pixels of the line, plotted where the steps are right, the first is the start and the last the end |
| StraightLine.PixelInBox | platform/framebuffer/fwk_disp.c:175-223 | every one of them lies in the rectangle of the end points |
| StraightLine.PixelsTouch | platform/framebuffer/fwk_disp.c:201-217 | consecutive ones differ and touch at a side or a corner |
| StraightLine.ReversedIff | platform/framebuffer/fwk_disp.c:182-217 | with a signed step, the line drawn from the other end has the same pixel in a column if and only if there is no tie |
| StraightLine.OffsetInjective | platform/framebuffer/fwk_disp.c:53-56 | distinct pixels of the screen have distinct buffer offsets |
| StraightLine.OffsetIs | platform/framebuffer/fwk_disp.c:53-56 | element i of the buffer is the pixel in column i mod width of row i div width |
| StraightLine.DrawnIs | platform/framebuffer/fwk_disp.c:178-217 | the pen after k rounds, for either value of the backward step and in 32-bit coordinates |
| StraightLine.UnsignedIff | platform/framebuffer/fwk_disp.c:178-191 | with the step 255 every pixel plotted is that of the line if and only if the line goes neither left nor up |
| StraightLine.SignedAlways | platform/framebuffer/fwk_disp.c:178-191 | with the step -1 every pixel plotted is that of the line |
| StraightLine.LeftwardGoesAstray | platform/framebuffer/fwk_disp.c:186-191 | from (10, 0) to (0, 0) with the step 255 the second pixel is in column 265, not 9 |
| StraightLine.WriteLine | platform/framebuffer/fwk_disp.c:175-223 | plots those points for any end points and either step; with both ends on the screen and right steps, element i of the buffer gets the colour if and only if the pixel in column i mod width of row i div width is on the line, and is else as it was |
| Chrdev.OverlapDecided | platform/chardev/fwk_chrdev.c:134-168 | the one interval the insertion looks at overlaps the new one if and only if any does |
| Chrdev.RemovedInserted | platform/chardev/fwk_chrdev.c:195-226 | removing the interval just inserted restores the list |
| Chrdev.RemovedIs | platform/chardev/fwk_chrdev.c:213-223 | removal takes out the exact match and no other; without one the list is unchanged |
| Chrdev.InsertedHas | platform/chardev/fwk_chrdev.c:134-180 | insertion adds the device and takes nothing out |
| Chrdev.PlacedIs | platform/chardev/fwk_chrdev.c:112-180 | an accepted piece is entered with its major, minors and name; the other lists stay |
| Chrdev.TakenIs | platform/chardev/fwk_chrdev.c:195-226 | a piece is taken out of its own list only, by its exact interval |
| Chrdev.UnregisteredAt | platform/chardev/fwk_chrdev.c:288-305 | unregistering a range removes from each list the exact interval of its part, and nothing elsewhere |
| Chrdev.NothingRegistered | platform/chardev/fwk_chrdev.c:258-270 | an empty range changes nothing |
| Chrdev.RegisteredIff | platform/chardev/fwk_chrdev.c:253-280 | from major 1 on, registration succeeds if and only if all majors exist and no number of the range is held |
| Chrdev.RegisteredHolds | platform/chardev/fwk_chrdev.c:253-280 | afterwards exactly the old numbers and those of the range are held |
| Chrdev.RegisteredLowIff | platform/chardev/fwk_chrdev.c:88-109 | from major 0, registration succeeds if and only if some list is empty, all majors exist, and the numbers from major 1 on are free once the first piece has gone to the highest empty list |
| Chrdev.FirstPlacedHolds | platform/chardev/fwk_chrdev.c:88-109 | the numbers held after that piece |
| Chrdev.RegisteredLowHolds | platform/chardev/fwk_chrdev.c:253-280 | the numbers held after such a registration |
| Chrdev.RollbackIff | platform/chardev/fwk_chrdev.c:273-279 | a refused registration restores the table if and only if it starts at a major other than 0 or no list but list 0 was empty |
| Chrdev.RegisterThenUnregisterIff | platform/chardev/fwk_chrdev.c:253-305 | registering and unregistering is the identity if and only if the range is empty, starts at a major other than 0, or only list 0 was empty |
| Chrdev.RollbackLeavesPiece | platform/chardev/fwk_chrdev.c:88-109 | for every range from major 0 into major 1, a table whose rollback leaves a piece behind |
| Chrdev.RegisteredFromOk | platform/chardev/fwk_chrdev.c:253-280 | registration keeps every list ordered and disjoint |
| Chrdev.UnregisteredFromOk | platform/chardev/fwk_chrdev.c:288-305 | so does unregistration |
| ChrdevTable.Registry.FreeMajor | platform/chardev/fwk_chrdev.c:88-109 | the highest major with an empty list |
| ChrdevTable.Registry.RegisterOne | platform/chardev/fwk_chrdev.c:75-187 | accepts an interval if and only if it is not empty, has a list and overlaps nothing there; inserts it in order |
| ChrdevTable.Registry.UnregisterOne | platform/chardev/fwk_chrdev.c:195-226 | takes out the interval that matches exactly, if any |
| ChrdevTable.Registry.Register | platform/chardev/fwk_chrdev.c:253-280 | the loop over majors with its rollback, 32-bit successor included, is the registration of the specification |
| ChrdevTable.Registry.Unregister | platform/chardev/fwk_chrdev.c:288-305 | the loop over majors is the unregistration of the specification |
| Kobjmap.BestIs | platform/fwk_kobjmap.c:244-269 | the flat answer is a shortest live interval that contains the number, the newest of equals; none exactly if none contains it |
| Kobjmap.HitIsBest | platform/fwk_kobjmap.c:244-269 | the first hit in one ordered bucket is that answer |
| Kobjmap.DroppedEntered | platform/fwk_kobjmap.c:163-225 | removal undoes the entry of the same interval and commutes with that of another |
| Kobjmap.DroppedAt | platform/fwk_kobjmap.c:213-225 | removal takes out the first exact match, and nothing if there is none |
| Kobjmap.SpansAre | platform/fwk_kobjmap.c:136-140 | which buckets an interval is entered in |
| Kobjmap.BucketDropped | platform/fwk_kobjmap.c:187-236 | removing in every bucket the interval spans is removing its newest registration |
| Kobjmap.Map.Register | platform/fwk_kobjmap.c:121-179 | enters the interval in order in the buckets it spans; null data is refused |
| Kobjmap.Map.Unregister | platform/fwk_kobjmap.c:187-236 | takes out the newest registration of exactly this interval from every bucket |
| Kobjmap.Map.Lookup | platform/fwk_kobjmap.c:244-269 | after any sequence of the two: the data of the shortest live interval that contains the number, newest of equals, or null |
| Fcntl.EmptySlot | platform/fwk_fcntl.c:187-196 | pigeonhole: a table that is not full has an empty slot |
| Fcntl.PickIsFree | platform/fwk_fcntl.c:164-210 | with a slot free the descriptor picked is free and not a standard one, so the not-found exit is unreachable |
| Fcntl.PickIs | platform/fwk_fcntl.c:180-204 | the descriptor is the one above the highest, above all in use, and the lowest empty one only when there is none; opening changes that slot alone |
| Fcntl.NextAfterClose | platform/fwk_fcntl.c:218-239 | closing a live descriptor empties its slot alone, keeps the highest unless it was that, and so decides the number the next open returns |
| Fcntl.ClosedNothing | platform/fwk_fcntl.c:352-362 | closing any other number changes nothing |
| Fcntl.ReservedThenPut | platform/fwk_fcntl.c:318-344 | a failing open restores the table exactly |
| Fcntl.OpenThenClose | platform/fwk_fcntl.c:318-362 | so does closing what was just opened |
| Fcntl.Run | platform/fwk_fcntl.c:318-362 | every run within the base table keeps: the count is the slots in use, none above the highest, the last slot in use if it is the highest |
| Fcntl.RunKeepsFile | platform/fwk_fcntl.c:290-362 | a descriptor resolves to its own file until it is closed; no open is given a live one |
| Fcntl.RunBalances | include/platform/fwk_fcntl.h:165-190 | over every run the count changes by successful opens less effective closes |
| Fcntl.FileTable.GetUnusedFd | platform/fwk_fcntl.c:164-210 | the descriptor above the highest, or the first empty one; the search always succeeds |
| Fcntl.FileTable.PutUsedFd | platform/fwk_fcntl.c:218-247 | gives the slot back and lowers the highest if it was that |
| Fcntl.FileTable.Install | platform/fwk_fcntl.c:255-282 | fills an empty slot, refuses a standard or taken one |
| Fcntl.FileTable.ToFile | platform/fwk_fcntl.c:290-310 | the file of a descriptor; none for the standard ones |
| Fcntl.FileTable.Open | platform/fwk_fcntl.c:318-344 | with a slot free it fails exactly if the file does not open, and then changes nothing; otherwise a free descriptor resolves to the file |
| Fcntl.FileTable.Close | platform/fwk_fcntl.c:352-362 | frees a live descriptor, ignores any other |
| Rings.RingRotates | include/common/list_types.h:177-299 | a ring may be entered at any of its links |
| Rings.IsEmpty | include/common/list_types.h:97-99 | the test holds exactly for a head alone |
| Rings.ForEach | include/common/list_types.h:177-192 | the two-ended search decides membership, for odd and even lengths |
| Rings.AddHead | include/common/list_types.h:200-209 | the ring with the link put first |
| Rings.AddTail | include/common/list_types.h:217-226 | the ring with the link put last |
| Rings.Del | include/common/list_types.h:262-269 | the ring without the link, whose own pointers stay |
| Rings.DelSafe | include/common/list_types.h:277-287 | takes out precisely a member, and changes nothing for any other link |
| Rings.AddHeadThenDel | include/common/list_types.h:200-287 | adding a link first and deleting it restores every pointer of the ring |
| Rings.AddTailThenDel | include/common/list_types.h:217-287 | so does adding it last and deleting it |
| Rings.ListHead.Init | include/common/list_types.h:295-299 | a link alone is an empty ring |

## Left out

- Context switching, stacks, interrupt masking and the rest of the assembly: a
  scheduler operation is one atomic step, and "an outgoing context exists" is a
  flag that the first successful schedule sets.
- Locks, mutexes, semaphores and wait queues: where the code looks at the lock,
  whether it is taken is an input of the step.
- The SLEEP list of the scheduler: its head is initialised to the ready list, so
  it is no list of its own. Statuses outside register, yield, suspend and wakeup,
  which `real_thread_set_state` could request, leave a thread on no list.
- Scheduler lists, the timer list and the worklists are sequences in the models
  that use them; that linked rings behave as sequences is `Rings`. Aliasing
  between two lists through one link is therefore only covered there.
- Threads' names, statistics, stacks and preemption by time slice.
- Timers other than those of sleeping threads; a timer is named by its thread,
  which is the only one to arm it, and the thread is named by its number.
- `schedule_timeout` is three steps, before, between and after its two switches of
  thread; that they are made in this order by one thread is its stack's doing.
- Sleep.WakeupNotLost: assumes the thread is found suspended with its timer armed;
  when a call for a timeout leads there is `FallsAsleepIff` and `TimeoutOnTime`.
- MempoolHeap.Pool.AllocSpare: requests above `MAX_REQUEST`, whose length wraps
  to a block smaller than the header (`NeedCovers`), are not played on memory.
- Mempool.AllocSound: requests above `MAX_REQUEST`, see `NeedCovers`.
- Mempool.FreeLive: no claim for a block whose back link is stale, because the
  pool does not survive it (`FreeKeepsIff`).
- MempoolHeap.Pool.FreeEmploy: what becomes of the pool in later calls when the
  link was not true is not modelled.
- MempoolHeap.Pool.Create: the address arithmetic of an arena that reaches the
  error-pointer range is excluded; destroying a pool is not modelled.
- The radix tree's stored depth of a node, and a failing node allocation.
- TrieTree.Tree.Add: the empty name, whose link sits at the root and can never be
  deleted, and the names for which the code indexes outside the branch array; which
  these are is `AddingIff`.
- NumberSearch.FindAreas: assumes the condition of `SearchEndsIff`, without which
  the loop does not end.
- IrqTable.IrqTable.AllocDescs: assumes the condition of `SearchEndsIff`, as do
  `AllocIrqs` and `CreateMapping`, and that descriptors can be allocated. Runs
  (`IrqSpec.Run`) end where the structures cease to agree.
- IrqTable.IrqTable.AllocIrqs: hardware numbers beyond the domain's map, which the
  code does not check.
- Interrupt types, chips, masks and actions of a descriptor, the domain's
  callbacks and device-tree parsing; domains are never deleted.
- IrqInit.Init: what a callback will answer is written down with its
  controller, any answer being allowed; since none runs twice this restricts
  nothing. A callback's own effects are not modelled.
- StraightLine.WriteLine: that the line is coloured as meant takes right steps:
  plain `char` signed, or a line that goes neither left nor up (`UnsignedIff`). What
  a write past the buffer hits is not part of this model. Distances from 2^30 up,
  whose doubling overflows, are excluded. Colour conversion and pixel widths are
  left out: a pixel is one buffer element.
- ChrdevTable.Registry.Unregister: ranges that reach major 4095, after which the
  32-bit successor wraps to 0.
- ChrdevTable.Registry.Register: ranges whose end wraps round 32 bits.
- Kobjmap.Map.Register: empty ranges and ranges whose end wraps; a failing
  allocation. Which of the entries' memory is freed is not modelled.
- Kobjmap.Map.Unregister: the same ranges.
- Kobjmap.Map.Lookup: numbers of major 255 and above, which share buckets with
  lower majors.
- Chrdev.RegisteredIff: ranges from major 0 are the subject of `RegisteredLowIff`.
- Chrdev.RegisteredHolds: ranges from major 0 are the subject of
  `RegisteredLowHolds`.
- Fcntl.FileTable.GetUnusedFd: a full base table, see `Open`.
- Fcntl.FileTable.Open: a full base table; the expanded table frees its whole
  array with its first slot and is not part of this model.
- Out-of-memory paths except where a row mentions them.
- `kernel/mailbox.c`, `platform/fwk_kobject.c`, bus and driver matching, string
  formatting, register-level drivers, boot code, fonts and example applications.
