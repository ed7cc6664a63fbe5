# OROS: models and proofs of the kernel, USB, network and logging cores

OROS is a bare-metal real-time kernel for a four-core AArch64 board. This project models
the parts of it whose correctness depends on state that several parties share, and proves
what they keep over every run.

| files | what they model |
|---|---|
| `Sched`, `RoundRobin`, `SchedRuns` | the partitioned fixed-priority scheduler: its code, its fairness, and its runs with four cores and a creator interleaved |
| `Spinlock`, `PiMutex`, `PiMutexSteps`, `Inversion` | the exclusive-access spinlock, the priority-inheritance mutex as atomic operations and as single memory accesses, and bounded inversion |
| `TrbRing`, `EventRing` | the xHCI command and transfer rings with a toggling Link TRB, and the software-consumed event ring (sections 4.9.2, 4.9.3, 4.9.4 and 4.11.5.1 of the xHCI specification 1.2) |
| `SpscRing`, `Mailbox` | the lock-free rings between cores, per memory access, and the 4 x 4 mailbox matrix |
| `Jail`, `JailLaws`, `JailForms` | the in-place SFTP path resolver, the laws of its verdicts, and its rules with characters and limits written out |
| `SshRing`, `SshSession`, `SshSessionLaws` | the byte rings on wrapping 32-bit counters, the SSH session machine, and its transitions written out |
| `Strings`, `KlogText`, `Klog` | log text, numerals, the log rings and the budgeted drain |
| `Plc` | the cyclic scan engine against a nondeterministic monotonic counter |
| `OcpWindow`, `OcpAccess` | the RTL8153 register window: chunked block transfers, byte enables, the cached bank |
| `GmacRx` | the OWN-bit receive ring shared with the DMA |
| `Cat` | the streaming `cat` |
| `Arithmetic` | facts about division and concatenation that the others share |

Code that changes state in the source is a class or an in-place method here, proved against
a specification function or relation; the laws over whole runs are lemmas about those.
Hardware and libraries (DMA, xHCI controller, wolfSSH, lwIP, FatFs, the counter) are
nondeterministic: they are parameters of the operations, or steps of a machine.

The modules follow `template/` where a file exists there. `template/kernel/sched.c` builds a
thread's frame before it publishes the thread; `demo/kernel/sched.c` publishes first.

## What the proofs found

Each of these is a lemma or a contract that says exactly when the code does what it should.

- The tick handler sets the current thread RUNNING when its partition has no candidate: a
  thread the trampoline has just blocked comes back exactly when it was alone
  (`SchedRuns.ExitedIsRevivedIff`).
- Publishing a thread before its frame is built lets a tick resume a context that nobody
  built, exactly when no better thread and none of equal priority met first is runnable
  (`SchedRuns.EarlyPublishIsFaithfulIff`). `demo/kernel/main.c:609-633` creates all its
  threads before any core schedules, so this order does no harm there; it would with a
  thread created later.
- `mutex_unlock()` restores the base priority unconditionally. With nested mutexes this
  loses a boost exactly when another held mutex has a waiter above the base priority
  (`PiMutex.NestedUnlockKeepsLawIff`). `mutex.h` calls owner_prio the base priority; the
  code stores the effective one, which is the same only without nesting.
- The TRB rings carry 15 work TRBs, but only 14 may be outstanding: with 15 the next write,
  or the Link TRB of the lap, turns a cycle bit the controller still needs
  (`TrbRing.UnsafeWriteFails`, `TrbRing.UnsafeCloseStalls`). The driver does not count
  them. `ep_xfer()` gives up after two seconds and leaves its TRB queued, and
  `demo/net/netif_r8152.c:135` polls in a loop, so on an idle link the sixteenth poll is
  the unsafe one (`TrbRing.SixteenthPollStalls`).
- `append_hex()` drops the low digits of a value that does not fit, so the text then shows a
  smaller number (`KlogText.ValueReadsBackIff`, `KlogText.CutReadsWrong`).
- `generic_ocp_write()` uses bursts of 512 bytes through a 64-byte control buffer: blocks
  above 72 bytes fail with exactly their first dword written
  (`OcpWindow.Device.GenericWrite`).
- `ocp_write_word()` on an index that is 1 modulo 4 writes nothing, and a bank write that
  fails leaves a wrong bank in the cache, because neither result is looked at
  (`OcpAccess.Rtl.WriteWord`, `OcpAccess.Rtl.SelectBank`).
- The path resolver takes a backslash for a slash everywhere but in the prefix it strips:
  `/srv/a` names `a` in the jail, `\srv\a` names `srv/a` there
  (`JailForms.BackslashIsSlashIff`).
- An SSH session in the handshake does not look at a close request
  (`SshSession.Server.AdvanceAccept`); it acts on it once a shell or SFTP session runs.

## Model

| member | source | states |
|---|---|---|
| `Sched.PickIsUnique` | `template/kernel/sched.c:146-166` | the round-robin rule (best priority value, then nearest after the caller in cyclic table order) leaves one answer |
| `Sched.Scheduler.constructor` | `template/kernel/sched.c:80-87` | an empty table, every core idle |
| `Sched.Scheduler.CreateOn` | `template/kernel/sched.c:89-136` | a full table or a bad core changes nothing and yields -1; otherwise exactly one new READY slot with base and effective priority equal, everything else untouched |
| `Sched.Scheduler.PickNext` | `template/kernel/sched.c:146-166` | the scan with a running best returns the thread the round-robin rule owes the core; none exactly when nobody can run, as in an empty table |
| `Sched.Scheduler.OnTick` | `template/kernel/sched.c:201-223` | saves the interrupted context, demotes RUNNING only, dispatches the pick (or keeps the current thread when there is none) and returns that thread's saved stack pointer |
| `Sched.Scheduler.Start` | `template/kernel/sched.c:168-193` | the first dispatch is the lowest-numbered READY thread of best priority; with none, nothing changes |
| `Sched.StartDispatchesTheBest` | `template/kernel/sched.c:168-193` | of the READY threads of the core it takes one of the best priority and among those the lowest-numbered; that one becomes RUNNING and current and nothing else changes; with no READY thread nothing changes |
| `Sched.Scheduler.Exit` | `template/kernel/sched.c:67-78` | a returned thread is blocked, nothing else changes |
| `Sched.Scheduler.PartitionCount` | `template/kernel/sched.c:231-239` | the number of distinct runnable threads of the partition |
| `Sched.Scheduler.GetPriority` | `template/kernel/sched.c:242-245` | effective priority; the "none" value for unknown ids |
| `Sched.Scheduler.SetEffectivePriority` | `template/kernel/sched.c:247-251` | only ever raises, and only that thread |
| `Sched.Scheduler.RestorePriority` | `template/kernel/sched.c:253-257` | back to base, unconditionally |
| `RoundRobin.TopsBelowExact` | `template/kernel/sched.c:146-166` | the list of top threads is increasing and holds exactly the runnable threads of best priority |
| `RoundRobin.PickIsSuccessor` | `template/kernel/sched.c:146-166` | from a member of that list the pick is its cyclic successor in the list |
| `RoundRobin.PickIsTop` | `template/kernel/sched.c:146-166` | a pick exists whenever somebody can run, and is always a top thread |
| `RoundRobin.TickKeepsTops` | `template/kernel/sched.c:201-223` | a tick changes neither the runnable set nor its priorities |
| `RoundRobin.OtherCoreTickIsStable` | `template/kernel/sched.c:201-223` | a tick on another core is invisible to this core's dispatcher |
| `RoundRobin.CyclicCover` | `template/kernel/sched.c:146-166` | walking once round the list meets every member exactly once |
| `RoundRobin.RoundRobinIsFair` | `template/kernel/sched.c:146-166` | main result: m consecutive ticks on a core dispatch each of its m top threads exactly once and nobody else, whatever ran before and whatever other cores do in between |
| `SchedRuns.StepKeepsInv` | `template/kernel/sched.c:67-223` | each tick, first dispatch, exit, priority change and single creation write keeps: affinity, one RUNNING thread per core, a frame for every visible thread, faithful contexts |
| `SchedRuns.RunsKeepInv` | `template/kernel/sched.c:67-223` | main result: that invariant over every run in which four cores schedule while one creator extends the table write by write |
| `SchedRuns.TickDispatchesTheBest` | `template/kernel/sched.c:201-223` | in any reachable state a tick dispatches a thread of best priority of its partition; with no candidate the current thread goes on, in state RUNNING |
| `SchedRuns.ExitedIsRevivedIff` | `template/kernel/sched.c:67-78` | a thread that returned and was blocked is set RUNNING again by the next tick if and only if its partition has nobody else to run |
| `SchedRuns.CreationStepsAreCreateOn` | `template/kernel/sched.c:89-136` | the four separate writes, undisturbed, amount to thread_create_on() |
| `SchedRuns.EarlyPublishIsFaithfulIff` | `demo/kernel/sched.c:87-120` | with the counter incremented first, a tick before the frame is built restores a right context if and only if a better thread, or one of equal priority met first, gets the core; otherwise it resumes the newcomer with a context nobody built |
| `Spinlock.StepKeepsInv` | `template/kernel/sync.c:29-69` | each instruction keeps: at most one holder, the word is 1 exactly while there is one, good reservations saw the current value |
| `Spinlock.MutualExclusion` | `template/kernel/sync.c:29-69` | main result: mutual exclusion over every interleaving of the exclusive loads and stores, spurious failures included |
| `Spinlock.RefinesAtomicLock` | `template/kernel/sync.c:29-69` | each instruction is, seen from outside, nothing, an acquisition of a free lock, or a release by the holder |
| `Spinlock.FreeLockIsObtained` | `template/kernel/sync.c:29-59` | an undisturbed attempt on a free lock succeeds |
| `PiMutex.StepKeepsInv` | `template/kernel/mutex.c:47-101` | every mutex operation and every scheduler action keeps the inheritance law |
| `PiMutex.InheritanceLaw` | `template/kernel/mutex.c:47-101` | main result: over all runs without nesting a mutex has one owner, whose priority is the minimum of its base and the waiters that reached the busy branch in this tenure; everybody else is at base; owner_prio is the owner's base |
| `PiMutex.TickIsSchedAction` | `template/kernel/sched.c:201-223` | a tick is one of the scheduler actions the law allows at any time |
| `PiMutex.OtherSchedActions` | `template/kernel/sched.c:67-78` | so are exits and first dispatches |
| `PiMutex.NestedUnlockKeepsLawIff` | `template/kernel/mutex.c:90-101` | with nesting, an unlock keeps the law if and only if no waiter of another mutex the owner still holds is more urgent than its base |
| `PiMutex.NestedUnlockLosesABoost` | `template/kernel/mutex.c:61-101` | a concrete run of two threads, step by step from an initial state, in which the inner unlock drops a boost from 1 back to 5 while the urgent thread still waits |
| `PiMutex.KMutex.constructor` | `template/kernel/mutex.c:39-45` | a free mutex |
| `PiMutex.KMutex.Attempt` | `template/kernel/mutex.c:61-88` | one round of mutex_lock(): takes a free mutex with the priority read on entry, or raises the holder exactly when the caller is more urgent |
| `PiMutex.KMutex.TryLock` | `template/kernel/mutex.c:47-59` | takes a free mutex, leaves a held one and all priorities alone |
| `PiMutex.KMutex.Unlock` | `template/kernel/mutex.c:90-101` | releases and restores the owner's base priority |
| `PiMutex.Semaphore.TryWait` | `template/kernel/mutex.c:111-121` | gets through exactly when a permit is there, and takes one |
| `PiMutex.Semaphore.Post` | `template/kernel/mutex.c:132-137` | adds one permit |
| `PiMutex.PermitsAreConserved` | `template/kernel/mutex.c:105-142` | over any history: count = initial + posts - successful waits, never negative |
| `PiMutexSteps.GoRefines` | `template/kernel/mutex.c:47-101` | each single memory access of a guarded section is invisible or one atomic mutex operation |
| `PiMutexSteps.MicroRefines` | `template/kernel/mutex.c:47-101` | the same for calls and scheduler actions, and the sections' local knowledge survives everybody else's steps |
| `PiMutexSteps.InterleavingsKeepTheLaw` | `template/kernel/mutex.c:47-101` | main result: the inheritance law for every interleaving of the single accesses under the guard |
| `Inversion.InterleavingIsTrace` | `template/kernel/mutex.c:47-101` | every such interleaving is a run of atomic operations seen from outside |
| `Inversion.BoostLasts` | `template/kernel/mutex.c:61-101` | a waiter's priority keeps counting for the owner until it unlocks |
| `Inversion.BoundedInversion` | `template/kernel/mutex.c:61-101` | main result: while the owner can run, no tick on its core dispatches a thread less urgent than the waiter |
| `Inversion.TickApproaches` | `template/kernel/sched.c:146-166` | a tick dispatches a given top thread or leaves fewer threads ahead of it |
| `Inversion.OwnerRunsWithin` | `template/kernel/sched.c:201-223` | a thread that stays among the m top threads is dispatched by one of the next m ticks, while others exit, change urgency, or run elsewhere, as long as nobody joins them |
| `Inversion.ExitsAreTurns` | `template/kernel/sched.c:67-78` | exits of other threads are such steps |
| `Inversion.OtherTicksAreTurns` | `template/kernel/sched.c:201-223` | so are ticks of other cores |
| `Inversion.BoostedOwnerRunsWithin` | `template/kernel/mutex.c:61-101` | main result: an owner boosted by the most urgent priority of its partition is dispatched by one of the next m ticks of its core, in every run in which it keeps the mutex and nobody joins the m top threads |
| `TrbRing.WriteTrb` | `demo/drivers/usb/hcd_xhci.c:458-472` | one TRB write leads from the closed form of the ring to that of the longer history, on every lap |
| `TrbRing.WriteLink` | `demo/drivers/usb/hcd_xhci.c:473-487` | so does the Link TRB that ends a lap |
| `TrbRing.GiveBack` | `demo/drivers/usb/hcd_xhci.c:590-602` | so does the cycle bit of a TRB kept back |
| `TrbRing.Ring.constructor` | `demo/drivers/usb/hcd_xhci.c:232-258` | a zeroed ring, index 0, cycle state 1 |
| `TrbRing.Ring.Push` | `demo/drivers/usb/hcd_xhci.c:458-487` | the in-place write, the kept-back first TRB and the wrap over the Link TRB extend the pushed sequence by exactly this TRB |
| `TrbRing.Ring.GiveBackFirst` | `demo/drivers/usb/hcd_xhci.c:590-602` | gives back the TRB kept, if any, and nothing else |
| `TrbRing.Ring.PushSingle` | `demo/drivers/usb/hcd_xhci.c:1071-1100` | a one-TRB transfer on a data ring |
| `TrbRing.Ring.ControlTd` | `demo/drivers/usb/hcd_xhci.c:965-991` | SETUP, optional DATA, STATUS end up pushed in this order with nothing kept back |
| `TrbRing.NextWork` | `demo/drivers/usb/hcd_xhci.c:458-487` | the controller's cycle test succeeds exactly below the limit, and it then reads the next pushed TRB |
| `TrbRing.NextLink` | `demo/drivers/usb/hcd_xhci.c:473-487` | at the Link TRB it goes on whenever there is work behind it |
| `TrbRing.SafeStepKeepsInv` | `demo/drivers/usb/hcd_xhci.c:458-602` | driver writes and controller steps keep the protocol invariant |
| `TrbRing.FourteenIsSafe` | `demo/drivers/usb/hcd_xhci.c:458-602` | at most 14 outstanding TRBs make every write safe |
| `TrbRing.RingRefinesFifo` | `demo/drivers/usb/hcd_xhci.c:458-602` | main result: over unlimited laps with at most 14 outstanding, the consumed sequence is a prefix of the pushed one, stops before a kept-back TRB, and the controller is never stuck short of that |
| `TrbRing.UnsafeWriteFails` | `demo/drivers/usb/hcd_xhci.c:458-487` | the bound is exact: a write over the oldest of 15 outstanding TRBs leaves the controller stuck, or is consumed in the place of that TRB |
| `TrbRing.UnsafeCloseStalls` | `demo/drivers/usb/hcd_xhci.c:473-487` | the other unsafe write: closing a lap before the previous link was followed stalls it with 15 TRBs left |
| `TrbRing.TdIsAtomic` | `demo/drivers/usb/hcd_xhci.c:557-602` | main result: nothing of a TD is consumed between its first TRB and the giveback, across the Link TRB too |
| `TrbRing.DrainDelivers` | `demo/drivers/usb/hcd_xhci.c:590-602` | once given back, everything is consumed in order and then the controller stops |
| `TrbRing.IdlePolling` | `demo/drivers/usb/hcd_xhci.c:1055-1113` | polls of an idle endpoint that time out pile up one outstanding TRB each |
| `TrbRing.SixteenthPollStalls` | `demo/drivers/usb/hcd_xhci.c:1055-1113` | after 15 of them the next poll makes the unsafe write, and the controller is stuck without having consumed anything |
| `TrbRing.ControlTransferDelivered` | `demo/drivers/usb/hcd_xhci.c:965-991` | main result: in a run, a control transfer is invisible to the controller until its giveback; after it SETUP, optional DATA, STATUS are consumed in this order right after what was there before, without a stall, whatever else is pushed |
| `EventRing.SlotOfNext` | `demo/drivers/usb/hcd_xhci.c:509-541` | the cycle bit at the dequeue index tells a pending event from an old one, on every lap |
| `EventRing.OverrunHidesEverything` | `demo/drivers/usb/hcd_xhci.c:509-541` | why the controller must respect the dequeue pointer: one event too many and the driver takes the ring for empty |
| `EventRing.Ring.Post` | `demo/drivers/usb/hcd_xhci.c:509-541` | the controller's side: it stops at a ring-full of unacknowledged events |
| `EventRing.Ring.Acknowledge` | `demo/drivers/usb/hcd_xhci.c:493-503` | index and cycle state move to the next event |
| `EventRing.Ring.Look` | `demo/drivers/usb/hcd_xhci.c:509-541` | one poll sees the earliest unacknowledged event, if there is one |
| `EventRing.Ring.Wait` | `demo/drivers/usb/hcd_xhci.c:509-541` | main result: returns the earliest wanted event that is pending or arrives in time and discards exactly those before it; an empty look is followed by another until the bursts are used up, so a timeout comes only after one look more than there were bursts; on an empty ring the first arrival is returned if its type is wanted |
| `EventRing.TimeoutIffNothingWantedArrives` | `demo/drivers/usb/hcd_xhci.c:509-541` | a wait times out if and only if no event that is pending or arrives with any of the bursts has the wanted type |
| `EventRing.FirstArrivalIsReturned` | `demo/drivers/usb/hcd_xhci.c:509-541` | after any number of empty looks the first event to arrive is returned if its type is wanted |
| `EventRing.NothingSkippedOrRepeated` | `demo/drivers/usb/hcd_xhci.c:493-541` | main result: successive waits for a type return the events of that type in order, each once |
| `SpscRing.FullMeansFull` | `template/kernel/mailbox.c:52-71` | the sender's test next == tail means exactly n - 1 unread messages |
| `SpscRing.StepKeepsInv` | `template/kernel/mailbox.c:52-96` | every single access of either side keeps the ring invariant |
| `SpscRing.StepRefinesFifo` | `template/kernel/mailbox.c:52-96` | each access is, seen from outside, nothing, an enqueue with room, or a dequeue of the oldest; empty and full verdicts are true at that instant |
| `SpscRing.InterleavingsAreFifo` | `template/kernel/mailbox.c:52-96` | main result: over every interleaving what was received is a prefix of what was accepted, no unread slot was overwritten, and each drop was counted at an instant when the ring held exactly n - 1 |
| `Mailbox.Matrix.constructor` | `template/kernel/mailbox.c:42-50` | sixteen empty queues |
| `Mailbox.Matrix.Send` | `template/kernel/mailbox.c:52-71` | enqueues at exactly that (source, destination) pair or counts a drop at 63 messages; every other queue and counter unchanged |
| `Mailbox.Matrix.Recv` | `template/kernel/mailbox.c:81-96` | takes the oldest message of exactly that pair; bad source or empty queue yields nothing |
| `Mailbox.Matrix.RecvAny` | `template/kernel/mailbox.c:98-108` | serves the lowest-numbered source that has something; empty means all four queues are |
| `Jail.WriteRoot` | `template/fs/sftp_jail.c:74-82` | the immutable prefix and its terminator |
| `Jail.SkipPrefixes` | `template/fs/sftp_jail.c:84-100` | drops a drive prefix and a whole first segment /srv, nothing else |
| `Jail.NextSegment` | `template/fs/sftp_jail.c:102-116` | the scan isolates the next non-empty piece between separators |
| `Jail.Pop` | `template/fs/sftp_jail.c:122-130` | removes the last segment and its separator; buffer and offset stack stay aligned |
| `Jail.Append` | `template/fs/sftp_jail.c:132-144` | adds one segment; buffer and offset stack stay aligned |
| `Jail.OneSegment` | `template/fs/sftp_jail.c:118-145` | one round of the loop follows the fold, with the same verdict on every limit |
| `Jail.Resolve` | `template/fs/sftp_jail.c:63-153` | main result: the in-place resolver computes the fold over the segments, ends in a terminated path, and never writes at or beyond out_sz; what segments, separators, prefixes, dots and limits are is stated in JailForms |
| `JailLaws.WalkOkIff` | `template/fs/sftp_jail.c:102-145` | the fold with limits succeeds exactly when the unlimited reduction does and every intermediate stack fits |
| `JailLaws.ResolvedOkIff` | `template/fs/sftp_jail.c:63-153` | FR_OK exactly then, with the stack of the reduction |
| `JailLaws.ResolvedDeniedIff` | `template/fs/sftp_jail.c:122-130` | FR_DENIED exactly when a ".." meets an empty stack before any depth or length limit failed |
| `JailLaws.ResolvedIsConfined` | `template/fs/sftp_jail.c:63-153` | an accepted path is the jail root followed by clean names |
| `JailLaws.SegmentsSplit` | `template/fs/sftp_jail.c:102-116` | splitting at a separator splits the segments |
| `JailLaws.ResolveComposes` | `template/fs/sftp_jail.c:63-153` | resolving a/b walks the segments of b from where a ended, within the same limits |
| `JailLaws.ResolveIsIdempotent` | `template/fs/sftp_jail.c:63-153` | resolving an accepted path with the same buffer size returns it unchanged |
| `JailForms.BackslashIsSlash` | `template/fs/sftp_jail.c:49-52` | main result: turning every backslash of a path into a slash changes neither the verdict nor the path, unless the path begins with \srv |
| `JailForms.BackslashIsSlashIff` | `template/fs/sftp_jail.c:84-116` | of the inputs accepted in one of the two forms, exactly those that begin with \srv as a whole segment, after a drive prefix if any, mean different paths in them |
| `JailForms.BackslashRootExample` | `template/fs/sftp_jail.c:90-100` | the input for it: /srv is the jail itself, \srv a directory srv in the jail |
| `JailForms.SegmentRules` | `template/fs/sftp_jail.c:102-116` | a name is one segment, a slash or backslash in front adds nothing, and a path is cut at either |
| `JailForms.DotsBeforeBackslash` | `template/fs/sftp_jail.c:122-130` | a ".." before a backslash is an escape like any other, whatever follows |
| `JailForms.BackslashBetweenNames` | `template/fs/sftp_jail.c:102-145` | two names with a backslash between them resolve to these two names |
| `JailForms.AcceptedPath` | `template/fs/sftp_jail.c:63-153` | an accepted path begins with 0:/srv, has no backslash, at most 32 names, none of them empty, "." or ".." or with a separator in it, and fits the buffer with its terminator |
| `JailForms.DotRules` | `template/fs/sftp_jail.c:118-130` | "." is nothing, ".." takes back the name before it, and with no name left it is an escape whatever follows |
| `JailForms.FitsIff` | `template/fs/sftp_jail.c:132-144` | the limits in numbers: 32 names, and 6 characters, a slash before each name, the names and the terminator in out_sz |
| `JailForms.DriveIsIgnored` | `template/fs/sftp_jail.c:84-88` | any character and a colon in front of a path change nothing |
| `JailForms.RootIsIgnored` | `template/fs/sftp_jail.c:90-100` | /srv as a whole segment in front is dropped |
| `JailForms.LongerNameIsKept` | `template/fs/sftp_jail.c:90-100` | a longer name that begins with srv is a name inside the jail |
| `SshRing.DistanceSurvivesWrap` | `template/net/ssh_server.c:123-131` | the 32-bit difference of the counters is the true distance, whatever wrapped |
| `SshRing.SlotSurvivesWrap` | `template/net/ssh_server.c:133-155` | a counter that wraps does not jump in the array |
| `SshRing.ChunkIsContiguous` | `template/net/ssh_server.c:283-312` | a chunk bounded by the end of the array is a piece of the byte history |
| `SshRing.RoundsAreFew` | `template/net/ssh_server.c:283-312` | with a stream that takes every chunk whole, a full ring needs fewer than ten of the 64 rounds |
| `SshRing.WillingStreamGetsAll` | `template/net/ssh_server.c:283-312` | so such a stream gets everything in one flush |
| `SshRing.SentIsAnswered` | `template/net/ssh_server.c:283-312` | partial sends add up: what gets through is the sum of the positive answers in front of the first other one, capped by what is queued |
| `SshRing.Ring.Used` | `template/net/ssh_server.c:257-257` | the number of unread bytes, at most 8192 |
| `SshRing.Ring.Push` | `template/net/ssh_server.c:133-141` | appends what fits, drops the rest |
| `SshRing.Ring.Pop` | `template/net/ssh_server.c:143-153` | takes the oldest bytes, as many as asked for or there are |
| `SshRing.Ring.SendOnce` | `template/net/ssh_server.c:283-312` | with the chunk written out, min(unread, bytes to the end of the array, 1024): an answer that is not positive sends nothing, one within the chunk sends exactly that many of the next bytes |
| `SshRing.Ring.Flush` | `template/net/ssh_server.c:283-312` | main result: across partial sends and wraps the stream receives the next bytes in order; as long as no answer exceeds its chunk, exactly as many as the answers in front of the first that is not positive, at most 64 of them, add up to, until nothing is left |
| `SshSession.Server.constructor` | `template/net/ssh_server.c:637-681` | no session |
| `SshSession.Server.CloseSession` | `template/net/ssh_server.c:358-372` | back to IDLE with both rings void |
| `SshSession.Server.TcpAccept` | `template/net/ssh_server.c:572-632` | a connection is admitted exactly from IDLE with a PCB and a wolfSSH object; a refused one leaves a running session untouched |
| `SshSession.Server.TcpErr` | `template/net/ssh_server.c:526-536` | back to IDLE with everything void |
| `SshSession.Server.TcpRecv` | `template/net/ssh_server.c:538-562` | the bytes that fit join the receive ring, all of them in order; an end of connection only asks for the close |
| `SshSession.Server.IoRecv` | `template/net/ssh_server.c:161-171` | wolfSSH takes the oldest bytes |
| `SshSession.Server.ShellOut` | `template/net/ssh_server.c:266-281` | buffers what fits, never touches what was already queued |
| `SshSession.Server.Reads` | `template/net/ssh_server.c:428-455` | the read loop queues exactly the text of the first 64 passes that fits, and asks to close exactly when one of them does |
| `SshSession.Server.ReadAndFlush` | `template/net/ssh_server.c:428-462` | the stream then receives the next queued bytes, as many as its answers add up to |
| `SshSession.Server.AdvanceAccept` | `template/net/ssh_server.c:377-426` | each handshake outcome: the banner is queued when the shell opens, a waiting close request is neither acted on nor lost |
| `SshSession.Server.AdvanceRun` | `template/net/ssh_server.c:428-468` | the poll closes the session exactly when a close was asked for and everything queued was sent; otherwise queue, sent bytes and request are what the reads and sends make them |
| `SshSession.Server.AdvanceSftp` | `template/net/ssh_server.c:470-519` | the pump ends the session exactly on a pending close or when one of its first 16 passes closes or fails before a blocking one |
| `SshSession.Server.Poll` | `template/net/ssh_server.c:683-694` | only an active session moves, each state as its branch says |
| `SshSession.Session` | `template/net/ssh_server.c:358-632` | any sequence of accept, error, receive, read-callback and poll events leaves the server where the fold of the transitions says, and the stream has received what they say |
| `SshSession.SessionInvariant` | `template/net/ssh_server.c:358-632` | main result: after any such sequence the state is IDLE iff there is no wolfSSH object iff there is no PCB |
| `SshSession.AdmittedOnlyFromIdle` | `template/net/ssh_server.c:572-632` | over any run a session is admitted exactly by an accept event that finds the server IDLE with a PCB and a wolfSSH object, starts empty, and IDLE is left in no other way |
| `SshSession.StreamIsPrefix` | `template/net/ssh_server.c:257-312` | over any run what the stream received from a session is a prefix of what the session printed and could buffer |
| `SshSession.ShellEndsWhenAllIsSent` | `template/net/ssh_server.c:457-468` | main result: over any run a shell session ends by a TCP error or in a poll after which a close was asked for and the stream has everything the session printed, and then it does end |
| `SshSessionLaws.RefusalChangesNothing` | `template/net/ssh_server.c:572-632` | a connection that is not admitted, for whatever reason, leaves the server as it was |
| `SshSessionLaws.ReceiveOutcomes` | `template/net/ssh_server.c:538-562` | bytes from the client join the receive ring as far as 8192 bytes allow, an end of connection is only remembered, wolfSSH takes at most what it asks for |
| `SshSessionLaws.HandshakeOutcomes` | `template/net/ssh_server.c:379-423` | each result of wolfSSH_accept() written out, with a pending close request looked at by none of them |
| `SshSessionLaws.PrintedIsOutput` | `template/net/ssh_server.c:428-455` | what a poll queues is the text of its reads up to the first without text, as far as it fits |
| `SshSessionLaws.CloseAskedIff` | `template/net/ssh_server.c:428-455` | a close is asked for if and only if a read that the loop comes to asks for it, ends the channel or fails |
| `SshSessionLaws.ShellOutcomes` | `template/net/ssh_server.c:425-469` | the whole poll of a shell session: 64 reads, the flush, and the end exactly when a close was asked for and nothing is left to send |
| `SshSessionLaws.PumpEndsIff` | `template/net/ssh_server.c:472-512` | the pump ends a session if and only if it comes to a closed channel or an error before a request that blocks with no reply pending |
| `SshSessionLaws.SftpOutcomes` | `template/net/ssh_server.c:472-517` | the whole poll of an SFTP session: it ends exactly then, within 16 requests, or when a close was pending; otherwise nothing changes |
| `KlogText.CopyStr` | `template/kernel/klog.c:83-92` | the longest prefix that fits with its terminator; bytes behind it untouched |
| `KlogText.AppendHex` | `template/kernel/klog.c:95-112` | appends 0x and as many leading hexadecimal digits as fit, or nothing when not even one would |
| `KlogText.ValueReadsBackIff` | `template/kernel/klog.c:95-135` | main result: the logged value reads back from the text if and only if the message leaves room for all its digits |
| `KlogText.CutReadsWrong` | `template/kernel/klog.c:95-112` | when it does not, whatever digits are there stand for a smaller number |
| `KlogText.ShortMessagesKeepTheirValue` | `template/kernel/klog.c:95-135` | messages of at most 77 characters never lose a digit of a 64-bit value |
| `KlogText.PutU64` | `template/kernel/klog.c:148-155` | prints the decimal numeral of every 64-bit value; 24 characters suffice |
| `Strings.NumeralParses` | `template/kernel/klog.c:148-155` | a numeral stands for its number, in decimal and hexadecimal |
| `Strings.CutNumeralDiffers` | `template/kernel/klog.c:95-112` | a numeral with digits cut off the end stands for less |
| `Klog.LineIdentifiesEntry` | `template/kernel/klog.c:174-182` | from a printed line the time stamp, the core and the message read back |
| `Klog.PutS` | `template/kernel/klog.c:174-182` | prints a buffer up to its terminator |
| `Klog.Log.constructor` | `template/kernel/klog.c:73-80` | four empty rings |
| `Klog.Log.Put` | `template/kernel/klog.c:114-135` | appends to exactly that core's ring, or counts a drop at 255 entries |
| `Klog.Log.Push` | `template/kernel/klog.c:114-135` | the entry that joins carries the stamp, the core and the composed text |
| `Klog.Log.DrainRing` | `template/kernel/klog.c:166-188` | one ring gives its oldest entries, as many as the budget left allows |
| `Klog.Log.Drain` | `template/kernel/klog.c:157-193` | main result: the output is the lines of a prefix of ring 0 to ring 3 concatenated; for budget 0 it is everything and all rings are empty, otherwise min(budget, total) entries; each ring keeps exactly the rest |
| `Klog.FlatOfFour` | `template/kernel/klog.c:157-193` | the order of the drain: core 0, then 1, 2 and 3 |
| `Klog.FlatAfter` | `template/kernel/klog.c:157-193` | the rings' shares add up to one prefix |
| `Plc.Engine.constructor` | `template/kernel/plc.c:53-67` | no task, no cycle, all statistics zero |
| `Plc.Engine.Register` | `template/kernel/plc.c:69-83` | sixteen tasks at most; a divider 0 means every cycle |
| `Plc.Engine.RecordJitter` | `template/kernel/plc.c:92-100` | the last jitter, and the maximum raised to it |
| `Plc.Engine.RecordExec` | `template/kernel/plc.c:117-120` | the last duration, and the maximum raised to it |
| `Plc.Engine.Scan` | `template/kernel/plc.c:102-114` | one cycle by positions: inputs are read first and once, outputs written last and once, each only with its hook; between them exactly the tasks whose divider divides the cycle number, in registration order |
| `Plc.CycleInOrder` | `template/kernel/plc.c:102-114` | the schedule of a cycle is in that order |
| `Plc.RunInOrder` | `template/kernel/plc.c:140-157` | the schedule of a run can be cut into its cycles, numbered on one by one, each in that order, with nothing between them |
| `Plc.Engine.Settle` | `template/kernel/plc.c:125-138` | one reading decides: past the deadline it is counted as an overrun and becomes the deadline; otherwise the counter is read until the deadline is reached and not further |
| `Plc.Engine.OneCycle` | `template/kernel/plc.c:92-138` | one cycle is measured by its own readings of the counter: start, jitter, duration and lag are what the readings say; next deadline = deadline + period + lag; statistics and calls grow by exactly this cycle |
| `Plc.Engine.NextCycle` | `template/kernel/plc.c:140-157` | one round of the loop extends the run by one measured cycle |
| `Plc.Engine.RunBounded` | `template/kernel/plc.c:150-157` | main result: n measured cycles whose deadlines follow from each other, from the reading taken at the start; the counter was read by them alone, the overruns grew by those whose lag is positive, and what was called is their schedule |
| `Plc.RunCallsInOrder` | `template/kernel/plc.c:150-157` | main result: what a run adds to the trace is its cycles one after the other, each in the order inputs, due tasks, outputs, and nothing else |
| `Plc.StatisticsAreTrue` | `template/kernel/plc.c:92-138` | overruns is the number of cycles that missed their next deadline, the maxima are maxima over all cycles, the last values those of the last cycle |
| `Plc.CadenceHasNoDrift` | `template/kernel/plc.c:92-138` | in every such run the i-th deadline is start + i * period + the lags measured before it, and the cycle starts at or after it |
| `Plc.NoOverrunIffPeriodic` | `template/kernel/plc.c:122-138` | a run leaves the overrun counter alone if and only if every deadline, the next one included, is a multiple of the period after its start |
| `Plc.DividedRate` | `template/kernel/plc.c:107-114` | between any two cycles a task runs once per multiple of its divider |
| `Plc.MultiplesByCeil` | `template/kernel/plc.c:107-114` | that number in closed form, for any window |
| `Plc.DividedRateFromInit` | `template/kernel/plc.c:107-114` | a task with divider e runs exactly ceil(n/e) times in the first n cycles: the least number whose product with e reaches n |
| `OcpWindow.StoredIsWrote` | `demo/drivers/usb/class_r8152.c:234-245` | a transfer with byte enables writes exactly the enabled bytes, through the window too |
| `OcpWindow.WroteConcat` | `demo/drivers/usb/class_r8152.c:265-293` | adjacent transfers add up to one block |
| `OcpWindow.BlockReadsBack` | `demo/drivers/usb/class_r8152.c:247-293` | a block that avoids the bank register reads back, and no other bus address changes |
| `OcpWindow.Device.GetRegs` | `demo/drivers/usb/class_r8152.c:219-232` | a control IN returns the bytes of the addresses asked for, refused above 64 |
| `OcpWindow.Device.SetRegs` | `demo/drivers/usb/class_r8152.c:234-245` | a control OUT writes exactly the enabled bytes, refused above 64 with nothing written |
| `OcpWindow.MaskBits` | `demo/drivers/usb/class_r8152.c:265-293` | bits 0 to 3 of the byte enables select in the first dword, bits 4 to 7 in the last of a longer block, everything between is written |
| `OcpWindow.Device.GenericRead` | `demo/drivers/usb/class_r8152.c:247-260` | the chunked read returns the whole block; refused exactly for unaligned or empty requests |
| `OcpWindow.Device.WriteMiddle` | `demo/drivers/usb/class_r8152.c:277-285` | the 512-byte bursts get through only when the middle fits the 64-byte control buffer |
| `OcpWindow.Device.GenericWrite` | `demo/drivers/usb/class_r8152.c:265-293` | succeeds exactly for aligned blocks of 4 to 72 bytes, and then writes exactly the enabled bytes; an aligned longer block fails with exactly its first dword written |
| `OcpAccess.WordReadsBack` | `demo/drivers/usb/class_r8152.c:322-337` | a word written anywhere but over the bank register reads back, and no byte outside it changed |
| `OcpAccess.Rtl.constructor` | `demo/drivers/usb/class_r8152.c:623-627` | the sentinel forces the first bank selection |
| `OcpAccess.Rtl.ReadWord` | `demo/drivers/usb/class_r8152.c:313-321` | the little-endian word the index lies in |
| `OcpAccess.Rtl.WriteWord` | `demo/drivers/usb/class_r8152.c:322-337` | exactly the two bytes of that word; an index 1 modulo 4 writes nothing |
| `OcpAccess.Rtl.ReadByte` | `demo/drivers/usb/class_r8152.c:338-346` | exactly that byte |
| `OcpAccess.Rtl.WriteByte` | `demo/drivers/usb/class_r8152.c:347-362` | exactly that byte, no other |
| `OcpAccess.Rtl.SelectBank` | `demo/drivers/usb/class_r8152.c:365-371` | the cached bank stays right if and only if the selecting write reached the device or was not needed |
| `OcpAccess.Rtl.OcpRegRead` | `demo/drivers/usb/class_r8152.c:365-374` | whatever bank was selected before, the word at the PHY address |
| `OcpAccess.Rtl.OcpRegWrite` | `demo/drivers/usb/class_r8152.c:375-384` | exactly the two bytes at the PHY address and no other PHY register |
| `OcpAccess.Accesses` | `demo/drivers/usb/class_r8152.c:365-384` | main result: any sequence of PHY accesses across banks acts on a flat memory; every read returns what that memory holds at that moment |
| `GmacRx.CpuOwnedIsOneRun` | `demo/drivers/gmac/gmac.c:765-798` | the descriptors the CPU owns are one cyclic run from g_rx_cur |
| `GmacRx.StatusFields` | `demo/drivers/gmac/gmac.c:165-171` | the fields of the status word by value: owner in bit 31, length in bits 29 to 16, error in bit 15 |
| `GmacRx.CheckSequenceIsDropped` | `demo/drivers/gmac/gmac.c:778-787` | the caller gets the frame without its last four bytes, as far as the buffer reaches |
| `GmacRx.Ring.constructor` | `demo/drivers/gmac/gmac.c:478-491` | all eight descriptors belong to the DMA |
| `GmacRx.Ring.Receive` | `demo/drivers/gmac/gmac.c:478-491` | the DMA's side: a frame is taken exactly while fewer than eight wait |
| `GmacRx.Ring.PollRecv` | `demo/drivers/gmac/gmac.c:765-798` | handles the oldest completed frame exactly once: its payload without check sequence cut to the buffer, or an I/O error for an errored one; bad buffers and an empty ring change nothing |
| `GmacRx.Serve` | `demo/drivers/gmac/gmac.c:765-798` | every run of DMA and driver answers as a plain queue of at most eight frames |
| `GmacRx.GoodFramesInOrderOnce` | `demo/drivers/gmac/gmac.c:765-798` | main result: what was handed out is, in order and each once, the good ones among the frames handled; the rest still waits |
| `Cat.Output.Flush` | `template/net/net_shell.c:1574-1580` | hands over the buffer if there is anything in it |
| `Cat.Output.Out` | `template/net/net_shell.c:1582-1595` | the bytes join what was written, whatever the fill of the buffer; it is handed over exactly when full |
| `Cat.Emit` | `template/net/net_shell.c:1674-1690` | the per-byte transform with its two carried variables |
| `Cat.CatFiles` | `template/net/net_shell.c:1641-1700` | main result: whatever the sizes of the reads, the output is the concatenated files with one numbering, in full buffers and one last shorter one |
| `Cat.RunIsByLines` | `template/net/net_shell.c:1674-1690` | the byte machine prints the text line by line: number, line, end mark |
| `Cat.LineByLine` | `template/net/net_shell.c:1674-1690` | one complete line: its number if wanted, the line, "$" if wanted, the newline, then the rest counted on; a last line without newline has no mark |
| `Cat.HeaderIs` | `template/net/net_shell.c:1675-1675` | a line number is the decimal numeral, padded with spaces to six characters, and a tab |
| `Cat.PlainIsIdentity` | `template/net/net_shell.c:1674-1690` | without options the text comes out as it is |
| `Cat.OutputTellsText` | `template/net/net_shell.c:1674-1690` | no two texts print the same, whatever the options |

## Left out

- Interrupt races inside the scheduler: the tick handler and `sched_start()` are atomic steps of their core; in the boot path interrupts are already on before `sched_start()`.
- Memory ordering: memory is sequentially consistent where the code issues barriers; cache maintenance and MMIO are not modelled.
- Thread frames and stacks: a frame is the address it is built at; register contents, stack sizes, names and the idle `wfi` loop are not modelled.
- Priority 0xFFFFFFFF: the scans never pick it; the model does the same, and the fairness and inversion results therefore speak of candidates with smaller values.
- PiMutex.InheritanceLaw: speaks of one mutex per thread at a time and of unlocks by the owner, because nested unlocking breaks it; `PiMutex.NestedUnlockKeepsLawIff` gives the exact condition there.
- PiMutex.KMutex.Attempt: is one round of the retry loop of `mutex_lock()`; that the loop ends is not claimed, as it depends on the owner unlocking. The same holds for `sem_wait()`.
- SpscRing.InterleavingsAreFifo: assumes one sending and one receiving thread per ring, as the comments of the source do; the write of a multi-field log entry is one step.
- TrbRing.RingRefinesFifo: assumes at most 14 outstanding TRBs. The command ring and EP0 keep to that as long as every command and transfer completes; `TrbRing.SixteenthPollStalls` is the run in which a data endpoint does not. What the controller does after that is not modelled.
- EventRing.Ring.Wait: the timeout is a number of looks at the ring, and what the controller posts between two looks is a parameter.
- Doorbells, contexts, port handling and error recovery of the xHCI driver, and all of EHCI, OHCI, HID and mass storage.
- Inversion.BoostedOwnerRunsWithin: assumes that nobody joins the top threads of the partition meanwhile; a stream of new equally urgent threads could keep the owner waiting.
- SshSession.Server.AdvanceRun: wolfSSH's reads and the line editor `ssh_feed_plain()` appear as what they print and whether they ask to close; key exchange, authentication and host keys are not modelled.
- SshSession.Server.IoRecv: is an event of its own, while wolfSSH calls it inside a poll; it touches only the receive ring, which the rest of a poll does not read. `ssh_io_send()` is part of what the stream answers.
- SshSession.Server.TcpRecv: is called only with a session, as the callback is registered per PCB; window updates and the freeing of pbufs are not modelled.
- The file operations behind the path resolver, and directory creation at start-up.
- Plc.Engine.RunBounded: `plc_run()` repeats the same round for ever; hooks and tasks are events in a trace; 64-bit wrap of the counter and of the statistics is not modelled.
- Klog.Log.Drain: the rings are quiet while it runs; a producer that is active at the same time is covered by `SpscRing` for one ring.
- Wrap-around of drop counters, of line numbers and of cycle counters; the totals `klog_dropped()` and `mailbox_dropped()`, and the interrupt of `mailbox_send_notify()`.
- OcpAccess.Accesses: control transfers succeed, except the bank write whose failure `OcpAccess.Rtl.SelectBank` covers; the USB register space is not distinguished, and 16-bit wrap of a block's address is not modelled.
- GmacRx.Ring.Receive: a frame fits one descriptor (1600 bytes); the driver does not look at the first and last bits, so frames over several descriptors would come out in pieces.
- The transmit ring, PHY and clock set-up of the GMAC driver.
- Cat.CatFiles: readable files only; messages about files that cannot be opened or read go around the buffer. Option parsing and path resolution of the shell are not modelled, nor `cp`, `mv` and `rm`.
- EtherCAT, FatFs, lwIP and wolfSSH themselves.
